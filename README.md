# shell-rs: the per-line step and the read loop, in Dafny

This project models the shell of `src/main.rs`. The shell is a loop. It prints a prompt and reads one line. It trims trailing whitespace and splits the line into whitespace-separated tokens. Then it dispatches on the first token:

- `echo` prints the remaining tokens joined by single spaces.
- `exit` parses an optional status as an `i32` and ends the process with that status, or with 1 when no status is given. A status that does not parse makes `expect` panic.
- Any other command is reported on standard error as `<name>: command not found`, and the loop goes round again.
- A line with no token at all (empty, or whitespace only) makes `parsed_input[0]` panic.

The model is split into modules that follow that structure:

- `Tokenize` (`Tokenize.dfy`) holds `trim_end`, `split_whitespace().collect()` and `join`. Whitespace is the full Unicode `White_Space` property, which Rust's `char::is_whitespace` tests. The module proves that every token is non-empty and whitespace-free. It also proves the round trip with `join(" ")`, and that any layout of tokens with whitespace runs between them tokenizes back to those tokens (and conversely).
- `Int32` (`Int32.dfy`) holds `str::parse::<i32>()`, written as the digit loop of Rust's `from_str_radix`: an optional sign, then checked multiply and add (subtract for a negative number). Every error becomes `None`. The module characterizes exactly which strings are accepted and with what value, and proves the round trip with the decimal form of every `i32`.
- `Shell` (`Shell.dfy`) holds the body of the loop as a pure function `Step(line): Outcome`. It has lemmas for each branch, and for what each outcome implies about the line.
- `Repl` (`Repl.dfy`) holds the outer `loop`. `Run` is a method with a `while` loop over the given input lines. It is proved equal to `Transcript`, a function that says which lines are read and what each one does. Lemmas about `Transcript` show that the loop stops at the first outcome that ends the process, and that end of input reads an empty line and therefore panics.
- `Examples` (`Examples.dfy`) works through concrete lines, such as `echo   hello \t world`, `exit 42`, a bare `exit`, `exit abc` and `cd /tmp`. Each one is derived from the general lemmas.
- `Seqs` (`Seqs.dfy`) is one generic lemma about sequence concatenation.

The text of `println!` and `eprintln!` is kept in the outcome together with its trailing newline. The lines read are a given sequence. Past the end of that sequence, `read_line` returns `Ok(0)` and leaves the buffer empty, so the next step sees `""`.

Three behaviours of the code differ from what a user might expect from a shell. The model keeps each of them as the code has it:

- A bare `exit` uses status 1, not 0 (src/main.rs:27).
- An empty line panics instead of being a no-op (src/main.rs:17).
- End of input is not a graceful exit. The empty buffer panics in the same way (`Repl.EndOfInputPanics`).

The code has no `type`, `pwd` or `cd` builtin, no PATH search and no external programs, so the model has none either. For example, `cd` is reported as "command not found" (`Examples.CdNotFound`).

## Model

| member | source | states |
|---|---|---|
| Tokenize.Tokens | src/main.rs:15 | every token `split_whitespace` yields is non-empty and contains no whitespace character |
| Tokenize.WordLength | src/main.rs:15 | the first token of a line ends exactly at the first whitespace character (or at the end of the line) |
| Tokenize.TrimEnd | src/main.rs:15 | `trim_end` returns a prefix of the line, everything it drops is whitespace, and what it keeps does not end in whitespace |
| Tokenize.GapsOf | src/main.rs:15 | a line has one whitespace run more than it has tokens, and the first run is non-empty when the line starts with whitespace |
| Tokenize.TokensSkipBlank | src/main.rs:15 | leading whitespace yields no token |
| Tokenize.TokensAppendBlank | src/main.rs:15 | trailing whitespace yields no token |
| Tokenize.TokensCons | src/main.rs:15 | a token followed by whitespace or by nothing is the first token, and the rest of the line gives the rest |
| Tokenize.TokensEmptyIffBlank | src/main.rs:15-17 | a line has no token if and only if it is all whitespace |
| Tokenize.TokensTrimEnd | src/main.rs:15 | the `trim_end` before `split_whitespace` does not change the tokens |
| Tokenize.TrimEndToken | src/main.rs:29 | the `trim_end` applied to the command name in the not-found message leaves a token unchanged |
| Tokenize.TokensKeepVisible | src/main.rs:15 | concatenating the tokens gives the line's non-whitespace characters, in order: tokenizing loses only whitespace |
| Tokenize.TokensOfLayout | src/main.rs:15 | tokens laid out with any whitespace runs between them, and before and after them, tokenize back to those tokens |
| Tokenize.LayoutOfTokens | src/main.rs:15 | conversely, every line is its tokens laid out with its own whitespace runs, and those runs are valid gaps |
| Tokenize.TokensOfJoin | src/main.rs:15-19 | round trip: tokenizing `join(tokens, " ")` gives back exactly `tokens`, for any sequence of tokens |
| Int32.ShowNat | src/main.rs:24 | the shortest numeral of a natural number is a non-empty digit run whose value is that number, with no leading zero except for 0 itself |
| Int32.DigitsCanonical | src/main.rs:24 | every non-empty digit run is some zeros followed by the shortest numeral of its value |
| Int32.AccumulateValue | src/main.rs:24 | the digit loop of `parse::<i32>` returns the signed value of the digits when the rest is all digits and every intermediate value fits in `i32`, and fails otherwise |
| Int32.ParseSignedDigits | src/main.rs:24 | an optional sign followed by a non-empty run parses to the signed value of the run exactly when the run is all digits and the value lies in the range of `i32` |
| Int32.ParseAccepts | src/main.rs:24 | an optional sign, any number of leading zeros and a numeral parse to the signed value whenever it lies in the range of `i32` |
| Int32.ParseRejectsOverflow | src/main.rs:24 | the same strings are rejected when the signed value lies outside the range of `i32` |
| Int32.ParseDecimal | src/main.rs:24 | round trip: the decimal form of every `i32` parses back to that value |
| Int32.ParseShape | src/main.rs:24 | every accepted string is an optional sign, then zeros, then the shortest numeral of the magnitude, and a negative result comes only with `-` |
| Shell.StepEmptyLine | src/main.rs:15-17 | a line panics at `parsed_input[0]` if and only if it is empty or all whitespace |
| Shell.StepEcho | src/main.rs:17-20 | `echo` writes its arguments joined by single spaces, followed by a newline, to standard output |
| Shell.StepExit | src/main.rs:22-25 | `exit N`, with `N` a valid `i32`, exits with `N`, whatever tokens follow `N` |
| Shell.StepExitDefault | src/main.rs:22-27 | a bare `exit` exits with status 1 |
| Shell.StepExitInvalid | src/main.rs:23-24 | `exit` followed by a token that is not an `i32` panics instead of exiting |
| Shell.StepNotFound | src/main.rs:29 | any other first token is reported, unchanged, as `<name>: command not found` on standard error |
| Shell.StepEnds | src/main.rs:17-30 | the process ends after a line if and only if it has no token or its first token is exactly `exit` |
| Shell.StepExitOnlyFromExit | src/main.rs:22-27 | an exit comes only from `exit`, with its parsed argument or, when it has none, with 1 |
| Shell.StepStdoutOnlyFromEcho | src/main.rs:18-20 | standard output is written only by `echo`, and only its joined arguments |
| Shell.EchoCollapsesWhitespace | src/main.rs:15-20 | whatever whitespace runs surround the arguments of `echo`, it prints them one space apart |
| Shell.EchoIdempotent | src/main.rs:18-20 | echoing the output of `echo` again reproduces that output |
| Shell.ExitWithDecimal | src/main.rs:22-25 | `exit` followed by the decimal form of any `i32`, laid out in any way, exits with that value |
| Repl.TranscriptAt | src/main.rs:6-15 | the `k`-th outcome of the loop is the step of the `k`-th line read |
| Repl.TranscriptNonEmpty | src/main.rs:6-13 | the loop reads at least one line |
| Repl.TranscriptEndsOnlyAtLast | src/main.rs:6-31 | every outcome but the last lets the loop go on, and the last one ends the process |
| Repl.TranscriptLength | src/main.rs:11-13 | the loop reads at most one line past the end of the input |
| Repl.StopsAtFirstEnd | src/main.rs:6-31 | the loop stops at the first line that ends the process and reads nothing after it |
| Repl.EndOfInputReadsEmptyLine | src/main.rs:11-13 | if no line of the input ends the process, the loop reads past the end and sees an empty line |
| Repl.EndOfInputPanics | src/main.rs:13-17 | for this shell, reading past the end of the input panics, so the loop always ends |
| Repl.Run | src/main.rs:6-31 | the loop's outcomes are exactly the transcript: one outcome per line read, up to and including the first one that ends the process |
| Examples.EchoHelloWorld | src/main.rs:15-20 | `echo   hello \t world` prints `hello world` |
| Examples.LoneEcho | src/main.rs:18-20 | a lone `echo` prints an empty line |
| Examples.ExitFortyTwo | src/main.rs:22-25 | `exit 42` exits with status 42 |
| Examples.BareExit | src/main.rs:22-27 | `exit` exits with status 1 |
| Examples.ExitNotANumber | src/main.rs:24 | `exit abc` panics |
| Examples.CdNotFound | src/main.rs:29 | `cd /tmp` prints `cd: command not found` on standard error |
| Examples.BlankLinePanics | src/main.rs:15-17 | a line of spaces panics at `parsed_input[0]` |

## Left out

- Printing the prompt `$ ` and flushing standard output (src/main.rs:7-8): output only, with no effect on what a line does.
- The blocking read itself, and the `unwrap` of a failed `read_line` (for example on input that is not UTF-8, src/main.rs:13): the input is a given sequence of strings. Past its end, a read returns nothing, as `read_line` does at end of file.
- The end of the process: `process::exit` is the outcome `Exit(code)`, and panics are `ParseFailure` and `EmptyLine`. The panic messages and the status 101 a panic gives are not modelled. Neither is the operating system cutting an exit status to 8 bits.
- A failed write to standard output or standard error, which makes `println!` and `eprintln!` panic: writing is not modelled.
- Int32.ParseI32: returns `None` for every error. It does not keep which `ParseIntError` kind Rust reports (empty, invalid digit, positive or negative overflow), because the code only passes the error to `expect`.
- The `type`, `pwd` and `cd` builtins, PATH search and the running of external programs: `src/main.rs` has none of them.
