/**
 What the body of the shell's loop does with one line it has read: tokenize it,
 dispatch on the first token, and print, exit or panic.
 */
module Shell {
  import opened Tokenize
  import opened Int32

  /** What one input line makes the shell do. */
  datatype Outcome =
    | Stdout(text: string)  // `println!`: the text written to standard output, newline included
    | Stderr(text: string)  // `eprintln!`: the text written to standard error, newline included
    | Exit(code: i32)       // `process::exit(code)`
    | ParseFailure          // `expect("invalid status code")` panics on a bad `exit` argument
    | EmptyLine             // `parsed_input[0]` panics: the line has no token
  {
    /** The process ends after this outcome; otherwise the loop prompts again. */
    predicate Ends() {
      Exit? || ParseFailure? || EmptyLine?
    }
  }

  /** The status `exit` uses when it gets no argument. */
  const DefaultExitCode: i32 := 1

  /** The body of the loop for one line `input` as `read_line` left it. */
  function Step(input: string): Outcome {
    var parsed := Tokens(TrimEnd(input));
    if |parsed| == 0 then EmptyLine
    else if parsed[0] == "echo" then Stdout(Join(parsed[1..], " ") + "\n")
    else if parsed[0] == "exit" then
      if |parsed| > 1 then
        match ParseI32(parsed[1])
        case Some(code) => Exit(code)
        case None => ParseFailure
      else Exit(DefaultExitCode)
    else Stderr(TrimEnd(parsed[0]) + ": command not found\n")
  }

  // ---------------------------------------------------------------------------
  // The step, case by case, in terms of the tokens of the line
  // ---------------------------------------------------------------------------

  /** A line without tokens (empty or all whitespace) panics, and no other line does so. */
  lemma StepEmptyLine(line: string)
    ensures Step(line) == EmptyLine <==> IsBlank(line)
  {
    TokensTrimEnd(line);
    TokensEmptyIffBlank(line);
  }

  /** `echo` writes its arguments joined by single spaces and a newline. */
  lemma StepEcho(line: string, args: seq<string>)
    requires Tokens(line) == ["echo"] + args
    ensures Step(line) == Stdout(Join(args, " ") + "\n")
  {
    TokensTrimEnd(line);
    assert Tokens(line)[1..] == args;
  }

  /** `exit N` with a valid `i32` N exits with N, whatever follows N. */
  lemma StepExit(line: string, arg: string, rest: seq<string>, code: i32)
    requires Tokens(line) == ["exit", arg] + rest
    requires ParseI32(arg) == Some(code)
    ensures Step(line) == Exit(code)
  {
    TokensTrimEnd(line);
  }

  /** A bare `exit` exits with status 1. */
  lemma StepExitDefault(line: string)
    requires Tokens(line) == ["exit"]
    ensures Step(line) == Exit(1)
  {
    TokensTrimEnd(line);
  }

  /** `exit` followed by something that is not an `i32` panics instead of exiting. */
  lemma StepExitInvalid(line: string, arg: string, rest: seq<string>)
    requires Tokens(line) == ["exit", arg] + rest
    requires ParseI32(arg) == None
    ensures Step(line) == ParseFailure
  {
    TokensTrimEnd(line);
  }

  /** Any other first token is reported, unchanged, as not found. */
  lemma StepNotFound(line: string, name: string, rest: seq<string>)
    requires Tokens(line) == [name] + rest
    requires name != "echo" && name != "exit"
    ensures Step(line) == Stderr(name + ": command not found\n")
  {
    TokensTrimEnd(line);
    assert IsToken(Tokens(line)[0]);
    TrimEndToken(name);
  }

  /** The loop stops exactly on an empty line and on a line whose command is `exit`. */
  lemma StepEnds(line: string)
    ensures Step(line).Ends() <==> Tokens(line) == [] || Tokens(line)[0] == "exit"
  {
    TokensTrimEnd(line);
  }

  /** Only `exit` exits, and only with its parsed argument or, without one, with 1. */
  lemma StepExitOnlyFromExit(line: string, code: i32)
    requires Step(line) == Exit(code)
    ensures |Tokens(line)| >= 1 && Tokens(line)[0] == "exit"
    ensures |Tokens(line)| == 1 ==> code == 1
    ensures |Tokens(line)| > 1 ==> ParseI32(Tokens(line)[1]) == Some(code)
  {
    TokensTrimEnd(line);
  }

  /** Only `echo` writes to standard output. */
  lemma StepStdoutOnlyFromEcho(line: string, text: string)
    requires Step(line) == Stdout(text)
    ensures |Tokens(line)| >= 1 && Tokens(line)[0] == "echo"
    ensures text == Join(Tokens(line)[1..], " ") + "\n"
  {
    TokensTrimEnd(line);
  }

  // ---------------------------------------------------------------------------
  // The step on concrete layouts of a line
  // ---------------------------------------------------------------------------

  /**
   `echo` collapses every run of whitespace between, before and after its
   arguments: any layout of the same words gives the same output.
   */
  lemma EchoCollapsesWhitespace(args: seq<string>, gaps: seq<string>)
    requires AllTokens(args)
    requires ValidGaps(["echo"] + args, gaps)
    ensures Step(Layout(["echo"] + args, gaps)) == Stdout(Join(args, " ") + "\n")
  {
    assert IsToken("echo");
    assert AllTokens(["echo"] + args);
    TokensOfLayout(["echo"] + args, gaps);
    StepEcho(Layout(["echo"] + args, gaps), args);
  }

  /** Echoing the output of `echo` again reproduces it. */
  lemma EchoIdempotent(line: string, text: string)
    requires Step(line) == Stdout(text)
    ensures Step("echo " + text) == Stdout(text)
  {
    StepStdoutOnlyFromEcho(line, text);
    var args := Tokens(line)[1..];
    var joined := Join(args, " ");
    assert AllTokens(args);
    TokensOfJoin(args);
    TokensAppendBlank(joined, "\n");
    TokensSkipBlank(" ", joined + "\n");
    TokensCons("echo", " " + (joined + "\n"));
    assert "echo " + text == "echo" + (" " + (joined + "\n"));
    StepEcho("echo " + text, args);
  }

  /** `exit` with the decimal form of any `i32`, laid out in any way, exits with that value. */
  lemma ExitWithDecimal(n: i32, rest: seq<string>, gaps: seq<string>)
    requires AllTokens(rest)
    requires ValidGaps(["exit", Decimal(n)] + rest, gaps)
    ensures Step(Layout(["exit", Decimal(n)] + rest, gaps)) == Exit(n)
  {
    var words := ["exit", Decimal(n)] + rest;
    assert IsToken("exit");
    assert IsToken(Decimal(n));
    assert AllTokens(words);
    TokensOfLayout(words, gaps);
    ParseDecimal(n);
    StepExit(Layout(words, gaps), Decimal(n), rest, n);
  }
}
