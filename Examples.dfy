/**
 Concrete lines and what the shell does with each of them, derived from the
 general lemmas about the tokenizer, the parser and the step.
 */
module Examples {
  import opened Tokenize
  import opened Int32
  import opened Shell

  /** The layout of `echo   hello \t world` and its newline. */
  lemma EchoLayout(words: seq<string>, gaps: seq<string>)
    requires words == ["echo", "hello", "world"] && gaps == ["", "   ", " \t ", "\n"]
    ensures Layout(words, gaps) == "echo   hello \t world\n"
  {
    assert Layout(words[2..], gaps[2..]) == " \t " + "world" + "\n";
    assert Layout(words[1..], gaps[1..]) == "   " + "hello" + " \t world\n";
  }

  /** Its words are tokens and its gaps are runs of whitespace. */
  lemma EchoGaps(words: seq<string>, gaps: seq<string>)
    requires words == ["echo", "hello", "world"] && gaps == ["", "   ", " \t ", "\n"]
    ensures AllTokens(words) && ValidGaps(words, gaps)
  {
    assert IsToken("echo") && IsToken("hello") && IsToken("world");
    assert IsBlank(gaps[1]) && IsBlank(gaps[2]) && IsBlank(gaps[3]);
  }

  /** How `echo   hello \t world` tokenizes. */
  lemma EchoTokens(line: string)
    requires line == "echo   hello \t world\n"
    ensures Tokens(line) == ["echo"] + ["hello", "world"]
  {
    var words, gaps := ["echo", "hello", "world"], ["", "   ", " \t ", "\n"];
    EchoLayout(words, gaps);
    EchoGaps(words, gaps);
    TokensOfLayout(words, gaps);
  }

  /** The arguments of the line above joined by one space, and the newline of `println!`. */
  lemma JoinHelloWorld(args: seq<string>)
    requires args == ["hello", "world"]
    ensures Join(args, " ") + "\n" == "hello world\n"
  {
  }

  /** `echo` with runs of spaces and a tab between its arguments prints them one space apart. */
  lemma EchoHelloWorld(line: string)
    requires line == "echo   hello \t world\n"
    ensures Step(line) == Stdout("hello world\n")
  {
    EchoTokens(line);
    StepEcho(line, ["hello", "world"]);
    JoinHelloWorld(["hello", "world"]);
  }

  /** A lone `echo` prints an empty line. */
  lemma LoneEcho(line: string)
    requires line == "echo\n"
    ensures Step(line) == Stdout("\n")
  {
    assert IsToken("echo");
    assert line == "echo" + "\n";
    TokensCons("echo", "\n");
    TokensEmptyIffBlank("\n");
    StepEcho(line, []);
  }

  /** `exit 42` exits with status 42. */
  lemma ExitFortyTwo(line: string)
    requires line == "exit 42\n"
    ensures Step(line) == Exit(42)
  {
    ParseFortyTwo("42");
    TwoWordTokens(line, "exit", "42");
    StepExit(line, "42", [], 42);
  }

  /** `"42"` is the decimal form of 42, so it parses to 42. */
  lemma ParseFortyTwo(s: string)
    requires s == "42"
    ensures ParseI32(s) == Some(42)
  {
    ShowNatAppend(4, 2);
    assert Decimal(42) == s;
    ParseDecimal(42);
  }

  /** A bare `exit` exits with status 1. */
  lemma BareExit(line: string)
    requires line == "exit\n"
    ensures Step(line) == Exit(1)
  {
    assert IsToken("exit");
    assert line == "exit" + "\n";
    TokensCons("exit", "\n");
    TokensEmptyIffBlank("\n");
    StepExitDefault(line);
  }

  /** A line of two words one space apart, and a newline. */
  lemma TwoWordTokens(line: string, a: string, b: string)
    requires IsToken(a) && IsToken(b)
    requires line == a + " " + b + "\n"
    ensures Tokens(line) == [a, b]
  {
    var words, gaps := [a, b], ["", " ", "\n"];
    assert Layout(words[1..], gaps[1..]) == " " + b + "\n";
    assert Layout(words, gaps) == line;
    assert ValidGaps(words, gaps) by {
      assert IsBlank(gaps[1]) && IsBlank(gaps[2]);
    }
    TokensOfLayout(words, gaps);
  }

  /** `cd` is not a builtin of this shell: it is reported as not found. */
  lemma CdNotFound(line: string)
    requires line == "cd /tmp\n"
    ensures Step(line) == Stderr("cd: command not found\n")
  {
    var name, msg := "cd", "cd: command not found\n";
    assert IsToken(name) && IsToken("/tmp");
    TwoWordTokens(line, name, "/tmp");
    StepNotFound(line, name, ["/tmp"]);
    NotFoundMessage(name, msg);
  }

  /** The message of `eprintln!` for `cd`. */
  lemma NotFoundMessage(name: string, msg: string)
    requires name == "cd" && msg == "cd: command not found\n"
    ensures name + ": command not found\n" == msg
  {
  }

  /** `exit` with an argument that is not a number panics. */
  lemma ExitNotANumber(line: string)
    requires line == "exit abc\n"
    ensures Step(line) == ParseFailure
  {
    assert IsToken("exit") && IsToken("abc");
    TwoWordTokens(line, "exit", "abc");
    assert !IsDigit("abc"[0]);
    StepExitInvalid(line, "abc", []);
  }

  /** A line of spaces only indexes an empty token list and panics. */
  lemma BlankLinePanics(line: string)
    requires line == "  \n"
    ensures Step(line) == EmptyLine
  {
    assert IsBlank(line);
    StepEmptyLine(line);
  }
}
