/**
 The outer `loop` of `main`: prompt, read a line, run the step on it, and go
 round again until a step ends the process. Prompting and flushing are output
 only; the lines read are given as a sequence.
 */
module Repl {
  import opened Seqs
  import opened Shell

  /**
   The `i`-th `read_line` on an input of `lines`: past the end of the input it
   succeeds with nothing read and leaves the buffer empty.
   */
  function ReadLine(lines: seq<string>, i: nat): string {
    if i < |lines| then lines[i] else ""
  }

  /**
   The outcomes of the lines read from the `i`-th read on, under the per-line
   evaluator `step`, up to and including the first outcome that ends the
   process. End of input reads as an empty line, and `step` ends the process
   on an empty line, so the transcript is finite.
   */
  function Transcript(step: string -> Outcome, lines: seq<string>, i: nat): seq<Outcome>
    requires step("").Ends()
    decreases |lines| - i
  {
    var outcome := step(ReadLine(lines, i));
    if outcome.Ends() then [outcome] else [outcome] + Transcript(step, lines, i + 1)
  }

  /** The `k`-th outcome of the transcript is the step of the `k`-th line read. */
  lemma {:induction false} TranscriptAt(step: string -> Outcome, lines: seq<string>, i: nat, k: nat)
    requires step("").Ends()
    requires k < |Transcript(step, lines, i)|
    ensures Transcript(step, lines, i)[k] == step(ReadLine(lines, i + k))
    decreases k
  {
    if k > 0 {
      TranscriptAt(step, lines, i + 1, k - 1);
      assert i + 1 + (k - 1) == i + k;
    }
  }

  lemma TranscriptNonEmpty(step: string -> Outcome, lines: seq<string>, i: nat)
    requires step("").Ends()
    ensures |Transcript(step, lines, i)| >= 1
  {
  }

  /** Every outcome but the last lets the loop go on; the last one ends the process. */
  lemma {:induction false} TranscriptEndsOnlyAtLast(step: string -> Outcome, lines: seq<string>, i: nat, k: nat)
    requires step("").Ends()
    requires k < |Transcript(step, lines, i)|
    ensures Transcript(step, lines, i)[k].Ends() <==> k == |Transcript(step, lines, i)| - 1
    decreases k
  {
    if k > 0 {
      TranscriptEndsOnlyAtLast(step, lines, i + 1, k - 1);
    } else if !step(ReadLine(lines, i)).Ends() {
      TranscriptNonEmpty(step, lines, i + 1);
    }
  }

  /** The loop reads at most one line past the end of the input. */
  lemma {:induction false} TranscriptLength(step: string -> Outcome, lines: seq<string>, i: nat)
    requires step("").Ends()
    requires i <= |lines|
    ensures 1 <= |Transcript(step, lines, i)| <= |lines| - i + 1
    decreases |lines| - i
  {
    if !step(ReadLine(lines, i)).Ends() {
      TranscriptLength(step, lines, i + 1);
    }
  }

  /** The shell stops at the first line that ends the process, and reads nothing after it. */
  lemma {:induction false} StopsAtFirstEnd(step: string -> Outcome, lines: seq<string>, i: nat, j: nat)
    requires step("").Ends()
    requires i <= j < |lines|
    requires forall k :: i <= k < j ==> !step(lines[k]).Ends()
    requires step(lines[j]).Ends()
    ensures |Transcript(step, lines, i)| == j - i + 1
    ensures Transcript(step, lines, i)[j - i] == step(lines[j])
    decreases j - i
  {
    if i < j {
      assert !step(lines[i]).Ends();
      StopsAtFirstEnd(step, lines, i + 1, j);
      assert Transcript(step, lines, i) == [step(lines[i])] + Transcript(step, lines, i + 1);
    }
  }

  /**
   Without a line that ends the process, the shell reads past the end of the
   input and gets an empty line, whose step ends the process.
   */
  lemma {:induction false} EndOfInputReadsEmptyLine(step: string -> Outcome, lines: seq<string>, i: nat)
    requires step("").Ends()
    requires i <= |lines|
    requires forall k :: i <= k < |lines| ==> !step(lines[k]).Ends()
    ensures |Transcript(step, lines, i)| == |lines| - i + 1
    ensures Transcript(step, lines, i)[|lines| - i] == step("")
    decreases |lines| - i
  {
    if i < |lines| {
      assert !step(lines[i]).Ends();
      EndOfInputReadsEmptyLine(step, lines, i + 1);
      assert Transcript(step, lines, i) == [step(lines[i])] + Transcript(step, lines, i + 1);
    }
  }

  /** For the shell's own step, reading past the end of the input panics: there is no clean exit at end of input. */
  lemma EndOfInputPanics(lines: seq<string>)
    requires forall k :: 0 <= k < |lines| ==> !Step(lines[k]).Ends()
    ensures Step("").Ends()
    ensures |Transcript(Step, lines, 0)| == |lines| + 1
    ensures Transcript(Step, lines, 0)[|lines|] == EmptyLine
  {
    StepEmptyLine("");
    EndOfInputReadsEmptyLine(Step, lines, 0);
  }

  /**
   The outer `loop` of `main`: steps through the lines read, one after another,
   until an outcome ends the process, and returns the outcome of every line read.
   */
  method Run(lines: seq<string>) returns (trace: seq<Outcome>)
    ensures Step("").Ends()
    ensures trace == Transcript(Step, lines, 0)
  {
    StepEmptyLine("");
    trace := [];
    var i := 0;
    while true
      invariant i <= |lines|
      invariant trace + Transcript(Step, lines, i) == Transcript(Step, lines, 0)
      decreases |lines| - i
    {
      var input := ReadLine(lines, i);
      var outcome := Step(input);
      ghost var done := trace;
      trace := trace + [outcome];
      if outcome.Ends() {
        assert Transcript(Step, lines, i) == [outcome];
        return;
      }
      assert Transcript(Step, lines, i) == [outcome] + Transcript(Step, lines, i + 1);
      AppendAssoc(done, [outcome], Transcript(Step, lines, i + 1));
      i := i + 1;
    }
  }
}
