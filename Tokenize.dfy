/**
 The tokenizer of the shell: `line.trim_end().split_whitespace().collect()`
 and the `join(" ")` that `echo` applies to the arguments.

 Whitespace is the Unicode White_Space property, which is what Rust's
 `char::is_whitespace` (used by `split_whitespace` and `trim_end`) tests.
 */
module Tokenize {

  /** Rust's `char::is_whitespace`: the 25 code points with the Unicode White_Space property. */
  predicate IsWhitespace(c: char) {
    ('\t' <= c <= '\r') || c == ' ' || c == '\U{0085}' || c == '\U{00A0}' || c == '\U{1680}'
    || ('\U{2000}' <= c <= '\U{200A}') || c == '\U{2028}' || c == '\U{2029}'
    || c == '\U{202F}' || c == '\U{205F}' || c == '\U{3000}'
  }

  /** Every character of `s` is whitespace (the empty string included). */
  predicate IsBlank(s: string) {
    forall i :: 0 <= i < |s| ==> IsWhitespace(s[i])
  }

  /** A fragment `split_whitespace` can yield: non-empty and free of whitespace. */
  predicate IsToken(t: string) {
    |t| > 0 && forall i :: 0 <= i < |t| ==> !IsWhitespace(t[i])
  }

  predicate AllTokens(ts: seq<string>) {
    forall i :: 0 <= i < |ts| ==> IsToken(ts[i])
  }

  /** Length of the longest whitespace-free prefix of `s`. */
  function WordLength(s: string): (n: nat)
    ensures n <= |s|
    ensures forall i :: 0 <= i < n ==> !IsWhitespace(s[i])
    ensures n < |s| ==> IsWhitespace(s[n])
  {
    if s == [] || IsWhitespace(s[0]) then 0 else 1 + WordLength(s[1..])
  }

  /** `s.split_whitespace().collect()`: the maximal whitespace-free runs of `s`, in order. */
  function Tokens(s: string): (ts: seq<string>)
    ensures AllTokens(ts)
    decreases |s|
  {
    if s == [] then []
    else if IsWhitespace(s[0]) then Tokens(s[1..])
    else
      var n := WordLength(s);
      [s[..n]] + Tokens(s[n..])
  }

  /** `s.trim_end()`: `s` without its trailing whitespace. */
  function TrimEnd(s: string): (r: string)
    ensures r <= s
    ensures IsBlank(s[|r|..])
    ensures r == [] || !IsWhitespace(r[|r| - 1])
  {
    if s != [] && IsWhitespace(s[|s| - 1]) then TrimEnd(s[..|s| - 1]) else s
  }

  /** `ts.join(sep)`: the elements of `ts` with `sep` between neighbours. */
  function Join(ts: seq<string>, sep: string): string {
    if ts == [] then []
    else if |ts| == 1 then ts[0]
    else ts[0] + sep + Join(ts[1..], sep)
  }

  /** The characters of `s` that are not whitespace, in order. */
  function Visible(s: string): string {
    if s == [] then []
    else (if IsWhitespace(s[0]) then [] else [s[0]]) + Visible(s[1..])
  }

  /** All strings of `ts`, concatenated. */
  function Concat(ts: seq<string>): string {
    if ts == [] then [] else ts[0] + Concat(ts[1..])
  }

  /**
   A line as the tokenizer sees it: `gaps[0] + words[0] + gaps[1] + ... + words[n-1] + gaps[n]`.
   */
  function Layout(words: seq<string>, gaps: seq<string>): string
    requires |gaps| == |words| + 1
    decreases |words|
  {
    if words == [] then gaps[0] else gaps[0] + words[0] + Layout(words[1..], gaps[1..])
  }

  /**
   The gaps of a layout are runs of whitespace; the leading and the trailing run
   may be empty, a run between two words may not.
   */
  predicate ValidGaps(words: seq<string>, gaps: seq<string>) {
    |gaps| == |words| + 1
    && (forall i :: 0 <= i < |gaps| ==> IsBlank(gaps[i]))
    && (forall i :: 0 < i < |words| ==> |gaps[i]| > 0)
  }

  /** The whitespace runs of `s` around and between its tokens. */
  function GapsOf(s: string): (gaps: seq<string>)
    ensures |gaps| == |Tokens(s)| + 1
    ensures s != [] && IsWhitespace(s[0]) ==> |gaps[0]| > 0
    decreases |s|
  {
    if s == [] then [[]]
    else if IsWhitespace(s[0]) then
      var g := GapsOf(s[1..]);
      [[s[0]] + g[0]] + g[1..]
    else
      [[]] + GapsOf(s[WordLength(s)..])
  }

  // ---------------------------------------------------------------------------
  // Lemmas about the tokenizer
  // ---------------------------------------------------------------------------

  /** The three facts `WordLength` ensures determine it. */
  lemma WordLengthUnique(s: string, n: nat)
    requires n <= |s|
    requires forall i :: 0 <= i < n ==> !IsWhitespace(s[i])
    requires n < |s| ==> IsWhitespace(s[n])
    ensures WordLength(s) == n
  {
  }

  /** Leading whitespace produces no token. */
  lemma {:induction false} TokensSkipBlank(w: string, s: string)
    requires IsBlank(w)
    ensures Tokens(w + s) == Tokens(s)
    decreases |w|
  {
    if w != [] {
      assert (w + s)[1..] == w[1..] + s;
      TokensSkipBlank(w[1..], s);
    } else {
      assert w + s == s;
    }
  }

  /** A token followed by whitespace (or by nothing) is the first token. */
  lemma TokensCons(t: string, r: string)
    requires IsToken(t)
    requires r == [] || IsWhitespace(r[0])
    ensures Tokens(t + r) == [t] + Tokens(r)
  {
    var s := t + r;
    WordLengthUnique(s, |t|);
    assert s[..|t|] == t;
    assert s[|t|..] == r;
  }

  /** Trailing whitespace produces no token. */
  lemma {:induction false} TokensAppendBlank(s: string, w: string)
    requires IsBlank(w)
    ensures Tokens(s + w) == Tokens(s)
    decreases |s|
  {
    if s == [] {
      assert s + w == w + [];
      TokensSkipBlank(w, []);
    } else if IsWhitespace(s[0]) {
      assert (s + w)[1..] == s[1..] + w;
      TokensAppendBlank(s[1..], w);
    } else {
      var n := WordLength(s);
      WordLengthUnique(s + w, n);
      assert (s + w)[..n] == s[..n];
      assert (s + w)[n..] == s[n..] + w;
      TokensAppendBlank(s[n..], w);
    }
  }

  /** A line has no tokens exactly when it is all whitespace. */
  lemma {:induction false} TokensEmptyIffBlank(s: string)
    ensures Tokens(s) == [] <==> IsBlank(s)
    decreases |s|
  {
    if s != [] && IsWhitespace(s[0]) {
      TokensEmptyIffBlank(s[1..]);
      if IsBlank(s[1..]) {
        forall i | 0 <= i < |s| ensures IsWhitespace(s[i]) {
          if i > 0 { assert s[i] == s[1..][i - 1]; }
        }
      }
    }
  }

  /** The `trim_end` before `split_whitespace` does not change the tokens. */
  lemma TokensTrimEnd(s: string)
    ensures Tokens(TrimEnd(s)) == Tokens(s)
  {
    var r := TrimEnd(s);
    assert s == r + s[|r|..];
    TokensAppendBlank(r, s[|r|..]);
  }

  /** `trim_end` leaves a token unchanged. */
  lemma TrimEndToken(t: string)
    requires IsToken(t)
    ensures TrimEnd(t) == t
  {
  }

  lemma {:induction false} VisibleAppend(a: string, b: string)
    ensures Visible(a + b) == Visible(a) + Visible(b)
    decreases |a|
  {
    if a == [] {
      assert a + b == b;
    } else {
      assert (a + b)[1..] == a[1..] + b;
      VisibleAppend(a[1..], b);
    }
  }

  lemma {:induction false} VisibleToken(t: string)
    requires forall i :: 0 <= i < |t| ==> !IsWhitespace(t[i])
    ensures Visible(t) == t
    decreases |t|
  {
    if t != [] {
      VisibleToken(t[1..]);
    }
  }

  /** Tokenizing loses the whitespace and nothing else: the tokens spell the visible characters. */
  lemma {:induction false} TokensKeepVisible(s: string)
    ensures Concat(Tokens(s)) == Visible(s)
    decreases |s|
  {
    if s != [] {
      if IsWhitespace(s[0]) {
        TokensKeepVisible(s[1..]);
      } else {
        var n := WordLength(s);
        assert s == s[..n] + s[n..];
        VisibleAppend(s[..n], s[n..]);
        VisibleToken(s[..n]);
        TokensKeepVisible(s[n..]);
        assert Tokens(s)[1..] == Tokens(s[n..]);
      }
    }
  }

  /** Moving a character into the first gap prepends it to the layout. */
  lemma LayoutWidenFirstGap(words: seq<string>, c: char, g0: string, gs: seq<string>)
    requires |gs| == |words|
    ensures Layout(words, [[c] + g0] + gs) == [c] + Layout(words, [g0] + gs)
  {
    assert ([[c] + g0] + gs)[1..] == gs;
    assert ([g0] + gs)[1..] == gs;
  }

  /**
   Any layout of tokens separated by whitespace runs tokenizes back to those
   tokens: runs of whitespace of any length and kind act as one separator.
   */
  lemma {:induction false} TokensOfLayout(words: seq<string>, gaps: seq<string>)
    requires AllTokens(words)
    requires ValidGaps(words, gaps)
    ensures Tokens(Layout(words, gaps)) == words
    decreases |words|
  {
    if words == [] {
      TokensEmptyIffBlank(gaps[0]);
    } else {
      var rest := Layout(words[1..], gaps[1..]);
      assert ValidGaps(words[1..], gaps[1..]) by {
        forall i | 0 < i < |words[1..]| ensures |gaps[1..][i]| > 0 {
          assert gaps[1..][i] == gaps[i + 1];
        }
      }
      TokensOfLayout(words[1..], gaps[1..]);
      assert rest == [] || IsWhitespace(rest[0]) by {
        if |words| > 1 {
          assert gaps[1] != [];
          assert rest == gaps[1] + (words[1] + Layout(words[2..], gaps[2..]));
        } else {
          assert rest == gaps[1];
        }
      }
      TokensCons(words[0], rest);
      assert Layout(words, gaps) == gaps[0] + (words[0] + rest);
      TokensSkipBlank(gaps[0], words[0] + rest);
    }
  }

  /** Moving a whitespace character into the first gap keeps the gaps valid. */
  lemma ValidGapsWidenFirstGap(words: seq<string>, c: char, g0: string, gs: seq<string>)
    requires IsWhitespace(c)
    requires ValidGaps(words, [g0] + gs)
    ensures ValidGaps(words, [[c] + g0] + gs)
  {
    var before, after := [g0] + gs, [[c] + g0] + gs;
    assert forall i :: 0 < i < |after| ==> after[i] == before[i];
    assert IsBlank(g0) by { assert before[0] == g0; }
    assert forall i :: 0 < i < |[c] + g0| ==> ([c] + g0)[i] == g0[i - 1];
  }

  /** The inductive step of `LayoutOfTokens` for a line that starts with whitespace. */
  lemma LayoutOfTokensBlankHead(s: string)
    requires s != [] && IsWhitespace(s[0])
    requires ValidGaps(Tokens(s[1..]), GapsOf(s[1..]))
    requires Layout(Tokens(s[1..]), GapsOf(s[1..])) == s[1..]
    ensures ValidGaps(Tokens(s), GapsOf(s))
    ensures Layout(Tokens(s), GapsOf(s)) == s
  {
    var ts, g := Tokens(s[1..]), GapsOf(s[1..]);
    var c, g0, gs := s[0], g[0], g[1..];
    assert g == [g0] + gs;
    assert Tokens(s) == ts;
    assert GapsOf(s) == [[c] + g0] + gs;
    LayoutWidenFirstGap(ts, c, g0, gs);
    ValidGapsWidenFirstGap(ts, c, g0, gs);
    assert s == [c] + s[1..];
  }

  /** A word in front of a layout, with an empty first gap, is prepended to it. */
  lemma LayoutConsWord(w: string, words: seq<string>, gaps: seq<string>)
    requires |gaps| == |words| + 1
    ensures Layout([w] + words, [[]] + gaps) == w + Layout(words, gaps)
  {
    assert ([w] + words)[1..] == words;
    assert ([[]] + gaps)[1..] == gaps;
    assert [] + w == w;
  }

  /** Gaps stay valid under a new first word and an empty first gap, if the old first gap was not empty. */
  lemma ValidGapsConsWord(w: string, words: seq<string>, gaps: seq<string>)
    requires ValidGaps(words, gaps)
    requires words != [] ==> |gaps[0]| > 0
    ensures ValidGaps([w] + words, [[]] + gaps)
  {
    var after := [[]] + gaps;
    assert forall i :: 0 < i < |after| ==> after[i] == gaps[i - 1];
    assert IsBlank(after[0]);
  }

  /** The inductive step of `LayoutOfTokens` for a line that starts with a token. */
  lemma LayoutOfTokensWordHead(s: string)
    requires s != [] && !IsWhitespace(s[0])
    requires ValidGaps(Tokens(s[WordLength(s)..]), GapsOf(s[WordLength(s)..]))
    requires Layout(Tokens(s[WordLength(s)..]), GapsOf(s[WordLength(s)..])) == s[WordLength(s)..]
    ensures ValidGaps(Tokens(s), GapsOf(s))
    ensures Layout(Tokens(s), GapsOf(s)) == s
  {
    var n := WordLength(s);
    var w, r := s[..n], s[n..];
    var ts, g := Tokens(r), GapsOf(r);
    assert Tokens(s) == [w] + ts;
    assert GapsOf(s) == [[]] + g;
    LayoutConsWord(w, ts, g);
    assert w + r == s;
    assert r != [] ==> |g[0]| > 0;
    ValidGapsConsWord(w, ts, g);
  }

  /** Conversely, every line is the layout of its tokens with its own whitespace runs as gaps. */
  lemma {:induction false} LayoutOfTokens(s: string)
    ensures ValidGaps(Tokens(s), GapsOf(s))
    ensures Layout(Tokens(s), GapsOf(s)) == s
    decreases |s|
  {
    if s == [] {
    } else if IsWhitespace(s[0]) {
      LayoutOfTokens(s[1..]);
      LayoutOfTokensBlankHead(s);
    } else {
      LayoutOfTokens(s[WordLength(s)..]);
      LayoutOfTokensWordHead(s);
    }
  }

  /** Round trip: joining tokens with one space and tokenizing again gives the same tokens. */
  lemma {:induction false} TokensOfJoin(ts: seq<string>)
    requires AllTokens(ts)
    ensures Tokens(Join(ts, " ")) == ts
    decreases |ts|
  {
    if |ts| == 1 {
      TokensCons(ts[0], []);
      assert ts[0] + [] == ts[0];
    } else if |ts| > 1 {
      var rest := Join(ts[1..], " ");
      TokensOfJoin(ts[1..]);
      TokensSkipBlank(" ", rest);
      TokensCons(ts[0], " " + rest);
      assert Join(ts, " ") == ts[0] + (" " + rest);
      assert [ts[0]] + ts[1..] == ts;
    }
  }
}
