/** The argument-line tokenizer: `SplitArgs` enumerates the matches of the
    pattern `("([^"]+)"|[^(\s|,)]+),?` and yields, for each, the quoted
    contents when the quoted alternative matched and the whole run otherwise. */
module Tokenizer {
  import opened Text

  /** A character of the unquoted alternative `[^(\s|,)]`: anything but white
      space, `(`, `|`, `,` and `)`. The quote character is one of them. */
  predicate IsRunChar(c: char) {
    !IsWhiteSpace(c) && c != '(' && c != '|' && c != ',' && c != ')'
  }

  /** Length of the longest run of `IsRunChar` characters at the start of `s`. */
  function RunLength(s: string): (n: nat)
    ensures n <= |s|
    ensures forall i :: 0 <= i < n ==> IsRunChar(s[i])
    ensures n < |s| ==> !IsRunChar(s[n])
  {
    if s == [] || !IsRunChar(s[0]) then 0 else 1 + RunLength(s[1..])
  }

  /** Where the quoted alternative `"([^"]+)"` ends when it matches at the start
      of `s`: the position of the closing quote (at least 2, as the contents
      cannot be empty), or 0 when it does not match. */
  function QuoteEnd(s: string): (q: nat)
    ensures q == 0 || (2 <= q < |s| && s[0] == '"' && s[q] == '"' && '"' !in s[1..q])
    ensures q == 0 && s != [] && s[0] == '"' ==> '"' !in s[1..] || s[1] == '"'
  {
    if s != [] && s[0] == '"' then
      var k := IndexOf(s[1..], '"');
      if k >= 1 then
        assert s[1..][..k] == s[1..k + 1];
        k + 1
      else 0
    else 0
  }

  /** The optional `,` after a match is consumed with it. */
  function SkipComma(s: string): string {
    if s != [] && s[0] == ',' then s[1..] else s
  }

  /** `SplitArgs`: the successive, non-overlapping, leftmost matches of the
      split pattern. A position where neither alternative matches (white
      space, `(`, `)`, `|` or a stray `,`) is skipped. */
  function SplitArgs(s: string): (tokens: seq<string>)
    ensures forall i :: 0 <= i < |tokens| ==> tokens[i] != []
    decreases |s|
  {
    if s == [] then []
    else
      var q := QuoteEnd(s);
      if q > 0 then [s[1..q]] + SplitArgs(SkipComma(s[q + 1..]))
      else if IsRunChar(s[0]) then
        var n := RunLength(s);
        [s[..n]] + SplitArgs(SkipComma(s[n..]))
      else SplitArgs(s[1..])
  }

  // ---------------------------------------------------------------------------
  // One match at a time

  /** A quoted run with at least one character between the quotes yields its
      contents without the quotes, and a comma right after it is consumed. */
  lemma QuotedToken(content: string, rest: string)
    requires content != [] && '"' !in content
    ensures SplitArgs(['"'] + content + ['"'] + rest) == [content] + SplitArgs(SkipComma(rest))
  {
    var s := ['"'] + content + ['"'] + rest;
    assert s[1..] == content + ['"'] + rest;
    IndexOfAfterFree(content, '"', rest);
    assert QuoteEnd(s) == |content| + 1;
    assert s[1..|content| + 1] == content;
    assert s[|content| + 2..] == rest;
  }

  /** Otherwise a token is the maximal run of characters other than white
      space, `,`, `(`, `)` and `|`, and a comma right after it is consumed. */
  lemma RunToken(run: string, rest: string)
    requires run != [] && run[0] != '"'
    requires forall i :: 0 <= i < |run| ==> IsRunChar(run[i])
    requires rest == [] || !IsRunChar(rest[0])
    ensures SplitArgs(run + rest) == [run] + SplitArgs(SkipComma(rest))
  {
    var s := run + rest;
    assert s[0] == run[0];
    RunLengthOfRun(run, rest);
    assert s[..|run|] == run && s[|run|..] == rest;
  }

  /** A `"` with no closing quote after it is an ordinary character: it starts
      a maximal unquoted run. */
  lemma UnterminatedQuote(s: string)
    requires s != [] && s[0] == '"' && '"' !in s[1..]
    ensures var n := RunLength(s);
      n >= 1 && SplitArgs(s) == [s[..n]] + SplitArgs(SkipComma(s[n..]))
  {
  }

  lemma {:induction false} RunLengthOfRun(run: string, rest: string)
    requires forall i :: 0 <= i < |run| ==> IsRunChar(run[i])
    requires rest == [] || !IsRunChar(rest[0])
    ensures RunLength(run + rest) == |run|
  {
    if run != [] {
      assert (run + rest)[1..] == run[1..] + rest;
      RunLengthOfRun(run[1..], rest);
    } else {
      assert run + rest == rest;
    }
  }

  /** A separator character that does not open a match is dropped. */
  lemma SkipsSeparator(c: char, rest: string)
    requires !IsRunChar(c)
    ensures SplitArgs([c] + rest) == SplitArgs(rest)
  {
    assert ([c] + rest)[1..] == rest;
  }

  // ---------------------------------------------------------------------------
  // Round trips

  /** A plain token: non-empty, no separator and no quote character. */
  predicate IsPlainToken(t: string) {
    t != [] && forall i :: 0 <= i < |t| ==> IsRunChar(t[i]) && t[i] != '"'
  }

  /** Tokens written one after another, separated by single spaces. */
  function JoinWithSpaces(ts: seq<string>): string {
    if ts == [] then []
    else if |ts| == 1 then ts[0]
    else ts[0] + [' '] + JoinWithSpaces(ts[1..])
  }

  /** Tokens written as `"t1","t2",...`: each quoted, separated by commas. */
  function JoinQuoted(ts: seq<string>): string {
    if ts == [] then []
    else if |ts| == 1 then ['"'] + ts[0] + ['"']
    else ['"'] + ts[0] + ['"'] + [','] + JoinQuoted(ts[1..])
  }

  /** Splitting a space-separated line of plain tokens gives the tokens back. */
  lemma {:induction false} SplitJoinWithSpaces(ts: seq<string>)
    requires forall i :: 0 <= i < |ts| ==> IsPlainToken(ts[i])
    ensures SplitArgs(JoinWithSpaces(ts)) == ts
  {
    if ts != [] {
      var t := ts[0];
      var rest: string := if |ts| == 1 then [] else [' '] + JoinWithSpaces(ts[1..]);
      assert JoinWithSpaces(ts) == t + rest;
      assert IsPlainToken(t);
      RunToken(t, rest);
      if |ts| > 1 {
        SkipsSeparator(' ', JoinWithSpaces(ts[1..]));
        SplitJoinWithSpaces(ts[1..]);
        assert ts == [t] + ts[1..];
      }
    }
  }

  /** Splitting a comma-separated line of quoted tokens gives the tokens back,
      whatever separators and spaces the tokens themselves hold. */
  lemma {:induction false} SplitJoinQuoted(ts: seq<string>)
    requires forall i :: 0 <= i < |ts| ==> ts[i] != [] && '"' !in ts[i]
    ensures SplitArgs(JoinQuoted(ts)) == ts
  {
    if |ts| == 1 {
      QuotedAlone(ts[0]);
    } else if |ts| > 1 {
      SplitJoinQuoted(ts[1..]);
      QuotedFirst(ts);
    }
  }

  lemma QuotedAlone(t: string)
    requires t != [] && '"' !in t
    ensures SplitArgs(JoinQuoted([t])) == [t]
  {
    QuotedToken(t, []);
    assert JoinQuoted([t]) == ['"'] + t + ['"'] + [];
  }

  lemma QuotedFirst(ts: seq<string>)
    requires |ts| > 1 && ts[0] != [] && '"' !in ts[0]
    requires SplitArgs(JoinQuoted(ts[1..])) == ts[1..]
    ensures SplitArgs(JoinQuoted(ts)) == ts
  {
    var t, tail := ts[0], JoinQuoted(ts[1..]);
    QuotedToken(t, [','] + tail);
    assert SkipComma([','] + tail) == tail;
    assert JoinQuoted(ts) == ['"'] + t + ['"'] + ([','] + tail);
    assert ts == [t] + ts[1..];
  }
}
