/** Character classes and the handful of .NET string operations the validator
    relies on (Split, Trim, ToLower, IndexOf, StartsWith, Contains and
    List<string>.Remove), written out over `seq<char>`. */
module Text {

  datatype Option<T> = None | Some(value: T)

  /** The regex class `\w`, restricted to ASCII letters, digits and underscore. */
  predicate IsWordChar(c: char) {
    ('a' <= c <= 'z') || ('A' <= c <= 'Z') || ('0' <= c <= '9') || c == '_'
  }

  /** The Unicode White_Space characters: the regex class `\s` and what
      `string.Trim()` removes. */
  predicate IsWhiteSpace(c: char) {
    c == ' ' || c == '\t' || c == '\n' || c == '\U{B}' || c == '\U{C}' || c == '\r'
    || c == '\U{85}' || c == '\U{A0}' || c == '\U{1680}' || ('\U{2000}' <= c <= '\U{200A}')
    || c == '\U{2028}' || c == '\U{2029}' || c == '\U{202F}' || c == '\U{205F}' || c == '\U{3000}'
  }

  predicate AllWord(s: string) {
    forall i :: 0 <= i < |s| ==> IsWordChar(s[i])
  }

  /** Length of the longest run of word characters at the start of `s`. */
  function WordRun(s: string): (n: nat)
    ensures n <= |s| && AllWord(s[..n])
    ensures n < |s| ==> !IsWordChar(s[n])
  {
    if s == [] || !IsWordChar(s[0]) then 0 else 1 + WordRun(s[1..])
  }

  lemma {:induction false} WordRunOfWordThenStop(w: string, rest: string)
    requires AllWord(w)
    requires rest == [] || !IsWordChar(rest[0])
    ensures WordRun(w + rest) == |w|
  {
    if w != [] {
      assert (w + rest)[1..] == w[1..] + rest;
      WordRunOfWordThenStop(w[1..], rest);
    } else {
      assert w + rest == rest;
    }
  }

  // ---------------------------------------------------------------------------
  // Searching

  /** `IndexOf`: the first position of `x` in `s`, or -1. */
  function IndexOf<T(==)>(s: seq<T>, x: T): (r: int)
    ensures -1 <= r < |s|
    ensures r == -1 <==> x !in s
    ensures r >= 0 ==> s[r] == x && x !in s[..r]
  {
    if s == [] then -1
    else if s[0] == x then 0
    else
      var k := IndexOf(s[1..], x);
      if k == -1 then -1
      else
        assert s[..k + 1] == [s[0]] + s[1..][..k];
        1 + k
  }

  /** `a.StartsWith(p)`, compared ordinally. */
  predicate StartsWith(a: string, p: string) {
    |p| <= |a| && a[..|p|] == p
  }

  /** `hay.Contains(needle)`: `needle` occurs in `hay` as a contiguous run. */
  predicate Contains(hay: string, needle: string)
    decreases |hay|
  {
    StartsWith(hay, needle) || (hay != [] && Contains(hay[1..], needle))
  }

  lemma ContainsItself(s: string)
    ensures Contains(s, s)
  {
    assert s[..|s|] == s;
  }

  /** `Contains` finds exactly the occurrences at some offset. */
  lemma {:induction false} ContainsAt(hay: string, needle: string)
    ensures Contains(hay, needle) <==> exists k :: 0 <= k <= |hay| && StartsWith(hay[k..], needle)
  {
    assert hay[0..] == hay;
    if hay != [] {
      ContainsAt(hay[1..], needle);
      if Contains(hay[1..], needle) {
        var k :| 0 <= k <= |hay[1..]| && StartsWith(hay[1..][k..], needle);
        assert hay[1..][k..] == hay[k + 1..];
      }
      if exists k :: 0 <= k <= |hay| && StartsWith(hay[k..], needle) {
        var k :| 0 <= k <= |hay| && StartsWith(hay[k..], needle);
        if k > 0 {
          assert hay[1..][k - 1..] == hay[k..];
        }
      }
    }
  }

  // ---------------------------------------------------------------------------
  // Split and Join

  /** `string.Split(c)`: every piece, empty ones included, in order. */
  function Split(s: string, c: char): (r: seq<string>)
    ensures |r| >= 1
    ensures forall i :: 0 <= i < |r| ==> c !in r[i]
    ensures Join(r, c) == s
    decreases |s|
  {
    var k := IndexOf(s, c);
    if k == -1 then [s]
    else
      var rest := Split(s[k + 1..], c);
      var r := [s[..k]] + rest;
      assert r[0] == s[..k] && r[1..] == rest;
      assert Join(r, c) == s by {
        assert s == s[..k] + [c] + s[k + 1..];
      }
      r
  }

  /** The pieces joined back with `c` between them. */
  function Join(pieces: seq<string>, c: char): string
    requires |pieces| >= 1
  {
    if |pieces| == 1 then pieces[0] else pieces[0] + [c] + Join(pieces[1..], c)
  }

  /** Split undoes Join when no piece contains the separator. */
  lemma {:induction false} SplitJoin(pieces: seq<string>, c: char)
    requires |pieces| >= 1
    requires forall i :: 0 <= i < |pieces| ==> c !in pieces[i]
    ensures Split(Join(pieces, c), c) == pieces
  {
    var s := Join(pieces, c);
    if |pieces| == 1 {
      assert IndexOf(s, c) == -1;
    } else {
      var tail := Join(pieces[1..], c);
      assert s == pieces[0] + [c] + tail;
      IndexOfAfterFree(pieces[0], c, tail);
      assert s[..|pieces[0]|] == pieces[0];
      assert s[|pieces[0]| + 1..] == tail;
      SplitJoin(pieces[1..], c);
    }
  }

  predicate AllChars(s: string, P: char -> bool) {
    forall i :: 0 <= i < |s| ==> P(s[i])
  }

  predicate AllPieces(pieces: seq<string>, P: char -> bool) {
    forall j :: 0 <= j < |pieces| ==> AllChars(pieces[j], P)
  }

  lemma AllCharsAppend(a: string, b: string, P: char -> bool)
    ensures AllChars(a + b, P) <==> AllChars(a, P) && AllChars(b, P)
  {
    assert forall i :: 0 <= i < |a| ==> (a + b)[i] == a[i];
    assert forall i :: 0 <= i < |b| ==> (a + b)[|a| + i] == b[i];
  }

  /** A character that fails the property does not occur in the text. */
  lemma NotInAllChars(s: string, P: char -> bool, c: char)
    requires AllChars(s, P) && !P(c)
    ensures c !in s
  {
  }

  /** A property of characters holds all over a joined text exactly when it
      holds of the separator (if there is more than one piece) and all over
      every piece. */
  lemma {:induction false} JoinChars(pieces: seq<string>, c: char, P: char -> bool)
    requires |pieces| >= 1
    ensures AllChars(Join(pieces, c), P) <==> (|pieces| > 1 ==> P(c)) && AllPieces(pieces, P)
  {
    if |pieces| > 1 {
      JoinChars(pieces[1..], c, P);
      var tail := Join(pieces[1..], c);
      var s := Join(pieces, c);
      assert s == pieces[0] + [c] + tail;
      assert forall k :: 0 <= k < |tail| ==> tail[k] == s[|pieces[0]| + 1 + k];
      assert forall k :: 0 <= k < |pieces[0]| ==> pieces[0][k] == s[k];
      assert AllPieces(pieces, P) <==> AllChars(pieces[0], P) && AllPieces(pieces[1..], P) by {
        assert forall j :: 1 <= j < |pieces| ==> pieces[1..][j - 1] == pieces[j];
      }
      assert AllChars(s, P) <==> AllChars(pieces[0], P) && P(c) && AllChars(tail, P) by {
        assert s[|pieces[0]|] == c;
      }
    }
  }

  lemma JoinFirst(pieces: seq<string>, c: char)
    requires |pieces| >= 1 && pieces[0] != []
    ensures Join(pieces, c) != [] && Join(pieces, c)[0] == pieces[0][0]
  {
  }

  lemma {:induction false} JoinLast(pieces: seq<string>, c: char)
    requires |pieces| >= 1 && pieces[|pieces| - 1] != []
    ensures var s, l := Join(pieces, c), pieces[|pieces| - 1];
      s != [] && s[|s| - 1] == l[|l| - 1]
  {
    if |pieces| > 1 {
      JoinLast(pieces[1..], c);
      assert pieces[1..][|pieces| - 2] == pieces[|pieces| - 1];
    }
  }

  lemma {:induction false} ToLowerJoin(pieces: seq<string>, c: char)
    requires |pieces| >= 1 && LowerChar(c) == c
    ensures ToLower(Join(pieces, c)) == Join(LowerAll(pieces), c)
  {
    if |pieces| > 1 {
      ToLowerJoin(pieces[1..], c);
      ToLowerAppend(pieces[0] + [c], Join(pieces[1..], c));
      ToLowerAppend(pieces[0], [c]);
      assert LowerAll(pieces)[1..] == LowerAll(pieces[1..]);
    }
  }

  lemma IndexOfAfterFree(w: string, c: char, rest: string)
    requires c !in w
    ensures IndexOf(w + [c] + rest, c) == |w|
  {
    var s := w + [c] + rest;
    assert s[|w|] == c;
    assert s[..|w|] == w;
  }

  // ---------------------------------------------------------------------------
  // Trim and ToLower

  function TrimStart(s: string): (r: string)
    ensures |r| <= |s| && r == s[|s| - |r|..]
    ensures r == [] || !IsWhiteSpace(r[0])
  {
    if s != [] && IsWhiteSpace(s[0]) then TrimStart(s[1..]) else s
  }

  function TrimEnd(s: string): (r: string)
    ensures |r| <= |s| && r == s[..|r|]
    ensures r == [] || !IsWhiteSpace(r[|r| - 1])
  {
    if s != [] && IsWhiteSpace(s[|s| - 1]) then TrimEnd(s[..|s| - 1]) else s
  }

  /** `string.Trim()`: white space removed from both ends. */
  function Trim(s: string): (r: string)
    ensures |r| <= |s|
    ensures r == [] || (!IsWhiteSpace(r[0]) && !IsWhiteSpace(r[|r| - 1]))
  {
    TrimEnd(TrimStart(s))
  }

  /** What `TrimStart` drops is white space. */
  lemma {:induction false} TrimStartDropsWhite(s: string)
    ensures forall k :: 0 <= k < |s| - |TrimStart(s)| ==> IsWhiteSpace(s[k])
    decreases |s|
  {
    if s != [] && IsWhiteSpace(s[0]) {
      TrimStartDropsWhite(s[1..]);
    }
  }

  /** What `TrimEnd` drops is white space. */
  lemma {:induction false} TrimEndDropsWhite(s: string)
    ensures forall k :: |TrimEnd(s)| <= k < |s| ==> IsWhiteSpace(s[k])
    decreases |s|
  {
    if s != [] && IsWhiteSpace(s[|s| - 1]) {
      TrimEndDropsWhite(s[..|s| - 1]);
    }
  }

  /** What `Trim` removes is white space only: the result is a slice of the
      text with nothing but white space before and after it. */
  lemma TrimIsSlice(s: string)
    ensures exists a, b ::
      && 0 <= a <= b <= |s| && Trim(s) == s[a..b]
      && (forall k :: 0 <= k < a ==> IsWhiteSpace(s[k]))
      && (forall k :: b <= k < |s| ==> IsWhiteSpace(s[k]))
  {
    var a, b := TrimBounds(s);
  }

  /** Where the slice `Trim` keeps starts and ends. */
  lemma TrimBounds(s: string) returns (a: nat, b: nat)
    ensures a <= b <= |s| && Trim(s) == s[a..b]
    ensures forall k :: 0 <= k < a ==> IsWhiteSpace(s[k])
    ensures forall k :: b <= k < |s| ==> IsWhiteSpace(s[k])
  {
    a := TrimStartBound(s);
    b := TrimEndBound(s, a);
  }

  /** `TrimStart` keeps the suffix from `a`, with only white space before it. */
  lemma TrimStartBound(s: string) returns (a: nat)
    ensures a <= |s| && TrimStart(s) == s[a..]
    ensures forall k :: 0 <= k < a ==> IsWhiteSpace(s[k])
  {
    a := |s| - |TrimStart(s)|;
    TrimStartDropsWhite(s);
  }

  /** `TrimEnd` of the suffix from `a` keeps the slice up to `b`, with only
      white space after it. */
  lemma TrimEndBound(s: string, a: nat) returns (b: nat)
    requires a <= |s|
    ensures a <= b <= |s| && TrimEnd(s[a..]) == s[a..b]
    ensures forall k :: b <= k < |s| ==> IsWhiteSpace(s[k])
  {
    var t := s[a..];
    var r := TrimEnd(t);
    b := a + |r|;
    TrimEndDropsWhite(t);
    SliceTail(s, t, r, a);
  }

  /** A prefix `r` of the suffix `t` of `s` from `a` is the slice of `s` from
      `a`, and what `t` holds after `r` is what `s` holds after that slice. */
  lemma SliceTail(s: string, t: string, r: string, a: nat)
    requires a <= |s| && t == s[a..] && |r| <= |t| && r == t[..|r|]
    requires forall k :: |r| <= k < |t| ==> IsWhiteSpace(t[k])
    ensures r == s[a..a + |r|]
    ensures forall k :: a + |r| <= k < |s| ==> IsWhiteSpace(s[k])
  {
    forall k | a + |r| <= k < |s|
      ensures IsWhiteSpace(s[k])
    {
      assert s[k] == t[k - a];
    }
  }

  lemma TrimNoEdges(s: string)
    requires s != [] && !IsWhiteSpace(s[0]) && !IsWhiteSpace(s[|s| - 1])
    ensures Trim(s) == s
  {
  }

  function LowerChar(c: char): (d: char)
    ensures !('A' <= d <= 'Z')
    ensures 'A' <= c <= 'Z' ==> d as int == c as int - 'A' as int + 'a' as int
    ensures !('A' <= c <= 'Z') ==> d == c
  {
    if 'A' <= c <= 'Z' then (c as int - 'A' as int + 'a' as int) as char else c
  }

  /** `string.ToLower()`, character by character on ASCII letters. */
  function ToLower(s: string): (r: string)
    ensures |r| == |s|
    ensures forall i :: 0 <= i < |s| ==> r[i] == LowerChar(s[i])
  {
    seq(|s|, i requires 0 <= i < |s| => LowerChar(s[i]))
  }

  lemma ToLowerAppend(a: string, b: string)
    ensures ToLower(a + b) == ToLower(a) + ToLower(b)
  {
  }

  /** Every text of a list lower-cased. */
  function LowerAll(ts: seq<string>): (r: seq<string>)
    ensures |r| == |ts| && forall i :: 0 <= i < |ts| ==> r[i] == ToLower(ts[i])
  {
    seq(|ts|, i requires 0 <= i < |ts| => ToLower(ts[i]))
  }

  // ---------------------------------------------------------------------------
  // List<string>.Remove

  /** `List<string>.Remove(x)`: drops the first element equal to `x`, if any. */
  function RemoveFirst(s: seq<string>, x: string): (r: seq<string>)
    ensures x !in s ==> r == s
    ensures x in s ==> exists k :: 0 <= k < |s| && s[k] == x && x !in s[..k] && r == s[..k] + s[k + 1..]
    ensures multiset(r) <= multiset(s)
    ensures |r| == if x in s then |s| - 1 else |s|
  {
    var k := IndexOf(s, x);
    if k == -1 then s
    else
      assert s == s[..k] + [s[k]] + s[k + 1..];
      s[..k] + s[k + 1..]
  }

  // ---------------------------------------------------------------------------
  // The validator's two bracket helpers

  /** `RemoveLastAndFirstChar`: strips the first and last character of a text
      of at least three characters and leaves shorter texts alone. */
  function RemoveLastAndFirstChar(text: string): (r: string)
    ensures |text| >= 3 ==> |r| == |text| - 2 && text == [text[0]] + r + [text[|text| - 1]]
    ensures |text| < 3 ==> r == text
  {
    if |text| >= 3 then text[1..|text| - 1] else text
  }

  /** Wrapping a non-empty text in two characters and stripping them again
      gives the text back. */
  lemma RemoveWrapped(open: char, inner: string, close: char)
    requires inner != []
    ensures RemoveLastAndFirstChar([open] + inner + [close]) == inner
  {
    var t := [open] + inner + [close];
    assert t[1..|t| - 1] == inner;
  }

  /** `CheckFirstAndLastCharOfString`: the text is `firstChar`, anything, then
      `lastChar` (so it has at least two characters). */
  function CheckFirstAndLastCharOfString(firstChar: char, lastChar: char, text: string): (r: bool)
    ensures r <==> |text| >= 2 && text == [firstChar] + text[1..|text| - 1] + [lastChar]
  {
    |text| > 1 && text[0] == firstChar && text[|text| - 1] == lastChar
  }
}
