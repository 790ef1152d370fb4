/** Option prefixes: their longest-first ordering, the prefix test `IsOption`
    and the alias lookup `GetIdentifier`, as functions of the prefix list. */
module Prefixes {
  import opened Text

  /** The prefixes used when none are given. */
  const DefaultPrefixes: seq<string> := ["-", "--", "/"]

  // ---------------------------------------------------------------------------
  // SortByLengthDescending

  predicate SortedByLength(s: seq<string>) {
    forall i, j :: 0 <= i < j < |s| ==> |s[i]| >= |s[j]|
  }

  /** `x` placed before the first element that is not longer than it. */
  function Insert(x: string, s: seq<string>): (r: seq<string>)
    ensures multiset(r) == multiset(s) + multiset{x}
  {
    if s == [] || |s[0]| <= |x| then [x] + s
    else
      assert s == [s[0]] + s[1..];
      [s[0]] + Insert(x, s[1..])
  }

  lemma {:induction false} InsertSorted(x: string, s: seq<string>)
    requires SortedByLength(s)
    ensures var r := Insert(x, s);
      SortedByLength(r) && r != [] && (r[0] == x || r[0] == s[0])
  {
    if s != [] && |s[0]| > |x| {
      var rest := Insert(x, s[1..]);
      InsertSorted(x, s[1..]);
      assert |rest[0]| <= |s[0]|;
      assert Insert(x, s) == [s[0]] + rest;
    }
  }

  /** `orderby s.Length descending`: a stable sort, longest first. */
  function SortByLengthDescending(e: seq<string>): (r: seq<string>)
    ensures multiset(r) == multiset(e)
    ensures SortedByLength(r)
  {
    if e == [] then []
    else
      assert e == [e[0]] + e[1..];
      InsertSorted(e[0], SortByLengthDescending(e[1..]));
      Insert(e[0], SortByLengthDescending(e[1..]))
  }

  /** The elements of length `n`, in order. */
  function OfLength(s: seq<string>, n: nat): seq<string> {
    if s == [] then []
    else if |s[0]| == n then [s[0]] + OfLength(s[1..], n)
    else OfLength(s[1..], n)
  }

  lemma {:induction false} InsertOfLength(x: string, s: seq<string>, n: nat)
    requires SortedByLength(s)
    ensures OfLength(Insert(x, s), n) == if |x| == n then [x] + OfLength(s, n) else OfLength(s, n)
  {
    if s == [] || |s[0]| <= |x| {
      assert ([x] + s)[1..] == s;
    } else {
      var t := [s[0]] + Insert(x, s[1..]);
      assert t[1..] == Insert(x, s[1..]);
      InsertOfLength(x, s[1..], n);
    }
  }

  /** The sort is stable: the strings of each length keep their order. */
  lemma {:induction false} SortIsStable(e: seq<string>, n: nat)
    ensures OfLength(SortByLengthDescending(e), n) == OfLength(e, n)
  {
    if e != [] {
      SortIsStable(e[1..], n);
      InsertOfLength(e[0], SortByLengthDescending(e[1..]), n);
    }
  }

  /** Sorting by length is idempotent: a list already sorted comes back as is. */
  lemma {:induction false} SortOfSorted(e: seq<string>)
    requires SortedByLength(e)
    ensures SortByLengthDescending(e) == e
  {
    if e != [] {
      SortOfSorted(e[1..]);
      assert SortByLengthDescending(e[1..]) == e[1..];
      if e[1..] != [] {
        assert |e[1..][0]| <= |e[0]|;
      }
    }
  }

  /** The default prefixes are tried in the order `--`, `-`, `/`. */
  lemma DefaultPrefixOrder()
    ensures SortByLengthDescending(DefaultPrefixes) == ["--", "-", "/"]
  {
    assert DefaultPrefixes[1..] == ["--", "/"];
    assert DefaultPrefixes[1..][1..] == ["/"];
    assert SortByLengthDescending(["/"]) == ["/"];
    assert SortByLengthDescending(["--", "/"]) == ["--", "/"];
  }

  // ---------------------------------------------------------------------------
  // IsOption

  /** The index of the first prefix `argument` starts with, from `i` on, or -1. */
  function OptionFrom(prefixes: seq<string>, argument: string, i: nat): (r: int)
    requires i <= |prefixes|
    ensures r == -1 || i <= r < |prefixes|
    ensures r >= 0 ==>
      && StartsWith(argument, prefixes[r])
      && forall j :: i <= j < r ==> !StartsWith(argument, prefixes[j])
    ensures r == -1 <==> forall j :: i <= j < |prefixes| ==> !StartsWith(argument, prefixes[j])
    decreases |prefixes| - i
  {
    if i == |prefixes| then -1
    else if StartsWith(argument, prefixes[i]) then i
    else OptionFrom(prefixes, argument, i + 1)
  }

  /** What `IsOption` returns: the index of the first prefix the argument
      starts with, or -1 when it starts with none. */
  function OptionIndex(prefixes: seq<string>, argument: string): (r: int)
    ensures -1 <= r < |prefixes|
    ensures r >= 0 ==>
      && StartsWith(argument, prefixes[r])
      && forall j :: 0 <= j < r ==> !StartsWith(argument, prefixes[j])
    ensures r == -1 <==> forall j :: 0 <= j < |prefixes| ==> !StartsWith(argument, prefixes[j])
  {
    OptionFrom(prefixes, argument, 0)
  }

  /** With the prefixes sorted longest first, the first prefix that matches
      is a longest one that matches. */
  lemma IsOptionLongest(prefixes: seq<string>, argument: string, j: nat)
    requires SortedByLength(prefixes) && j < |prefixes| && StartsWith(argument, prefixes[j])
    ensures var r := OptionIndex(prefixes, argument);
      0 <= r <= j && |prefixes[j]| <= |prefixes[r]|
  {
  }

  // ---------------------------------------------------------------------------
  // GetIdentifier

  /** A token with the prefix it starts with cut off, or the whole token when
      it has none. */
  function Alias(prefixes: seq<string>, token: string): string {
    var n := OptionIndex(prefixes, token);
    if n > -1 then token[|prefixes[n]|..] else token
  }

  predicate Names(prefixes: seq<string>, identifiers: seq<string>, token: string) {
    Alias(prefixes, token) in identifiers
  }

  /** The alias found and the index reported for it. */
  datatype Found = Found(identifier: string, index: int)

  /** Where a named token at position `k` is reported: at `k` when it has a
      prefix, at 0 when it is bare. */
  function ReportedIndex(prefixes: seq<string>, token: string, k: nat): nat {
    if OptionIndex(prefixes, token) > -1 then k else 0
  }

  function FindFrom(prefixes: seq<string>, identifiers: seq<string>, args: seq<string>, i: nat): (f: Found)
    requires i <= |args|
    ensures f.index == -1 ==>
      && f.identifier == ""
      && forall k :: i <= k < |args| ==> !Names(prefixes, identifiers, args[k])
    ensures f.index != -1 ==>
      exists k ::
        && i <= k < |args|
        && Names(prefixes, identifiers, args[k])
        && (forall m :: i <= m < k ==> !Names(prefixes, identifiers, args[m]))
        && f == Found(Alias(prefixes, args[k]), ReportedIndex(prefixes, args[k], k))
    decreases |args| - i
  {
    if i == |args| then Found("", -1)
    else if Names(prefixes, identifiers, args[i]) then
      Found(Alias(prefixes, args[i]), ReportedIndex(prefixes, args[i], i))
    else FindFrom(prefixes, identifiers, args, i + 1)
  }

  /** What `GetIdentifier` returns: for the first token that names one of the
      identifiers, with its prefix cut off when it has one, that alias and
      the reported index; `("", -1)` when no token does. */
  function FindIdentifier(prefixes: seq<string>, identifiers: seq<string>, args: seq<string>): (f: Found)
    ensures f.index == -1 ==>
      && f.identifier == ""
      && forall k :: 0 <= k < |args| ==> !Names(prefixes, identifiers, args[k])
    ensures f.index != -1 ==>
      exists k ::
        && 0 <= k < |args|
        && Names(prefixes, identifiers, args[k])
        && (forall m :: 0 <= m < k ==> !Names(prefixes, identifiers, args[m]))
        && f == Found(Alias(prefixes, args[k]), ReportedIndex(prefixes, args[k], k))
  {
    FindFrom(prefixes, identifiers, args, 0)
  }

  /** A found alias is one of the identifiers, and it is reported at a
      position of the list. */
  lemma FoundIsIdentifier(prefixes: seq<string>, identifiers: seq<string>, args: seq<string>)
    ensures var f := FindIdentifier(prefixes, identifiers, args);
      f.index != -1 ==> f.identifier in identifiers && 0 <= f.index < |args|
  {
  }

  /** A bare token that is an alias, with no named token before it, is
      reported at index 0, wherever it stands. */
  lemma BareMatchAtZero(prefixes: seq<string>, identifiers: seq<string>, args: seq<string>, k: nat)
    requires k < |args| && OptionIndex(prefixes, args[k]) == -1 && args[k] in identifiers
    requires forall m :: 0 <= m < k ==> !Names(prefixes, identifiers, args[m])
    ensures FindIdentifier(prefixes, identifiers, args) == Found(args[k], 0)
  {
    assert Names(prefixes, identifiers, args[k]);
  }

  /** With the default prefixes, `--verbose` stands for the alias `verbose`
      and is reported where it stands. */
  lemma PrefixedExample()
    ensures FindIdentifier(["--", "-", "/"], ["v", "verbose"], ["x", "--verbose"]) == Found("verbose", 1)
  {
    var p := ["--", "-", "/"];
    assert "x"[..1] == "x";
    assert !StartsWith("x", "--") && !StartsWith("x", "-") && !StartsWith("x", "/");
    assert OptionIndex(p, "x") == -1;
    assert !Names(p, ["v", "verbose"], "x");
    assert StartsWith("--verbose", "--");
    assert OptionIndex(p, "--verbose") == 0;
    assert "--verbose"[2..] == "verbose";
    assert Names(p, ["v", "verbose"], "--verbose");
  }
}
