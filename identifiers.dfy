/** The identifier-alias expander. An alias expression is a `|`-separated list
    of parts; each part is a word with at most one optional bracketed word in
    it (`v[erbose]`, `[un]install`), the identifier pattern
    `(?:(?:(\w+)(\[\w+\])?(\w*))|(?:(\[\w+\])(\w+)))`, and expands to one or two
    spellings of the same identifier. */
module Identifiers {
  import opened Text

  // ---------------------------------------------------------------------------
  // The identifier pattern as a scanner

  /** The five capture groups of the identifier pattern, in order; a group that
      took no part in the match is empty. */
  datatype Groups = Groups(word: string, bracket: string, tail: string, prefixBracket: string, prefixed: string)

  const NoMatch: Groups := Groups([], [], [], [], [])

  /** Length of a bracketed word `[\w+]` at the start of `s`, or 0. */
  function BracketLength(s: string): (n: nat)
    ensures n == 0 || (3 <= n <= |s| && s[0] == '[' && s[n - 1] == ']' && AllWord(s[1..n - 1]))
  {
    if s != [] && s[0] == '[' then
      var b := WordRun(s[1..]);
      if b > 0 && 1 + b < |s| && s[1 + b] == ']' then
        assert s[1..][..b] == s[1..b + 1];
        b + 2
      else 0
    else 0
  }

  /** The identifier pattern tried at the start of `s`, first alternative
      first. The first alternative needs a word character there; its greedy
      `\w+` takes the whole word run, so its `\w*` is empty unless a bracket
      follows. */
  function MatchStart(s: string): Option<Groups> {
    var a := WordRun(s);
    if a > 0 then
      var rest := s[a..];
      var b := BracketLength(rest);
      if b > 0 then Some(Groups(s[..a], rest[..b], rest[b..][..WordRun(rest[b..])], [], []))
      else Some(Groups(s[..a], [], [], [], []))
    else
      var b := BracketLength(s);
      var c := if b > 0 then WordRun(s[b..]) else 0;
      if b > 0 && c > 0 then Some(Groups([], [], [], s[..b], s[b..][..c])) else None
  }

  /** `Regex.Match`: the leftmost position, from `k` on, at which the pattern
      matches; all groups are empty when it matches nowhere. */
  function MatchFrom(s: string, k: nat): Groups
    decreases |s| - k
  {
    if k >= |s| then NoMatch
    else
      match MatchStart(s[k..])
      case Some(g) => g
      case None => MatchFrom(s, k + 1)
  }

  /** `SplitIdentifiers`: the spellings of one alias part. */
  function SplitIdentifiers(singleIdentifierScheme: string): (r: seq<string>)
    ensures 1 <= |r| <= 2
  {
    var g := MatchFrom(singleIdentifierScheme, 0);
    if g.word != [] then
      if g.bracket != [] then
        if g.tail != [] then [g.word + g.tail, g.word + RemoveLastAndFirstChar(g.bracket) + g.tail]
        else [g.word, g.word + RemoveLastAndFirstChar(g.bracket)]
      else [g.word]
    else [RemoveLastAndFirstChar(g.prefixBracket) + g.prefixed, g.prefixed]
  }

  /** The spellings of each part, concatenated in order. */
  function SplitAll(parts: seq<string>): (r: seq<string>)
    ensures |parts| <= |r| <= 2 * |parts|
  {
    if parts == [] then [] else SplitIdentifiers(parts[0]) + SplitAll(parts[1..])
  }

  /** `GetIdentifiers`: splits the expression on `|` and expands every part. */
  function GetIdentifiers(multipleIdentifierScheme: string): (r: seq<string>)
    ensures |r| >= |Split(multipleIdentifierScheme, '|')| >= 1
  {
    SplitAll(Split(multipleIdentifierScheme, '|'))
  }

  // ---------------------------------------------------------------------------
  // Alias parts as syntax

  /** An alias part `pre[opt]post`, written without brackets when `opt` is
      empty (and then it is one word, `pre`). */
  datatype AliasPart = AliasPart(pre: string, opt: string, post: string)

  predicate WellFormed(a: AliasPart) {
    && AllWord(a.pre) && AllWord(a.opt) && AllWord(a.post)
    && (if a.opt == [] then a.pre != [] && a.post == [] else a.pre != [] || a.post != [])
  }

  function Print(a: AliasPart): string {
    if a.opt == [] then a.pre else a.pre + ['['] + a.opt + [']'] + a.post
  }

  /** What a part stands for: `A` gives `[A]`, `A[B]C` gives `[A+C, A+B+C]`
      (so `A[B]` gives `[A, A+B]`), and `[B]A` gives `[B+A, A]`. */
  function Spellings(a: AliasPart): seq<string> {
    if a.opt == [] then [a.pre]
    else if a.pre != [] then [a.pre + a.post, a.pre + a.opt + a.post]
    else [a.opt + a.post, a.post]
  }

  function PrintAll(parts: seq<AliasPart>): seq<string> {
    if parts == [] then [] else [Print(parts[0])] + PrintAll(parts[1..])
  }

  function SpellingsAll(parts: seq<AliasPart>): seq<string> {
    if parts == [] then [] else Spellings(parts[0]) + SpellingsAll(parts[1..])
  }

  /** Whether `p` as a whole is one alias part, as the argument pattern
      requires between its `|`s: a maximal word, then either nothing or a
      bracketed word followed by a (possibly empty) word, with some word
      outside the brackets. */
  predicate IsAliasPart(p: string) {
    var a := WordRun(p);
    var rest := p[a..];
    var b := BracketLength(rest);
    if rest == [] then a > 0 else b > 0 && AllWord(rest[b..]) && (a > 0 || |rest| > b)
  }

  /** The syntax of a string that is an alias part. */
  function Decompose(p: string): (a: AliasPart)
    requires IsAliasPart(p)
    ensures WellFormed(a) && Print(a) == p
  {
    var n := WordRun(p);
    var rest := p[n..];
    if rest == [] then
      assert p[..n] == p;
      AliasPart(p, [], [])
    else
      var b := BracketLength(rest);
      BracketedRest(p, n, b);
      AliasPart(p[..n], rest[1..b - 1], rest[b..])
  }

  lemma BracketedRest(p: string, n: nat, b: nat)
    requires n <= |p| && 3 <= b <= |p| - n
    requires p[n..][0] == '[' && p[n..][b - 1] == ']'
    ensures var rest := p[n..];
      p == p[..n] + ['['] + rest[1..b - 1] + [']'] + rest[b..]
  {
    var rest := p[n..];
    assert rest == ['['] + rest[1..b - 1] + [']'] + rest[b..];
    assert p == p[..n] + rest;
  }

  lemma BracketOfPrinted(opt: string, post: string)
    requires opt != [] && AllWord(opt)
    ensures BracketLength(['['] + opt + [']'] + post) == |opt| + 2
  {
    var s := ['['] + opt + [']'] + post;
    assert s[1..] == opt + ([']'] + post);
    WordRunOfWordThenStop(opt, [']'] + post);
  }

  /** A well-formed part prints to an alias part that decomposes back to it. */
  lemma PrintedIsAliasPart(a: AliasPart)
    requires WellFormed(a)
    ensures IsAliasPart(Print(a)) && Decompose(Print(a)) == a
  {
    var p := Print(a);
    if a.opt == [] {
      WordRunOfWordThenStop(a.pre, []);
      assert a.pre + [] == a.pre;
    } else {
      var rest := ['['] + a.opt + [']'] + a.post;
      assert p == a.pre + rest;
      WordRunOfWordThenStop(a.pre, rest);
      assert p[|a.pre|..] == rest;
      assert p[..|a.pre|] == a.pre;
      BracketOfPrinted(a.opt, a.post);
      assert rest[|a.opt| + 2..] == a.post;
      assert rest[1..|a.opt| + 1] == a.opt;
    }
  }

  /** So a string is an alias part exactly when it is the print of a
      well-formed part. */
  lemma AliasPartIffPrinted(p: string)
    ensures IsAliasPart(p) <==> exists a :: WellFormed(a) && Print(a) == p
  {
    if exists a :: WellFormed(a) && Print(a) == p {
      var a :| WellFormed(a) && Print(a) == p;
      PrintedIsAliasPart(a);
    }
    if IsAliasPart(p) {
      var a := Decompose(p);
      assert WellFormed(a) && Print(a) == p;
    }
  }

  // ---------------------------------------------------------------------------
  // Expansion

  /** The leftmost match of the identifier pattern on a printed part starts at
      the beginning and its groups are the part's pieces, so `SplitIdentifiers`
      gives exactly the part's spellings. */
  lemma SplitIdentifiersOfPrinted(a: AliasPart)
    requires WellFormed(a)
    ensures SplitIdentifiers(Print(a)) == Spellings(a)
  {
    var p := Print(a);
    assert p[0..] == p;
    var g := MatchStartOfPrinted(a);
    assert MatchFrom(p, 0) == g;
    if a.opt != [] {
      RemoveWrapped('[', a.opt, ']');
      if a.pre != [] && a.post == [] {
        assert a.pre + a.post == a.pre;
        assert a.pre + a.opt + a.post == a.pre + a.opt;
      }
    }
  }

  /** The groups of the identifier pattern matched at the start of a printed
      part. */
  lemma MatchStartOfPrinted(a: AliasPart) returns (g: Groups)
    requires WellFormed(a)
    ensures MatchStart(Print(a)) == Some(g)
    ensures a.opt == [] ==> g == Groups(a.pre, [], [], [], [])
    ensures a.opt != [] && a.pre != [] ==> g == Groups(a.pre, ['['] + a.opt + [']'], a.post, [], [])
    ensures a.opt != [] && a.pre == [] ==> g == Groups([], [], [], ['['] + a.opt + [']'], a.post)
  {
    var p := Print(a);
    if a.opt == [] {
      WordRunOfWordThenStop(a.pre, []);
      assert a.pre + [] == a.pre;
      assert p[..|a.pre|] == a.pre;
      g := Groups(a.pre, [], [], [], []);
    } else {
      var rest := ['['] + a.opt + [']'] + a.post;
      BracketedPost(a.opt, a.post);
      if a.pre != [] {
        assert p == a.pre + rest;
        WordRunOfWordThenStop(a.pre, rest);
        assert p[|a.pre|..] == rest;
        assert p[..|a.pre|] == a.pre;
        g := Groups(a.pre, ['['] + a.opt + [']'], a.post, [], []);
      } else {
        assert p == rest;
        assert WordRun(p) == 0;
        g := Groups([], [], [], ['['] + a.opt + [']'], a.post);
      }
    }
  }

  /** After a bracketed word comes the whole following word. */
  lemma BracketedPost(opt: string, post: string)
    requires opt != [] && AllWord(opt) && AllWord(post)
    ensures var rest := ['['] + opt + [']'] + post;
      && BracketLength(rest) == |opt| + 2
      && rest[..|opt| + 2] == ['['] + opt + [']']
      && rest[|opt| + 2..] == post
      && WordRun(post) == |post| && post[..|post|] == post
  {
    BracketOfPrinted(opt, post);
    WordRunOfWordThenStop(post, []);
    assert post + [] == post;
  }

  /** Every alias part expands to its spellings. */
  lemma SplitIdentifiersOfAliasPart(p: string)
    requires IsAliasPart(p)
    ensures SplitIdentifiers(p) == Spellings(Decompose(p))
  {
    SplitIdentifiersOfPrinted(Decompose(p));
  }

  lemma {:induction false} PrintAllShape(parts: seq<AliasPart>)
    requires forall i :: 0 <= i < |parts| ==> WellFormed(parts[i])
    ensures |PrintAll(parts)| == |parts|
    ensures forall i :: 0 <= i < |parts| ==> PrintAll(parts)[i] == Print(parts[i]) && '|' !in Print(parts[i])
  {
    if parts != [] {
      PrintAllShape(parts[1..]);
      forall i | 0 <= i < |parts|
        ensures '|' !in Print(parts[i])
      {
        var a := parts[i];
        assert forall k :: 0 <= k < |a.pre| ==> IsWordChar(a.pre[k]);
        assert forall k :: 0 <= k < |Print(a)| ==> Print(a)[k] != '|';
      }
    }
  }

  lemma {:induction false} SplitAllPrinted(parts: seq<AliasPart>)
    requires forall i :: 0 <= i < |parts| ==> WellFormed(parts[i])
    ensures SplitAll(PrintAll(parts)) == SpellingsAll(parts)
  {
    if parts != [] {
      SplitIdentifiersOfPrinted(parts[0]);
      SplitAllPrinted(parts[1..]);
      assert PrintAll(parts)[1..] == PrintAll(parts[1..]);
    }
  }

  /** A `|`-joined expression of well-formed parts yields the parts' spellings
      concatenated in order. */
  lemma GetIdentifiersOfPrinted(parts: seq<AliasPart>)
    requires |parts| >= 1
    requires forall i :: 0 <= i < |parts| ==> WellFormed(parts[i])
    ensures GetIdentifiers(Join(PrintAll(parts), '|')) == SpellingsAll(parts)
  {
    PrintAllShape(parts);
    SplitJoin(PrintAll(parts), '|');
    SplitAllPrinted(parts);
  }

  /** For instance `v[erbose]` stands for `v` and `verbose`, */
  lemma VerboseExample()
    ensures SplitIdentifiers("v[erbose]") == ["v", "verbose"]
  {
    var v := AliasPart("v", "erbose", "");
    assert AllWord(v.opt);
    assert Print(v) == "v[erbose]";
    assert v.pre + v.post == "v" && v.pre + v.opt + v.post == "verbose";
    SplitIdentifiersOfPrinted(v);
  }

  /** and `[un]install` for `uninstall` and `install`. */
  lemma UninstallExample()
    ensures SplitIdentifiers("[un]install") == ["uninstall", "install"]
  {
    var u := AliasPart("", "un", "install");
    assert AllWord(u.post);
    assert Print(u) == "[un]install";
    assert u.opt + u.post == "uninstall";
    SplitIdentifiersOfPrinted(u);
  }
}
