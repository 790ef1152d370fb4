/** The argument pattern of the validator,
    `\A A(\|A)*(:\(V(\|V)*\)|:V(\|V)*)?\Z` with `A` the identifier pattern and
    `V` the value class `["\w ]+`, as a recogniser; and the syntax of the
    descriptor parts it accepts. */
module Grammar {
  import opened Text
  import opened Identifiers

  // ---------------------------------------------------------------------------
  // The recogniser

  /** One character of a value, `["\w ]`. */
  predicate IsValueChar(c: char) {
    c == '"' || c == ' ' || IsWordChar(c)
  }

  /** `["\w ]+` */
  predicate IsValueWord(v: string) {
    v != [] && forall i :: 0 <= i < |v| ==> IsValueChar(v[i])
  }

  /** `V(\|V)*`: every `|`-separated piece is a value. */
  predicate IsValueList(l: string) {
    var vs := Split(l, '|');
    forall i :: 0 <= i < |vs| ==> IsValueWord(vs[i])
  }

  /** What follows the `:`, bare or wrapped in parentheses. */
  predicate IsValueClause(c: string) {
    IsValueList(c) || (|c| >= 2 && c[0] == '(' && c[|c| - 1] == ')' && IsValueList(c[1..|c| - 1]))
  }

  /** `A(\|A)*`: every `|`-separated piece is one alias part. */
  predicate IsAliasExpression(e: string) {
    var ps := Split(e, '|');
    forall i :: 0 <= i < |ps| ==> IsAliasPart(ps[i])
  }

  /** The pattern between `\A` and the end of the text. Neither an alias
      expression nor a value holds a `:`, so the first `:` starts the value
      clause. */
  predicate MatchesWhole(s: string) {
    var k := IndexOf(s, ':');
    if k == -1 then IsAliasExpression(s)
    else IsAliasExpression(s[..k]) && IsValueClause(s[k + 1..])
  }

  /** `IsValid`: `\Z` matches at the end of the text and also just before a
      final line feed. */
  predicate IsValid(argument: string) {
    || MatchesWhole(argument)
    || (argument != [] && argument[|argument| - 1] == '\n' && MatchesWhole(argument[..|argument| - 1]))
  }

  // ---------------------------------------------------------------------------
  // The characters a valid argument is made of

  predicate IsAliasChar(c: char) {
    IsWordChar(c) || c == '[' || c == ']'
  }

  predicate IsAliasExpressionChar(c: char) {
    IsAliasChar(c) || c == '|'
  }

  predicate IsValueListChar(c: char) {
    IsValueChar(c) || c == '|'
  }

  predicate IsGrammarChar(c: char) {
    IsValueListChar(c) || IsAliasChar(c) || c == ':' || c == '(' || c == ')'
  }

  lemma AliasPartChars(p: string)
    requires IsAliasPart(p)
    ensures AllChars(p, IsAliasChar)
  {
    var a := Decompose(p);
    if a.opt != [] {
      AllCharsAppend(a.pre + ['['] + a.opt + [']'], a.post, IsAliasChar);
      AllCharsAppend(a.pre + ['['] + a.opt, [']'], IsAliasChar);
      AllCharsAppend(a.pre + ['['], a.opt, IsAliasChar);
      AllCharsAppend(a.pre, ['['], IsAliasChar);
    }
  }

  lemma AliasExpressionChars(e: string)
    requires IsAliasExpression(e)
    ensures AllChars(e, IsAliasExpressionChar)
  {
    var ps := Split(e, '|');
    forall j | 0 <= j < |ps|
      ensures AllChars(ps[j], IsAliasExpressionChar)
    {
      AliasPartChars(ps[j]);
    }
    JoinChars(ps, '|', IsAliasExpressionChar);
  }

  lemma ValueListChars(l: string)
    requires IsValueList(l)
    ensures AllChars(l, IsValueListChar)
  {
    JoinChars(Split(l, '|'), '|', IsValueListChar);
  }

  lemma ValueClauseChars(c: string)
    requires IsValueClause(c)
    ensures AllChars(c, IsGrammarChar)
  {
    if IsValueList(c) {
      ValueListChars(c);
      assert forall i :: 0 <= i < |c| ==> IsValueListChar(c[i]);
    } else {
      var inner := c[1..|c| - 1];
      ValueListChars(inner);
      assert AllChars(inner, IsGrammarChar) by {
        assert forall i :: 0 <= i < |inner| ==> IsValueListChar(inner[i]);
      }
      assert c == ['('] + inner + [')'];
      AllCharsAppend(['('] + inner, [')'], IsGrammarChar);
      AllCharsAppend(['('], inner, IsGrammarChar);
    }
  }

  lemma MatchesWholeChars(s: string)
    requires MatchesWhole(s)
    ensures AllChars(s, IsGrammarChar)
  {
    var k := IndexOf(s, ':');
    if k == -1 {
      AliasOnlyChars(s);
    } else {
      WithValueChars(s, k);
    }
  }

  lemma AliasExpressionGrammarChars(a: string)
    requires AllChars(a, IsAliasExpressionChar)
    ensures AllChars(a, IsGrammarChar)
  {
    assert forall i :: 0 <= i < |a| ==> IsAliasExpressionChar(a[i]);
  }

  lemma AliasOnlyChars(a: string)
    requires IsAliasExpression(a)
    ensures AllChars(a, IsGrammarChar)
  {
    AliasExpressionChars(a);
    AliasExpressionGrammarChars(a);
  }

  lemma WithValueChars(s: string, k: nat)
    requires k < |s| && s[k] == ':'
    requires IsAliasExpression(s[..k]) && IsValueClause(s[k + 1..])
    ensures AllChars(s, IsGrammarChar)
  {
    var a, b := s[..k], s[k + 1..];
    AliasExpressionChars(a);
    ValueClauseChars(b);
    ColonChars(a, b);
    assert s == a + [':'] + b;
  }

  lemma ColonChars(a: string, b: string)
    requires AllChars(a, IsAliasExpressionChar) && AllChars(b, IsGrammarChar)
    ensures AllChars(a + [':'] + b, IsGrammarChar)
  {
    AliasExpressionGrammarChars(a);
    AllCharsAppend(a + [':'], b, IsGrammarChar);
    AllCharsAppend(a, [':'], IsGrammarChar);
  }


  /** A valid argument is made of word characters, the pattern's punctuation
      `[ ] | : ( ) "` and spaces, except for a final line feed. */
  lemma ValidChars(s: string)
    requires IsValid(s)
    ensures forall i :: 0 <= i < |s| ==> IsGrammarChar(s[i]) || (i == |s| - 1 && s[i] == '\n')
  {
    if MatchesWhole(s) {
      MatchesWholeChars(s);
    } else {
      MatchesWholeChars(s[..|s| - 1]);
      AllButLastChars(s);
    }
  }

  lemma AllButLastChars(s: string)
    requires s != [] && AllChars(s[..|s| - 1], IsGrammarChar)
    ensures forall i :: 0 <= i < |s| - 1 ==> IsGrammarChar(s[i])
  {
    assert forall i :: 0 <= i < |s| - 1 ==> s[i] == s[..|s| - 1][i];
  }

  /** Hence no valid argument holds `=` (so the `=` fallback in `GetArgument`
      never applies) or `,` (so the parts of a descriptor are exactly its
      `,`-separated pieces). */
  lemma ValidHasNoEqualsOrComma(s: string)
    requires IsValid(s)
    ensures '=' !in s && ',' !in s
  {
    ValidChars(s);
  }

  // ---------------------------------------------------------------------------
  // Descriptor-part syntax

  /** A value clause: one of the keywords `"list`, `"l`, `"single` and `"s`
      (compared after lower-casing), or the allowed literal values. */
  datatype ValueClause = Keyword(word: string) | Literals(values: seq<string>)

  /** A value clause and whether it is wrapped in parentheses (optional values). */
  datatype ValueSpec = ValueSpec(clause: ValueClause, optional: bool)

  /** One part of a descriptor: its alias parts, its value clause if any, and
      whether the whole part is wrapped in parentheses (an optional argument). */
  datatype PartSyntax = PartSyntax(aliases: seq<AliasPart>, value: Option<ValueSpec>, optional: bool)

  predicate IsKeyword(w: string) {
    ToLower(w) in {"\"list", "\"l", "\"single", "\"s"}
  }

  predicate WellFormedClause(c: ValueClause) {
    match c
    case Keyword(w) => IsKeyword(w)
    case Literals(vs) =>
      && |vs| >= 1
      && (forall i :: 0 <= i < |vs| ==> IsValueWord(vs[i]))
      && (|vs| == 1 ==> !IsKeyword(vs[0]))
  }

  predicate WellFormedPart(p: PartSyntax) {
    && |p.aliases| >= 1
    && (forall i :: 0 <= i < |p.aliases| ==> WellFormed(p.aliases[i]))
    && (p.value.Some? ==> WellFormedClause(p.value.value.clause))
  }

  function PrintClause(c: ValueClause): string {
    match c
    case Keyword(w) => w
    case Literals(vs) => if vs == [] then [] else Join(vs, '|')
  }

  function PrintValue(v: ValueSpec): string {
    if v.optional then ['('] + PrintClause(v.clause) + [')'] else PrintClause(v.clause)
  }

  function PrintAliases(aliases: seq<AliasPart>): string {
    if aliases == [] then [] else Join(PrintAll(aliases), '|')
  }

  /** The part without its optional-argument parentheses. */
  function PrintBody(p: PartSyntax): string {
    match p.value
    case None => PrintAliases(p.aliases)
    case Some(v) => PrintAliases(p.aliases) + [':'] + PrintValue(v)
  }

  function PrintPart(p: PartSyntax): string {
    if p.optional then ['('] + PrintBody(p) + [')'] else PrintBody(p)
  }

  // ---------------------------------------------------------------------------
  // The recogniser accepts exactly the printed parts

  lemma KeywordIsValueWord(w: string)
    requires IsKeyword(w)
    ensures IsValueWord(w) && '|' !in w && w[0] == '"'
  {
    var l := ToLower(w);
    assert forall i :: 0 <= i < |l| ==> IsValueChar(l[i]) && l[i] != '|';
    assert l[0] == '"';
  }

  lemma PrintedAliasesMatch(aliases: seq<AliasPart>)
    requires |aliases| >= 1 && forall i :: 0 <= i < |aliases| ==> WellFormed(aliases[i])
    ensures IsAliasExpression(PrintAliases(aliases))
    ensures ':' !in PrintAliases(aliases)
  {
    PrintedAliasesAreExpression(aliases);
    AliasExpressionChars(PrintAliases(aliases));
    NotInAllChars(PrintAliases(aliases), IsAliasExpressionChar, ':');
  }

  lemma PrintedAliasesAreExpression(aliases: seq<AliasPart>)
    requires |aliases| >= 1 && forall i :: 0 <= i < |aliases| ==> WellFormed(aliases[i])
    ensures IsAliasExpression(PrintAliases(aliases))
  {
    var ps := PrintAll(aliases);
    PrintAllShape(aliases);
    SplitJoin(ps, '|');
    forall i | 0 <= i < |ps|
      ensures IsAliasPart(ps[i])
    {
      PrintedIsAliasPart(aliases[i]);
    }
  }


  lemma PrintedClauseIsValueList(c: ValueClause)
    requires WellFormedClause(c)
    ensures IsValueList(PrintClause(c)) && PrintClause(c) != []
  {
    match c
    case Keyword(w) =>
      KeywordIsValueWord(w);
      assert IndexOf(w, '|') == -1;
    case Literals(vs) =>
      forall i | 0 <= i < |vs|
        ensures '|' !in vs[i]
      {
        NotInAllChars(vs[i], IsValueChar, '|');
      }
      SplitJoin(vs, '|');
      assert |Join(vs, '|')| >= |vs[0]| by {
        if |vs| > 1 {
          assert Join(vs, '|') == vs[0] + ['|'] + Join(vs[1..], '|');
        }
      }
  }

  lemma PrintedValueIsClause(v: ValueSpec)
    requires WellFormedClause(v.clause)
    ensures IsValueClause(PrintValue(v))
  {
    PrintedClauseIsValueList(v.clause);
    if v.optional {
      var c := PrintValue(v);
      assert c[1..|c| - 1] == PrintClause(v.clause);
    }
  }

  /** Every well-formed part body matches the argument pattern. */
  lemma PrintedBodyMatches(p: PartSyntax)
    requires WellFormedPart(p)
    ensures MatchesWhole(PrintBody(p)) && IsValid(PrintBody(p))
  {
    var a := PrintAliases(p.aliases);
    PrintedAliasesMatch(p.aliases);
    match p.value
    case None =>
    case Some(v) =>
      var s := PrintBody(p);
      IndexOfAfterFree(a, ':', PrintValue(v));
      assert s[..|a|] == a;
      assert s[|a| + 1..] == PrintValue(v);
      PrintedValueIsClause(v);
  }

  /** The value clause of a text that matches `["\w ]+(\|["\w ]+)*`. */
  function ParseClause(l: string): (c: ValueClause)
    requires IsValueList(l)
    ensures WellFormedClause(c) && PrintClause(c) == l
  {
    var vs := Split(l, '|');
    if |vs| == 1 && IsKeyword(vs[0]) then Keyword(vs[0]) else Literals(vs)
  }

  function ParseValue(c: string): (v: ValueSpec)
    requires IsValueClause(c)
    ensures WellFormedClause(v.clause) && PrintValue(v) == c
  {
    if |c| >= 2 && c[0] == '(' && c[|c| - 1] == ')' && IsValueList(c[1..|c| - 1]) then
      var inner := c[1..|c| - 1];
      assert c == ['('] + inner + [')'];
      ValueSpec(ParseClause(inner), true)
    else
      ValueSpec(ParseClause(c), false)
  }

  function ParseAliases(ps: seq<string>): (aliases: seq<AliasPart>)
    requires forall i :: 0 <= i < |ps| ==> IsAliasPart(ps[i])
    ensures |aliases| == |ps| && PrintAll(aliases) == ps
    ensures forall i :: 0 <= i < |aliases| ==> WellFormed(aliases[i])
  {
    if ps == [] then [] else [Decompose(ps[0])] + ParseAliases(ps[1..])
  }

  /** The part syntax of an alias expression followed by a value clause. */
  lemma ParsedWithValue(s: string, k: nat)
    requires k < |s| && s[k] == ':'
    requires IsAliasExpression(s[..k]) && IsValueClause(s[k + 1..])
    ensures exists p :: WellFormedPart(p) && PrintBody(p) == s
  {
    var a, b := s[..k], s[k + 1..];
    assert s == a + [':'] + b;
    var aliases := ParseAliases(Split(a, '|'));
    assert PrintAliases(aliases) == a;
    var p := PartSyntax(aliases, Some(ParseValue(b)), false);
    assert WellFormedPart(p) && PrintBody(p) == a + [':'] + b;
  }

  /** The part syntax of an alias expression on its own. */
  lemma ParsedWithoutValue(a: string)
    requires IsAliasExpression(a)
    ensures exists p :: WellFormedPart(p) && PrintBody(p) == a
  {
    var aliases := ParseAliases(Split(a, '|'));
    assert PrintAliases(aliases) == a;
    var p := PartSyntax(aliases, None, false);
    assert WellFormedPart(p) && PrintBody(p) == a;
  }

  /** The argument pattern, anchored at both ends, accepts exactly the printed
      part bodies. */
  lemma MatchesWholeIffPrinted(s: string)
    ensures MatchesWhole(s) <==> exists p :: WellFormedPart(p) && PrintBody(p) == s
  {
    if MatchesWhole(s) {
      var k := IndexOf(s, ':');
      if k == -1 {
        ParsedWithoutValue(s);
      } else {
        ParsedWithValue(s, k);
      }
    }
    if exists p :: WellFormedPart(p) && PrintBody(p) == s {
      var p :| WellFormedPart(p) && PrintBody(p) == s;
      PrintedBodyMatches(p);
    }
  }
}
