/** The descriptor compiler: `GetArgumentSchemes` turns a descriptor such as
    `cmd,v[erbose],(o[ut]:"s)` into one argument scheme per `,`-separated
    part, the first being the command. */
module Compiler {
  import opened Text
  import opened Identifiers
  import opened Grammar

  /** How many values an argument takes: none, one, or a list. */
  datatype ValueType = None | Single | List

  /** The compiled, unchanging part of an `ArgumentScheme`. */
  datatype Scheme = Scheme(
    identifiers: seq<string>,
    allowedValues: seq<string>,
    valueType: ValueType,
    optionalValues: bool,
    isOptional: bool,
    isCmd: bool)

  /** The three results of `GetValues`: the allowed values and its two out
      parameters. */
  datatype Values = Values(values: seq<string>, optionalValues: bool, valueType: ValueType)

  /** The two exceptions the validator throws, without their message text. */
  datatype Error = CorruptArgumentScheme(scheme: string) | DuplicativeCmd(identifier: string)

  datatype Result<T> = Success(value: T) | Failure(error: Error)

  // ---------------------------------------------------------------------------
  // GetValues

  predicate NoUpper(c: char) {
    !('A' <= c <= 'Z')
  }

  /** `GetValues`: the clause after the `:`, lower-cased; outer parentheses
      make the values optional. */
  function GetValues(valueScheme: string): (r: Values)
    ensures r.optionalValues <==> CheckFirstAndLastCharOfString('(', ')', ToLower(valueScheme))
    ensures r.valueType != ValueType.None
    ensures r.valueType == List ==> r.values == []
    ensures forall i :: 0 <= i < |r.values| ==> AllChars(r.values[i], NoUpper)
  {
    var lowered := ToLower(valueScheme);
    var optionalValues := CheckFirstAndLastCharOfString('(', ')', lowered);
    var clause := if optionalValues then RemoveLastAndFirstChar(lowered) else lowered;
    assert AllChars(clause, NoUpper) by {
      if optionalValues && |lowered| >= 3 {
        assert forall i :: 0 <= i < |clause| ==> clause[i] == lowered[i + 1];
      }
    }
    ClauseValues(clause, optionalValues)
  }

  /** The lower-cased clause: `"list`/`"l` and `"single`/`"s` select the
      arity; anything else is the `|`-separated list of allowed values of a
      single-value argument. */
  function ClauseValues(clause: string, optionalValues: bool): (r: Values)
    requires AllChars(clause, NoUpper)
    ensures r.optionalValues == optionalValues
    ensures r.valueType != ValueType.None
    ensures r.valueType == List ==> r.values == []
    ensures forall i :: 0 <= i < |r.values| ==> AllChars(r.values[i], NoUpper)
  {
    if clause == "\"list" || clause == "\"l" then Values([], optionalValues, List)
    else if clause == "\"single" || clause == "\"s" then Values([], optionalValues, Single)
    else
      var values := Split(clause, '|');
      JoinChars(values, '|', NoUpper);
      Values(values, optionalValues, Single)
  }

  /** What a value clause stands for. */
  function ExpectedValues(v: ValueSpec): Values {
    match v.clause
    case Keyword(w) =>
      Values([], v.optional, if ToLower(w) in {"\"list", "\"l"} then List else Single)
    case Literals(vs) => Values(LowerAll(vs), v.optional, Single)
  }

  lemma LowerValueChar(c: char)
    ensures IsValueChar(LowerChar(c)) <==> IsValueChar(c)
    ensures LowerChar(c) == '|' <==> c == '|'
    ensures LowerChar(c) == '(' <==> c == '('
  {
  }

  lemma LowerWrapped(c: string)
    ensures ToLower(['('] + c + [')']) == ['('] + ToLower(c) + [')']
  {
    var t := ['('] + c + [')'];
    var u := ['('] + ToLower(c) + [')'];
    assert |ToLower(t)| == |u|;
    forall i | 0 <= i < |u|
      ensures ToLower(t)[i] == u[i]
    {
      if 0 < i < |u| - 1 {
        assert t[i] == c[i - 1];
      }
    }
  }

  /** The clause after lower-casing is a keyword exactly for `Keyword`, and
      splits into the lower-cased literals otherwise. */
  lemma LoweredClause(c: ValueClause)
    requires WellFormedClause(c)
    ensures var l := ToLower(PrintClause(c));
      match c
      case Keyword(w) => l == ToLower(w) && IsKeyword(w)
      case Literals(vs) => !IsKeyword(PrintClause(c)) && Split(l, '|') == LowerAll(vs)
  {
    match c
    case Keyword(w) =>
    case Literals(vs) =>
      LoweredLiterals(vs);
  }

  lemma LoweredLiterals(vs: seq<string>)
    requires WellFormedClause(Literals(vs))
    ensures !IsKeyword(Join(vs, '|'))
    ensures Split(ToLower(Join(vs, '|')), '|') == LowerAll(vs)
  {
    var lv := LowerAll(vs);
    ToLowerJoin(vs, '|');
    LowerAllNoBar(vs);
    SplitJoin(lv, '|');
    if |vs| > 1 {
      JoinHasBar(lv);
      KeywordsHaveNoBar(ToLower(Join(vs, '|')));
    }
  }

  lemma KeywordsHaveNoBar(l: string)
    requires '|' in l
    ensures l !in {"\"list", "\"l", "\"single", "\"s"}
  {
  }

  lemma JoinHasBar(lv: seq<string>)
    requires |lv| > 1
    ensures '|' in Join(lv, '|')
  {
    assert Join(lv, '|') == lv[0] + ['|'] + Join(lv[1..], '|');
    assert Join(lv, '|')[|lv[0]|] == '|';
  }

  lemma LowerAllNoBar(vs: seq<string>)
    requires forall i :: 0 <= i < |vs| ==> IsValueWord(vs[i])
    ensures forall i :: 0 <= i < |vs| ==> '|' !in LowerAll(vs)[i]
  {
    forall i | 0 <= i < |vs|
      ensures '|' !in LowerAll(vs)[i]
    {
      forall j | 0 <= j < |vs[i]|
        ensures LowerAll(vs)[i][j] != '|'
      {
        LowerValueChar(vs[i][j]);
      }
    }
  }


  lemma GetValuesUnwraps(v: ValueSpec)
    requires WellFormedClause(v.clause)
    ensures var l := ToLower(PrintClause(v.clause));
      AllChars(l, NoUpper) && GetValues(PrintValue(v)) == ClauseValues(l, v.optional)
  {
    var c := PrintClause(v.clause);
    PrintedClauseIsValueList(v.clause);
    assert IsValueChar(c[0]) by {
      match v.clause
      case Keyword(w) => KeywordIsValueWord(w);
      case Literals(vs) =>
        JoinFirst(vs, '|');
    }
    LowerValueChar(c[0]);
    if v.optional {
      LowerWrapped(c);
      RemoveWrapped('(', ToLower(c), ')');
    } else {
      assert ToLower(PrintValue(v))[0] == LowerChar(c[0]) != '(';
    }
  }

  /** `GetValues` reads back every well-formed clause as it stands for. */
  lemma GetValuesOfPrinted(v: ValueSpec)
    requires WellFormedClause(v.clause)
    ensures GetValues(PrintValue(v)) == ExpectedValues(v)
  {
    GetValuesUnwraps(v);
    LoweredClause(v.clause);
  }

  // ---------------------------------------------------------------------------
  // GetArgument

  /** The part with the parentheses of an optional argument removed. */
  function Unwrapped(argumentScheme: string): string {
    if CheckFirstAndLastCharOfString('(', ')', argumentScheme) then RemoveLastAndFirstChar(argumentScheme)
    else argumentScheme
  }

  /** `GetArgument`: parentheses around the whole part make it optional; the
      rest must match the argument pattern, or there is no scheme; what comes
      before the `:` gives the identifiers and what follows it the values. */
  function GetArgument(argumentScheme: string, isCmd: bool): (r: Option<Scheme>)
    ensures r.Some? ==>
      && r.value.isCmd == isCmd
      && r.value.isOptional == CheckFirstAndLastCharOfString('(', ')', argumentScheme)
      && |r.value.identifiers| >= 1
      && (r.value.valueType != Single ==> r.value.allowedValues == [])
      && (r.value.valueType == ValueType.None ==> !r.value.optionalValues)
  {
    var isOptional := CheckFirstAndLastCharOfString('(', ')', argumentScheme);
    var body := if isOptional then RemoveLastAndFirstChar(argumentScheme) else argumentScheme;
    if IsValid(body) then
      var colon := IndexOf(body, ':');
      var num := if colon == -1 then IndexOf(body, '=') else colon;
      if num > -1 then
        var v := GetValues(body[num + 1..]);
        Some(Scheme(GetIdentifiers(body[..num]), v.values, v.valueType, v.optionalValues, isOptional, isCmd))
      else
        Some(Scheme(GetIdentifiers(body), [], ValueType.None, false, isOptional, isCmd))
    else Option.None
  }

  /** A part compiles exactly when, without the parentheses of an optional
      argument, it matches the argument pattern. */
  lemma GetArgumentAccepts(argumentScheme: string, isCmd: bool)
    ensures GetArgument(argumentScheme, isCmd).Some? <==> IsValid(Unwrapped(argumentScheme))
  {
  }

  /** What a well-formed part stands for. */
  function ExpectedScheme(p: PartSyntax, isCmd: bool): Scheme {
    var ids := SpellingsAll(p.aliases);
    match p.value
    case None => Scheme(ids, [], ValueType.None, false, p.optional, isCmd)
    case Some(v) =>
      var e := ExpectedValues(v);
      Scheme(ids, e.values, e.valueType, e.optionalValues, p.optional, isCmd)
  }

  lemma BodyStart(p: PartSyntax)
    requires WellFormedPart(p)
    ensures PrintBody(p) != [] && IsAliasChar(PrintBody(p)[0])
  {
    PrintAllShape(p.aliases);
    var a := p.aliases[0];
    assert Print(a) != [] && IsAliasChar(Print(a)[0]);
    JoinFirst(PrintAll(p.aliases), '|');
  }

  /** Where the value clause of a printed body starts. */
  lemma BodyColon(p: PartSyntax)
    requires WellFormedPart(p)
    ensures var b, a := PrintBody(p), PrintAliases(p.aliases);
      match p.value
      case None => IndexOf(b, ':') == -1 && IndexOf(b, '=') == -1 && b == a
      case Some(v) => IndexOf(b, ':') == |a| && b[..|a|] == a && b[|a| + 1..] == PrintValue(v)
  {
    var a := PrintAliases(p.aliases);
    PrintedAliasesMatch(p.aliases);
    match p.value
    case None =>
      AliasExpressionChars(a);
      NotInAllChars(a, IsAliasExpressionChar, '=');
    case Some(v) =>
      var b := PrintBody(p);
      IndexOfAfterFree(a, ':', PrintValue(v));
      assert b[..|a|] == a;
      assert b[|a| + 1..] == PrintValue(v);
  }

  /** `GetArgument` reads back every well-formed part as it stands for. */
  lemma GetArgumentOfPrinted(p: PartSyntax, isCmd: bool)
    requires WellFormedPart(p)
    ensures GetArgument(PrintPart(p), isCmd) == Some(ExpectedScheme(p, isCmd))
  {
    var s := PrintPart(p);
    var body := PrintBody(p);
    BodyStart(p);
    PrintedBodyMatches(p);
    BodyColon(p);
    if p.optional {
      RemoveWrapped('(', body, ')');
    } else {
      assert !CheckFirstAndLastCharOfString('(', ')', s);
    }
    assert Unwrapped(s) == body;
    GetIdentifiersOfPrinted(p.aliases);
    match p.value
    case None =>
    case Some(v) => GetValuesOfPrinted(v);
  }

  /** A part whose unwrapped text is a printed body is itself a printed part. */
  lemma WrappedPrinted(s: string, p: PartSyntax)
    requires WellFormedPart(p) && PrintBody(p) == Unwrapped(s)
    ensures exists q :: WellFormedPart(q) && PrintPart(q) == s
  {
    if CheckFirstAndLastCharOfString('(', ')', s) {
      BodyStart(p);
      if |s| < 3 {
        assert false;
      }
      var q := p.(optional := true);
      assert PrintPart(q) == s;
    } else {
      var q := p.(optional := false);
      assert PrintPart(q) == s;
    }
  }

  lemma UnwrappedHasNoLineFeed(s: string)
    requires '\n' !in s
    ensures '\n' !in Unwrapped(s)
  {
  }

  /** A part without line feeds that compiles is a printed part. */
  lemma CompiledIsPrinted(s: string, isCmd: bool)
    requires '\n' !in s && GetArgument(s, isCmd).Some?
    ensures exists p :: WellFormedPart(p) && PrintPart(p) == s
  {
    GetArgumentAccepts(s, isCmd);
    var body := Unwrapped(s);
    UnwrappedHasNoLineFeed(s);
    assert MatchesWhole(body);
    MatchesWholeIffPrinted(body);
    var p :| WellFormedPart(p) && PrintBody(p) == body;
    WrappedPrinted(s, p);
  }

  /** A part without line feeds compiles exactly when it is a printed part. */
  lemma GetArgumentIffPrinted(s: string, isCmd: bool)
    requires '\n' !in s
    ensures GetArgument(s, isCmd).Some? <==> exists p :: WellFormedPart(p) && PrintPart(p) == s
  {
    if GetArgument(s, isCmd).Some? {
      CompiledIsPrinted(s, isCmd);
    }
    if exists p :: WellFormedPart(p) && PrintPart(p) == s {
      var p :| WellFormedPart(p) && PrintPart(p) == s;
      GetArgumentOfPrinted(p, isCmd);
    }
  }

  /** `GetArgumentScheme`: a part that does not compile is an error. */
  function GetArgumentScheme(argumentSchemeString: string, isCmd: bool): (r: Result<Scheme>)
    ensures r.Failure? <==> GetArgument(argumentSchemeString, isCmd) == Option.None
    ensures r.Failure? ==> r.error == CorruptArgumentScheme(argumentSchemeString)
    ensures r.Success? ==> GetArgument(argumentSchemeString, isCmd) == Some(r.value)
  {
    match GetArgument(argumentSchemeString, isCmd)
    case None => Failure(CorruptArgumentScheme(argumentSchemeString))
    case Some(s) => Success(s)
  }

  // ---------------------------------------------------------------------------
  // GetArgumentSchemes

  /** The scheme, if any, of every part: only the first part is the command. */
  function PartSchemes(parts: seq<string>): (r: seq<Option<Scheme>>)
    ensures |r| == |parts|
  {
    MapParts(parts, 0, GetArgument)
  }

  /** `f` applied to every part from `j` on and to whether that part is the
      first. */
  function MapParts<T>(parts: seq<string>, j: nat, f: (string, bool) -> T): (r: seq<T>)
    requires j <= |parts|
    ensures |r| == |parts| - j
    decreases |parts| - j
  {
    if j == |parts| then [] else [f(parts[j], j == 0)] + MapParts(parts, j + 1, f)
  }

  lemma {:induction false} MapPartsAt<T>(parts: seq<string>, j: nat, k: nat, f: (string, bool) -> T)
    requires j <= k < |parts|
    ensures MapParts(parts, j, f)[k - j] == f(parts[k], k == 0)
    decreases k - j
  {
    if j < k {
      MapPartsAt(parts, j + 1, k, f);
    }
  }

  /** The scheme of the part at `k` is what `GetArgument` makes of it. */
  lemma PartSchemesAt(parts: seq<string>, k: nat)
    requires k < |parts|
    ensures PartSchemes(parts)[k] == GetArgument(parts[k], k == 0)
  {
    MapPartsAt(parts, 0, k, GetArgument);
  }

  /** The parts from `i` on, given the scheme of each, in order, stopping at
      the first that does not compile. */
  function CompileFrom(schemes: seq<Option<Scheme>>, parts: seq<string>, i: nat): Result<seq<Scheme>>
    requires |schemes| == |parts| && i <= |parts|
    decreases |parts| - i
  {
    if i == |parts| then Success([])
    else
      match schemes[i]
      case None => Failure(CorruptArgumentScheme(parts[i]))
      case Some(s) => Prepend([s], CompileFrom(schemes, parts, i + 1))
  }

  /** The list `list` in front of a successful result; a failure unchanged. */
  function Prepend(list: seq<Scheme>, r: Result<seq<Scheme>>): Result<seq<Scheme>> {
    match r
    case Success(rest) => Success(list + rest)
    case Failure(e) => Failure(e)
  }

  /** Compilation from `i` succeeds exactly when every part from `i` on has a
      scheme, and then yields those schemes in order; otherwise it reports
      the first part that has none. */
  lemma {:induction false} CompileFromMeaning(schemes: seq<Option<Scheme>>, parts: seq<string>, i: nat)
    requires |schemes| == |parts| && i <= |parts|
    ensures var r := CompileFrom(schemes, parts, i);
      && (r.Success? <==> forall k :: i <= k < |parts| ==> schemes[k].Some?)
      && (r.Success? ==>
            |r.value| == |parts| - i && forall k :: i <= k < |parts| ==> schemes[k] == Some(r.value[k - i]))
      && (r.Failure? ==>
            exists k :: i <= k < |parts| && schemes[k] == Option.None
              && r.error == CorruptArgumentScheme(parts[k])
              && forall m :: i <= m < k ==> schemes[m].Some?)
    decreases |parts| - i
  {
    if i < |parts| {
      CompileFromMeaning(schemes, parts, i + 1);
      var r, rest := CompileFrom(schemes, parts, i), CompileFrom(schemes, parts, i + 1);
      match schemes[i]
      case None =>
        assert r.error == CorruptArgumentScheme(parts[i]);
      case Some(s) =>
        if rest.Success? {
          assert r.value == [s] + rest.value;
          assert forall k :: 0 < k < |r.value| ==> r.value[k] == rest.value[k - 1];
        } else {
          var k :| i + 1 <= k < |parts| && schemes[k] == Option.None
            && rest.error == CorruptArgumentScheme(parts[k])
            && forall m :: i + 1 <= m < k ==> schemes[m].Some?;
          assert r.error == CorruptArgumentScheme(parts[k]);
        }
    }
  }

  function CompileParts(parts: seq<string>, i: nat): Result<seq<Scheme>>
    requires i <= |parts|
  {
    CompileFrom(PartSchemes(parts), parts, i)
  }

  /** The descriptor trimmed and split on every `,`. */
  function DescriptorParts(argumentSchemes: string): (parts: seq<string>)
    ensures |parts| >= 1
  {
    Split(Trim(argumentSchemes), ',')
  }

  /** What `GetArgumentSchemes` computes. */
  function CompileDescriptor(argumentSchemes: string): (r: Result<seq<Scheme>>)
    ensures r.Success? ==> |r.value| == |DescriptorParts(argumentSchemes)|
  {
    var parts := DescriptorParts(argumentSchemes);
    CompileFromMeaning(PartSchemes(parts), parts, 0);
    CompileParts(parts, 0)
  }

  /** In a compiled descriptor only the first scheme is the command, and a
      scheme is optional exactly when its part is wrapped in parentheses. */
  lemma CompiledFlags(argumentSchemes: string)
    ensures var parts, r := DescriptorParts(argumentSchemes), CompileDescriptor(argumentSchemes);
      r.Success? ==> forall k :: 0 <= k < |r.value| ==> HasFlags(r.value[k], k, parts[k])
  {
    var parts, r := DescriptorParts(argumentSchemes), CompileDescriptor(argumentSchemes);
    PartSchemeFlags(parts);
    if r.Success? {
      FlagsFrom(PartSchemes(parts), parts, r.value);
    }
  }

  /** Whether the scheme at position `k` of the part `part` has the flags
      `GetArgument` gives it. */
  predicate HasFlags(s: Scheme, k: nat, part: string) {
    (s.isCmd <==> k == 0) && (s.isOptional <==> CheckFirstAndLastCharOfString('(', ')', part))
  }

  lemma FlagsFrom(schemes: seq<Option<Scheme>>, parts: seq<string>, r: seq<Scheme>)
    requires |schemes| == |parts| && CompileFrom(schemes, parts, 0) == Success(r)
    requires forall k :: 0 <= k < |parts| && schemes[k].Some? ==> HasFlags(schemes[k].value, k, parts[k])
    ensures |r| == |parts| && forall k :: 0 <= k < |r| ==> HasFlags(r[k], k, parts[k])
  {
    CompileFromMeaning(schemes, parts, 0);
    assert forall k :: 0 <= k < |r| ==> schemes[k] == Some(r[k]);
  }

  lemma PartSchemeFlags(parts: seq<string>)
    ensures forall k :: 0 <= k < |parts| && PartSchemes(parts)[k].Some? ==>
      HasFlags(PartSchemes(parts)[k].value, k, parts[k])
  {
    forall k | 0 <= k < |parts| && PartSchemes(parts)[k].Some?
      ensures HasFlags(PartSchemes(parts)[k].value, k, parts[k])
    {
      PartSchemesAt(parts, k);
    }
  }

  /** One step of `CompileParts`: the part at `i`, then the rest. */
  lemma CompileStep(parts: seq<string>, i: nat)
    requires i < |parts|
    ensures CompileParts(parts, i) ==
      match GetArgumentScheme(parts[i], i == 0)
      case Failure(e) => Failure(e)
      case Success(s) => Prepend([s], CompileParts(parts, i + 1))
  {
    PartSchemesAt(parts, i);
  }

  lemma PrependTwice(list: seq<Scheme>, s: Scheme, r: Result<seq<Scheme>>)
    ensures Prepend(list, Prepend([s], r)) == Prepend(list + [s], r)
  {
    if r.Success? {
      assert list + ([s] + r.value) == (list + [s]) + r.value;
    }
  }

  lemma CompileEnd(parts: seq<string>)
    ensures CompileParts(parts, |parts|) == Success([])
  {
  }

  /** The loop of `GetArgumentSchemes` after `i` parts: the part at `i` either
      ends the compilation with its error or joins the list. */
  lemma Advance(parts: seq<string>, i: nat, list: seq<Scheme>)
    requires i < |parts| && CompileParts(parts, 0) == Prepend(list, CompileParts(parts, i))
    ensures var next := GetArgumentScheme(parts[i], i == 0);
      && (next.Failure? ==> CompileParts(parts, 0) == Failure(next.error))
      && (next.Success? ==> CompileParts(parts, 0) == Prepend(list + [next.value], CompileParts(parts, i + 1)))
  {
    CompileStep(parts, i);
    var next := GetArgumentScheme(parts[i], i == 0);
    if next.Success? {
      PrependTwice(list, next.value, CompileParts(parts, i + 1));
    }
  }

  /** `GetArgumentSchemes`: the first part compiled as the command, then every
      other part in order; the first part that does not compile is the error. */
  method GetArgumentSchemes(argumentSchemes: string) returns (r: Result<seq<Scheme>>)
    ensures r == CompileDescriptor(argumentSchemes)
  {
    var trimmed := Trim(argumentSchemes);
    var parts := Split(trimmed, ',');
    assert CompileDescriptor(argumentSchemes) == CompileParts(parts, 0);
    r := CompileCommand(parts);
  }

  /** The first part compiled as the command, then the others. */
  method CompileCommand(parts: seq<string>) returns (r: Result<seq<Scheme>>)
    requires |parts| >= 1
    ensures r == CompileParts(parts, 0)
  {
    CompileStep(parts, 0);
    var first := GetArgumentScheme(parts[0], true);
    if first.Failure? {
      return Failure(first.error);
    }
    r := CompileRest(parts, [first.value]);
  }

  /** The loop of `GetArgumentSchemes`: every part after the command, in
      order, behind the schemes `list` already compiled. */
  method CompileRest(parts: seq<string>, list: seq<Scheme>) returns (r: Result<seq<Scheme>>)
    requires 1 <= |list| <= |parts|
    requires CompileParts(parts, 0) == Prepend(list, CompileParts(parts, |list|))
    ensures r == CompileParts(parts, 0)
  {
    var i := |list|;
    var done := list;
    while i < |parts|
      invariant 1 <= i <= |parts| && |done| == i
      invariant CompileParts(parts, 0) == Prepend(done, CompileParts(parts, i))
      decreases |parts| - i
    {
      var next := CompileNext(parts, i, done);
      if next.Failure? {
        return Failure(next.error);
      }
      done := done + [next.value];
      i := i + 1;
    }
    CompileDone(parts, done);
    return Success(done);
  }

  /** Once every part is compiled, the schemes collected are the result. */
  lemma CompileDone(parts: seq<string>, done: seq<Scheme>)
    requires CompileParts(parts, 0) == Prepend(done, CompileParts(parts, |parts|))
    ensures CompileParts(parts, 0) == Success(done)
  {
    CompileEnd(parts);
    assert done + [] == done;
  }

  /** The part at `i`, compiled as an argument that is not the command. */
  method CompileNext(parts: seq<string>, i: nat, done: seq<Scheme>) returns (next: Result<Scheme>)
    requires 1 <= i < |parts| && CompileParts(parts, 0) == Prepend(done, CompileParts(parts, i))
    ensures next.Failure? ==> CompileParts(parts, 0) == Failure(next.error)
    ensures next.Success? ==> CompileParts(parts, 0) == Prepend(done + [next.value], CompileParts(parts, i + 1))
  {
    Advance(parts, i, done);
    next := GetArgumentScheme(parts[i], false);
  }

  // ---------------------------------------------------------------------------
  // Whole descriptors

  function PrintParts(ps: seq<PartSyntax>): (r: seq<string>)
    ensures |r| == |ps| && forall k :: 0 <= k < |ps| ==> r[k] == PrintPart(ps[k])
  {
    seq(|ps|, k requires 0 <= k < |ps| => PrintPart(ps[k]))
  }

  /** A descriptor: its parts printed and joined with `,`. */
  function PrintDescriptor(ps: seq<PartSyntax>): string
    requires |ps| >= 1
  {
    Join(PrintParts(ps), ',')
  }

  function ExpectedSchemes(ps: seq<PartSyntax>): (r: seq<Scheme>)
    ensures |r| == |ps| && forall k :: 0 <= k < |ps| ==> r[k] == ExpectedScheme(ps[k], k == 0)
  {
    seq(|ps|, k requires 0 <= k < |ps| => ExpectedScheme(ps[k], k == 0))
  }

  lemma PrintedPartChars(p: PartSyntax)
    requires WellFormedPart(p)
    ensures var s := PrintPart(p);
      s != [] && AllChars(s, IsGrammarChar) && IsGrammarChar(s[0]) && s[0] != ' '
  {
    var b := PrintBody(p);
    PrintedBodyMatches(p);
    MatchesWholeChars(b);
    BodyStart(p);
    if p.optional {
      AllCharsAppend(['('] + b, [')'], IsGrammarChar);
      AllCharsAppend(['('], b, IsGrammarChar);
    }
  }

  predicate EndsWithSpace(s: string) {
    s != [] && s[|s| - 1] == ' '
  }

  /** Every descriptor made of well-formed parts compiles to what its parts
      stand for, the first part being the command, unless its last character
      is a space (which the trimming would remove). */
  lemma CompileOfPrinted(ps: seq<PartSyntax>)
    requires |ps| >= 1 && forall k :: 0 <= k < |ps| ==> WellFormedPart(ps[k])
    requires !EndsWithSpace(PrintDescriptor(ps))
    ensures CompileDescriptor(PrintDescriptor(ps)) == Success(ExpectedSchemes(ps))
  {
    var prints := PrintParts(ps);
    DescriptorPartsOfPrinted(ps);
    PartSchemesOfPrinted(ps);
    CompileAllSome(PartSchemes(prints), prints, 0, ExpectedSchemes(ps));
  }

  /** Trimming and splitting a printed descriptor gives its parts back. */
  lemma DescriptorPartsOfPrinted(ps: seq<PartSyntax>)
    requires |ps| >= 1 && forall k :: 0 <= k < |ps| ==> WellFormedPart(ps[k])
    requires !EndsWithSpace(PrintDescriptor(ps))
    ensures DescriptorParts(PrintDescriptor(ps)) == PrintParts(ps)
  {
    var prints := PrintParts(ps);
    PrintedPartsChars(ps);
    var first, last := prints[0], prints[|ps| - 1];
    assert AllChars(first, IsGrammarChar) && AllChars(last, IsGrammarChar);
    SplitTrimmedJoin(prints);
  }

  /** Every printed part is a non-empty run of grammar characters without
      `,`, and the first does not start with a space. */
  lemma PrintedPartsChars(ps: seq<PartSyntax>)
    requires |ps| >= 1 && forall k :: 0 <= k < |ps| ==> WellFormedPart(ps[k])
    ensures var prints := PrintParts(ps);
      && (forall k :: 0 <= k < |ps| ==>
            ',' !in prints[k] && prints[k] != [] && AllChars(prints[k], IsGrammarChar))
      && prints[0][0] != ' '
  {
    var prints := PrintParts(ps);
    forall k | 0 <= k < |ps|
      ensures ',' !in prints[k] && prints[k] != [] && AllChars(prints[k], IsGrammarChar)
    {
      PrintedPartChars(ps[k]);
      NotInAllChars(prints[k], IsGrammarChar, ',');
    }
    PrintedPartChars(ps[0]);
  }

  lemma GrammarCharNotWhite(c: char)
    requires IsGrammarChar(c) && c != ' '
    ensures !IsWhiteSpace(c)
  {
  }

  /** Non-empty parts without `,` joined with `,`, the first and the last
      made of grammar characters: when the result neither starts nor ends
      with a space, trimming leaves it alone and splitting it gives the
      parts back. */
  lemma SplitTrimmedJoin(prints: seq<string>)
    requires |prints| >= 1
    requires forall k :: 0 <= k < |prints| ==> prints[k] != [] && ',' !in prints[k]
    requires var first, last := prints[0], prints[|prints| - 1];
      AllChars(first, IsGrammarChar) && AllChars(last, IsGrammarChar) && first[0] != ' '
    requires !EndsWithSpace(Join(prints, ','))
    ensures Split(Trim(Join(prints, ',')), ',') == prints
  {
    var d := Join(prints, ',');
    var first, last := prints[0], prints[|prints| - 1];
    JoinFirst(prints, ',');
    JoinLast(prints, ',');
    assert IsGrammarChar(first[0]) && IsGrammarChar(last[|last| - 1]);
    GrammarCharNotWhite(d[0]);
    GrammarCharNotWhite(d[|d| - 1]);
    TrimNoEdges(d);
    SplitJoin(prints, ',');
  }



  /** The schemes of printed parts are what the parts stand for. */
  lemma PartSchemesOfPrinted(ps: seq<PartSyntax>)
    requires forall k :: 0 <= k < |ps| ==> WellFormedPart(ps[k])
    ensures forall k :: 0 <= k < |ps| ==> PartSchemes(PrintParts(ps))[k] == Some(ExpectedSchemes(ps)[k])
  {
    forall k | 0 <= k < |ps|
      ensures PartSchemes(PrintParts(ps))[k] == Some(ExpectedSchemes(ps)[k])
    {
      PartSchemesAt(PrintParts(ps), k);
      GetArgumentOfPrinted(ps[k], k == 0);
    }
  }

  /** When every part from `i` on has a scheme, those schemes are the result. */
  lemma CompileAllSome(schemes: seq<Option<Scheme>>, parts: seq<string>, i: nat, expected: seq<Scheme>)
    requires |schemes| == |parts| == |expected| && i <= |parts|
    requires forall k :: i <= k < |parts| ==> schemes[k] == Some(expected[k])
    ensures CompileFrom(schemes, parts, i) == Success(expected[i..])
  {
    CompileFromMeaning(schemes, parts, i);
    var r := CompileFrom(schemes, parts, i);
    assert r.value == expected[i..] by {
      forall k | 0 <= k < |parts| - i
        ensures r.value[k] == expected[i..][k]
      {
        assert schemes[k + i] == Some(r.value[k]);
      }
    }
  }

  /** The command `v[erbose]`: no value. */
  function VerboseCmd(): PartSyntax {
    PartSyntax([AliasPart("v", "erbose", "")], Option.None, false)
  }

  /** The optional argument `(o[ut]:"l)`: a list value. */
  function OutList(): PartSyntax {
    PartSyntax([AliasPart("o", "ut", "")], Some(ValueSpec(Keyword("\"l"), false)), true)
  }

  lemma VerboseCmdPrinted()
    ensures WellFormedPart(VerboseCmd()) && PrintPart(VerboseCmd()) == "v[erbose]"
  {
    assert Print(AliasPart("v", "erbose", "")) == "v[erbose]";
    assert PrintAll([AliasPart("v", "erbose", "")]) == ["v[erbose]"];
  }

  lemma OutListPrinted()
    ensures WellFormedPart(OutList()) && PrintPart(OutList()) == "(o[ut]:\"l)"
  {
    assert ToLower("\"l") == "\"l";
    assert Print(AliasPart("o", "ut", "")) == "o[ut]";
    assert PrintAll([AliasPart("o", "ut", "")]) == ["o[ut]"];
  }

  lemma ExampleSchemes()
    ensures ExpectedSchemes([VerboseCmd(), OutList()])
      == [Scheme(["v", "verbose"], [], ValueType.None, false, false, true),
          Scheme(["o", "out"], [], List, false, true, false)]
  {
    assert ToLower("\"l") == "\"l";
    var v, o := AliasPart("v", "erbose", ""), AliasPart("o", "ut", "");
    assert "v" + "" == "v" && "v" + "erbose" + "" == "verbose";
    assert Spellings(v) == ["v", "verbose"];
    assert [v][1..] == [];
    assert SpellingsAll([v]) == ["v", "verbose"];
    assert "o" + "" == "o" && "o" + "ut" + "" == "out";
    assert Spellings(o) == ["o", "out"];
    assert [o][1..] == [];
    assert SpellingsAll([o]) == ["o", "out"];
  }

  /** A descriptor whose first part is the command `v[erbose]` with an
      optional list argument `(o[ut]:"l)`. */
  lemma DescriptorExample()
    ensures CompileDescriptor("v[erbose],(o[ut]:\"l)")
      == Success([Scheme(["v", "verbose"], [], ValueType.None, false, false, true),
                  Scheme(["o", "out"], [], List, false, true, false)])
  {
    var ps := [VerboseCmd(), OutList()];
    VerboseCmdPrinted();
    OutListPrinted();
    ExampleSchemes();
    assert PrintParts(ps) == ["v[erbose]", "(o[ut]:\"l)"];
    assert PrintDescriptor(ps) == "v[erbose],(o[ut]:\"l)";
    CompileOfPrinted(ps);
  }
}
