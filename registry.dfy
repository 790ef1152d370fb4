/** The validator itself: the argument schemes and sets as objects whose
    parsed values are updated in place, and the methods of `Validator`,
    each proved against the functions of `Prefixes`, `Compiler`,
    `Registration` and `Matcher`. */
module Registry {
  import opened Text
  import opened Compiler
  import opened Prefixes
  import opened Registration
  import opened Matcher
  import Tokenizer

  /** One argument scheme: what its part of the descriptor compiled to, and
      the values parsed for it, which matching replaces or extends. */
  class ArgumentScheme {
    const identifiers: seq<string>
    const allowedValues: seq<string>
    const valueType: ValueType
    const optionalValues: bool
    const isOptional: bool
    const isCmd: bool
    var parsedValues: seq<string>

    constructor (s: Scheme)
      ensures Def() == s && parsedValues == []
    {
      identifiers := s.identifiers;
      allowedValues := s.allowedValues;
      valueType := s.valueType;
      optionalValues := s.optionalValues;
      isOptional := s.isOptional;
      isCmd := s.isCmd;
      parsedValues := [];
    }

    /** The unchanging part of the scheme. */
    function Def(): Scheme {
      Scheme(identifiers, allowedValues, valueType, optionalValues, isOptional, isCmd)
    }
  }

  function DefsOf(schemes: seq<ArgumentScheme>): (r: seq<Scheme>)
    ensures |r| == |schemes| && forall k :: 0 <= k < |schemes| ==> r[k] == schemes[k].Def()
  {
    seq(|schemes|, k requires 0 <= k < |schemes| => schemes[k].Def())
  }

  function ParsedOf(schemes: seq<ArgumentScheme>): (r: seq<seq<string>>)
    reads schemes
    ensures |r| == |schemes| && forall k :: 0 <= k < |schemes| ==> r[k] == schemes[k].parsedValues
  {
    seq(|schemes|, k requires 0 <= k < |schemes| reads schemes => schemes[k].parsedValues)
  }

  lemma ParsedOfIs(schemes: seq<ArgumentScheme>, cur: seq<seq<string>>)
    requires |cur| == |schemes| && forall k :: 0 <= k < |schemes| ==> schemes[k].parsedValues == cur[k]
    ensures ParsedOf(schemes) == cur
  {
  }

  /** One more element of `s` taken onto its prefix. */
  lemma PrefixGrows<T>(s: seq<T>, i: nat)
    requires i < |s|
    ensures s[..i + 1] == s[..i] + [s[i]]
  {
  }

  /** No object occurs twice: each is missing from the objects before it. */
  predicate Distinct(s: seq<object>) {
    s == [] || (s[|s| - 1] !in s[..|s| - 1] && Distinct(s[..|s| - 1]))
  }

  /** Two positions of a distinct sequence hold two different objects. */
  lemma {:induction false} DistinctApart(s: seq<object>, a: nat, b: nat)
    requires Distinct(s) && a < b < |s|
    ensures s[a] != s[b]
    decreases |s|
  {
    var n := |s| - 1;
    assert s[..n][a] == s[a];
    if b < n {
      DistinctApart(s[..n], a, b);
      assert s[..n][b] == s[b];
    }
  }

  /** The object at `i` of a distinct sequence is at no other position. */
  lemma DistinctOthers(s: seq<object>, i: nat)
    requires Distinct(s) && i < |s|
    ensures forall k :: 0 <= k < |s| && k != i ==> s[k] != s[i]
  {
    forall k | 0 <= k < |s| && k != i
      ensures s[k] != s[i]
    {
      if k < i {
        DistinctApart(s, k, i);
      } else {
        DistinctApart(s, i, k);
      }
    }
  }

  /** How the registered sets and their schemes lie in `repr`: each set has
      at least one scheme and no scheme twice, no set is registered twice,
      no scheme belongs to two sets, and every scheme is in `repr`. */
  ghost predicate Layout(sets: seq<ArgumentSet>, shape: seq<seq<ArgumentScheme>>, repr: set<object>) {
    && |shape| == |sets|
    && (forall i :: 0 <= i < |shape| ==> |shape[i]| >= 1 && Distinct(shape[i]))
    && (forall i, a :: 0 <= i < |shape| && 0 <= a < |shape[i]| ==> shape[i][a] in repr)
    && (forall i, j :: 0 <= i < j < |sets| ==> sets[i] != sets[j])
    && (forall i, a, j, b :: 0 <= i < j < |shape| && 0 <= a < |shape[i]| && 0 <= b < |shape[j]| ==> shape[i][a] != shape[j][b])
  }

  /** Under a layout, no scheme of set `j` belongs to another set `i`. */
  lemma LayoutApart(sets: seq<ArgumentSet>, shape: seq<seq<ArgumentScheme>>, repr: set<object>, i: nat, j: nat)
    requires Layout(sets, shape, repr) && i < |shape| && j < |shape| && i != j
    ensures forall b :: 0 <= b < |shape[j]| ==> shape[j][b] !in shape[i]
  {
  }

  /** A new set with new schemes, none of them in `repr`, keeps the layout. */
  lemma LayoutAppend(sets: seq<ArgumentSet>, shape: seq<seq<ArgumentScheme>>, repr: set<object>,
                     s: ArgumentSet, schemes: seq<ArgumentScheme>, added: set<object>)
    requires Layout(sets, shape, repr) && (forall i :: 0 <= i < |sets| ==> sets[i] in repr)
    requires s !in repr && |schemes| >= 1 && Distinct(schemes)
    requires forall k :: 0 <= k < |schemes| ==> schemes[k] !in repr && schemes[k] in added
    ensures Layout(sets + [s], shape + [schemes], repr + {s} + added)
  {
    var sets', shape', repr' := sets + [s], shape + [schemes], repr + {s} + added;
    forall i | 0 <= i < |shape'|
      ensures |shape'[i]| >= 1 && Distinct(shape'[i])
    {
      if i < |shape| {
        assert shape'[i] == shape[i];
      }
    }
    forall i, a | 0 <= i < |shape'| && 0 <= a < |shape'[i]|
      ensures shape'[i][a] in repr'
    {
      if i < |shape| {
        assert shape'[i] == shape[i];
      }
    }
    forall i, j | 0 <= i < j < |sets'|
      ensures sets'[i] != sets'[j]
    {
      if j == |sets| {
        assert sets'[i] == sets[i] && sets[i] in repr;
      }
    }
    forall i, a, j, b | 0 <= i < j < |shape'| && 0 <= a < |shape'[i]| && 0 <= b < |shape'[j]|
      ensures shape'[i][a] != shape'[j][b]
    {
      assert shape'[i] == shape[i] && shape[i][a] in repr;
      if j < |shape| {
        assert shape'[j] == shape[j];
      }
    }
  }

  /** A registered argument set: its schemes, the command first, and the
      callback it triggers. */
  class ArgumentSet {
    var argSchemes: seq<ArgumentScheme>
    const getArgs: Callback

    constructor (argSchemes: seq<ArgumentScheme>, getArgs: Callback)
      ensures this.argSchemes == argSchemes && this.getArgs == getArgs
    {
      this.argSchemes := argSchemes;
      this.getArgs := getArgs;
    }

    /** At least one scheme, and no scheme object twice. */
    ghost predicate Valid()
      reads this
    {
      |argSchemes| >= 1 && Distinct(argSchemes)
    }

    /** The command of the set: its first scheme. */
    function GetCmd(): ArgumentScheme
      requires |argSchemes| >= 1
      reads this
    {
      argSchemes[0]
    }

    /** The set as a value. */
    function State(): (s: SetState)
      reads this, argSchemes
      ensures s.defs == DefsOf(argSchemes) && s.parsed == ParsedOf(argSchemes) && s.callback == getArgs
    {
      SetState(DefsOf(argSchemes), ParsedOf(argSchemes), getArgs)
    }
  }

  /** The schemes of each set. */
  ghost function SchemesOf(sets: seq<ArgumentSet>): (s: seq<seq<ArgumentScheme>>)
    reads sets
    ensures |s| == |sets| && forall i :: 0 <= i < |sets| ==> s[i] == sets[i].argSchemes
  {
    seq(|sets|, i requires 0 <= i < |sets| reads sets => sets[i].argSchemes)
  }

  /** Each set as a value. */
  ghost function StatesOf(sets: seq<ArgumentSet>, repr: set<object>): (m: seq<SetState>)
    requires forall i :: 0 <= i < |sets| ==> sets[i] in repr
    requires forall i, a :: 0 <= i < |sets| && 0 <= a < |sets[i].argSchemes| ==> sets[i].argSchemes[a] in repr
    requires forall i :: 0 <= i < |sets| ==> |sets[i].argSchemes| >= 1
    reads repr
    ensures |m| == |sets| && forall i :: 0 <= i < |sets| ==> m[i] == sets[i].State()
    ensures WellFormedSets(m)
  {
    seq(|sets|, i requires 0 <= i < |sets| && sets[i] in repr && (forall a :: 0 <= a < |sets[i].argSchemes| ==> sets[i].argSchemes[a] in repr) reads repr => sets[i].State())
  }

  lemma EventsAssociate(a: seq<Event>, b: seq<Event>, c: seq<Event>)
    ensures a + (b + c) == (a + b) + c
  {
  }

  /** The log of callbacks is outside what `Valid` and `Model` read. */
  twostate lemma LogIsFramed(v: Validator)
    requires old(v.Valid()) && unchanged(v`argumentSets, v`Repr) && unchanged(old(v.Repr))
    ensures v.Valid() && v.Model() == old(v.Model())
  {
  }

  /** The objects parsing a set may change: the set and its schemes. */
  ghost function SetFrame(s: ArgumentSet): set<object>
    reads s
  {
    {s as object} + set k | 0 <= k < |s.argSchemes| :: s.argSchemes[k] as object
  }

  /** Appending a set with new objects leaves the registered sets as they
      were. */
  twostate lemma ModelAppended(v: Validator, new s: ArgumentSet)
    requires old(v.Valid()) && v.Valid()
    requires v.argumentSets == old(v.argumentSets) + [s]
    requires unchanged(old(v.Repr))
    ensures v.Model() == old(v.Model()) + [s.State()]
  {
    assert forall j :: 0 <= j < |old(v.argumentSets)| ==> v.argumentSets[j] == old(v.argumentSets[j]);
    assert forall j :: 0 <= j < |old(v.argumentSets)| ==> v.Model()[j] == old(v.Model()[j]);
  }

  class Validator {
    const optionPrefixes: seq<string>
    var ignoreUnknownParameters: bool
    var argumentSets: seq<ArgumentSet>
    /** The callbacks triggered so far, in order. */
    ghost var events: seq<Event>
    ghost var Repr: set<object>

    /** The schemes of each registered set. */
    ghost function Shape(): (s: seq<seq<ArgumentScheme>>)
      reads this`argumentSets, argumentSets
      ensures |s| == |argumentSets| && forall i :: 0 <= i < |argumentSets| ==> s[i] == argumentSets[i].argSchemes
    {
      SchemesOf(argumentSets)
    }

    /** The validator is not in `Repr`, every set and every scheme is;
        every set is valid; no set
        object is registered twice and no scheme object belongs to two
        places. */
    ghost predicate Valid()
      reads this`argumentSets, this`Repr, Repr
    {
      && this !in Repr
      && (forall i :: 0 <= i < |argumentSets| ==> argumentSets[i] in Repr)
      && Layout(argumentSets, Shape(), Repr)
    }

    /** The registered sets as values. */
    ghost function Model(): (m: seq<SetState>)
      requires Valid()
      reads this`argumentSets, this`Repr, Repr
      ensures |m| == |argumentSets| && forall i :: 0 <= i < |argumentSets| ==> m[i] == argumentSets[i].State()
      ensures WellFormedSets(m)
    {
      StatesOf(argumentSets, Repr)
    }

    /** `Validator(ignoreUnknownParameters)`: the default prefixes, longest
        first (`--`, `-`, `/` by `DefaultPrefixOrder`), and no set
        registered. */
    constructor (ignoreUnknownParameters: bool)
      ensures optionPrefixes == SortByLengthDescending(DefaultPrefixes)
      ensures this.ignoreUnknownParameters == ignoreUnknownParameters
      ensures argumentSets == [] && events == [] && Valid()
    {
      var prefixes := SortedPrefixes(Option.None);
      optionPrefixes := prefixes;
      this.ignoreUnknownParameters := ignoreUnknownParameters;
      argumentSets := [];
      events := [];
      Repr := {};
    }

    /** The private constructor: the given prefixes, or the default ones
        when none are given, sorted longest first. */
    constructor WithSeparators(ignoreUnknownParameters: bool, separators: Option<seq<string>>)
      ensures optionPrefixes == SortByLengthDescending(if separators.None? then DefaultPrefixes else separators.value)
      ensures this.ignoreUnknownParameters == ignoreUnknownParameters
      ensures argumentSets == [] && events == [] && Valid()
    {
      var prefixes := SortedPrefixes(separators);
      optionPrefixes := prefixes;
      this.ignoreUnknownParameters := ignoreUnknownParameters;
      argumentSets := [];
      events := [];
      Repr := {};
    }

    /** The `IgnoreUnknownParameters` setter. */
    method SetIgnoreUnknownParameters(value: bool)
      modifies this
      ensures ignoreUnknownParameters == value
      ensures argumentSets == old(argumentSets) && events == old(events) && Repr == old(Repr)
    {
      ignoreUnknownParameters := value;
    }

    /** `IsOption`: the index of the first prefix the argument starts with,
        or -1. */
    method IsOption(argument: string) returns (result: int)
      ensures result == OptionIndex(optionPrefixes, argument)
    {
      var i := 0;
      while i < |optionPrefixes|
        invariant 0 <= i <= |optionPrefixes|
        invariant OptionFrom(optionPrefixes, argument, i) == OptionIndex(optionPrefixes, argument)
        decreases |optionPrefixes| - i
      {
        if StartsWith(argument, optionPrefixes[i]) {
          return i;
        }
        i := i + 1;
      }
      return -1;
    }

    /** `GetIdentifier`: the first token that names one of the identifiers,
        with its prefix cut off, and where it is reported. */
    method GetIdentifier(identifiers: seq<string>, args: seq<string>) returns (identifier: string, indexIdentifier: int)
      ensures Found(identifier, indexIdentifier) == FindIdentifier(optionPrefixes, identifiers, args)
    {
      var i := 0;
      while i < |args|
        invariant 0 <= i <= |args|
        invariant FindFrom(optionPrefixes, identifiers, args, i) == FindIdentifier(optionPrefixes, identifiers, args)
        decreases |args| - i
      {
        var num := IsOption(args[i]);
        if num > -1 {
          var text := args[i][|optionPrefixes[num]|..];
          if text in identifiers {
            return text, i;
          }
        } else {
          if args[i] in identifiers {
            return args[i], 0;
          }
        }
        i := i + 1;
      }
      return "", -1;
    }

    /** `GetParsedArgumentScheme`: the scheme when the arguments satisfy it,
        `null` otherwise; its parsed values and the working list are updated
        as `MatchScheme` says, in place. */
    method GetParsedArgumentScheme(argScheme: ArgumentScheme, args: seq<string>) returns (r: ArgumentScheme?, argsOut: seq<string>)
      modifies argScheme
      ensures var o := MatchScheme(optionPrefixes, argScheme.Def(), old(argScheme.parsedValues), args);
        && (r != null <==> o.matched)
        && (r != null ==> r == argScheme)
        && argScheme.parsedValues == o.parsed
        && argsOut == o.args
    {
      argsOut := args;
      var i := 0;
      while i < |argsOut|
        invariant argsOut == args && argScheme.parsedValues == old(argScheme.parsedValues)
        invariant i > 0 ==> FindIdentifier(optionPrefixes, argScheme.identifiers, args).identifier == "" && !argScheme.isOptional
        decreases |argsOut| - i
      {
        var identifier, num := GetIdentifier(argScheme.identifiers, argsOut);
        if identifier != "" {
          LookupIsLocated(optionPrefixes, argScheme.Def(), args);
          r, argsOut := ParseValues(argScheme, argsOut, identifier, num);
          return;
        } else {
          if argScheme.isOptional {
            return argScheme, argsOut;
          }
        }
        i := i + 1;
      }
      return null, argsOut;
    }

    /** The inner loop of the list case: the tokens from `from` on, up to
        the first one that is an option. */
    method GetValuesAfter(args: seq<string>, from: nat) returns (list: seq<string>)
      requires from <= |args|
      ensures list == TakeValues(optionPrefixes, args[from..])
    {
      list := [];
      var j := from;
      while j < |args|
        invariant from <= j <= |args|
        invariant list == args[from..j]
        invariant forall k :: 0 <= k < |list| ==> OptionIndex(optionPrefixes, list[k]) == -1
        decreases |args| - j
      {
        var n := IsOption(args[j]);
        if n != -1 {
          break;
        }
        assert args[from..j + 1] == list + [args[j]];
        list := list + [args[j]];
        j := j + 1;
      }
      TakeValuesIs(optionPrefixes, args[from..], |list|);
    }

    /** The switch of `GetParsedArgumentScheme` on the value type, once the
        lookup has found `identifier` reported at `num`. */
    method ParseValues(argScheme: ArgumentScheme, args: seq<string>, identifier: string, num: int) returns (r: ArgumentScheme?, argsOut: seq<string>)
      requires identifier != "" && 0 <= num < |args|
      modifies argScheme
      ensures var o := MatchFound(optionPrefixes, argScheme.Def(), old(argScheme.parsedValues), args, Found(identifier, num));
        && (r != null <==> o.matched)
        && (r != null ==> r == argScheme)
        && argScheme.parsedValues == o.parsed
        && argsOut == o.args
    {
      argsOut := args;
      var i := num + 1;
      match argScheme.valueType
      case None =>
        argsOut := RemoveFirst(argsOut, identifier);
        return argScheme, argsOut;
      case Single =>
        if i < |argsOut| {
          var n := IsOption(argsOut[i]);
          if n == -1 {
            if (|argScheme.allowedValues| > 0 && argsOut[i] in argScheme.allowedValues) || |argScheme.allowedValues| == 0 {
              argScheme.parsedValues := argScheme.parsedValues + [argsOut[i]];
              argsOut := RemoveFirst(argsOut, identifier);
              return argScheme, argsOut;
            }
            if argScheme.optionalValues {
              return argScheme, argsOut;
            }
            return null, argsOut;
          }
        } else {
          if argScheme.optionalValues {
            argsOut := RemoveFirst(argsOut, identifier);
            return argScheme, argsOut;
          }
        }
        return null, argsOut;
      case List =>
        var list := GetValuesAfter(argsOut, num + 1);
        argsOut := RemoveFirst(argsOut, identifier);
        if |list| > 0 {
          argScheme.parsedValues := list;
          return argScheme, argsOut;
        }
        if argScheme.optionalValues {
          return argScheme, argsOut;
        }
        return null, argsOut;
    }

    /** `GetParsedArgumentSet`: the set when the arguments satisfy every one
        of its schemes in turn, `null` as soon as one is not satisfied.  The
        schemes tried are updated in place whatever the outcome, and the
        working list loses what each of them consumed; the tokens left over
        are reported only on success. */
    method GetParsedArgumentSet(argSet: ArgumentSet, args: seq<string>) returns (r: ArgumentSet?, unknownOptions: seq<string>, argsOut: seq<string>)
      requires argSet.Valid()
      modifies argSet, argSet.argSchemes
      ensures argSet.argSchemes == old(argSet.argSchemes) && argSet.Valid()
      ensures var o := MatchSchemes(optionPrefixes, DefsOf(argSet.argSchemes), old(ParsedOf(argSet.argSchemes)), args);
        && (r != null <==> o.matched)
        && (r != null ==> r == argSet)
        && ParsedOf(argSet.argSchemes) == o.parsed
        && argsOut == o.args
        && unknownOptions == (if o.matched then o.args else [])
    {
      unknownOptions := [];
      var schemes := argSet.argSchemes;
      ghost var defs := DefsOf(schemes);
      ghost var parsed0 := ParsedOf(schemes);
      ghost var whole := MatchFrom(optionPrefixes, defs, parsed0, args, 0);
      var ok, list;
      ghost var cur;
      ok, list, argsOut, cur := ParseSchemes(schemes, args, defs, parsed0, whole);
      ParsedOfIs(schemes, cur);
      if !ok {
        return null, unknownOptions, argsOut;
      }
      unknownOptions := argsOut;
      argSet.argSchemes := list;
      return argSet, unknownOptions, argsOut;
    }

    /** The loop of `GetParsedArgumentSet`: each scheme in turn is parsed
        from the working list, stopping at the first that is not satisfied;
        `cur` is what the schemes hold afterwards. */
    method ParseSchemes(schemes: seq<ArgumentScheme>, args: seq<string>,
                        ghost defs: seq<Scheme>, ghost parsed0: seq<seq<string>>, ghost whole: SetOutcome)
      returns (ok: bool, list: seq<ArgumentScheme>, argsOut: seq<string>, ghost cur: seq<seq<string>>)
      requires InLoop(schemes, defs, parsed0, parsed0, 0)
      requires whole == MatchFrom(optionPrefixes, defs, parsed0, args, 0)
      modifies schemes
      ensures ParsedOf(schemes) == cur
      ensures whole == SetOutcome(ok, cur, argsOut)
      ensures ok ==> list == schemes
    {
      argsOut := args;
      list := [];
      cur := parsed0;
      assert cur[..0] + whole.parsed == whole.parsed;
      var i := 0;
      while i < |schemes|
        invariant 0 <= i <= |schemes| && list == schemes[..i]
        invariant InLoop(schemes, defs, parsed0, cur, i)
        invariant var rest := MatchFrom(optionPrefixes, defs, parsed0, argsOut, i);
          whole == SetOutcome(rest.matched, cur[..i] + rest.parsed, rest.args)
        decreases |schemes| - i
      {
        var parsed;
        parsed, list, argsOut, cur := ParseSchemeAt(schemes, i, list, argsOut, defs, parsed0, cur, whole);
        if !parsed {
          return false, list, argsOut, cur;
        }
        i := i + 1;
      }
      assert cur[..i] == cur && schemes[..i] == schemes;
      return true, list, argsOut, cur;
    }

    /** `cur` is what the schemes hold now, `parsed0` what those from `i` on
        held before, and `defs` their definitions. */
    ghost predicate InLoop(schemes: seq<ArgumentScheme>, defs: seq<Scheme>, parsed0: seq<seq<string>>, cur: seq<seq<string>>, i: nat)
      reads schemes
    {
      && i <= |schemes| && Distinct(schemes)
      && defs == DefsOf(schemes) && |parsed0| == |schemes| && |cur| == |schemes|
      && ParsedOf(schemes) == cur
      && (forall k :: i <= k < |schemes| ==> cur[k] == parsed0[k])
    }

    /** One pass of `GetParsedArgumentSet`'s loop: the scheme at `i` is
        parsed, and what the whole set matches is carried one step on. */
    method ParseSchemeAt(schemes: seq<ArgumentScheme>, i: nat, list: seq<ArgumentScheme>, args: seq<string>,
                         ghost defs: seq<Scheme>, ghost parsed0: seq<seq<string>>, ghost cur: seq<seq<string>>, ghost whole: SetOutcome)
      returns (parsed: bool, list': seq<ArgumentScheme>, argsOut: seq<string>, ghost cur': seq<seq<string>>)
      requires i < |schemes| && list == schemes[..i] && InLoop(schemes, defs, parsed0, cur, i)
      requires var rest := MatchFrom(optionPrefixes, defs, parsed0, args, i);
        whole == SetOutcome(rest.matched, cur[..i] + rest.parsed, rest.args)
      modifies schemes[i]
      ensures parsed ==> list' == schemes[..i + 1] && InLoop(schemes, defs, parsed0, cur', i + 1)
      ensures parsed ==> var rest := MatchFrom(optionPrefixes, defs, parsed0, argsOut, i + 1);
        whole == SetOutcome(rest.matched, cur'[..i + 1] + rest.parsed, rest.args)
      ensures !parsed ==> list' == list && ParsedOf(schemes) == cur'
      ensures !parsed ==> whole == SetOutcome(false, cur', argsOut)
    {
      assert schemes[i].Def() == defs[i] && schemes[i].parsedValues == parsed0[i];
      DistinctOthers(schemes, i);
      var r;
      r, argsOut := GetParsedArgumentScheme(schemes[i], args);
      ghost var first := MatchScheme(optionPrefixes, defs[i], parsed0[i], args);
      cur' := cur[i := first.parsed];
      MatchLoopStep(optionPrefixes, defs, parsed0, args, i, cur, whole);
      parsed := r != null;
      list' := list;
      if parsed {
        PrefixGrows(schemes, i);
        list' := list + [r];
      }
    }

    /** `CheckArgs`: every registered set in turn is parsed from the
        argument list, each on what the previous ones left of it; the answer
        is whether some set was satisfied, the sets keep what was parsed for
        them, and a satisfied set triggers its callback when unknown tokens
        are ignored or none are left.  The list passed in is updated in
        place, as the caller sees it afterwards. */
    method CheckArgs(args: seq<string>) returns (result: bool, argsOut: seq<string>)
      requires Valid()
      modifies this, Repr
      ensures Valid() && argumentSets == old(argumentSets) && Repr == old(Repr)
      ensures ignoreUnknownParameters == old(ignoreUnknownParameters)
      ensures var r := CheckFrom(optionPrefixes, ignoreUnknownParameters, old(Model()), args, 0);
        && result == r.result
        && argsOut == r.args
        && Model() == r.sets
        && events == old(events) + r.events
    {
      result := false;
      argsOut := args;
      ghost var cur := Model();
      ghost var whole := CheckFrom(optionPrefixes, ignoreUnknownParameters, cur, args, 0);
      ghost var acc: seq<Event> := [];
      assert acc + whole.events == whole.events;
      var i := 0;
      while i < |argumentSets|
        invariant 0 <= i <= |argumentSets| && Valid()
        invariant argumentSets == old(argumentSets) && Repr == old(Repr) && ignoreUnknownParameters == old(ignoreUnknownParameters)
        invariant Model() == cur && |cur| == |argumentSets| && WellFormedSets(cur)
        invariant events == old(events) + acc
        invariant var rest := CheckFrom(optionPrefixes, ignoreUnknownParameters, cur, argsOut, i);
          whole == Run(result || rest.result, rest.sets, rest.args, acc + rest.events)
        decreases |argumentSets| - i
      {
        result, argsOut, cur, acc := CheckStep(i, result, argsOut, cur, acc, whole, old(events));
        i := i + 1;
      }
    }

    /** One pass of `CheckArgs`'s loop: what the whole check does from `i`
        on is what this pass does followed by the check from `i + 1` on. */
    method CheckStep(i: nat, result: bool, args: seq<string>, ghost cur: seq<SetState>,
                     ghost acc: seq<Event>, ghost whole: Run, ghost log0: seq<Event>)
      returns (result': bool, argsOut: seq<string>, ghost cur': seq<SetState>, ghost acc': seq<Event>)
      requires Valid() && i < |argumentSets| && Model() == cur && |cur| == |argumentSets| && WellFormedSets(cur)
      requires events == log0 + acc
      requires var rest := CheckFrom(optionPrefixes, ignoreUnknownParameters, cur, args, i);
        whole == Run(result || rest.result, rest.sets, rest.args, acc + rest.events)
      modifies this, Repr
      ensures Valid() && argumentSets == old(argumentSets) && Repr == old(Repr) && ignoreUnknownParameters == old(ignoreUnknownParameters)
      ensures Model() == cur' && |cur'| == |argumentSets| && WellFormedSets(cur')
      ensures events == log0 + acc'
      ensures var rest := CheckFrom(optionPrefixes, ignoreUnknownParameters, cur', argsOut, i + 1);
        whole == Run(result' || rest.result, rest.sets, rest.args, acc' + rest.events)
    {
      var matched;
      ghost var added;
      matched, argsOut, cur', added := ParseSetAt(i, args, cur);
      CheckFromStep(optionPrefixes, ignoreUnknownParameters, cur, args, i);
      ghost var next := CheckFrom(optionPrefixes, ignoreUnknownParameters, cur', argsOut, i + 1);
      EventsAssociate(acc, added, next.events);
      EventsAssociate(log0, acc, added);
      acc' := acc + added;
      result' := result || matched;
    }

    /** The body of `CheckArgs`'s loop: the set at `i` is parsed and, when
        satisfied, stored back and triggered. */
    method ParseSetAt(i: nat, args: seq<string>, ghost cur: seq<SetState>)
      returns (matched: bool, argsOut: seq<string>, ghost cur': seq<SetState>, ghost added: seq<Event>)
      requires Valid() && i < |argumentSets| && Model() == cur
      modifies this, argumentSets[i], argumentSets[i].argSchemes
      ensures Valid() && argumentSets == old(argumentSets) && Repr == old(Repr) && ignoreUnknownParameters == old(ignoreUnknownParameters)
      ensures Model() == cur' && events == old(events) + added
      ensures var o := MatchSchemes(optionPrefixes, cur[i].defs, cur[i].parsed, args);
        && matched == o.matched && argsOut == o.args
        && cur' == cur[i := SetState(cur[i].defs, o.parsed, cur[i].callback)]
        && added == (if Fires(ignoreUnknownParameters, o) then [Event(cur[i].callback, o.args)] else [])
    {
      matched := false;
      added := [];
      var argSet := argumentSets[i];
      var parsedArgumentSet, unknownParameters;
      parsedArgumentSet, unknownParameters, argsOut, cur' := ParseSetIn(i, args, cur);
      label parsed:
      if parsedArgumentSet != null {
        argumentSets := argumentSets[i := parsedArgumentSet];
        assert argumentSets == old(argumentSets);
        if ignoreUnknownParameters || (!ignoreUnknownParameters && |unknownParameters| == 0) {
          added := [Event(parsedArgumentSet.getArgs, unknownParameters)];
        }
        matched := true;
      }
      // The callback triggered, if any, as one entry of the log.
      events := events + added;
      LogIsFramed@parsed(this);
    }

    /** `GetParsedArgumentSet` on the set at `i`: only that set's schemes
        change, so every other set keeps its state. */
    method ParseSetIn(i: nat, args: seq<string>, ghost cur: seq<SetState>)
      returns (r: ArgumentSet?, unknownOptions: seq<string>, argsOut: seq<string>, ghost cur': seq<SetState>)
      requires Valid() && i < |argumentSets| && Model() == cur
      modifies argumentSets[i], argumentSets[i].argSchemes
      ensures Valid() && Model() == cur'
      ensures var o := MatchSchemes(optionPrefixes, cur[i].defs, cur[i].parsed, args);
        && (r != null <==> o.matched) && (r != null ==> r == argumentSets[i] && r.getArgs == cur[i].callback)
        && argsOut == o.args
        && unknownOptions == (if o.matched then o.args else [])
        && cur' == cur[i := SetState(cur[i].defs, o.parsed, cur[i].callback)]
    {
      var argSet := argumentSets[i];
      assert argSet.State() == cur[i];
      r, unknownOptions, argsOut := GetParsedArgumentSet(argSet, args);
      SetReparsed(i);
      cur' := Model();
    }

    /** `CheckArgs(string)`: the line split into tokens, then checked as a
        list. */
    method CheckArgsLine(args: string) returns (result: bool)
      requires Valid()
      modifies this, Repr
      ensures Valid() && argumentSets == old(argumentSets) && Repr == old(Repr)
      ensures ignoreUnknownParameters == old(ignoreUnknownParameters)
      ensures var r := CheckFrom(optionPrefixes, ignoreUnknownParameters, old(Model()), Tokenizer.SplitArgs(args), 0);
        && result == r.result
        && Model() == r.sets
        && events == old(events) + r.events
    {
      var list := Tokenizer.SplitArgs(args);
      var rest;
      result, rest := CheckArgs(list);
    }

    // -------------------------------------------------------------------------
    // AddArgumentSet

    /** `AddArgumentSet`: the descriptor is compiled, its command is tested
        against the command of every registered set, and a new set holding
        fresh schemes with nothing parsed is appended.  A descriptor that
        does not compile, or a command that clashes, is reported and leaves
        the registry as it was. */
    method AddArgumentSet(argumentSchemesString: string, getArgs: Callback) returns (error: Option<Error>)
      requires Valid()
      modifies this
      ensures Valid() && events == old(events) && ignoreUnknownParameters == old(ignoreUnknownParameters)
      ensures var r := Register(old(Model()), CompileDescriptor(argumentSchemesString), getArgs);
        && (error.None? <==> r.Success?)
        && (r.Success? ==> Model() == r.value)
        && (r.Failure? ==> error == Some(r.error) && argumentSets == old(argumentSets) && Model() == old(Model()))
    {
      ghost var model := Model();
      var compiled := GetArgumentSchemes(argumentSchemesString);
      // Compiling touches no object, so the registered sets are as they were.
      StillValid();
      assert compiled.Success? ==> |compiled.value| >= 1;
      error := AddCompiled(compiled, getArgs, model);
    }

    /** Parsing the set at `i` changes only that set and its schemes, so the
        registry stays valid and only the state of that set changes. */
    twostate lemma SetReparsed(i: nat)
      requires old(Valid()) && i < |old(argumentSets)| && unchanged(this)
      requires argumentSets[i].argSchemes == old(argumentSets[i].argSchemes)
      requires unchanged(old(Repr) - SetFrame(argumentSets[i]))
      ensures Valid() && Model() == old(Model())[i := argumentSets[i].State()]
    {
      ShapeKept(i);
      OthersKept(i);
    }

    /** No set's list of schemes changes, so the layout is kept. */
    twostate lemma ShapeKept(i: nat)
      requires old(Valid()) && i < |old(argumentSets)| && unchanged(this)
      requires argumentSets[i].argSchemes == old(argumentSets[i].argSchemes)
      requires unchanged(old(Repr) - SetFrame(argumentSets[i]))
      ensures Valid() && Shape() == old(Shape())
    {
      var shape := old(Shape());
      forall j | 0 <= j < |shape| && j != i
        ensures argumentSets[j].argSchemes == shape[j]
      {
        assert argumentSets[j] in old(Repr) && argumentSets[j] != argumentSets[i];
      }
      assert Shape() == shape;
    }

    /** The sets other than the one parsed keep their state: their schemes
        are not those of the parsed set. */
    twostate lemma OthersKept(i: nat)
      requires old(Valid()) && i < |old(argumentSets)| && unchanged(this)
      requires argumentSets[i].argSchemes == old(argumentSets[i].argSchemes)
      requires unchanged(old(Repr) - SetFrame(argumentSets[i]))
      ensures forall j :: 0 <= j < |argumentSets| && j != i ==> argumentSets[j].State() == old(argumentSets[j].State())
    {
      var shape := old(Shape());
      forall j | 0 <= j < |argumentSets| && j != i
        ensures argumentSets[j].State() == old(argumentSets[j].State())
      {
        LayoutApart(argumentSets, shape, Repr, i, j);
        assert argumentSets[j] in old(Repr) && argumentSets[j] != argumentSets[i];
        assert argumentSets[j].argSchemes == shape[j];
        forall b | 0 <= b < |shape[j]|
          ensures shape[j][b].parsedValues == old(shape[j][b].parsedValues)
        {
          assert shape[j][b] in old(Repr) && shape[j][b] !in SetFrame(argumentSets[i]);
        }
        assert ParsedOf(shape[j]) == old(ParsedOf(shape[j]));
      }
    }

    /** A valid registry none of whose objects changed is still valid and
        holds the same sets. */
    twostate lemma StillValid()
      requires old(Valid()) && unchanged(this) && unchanged(old(Repr))
      ensures Valid() && Model() == old(Model())
    {
    }

    /** The rest of `AddArgumentSet`, once the descriptor is compiled. */
    method AddCompiled(compiled: Result<seq<Scheme>>, getArgs: Callback, ghost model: seq<SetState>) returns (error: Option<Error>)
      requires Valid() && model == Model() && (compiled.Success? ==> |compiled.value| >= 1)
      modifies this
      ensures Valid() && events == old(events) && ignoreUnknownParameters == old(ignoreUnknownParameters)
      ensures var r := Register(model, compiled, getArgs);
        && (error.None? <==> r.Success?)
        && (r.Success? ==> Model() == r.value)
        && (r.Failure? ==> error == Some(r.error) && argumentSets == old(argumentSets) && Model() == model)
    {
      if compiled.Failure? {
        return Some(compiled.error);
      }
      var argumentSchemes := compiled.value;
      var clash := FindDuplicate(argumentSchemes[0].identifiers, Cmds(model));
      StillValid();
      if clash.Some? {
        return Some(DuplicativeCmd(clash.value));
      }
      AppendSet(argumentSchemes, getArgs, model);
      error := Option.None;
    }

    /** The duplicate test of `AddArgumentSet` over the registered sets in
        order: the first new identifier contained in an identifier of a
        set's command. */
    method FindDuplicate(newIds: seq<string>, ghost cmds: seq<seq<string>>) returns (clash: Option<string>)
      requires Valid() && cmds == Cmds(Model())
      ensures clash == DuplicateFrom(cmds, newIds, 0)
    {
      var j := 0;
      while j < |argumentSets|
        invariant 0 <= j <= |argumentSets| == |cmds|
        invariant DuplicateFrom(cmds, newIds, 0) == DuplicateFrom(cmds, newIds, j)
        decreases |argumentSets| - j
      {
        var existing := argumentSets[j].GetCmd().identifiers;
        assert existing == cmds[j];
        clash := FirstClashOf(existing, newIds);
        if clash.Some? {
          return;
        }
        j := j + 1;
      }
      clash := Option.None;
    }

    /** The two inner loops of the duplicate test, for one existing command. */
    method FirstClashOf(existing: seq<string>, newIds: seq<string>) returns (clash: Option<string>)
      ensures clash == FirstClash(existing, newIds, 0)
    {
      var n := 0;
      while n < |newIds|
        invariant 0 <= n <= |newIds|
        invariant FirstClash(existing, newIds, 0) == FirstClash(existing, newIds, n)
        decreases |newIds| - n
      {
        var found := ClashIn(existing, newIds[n]);
        if found {
          return Some(newIds[n]);
        }
        n := n + 1;
      }
      clash := Option.None;
    }

    /** The inner loop of the duplicate test: whether `id` occurs inside one
        of the existing command's identifiers. */
    method ClashIn(existing: seq<string>, id: string) returns (found: bool)
      ensures found == ClashesWith(existing, id)
    {
      var m := 0;
      while m < |existing|
        invariant 0 <= m <= |existing|
        invariant forall l :: 0 <= l < m ==> !Contains(existing[l], id)
        decreases |existing| - m
      {
        if Contains(existing[m], id) {
          return true;
        }
        m := m + 1;
      }
      return false;
    }

    /** The new set, with a fresh scheme object for each compiled scheme,
        appended to the registry. */
    method AppendSet(argumentSchemes: seq<Scheme>, getArgs: Callback, ghost model: seq<SetState>)
      requires Valid() && |argumentSchemes| >= 1 && model == Model()
      modifies this
      ensures Valid() && events == old(events) && ignoreUnknownParameters == old(ignoreUnknownParameters)
      ensures |argumentSets| == |old(argumentSets)| + 1 && argumentSets[..|old(argumentSets)|] == old(argumentSets)
      ensures Model() == model + [NewSet(argumentSchemes, getArgs)]
    {
      var schemes := NewSchemes(argumentSchemes);
      var argSet := new ArgumentSet(schemes, getArgs);
      // Allocating touches no registered object.
      StillValid();
      assert argSet.State() == NewSet(argumentSchemes, getArgs);
      Attach(argSet, schemes);
    }

    /** The set `argSet`, made of the schemes `schemes`, none of them
        registered yet, added after the registered sets. */
    method Attach(argSet: ArgumentSet, schemes: seq<ArgumentScheme>)
      requires Valid() && argSet !in Repr && argSet.argSchemes == schemes
      requires |schemes| >= 1 && Distinct(schemes) && forall k :: 0 <= k < |schemes| ==> schemes[k] !in Repr
      modifies this
      ensures Valid() && events == old(events) && ignoreUnknownParameters == old(ignoreUnknownParameters)
      ensures argumentSets == old(argumentSets) + [argSet]
      ensures Model() == old(Model()) + [argSet.State()]
    {
      ghost var shape := Shape();
      ghost var added: set<object> := set x | x in schemes;
      LayoutAppend(argumentSets, shape, Repr, argSet, schemes, added);
      argumentSets := argumentSets + [argSet];
      Repr := Repr + {argSet} + added;
      assert Shape() == shape + [schemes];
      ModelAppended(this, argSet);
    }
  }

  /** The prefixes of a new validator: the given ones, or the default ones
      when none are given, sorted longest first. */
  method SortedPrefixes(separators: Option<seq<string>>) returns (prefixes: seq<string>)
    ensures prefixes == SortByLengthDescending(if separators.None? then DefaultPrefixes else separators.value)
  {
    if separators.None? {
      prefixes := DefaultPrefixes;
    } else {
      prefixes := separators.value;
    }
    prefixes := SortByLengthDescending(prefixes);
  }

  /** A fresh scheme object for each compiled scheme, nothing parsed. */
  method NewSchemes(argumentSchemes: seq<Scheme>) returns (schemes: seq<ArgumentScheme>)
    ensures |schemes| == |argumentSchemes| && Distinct(schemes)
    ensures forall k :: 0 <= k < |schemes| ==> fresh(schemes[k])
    ensures DefsOf(schemes) == argumentSchemes
    ensures forall k :: 0 <= k < |schemes| ==> schemes[k].parsedValues == []
  {
    schemes := [];
    var k := 0;
    while k < |argumentSchemes|
      invariant 0 <= k <= |argumentSchemes| && |schemes| == k && Distinct(schemes)
      invariant forall l :: 0 <= l < k ==> fresh(schemes[l])
      invariant forall l :: 0 <= l < k ==> schemes[l].Def() == argumentSchemes[l] && schemes[l].parsedValues == []
      decreases |argumentSchemes| - k
    {
      ghost var before := schemes;
      var scheme := new ArgumentScheme(argumentSchemes[k]);
      schemes := schemes + [scheme];
      assert schemes[..k] == before && scheme !in before;
      k := k + 1;
    }
  }
}
