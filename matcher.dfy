/** What matching a token list against the registered sets computes, as
    functions of values: one scheme (`GetParsedArgumentScheme`), one set
    (`GetParsedArgumentSet`) and every set in turn (`CheckArgs`). The
    working list is threaded from each call to the next, as the one list
    object is shared by all of them. */
module Matcher {
  import opened Text
  import opened Compiler
  import opened Prefixes
  import opened Registration

  // ---------------------------------------------------------------------------
  // One scheme

  /** The values of a list argument: the tokens up to the first one that
      starts with an option prefix. */
  function TakeValues(prefixes: seq<string>, ts: seq<string>): (vs: seq<string>)
    ensures |vs| <= |ts| && vs == ts[..|vs|]
    ensures forall k :: 0 <= k < |vs| ==> OptionIndex(prefixes, vs[k]) == -1
    ensures |vs| < |ts| ==> OptionIndex(prefixes, ts[|vs|]) != -1
  {
    if ts == [] || OptionIndex(prefixes, ts[0]) != -1 then []
    else [ts[0]] + TakeValues(prefixes, ts[1..])
  }

  /** The values taken are exactly the unprefixed tokens before the first
      prefixed one. */
  lemma TakeValuesIs(prefixes: seq<string>, ts: seq<string>, n: nat)
    requires n <= |ts|
    requires forall k :: 0 <= k < n ==> OptionIndex(prefixes, ts[k]) == -1
    requires n < |ts| ==> OptionIndex(prefixes, ts[n]) != -1
    ensures TakeValues(prefixes, ts) == ts[..n]
  {
  }

  /** A single value the scheme accepts: any value when it lists none, one
      of those it lists otherwise. */
  predicate Permits(s: Scheme, v: string) {
    (|s.allowedValues| > 0 && v in s.allowedValues) || |s.allowedValues| == 0
  }

  /** Whether the scheme was satisfied, its parsed values afterwards and the
      working list afterwards. */
  datatype SchemeOutcome = SchemeOutcome(matched: bool, parsed: seq<string>, args: seq<string>)

  /** What `GetParsedArgumentScheme` does with a scheme whose values parsed
      so far are `parsed`: an empty list fails; otherwise the alias lookup
      decides. */
  function MatchScheme(prefixes: seq<string>, s: Scheme, parsed: seq<string>, args: seq<string>): (o: SchemeOutcome)
    ensures args == [] ==> !o.matched
    ensures !o.matched ==> o.parsed == parsed
  {
    if args == [] then SchemeOutcome(false, parsed, args)
    else
      LookupIsLocated(prefixes, s, args);
      MatchFound(prefixes, s, parsed, args, FindIdentifier(prefixes, s.identifiers, args))
  }

  /** A lookup result that, when it found an alias, reports a position of
      the list. */
  predicate Located(args: seq<string>, f: Found) {
    f.identifier != "" ==> 0 <= f.index < |args|
  }

  lemma LookupIsLocated(prefixes: seq<string>, s: Scheme, args: seq<string>)
    ensures Located(args, FindIdentifier(prefixes, s.identifiers, args))
  {
    FoundIsIdentifier(prefixes, s.identifiers, args);
  }

  /** The rest of `GetParsedArgumentScheme` once the lookup has returned `f`.
      When no token names the scheme, it is satisfied only if optional.
      Otherwise a value follows the reported index: none is taken for
      `None`, one for `Single`, a run of unprefixed tokens for `List`; what
      is removed from the list is the first token equal to the alias. */
  function MatchFound(prefixes: seq<string>, s: Scheme, parsed: seq<string>, args: seq<string>, f: Found): (o: SchemeOutcome)
    requires Located(args, f)
    ensures !o.matched ==> o.parsed == parsed
  {
    if f.identifier == "" then SchemeOutcome(s.isOptional, parsed, args)
    else
      var i := f.index + 1;
      match s.valueType
      case None => SchemeOutcome(true, parsed, RemoveFirst(args, f.identifier))
      case Single =>
        if i < |args| then
          if OptionIndex(prefixes, args[i]) == -1 then
            if Permits(s, args[i]) then SchemeOutcome(true, parsed + [args[i]], RemoveFirst(args, f.identifier))
            else SchemeOutcome(s.optionalValues, parsed, args)
          else SchemeOutcome(false, parsed, args)
        else if s.optionalValues then SchemeOutcome(true, parsed, RemoveFirst(args, f.identifier))
        else SchemeOutcome(false, parsed, args)
      case List =>
        var vs := TakeValues(prefixes, args[i..]);
        var rest := RemoveFirst(args, f.identifier);
        if vs != [] then SchemeOutcome(true, vs, rest)
        else SchemeOutcome(s.optionalValues, parsed, rest)
  }

  /** What a call removes is the first token equal to the alias found, and
      only when the list is not empty and some token names the scheme. */
  lemma MatchRemovesAlias(prefixes: seq<string>, s: Scheme, parsed: seq<string>, args: seq<string>, f: Found)
    requires Located(args, f)
    ensures var o := MatchFound(prefixes, s, parsed, args, f);
      && (o.args == args || o.args == RemoveFirst(args, f.identifier))
      && (o.args != args ==> f.identifier != "")
  {
    var o := MatchFound(prefixes, s, parsed, args, f);
    if f.identifier != "" {
      var rest := RemoveFirst(args, f.identifier);
      match s.valueType
      case None =>
        assert o.args == rest;
      case Single =>
        SingleRemovesAlias(prefixes, s, parsed, args, f);
      case List =>
        assert o.args == rest;
    }
  }

  /** `MatchRemovesAlias` for a scheme that takes one value. */
  lemma SingleRemovesAlias(prefixes: seq<string>, s: Scheme, parsed: seq<string>, args: seq<string>, f: Found)
    requires Located(args, f) && f.identifier != "" && s.valueType == Single
    ensures var o := MatchFound(prefixes, s, parsed, args, f);
      o.args == args || o.args == RemoveFirst(args, f.identifier)
  {
    var o := MatchFound(prefixes, s, parsed, args, f);
    var i := f.index + 1;
    if i < |args| {
      if OptionIndex(prefixes, args[i]) == -1 && Permits(s, args[i]) {
        assert o.args == RemoveFirst(args, f.identifier);
      } else {
        assert o.args == args;
      }
    }
  }

  /** A call removes at most one token, and only one that was there. */
  lemma MatchRemovesAtMostOne(prefixes: seq<string>, s: Scheme, parsed: seq<string>, args: seq<string>)
    ensures var o := MatchScheme(prefixes, s, parsed, args);
      multiset(o.args) <= multiset(args) && |args| - 1 <= |o.args| <= |args|
  {
    if args != [] {
      MatchRemovesAlias(prefixes, s, parsed, args, FindIdentifier(prefixes, s.identifiers, args));
    }
  }

  /** When no token names the scheme, nothing changes, and the scheme is
      satisfied exactly when it is optional. */
  lemma MatchNotFound(prefixes: seq<string>, s: Scheme, parsed: seq<string>, args: seq<string>, f: Found)
    requires Located(args, f) && f.identifier == ""
    ensures MatchFound(prefixes, s, parsed, args, f) == SchemeOutcome(s.isOptional, parsed, args)
  {
  }

  /** A scheme that takes no value is satisfied exactly when a token names
      it or it is optional; its values do not change. */
  lemma MatchNone(prefixes: seq<string>, s: Scheme, parsed: seq<string>, args: seq<string>, f: Found)
    requires Located(args, f) && s.valueType == ValueType.None
    ensures var o := MatchFound(prefixes, s, parsed, args, f);
      o.parsed == parsed && (o.matched <==> f.identifier != "" || s.isOptional)
    ensures var o := MatchFound(prefixes, s, parsed, args, f);
      o.args == if f.identifier != "" then RemoveFirst(args, f.identifier) else args
  {
  }

  /** A `Single` scheme either keeps its values or appends one: the token
      after the reported index, permitted and without a prefix. Once named,
      it is satisfied by such a token; a token with a prefix makes it fail
      even with optional values; a token it does not permit, or the end of
      the list, leaves it satisfied exactly when its values are optional. The
      alias is removed when a value is taken or the list ends, and nothing
      is removed otherwise. */
  lemma MatchSingle(prefixes: seq<string>, s: Scheme, parsed: seq<string>, args: seq<string>, f: Found)
    requires s.valueType == Single && Located(args, f)
    ensures var o := MatchFound(prefixes, s, parsed, args, f);
      o.parsed != parsed ==>
        && o.matched && f.identifier != "" && f.index + 1 < |args|
        && var v := args[f.index + 1];
          o.parsed == parsed + [v] && Permits(s, v) && OptionIndex(prefixes, v) == -1
    ensures var o, i := MatchFound(prefixes, s, parsed, args, f), f.index + 1;
      f.identifier != "" ==>
        && (o.matched <==>
             || (i < |args| && OptionIndex(prefixes, args[i]) == -1 && (Permits(s, args[i]) || s.optionalValues))
             || (i >= |args| && s.optionalValues))
        && (i < |args| && OptionIndex(prefixes, args[i]) == -1 && Permits(s, args[i]) ==>
              o.matched && o.parsed == parsed + [args[i]] && o.args == RemoveFirst(args, f.identifier))
        && (i < |args| && OptionIndex(prefixes, args[i]) != -1 ==> !o.matched && o.args == args)
        && (i < |args| && OptionIndex(prefixes, args[i]) == -1 && !Permits(s, args[i]) ==>
              o.parsed == parsed && o.args == args)
        && (i >= |args| ==> o.parsed == parsed && o.args == if s.optionalValues then RemoveFirst(args, f.identifier) else args)
  {
    var o := MatchFound(prefixes, s, parsed, args, f);
    if f.identifier != "" {
      var i := f.index + 1;
      if i < |args| && OptionIndex(prefixes, args[i]) == -1 && Permits(s, args[i]) {
        assert o.parsed == parsed + [args[i]];
      } else {
        assert o.parsed == parsed;
      }
    }
  }

  /** A `List` scheme either keeps its values or replaces them with the run
      of tokens without a prefix that follows the reported index. Once
      named, it is satisfied exactly when that run is not empty or its values
      are optional, and its alias is removed even when it fails. */
  lemma MatchList(prefixes: seq<string>, s: Scheme, parsed: seq<string>, args: seq<string>, f: Found)
    requires s.valueType == List && Located(args, f)
    ensures var o := MatchFound(prefixes, s, parsed, args, f);
      o.parsed != parsed ==>
        && o.matched && o.parsed != [] && f.identifier != ""
        && o.parsed == TakeValues(prefixes, args[f.index + 1..])
        && forall k :: 0 <= k < |o.parsed| ==> o.parsed[k] in args && OptionIndex(prefixes, o.parsed[k]) == -1
    ensures var o := MatchFound(prefixes, s, parsed, args, f);
      f.identifier != "" ==>
        var vs := TakeValues(prefixes, args[f.index + 1..]);
        && (o.matched <==> vs != [] || s.optionalValues)
        && (vs != [] ==> o.parsed == vs)
        && o.args == RemoveFirst(args, f.identifier)
  {
    var o := MatchFound(prefixes, s, parsed, args, f);
    if f.identifier != "" {
      var vs := TakeValues(prefixes, args[f.index + 1..]);
      if vs != [] {
        assert o.parsed == vs;
        TakenAreIn(prefixes, args, f.index + 1);
      } else {
        assert o.parsed == parsed;
      }
    }
  }

  lemma TakenAreIn(prefixes: seq<string>, args: seq<string>, i: nat)
    requires i <= |args|
    ensures var vs := TakeValues(prefixes, args[i..]);
      forall k :: 0 <= k < |vs| ==> vs[k] in args
  {
    var vs := TakeValues(prefixes, args[i..]);
    forall k | 0 <= k < |vs|
      ensures vs[k] in args
    {
      assert vs[k] == args[i + k];
    }
  }

  /** Whether a scheme is satisfied and what is removed do not depend on the
      values parsed before. */
  lemma MatchIgnoresParsed(prefixes: seq<string>, s: Scheme, p: seq<string>, q: seq<string>, args: seq<string>, f: Found)
    requires Located(args, f)
    ensures var o, u := MatchFound(prefixes, s, p, args, f), MatchFound(prefixes, s, q, args, f);
      o.matched == u.matched && o.args == u.args
  {
  }

  /** With the prefixes `--`, `-`, `/`, the token `-v` has the prefix `-`
      and stands for the alias `v`. */
  lemma DashV()
    ensures OptionIndex(["--", "-", "/"], "-v") == 1 && Alias(["--", "-", "/"], "-v") == "v"
  {
    assert !StartsWith("-v", "--") by {
      assert "-v"[..2] == "-v";
    }
    assert StartsWith("-v", "-");
    assert "-v"[1..] == "v";
  }

  /** The option `-v` is matched by the alias `v`, but what is removed is the
      first token equal to `v`, so `-v` stays in the list. */
  lemma StrippedAliasIsRemoved()
    ensures FindIdentifier(["--", "-", "/"], ["v"], ["-v"]) == Found("v", 0)
    ensures MatchScheme(["--", "-", "/"], Scheme(["v"], [], ValueType.None, false, false, false), [], ["-v"])
      == SchemeOutcome(true, [], ["-v"])
  {
    var p := ["--", "-", "/"];
    DashV();
    assert Names(p, ["v"], "-v");
    assert FindIdentifier(p, ["v"], ["-v"]) == Found("v", 0);
    assert RemoveFirst(["-v"], "v") == ["-v"];
  }

  // ---------------------------------------------------------------------------
  // One set

  /** Whether every scheme of a set was satisfied, the parsed values of
      every scheme afterwards and the working list afterwards. */
  datatype SetOutcome = SetOutcome(matched: bool, parsed: seq<seq<string>>, args: seq<string>)

  /** What `GetParsedArgumentSet` does from the scheme at `i` on: each scheme
      in turn, on the list the previous one left, stopping at the first that
      is not satisfied. The result holds the parsed values of the schemes
      from `i` on. */
  function MatchFrom(prefixes: seq<string>, defs: seq<Scheme>, parsed: seq<seq<string>>, args: seq<string>, i: nat): (o: SetOutcome)
    requires |parsed| == |defs| && i <= |defs|
    ensures |o.parsed| == |defs| - i
    ensures !o.matched ==> i < |defs|
    decreases |defs| - i, 1
  {
    if i == |defs| then SetOutcome(true, [], args)
    else MatchAt(prefixes, defs, parsed, args, i)
  }

  /** The scheme at `i` and, when it is satisfied, those after it on what it
      left of the list. */
  function MatchAt(prefixes: seq<string>, defs: seq<Scheme>, parsed: seq<seq<string>>, args: seq<string>, i: nat): (o: SetOutcome)
    requires |parsed| == |defs| && i < |defs|
    ensures |o.parsed| == |defs| - i
    decreases |defs| - i, 0
  {
    var first := MatchScheme(prefixes, defs[i], parsed[i], args);
    if !first.matched then SetOutcome(false, [first.parsed] + parsed[i + 1..], first.args)
    else
      var rest := MatchFrom(prefixes, defs, parsed, first.args, i + 1);
      SetOutcome(rest.matched, [first.parsed] + rest.parsed, rest.args)
  }

  function MatchSchemes(prefixes: seq<string>, defs: seq<Scheme>, parsed: seq<seq<string>>, args: seq<string>): (o: SetOutcome)
    requires |parsed| == |defs|
    ensures |o.parsed| == |defs|
  {
    MatchFrom(prefixes, defs, parsed, args, 0)
  }

  /** A set that is not satisfied keeps the values parsed for the scheme that
      failed and for every scheme after it. */
  lemma {:induction false} FailureKeepsLaterParsed(prefixes: seq<string>, defs: seq<Scheme>, parsed: seq<seq<string>>, args: seq<string>, i: nat)
    requires |parsed| == |defs| && i <= |defs|
    ensures var o := MatchFrom(prefixes, defs, parsed, args, i);
      !o.matched ==> exists k :: i <= k < |defs| && o.parsed[k - i..] == parsed[k..]
    decreases |defs| - i
  {
    var o := MatchFrom(prefixes, defs, parsed, args, i);
    if i < |defs| && !o.matched {
      assert o == MatchAt(prefixes, defs, parsed, args, i);
      var first := MatchScheme(prefixes, defs[i], parsed[i], args);
      if !first.matched {
        assert o.parsed[0..] == parsed[i..];
      } else {
        var rest := MatchFrom(prefixes, defs, parsed, first.args, i + 1);
        FailureKeepsLaterParsed(prefixes, defs, parsed, first.args, i + 1);
        var k :| i + 1 <= k < |defs| && rest.parsed[k - (i + 1)..] == parsed[k..];
        assert o.parsed == [first.parsed] + rest.parsed;
        DropCons(first.parsed, rest.parsed, k - (i + 1));
      }
    }
  }

  /** A set of two schemes whose first is satisfied. */
  lemma MatchTwo(prefixes: seq<string>, defs: seq<Scheme>, parsed: seq<seq<string>>, args: seq<string>, first: SchemeOutcome, second: SetOutcome)
    requires |defs| == 2 == |parsed|
    requires MatchScheme(prefixes, defs[0], parsed[0], args) == first && first.matched
    requires MatchFrom(prefixes, defs, parsed, first.args, 1) == second
    ensures MatchSchemes(prefixes, defs, parsed, args) == SetOutcome(second.matched, [first.parsed] + second.parsed, second.args)
  {
    assert MatchFrom(prefixes, defs, parsed, args, 0) == MatchAt(prefixes, defs, parsed, args, 0);
  }

  /** One step of `GetParsedArgumentSet`'s loop: with the scheme at `i`
      satisfied, what is matched from `i` on, behind the values `done`
      already parsed, is what is matched from `i + 1` on behind one more. */
  lemma MatchFromStep(prefixes: seq<string>, defs: seq<Scheme>, parsed: seq<seq<string>>, args: seq<string>, i: nat, done: seq<seq<string>>)
    requires |parsed| == |defs| && i < |defs|
    requires MatchScheme(prefixes, defs[i], parsed[i], args).matched
    ensures var first := MatchScheme(prefixes, defs[i], parsed[i], args);
      var rest := MatchFrom(prefixes, defs, parsed, args, i);
      var next := MatchFrom(prefixes, defs, parsed, first.args, i + 1);
      SetOutcome(rest.matched, done + rest.parsed, rest.args)
        == SetOutcome(next.matched, (done + [first.parsed]) + next.parsed, next.args)
  {
  }

  /** The other step: with the scheme at `i` not satisfied, matching from
      `i` on stops there. */
  lemma MatchFromFails(prefixes: seq<string>, defs: seq<Scheme>, parsed: seq<seq<string>>, args: seq<string>, i: nat)
    requires |parsed| == |defs| && i < |defs|
    requires !MatchScheme(prefixes, defs[i], parsed[i], args).matched
    ensures var first := MatchScheme(prefixes, defs[i], parsed[i], args);
      MatchFrom(prefixes, defs, parsed, args, i) == SetOutcome(false, [first.parsed] + parsed[i + 1..], first.args)
  {
  }

  /** One pass of `GetParsedArgumentSet`'s loop on values: `cur` holds the
      values parsed for the schemes before `i` and the original ones from
      `i` on, and `whole` is what the set matches as seen from `i`.  Once
      the scheme at `i` is parsed, `whole` is seen from `i + 1` when it was
      satisfied, and is complete when it was not. */
  lemma MatchLoopStep(prefixes: seq<string>, defs: seq<Scheme>, parsed: seq<seq<string>>, args: seq<string>,
                      i: nat, cur: seq<seq<string>>, whole: SetOutcome)
    requires |parsed| == |defs| && |cur| == |defs| && i < |defs|
    requires forall k :: i <= k < |defs| ==> cur[k] == parsed[k]
    requires var rest := MatchFrom(prefixes, defs, parsed, args, i);
      whole == SetOutcome(rest.matched, cur[..i] + rest.parsed, rest.args)
    ensures var first := MatchScheme(prefixes, defs[i], parsed[i], args);
      var cur' := cur[i := first.parsed];
      && (first.matched ==>
            var rest := MatchFrom(prefixes, defs, parsed, first.args, i + 1);
            whole == SetOutcome(rest.matched, cur'[..i + 1] + rest.parsed, rest.args))
      && (!first.matched ==> whole == SetOutcome(false, cur', first.args))
  {
    var first := MatchScheme(prefixes, defs[i], parsed[i], args);
    var cur' := cur[i := first.parsed];
    if first.matched {
      MatchFromStep(prefixes, defs, parsed, args, i, cur[..i]);
      assert cur'[..i + 1] == cur[..i] + [first.parsed];
    } else {
      MatchFromFails(prefixes, defs, parsed, args, i);
      assert cur[i + 1..] == parsed[i + 1..];
      assert cur' == cur[..i] + [first.parsed] + parsed[i + 1..];
    }
  }

  lemma DropCons<T>(x: T, s: seq<T>, n: nat)
    requires n <= |s|
    ensures ([x] + s)[n + 1..] == s[n..]
  {
  }

  // ---------------------------------------------------------------------------
  // Every set

  /** The answer of `CheckArgs`, the sets afterwards, the working list
      afterwards and the callbacks triggered, in order. */
  datatype Run = Run(result: bool, sets: seq<SetState>, args: seq<string>, events: seq<Event>)

  /** Whether a set that was satisfied triggers its callback. */
  predicate Fires(ignoreUnknownParameters: bool, o: SetOutcome) {
    o.matched && (ignoreUnknownParameters || o.args == [])
  }

  /** What `CheckArgs` does from the set at `i` on: every set in turn, on
      the list the previous one left; a satisfied set keeps its parsed
      values, makes the answer true and triggers its callback with a copy of
      the list when unknown tokens are ignored or none are left. */
  function CheckFrom(prefixes: seq<string>, ignore: bool, sets: seq<SetState>, args: seq<string>, i: nat): (r: Run)
    requires WellFormedSets(sets) && i <= |sets|
    ensures |r.sets| == |sets| && WellFormedSets(r.sets)
    ensures forall j :: 0 <= j < |sets| ==> r.sets[j].defs == sets[j].defs && r.sets[j].callback == sets[j].callback
    ensures forall j :: 0 <= j < i ==> r.sets[j] == sets[j]
    decreases |sets| - i, 1
  {
    if i == |sets| then Run(false, sets, args, []) else CheckAt(prefixes, ignore, sets, args, i)
  }

  /** The set at `i` parsed and, behind it, the sets after it on what it
      left of the list. */
  function CheckAt(prefixes: seq<string>, ignore: bool, sets: seq<SetState>, args: seq<string>, i: nat): (r: Run)
    requires WellFormedSets(sets) && i < |sets|
    ensures |r.sets| == |sets| && WellFormedSets(r.sets)
    ensures forall j :: 0 <= j < |sets| ==> r.sets[j].defs == sets[j].defs && r.sets[j].callback == sets[j].callback
    ensures forall j :: 0 <= j < i ==> r.sets[j] == sets[j]
    decreases |sets| - i, 0
  {
    var s := sets[i];
    var o := MatchSchemes(prefixes, s.defs, s.parsed, args);
    var next := sets[i := SetState(s.defs, o.parsed, s.callback)];
    var rest := CheckFrom(prefixes, ignore, next, o.args, i + 1);
    var fired := if Fires(ignore, o) then [Event(s.callback, o.args)] else [];
    Run(o.matched || rest.result, rest.sets, rest.args, fired + rest.events)
  }

  /** One step of `CheckArgs`'s loop, as `CheckFrom` takes it. */
  lemma CheckFromStep(prefixes: seq<string>, ignore: bool, sets: seq<SetState>, args: seq<string>, i: nat)
    requires WellFormedSets(sets) && i < |sets|
    ensures var s := sets[i];
      var o := MatchSchemes(prefixes, s.defs, s.parsed, args);
      var next := sets[i := SetState(s.defs, o.parsed, s.callback)];
      var rest := CheckFrom(prefixes, ignore, next, o.args, i + 1);
      var fired := if Fires(ignore, o) then [Event(s.callback, o.args)] else [];
      && WellFormedSets(next)
      && CheckFrom(prefixes, ignore, sets, args, i) == Run(o.matched || rest.result, rest.sets, rest.args, fired + rest.events)
  {
  }

  /** A callback is only triggered when unknown tokens are ignored or none
      are left; a triggered callback means the answer is true; and when
      unknown tokens are ignored, the answer is true exactly when some
      callback was triggered. */
  lemma {:induction false} EventsGated(prefixes: seq<string>, ignore: bool, sets: seq<SetState>, args: seq<string>, i: nat)
    requires WellFormedSets(sets) && i <= |sets|
    ensures var r := CheckFrom(prefixes, ignore, sets, args, i);
      && (forall k :: 0 <= k < |r.events| ==> ignore || r.events[k].unknown == [])
      && (r.events != [] ==> r.result)
      && (ignore ==> (r.result <==> r.events != []))
    decreases |sets| - i
  {
    if i < |sets| {
      var s := sets[i];
      var o := MatchSchemes(prefixes, s.defs, s.parsed, args);
      var next := sets[i := SetState(s.defs, o.parsed, s.callback)];
      EventsGated(prefixes, ignore, next, o.args, i + 1);
    }
  }

  /** The answer is true exactly when some set, tried on the list the sets
      before it left, was satisfied. */
  lemma {:induction false} ResultIffSomeSetMatched(prefixes: seq<string>, ignore: bool, sets: seq<SetState>, args: seq<string>, i: nat)
    requires WellFormedSets(sets) && i <= |sets|
    ensures CheckFrom(prefixes, ignore, sets, args, i).result <==>
      exists k :: i <= k < |sets| && StageOutcome(prefixes, sets, args, i, k).matched
    decreases |sets| - i
  {
    if i < |sets| {
      var s := sets[i];
      var o := MatchSchemes(prefixes, s.defs, s.parsed, args);
      var next := sets[i := SetState(s.defs, o.parsed, s.callback)];
      var rest := CheckFrom(prefixes, ignore, next, o.args, i + 1);
      assert CheckFrom(prefixes, ignore, sets, args, i).result == (o.matched || rest.result);
      ResultIffSomeSetMatched(prefixes, ignore, next, o.args, i + 1);
      assert StageOutcome(prefixes, sets, args, i, i) == o;
      if o.matched {
        assert i <= i < |sets| && StageOutcome(prefixes, sets, args, i, i).matched;
        assert exists k :: i <= k < |sets| && StageOutcome(prefixes, sets, args, i, k).matched;
      } else if rest.result {
        var k :| i + 1 <= k < |sets| && StageOutcome(prefixes, next, o.args, i + 1, k).matched;
        StageStep(prefixes, sets, args, i, k);
        assert StageOutcome(prefixes, sets, args, i, k).matched;
      } else {
        forall k | i <= k < |sets|
          ensures !StageOutcome(prefixes, sets, args, i, k).matched
        {
          if k > i {
            StageStep(prefixes, sets, args, i, k);
          }
        }
      }
    }
  }

  /** What the set at `k` makes of the list left by the sets from `i` before
      it. */
  function StageOutcome(prefixes: seq<string>, sets: seq<SetState>, args: seq<string>, i: nat, k: nat): SetOutcome
    requires WellFormedSets(sets) && i <= k < |sets|
    decreases k - i
  {
    var s := sets[i];
    var o := MatchSchemes(prefixes, s.defs, s.parsed, args);
    if i == k then o
    else StageOutcome(prefixes, sets[i := SetState(s.defs, o.parsed, s.callback)], o.args, i + 1, k)
  }

  lemma StageStep(prefixes: seq<string>, sets: seq<SetState>, args: seq<string>, i: nat, k: nat)
    requires WellFormedSets(sets) && i < k < |sets|
    ensures var s := sets[i];
      var o := MatchSchemes(prefixes, s.defs, s.parsed, args);
      StageOutcome(prefixes, sets, args, i, k)
        == StageOutcome(prefixes, sets[i := SetState(s.defs, o.parsed, s.callback)], o.args, i + 1, k)
  {
  }

  // ---------------------------------------------------------------------------
  // Examples

  /** A bare `cmd` has no prefix and stands for itself. */
  lemma BareCmd()
    ensures OptionIndex(["--", "-", "/"], "cmd") == -1 && Alias(["--", "-", "/"], "cmd") == "cmd"
  {
    assert "cmd"[..2] == "cm" && "cmd"[..1] == "c";
  }

  /** `cmd` on `cmd -v` removes `cmd`. */
  lemma CmdMatched()
    ensures FindIdentifier(["--", "-", "/"], ["cmd"], ["cmd", "-v"]) == Found("cmd", 0)
    ensures MatchScheme(["--", "-", "/"], Scheme(["cmd"], [], ValueType.None, false, false, true), [], ["cmd", "-v"])
      == SchemeOutcome(true, [], ["-v"])
  {
    var p := ["--", "-", "/"];
    BareCmd();
    assert Names(p, ["cmd"], "cmd");
    assert FindIdentifier(p, ["cmd"], ["cmd", "-v"]) == Found("cmd", 0);
    assert RemoveFirst(["cmd", "-v"], "cmd") == ["-v"];
  }

  /** A registry of one set, spelt out. */
  lemma CheckOne(prefixes: seq<string>, ignore: bool, s: SetState, args: seq<string>)
    requires WellFormedSet(s)
    ensures var o := MatchSchemes(prefixes, s.defs, s.parsed, args);
      var r := CheckFrom(prefixes, ignore, [s], args, 0);
      r.result == o.matched && r.args == o.args
      && r.events == if Fires(ignore, o) then [Event(s.callback, o.args)] else []
  {
    var o := MatchSchemes(prefixes, s.defs, s.parsed, args);
    var next := [s][0 := SetState(s.defs, o.parsed, s.callback)];
    assert CheckFrom(prefixes, ignore, next, o.args, 1) == Run(false, next, o.args, []);
    assert CheckFrom(prefixes, ignore, [s], args, 0) == CheckAt(prefixes, ignore, [s], args, 0);
  }

  /** The set `cmd,v` on `cmd -v`: both schemes are satisfied, so the answer
      is true, but `-v` is never removed, so with unknown tokens not ignored
      the callback is not triggered. */
  lemma SatisfiedWithoutCallback()
    ensures var cmd := Scheme(["cmd"], [], ValueType.None, false, false, true);
      var v := Scheme(["v"], [], ValueType.None, false, false, false);
      var r := CheckFrom(["--", "-", "/"], false, [SetState([cmd, v], [[], []], Callback(0))], ["cmd", "-v"], 0);
      r.result && r.events == [] && r.args == ["-v"]
  {
    var p := ["--", "-", "/"];
    var cmd := Scheme(["cmd"], [], ValueType.None, false, false, true);
    var v := Scheme(["v"], [], ValueType.None, false, false, false);
    CmdVSatisfied(p, [cmd, v], [[], []], ["cmd", "-v"]);
    CheckOne(p, false, SetState([cmd, v], [[], []], Callback(0)), ["cmd", "-v"]);
  }

  lemma CmdVSatisfied(p: seq<string>, defs: seq<Scheme>, parsed: seq<seq<string>>, args: seq<string>)
    requires p == ["--", "-", "/"] && args == ["cmd", "-v"] && parsed == [[], []]
    requires defs == [Scheme(["cmd"], [], ValueType.None, false, false, true), Scheme(["v"], [], ValueType.None, false, false, false)]
    ensures MatchSchemes(p, defs, parsed, args) == SetOutcome(true, [[], []], ["-v"])
  {
    CmdVHead(p, defs, parsed, args);
    CmdVTail(p, defs, parsed);
    MatchTwo(p, defs, parsed, args, SchemeOutcome(true, [], ["-v"]), SetOutcome(true, [[]], ["-v"]));
  }

  lemma CmdVHead(p: seq<string>, defs: seq<Scheme>, parsed: seq<seq<string>>, args: seq<string>)
    requires p == ["--", "-", "/"] && args == ["cmd", "-v"] && parsed == [[], []]
    requires defs == [Scheme(["cmd"], [], ValueType.None, false, false, true), Scheme(["v"], [], ValueType.None, false, false, false)]
    ensures MatchScheme(p, defs[0], parsed[0], args) == SchemeOutcome(true, [], ["-v"])
  {
    CmdMatched();
  }

  lemma CmdVTail(p: seq<string>, defs: seq<Scheme>, parsed: seq<seq<string>>)
    requires p == ["--", "-", "/"] && parsed == [[], []]
    requires defs == [Scheme(["cmd"], [], ValueType.None, false, false, true), Scheme(["v"], [], ValueType.None, false, false, false)]
    ensures MatchFrom(p, defs, parsed, ["-v"], 1) == SetOutcome(true, [[]], ["-v"])
  {
    StrippedAliasIsRemoved();
    assert defs[1] == Scheme(["v"], [], ValueType.None, false, false, false) && parsed[1] == [];
    assert MatchFrom(p, defs, parsed, ["-v"], 1) == MatchAt(p, defs, parsed, ["-v"], 1);
  }

  /** `a` on `a -l` removes `a`. */
  lemma AMatched()
    ensures FindIdentifier(["--", "-", "/"], ["a"], ["a", "-l"]) == Found("a", 0)
    ensures MatchScheme(["--", "-", "/"], Scheme(["a"], [], ValueType.None, false, false, true), [], ["a", "-l"])
      == SchemeOutcome(true, [], ["-l"])
  {
    var p := ["--", "-", "/"];
    assert "a"[..1] == "a";
    assert OptionIndex(p, "a") == -1 && Alias(p, "a") == "a";
    assert Names(p, ["a"], "a");
    assert FindIdentifier(p, ["a"], ["a", "-l"]) == Found("a", 0);
    assert RemoveFirst(["a", "-l"], "a") == ["-l"];
  }

  /** The list `l` on `-l` finds no value and is not optional. */
  lemma LWithoutValues()
    ensures FindIdentifier(["--", "-", "/"], ["l"], ["-l"]) == Found("l", 0)
    ensures TakeValues(["--", "-", "/"], ["-l"][1..]) == []
    ensures MatchScheme(["--", "-", "/"], Scheme(["l"], [], List, false, false, false), [], ["-l"])
      == SchemeOutcome(false, [], ["-l"])
  {
    var p := ["--", "-", "/"];
    assert !StartsWith("-l", "--") by {
      assert "-l"[..2] == "-l";
    }
    assert StartsWith("-l", "-");
    assert "-l"[1..] == "l";
    assert OptionIndex(p, "-l") == 1 && Alias(p, "-l") == "l";
    assert Names(p, ["l"], "-l");
    assert FindIdentifier(p, ["l"], ["-l"]) == Found("l", 0);
    assert ["-l"][1..] == [];
    assert RemoveFirst(["-l"], "l") == ["-l"];
  }

  /** A set that is not satisfied still removes what its satisfied schemes
      matched: `a,l[]` on `a -l` removes `a`, then fails because `-l` is
      followed by no value. */
  lemma FailedSetConsumes()
    ensures var a := Scheme(["a"], [], ValueType.None, false, false, true);
      var l := Scheme(["l"], [], List, false, false, false);
      MatchSchemes(["--", "-", "/"], [a, l], [[], []], ["a", "-l"]) == SetOutcome(false, [[], []], ["-l"])
  {
    var a := Scheme(["a"], [], ValueType.None, false, false, true);
    var l := Scheme(["l"], [], List, false, false, false);
    ALFails(["--", "-", "/"], [a, l], [[], []], ["a", "-l"]);
  }

  lemma ALFails(p: seq<string>, defs: seq<Scheme>, parsed: seq<seq<string>>, args: seq<string>)
    requires p == ["--", "-", "/"] && args == ["a", "-l"] && parsed == [[], []]
    requires defs == [Scheme(["a"], [], ValueType.None, false, false, true), Scheme(["l"], [], List, false, false, false)]
    ensures MatchSchemes(p, defs, parsed, args) == SetOutcome(false, [[], []], ["-l"])
  {
    ALHead(p, defs, parsed, args);
    ALTail(p, defs, parsed);
    MatchTwo(p, defs, parsed, args, SchemeOutcome(true, [], ["-l"]), SetOutcome(false, [[]], ["-l"]));
  }

  lemma ALHead(p: seq<string>, defs: seq<Scheme>, parsed: seq<seq<string>>, args: seq<string>)
    requires p == ["--", "-", "/"] && args == ["a", "-l"] && parsed == [[], []]
    requires defs == [Scheme(["a"], [], ValueType.None, false, false, true), Scheme(["l"], [], List, false, false, false)]
    ensures MatchScheme(p, defs[0], parsed[0], args) == SchemeOutcome(true, [], ["-l"])
  {
    AMatched();
  }

  lemma ALTail(p: seq<string>, defs: seq<Scheme>, parsed: seq<seq<string>>)
    requires p == ["--", "-", "/"] && parsed == [[], []]
    requires defs == [Scheme(["a"], [], ValueType.None, false, false, true), Scheme(["l"], [], List, false, false, false)]
    ensures MatchFrom(p, defs, parsed, ["-l"], 1) == SetOutcome(false, [[]], ["-l"])
  {
    LWithoutValues();
    assert defs[1] == Scheme(["l"], [], List, false, false, false) && parsed[1] == [] && parsed[2..] == [];
  }
}
