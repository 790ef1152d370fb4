/** The registry of argument sets as values: what a registered set holds,
    the duplicate-command test of `AddArgumentSet` and the registration
    that follows it. */
module Registration {
  import opened Text
  import opened Compiler

  /** The delegate a set calls back when it is triggered, known only by
      its identity. */
  datatype Callback = Callback(id: nat)

  /** A registered argument set: the schemes compiled from its descriptor,
      the values parsed so far for each, and its callback. */
  datatype SetState = SetState(defs: seq<Scheme>, parsed: seq<seq<string>>, callback: Callback)

  /** A trigger of a set's callback with the tokens left over. */
  datatype Event = Event(callback: Callback, unknown: seq<string>)

  predicate WellFormedSet(s: SetState) {
    |s.defs| >= 1 && |s.parsed| == |s.defs|
  }

  predicate WellFormedSets(sets: seq<SetState>) {
    forall i :: 0 <= i < |sets| ==> WellFormedSet(sets[i])
  }

  /** The identifiers of a set's command: `GetCmd()` is taken to be the
      first scheme. */
  function CmdIdentifiers(s: SetState): seq<string>
    requires |s.defs| >= 1
  {
    s.defs[0].identifiers
  }

  function Cmds(sets: seq<SetState>): (r: seq<seq<string>>)
    requires WellFormedSets(sets)
    ensures |r| == |sets| && forall i :: 0 <= i < |sets| ==> r[i] == CmdIdentifiers(sets[i])
  {
    seq(|sets|, i requires 0 <= i < |sets| && WellFormedSets(sets) => CmdIdentifiers(sets[i]))
  }

  // ---------------------------------------------------------------------------
  // The duplicate-command test

  /** `x` occurs inside one of the identifiers of an existing command. */
  predicate ClashesWith(existing: seq<string>, x: string) {
    exists m :: 0 <= m < |existing| && Contains(existing[m], x)
  }

  /** The first identifier from position `n` of `newIds` that clashes with
      the existing command's identifiers. */
  function FirstClash(existing: seq<string>, newIds: seq<string>, n: nat): (r: Option<string>)
    requires n <= |newIds|
    ensures r.Some? ==>
      && ClashesWith(existing, r.value)
      && exists k :: n <= k < |newIds| && newIds[k] == r.value && forall l :: n <= l < k ==> !ClashesWith(existing, newIds[l])
    ensures r.None? <==> forall k :: n <= k < |newIds| ==> !ClashesWith(existing, newIds[k])
    decreases |newIds| - n
  {
    if n == |newIds| then Option.None
    else if ClashesWith(existing, newIds[n]) then Some(newIds[n])
    else FirstClash(existing, newIds, n + 1)
  }

  /** The identifier reported by the duplicate test over the commands from
      position `i` on: the existing commands are visited in order and, for
      each, the new identifiers in order. */
  function DuplicateFrom(cmds: seq<seq<string>>, newIds: seq<string>, i: nat): (r: Option<string>)
    requires i <= |cmds|
    ensures r.Some? ==> r.value in newIds && exists j :: i <= j < |cmds| && ClashesWith(cmds[j], r.value)
    ensures r.None? <==>
      forall j, k :: i <= j < |cmds| && 0 <= k < |newIds| ==> !ClashesWith(cmds[j], newIds[k])
    decreases |cmds| - i
  {
    if i == |cmds| then Option.None
    else
      match FirstClash(cmds[i], newIds, 0)
      case Some(x) => Some(x)
      case None => DuplicateFrom(cmds, newIds, i + 1)
  }

  /** The test is containment, not equality, and it is not symmetric: a new
      `v` clashes with an existing `verbose`, but a new `verbose` does not
      clash with an existing `v`. */
  lemma DuplicateIsAsymmetric()
    ensures DuplicateFrom([["verbose"]], ["v"], 0) == Some("v")
    ensures DuplicateFrom([["v"]], ["verbose"], 0) == Option.None
  {
    assert StartsWith("verbose", "v");
    assert Contains(["verbose"][0], "v");
    assert ClashesWith(["verbose"], "v");
    assert !Contains("v", "verbose") by {
      ContainsAt("v", "verbose");
    }
    assert !ClashesWith(["v"], "verbose");
  }

  // ---------------------------------------------------------------------------
  // AddArgumentSet

  /** A set freshly registered from its compiled schemes: nothing parsed yet. */
  function NewSet(schemes: seq<Scheme>, callback: Callback): (s: SetState)
    ensures s.defs == schemes && |s.parsed| == |schemes|
    ensures forall k :: 0 <= k < |schemes| ==> s.parsed[k] == []
  {
    SetState(schemes, seq(|schemes|, _ => []), callback)
  }

  /** What `AddArgumentSet` does to the registered sets, given what its
      descriptor compiles to: the new command is checked against every
      existing command and the new set appended; any failure leaves the sets
      as they were. */
  function Register(sets: seq<SetState>, compiled: Result<seq<Scheme>>, callback: Callback): (r: Result<seq<SetState>>)
    requires WellFormedSets(sets)
    requires compiled.Success? ==> |compiled.value| >= 1
    ensures r.Success? ==> |r.value| == |sets| + 1 && r.value[..|sets|] == sets && WellFormedSets(r.value)
    ensures r.Success? <==>
      && compiled.Success?
      && DuplicateFrom(Cmds(sets), compiled.value[0].identifiers, 0).None?
  {
    match compiled
    case Failure(e) => Failure(e)
    case Success(schemes) =>
      match DuplicateFrom(Cmds(sets), schemes[0].identifiers, 0)
      case Some(x) => Failure(DuplicativeCmd(x))
      case None =>
        var r := sets + [NewSet(schemes, callback)];
        assert r[..|sets|] == sets;
        Success(r)
  }

  /** A registered set holds exactly the compiled schemes, each with no value
      parsed yet; a duplicate command is reported by the new identifier that
      clashes; a descriptor that does not compile is reported as such. */
  lemma RegisterAppends(sets: seq<SetState>, compiled: Result<seq<Scheme>>, callback: Callback)
    requires WellFormedSets(sets)
    requires compiled.Success? ==> |compiled.value| >= 1
    ensures var r := Register(sets, compiled, callback);
      && (r.Success? ==> r.value[|sets|] == NewSet(compiled.value, callback))
      && (r.Failure? && compiled.Success? ==>
            r.error.DuplicativeCmd? && r.error.identifier in compiled.value[0].identifiers)
      && (compiled.Failure? ==> r == Failure(compiled.error))
  {
  }
}
