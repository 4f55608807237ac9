/** The runtime: the registry, the memo of visited states, the flags the
    built-ins set, and the depth-first backtracking search that picks a type
    for every destination and a candidate for every line until the end of
    the program is reached. Output goes to a transcript of lines; reverting
    the terminal line drops the last one. */
module Search {
  import opened Base
  import opened Values
  import opened Environment
  import opened Syntax
  import opened Builtins
  import opened Registry
  import opened Tuples

  /** The outcome of a search: the end of the program was reached, every
      choice was exhausted, the program panicked, or the depth bound of the
      model was hit. */
  datatype Verdict = Accept | Reject | Crash(reason: string) | OutOfFuel

  /** The name `run` seeds before the first line. */
  const Oh: Name := "oh"
  const Egg: char := '\U{1F95A}'

  const FailureBanner: string :=
    "This program was presented by \U{1D518}\U{1D52B}\U{1D521}\U{1D522}\U{1D523}\U{1D526}\U{1D52B}\U{1D522}\U{1D521}\U{1D505}\U{1D522}\U{1D525}\U{1D51E}\U{1D533}\U{1D526}\U{1D52C}\U{1D532}\U{1D52F}\U{2122}\U{FE0F}."
  const SuccessBanner: string := "."

  /** The environment `run` starts from: `oh` is recorded as a list but holds
      a character, and nothing else is bound. */
  function SeedVariables(): (v: Variables)
    ensures v.GetVal(Oh) == Done(Value.Char(Egg)) && v.GetType(Oh) == Done(Type.List)
    ensures v.values[Oh].Ty() != v.types[Oh]
    ensures forall n | n != Oh :: v.GetVal(n).Crash? && v.GetType(n).Crash?
  {
    var e := EmptyVariables();
    e.(types := e.types[Oh := Type.List]).SetVal(Oh, Value.Char(Egg))
  }

  /** The memo check on its own: a state is accepted when no built-in refused
      and the state was not visited before; it is recorded only in the
      first case. */
  function MemoCheck(okState: bool, past: set<(Variables, nat)>, s: (Variables, nat)): (r: (bool, set<(Variables, nat)>))
    ensures r.0 <==> okState && s !in past
    ensures okState ==> r.1 == past + {s}
    ensures !okState ==> r.1 == past
  {
    if okState then (s !in past, past + {s}) else (false, past)
  }

  /** A state passes the memo check at most once: after it has been accepted
      it is in the memo, and the next check of it fails. */
  lemma MemoAcceptsOnce(okState: bool, past: set<(Variables, nat)>, s: (Variables, nat), okAgain: bool)
    requires MemoCheck(okState, past, s).0
    ensures s in MemoCheck(okState, past, s).1
    ensures !MemoCheck(okAgain, MemoCheck(okState, past, s).1, s).0
  {
  }

  /** A refused state leaves no trace: checking it again after the flag is
      restored can succeed. */
  lemma RefusedNotMemoised(past: set<(Variables, nat)>, s: (Variables, nat))
    requires s !in past
    ensures !MemoCheck(false, past, s).0
    ensures MemoCheck(true, MemoCheck(false, past, s).1, s).0
  {
  }

  /** The signature of a line after its destinations are guessed: with
      pairwise distinct destinations, the destinations carry exactly the
      guessed types, and a right-hand item naming a destination is read with
      the type just guessed for it (the same map serves both sides). */
  lemma GuessedTypesReadOnRight(types: map<Name, Type>, line: Line, tys: seq<Type>, k: nat, i: nat)
    requires |tys| == |line.left| && Distinct(line.left)
    requires FunTy(line, GuessTypes(types, line.left, tys)).Done?
    requires k < |line.right| && i < |line.left| && line.right[k] == Variable(line.left[i])
    ensures FunTy(line, GuessTypes(types, line.left, tys)).value.outTy == tys
    ensures FunTy(line, GuessTypes(types, line.left, tys)).value.inTy[k] == tys[i]
  {
    var g := GuessTypes(types, line.left, tys);
    var f := FunTy(line, g).value;
    forall j | 0 <= j < |tys| ensures f.outTy[j] == tys[j] {
      GuessTypesReadBack(types, line.left, tys, j);
    }
    GuessTypesReadBack(types, line.left, tys, i);
  }

  class Runtime {
    var functions: Functions
    const input: Value
    var pastStates: set<(Variables, nat)>
    var okState: bool
    var nextLine: nat
    var freshOutput: bool
    var programLength: nat
    /** The lines currently shown by the output handler. */
    var transcript: seq<string>
    /** The source of the shuffles: the `t`-th shuffle of `n` elements uses the
        order `shuffle(t, n)`. */
    const shuffle: (nat, nat) -> seq<nat>
    var tick: nat

    /** Every order the shuffle source produces is a permutation. */
    ghost predicate ShuffleOk() {
      forall t: nat, n: nat :: IsIndexPermutation(shuffle(t, n), n)
    }

    /** `Runtime::new`: an empty registry and memo, the flag set. */
    constructor (input: Value, shuffle: (nat, nat) -> seq<nat>)
      ensures this.input == input && this.shuffle == shuffle
      ensures functions == map[] && pastStates == {} && okState
      ensures nextLine == 0 && !freshOutput && programLength == 0
      ensures transcript == [] && tick == 0
    {
      this.input := input;
      this.shuffle := shuffle;
      functions := map[];
      pastStates := {};
      okState := true;
      nextLine := 0;
      freshOutput := false;
      programLength := 0;
      transcript := [];
      tick := 0;
    }

    /** A run of `insert` calls on the registry, one per entry. */
    method Register(entries: seq<Entry>)
      modifies this
      ensures functions == InsertAll(old(functions), entries)
      ensures pastStates == old(pastStates) && okState == old(okState) && nextLine == old(nextLine)
      ensures freshOutput == old(freshOutput) && programLength == old(programLength)
      ensures transcript == old(transcript) && tick == old(tick)
    {
      for i := 0 to |entries|
        invariant functions == InsertAll(old(functions), entries[..i])
        invariant pastStates == old(pastStates) && okState == old(okState) && nextLine == old(nextLine)
        invariant freshOutput == old(freshOutput) && programLength == old(programLength)
        invariant transcript == old(transcript) && tick == old(tick)
      {
        InsertAllSnoc(old(functions), entries[..i], entries[i]);
        assert entries[..i + 1] == entries[..i] + [entries[i]];
        functions := functions[entries[i].0 := entries[i].1];
      }
      assert entries[..|entries|] == entries;
    }

    /** `init_default_functions`: the fixed registrations, then six per type
        in the order of the type enumeration. */
    method InitDefaultFunctions()
      modifies this
      ensures functions == InsertAll(old(functions), DefaultEntries())
      ensures pastStates == old(pastStates) && okState == old(okState) && nextLine == old(nextLine)
      ensures freshOutput == old(freshOutput) && programLength == old(programLength)
      ensures transcript == old(transcript) && tick == old(tick)
    {
      Register(FixedEntries());
      LoopEntriesStep(0);
      for k := 0 to |AllTypes|
        invariant functions == InsertAll(old(functions), FixedEntries() + LoopEntries(k))
        invariant pastStates == old(pastStates) && okState == old(okState) && nextLine == old(nextLine)
        invariant freshOutput == old(freshOutput) && programLength == old(programLength)
        invariant transcript == old(transcript) && tick == old(tick)
      {
        Register(PerTypeEntries(AllTypes[k]));
        InsertAllAppend(old(functions), FixedEntries() + LoopEntries(k), PerTypeEntries(AllTypes[k]));
        LoopEntriesStep(k);
      }
    }

    /** The output handler's `new_output`: display one more line. */
    method Emit(s: string)
      modifies this
      ensures transcript == old(transcript) + [s]
      ensures functions == old(functions) && pastStates == old(pastStates) && okState == old(okState)
      ensures nextLine == old(nextLine) && freshOutput == old(freshOutput)
      ensures programLength == old(programLength) && tick == old(tick)
    {
      transcript := transcript + [s];
    }

    /** The output handler's `revert_output`: erase the last line shown. */
    method Retract()
      requires |transcript| > 0
      modifies this
      ensures transcript == old(transcript)[..|old(transcript)| - 1]
      ensures functions == old(functions) && pastStates == old(pastStates) && okState == old(okState)
      ensures nextLine == old(nextLine) && freshOutput == old(freshOutput)
      ensures programLength == old(programLength) && tick == old(tick)
    {
      transcript := transcript[..|transcript| - 1];
    }

    /** `shuffle(&mut rng)` on a sequence of `n` elements: the order in which
        to visit them. */
    method NextShuffle(n: nat) returns (p: seq<nat>)
      requires ShuffleOk()
      modifies this
      ensures IsIndexPermutation(p, n) && p == shuffle(old(tick), n) && tick == old(tick) + 1
      ensures functions == old(functions) && pastStates == old(pastStates) && okState == old(okState)
      ensures nextLine == old(nextLine) && freshOutput == old(freshOutput)
      ensures programLength == old(programLength) && transcript == old(transcript)
    {
      p := shuffle(tick, n);
      tick := tick + 1;
    }

    /** `is_state_ok`: the memo check, which also restores the flag. */
    method IsStateOk(vars: Variables, lineNr: nat) returns (ok: bool)
      modifies this
      ensures (ok, pastStates) == MemoCheck(old(okState), old(pastStates), (vars, lineNr))
      ensures okState
      ensures functions == old(functions) && nextLine == old(nextLine) && freshOutput == old(freshOutput)
      ensures programLength == old(programLength) && transcript == old(transcript) && tick == old(tick)
    {
      ok := false;
      if okState {
        ok := (vars, lineNr) !in pastStates;
        pastStates := pastStates + {(vars, lineNr)};
      }
      okState := true;
    }

    /** One call `fun(self, &mut variables, line)`: the built-in's effect
        applied to the runtime. */
    method Invoke(f: Builtin, vars: Variables, line: Line) returns (r: Outcome<Variables>)
      modifies this
      ensures Apply(f, input, old(programLength), vars, line).Crash? <==> r.Crash?
      ensures r.Done? ==> var e := Apply(f, input, old(programLength), vars, line).value;
                && r.value == e.vars
                && okState == (old(okState) && e.ok)
                && nextLine == (if e.jumpTo.Some? then e.jumpTo.value else old(nextLine))
                && freshOutput == (old(freshOutput) || e.emitted.Some?)
                && transcript == old(transcript) + (if e.emitted.Some? then [e.emitted.value] else [])
      ensures functions == old(functions) && pastStates == old(pastStates)
      ensures programLength == old(programLength) && tick == old(tick)
    {
      var out := Apply(f, input, programLength, vars, line);
      if out.Crash? {
        return Outcome.Crash(out.reason);
      }
      var e := out.value;
      if !e.ok {
        okState := false;
      }
      if e.jumpTo.Some? {
        nextLine := e.jumpTo.value;
      }
      if e.emitted.Some? {
        freshOutput := true;
        Emit(e.emitted.value);
      }
      r := Done(e.vars);
    }

    /** `run`: record the program length, seed `oh`, search from the first
        line and announce the result. */
    method Run(program: Program, fuel: nat) returns (r: Verdict)
      requires ShuffleOk() && okState
      modifies this
      ensures programLength == |program.lines| && functions == old(functions)
      ensures old(pastStates) <= pastStates
      ensures r.Reject? ==> transcript == old(transcript) + [FailureBanner]
      ensures r.Accept? ==> old(transcript) <= transcript && |transcript| > 0 && transcript[|transcript| - 1] == SuccessBanner
      ensures program.lines == [] ==> r.Accept? && transcript == old(transcript) + [SuccessBanner]
    {
      programLength := |program.lines|;
      r := RunBt(SeedVariables(), program, 0, fuel);
      if r.Reject? {
        Emit(FailureBanner);
      } else if r.Accept? {
        Emit(SuccessBanner);
      }
    }

    /** `run_bt`: search for a way to run the program from line `lineNr` on.
        Each rejected branch leaves the display as it found it, and every
        state that was accepted stays in the memo. */
    method RunBt(vars0: Variables, program: Program, lineNr: nat, fuel: nat) returns (r: Verdict)
      requires ShuffleOk() && okState
      requires programLength == |program.lines| && lineNr <= |program.lines|
      modifies this
      ensures functions == old(functions) && programLength == old(programLength)
      ensures old(pastStates) <= pastStates
      ensures r.Accept? || r.Reject? ==> okState
      ensures r.Reject? ==> transcript == old(transcript)
      ensures r.Accept? ==> old(transcript) <= transcript
      ensures lineNr == |program.lines| ==>
                r.Accept? && transcript == old(transcript) && pastStates == old(pastStates)
      decreases fuel, 0
    {
      if lineNr == |program.lines| {
        return Accept;
      }
      if fuel == 0 {
        return OutOfFuel;
      }
      var vars := vars0;
      var line := program.lines[lineNr];
      if |line.left| > 0 {
        var p := NextShuffle(3);
        var order := ShuffledTypes(p);
        var tuples := TypeTuples(order, |line.left|);
        for i := 0 to |tuples|
          invariant functions == old(functions) && programLength == old(programLength)
          invariant old(pastStates) <= pastStates
          invariant transcript == old(transcript) && okState
        {
          var tys := tuples[i];
          TypeTuplesMembers(order, |line.left|, tys);
          vars := WriteGuesses(vars, line.left, tys);
          var v;
          r, v := TrySignature(vars, program, lineNr, fuel - 1);
          if !r.Reject? {
            return;
          }
          vars := v;
        }
      } else {
        r, vars := TrySignature(vars, program, lineNr, fuel - 1);
        if !r.Reject? {
          return;
        }
      }
      return Reject;
    }

    /** The inner loop of `run_bt` over one tuple: the `k`-th destination gets
        the `k`-th guessed type; values are untouched. */
    static method WriteGuesses(vars0: Variables, names: seq<Name>, tys: seq<Type>) returns (vars: Variables)
      requires |names| == |tys|
      ensures vars.values == vars0.values
      ensures vars.types == GuessTypes(vars0.types, names, tys)
    {
      vars := vars0;
      for k := 0 to |names|
        invariant vars.values == vars0.values
        invariant vars.types == GuessTypes(vars0.types, names[..k], tys[..k])
      {
        assert names[..k + 1][..k] == names[..k] && tys[..k + 1][..k] == tys[..k];
        vars := vars.(types := vars.types[names[k] := tys[k]]);
      }
      assert names[..|names|] == names && tys[..|tys|] == tys;
    }

    /** The signature of the line under the current types, and the candidates
        registered under it (none when the signature is unregistered). */
    method TrySignature(vars0: Variables, program: Program, lineNr: nat, fuel: nat) returns (r: Verdict, vars: Variables)
      requires ShuffleOk() && okState
      requires programLength == |program.lines| && lineNr < |program.lines|
      modifies this
      ensures functions == old(functions) && programLength == old(programLength)
      ensures old(pastStates) <= pastStates
      ensures r.Accept? || r.Reject? ==> okState
      ensures r.Reject? ==> transcript == old(transcript)
      ensures r.Accept? ==> old(transcript) <= transcript
      ensures FunTy(program.lines[lineNr], vars0.types).Crash? ==> r.Crash?
      ensures FunTy(program.lines[lineNr], vars0.types).Done?
                && FunTy(program.lines[lineNr], vars0.types).value !in old(functions) ==>
                r.Reject? && vars == vars0 && transcript == old(transcript) && pastStates == old(pastStates)
      decreases fuel, 2
    {
      vars := vars0;
      var key := FunTy(program.lines[lineNr], vars.types);
      if key.Crash? {
        return Verdict.Crash(key.reason), vars;
      }
      if key.value !in functions {
        return Reject, vars;
      }
      r, vars := TryCandidates(vars, program, lineNr, functions[key.value], fuel);
    }

    /** The candidates of one signature, in shuffled order, on the shared
        working environment: the first one whose state is new and whose
        continuation succeeds ends the search; output of a failed candidate
        is reverted. */
    method TryCandidates(vars0: Variables, program: Program, lineNr: nat, cands: seq<Builtin>, fuel: nat)
      returns (r: Verdict, vars: Variables)
      requires ShuffleOk() && okState
      requires programLength == |program.lines| && lineNr < |program.lines|
      modifies this
      ensures functions == old(functions) && programLength == old(programLength)
      ensures old(pastStates) <= pastStates
      ensures r.Accept? || r.Reject? ==> okState
      ensures r.Reject? ==> transcript == old(transcript)
      ensures r.Accept? ==> old(transcript) <= transcript
      decreases fuel, 1
    {
      var p := NextShuffle(|cands|);
      var order := Permuted(cands, p);
      vars := vars0;
      for j := 0 to |order|
        invariant functions == old(functions) && programLength == old(programLength)
        invariant old(pastStates) <= pastStates
        invariant transcript == old(transcript) && okState
      {
        nextLine := lineNr + 1;
        freshOutput := false;
        var out := Invoke(order[j], vars, program.lines[lineNr]);
        if out.Crash? {
          return Verdict.Crash(out.reason), vars;
        }
        vars := out.value;
        var showed := freshOutput;
        var ok := IsStateOk(vars, lineNr);
        if ok {
          var child := RunBt(vars, program, nextLine, fuel);
          if !child.Reject? {
            return child, vars;
          }
        }
        if showed {
          Retract();
        }
      }
      return Reject, vars;
    }
  }
}
