/** The operation registry: an exact-match map from a signature to the list
    of candidate built-ins registered under it. */
module Registry {
  import opened Base
  import opened Values
  import opened Syntax
  import opened Environment
  import opened Builtins

  type Functions = map<FunctionType, seq<Builtin>>
  type Entry = (FunctionType, seq<Builtin>)

  const EqualsOp: Option<Op> := Some(Equals)

  /** The signature shared by the four arithmetic candidates. */
  const ArithKey: FunctionType := FunctionType([Type.Number, Type.Number], EqualsOp, [Type.Number])
  /** `x =`: no items, one list destination. */
  const InputKey: FunctionType := FunctionType([], EqualsOp, [Type.List])
  const LengthKey: FunctionType := FunctionType([Type.List], None, [Type.Number])

  /** The registrations made before the loop over the types, in order. */
  function FixedEntries(): (r: seq<Entry>)
    ensures |r| == 6
    ensures forall k | 0 <= k < 6 :: (|r[k].1| == 1 <==> r[k].0 != ArithKey)
  {
    [ (InputKey, [Input]),
      (FunctionType([Type.Number], EqualsOp, [Type.List]), [NumToStr]),
      (FunctionType([Type.List], EqualsOp, [Type.Number]), [StrToNum]),
      (ArithKey, [Add, Sub, Mul, Div]),
      (FunctionType([Type.Number], None, []), [Jump]),
      (LengthKey, [Length]) ]
  }

  /** The registrations made in the loop for the type `ty`, in order. */
  function PerTypeEntries(ty: Type): (r: seq<Entry>)
    ensures |r| == 6
    ensures forall k | 0 <= k < 6 :: |r[k].1| == 1 && r[k].0.op == EqualsOp
  {
    [ (FunctionType([ty], EqualsOp, []), [Output]),
      (FunctionType([ty], EqualsOp, [ty]), [Assign]),
      (FunctionType([ty, Type.List], EqualsOp, [Type.List]), [Push]),
      (FunctionType([Type.List], EqualsOp, [ty, Type.List]), [Pop]),
      (FunctionType([Type.List, Type.Number], EqualsOp, [ty]), [Get]),
      (FunctionType([Type.List, Type.Number, ty], EqualsOp, [Type.List]), [Put]) ]
  }

  /** The loop's registrations for the first `k` types of the enumeration. */
  function LoopEntries(k: nat): (r: seq<Entry>)
    requires k <= |AllTypes|
    ensures |r| == 6 * k
    ensures forall i | 0 <= i < |r| :: |r[i].1| == 1
  {
    if k == 0 then [] else LoopEntries(k - 1) + PerTypeEntries(AllTypes[k - 1])
  }

  /** One more round of the loop appends that type's registrations. */
  lemma LoopEntriesStep(k: nat)
    requires k < |AllTypes|
    ensures FixedEntries() + LoopEntries(k + 1) == FixedEntries() + LoopEntries(k) + PerTypeEntries(AllTypes[k])
    ensures FixedEntries() + LoopEntries(0) == FixedEntries()
  {
  }

  function DefaultEntries(): (r: seq<Entry>)
    ensures |r| == 24
  {
    FixedEntries() + LoopEntries(3)
  }

  /** The map after inserting the entries one after the other (a later insert
      of the same key would replace an earlier one). */
  function InsertAll(m: Functions, entries: seq<Entry>): (r: Functions)
    ensures forall i | 0 <= i < |entries| :: entries[i].0 in r
    ensures forall k | k in r :: k in m || exists i | 0 <= i < |entries| :: entries[i].0 == k
  {
    if entries == [] then m
    else
      var last := entries[|entries| - 1];
      var r := InsertAll(m, entries[..|entries| - 1])[last.0 := last.1];
      assert forall i | 0 <= i < |entries| - 1 :: entries[..|entries| - 1][i] == entries[i];
      r
  }

  /** Inserting one more entry is one more map update. */
  lemma InsertAllSnoc(m: Functions, entries: seq<Entry>, e: Entry)
    ensures InsertAll(m, entries + [e]) == InsertAll(m, entries)[e.0 := e.1]
  {
    assert (entries + [e])[..|entries|] == entries;
  }

  /** Inserting two runs of entries is inserting their concatenation. */
  lemma {:induction false} InsertAllAppend(m: Functions, a: seq<Entry>, b: seq<Entry>)
    ensures InsertAll(InsertAll(m, a), b) == InsertAll(m, a + b)
    decreases |b|
  {
    if b == [] {
      assert a + b == a;
    } else {
      var n := |b| - 1;
      InsertAllAppend(m, a, b[..n]);
      assert (a + b)[..|a + b| - 1] == a + b[..n];
      assert (a + b)[|a + b| - 1] == b[n];
    }
  }

  /** The registry `init_default_functions` builds from an empty map. */
  function DefaultRegistry(): (r: Functions)
    ensures forall i | 0 <= i < |DefaultEntries()| :: DefaultEntries()[i].0 in r
    ensures forall k | k in r :: exists i | 0 <= i < |DefaultEntries()| :: DefaultEntries()[i].0 == k
  {
    InsertAll(map[], DefaultEntries())
  }

  predicate DistinctKeys(entries: seq<Entry>) {
    forall i, j | 0 <= i < j < |entries| :: entries[i].0 != entries[j].0
  }

  /** Dropping the last entry keeps the keys distinct. */
  lemma DistinctKeysInit(entries: seq<Entry>)
    requires entries != [] && DistinctKeys(entries)
    ensures DistinctKeys(entries[..|entries| - 1])
  {
    var init := entries[..|entries| - 1];
    forall i, j | 0 <= i < j < |init| ensures init[i].0 != init[j].0 {
      assert init[i] == entries[i] && init[j] == entries[j];
    }
  }

  /** A key neither in the map nor among the entries is not in the result. */
  lemma InsertAllAbsent(m: Functions, entries: seq<Entry>, k: FunctionType)
    requires k !in m
    requires forall i | 0 <= i < |entries| :: entries[i].0 != k
    ensures k !in InsertAll(m, entries)
  {
  }

  /** A key no entry replaces keeps its value. */
  lemma {:induction false} InsertAllKeeps(m: Functions, entries: seq<Entry>, k: FunctionType)
    requires k in m
    requires forall i | 0 <= i < |entries| :: entries[i].0 != k
    ensures k in InsertAll(m, entries) && InsertAll(m, entries)[k] == m[k]
  {
    if entries != [] {
      var init := entries[..|entries| - 1];
      forall i | 0 <= i < |init| ensures init[i].0 != k {
        assert init[i] == entries[i];
      }
      InsertAllKeeps(m, init, k);
    }
  }

  /** With distinct keys, each entry is stored as registered. */
  lemma {:induction false} InsertAllStores(m: Functions, entries: seq<Entry>, i: nat)
    requires DistinctKeys(entries) && i < |entries|
    ensures InsertAll(m, entries)[entries[i].0] == entries[i].1
  {
    var n := |entries| - 1;
    if i < n {
      var init := entries[..n];
      DistinctKeysInit(entries);
      InsertAllStores(m, init, i);
      assert init[i] == entries[i] && entries[i].0 != entries[n].0;
    }
  }

  /** With distinct new keys, each entry adds one key. */
  lemma {:induction false} InsertAllSize(m: Functions, entries: seq<Entry>)
    requires DistinctKeys(entries)
    requires forall i | 0 <= i < |entries| :: entries[i].0 !in m
    ensures |InsertAll(m, entries)| == |m| + |entries|
  {
    if entries != [] {
      var n := |entries| - 1;
      var init := entries[..n];
      DistinctKeysInit(entries);
      forall i | 0 <= i < n ensures init[i].0 !in m && init[i].0 != entries[n].0 {
        assert init[i] == entries[i];
      }
      InsertAllSize(m, init);
      InsertAllAbsent(m, init, entries[n].0);
    }
  }

  /** Inserting entries whose keys are new and distinct stores each entry
      unchanged and adds exactly one key per entry. */
  lemma InsertAllDistinct(m: Functions, entries: seq<Entry>)
    requires DistinctKeys(entries)
    requires forall i | 0 <= i < |entries| :: entries[i].0 !in m
    ensures forall i | 0 <= i < |entries| :: InsertAll(m, entries)[entries[i].0] == entries[i].1
    ensures forall k | k in m :: k in InsertAll(m, entries) && InsertAll(m, entries)[k] == m[k]
    ensures |InsertAll(m, entries)| == |m| + |entries|
  {
    forall i | 0 <= i < |entries| ensures InsertAll(m, entries)[entries[i].0] == entries[i].1 {
      InsertAllStores(m, entries, i);
    }
    forall k | k in m ensures k in InsertAll(m, entries) && InsertAll(m, entries)[k] == m[k] {
      InsertAllKeeps(m, entries, k);
    }
    InsertAllSize(m, entries);
  }

  lemma PerTypeKeysDistinct(s: Type, t: Type, i: nat, j: nat)
    requires i < 6 && j < 6
    requires s != t || i != j
    ensures PerTypeEntries(s)[i].0 != PerTypeEntries(t)[j].0
  {
  }

  /** Where each of the 24 default entries comes from. */
  lemma EntryAt(i: nat)
    requires i < 24
    ensures |DefaultEntries()| == 24
    ensures i < 6 ==> DefaultEntries()[i] == FixedEntries()[i]
    ensures i >= 6 ==> DefaultEntries()[i] == PerTypeEntries(AllTypes[(i - 6) / 6])[(i - 6) % 6]
  {
    assert LoopEntries(3) == PerTypeEntries(Type.Number) + PerTypeEntries(Type.Char) + PerTypeEntries(Type.List);
  }

  /** No registration overwrites another: the 24 keys are pairwise distinct. */
  lemma DefaultKeysDistinct()
    ensures |DefaultEntries()| == 24
    ensures DistinctKeys(DefaultEntries())
  {
    var e := DefaultEntries();
    EntryAt(0);
    forall i, j | 0 <= i < j < 24 ensures e[i].0 != e[j].0 {
      EntryAt(i);
      EntryAt(j);
      if j < 6 {
      } else if i < 6 {
      } else {
        PerTypeKeysDistinct(AllTypes[(i - 6) / 6], AllTypes[(j - 6) / 6], (i - 6) % 6, (j - 6) % 6);
      }
    }
  }

  /** Every entry but the arithmetic one has a single candidate, and only the
      first entry's candidate is `input`. */
  lemma EntryCandidates(i: nat)
    requires i < 24
    ensures |DefaultEntries()| == 24
    ensures i != 3 ==> |DefaultEntries()[i].1| == 1
    ensures Input in DefaultEntries()[i].1 <==> i == 0
  {
    EntryAt(i);
  }

  /** Each default entry is stored as registered, and the registry has one
      signature per entry. */
  lemma DefaultRegistryLookup(i: nat)
    requires i < 24
    ensures |DefaultEntries()| == 24
    ensures |DefaultRegistry()| == 24
    ensures DefaultRegistry()[DefaultEntries()[i].0] == DefaultEntries()[i].1
  {
    DefaultKeysDistinct();
    InsertAllDistinct(map[], DefaultEntries());
  }

  /** The registry has 24 signatures; the arithmetic signature holds the four
      candidates in registration order and every other signature exactly one. */
  lemma DefaultRegistryShape()
    ensures |DefaultRegistry()| == 24
    ensures ArithKey in DefaultRegistry() && DefaultRegistry()[ArithKey] == [Add, Sub, Mul, Div]
    ensures forall k | k in DefaultRegistry() && k != ArithKey :: |DefaultRegistry()[k]| == 1
  {
    DefaultRegistryLookup(3);
    EntryAt(3);
    forall k | k in DefaultRegistry() && k != ArithKey ensures |DefaultRegistry()[k]| == 1 {
      var i :| 0 <= i < |DefaultEntries()| && DefaultEntries()[i].0 == k;
      DefaultRegistryLookup(i);
      EntryAt(3);
      EntryCandidates(i);
    }
  }

  /** The external input is reachable only through the signature of a line
      with one list destination and no items. */
  lemma InputOnlyUnderInputKey(k: FunctionType)
    requires k in DefaultRegistry()
    ensures Input in DefaultRegistry()[k] <==> k == InputKey
  {
    var i :| 0 <= i < |DefaultEntries()| && DefaultEntries()[i].0 == k;
    DefaultRegistryLookup(i);
    EntryCandidates(i);
    EntryAt(0);
    DefaultKeysDistinct();
  }

  /** `length` is registered, but no parsed line has its signature: a line
      without `=` never has destinations. */
  lemma LengthUnreachable(s: string, isAlpha: char -> bool, types: map<Name, Type>)
    requires ParseLine(s, isAlpha).Done?
    requires FunTy(ParseLine(s, isAlpha).value, types).Done?
    ensures FunTy(ParseLine(s, isAlpha).value, types).value != LengthKey
  {
    var line := ParseLine(s, isAlpha).value;
    if line.op.None? {
      assert '=' !in s;
    }
  }

  /** The line `x =` parses to one destination and no items, and once `x` is
      guessed to be a list its signature is the one `input` is registered
      under. */
  lemma InputLine(x: Name, isAlpha: char -> bool, types: map<Name, Type>)
    requires x != "" && ' ' !in x && '=' !in x
    ensures ParseLine(x + " =", isAlpha) == Done(Line([x], EqualsOp, []))
    ensures FunTy(Line([x], EqualsOp, []), types[x := Type.List]) == Done(InputKey)
  {
    var s := x + " =";
    assert s == (x + " ") + ['='] + "";
    SplitOnceAt(x + " ", '=', "");
    assert x + " " == x + [' '] + "";
    SplitAtSeparator(x, ' ', "");
    assert Split(x + " ", ' ') == [x, ""];
    assert NonEmpty([x, ""]) == [x];
    assert RightTokens(s) == [];
    var f := FunTy(Line([x], EqualsOp, []), types[x := Type.List]);
    assert f.Done? && f.value.outTy == [Type.List] && f.value.inTy == [];
  }
}
