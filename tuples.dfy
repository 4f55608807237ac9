/** The enumeration of type guesses for the destinations of a line: every
    tuple of `n` types drawn from a (shuffled) ordering of the type alphabet,
    as `multi_cartesian_product` lists them (the first position varies
    slowest), and the writing of one tuple into the type map. */
module Tuples {
  import opened Values
  import opened Environment

  function Pow(b: nat, n: nat): nat {
    if n == 0 then 1 else b * Pow(b, n - 1)
  }

  predicate Distinct<T(==)>(s: seq<T>) {
    forall i, j | 0 <= i < j < |s| :: s[i] != s[j]
  }

  /** `p` lists each of the indices `0 .. n-1` exactly once. */
  predicate IsIndexPermutation(p: seq<nat>, n: nat) {
    && |p| == n
    && (forall i | 0 <= i < n :: p[i] < n)
    && (forall k | 0 <= k < n :: k in p)
    && Distinct(p)
  }

  /** The elements of `s` taken in the order `p` chooses. */
  function Permuted<T>(s: seq<T>, p: seq<nat>): (r: seq<T>)
    requires IsIndexPermutation(p, |s|)
    ensures |r| == |s|
    ensures forall i | 0 <= i < |s| :: r[i] == s[p[i]]
  {
    seq(|s|, i requires 0 <= i < |s| => s[p[i]])
  }

  /** A permuted sequence holds exactly the elements of the original. */
  lemma PermutedSameElements<T>(s: seq<T>, p: seq<nat>, x: T)
    requires IsIndexPermutation(p, |s|)
    ensures x in Permuted(s, p) <==> x in s
  {
    var r := Permuted(s, p);
    if x in s {
      var k :| 0 <= k < |s| && s[k] == x;
      assert k in p;
      var i :| 0 <= i < |p| && p[i] == k;
      assert r[i] == x;
    }
  }

  /** Permuting a sequence without repetitions gives one without repetitions. */
  lemma PermutedDistinct<T>(s: seq<T>, p: seq<nat>)
    requires IsIndexPermutation(p, |s|)
    requires Distinct(s)
    ensures Distinct(Permuted(s, p))
  {
    var r := Permuted(s, p);
    forall i, j | 0 <= i < j < |r| ensures r[i] != r[j] {
      assert p[i] != p[j];
      assert r[i] == s[p[i]] && r[j] == s[p[j]];
    }
  }

  /** `a` prepended to each of `tails`. */
  function Prefix<T>(a: T, tails: seq<seq<T>>): (r: seq<seq<T>>)
    ensures |r| == |tails|
    ensures forall i | 0 <= i < |tails| :: r[i] == [a] + tails[i]
  {
    seq(|tails|, i requires 0 <= i < |tails| => [a] + tails[i])
  }

  /** Each head in turn, prepended to every tail. */
  function Spread<T>(heads: seq<T>, tails: seq<seq<T>>): (r: seq<seq<T>>)
    ensures forall k | 0 <= k < |r| :: |r[k]| > 0 && r[k][0] in heads && r[k][1..] in tails
  {
    if heads == [] then [] else Prefix(heads[0], tails) + Spread(heads[1..], tails)
  }

  /** All tuples of length `n` over `order`, first position slowest. */
  function TypeTuples(order: seq<Type>, n: nat): (r: seq<seq<Type>>)
    ensures |r| > 0 <==> n == 0 || |order| > 0
    ensures forall k | 0 <= k < |r| :: |r[k]| == n
  {
    if n == 0 then [[]] else Spread(order, TypeTuples(order, n - 1))
  }

  lemma {:induction false} SpreadLength<T>(heads: seq<T>, tails: seq<seq<T>>)
    ensures |Spread(heads, tails)| == |heads| * |tails|
  {
    if heads != [] {
      SpreadLength(heads[1..], tails);
    }
  }

  /** A sequence is in `Spread(heads, tails)` exactly when it is a head
      followed by a tail. */
  lemma {:induction false} SpreadMembers<T>(heads: seq<T>, tails: seq<seq<T>>, t: seq<T>)
    ensures t in Spread(heads, tails) <==> |t| > 0 && t[0] in heads && t[1..] in tails
  {
    if heads != [] {
      SpreadMembers(heads[1..], tails, t);
      var pre := Prefix(heads[0], tails);
      if t in pre {
        var i :| 0 <= i < |pre| && pre[i] == t;
        assert t[1..] == tails[i];
      }
      if |t| > 0 && t[0] == heads[0] && t[1..] in tails {
        var i :| 0 <= i < |tails| && tails[i] == t[1..];
        assert pre[i] == [t[0]] + t[1..] == t;
      }
    }
  }

  /** Two sequences without repetitions and without common elements
      concatenate to one without repetitions. */
  lemma DistinctAppend<T>(a: seq<T>, b: seq<T>)
    requires Distinct(a) && Distinct(b)
    requires forall i, j | 0 <= i < |a| && 0 <= j < |b| :: a[i] != b[j]
    ensures Distinct(a + b)
  {
    var all := a + b;
    forall i, j | 0 <= i < j < |all| ensures all[i] != all[j] {
      if j < |a| {
        assert all[i] == a[i] && all[j] == a[j];
      } else if i < |a| {
        assert all[i] == a[i] && all[j] == b[j - |a|];
      } else {
        assert all[i] == b[i - |a|] && all[j] == b[j - |a|];
      }
    }
  }

  lemma {:induction false} SpreadDistinct<T>(heads: seq<T>, tails: seq<seq<T>>)
    requires Distinct(heads) && Distinct(tails)
    ensures Distinct(Spread(heads, tails))
  {
    if heads != [] {
      var pre := Prefix(heads[0], tails);
      var rest := Spread(heads[1..], tails);
      assert Distinct(heads[1..]) by {
        forall i, j | 0 <= i < j < |heads| - 1 ensures heads[1..][i] != heads[1..][j] {
          assert heads[1..][i] == heads[i + 1] && heads[1..][j] == heads[j + 1];
        }
      }
      SpreadDistinct(heads[1..], tails);
      forall i, j | 0 <= i < j < |pre| ensures pre[i] != pre[j] {
        assert pre[i][1..] == tails[i] && pre[j][1..] == tails[j];
      }
      forall i, j | 0 <= i < |pre| && 0 <= j < |rest| ensures pre[i] != rest[j] {
        assert rest[j][0] in heads[1..];
        assert pre[i][0] == heads[0];
      }
      DistinctAppend(pre, rest);
    }
  }

  /** There are `|order|^n` tuples. */
  lemma {:induction false} TypeTuplesCount(order: seq<Type>, n: nat)
    ensures |TypeTuples(order, n)| == Pow(|order|, n)
  {
    if n > 0 {
      TypeTuplesCount(order, n - 1);
      SpreadLength(order, TypeTuples(order, n - 1));
    }
  }

  /** The enumeration is sound and complete: it holds exactly the sequences
      of length `n` whose entries are drawn from `order`. */
  lemma {:induction false} TypeTuplesMembers(order: seq<Type>, n: nat, t: seq<Type>)
    ensures t in TypeTuples(order, n) <==> |t| == n && forall k | 0 <= k < n :: t[k] in order
  {
    if n > 0 {
      var tails := TypeTuples(order, n - 1);
      SpreadMembers(order, tails, t);
      if |t| == n {
        TypeTuplesMembers(order, n - 1, t[1..]);
        assert forall k | 0 <= k < n - 1 :: t[1..][k] == t[k + 1];
        assert (forall k | 0 <= k < n :: t[k] in order) <==> t[0] in order && forall k | 0 <= k < n - 1 :: t[1..][k] in order;
      }
    }
  }

  /** With an ordering that repeats no type, no tuple is listed twice. */
  lemma {:induction false} TypeTuplesDistinct(order: seq<Type>, n: nat)
    requires Distinct(order)
    ensures Distinct(TypeTuples(order, n))
  {
    if n > 0 {
      TypeTuplesDistinct(order, n - 1);
      SpreadDistinct(order, TypeTuples(order, n - 1));
    }
  }

  /** The shuffled type alphabet, as `run_bt` builds it before enumerating. */
  function ShuffledTypes(p: seq<nat>): (order: seq<Type>)
    requires IsIndexPermutation(p, 3)
    ensures |order| == 3 && Distinct(order)
    ensures forall t: Type :: t in order
  {
    AllTypesEnumerates(Type.Number);
    PermutedDistinct(AllTypes, p);
    forall t: Type ensures t in Permuted(AllTypes, p) {
      AllTypesEnumerates(t);
      PermutedSameElements(AllTypes, p, t);
    }
    Permuted(AllTypes, p)
  }

  /** Whatever the shuffle, a line with `n` destinations is tried under each
      of the `3^n` type tuples exactly once. */
  lemma EveryTupleOnce(p: seq<nat>, n: nat, t: seq<Type>)
    requires IsIndexPermutation(p, 3)
    ensures |TypeTuples(ShuffledTypes(p), n)| == Pow(3, n)
    ensures t in TypeTuples(ShuffledTypes(p), n) <==> |t| == n
    ensures Distinct(TypeTuples(ShuffledTypes(p), n))
  {
    var order := ShuffledTypes(p);
    TypeTuplesCount(order, n);
    TypeTuplesMembers(order, n, t);
    TypeTuplesDistinct(order, n);
  }

  // ---------------------------------------------------------------------
  // Writing one guess

  /** The type map after writing `tys[k]` for `names[k]`, one after the
      other (a repeated name keeps the last guess). */
  function GuessTypes(types: map<Name, Type>, names: seq<Name>, tys: seq<Type>): (r: map<Name, Type>)
    requires |names| == |tys|
    ensures r.Keys == types.Keys + set k | 0 <= k < |names| :: names[k]
    ensures forall x | x in types && x !in names :: r[x] == types[x]
  {
    if names == [] then types
    else
      var n := |names| - 1;
      var r := GuessTypes(types, names[..n], tys[..n])[names[n] := tys[n]];
      assert forall x :: x in names <==> x in names[..n] || x == names[n];
      assert (set k | 0 <= k < |names| :: names[k]) == (set k | 0 <= k < n :: names[..n][k]) + {names[n]};
      r
  }

  /** A destination reads back the type guessed for it when no later
      destination has the same name; with a repeated name, as in `x x = l`,
      the last guess is the one that stays. */
  lemma {:induction false} GuessTypesLastWins(types: map<Name, Type>, names: seq<Name>, tys: seq<Type>, i: nat)
    requires |names| == |tys| && i < |names|
    requires forall j | i < j < |names| :: names[j] != names[i]
    ensures names[i] in GuessTypes(types, names, tys)
    ensures GuessTypes(types, names, tys)[names[i]] == tys[i]
  {
    var n := |names| - 1;
    if i < n {
      var init := names[..n];
      forall j | i < j < n ensures init[j] != init[i] {
        assert init[j] == names[j] && init[i] == names[i];
      }
      GuessTypesLastWins(types, init, tys[..n], i);
      assert init[i] == names[i] != names[n];
    }
  }

  /** With pairwise distinct destination names, every destination reads back
      the type guessed for it. */
  lemma {:induction false} GuessTypesReadBack(types: map<Name, Type>, names: seq<Name>, tys: seq<Type>, i: nat)
    requires |names| == |tys| && Distinct(names) && i < |names|
    ensures names[i] in GuessTypes(types, names, tys)
    ensures GuessTypes(types, names, tys)[names[i]] == tys[i]
  {
    GuessTypesLastWins(types, names, tys, i);
  }
}
