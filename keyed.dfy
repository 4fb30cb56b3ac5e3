/**
 * The portal's generic helpers over integer-keyed hash maps: successive
 * puts (a later put with the same key replaces the earlier value), the
 * selection sort that lists a map's values by ascending key, and the
 * "bump by one until free" rule that makes stage-rank keys unique.
 */
module KeyedSort {

  /** The indices 0, 1, ..., n - 1. */
  function Range(n: nat): (r: seq<nat>)
    ensures |r| == n
    ensures forall i :: 0 <= i < n ==> r[i] == i
  {
    if n == 0 then [] else Range(n - 1) + [n - 1]
  }

  /** The key of every element, in order. */
  function Keys<T>(xs: seq<T>, key: T -> int): (ids: seq<int>)
    ensures |ids| == |xs|
    ensures forall i :: 0 <= i < |xs| ==> ids[i] == key(xs[i])
  {
    seq(|xs|, i requires 0 <= i < |xs| => key(xs[i]))
  }

  predicate Distinct<T(==)>(s: seq<T>)
  {
    forall i, j :: 0 <= i < j < |s| ==> s[i] != s[j]
  }

  predicate StrictlyIncreasing(s: seq<int>)
  {
    forall i, j :: 0 <= i < j < |s| ==> s[i] < s[j]
  }

  /** In a sequence without repeats, equal elements sit at the same index. */
  lemma DistinctAt<T>(s: seq<T>, a: nat, b: nat)
    requires Distinct(s) && a < |s| && b < |s|
    ensures s[a] == s[b] ==> a == b
  {
    if a < b {
      assert s[a] != s[b];
    } else if b < a {
      assert s[b] != s[a];
    }
  }

  lemma {:induction false} DistinctCard<T>(s: seq<T>)
    requires Distinct(s)
    ensures |set x | x in s| == |s|
  {
    if s != [] {
      var init := s[..|s| - 1];
      DistinctCard(init);
      assert (set x | x in s) == (set x | x in init) + {s[|s| - 1]};
      assert s[|s| - 1] !in (set x | x in init);
    }
  }

  /**
   * The map left by HashMap.put(keys[i], vals[i]) for i = 0, 1, ...:
   * every key is present, and it holds the value of its LAST put.
   */
  function PutAll<V>(keys: seq<int>, vals: seq<V>): (m: map<int, V>)
    requires |keys| == |vals|
    ensures forall k :: k in m <==> k in keys
  {
    if keys == [] then map[]
    else
      var n := |keys| - 1;
      var prev := PutAll(keys[..n], vals[..n]);
      assert keys == keys[..n] + [keys[n]];
      prev[keys[n] := vals[n]]
  }

  /** A key holds the value of its last put. */
  lemma {:induction false} PutAllLastWins<V>(keys: seq<int>, vals: seq<V>, i: nat)
    requires |keys| == |vals| && i < |keys|
    requires forall j :: i < j < |keys| ==> keys[j] != keys[i]
    ensures PutAll(keys, vals)[keys[i]] == vals[i]
    decreases |keys|
  {
    var n := |keys| - 1;
    if i < n {
      PutAllLastWins(keys[..n], vals[..n], i);
    }
  }

  /** Every value left in the map came from a put of its key. */
  lemma {:induction false} PutAllValueFrom<V>(keys: seq<int>, vals: seq<V>, k: int)
    requires |keys| == |vals| && k in PutAll(keys, vals)
    ensures exists i :: 0 <= i < |keys| && keys[i] == k && PutAll(keys, vals)[k] == vals[i]
    decreases |keys|
  {
    var n := |keys| - 1;
    if keys[n] != k {
      PutAllValueFrom(keys[..n], vals[..n], k);
      var i :| 0 <= i < n && keys[..n][i] == k && PutAll(keys[..n], vals[..n])[k] == vals[..n][i];
      assert keys[i] == k && vals[i] == vals[..n][i];
    }
  }

  /** With distinct keys no put is lost: each key maps to its own value. */
  lemma PutAllDistinct<V>(keys: seq<int>, vals: seq<V>)
    requires |keys| == |vals| && Distinct(keys)
    ensures |PutAll(keys, vals)| == |keys|
    ensures forall i :: 0 <= i < |keys| ==> PutAll(keys, vals)[keys[i]] == vals[i]
  {
    DistinctCard(keys);
    assert PutAll(keys, vals).Keys == set k | k in keys;
    forall i | 0 <= i < |keys|
      ensures PutAll(keys, vals)[keys[i]] == vals[i]
    {
      PutAllLastWins(keys, vals, i);
    }
  }

  /** The smallest element of a non-empty finite set of integers. */
  function MinOf(s: set<int>): (m: int)
    requires s != {}
    ensures m in s && forall x :: x in s ==> m <= x
  {
    MinExists(s);
    var m :| m in s && forall x :: x in s ==> m <= x;
    m
  }

  lemma {:induction false} MinExists(s: set<int>)
    requires s != {}
    ensures exists m :: m in s && forall x :: x in s ==> m <= x
    decreases |s|
  {
    var y := PickAny(s);
    var rest := s - {y};
    assert forall x :: x in s ==> x == y || x in rest;
    if rest == {} {
      assert forall x :: x in s ==> y <= x;
    } else {
      MinExists(rest);
      var m :| m in rest && forall x :: x in rest ==> m <= x;
      if y < m {
        assert forall x :: x in s ==> y <= x;
      } else {
        assert forall x :: x in s ==> m <= x;
      }
    }
  }

  lemma NoMemberMeansEmpty(s: set<int>)
    requires forall z :: z !in s
    ensures s == {}
  {
    var e: set<int> := {};
    assert forall z :: z in s <==> z in e;
  }

  lemma PickAny(s: set<int>) returns (y: int)
    requires s != {}
    ensures y in s
  {
    if forall z :: z !in s {
      NoMemberMeansEmpty(s);
    }
    y :| y in s;
  }

  /** The elements of s in ascending order. */
  function SortedKeys(s: set<int>): (r: seq<int>)
    ensures |r| == |s|
    decreases |s|
  {
    if s == {} then []
    else
      var m := MinOf(s);
      [m] + SortedKeys(s - {m})
  }

  /** SortedKeys lists exactly the elements of the set, each once, in strictly increasing order. */
  /** The sorted keys are exactly the elements of s. */
  lemma {:induction false} SortedKeysMembers(s: set<int>)
    ensures forall x :: x in SortedKeys(s) <==> x in s
    decreases |s|
  {
    if s != {} {
      var m := MinOf(s);
      SortedKeysMembers(s - {m});
      assert SortedKeys(s) == [m] + SortedKeys(s - {m});
    }
  }

  /** The sorted keys ascend strictly. */
  lemma {:induction false} SortedKeysIncreasing(s: set<int>)
    ensures StrictlyIncreasing(SortedKeys(s))
    decreases |s|
  {
    if s != {} {
      var m := MinOf(s);
      SortedKeysIncreasing(s - {m});
      SortedKeysMembers(s - {m});
      var r := SortedKeys(s);
      assert r == [m] + SortedKeys(s - {m});
      forall i, j | 0 <= i < j < |r|
        ensures r[i] < r[j]
      {
        if i == 0 {
          assert r[j] in s - {m};
        } else {
          assert r[i] == SortedKeys(s - {m})[i - 1];
        }
      }
    }
  }

  lemma SortedKeysSpec(s: set<int>)
    ensures forall x :: x in SortedKeys(s) <==> x in s
    ensures StrictlyIncreasing(SortedKeys(s))
  {
    SortedKeysMembers(s);
    SortedKeysIncreasing(s);
  }

  /** Strictly increasing sequences with the same elements have the same length. */
  lemma SameElementsSameLength(a: seq<int>, b: seq<int>)
    requires StrictlyIncreasing(a) && StrictlyIncreasing(b)
    requires forall x :: x in a <==> x in b
    ensures |a| == |b|
  {
    assert Distinct(a) && Distinct(b);
    DistinctCard(a);
    DistinctCard(b);
    assert (set x | x in a) == (set x | x in b);
  }

  /** Two strictly increasing sequences with the same elements are the same sequence. */
  lemma {:induction false} IncreasingUnique(a: seq<int>, b: seq<int>)
    requires StrictlyIncreasing(a) && StrictlyIncreasing(b)
    requires forall x :: x in a <==> x in b
    ensures a == b
    decreases |a|
  {
    SameElementsSameLength(a, b);
    if a != [] {
      assert a[0] in a && a[0] in b;
      assert b[0] in b && b[0] in a;
      assert a[0] == b[0] by {
        var i :| 0 <= i < |b| && b[i] == a[0];
        var j :| 0 <= j < |a| && a[j] == b[0];
        assert b[0] <= b[i] && a[0] <= a[j];
      }
      forall x
        ensures x in a[1..] <==> x in b[1..]
      {
        assert x in a <==> x == a[0] || x in a[1..];
        assert x in b <==> x == b[0] || x in b[1..];
        assert forall y :: y in a[1..] ==> a[0] < y;
        assert forall y :: y in b[1..] ==> b[0] < y;
      }
      IncreasingUnique(a[1..], b[1..]);
      assert a == [a[0]] + a[1..] && b == [b[0]] + b[1..];
    }
  }

  /** SortedKeys is the only strictly increasing listing of a set. */
  lemma SortedKeysUnique(s: set<int>, r: seq<int>)
    requires StrictlyIncreasing(r) && forall x :: x in r <==> x in s
    ensures SortedKeys(s) == r
  {
    SortedKeysSpec(s);
    IncreasingUnique(SortedKeys(s), r);
  }

  /** The values m holds for the keys ks, in the order of ks. */
  function Lookup<V>(m: map<int, V>, ks: seq<int>): (r: seq<V>)
    requires forall i :: 0 <= i < |ks| ==> ks[i] in m
    ensures |r| == |ks|
    ensures forall i :: 0 <= i < |ks| ==> r[i] == m[ks[i]]
  {
    if ks == [] then [] else Lookup(m, ks[..|ks| - 1]) + [m[ks[|ks| - 1]]]
  }

  lemma LookupSnoc<V>(m: map<int, V>, ks: seq<int>, k: int)
    requires forall i :: 0 <= i < |ks| ==> ks[i] in m
    requires k in m
    ensures Lookup(m, ks + [k]) == Lookup(m, ks) + [m[k]]
  {
    assert (ks + [k])[..|ks|] == ks;
  }

  /** The values of m listed by ascending key, as the portal's selection sort returns them. */
  function ValuesByKey<V>(m: map<int, V>): (r: seq<V>)
    ensures |r| == |m|
  {
    SortedKeysSpec(m.Keys);
    Lookup(m, SortedKeys(m.Keys))
  }

  /**
   * hashMapValuesSortedByComparableKey: repeatedly removes the smallest
   * remaining key and appends its value.
   */
  method SortValuesByKey<V>(m: map<int, V>) returns (out: seq<V>)
    ensures out == ValuesByKey(m)
  {
    var keys := m.Keys;
    out := [];
    ghost var done: seq<int> := [];
    while keys != {}
      invariant keys <= m.Keys
      invariant done + SortedKeys(keys) == SortedKeys(m.Keys)
      invariant forall i :: 0 <= i < |done| ==> done[i] in m
      invariant out == Lookup(m, done)
      decreases |keys|
    {
      var smallest := MinOf(keys);
      ghost var rest := SortedKeys(keys - {smallest});
      assert SortedKeys(keys) == [smallest] + rest;
      assert (done + [smallest]) + rest == done + ([smallest] + rest);
      LookupSnoc(m, done, smallest);
      keys := keys - {smallest};
      out := out + [m[smallest]];
      done := done + [smallest];
      assert done + SortedKeys(keys) == SortedKeys(m.Keys);
    }
    assert done == SortedKeys(m.Keys);
  }

  // ---- unique keys by bumping ----

  function TakenFrom(taken: set<int>, x: int): set<int>
  {
    set z | z in taken && z >= x
  }

  lemma TakenFromShrinks(taken: set<int>, x: int)
    requires x in taken
    ensures TakenFrom(taken, x + 1) < TakenFrom(taken, x)
    ensures |TakenFrom(taken, x + 1)| < |TakenFrom(taken, x)|
  {
    assert TakenFrom(taken, x) == TakenFrom(taken, x + 1) + {x};
    assert x !in TakenFrom(taken, x + 1);
  }

  /** The first key at or after x that is not yet taken: the portal's `while (containsKey) time++`. */
  function FirstFree(x: int, taken: set<int>): (y: int)
    ensures y >= x && y !in taken
    ensures forall z :: x <= z < y ==> z in taken
    decreases |TakenFrom(taken, x)|
  {
    if x in taken then
      TakenFromShrinks(taken, x);
      FirstFree(x + 1, taken)
    else x
  }

  /** The keys the stage rank assigns, rider by rider, to raw elapsed times. */
  function BumpedKeys(raw: seq<int>): (keys: seq<int>)
    ensures |keys| == |raw|
    decreases |raw|
  {
    if raw == [] then []
    else
      var prev := BumpedKeys(raw[..|raw| - 1]);
      prev + [FirstFree(raw[|raw| - 1], set k | k in prev)]
  }

  /** Bumped keys are pairwise distinct and never below the raw time they came from. */
  lemma {:induction false} BumpedKeysProperties(raw: seq<int>)
    ensures Distinct(BumpedKeys(raw))
    ensures forall i :: 0 <= i < |raw| ==> BumpedKeys(raw)[i] >= raw[i]
    decreases |raw|
  {
    if raw != [] {
      var n := |raw| - 1;
      BumpedKeysProperties(raw[..n]);
      var prev := BumpedKeys(raw[..n]);
      assert BumpedKeys(raw) == prev + [FirstFree(raw[n], set k | k in prev)];
    }
  }

  lemma {:induction false} BumpedKeysPrefix(raw: seq<int>, n: nat)
    requires n <= |raw|
    ensures BumpedKeys(raw[..n]) == BumpedKeys(raw)[..n]
    decreases |raw|
  {
    if n < |raw| {
      BumpedKeysPrefix(raw[..|raw| - 1], n);
      assert raw[..|raw| - 1][..n] == raw[..n];
    } else {
      assert raw[..n] == raw;
    }
  }

  /** Each key is the first free one at or after its raw time, given the keys before it. */
  lemma BumpedKeyAt(raw: seq<int>, i: nat)
    requires i < |raw|
    ensures BumpedKeys(raw)[i] == FirstFree(raw[i], set k | k in BumpedKeys(raw)[..i])
  {
    var b := BumpedKeys(raw);
    var pre := raw[..i + 1];
    BumpedKeysPrefix(raw, i + 1);
    BumpedKeysPrefix(raw, i);
    assert pre[..i] == raw[..i] && pre[i] == raw[i];
    var prev := BumpedKeys(pre[..i]);
    assert prev == b[..i];
    assert BumpedKeys(pre) == prev + [FirstFree(pre[i], set k | k in prev)];
    assert b[i] == BumpedKeys(pre)[i];
  }

  /**
   * Of two riders, the one scanned earlier gets the smaller key whenever its
   * raw time is not larger; in particular exact ties keep scan order.
   */
  lemma BumpedKeysKeepScanOrder(raw: seq<int>, i: nat, j: nat)
    requires i < j < |raw| && raw[i] <= raw[j]
    ensures BumpedKeys(raw)[i] < BumpedKeys(raw)[j]
  {
    var keys := BumpedKeys(raw);
    BumpedKeyAt(raw, i);
    BumpedKeyAt(raw, j);
    var y := keys[j];
    assert y !in keys[..j];
    var before := set k | k in keys[..i];
    assert keys[i] == FirstFree(raw[i], before);
    assert y >= raw[j] >= raw[i];
    // i's key and every key taken before i are still taken when j is scanned
    assert keys[..j][i] == keys[i];
    assert y != keys[i];
    assert forall p :: 0 <= p < i ==> keys[..j][p] == keys[..i][p];
    assert y !in before;
  }

  /** A later rider with a smaller raw time can be bumped past an earlier one: [5, 6, 5] keys as [5, 6, 7]. */
  lemma BumpCanOvertakeRawOrder()
    ensures BumpedKeys([5, 6, 5]) == [5, 6, 7]
  {
    assert [5][..0] == [];
    assert BumpedKeys([5]) == [] + [FirstFree(5, set k | k in [])];
    assert BumpedKeys([5]) == [5];
    var t1 := set k | k in [5];
    assert 6 !in t1;
    assert [5, 6][..1] == [5];
    assert BumpedKeys([5, 6]) == [5] + [FirstFree(6, t1)];
    assert BumpedKeys([5, 6]) == [5, 6];
    var t2 := set k | k in [5, 6];
    assert [5, 6][0] == 5 && [5, 6][1] == 6 && 7 !in [5, 6];
    assert 5 in t2 && 6 in t2 && 7 !in t2;
    assert FirstFree(7, t2) == 7;
    assert FirstFree(6, t2) == 7;
    assert FirstFree(5, t2) == 7;
    assert [5, 6, 5][..2] == [5, 6];
    assert BumpedKeys([5, 6, 5]) == [5, 6] + [FirstFree(5, t2)];
  }

  lemma PutAllSnoc<V>(keys: seq<int>, vals: seq<V>, k: int, v: V)
    requires |keys| == |vals|
    ensures PutAll(keys + [k], vals + [v]) == PutAll(keys, vals)[k := v]
  {
    assert (keys + [k])[..|keys|] == keys;
    assert (vals + [v])[..|vals|] == vals;
  }

  lemma BumpedKeysSnoc(raw: seq<int>, i: nat)
    requires i < |raw|
    ensures BumpedKeys(raw[..i + 1]) == BumpedKeys(raw[..i]) + [FirstFree(raw[i], set k | k in BumpedKeys(raw[..i]))]
  {
    assert raw[..i + 1][..i] == raw[..i];
  }

  /**
   * The key loop of the stage rank: each raw time is bumped past the keys
   * already in the map and then put, with its position as the value.
   */
  /** Putting the next rider under its first free key extends the map of the riders before it. */
  lemma PutBumpedStep(raw: seq<int>, i: nat, time: int)
    requires i < |raw|
    requires time == FirstFree(raw[i], set k | k in BumpedKeys(raw[..i]))
    ensures PutAll(BumpedKeys(raw[..i + 1]), Range(i + 1)) == PutAll(BumpedKeys(raw[..i]), Range(i))[time := i]
  {
    var prev := BumpedKeys(raw[..i]);
    BumpedKeysSnoc(raw, i);
    assert BumpedKeys(raw[..i + 1]) == prev + [time];
    PutAllSnoc(prev, Range(i), time, i);
    assert Range(i + 1) == Range(i) + [i];
  }

  method PutBumped(raw: seq<int>) returns (results: map<int, nat>)
    ensures results == PutAll(BumpedKeys(raw), Range(|raw|))
  {
    results := map[];
    var i := 0;
    while i < |raw|
      invariant 0 <= i <= |raw|
      invariant results == PutAll(BumpedKeys(raw[..i]), Range(i))
    {
      var time := raw[i];
      ghost var taken := results.Keys;
      ghost var prev := BumpedKeys(raw[..i]);
      assert taken == set k | k in prev;
      while time in results
        invariant time >= raw[i]
        invariant FirstFree(time, taken) == FirstFree(raw[i], taken)
        decreases |TakenFrom(taken, time)|
      {
        TakenFromShrinks(taken, time);
        time := time + 1;
      }
      PutBumpedStep(raw, i, time);
      results := results[time := i];
      i := i + 1;
    }
    assert raw[..|raw|] == raw;
  }

  /** The values of successive puts, listed by ascending key: what the portal returns after filling a map. */
  function ListedByKey<V>(keys: seq<int>, vals: seq<V>): (r: seq<V>)
    requires |keys| == |vals|
    ensures |r| == |PutAll(keys, vals)|
  {
    ValuesByKey(PutAll(keys, vals))
  }

  /**
   * With distinct keys, the values listed by key are the values at the
   * positions that put the keys in ascending order.
   */
  lemma ListedByAscendingPositions<V>(keys: seq<int>, vals: seq<V>, order: seq<nat>)
    requires |keys| == |vals| && Distinct(keys)
    requires |order| == |keys| && forall i :: 0 <= i < |order| ==> order[i] < |keys|
    requires forall p :: 0 <= p < |keys| ==> p in order
    requires StrictlyIncreasing(Permute(keys, order))
    ensures ListedByKey(keys, vals) == Permute(vals, order)
  {
    var m := PutAll(keys, vals);
    PutAllDistinct(keys, vals);
    var sorted := Permute(keys, order);
    PermuteKeepsElements(keys, order);
    SortedKeysUnique(m.Keys, sorted);
    var listed := Lookup(m, sorted);
    forall i | 0 <= i < |order|
      ensures listed[i] == Permute(vals, order)[i]
    {
      assert sorted[i] == keys[order[i]];
    }
    assert listed == Permute(vals, order);
  }

  /** Every value listed was put. */
  lemma ListedByKeyFromVals<V>(keys: seq<int>, vals: seq<V>)
    requires |keys| == |vals|
    ensures forall i :: 0 <= i < |ListedByKey(keys, vals)| ==> ListedByKey(keys, vals)[i] in vals
  {
    var m := PutAll(keys, vals);
    var sk := SortedKeys(m.Keys);
    SortedKeysSpec(m.Keys);
    var r := ListedByKey(keys, vals);
    assert r == Lookup(m, sk);
    forall i | 0 <= i < |r|
      ensures r[i] in vals
    {
      PutAllValueFrom(keys, vals, sk[i]);
    }
  }

  /** Successive puts of values bounded by b leave only values bounded by b. */
  lemma PutAllBounded(keys: seq<int>, vals: seq<nat>, b: nat)
    requires |keys| == |vals|
    requires forall i :: 0 <= i < |vals| ==> vals[i] <= b
    ensures forall k :: k in PutAll(keys, vals) ==> PutAll(keys, vals)[k] <= b
  {
    forall k | k in PutAll(keys, vals)
      ensures PutAll(keys, vals)[k] <= b
    {
      PutAllValueFrom(keys, vals, k);
    }
  }

  lemma ListedByKeyEntry<V>(keys: seq<int>, vals: seq<V>, key: V -> int, i: nat)
    requires |keys| == |vals|
    requires forall j :: 0 <= j < |keys| ==> key(vals[j]) == keys[j]
    requires i < |ListedByKey(keys, vals)|
    ensures ListedByKey(keys, vals)[i] in vals
    ensures key(ListedByKey(keys, vals)[i]) == SortedKeys(PutAll(keys, vals).Keys)[i]
  {
    var m := PutAll(keys, vals);
    var sk := SortedKeys(m.Keys);
    SortedKeysSpec(m.Keys);
    var r := ListedByKey(keys, vals);
    assert r == Lookup(m, sk);
    assert r[i] == m[sk[i]];
    PutAllValueFrom(keys, vals, sk[i]);
    var j :| 0 <= j < |keys| && keys[j] == sk[i] && m[sk[i]] == vals[j];
    assert r[i] == vals[j];
  }

  /**
   * When each value determines its own key, the values listed by key have
   * strictly ascending keys, each was put, and every key that was put is
   * represented by one of them.
   */
  lemma ListedByKeySpec<V>(keys: seq<int>, vals: seq<V>, key: V -> int)
    requires |keys| == |vals|
    requires forall j :: 0 <= j < |keys| ==> key(vals[j]) == keys[j]
    ensures forall i :: 0 <= i < |ListedByKey(keys, vals)| ==> ListedByKey(keys, vals)[i] in vals
    ensures forall i, j :: 0 <= i < j < |ListedByKey(keys, vals)| ==>
              key(ListedByKey(keys, vals)[i]) < key(ListedByKey(keys, vals)[j])
    ensures forall j :: 0 <= j < |keys| ==>
              exists i :: 0 <= i < |ListedByKey(keys, vals)| && key(ListedByKey(keys, vals)[i]) == keys[j]
  {
    var m := PutAll(keys, vals);
    var sk := SortedKeys(m.Keys);
    SortedKeysSpec(m.Keys);
    var r := ListedByKey(keys, vals);
    forall i | 0 <= i < |r|
      ensures r[i] in vals && key(r[i]) == sk[i]
    {
      ListedByKeyEntry(keys, vals, key, i);
    }
    forall j | 0 <= j < |keys|
      ensures exists i :: 0 <= i < |r| && key(r[i]) == keys[j]
    {
      assert keys[j] in m;
      var i :| 0 <= i < |sk| && sk[i] == keys[j];
      assert key(r[i]) == keys[j];
    }
  }

  /** Every key that was put is the key of some listed value. */
  lemma ListedByKeyReaches<V>(keys: seq<int>, vals: seq<V>, key: V -> int, j: nat)
    requires |keys| == |vals| && j < |keys|
    requires forall j :: 0 <= j < |keys| ==> key(vals[j]) == keys[j]
    ensures exists i :: 0 <= i < |ListedByKey(keys, vals)| &&
              ListedByKey(keys, vals)[i] in vals && key(ListedByKey(keys, vals)[i]) == keys[j]
  {
    var m := PutAll(keys, vals);
    SortedKeysMembers(m.Keys);
    var sk := SortedKeys(m.Keys);
    assert keys[j] in m;
    var i :| 0 <= i < |sk| && sk[i] == keys[j];
    ListedByKeyEntry(keys, vals, key, i);
  }

  /**
   * The stage rank lists scan positions 0 .. |raw| - 1 by bumped key: every
   * position exactly once, in strictly ascending order of bumped key.
   */
  function BumpedOrder(raw: seq<int>): (order: seq<nat>)
    ensures |order| == |raw|
    ensures forall i :: 0 <= i < |raw| ==> order[i] < |raw|
    ensures forall p :: 0 <= p < |raw| ==> p in order
    ensures Distinct(order)
    ensures forall i, k :: 0 <= i < k < |raw| ==> BumpedKeys(raw)[order[i]] < BumpedKeys(raw)[order[k]]
  {
    BumpedListing(raw);
    ListedByKey<nat>(BumpedKeys(raw), Range(|raw|))
  }

  lemma BumpedListing(raw: seq<int>)
    ensures |ListedByKey<nat>(BumpedKeys(raw), Range(|raw|))| == |raw|
    ensures forall i :: 0 <= i < |raw| ==> ListedByKey<nat>(BumpedKeys(raw), Range(|raw|))[i] < |raw|
    ensures forall p :: 0 <= p < |raw| ==> p in ListedByKey<nat>(BumpedKeys(raw), Range(|raw|))
    ensures forall i, k :: 0 <= i < k < |raw| ==>
              BumpedKeys(raw)[ListedByKey<nat>(BumpedKeys(raw), Range(|raw|))[i]] <
              BumpedKeys(raw)[ListedByKey<nat>(BumpedKeys(raw), Range(|raw|))[k]]
  {
    BumpedKeysProperties(raw);
    PositionsByKeyOrdered(BumpedKeys(raw));
    PositionsByKeyCover(BumpedKeys(raw));
  }

  /**
   * Positions listed by distinct keys: the i-th listed position is a
   * position of keys, and its key is the i-th smallest key.
   */
  lemma PositionsByKeyEntry(keys: seq<int>, i: nat)
    requires Distinct(keys) && i < |keys|
    ensures |ListedByKey<nat>(keys, Range(|keys|))| == |keys|
    ensures ListedByKey<nat>(keys, Range(|keys|))[i] < |keys|
    ensures keys[ListedByKey<nat>(keys, Range(|keys|))[i]] == SortedKeys(PutAll(keys, Range(|keys|)).Keys)[i]
  {
    var n := |keys|;
    var vals := Range(n);
    var key := (p: nat) => if p < n then keys[p] else 0;
    assert forall j :: 0 <= j < |keys| ==> key(vals[j]) == keys[j];
    PutAllDistinct(keys, vals);
    ListedByKeyEntry(keys, vals, key, i);
  }

  lemma PositionsByKeyOrdered(keys: seq<int>)
    requires Distinct(keys)
    ensures |ListedByKey<nat>(keys, Range(|keys|))| == |keys|
    ensures forall i :: 0 <= i < |keys| ==> ListedByKey<nat>(keys, Range(|keys|))[i] < |keys|
    ensures forall i, k :: 0 <= i < k < |keys| ==> keys[ListedByKey<nat>(keys, Range(|keys|))[i]] < keys[ListedByKey<nat>(keys, Range(|keys|))[k]]
  {
    var n := |keys|;
    var vals := Range(n);
    PutAllDistinct(keys, vals);
    var order := ListedByKey<nat>(keys, vals);
    forall i | 0 <= i < n
      ensures order[i] < n
    {
      PositionsByKeyEntry(keys, i);
    }
    SortedKeysIncreasing(PutAll(keys, vals).Keys);
    forall i, k | 0 <= i < k < n
      ensures keys[order[i]] < keys[order[k]]
    {
      PositionsByKeyEntry(keys, i);
      PositionsByKeyEntry(keys, k);
    }
  }

  /** Every position of distinct keys is listed. */
  lemma PositionListed(keys: seq<int>, p: nat)
    requires Distinct(keys) && p < |keys|
    ensures p in ListedByKey<nat>(keys, Range(|keys|))
  {
    var n := |keys|;
    var vals := Range(n);
    var order := ListedByKey<nat>(keys, vals);
    var m := PutAll(keys, vals);
    SortedKeysMembers(m.Keys);
    var sk := SortedKeys(m.Keys);
    PutAllDistinct(keys, vals);
    assert |sk| == n;
    assert keys[p] in sk;
    var i :| 0 <= i < |sk| && sk[i] == keys[p];
    PositionsByKeyEntry(keys, i);
    DistinctAt(keys, order[i], p);
    assert order[i] in order;
  }

  lemma PositionsByKeyCover(keys: seq<int>)
    requires Distinct(keys)
    ensures forall p :: 0 <= p < |keys| ==> p in ListedByKey<nat>(keys, Range(|keys|))
  {
    forall p | 0 <= p < |keys|
      ensures p in ListedByKey<nat>(keys, Range(|keys|))
    {
      PositionListed(keys, p);
    }
  }

  /**
   * Of two riders scanned in order (p before q) whose raw times satisfy
   * raw[p] <= raw[q], in particular an exact tie, the stage rank lists p first.
   */
  lemma ScanOrderBreaksTies(raw: seq<int>, i: nat, k: nat)
    requires i < |raw| && k < |raw|
    requires BumpedOrder(raw)[i] < BumpedOrder(raw)[k]
    requires raw[BumpedOrder(raw)[i]] <= raw[BumpedOrder(raw)[k]]
    ensures i < k
  {
    var order := BumpedOrder(raw);
    BumpedKeysKeepScanOrder(raw, order[i], order[k]);
  }

  /** The elements of a at the positions listed in order. */
  function Permute<T>(a: seq<T>, order: seq<nat>): (r: seq<T>)
    requires forall i :: 0 <= i < |order| ==> order[i] < |a|
    ensures |r| == |order|
    ensures forall i :: 0 <= i < |order| ==> r[i] == a[order[i]]
  {
    seq(|order|, i requires 0 <= i < |order| => a[order[i]])
  }

  /** Picking every position of a at least once keeps exactly the elements of a. */
  lemma PermuteKeepsElements<T>(a: seq<T>, order: seq<nat>)
    requires forall i :: 0 <= i < |order| ==> order[i] < |a|
    requires forall p :: 0 <= p < |a| ==> p in order
    ensures forall x :: x in Permute(a, order) <==> x in a
  {
    var r := Permute(a, order);
    forall x | x in a
      ensures x in r
    {
      var p :| 0 <= p < |a| && a[p] == x;
      assert p in order;
      var i :| 0 <= i < |order| && order[i] == p;
      assert r[i] == x;
    }
  }

  /** A key holds the value of its last put, whatever came before. */
  lemma {:induction false} PutAllValueFromLast<V>(keys: seq<int>, vals: seq<V>, k: int)
    requires |keys| == |vals| && k in PutAll(keys, vals)
    ensures exists j :: 0 <= j < |keys| && keys[j] == k && PutAll(keys, vals)[k] == vals[j] &&
                        forall j' :: j < j' < |keys| ==> keys[j'] != k
    decreases |keys|
  {
    var n := |keys| - 1;
    if keys[n] != k {
      PutAllValueFromLast(keys[..n], vals[..n], k);
      var j :| 0 <= j < n && keys[..n][j] == k && PutAll(keys[..n], vals[..n])[k] == vals[..n][j] &&
               forall j' :: j < j' < n ==> keys[..n][j'] != k;
      assert keys[j] == k && vals[j] == vals[..n][j];
      assert forall j' :: j < j' < |keys| ==> keys[j'] != k;
    }
  }

  /**
   * A value put under a key that is put again later is lost: with distinct
   * values it is missing from the listing.
   */
  lemma ListedByKeyDropsOverwritten<V>(keys: seq<int>, vals: seq<V>, p: nat, q: nat)
    requires |keys| == |vals| && Distinct(vals)
    requires p < q < |keys| && keys[p] == keys[q]
    ensures vals[p] !in ListedByKey(keys, vals)
  {
    var m := PutAll(keys, vals);
    var sk := SortedKeys(m.Keys);
    SortedKeysSpec(m.Keys);
    var r := ListedByKey(keys, vals);
    assert r == Lookup(m, sk);
    forall i | 0 <= i < |r|
      ensures r[i] != vals[p]
    {
      PutAllValueFromLast(keys, vals, sk[i]);
      var j :| 0 <= j < |keys| && keys[j] == sk[i] && m[sk[i]] == vals[j] &&
               forall j' :: j < j' < |keys| ==> keys[j'] != sk[i];
      assert j != p;
      DistinctAt(vals, j, p);
    }
  }

  /** keys[i] * n + i orders positions by key first and by position among equal keys. */
  function TieBroken(keys: seq<int>): (c: seq<int>)
    ensures |c| == |keys|
  {
    seq(|keys|, i requires 0 <= i < |keys| => keys[i] * |keys| + i)
  }

  lemma LexKey(a: int, b: int, i: int, j: int, n: int)
    requires 0 <= i < n && 0 <= j < n
    ensures a * n + i < b * n + j <==> a < b || (a == b && i < j)
  {
    if a < b {
      var d := b - a - 1;
      assert d * n >= 0;
      assert b * n == a * n + d * n + n;
    } else if b < a {
      var d := a - b - 1;
      assert d * n >= 0;
      assert a * n == b * n + d * n + n;
    }
  }

  lemma TieBrokenOrder(keys: seq<int>)
    ensures Distinct(TieBroken(keys))
    ensures forall i, j :: 0 <= i < |keys| && 0 <= j < |keys| ==>
              (TieBroken(keys)[i] < TieBroken(keys)[j] <==> keys[i] < keys[j] || (keys[i] == keys[j] && i < j))
  {
    var c := TieBroken(keys);
    forall i, j | 0 <= i < |keys| && 0 <= j < |keys|
      ensures c[i] < c[j] <==> keys[i] < keys[j] || (keys[i] == keys[j] && i < j)
    {
      LexKey(keys[i], keys[j], i, j, |keys|);
    }
    forall i, j | 0 <= i < j < |keys|
      ensures c[i] != c[j]
    {
      LexKey(keys[i], keys[j], i, j, |keys|);
      LexKey(keys[j], keys[i], j, i, |keys|);
    }
  }

  /**
   * The positions of keys in the order a stable sort on those keys leaves
   * them, as List.sort with Comparator.comparingInt does: every position
   * exactly once, ascending by key, and equal keys in their original order.
   */
  function StableOrder(keys: seq<int>): (order: seq<nat>)
    ensures |order| == |keys|
    ensures forall i :: 0 <= i < |keys| ==> order[i] < |keys|
    ensures forall p :: 0 <= p < |keys| ==> p in order
    ensures Distinct(order)
    ensures forall i, k :: 0 <= i < k < |keys| ==>
              keys[order[i]] < keys[order[k]] || (keys[order[i]] == keys[order[k]] && order[i] < order[k])
  {
    var c := TieBroken(keys);
    TieBrokenOrder(keys);
    PositionsByKeyOrdered(c);
    PositionsByKeyCover(c);
    ListedByKey<nat>(c, Range(|keys|))
  }
}
