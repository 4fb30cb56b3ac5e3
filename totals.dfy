/**
 * Per-rider running totals, as the portal keeps them in a HashMap from
 * rider to points: a missing entry counts as nothing.
 */
module Totals {
  import opened KeyedSort

  /** The value under k, 0 when k is absent (a missing total counts as nothing). */
  function Get(m: map<int, nat>, k: int): nat
  {
    if k in m then m[k] else 0
  }

  /** Pointwise sum of two tallies: every key of either, with both values added. */
  function Tally(acc: map<int, nat>, more: map<int, nat>): (t: map<int, nat>)
    ensures t.Keys == acc.Keys + more.Keys
    ensures forall k :: k in t ==> t[k] == Get(acc, k) + Get(more, k)
  {
    map k | k in acc.Keys + more.Keys :: Get(acc, k) + Get(more, k)
  }

  /** A tally's value under any key, present or not, is the sum of the two values. */
  lemma GetTally(acc: map<int, nat>, more: map<int, nat>, k: int)
    ensures Get(Tally(acc, more), k) == Get(acc, k) + Get(more, k)
  {
  }

  /** A map with the keys and values of Tally(acc, more) is that tally. */
  lemma TallyByEntries(t: map<int, nat>, acc: map<int, nat>, more: map<int, nat>)
    requires forall k :: k in t <==> k in acc || k in more
    requires forall k :: k in t ==> t[k] == Get(acc, k) + Get(more, k)
    ensures t == Tally(acc, more)
  {
    var u := Tally(acc, more);
    assert forall k :: k in t <==> k in u;
    assert forall k :: k in t ==> t[k] == u[k];
  }

  /** The totals part-way through AddTo: acc plus more's values under the keys no longer in rest. */
  ghost predicate AddedSoFar(t: map<int, nat>, acc: map<int, nat>, more: map<int, nat>, rest: set<int>)
  {
    (forall k :: k in t <==> k in acc || (k in more && k !in rest)) &&
    forall k :: k in t ==> t[k] == Get(acc, k) + (if k in more && k !in rest then more[k] else 0)
  }
  lemma AddedStep(t: map<int, nat>, acc: map<int, nat>, more: map<int, nat>, rest: set<int>, k: int)
    requires k in more && k in rest
    requires AddedSoFar(t, acc, more, rest)
    ensures AddedSoFar(t[k := Get(t, k) + more[k]], acc, more, rest - {k})
  {
  }
  lemma AddedAll(t: map<int, nat>, acc: map<int, nat>, more: map<int, nat>)
    requires AddedSoFar(t, acc, more, {})
    ensures t == Tally(acc, more)
  {
    TallyByEntries(t, acc, more);
  }

  /**
   * The portal's accumulation loop: for each key of more, put 0 if it is
   * missing, then add more's value to it.
   */
  method AddTo(acc: map<int, nat>, more: map<int, nat>) returns (t: map<int, nat>)
    ensures t == Tally(acc, more)
  {
    t := acc;
    var rest := more.Keys;
    while rest != {}
      invariant rest <= more.Keys
      invariant AddedSoFar(t, acc, more, rest)
      decreases |rest|
    {
      if forall z :: z !in rest {
        NoMemberMeansEmpty(rest);
      }
      var k :| k in rest;
      AddedStep(t, acc, more, rest, k);
      var current := if k in t then t[k] else 0;  // a missing total is first put as 0
      t := t[k := current + more[k]];
      rest := rest - {k};
    }
    AddedAll(t, acc, more);
  }

  /**
   * The entries ids[i] -> vals[i] summed per id: what adding each entry in
   * turn to an empty running total leaves.
   */
  function Column(ids: seq<int>, vals: seq<nat>): (c: map<int, nat>)
    requires |ids| == |vals|
    ensures forall k :: k in c <==> k in ids
  {
    if |ids| == 0 then map[]
    else
      var n := |ids| - 1;
      var prev := Column(ids[..n], vals[..n]);
      assert ids == ids[..n] + [ids[n]];
      AddOne(prev, ids[n], vals[n])
  }

  /** With distinct ids, each id's entry is its own value. */
  lemma {:induction false} ColumnDistinct(ids: seq<int>, vals: seq<nat>, i: nat)
    requires |ids| == |vals| && Distinct(ids) && i < |ids|
    ensures Column(ids, vals)[ids[i]] == vals[i]
    decreases |ids|
  {
    var n := |ids| - 1;
    if i < n {
      assert ids[..n][i] == ids[i] && vals[..n][i] == vals[i];
      ColumnDistinct(ids[..n], vals[..n], i);
      assert ids[n] != ids[i];
    }
  }

  lemma TallyEmpty(acc: map<int, nat>)
    ensures Tally(acc, map[]) == acc
  {
    TallyByEntries(acc, acc, map[]);
  }

  /** The portal's update of one running total: a missing total is first put as 0, then v is added to it. */
  function AddOne(t: map<int, nat>, k: int, v: nat): (r: map<int, nat>)
    ensures r.Keys == t.Keys + {k}
    ensures Get(r, k) == Get(t, k) + v
    ensures r - {k} == t - {k}
  {
    t[k := Get(t, k) + v]
  }

  /** Adding v under k to a column adds v under k to its tally. */
  lemma TallyPut(acc: map<int, nat>, c: map<int, nat>, k: int, v: nat)
    ensures Tally(acc, AddOne(c, k, v)) == AddOne(Tally(acc, c), k, v)
  {
    var t := AddOne(Tally(acc, c), k, v);
    var c' := AddOne(c, k, v);
    assert forall x :: x in t <==> x in acc || x in c';
    forall x | x in t
      ensures t[x] == Get(acc, x) + Get(c', x)
    {
      if x == k {
        GetTally(acc, c, k);
      }
    }
    TallyByEntries(t, acc, c');
  }

  /** Adding one more entry to a column adds it to the tally too. */
  lemma {:induction false} ColumnStep(acc: map<int, nat>, ids: seq<int>, vals: seq<nat>, i: nat, t: map<int, nat>)
    requires |ids| == |vals| && i < |ids|
    requires t == Tally(acc, Column(ids[..i], vals[..i]))
    ensures Tally(acc, Column(ids[..i + 1], vals[..i + 1])) == AddOne(t, ids[i], vals[i])
  {
    assert ids[..i + 1][..i] == ids[..i] && vals[..i + 1][..i] == vals[..i];
    TallyPut(acc, Column(ids[..i], vals[..i]), ids[i], vals[i]);
  }

  /**
   * The portal's loop over a stage's ranked riders: put 0 for a rider
   * without a total, then add the rider's value to its total.
   */
  method AddColumn(acc: map<int, nat>, ids: seq<int>, vals: seq<nat>) returns (t: map<int, nat>)
    requires |ids| == |vals|
    ensures t == Tally(acc, Column(ids, vals))
  {
    t := acc;
    var i := 0;
    ColumnStart(acc, ids, vals);
    while i < |ids|
      invariant 0 <= i <= |ids|
      invariant t == Tally(acc, Column(ids[..i], vals[..i]))
    {
      ColumnStep(acc, ids, vals, i, t);
      t := AddOne(t, ids[i], vals[i]);
      i := i + 1;
    }
    assert ids[..|ids|] == ids && vals[..|vals|] == vals;
  }

  lemma ColumnStart(acc: map<int, nat>, ids: seq<int>, vals: seq<nat>)
    requires |ids| == |vals|
    ensures acc == Tally(acc, Column(ids[..0], vals[..0]))
  {
    assert ids[..0] == [] && vals[..0] == [];
    TallyEmpty(acc);
  }
}
