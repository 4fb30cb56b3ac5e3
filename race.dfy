/**
 * Race-level aggregation: the general classification (GC) from the
 * adjusted times of all the race's stages, the GC times, the points and
 * mountain points summed over the race, and the two classification ranks.
 * Where the portal iterates over a HashMap, the iteration order is the
 * parameter hashOrder, a list of rider ids.
 */
module RaceScoring {
  import opened CyclingTypes
  import opened KeyedSort
  import opened Totals
  import opened StageScoring

  /** getRaceStages: the race's stage ids in race order; an unknown race is an error. */
  function RaceStages(snap: Snap, raceId: int): (r: Result<seq<int>>)
    ensures r.Err? <==> FindRace(snap.races, raceId).None?
    ensures r.Ok? ==> r.value == FindRace(snap.races, raceId).value.stages
  {
    if FindRace(snap.races, raceId).None? then Err(IDNotRecognised)
    else Ok(FindRace(snap.races, raceId).value.stages)
  }

  predicate StagesKnown(snap: Snap, sids: seq<int>)
  {
    forall sid :: sid in sids ==> FindStage(snap.stages, sid).Some?
  }

  /** Some stored rider with id id has a result for stage sid. */
  predicate HasResult(snap: Snap, id: int, sid: int)
  {
    exists r :: r in snap.riders && sid in r.results && r.id == id
  }

  /** Some stored rider with id id has a result for one of the stages sids. */
  predicate RacedIn(snap: Snap, sids: seq<int>, id: int)
  {
    exists sid :: sid in sids && HasResult(snap, id, sid)
  }

  /**
   * A HashMap iteration order for the rider ids of the store: each listed
   * once, every stored rider's id among them.
   */
  predicate Enumerates(hashOrder: seq<int>, snap: Snap)
  {
    Distinct(hashOrder) && forall r :: r in snap.riders ==> r.id in hashOrder
  }

  lemma IdsOfMembers(rs: seq<Rider>)
    ensures forall id :: id in IdsOf(rs) <==> exists r :: r in rs && r.id == id
  {
    forall id | id in IdsOf(rs)
      ensures exists r :: r in rs && r.id == id
    {
      var i :| 0 <= i < |rs| && IdsOf(rs)[i] == id;
      assert rs[i] in rs;
    }
  }

  /** Stored riders are found by their id (perhaps as another rider with the same id). */
  lemma RidersFound(snap: Snap, a: seq<Rider>)
    requires forall r :: r in a ==> r in snap.riders
    ensures forall i :: 0 <= i < |a| ==> FindRider(snap.riders, a[i].id).Some?
  {
    forall i | 0 <= i < |a|
      ensures FindRider(snap.riders, a[i].id).Some?
    {
      assert a[i] in a;
    }
  }

  // ---- general classification ----

  /** Each rider's adjusted time in stage sid, looked up by id and truncated to whole seconds. */
  function SecondsOf(snap: Snap, sid: int, a: seq<Rider>): (s: seq<nat>)
    requires ResultsFit(snap) && FindStage(snap.stages, sid).Some?
    requires forall r :: r in a ==> r in snap.riders
    ensures |s| == |a|
  {
    RidersFound(snap, a);
    seq(|a|, i requires 0 <= i < |a| => SecondOfDay(AdjustedElapsedTime(snap, sid, a[i].id).value))
  }

  /** Entry i of SecondsOf is rider i's adjusted time in whole seconds, which exists. */
  lemma SecondsOfAt(snap: Snap, sid: int, a: seq<Rider>, i: nat)
    requires ResultsFit(snap) && FindStage(snap.stages, sid).Some?
    requires forall r :: r in a ==> r in snap.riders
    requires i < |a|
    ensures AdjustedElapsedTime(snap, sid, a[i].id).Ok?
    ensures SecondsOf(snap, sid, a)[i] == SecondOfDay(AdjustedElapsedTime(snap, sid, a[i].id).value)
  {
    RidersFound(snap, a);
  }

  /** One stage's seconds, summed per rider id, for every rider with a result. */
  function StageSeconds(snap: Snap, sid: int): (c: map<int, nat>)
    requires ResultsFit(snap) && FindStage(snap.stages, sid).Some?
    ensures forall id :: id in c <==> HasResult(snap, id, sid)
  {
    var a := StageRiders(snap, sid);
    IdsOfMembers(a);
    Column(IdsOf(a), SecondsOf(snap, sid, a))
  }

  /**
   * The GC totals over the stages sids: every rider with a result in one
   * of them, with its seconds summed over them. An unknown stage is an
   * error.
   */
  function GcTotals(snap: Snap, sids: seq<int>): (r: Result<map<int, nat>>)
    requires ResultsFit(snap)
    ensures r.Err? <==> !StagesKnown(snap, sids)
    ensures r.Ok? ==> forall id :: id in r.value <==> RacedIn(snap, sids, id)
    decreases |sids|
  {
    if |sids| == 0 then Ok(map[])
    else
      var n := |sids| - 1;
      var prev := GcTotals(snap, sids[..n]);
      assert forall sid :: sid in sids <==> sid in sids[..n] || sid == sids[n];
      if prev.Err? then Err(IDNotRecognised)
      else if FindStage(snap.stages, sids[n]).None? then Err(IDNotRecognised)
      else Ok(Tally(prev.value, StageSeconds(snap, sids[n])))
  }

  /** One more stage: an unknown one makes the whole race an error, a known one adds its seconds. */
  lemma GcTotalsStep(snap: Snap, sids: seq<int>, j: nat)
    requires ResultsFit(snap) && j < |sids| && GcTotals(snap, sids[..j]).Ok?
    ensures FindStage(snap.stages, sids[j]).None? ==> GcTotals(snap, sids).Err?
    ensures FindStage(snap.stages, sids[j]).Some? ==>
              GcTotals(snap, sids[..j + 1]) == Ok(Tally(GcTotals(snap, sids[..j]).value, StageSeconds(snap, sids[j])))
  {
    assert sids[..j + 1][..j] == sids[..j];
    assert sids[j] in sids;
  }

  /**
   * The portal's GC loop: for each stage of the race in turn, each rider
   * with a result adds its adjusted time in whole seconds to its total.
   */
  method GeneralClassificationTotals(snap: Snap, sids: seq<int>) returns (r: Result<map<int, nat>>)
    requires ResultsFit(snap)
    ensures r == GcTotals(snap, sids)
  {
    var results: map<int, nat> := map[];
    var j := 0;
    while j < |sids|
      invariant 0 <= j <= |sids|
      invariant GcTotals(snap, sids[..j]) == Ok(results)
    {
      var sid := sids[j];
      GcTotalsStep(snap, sids, j);
      if FindStage(snap.stages, sid).None? {
        return Err(IDNotRecognised);
      }
      results := AddStageSeconds(snap, sid, results);
      j := j + 1;
    }
    assert sids[..|sids|] == sids;
    return Ok(results);
  }

  /** The inner loop of the GC: the riders with a result for stage sid, in store order. */
  method AddStageSeconds(snap: Snap, sid: int, acc: map<int, nat>) returns (results: map<int, nat>)
    requires ResultsFit(snap) && FindStage(snap.stages, sid).Some?
    ensures results == Tally(acc, StageSeconds(snap, sid))
  {
    var a := StageRiders(snap, sid);
    ghost var ids := IdsOf(a);
    ghost var secs := SecondsOf(snap, sid, a);
    results := acc;
    ColumnStart(acc, ids, secs);
    var i := 0;
    while i < |a|
      invariant 0 <= i <= |a|
      invariant results == Tally(acc, Column(ids[..i], secs[..i]))
    {
      SecondsOfAt(snap, sid, a, i);
      var val := SecondOfDay(AdjustedElapsedTime(snap, sid, a[i].id).value);
      assert ids[i] == a[i].id && secs[i] == val;
      ColumnStep(acc, ids, secs, i, results);
      ghost var next := Tally(acc, Column(ids[..i + 1], secs[..i + 1]));
      results := AddOne(results, a[i].id, val);
      assert results == next;
      i := i + 1;
    }
    assert ids[..|a|] == ids && secs[..|a|] == secs;
  }

  /** The keys of m in the order hashOrder lists them: the map's iteration order. */
  function InHashOrder(hashOrder: seq<int>, m: map<int, nat>): (ks: seq<int>)
    ensures forall k :: k in ks <==> k in hashOrder && k in m
    ensures forall i :: 0 <= i < |ks| ==> ks[i] in m
    decreases |hashOrder|
  {
    if |hashOrder| == 0 then []
    else
      var n := |hashOrder| - 1;
      var prev := InHashOrder(hashOrder[..n], m);
      assert forall k :: k in hashOrder <==> k in hashOrder[..n] || k == hashOrder[n];
      if hashOrder[n] in m then prev + [hashOrder[n]] else prev
  }

  lemma {:induction false} InHashOrderDistinct(hashOrder: seq<int>, m: map<int, nat>)
    requires Distinct(hashOrder)
    ensures Distinct(InHashOrder(hashOrder, m))
    decreases |hashOrder|
  {
    if |hashOrder| > 0 {
      var n := |hashOrder| - 1;
      assert Distinct(hashOrder[..n]);
      InHashOrderDistinct(hashOrder[..n], m);
      assert hashOrder[n] !in hashOrder[..n];
    }
  }

  /** The race's stage ids; defined once the race is known. */
  function StagesOf(snap: Snap, raceId: int): seq<int>
    requires FindRace(snap.races, raceId).Some?
  {
    FindRace(snap.races, raceId).value.stages
  }

  /**
   * getRidersGeneralClassificationRank: the totals are flipped into a map
   * from total to rider, filled in the totals' iteration order, and its
   * riders are listed by ascending total. Riders with equal totals collide
   * in the flipped map and only the last one put stays. An unknown race or
   * stage is an error.
   */
  function GcRank(snap: Snap, raceId: int, hashOrder: seq<int>): (r: Result<seq<int>>)
    requires ResultsFit(snap)
    ensures r.Err? <==> FindRace(snap.races, raceId).None? || !StagesKnown(snap, StagesOf(snap, raceId))
    ensures r.Err? ==> r.error == IDNotRecognised
  {
    if FindRace(snap.races, raceId).None? then Err(IDNotRecognised)
    else if GcTotals(snap, StagesOf(snap, raceId)).Err? then Err(IDNotRecognised)
    else
      var totals := GcTotals(snap, StagesOf(snap, raceId)).value;
      var iter := InHashOrder(hashOrder, totals);
      Ok(ListedByKey(Lookup(totals, iter), iter))
  }

  /** The GC totals of a race whose stages are all known. */
  function RaceTotals(snap: Snap, raceId: int): (t: map<int, nat>)
    requires ResultsFit(snap) && FindRace(snap.races, raceId).Some?
    requires StagesKnown(snap, StagesOf(snap, raceId))
    ensures forall id :: id in t <==> RacedIn(snap, StagesOf(snap, raceId), id)
  {
    GcTotals(snap, StagesOf(snap, raceId)).value
  }

  /**
   * Flipping totals into a map from total to id and listing it by key: the
   * ids listed are ids of totals, in strictly ascending order of total.
   */
  lemma FlippedListingOrdered(totals: map<int, nat>, iter: seq<int>)
    requires forall i :: 0 <= i < |iter| ==> iter[i] in totals
    ensures forall i :: 0 <= i < |ListedByKey(Lookup(totals, iter), iter)| ==>
              ListedByKey(Lookup(totals, iter), iter)[i] in totals
    ensures forall i, j :: 0 <= i < j < |ListedByKey(Lookup(totals, iter), iter)| ==>
              totals[ListedByKey(Lookup(totals, iter), iter)[i]] < totals[ListedByKey(Lookup(totals, iter), iter)[j]]
  {
    var keys := Lookup(totals, iter);
    var rank := ListedByKey(keys, iter);
    var key := (id: int) => Get(totals, id);
    assert forall j :: 0 <= j < |iter| ==> key(iter[j]) == keys[j];
    ListedByKeySpec(keys, iter, key);
    forall i | 0 <= i < |rank|
      ensures rank[i] in totals
    {
      assert rank[i] in iter;
    }
  }

  /** Every total of an id that was iterated is reached by one of the ids listed. */
  lemma FlippedListingCovers(totals: map<int, nat>, iter: seq<int>, k: int)
    requires forall i :: 0 <= i < |iter| ==> iter[i] in totals
    requires k in iter
    ensures exists i :: 0 <= i < |ListedByKey(Lookup(totals, iter), iter)| &&
              ListedByKey(Lookup(totals, iter), iter)[i] in totals &&
              totals[ListedByKey(Lookup(totals, iter), iter)[i]] == totals[k]
  {
    var keys := Lookup(totals, iter);
    var rank := ListedByKey(keys, iter);
    var key := (id: int) => Get(totals, id);
    assert forall j :: 0 <= j < |iter| ==> key(iter[j]) == keys[j];
    var j :| 0 <= j < |iter| && iter[j] == k;
    ListedByKeyReaches(keys, iter, key, j);
    var i :| 0 <= i < |rank| && rank[i] in iter && key(rank[i]) == keys[j];
  }

  /** Every rider id in the GC has a total, so some stored rider with that id has a result in the race. */
  lemma GcRankRacers(snap: Snap, raceId: int, hashOrder: seq<int>)
    requires ResultsFit(snap) && GcRank(snap, raceId, hashOrder).Ok?
    ensures forall i :: 0 <= i < |GcRank(snap, raceId, hashOrder).value| ==>
              GcRank(snap, raceId, hashOrder).value[i] in RaceTotals(snap, raceId) &&
              RacedIn(snap, StagesOf(snap, raceId), GcRank(snap, raceId, hashOrder).value[i])
  {
    var totals := RaceTotals(snap, raceId);
    FlippedListingOrdered(totals, InHashOrder(hashOrder, totals));
  }

  /**
   * The GC lists riders with a result in the race, in strictly ascending
   * order of total, so no rider twice; every total some rider reached is
   * listed, so the GC is empty exactly when nobody has a result in any of
   * the race's stages.
   */
  lemma GcRankOrdered(snap: Snap, raceId: int, hashOrder: seq<int>)
    requires ResultsFit(snap) && Enumerates(hashOrder, snap)
    requires GcRank(snap, raceId, hashOrder).Ok?
    ensures forall i :: 0 <= i < |GcRank(snap, raceId, hashOrder).value| ==>
              GcRank(snap, raceId, hashOrder).value[i] in RaceTotals(snap, raceId) &&
              RacedIn(snap, StagesOf(snap, raceId), GcRank(snap, raceId, hashOrder).value[i])
    ensures forall i, j :: 0 <= i < j < |GcRank(snap, raceId, hashOrder).value| ==>
              RaceTotals(snap, raceId)[GcRank(snap, raceId, hashOrder).value[i]] <
              RaceTotals(snap, raceId)[GcRank(snap, raceId, hashOrder).value[j]]
    ensures Distinct(GcRank(snap, raceId, hashOrder).value)
    ensures forall id :: id in RaceTotals(snap, raceId) ==>
              exists i :: 0 <= i < |GcRank(snap, raceId, hashOrder).value| &&
                          RaceTotals(snap, raceId)[GcRank(snap, raceId, hashOrder).value[i]] == RaceTotals(snap, raceId)[id]
    ensures GcRank(snap, raceId, hashOrder).value == [] <==> forall id :: !RacedIn(snap, StagesOf(snap, raceId), id)
  {
    var sids := StagesOf(snap, raceId);
    var totals := RaceTotals(snap, raceId);
    var iter := InHashOrder(hashOrder, totals);
    var rank := GcRank(snap, raceId, hashOrder).value;
    FlippedListingOrdered(totals, iter);
    forall k | k in totals
      ensures exists i :: 0 <= i < |rank| && totals[rank[i]] == totals[k]
    {
      var r :| r in snap.riders && r.id == k && RacedIn(snap, sids, r.id);
      assert k in hashOrder;
      FlippedListingCovers(totals, iter, k);
    }
    if rank != [] {
      assert rank[0] in totals;
    }
  }

  /**
   * Two different riders with the same GC total collide in the flipped
   * map: at most one of them is in the GC.
   */
  lemma GcTieCollapses(snap: Snap, raceId: int, hashOrder: seq<int>, a: int, b: int)
    requires ResultsFit(snap) && Enumerates(hashOrder, snap)
    requires GcRank(snap, raceId, hashOrder).Ok?
    requires a in RaceTotals(snap, raceId) && b in RaceTotals(snap, raceId)
    requires a != b && RaceTotals(snap, raceId)[a] == RaceTotals(snap, raceId)[b]
    ensures !(a in GcRank(snap, raceId, hashOrder).value && b in GcRank(snap, raceId, hashOrder).value)
  {
    GcRankOrdered(snap, raceId, hashOrder);
    AscendingSeparatesTies(GcRank(snap, raceId, hashOrder).value, RaceTotals(snap, raceId), a, b);
  }

  lemma AscendingSeparatesTies(rank: seq<int>, totals: map<int, nat>, a: int, b: int)
    requires forall i :: 0 <= i < |rank| ==> rank[i] in totals
    requires forall i, j :: 0 <= i < j < |rank| ==> totals[rank[i]] < totals[rank[j]]
    requires a != b && a in totals && b in totals && totals[a] == totals[b]
    ensures !(a in rank && b in rank)
  {
  }

  /**
   * A stored rider's seconds over the stages sids: in each stage it has a
   * result for, its own adjusted time truncated to whole seconds.
   */
  function SecondsOver(snap: Snap, sids: seq<int>, rider: Rider): nat
    requires ResultsFit(snap) && StagesKnown(snap, sids) && rider in snap.riders
    decreases |sids|
  {
    if |sids| == 0 then 0
    else
      var n := |sids| - 1;
      var sid := sids[n];
      assert sid in sids && forall s :: s in sids[..n] ==> s in sids;
      SecondsOver(snap, sids[..n], rider) + (if sid in rider.results then SecondOfDay(OwnAdjustedTime(snap, sid, rider)) else 0)
  }

  /** With unique ids, two stored riders with the same id are the same rider. */
  lemma SameIdSameRider(rs: seq<Rider>, r: Rider, q: Rider)
    requires UniqueRiderIds(rs) && r in rs && q in rs && r.id == q.id
    ensures r == q
  {
    var i :| 0 <= i < |rs| && rs[i] == r;
    var j :| 0 <= j < |rs| && rs[j] == q;
  }

  /** With unique ids, a stage's seconds hold each rider's own, and nothing for a rider without a result. */
  lemma StageSecondsOfRider(snap: Snap, sid: int, rider: Rider)
    requires ResultsFit(snap) && UniqueRiderIds(snap.riders)
    requires FindStage(snap.stages, sid).Some? && rider in snap.riders
    ensures Get(StageSeconds(snap, sid), rider.id) ==
            if sid in rider.results then SecondOfDay(OwnAdjustedTime(snap, sid, rider)) else 0
  {
    if sid in rider.results {
      StageSecondsOfRacer(snap, sid, rider);
    } else if rider.id in StageSeconds(snap, sid) {
      var q :| q in snap.riders && sid in q.results && q.id == rider.id;
      SameIdSameRider(snap.riders, q, rider);
    }
  }

  lemma StageSecondsOfRacer(snap: Snap, sid: int, rider: Rider)
    requires ResultsFit(snap) && UniqueRiderIds(snap.riders)
    requires FindStage(snap.stages, sid).Some? && rider in snap.riders && sid in rider.results
    ensures Get(StageSeconds(snap, sid), rider.id) == SecondOfDay(OwnAdjustedTime(snap, sid, rider))
  {
    var a := StageRiders(snap, sid);
    ApplicableUniqueIds(snap.riders, sid);
    var ids := IdsOf(a);
    RidersFound(snap, a);
    var secs := SecondsOf(snap, sid, a);
    var p :| 0 <= p < |a| && a[p] == rider;
    assert Distinct(ids);
    ColumnDistinct(ids, secs, p);
    FindRiderUnique(snap.riders, rider);
  }

  /**
   * With unique ids, a rider's GC total is the sum over the race's stages
   * of its adjusted time in each, truncated to whole seconds stage by stage.
   */
  lemma {:induction false} GcTotalIsSumOfSeconds(snap: Snap, sids: seq<int>, rider: Rider)
    requires ResultsFit(snap) && UniqueRiderIds(snap.riders) && rider in snap.riders
    requires GcTotals(snap, sids).Ok?
    ensures StagesKnown(snap, sids)
    ensures Get(GcTotals(snap, sids).value, rider.id) == SecondsOver(snap, sids, rider)
    decreases |sids|
  {
    if |sids| > 0 {
      var n := |sids| - 1;
      assert forall s :: s in sids[..n] ==> s in sids;
      assert sids[n] in sids;
      GcTotalIsSumOfSeconds(snap, sids[..n], rider);
      GetTally(GcTotals(snap, sids[..n]).value, StageSeconds(snap, sids[n]), rider.id);
      StageSecondsOfRider(snap, sids[n], rider);
    }
  }

  // ---- general classification times ----

  /** The rider's adjusted time in each of the stages sids, midnight (0) where the lookup fails. */
  function StageTimes(snap: Snap, sids: seq<int>, rid: int): (ts: seq<int>)
    requires ResultsFit(snap)
    ensures |ts| == |sids|
    ensures forall j :: 0 <= j < |sids| ==> 0 <= ts[j] < MicrosPerDay
  {
    seq(|sids|, j requires 0 <= j < |sids| =>
      if AdjustedElapsedTime(snap, sids[j], rid).Ok? then AdjustedElapsedTime(snap, sids[j], rid).value else 0)
  }

  /** The times that are not midnight, in order: the stream's filter. */
  function NonMidnight(ts: seq<int>): (r: seq<int>)
    ensures forall t :: t in r ==> t in ts && t != 0
    decreases |ts|
  {
    if |ts| == 0 then []
    else
      var n := |ts| - 1;
      NonMidnight(ts[..n]) + (if ts[n] != 0 then [ts[n]] else [])
  }

  /** The stream's reduce: from midnight, each time is added to the subtotal as a time of day. */
  function WrapSum(ts: seq<int>): (t: int)
    ensures 0 <= t < MicrosPerDay
    decreases |ts|
  {
    if |ts| == 0 then 0 else TimeOfDay(ts[|ts| - 1] + WrapSum(ts[..|ts| - 1]))
  }

  function Sum(ts: seq<int>): int
    decreases |ts|
  {
    if |ts| == 0 then 0 else Sum(ts[..|ts| - 1]) + ts[|ts| - 1]
  }

  /** Wrapping a subtotal into a day before adding to it does not change the wrapped result. */
  lemma WrapAbsorbs(x: int, y: int)
    ensures TimeOfDay(x + TimeOfDay(y)) == TimeOfDay(x + y)
  {
    var q := y / MicrosPerDay;
    assert y == q * MicrosPerDay + TimeOfDay(y);
    assert x + y == (x + TimeOfDay(y)) + q * MicrosPerDay;
    ModMultiple(x + TimeOfDay(y), q);
  }

  lemma ModMultiple(z: int, q: int)
    ensures (z + q * MicrosPerDay) % MicrosPerDay == z % MicrosPerDay
  {
    var d := MicrosPerDay;
    var r := z % d;
    var k := z / d;
    assert z == k * d + r;
    assert z + q * d == (k + q) * d + r;
  }

  lemma {:induction false} WrapSumIsSumOfDay(ts: seq<int>)
    ensures WrapSum(ts) == TimeOfDay(Sum(ts))
    decreases |ts|
  {
    if |ts| > 0 {
      var n := |ts| - 1;
      WrapSumIsSumOfDay(ts[..n]);
      WrapAbsorbs(ts[n], Sum(ts[..n]));
    }
  }

  lemma {:induction false} NonMidnightSum(ts: seq<int>)
    ensures Sum(NonMidnight(ts)) == Sum(ts)
    decreases |ts|
  {
    if |ts| > 0 {
      var n := |ts| - 1;
      NonMidnightSum(ts[..n]);
      var prev := NonMidnight(ts[..n]);
      if ts[n] != 0 {
        var full := prev + [ts[n]];
        assert NonMidnight(ts) == full;
        assert full[..|full| - 1] == prev;
        assert Sum(full) == Sum(prev) + ts[n];
      } else {
        assert NonMidnight(ts) == prev + [];
        assert prev + [] == prev;
      }
    }
  }

  /**
   * One rider's GC time: the midnight entries dropped and the rest summed
   * as times of day; it is the sum of all the times, wrapped into a day.
   */
  function GcTime(ts: seq<int>): (t: int)
    ensures t == TimeOfDay(Sum(ts))
  {
    WrapSumIsSumOfDay(NonMidnight(ts));
    NonMidnightSum(ts);
    WrapSum(NonMidnight(ts))
  }

  /** The GC times of the riders of rank, once each is known to be a stored rider. */
  function TimesOfRanked(snap: Snap, sids: seq<int>, rank: seq<int>): (ts: seq<int>)
    requires ResultsFit(snap)
    ensures |ts| == |rank|
    ensures forall i :: 0 <= i < |rank| ==> ts[i] == TimeOfDay(Sum(StageTimes(snap, sids, rank[i])))
  {
    seq(|rank|, i requires 0 <= i < |rank| => GcTime(StageTimes(snap, sids, rank[i])))
  }

  /**
   * getGeneralClassificationTimesInRace: for each rider of the GC, in GC
   * order, its adjusted times in the race's stages summed and wrapped into
   * a day. An unknown race or stage is an error; every GC rider is found,
   * so the rider lookup never fails.
   */
  function GcTimes(snap: Snap, raceId: int, hashOrder: seq<int>): (r: Result<seq<int>>)
    requires ResultsFit(snap)
    ensures r.Err? <==> GcRank(snap, raceId, hashOrder).Err?
    ensures r.Ok? ==> r.value == TimesOfRanked(snap, StagesOf(snap, raceId), GcRank(snap, raceId, hashOrder).value)
  {
    var g := GcRank(snap, raceId, hashOrder);
    if g.Err? then Err(g.error)
    else
      GcRankFound(snap, raceId, hashOrder);
      if exists i :: 0 <= i < |g.value| && FindRider(snap.riders, g.value[i]).None? then Err(IDNotRecognised)
      else Ok(TimesOfRanked(snap, StagesOf(snap, raceId), g.value))
  }

  /** Every rider id in the GC is found in the store. */
  lemma GcRankFound(snap: Snap, raceId: int, hashOrder: seq<int>)
    requires ResultsFit(snap) && GcRank(snap, raceId, hashOrder).Ok?
    ensures forall i :: 0 <= i < |GcRank(snap, raceId, hashOrder).value| ==>
              FindRider(snap.riders, GcRank(snap, raceId, hashOrder).value[i]).Some?
  {
    var rank := GcRank(snap, raceId, hashOrder).value;
    var sids := StagesOf(snap, raceId);
    GcRankRacers(snap, raceId, hashOrder);
    forall i | 0 <= i < |rank|
      ensures FindRider(snap.riders, rank[i]).Some?
    {
      var sid :| sid in sids && HasResult(snap, rank[i], sid);
      var r :| r in snap.riders && sid in r.results && r.id == rank[i];
    }
  }

  /**
   * With unique ids, a stored rider's times are its own adjusted times in
   * the stages it has a result for, and midnight in the others.
   */
  lemma StageTimesOfRider(snap: Snap, sids: seq<int>, rider: Rider)
    requires ResultsFit(snap) && UniqueRiderIds(snap.riders) && rider in snap.riders
    requires StagesKnown(snap, sids)
    ensures forall j :: 0 <= j < |sids| ==>
              StageTimes(snap, sids, rider.id)[j] ==
              if sids[j] in rider.results then OwnAdjustedTime(snap, sids[j], rider) else 0
  {
    FindRiderUnique(snap.riders, rider);
    forall j | 0 <= j < |sids|
      ensures FindStage(snap.stages, sids[j]).Some?
    {
      assert sids[j] in sids;
    }
  }

  // ---- points and mountain points over the race ----

  /** A stage's points per ranked rider: its mountain points when mountain, otherwise its stage points. */
  function StagePointsOf(snap: Snap, sid: int, mountain: bool): (r: Result<seq<nat>>)
    requires ResultsFit(snap)
    ensures r.Ok? ==> |r.value| == |RankedRiders(snap, sid)|
  {
    if mountain then SegmentPointsInStage(snap, sid, true) else PointsInStage(snap, sid)
  }

  /** One stage's points summed per ranked rider's id: an entry for every rider with a result. */
  function StagePointColumn(snap: Snap, sid: int, pts: seq<nat>): (c: map<int, nat>)
    requires ResultsFit(snap) && |pts| == |RankedRiders(snap, sid)|
    ensures forall id :: id in c <==> HasResult(snap, id, sid)
  {
    var ranked := RankedRiders(snap, sid);
    IdsOfMembers(ranked);
    Column(IdsOf(ranked), pts)
  }

  /** The points (mountain points when mountain) of every stage of sids can be computed. */
  predicate PointsKnown(snap: Snap, sids: seq<int>, mountain: bool)
    requires ResultsFit(snap)
  {
    forall sid :: sid in sids ==> StagePointsOf(snap, sid, mountain).Ok?
  }

  /**
   * The points (mountain points when mountain) summed over the stages
   * sids: every rider with a result in one of them has a total. A stage
   * whose points cannot be computed makes the whole sum an error.
   */
  function RacePointTotals(snap: Snap, sids: seq<int>, mountain: bool): (r: Result<map<int, nat>>)
    requires ResultsFit(snap)
    ensures r.Err? <==> !PointsKnown(snap, sids, mountain)
    ensures r.Ok? ==> forall id :: id in r.value <==> RacedIn(snap, sids, id)
    decreases |sids|
  {
    if |sids| == 0 then Ok(map[])
    else
      var n := |sids| - 1;
      var prev := RacePointTotals(snap, sids[..n], mountain);
      assert forall sid :: sid in sids <==> sid in sids[..n] || sid == sids[n];
      if prev.Err? then Err(IDNotRecognised)
      else if StagePointsOf(snap, sids[n], mountain).Err? then Err(IDNotRecognised)
      else Ok(Tally(prev.value, StagePointColumn(snap, sids[n], StagePointsOf(snap, sids[n], mountain).value)))
  }

  /** One more stage: points that cannot be computed make the sum an error, others are added. */
  lemma RacePointTotalsStep(snap: Snap, sids: seq<int>, mountain: bool, j: nat)
    requires ResultsFit(snap) && j < |sids| && RacePointTotals(snap, sids[..j], mountain).Ok?
    ensures StagePointsOf(snap, sids[j], mountain).Err? ==> RacePointTotals(snap, sids, mountain).Err?
    ensures StagePointsOf(snap, sids[j], mountain).Ok? ==>
              RacePointTotals(snap, sids[..j + 1], mountain) ==
              Ok(Tally(RacePointTotals(snap, sids[..j], mountain).value,
                       StagePointColumn(snap, sids[j], StagePointsOf(snap, sids[j], mountain).value)))
  {
    assert sids[..j + 1][..j] == sids[..j];
    assert sids[j] in sids;
  }

  /**
   * The portal's loop over the race's stages: each ranked rider's points
   * in the stage are added to its running total, a missing total first
   * put as 0.
   */
  method AccumulateRacePoints(snap: Snap, sids: seq<int>, mountain: bool) returns (r: Result<map<int, nat>>)
    requires ResultsFit(snap)
    ensures r == RacePointTotals(snap, sids, mountain)
  {
    var riderPoints: map<int, nat> := map[];
    var j := 0;
    while j < |sids|
      invariant 0 <= j <= |sids|
      invariant RacePointTotals(snap, sids[..j], mountain) == Ok(riderPoints)
    {
      RacePointTotalsStep(snap, sids, mountain, j);
      var pts := StagePointsOf(snap, sids[j], mountain);
      if pts.Err? {
        return Err(IDNotRecognised);
      }
      var ridersInStage := IdsOf(RankedRiders(snap, sids[j]));
      assert StagePointColumn(snap, sids[j], pts.value) == Column(ridersInStage, pts.value);
      riderPoints := AddColumn(riderPoints, ridersInStage, pts.value);
      j := j + 1;
    }
    assert sids[..|sids|] == sids;
    return Ok(riderPoints);
  }

  /** Every GC rider has a points total: both are kept for exactly the riders with a result in the race. */
  lemma GcRidersHavePoints(snap: Snap, raceId: int, hashOrder: seq<int>, mountain: bool)
    requires ResultsFit(snap) && GcRank(snap, raceId, hashOrder).Ok?
    requires RacePointTotals(snap, StagesOf(snap, raceId), mountain).Ok?
    ensures forall i :: 0 <= i < |GcRank(snap, raceId, hashOrder).value| ==>
              GcRank(snap, raceId, hashOrder).value[i] in RacePointTotals(snap, StagesOf(snap, raceId), mountain).value
  {
    GcRankRacers(snap, raceId, hashOrder);
  }

  /**
   * getRidersPointsInRace (mountain false) and getRidersMountainPointsInRace
   * (mountain true): each GC rider's points summed over the race's stages,
   * in GC order. An unknown race or stage, or a stage whose points cannot
   * be computed, is an error; every GC rider has a total, so the final
   * lookup never comes back empty.
   */
  function RacePoints(snap: Snap, raceId: int, mountain: bool, hashOrder: seq<int>): (r: Result<seq<nat>>)
    requires ResultsFit(snap)
    ensures r.Err? <==> GcRank(snap, raceId, hashOrder).Err? ||
                        RacePointTotals(snap, StagesOf(snap, raceId), mountain).Err?
    ensures r.Err? ==> r.error == IDNotRecognised
    ensures r.Ok? ==> |r.value| == |GcRank(snap, raceId, hashOrder).value|
    ensures r.Ok? ==> forall i :: 0 <= i < |r.value| ==>
              r.value[i] == Get(RacePointTotals(snap, StagesOf(snap, raceId), mountain).value,
                                GcRank(snap, raceId, hashOrder).value[i])
  {
    var g := GcRank(snap, raceId, hashOrder);
    if g.Err? then Err(IDNotRecognised)
    else
      var t := RacePointTotals(snap, StagesOf(snap, raceId), mountain);
      if t.Err? then Err(IDNotRecognised)
      else
        GcRidersHavePoints(snap, raceId, hashOrder, mountain);
        Ok(Lookup(t.value, g.value))
  }
}
