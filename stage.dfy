/**
 * Scoring of one stage: adjusted elapsed times, the stage rank, the points
 * for the finish and for each segment, all read from a snapshot of the
 * store. Results are keyed by rider id; the store keeps rider ids unique.
 */
module StageScoring {
  import opened CyclingTypes
  import opened Points
  import opened KeyedSort
  import opened Adjustment
  import opened Totals

  // ---- what the scorer relies on in the store ----

  predicate UniqueRiderIds(rs: seq<Rider>)
  {
    forall i, j :: 0 <= i < j < |rs| ==> rs[i].id != rs[j].id
  }

  /**
   * Every stored result belongs to a known stage and holds one time per
   * segment of that stage, plus the start and the finish.
   */
  predicate ResultsFit(snap: Snap)
  {
    forall r, sid :: r in snap.riders && sid in r.results ==> ResultFits(snap.stages, r, sid)
  }

  /** The checkpoint list of rider r for stage sid has the length that stage needs. */
  predicate ResultFits(stages: seq<Stage>, r: Rider, sid: int)
    requires sid in r.results
  {
    FindStage(stages, sid).Some? && |r.results[sid]| == |FindStage(stages, sid).value.segments| + 2
  }

  // ---- riders with a result ----

  function Finish(cps: seq<int>): int
    requires cps != []
  {
    cps[|cps| - 1]
  }

  /** The riders with a result for stage sid, in the store's order. */
  function Applicable(rs: seq<Rider>, sid: int): (a: seq<Rider>)
    ensures |a| <= |rs|
    ensures forall r :: r in a <==> r in rs && sid in r.results
  {
    if rs == [] then []
    else if sid in rs[0].results then [rs[0]] + Applicable(rs[1..], sid)
    else Applicable(rs[1..], sid)
  }

  /** Every rider in a has a start and a finish for stage sid. */
  predicate Timed(a: seq<Rider>, sid: int)
  {
    forall r :: r in a ==> sid in r.results && |r.results[sid]| >= 2
  }

  lemma ApplicableTimed(snap: Snap, sid: int)
    requires ResultsFit(snap)
    ensures Timed(Applicable(snap.riders, sid), sid)
  {
    forall r | r in Applicable(snap.riders, sid)
      ensures sid in r.results && |r.results[sid]| >= 2
    {
      assert r in snap.riders && sid in r.results;
      assert ResultFits(snap.stages, r, sid);
    }
  }

  /** The riders of stage sid, each with a start and a finish. */
  function StageRiders(snap: Snap, sid: int): (a: seq<Rider>)
    requires ResultsFit(snap)
    ensures Timed(a, sid)
    ensures forall r :: r in a <==> r in snap.riders && sid in r.results
  {
    ApplicableTimed(snap, sid);
    Applicable(snap.riders, sid)
  }

  function Finishes(a: seq<Rider>, sid: int): (fs: seq<int>)
    requires Timed(a, sid)
    ensures |fs| == |a|
    ensures forall i :: 0 <= i < |a| ==> fs[i] == Finish(a[i].results[sid])
  {
    seq(|a|, i requires 0 <= i < |a| => Finish(a[i].results[sid]))
  }

  /** Microseconds from start to finish (MICROS.between), the stage rank's raw key. */
  function RawTimes(a: seq<Rider>, sid: int): (raw: seq<int>)
    requires Timed(a, sid)
    ensures |raw| == |a|
    ensures forall i :: 0 <= i < |a| ==> raw[i] == Finish(a[i].results[sid]) - a[i].results[sid][0]
  {
    seq(|a|, i requires 0 <= i < |a| => Finish(a[i].results[sid]) - a[i].results[sid][0])
  }

  lemma FinishScanned(a: seq<Rider>, sid: int, r: Rider)
    requires Timed(a, sid) && r in a
    ensures Finish(r.results[sid]) in Finishes(a, sid)
  {
    var i :| 0 <= i < |a| && a[i] == r;
    assert Finishes(a, sid)[i] == Finish(r.results[sid]);
  }

  // ---- adjusted elapsed time ----

  /**
   * The finish a rider's adjusted time is measured to, on a stage that is
   * not a time trial: one of the stage riders' finishes, no later than the
   * rider's own, and earlier than it exactly when some stage rider finished
   * 1 to 999 whole ms ahead of the rider.
   */
  function SettledFinish(snap: Snap, sid: int, rider: Rider): (t: int)
    requires ResultsFit(snap)
    requires rider in snap.riders && sid in rider.results
    ensures t in Finishes(StageRiders(snap, sid), sid)
    ensures t <= Finish(rider.results[sid])
    ensures t < Finish(rider.results[sid]) <==>
              exists f :: f in Finishes(StageRiders(snap, sid), sid) && InRange(Finish(rider.results[sid]), f)
  {
    var a := StageRiders(snap, sid);
    FinishScanned(a, sid, rider);
    SettleLowers(Finish(rider.results[sid]), Finishes(a, sid));
    Settle(Finish(rider.results[sid]), Finishes(a, sid))
  }

  /**
   * The adjusted elapsed time of a rider with a result: on a time trial
   * exactly the rider's own finish minus start, whatever the other riders
   * did; on any other stage the settled finish minus the rider's own start.
   * The duration becomes a time of day, so it wraps at 24 hours.
   */
  function OwnAdjustedTime(snap: Snap, sid: int, rider: Rider): (t: int)
    requires ResultsFit(snap) && FindStage(snap.stages, sid).Some?
    requires rider in snap.riders && sid in rider.results
    ensures 0 <= t < MicrosPerDay
  {
    assert ResultFits(snap.stages, rider, sid);
    var cps := rider.results[sid];
    if FindStage(snap.stages, sid).value.kind == TT then TimeOfDay(Finish(cps) - cps[0])
    else TimeOfDay(SettledFinish(snap, sid, rider) - cps[0])
  }

  /**
   * getRiderAdjustedElapsedTimeInStage: an unknown stage or rider is an
   * error; a rider without a result gets midnight (0); a rider with one
   * gets its own adjusted time.
   */
  function AdjustedElapsedTime(snap: Snap, sid: int, rid: int): (r: Result<int>)
    requires ResultsFit(snap)
    ensures r.Err? <==> FindStage(snap.stages, sid).None? || FindRider(snap.riders, rid).None?
    ensures r.Err? ==> r.error == IDNotRecognised
    ensures r.Ok? ==> 0 <= r.value < MicrosPerDay
    ensures r.Ok? && sid !in FindRider(snap.riders, rid).value.results ==> r.value == 0
    ensures r.Ok? && sid in FindRider(snap.riders, rid).value.results ==>
              r.value == OwnAdjustedTime(snap, sid, FindRider(snap.riders, rid).value)
  {
    match FindStage(snap.stages, sid)
    case None => Err(IDNotRecognised)
    case Some(stage) =>
      match FindRider(snap.riders, rid)
      case None => Err(IDNotRecognised)
      case Some(rider) =>
        if sid !in rider.results then Ok(0)
        else Ok(OwnAdjustedTime(snap, sid, rider))
  }

  /**
   * A rider's adjusted elapsed time is its raw elapsed time (as a time of
   * day) on a time trial, and also on any other stage where nobody finished
   * 1 to 999 whole ms ahead of it.
   */
  lemma OwnFinishKeptUnlessClose(snap: Snap, sid: int, rider: Rider)
    requires ResultsFit(snap) && FindStage(snap.stages, sid).Some?
    requires rider in snap.riders && sid in rider.results
    requires FindStage(snap.stages, sid).value.kind == TT ||
             forall f :: f in Finishes(StageRiders(snap, sid), sid) ==> !InRange(Finish(rider.results[sid]), f)
    ensures |rider.results[sid]| >= 2
    ensures OwnAdjustedTime(snap, sid, rider) == TimeOfDay(Finish(rider.results[sid]) - rider.results[sid][0])
  {
    assert ResultFits(snap.stages, rider, sid);
    if FindStage(snap.stages, sid).value.kind != TT {
      var fs := Finishes(StageRiders(snap, sid), sid);
      FinishScanned(StageRiders(snap, sid), sid, rider);
      SettleLowers(Finish(rider.results[sid]), fs);
    }
  }

  /**
   * Off a time trial, a rider who finished less than a second (1 to 999
   * whole ms) behind someone is measured to a strictly earlier stage finish.
   */
  lemma CloseFinishIsEarlier(snap: Snap, sid: int, rider: Rider, f: int)
    requires ResultsFit(snap) && FindStage(snap.stages, sid).Some?
    requires rider in snap.riders && sid in rider.results
    requires FindStage(snap.stages, sid).value.kind != TT
    requires f in Finishes(StageRiders(snap, sid), sid) && InRange(Finish(rider.results[sid]), f)
    ensures |rider.results[sid]| >= 2
    ensures OwnAdjustedTime(snap, sid, rider) == TimeOfDay(SettledFinish(snap, sid, rider) - rider.results[sid][0])
    ensures SettledFinish(snap, sid, rider) < Finish(rider.results[sid])
  {
    assert ResultFits(snap.stages, rider, sid);
  }

  // ---- stage rank ----

  function IdsOf(rs: seq<Rider>): (ids: seq<int>)
    ensures |ids| == |rs|
    ensures forall i :: 0 <= i < |rs| ==> ids[i] == rs[i].id
  {
    seq(|rs|, i requires 0 <= i < |rs| => rs[i].id)
  }

  /**
   * Positions in StageRiders in rank order: by raw elapsed time, each
   * rider's microseconds from start to finish, moved up 1 µs at a time past
   * the keys of the riders scanned before it.
   */
  function RankOrder(snap: Snap, sid: int): (order: seq<nat>)
    requires ResultsFit(snap)
    ensures |order| == |StageRiders(snap, sid)|
    ensures forall i :: 0 <= i < |order| ==> order[i] < |order|
    ensures forall p :: 0 <= p < |order| ==> p in order
    ensures Distinct(order)
  {
    BumpedOrder(RawTimes(StageRiders(snap, sid), sid))
  }

  /** The riders with a result for the stage, in rank order. */
  function RankedRiders(snap: Snap, sid: int): (ranked: seq<Rider>)
    requires ResultsFit(snap)
    ensures |ranked| == |StageRiders(snap, sid)|
    ensures forall i :: 0 <= i < |ranked| ==> ranked[i] == StageRiders(snap, sid)[RankOrder(snap, sid)[i]]
    ensures forall r :: r in ranked <==> r in snap.riders && sid in r.results
    ensures Timed(ranked, sid)
  {
    var a := StageRiders(snap, sid);
    var order := RankOrder(snap, sid);
    PermuteKeepsElements(a, order);
    Permute(a, order)
  }

  /** getRidersRankInStage: the ids of the ranked riders; an unknown stage is an error. */
  function RankInStage(snap: Snap, sid: int): (r: Result<seq<int>>)
    requires ResultsFit(snap)
    ensures r.Err? <==> FindStage(snap.stages, sid).None?
    ensures r.Ok? ==> r.value == IdsOf(RankedRiders(snap, sid))
  {
    if FindStage(snap.stages, sid).None? then Err(IDNotRecognised)
    else Ok(IdsOf(RankedRiders(snap, sid)))
  }

  lemma ApplicableUniqueIds(rs: seq<Rider>, sid: int)
    requires UniqueRiderIds(rs)
    ensures UniqueRiderIds(Applicable(rs, sid))
  {
    if rs != [] {
      ApplicableUniqueIds(rs[1..], sid);
      assert forall r :: r in rs[1..] ==> r.id != rs[0].id;
    }
  }

  lemma RankedUniqueIds(snap: Snap, sid: int)
    requires ResultsFit(snap) && UniqueRiderIds(snap.riders)
    ensures UniqueRiderIds(RankedRiders(snap, sid))
  {
    ApplicableUniqueIds(snap.riders, sid);
    var a := StageRiders(snap, sid);
    var order := RankOrder(snap, sid);
    var ranked := RankedRiders(snap, sid);
    forall i, j | 0 <= i < j < |ranked|
      ensures ranked[i].id != ranked[j].id
    {
      assert order[i] != order[j];
    }
  }

  /**
   * The stage rank lists each rider with a result exactly once, and no one
   * else; it is empty exactly when nobody has a result for the stage.
   */
  lemma RankIsPermutation(snap: Snap, sid: int)
    requires ResultsFit(snap) && UniqueRiderIds(snap.riders)
    requires FindStage(snap.stages, sid).Some?
    ensures Distinct(RankInStage(snap, sid).value)
    ensures forall r :: r in snap.riders && sid in r.results ==> r.id in RankInStage(snap, sid).value
    ensures forall id :: id in RankInStage(snap, sid).value ==> exists r :: r in snap.riders && sid in r.results && r.id == id
    ensures RankInStage(snap, sid).value == [] <==> forall r :: r in snap.riders ==> sid !in r.results
  {
    RankedUniqueIds(snap, sid);
    RankListsEveryRider(snap, sid);
    RankListsOnlyRiders(snap, sid);
    var ranked := RankedRiders(snap, sid);
    if ranked != [] {
      assert ranked[0] in snap.riders && sid in ranked[0].results;
    }
  }

  lemma RankListsEveryRider(snap: Snap, sid: int)
    requires ResultsFit(snap)
    ensures forall r :: r in snap.riders && sid in r.results ==> r.id in IdsOf(RankedRiders(snap, sid))
  {
    var ranked := RankedRiders(snap, sid);
    forall r | r in snap.riders && sid in r.results
      ensures r.id in IdsOf(ranked)
    {
      var i :| 0 <= i < |ranked| && ranked[i] == r;
      assert IdsOf(ranked)[i] == r.id;
    }
  }

  lemma RankListsOnlyRiders(snap: Snap, sid: int)
    requires ResultsFit(snap)
    ensures forall id :: id in IdsOf(RankedRiders(snap, sid)) ==> exists r :: r in snap.riders && sid in r.results && r.id == id
  {
    var ranked := RankedRiders(snap, sid);
    forall id | id in IdsOf(ranked)
      ensures exists r :: r in snap.riders && sid in r.results && r.id == id
    {
      var i :| 0 <= i < |ranked| && IdsOf(ranked)[i] == id;
      assert ranked[i] in ranked;
    }
  }

  /**
   * Of two riders scanned in store order whose raw elapsed times are in
   * that order too (in particular an exact tie), the earlier-scanned one is
   * ranked first.
   */
  lemma RankKeepsScanOrderOnTies(snap: Snap, sid: int, i: nat, k: nat)
    requires ResultsFit(snap)
    requires i < |RankedRiders(snap, sid)| && k < |RankedRiders(snap, sid)|
    requires RankOrder(snap, sid)[i] < RankOrder(snap, sid)[k]
    requires RawTimes(StageRiders(snap, sid), sid)[RankOrder(snap, sid)[i]] <= RawTimes(StageRiders(snap, sid), sid)[RankOrder(snap, sid)[k]]
    ensures i < k
  {
    ScanOrderBreaksTies(RawTimes(StageRiders(snap, sid), sid), i, k);
  }

  // ---- segment points ----

  /** Segment ids resolved against the store; None when any id is unknown. */
  function ResolveSegments(ids: seq<int>, segments: seq<Segment>): (r: Option<seq<Segment>>)
    ensures r.None? <==> exists id :: id in ids && FindSegment(segments, id).None?
    ensures r.Some? ==> |r.value| == |ids|
    ensures r.Some? ==> forall i :: 0 <= i < |ids| ==> FindSegment(segments, ids[i]) == Some(r.value[i])
  {
    if ids == [] then Some([])
    else
      match FindSegment(segments, ids[0])
      case None => None
      case Some(seg) =>
        match ResolveSegments(ids[1..], segments)
        case None =>
          None
        case Some(rest) =>
          assert forall id :: id in ids ==> id == ids[0] || id in ids[1..];
          Some([seg] + rest)
  }

  /** Every ranked rider has a time at checkpoints k and k + 1. */
  predicate ReachesCheckpoint(ranked: seq<Rider>, sid: int, k: nat)
  {
    forall r :: r in ranked ==> sid in r.results && k + 1 < |r.results[sid]|
  }

  /**
   * The points of one segment (the k-th): riders are keyed by the duration
   * from checkpoint k to k + 1, with no tie bump, so of riders with equal
   * durations only the last one put survives; the survivors are listed by
   * duration and the i-th gets SegmentPoints(kind, i).
   */
  function SegmentAward(ranked: seq<Rider>, sid: int, k: nat, kind: SegmentType): (award: map<int, nat>)
    requires ReachesCheckpoint(ranked, sid, k)
    ensures forall id :: id in award ==> award[id] <= 20
    ensures forall id :: id in award ==> id in IdsOf(ranked)
  {
    var durations := SegmentDurations(ranked, sid, k);
    var ids := IdsOf(ranked);
    var order := ListedByKey(durations, ids);
    var points := PointsByRank(kind, |order|);
    ListedByKeyFromVals(durations, ids);
    PutAllBounded(order, points, 20);
    PutAll(order, points)
  }

  /** SegmentPoints(kind, i) for the ranks i = 0 .. n - 1. */
  function PointsByRank(kind: SegmentType, n: nat): (p: seq<nat>)
    ensures |p| == n
    ensures forall i :: 0 <= i < n ==> p[i] == SegmentPoints(kind, i) && p[i] <= 20
  {
    seq(n, i requires 0 <= i < n => SegmentPoints(kind, i))
  }

  /**
   * The portal's segment lookup succeeds for every rank below n exactly
   * when n is at most 15, and there it gives the points PointsByRank
   * lists; a 16th distinct duration makes it fail.
   */
  lemma PointsByRankAgreesUpToFifteen(kind: SegmentType, n: nat)
    ensures (forall i :: 0 <= i < n ==> SegmentPointsAsWritten(kind, i).Some?) <==> n <= TableSize
    ensures n <= TableSize ==> forall i :: 0 <= i < n ==> SegmentPointsAsWritten(kind, i) == Some(PointsByRank(kind, n)[i])
  {
    if n > TableSize {
      assert SegmentPointsAsWritten(kind, TableSize).None?;
    }
  }

  function SegmentDurations(ranked: seq<Rider>, sid: int, k: nat): (d: seq<int>)
    requires ReachesCheckpoint(ranked, sid, k)
    ensures |d| == |ranked|
    ensures forall i :: 0 <= i < |ranked| ==> d[i] == ranked[i].results[sid][k + 1] - ranked[i].results[sid][k]
  {
    seq(|ranked|, i requires 0 <= i < |ranked| => ranked[i].results[sid][k + 1] - ranked[i].results[sid][k])
  }

  /** A segment of this kind scores for the mountain classification (mountain) or for the sprints (!mountain). */
  predicate Counted(kind: SegmentType, mountain: bool)
  {
    if mountain then kind != Sprint else kind == Sprint
  }

  function KindsOf(segs: seq<Segment>): (kinds: seq<SegmentType>)
    ensures |kinds| == |segs|
    ensures forall j :: 0 <= j < |segs| ==> kinds[j] == segs[j].kind
  {
    seq(|segs|, j requires 0 <= j < |segs| => segs[j].kind)
  }

  /** The award of each segment of the stage, in the stage's order. */
  function Awards(segs: seq<Segment>, ranked: seq<Rider>, sid: int): (awards: seq<map<int, nat>>)
    requires segs == [] || ReachesCheckpoint(ranked, sid, |segs| - 1)
    ensures |awards| == |segs|
    ensures forall j :: 0 <= j < |segs| ==> awards[j] == SegmentAward(ranked, sid, j, segs[j].kind)
  {
    seq(|segs|, j requires 0 <= j < |segs| => SegmentAward(ranked, sid, j, segs[j].kind))
  }

  /** The awards of the segments whose kind is counted, summed per rider id. */
  function CountedTotals(awards: seq<map<int, nat>>, kinds: seq<SegmentType>, mountain: bool): (t: map<int, nat>)
    requires |awards| == |kinds|
    ensures (forall j :: 0 <= j < |kinds| ==> !Counted(kinds[j], mountain)) ==> t == map[]
  {
    if awards == [] then map[]
    else
      var n := |awards| - 1;
      var prev := CountedTotals(awards[..n], kinds[..n], mountain);
      if Counted(kinds[n], mountain) then Tally(prev, awards[n]) else prev
  }

  /** Counting one more award extends the totals of the awards before it. */
  lemma CountedTotalsStep(awards: seq<map<int, nat>>, kinds: seq<SegmentType>, mountain: bool, j: nat)
    requires |awards| == |kinds| && j < |awards|
    ensures CountedTotals(awards[..j + 1], kinds[..j + 1], mountain) ==
            if Counted(kinds[j], mountain) then Tally(CountedTotals(awards[..j], kinds[..j], mountain), awards[j])
            else CountedTotals(awards[..j], kinds[..j], mountain)
  {
    assert awards[..j + 1][..j] == awards[..j] && kinds[..j + 1][..j] == kinds[..j];
  }

  /** A rider's points over all the awards. */
  function SumFor(awards: seq<map<int, nat>>, id: int): nat
  {
    if awards == [] then 0 else SumFor(awards[..|awards| - 1], id) + Get(awards[|awards| - 1], id)
  }

  lemma MulSucc(cap: nat, n: nat)
    ensures cap * n + cap == cap * (n + 1)
  {
  }

  /** Every award goes to one of ids and is at most cap. */
  predicate AwardsWithin(awards: seq<map<int, nat>>, ids: seq<int>, cap: nat)
  {
    forall j, id :: 0 <= j < |awards| && id in awards[j] ==> id in ids && awards[j][id] <= cap
  }

  lemma AwardsWithinPrefix(awards: seq<map<int, nat>>, ids: seq<int>, cap: nat, n: nat)
    requires AwardsWithin(awards, ids, cap) && n <= |awards|
    ensures AwardsWithin(awards[..n], ids, cap)
  {
    forall j, id | 0 <= j < n && id in awards[..n][j]
      ensures id in ids && awards[..n][j][id] <= cap
    {
      assert awards[..n][j] == awards[j];
    }
  }

  /** Totals only hold riders some award holds, and at most cap per award. */
  lemma {:induction false} CountedTotalsBounded(awards: seq<map<int, nat>>, kinds: seq<SegmentType>, mountain: bool,
                                                ids: seq<int>, cap: nat)
    requires |awards| == |kinds| && AwardsWithin(awards, ids, cap)
    ensures forall id :: id in CountedTotals(awards, kinds, mountain) ==>
              id in ids && CountedTotals(awards, kinds, mountain)[id] <= cap * |awards|
  {
    if awards != [] {
      var n := |awards| - 1;
      AwardsWithinPrefix(awards, ids, cap, n);
      CountedTotalsBounded(awards[..n], kinds[..n], mountain, ids, cap);
      MulSucc(cap, n);
      var prev := CountedTotals(awards[..n], kinds[..n], mountain);
      forall id | id in Tally(prev, awards[n])
        ensures id in ids && Tally(prev, awards[n])[id] <= cap * |awards|
      {
      }
    }
  }

  /**
   * Every segment counts for exactly one of the two: a rider's mountain
   * points and sprint points together are all the segment points it won.
   */
  lemma {:induction false} MountainAndSprintSplitAwards(awards: seq<map<int, nat>>, kinds: seq<SegmentType>, id: int)
    requires |awards| == |kinds|
    ensures Get(CountedTotals(awards, kinds, true), id) + Get(CountedTotals(awards, kinds, false), id) == SumFor(awards, id)
  {
    if awards != [] {
      var n := |awards| - 1;
      MountainAndSprintSplitAwards(awards[..n], kinds[..n], id);
      if kinds[n] == Sprint {
        GetTally(CountedTotals(awards[..n], kinds[..n], false), awards[n], id);
      } else {
        GetTally(CountedTotals(awards[..n], kinds[..n], true), awards[n], id);
      }
    }
  }

  /** The mountain (mountain) or sprint (!mountain) points of the stage's segments, summed per rider id. */
  function SegmentTotals(segs: seq<Segment>, ranked: seq<Rider>, sid: int, mountain: bool): (t: map<int, nat>)
    requires segs == [] || ReachesCheckpoint(ranked, sid, |segs| - 1)
    ensures forall id :: id in t ==> id in IdsOf(ranked) && t[id] <= 20 * |segs|
    ensures (forall j :: 0 <= j < |segs| ==> !Counted(segs[j].kind, mountain)) ==> t == map[]
  {
    var awards := Awards(segs, ranked, sid);
    CountedTotalsBounded(awards, KindsOf(segs), mountain, IdsOf(ranked), 20);
    CountedTotals(awards, KindsOf(segs), mountain)
  }

  /** Every rider ranked in stage sid has one time per segment of the stage, plus start and finish. */
  lemma RankedCoverSegments(snap: Snap, sid: int)
    requires ResultsFit(snap) && FindStage(snap.stages, sid).Some?
    ensures forall r :: r in RankedRiders(snap, sid) ==>
              sid in r.results && |r.results[sid]| == |FindStage(snap.stages, sid).value.segments| + 2
  {
    forall r | r in RankedRiders(snap, sid)
      ensures sid in r.results && |r.results[sid]| == |FindStage(snap.stages, sid).value.segments| + 2
    {
      assert r in snap.riders && sid in r.results;
      assert ResultFits(snap.stages, r, sid);
    }
  }

  /**
   * getRidersSegmentPointsInStage: the mountain (mountain) or sprint
   * (!mountain) points of each ranked rider, in rank order. An unknown
   * stage or a segment id the store does not know is an error; a rider
   * who won nothing gets 0.
   */
  function SegmentPointsInStage(snap: Snap, sid: int, mountain: bool): (r: Result<seq<nat>>)
    requires ResultsFit(snap)
    ensures r.Err? <==> FindStage(snap.stages, sid).None? ||
                        ResolveSegments(FindStage(snap.stages, sid).value.segments, snap.segments).None?
    ensures r.Err? ==> r.error == IDNotRecognised
    ensures r.Ok? ==> |r.value| == |RankedRiders(snap, sid)|
    ensures r.Ok? ==> forall i :: 0 <= i < |r.value| ==> r.value[i] <= 20 * |FindStage(snap.stages, sid).value.segments|
  {
    if FindStage(snap.stages, sid).None? then Err(IDNotRecognised)
    else if ResolveSegments(FindStage(snap.stages, sid).value.segments, snap.segments).None? then Err(IDNotRecognised)
    else
      var segs := StageSegments(snap, sid);
      var ranked := RankedRiders(snap, sid);
      RankedCoverSegments(snap, sid);
      Ok(TotalsOf(ranked, SegmentTotals(segs, ranked, sid, mountain), 20 * |segs|))
  }

  /** Each rider's total, in the riders' order; 0 for a rider without one. */
  function TotalsOf(riders: seq<Rider>, totals: map<int, nat>, cap: nat): (p: seq<nat>)
    requires forall id :: id in totals ==> totals[id] <= cap
    ensures |p| == |riders|
    ensures forall i :: 0 <= i < |riders| ==> p[i] == Get(totals, riders[i].id) && p[i] <= cap
  {
    seq(|riders|, i requires 0 <= i < |riders| => Get(totals, riders[i].id))
  }

  /** The stage's segments, resolved; defined when SegmentPointsInStage succeeds. */
  function StageSegments(snap: Snap, sid: int): (segs: seq<Segment>)
    requires FindStage(snap.stages, sid).Some?
    requires ResolveSegments(FindStage(snap.stages, sid).value.segments, snap.segments).Some?
    ensures |segs| == |FindStage(snap.stages, sid).value.segments|
  {
    ResolveSegments(FindStage(snap.stages, sid).value.segments, snap.segments).value
  }

  /** The award of each segment of a stage whose segments resolve. */
  function StageAwards(snap: Snap, sid: int): (awards: seq<map<int, nat>>)
    requires ResultsFit(snap) && FindStage(snap.stages, sid).Some?
    requires ResolveSegments(FindStage(snap.stages, sid).value.segments, snap.segments).Some?
    ensures |awards| == |StageSegments(snap, sid)|
  {
    RankedCoverSegments(snap, sid);
    Awards(StageSegments(snap, sid), RankedRiders(snap, sid), sid)
  }

  /** The i-th entry of the segment points is the i-th ranked rider's total, 0 when it has none. */
  lemma SegmentPointsEntry(snap: Snap, sid: int, mountain: bool, i: nat)
    requires ResultsFit(snap)
    requires SegmentPointsInStage(snap, sid, mountain).Ok? && i < |RankedRiders(snap, sid)|
    ensures SegmentPointsInStage(snap, sid, mountain).value[i] ==
            Get(CountedTotals(StageAwards(snap, sid), KindsOf(StageSegments(snap, sid)), mountain), RankedRiders(snap, sid)[i].id)
  {
    RankedCoverSegments(snap, sid);
  }

  /**
   * A rider's mountain points and sprint points in a stage add up to the
   * points of all the stage's segment awards.
   */
  lemma StagePointsSplitBySegmentKind(snap: Snap, sid: int, i: nat)
    requires ResultsFit(snap)
    requires SegmentPointsInStage(snap, sid, true).Ok? && i < |RankedRiders(snap, sid)|
    ensures SegmentPointsInStage(snap, sid, false).Ok?
    ensures SegmentPointsInStage(snap, sid, true).value[i] + SegmentPointsInStage(snap, sid, false).value[i]
            == SumFor(StageAwards(snap, sid), RankedRiders(snap, sid)[i].id)
  {
    SegmentPointsEntry(snap, sid, true, i);
    SegmentPointsEntry(snap, sid, false, i);
    MountainAndSprintSplitAwards(StageAwards(snap, sid), KindsOf(StageSegments(snap, sid)), RankedRiders(snap, sid)[i].id);
  }

  /**
   * Segments keyed by duration with no tie bump: of two riders with the
   * same duration over a segment, the one put first is overwritten and
   * gets no points for it, however fast they were.
   */
  lemma SegmentTieDropsEarlierRider(ranked: seq<Rider>, sid: int, k: nat, kind: SegmentType, p: nat, q: nat)
    requires ReachesCheckpoint(ranked, sid, k) && UniqueRiderIds(ranked)
    requires p < q < |ranked|
    requires SegmentDurations(ranked, sid, k)[p] == SegmentDurations(ranked, sid, k)[q]
    ensures ranked[p].id !in SegmentAward(ranked, sid, k, kind)
  {
    var durations := SegmentDurations(ranked, sid, k);
    var ids := IdsOf(ranked);
    ListedByKeyDropsOverwritten(durations, ids, p, q);
  }

  /**
   * The portal's loop over the stage's segments: skip the segments of the
   * other kind, and add each counted segment's award to the running totals.
   */
  method AccumulateSegmentPoints(segs: seq<Segment>, ranked: seq<Rider>, sid: int, mountain: bool)
    returns (totals: map<int, nat>)
    requires segs == [] || ReachesCheckpoint(ranked, sid, |segs| - 1)
    ensures totals == SegmentTotals(segs, ranked, sid, mountain)
  {
    ghost var awards := Awards(segs, ranked, sid);
    ghost var kinds := KindsOf(segs);
    totals := map[];
    var j := 0;
    while j < |segs|
      invariant 0 <= j <= |segs|
      invariant totals == CountedTotals(awards[..j], kinds[..j], mountain)
    {
      CountedTotalsStep(awards, kinds, mountain, j);
      if Counted(segs[j].kind, mountain) {
        var award := SegmentAward(ranked, sid, j, segs[j].kind);
        totals := AddTo(totals, award);
      }
      j := j + 1;
    }
    assert awards[..|segs|] == awards && kinds[..|segs|] == kinds;
  }

  /**
   * getRidersPointsInStage: each ranked rider's finish points for its rank
   * plus its sprint points. An unknown stage is an error; with nobody
   * ranked the sprint points are never asked for, so an unknown segment id
   * is an error only when somebody has a result.
   */
  function PointsInStage(snap: Snap, sid: int): (r: Result<seq<nat>>)
    requires ResultsFit(snap)
    ensures r.Err? <==> FindStage(snap.stages, sid).None? ||
                        (|RankedRiders(snap, sid)| > 0 && SegmentPointsInStage(snap, sid, false).Err?)
    ensures r.Err? ==> r.error == IDNotRecognised
    ensures r.Ok? ==> |r.value| == |RankedRiders(snap, sid)|
    ensures r.Ok? ==> forall i :: 0 <= i < |r.value| ==>
              r.value[i] == StagePoints(FindStage(snap.stages, sid).value.kind, i) + SegmentPointsInStage(snap, sid, false).value[i]
  {
    if FindStage(snap.stages, sid).None? then Err(IDNotRecognised)
    else if |RankedRiders(snap, sid)| == 0 then Ok([])
    else if SegmentPointsInStage(snap, sid, false).Err? then Err(IDNotRecognised)
    else
      var kind := FindStage(snap.stages, sid).value.kind;
      var sprints := SegmentPointsInStage(snap, sid, false).value;
      Ok(WithFinishPoints(kind, sprints))
  }

  /** StagePoints(kind, i) added to the i-th of the given points. */
  function WithFinishPoints(kind: StageType, points: seq<nat>): (r: seq<nat>)
    ensures |r| == |points|
    ensures forall i :: 0 <= i < |points| ==> r[i] == StagePoints(kind, i) + points[i]
  {
    seq(|points|, i requires 0 <= i < |points| => StagePoints(kind, i) + points[i])
  }

  /**
   * The portal's stage-finish lookup succeeds for every rank of the
   * stage exactly when at most 15 riders are ranked, and there the
   * finish points added are the ones it looks up; a 16th ranked rider
   * makes it fail.
   */
  lemma WithFinishPointsAgreesUpToFifteen(kind: StageType, points: seq<nat>)
    ensures (forall i :: 0 <= i < |points| ==> StagePointsAsWritten(kind, i).Some?) <==> |points| <= TableSize
    ensures |points| <= TableSize ==> forall i :: 0 <= i < |points| ==>
              WithFinishPoints(kind, points)[i] == StagePointsAsWritten(kind, i).value + points[i]
  {
    if |points| > TableSize {
      assert StagePointsAsWritten(kind, TableSize).None?;
    }
  }

  /**
   * On a stage without intermediate sprints the points follow the rank: a
   * rider never scores more than one ranked ahead of it, and each rider
   * scores exactly the stage table's points for its rank.
   */
  lemma PointsFollowRankWithoutSprints(snap: Snap, sid: int, i: nat, k: nat)
    requires ResultsFit(snap) && PointsInStage(snap, sid).Ok?
    requires forall id :: id in FindStage(snap.stages, sid).value.segments ==>
               FindSegment(snap.segments, id).Some? && FindSegment(snap.segments, id).value.kind != Sprint
    requires i <= k < |PointsInStage(snap, sid).value|
    ensures PointsInStage(snap, sid).value[i] == StagePoints(FindStage(snap.stages, sid).value.kind, i)
    ensures PointsInStage(snap, sid).value[i] >= PointsInStage(snap, sid).value[k]
  {
    var stage := FindStage(snap.stages, sid).value;
    var segs := StageSegments(snap, sid);
    var kinds := KindsOf(segs);
    forall j | 0 <= j < |kinds|
      ensures !Counted(kinds[j], false)
    {
      assert FindSegment(snap.segments, stage.segments[j]) == Some(segs[j]);
    }
    assert CountedTotals(StageAwards(snap, sid), kinds, false) == map[];
    SegmentPointsEntry(snap, sid, false, i);
    SegmentPointsEntry(snap, sid, false, k);
    StagePointsMonotone(stage.kind, i, k);
  }

  /** Every ranked rider is found by its id (perhaps as another rider with the same id). */
  lemma RankedRidersFound(snap: Snap, sid: int)
    requires ResultsFit(snap)
    ensures forall i :: 0 <= i < |RankedRiders(snap, sid)| ==> FindRider(snap.riders, RankedRiders(snap, sid)[i].id).Some?
  {
    var ranked := RankedRiders(snap, sid);
    forall i | 0 <= i < |ranked|
      ensures FindRider(snap.riders, ranked[i].id).Some?
    {
      assert ranked[i] in snap.riders;
    }
  }

  /**
   * getRankedAdjustedElapsedTimesInStage: the adjusted elapsed time of each
   * rider in the stage rank, looked up by id, in rank order; an unknown
   * stage is an error.
   */
  function RankedAdjustedTimes(snap: Snap, sid: int): (r: Result<seq<int>>)
    requires ResultsFit(snap)
    ensures r.Err? <==> FindStage(snap.stages, sid).None?
    ensures r.Ok? ==> |r.value| == |RankedRiders(snap, sid)|
    ensures r.Ok? ==> forall i :: 0 <= i < |r.value| ==>
              AdjustedElapsedTime(snap, sid, RankedRiders(snap, sid)[i].id) == Ok(r.value[i]) &&
              0 <= r.value[i] < MicrosPerDay
  {
    if FindStage(snap.stages, sid).None? then Err(IDNotRecognised)
    else
      var ranked := RankedRiders(snap, sid);
      RankedRidersFound(snap, sid);
      Ok(seq(|ranked|, i requires 0 <= i < |ranked| => AdjustedElapsedTime(snap, sid, ranked[i].id).value))
  }

  /**
   * With unique rider ids the i-th adjusted time is the i-th ranked rider's
   * own, not that of another rider found under the same id.
   */
  lemma RankedAdjustedTimeIsOwn(snap: Snap, sid: int, i: nat)
    requires ResultsFit(snap) && UniqueRiderIds(snap.riders)
    requires RankedAdjustedTimes(snap, sid).Ok? && i < |RankedAdjustedTimes(snap, sid).value|
    ensures RankedRiders(snap, sid)[i] in snap.riders && sid in RankedRiders(snap, sid)[i].results
    ensures RankedAdjustedTimes(snap, sid).value[i] == OwnAdjustedTime(snap, sid, RankedRiders(snap, sid)[i])
  {
    var ranked := RankedRiders(snap, sid);
    var rider := ranked[i];
    assert rider in ranked;
    FindRiderUnique(snap.riders, rider);
  }

  /** With unique ids, looking a stored rider up by its id finds that rider. */
  lemma {:induction false} FindRiderUnique(rs: seq<Rider>, r: Rider)
    requires UniqueRiderIds(rs) && r in rs
    ensures FindRider(rs, r.id) == Some(r)
  {
    if rs[0] != r {
      var j :| 0 <= j < |rs| && rs[j] == r;
      assert rs[0].id != r.id;
      assert r in rs[1..];
      FindRiderUnique(rs[1..], r);
    }
  }
}
