/**
 * The worked example of the portal's ranking test: two teams, four
 * riders, one race with a medium-mountain stage (a C3 climb, an HC climb
 * and two intermediate sprints) and a time trial. Joe Blogs and John Smith
 * ride the mountain stage, Andrew Johnson the time trial, John Doe
 * nothing. Every start is the same time of day, start; the lemmas pin down
 * each value the test expects, computed by the model's own functions.
 */
module RankedScenario {
  import opened CyclingTypes
  import opened Points
  import opened Adjustment
  import opened KeyedSort
  import opened Totals
  import opened StageScoring
  import opened RaceScoring
  import opened Classification
  import Portal

  // ids as the portal hands them out: each the largest id so far plus one
  const RedTeam: int := 1
  const BlueTeam: int := 2
  const JB: int := 1
  const JS: int := 2
  const JD: int := 3
  const AJ: int := 4
  const UberFast: int := 1
  const MediumStage: int := 1
  const SprintStage: int := 2

  /** A HashMap over these rider ids iterates them in ascending order. */
  const HashOrder: seq<int> := [JB, JS, JD, AJ]

  function JBTimes(start: int): seq<int>
  {
    [start, start + 300_000_000, start + 500_000_000, start + 600_000_000, start + 900_000_000, start + 900_000_000]
  }

  function JSTimes(start: int): seq<int>
  {
    [start, start + 305_000_000, start + 510_000_000, start + 620_000_000, start + 905_000_000, start + 899_000_000]
  }

  function AJTimes(start: int): seq<int>
  {
    [start, start + 2_000_000_000]
  }

  function JBRider(start: int): Rider { Rider(JB, "Joe Blogs", 1988, map[MediumStage := JBTimes(start)]) }
  function JSRider(start: int): Rider { Rider(JS, "John Smith", 1998, map[MediumStage := JSTimes(start)]) }
  const JDRider: Rider := Rider(JD, "John Doe", 2001, map[])
  function AJRider(start: int): Rider { Rider(AJ, "Andrew Johnson", 2000, map[SprintStage := AJTimes(start)]) }

  const MountainStageRecord: Stage :=
    Stage(MediumStage, "Medium mountain", 40.0, MediumMountain, [1, 2, 3, 4], WaitingForResults)
  const TimeTrialRecord: Stage :=
    Stage(SprintStage, "Sprint stage", 20.0, TT, [], WaitingForResults)
  const StageSegmentRecords: seq<Segment> :=
    [Segment(1, C3, 10.0), Segment(2, HC, 15.0), Segment(3, Sprint, 20.0), Segment(4, Sprint, 40.0)]

  /** The store once all three results are registered. */
  function Store(start: int): Snap
  {
    Snap([Team(RedTeam, "Red", [JB, JS]), Team(BlueTeam, "Blue", [JD, AJ])],
         [JBRider(start), JSRider(start), JDRider, AJRider(start)],
         [Race(UberFast, "Uber Fast", [MediumStage, SprintStage])],
         [MountainStageRecord, TimeTrialRecord],
         StageSegmentRecords)
  }

  /** The mountain stage's riders in rank order. */
  function MountainRanked(start: int): seq<Rider> { [JSRider(start), JBRider(start)] }

  // ---- steps that hold of any store ----

  /** Two riders whose order is swapped by the rank. */
  lemma RankedOfTwo(s: Snap, sid: int, a: Rider, b: Rider)
    requires ResultsFit(s) && StageRiders(s, sid) == [a, b] && RankOrder(s, sid) == [1, 0]
    ensures RankedRiders(s, sid) == [b, a]
  {
    var ranked := RankedRiders(s, sid);
    assert ranked[0] == b && ranked[1] == a;
  }

  /** A stage with a single rider ranks that rider. */
  lemma RankedOfOne(s: Snap, sid: int, a: Rider)
    requires ResultsFit(s) && StageRiders(s, sid) == [a]
    ensures RankedRiders(s, sid) == [a]
  {
    var order := RankOrder(s, sid);
    assert order[0] < 1;
    assert RankedRiders(s, sid)[0] == a;
  }

  /** A rider measured to its own finish gets its raw elapsed time. */
  lemma OwnTime(s: Snap, sid: int, rider: Rider, t: int)
    requires ResultsFit(s) && FindStage(s.stages, sid).Some?
    requires FindRider(s.riders, rider.id) == Some(rider) && sid in rider.results && |rider.results[sid]| >= 2
    requires FindStage(s.stages, sid).value.kind == TT ||
             forall f :: f in Finishes(StageRiders(s, sid), sid) ==> !InRange(Finish(rider.results[sid]), f)
    requires TimeOfDay(Finish(rider.results[sid]) - rider.results[sid][0]) == t
    ensures AdjustedElapsedTime(s, sid, rider.id) == Ok(t)
  {
    OwnFinishKeptUnlessClose(s, sid, rider);
  }

  /** Two ranked riders' adjusted times, in rank order. */
  lemma RankedTimesOfTwo(s: Snap, sid: int, x: Rider, y: Rider, tx: int, ty: int)
    requires ResultsFit(s) && FindStage(s.stages, sid).Some? && RankedRiders(s, sid) == [x, y]
    requires AdjustedElapsedTime(s, sid, x.id) == Ok(tx) && AdjustedElapsedTime(s, sid, y.id) == Ok(ty)
    ensures RankedAdjustedTimes(s, sid) == Ok([tx, ty])
  {
    var r := RankedAdjustedTimes(s, sid);
    assert |r.value| == 2;
    assert AdjustedElapsedTime(s, sid, x.id) == Ok(r.value[0]);
    assert AdjustedElapsedTime(s, sid, y.id) == Ok(r.value[1]);
    Pair(r.value, tx, ty);
  }

  /** Segments stored in id order resolve to themselves. */
  lemma ResolveInOrder(segs: seq<Segment>)
    requires |segs| == 4 && forall i :: 0 <= i < 4 ==> segs[i].id == i + 1
    ensures ResolveSegments([1, 2, 3, 4], segs) == Some(segs)
  {
    var ids := [1, 2, 3, 4];
    assert SegmentId(segs[0]) == 1 && SegmentId(segs[1]) == 2 && SegmentId(segs[2]) == 3 && SegmentId(segs[3]) == 4;
    FindFirstAt(segs, SegmentId, 0);
    FindFirstAt(segs, SegmentId, 1);
    FindFirstAt(segs, SegmentId, 2);
    FindFirstAt(segs, SegmentId, 3);
    var r := ResolveSegments(ids, segs);
    assert FindSegment(segs, 1).Some? && FindSegment(segs, 2).Some?;
    assert FindSegment(segs, 3).Some? && FindSegment(segs, 4).Some?;
    assert r.Some?;
    assert FindSegment(segs, ids[0]) == Some(r.value[0]) && FindSegment(segs, ids[1]) == Some(r.value[1]);
    assert FindSegment(segs, ids[2]) == Some(r.value[2]) && FindSegment(segs, ids[3]) == Some(r.value[3]);
    assert r.value[0] == segs[0] && r.value[1] == segs[1] && r.value[2] == segs[2] && r.value[3] == segs[3];
    assert r.value == segs;
  }

  /** A ranked rider's segment points are its counted total over the stage's awards. */
  lemma SegmentPointsAt(s: Snap, sid: int, mountain: bool, i: nat,
                        awards: seq<map<int, nat>>, kinds: seq<SegmentType>, p: nat)
    requires ResultsFit(s) && SegmentPointsInStage(s, sid, mountain).Ok? && i < |RankedRiders(s, sid)|
    requires StageAwards(s, sid) == awards && KindsOf(StageSegments(s, sid)) == kinds
    requires Get(CountedTotals(awards, kinds, mountain), RankedRiders(s, sid)[i].id) == p
    ensures SegmentPointsInStage(s, sid, mountain).value[i] == p
  {
    SegmentPointsEntry(s, sid, mountain, i);
  }

  /** A list of two is its two elements. */
  lemma Pair<T>(r: seq<T>, a: T, b: T)
    requires |r| == 2 && r[0] == a && r[1] == b
    ensures r == [a, b]
  {
  }

  /** A list of one is its element. */
  lemma Single<T>(r: seq<T>, a: T)
    requires |r| == 1 && r[0] == a
    ensures r == [a]
  {
  }

  /** A list of three is its three elements. */
  lemma Triple<T>(r: seq<T>, a: T, b: T, c: T)
    requires |r| == 3 && r[0] == a && r[1] == b && r[2] == c
    ensures r == [a, b, c]
  {
  }

  /** A list of four is its four elements. */
  lemma Quad<T>(r: seq<T>, a: T, b: T, c: T, d: T)
    requires |r| == 4 && r[0] == a && r[1] == b && r[2] == c && r[3] == d
    ensures r == [a, b, c, d]
  {
  }

  /** The awards of a stage, from its resolved segments and its rank. */
  lemma StageAwardsOf(s: Snap, sid: int, segs: seq<Segment>, ranked: seq<Rider>)
    requires ResultsFit(s) && FindStage(s.stages, sid).Some?
    requires ResolveSegments(FindStage(s.stages, sid).value.segments, s.segments).Some?
    requires StageSegments(s, sid) == segs && RankedRiders(s, sid) == ranked
    requires segs == [] || ReachesCheckpoint(ranked, sid, |segs| - 1)
    ensures StageAwards(s, sid) == Awards(segs, ranked, sid)
  {
    RankedCoverSegments(s, sid);
  }

  lemma PutAllTwo(x: int, y: int, p: nat, q: nat)
    requires x != y
    ensures PutAll([x, y], [p, q]) == map[x := p, y := q]
  {
    assert [x, y][..1] == [x] && [p, q][..1] == [p];
    assert [x][..0] == [] && [p][..0] == [];
  }

  /** Two distinct keys are listed by key as their values, the smaller key's first. */
  lemma ListedOfTwo(d: seq<int>, ids: seq<int>, fast: nat, slow: nat)
    requires |d| == 2 && |ids| == 2 && fast < 2 && slow == 1 - fast
    requires d[fast] < d[slow]
    ensures ListedByKey(d, ids) == [ids[fast], ids[slow]]
  {
    var order: seq<nat> := [fast, slow];
    assert order[0] == fast && order[1] == slow;
    assert forall p :: 0 <= p < 2 ==> p in order;
    assert Permute(d, order) == [d[fast], d[slow]];
    ListedByAscendingPositions(d, ids, order);
    assert Permute(ids, order) == [ids[fast], ids[slow]];
  }

  /** Two riders with different durations over a segment: the faster gets the first place's points, the other the second's. */
  lemma AwardOfTwo(ranked: seq<Rider>, sid: int, k: nat, kind: SegmentType, fast: nat, slow: nat)
    requires |ranked| == 2 && ranked[0].id != ranked[1].id
    requires ReachesCheckpoint(ranked, sid, k)
    requires fast < 2 && slow == 1 - fast
    requires SegmentDurations(ranked, sid, k)[fast] < SegmentDurations(ranked, sid, k)[slow]
    ensures SegmentAward(ranked, sid, k, kind) ==
              map[ranked[fast].id := SegmentPoints(kind, 0), ranked[slow].id := SegmentPoints(kind, 1)]
  {
    var d := SegmentDurations(ranked, sid, k);
    var ids := IdsOf(ranked);
    ListedOfTwo(d, ids, fast, slow);
    var pts := PointsByRank(kind, 2);
    PutAllTwo(ranked[fast].id, ranked[slow].id, pts[0], pts[1]);
    assert pts == [pts[0], pts[1]];
  }

  /** Two different ids with their values, summed per id. */
  lemma ColumnOfTwo(x: int, y: int, u: nat, v: nat)
    requires x != y
    ensures Column([x, y], [u, v]) == map[x := u, y := v]
  {
    assert [x, y][..1] == [x] && [u, v][..1] == [u];
    assert [x][..0] == [] && [u][..0] == [];
  }

  lemma ColumnOfOne(x: int, u: nat)
    ensures Column([x], [u]) == map[x := u]
  {
    assert [x][..0] == [] && [u][..0] == [];
  }

  /** A stage's whole seconds per rider, for a stage with two riders. */
  lemma StageSecondsOfTwo(s: Snap, sid: int, a: Rider, b: Rider, sa: nat, sb: nat)
    requires ResultsFit(s) && FindStage(s.stages, sid).Some?
    requires StageRiders(s, sid) == [a, b] && a.id != b.id
    requires AdjustedElapsedTime(s, sid, a.id) == Ok(sa * MicrosPerSecond)
    requires AdjustedElapsedTime(s, sid, b.id) == Ok(sb * MicrosPerSecond)
    ensures StageSeconds(s, sid) == map[a.id := sa, b.id := sb]
  {
    var secs := SecondsOf(s, sid, [a, b]);
    assert secs[0] == sa && secs[1] == sb;
    Pair(secs, sa, sb);
    Pair(IdsOf([a, b]), a.id, b.id);
    ColumnOfTwo(a.id, b.id, sa, sb);
  }

  /** A stage's whole seconds per rider, for a stage with one rider. */
  lemma StageSecondsOfOne(s: Snap, sid: int, a: Rider, sa: nat)
    requires ResultsFit(s) && FindStage(s.stages, sid).Some?
    requires StageRiders(s, sid) == [a]
    requires AdjustedElapsedTime(s, sid, a.id) == Ok(sa * MicrosPerSecond)
    ensures StageSeconds(s, sid) == map[a.id := sa]
  {
    var secs := SecondsOf(s, sid, [a]);
    assert secs[0] == sa;
    Single(secs, sa);
    Single(IdsOf([a]), a.id);
    ColumnOfOne(a.id, sa);
  }

  /** The GC totals of a race of two known stages: the first stage's seconds, then the second's. */
  lemma GcTotalsOfTwoStages(s: Snap, s1: int, s2: int)
    requires ResultsFit(s) && FindStage(s.stages, s1).Some? && FindStage(s.stages, s2).Some?
    ensures GcTotals(s, [s1, s2]) == Ok(Tally(Tally(map[], StageSeconds(s, s1)), StageSeconds(s, s2)))
  {
    var sids := [s1, s2];
    assert sids[..0] == [] && sids[..1] == [s1] && sids[..2] == sids;
    GcTotalsStep(s, sids, 0);
    GcTotalsStep(s, sids, 1);
  }

  /** A rider's times over two stages add up to the sum of its two adjusted times. */
  lemma SumOfTwoStages(s: Snap, s1: int, s2: int, id: int, t1: int, t2: int)
    requires ResultsFit(s)
    requires AdjustedElapsedTime(s, s1, id) == Ok(t1) && AdjustedElapsedTime(s, s2, id) == Ok(t2)
    ensures Sum(StageTimes(s, [s1, s2], id)) == t1 + t2
  {
    var ts := StageTimes(s, [s1, s2], id);
    assert ts[0] == t1 && ts[1] == t2;
    assert ts[..1] == [t1] && ts[..1][..0] == [];
    assert Sum(ts[..1]) == t1;
  }

  /** One stage's points per rider id, for a stage with two ranked riders. */
  lemma StagePointColumnOfTwo(s: Snap, sid: int, x: Rider, y: Rider, p: nat, q: nat)
    requires ResultsFit(s) && RankedRiders(s, sid) == [x, y] && x.id != y.id
    ensures StagePointColumn(s, sid, [p, q]) == map[x.id := p, y.id := q]
  {
    Pair(IdsOf([x, y]), x.id, y.id);
    ColumnOfTwo(x.id, y.id, p, q);
  }

  /** One stage's points per rider id, for a stage with one ranked rider. */
  lemma StagePointColumnOfOne(s: Snap, sid: int, x: Rider, p: nat)
    requires ResultsFit(s) && RankedRiders(s, sid) == [x]
    ensures StagePointColumn(s, sid, [p]) == map[x.id := p]
  {
    Single(IdsOf([x]), x.id);
    ColumnOfOne(x.id, p);
  }

  /** One more stage whose points are known adds its points column to the race's totals. */
  lemma RacePointTotalsSnoc(s: Snap, sids: seq<int>, sid: int, mountain: bool, prev: map<int, nat>, p: seq<nat>)
    requires ResultsFit(s)
    requires RacePointTotals(s, sids, mountain) == Ok(prev) && StagePointsOf(s, sid, mountain) == Ok(p)
    ensures RacePointTotals(s, sids + [sid], mountain) == Ok(Tally(prev, StagePointColumn(s, sid, p)))
  {
    var t := sids + [sid];
    assert t[..|t| - 1] == sids && t[|t| - 1] == sid;
  }

  /** The rider ids of this store in a HashMap's order, keeping those with an entry. */
  lemma HashOrderOfRacers(m: map<int, nat>)
    requires JB in m && JS in m && JD !in m && AJ in m
    ensures InHashOrder(HashOrder, m) == [JB, JS, AJ]
  {
    var h := HashOrder;
    assert h[..3] == [JB, JS, JD] && h[..3][..2] == [JB, JS] && [JB, JS][..1] == [JB] && [JB][..0] == [];
    assert InHashOrder([JB], m) == [JB];
    assert InHashOrder([JB, JS], m) == [JB, JS];
    assert InHashOrder([JB, JS, JD], m) == [JB, JS];
  }

  /** Three distinct ids listed at increasing positions of ids are ids itself. */
  lemma AtIncreasingPositions(ids: seq<int>, r: seq<int>)
    requires |ids| == 3 && |r| == 3 && Distinct(ids)
    requires r[0] in ids && r[1] in ids && r[2] in ids
    requires IndexOf(ids, r[0]) < IndexOf(ids, r[1]) < IndexOf(ids, r[2])
    ensures r == ids
  {
    var k0, k1, k2 := IndexOf(ids, r[0]), IndexOf(ids, r[1]), IndexOf(ids, r[2]);
    assert k0 == 0 && k1 == 1 && k2 == 2;
    Triple(r, ids[0], ids[1], ids[2]);
  }

  lemma DistinctOfThree(a: int, b: int, c: int)
    requires a != b && b != c && a != c
    ensures Distinct([a, b, c])
  {
  }

  /**
   * Three distinct ids, none among the points, ordered stably by their
   * index among the points: all three indexes are -1, so the ids keep
   * their order.
   */
  lemma StableAmongEqualKeys(a: int, b: int, c: int, points: seq<int>, r: seq<int>)
    requires Distinct([a, b, c]) && a !in points && b !in points && c !in points
    requires |r| == 3 && forall x :: x in r <==> x in [a, b, c]
    requires forall i, k :: 0 <= i < k < |r| && IndexOf(points, r[i]) == IndexOf(points, r[k]) ==>
               IndexOf([a, b, c], r[i]) < IndexOf([a, b, c], r[k])
    ensures r == [a, b, c]
  {
    var ids := [a, b, c];
    assert r[0] in ids && r[1] in ids && r[2] in ids;
    assert r[0] !in points && r[1] !in points && r[2] !in points;
    AtIncreasingPositions(ids, r);
  }

  /** Three riders none of whose ids occurs among the points: the stable sort keeps their order. */
  lemma KeptInOrderOfThree(a: int, b: int, c: int, points: seq<int>)
    requires a != b && b != c && a != c
    requires a !in points && b !in points && c !in points
    ensures ByIndexAmongPoints([a, b, c], points) == [a, b, c]
  {
    DistinctOfThree(a, b, c);
    StableAmongEqualKeys(a, b, c, points, ByIndexAmongPoints([a, b, c], points));
  }

  /** Three values listed in non-increasing order of strictly decreasing keys are in key order. */
  lemma ThreeByDecreasingKey(r: seq<int>, a: int, b: int, c: int, t: map<int, nat>)
    requires |r| == 3 && a in r && b in r && c in r
    requires Get(t, r[0]) >= Get(t, r[1]) >= Get(t, r[2])
    requires Get(t, a) > Get(t, b) > Get(t, c)
    ensures r == [a, b, c]
  {
    assert r[0] == a && r[2] == c;
    Triple(r, a, b, c);
  }

  /** Three riders with strictly decreasing points are already in the intended order. */
  lemma DescendingOfThree(a: int, b: int, c: int, t: map<int, nat>)
    requires a != b && b != c && a != c
    requires Get(t, a) > Get(t, b) > Get(t, c)
    ensures ByPointsDescending([a, b, c], t) == [a, b, c]
  {
    var ids := [a, b, c];
    var r := ByPointsDescending(ids, t);
    assert a in r && b in r && c in r;
    assert Get(t, r[0]) >= Get(t, r[1]) >= Get(t, r[2]);
    ThreeByDecreasingKey(r, a, b, c, t);
  }

  // ---- the store ----

  lemma StoreFits(start: int)
    ensures ResultsFit(Store(start)) && UniqueRiderIds(Store(start).riders)
  {
    var s := Store(start);
    StagesFound(start);
    forall r, sid | r in s.riders && sid in r.results
      ensures ResultFits(s.stages, r, sid)
    {
    }
  }

  lemma StagesFound(start: int)
    ensures FindStage(Store(start).stages, MediumStage) == Some(MountainStageRecord)
    ensures FindStage(Store(start).stages, SprintStage) == Some(TimeTrialRecord)
    ensures FindRace(Store(start).races, UberFast) == Some(Store(start).races[0])
  {
    var ss := Store(start).stages;
    assert ss[1..] == [TimeTrialRecord];
    assert StageId(ss[0]) == MediumStage && StageId(TimeTrialRecord) == SprintStage;
    assert FindFirst(ss[1..], StageId, SprintStage) == Some(TimeTrialRecord);
  }

  /** The test's store satisfies the store invariant. */
  lemma StoreIdsUnique(start: int)
    ensures Portal.UniqueIds(Store(start))
  {
  }

  lemma StoreResultsWaiting(start: int)
    ensures Portal.ResultsOnlyWhenWaiting(Store(start))
  {
    var s := Store(start);
    StagesFound(start);
    assert s.riders[0] in s.riders && s.riders[1] in s.riders && s.riders[2] in s.riders && s.riders[3] in s.riders;
  }

  lemma StoreRidersKnown(start: int)
    ensures Portal.TeamRidersKnown(Store(start))
  {
    var s := Store(start);
    assert s.riders[0] in s.riders && s.riders[1] in s.riders && s.riders[2] in s.riders && s.riders[3] in s.riders;
  }

  lemma StoreStagesKnown(start: int)
    ensures Portal.RaceStagesKnown(Store(start))
  {
    var s := Store(start);
    assert s.stages[0] in s.stages && s.stages[1] in s.stages;
  }

  lemma StoreSegmentsKnown(start: int)
    ensures Portal.StageSegmentsKnown(Store(start))
  {
    var s := Store(start);
    assert s.segments[0] in s.segments && s.segments[1] in s.segments;
    assert s.segments[2] in s.segments && s.segments[3] in s.segments;
  }

  lemma StoreIsValid(start: int)
    ensures Portal.StoreValid(Store(start))
  {
    StoreFits(start);
    StoreIdsUnique(start);
    StoreResultsWaiting(start);
    StoreRidersKnown(start);
    StoreStagesKnown(start);
    StoreSegmentsKnown(start);
  }

  lemma RidersFound(start: int)
    ensures FindRider(Store(start).riders, JB) == Some(JBRider(start))
    ensures FindRider(Store(start).riders, JS) == Some(JSRider(start))
    ensures FindRider(Store(start).riders, JD) == Some(JDRider)
    ensures FindRider(Store(start).riders, AJ) == Some(AJRider(start))
  {
    var rs := Store(start).riders;
    StoreFits(start);
    FindRiderUnique(rs, rs[0]);
    FindRiderUnique(rs, rs[1]);
    FindRiderUnique(rs, rs[2]);
    FindRiderUnique(rs, rs[3]);
  }

  // ---- the mountain stage's rank and times ----

  lemma MountainStageRiders(start: int)
    ensures ResultsFit(Store(start))
    ensures StageRiders(Store(start), MediumStage) == [JBRider(start), JSRider(start)]
  {
    StoreFits(start);
    var rs := Store(start).riders;
    assert rs[1..] == [JSRider(start), JDRider, AJRider(start)];
    assert rs[1..][1..] == [JDRider, AJRider(start)];
    assert rs[1..][1..][1..] == [AJRider(start)];
    assert rs[1..][1..][1..][1..] == [];
    assert Applicable(rs[1..][1..][1..], MediumStage) == [];
    assert Applicable(rs[1..][1..], MediumStage) == [];
    assert Applicable(rs[1..], MediumStage) == [JSRider(start)];
    assert Applicable(rs, MediumStage) == [JBRider(start), JSRider(start)];
  }

  /** Two different raw times keep their own keys. */
  lemma BumpedKeysOfTwo(a: int, b: int)
    requires a != b
    ensures BumpedKeys([a, b]) == [a, b]
  {
    assert [a, b][..1] == [a] && [a][..0] == [];
    assert BumpedKeys([a]) == [] + [FirstFree(a, set k | k in [])];
    assert BumpedKeys([a]) == [a];
    var t := set k | k in [a];
    assert b !in t;
    assert BumpedKeys([a, b]) == [a] + [FirstFree(b, t)];
  }

  /** Of two riders, the one scanned second ranks first when it was faster. */
  lemma BumpedOrderOfTwo(a: int, b: int)
    requires b < a
    ensures BumpedOrder([a, b]) == [1, 0]
  {
    BumpedKeysOfTwo(a, b);
    var order := BumpedOrder([a, b]);
    assert order[0] in {0, 1} && order[1] in {0, 1} && order[0] != order[1];
    assert BumpedKeys([a, b])[order[0]] < BumpedKeys([a, b])[order[1]];
  }

  /** John Smith, a second faster to the line, ranks ahead of Joe Blogs. */
  lemma MountainStageRank(start: int)
    ensures ResultsFit(Store(start))
    ensures RankedRiders(Store(start), MediumStage) == MountainRanked(start)
  {
    MountainStageRiders(start);
    var raw := RawTimes(StageRiders(Store(start), MediumStage), MediumStage);
    assert raw == [900_000_000, 899_000_000];
    BumpedOrderOfTwo(900_000_000, 899_000_000);
    RankedOfTwo(Store(start), MediumStage, JBRider(start), JSRider(start));
  }

  /** getRidersRankInStage: John Smith, then Joe Blogs. */
  lemma MountainStageRankIds(start: int)
    ensures ResultsFit(Store(start))
    ensures RankInStage(Store(start), MediumStage) == Ok([JS, JB])
  {
    MountainStageRank(start);
    StagesFound(start);
    Pair(IdsOf(MountainRanked(start)), JS, JB);
  }

  /** With the first finish kept, each rider's adjusted time is its own raw time. */
  lemma NoCloseFinish(start: int)
    ensures ResultsFit(Store(start))
    ensures forall f :: f in Finishes(StageRiders(Store(start), MediumStage), MediumStage) ==>
              !InRange(start + 900_000_000, f) && !InRange(start + 899_000_000, f)
  {
    MountainStageRiders(start);
    var fs := Finishes(StageRiders(Store(start), MediumStage), MediumStage);
    assert fs == [start + 900_000_000, start + 899_000_000];
  }

  /**
   * No adjustment on the mountain stage: John Smith's finish is a whole
   * second ahead of Joe Blogs's, one millisecond too many for the peloton
   * rule, so Joe Blogs keeps his raw 15:00.
   */
  lemma JBMountainTime(start: int)
    ensures ResultsFit(Store(start))
    ensures AdjustedElapsedTime(Store(start), MediumStage, JB) == Ok(900_000_000)
  {
    NoCloseFinish(start);
    RidersFound(start);
    StagesFound(start);
    OwnTime(Store(start), MediumStage, JBRider(start), 900_000_000);
  }

  /** John Smith keeps his raw 14:59. */
  lemma JSMountainTime(start: int)
    ensures ResultsFit(Store(start))
    ensures AdjustedElapsedTime(Store(start), MediumStage, JS) == Ok(899_000_000)
  {
    NoCloseFinish(start);
    RidersFound(start);
    StagesFound(start);
    OwnTime(Store(start), MediumStage, JSRider(start), 899_000_000);
  }

  /** getRankedAdjustedElapsedTimesInStage: 14:59 then 15:00. */
  lemma MountainStageRankedTimes(start: int)
    ensures ResultsFit(Store(start))
    ensures RankedAdjustedTimes(Store(start), MediumStage) == Ok([899_000_000, 900_000_000])
  {
    JBMountainTime(start);
    JSMountainTime(start);
    MountainStageRank(start);
    StagesFound(start);
    RankedTimesOfTwo(Store(start), MediumStage, JSRider(start), JBRider(start), 899_000_000, 900_000_000);
  }

  // ---- the mountain stage's segments ----

  const Climb3: map<int, nat> := map[JB := 2, JS := 1]
  const ClimbHC: map<int, nat> := map[JB := 20, JS := 15]
  const Sprint1: map<int, nat> := map[JB := 20, JS := 17]
  const Sprint2: map<int, nat> := map[JS := 20, JB := 17]
  const MountainKinds: seq<SegmentType> := [C3, HC, Sprint, Sprint]

  lemma MountainStageSegments(start: int)
    ensures ResultsFit(Store(start)) && FindStage(Store(start).stages, MediumStage).Some?
    ensures ResolveSegments(FindStage(Store(start).stages, MediumStage).value.segments, Store(start).segments).Some?
    ensures StageSegments(Store(start), MediumStage) == StageSegmentRecords
  {
    StoreFits(start);
    StagesFound(start);
    ResolveInOrder(StageSegmentRecords);
  }

  /** Both ranked riders have a time at every checkpoint of the mountain stage. */
  lemma MountainReach(start: int, k: nat)
    requires k < 5
    ensures ReachesCheckpoint(MountainRanked(start), MediumStage, k)
  {
    var ranked := MountainRanked(start);
    assert ranked[0] == JSRider(start) && ranked[1] == JBRider(start);
  }

  /** Joe Blogs climbs the C3 in 200 s, John Smith in 205 s. */
  lemma Climb3Award(start: int)
    ensures ReachesCheckpoint(MountainRanked(start), MediumStage, 0)
    ensures SegmentAward(MountainRanked(start), MediumStage, 0, C3) == Climb3
  {
    MountainReach(start, 0);
    var js := JSTimes(start);
    var jb := JBTimes(start);
    assert js[1] - js[0] == 305_000_000 && jb[1] - jb[0] == 300_000_000;
    assert SegmentPoints(C3, 0) == 2 && SegmentPoints(C3, 1) == 1;
    AwardOfTwo(MountainRanked(start), MediumStage, 0, C3, 1, 0);
  }

  /** Joe Blogs climbs the HC in 200 s, John Smith in 205 s. */
  lemma ClimbHCAward(start: int)
    ensures ReachesCheckpoint(MountainRanked(start), MediumStage, 1)
    ensures SegmentAward(MountainRanked(start), MediumStage, 1, HC) == ClimbHC
  {
    MountainReach(start, 1);
    var js := JSTimes(start);
    var jb := JBTimes(start);
    assert js[2] - js[1] == 205_000_000 && jb[2] - jb[1] == 200_000_000;
    assert SegmentPoints(HC, 0) == 20 && SegmentPoints(HC, 1) == 15;
    AwardOfTwo(MountainRanked(start), MediumStage, 1, HC, 1, 0);
  }

  /** Joe Blogs reaches the first sprint in 100 s, John Smith in 110 s. */
  lemma Sprint1Award(start: int)
    ensures ReachesCheckpoint(MountainRanked(start), MediumStage, 2)
    ensures SegmentAward(MountainRanked(start), MediumStage, 2, Sprint) == Sprint1
  {
    MountainReach(start, 2);
    var js := JSTimes(start);
    var jb := JBTimes(start);
    assert js[3] - js[2] == 110_000_000 && jb[3] - jb[2] == 100_000_000;
    assert SegmentPoints(Sprint, 0) == 20 && SegmentPoints(Sprint, 1) == 17;
    AwardOfTwo(MountainRanked(start), MediumStage, 2, Sprint, 1, 0);
  }

  /** John Smith reaches the second sprint in 285 s, Joe Blogs in 300 s. */
  lemma Sprint2Award(start: int)
    ensures ReachesCheckpoint(MountainRanked(start), MediumStage, 3)
    ensures SegmentAward(MountainRanked(start), MediumStage, 3, Sprint) == Sprint2
  {
    MountainReach(start, 3);
    var js := JSTimes(start);
    var jb := JBTimes(start);
    assert js[4] - js[3] == 285_000_000 && jb[4] - jb[3] == 300_000_000;
    assert SegmentPoints(Sprint, 0) == 20 && SegmentPoints(Sprint, 1) == 17;
    AwardOfTwo(MountainRanked(start), MediumStage, 3, Sprint, 0, 1);
  }

  /** Each segment's award: Joe Blogs wins both climbs and the first sprint, John Smith the second sprint. */
  lemma MountainStageAwards(start: int)
    ensures ResultsFit(Store(start)) && FindStage(Store(start).stages, MediumStage).Some?
    ensures ResolveSegments(FindStage(Store(start).stages, MediumStage).value.segments, Store(start).segments).Some?
    ensures StageAwards(Store(start), MediumStage) == [Climb3, ClimbHC, Sprint1, Sprint2]
  {
    MountainStageSegments(start);
    MountainStageRank(start);
    MountainReach(start, 3);
    StageAwardsOf(Store(start), MediumStage, StageSegmentRecords, MountainRanked(start));
    var aw := Awards(StageSegmentRecords, MountainRanked(start), MediumStage);
    Climb3Award(start);
    ClimbHCAward(start);
    Sprint1Award(start);
    Sprint2Award(start);
    Quad(aw, Climb3, ClimbHC, Sprint1, Sprint2);
  }

  // ---- the mountain stage's points ----

  /** One segment's award added to the running totals when its kind is counted. */
  function Counting(t: map<int, nat>, award: map<int, nat>, kind: SegmentType, mountain: bool): map<int, nat>
  {
    if Counted(kind, mountain) then Tally(t, award) else t
  }

  /** The counted totals of four segments, one segment at a time. */
  lemma CountedTotalsOfFour(aw: seq<map<int, nat>>, ks: seq<SegmentType>, mountain: bool)
    requires |aw| == 4 && |ks| == 4
    ensures CountedTotals(aw, ks, mountain) ==
            Counting(Counting(Counting(Counting(map[], aw[0], ks[0], mountain), aw[1], ks[1], mountain),
                              aw[2], ks[2], mountain), aw[3], ks[3], mountain)
  {
    assert aw[..0] == [] && ks[..0] == [];
    CountedTotalsStep(aw, ks, mountain, 0);
    CountedTotalsStep(aw, ks, mountain, 1);
    CountedTotalsStep(aw, ks, mountain, 2);
    CountedTotalsStep(aw, ks, mountain, 3);
    assert aw[..4] == aw && ks[..4] == ks;
  }

  /** The mountain points: the two climbs, C3 then HC; the sprints are skipped. */
  lemma MountainTotalsOfStage()
    ensures CountedTotals([Climb3, ClimbHC, Sprint1, Sprint2], MountainKinds, true) == map[JB := 22, JS := 16]
  {
    CountedTotalsOfFour([Climb3, ClimbHC, Sprint1, Sprint2], MountainKinds, true);
    TallyByEntries(Climb3, map[], Climb3);
    TallyByEntries(map[JB := 22, JS := 16], Climb3, ClimbHC);
  }

  /** The sprint points: the two sprints; the climbs are skipped. */
  lemma SprintTotalsOfStage()
    ensures CountedTotals([Climb3, ClimbHC, Sprint1, Sprint2], MountainKinds, false) == map[JB := 37, JS := 37]
  {
    SprintsCounted();
    SprintsTally();
  }

  /** Only the two sprints count towards the sprint points. */
  lemma SprintsCounted()
    ensures CountedTotals([Climb3, ClimbHC, Sprint1, Sprint2], MountainKinds, false) == Tally(Tally(map[], Sprint1), Sprint2)
  {
    CountedTotalsOfFour([Climb3, ClimbHC, Sprint1, Sprint2], MountainKinds, false);
  }

  lemma SprintsTally()
    ensures Tally(Tally(map[], Sprint1), Sprint2) == map[JB := 37, JS := 37]
  {
    TallyByEntries(Sprint1, map[], Sprint1);
    TallyByEntries(map[JB := 37, JS := 37], Sprint1, Sprint2);
  }

  lemma MountainStageKinds(start: int)
    ensures ResultsFit(Store(start)) && FindStage(Store(start).stages, MediumStage).Some?
    ensures ResolveSegments(FindStage(Store(start).stages, MediumStage).value.segments, Store(start).segments).Some?
    ensures KindsOf(StageSegments(Store(start), MediumStage)) == MountainKinds
  {
    MountainStageSegments(start);
    var ks := KindsOf(StageSegmentRecords);
    Quad(ks, C3, HC, Sprint, Sprint);
  }

  /** getRidersMountainPointsInStage: John Smith 16 (1 + 15), Joe Blogs 22 (2 + 20). */
  lemma MountainStageMountainPoints(start: int)
    ensures ResultsFit(Store(start))
    ensures SegmentPointsInStage(Store(start), MediumStage, true) == Ok([16, 22])
  {
    var s := Store(start);
    MountainStageAwards(start);
    MountainStageKinds(start);
    MountainStageRank(start);
    MountainTotalsOfStage();
    var aw := [Climb3, ClimbHC, Sprint1, Sprint2];
    SegmentPointsAt(s, MediumStage, true, 0, aw, MountainKinds, 16);
    SegmentPointsAt(s, MediumStage, true, 1, aw, MountainKinds, 22);
    Pair(SegmentPointsInStage(s, MediumStage, true).value, 16, 22);
  }

  /** The sprint points of the mountain stage: 37 each (20 + 17). */
  lemma MountainStageSprintPoints(start: int)
    ensures ResultsFit(Store(start))
    ensures SegmentPointsInStage(Store(start), MediumStage, false) == Ok([37, 37])
  {
    var s := Store(start);
    MountainStageAwards(start);
    MountainStageKinds(start);
    MountainStageRank(start);
    SprintTotalsOfStage();
    var aw := [Climb3, ClimbHC, Sprint1, Sprint2];
    SegmentPointsAt(s, MediumStage, false, 0, aw, MountainKinds, 37);
    SegmentPointsAt(s, MediumStage, false, 1, aw, MountainKinds, 37);
    Pair(SegmentPointsInStage(s, MediumStage, false).value, 37, 37);
  }

  /** The points of a stage with somebody ranked: the finish points added to the sprint points. */
  lemma PointsWithSprints(s: Snap, sid: int, sprints: seq<nat>)
    requires ResultsFit(s) && FindStage(s.stages, sid).Some?
    requires |RankedRiders(s, sid)| > 0 && SegmentPointsInStage(s, sid, false) == Ok(sprints)
    ensures PointsInStage(s, sid) == Ok(WithFinishPoints(FindStage(s.stages, sid).value.kind, sprints))
  {
  }

  /** The medium-mountain finish points, 30 and 25, on top of 37 sprint points each. */
  lemma MountainFinishPoints()
    ensures WithFinishPoints(MediumMountain, [37, 37]) == [67, 62]
  {
    var p := WithFinishPoints(MediumMountain, [37, 37]);
    assert StagePoints(MediumMountain, 0) == 30 && StagePoints(MediumMountain, 1) == 25;
    Pair(p, 67, 62);
  }

  /** getRidersPointsInStage: John Smith 67 (30 + 37), Joe Blogs 62 (25 + 37). */
  lemma MountainStagePoints(start: int)
    ensures ResultsFit(Store(start))
    ensures PointsInStage(Store(start), MediumStage) == Ok([67, 62])
  {
    MountainStageSprintPoints(start);
    MountainStageRank(start);
    StagesFound(start);
    PointsWithSprints(Store(start), MediumStage, [37, 37]);
    MountainFinishPoints();
  }

  // ---- the time trial ----

  lemma TimeTrialRiders(start: int)
    ensures ResultsFit(Store(start))
    ensures StageRiders(Store(start), SprintStage) == [AJRider(start)]
  {
    StoreFits(start);
    var rs := Store(start).riders;
    assert rs[1..] == [JSRider(start), JDRider, AJRider(start)];
    assert rs[1..][1..] == [JDRider, AJRider(start)];
    assert rs[1..][1..][1..] == [AJRider(start)];
    assert rs[1..][1..][1..][1..] == [];
    assert Applicable(rs[1..][1..][1..], SprintStage) == [AJRider(start)];
    assert Applicable(rs[1..][1..], SprintStage) == [AJRider(start)];
    assert Applicable(rs[1..], SprintStage) == [AJRider(start)];
    assert Applicable(rs, SprintStage) == [AJRider(start)];
  }

  /** Andrew Johnson alone rides the time trial, so he alone is ranked. */
  lemma TimeTrialRank(start: int)
    ensures ResultsFit(Store(start))
    ensures RankedRiders(Store(start), SprintStage) == [AJRider(start)]
  {
    TimeTrialRiders(start);
    RankedOfOne(Store(start), SprintStage, AJRider(start));
  }

  /** A time trial measures Andrew Johnson to his own finish: 2000 s. */
  lemma AJTimeTrialTime(start: int)
    ensures ResultsFit(Store(start))
    ensures AdjustedElapsedTime(Store(start), SprintStage, AJ) == Ok(2_000_000_000)
  {
    StoreFits(start);
    RidersFound(start);
    StagesFound(start);
    OwnTime(Store(start), SprintStage, AJRider(start), 2_000_000_000);
  }

  /** A rider without a result for a stage is given midnight there. */
  lemma NoResultTimes(start: int)
    ensures ResultsFit(Store(start))
    ensures AdjustedElapsedTime(Store(start), SprintStage, JB) == Ok(0)
    ensures AdjustedElapsedTime(Store(start), SprintStage, JS) == Ok(0)
    ensures AdjustedElapsedTime(Store(start), MediumStage, AJ) == Ok(0)
  {
    StoreFits(start);
    RidersFound(start);
    StagesFound(start);
  }

  /** The time trial has no segments: no mountain points and no sprint points. */
  lemma TimeTrialSegmentPoints(start: int, mountain: bool)
    ensures ResultsFit(Store(start))
    ensures SegmentPointsInStage(Store(start), SprintStage, mountain) == Ok([0])
  {
    var s := Store(start);
    TimeTrialRank(start);
    StagesFound(start);
    assert ResolveSegments(TimeTrialRecord.segments, s.segments) == Some([]);
    assert StageSegments(s, SprintStage) == [];
    assert KindsOf(StageSegments(s, SprintStage)) == [];
    assert StageAwards(s, SprintStage) == [];
    SegmentPointsAt(s, SprintStage, mountain, 0, [], [], 0);
    Single(SegmentPointsInStage(s, SprintStage, mountain).value, 0);
  }

  /** The time-trial winner's 20 points, on top of no sprint points. */
  lemma TimeTrialFinishPoints()
    ensures WithFinishPoints(TT, [0]) == [20]
  {
    var p := WithFinishPoints(TT, [0]);
    assert StagePoints(TT, 0) == 20;
    Single(p, 20);
  }

  /** getRidersPointsInStage on the time trial: the winner's 20 points. */
  lemma TimeTrialPoints(start: int)
    ensures ResultsFit(Store(start))
    ensures PointsInStage(Store(start), SprintStage) == Ok([20])
  {
    TimeTrialSegmentPoints(start, false);
    TimeTrialRank(start);
    StagesFound(start);
    PointsWithSprints(Store(start), SprintStage, [0]);
    TimeTrialFinishPoints();
  }

  // ---- the race: general classification ----

  lemma RaceFound(start: int)
    ensures FindRace(Store(start).races, UberFast).Some?
    ensures StagesOf(Store(start), UberFast) == [MediumStage, SprintStage]
  {
    StagesFound(start);
  }

  lemma MountainStageSeconds(start: int)
    ensures ResultsFit(Store(start)) && FindStage(Store(start).stages, MediumStage).Some?
    ensures StageSeconds(Store(start), MediumStage) == map[JB := 900, JS := 899]
  {
    MountainStageRiders(start);
    JBMountainTime(start);
    JSMountainTime(start);
    StagesFound(start);
    StageSecondsOfTwo(Store(start), MediumStage, JBRider(start), JSRider(start), 900, 899);
  }

  lemma TimeTrialSeconds(start: int)
    ensures ResultsFit(Store(start)) && FindStage(Store(start).stages, SprintStage).Some?
    ensures StageSeconds(Store(start), SprintStage) == map[AJ := 2000]
  {
    TimeTrialRiders(start);
    AJTimeTrialTime(start);
    StagesFound(start);
    StageSecondsOfOne(Store(start), SprintStage, AJRider(start), 2000);
  }

  /** Each rider's whole seconds over the race. */
  const RaceSeconds: map<int, nat> := map[JB := 900, JS := 899, AJ := 2000]

  lemma RaceSecondsTally()
    ensures Tally(Tally(map[], map[JB := 900, JS := 899]), map[AJ := 2000]) == RaceSeconds
  {
    TallyByEntries(map[JB := 900, JS := 899], map[], map[JB := 900, JS := 899]);
    TallyByEntries(RaceSeconds, map[JB := 900, JS := 899], map[AJ := 2000]);
  }

  lemma RaceGcTotals(start: int)
    ensures ResultsFit(Store(start))
    ensures GcTotals(Store(start), [MediumStage, SprintStage]) == Ok(RaceSeconds)
  {
    MountainStageSeconds(start);
    TimeTrialSeconds(start);
    GcTotalsOfTwoStages(Store(start), MediumStage, SprintStage);
    RaceSecondsTally();
  }

  /** Flipped into a map from total to rider and listed by total: 899 s, 900 s, 2000 s. */
  lemma GcListing()
    ensures ListedByKey([900, 899, 2000], [JB, JS, AJ]) == [JS, JB, AJ]
  {
    var keys := [900, 899, 2000];
    var order: seq<nat> := [1, 0, 2];
    assert Distinct(keys);
    assert forall p :: 0 <= p < 3 ==> p in order;
    Triple(Permute(keys, order), 899, 900, 2000);
    ListedByAscendingPositions(keys, [JB, JS, AJ], order);
    Triple(Permute([JB, JS, AJ], order), JS, JB, AJ);
  }

  /** The race totals, visited in hash order and listed by total. */
  lemma RaceSecondsListing()
    ensures ListedByKey(Lookup(RaceSeconds, InHashOrder(HashOrder, RaceSeconds)), InHashOrder(HashOrder, RaceSeconds)) == [JS, JB, AJ]
  {
    HashOrderOfRacers(RaceSeconds);
    Triple(Lookup(RaceSeconds, [JB, JS, AJ]), 900, 899, 2000);
    GcListing();
  }

  /** The GC of a known race: its totals, visited in hash order, listed by total. */
  lemma GcRankFrom(s: Snap, raceId: int, hashOrder: seq<int>, totals: map<int, nat>, gc: seq<int>)
    requires ResultsFit(s) && FindRace(s.races, raceId).Some?
    requires GcTotals(s, StagesOf(s, raceId)) == Ok(totals)
    requires ListedByKey(Lookup(totals, InHashOrder(hashOrder, totals)), InHashOrder(hashOrder, totals)) == gc
    ensures GcRank(s, raceId, hashOrder) == Ok(gc)
  {
  }

  /** getRidersGeneralClassificationRank: John Smith, Joe Blogs, Andrew Johnson. */
  lemma RaceGcRank(start: int)
    ensures ResultsFit(Store(start))
    ensures GcRank(Store(start), UberFast, HashOrder) == Ok([JS, JB, AJ])
  {
    RaceFound(start);
    RaceGcTotals(start);
    RaceSecondsListing();
    GcRankFrom(Store(start), UberFast, HashOrder, RaceSeconds, [JS, JB, AJ]);
  }

  /** The wrapped time sums of three riders that fit in a day are the sums themselves. */
  lemma TimesOfThree(s: Snap, sids: seq<int>, a: int, b: int, c: int, ta: int, tb: int, tc: int)
    requires ResultsFit(s)
    requires Sum(StageTimes(s, sids, a)) == ta && 0 <= ta < MicrosPerDay
    requires Sum(StageTimes(s, sids, b)) == tb && 0 <= tb < MicrosPerDay
    requires Sum(StageTimes(s, sids, c)) == tc && 0 <= tc < MicrosPerDay
    ensures TimesOfRanked(s, sids, [a, b, c]) == [ta, tb, tc]
  {
    var ts := TimesOfRanked(s, sids, [a, b, c]);
    assert ts[0] == ta && ts[1] == tb && ts[2] == tc;
    Triple(ts, ta, tb, tc);
  }

  /** The GC times of a GC of three riders: each rider's times summed, in GC order. */
  lemma GcTimesOfThree(s: Snap, raceId: int, hashOrder: seq<int>, a: int, b: int, c: int, ta: int, tb: int, tc: int)
    requires ResultsFit(s) && GcRank(s, raceId, hashOrder) == Ok([a, b, c])
    requires FindRace(s.races, raceId).Some?
    requires Sum(StageTimes(s, StagesOf(s, raceId), a)) == ta && 0 <= ta < MicrosPerDay
    requires Sum(StageTimes(s, StagesOf(s, raceId), b)) == tb && 0 <= tb < MicrosPerDay
    requires Sum(StageTimes(s, StagesOf(s, raceId), c)) == tc && 0 <= tc < MicrosPerDay
    ensures GcTimes(s, raceId, hashOrder) == Ok([ta, tb, tc])
  {
    TimesOfThree(s, StagesOf(s, raceId), a, b, c, ta, tb, tc);
  }

  lemma RaceTimesOfJS(start: int)
    ensures ResultsFit(Store(start))
    ensures Sum(StageTimes(Store(start), [MediumStage, SprintStage], JS)) == 899_000_000
  {
    JSMountainTime(start);
    NoResultTimes(start);
    SumOfTwoStages(Store(start), MediumStage, SprintStage, JS, 899_000_000, 0);
  }

  lemma RaceTimesOfJB(start: int)
    ensures ResultsFit(Store(start))
    ensures Sum(StageTimes(Store(start), [MediumStage, SprintStage], JB)) == 900_000_000
  {
    JBMountainTime(start);
    NoResultTimes(start);
    SumOfTwoStages(Store(start), MediumStage, SprintStage, JB, 900_000_000, 0);
  }

  lemma RaceTimesOfAJ(start: int)
    ensures ResultsFit(Store(start))
    ensures Sum(StageTimes(Store(start), [MediumStage, SprintStage], AJ)) == 2_000_000_000
  {
    AJTimeTrialTime(start);
    NoResultTimes(start);
    SumOfTwoStages(Store(start), MediumStage, SprintStage, AJ, 0, 2_000_000_000);
  }

  /** getGeneralClassificationTimesInRace: 14:59, 15:00 and 33:20. */
  lemma RaceGcTimes(start: int)
    ensures ResultsFit(Store(start))
    ensures GcTimes(Store(start), UberFast, HashOrder) == Ok([899_000_000, 900_000_000, 2_000_000_000])
  {
    RaceGcRank(start);
    RaceFound(start);
    RaceTimesOfJS(start);
    RaceTimesOfJB(start);
    RaceTimesOfAJ(start);
    GcTimesOfThree(Store(start), UberFast, HashOrder, JS, JB, AJ, 899_000_000, 900_000_000, 2_000_000_000);
  }

  // ---- the race: points and classifications ----

  /** A race of two stages whose points are known: the two points columns summed. */
  lemma RacePointTotalsOfTwo(s: Snap, s1: int, s2: int, mountain: bool, p1: seq<nat>, p2: seq<nat>, c1: map<int, nat>, c2: map<int, nat>)
    requires ResultsFit(s)
    requires StagePointsOf(s, s1, mountain) == Ok(p1) && StagePointColumn(s, s1, p1) == c1
    requires StagePointsOf(s, s2, mountain) == Ok(p2) && StagePointColumn(s, s2, p2) == c2
    ensures RacePointTotals(s, [s1, s2], mountain) == Ok(Tally(Tally(map[], c1), c2))
  {
    assert RacePointTotals(s, [], mountain) == Ok(map[]);
    RacePointTotalsSnoc(s, [], s1, mountain, map[], p1);
    assert [] + [s1] == [s1];
    RacePointTotalsSnoc(s, [s1], s2, mountain, Tally(map[], c1), p2);
    assert [s1] + [s2] == [s1, s2];
  }

  const RacePointsMap: map<int, nat> := map[JS := 67, JB := 62, AJ := 20]
  const RaceMountainMap: map<int, nat> := map[JS := 16, JB := 22, AJ := 0]

  lemma RacePointsTally()
    ensures Tally(Tally(map[], map[JS := 67, JB := 62]), map[AJ := 20]) == RacePointsMap
  {
    TallyByEntries(map[JS := 67, JB := 62], map[], map[JS := 67, JB := 62]);
    TallyByEntries(RacePointsMap, map[JS := 67, JB := 62], map[AJ := 20]);
  }

  lemma RaceMountainTally()
    ensures Tally(Tally(map[], map[JS := 16, JB := 22]), map[AJ := 0]) == RaceMountainMap
  {
    TallyByEntries(map[JS := 16, JB := 22], map[], map[JS := 16, JB := 22]);
    TallyByEntries(RaceMountainMap, map[JS := 16, JB := 22], map[AJ := 0]);
  }

  /** The race's points: 67 and 62 on the mountain stage, 20 in the time trial. */
  lemma RacePointTotalsOfRace(start: int)
    ensures ResultsFit(Store(start))
    ensures RacePointTotals(Store(start), [MediumStage, SprintStage], false) == Ok(RacePointsMap)
  {
    var s := Store(start);
    MountainStagePoints(start);
    TimeTrialPoints(start);
    MountainStageRank(start);
    TimeTrialRank(start);
    StagePointColumnOfTwo(s, MediumStage, JSRider(start), JBRider(start), 67, 62);
    StagePointColumnOfOne(s, SprintStage, AJRider(start), 20);
    RacePointTotalsOfTwo(s, MediumStage, SprintStage, false, [67, 62], [20], map[JS := 67, JB := 62], map[AJ := 20]);
    RacePointsTally();
  }

  /** The race's mountain points: 16 and 22 on the mountain stage, none in the time trial. */
  lemma RaceMountainTotalsOfRace(start: int)
    ensures ResultsFit(Store(start))
    ensures RacePointTotals(Store(start), [MediumStage, SprintStage], true) == Ok(RaceMountainMap)
  {
    var s := Store(start);
    MountainStageMountainPoints(start);
    TimeTrialSegmentPoints(start, true);
    MountainStageRank(start);
    TimeTrialRank(start);
    StagePointColumnOfTwo(s, MediumStage, JSRider(start), JBRider(start), 16, 22);
    StagePointColumnOfOne(s, SprintStage, AJRider(start), 0);
    RacePointTotalsOfTwo(s, MediumStage, SprintStage, true, [16, 22], [0], map[JS := 16, JB := 22], map[AJ := 0]);
    RaceMountainTally();
  }

  /** Points in a race whose GC has three riders: each rider's total, in GC order. */
  lemma RacePointsOfThree(s: Snap, raceId: int, mountain: bool, hashOrder: seq<int>, a: int, b: int, c: int, totals: map<int, nat>)
    requires ResultsFit(s) && GcRank(s, raceId, hashOrder) == Ok([a, b, c])
    requires RacePointTotals(s, StagesOf(s, raceId), mountain) == Ok(totals)
    ensures RacePoints(s, raceId, mountain, hashOrder) == Ok([Get(totals, a), Get(totals, b), Get(totals, c)])
  {
    Triple(RacePoints(s, raceId, mountain, hashOrder).value, Get(totals, a), Get(totals, b), Get(totals, c));
  }

  /** getRidersPointsInRace: 67, 62 and 20, in GC order. */
  lemma RaceRacePoints(start: int)
    ensures ResultsFit(Store(start))
    ensures RacePoints(Store(start), UberFast, false, HashOrder) == Ok([67, 62, 20])
  {
    RaceGcRank(start);
    RaceFound(start);
    RacePointTotalsOfRace(start);
    RacePointsOfThree(Store(start), UberFast, false, HashOrder, JS, JB, AJ, RacePointsMap);
  }

  /** getRidersMountainPointsInRace: 16, 22 and 0, in GC order. */
  lemma RaceMountainPoints(start: int)
    ensures ResultsFit(Store(start))
    ensures RacePoints(Store(start), UberFast, true, HashOrder) == Ok([16, 22, 0])
  {
    RaceGcRank(start);
    RaceFound(start);
    RaceMountainTotalsOfRace(start);
    RacePointsOfThree(Store(start), UberFast, true, HashOrder, JS, JB, AJ, RaceMountainMap);
  }

  /** A GC of three riders none of whose ids occurs among their points: the points classification keeps the GC. */
  lemma PointClassificationKeepsGc(s: Snap, raceId: int, hashOrder: seq<int>, a: int, b: int, c: int, points: seq<nat>)
    requires ResultsFit(s) && GcRank(s, raceId, hashOrder) == Ok([a, b, c])
    requires RacePoints(s, raceId, false, hashOrder) == Ok(points)
    requires a != b && b != c && a != c
    requires a !in points && b !in points && c !in points
    ensures PointClassificationRank(s, raceId, hashOrder) == Ok([a, b, c])
  {
    KeptInOrderOfThree(a, b, c, points);
  }

  /** A GC of three riders with strictly decreasing points: the classification by points keeps the GC. */
  lemma PointClassificationByPointsOfThree(s: Snap, raceId: int, hashOrder: seq<int>, a: int, b: int, c: int, totals: map<int, nat>)
    requires ResultsFit(s) && GcRank(s, raceId, hashOrder) == Ok([a, b, c])
    requires RacePointTotals(s, StagesOf(s, raceId), false) == Ok(totals)
    requires a != b && b != c && a != c
    requires Get(totals, a) > Get(totals, b) > Get(totals, c)
    ensures PointClassificationByPoints(s, raceId, hashOrder) == Ok([a, b, c])
  {
    DescendingOfThree(a, b, c, totals);
  }

  /** John Smith has more points than Joe Blogs, who has more than Andrew Johnson. */
  lemma RacePointsDecrease()
    ensures Get(RacePointsMap, JS) > Get(RacePointsMap, JB) > Get(RacePointsMap, AJ)
  {
  }

  /** Joe Blogs has more mountain points than John Smith, who has more than Andrew Johnson. */
  lemma RaceMountainDecrease()
    ensures Get(RaceMountainMap, JB) > Get(RaceMountainMap, JS) > Get(RaceMountainMap, AJ)
  {
  }

  /** No rider id of the race occurs among its points. */
  lemma RacersAmongPoints()
    ensures JS !in [67, 62, 20] && JB !in [67, 62, 20] && AJ !in [67, 62, 20]
  {
  }

  /** getRidersPointClassificationRank as written: John Smith, Joe Blogs, Andrew Johnson. */
  lemma RacePointClassification(start: int)
    ensures ResultsFit(Store(start))
    ensures PointClassificationRank(Store(start), UberFast, HashOrder) == Ok([JS, JB, AJ])
  {
    RaceGcRank(start);
    RaceRacePoints(start);
    RacersAmongPoints();
    PointClassificationKeepsGc(Store(start), UberFast, HashOrder, JS, JB, AJ, [67, 62, 20]);
  }

  /** The points classification by points: the same order, as 67 > 62 > 20. */
  lemma RacePointClassificationByPoints(start: int)
    ensures ResultsFit(Store(start))
    ensures PointClassificationByPoints(Store(start), UberFast, HashOrder) == Ok([JS, JB, AJ])
  {
    RaceGcRank(start);
    RaceFound(start);
    RacePointTotalsOfRace(start);
    RacePointsDecrease();
    PointClassificationByPointsOfThree(Store(start), UberFast, HashOrder, JS, JB, AJ, RacePointsMap);
  }

  /** The mountain totals visited in hash order: Joe Blogs, John Smith, Andrew Johnson. */
  lemma RaceMountainOrder()
    ensures InHashOrder(HashOrder, RaceMountainMap) == [JB, JS, AJ]
  {
    HashOrderOfRacers(RaceMountainMap);
  }

  /** The mountain totals, visited in hash order, ranked by the index of each id among the totals. */
  lemma RaceMountainListing()
    ensures InHashOrder(HashOrder, RaceMountainMap) == [JB, JS, AJ]
    ensures ByIndexAmongPoints(InHashOrder(HashOrder, RaceMountainMap),
                               Lookup(RaceMountainMap, InHashOrder(HashOrder, RaceMountainMap))) == [JB, JS, AJ]
  {
    HashOrderOfRacers(RaceMountainMap);
    Triple(Lookup(RaceMountainMap, [JB, JS, AJ]), 22, 16, 0);
    KeptInOrderOfThree(JB, JS, AJ, [22, 16, 0]);
  }

  /** getRidersMountainPointClassificationRank as written: Joe Blogs, John Smith, Andrew Johnson. */
  lemma RaceMountainClassification(start: int)
    ensures ResultsFit(Store(start))
    ensures MountainClassificationRank(Store(start), UberFast, HashOrder) == Ok([JB, JS, AJ])
  {
    RaceFound(start);
    RaceMountainTotalsOfRace(start);
    assert MountainTotals(Store(start), UberFast) == Ok(RaceMountainMap);
    RaceMountainListing();
  }

  /** Mountain totals of three riders, visited in hash order, strictly decreasing: the classification by points keeps them. */
  lemma MountainClassificationByPointsOfThree(s: Snap, raceId: int, hashOrder: seq<int>, a: int, b: int, c: int, t: map<int, nat>)
    requires ResultsFit(s) && MountainTotals(s, raceId) == Ok(t)
    requires InHashOrder(hashOrder, t) == [a, b, c]
    requires a != b && b != c && a != c
    requires Get(t, a) > Get(t, b) > Get(t, c)
    ensures MountainClassificationByPoints(s, raceId, hashOrder) == Ok([a, b, c])
  {
    DescendingOfThree(a, b, c, t);
  }

  /** The mountain classification by points: the same order, as 22 > 16 > 0. */
  lemma RaceMountainClassificationByPoints(start: int)
    ensures ResultsFit(Store(start))
    ensures MountainClassificationByPoints(Store(start), UberFast, HashOrder) == Ok([JB, JS, AJ])
  {
    RaceFound(start);
    RaceMountainTotalsOfRace(start);
    assert MountainTotals(Store(start), UberFast) == Ok(RaceMountainMap);
    RaceMountainOrder();
    RaceMountainDecrease();
    MountainClassificationByPointsOfThree(Store(start), UberFast, HashOrder, JB, JS, AJ, RaceMountainMap);
  }
}
