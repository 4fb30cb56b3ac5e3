/**
 * The points and mountain classifications of a race. The portal sorts a
 * list of rider ids with List.sort and Comparator.comparingInt, a stable
 * sort on an integer key. As written, the key of a rider id is the index
 * at which that id occurs in the list of points, so rider ids are looked
 * up among point values; the evidently intended key is the rider's own
 * points, highest first. Both are modelled, and the corrected ranks state
 * what the classifications promise.
 */
module Classification {
  import opened CyclingTypes
  import opened KeyedSort
  import opened Totals
  import opened StageScoring
  import opened RaceScoring

  /** List.indexOf: the first index holding x, -1 when there is none. */
  function IndexOf(s: seq<int>, x: int): (k: int)
    ensures -1 <= k < |s|
    ensures k == -1 <==> x !in s
    ensures k >= 0 ==> s[k] == x && forall j :: 0 <= j < k ==> s[j] != x
  {
    if |s| == 0 then -1
    else if s[0] == x then 0
    else
      var k := IndexOf(s[1..], x);
      assert forall y :: y in s <==> y == s[0] || y in s[1..];
      if k == -1 then -1 else k + 1
  }

  /** In a list without repeats, the element at p is first found at p. */
  lemma IndexOfDistinct(s: seq<int>, p: nat)
    requires Distinct(s) && p < |s|
    ensures IndexOf(s, s[p]) == p
  {
    var k := IndexOf(s, s[p]);
    DistinctAt(s, k, p);
  }

  /** Picking distinct positions of a list without repeats gives a list without repeats. */
  lemma PermuteDistinct(a: seq<int>, order: seq<nat>)
    requires forall i :: 0 <= i < |order| ==> order[i] < |a|
    requires Distinct(a) && Distinct(order)
    ensures Distinct(Permute(a, order))
  {
    var r := Permute(a, order);
    forall i, k | 0 <= i < k < |r|
      ensures r[i] != r[k]
    {
      DistinctAt(a, order[i], order[k]);
      assert order[i] != order[k];
    }
  }

  /**
   * ids sorted stably by key: the same ids (each as often), ascending by
   * key, and ids with equal keys in the order they had before.
   */
  function SortedBy(ids: seq<int>, key: int -> int): (r: seq<int>)
    ensures |r| == |ids|
    ensures forall x :: x in r <==> x in ids
    ensures Distinct(ids) ==> Distinct(r)
    ensures forall i, k :: 0 <= i < k < |r| ==> key(r[i]) <= key(r[k])
    ensures Distinct(ids) ==> forall i, k :: 0 <= i < k < |r| && key(r[i]) == key(r[k]) ==>
              IndexOf(ids, r[i]) < IndexOf(ids, r[k])
  {
    var keys := Keys(ids, key);
    var order := StableOrder(keys);
    PermuteKeepsElements(ids, order);
    SortedByKey(ids, key, keys, order);
    if Distinct(ids) then
      PermuteDistinct(ids, order);
      StableTiesKeepOrder(ids, key, keys, order);
      Permute(ids, order)
    else
      Permute(ids, order)
  }

  /** Listing ids in a key-ordered order of positions lists them ascending by key. */
  lemma SortedByKey(ids: seq<int>, key: int -> int, keys: seq<int>, order: seq<nat>)
    requires |keys| == |ids| && forall i :: 0 <= i < |ids| ==> keys[i] == key(ids[i])
    requires |order| == |ids| && forall i :: 0 <= i < |order| ==> order[i] < |ids|
    requires forall i, k :: 0 <= i < k < |keys| ==> keys[order[i]] <= keys[order[k]]
    ensures forall i, k :: 0 <= i < k < |order| ==> key(Permute(ids, order)[i]) <= key(Permute(ids, order)[k])
  {
    var r := Permute(ids, order);
    forall i, k | 0 <= i < k < |order|
      ensures key(r[i]) <= key(r[k])
    {
      assert keys[order[i]] <= keys[order[k]];
    }
  }

  /** With distinct ids, the stable order's tie-break on positions is a tie-break on first indices. */
  lemma StableTiesKeepOrder(ids: seq<int>, key: int -> int, keys: seq<int>, order: seq<nat>)
    requires Distinct(ids)
    requires |keys| == |ids| && forall i :: 0 <= i < |ids| ==> keys[i] == key(ids[i])
    requires |order| == |ids| && forall i :: 0 <= i < |order| ==> order[i] < |ids|
    requires forall i, k :: 0 <= i < k < |keys| ==>
               keys[order[i]] < keys[order[k]] || (keys[order[i]] == keys[order[k]] && order[i] < order[k])
    ensures forall i, k :: 0 <= i < k < |order| && key(Permute(ids, order)[i]) == key(Permute(ids, order)[k]) ==>
              IndexOf(ids, Permute(ids, order)[i]) < IndexOf(ids, Permute(ids, order)[k])
  {
    var r := Permute(ids, order);
    forall i, k | 0 <= i < k < |order| && key(r[i]) == key(r[k])
      ensures IndexOf(ids, r[i]) < IndexOf(ids, r[k])
    {
      assert keys[order[i]] == keys[order[k]];
      IndexOfDistinct(ids, order[i]);
      IndexOfDistinct(ids, order[k]);
    }
  }

  /**
   * The portal's sort key, as written: a rider id is ordered by the index
   * at which the same number occurs among the points (-1 when it does not
   * occur), not by the rider's own points.
   */
  function ByIndexAmongPoints(ids: seq<int>, points: seq<int>): (r: seq<int>)
    ensures |r| == |ids| && forall x :: x in r <==> x in ids
    ensures Distinct(ids) ==> Distinct(r)
    ensures forall i, k :: 0 <= i < k < |r| ==> IndexOf(points, r[i]) <= IndexOf(points, r[k])
    ensures Distinct(ids) ==> forall i, k :: 0 <= i < k < |r| && IndexOf(points, r[i]) == IndexOf(points, r[k]) ==>
              IndexOf(ids, r[i]) < IndexOf(ids, r[k])
  {
    SortedBy(ids, x => IndexOf(points, x))
  }

  /** The evidently intended order: most points first, equal points in the order the ids had. */
  function ByPointsDescending(ids: seq<int>, totals: map<int, nat>): (r: seq<int>)
    ensures |r| == |ids| && forall x :: x in r <==> x in ids
    ensures Distinct(ids) ==> Distinct(r)
    ensures forall i, k :: 0 <= i < k < |r| ==> Get(totals, r[i]) >= Get(totals, r[k])
    ensures Distinct(ids) ==> forall i, k :: 0 <= i < k < |r| && Get(totals, r[i]) == Get(totals, r[k]) ==>
              IndexOf(ids, r[i]) < IndexOf(ids, r[k])
  {
    var key: int -> int := x => 0 - Get(totals, x);
    SortedBy(ids, key)
  }

  /**
   * Riders 1 and 2 with 5 and 9 points: neither id occurs among the
   * points, both keys are -1 and the stable sort leaves rider 1 first,
   * although rider 2 has more points.
   */
  lemma IndexAmongPointsIgnoresPoints()
    ensures ByIndexAmongPoints([1, 2], [5, 9]) == [1, 2]
  {
    var ids := [1, 2];
    var w := ByIndexAmongPoints(ids, [5, 9]);
    assert Distinct(ids);
    assert IndexOf([5, 9], w[0]) == -1 && IndexOf([5, 9], w[1]) == -1 by {
      assert w[0] in ids && w[1] in ids;
    }
    assert IndexOf(ids, w[0]) < IndexOf(ids, w[1]);
  }

  /** The intended order puts rider 2, with 9 points, before rider 1, with 5. */
  lemma ByPointsPutsLeaderFirst()
    ensures ByPointsDescending([1, 2], map[1 := 5, 2 := 9]) == [2, 1]
  {
    var c := ByPointsDescending([1, 2], map[1 := 5, 2 := 9]);
    assert c[0] in [1, 2] && c[1] in [1, 2];
    assert Distinct([1, 2]);
  }

  /**
   * getRidersPointClassificationRank as written: the GC rank sorted by the
   * index of each rider id among the riders' race points. Errors are
   * those of the race points.
   */
  function PointClassificationRank(snap: Snap, raceId: int, hashOrder: seq<int>): (r: Result<seq<int>>)
    requires ResultsFit(snap)
    ensures r.Err? <==> RacePoints(snap, raceId, false, hashOrder).Err?
    ensures r.Ok? ==> |r.value| == |GcRank(snap, raceId, hashOrder).value|
    ensures r.Ok? ==> forall x :: x in r.value <==> x in GcRank(snap, raceId, hashOrder).value
  {
    var points := RacePoints(snap, raceId, false, hashOrder);
    if points.Err? then Err(IDNotRecognised)
    else Ok(ByIndexAmongPoints(GcRank(snap, raceId, hashOrder).value, points.value))
  }

  /**
   * The points classification as evidently intended: the riders of the
   * GC, each once, by their points in the race, most points first, equal
   * points in GC order.
   */
  function PointClassificationByPoints(snap: Snap, raceId: int, hashOrder: seq<int>): (r: Result<seq<int>>)
    requires ResultsFit(snap)
    ensures r.Err? <==> RacePoints(snap, raceId, false, hashOrder).Err?
    ensures r.Ok? ==> |r.value| == |GcRank(snap, raceId, hashOrder).value|
    ensures r.Ok? ==> forall x :: x in r.value <==> x in GcRank(snap, raceId, hashOrder).value
    ensures r.Ok? ==> forall i, k :: 0 <= i < k < |r.value| ==>
              Get(RacePointTotals(snap, StagesOf(snap, raceId), false).value, r.value[i]) >=
              Get(RacePointTotals(snap, StagesOf(snap, raceId), false).value, r.value[k])
  {
    var points := RacePoints(snap, raceId, false, hashOrder);
    if points.Err? then Err(IDNotRecognised)
    else
      var totals := RacePointTotals(snap, StagesOf(snap, raceId), false).value;
      Ok(ByPointsDescending(GcRank(snap, raceId, hashOrder).value, totals))
  }

  /** With a HashMap order that enumerates the riders, both points classifications list each GC rider once. */
  lemma PointClassificationsDistinct(snap: Snap, raceId: int, hashOrder: seq<int>)
    requires ResultsFit(snap) && Enumerates(hashOrder, snap)
    requires RacePoints(snap, raceId, false, hashOrder).Ok?
    ensures Distinct(PointClassificationRank(snap, raceId, hashOrder).value)
    ensures Distinct(PointClassificationByPoints(snap, raceId, hashOrder).value)
  {
    GcRankOrdered(snap, raceId, hashOrder);
  }

  /** The race's mountain-point totals and their riders in HashMap iteration order. */
  function MountainTotals(snap: Snap, raceId: int): (r: Result<map<int, nat>>)
    requires ResultsFit(snap)
    ensures r.Err? <==> FindRace(snap.races, raceId).None? || !PointsKnown(snap, StagesOf(snap, raceId), true)
    ensures r.Ok? ==> forall id :: id in r.value <==> RacedIn(snap, StagesOf(snap, raceId), id)
  {
    if FindRace(snap.races, raceId).None? then Err(IDNotRecognised)
    else RacePointTotals(snap, StagesOf(snap, raceId), true)
  }

  /**
   * getRidersMountainPointClassificationRank as written: the riders with
   * a mountain total, in the map's iteration order, sorted by the index
   * of each rider id among the totals listed in that same order. An
   * unknown race, an unknown stage or a segment id the store does not know
   * is an error.
   */
  function MountainClassificationRank(snap: Snap, raceId: int, hashOrder: seq<int>): (r: Result<seq<int>>)
    requires ResultsFit(snap)
    ensures r.Err? <==> MountainTotals(snap, raceId).Err?
    ensures r.Ok? ==> forall x :: x in r.value <==> x in hashOrder && RacedIn(snap, StagesOf(snap, raceId), x)
    ensures r.Ok? && Distinct(hashOrder) ==> Distinct(r.value)
  {
    var t := MountainTotals(snap, raceId);
    if t.Err? then Err(IDNotRecognised)
    else
      var riderIds := InHashOrder(hashOrder, t.value);
      var riderPoints := Lookup(t.value, riderIds);
      if Distinct(hashOrder) then
        InHashOrderDistinct(hashOrder, t.value);
        Ok(ByIndexAmongPoints(riderIds, riderPoints))
      else
        Ok(ByIndexAmongPoints(riderIds, riderPoints))
  }

  /**
   * The mountain classification as evidently intended: every rider with a
   * result in the race once, by mountain points, most first, equal points
   * in the map's iteration order.
   */
  function MountainClassificationByPoints(snap: Snap, raceId: int, hashOrder: seq<int>): (r: Result<seq<int>>)
    requires ResultsFit(snap)
    ensures r.Err? <==> MountainTotals(snap, raceId).Err?
    ensures r.Ok? ==> forall x :: x in r.value <==> x in hashOrder && RacedIn(snap, StagesOf(snap, raceId), x)
    ensures r.Ok? && Distinct(hashOrder) ==> Distinct(r.value)
    ensures r.Ok? ==> forall i, k :: 0 <= i < k < |r.value| ==>
              Get(MountainTotals(snap, raceId).value, r.value[i]) >= Get(MountainTotals(snap, raceId).value, r.value[k])
  {
    var t := MountainTotals(snap, raceId);
    if t.Err? then Err(IDNotRecognised)
    else
      var riderIds := InHashOrder(hashOrder, t.value);
      if Distinct(hashOrder) then
        InHashOrderDistinct(hashOrder, t.value);
        Ok(ByPointsDescending(riderIds, t.value))
      else
        Ok(ByPointsDescending(riderIds, t.value))
  }

  /** With a HashMap order that enumerates the riders, the mountain classification lists exactly the riders with a result in the race. */
  lemma MountainClassificationCoversRacers(snap: Snap, raceId: int, hashOrder: seq<int>, id: int)
    requires ResultsFit(snap) && Enumerates(hashOrder, snap)
    requires MountainClassificationByPoints(snap, raceId, hashOrder).Ok?
    ensures id in MountainClassificationByPoints(snap, raceId, hashOrder).value <==>
            RacedIn(snap, StagesOf(snap, raceId), id)
  {
    if RacedIn(snap, StagesOf(snap, raceId), id) {
      var sid :| sid in StagesOf(snap, raceId) && HasResult(snap, id, sid);
      var rider :| rider in snap.riders && sid in rider.results && rider.id == id;
    }
  }
}
