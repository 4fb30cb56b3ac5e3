/**
 * The portal's in-memory store: five lists of records and the operations
 * that create teams, races and riders, add stages and segments, conclude a
 * stage's preparation and register or delete a rider's results. Together
 * they keep the invariant StoreValid, on which the scoring relies: every
 * stored result has one time per segment of its stage plus the start and
 * the finish, and every id a record mentions is known.
 */
module Portal {
  import opened CyclingTypes
  import opened KeyedSort
  import opened StageScoring
  import opened RaceScoring
  import opened Classification

  const MaxNameLength: nat := 30
  const MinStageLength: real := 5.0
  const EarliestBirthYear: int := 1900

  /** How an operation without a return value ends: done, or with the exception it threw. */
  datatype Status = Done | Failed(error: Error)

  /**
   * String.length: the number of UTF-16 code units, one for a character of
   * the basic multilingual plane and two (a surrogate pair) for any other.
   */
  function Utf16Length(s: string): (n: nat)
    ensures |s| <= n <= 2 * |s|
    ensures n == |s| <==> forall i :: 0 <= i < |s| ==> (s[i] as int) < 0x1_0000
    ensures (forall i :: 0 <= i < |s| ==> (s[i] as int) >= 0x1_0000) ==> n == 2 * |s|
    decreases |s|
  {
    if s == [] then 0
    else
      var m := |s| - 1;
      assert forall i :: 0 <= i < m ==> s[..m][i] == s[i];
      Utf16Length(s[..m]) + (if (s[m] as int) < 0x1_0000 then 1 else 2)
  }

  /**
   * A name the portal accepts: not empty and at most 30 UTF-16 code units
   * long. Such a name has at most 30 characters; a name of characters of
   * the basic multilingual plane is accepted exactly when it has 1 to 30.
   */
  predicate ValidName(name: string): (r: bool)
    ensures r ==> 1 <= |name| <= MaxNameLength
    ensures (forall i :: 0 <= i < |name| ==> (name[i] as int) < 0x1_0000) ==> (r <==> 1 <= |name| <= MaxNameLength)
  {
    name != [] && Utf16Length(name) <= MaxNameLength
  }

  /** Sixteen cyclist emoji are sixteen characters but 32 UTF-16 code units: too long a name. */
  lemma SixteenEmojiTooLong()
    ensures |seq(16, _ => '\U{1F6B4}')| <= MaxNameLength && !ValidName(seq(16, _ => '\U{1F6B4}'))
  {
    var name := seq(16, _ => '\U{1F6B4}');
    assert forall i :: 0 <= i < |name| ==> (name[i] as int) >= 0x1_0000;
  }

  // ---- ids ----

  /** No two elements share a key. */
  predicate UniqueKeys<T>(xs: seq<T>, key: T -> int)
  {
    forall i, j :: 0 <= i < j < |xs| ==> key(xs[i]) != key(xs[j])
  }

  /** The running maximum of the create loops: the largest of 0 and the ids. */
  function MaxFromZero(ids: seq<int>): (m: int)
    ensures m >= 0 && (m == 0 || m in ids)
    ensures forall id :: id in ids ==> id <= m
    decreases |ids|
  {
    if |ids| == 0 then 0
    else
      var n := |ids| - 1;
      var p := MaxFromZero(ids[..n]);
      assert forall id :: id in ids <==> id in ids[..n] || id == ids[n];
      if ids[n] > p then ids[n] else p
  }

  /** A stream's max().orElse(0): the largest id, 0 when there is none. */
  function MaxOrZero(ids: seq<int>): (m: int)
    ensures ids == [] ==> m == 0
    ensures ids != [] ==> m in ids
    ensures forall id :: id in ids ==> id <= m
    decreases |ids|
  {
    if |ids| <= 1 then (if ids == [] then 0 else ids[0])
    else
      var n := |ids| - 1;
      var p := MaxOrZero(ids[..n]);
      assert forall id :: id in ids <==> id in ids[..n] || id == ids[n];
      if ids[n] > p then ids[n] else p
  }

  /** An id above the largest key is no element's key, and appending it keeps the keys unique. */
  lemma FreshKey<T>(xs: seq<T>, key: T -> int, x: T, m: int)
    requires UniqueKeys(xs, key)
    requires forall id :: id in Keys(xs, key) ==> id <= m
    requires key(x) == m + 1
    ensures FindFirst(xs, key, key(x)).None?
    ensures UniqueKeys(xs + [x], key)
  {
    var ids := Keys(xs, key);
    assert forall i :: 0 <= i < |xs| ==> ids[i] in ids;
  }

  /** Replacing an element by one with the same key keeps the keys unique. */
  lemma SameKeyUpdate<T>(xs: seq<T>, key: T -> int, k: nat, x: T)
    requires UniqueKeys(xs, key) && k < |xs| && key(x) == key(xs[k])
    ensures UniqueKeys(xs[k := x], key)
  {
  }

  /** An element of an updated list is the new element or one of the old ones. */
  lemma InUpdate<T>(xs: seq<T>, k: nat, x: T, y: T)
    requires k < |xs| && y in xs[k := x]
    ensures y == x || y in xs
  {
    var i :| 0 <= i < |xs| && xs[k := x][i] == y;
    if i != k {
      assert xs[i] == y;
    }
  }

  // ---- the store invariant ----

  predicate UniqueIds(snap: Snap)
  {
    UniqueKeys(snap.teams, TeamId) && UniqueKeys(snap.riders, RiderId) && UniqueKeys(snap.races, RaceId) &&
    UniqueKeys(snap.stages, StageId) && UniqueKeys(snap.segments, SegmentId)
  }

  /** Results exist only for stages waiting for results, so no stage with results gains a segment. */
  predicate ResultsOnlyWhenWaiting(snap: Snap)
  {
    forall r, sid :: r in snap.riders && sid in r.results ==>
      FindStage(snap.stages, sid).Some? && FindStage(snap.stages, sid).value.state == WaitingForResults
  }

  predicate TeamRidersKnown(snap: Snap)
  {
    forall t, id :: t in snap.teams && id in t.riders ==> FindRider(snap.riders, id).Some?
  }

  predicate RaceStagesKnown(snap: Snap)
  {
    forall r, sid :: r in snap.races && sid in r.stages ==> FindStage(snap.stages, sid).Some?
  }

  predicate StageSegmentsKnown(snap: Snap)
  {
    forall s, id :: s in snap.stages && id in s.segments ==> FindSegment(snap.segments, id).Some?
  }

  /** What the operations keep: unique ids, fitting results, and every id a record mentions known. */
  predicate StoreValid(snap: Snap): (r: bool)
    ensures r ==> forall raceId :: FindRace(snap.races, raceId).Some? ==> StagesKnown(snap, StagesOf(snap, raceId))
    ensures r ==> forall rider, sid :: rider in snap.riders && sid in rider.results ==>
              |rider.results[sid]| >= 2 && FindStage(snap.stages, sid).Some? &&
              FindStage(snap.stages, sid).value.state == WaitingForResults
  {
    UniqueIds(snap) && ResultsFit(snap) && ResultsOnlyWhenWaiting(snap) &&
    TeamRidersKnown(snap) && RaceStagesKnown(snap) && StageSegmentsKnown(snap)
  }

  /** The empty store of a new portal is valid. */
  lemma EmptyStoreValid()
    ensures StoreValid(Snap([], [], [], [], []))
  {
  }

  /** A new team with no riders and an id above every team id keeps the store valid. */
  lemma AddTeamKeepsValid(snap: Snap, t: Team)
    requires StoreValid(snap) && t.riders == []
    requires forall id :: id in Keys(snap.teams, TeamId) ==> id < t.id
    ensures StoreValid(snap.(teams := snap.teams + [t]))
  {
    FreshKey(snap.teams, TeamId, t, t.id - 1);
  }

  /** A new race with no stages and an id above every race id keeps the store valid. */
  lemma AddRaceKeepsValid(snap: Snap, race: Race)
    requires StoreValid(snap) && race.stages == []
    requires forall id :: id in Keys(snap.races, RaceId) ==> id < race.id
    ensures StoreValid(snap.(races := snap.races + [race]))
  {
    FreshKey(snap.races, RaceId, race, race.id - 1);
  }

  /**
   * A new rider with no results and an id above every rider id, listed in
   * the riders of the team at index k, keeps the store valid.
   */
  lemma AddRiderKeepsValid(snap: Snap, k: nat, rider: Rider)
    requires StoreValid(snap) && k < |snap.teams| && rider.results == map[]
    requires forall id :: id in Keys(snap.riders, RiderId) ==> id < rider.id
    ensures StoreValid(snap.(teams := snap.teams[k := snap.teams[k].(riders := snap.teams[k].riders + [rider.id])],
                             riders := snap.riders + [rider]))
  {
    var team := snap.teams[k].(riders := snap.teams[k].riders + [rider.id]);
    var next := snap.(teams := snap.teams[k := team], riders := snap.riders + [rider]);
    FreshKey(snap.riders, RiderId, rider, rider.id - 1);
    SameKeyUpdate(snap.teams, TeamId, k, team);
    forall id
      ensures FindRider(next.riders, id) == if FindRider(snap.riders, id).Some? then FindRider(snap.riders, id)
                                            else if rider.id == id then Some(rider) else None
    {
      FindAfterAppend(snap.riders, RiderId, rider, id);
    }
    forall t, id | t in next.teams && id in t.riders
      ensures FindRider(next.riders, id).Some?
    {
      InUpdate(snap.teams, k, team, t);
      if t == team && id !in snap.teams[k].riders {
        assert id == rider.id;
      } else if t == team {
        assert snap.teams[k] in snap.teams;
      }
    }
    assert forall r :: r in next.riders ==> r in snap.riders || r == rider;
  }

  /**
   * A new stage in preparation, with no segments and an id above every
   * stage id, added to the stages of the race at index k, keeps the store
   * valid.
   */
  lemma AddStageKeepsValid(snap: Snap, k: nat, stage: Stage)
    requires StoreValid(snap) && k < |snap.races| && stage.segments == [] && stage.state == Setup
    requires forall id :: id in Keys(snap.stages, StageId) ==> id < stage.id
    ensures StoreValid(snap.(races := snap.races[k := snap.races[k].(stages := snap.races[k].stages + [stage.id])],
                             stages := snap.stages + [stage]))
  {
    var race := snap.races[k].(stages := snap.races[k].stages + [stage.id]);
    var next := snap.(races := snap.races[k := race], stages := snap.stages + [stage]);
    FreshKey(snap.stages, StageId, stage, stage.id - 1);
    SameKeyUpdate(snap.races, RaceId, k, race);
    forall sid
      ensures FindStage(next.stages, sid) == if FindStage(snap.stages, sid).Some? then FindStage(snap.stages, sid)
                                             else if stage.id == sid then Some(stage) else None
    {
      FindAfterAppend(snap.stages, StageId, stage, sid);
    }
    forall r, sid | r in next.races && sid in r.stages
      ensures FindStage(next.stages, sid).Some?
    {
      InUpdate(snap.races, k, race, r);
      if r == race && sid !in snap.races[k].stages {
        assert sid == stage.id;
      } else if r == race {
        assert snap.races[k] in snap.races;
      }
    }
    assert forall st :: st in next.stages ==> st in snap.stages || st == stage;
  }

  /**
   * A new segment with an id above every segment id, listed in the
   * segments of the stage at index k while it is in preparation, keeps the
   * store valid: no rider has a result for that stage yet.
   */
  lemma AddSegmentKeepsValid(snap: Snap, k: nat, seg: Segment)
    requires StoreValid(snap) && k < |snap.stages| && snap.stages[k].state == Setup
    requires FirstIndex(snap.stages, StageId, snap.stages[k].id) == k
    requires forall id :: id in Keys(snap.segments, SegmentId) ==> id < seg.id
    ensures StoreValid(snap.(stages := snap.stages[k := snap.stages[k].(segments := snap.stages[k].segments + [seg.id])],
                             segments := snap.segments + [seg]))
  {
    var stage := snap.stages[k].(segments := snap.stages[k].segments + [seg.id]);
    var next := snap.(stages := snap.stages[k := stage], segments := snap.segments + [seg]);
    FreshKey(snap.segments, SegmentId, seg, seg.id - 1);
    SameKeyUpdate(snap.stages, StageId, k, stage);
    forall sid
      ensures FindStage(next.stages, sid) == if sid == stage.id then Some(stage) else FindStage(snap.stages, sid)
    {
      FindAfterUpdate(snap.stages, StageId, k, stage, sid);
    }
    forall id
      ensures FindSegment(next.segments, id) == if FindSegment(snap.segments, id).Some? then FindSegment(snap.segments, id)
                                                else if seg.id == id then Some(seg) else None
    {
      FindAfterAppend(snap.segments, SegmentId, seg, id);
    }
    forall st, id | st in next.stages && id in st.segments
      ensures FindSegment(next.segments, id).Some?
    {
      InUpdate(snap.stages, k, stage, st);
      if st == stage && id !in snap.stages[k].segments {
        assert id == seg.id;
      } else if st == stage {
        assert snap.stages[k] in snap.stages;
      }
    }
    forall r, sid | r in next.riders && sid in r.results
      ensures sid != stage.id
    {
      assert FindStage(snap.stages, sid).value.state == WaitingForResults;
    }
  }

  /** Marking the stage at index k as waiting for results keeps the store valid. */
  lemma ConcludeKeepsValid(snap: Snap, k: nat)
    requires StoreValid(snap) && k < |snap.stages|
    requires FirstIndex(snap.stages, StageId, snap.stages[k].id) == k
    ensures StoreValid(snap.(stages := snap.stages[k := snap.stages[k].(state := WaitingForResults)]))
  {
    var stage := snap.stages[k].(state := WaitingForResults);
    var next := snap.(stages := snap.stages[k := stage]);
    SameKeyUpdate(snap.stages, StageId, k, stage);
    forall sid
      ensures FindStage(next.stages, sid) == if sid == stage.id then Some(stage) else FindStage(snap.stages, sid)
    {
      FindAfterUpdate(snap.stages, StageId, k, stage, sid);
    }
    assert FindStage(snap.stages, stage.id) == Some(snap.stages[k]);
    forall st, id | st in next.stages && id in st.segments
      ensures FindSegment(next.segments, id).Some?
    {
      InUpdate(snap.stages, k, stage, st);
      if st == stage {
        assert snap.stages[k] in snap.stages;
      }
    }
  }

  /**
   * Storing checkpoints for stage sid in the rider at index k keeps the
   * store valid when the stage is known, waiting for results, and the
   * checkpoints are one per segment plus the start and the finish.
   */
  lemma RegisterKeepsValid(snap: Snap, k: nat, sid: int, checkpoints: seq<int>)
    requires StoreValid(snap) && k < |snap.riders|
    requires FirstIndex(snap.riders, RiderId, snap.riders[k].id) == k
    requires FindStage(snap.stages, sid).Some? && FindStage(snap.stages, sid).value.state == WaitingForResults
    requires |checkpoints| == |FindStage(snap.stages, sid).value.segments| + 2
    ensures StoreValid(snap.(riders := snap.riders[k := snap.riders[k].(results := snap.riders[k].results[sid := checkpoints])]))
  {
    var rider := snap.riders[k].(results := snap.riders[k].results[sid := checkpoints]);
    var next := snap.(riders := snap.riders[k := rider]);
    SameKeyUpdate(snap.riders, RiderId, k, rider);
    forall id
      ensures FindRider(next.riders, id) == if id == rider.id then Some(rider) else FindRider(snap.riders, id)
    {
      FindAfterUpdate(snap.riders, RiderId, k, rider, id);
    }
    forall r, s | r in next.riders && s in r.results
      ensures ResultFits(next.stages, r, s)
      ensures FindStage(next.stages, s).value.state == WaitingForResults
    {
      InUpdate(snap.riders, k, rider, r);
      if r == rider && s != sid {
        assert snap.riders[k] in snap.riders;
      }
    }
  }

  /** Removing the result for stage sid from the rider at index k keeps the store valid. */
  lemma DeleteKeepsValid(snap: Snap, k: nat, sid: int)
    requires StoreValid(snap) && k < |snap.riders|
    requires FirstIndex(snap.riders, RiderId, snap.riders[k].id) == k
    ensures StoreValid(snap.(riders := snap.riders[k := snap.riders[k].(results := snap.riders[k].results - {sid})]))
  {
    var rider := snap.riders[k].(results := snap.riders[k].results - {sid});
    var next := snap.(riders := snap.riders[k := rider]);
    SameKeyUpdate(snap.riders, RiderId, k, rider);
    forall id
      ensures FindRider(next.riders, id) == if id == rider.id then Some(rider) else FindRider(snap.riders, id)
    {
      FindAfterUpdate(snap.riders, RiderId, k, rider, id);
    }
    forall r, s | r in next.riders && s in r.results
      ensures ResultFits(next.stages, r, s)
      ensures FindStage(next.stages, s).value.state == WaitingForResults
    {
      InUpdate(snap.riders, k, rider, r);
      if r == rider {
        assert snap.riders[k] in snap.riders;
      }
    }
  }

  /** Deleting a result just registered gives back the store as it was. */
  lemma DeleteUndoesRegister(snap: Snap, k: nat, sid: int, checkpoints: seq<int>)
    requires k < |snap.riders| && sid !in snap.riders[k].results
    ensures var rider := snap.riders[k].(results := snap.riders[k].results[sid := checkpoints]);
            snap.riders[k := rider][k := rider.(results := rider.results - {sid})] == snap.riders
  {
    var rider := snap.riders[k].(results := snap.riders[k].results[sid := checkpoints]);
    assert rider.results - {sid} == snap.riders[k].results;
  }

  /**
   * On a valid store the race-level scoring fails only for an unknown race:
   * every stage a race lists is known, and so is every segment a stage
   * lists.
   */
  lemma ValidStoreScoresKnownRaces(snap: Snap, raceId: int, hashOrder: seq<int>)
    requires StoreValid(snap) && FindRace(snap.races, raceId).Some?
    ensures GcRank(snap, raceId, hashOrder).Ok? && GcTimes(snap, raceId, hashOrder).Ok?
    ensures RacePoints(snap, raceId, false, hashOrder).Ok? && RacePoints(snap, raceId, true, hashOrder).Ok?
    ensures PointClassificationRank(snap, raceId, hashOrder).Ok?
    ensures MountainClassificationRank(snap, raceId, hashOrder).Ok?
  {
    var sids := StagesOf(snap, raceId);
    assert FindRace(snap.races, raceId).value in snap.races;
    forall sid | sid in sids
      ensures StagePointsOf(snap, sid, true).Ok? && StagePointsOf(snap, sid, false).Ok?
    {
      StageSegmentsResolve(snap, sid);
    }
  }

  /** On a valid store every segment of a known stage resolves, so its points can be computed. */
  lemma StageSegmentsResolve(snap: Snap, sid: int)
    requires StoreValid(snap) && FindStage(snap.stages, sid).Some?
    ensures SegmentPointsInStage(snap, sid, true).Ok? && SegmentPointsInStage(snap, sid, false).Ok?
    ensures PointsInStage(snap, sid).Ok?
  {
    var st := FindStage(snap.stages, sid).value;
    assert st in snap.stages;
    assert forall id :: id in st.segments ==> FindSegment(snap.segments, id).Some?;
  }

  /** Some stage, in any race, already has this name: the stream's anyMatch over the stage list. */
  predicate StageNameTaken(stages: seq<Stage>, name: string): (r: bool)
    ensures r <==> exists i :: 0 <= i < |stages| && stages[i].name == name
    ensures r ==> name in NamesOf(stages)
  {
    exists st :: st in stages && st.name == name
  }

  /** The stages' names, in list order. */
  function NamesOf(stages: seq<Stage>): (names: seq<string>)
    ensures |names| == |stages| && forall i :: 0 <= i < |stages| ==> names[i] == stages[i].name
  {
    seq(|stages|, i requires 0 <= i < |stages| => stages[i].name)
  }

  /**
   * The portal: the five record lists it keeps. Each operation checks its
   * arguments in the portal's order and changes nothing when it throws.
   */
  class CyclingPortal {
    var teams: seq<Team>
    var riders: seq<Rider>
    var races: seq<Race>
    var stages: seq<Stage>
    var segments: seq<Segment>

    /** The store as the scoring reads it. */
    function Snapshot(): Snap
      reads this
    {
      Snap(teams, riders, races, stages, segments)
    }

    predicate Valid()
      reads this
    {
      StoreValid(Snapshot())
    }

    /** A new portal holds nothing. */
    constructor()
      ensures Valid()
      ensures teams == [] && riders == [] && races == [] && stages == [] && segments == []
    {
      teams, riders, races, stages, segments := [], [], [], [], [];
      EmptyStoreValid();
    }

    /**
     * createTeam: a valid name no team has gets the id one above the
     * largest of 0 and the team ids. One scan finds that largest id and
     * stops at the first team with the same name.
     */
    method CreateTeam(name: string) returns (r: Result<int>)
      requires Valid()
      modifies this
      ensures Valid()
      ensures !ValidName(name) ==> r == Err(InvalidName)
      ensures ValidName(name) && (exists t :: t in old(teams) && t.name == name) ==> r == Err(IllegalName)
      ensures r.Ok? <==> ValidName(name) && forall t :: t in old(teams) ==> t.name != name
      ensures r.Ok? ==> r.value == MaxFromZero(Keys(old(teams), TeamId)) + 1 && FindTeam(old(teams), r.value).None?
      ensures teams == if r.Ok? then old(teams) + [Team(r.value, name, [])] else old(teams)
      ensures riders == old(riders) && races == old(races) && stages == old(stages) && segments == old(segments)
    {
      if !ValidName(name) {
        return Err(InvalidName);
      }
      ghost var ids := Keys(teams, TeamId);
      var currentMax := 0;
      var i := 0;
      while i < |teams|
        invariant 0 <= i <= |teams|
        invariant currentMax == MaxFromZero(ids[..i])
        invariant forall j :: 0 <= j < i ==> teams[j].name != name
      {
        assert ids[..i + 1][..i] == ids[..i];
        if teams[i].id > currentMax {
          currentMax := teams[i].id;
        }
        if teams[i].name == name {
          return Err(IllegalName);
        }
        i := i + 1;
      }
      assert ids[..i] == ids;
      var team := Team(currentMax + 1, name, []);
      AddTeamKeepsValid(Snapshot(), team);
      FreshKey(teams, TeamId, team, currentMax);
      teams := teams + [team];
      return Ok(team.id);
    }

    /**
     * createRace: a valid name no race has gets the id one above the
     * largest of 0 and the race ids, and a race with no stages.
     */
    method CreateRace(name: string) returns (r: Result<int>)
      requires Valid()
      modifies this
      ensures Valid()
      ensures !ValidName(name) ==> r == Err(InvalidName)
      ensures ValidName(name) && (exists race :: race in old(races) && race.name == name) ==> r == Err(IllegalName)
      ensures r.Ok? <==> ValidName(name) && forall race :: race in old(races) ==> race.name != name
      ensures r.Ok? ==> r.value == MaxFromZero(Keys(old(races), RaceId)) + 1 && FindRace(old(races), r.value).None?
      ensures races == if r.Ok? then old(races) + [Race(r.value, name, [])] else old(races)
      ensures teams == old(teams) && riders == old(riders) && stages == old(stages) && segments == old(segments)
    {
      if !ValidName(name) {
        return Err(InvalidName);
      }
      ghost var ids := Keys(races, RaceId);
      var currentMax := 0;
      var i := 0;
      while i < |races|
        invariant 0 <= i <= |races|
        invariant currentMax == MaxFromZero(ids[..i])
        invariant forall j :: 0 <= j < i ==> races[j].name != name
      {
        assert ids[..i + 1][..i] == ids[..i];
        if races[i].id > currentMax {
          currentMax := races[i].id;
        }
        if races[i].name == name {
          return Err(IllegalName);
        }
        i := i + 1;
      }
      assert ids[..i] == ids;
      var race := Race(currentMax + 1, name, []);
      AddRaceKeepsValid(Snapshot(), race);
      FreshKey(races, RaceId, race, currentMax);
      races := races + [race];
      return Ok(race.id);
    }
  
    /**
     * createRider: the team must exist and the year of birth must not be
     * before 1900. The rider gets the id one above the largest rider id (1
     * when there is none), joins the team's list and has no results.
     */
    method CreateRider(teamId: int, name: string, yearOfBirth: int) returns (r: Result<int>)
      requires Valid()
      modifies this
      ensures Valid()
      ensures FindTeam(old(teams), teamId).None? ==> r == Err(IDNotRecognised)
      ensures FindTeam(old(teams), teamId).Some? && yearOfBirth < EarliestBirthYear ==> r == Err(IllegalArgument)
      ensures r.Ok? <==> FindTeam(old(teams), teamId).Some? && yearOfBirth >= EarliestBirthYear
      ensures r.Ok? ==> r.value == MaxOrZero(Keys(old(riders), RiderId)) + 1 && FindRider(old(riders), r.value).None?
      ensures r.Ok? ==> riders == old(riders) + [Rider(r.value, name, yearOfBirth, map[])]
      ensures r.Ok? ==>
                var k := FirstIndex(old(teams), TeamId, teamId);
                teams == old(teams)[k := old(teams)[k].(riders := old(teams)[k].riders + [r.value])]
      ensures r.Ok? ==>
                var team := FindTeam(old(teams), teamId).value;
                forall id :: FindTeam(teams, id) == if id == teamId then Some(team.(riders := team.riders + [r.value])) else FindTeam(old(teams), id)
      ensures r.Err? ==> teams == old(teams) && riders == old(riders)
      ensures races == old(races) && stages == old(stages) && segments == old(segments)
    {
      var k := FirstIndex(teams, TeamId, teamId);
      if k == -1 {
        return Err(IDNotRecognised);
      }
      if yearOfBirth < EarliestBirthYear {
        return Err(IllegalArgument);
      }
      var id := MaxOrZero(Keys(riders, RiderId)) + 1;
      var rider := Rider(id, name, yearOfBirth, map[]);
      AddRiderKeepsValid(Snapshot(), k, rider);
      FreshKey(riders, RiderId, rider, id - 1);
      var team := teams[k].(riders := teams[k].riders + [id]);
      forall other
        ensures FindTeam(teams[k := team], other) == if other == teamId then Some(team) else FindTeam(teams, other)
      {
        FindAfterUpdate(teams, TeamId, k, team, other);
      }
      teams := teams[k := team];
      riders := riders + [rider];
      return Ok(id);
    }

    /**
     * addStageToRace: the race must exist, the name must be valid and no
     * stage of any race may have it, and the stage must be at least 5 km
     * long. The stage gets the id one above the largest stage id, starts in
     * preparation with no segments, and is listed by its race.
     */
    method AddStageToRace(raceId: int, name: string, length: real, kind: StageType) returns (r: Result<int>)
      requires Valid()
      modifies this
      ensures Valid()
      ensures FindRace(old(races), raceId).None? ==> r == Err(IDNotRecognised)
      ensures FindRace(old(races), raceId).Some? && !ValidName(name) ==> r == Err(InvalidName)
      ensures FindRace(old(races), raceId).Some? && ValidName(name) && StageNameTaken(old(stages), name) ==>
                r == Err(IllegalName)
      ensures FindRace(old(races), raceId).Some? && ValidName(name) && !StageNameTaken(old(stages), name) && length < MinStageLength ==>
                r == Err(InvalidLength)
      ensures r.Ok? <==>
                (FindRace(old(races), raceId).Some? && ValidName(name) && !StageNameTaken(old(stages), name) && length >= MinStageLength)
      ensures r.Ok? ==> r.value == MaxOrZero(Keys(old(stages), StageId)) + 1 && FindStage(old(stages), r.value).None?
      ensures r.Ok? ==> stages == old(stages) + [Stage(r.value, name, length, kind, [], Setup)]
      ensures r.Ok? ==>
                var k := FirstIndex(old(races), RaceId, raceId);
                races == old(races)[k := old(races)[k].(stages := old(races)[k].stages + [r.value])]
      ensures r.Ok? ==>
                var race := FindRace(old(races), raceId).value;
                forall id :: FindRace(races, id) == if id == raceId then Some(race.(stages := race.stages + [r.value])) else FindRace(old(races), id)
      ensures r.Err? ==> races == old(races) && stages == old(stages)
      ensures teams == old(teams) && riders == old(riders) && segments == old(segments)
    {
      var k := FirstIndex(races, RaceId, raceId);
      if k == -1 {
        return Err(IDNotRecognised);
      }
      if !ValidName(name) {
        return Err(InvalidName);
      }
      if StageNameTaken(stages, name) {
        return Err(IllegalName);
      }
      if length < MinStageLength {
        return Err(InvalidLength);
      }
      var id := MaxOrZero(Keys(stages, StageId)) + 1;
      var stage := Stage(id, name, length, kind, [], Setup);
      AddStageKeepsValid(Snapshot(), k, stage);
      FreshKey(stages, StageId, stage, id - 1);
      var race := races[k].(stages := races[k].stages + [id]);
      forall other
        ensures FindRace(races[k := race], other) == if other == raceId then Some(race) else FindRace(races, other)
      {
        FindAfterUpdate(races, RaceId, k, race, other);
      }
      races := races[k := race];
      stages := stages + [stage];
      return Ok(id);
    }

    /**
     * addCategorizedClimbToStage (and, with a sprint, addIntermediateSprintToStage):
     * the stage must exist, still be in preparation, not be a time trial,
     * and the segment must lie within its length. The segment gets the id
     * one above the largest segment id and is listed by its stage.
     */
    method AddCategorizedClimbToStage(stageId: int, location: real, kind: SegmentType) returns (r: Result<int>)
      requires Valid()
      modifies this
      ensures Valid()
      ensures FindStage(old(stages), stageId).None? ==> r == Err(IDNotRecognised)
      ensures FindStage(old(stages), stageId).Some? ==>
                var st := FindStage(old(stages), stageId).value;
                (st.state != Setup ==> r == Err(InvalidStageState)) &&
                (st.state == Setup && st.kind == TT ==> r == Err(InvalidStageType)) &&
                (st.state == Setup && st.kind != TT && location > st.length ==> r == Err(InvalidLocation)) &&
                (r.Ok? <==> st.state == Setup && st.kind != TT && location <= st.length)
      ensures r.Ok? ==> r.value == MaxOrZero(Keys(old(segments), SegmentId)) + 1 && FindSegment(old(segments), r.value).None?
      ensures r.Ok? ==> segments == old(segments) + [Segment(r.value, kind, location)]
      ensures r.Ok? ==>
                var k := FirstIndex(old(stages), StageId, stageId);
                stages == old(stages)[k := old(stages)[k].(segments := old(stages)[k].segments + [r.value])]
      ensures r.Ok? ==>
                var st := FindStage(old(stages), stageId).value;
                forall id :: FindStage(stages, id) == if id == stageId then Some(st.(segments := st.segments + [r.value])) else FindStage(old(stages), id)
      ensures r.Err? ==> stages == old(stages) && segments == old(segments)
      ensures teams == old(teams) && riders == old(riders) && races == old(races)
    {
      var k := FirstIndex(stages, StageId, stageId);
      if k == -1 {
        return Err(IDNotRecognised);
      }
      if stages[k].state != Setup {
        return Err(InvalidStageState);
      }
      if stages[k].kind == TT {
        return Err(InvalidStageType);
      }
      if location > stages[k].length {
        return Err(InvalidLocation);
      }
      var id := MaxOrZero(Keys(segments, SegmentId)) + 1;
      var seg := Segment(id, kind, location);
      AddSegmentKeepsValid(Snapshot(), k, seg);
      FreshKey(segments, SegmentId, seg, id - 1);
      var stage := stages[k].(segments := stages[k].segments + [id]);
      forall other
        ensures FindStage(stages[k := stage], other) == if other == stageId then Some(stage) else FindStage(stages, other)
      {
        FindAfterUpdate(stages, StageId, k, stage, other);
      }
      stages := stages[k := stage];
      segments := segments + [seg];
      return Ok(id);
    }

    /** addIntermediateSprintToStage: a climb-free segment added under the same checks. */
    method AddIntermediateSprintToStage(stageId: int, location: real) returns (r: Result<int>)
      requires Valid()
      modifies this
      ensures Valid()
      ensures FindStage(old(stages), stageId).None? ==> r == Err(IDNotRecognised)
      ensures FindStage(old(stages), stageId).Some? ==>
                var st := FindStage(old(stages), stageId).value;
                (st.state != Setup ==> r == Err(InvalidStageState)) &&
                (st.state == Setup && st.kind == TT ==> r == Err(InvalidStageType)) &&
                (st.state == Setup && st.kind != TT && location > st.length ==> r == Err(InvalidLocation)) &&
                (r.Ok? <==> st.state == Setup && st.kind != TT && location <= st.length)
      ensures r.Ok? ==> r.value == MaxOrZero(Keys(old(segments), SegmentId)) + 1
      ensures r.Ok? ==> segments == old(segments) + [Segment(r.value, Sprint, location)]
      ensures r.Ok? ==>
                var st := FindStage(old(stages), stageId).value;
                forall id :: FindStage(stages, id) == if id == stageId then Some(st.(segments := st.segments + [r.value])) else FindStage(old(stages), id)
      ensures r.Err? ==> stages == old(stages) && segments == old(segments)
      ensures teams == old(teams) && riders == old(riders) && races == old(races)
    {
      r := AddCategorizedClimbToStage(stageId, location, Sprint);
    }
  
    /**
     * concludeStagePreparation: a known stage still in preparation moves
     * to waiting for results; a stage already waiting is refused.
     */
    method ConcludeStagePreparation(stageId: int) returns (e: Status)
      requires Valid()
      modifies this
      ensures Valid()
      ensures FindStage(old(stages), stageId).None? ==> e == Failed(IDNotRecognised)
      ensures FindStage(old(stages), stageId).Some? && FindStage(old(stages), stageId).value.state == WaitingForResults ==>
                e == Failed(InvalidStageState)
      ensures e == Done <==> FindStage(old(stages), stageId).Some? && FindStage(old(stages), stageId).value.state == Setup
      ensures e == Done ==>
                var k := FirstIndex(old(stages), StageId, stageId);
                stages == old(stages)[k := old(stages)[k].(state := WaitingForResults)]
      ensures e == Done ==>
                var st := FindStage(old(stages), stageId).value;
                forall id :: FindStage(stages, id) == if id == stageId then Some(st.(state := WaitingForResults)) else FindStage(old(stages), id)
      ensures e.Failed? ==> stages == old(stages)
      ensures teams == old(teams) && riders == old(riders) && races == old(races) && segments == old(segments)
    {
      var k := FirstIndex(stages, StageId, stageId);
      if k == -1 {
        return Failed(IDNotRecognised);
      }
      if stages[k].state == WaitingForResults {
        return Failed(InvalidStageState);
      }
      ConcludeKeepsValid(Snapshot(), k);
      var stage := stages[k].(state := WaitingForResults);
      forall other
        ensures FindStage(stages[k := stage], other) == if other == stageId then Some(stage) else FindStage(stages, other)
      {
        FindAfterUpdate(stages, StageId, k, stage, other);
      }
      stages := stages[k := stage];
      return Done;
    }

    /**
     * registerRiderResultsInStage: rider and stage must be known, the rider
     * must have no result for the stage yet, the stage must be waiting for
     * results, and there must be one checkpoint per segment plus start and
     * finish. The checkpoints are then the rider's result for the stage.
     */
    method RegisterRiderResultsInStage(stageId: int, riderId: int, checkpoints: seq<int>) returns (e: Status)
      requires Valid()
      modifies this
      ensures Valid()
      ensures FindRider(old(riders), riderId).None? || FindStage(old(stages), stageId).None? ==> e == Failed(IDNotRecognised)
      ensures FindRider(old(riders), riderId).Some? && FindStage(old(stages), stageId).Some? ==>
                var rider := FindRider(old(riders), riderId).value;
                var st := FindStage(old(stages), stageId).value;
                (stageId in rider.results ==> e == Failed(DuplicatedResult)) &&
                (stageId !in rider.results && st.state != WaitingForResults ==> e == Failed(InvalidStageState)) &&
                (stageId !in rider.results && st.state == WaitingForResults && |checkpoints| != |st.segments| + 2 ==>
                   e == Failed(InvalidCheckpoints)) &&
                (e == Done <==> stageId !in rider.results && st.state == WaitingForResults && |checkpoints| == |st.segments| + 2)
      ensures e == Done ==>
                var k := FirstIndex(old(riders), RiderId, riderId);
                riders == old(riders)[k := old(riders)[k].(results := old(riders)[k].results[stageId := checkpoints])]
      ensures e == Done ==>
                var rider := FindRider(old(riders), riderId).value;
                forall id :: FindRider(riders, id) == if id == riderId then Some(rider.(results := rider.results[stageId := checkpoints])) else FindRider(old(riders), id)
      ensures e.Failed? ==> riders == old(riders)
      ensures teams == old(teams) && races == old(races) && stages == old(stages) && segments == old(segments)
    {
      var k := FirstIndex(riders, RiderId, riderId);
      var j := FirstIndex(stages, StageId, stageId);
      if k == -1 || j == -1 {
        return Failed(IDNotRecognised);
      }
      if stageId in riders[k].results {
        return Failed(DuplicatedResult);
      }
      if stages[j].state != WaitingForResults {
        return Failed(InvalidStageState);
      }
      if |checkpoints| != |stages[j].segments| + 2 {
        return Failed(InvalidCheckpoints);
      }
      RegisterKeepsValid(Snapshot(), k, stageId, checkpoints);
      var rider := riders[k].(results := riders[k].results[stageId := checkpoints]);
      forall other
        ensures FindRider(riders[k := rider], other) == if other == riderId then Some(rider) else FindRider(riders, other)
      {
        FindAfterUpdate(riders, RiderId, k, rider, other);
      }
      riders := riders[k := rider];
      return Done;
    }

    /**
     * deleteRiderResultsInStage: the rider must be known; the rider's
     * result for the stage, if any, is removed. The stage itself is not
     * looked up.
     */
    method DeleteRiderResultsInStage(stageId: int, riderId: int) returns (e: Status)
      requires Valid()
      modifies this
      ensures Valid()
      ensures e == if FindRider(old(riders), riderId).None? then Failed(IDNotRecognised) else Done
      ensures e == Done ==>
                var k := FirstIndex(old(riders), RiderId, riderId);
                riders == old(riders)[k := old(riders)[k].(results := old(riders)[k].results - {stageId})]
      ensures e == Done ==>
                var rider := FindRider(old(riders), riderId).value;
                forall id :: FindRider(riders, id) == if id == riderId then Some(rider.(results := rider.results - {stageId})) else FindRider(old(riders), id)
      ensures e.Failed? ==> riders == old(riders)
      ensures teams == old(teams) && races == old(races) && stages == old(stages) && segments == old(segments)
    {
      var k := FirstIndex(riders, RiderId, riderId);
      if k == -1 {
        return Failed(IDNotRecognised);
      }
      DeleteKeepsValid(Snapshot(), k, stageId);
      var rider := riders[k].(results := riders[k].results - {stageId});
      forall other
        ensures FindRider(riders[k := rider], other) == if other == riderId then Some(rider) else FindRider(riders, other)
      {
        FindAfterUpdate(riders, RiderId, k, rider, other);
      }
      riders := riders[k := rider];
      return Done;
    }
  }
}
