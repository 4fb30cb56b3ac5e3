/**
 * Entities, error conditions and time arithmetic of the cycling portal.
 *
 * Times of day are integer microseconds after midnight. A Java LocalTime
 * value built as MIDNIGHT.plus(duration) wraps around a day, which
 * TimeOfDay makes explicit.
 */
module CyclingTypes {

  datatype StageType = Flat | MediumMountain | HighMountain | TT

  datatype SegmentType = Sprint | HC | C1 | C2 | C3 | C4

  datatype StageState = Setup | WaitingForResults

  /** The exception classes the portal throws. */
  datatype Error =
    | IDNotRecognised
    | IllegalName
    | InvalidName
    | InvalidLength
    | InvalidLocation
    | InvalidStageState
    | InvalidStageType
    | DuplicatedResult
    | InvalidCheckpoints
    | IllegalArgument

  datatype Result<T> = Ok(value: T) | Err(error: Error) {
    predicate IsFailure() { Err? }
    function PropagateFailure<U>(): Result<U>
      requires Err?
    {
      Err(error)
    }
    function Extract(): T
      requires Ok?
    {
      value
    }
  }

  datatype Option<T> = None | Some(value: T)

  datatype Team = Team(id: int, name: string, riders: seq<int>)

  /** results maps a stage id to the rider's checkpoint times: start, one per segment, finish. */
  datatype Rider = Rider(id: int, name: string, yearOfBirth: int, results: map<int, seq<int>>)

  datatype Race = Race(id: int, name: string, stages: seq<int>)

  datatype Stage = Stage(id: int, name: string, length: real, kind: StageType,
                         segments: seq<int>, state: StageState)

  datatype Segment = Segment(id: int, kind: SegmentType, location: real)

  /** A read-only view of the whole store, as the classification engine sees it. */
  datatype Snap = Snap(teams: seq<Team>, riders: seq<Rider>, races: seq<Race>,
                       stages: seq<Stage>, segments: seq<Segment>)

  const MicrosPerMilli: int := 1_000
  const MicrosPerSecond: int := 1_000_000
  const MicrosPerDay: int := 86_400_000_000

  /**
   * ChronoUnit.MILLIS.between(from, to) on two microsecond times: the
   * difference in whole milliseconds, truncated toward zero as Java's long
   * division does (Dafny's own division would floor negative differences).
   */
  function MillisBetween(from: int, to: int): (m: int)
    ensures m > 0 <==> to - from >= MicrosPerMilli
    ensures m < 0 <==> to - from <= -MicrosPerMilli
    ensures m < 1000 <==> to - from < 1000 * MicrosPerMilli
  {
    var d := to - from;
    if d >= 0 then d / MicrosPerMilli else -((-d) / MicrosPerMilli)
  }

  /** LocalTime.MIDNIGHT.plus(d): the duration d wrapped into one day. */
  function TimeOfDay(d: int): (t: int)
    ensures 0 <= t < MicrosPerDay
    ensures 0 <= d < MicrosPerDay ==> t == d
  {
    d % MicrosPerDay
  }

  /** LocalTime.toSecondOfDay: whole seconds, the fraction dropped. */
  function SecondOfDay(t: int): (s: int)
    requires 0 <= t
    ensures s * MicrosPerSecond <= t < s * MicrosPerSecond + MicrosPerSecond
  {
    t / MicrosPerSecond
  }

  // ---- lookups ----

  /**
   * The first element whose key is id, as findAny on a sequential stream
   * filtered by id; None plays the role of orElse(null).
   */
  function FindFirst<T>(xs: seq<T>, key: T -> int, id: int): (r: Option<T>)
    ensures r.Some? ==> r.value in xs && key(r.value) == id
    ensures r.None? <==> forall x :: x in xs ==> key(x) != id
  {
    if xs == [] then None
    else if key(xs[0]) == id then Some(xs[0])
    else FindFirst(xs[1..], key, id)
  }

  function RiderId(r: Rider): int { r.id }
  function StageId(s: Stage): int { s.id }
  function RaceId(r: Race): int { r.id }
  function SegmentId(s: Segment): int { s.id }
  function TeamId(t: Team): int { t.id }

  function FindRider(rs: seq<Rider>, id: int): Option<Rider> { FindFirst(rs, RiderId, id) }
  function FindStage(ss: seq<Stage>, id: int): Option<Stage> { FindFirst(ss, StageId, id) }
  function FindRace(rs: seq<Race>, id: int): Option<Race> { FindFirst(rs, RaceId, id) }
  function FindSegment(ss: seq<Segment>, id: int): Option<Segment> { FindFirst(ss, SegmentId, id) }
  function FindTeam(ts: seq<Team>, id: int): Option<Team> { FindFirst(ts, TeamId, id) }

  /** The index of the element FindFirst finds, -1 when it finds none. */
  function FirstIndex<T>(xs: seq<T>, key: T -> int, id: int): (k: int)
    ensures -1 <= k < |xs|
    ensures k == -1 <==> FindFirst(xs, key, id).None?
    ensures k >= 0 ==> FindFirst(xs, key, id) == Some(xs[k]) && key(xs[k]) == id
    ensures k >= 0 ==> forall j :: 0 <= j < k ==> key(xs[j]) != id
  {
    if xs == [] then -1
    else if key(xs[0]) == id then 0
    else
      var k := FirstIndex(xs[1..], key, id);
      if k == -1 then -1 else k + 1
  }

  /** An element whose key no earlier element has is the one found under that key. */
  lemma {:induction false} FindFirstAt<T>(xs: seq<T>, key: T -> int, i: nat)
    requires i < |xs| && forall j :: 0 <= j < i ==> key(xs[j]) != key(xs[i])
    ensures FindFirst(xs, key, key(xs[i])) == Some(xs[i])
    decreases i
  {
    if i > 0 {
      assert xs[1..][i - 1] == xs[i];
      FindFirstAt(xs[1..], key, i - 1);
    }
  }

  /** Appending an element leaves every earlier find as it was and makes the new key findable. */
  lemma {:induction false} FindAfterAppend<T>(xs: seq<T>, key: T -> int, x: T, id: int)
    ensures FindFirst(xs + [x], key, id) ==
            if FindFirst(xs, key, id).Some? then FindFirst(xs, key, id)
            else if key(x) == id then Some(x) else None
    decreases |xs|
  {
    if xs != [] {
      assert (xs + [x])[1..] == xs[1..] + [x];
      FindAfterAppend(xs[1..], key, x, id);
    }
  }

  /**
   * Replacing the found element by one with the same key: the key now
   * finds the new element, every other key what it found before.
   */
  lemma {:induction false} FindAfterUpdate<T>(xs: seq<T>, key: T -> int, k: nat, x: T, id: int)
    requires k < |xs| && FirstIndex(xs, key, key(x)) == k
    ensures FindFirst(xs[k := x], key, id) == if id == key(x) then Some(x) else FindFirst(xs, key, id)
    decreases |xs|
  {
    if k > 0 {
      assert xs[k := x][1..] == xs[1..][k - 1 := x];
      FindAfterUpdate(xs[1..], key, k - 1, x, id);
    }
  }
}
