/**
 * The fixed points tables: points for a finishing rank (0 = winner) in a
 * stage of a given type, or in a segment of a given category.
 */
module Points {
  import opened CyclingTypes

  const TableSize: nat := 15

  const FlatTable: seq<nat> := [50, 30, 20, 18, 16, 14, 12, 10, 8, 7, 6, 5, 4, 3, 2]
  const MediumMountainTable: seq<nat> := [30, 25, 22, 19, 17, 15, 13, 11, 9, 7, 6, 5, 4, 3, 2]
  const HighMountainTable: seq<nat> := [20, 17, 15, 13, 11, 10, 9, 8, 7, 6, 5, 4, 3, 2, 1]

  const SprintTable: seq<nat> := [20, 17, 15, 13, 11, 10, 9, 8, 7, 6, 5, 4, 3, 2, 1]
  const HCTable: seq<nat> := [20, 15, 12, 10, 8, 6, 4, 2, 0, 0, 0, 0, 0, 0, 0]
  const C1Table: seq<nat> := [10, 8, 6, 4, 2, 1, 0, 0, 0, 0, 0, 0, 0, 0, 0]
  const C2Table: seq<nat> := [5, 3, 2, 1, 0, 0, 0, 0, 0, 0, 0, 0, 0, 0, 0]
  const C3Table: seq<nat> := [2, 1, 0, 0, 0, 0, 0, 0, 0, 0, 0, 0, 0, 0, 0]
  const C4Table: seq<nat> := [1, 0, 0, 0, 0, 0, 0, 0, 0, 0, 0, 0, 0, 0, 0]

  /** The stage-finish table; high-mountain stages and time trials share one. */
  function StageTable(t: StageType): (table: seq<nat>)
    ensures |table| == TableSize
  {
    match t
    case Flat => FlatTable
    case MediumMountain => MediumMountainTable
    case HighMountain | TT => HighMountainTable
  }

  function SegmentTable(t: SegmentType): (table: seq<nat>)
    ensures |table| == TableSize
  {
    match t
    case Sprint => SprintTable
    case HC => HCTable
    case C1 => C1Table
    case C2 => C2Table
    case C3 => C3Table
    case C4 => C4Table
  }

  /**
   * The table lookup as the portal writes it: ranks above 15 score nothing,
   * every other rank indexes the 15-entry table. Rank 15 passes the guard
   * and indexes past the end of the table (None stands for the
   * ArrayIndexOutOfBoundsException).
   */
  function StagePointsAsWritten(t: StageType, rank: nat): (r: Option<nat>)
    ensures r.None? <==> rank == TableSize
    ensures rank < TableSize ==> r == Some(StageTable(t)[rank])
    ensures rank > TableSize ==> r == Some(0)
  {
    if rank > 15 then Some(0)
    else if rank < |StageTable(t)| then Some(StageTable(t)[rank])
    else None
  }

  /** The segment table lookup as the portal writes it; it fails for rank 15 in the same way. */
  function SegmentPointsAsWritten(t: SegmentType, rank: nat): (r: Option<nat>)
    ensures r.None? <==> rank == TableSize
    ensures rank < TableSize ==> r == Some(SegmentTable(t)[rank])
    ensures rank > TableSize ==> r == Some(0)
  {
    if rank > 15 then Some(0)
    else if rank < |SegmentTable(t)| then Some(SegmentTable(t)[rank])
    else None
  }

  /** Sixteen finishers make the sixteenth (rank 15) fall off the stage table. */
  lemma StagePointsAsWrittenFailsAtFifteen(t: StageType)
    ensures StagePointsAsWritten(t, 15).None?
    ensures StagePointsAsWritten(t, 14).Some? && StagePointsAsWritten(t, 16) == Some(0)
  {
  }

  /** The same off-by-one in the segment table. */
  lemma SegmentPointsAsWrittenFailsAtFifteen(t: SegmentType)
    ensures SegmentPointsAsWritten(t, 15).None?
    ensures SegmentPointsAsWritten(t, 14).Some? && SegmentPointsAsWritten(t, 16) == Some(0)
  {
  }

  /**
   * Stage-finish points with the guard the tables evidently intend: every
   * rank past the table scores 0.
   */
  function StagePoints(t: StageType, rank: nat): (r: nat)
    ensures rank >= TableSize ==> r == 0
    ensures r <= 50
  {
    if rank < TableSize then StageTable(t)[rank] else 0
  }

  /** Segment points with the intended guard. */
  function SegmentPoints(t: SegmentType, rank: nat): (r: nat)
    ensures rank >= TableSize ==> r == 0
    ensures r <= 20
  {
    if rank < TableSize then SegmentTable(t)[rank] else 0
  }

  /**
   * The intended stage points agree with the portal's lookup at every rank
   * where the lookup does not fail.
   */
  lemma StagePointsAgreeWhereDefined(t: StageType, rank: nat)
    requires rank != TableSize
    ensures StagePointsAsWritten(t, rank) == Some(StagePoints(t, rank))
  {
  }

  /** The intended segment points agree with the portal's lookup wherever it does not fail. */
  lemma SegmentPointsAgreeWhereDefined(t: SegmentType, rank: nat)
    requires rank != TableSize
    ensures SegmentPointsAsWritten(t, rank) == Some(SegmentPoints(t, rank))
  {
  }

  predicate NonIncreasing(table: seq<nat>)
  {
    forall k :: 0 <= k < |table| - 1 ==> table[k] >= table[k + 1]
  }

  lemma {:induction false} NonIncreasingAt(table: seq<nat>, i: nat, j: nat)
    requires NonIncreasing(table) && i <= j < |table|
    ensures table[i] >= table[j]
    decreases j - i
  {
    if i < j {
      NonIncreasingAt(table, i, j - 1);
    }
  }

  lemma StageTablesNonIncreasing(t: StageType)
    ensures NonIncreasing(StageTable(t))
  {
    match t
    case Flat => assert NonIncreasing(FlatTable);
    case MediumMountain => assert NonIncreasing(MediumMountainTable);
    case HighMountain | TT => assert NonIncreasing(HighMountainTable);
  }

  lemma SegmentTablesNonIncreasing(t: SegmentType)
    ensures NonIncreasing(SegmentTable(t))
  {
    match t
    case Sprint => assert NonIncreasing(SprintTable);
    case HC => assert NonIncreasing(HCTable);
    case C1 => assert NonIncreasing(C1Table);
    case C2 => assert NonIncreasing(C2Table);
    case C3 => assert NonIncreasing(C3Table);
    case C4 => assert NonIncreasing(C4Table);
  }

  /** A better (lower) rank never earns fewer points, in every stage table. */
  lemma StagePointsMonotone(t: StageType, i: nat, j: nat)
    requires i <= j
    ensures StagePoints(t, i) >= StagePoints(t, j)
  {
    if j < TableSize {
      StageTablesNonIncreasing(t);
      NonIncreasingAt(StageTable(t), i, j);
    }
  }

  /** A better rank never earns fewer points, in every segment table. */
  lemma SegmentPointsMonotone(t: SegmentType, i: nat, j: nat)
    requires i <= j
    ensures SegmentPoints(t, i) >= SegmentPoints(t, j)
  {
    if j < TableSize {
      SegmentTablesNonIncreasing(t);
      NonIncreasingAt(SegmentTable(t), i, j);
    }
  }

  /** High-mountain and time-trial stages share one table, and an intermediate sprint uses it too. */
  lemma SharedTables(rank: nat)
    ensures StagePoints(HighMountain, rank) == StagePoints(TT, rank)
    ensures SegmentPoints(Sprint, rank) == StagePoints(HighMountain, rank)
  {
  }

  /** Every climb category scores no more than HC, and C1 >= C2 >= C3 >= C4 at each rank. */
  lemma ClimbCategoriesOrdered(rank: nat)
    ensures SegmentPoints(HC, rank) >= SegmentPoints(C1, rank) >= SegmentPoints(C2, rank)
    ensures SegmentPoints(C2, rank) >= SegmentPoints(C3, rank) >= SegmentPoints(C4, rank)
  {
    if rank < TableSize {
      var hc, c1, c2, c3, c4 := SegmentTable(HC), SegmentTable(C1), SegmentTable(C2), SegmentTable(C3), SegmentTable(C4);
      assert forall k :: 0 <= k < TableSize ==> hc[k] >= c1[k] >= c2[k] >= c3[k] >= c4[k];
    }
  }
}
