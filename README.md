# Cycling portal: scoring, classification and the store that feeds them

This project models the core of a cycling-race portal, with proofs. The
portal keeps teams, riders, races, stages and segments in memory. For each
rider and stage it stores one result: the rider's checkpoint times. From
those results it computes five things:

- the rider's adjusted elapsed time in a stage (the peloton rule);
- the stage rank;
- stage, sprint and mountain points;
- the general classification (GC) rank and times of a race;
- the race's points and mountain-points totals and classification ranks.

The model is split into modules:

- `CyclingTypes` (types.dfy): the records, the error kinds, time arithmetic and lookup by id.
- `Points` (points.dfy): the fixed points tables.
- `Adjustment` (adjustment.dfy): the peloton-rule scan.
- `KeyedSort` (keyed.dfy): HashMap puts, key bumping, the selection sort by key and the stable sort.
- `Totals` (totals.dfy): per-rider accumulation into maps.
- `StageScoring` (stage.dfy): stage-level scoring.
- `RaceScoring` (race.dfy): race-level aggregation.
- `Classification` (classify.dfy): classification ranks.
- `Portal` (portal.dfy): the store class, its operations and the store invariant.
- `RankedScenario` (scenario.dfy): the ranking test's store, TestGetRanked.java, with every value it expects proved from the model's functions.

How the model represents the portal:

- **Times.** Times are whole microseconds within a day. Java's `LocalTime.MIDNIGHT.plus(d)` is `TimeOfDay`, a Euclidean remainder modulo one day. `ChronoUnit.MILLIS.between` truncates toward zero. `toSecondOfDay` truncates to whole seconds.
- **Records.** Records are datatypes. Lookups by id return the first match, as the sequential `findAny` does.
- **Queries.** The scoring queries are pure functions over a snapshot of the store.
- **Loops.** Where the portal loops and updates state (the adjustment scan, the key bump, the selection sort, the HashMap accumulations, the id scans), the model is a method. Each such method is proved equal to its specification function.
- **HashMaps.** A HashMap keyed by rider id is a Dafny `map`. Where the HashMap's iteration order reaches an output (the GC flip and the mountain `keySet`), that order is a parameter `hashOrder`. The lemmas that need it require `hashOrder` to list every rider id exactly once.
- **The store.** `Portal.CyclingPortal` is a class whose five sequence fields the operations reassign. `StoreValid` is the invariant the scorer relies on:
  - ids are unique;
  - every stored result has one checkpoint per segment plus start and finish;
  - results exist only for stages that are waiting for results;
  - every id a team, race or stage lists is known.

  Every operation preserves this invariant. On a store that satisfies it, every race-level query of the model succeeds for a known race. The model scores with the corrected points lookups, which give 0 from rank 15 on. The portal itself throws `ArrayIndexOutOfBoundsException` as soon as a stage ranks a sixteenth rider, or a segment ranks a sixteenth distinct duration (see Findings). For stages with at most 15 riders, the two agree.

## Model

| member | source | states |
|---|---|---|
| CyclingTypes.MillisBetween | src/cycling/CyclingPortal.java:955 | positive exactly when the later time is at least 1 ms on, and below 1000 exactly when the gap is under one second (truncation toward zero) |
| CyclingTypes.TimeOfDay | src/cycling/CyclingPortal.java:944 | the time of day lies in one day, and a duration within a day is returned unchanged |
| CyclingTypes.SecondOfDay | src/cycling/CyclingPortal.java:123 | the whole seconds s with s seconds <= t < s+1 seconds |
| CyclingTypes.FindFirst | src/cycling/CyclingPortal.java:22-50 | a found record is in the list and has the id; nothing is found exactly when no record has the id |
| CyclingTypes.FirstIndex | src/cycling/CyclingPortal.java:22-50 | -1 exactly when the lookup finds nothing, otherwise the position of the record the lookup returns, with no earlier record having the id |
| CyclingTypes.FindAfterAppend | src/cycling/CyclingPortal.java:371 | after appending a record, a lookup finds what it found before, or else the new record if its id matches |
| CyclingTypes.FindAfterUpdate | src/cycling/CyclingPortal.java:683 | replacing the record at its own first position by one with the same id changes the lookup of that id only |
| Points.StageTable | src/cycling/CyclingPortal.java:52-58 | each stage-finish table has 15 entries |
| Points.SegmentTable | src/cycling/CyclingPortal.java:61-70 | each segment table has 15 entries |
| Points.StagePointsAsWritten | src/cycling/CyclingPortal.java:52-59 | as written: the table entry for ranks 0-14, 0 above 15, and an out-of-bounds failure exactly at rank 15 |
| Points.SegmentPointsAsWritten | src/cycling/CyclingPortal.java:61-71 | as written: the table entry for ranks 0-14, 0 above 15, and a failure exactly at rank 15 |
| Points.StagePointsAsWrittenFailsAtFifteen | src/cycling/CyclingPortal.java:53-55 | the sixteenth finisher (rank 15) makes the stage lookup fail, while ranks 14 and 16 do not |
| Points.SegmentPointsAsWrittenFailsAtFifteen | src/cycling/CyclingPortal.java:62-64 | the same failure at rank 15 in every segment table |
| Points.StagePoints | src/cycling/CyclingPortal.java:52-59 | corrected lookup: 0 for every rank from 15 on; never more than 50 |
| Points.SegmentPoints | src/cycling/CyclingPortal.java:61-71 | corrected lookup: 0 for every rank from 15 on; never more than 20 |
| Points.StagePointsAgreeWhereDefined | src/cycling/CyclingPortal.java:52-59 | the corrected stage points equal the portal's lookup at every rank other than 15 |
| Points.SegmentPointsAgreeWhereDefined | src/cycling/CyclingPortal.java:61-71 | the corrected segment points equal the portal's lookup at every rank other than 15 |
| Points.StageTablesNonIncreasing | src/cycling/CyclingPortal.java:55-57 | every stage-finish table is non-increasing |
| Points.SegmentTablesNonIncreasing | src/cycling/CyclingPortal.java:64-69 | every segment table is non-increasing |
| Points.StagePointsMonotone | src/cycling/CyclingPortal.java:52-59 | a better rank never earns fewer stage points |
| Points.SegmentPointsMonotone | src/cycling/CyclingPortal.java:61-71 | a better rank never earns fewer segment points |
| Points.SharedTables | src/cycling/CyclingPortal.java:57-64 | high-mountain stages and time trials share one table, and intermediate sprints score by the same numbers |
| Points.ClimbCategoriesOrdered | src/cycling/CyclingPortal.java:65-69 | at every rank HC >= C1 >= C2 >= C3 >= C4 |
| Adjustment.InRange | src/cycling/CyclingPortal.java:955-957 | a finish counts as less than a second behind another exactly when it trails it by at least 1 ms and less than 1000 ms |
| Adjustment.Pass | src/cycling/CyclingPortal.java:953-963 | one scan never raises the candidate, only ever moves it to a scanned finish, and ends with the flag set only when the last finish scanned replaced it |
| Adjustment.PassLowers | src/cycling/CyclingPortal.java:953-963 | a scan lowers the candidate exactly when some finish is 1-999 ms ahead of it |
| Adjustment.Settle | src/cycling/CyclingPortal.java:951-964 | the repeated scan ends (each repeat lowers the candidate to another finish), at a stage finish no later than the rider's own |
| Adjustment.SettleLowers | src/cycling/CyclingPortal.java:951-964 | the settled finish is below the rider's own exactly when some finish is 1-999 ms ahead of it, and equal to it exactly when none is |
| Adjustment.AdjustFinish | src/cycling/CyclingPortal.java:951-964 | the while/for loop computes the settled finish |
| Adjustment.OneSecondGapKept | src/cycling/CyclingPortal.java:955-957 | a finish 1000 ms behind another (900 s after 899 s) is not adjusted |
| Adjustment.ScanOrderMatters | src/cycling/CyclingPortal.java:951-964 | own finish 10.0 s with others at 9.5 s and 8.8 s: scan order [9.5, 8.8] gives 8.8 s, order [8.8, 9.5] gives 9.5 s |
| StageScoring.Applicable | src/cycling/CyclingPortal.java:1005 | the riders kept are exactly the stored riders with a result for the stage, and no more of them than stored |
| StageScoring.ApplicableTimed | src/cycling/CyclingPortal.java:1009-1010 | on a store whose results fit their stages, every stage rider has at least a start and a finish |
| StageScoring.StageRiders | src/cycling/CyclingPortal.java:948 | the stage riders are exactly the stored riders with a result for the stage |
| StageScoring.Finishes | src/cycling/CyclingPortal.java:954 | one raw finish per stage rider, the last checkpoint of the rider's result |
| StageScoring.RawTimes | src/cycling/CyclingPortal.java:1009-1010 | one raw elapsed time per stage rider, finish minus start |
| StageScoring.FinishScanned | src/cycling/CyclingPortal.java:953-954 | a stage rider's own finish is among the finishes scanned |
| StageScoring.SettledFinish | src/cycling/CyclingPortal.java:946-964 | the settled finish is a stage rider's raw finish, no later than the rider's own, and earlier exactly when a finish is 1-999 ms ahead |
| StageScoring.OwnAdjustedTime | src/cycling/CyclingPortal.java:942-966 | the adjusted time of a rider with a result lies within one day |
| StageScoring.AdjustedElapsedTime | src/cycling/CyclingPortal.java:935-967 | IDNotRecognised exactly when the stage or rider is unknown; 0 (midnight) without a result; otherwise the rider's own adjusted time, within one day |
| StageScoring.OwnFinishKeptUnlessClose | src/cycling/CyclingPortal.java:944-966 | on a time trial, or when no finish is 1-999 ms ahead, the adjusted time is exactly the rider's finish minus the rider's start |
| StageScoring.CloseFinishIsEarlier | src/cycling/CyclingPortal.java:953-966 | on a mass-start stage with a finish 1-999 ms ahead, the time is the earlier settled finish minus the rider's own start |
| StageScoring.IdsOf | src/cycling/CyclingPortal.java:1021 | the ids of the riders, position by position |
| StageScoring.RankOrder | src/cycling/CyclingPortal.java:1007-1020 | the rank order is a permutation of the stage riders' positions |
| StageScoring.RankedRiders | src/cycling/CyclingPortal.java:1005-1021 | the ranked riders are the stage riders taken in rank order, and exactly the riders with a result |
| StageScoring.RankInStage | src/cycling/CyclingPortal.java:1001-1022 | IDNotRecognised exactly when the stage is unknown, otherwise the ids of the ranked riders |
| StageScoring.ApplicableUniqueIds | src/cycling/CyclingPortal.java:1005 | filtering keeps rider ids unique |
| StageScoring.RankedUniqueIds | src/cycling/CyclingPortal.java:1001-1021 | the ranked riders have unique ids |
| StageScoring.RankIsPermutation | src/cycling/CyclingPortal.java:1001-1022 | the stage rank lists each rider with a result exactly once and nobody else, and is empty exactly when nobody has a result |
| StageScoring.RankListsEveryRider | src/cycling/CyclingPortal.java:1005-1021 | every rider with a result is ranked |
| StageScoring.RankListsOnlyRiders | src/cycling/CyclingPortal.java:1005-1021 | every ranked id belongs to a rider with a result |
| StageScoring.RankKeepsScanOrderOnTies | src/cycling/CyclingPortal.java:1008-1018 | a rider scanned earlier with a raw time no greater than a later rider's is ranked ahead of that rider |
| StageScoring.ResolveSegments | src/cycling/CyclingPortal.java:1128-1129 | fails exactly when some listed segment id is unknown, otherwise the segments position by position |
| StageScoring.SegmentDurations | src/cycling/CyclingPortal.java:1142-1147 | each ranked rider's duration in segment k is checkpoint k+1 minus checkpoint k |
| StageScoring.PointsByRank | src/cycling/CyclingPortal.java:1154-1158 | the i-th entry is the corrected segment points for rank i (0 from rank 15 on) |
| StageScoring.PointsByRankAgreesUpToFifteen | src/cycling/CyclingPortal.java:1153-1158 | the portal's segment lookup succeeds for all n ranks exactly when n <= 15, and then equals the listed points |
| StageScoring.SegmentAward | src/cycling/CyclingPortal.java:1141-1159 | a segment awards at most 20 points, and only to ranked riders |
| StageScoring.Awards | src/cycling/CyclingPortal.java:1137-1159 | one award map per segment, computed from that segment's kind |
| StageScoring.CountedTotals | src/cycling/CyclingPortal.java:1137-1166 | no counted segment (mountain or sprint, as asked) gives no totals at all |
| StageScoring.CountedTotalsStep | src/cycling/CyclingPortal.java:1162-1165 | each counted segment adds its awards to the running totals, and each skipped segment leaves them unchanged |
| StageScoring.CountedTotalsBounded | src/cycling/CyclingPortal.java:1137-1166 | a total belongs to an awarded rider and is at most the cap times the number of segments |
| StageScoring.MountainAndSprintSplitAwards | src/cycling/CyclingPortal.java:1138-1139 | mountain totals plus sprint totals are the sum of all segment awards, rider by rider |
| StageScoring.SegmentTotals | src/cycling/CyclingPortal.java:1136-1166 | totals go only to ranked riders and are at most 20 per segment; no counted segment gives no totals |
| StageScoring.AccumulateSegmentPoints | src/cycling/CyclingPortal.java:1136-1166 | the per-segment accumulation loop computes the segment totals |
| StageScoring.RankedCoverSegments | src/cycling/CyclingPortal.java:1143-1145 | every ranked rider's result has one checkpoint per segment plus start and finish, so the indexing at :1145 is in bounds |
| StageScoring.SegmentPointsInStage | src/cycling/CyclingPortal.java:1123-1179 | IDNotRecognised exactly when the stage or one of its segments is unknown; one entry per ranked rider, at most 20 per segment |
| StageScoring.TotalsOf | src/cycling/CyclingPortal.java:1169-1176 | each rider's total read off the map, 0 when absent |
| StageScoring.SegmentPointsEntry | src/cycling/CyclingPortal.java:1169-1176 | entry i is the counted total of the i-th ranked rider, 0 without points |
| StageScoring.StagePointsSplitBySegmentKind | src/cycling/CyclingPortal.java:1138-1139 | a rider's mountain points plus sprint points are the rider's total over all segments |
| StageScoring.SegmentTieDropsEarlierRider | src/cycling/CyclingPortal.java:1141-1149 | of two riders with equal segment durations, the earlier in rank order gets no points for that segment |
| StageScoring.PointsInStage | src/cycling/CyclingPortal.java:1088-1100 | IDNotRecognised exactly when the stage is unknown or, with riders ranked, a segment is unknown; entry i is the stage points for rank i plus the rider's sprint points |
| StageScoring.WithFinishPoints | src/cycling/CyclingPortal.java:1096-1098 | entry i adds the corrected stage-finish points for rank i (0 from rank 15 on) |
| StageScoring.WithFinishPointsAgreesUpToFifteen | src/cycling/CyclingPortal.java:1095-1098 | the portal's stage-finish lookup succeeds for every rank exactly when at most 15 riders are ranked, and then each entry is its lookup plus the sprint points |
| StageScoring.PointsFollowRankWithoutSprints | src/cycling/CyclingPortal.java:1088-1100 | on a stage without sprints, entry i is the table entry for rank i and points never increase down the rank |
| StageScoring.RankedRidersFound | src/cycling/CyclingPortal.java:1132-1133 | every ranked id is found among the riders, so the null check never throws |
| StageScoring.RankedAdjustedTimes | src/cycling/CyclingPortal.java:1057-1071 | IDNotRecognised exactly when the stage is unknown; one adjusted time per ranked rider, aligned with the rank |
| StageScoring.RankedAdjustedTimeIsOwn | src/cycling/CyclingPortal.java:1061-1068 | the i-th time is the i-th ranked rider's own adjusted time |
| StageScoring.FindRiderUnique | src/cycling/CyclingPortal.java:40-44 | with unique ids, looking up a stored rider's id finds that rider |
| KeyedSort.PutAll | src/cycling/CyclingPortal.java:1017 | the keys of the map after a sequence of puts are exactly the keys put |
| KeyedSort.PutAllLastWins | src/cycling/CyclingPortal.java:1144-1147 | a key keeps the value of its last put |
| KeyedSort.PutAllDistinct | src/cycling/CyclingPortal.java:1017 | with distinct keys, every value put is kept |
| KeyedSort.MinOf | src/cycling/CyclingPortal.java:1030 | the smallest key of a non-empty key set |
| KeyedSort.SortedKeys | src/cycling/CyclingPortal.java:1026-1033 | one key per element of the set |
| KeyedSort.SortedKeysSpec | src/cycling/CyclingPortal.java:1026-1033 | the keys removed one minimum at a time are exactly the set, strictly increasing |
| KeyedSort.Lookup | src/cycling/CyclingPortal.java:1066-1068 | the values of the keys, position by position |
| KeyedSort.ValuesByKey | src/cycling/CyclingPortal.java:1024-1036 | one value per map entry |
| KeyedSort.SortValuesByKey | src/cycling/CyclingPortal.java:1024-1036 | the selection sort loop lists the values in increasing key order |
| KeyedSort.FirstFree | src/cycling/CyclingPortal.java:1015 | the first key at or above the raw key that is not taken, with every key in between taken |
| KeyedSort.BumpedKeys | src/cycling/CyclingPortal.java:1008-1018 | one bumped key per rider |
| KeyedSort.BumpedKeysProperties | src/cycling/CyclingPortal.java:1015 | bumped keys are pairwise distinct and each is at least the rider's raw elapsed time |
| KeyedSort.BumpedKeysKeepScanOrder | src/cycling/CyclingPortal.java:1008-1018 | a rider scanned earlier with a raw time no greater than a later rider's gets the smaller key |
| KeyedSort.BumpCanOvertakeRawOrder | src/cycling/CyclingPortal.java:1015 | raw times [5, 6, 5] get keys [5, 6, 7]: the bumped tie passes the rider with raw time 6 |
| KeyedSort.PutBumped | src/cycling/CyclingPortal.java:1007-1018 | the bump-and-put loop builds the map from each bumped key to its rider |
| KeyedSort.ListedByKey | src/cycling/CyclingPortal.java:1020 | one listed value per distinct key |
| KeyedSort.ListedByKeySpec | src/cycling/CyclingPortal.java:1024-1036 | the listed values come from the map, in strictly increasing key order, and every key put is reached |
| KeyedSort.ListedByKeyDropsOverwritten | src/cycling/CyclingPortal.java:1144-1149 | a value whose key is put again later is not listed |
| KeyedSort.BumpedOrder | src/cycling/CyclingPortal.java:1007-1020 | the stage-rank order is a permutation of positions, ascending by bumped key |
| KeyedSort.BumpedListing | src/cycling/CyclingPortal.java:1007-1020 | sorting the bumped map lists every rider position once, ascending by bumped key |
| KeyedSort.ScanOrderBreaksTies | src/cycling/CyclingPortal.java:1015 | ranked ahead with no lower raw time means scanned earlier |
| KeyedSort.StableOrder | src/cycling/CyclingPortal.java:284 | the stable sort order is a permutation of positions, ascending by key, with equal keys in original order |
| Totals.Tally | src/cycling/CyclingPortal.java:124-125 | the merged map has the keys of both, each holding the sum of its two values |
| Totals.AddOne | src/cycling/CyclingPortal.java:206-207 | one update puts the key, adds v to its total (0 when missing), and leaves every other entry as it was |
| Totals.AddTo | src/cycling/CyclingPortal.java:1162-1165 | the loop adding one map into another computes the merge |
| Totals.Column | src/cycling/CyclingPortal.java:204-208 | the accumulated column has exactly the listed ids as keys |
| Totals.ColumnDistinct | src/cycling/CyclingPortal.java:204-208 | with distinct ids, each id holds its own value |
| Totals.AddColumn | src/cycling/CyclingPortal.java:204-208 | the loop adding a ranked column of points into the totals computes the merge |
| RaceScoring.RaceStages | src/cycling/CyclingPortal.java:504-510 | IDNotRecognised exactly when the race is unknown, otherwise its stage ids in order |
| RaceScoring.SecondsOf | src/cycling/CyclingPortal.java:122-123 | one whole-second adjusted time per stage rider |
| RaceScoring.StageSeconds | src/cycling/CyclingPortal.java:119-126 | the stage's column of seconds has exactly the riders with a result as keys |
| RaceScoring.StageSecondsOfRider | src/cycling/CyclingPortal.java:119-126 | a rider's entry is the whole seconds of the rider's adjusted time, or 0 without a result |
| RaceScoring.StageSecondsOfRacer | src/cycling/CyclingPortal.java:123 | a rider with a result gets the whole seconds of the rider's own adjusted time |
| RaceScoring.GcTotals | src/cycling/CyclingPortal.java:115-127 | fails exactly when a stage is unknown; the totals have exactly the riders with a result in some stage |
| RaceScoring.GeneralClassificationTotals | src/cycling/CyclingPortal.java:110-127 | the accumulation loop computes the GC totals |
| RaceScoring.AddStageSeconds | src/cycling/CyclingPortal.java:122-126 | the inner loop adds the stage's seconds into the totals |
| RaceScoring.GcTotalIsSumOfSeconds | src/cycling/CyclingPortal.java:115-127 | a rider's GC total is the sum over the race's stages of the rider's adjusted time in whole seconds |
| RaceScoring.InHashOrder | src/cycling/CyclingPortal.java:130 | the keys met in HashMap order are exactly the map's keys |
| RaceScoring.InHashOrderDistinct | src/cycling/CyclingPortal.java:130 | no key is met twice |
| RaceScoring.GcRank | src/cycling/CyclingPortal.java:110-132 | IDNotRecognised exactly when the race or one of its stages is unknown |
| RaceScoring.RaceTotals | src/cycling/CyclingPortal.java:113-127 | the race's totals have exactly the riders with a result in the race |
| RaceScoring.FlippedListingOrdered | src/cycling/CyclingPortal.java:129-131 | the flipped map lists riders with totals, strictly ascending by total |
| RaceScoring.FlippedListingCovers | src/cycling/CyclingPortal.java:129-131 | every total met is represented by some listed rider |
| RaceScoring.GcRankRacers | src/cycling/CyclingPortal.java:110-132 | every GC-ranked rider raced in the race |
| RaceScoring.GcRankOrdered | src/cycling/CyclingPortal.java:110-132 | the GC rank is strictly ascending by total, without repeats, has a rider for every total, and is empty exactly when nobody raced |
| RaceScoring.GcTieCollapses | src/cycling/CyclingPortal.java:129-130 | two riders with equal totals are never both ranked |
| RaceScoring.AscendingSeparatesTies | src/cycling/CyclingPortal.java:129-131 | a strictly ascending listing cannot hold two ids with equal totals |
| RaceScoring.StageTimes | src/cycling/CyclingPortal.java:159-166 | one time per race stage, each within a day: the adjusted time, or midnight on an error |
| RaceScoring.NonMidnight | src/cycling/CyclingPortal.java:167 | only non-midnight times survive the filter |
| RaceScoring.NonMidnightSum | src/cycling/CyclingPortal.java:167 | dropping midnights does not change the sum |
| RaceScoring.WrapSum | src/cycling/CyclingPortal.java:168-170 | the reduction wraps into one day |
| RaceScoring.WrapAbsorbs | src/cycling/CyclingPortal.java:168-170 | wrapping an inner subtotal does not change the wrapped sum |
| RaceScoring.WrapSumIsSumOfDay | src/cycling/CyclingPortal.java:168-170 | the wrapping reduction is the plain sum taken modulo one day |
| RaceScoring.GcTime | src/cycling/CyclingPortal.java:159-171 | a rider's GC time is the sum of the rider's stage times modulo one day |
| RaceScoring.TimesOfRanked | src/cycling/CyclingPortal.java:159-171 | one GC time per ranked rider, position by position |
| RaceScoring.GcTimes | src/cycling/CyclingPortal.java:149-172 | fails exactly when the GC rank does; otherwise each ranked rider's summed stage times modulo one day, in GC order |
| RaceScoring.GcRankFound | src/cycling/CyclingPortal.java:155-157 | every GC-ranked id is a known rider, so the null check never throws |
| RaceScoring.StageTimesOfRider | src/cycling/CyclingPortal.java:160-166 | each stage time is the rider's own adjusted time where the rider has a result and 0 elsewhere |
| RaceScoring.StagePointsOf | src/cycling/CyclingPortal.java:201-202 | one points entry per ranked rider of the stage |
| RaceScoring.StagePointColumn | src/cycling/CyclingPortal.java:204-208 | the stage's points column has exactly the riders with a result as keys |
| RaceScoring.RacePointTotals | src/cycling/CyclingPortal.java:199-209 | fails exactly when some stage's points fail; the totals have exactly the riders with a result in the race |
| RaceScoring.AccumulateRacePoints | src/cycling/CyclingPortal.java:199-209 | the stage-by-stage accumulation loop computes the race totals |
| RaceScoring.GcRidersHavePoints | src/cycling/CyclingPortal.java:211-214 | every GC-ranked rider has a points total, so the unboxing never fails |
| RaceScoring.RacePoints | src/cycling/CyclingPortal.java:189-217 | IDNotRecognised exactly when the GC rank or a stage's points fail; one total per GC-ranked rider, in GC order |
| Classification.IndexOf | src/cycling/CyclingPortal.java:284 | -1 exactly when absent, otherwise the first position holding the value |
| Classification.SortedBy | src/cycling/CyclingPortal.java:284 | the stable sort is a permutation (same length, same members, distinctness kept), ascending by key, with equal keys in original order |
| Classification.ByIndexAmongPoints | src/cycling/CyclingPortal.java:284 | as written: ids reordered ascending by the position of each id inside the points list, ties in original order |
| Classification.ByPointsDescending | src/cycling/CyclingPortal.java:272-275 | corrected: ids reordered by non-increasing points, ties in original order |
| Classification.IndexAmongPointsIgnoresPoints | src/cycling/CyclingPortal.java:284 | riders [1, 2] with points [5, 9] stay [1, 2]: rider 2's 9 points do not put rider 2 first |
| Classification.ByPointsPutsLeaderFirst | src/cycling/CyclingPortal.java:272-275 | with 5 and 9 points the corrected order is [2, 1] |
| Classification.PointClassificationRank | src/cycling/CyclingPortal.java:280-286 | fails exactly when the race points fail; otherwise a reordering of the GC rank, same length and same riders |
| Classification.PointClassificationByPoints | src/cycling/CyclingPortal.java:280-286 | corrected: the same riders as the GC rank, by non-increasing race points |
| Classification.PointClassificationsDistinct | src/cycling/CyclingPortal.java:280-286 | neither point classification repeats a rider |
| Classification.MountainTotals | src/cycling/CyclingPortal.java:304-323 | fails exactly when the race or some stage's mountain points fail; the totals have exactly the riders with a result in the race |
| Classification.MountainClassificationRank | src/cycling/CyclingPortal.java:302-331 | fails exactly when the mountain totals do; lists exactly the riders with a result in the race (in HashMap order), without repeats |
| Classification.MountainClassificationByPoints | src/cycling/CyclingPortal.java:302-331 | corrected: the same riders by non-increasing mountain points |
| Classification.MountainClassificationCoversRacers | src/cycling/CyclingPortal.java:302-331 | a rider is in the mountain classification exactly when the rider raced in the race |
| Portal.Utf16Length | src/cycling/CyclingPortal.java:722 | `String.length`: between one and two code units per character, exactly one per character when all are in the basic multilingual plane, two per character when none is |
| Portal.ValidName | src/cycling/CyclingPortal.java:722 | an accepted name has 1 to 30 characters; a name of basic-plane characters is accepted exactly when it has 1 to 30 |
| Portal.SixteenEmojiTooLong | src/cycling/CyclingPortal.java:359 | sixteen characters outside the basic plane are 32 code units, so the name is refused although it has only 16 characters |
| Portal.StageNameTaken | src/cycling/CyclingPortal.java:475 | a name is taken exactly when some stage of the list, at some position, has that name |
| Portal.NamesOf | src/cycling/CyclingPortal.java:475 | the stages' names, position by position |
| Portal.StoreValid | src/cycling/CyclingPortal.java:14-19 | a valid store lists only known stages in every known race, and every stored result has a start and a finish and belongs to a stage waiting for results |
| Portal.MaxFromZero | src/cycling/CyclingPortal.java:361-365 | the running maximum starting from 0: at least every id, and 0 or one of the ids |
| Portal.MaxOrZero | src/cycling/CyclingPortal.java:482 | 0 for no ids, otherwise the largest id |
| Portal.FreshKey | src/cycling/CyclingPortal.java:368 | one above the largest id is not taken, and appending a record with it keeps ids unique |
| Portal.EmptyStoreValid | src/cycling/CyclingPortal.java:14-19 | the empty store satisfies the store invariant |
| Portal.AddTeamKeepsValid | src/cycling/CyclingPortal.java:720-739 | appending a team with a fresh id and no riders keeps the invariant |
| Portal.AddRaceKeepsValid | src/cycling/CyclingPortal.java:358-373 | appending a race with a fresh id and no stages keeps the invariant |
| Portal.AddRiderKeepsValid | src/cycling/CyclingPortal.java:812-826 | appending a rider with a fresh id and no results, listed by its team, keeps the invariant |
| Portal.AddStageKeepsValid | src/cycling/CyclingPortal.java:470-489 | appending a stage in preparation with a fresh id and no segments, listed by its race, keeps the invariant |
| Portal.AddSegmentKeepsValid | src/cycling/CyclingPortal.java:585-640 | adding a segment to a stage in preparation keeps the invariant: that stage has no results yet, so no result's length goes stale |
| Portal.ConcludeKeepsValid | src/cycling/CyclingPortal.java:678-684 | moving a stage to waiting for results keeps the invariant |
| Portal.RegisterKeepsValid | src/cycling/CyclingPortal.java:876-886 | storing checkpoints of length segments + 2 for a waiting stage keeps the invariant |
| Portal.DeleteKeepsValid | src/cycling/CyclingPortal.java:981-986 | removing a result keeps the invariant |
| Portal.DeleteUndoesRegister | src/cycling/CyclingPortal.java:981-986 | deleting a result just registered restores the riders as they were |
| Portal.StageSegmentsResolve | src/cycling/CyclingPortal.java:1128-1129 | on a valid store a known stage's segments all resolve, so its points (with the corrected lookups) never fail |
| Portal.ValidStoreScoresKnownRaces | src/cycling/CyclingPortal.java:110-331 | on a valid store every race-level query of the model (with the corrected lookups) succeeds for a known race |
| Portal.CyclingPortal.constructor | src/cycling/CyclingPortal.java:14-19 | a new portal is empty and valid |
| Portal.CyclingPortal.CreateTeam | src/cycling/CyclingPortal.java:720-739 | InvalidName, then IllegalName for a taken name; otherwise a team with id max(0, ids)+1 is appended; nothing else changes; the invariant holds |
| Portal.CyclingPortal.CreateRace | src/cycling/CyclingPortal.java:358-373 | InvalidName, then IllegalName; otherwise a race with id max(0, ids)+1 and no stages is appended; the invariant holds |
| Portal.CyclingPortal.CreateRider | src/cycling/CyclingPortal.java:812-826 | IDNotRecognised for an unknown team, IllegalArgument before 1900; otherwise a new rider with id max+1 and no results, appended to its team's list |
| Portal.CyclingPortal.AddStageToRace | src/cycling/CyclingPortal.java:470-489 | IDNotRecognised, InvalidName, IllegalName, InvalidLength in that order; otherwise a new stage in preparation listed by its race |
| Portal.CyclingPortal.AddCategorizedClimbToStage | src/cycling/CyclingPortal.java:585-602 | IDNotRecognised, InvalidStageState unless in preparation, InvalidStageType for a time trial, InvalidLocation past its length; otherwise a new segment listed by its stage |
| Portal.CyclingPortal.AddIntermediateSprintToStage | src/cycling/CyclingPortal.java:624-640 | the same checks in the same order; otherwise a new sprint segment listed by its stage |
| Portal.CyclingPortal.ConcludeStagePreparation | src/cycling/CyclingPortal.java:678-684 | IDNotRecognised, InvalidStageState when already waiting; otherwise only that stage moves from preparation to waiting for results |
| Portal.CyclingPortal.RegisterRiderResultsInStage | src/cycling/CyclingPortal.java:876-886 | unknown rider, unknown stage, DuplicatedResult, InvalidStageState, InvalidCheckpoints in that order; otherwise only that rider gains the result |
| Portal.CyclingPortal.DeleteRiderResultsInStage | src/cycling/CyclingPortal.java:981-986 | IDNotRecognised exactly when the rider is unknown; otherwise only that rider loses the stage's result, whether or not it had one |
| RankedScenario.StoreIsValid | src/testing/test_cases/maths/TestGetRanked.java:18-130 | the test's store (two teams, four riders, one race of a medium-mountain stage with four segments and a time trial, three results) satisfies the store invariant |
| RankedScenario.JBMountainTime | src/testing/test_cases/maths/TestGetRanked.java:92 | Joe Blogs's adjusted time in the mountain stage is 15:00 (900 s) |
| RankedScenario.JSMountainTime | src/testing/test_cases/maths/TestGetRanked.java:90-96 | John Smith's adjusted time is 14:59 (899 s): his finish is a full second ahead, so it is not adjusted |
| RankedScenario.MountainStageRankedTimes | src/testing/test_cases/maths/TestGetRanked.java:94-96 | the ranked adjusted times of the mountain stage are 14:59 then 15:00 |
| RankedScenario.MountainStageRankIds | src/testing/test_cases/maths/TestGetRanked.java:97-100 | the mountain stage's rank is John Smith, then Joe Blogs |
| RankedScenario.MountainStagePoints | src/testing/test_cases/maths/TestGetRanked.java:103-108 | the stage points are 67 (30 for the win plus 37 sprint points) and 62 (25 plus 37) |
| RankedScenario.MountainStageSprintPoints | src/testing/test_cases/maths/TestGetRanked.java:103-108 | both riders take 37 sprint points (20 + 17 and 17 + 20) |
| RankedScenario.MountainStageMountainPoints | src/testing/test_cases/maths/TestGetRanked.java:114-119 | the mountain points are 16 for John Smith (1 + 15) and 22 for Joe Blogs (2 + 20) |
| RankedScenario.AJTimeTrialTime | src/testing/test_cases/maths/TestGetRanked.java:125-130 | Andrew Johnson's time-trial time is his own 2000 s |
| RankedScenario.TimeTrialPoints | src/testing/test_cases/maths/TestGetRanked.java:147-149 | the only time-trial finisher takes the 20 points of the first place |
| RankedScenario.RaceGcTotals | src/testing/test_cases/maths/TestGetRanked.java:133-137 | the race totals are 900 s, 899 s and 2000 s |
| RankedScenario.RaceGcRank | src/testing/test_cases/maths/TestGetRanked.java:133-137 | the GC is John Smith, Joe Blogs, Andrew Johnson |
| RankedScenario.RaceMountainPoints | src/testing/test_cases/maths/TestGetRanked.java:134-140 | the race mountain points in GC order are 16, 22 and 0 |
| RankedScenario.RaceRacePoints | src/testing/test_cases/maths/TestGetRanked.java:143-149 | the race points in GC order are 67, 62 and 20 |
| RankedScenario.RacePointClassification | src/testing/test_cases/maths/TestGetRanked.java:152-155 | the points classification as written is John Smith, Joe Blogs, Andrew Johnson |
| RankedScenario.RacePointClassificationByPoints | src/testing/test_cases/maths/TestGetRanked.java:152-155 | the corrected classification by points gives the same order, as 67 > 62 > 20 |
| RankedScenario.RaceMountainClassification | src/testing/test_cases/maths/TestGetRanked.java:157-160 | the mountain classification as written is Joe Blogs, John Smith, Andrew Johnson |
| RankedScenario.RaceMountainClassificationByPoints | src/testing/test_cases/maths/TestGetRanked.java:157-160 | the corrected mountain classification gives the same order, as 22 > 16 > 0 |
| RankedScenario.RaceGcTimes | src/testing/test_cases/maths/TestGetRanked.java:171-178 | the GC times are 14:59, 15:00 and 33:20 |

## Left out

- Persistence: `saveCyclingPortal` and `loadCyclingPortal` are file I/O through Java serialisation.
- `eraseCyclingPortal`: not modelled separately. It resets the five lists, which is the state the constructor establishes.
- Removals (`removeRaceById`, `removeStageById`, `removeSegment`, `removeTeam`, `removeRider`, `removeRaceByName`) are not modelled:
  - they remove by list position rather than by id;
  - removing a race by name does not cascade;
  - scoring never calls them.
- Getters that only copy stored lists (`getRaceIds`, `getTeams`, `getTeamRiders`, `getStageSegments`, `getNumberOfStages`, `getStageLength`, `getRiderResultsInStage`) are not modelled. The exception is `getRaceStages`, which the race queries use (`RaceStages`, `StagesOf`).
- `viewRaceDetails` is string formatting only.
- Descriptions, `startTime`, `averageGradient` and the climb's own length are not modelled. No computation reads them.
- Names are strings that are never null. Java's null-name checks, and its `IllegalArgumentException` for a null rider name, are not modelled.
- Stage lengths and segment locations are `real`. Only the `length < 5` and `location > length` comparisons use them.
- Integers are unbounded. Java's 32-bit points sums, 64-bit second totals and id arithmetic would overflow only far beyond realistic data.
- Checkpoint times are microseconds within one day. The model assumes nothing about their order, but a GC time wraps modulo one day exactly as `LocalTime` arithmetic does.
- HashMap iteration order is a parameter (`hashOrder`), not Java's bucket order. Results that depend on it (which of two riders with tied GC totals survives the flip, and the order of the mountain classification) are proved for every order that lists each rider id once.
- Portal.CyclingPortal.AddStageToRace: does not append the placeholder `new Stage()` (id 0, no name, no type) that `addStageToRace` also adds to the stage list at :480. With that placeholder, stage ids would no longer be unique, and a lookup of stage id 0 would find it. The model's stage list holds only real stages.
- Portal.StoreValid: is stronger than the Java store guarantees, because of that placeholder. In Java several stages can have id 0.
- RankedScenario: the ranking test's store is the one after all three registrations. The test's stage-level checks at :94-119 run before Andrew Johnson's time-trial result is registered, but that result is for the other stage, so those values are the same. The checks on the empty store at :41-54, the single-rider checks at :66-75, the two-rider classification orders at :110-112 and :121-123 (taken before that result), and the save/load round trip at :163-167 are not restated.
- StageScoring.PointsByRank: lists the corrected segment points, 0 from rank 15 on. Where a segment ranks a sixteenth distinct duration, `getRidersSegmentPointsInStage` (CyclingPortal.java:1157) throws `ArrayIndexOutOfBoundsException` instead. PointsByRankAgreesUpToFifteen states where the two agree.
- StageScoring.SegmentAward: uses PointsByRank, so it does not throw where the portal does for a sixteenth distinct segment duration.
- StageScoring.SegmentPointsInStage: is Ok with corrected points where the portal throws `ArrayIndexOutOfBoundsException` for a segment with 16 distinct durations.
- StageScoring.WithFinishPoints: adds the corrected stage-finish points, 0 from rank 15 on. With a sixteenth ranked rider, `getRidersPointsInStage` (CyclingPortal.java:1097) throws `ArrayIndexOutOfBoundsException` instead. WithFinishPointsAgreesUpToFifteen states where the two agree.
- StageScoring.PointsInStage: is Ok with corrected points where the portal throws `ArrayIndexOutOfBoundsException` for a stage with 16 or more ranked riders.
- RaceScoring.RacePointTotals: sums the corrected stage points, so a race with a stage of 16 or more ranked riders has totals where the portal throws.
- RaceScoring.RacePoints: the same corrected points; the portal throws where any stage ranks 16 or more riders.
- Classification.PointClassificationRank: built on the corrected race points; the portal throws where any stage ranks 16 or more riders.
- Classification.MountainTotals: built on the corrected segment points; the portal throws where a segment ranks 16 distinct durations.
- Classification.MountainClassificationRank: the same; the portal throws where a segment ranks 16 distinct durations.
- Portal.StageSegmentsResolve: promises points for every known stage only under the corrected lookups; the portal throws for 16 or more ranked riders.
- Portal.ValidStoreScoresKnownRaces: promises success only under the corrected lookups; the portal's points queries throw for a stage with 16 or more ranked riders.

## Findings

| source | as written | input that shows it | evidently intended | confidence | as-written member | corrected member |
|---|---|---|---|---|---|---|
| src/cycling/CyclingPortal.java:52-59 | `stagePoints` returns 0 only when `rank > 15`, then indexes a 15-entry array | rank 15, i.e. a stage with 16 finishers: the sixteenth is past the end of the table | 0 points for every rank from 15 on | high (not executed) | Points.StagePointsAsWrittenFailsAtFifteen | Points.StagePointsAgreeWhereDefined |
| src/cycling/CyclingPortal.java:61-71 | `segmentPoints` has the same guard | rank 15 in any segment with 16 ranked riders | 0 points for every rank from 15 on | high (not executed) | Points.SegmentPointsAsWrittenFailsAtFifteen | Points.SegmentPointsAgreeWhereDefined |
| src/cycling/CyclingPortal.java:280-331 | both classification ranks sort rider ids by `indexOf(riderId)` inside the list of points, not by points | GC rank [1, 2] with points [5, 9]: the result stays [1, 2], although rider 2 has more points | riders by points, most points first, as the interface documents | high (not executed) | Classification.IndexAmongPointsIgnoresPoints | Classification.ByPointsPutsLeaderFirst |
