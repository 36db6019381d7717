# Advent of Code 2024 puzzle solvers, modelled in Dafny

This project models the puzzle logic of a set of Rust solvers for Advent of
Code 2024: days 1, 2 and 4 to 12. Each day is one Dafny module in its own
file. The shared pieces are in `common.dfy` (`Wrappers`, `Ints`) and
`grids.dfy` (`Grids`, character grids addressed as (row, column)).

Every solver is modelled as written, after its input has been parsed, with
its quirks kept:

- Day 1 (`LocationLists`): pairwise distance of the two sorted columns, and
  the similarity score by occurrence counts.
- Day 2 (`Reports`): report safety, directly or after dropping one level.
- Day 4 (`WordSearch`): the "XMAS" search in eight directions, with and
  without the fit screening, and the X-shaped "MAS" crosses.
- Day 5 (`PageOrdering`):
  - rule-graph construction;
  - Kahn's topological sort, whose initial queue order is a parameter;
  - page-order validation.
- Day 6 (`GuardPatrol`):
  - the guard state machine;
  - one turn counter shared by all guards, reset only by a move onto `.`,
    that logs a blockage on the fourth turn since that reset;
  - removal of guards that leave the board;
  - the part-two trial loop.
- Day 7 (`BridgeCalibration`): every `+`/`*`/concatenation operator
  sequence, enumerated through base-3 encodings.
- Day 8 (`Antennas`): antinode rays, bounded in both coordinates by the
  number of lines, as the program does.
- Day 9 (`DiskFragmenter`):
  - disk-map expansion;
  - two-pointer compaction;
  - whole-file moves into the first span that fits;
  - both checksums.
- Day 10 (`TrailFinder`): the trail search of both program versions, with
  their different neighbour orders and different trail keys.
- Day 11 (`StoneCounts`): the stone-count map rewritten 75 times, set
  against an explicit row of stones.
- Day 12 (`GardenFences`): the step-at-a-time machine that scans, flood
  fills and fences garden areas, with its score.

Each operation is paired with an independent reference definition, an
inverse or an invariant, and a lemma connects the two.

## Model

| member | source | states |
|---|---|---|
| LocationLists.SplitArrays | day-1/src/main.rs:24-37 | Succeeds exactly when every line has two numbers; then both arrays have one entry per line, holding that line's first and second number in order |
| LocationLists.SumOfDifferences | day-1/src/main.rs:40-46 | The sum of absolute differences over the zipped prefix is never negative, and is zero exactly when the two arrays agree on that prefix |
| LocationLists.SumOfDifferencesSymmetric | day-1/src/main.rs:40-46 | Swapping the two arrays leaves the sum of differences unchanged |
| LocationLists.CalculateWeightedSum | day-1/src/main.rs:49-65 | The lookup-and-sum loops compute the reference score: each entry of the first array times its number of occurrences in the second, with absent values contributing nothing |
| LocationLists.WeightedSpecPermutation | day-1/src/main.rs:11-19 | Reordering the first array, as the sort before the weighted sum does, does not change the similarity score |
| LocationLists.WeightedSpecSecondPermutation | day-1/src/main.rs:49-55 | Only how often a value occurs in the second array matters, so sorting that array does not change the score either |
| LocationLists.Sort | day-1/src/main.rs:11-12 | The stand-in for `sort` yields a sorted permutation of its input |
| LocationLists.SortedUnique | day-1/src/main.rs:11-12 | Two sorted arrangements of the same values are identical, so the result does not depend on the sorting algorithm |
| LocationLists.TotalDistance | day-1/src/main.rs:8-16 | Part one yields a distance exactly when every line has two numbers |
| LocationLists.TotalDistanceOfSortedColumns | day-1/src/main.rs:8-16 | The total distance is the pairwise distance between ANY sorted arrangements of the two columns |
| LocationLists.SimilarityScore | day-1/src/main.rs:8-20 | Part two yields, for well-formed input, the similarity score of the columns as read, even though it scores the sorted columns |
| Reports.IsSafeReport | day-2/src/main.rs:43-69 | Returns true exactly when every adjacent difference has magnitude 1 to 3 and all differences share one sign; reports with fewer than two levels are safe |
| Reports.IsSafeByRemovingOne | day-2/src/main.rs:71-81 | Returns true exactly when deleting some single index leaves a safe report; an empty report gives false |
| Reports.CountSafeReports | day-2/src/main.rs:15-37 | Each report is counted at most once, as direct when safe as it stands and as adjusted otherwise; the total is direct plus adjusted and is at most the number of reports |
| Reports.SafeImpliesSafeAfterRemoval | day-2/src/main.rs:21-27 | A safe non-empty report is also safe after dropping one level, so the adjusted check alone would count the same reports |
| WordSearch.CheckNextChar | day-4/src/main.rs:100-130 | from letter p on, the recursive check succeeds exactly when each remaining letter of "XMAS" sits inside the grid the matching number of steps from the cell |
| WordSearch.RestShift | day-4/src/main.rs:121-127 | the rest of the word from letter p is letter p at the cell and the rest from letter p + 1 one step further, in both directions of the equivalence |
| WordSearch.CheckNextCharMeansWord | day-4/src/main.rs:100-130 | the recursive letter check from position 0 succeeds exactly when "XMAS" is spelled inside the grid from the start cell in the given direction |
| WordSearch.SpelledMeansWord | day-4/src/main.rs:100-130 | the word spelled letter by letter from position 0 is the four letters at 0, 1, 2 and 3 steps, and conversely |
| WordSearch.CanFitWord | day-4/src/main.rs:132-148 | seen from a cell inside rows x cols, the end cell three steps along is inside exactly when all four letter positions are |
| WordSearch.CheckImpliesFit | day-4/src/main.rs:132-148 | whenever the word is found, the end cell three steps along lies inside rows x cols, so the fit test never rejects a real match |
| WordSearch.CheckAllDirections | day-4/src/main.rs:71-98 | the count is the number of (cell, direction) pairs from which "XMAS" reads, summed over every 'X' of the grid in row-major order |
| WordSearch.CheckAllDirectionsOptimised | day-4/src/main.rs:37-69 | the screened count over rows x cols is the same sum over every 'X' of the directions in which "XMAS" reads |
| WordSearch.WordDirections | day-4/src/main.rs:86-94 | at most one word per direction tried starts at a cell |
| WordSearch.WordsFromAppend | day-4/src/main.rs:84-96 | the words from two lists of cells together are the words from each list added up |
| WordSearch.MatchesAtCountsWords | day-4/src/main.rs:86-94 | without screening, the matches at a cell are exactly the directions in which the word reads from it |
| WordSearch.NoWordOffX | day-4/src/main.rs:86-94 | no word starts on a cell other than 'X', so leaving such cells out of the reference loses nothing |
| WordSearch.RowMatchesCountWords | day-4/src/main.rs:85-95 | the matches over a row prefix are the words starting on that prefix's 'X' cells |
| WordSearch.UnscreenedRowsCountWords | day-4/src/main.rs:84-96 | the matches over the first rows are the words starting on those rows' 'X' cells |
| WordSearch.WordsBelowStep | day-4/src/main.rs:84-96 | one more row adds the words starting on that row's 'X' cells |
| WordSearch.ScreeningIsHarmless | day-4/src/main.rs:55-64 | screening a direction with the fit test before checking letters leaves the count at a cell unchanged |
| WordSearch.RowScreeningIsHarmless | day-4/src/main.rs:54-66 | screening leaves the count over a row unchanged |
| WordSearch.OptimisedCountAgrees | day-4/src/main.rs:37-98 | over any number of rows the screened and the unscreened counts are equal |
| WordSearch.CountsAgree | day-4/src/main.rs:16-21 | on a non-empty rectangular grid the optimised and the unoptimised search report the same number of words, at most eight per cell |
| WordSearch.WordsFromBound | day-4/src/main.rs:86-94 | at most one word per direction starts at each listed cell |
| WordSearch.CheckYLeft | day-4/src/main.rs:191-208 | true exactly when a cross is anchored at the cell with its second 'M' two rows down and both 'S' two columns to the left |
| WordSearch.CheckYRight | day-4/src/main.rs:210-228 | true exactly when a cross is anchored at the cell with its second 'M' two rows down and both 'S' two columns to the right |
| WordSearch.CheckXUp | day-4/src/main.rs:230-247 | true exactly when a cross is anchored at the cell with its second 'M' two columns right and both 'S' two rows up |
| WordSearch.CheckXDown | day-4/src/main.rs:249-267 | true exactly when a cross is anchored at the cell with its second 'M' two columns right and both 'S' two rows down |
| WordSearch.CheckCrossMas | day-4/src/main.rs:166-189 | the count is the number of the four orientations that complete a cross at the cell, hence between 0 and 4 |
| WordSearch.CrossesFromAppend | day-4/src/main.rs:152-161 | the crosses anchored at two lists of cells together are those of each list added up |
| WordSearch.CrossRowCountsCrosses | day-4/src/main.rs:153-160 | the crosses counted over a row prefix are those anchored at its 'M' cells, every other cell skipped |
| WordSearch.RowCrossesStep | day-4/src/main.rs:154-159 | one more cell adds the orientations completing a cross there when it holds 'M', and nothing otherwise |
| WordSearch.CrossRowsCountCrosses | day-4/src/main.rs:152-161 | the crosses counted over the first rows are those anchored at those rows' 'M' cells |
| WordSearch.CrossesFromBound | day-4/src/main.rs:166-189 | at most four crosses are anchored at each listed cell |
| WordSearch.GetCrossMas | day-4/src/main.rs:150-164 | the total is the number of orientations completing a cross, summed over every 'M' cell of the grid and no other, hence at most four per cell |
| WordSearch.CrossMasFixtureThreeByThree | day-4/src/main.rs:295-305 | the 3x3 fixture holds exactly one cross |
| WordSearch.CrossMasFixtureThreeByFour | day-4/src/main.rs:307-317 | the 3x4 fixture holds exactly two crosses |
| WordSearch.CrossMasFixtureFiveByFour | day-4/src/main.rs:319-331 | the 5x4 fixture holds exactly four crosses |
| WordSearch.CheckCrossMasFixtures | day-4/src/main.rs:275-293 | the cell fixtures give zero and one cross respectively |
| WordSearch.OrientationFixtures | day-4/src/main.rs:333-414 | each orientation test is true on its positive fixture and false on its negative one |
| PageOrdering.AddRuleDescribes | day-5/src/main.rs:9-21 | one loop iteration extends a correct adjacency list and in-degree map for the rules so far to a correct one for the rules including the new rule |
| PageOrdering.CreateAdjacencyListAndIndegreeMap | day-5/src/main.rs:3-24 | every parent lists its children in rule order, every page a rule mentions has an entry, and each entry counts exactly the rules into that page |
| PageOrdering.EmptyChildren | day-5/src/main.rs:16 | a page that is no rule's parent has no children |
| PageOrdering.NoInDegree | day-5/src/main.rs:19-20 | a page no rule mentions has in-degree zero |
| PageOrdering.ChildrenCount | day-5/src/main.rs:16 | a page occurs in a parent's child list once per rule from that parent to it |
| PageOrdering.RemainingSplit | day-5/src/main.rs:43-45 | emitting a page removes exactly the rules from it from every page's pending count |
| PageOrdering.RemainingZero | day-5/src/main.rs:46-47 | a page with no pending rule has every parent already emitted |
| PageOrdering.RemainingMonotone | day-5/src/main.rs:39-52 | emitting more pages never increases a pending count |
| PageOrdering.ChildIsNode | day-5/src/main.rs:42-44 | every child in the adjacency list has an in-degree entry, so the lookup at line 44 always succeeds |
| PageOrdering.BetweenWitness | day-5/src/main.rs:16-19 | a positive rule count between two pages is witnessed by a rule |
| PageOrdering.ReleaseChildren | day-5/src/main.rs:42-51 | after the inner loop every count equals the pages' rules still pending once the current page is emitted, and exactly the pages whose count reached zero are queued |
| PageOrdering.QueuedRelease | day-5/src/main.rs:45-48 | lowering a count and queueing the page exactly when it hits zero keeps the queue bookkeeping |
| PageOrdering.ChildPending | day-5/src/main.rs:43-45 | each child visited still has a pending rule, so the decrement at line 45 never underflows |
| PageOrdering.Emit | day-5/src/main.rs:39-40 | moving the queue head to the output keeps the output duplicate-free with every parent emitted first |
| PageOrdering.TopologicalSort | day-5/src/main.rs:26-55 | the output is duplicate-free, holds only known pages, every rule into an emitted page comes from a page emitted earlier, and every page left out still has a pending rule |
| PageOrdering.PendingParent | day-5/src/main.rs:39-52 | a page left unsorted has a rule from another page that is also unsorted |
| PageOrdering.ClosedSetOmitted | day-5/src/main.rs:26-55 | no page of a set closed under "has a rule from another member", such as a cycle of rules, is ever sorted |
| PageOrdering.GetValidRulesPairs | day-5/src/main.rs:57-71 | a rule is kept exactly when its parent is one of the report's pages |
| PageOrdering.ValidRulesKeepOrder | day-5/src/main.rs:60-68 | the filter keeps the rules in their original order |
| PageOrdering.Position | day-5/src/main.rs:107 | the result is absent exactly when the page is missing, and otherwise an index holding the page |
| PageOrdering.PositionFirst | day-5/src/main.rs:107 | no earlier index holds the page, so the result is its first occurrence |
| PageOrdering.ValidatePageOrder | day-5/src/main.rs:99-128 | the middle page when every page occurs in the sorted order at a position no earlier than its predecessor's, and 0 otherwise |
| PageOrdering.CheckReport | day-5/src/main.rs:80-93 | the contribution of a report is 0 or its middle page, and a non-zero contribution means no later page of the report must, by some rule, precede an earlier one |
| PageOrdering.SortedPagesBreakNoRule | day-5/src/main.rs:105-118 | a report accepted against a parents-first order breaks no rule |
| PageOrdering.InSortedOrderMonotone | day-5/src/main.rs:105-118 | in an accepted report the sorted positions never decrease |
| GuardPatrol.MarkedTransitive | day-6/src/main.rs:39-115 | boards that only ever turn cells into `X` compose: two such updates in a row are one such update |
| GuardPatrol.GetGuardLocations | day-6/src/main.rs:14-25 | exactly the cells holding a guard character are listed, each with its character as heading, in row-major order |
| GuardPatrol.ScannedBoardWellFormed | day-6/src/main.rs:147-150 | the guards found on a rectangular board all stand inside it |
| GuardPatrol.TurnRight | day-6/src/main.rs:77-83 | a right turn yields a guard character different from the one it started from |
| GuardPatrol.TurnRightCycle | day-6/src/main.rs:77-83 | a right turn always changes the heading, and four right turns restore it |
| GuardPatrol.TurnRightClockwise | day-6/src/main.rs:77-83 | the turn is clockwise (`^` to `>` to `v` to `<`): the turned guard's step is its old step rotated a quarter turn to the right |
| GuardPatrol.Ahead | day-6/src/main.rs:52-58 | the cell a guard moves towards is one of its four orthogonal neighbours |
| GuardPatrol.MarkBoth | day-6/src/main.rs:96-97 | the guard's cell and the cell ahead become `X` and every other cell is unchanged |
| GuardPatrol.StepGuard | day-6/src/main.rs:48-108 | an invalid heading or cell is a panic, a guard whose next cell is off the board leaves, `#` turns it right and counts a turn (the fourth turn since the last move onto `.`, counted over all guards, logs a blockage after marking both cells), `X` moves it, `.` moves it and resets the counter |
| GuardPatrol.RemoveAt | day-6/src/main.rs:113 | removing index i shifts the later elements down by one and keeps the earlier ones |
| GuardPatrol.Kept | day-6/src/main.rs:112-114 | the kept elements are elements of the list and no more than were scanned |
| GuardPatrol.KeptBelow | day-6/src/main.rs:112-114 | removing an index at or after the scanned prefix changes nothing in that prefix |
| GuardPatrol.KeptAbove | day-6/src/main.rs:112-114 | removing an index above every earlier removal equals adding it to the dropped set |
| GuardPatrol.RemoveAll | day-6/src/main.rs:111-114 | removing increasing in-range indices back to front shortens the list by one per index |
| GuardPatrol.RemoveAllKeepsTheRest | day-6/src/main.rs:111-114 | removing the scheduled indices back to front keeps exactly the guards not scheduled, in their order |
| GuardPatrol.KeptNone | day-6/src/main.rs:111-114 | with nothing dropped the prefix is kept whole |
| GuardPatrol.Tick | day-6/src/main.rs:45-114 | processing the guards from an index keeps guards on the board, only marks cells `X`, never adds guards, and logs at most one blockage |
| GuardPatrol.MoveGuard | day-6/src/main.rs:39-115 | one round keeps every guard on the board, only turns cells into `X`, and never adds guards |
| GuardPatrol.GetAllTraversedGuardPositions | day-6/src/main.rs:127-137 | exactly the `X` cells are listed, in row-major order |
| GuardPatrol.CountGuardPositions | day-6/src/main.rs:118-124 | the count equals the number of traversed positions listed and is at most the board's area |
| GuardPatrol.MarkedCountGrows | day-6/src/main.rs:87-105 | turning cells into `X` never lowers the number of `X` cells |
| GuardPatrol.RowMarkedCountGrows | day-6/src/main.rs:87-105 | the same, for one row prefix |
| GuardPatrol.RunPatrol | day-6/src/main.rs:152-159 | when the loop ends no guard is left and the board has only gained `X` cells |
| GuardPatrol.PartOne | day-6/src/main.rs:140-165 | fails exactly when the patrol panics or runs out of fuel, and otherwise is the number of `X` cells on the board once every guard has left, at least the number of `X` cells on the input and at most the board's area |
| GuardPatrol.AreaMarked | day-6/src/main.rs:87-105 | marking keeps the board's area |
| GuardPatrol.RunTrial | day-6/src/main.rs:183-193 | the trial loop stops when no guard is left or a blockage has been logged, and logs at most one |
| GuardPatrol.TickBlockagesGrowByOne | day-6/src/main.rs:84-90 | one round logs at most one blockage |
| GuardPatrol.Trial | day-6/src/main.rs:171-193 | a trial on the board with `#` at the position fails exactly when its run panics, and otherwise reports true exactly when the run logged its one blockage and false only when every guard walked off |
| GuardPatrol.LoopingPositions | day-6/src/main.rs:171-198 | at most one position is recorded per trial |
| GuardPatrol.LoopingPositionsExact | day-6/src/main.rs:171-198 | when every trial finished, a position is recorded exactly when it is one of those tried and its trial logged a blockage |
| GuardPatrol.PartTwo | day-6/src/main.rs:167-203 | the number of obstruction positions is at most the board's area |
| BridgeCalibration.ConcatSplits | day-7/src/main.rs:82-84 | concatenation loses nothing: the right operand is recovered as the low digits and the left operand as the rest |
| BridgeCalibration.Decode | day-7/src/main.rs:72-73 | an encoding stands for exactly one operator per gap |
| BridgeCalibration.EncodeDecode | day-7/src/main.rs:68-70 | every operator sequence has an encoding below 3 to the number of gaps, so the loop tries every sequence |
| BridgeCalibration.DecodeAt | day-7/src/main.rs:73-89 | the operator the loop reads for gap j is digit j of the encoding in base 3 |
| BridgeCalibration.EvalEncoding | day-7/src/main.rs:71-90 | the inner loop ends with the left-to-right value of the operator sequence whose base-3 digits make up the encoding |
| BridgeCalibration.GetIsProductPossible | day-7/src/main.rs:55-99 | false for no numbers, a comparison for one, and in general true exactly when some left-to-right sequence of add, multiply and concatenate reaches the total |
| BridgeCalibration.ExampleEquations | day-7/src/main.rs:70-96 | two sample equations are satisfiable, one needing a concatenation and one mixing operators |
| BridgeCalibration.TotalCalibration | day-7/src/main.rs:43-51 | the fold adds the totals of exactly the satisfiable equations |
| BridgeCalibration.CalibrationSumBound | day-7/src/main.rs:43-51 | with non-negative totals the sum lies between 0 and the sum of all totals |
| Antennas.Frequencies | day-8/src/main.rs:29-35 | the frequencies are exactly the characters other than `.` that occur on the map |
| Antennas.Group | day-8/src/main.rs:28-35 | a frequency's list holds exactly the cells carrying it, in the row-major order they are pushed |
| Antennas.GroupOfFrequency | day-8/src/main.rs:31-32 | every frequency present has at least one antenna |
| Antennas.StepsShift | day-8/src/main.rs:65-66 | stepping once and then k times lands where k + 1 steps from the start land |
| Antennas.RayPoints | day-8/src/main.rs:64-78 | the walk visits the points one, two, ... steps from the start, all inside the box, and stops at the first point outside |
| Antennas.PairsBeforeNext | day-8/src/main.rs:53-56 | advancing the inner index adds the antinodes of that pair, or nothing when both indices are equal |
| Antennas.PairsBeforeRow | day-8/src/main.rs:52-53 | finishing the inner loop moves on to the next outer index |
| Antennas.SeenOfAdd | day-8/src/main.rs:42-81 | visiting one more frequency adds exactly what that frequency contributes to the set |
| Antennas.PairNodesInBox | day-8/src/main.rs:67-76 | every antinode inserted lies inside the box |
| Antennas.SeenInBoxOrAntenna | day-8/src/main.rs:41-82 | every counted position is an antenna or a point inside the box |
| Antennas.RaySetStep | day-8/src/main.rs:64-78 | the points of a walk are its first step, when inside the box, followed by the walk from there |
| Antennas.RoomShrinks | day-8/src/main.rs:64-78 | every step that stays inside the box brings the walk closer to its end, so the loop terminates |
| Antennas.WalkRay | day-8/src/main.rs:58-78 | the inner loop inserts exactly the points of the ray from the second antenna away from the first |
| Antennas.AllPairs | day-8/src/main.rs:51-80 | the index loops insert exactly the antinodes of every ordered pair of distinct antennas |
| Antennas.VisitFrequency | day-8/src/main.rs:42-80 | a lone antenna adds nothing; otherwise the antennas and every pair's antinodes are added |
| Antennas.CountAntinodes | day-8/src/main.rs:11-82 | the answer is the size of the union of every frequency's contribution, whatever order the frequencies are visited in |
| DiskFragmenter.ParseDigits | day-9/src/main.rs:16-17 | parsing succeeds exactly when every character is a decimal digit, and then yields each digit's value |
| DiskFragmenter.Repeat | day-9/src/main.rs:20-22 | `vec![v; c]` has c blocks, all equal to v |
| DiskFragmenter.Expand | day-9/src/main.rs:16-24 | the disk has as many blocks as the digits add up to, and each block is free or the id of a file of the map |
| DiskFragmenter.ExpandFileCount | day-9/src/main.rs:18-20 | every file id occurs exactly as many times as its digit says |
| DiskFragmenter.FileCountSplit | day-9/src/main.rs:16-24 | the last digit adds to a file's count only when it is that file's own digit |
| DiskFragmenter.ExpandRange | day-9/src/main.rs:19 | no id beyond the number of files occurs |
| DiskFragmenter.ExpandFreeCount | day-9/src/main.rs:21-22 | free blocks occur as often as the odd-position digits add up to |
| DiskFragmenter.RepeatCount | day-9/src/main.rs:20-22 | a repeated block occurs exactly as often as asked |
| DiskFragmenter.Compact | day-9/src/main.rs:26-48 | the two-pointer loop only permutes the blocks, leaves no free block before a file block, and ends with the reference compaction: with n file blocks in all, the file blocks among the first n positions stay put, the j-th free block among them receives the j-th file block from position n on counted from the back, and everything from n on is free |
| DiskFragmenter.AdvanceStart | day-9/src/main.rs:29-34 | stepping the front pointer over a file block keeps every hole behind it filled |
| DiskFragmenter.RetreatEnd | day-9/src/main.rs:36-41 | stepping the back pointer over a free block leaves the blocks still to be moved as they were |
| DiskFragmenter.SwapStep | day-9/src/main.rs:43-47 | the swap puts the last file block not yet moved into the first hole, and nothing else changes |
| DiskFragmenter.CompactDone | day-9/src/main.rs:43-45 | when the pointers meet, they stand at the number of file blocks and the disk is the reference compaction |
| DiskFragmenter.CompactionExample | day-9/src/main.rs:26-50 | the map `12101`, expanded to `0..12`, compacts to `021..` with checksum 4, not to `012..` |
| DiskFragmenter.Swap | day-9/src/main.rs:47 | the two blocks trade places, nothing else moves, and the multiset of blocks is unchanged |
| DiskFragmenter.CalculateChecksum | day-9/src/main.rs:148-157 | the fold sums index times id over the blocks that are not free |
| DiskFragmenter.TriClosedForm | day-9/src/main.rs:165-167 | 0 + 1 + ... + (n - 1) is n(n - 1)/2 |
| DiskFragmenter.ChecksumAppendRepeat | day-9/src/main.rs:148-157 | appending c blocks of one file adds the file id times the sum of their indices |
| DiskFragmenter.ChecksumSnoc | day-9/src/main.rs:149-155 | one more block adds its index times its id, unless it is free |
| DiskFragmenter.Layout | day-9/src/main.rs:73-94 | even digits become files with id i/2 and odd digits free spans, each starting where the digits before it end |
| DiskFragmenter.LayoutContiguous | day-9/src/main.rs:75-93 | each file ends where the following free span starts, and that span ends where the next file starts |
| DiskFragmenter.DigitSumStep | day-9/src/main.rs:85-92 | the running start advances by each digit in turn |
| DiskFragmenter.FirstFit | day-9/src/main.rs:102-108 | the scan stops at the first span long enough for the file, or past the end when none is |
| DiskFragmenter.MoveFile | day-9/src/main.rs:101-122 | a file keeps its id and length and never moves right; when the first span that fits starts no later than the file, the file moves to that span's start, and the span is removed on an exact fit and otherwise loses the file's length from its front, with every other span unchanged; the spans stay ordered and never grow in number |
| DiskFragmenter.FreeTotalAppend | day-9/src/main.rs:88-92 | the free total of two span lists together is the sum of their totals |
| DiskFragmenter.FreeTotalAround | day-9/src/main.rs:115-120 | the spans before, at and after an index make up the free total |
| DiskFragmenter.MoveFileAccounting | day-9/src/main.rs:109-121 | a file moves exactly when the first span that fits starts no later than the file, and then the free total drops by exactly the file's length; otherwise nothing changes |
| DiskFragmenter.RemoveTotal | day-9/src/main.rs:116 | removing a span removes its length from the free total |
| DiskFragmenter.ShrinkTotal | day-9/src/main.rs:118-119 | shrinking a span by the file's length removes that length from the free total |
| DiskFragmenter.MoveAll | day-9/src/main.rs:101-122 | every file keeps its id and length and never moves right |
| DiskFragmenter.Reverse | day-9/src/main.rs:100 | the files are listed in the opposite order |
| DiskFragmenter.CalculateFileChecksum | day-9/src/main.rs:161-170 | the per-block inner loop sums to each file's closed-form sum of position times id |
| DiskFragmenter.InitialChecksumsAgree | day-9/src/main.rs:72-94 | before any file moves, the file checksum of the layout equals the block checksum of the expanded disk |
| DiskFragmenter.LayoutStep | day-9/src/main.rs:76-94 | the last digit adds a file to the layout checksum exactly when it is a file digit |
| DiskFragmenter.DoPartTwo | day-9/src/main.rs:72-138 | the answer is the checksum of the files after moving them from the highest id down |
| DiskFragmenter.DoPartOne | day-9/src/main.rs:11-52 | the answer is the checksum of the reference compaction of the expanded disk, which is a compacted permutation of it |
| TrailFinder.NewGrid | day-10/src/main_refactor.rs:16-30 | the height is the number of rows and the width the first row's length, so a cell is in bounds exactly when it lies inside the rows |
| TrailFinder.FindDigit | day-10/src/main_refactor.rs:36-46 | exactly the in-bounds cells holding the digit are listed, in row-major order and so each once |
| TrailFinder.EndsSound | day-10/src/main_refactor.rs:93-128 | every summit the search reaches ends a climb from the current cell: one orthogonal step and one digit up at a time, to 9 |
| TrailFinder.EndsViaSound | day-10/src/main_refactor.rs:108-127 | the same for the summits reached through the remaining directions |
| TrailFinder.ClimbExtend | day-10/src/main_refactor.rs:112-125 | a step to a neighbour holding the next digit, followed by a climb from there, is a climb |
| TrailFinder.EndsComplete | day-10/src/main_refactor.rs:93-128 | every climb from the current cell is found by the search |
| TrailFinder.EndsViaContains | day-10/src/main_refactor.rs:108-127 | the summits behind any later direction are among those reached from an earlier one |
| TrailFinder.NoNextDigitNoEnds | day-10/src/main_refactor.rs:112-126 | a cell with no neighbour holding the next digit reaches no summit |
| TrailFinder.Dec | day-10/src/main_refactor.rs:60-65 | a number prints as at least one decimal digit |
| TrailFinder.DecRoundTrip | day-10/src/main_refactor.rs:60-65 | reading a printed number back gives the number |
| TrailFinder.FirstColonAfter | day-10/src/main_refactor.rs:62 | the first colon after a colon-free field is the separator |
| TrailFinder.ColonSplit | day-10/src/main_refactor.rs:62 | a colon-free field before a separator is split off again |
| TrailFinder.SeparatedKeyShape | day-10/src/main_refactor.rs:60-65 | the key is the four coordinates in decimal, joined by colons |
| TrailFinder.KeyRoundTrip | day-10/src/main_refactor.rs:60-65 | the colon-separated key reads back as its (start, end) pair |
| TrailFinder.SeparatedKeyInjective | day-10/src/main_refactor.rs:60-65 | distinct (start, end) pairs get distinct colon-separated keys |
| TrailFinder.ConcatenatedKeyCollision | day-10/src/main.rs:62-65 | the unseparated key of the first version maps two different trails to the same string |
| TrailFinder.DfsCollects | day-10/src/main_refactor.rs:93-128 | a search adds one to the count per summit reached and inserts exactly those summits' keys |
| TrailFinder.DfsViaCollects | day-10/src/main_refactor.rs:108-127 | the same for the searches through the remaining directions |
| TrailFinder.KeysOfCard | day-10/src/main_refactor.rs:96-98 | there are never more keys than trails counted |
| TrailFinder.DfsBound | day-10/src/main_refactor.rs:93-128 | a search only adds keys and count, and never more keys than count |
| TrailFinder.NoNextDigitAddsNothing | day-10/src/main.rs:79-94 | a cell without a neighbour holding the next digit leaves the set and the count as they were |
| TrailFinder.SearchCollects | day-10/src/main_refactor.rs:83-91 | all searches together count every trail and insert the key of every (trailhead, summit) pair reached |
| TrailFinder.ReachedMember | day-10/src/main_refactor.rs:83-91 | a pair is reached exactly when its start is a trailhead and its end a summit found from there |
| TrailFinder.ReachedMeansTrail | day-10/src/main_refactor.rs:83-128 | with trailheads holding `0`, a pair is reached exactly when a hiking trail joins them |
| TrailFinder.DirectionOrderIrrelevant | day-10/src/main_refactor.rs:106 | the first version's neighbour order and the refactor's reach the same pairs |
| TrailFinder.SeparatedImageCard | day-10/src/main_refactor.rs:96-97 | with colon-separated keys the set has one key per reached pair |
| TrailFinder.Zeros | day-10/src/main_refactor.rs:85 | the trailheads are exactly the `0` cells, in row-major order |
| TrailFinder.ZerosAreTrailheads | day-10/src/main_refactor.rs:85-90 | on a rectangular map every listed trailhead is an in-bounds `0` |
| TrailFinder.SearchAll | day-10/src/main_refactor.rs:83-91 | searching from every trailhead in turn with one shared set and counter collects the key of every reached (trailhead, summit) pair and counts every trail |
| TrailFinder.FindAllPaths | day-10/src/main_refactor.rs:147-165 | the unique count is the number of distinct (trailhead, summit) pairs, the total the number of trails, and the first never exceeds the second |
| TrailFinder.CountTrails | day-10/src/main.rs:11-50 | the first version's set size is the number of distinct unseparated keys of the pairs reached, its count the number of trails, and the first never exceeds the second |
| StoneCounts.Insert | day-11/src/main.rs:34-40 | the key's count grows by the value, the key is present afterwards, and no other count changes |
| StoneCounts.CreateStonesMap | day-11/src/main.rs:26-32 | the keys are exactly the numbers of the row and each is counted as often as it occurs |
| StoneCounts.SortedKeys | day-11/src/main.rs:51 | the loop visits every number of the map, and only those, with one visit per number |
| StoneCounts.SortedKeysAscending | day-11/src/main.rs:51 | the visits come in strictly ascending order, so no number is visited twice |
| StoneCounts.Stones | day-11/src/main.rs:22 | the map stands for a bag with as many stones of each number as its count, and as many in all as the final fold adds up |
| StoneCounts.SameCountsSameStones | day-11/src/main.rs:22 | maps with the same counts stand for the same stones and the same total |
| StoneCounts.TotalInsert | day-11/src/main.rs:39 | inserting a value adds it to the total |
| StoneCounts.StonesInsert | day-11/src/main.rs:39 | inserting a value adds exactly that many stones of that number |
| StoneCounts.CreateStones | day-11/src/main.rs:26-32 | the map built from a row stands for exactly the stones of the row |
| StoneCounts.CreateTotal | day-11/src/main.rs:26-32 | the map built from a row counts every stone of the row |
| StoneCounts.Children | day-11/src/main.rs:52-72 | a stone with an even number of digits becomes two stones, any other stone one |
| StoneCounts.SplitHalves | day-11/src/main.rs:54-69 | the two halves, written side by side, give back the number: the left half has exactly half the digits and the right half fits below them |
| StoneCounts.TotalInsertAll | day-11/src/main.rs:60-69 | inserting a value for each of several numbers adds the value once per number |
| StoneCounts.BlinkFromTotal | day-11/src/main.rs:51-73 | the loop over the numbers adds their stones plus one more per stone that splits |
| StoneCounts.BlinkTotal | day-11/src/main.rs:49-73 | after one blink there are as many stones as before plus one per stone that split |
| StoneCounts.BlinkRow | day-11/src/main.rs:52-72 | blinking a row never makes it shorter |
| StoneCounts.ImageAdd | day-11/src/main.rs:51-73 | the image of a bag does not depend on which stone is taken first |
| StoneCounts.ImageUnion | day-11/src/main.rs:51-73 | the image of two bags together is the union of their images |
| StoneCounts.RowImage | day-11/src/main.rs:52-72 | blinking a row yields the image of its stones |
| StoneCounts.StonesInsertAll | day-11/src/main.rs:60-69 | inserting a value for each of several numbers adds that many stones of each |
| StoneCounts.ImageCopies | day-11/src/main.rs:52-72 | v stones of one number turn into v copies of what that number becomes |
| StoneCounts.BlinkFromStones | day-11/src/main.rs:51-73 | the loop adds the image of the stones it visits to what it has built |
| StoneCounts.BlinkStones | day-11/src/main.rs:49-73 | one blink of the map turns its stones into their image, so the hash map's visiting order does not matter |
| StoneCounts.BlinkTimesMatchesRow | day-11/src/main.rs:42-76 | blinking the count map n times stands for the same stones as blinking the row n times |
| StoneCounts.IterateBlinks | day-11/src/main.rs:42-76 | from counter c the map is blinked 75 - c times, and not at all once the counter is past 74 |
| StoneCounts.BlinkTimesGrows | day-11/src/main.rs:42-76 | blinking never loses stones |
| StoneCounts.StonesAfterBlinkingRounds | day-11/src/main.rs:15-23 | the answer is the number of stones after exactly 75 blinks of the parsed row |
| StoneCounts.StonesAfterBlinkingBound | day-11/src/main.rs:15-23 | the answer is at least the number of stones the row starts with |
| StoneCounts.StonesAfterBlinkingRow | day-11/src/main.rs:15-23 | the answer is the length of the row after blinking the row itself 75 times |
| GardenFences.NextDirection | day-12/src/main.rs:296-321 | the next side inspected is a clockwise quarter turn of the current one |
| GardenFences.NextDirectionCycle | day-12/src/main.rs:296-301 | the sides cycle North, East, South, West with period exactly four |
| GardenFences.OrthogonalIsStep | day-12/src/main.rs:443-449 | row and column distances 1 and 0, or 0 and 1, mean exactly one step in some direction |
| GardenFences.IsAdjacentToArea | day-12/src/main.rs:443-449 | true exactly when some cell of the area is at distance one, orthogonally, from the position |
| GardenFences.AdjacentIsStep | day-12/src/main.rs:443-449 | a position is adjacent to an area exactly when it is one step from one of its cells |
| GardenFences.InSomeArea | day-12/src/main.rs:370-374 | true exactly when some area holds the position |
| GardenFences.IsAdjacentToOtherGroup | day-12/src/main.rs:450-455 | true exactly when an area with another group id holds the position itself |
| GardenFences.NeedsFence | day-12/src/main.rs:340-385 | never a fence for a cell outside the area, always one at the edge of the grid, none towards a cell of the area, and otherwise a fence exactly when the cell beyond is in no area or in an area of another group |
| GardenFences.FenceOnBoundary | day-12/src/main.rs:340-385 | for an area with its own id and cells inside the grid, a side needs a fence exactly when its cell is in the area and the cell beyond is not |
| GardenFences.TotalScoreUpdate | day-12/src/main.rs:101-107 | replacing one area changes the total by the difference of the two areas' size-times-fences scores |
| GardenFences.TotalScoreAppend | day-12/src/main.rs:101-107 | a new area adds its own score to the total |
| GardenFences.TotalScoreNoFences | day-12/src/main.rs:101-107 | with no fence anywhere the total is 0 |
| GardenFences.AdvancePosition | day-12/src/main.rs:387-400 | moving the scan position leaves the grid and the areas alone |
| GardenFences.AdvanceRowMajor | day-12/src/main.rs:387-400 | the scan moves to the next cell in row-major order, wrapping from the last cell to the first, and only that wrap switches scanning to fencing |
| GardenFences.FindArea | day-12/src/main.rs:154-162 | the result is the first area from the start index that satisfies the test, and absent when none does |
| GardenFences.FindById | day-12/src/main.rs:166-171 | with distinct ids, looking an area up by its id finds that area |
| GardenFences.Mark | day-12/src/main.rs:149-193 | marking a cell changes neither the grid nor the scan position |
| GardenFences.Scan | day-12/src/main.rs:148-195 | the scanning step keeps the grid |
| GardenFences.MarkAttaches | day-12/src/main.rs:149-193 | a non-letter cell changes nothing; a letter cell joins the first area of its letter next to it and no other, or else starts a new one-cell area with the next id that becomes the current area of a flood fill; either way it ends up in an area |
| GardenFences.StepIsOrthogonal | day-12/src/main.rs:209-211 | each flood direction leads to an orthogonal neighbour |
| GardenFences.FirstJoinerAt | day-12/src/main.rs:209-234 | a neighbour found holds the letter, is new to the area and is orthogonal to the cell; none is found exactly when no side of the cell has such a neighbour |
| GardenFences.FirstJoiner | day-12/src/main.rs:208-236 | a neighbour found holds the letter, is new to the area and is adjacent to it; none is found exactly when the area has no such neighbour at all |
| GardenFences.FloodStep | day-12/src/main.rs:196-243 | the flood step keeps grid and scan position, and does nothing without a current area |
| GardenFences.FloodStepGrowsByOne | day-12/src/main.rs:196-243 | when the area is closed the flood stops and goes back to scanning, otherwise that area alone grows by exactly one neighbour holding its letter |
| GardenFences.IndexOf | day-12/src/main.rs:302-303 | the first position of the cell in the area, or 0 when it is absent |
| GardenFences.IndexOfDistinct | day-12/src/main.rs:302-303 | in an area without repeated cells a cell's position is its index |
| GardenFences.FenceAt | day-12/src/main.rs:266-321 | one fence step keeps the grid, scan position, phase and the number of areas |
| GardenFences.FenceStep | day-12/src/main.rs:258-338 | the fencing step keeps the grid and the scan position |
| GardenFences.FenceStepPicksUnvisited | day-12/src/main.rs:324-337 | with no current area, fencing completes exactly when every area is visited, and otherwise takes up the first unvisited area |
| GardenFences.FenceWalkAdvances | day-12/src/main.rs:296-321 | each step inspects the next side of the next cell, four sides per cell in the area's order, until after the West side of the last cell the area is visited and the walk reset |
| GardenFences.FenceAtAddsBoundary | day-12/src/main.rs:273-293 | the inspected side is fenced exactly when it lies on the area's boundary and is not fenced yet, and no other area changes |
| GardenFences.FenceTested | day-12/src/main.rs:273-293 | the fence test touches only the fences of the current area, the step count and the score |
| GardenFences.ProcessNextStep | day-12/src/main.rs:146-256 | a step keeps the grid, never moves back from fencing to scanning, and a complete machine stays as it is |
| GardenFences.NewAppValid | day-12/src/main.rs:66-90 | the starting state has no areas, a zero score and satisfies the invariant |
| GardenFences.AdvanceKeepsValid | day-12/src/main.rs:387-400 | moving the scan position keeps the invariant |
| GardenFences.EndScanKeepsValid | day-12/src/main.rs:249-255 | switching a finished scan to fencing keeps the invariant |
| GardenFences.ReplaceAreaOk | day-12/src/main.rs:172-174 | replacing a well-built area by another with the same id keeps ids distinct and areas well built |
| GardenFences.MarkKeepsValid | day-12/src/main.rs:149-193 | marking a cell keeps cells and fences unique, inside the grid, and ids distinct |
| GardenFences.MarkJoinKeepsValid | day-12/src/main.rs:164-175 | joining an existing area keeps the invariant, since the cell is pushed only when absent |
| GardenFences.MarkNewKeepsValid | day-12/src/main.rs:176-192 | starting a new area with the next id keeps the invariant |
| GardenFences.ScanKeepsValid | day-12/src/main.rs:148-195 | the scanning step keeps the invariant |
| GardenFences.FloodKeepsValid | day-12/src/main.rs:196-243 | the flood step keeps the invariant: no cell is added twice |
| GardenFences.FenceTestedOk | day-12/src/main.rs:273-293 | after the fence test the fences are still unique and on the boundary, and the stored score is the total score |
| GardenFences.FenceAtKeepsValid | day-12/src/main.rs:266-321 | one step of the fence walk keeps the invariant |
| GardenFences.FenceKeepsValid | day-12/src/main.rs:258-338 | the fencing step keeps the invariant, and completes only when every area is visited |
| GardenFences.StepKeepsValid | day-12/src/main.rs:146-256 | every step keeps the invariant |
| GardenFences.Run | day-12/src/main.rs:462-469 | once complete, every area is visited, every fence appears once and stands on its area's boundary, and the shown total is the sum of size times fence count |

## Left out

- File reading, command-line arguments and line splitting. Every model starts from parsed input: token lines (day 1), reports (day 2), rows of characters (days 4, 6, 8, 10, 12), rules and page lists (day 5), equations (day 7), the digit string (day 9) and the stone row (day 11).
- All printing, and the `Instant` timing of day 4.
- Day 3. It is a thin wrapper over the `regex` crate, whose matching rules live in that library.
- Day 4's `backup.rs` and `tests/_.spec.rs`. They do not compile against the current code.
- Machine-integer overflow. Integers are unbounded: `key * 2024` in day 11, the concatenation parse in day 7 and the checksum folds in day 9 are modelled without wrap-around. No overflow preconditions are stated.
- Number-to-string round trips are arithmetic. Day 7's concatenation is `a * 10^digits(b) + b`. Day 11's split takes the digit halves arithmetically. Day 10's digit step uses digit characters.
- BridgeCalibration.GetIsProductPossible: the numbers are non-negative. For a negative operand `format!` would print a minus sign, and the concatenation would differ from the arithmetic one.
- Hash map and hash set iteration order is not fixed.
  - Day 5's initial zero-in-degree queue is a parameter: any duplicate-free listing of those pages.
  - Day 8 visits frequencies as a set.
  - Day 11 visits stone numbers in ascending order. `StoneCounts.BlinkStones` shows the order does not matter.
- A Rust index panic on a ragged grid is excluded by a precondition where the source reads the width off row 0. The affected members are the day 4 searches, `GuardPatrol.WellFormed`, `TrailFinder.FindAllPaths`, `TrailFinder.CountTrails` and `GardenFences.Indexable`. The first version of day 10 tests a column index against the first row's length (`day-10/src/main.rs:81`) and then reads that column of whichever row it is in (`day-10/src/main.rs:84`), so the map `0` over an empty line would panic there. Other error paths are modelled: `Panic` for the invalid guard or cell of day 6, and `None` for unparsable digits in day 9 or a short line in day 1.
- TrailFinder.CountTrails: requires a rectangular map. On a ragged map the first version tests a column against the first row's width but reads it from a shorter or longer row, so it may panic or miss a neighbour. Its answer there is not promised.
- GuardPatrol.RunPatrol: the loop until every guard has left has a fuel bound. It gives `None` when the fuel runs out; termination of the patrol is not proved.
- GuardPatrol.RunTrial: has a fuel bound in the same way, and so does every trial of `GuardPatrol.PartTwo`.
- GuardPatrol.PartTwo: states only that the count is at most the board's area. `GuardPatrol.LoopingPositionsExact` states which positions are counted.
- GardenFences.Run: the frame loop of `update` is driven by a fuel bound instead of the timer. It does not prove that the machine completes, nor that every boundary side of every area gets a fence. It proves that every fence stands on the boundary, appears once, and is scored.
- GardenFences.IsAlphabetic: Rust's `char::is_alphabetic` accepts every Unicode letter. The model accepts the ASCII letters only, which is all the puzzle input uses.
- GardenFences.ProcessNextStep: the step counter (`step_count`) is carried along but no property of it is stated. It only drives the display.
- The day 12 GUI is not modelled: colours (`generate_distinct_color`, `darken_color`), the cursor, the animation speed and time units, grid sizing, drawing, `main` and `load_grid_from_file`. None of them influences the areas, fences or score.
- WordSearch.CheckAllDirectionsOptimised, WordSearch.CountsAgree: require a non-empty grid. The optimised search reads the width off row 0 (`day-4/src/main.rs:50`), which panics on an empty grid, so that case is outside the model.
- WordSearch.MatchesAt, WordSearch.RowMatches, WordSearch.CrossRow: each states only a bound. What they count is stated by `WordSearch.MatchesAtCountsWords`, `WordSearch.RowMatchesCountWords` and `WordSearch.CrossRowCountsCrosses`.

## Findings

| source | as written | input that shows it | evidently intended | confidence | as-written member | corrected member |
|---|---|---|---|---|---|---|
| day-10/src/main.rs:62-65 | the set key prints trailhead row, trailhead column, summit row and summit column back to back with no separator | the trails (1,11)→(1,12) and (11,1)→(11,2) both give the key `111112`, so the set counts two pairs as one | one key per (trailhead, summit) pair, as the colon-separated key of `day-10/src/main_refactor.rs:60-65` gives | not executed | TrailFinder.ConcatenatedKeyCollision | TrailFinder.SeparatedKeyInjective |
