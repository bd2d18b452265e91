# libgeodecomp core, modelled in Dafny

This project models four parts of libgeodecomp in Dafny:

- **NewRegion** (`src/misc/newregion.h`) is a run-length-coded set of grid cells in `DIM` dimensions.
  - It keeps one index vector per dimension.
  - Level 0 holds runs `[startX, endX)` of x-coordinates.
  - Each level `d > 0` holds `(coordinate, offset)` pairs. The offsets split level `d - 1` into contiguous child ranges.
  - Inserting a streak searches down the levels with `upper_bound`. It adds an index entry where a coordinate is missing. On level 0 it fuses runs that touch or overlap. On the way back up it moves the offsets of the later entries (`incRemainder`).
  - Removing a streak descends only through coordinates that are present. On level 0 it cuts the interval out of the runs, which leaves 0, 1 or 2 pieces per run. It erases index entries whose child range has become empty.
  - A streak iterator walks the runs in order. It keeps one position per level, and each position lies in the child range of the position one level up. Stepping it moves level 0 on and carries the step upwards.
  - The region is a class (`NewRegions.NewRegion`) whose `indices` field the methods update in place.
  - The invariants that tie the levels together are predicates over the levels as values (module `NewRegionLevels`).
- **StripingSimulator** (`src/parallelization/stripingsimulator.h`), without MPI. What is modelled is its integer arithmetic:
  - the even partition of the grid height;
  - the conversions between partitions and workloads, and the validation of loads and constructor parameters;
  - the ghost heights and the six row slabs of a stripe;
  - the search for the upper and lower neighbour;
  - the rows migrated when the partitions change;
  - the gating of load balancing and of the writer and steerer calls by the step number.
  The rank and the number of nodes are explicit parameters, and a region of rows is a `set<int>`.
- **SuperVector** (`src/misc/supervector.h`) is a class over a `seq` with `std::vector`'s extra operations: `del`, `<<`, `append`, `+`, `push_front`, `pop_front`, `pop`, `sum`, `contains`, `sort` and `max`. `sum`, `sort` and `max` are modelled for a vector of integers.
- **PatchAccepter** (`src/storage/patchaccepter.h`) is the set of requested nano-steps: `pushRequest`, `nextRequiredNanoStep` and `checkNanoStepPut`.

Files:

- `newregion_levels.dfy` holds the pairs, level invariants, cell sets, run arithmetic and the lemmas about splicing levels.
- `region_cells.dfy` holds the cells of a region in any number of dimensions, read off its levels, and the lemmas that follow them through each branch of the insert and remove descent.
- `newregion.dfy` holds the `NewRegion` class, the recursive insert and remove descent, the level-0 fuse and cut loops, the streak iterator, and the as-written fuse loop of the finding below.
- `streak_chains.dfy` holds the chains of positions an iterator walks, why they come in lexicographic order, and why their streaks make up exactly the region's cells.
- `stripingsimulator.dfy`, `supervector.dfy` and `patchaccepter.dfy` hold the other three parts.

## Model

| member | source | states |
|---|---|---|
| NewRegions.NewRegion.constructor | src/misc/newregion.h:255 | a new region has `DIM` empty levels and satisfies the level invariant |
| NewRegions.NewRegion.Insert | src/misc/newregion.h:194-203 | `operator<<`: a streak with `endX <= origin.x` leaves the region unchanged; otherwise, in any number of dimensions, the region's cells become the old cells plus the streak's cells, and every level invariant holds. Level 0 is filled by the corrected fuse loop of the Findings row, not the loop as written |
| NewRegions.NewRegion.Remove | src/misc/newregion.h:205-214 | `operator>>`: a degenerate streak, or an empty region, leaves the region unchanged; otherwise, in any number of dimensions, the region's cells become the old cells minus the streak's cells, and every level invariant holds |
| NewRegions.NewRegion.Empty | src/misc/newregion.h:230-233 | `empty()` reads only level 0, yet holds exactly when every level is empty |
| NewRegions.BottomEmpty | src/misc/newregion.h:230-233 | under the level invariant, level 0 is empty iff levels 0..d all are |
| NewRegions.NewRegion.Size | src/misc/newregion.h:249-252 | `size()` is zero exactly for the empty region |
| NewRegions.NewRegion.IncRemainder | src/misc/newregion.h:94-105 | exactly the offsets of entries [start, end) of one level move by `inserts`; everything else, including the coordinates, is unchanged |
| NewRegions.UpperBound | src/misc/newregion.h:258-261 | `upper_bound` with `PairCompareFirst`: every entry before the result has coordinate ≤ c, every entry from it on has coordinate > c, and it is the first such index |
| NewRegionLevels.FirstAboveIs | src/misc/newregion.h:258-261 | the index that separates coordinates ≤ c from those > c is unique |
| NewRegions.NewRegion.InsertAt | src/misc/newregion.h:277-351 | descending insert on level d: keeps levels 0..d valid and the stretch sorted; the entries before and after the searched stretch keep their cells, and the stretch, now `ins` entries longer, gains exactly the streak's cells; above level 0 it returns 0 iff the coordinate was already present and 1 if an entry was added |
| NewRegions.NewRegion.InsertBelow | src/misc/newregion.h:304-320 | coordinate found at entry e: level d becomes its entries up to e, unchanged, followed by the later entries with offsets moved by what level d - 1 gained; returns 0; the stretch gains exactly the streak's cells |
| NewRegions.NewRegion.InsertEntry | src/misc/newregion.h:323-350 | coordinate missing: level d becomes the entries before i, the new entry (c, offset of entry i or the size of level d - 1), then the old later entries with offsets moved by what level d - 1 gained; returns 1; the stretch gains exactly the streak's cells |
| NewRegions.NewRegion.InsertRun | src/misc/newregion.h:361-401 | level-0 insert on the class, through the corrected fuse loop of the Findings row: the runs of the stretch stay sorted and separated by gaps, the covered cells gain exactly the streak's cells, nothing outside the stretch changes |
| NewRegions.FuseRun | src/misc/newregion.h:365-400 | the fuse loop, corrected: runs touching or overlapping the streak are fused into one run; returns 1 minus the number of runs fused away; result sorted, gap-separated, cells = old cells + streak cells |
| NewRegions.FuseStart | src/misc/newregion.h:368-379 | the start cursor is the last run whose start is ≤ the streak's start, or the start of the stretch |
| NewRegions.FuseTurn | src/misc/newregion.h:383-396 | one pass of the loop body fuses or advances and keeps the fuse invariant |
| NewRegions.FuseClose | src/misc/newregion.h:398-400 | inserting the fused run at the cursor completes the splice with the promised cells |
| NewRegionLevels.FuseCells | src/misc/newregion.h:404-415 | `fuse` of two touching or overlapping runs covers exactly the union of their cells |
| NewRegions.NewRegion.RemoveAt | src/misc/newregion.h:436-488 | descending remove on level d: keeps levels 0..d valid; the entries before and after the searched stretch keep their cells, and the stretch loses exactly the streak's cells; a coordinate absent from the stretch changes nothing and returns 0; above level 0 it returns -1 or 0 |
| NewRegions.NewRegion.RemoveBelow | src/misc/newregion.h:464-487 | coordinate found at entry e: returns -1 exactly when level d - 1 lost the whole child range of e, and then e is erased and the later offsets move; otherwise returns 0, keeps e and moves the offsets after it; the stretch loses exactly the streak's cells |
| NewRegions.NewRegion.RemoveRun | src/misc/newregion.h:498-547 | level-0 remove on the class: runs stay sorted and gap-separated, the covered cells lose exactly the cut's cells |
| NewRegions.CutRun | src/misc/newregion.h:502-547 | the cut loop: every run of the stretch is replaced by what `substract` leaves of it; runs stay ordered |
| NewRegions.CutStart | src/misc/newregion.h:511-521 | the start cursor is the last run starting at or before the cut, runs before it lie wholly before the cut |
| NewRegions.CutTurn | src/misc/newregion.h:525-544 | one pass of the loop body keeps the cut invariant and stops at the first run lying after the cut |
| NewRegions.CutAt | src/misc/newregion.h:527-536 | erasing the run at the cursor and inserting its pieces splices them in its place and moves `end` and `inserts` by the number of pieces minus one |
| NewRegions.InsertPieces | src/misc/newregion.h:533-536 | the insert loop puts the pieces in order at the cursor and leaves the cursor after them |
| NewRegionLevels.IntersectCells | src/misc/newregion.h:551-556 | the strict overlap test holds iff two runs share a cell, so touching runs are not cut |
| NewRegionLevels.SubstractShape | src/misc/newregion.h:558-575 | `substract` yields 0, 1 or 2 non-empty runs, in order, inside the base run |
| NewRegionLevels.SubstractCells | src/misc/newregion.h:558-575 | the pieces cover exactly the base's cells minus the minuend's cells |
| NewRegionLevels.SubstractSplits | src/misc/newregion.h:558-575 | removing [3,6) from [0,10) leaves [0,3) and [6,10) |
| NewRegionLevels.FoundStep | src/misc/newregion.h:313-319 | shifting the offsets after a found entry by the level-below growth keeps levels 0..d valid |
| NewRegionLevels.AddedStep | src/misc/newregion.h:337-348 | an entry added in order, with the later offsets shifted, keeps levels 0..d valid |
| NewRegionLevels.ErasedStep | src/misc/newregion.h:479-486 | erasing an entry whose children are gone, with the later offsets shifted, keeps levels 0..d valid |
| RegionCells.StreakCellsMembership | src/misc/newregion.h:194-203 | a streak holds exactly the cells whose x lies in [origin.x, endX) and whose other coordinates are the origin's |
| RegionCells.StreakEmpty | src/misc/newregion.h:196-198 | a streak with `endX <= origin.x` holds no cells, so ignoring it adds and removes exactly its cells |
| RegionCells.ZeroInserted | src/misc/newregion.h:361-401 | a level-0 splice whose runs gain the streak's x-range gains the streak's cells, and the runs around it keep theirs |
| RegionCells.ZeroRemoved | src/misc/newregion.h:498-547 | a level-0 splice whose runs lose the streak's x-range loses the streak's cells, and the runs around it keep theirs |
| RegionCells.FoundInserted | src/misc/newregion.h:304-320 | when the found entry's child range gained the streak's lower cells and the later offsets moved, the stretch of level d gains the streak's cells and every other entry keeps its cells |
| RegionCells.AddedInserted | src/misc/newregion.h:323-350 | a new entry whose empty child range was filled with the streak's lower cells holds exactly the streak's cells; the old entries keep theirs |
| RegionCells.FoundRemoved | src/misc/newregion.h:464-487 | when the found entry's child range lost the streak's lower cells and the entry stays, the stretch of level d loses the streak's cells and every other entry keeps its cells |
| RegionCells.ErasedRemoved | src/misc/newregion.h:478-486 | when the found entry's child range lost all its cells and the entry is erased, the stretch loses exactly the streak's cells |
| RegionCells.AbsentRemoved | src/misc/newregion.h:451-461 | when the coordinate is absent from the stretch, returning without a change removes the streak's cells, as the stretch holds none of them |
| NewRegions.NewRegion.BeginStreak | src/misc/newregion.h:235-240 | `beginStreak` puts every level at its first entry: for a region with cells the iterator names the first streak, for an empty region it equals the end iterator |
| StreakChains.FirstChain | src/misc/newregion.h:22-32 | the first entries of all levels form a chain, so `initBegin` names a streak of the region |
| StreakChains.LevelsNonEmpty | src/misc/newregion.h:62-72 | when level 0 has a run, every level has an entry, so `initBegin` sets every coordinate |
| NewRegions.NewRegion.EndStreak | src/misc/newregion.h:242-247 | `endStreak` puts every level at its end |
| NewRegions.StreakIterator.Next | src/misc/newregion.h:142-171 | `operator++` moves level 0 to its next run and steps each owner up while the position below has reached the end of its child range; the iterator then names the next streak, which comes after the old one in lexicographic order; past the last run every level is at its end |
| NewRegions.StreakIterator.Current | src/misc/newregion.h:183-186 | `operator*` returns the streak of the current chain: the coordinate of every level's entry, with the level-0 run non-empty |
| NewRegions.StreakIterator.Equal | src/misc/newregion.h:173-176 | `operator==` holds iff the positions agree on every level |
| NewRegions.SamePositions | src/misc/newregion.h:42-51 | `compareIterators` from level n - 1 down to 0 holds iff the first n positions agree |
| NewRegions.EqualIffSameRun | src/misc/newregion.h:173-176 | two iterators naming streaks of one region are equal iff they stand on the same level-0 run |
| NewRegions.StreakNotEnd | src/misc/newregion.h:173-181 | an iterator naming a streak differs from the end iterator |
| StreakChains.ChainUnique | src/misc/newregion.h:154-169 | the level-0 position fixes the positions on every level above it |
| StreakChains.ChainOrder | src/misc/newregion.h:142-171 | streaks taken in the order of their level-0 runs are in strictly increasing lexicographic order, the highest dimension first |
| StreakChains.ChainCells | src/misc/newregion.h:142-171 | the streak any chain names lies inside the region's cells, so iteration yields no cell outside the region |
| StreakChains.CellsOnChain | src/misc/newregion.h:142-171 | every cell of the region lies in the streak of some chain, so iteration misses no cell |
| StreakChains.RegionIsItsStreaks | src/misc/newregion.h:142-171 | a cell is in the region exactly when it is in the streak of one of its chains |
| NewRegions.FuseAsWritten | src/misc/newregion.h:368-400 | the fuse loop exactly as written; the number of runs grows by its result |
| NewRegions.FuseLoopAsWritten | src/misc/newregion.h:383-398 | the as-written loop changes the length by its `inserts` count and never raises it |
| NewRegions.FuseAsWrittenMisorders | src/misc/newregion.h:375-398 | as written, inserting [0,2) into the region [5,10) yields [(5,10),(0,2)], which is not sorted |
| Striping.PartitionShape | src/parallelization/stripingsimulator.h:179-187 | while `gridHeight * (size - 1)` fits in `unsigned`, `partition(h, n)` has n+1 entries, starts at 0, ends at h, is non-decreasing, and each stripe is h/n or h/n+1 rows |
| Striping.StripeHeight | src/parallelization/stripingsimulator.h:183 | while `gridHeight * (size - 1)` is below 2^32, consecutive partition points differ by h/n or h/n+1 |
| Striping.NoWrap | src/parallelization/stripingsimulator.h:183 | while `gridHeight * (size - 1)` is below 2^32, entry i of the partition is exactly `gridHeight * i / size` |
| Striping.PartitionWraps | src/parallelization/stripingsimulator.h:183 | with 2^20 rows on 5000 nodes the product wraps at node 4096, whose first row becomes 0, so the partition is not non-decreasing |
| Striping.Partition | src/parallelization/stripingsimulator.h:179-187 | the loop computes the partition, with the product `gridHeight * i` taken modulo 2^32 as `unsigned` does |
| Striping.PartitionsToWorkloads | src/parallelization/stripingsimulator.h:520-527 | the loop computes the adjacent differences |
| Striping.WorkloadsToPartitions | src/parallelization/stripingsimulator.h:529-537 | the loop computes the prefix sums starting at 0 |
| Striping.PrefixSumsAt | src/parallelization/stripingsimulator.h:529-537 | entry k of the partitions is the sum of the first k workloads |
| Striping.PartitionsRoundTrip | src/parallelization/stripingsimulator.h:520-537 | partitions → workloads → partitions is the identity when the first partition is 0 |
| Striping.WorkloadsRoundTrip | src/parallelization/stripingsimulator.h:520-537 | workloads → partitions → workloads is the identity |
| Striping.WorkloadsSum | src/parallelization/stripingsimulator.h:520-527 | the workloads add up to the extent covered by the partitions |
| Striping.ValidateLoads | src/parallelization/stripingsimulator.h:607-614 | passes iff the lengths and the sums agree, else the invalid-argument error |
| Striping.ValidateConstructorParams | src/parallelization/stripingsimulator.h:621-641 | passes iff the period is ≥ 1 and a balancer is present exactly on rank 0; otherwise the error for the first failing test |
| Striping.RepartitionKeepsExtent | src/parallelization/stripingsimulator.h:205-214 | the root repartitions iff the new loads pass validation, and the new partitions span the same rows |
| Striping.BalancesOncePerWindow | src/parallelization/stripingsimulator.h:192-196 | load balancing runs exactly once in every window of `loadBalancingPeriod` steps, at its first step |
| Striping.StripingSimulator.HandleInput | src/parallelization/stripingsimulator.h:261-280 | returns, in increasing order, exactly the steerers whose period divides the step number |
| Striping.StripingSimulator.HandleOutput | src/parallelization/stripingsimulator.h:282-296 | returns, in increasing order, exactly the writers called: every writer on events other than a finished step, and on a finished step those whose period divides the step |
| Striping.SteererOncePerWindow | src/parallelization/stripingsimulator.h:267 | a steerer is called exactly once in each window of its period, at the window's first step |
| Striping.WriterOncePerWindow | src/parallelization/stripingsimulator.h:285-286 | a writer is called on every initialization and final event, and on finished steps exactly once per window of its period, at its first step |
| Striping.StripingSimulator.BalanceLoad | src/parallelization/stripingsimulator.h:192-222 | the step counter is kept; between balancing steps nothing changes; at a balancing step the broadcast partitions are adopted and the migration plan computed |
| Striping.StripingSimulator.constructor | src/parallelization/stripingsimulator.h:55-88 | a validated simulator starts from the even partition with consistent regions and the step counter at the initializer's start step |
| Striping.StripingSimulator.InitSimulation | src/parallelization/stripingsimulator.h:417-427 | `initSimulation` sets the step counter to the initializer's start step |
| Striping.StripingSimulator.AdaptDimensions | src/parallelization/stripingsimulator.h:435-469 | adopts the partitions, chooses the ghost heights (0 for an empty stripe or one node, 1 when wrapping, else by the stripe's position) and returns the bounding box with outer ghosts |
| Striping.StripingSimulator.InitRegions | src/parallelization/stripingsimulator.h:403-412 | the six slabs are the row ranges of the stripe and its inner and outer ghost rows |
| Striping.InnerRegionsCoverStripe | src/parallelization/stripingsimulator.h:403-412 | inner upper ghost ∪ inner ∪ inner lower ghost is exactly the stripe |
| Striping.OuterGhostsOutside | src/parallelization/stripingsimulator.h:403-412 | the outer ghost slabs are disjoint from the stripe and as high as the ghost heights |
| Striping.FillRegionRows | src/parallelization/stripingsimulator.h:396-401 | `fillRegion(start, end)` holds exactly the rows [start, end) |
| Striping.BoxRowsMembership | src/parallelization/stripingsimulator.h:304-315 | a bounding box holds the rows from its start for its height, which is clamped at 0 |
| Striping.RowsCount | src/parallelization/stripingsimulator.h:304-315 | a box of height h holds h rows |
| Striping.LowerNeighbor | src/parallelization/stripingsimulator.h:471-495 | the nearest following rank with a non-empty stripe; -1 at the edge without wrapping; with wrapping it cycles and returns the own rank if all others are empty |
| Striping.UpperNeighbor | src/parallelization/stripingsimulator.h:497-518 | the nearest preceding rank with a non-empty stripe, with the same edge and wrapping rules |
| Striping.RingMod | src/parallelization/stripingsimulator.h:478-481 | the modular step of the wrapping search moves to the next or previous rank on the ring |
| Striping.CollectOverlaps | src/parallelization/stripingsimulator.h:550-570 | the loop over all ranks collects exactly the non-empty intersections with each rank's stripe |
| Striping.StripingSimulator.RedistributeGrid | src/parallelization/stripingsimulator.h:539-601 | the step counter is kept; when the partitions are unchanged nothing changes and nothing moves; otherwise the rows received and sent are the overlaps of the new and old stripes |
| Striping.OverlapsMembership | src/parallelization/stripingsimulator.h:554-593 | a transfer is in the plan iff it is the non-empty overlap of the own stripe with that rank's stripe |
| Striping.SendsMatchReceives | src/parallelization/stripingsimulator.h:554-593 | rank a sends rows [s, e) to rank b iff rank b receives them from rank a |
| Striping.MigrationCoversStripes | src/parallelization/stripingsimulator.h:550-593 | the rows received make up the new stripe and the rows sent make up the old stripe |
| Striping.RebalanceExample | src/parallelization/stripingsimulator.h:539-593 | going from [0,4,8,12] to [0,5,9,12], rank 0 receives [4,5) from rank 1, and so on; unchanged partitions move nothing |
| SuperVectors.SuperVector.Del | src/misc/supervector.h:70-73 | the items become the old items without every element equal to `obj` |
| SuperVectors.WithoutMultiset | src/misc/supervector.h:70-73 | `del` keeps every other element with its multiplicity and removes all copies of `obj` |
| SuperVectors.WithoutMembership | src/misc/supervector.h:70-73 | an element survives `del` iff it was present and differs from `obj` |
| SuperVectors.WithoutDistributes | src/misc/supervector.h:70-73 | `del` keeps the relative order: it distributes over concatenation |
| SuperVectors.SuperVector.Push | src/misc/supervector.h:95-99 | `<<` appends one element at the end |
| SuperVectors.SuperVector.Append | src/misc/supervector.h:101-104 | `append` concatenates the other vector |
| SuperVectors.SuperVector.Plus | src/misc/supervector.h:106-111 | `+` returns a fresh vector holding the concatenation, leaving both operands unchanged |
| SuperVectors.SuperVector.PushFront | src/misc/supervector.h:113-116 | `push_front` puts one element at index 0 |
| SuperVectors.SuperVector.PopFront | src/misc/supervector.h:118-123 | `pop_front` returns the old first element and removes it |
| SuperVectors.SuperVector.Pop | src/misc/supervector.h:125-130 | `pop` returns the old last element and removes it |
| SuperVectors.Sum | src/misc/supervector.h:132-140 | the accumulator loop computes the sum of the items |
| SuperVectors.SeqSumAppend | src/misc/supervector.h:132-140 | the sum of a concatenation is the sum of the sums |
| SuperVectors.SuperVector.Contains | src/misc/supervector.h:142-145 | `contains` holds iff the element occurs |
| SuperVectors.Sort | src/misc/supervector.h:147-150 | `sort` leaves the items sorted and a permutation of the old items |
| SuperVectors.InsertSortedSorted | src/misc/supervector.h:147-150 | inserting into a sorted sequence keeps it sorted |
| SuperVectors.InsertSortedMultiset | src/misc/supervector.h:147-150 | inserting adds exactly that element and keeps every other one |
| SuperVectors.Max | src/misc/supervector.h:152-160 | `max` on a non-empty vector returns the first element that no element exceeds, and its position |
| PatchAccepters.PatchAccepter.SetRegion | src/storage/patchaccepter.h:29-32 | `setRegion` leaves the requests unchanged |
| PatchAccepters.PatchAccepter.NextRequiredNanoStep | src/storage/patchaccepter.h:34-41 | `(size_t)-1` when nothing is requested, else the smallest request |
| PatchAccepters.PatchAccepter.PushRequest | src/storage/patchaccepter.h:43-46 | adds the nano-step to the set; a duplicate leaves it unchanged |
| PatchAccepters.PatchAccepter.CheckNanoStepPut | src/storage/patchaccepter.h:51-62 | ignore iff nothing is pending or the step is below the minimum; accept iff it is the minimum; the logic error iff it is above the minimum |
| PatchAccepters.HasMin | src/storage/patchaccepter.h:40 | a non-empty request set has a smallest element, which `*begin()` returns |
| PatchAccepters.MinUnique | src/storage/patchaccepter.h:54-56 | the smallest request is unique |
| PatchAccepters.ServesSmallestFirst | src/storage/patchaccepter.h:43-61 | after two requests in either order, the first accepted nano-step is the smaller one |

## Left out

- `DIM` is a template parameter in the source. Here it is the runtime field `dim` of the region, and a streak's origin is a sequence of length `dim`.
- NewRegions.NewRegion.Insert, NewRegions.NewRegion.Remove: the model accepts `dim == 1`, which goes beyond the source. For `DIM == 1`, `operator<<` and `operator>>` call the level-0 helpers with two arguments, but those helpers declare only a four-argument `operator()` (src/misc/newregion.h:201, 212, 362, 499), so `NewRegion<1>` cannot insert or remove.
- The `std::cout` traces, `toString` and the stream `operator<<` of `src/misc/newregion.h` are debug output.
- NewRegions.StreakIterator.Next: the source reads the run under `iterators[0]` before it tests for the end, and reads the offset after the last entry of a level as the end of its child range. Both read past the end of a vector. The model tests for the end first and uses the length of the level below as the end of the last child range.
- NewRegions.StreakIterator.Next: when the iterator moves past the last run, the source copies the run it reads past the end into `streak`. The model leaves `streak` as it was.
- `Streak` comes from `src/misc/streak.h`, which is not part of this model. A new iterator's streak is the empty origin with `endX` 0. For an empty region `beginStreak` leaves it that way.
- An iterator holds a pointer to its region. The model states nothing about an iterator once its region has changed, as in the source, where such an iterator is invalid.
- The `int` offsets and the `long` size of `src/misc/newregion.h` are unbounded integers here. No overflow is modelled.
- Striping.PartitionShape: proved only while `gridHeight * (size - 1)` is below 2^32. Beyond that the `unsigned` product wraps and the partition can fall back to 0, as `Striping.PartitionWraps` shows.
- `getStep()` is defined outside this model. `HandleOutput` takes it to be the step counter `stepNum`.
- All MPI traffic of `StripingSimulator` is left out: gather, broadcast, send and receive of regions, and waiting.
- The `Chronometer` time ratios are floating point and are left out.
- The cell update functor, the resizing and swapping of the grids, and the writer and steerer callbacks themselves are left out. Only the step-number gating that decides whether they are called is modelled.
- The unsigned ghost heights and the unsigned `boundingBox` arguments of `StripingSimulator` are integers here. Their wrap-around followed by the cast back to `int` gives the same row numbers for every stripe the simulator can create.
- The Boost serialization and `toString` of `SuperVector` are left out.
- SuperVectors.Sum: the sum is an unbounded integer. The source accumulates in the element type `T`, which can overflow.
- SuperVectors.Sum, SuperVectors.Sort, SuperVectors.Max: these take a vector of `int` only. For a general `T` the model does not capture `operator<` on `T`, and it does not capture the order `std::sort` leaves among elements that compare equal without being identical.
- SuperVectors.SuperVector.Append requires the other vector to be a different object. Appending a vector to itself through iterators into it is undefined behaviour in C++.
- The exception thrown by `checkNanoStepPut` is the result value `ExpectedNanoStepLeftOut`.

## Findings

| source | as written | input that shows it | evidently intended | confidence | as-written member | corrected member |
|---|---|---|---|---|---|---|
| src/misc/newregion.h:375-398 | when no run of the child range starts at or before the new streak, the cursor stays at the first run; if that run does not touch the streak, the loop steps past it and the streak is inserted after it | region holding the run [5,10), then insert [0,2): level 0 becomes [(5,10),(0,2)], unsorted | stop in front of the first run that lies wholly after the streak and insert there, giving [(0,2),(5,10)] | not executed | NewRegions.FuseAsWrittenMisorders | NewRegions.FuseRun |

Where the source and its description differ, the model follows the source, with one exception: the class's level-0 insert uses the corrected fuse loop of the Findings row, and the loop as written is modelled beside it. `redistributeGrid` loops over every rank including its own, so a node also "sends" and "receives" the rows it keeps. `Striping.RedistributionPlan` contains these self-transfers.
