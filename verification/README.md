# PIMLex in Dafny

PIMLex is a learned index that is split between a host and DPUs with their own memory. The host cuts
the sorted keys into partitions, fits an error-bounded piecewise linear model to every eighth key of
each, and ships replicas to the DPUs. A DPU predicts the position of a key with the model, searches the
range around it and answers with a position. Inserted keys go to small pages beside the key array, from
full pages to one overflow tree per partition, and are merged into a new key array from time to time.

This project models that logic and proves what it promises. Verify it with `dafny verify dfyconfig.toml`.

## The files

`Order.dfy` defines strict and plain ascending order for all others.

The learned model, bottom up:

- `Geometry.dfy`, `Hull.dfy`, `LinearModel.dfy`: fitting one segment. Bands are the vertical intervals
  rank - epsilon .. rank + epsilon; a point list is fittable if one line crosses all its bands. The class
  keeps two extreme lines and two hulls with moving starts, and accepts a point iff the longer list is
  fittable.
- `Segmentation.dfy`, `SegmentationPar.dfy`: greedy groups, their optimality, and the chunked version.
- `Prediction.dfy`, `Levels.dfy`, `PgmIndex.dfy`: rounding and truncation errors, one level of models with
  its extra entry and sentinel, the recursive build and the recursive search.
- `DpuKernel.dfy`, `Tasklets.dfy`: the lookup on a DPU and how its tasks are divided.
- `LookupTable.dfy`: the optional table of predictions, which the default build leaves out.

Inserts:

- `HostInsert.dfy`, `BufPage.dfy`: from an answer to a page, and the page itself.
- `Merge.dfy`, `MergeParallel.dfy`, `MergeUnion.dfy`: one thread of the merge, all of them, the result.
- `OverflowTree.dfy`, `OverflowRange.dfy`: the overflow tree as a value. A full leaf turns into an inner
  node with one child per key.
- `OverflowNode.dfy`, `OverflowBTree.dfy`: the same tree as objects that change in place.
- `OverflowConcurrent.dfy`, `OverflowInvariant.dfy`, `OverflowSteps.dfy`, `OverflowRuns.dfy`,
  `OverflowRace.dfy`: the tree as a step relation with any number of inserting and reading threads.
- `Frontier.dfy`, `FrontierRuns.dfy`, `FrontierAnswers.dfy`: the flattened frontier that DPUs search while the
  tree moves on, and what the host makes of the answer.
- `VersionedLock.dfy`: the lock word that both use.

Replicas:

- `Allocator.dfy`, `Placement.dfy`: how many DPUs a partition gets, and which.

## What turned out false, and the exact conditions

- Two inserts at the same time can lose a key. The splitter of a full leaf makes the children visible
  (support/opt_overflow_tree.h:181) before it writes its own key into one of them (line 186), and it
  does so without the child's lock. `OverflowRace.SafeIffOneInserter`: over all interleavings the tree keeps
  its promises iff at most one insert runs at a time. `OverflowRuns.GuardedRunsAreSafe` is the finer
  statement: it keeps them, with any number of inserts, in every run in which nobody locks a child that
  its splitter has not finished.
- The answer INVAILD_POS is not only given for keys past the end: position 125000000 encodes to the same
  value, and so does every position 2^29 further on (`DpuKernel.InvalidIsAmbiguous`). An insert at such a
  position is not lost: it is below the partition's last key, and for those the host's own search finds the
  same page (`HostInsert.FallbackPage`, `HostInsert.DpuPage`).
- The host drops inserts although their key is between the first and the last sampled key. All partitions have
  the same truncated size (host/pimlex_host.cpp:797, 1589), so the sampled keys of the remainder are in none,
  and the search of the last partition ends on a page that the guard rejects. `HostInsert.InsertPage` states
  which keys are accepted; `HostInsert.NothingDropped`: nothing is dropped iff the number of sampled keys leaves
  a remainder of at most one when divided by the number of partitions.
- The frontier search compares a position in the frontier with the number of sampled keys in the partition
  (dpu/task.c:364), so it reports failure for a floor beyond that number, and the host then skips the key.
  `FrontierAnswers.StaleAnswer`: the answer is usable iff the floor's position is below that number.
- The merge treats a buffered key that equals an old key as an update, but still counts both, so a thread has a
  slot too many for each such key. If its largest old key is above its largest buffered one, it fills them with
  the first old keys of the next range, because the fetch of old keys stops at the end of the array and not of
  the range (host/pimlex_host.cpp:2050); otherwise, or when there are no more old keys, they stay unwritten
  (`Merge.OutputIsUnion`, `Merge.ForeignKey`). The whole result is the strictly ascending union iff no key occurs
  twice among the old and the buffered ones (`MergeUnion.MergeAll`).
- The lock is released by adding one to a 31-bit counter below the lock bit. The 2^31st release carries into
  that bit and leaves the word locked for good, and not earlier (`VersionedLock.StuckForever`); a run that gets
  there exists (`VersionedLock.StuckHappens`).
- The class comment at host/pgm_index.hpp:46-47 promises a search range of 2 * Epsilon + 1 positions. The code
  gives one more iff the predicted position is at least epsilon and at most n - epsilon - 2, that is, iff neither
  end is cut off (`PgmIndex.PGMIndex.Search`). So the comment holds for every index over at most 2 * epsilon + 1
  keys; over any larger number of keys there is an index for which it fails (`PgmIndex.WideRange`); and from
  4 * epsilon + 4 keys on it fails for every index, at the key of rank 2 * epsilon + 1 (`PgmIndex.RangeWidth`).
- The optional table of predictions can miss the rank of an indexed key: the base of the cell after the key's
  wraps around at 2^64. `LookupTable.TableBrackets`: the table's range holds the rank iff that does not happen
  or the rank is below the model's intercept + epsilon + 2. `LookupTable.WrapLosesKey` is a model that
  misses one.

## Conventions

- Integers are unbounded. Where a width matters it is written out: saturating ranks, the 32-bit intercept
  check, the 32-bit shift of an answer, the lock word, the 64-bit bases of the table.
- Slopes are exact fractions dy / dx; loads of replicas are reals, and nothing is below a division by zero.
- Indexed keys are strictly increasing and below the two largest values of the key type, which the code uses
  for the sentinel and for last key + 1.
- Every tree starts with a seed key (host/pimlex_host.cpp:785), and all later keys are larger or equal.
- Memory is sequentially consistent. A step of the concurrent tree is one shared access, or several
  that no other thread can tell apart from one.
- The two sorts of the allocator are library calls; here they are insertions with the allocator's own rotation.
- The page-skip loops of the merge (host/pimlex_host.cpp:1977, 2032, 2074) have no bound of their own. The last
  two pages never receive a key, because the guard of the page insert stops before them, so the last
  thread's loop would leave the page array; the model stops it at the thread's last page, where all other
  threads stop too. For the same reason a thread without any work reads no old key here.

## Model

| member | source | states |
|---|---|---|
| `Geometry.CrossSide` | host/piecewise_linear_model.hpp:80-84 | the sign of the cross product tells on which side of the line through two points a third one lies, for all points |
| `LinearModel.SlopeIsCross` | host/piecewise_linear_model.hpp:56-57 | the slope comparisons of the hull walk are exact side tests |
| `Hull.ExtremeLines` | host/piecewise_linear_model.hpp:130-138 | the two rectangle diagonals are the feasible lines of least and greatest slope: any line that crosses all bands stays between them before and after |
| `LinearModel.SlopeTests` | host/piecewise_linear_model.hpp:130-140 | each of the four slope comparisons of a new band, in terms of the two extreme lines |
| `LinearModel.Outside` | host/piecewise_linear_model.hpp:132-138 | a band that fails one of the two tests is missed by every feasible line, not only by the two stored ones |
| `Hull.TailUnder` | host/piecewise_linear_model.hpp:144-150 | the tangent walk may stop at its first worsening: on a strictly turning chain every later point is worse still |
| `Hull.TangentCrosses` | host/piecewise_linear_model.hpp:142-154 | the line from the point where the walk stops to the new band end crosses all earlier bands |
| `Hull.PopIsSafe` | host/piecewise_linear_model.hpp:158-160 | a hull point removed by the cross-product test can never again limit a feasible line |
| `Hull.PushShadow` | host/piecewise_linear_model.hpp:157-161 | after the pops, the remaining chain still stands in for all band ends that were ever seen |
| `LinearModel.Tangent` | host/piecewise_linear_model.hpp:142-150 | the walk returns the chain point that all later chain points lie under, for both hulls |
| `LinearModel.PushHull` | host/piecewise_linear_model.hpp:157-161 | the rebuilt hull is again strictly turning, ends in the new point and shadows all band ends |
| `LinearModel.OptimalPiecewiseLinearModel.AddPoint` | host/piecewise_linear_model.hpp:98-190 | an error iff the key does not increase; otherwise accepted iff some line crosses the vertical bands of all points so far and the new one, with saturation at both ends of the rank type; a rejected point leaves the finished segment intact |
| `LinearModel.OptimalPiecewiseLinearModel.AddToHull` | host/piecewise_linear_model.hpp:130-189 | true iff the bands with the new one are feasible; on true all hull invariants hold for them, on false the rectangle, both chains and both starts are unchanged |
| `LinearModel.OptimalPiecewiseLinearModel.LowerSteepest` | host/piecewise_linear_model.hpp:140-162 | when the upper end cuts off the steepest line, the new one crosses every band and the lower start moves without losing a constraint |
| `LinearModel.OptimalPiecewiseLinearModel.RaiseFlattest` | host/piecewise_linear_model.hpp:164-186 | the mirror case, and with it the whole rectangle and both chains are those of the longer point list |
| `LinearModel.OptimalPiecewiseLinearModel.GetSegment` | host/piecewise_linear_model.hpp:192-196 | the canonical segment of exactly the accepted points: two band ends for one point, the extreme lines for more |
| `Segmentation.MakeSegmentation` | host/piecewise_linear_model.hpp:278-304 | fails iff the keys are not sorted; otherwise its groups cover every distinct point once and in order, each fits a line, none can take the next point, and the returned count is theirs |
| `Segmentation.GreedyIsMinimal` | host/piecewise_linear_model.hpp:290-303 | no partition into consecutive groups that each fit a line has fewer groups than the greedy one |
| `Segmentation.GreedyStaysAhead` | host/piecewise_linear_model.hpp:290-303 | after k groups the greedy cut is never behind the cut of any other fitting partition |
| `Segmentation.FullGroups` | host/piecewise_linear_model.hpp:290-303 | every group but the last covers at least 2 * epsilon + 1 distinct points of consecutive ranks |
| `Segmentation.FittableSubrange` | host/piecewise_linear_model.hpp:290-303 | a line for a group serves every part of the group, the exchange step of the optimality proof |
| `SegmentationPar.SplitCuts` | host/piecewise_linear_model.hpp:313-336 | cutting a partition at a chunk border costs at most one more group |
| `SegmentationPar.SegmentChunk` | host/piecewise_linear_model.hpp:321-336 | a chunk that first skips the run of equal keys it starts in covers exactly the distinct points that begin in it, with the fewest groups |
| `SegmentationPar.ChunkBounds` | host/piecewise_linear_model.hpp:310-324 | chunks follow each other from the first point to the last; all have n / parallelism points, the last one up to parallelism - 1 more |
| `SegmentationPar.MakeSegmentationPar` | host/piecewise_linear_model.hpp:307-343 | covers every distinct point once and in order, with at most parallelism - 1 groups more than any fitting partition, and none more below 2^15 points |
| `Prediction.RoundingError` | host/piecewise_linear_model.hpp:253-256 | the rounded quotient is within half a divisor, with C's truncating division on both signs |
| `Prediction.InterceptError` | host/piecewise_linear_model.hpp:247-258 | the stored intercept is within one half of the steepest line's value at the first key |
| `Prediction.StoredLine` | host/piecewise_linear_model.hpp:247-258 | of all lines that cross the bands of a group, the model stores the steepest: its slope exactly, and its value at the first key within one half; a one-point model predicts its own rank for every key, unless the band is cut off, and then the middle of the band |
| `Prediction.TruncationError` | host/pgm_index.hpp:292-295 | truncating the product of slope and key distance loses less than one |
| `Prediction.RawIsFloor` | host/pgm_index.hpp:292-295 | a prediction before the cut-off is the value of the stored line, slope times key distance plus intercept, rounded down |
| `Prediction.PredictionError` | host/pgm_index.hpp:272-279 | on each point it was fitted to, a model predicts at most epsilon above and epsilon + 1 below the rank; the overflow error arises only if the rank plus epsilon exceeds 32 bits; the slope is zero iff the segment has one point |
| `Prediction.RawIsMonotone` | host/pgm_index.hpp:292-295 | predictions never decrease as the key grows |
| `Levels.SegmentIsModel` | host/pgm_index.hpp:117-118 | a segment emitted for a stretch of keys becomes a model of exactly that stretch, and stores the steepest line close to it |
| `Levels.LevelIsShaped` | host/pgm_index.hpp:98-107 | a level with its optional slope-0 entry and its sentinel is sorted, where only the last two keys may be equal |
| `Levels.WindowHolds` | host/pgm_index.hpp:209-209 | the prediction cut off at the next intercept is in [f - epsilon - 1, f + 1 + epsilon] for the floor f of every key, indexed or not, and in [f - epsilon - 1, f + epsilon] for an indexed one |
| `Levels.PastTheEnd` | host/pgm_index.hpp:100-104 | when the last model of a level has a single key, every key past the end is sent to the size of the level below, which the extra entry is for |
| `Levels.LevelCountHolds` | host/pgm_index.hpp:98-107 | how many entries a level can have over a level of given width, slope-0 entry included |
| `PgmIndex.PGMIndex.Rebuild` | host/pgm_index.hpp:82-128 | terminates with an index over exactly the given keys whose top level has one model, or reports the intercept overflow, which needs more than 2^31 ranks and epsilon; keys that one line fits get one model, if the segmentation runs in one chunk |
| `PgmIndex.PGMIndex.AddLevel` | host/pgm_index.hpp:121-127 | with a recursive epsilon of at least 1 an upper level has at least one entry and strictly fewer than the level below, in spite of the extra entry, and all levels stay in place |
| `PgmIndex.InterceptsAreNatural` | host/pgm_index.hpp:209-209 | no intercept in an index is negative, so the comparison as unsigned 64-bit numbers picks the smaller of prediction and next intercept |
| `PgmIndex.LevelWidth` | host/pgm_index.hpp:121-127 | a level of at most 2^15 entries shrinks by a factor of 2 * epsilon + 1, up to two entries |
| `PgmIndex.HeightIsBounded` | support/common.h:7-16 | with recursive epsilon 64, a model of at most MAX_MODEL_SIZE segments has at most three levels, so its offsets fit MAX_LEVEL |
| `PgmIndex.BinaryStep` | host/pgm_index.hpp:151-154 | the predicted range of one level holds the responsible entry, so the bounded upper_bound finds it |
| `PgmIndex.ScanStep` | host/pgm_index.hpp:147-150 | starting at pos - (epsilon + 1) is never past the responsible entry, and the scan ends on it after at most 2 * epsilon + 3 entries |
| `PgmIndex.PGMIndex.StepDown` | host/pgm_index.hpp:141-156 | from the responsible segment of one level to the responsible one a level down, by either search variant |
| `PgmIndex.PGMIndex.SegmentForKey` | host/pgm_index.hpp:135-158 | the recursive descent equals the flat search: the last level-0 segment whose key is at most the sought one |
| `PgmIndex.PGMIndex.Search` | host/pgm_index.hpp:206-213 | for every key of the key type, indexed or not, lo <= rank <= hi for the lower-bound and the upper-bound rank, in a range of at most 2 * epsilon + 2; it is wider than 2 * epsilon + 1 iff neither end is cut off, never for n <= 2 * epsilon + 1, and always for a key whose floor is at least 2 * epsilon + 1 and at most n - 2 * epsilon - 3 |
| `PgmIndex.RangeWidth` | host/pgm_index.hpp:30-31 | when the two macros leave more than 2 * epsilon + 1 positions, in terms of the predicted position and in terms of the floor; with n >= 4 * epsilon + 4 the key at rank 2 * epsilon + 1 is one such key in every index |
| `PgmIndex.WideRange` | host/pgm_index.hpp:46-47 | for every epsilon and every n >= 2 * epsilon + 2 there is an index over n keys in which the search of some key returns more than 2 * epsilon + 1 positions |
| `PgmIndex.SomeKeyAtEpsilon` | host/pgm_index.hpp:206-213 | with one model over the keys 0, 2, 4, ... the prediction never skips a position, so some key is predicted at epsilon exactly |
| `PgmIndex.RanksInside` | host/pgm_index.hpp:30-31 | the two macros turn a windowed position into a range that holds both ranks, clamped at both ends |
| `DpuKernel.SumAgrees` | dpu/task.c:200-204 | the DPU truncates slope * distance + intercept, the host only the product; cut off at zero both give the same position |
| `DpuKernel.StartModel` | dpu/task.c:132-146 | the binary search of the start level ends on its responsible model |
| `DpuKernel.ScanDown` | dpu/task.c:198-223 | one level of the linear scan reaches the responsible model in at most 2 * epsilon + 3 steps and never runs over the level's end |
| `DpuKernel.Descend` | dpu/task.c:198-224 | from any start level the scan reaches the same level-0 model as the flat search |
| `DpuKernel.SearchQuery` | dpu/task.c:271-313 | the answer is the shifted global position of the key's floor, or INVAILD_POS for a key not below the last one; the branch that answers without a check is never the one that answers |
| `DpuKernel.InvalidIsAmbiguous` | dpu/task.c:300-313 | INVAILD_POS means "past the last key" iff the position is not 125000000 modulo 2^29: that one position encodes to the reserved value |
| `DpuKernel.AnswerDecodes` | dpu/task.c:305-305 | below 2^29 positions a valid answer divides back to the floor's global position |
| `DpuKernel.ChooseStartLevel` | dpu/task.c:78-86 | the chosen start level is always a level of the index, because the top level is never worth predicting; for every model within MAX_MODEL_SIZE it is level 0 |
| `DpuKernel.WorthAtThousands` | dpu/task.c:79-81 | a level is worth predicting only above 4096 * epsilon entries, and always from 8192 * epsilon on |
| `Tasklets.RangeIsEven` | dpu/task.c:98-111 | every tasklet's range starts on an even task, has even length and ends at most one past the last task |
| `Tasklets.OnlyNeighboursShare` | dpu/task.c:98-111 | no task is in the ranges of two tasklets that are not neighbours |
| `Tasklets.RangesCover` | dpu/task.c:98-111 | every task is in some tasklet's range, for every task and tasklet count |
| `Tasklets.AnyOrderIsRight` | dpu/task.c:316-322 | in every order in which the overlapping paired writes can happen, each task below the count ends with its own answer |
| `LookupTable.LongestCommonPrefix` | host/pimlex_host.cpp:737-747 | the number of leading bits on which two keys agree, and not one more |
| `LookupTable.IndexInTable` | dpu/task.c:228-239 | a key between two neighbouring model keys has a table index below sixteen |
| `LookupTable.TableBrackets` | host/pimlex_host.cpp:983-1000 | for every indexed key of a model its table entry less epsilon is at most its rank, and the next entry plus epsilon + 2 is above it iff the key's cell does not wrap around at 2^64 or the rank is near the model's start |
| `LookupTable.TableRange` | dpu/task.c:228-252 | from the common prefix of two neighbouring model keys of a built level to the searched range: it starts at or before the rank of every indexed key, and holds it under the same exact condition |
| `LookupTable.EntryIsBetween` | host/pimlex_host.cpp:986-1000 | every entry lies between the starts of the model and its neighbour, if the model does not predict more than the neighbour's start at the neighbour's key |
| `LookupTable.WrapLosesKey` | host/pimlex_host.cpp:987-999 | a model of fifteen keys whose table sends the last key to a range that ends at position 3 |
| `HostInsert.FallbackPage` | host/pimlex_host.cpp:1588-1602 | the host's own search in one partition passes the guard iff the key is at least the first sampled key and below the first one after the partition, or the last one if there is none, and then it ends on the key's floor |
| `HostInsert.PartitionOf` | host/pimlex_host.cpp:377-388 | the low bounds lead to a partition that passes every key which any partition would pass, clamped to the first one |
| `HostInsert.InsertPage` | host/pimlex_host.cpp:1582-1602 | partition, search and guard together: a key is accepted, on the page of its floor, iff it is at least the first sampled key and below the first sampled key that belongs to no partition |
| `HostInsert.NothingDropped` | host/pimlex_host.cpp:1589-1589 | no key between the first and the last sampled key is turned away iff the remainder of sampled keys by partitions is at most one |
| `HostInsert.DpuPage` | host/pimlex_host.cpp:1573-1575 | a DPU's answer leads to the same page as the host's own search |
| `HostInsert.AcceptedIsFloor` | host/pimlex_host.cpp:1574-1575 | the guard accepts the floor of the key and nothing else |
| `BufPage.GuardIsInPage` | host/pimlex_host.cpp:1574-1576 | the guard on the sampled keys lets a key into page i iff keys[8i] <= key < keys[8(i + 1)] |
| `BufPage.Page.InsertPage` | host/dram_index.h:76-113 | false iff the page is full; otherwise the key is added behind all keys that are at most it, and the page stays ascending |
| `BufPage.InsertKeepsAscending` | host/dram_index.h:92-110 | the insert adds one key, loses none and keeps the order, equal keys included |
| `BufPage.PageInsertKeepsIndex` | host/dram_index.h:76-113 | pages filled through the guard always satisfy what the merge relies on |
| `Merge.Round` | host/pimlex_host.cpp:1989-2091 | for any keys, one round emits the next key of the union of what is left, a key that is old and buffered once, or a key of the next range when only old keys are left and the own ones are out; it emits nothing iff both have ended |
| `Merge.MergeRange` | host/pimlex_host.cpp:1946-2091 | a thread writes only its own interval, and writes there its output: the union of its old keys and its pages, and the keys of the next range that follow it |
| `Merge.OutputIsUnion` | host/pimlex_host.cpp:2006-2053 | what that output is: the set of both, strictly ascending for strictly ascending pages, as much shorter than the interval as there are shared keys; behind it the first keys of the next range, one per shared key and as far as there are any, iff the largest old key is above the largest buffered one; the other slots stay unwritten |
| `Merge.SharedIsCommon` | host/pimlex_host.cpp:2006-2018 | the update branch saves exactly one key for each key that is both old and buffered |
| `Merge.UnionOfDisjoint` | host/pimlex_host.cpp:1991-2043 | without shared keys the union is the plain merge |
| `Merge.ForeignKey` | host/pimlex_host.cpp:2048-2053 | the three ways in which the slot of a shared key ends, as concrete inputs |
| `Merge.MergedAscends` | host/pimlex_host.cpp:1991-2043 | the merge of two ascending lists is ascending |
| `Merge.MergedElements` | host/pimlex_host.cpp:1991-2043 | a merge keeps every copy of every key |
| `Merge.MergedInPieces` | host/pimlex_host.cpp:1951-1968 | merging range by range and joining the results is merging everything, when the ranges do not interleave |
| `MergeParallel.Offsets` | host/pimlex_host.cpp:1917-1942 | the counts and running sums of the page keys give each thread the start of its interval |
| `MergeParallel.StartsTile` | host/pimlex_host.cpp:1951-1968 | the threads' intervals tile the new array from 0 to its size, without gap or overlap |
| `MergeParallel.HasJob` | host/pimlex_host.cpp:1951-1968 | every thread's interval is in bounds, and a thread without old keys has no page with keys |
| `MergeParallel.OneMoreThread` | host/pimlex_host.cpp:1951-1968 | what the threads up to t + 1 write is the merge of the keys and pages up to the next range border |
| `MergeUnion.MergeAll` | host/pimlex_host.cpp:1912-2091 | in whatever order the threads finish, every interval starts with its thread's output; the new array is strictly ascending with exactly the old and the buffered keys iff no key occurs twice among them |
| `MergeUnion.ThreadInterval` | host/pimlex_host.cpp:1912-2091 | what the merge leaves in each thread's interval, if keys are shared: the union, then foreign keys or unwritten slots, and how many of each |
| `MergeUnion.MergeKeepsAll` | host/pimlex_host.cpp:2006-2018 | without a key that is both old and buffered the new array is ascending and has every copy of every key |
| `MergeUnion.Sample` | host/pimlex_host.cpp:2096-2110 | each thread copies every eighth key of its share to the right slot, in bounds when the size is a multiple of eight |
| `OverflowTree.PutKeyKeepsValid` | support/opt_overflow_tree.h:82-103 | adding a key to the leaf of its descent keeps every key where the descent looks for it |
| `OverflowTree.SplitFacts` | support/opt_overflow_tree.h:168-181 | a split keeps the set of keys, the frozen keys of the parent, and each child's first key equal to the parent's |
| `OverflowTree.SplitKeepsValid` | support/opt_overflow_tree.h:168-181 | after a split every key of the tree is still found by its descent |
| `OverflowRange.PutKeyBounded` | support/opt_overflow_tree.h:178-186 | a key added below the top of its leaf's range keeps all ranges; tops are closed, which is where a second copy of an equal key goes |
| `OverflowRange.SplitBounded` | support/opt_overflow_tree.h:168-181 | after a split each child's range ends at the parent's next key |
| `OverflowNode.OptNodeBase.LowerBound` | support/opt_overflow_tree.h:48-65 | the first position whose key is at least k, for every non-empty node |
| `OverflowNode.OptNodeBase.LowerBoundInner` | support/opt_overflow_tree.h:67-80 | the number of keys that are at most k, for every non-empty node |
| `OverflowNode.OptNodeBase.InsertLeaf` | support/opt_overflow_tree.h:82-103 | false and no change for an inner node or a present key, otherwise the key in its place |
| `OverflowNode.OptNodeBase.SearchLeaf` | support/opt_overflow_tree.h:105-115 | membership among the node's keys, also for the empty node |
| `OverflowBTree.InsertFromSound` | support/opt_overflow_tree.h:145-197 | from any node on the key's path an insert keeps all invariants and adds exactly that key to the set |
| `OverflowBTree.PathsSurviveInsert` | support/opt_overflow_tree.h:199-250 | an insert leaves every node on all the paths it was on, so a node reported earlier can still be used |
| `OverflowBTree.OptBTree.InsertFromNode` | support/opt_overflow_tree.h:199-250 | in the mutable tree: the set gains exactly k, old nodes stay, new ones are new; false iff the descent meets an inner node whose first key is k, and then k was there and nothing changed |
| `OverflowBTree.ChildBelowFacts` | support/opt_overflow_tree.h:178-179 | the child that a split hands the key to is the last one whose first key is below it, so an equal key goes one child further left |
| `OverflowBTree.OptBTree.Insert` | support/opt_overflow_tree.h:145-197 | the same from the root, for keys not below the seed |
| `OverflowBTree.OptBTree.Seed` | host/pimlex_host.cpp:785-785 | the first insert turns the empty tree into one leaf with that key |
| `OverflowBTree.OptBTree.LookupFromNode` | support/opt_overflow_tree.h:301-324 | from any node on the key's path: true iff the key is in the tree |
| `OverflowBTree.OptBTree.Lookup` | support/opt_overflow_tree.h:274-299 | true iff the key is in the tree |
| `OverflowBTree.OptBTree.SplitNode` | support/opt_overflow_tree.h:168-181 | the full leaf becomes an inner node in place with 32 new children; the child returned is the last one whose key is below k |
| `OverflowBTree.OptBTree.GetAllInner` | support/opt_overflow_tree.h:326-348 | lists exactly the leaves below inner nodes, left to right, with ascending keys; false for a tree that is one leaf |
| `Frontier.LeavesSpan` | support/opt_overflow_tree.h:326-339 | the frontier's keys are ascending and within the subtree's range |
| `Frontier.FloorIsLeaf` | dpu/task.c:351-368 | the floor of a key in the frontier is the leaf where the descent from the root ends |
| `Frontier.FloorSearch` | dpu/task.c:343-369 | the DPU's search names the node of the last frontier key at most k, and reports failure for a key below all of them or a position not below the partition size |
| `FrontierRuns.StaleFrontier` | host/pimlex_host.cpp:1716-1766 | at every later time of every guarded run the node that an old frontier names for k is on k's path from the root and leads to the same leaf |
| `FrontierAnswers.PathIsAsRoot` | support/opt_overflow_tree.h:199-250 | from a node on the key's path a lookup decides membership in the whole tree, and an insert makes the same tree as from the root for a new key, and the same set of keys for any |
| `FrontierAnswers.StaleAnswer` | dpu/task.c:343-369 | search of an old frontier and use of its answer together: the answer is a node iff the floor's position is below the partition size, and then starting from it is as good as starting from the root, at every later time of every guarded run |
| `FrontierRuns.RunRanges` | support/opt_overflow_tree.h:145-197 | in every guarded run of concurrent inserts the subtree ranges hold in every state |
| `OverflowInvariant.OthersKeep` | support/opt_overflow_tree.h:145-197 | what a thread knows about the tree survives any step of another thread that keeps the rely condition |
| `OverflowSteps.FinishKeeps` | support/opt_overflow_tree.h:189-191 | publishing a rewritten leaf keeps the invariant and adds exactly the inserted key |
| `OverflowSteps.PublishKeeps` | support/opt_overflow_tree.h:168-181 | turning a full leaf into an inner node in one visible step keeps the invariant for all threads |
| `OverflowSteps.ChildWriteKeeps` | support/opt_overflow_tree.h:184-187 | the splitter's write into its child, made without that child's lock, keeps the invariant while nobody else locks it |
| `OverflowSteps.ProbeKeeps` | support/opt_overflow_tree.h:288-296 | a reader's binary search on words that may change under it stays meaningful as long as the version is unchanged |
| `OverflowSteps.ReadDownKeeps` | support/opt_overflow_tree.h:280-286 | a reader that saw a leaf may search it after it became inner: the keys are frozen and still decide |
| `OverflowSteps.CheckVersionKeeps` | support/opt_overflow_tree.h:294-296 | an unchanged version certifies the answer, any change sends the reader back |
| `OverflowRuns.GuardedRunsAreSafe` | support/opt_overflow_tree.h:145-197 | for any number of threads and any interleaving in which nobody locks a child that its splitter has not finished: a finished insert's key is in the tree, a lookup finds every key that was there when it started, and answers yes only for keys of the tree |
| `OverflowRuns.KeysHaveWriters` | support/opt_overflow_tree.h:145-197 | in such runs no key is ever lost, and a key that appears was written by an insert of that key |
| `OverflowRuns.OneInserterIsSafe` | support/opt_overflow_tree.h:145-197 | with at most one insert at a time that guard holds by itself |
| `OverflowRace.RaceLosesKey` | support/opt_overflow_tree.h:181-188 | two inserts on a full leaf can lose a finished insert: a concrete interleaving |
| `OverflowRace.SafeIffOneInserter` | support/opt_overflow_tree.h:145-197 | over all interleavings the promises of insert and lookup hold in every reachable state iff at most one insert runs at a time |
| `VersionedLock.ReleasedUnlocks` | support/concurrent.h:51-54 | the store of release clears the lock bit and adds one to the version iff the version is below 2^31 - 1; at 2^31 - 1 it leaves the word locked |
| `VersionedLock.StepKeeps` | support/concurrent.h:26-66 | every load, compare-and-swap, store and optimistic read keeps the lock invariant |
| `VersionedLock.MutualExclusion` | support/concurrent.h:26-54 | at most one thread is between acquire and release, for any number of threads and runs of any length |
| `VersionedLock.VersionCountsReleases` | support/concurrent.h:51-54 | the version is the number of releases so far, up to 2^31 - 1 of them |
| `VersionedLock.AcceptedSawNoWriter` | support/concurrent.h:56-66 | a reader that sees the same unlocked word before and after overlapped no writer at any time in between |
| `VersionedLock.StuckForever` | support/concurrent.h:51-54 | the lock is dead from the 2^31st release on, and only then: locked, held by nobody, never to be acquired again |
| `VersionedLock.ReleasedTimes` | support/concurrent.h:26-54 | for every n up to 2^31 there is a run with n releases |
| `VersionedLock.StuckHappens` | support/concurrent.h:51-54 | a run that ends with the dead lock exists |
| `Allocator.PartitionAccess.FirstAllocation` | host/pimlex_host.cpp:185-192 | one row per partition with its share of the accesses; its count n is the whole part of access * toDpu / average, or one if that is below one; the returned sum is theirs, and no replica has more than twice the load of an average DPU |
| `Allocator.SharesAreProportional` | host/pimlex_host.cpp:186-186 | a share times the average is the accesses, so shares are to each other as the accesses are |
| `Allocator.SomeAverage` | host/pimlex_host.cpp:181-187 | some partition has at least the rounded-down average of the accesses |
| `Allocator.AverageGetsTwo` | host/pimlex_host.cpp:186-187 | a partition at the average gets at least two DPUs when there are at least two per partition, which is why the grow scan stops |
| `Allocator.PartitionAccess.LastMultiple` | host/pimlex_host.cpp:200-206 | the shrink scan stops in bounds on a partition with more than one replica |
| `Allocator.PartitionAccess.TakeOne` | host/pimlex_host.cpp:200-220 | one replica less in all, taken from a least loaded partition among those with more than one, which moves in front of the first smaller load, so that the rows stay in order |
| `Allocator.TakenBound` | host/pimlex_host.cpp:204-208 | a replica taken from there keeps every bound on the loads that is at least twice the average over the replicas that can be spared |
| `Allocator.PartitionAccess.Shrink` | host/pimlex_host.cpp:195-222 | takes exactly the overflow away, one such step after the other, leaves every partition one replica and all shares in place, ends with the rows in order of load, and keeps that bound |
| `Allocator.PartitionAccess.GiveOne` | host/pimlex_host.cpp:233-255 | the grow scan stops in bounds; the first row with more than one replica gets one more and moves onto the first smaller load, and such a row is left for the next scan |
| `Allocator.PartitionAccess.Grow` | host/pimlex_host.cpp:229-256 | adds exactly the missing replicas, one such step after the other, keeps all shares and raises no load |
| `Allocator.PartitionAccess.MoveDown` | host/pimlex_host.cpp:216-220 | the rotation to the left, row by row: the moved row in its new place, the rows between shifted by one |
| `Allocator.PartitionAccess.MoveUp` | host/pimlex_host.cpp:251-255 | the rotation to the right |
| `Allocator.PartitionAccess.RebalanceRound` | host/pimlex_host.cpp:269-319 | a round is entered iff its giver would stay below the first row, and then moves one replica from the giver to the row that is first afterwards; the largest load of a replica never rises, and a round that is not entered changes nothing |
| `Allocator.PartitionAccess.Rebalance` | host/pimlex_host.cpp:265-319 | rounds until one is not entered, but at most four; same total, and no bound on the loads that held before is broken |
| `Allocator.SortedIdsAreIndices` | host/pimlex_host.cpp:321-321 | rows with different ids below their number, sorted by id, are row by row the partitions |
| `Allocator.PartitionAccess.CalculatePartitionSkew` | host/pimlex_host.cpp:180-323 | first counts, order by load, taking or giving one by one, balancing, order by id; then all DPUs are handed out, every partition has at least one, share times average is its accesses, and its accesses per replica are at most twice the larger of average / toDpu and total / (DPUs - partitions + 1) |
| `Placement.OwnerIsUnique` | host/pimlex_host.cpp:338-347 | no DPU belongs to two partitions |
| `Placement.OwnerExists` | host/pimlex_host.cpp:338-347 | every DPU below the number of replicas belongs to some partition |
| `Placement.DramLevel.GetStartDpuId` | host/pimlex_host.cpp:338-354 | start positions and map agree with the replica counts for every DPU in use |
| `Placement.DramLevel.SearchUpperLevel` | host/pimlex_host.cpp:356-375 | the DPU returned belongs to the partition whose range holds the key, and its place among that partition's DPUs is the spreading number, modulo their number; a sampled search counts one access at that partition |
| `Placement.EveryReplicaOnce` | host/pimlex_host.cpp:372-372 | over as many consecutive spreading numbers as a partition has DPUs, each of them is returned exactly once |
| `Placement.ReplicasInfo.NextPartition` | host/pimlex_host.cpp:424-437 | the d-th call returns the partition that owns DPU d |
| `Placement.LoadAll` | host/pimlex_host.cpp:936-950 | walking all DPUs loads each with the partition that owns it |
| `Placement.LoadedIsOwned` | host/pimlex_host.cpp:424-437 | DPU d is loaded with p iff d is one of p's replicas |
| `Placement.SampleQueries` | host/pimlex_host.cpp:2191-2196 | after the sampling pass the count of each partition is the number of queries in its range, and the counts add up to the number of queries |
| `Placement.Replicate` | host/pimlex_host.cpp:2186-2260 | from sampled queries to loaded DPUs: every partition has a DPU, each DPU holds what the router's map says, holding p is the same as being one of p's replicas, and the queries of a partition per replica are at most twice the larger of the two averages |

## Left out

- Floating point: slopes are `float` on both sides; rounding of the slope, the conversion of a large product to an integer and 128-bit overflow of slope products are not modelled.
- Duplicate indexed keys and a last key equal to the sentinel (host/pgm_index.hpp:94-96, 114): keys are strictly increasing here, so the adjustment for runs of equal keys never applies.
- `search_left`, the variant with a recursive epsilon of 0, and `get_intersection`: not used by the index.
- DPU memory transfers, barriers, launches, file input, timing and workload generation: they come from libraries or only move data.
- Payloads: pages and tree nodes hold keys only; the tree stores pointers to locals as payloads (support/opt_overflow_tree.h:86-99).
- `getAllData`, `getAllDataWithinRange` and re-inserting overflow keys after a merge: leaf children are never visited (support/opt_overflow_tree.h:358-363), so the code does not decide what happens to those keys.
- `update` of the overflow tree: it has no second type test under the lock.
- `find_key_page` and `update_key_page`: they do not compare the key they find, so no statement about reading through pages is made.
- Keeping inserters out of a running merge (host/pimlex_host.cpp:2836-2869): the counter is raised without a second look at the lock; pages are frozen during a merge here.
- Keys below the seed: a lookup would follow the uninitialised `smallnode`, an insert would be dropped; both are excluded by a precondition.
- The frontier is taken in one step; a traversal that overlaps with inserts is not modelled.
- The version of a tree node does not wrap around in the concurrent tree; the lock word itself is modelled with its width.
- Order of the rows after the grow phase: the rotation places a row one slot past its ordered place (host/pimlex_host.cpp:244-255), so no order by load is stated there, only each step, its counts and shares.
- `quick_skew_partition`, `gather_partition_access_from_buffer` and the tuning of epsilon: disabled or heuristic.
- OverflowBTree.OptBTree.Insert: the lock calls are absent, because one thread is modelled there; the concurrent tree has them.
- Allocator.PartitionAccess.CalculatePartitionSkew: asks for at least two DPUs per partition and at least one access per partition on average; with fewer, the grow scan can find only single replicas and has no end.
- Merge.MergeRange: reads the old keys and the pages as values, since nothing writes to them during a merge.
- Placement.Replicate: the initial uniform placement is the same walk with equal counts and has no statement of its own.
- DpuKernel.SearchQuery: for query keys below 2^64 - 1; the linear scan would take the sentinel of a level for an entry at that largest value. The same holds for `PgmIndex.PGMIndex.Search` with a recursive epsilon small enough for the linear scan.
- LookupTable.TableRange: whether a model's table is used at all also depends on a cost estimate, which is left out; the table's pre-computed entries are read as a function.
