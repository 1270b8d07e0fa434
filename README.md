# Fast BVH, intersection records and statistics text, modelled in Dafny

This project models three parts of the renderer's core:

- **The wide bounding volume hierarchy (`Fbvh`).** It is the acceleration structure that QBVH and OBVH are built on, with `FBVH_CHILD_CNT` children per node.
  - The build wraps every scene primitive and computes the scene box. It then splits the root node recursively. Each split runs a queue of ranges: a split picker proposes a plane and `std::partition` reorders the primitive array around it. The queue's ranges become children, until there are `FBVH_CHILD_CNT` of them or none can be split. Small nodes, and nodes at the maximal depth, become leaves.
  - The three scalar ray queries walk the tree with an explicit stack:
    - the closest hit;
    - occlusion (any hit);
    - the multi-hit query used for subsurface scattering. It collects into a `BSSRDFIntersections` container up to `TOTAL_SSS_INTERSECTION_CNT` hits on primitives of one material.
- **The `Intersection` record.** It holds its default values and `Reset`.
- **The statistics text.**
  - `StatsInt::ToString` groups digits with commas.
  - `StatsElaspedTime::ToString` writes units (ms, s, m, h, d).
  - `StatsRatio::ToString` is also modelled.
  - The per-thread `StatsItemContainer` registers items and flushes them once.

How the source becomes Dafny:

- **The structure is a class.** `FastBvh.Fbvh` has the node tree as an arena `nodes: seq<Node>`, whose children are indices. The primitive wrappers are an `array<BvhPrimitive>` that the build permutes in place.
- **The loops stay loops.** The build's loops, the queue loop, the child loop, the traversal loops and the child-selection loops are `while`/`for` loops with invariants.
- **Each traversal has a completeness and a soundness statement.** Their loop invariants say that every primitive still of interest lies under a node on the stack.
  - The closest hit: the record ends holding the nearest hit.
  - Occlusion: the result is true exactly when some primitive is hit.
  - Multi-hit: the container ends holding only matching hits, and every matching hit is stored or no nearer than all stored ones, of which there are then K.
- **Geometry is a parameter.** The ray-box slab test and the shape intersection code are not part of this model. A `Geometry.Ray` carries the two functions they compute. `Geometry.Conservative` states the one property the pruning relies on: a box around a hit primitive is entered no later than the hit.
- **The split picker is a parameter.** `pickBestSplit` (the SAH cost search) returns any axis, position and cost.
- **The cited line numbers** refer to the scalar (`#else`) branches.

## Model

| member | source | states |
|---|---|---|
| `Geometry.UnionIsLeastUpperBound` | src/accel/fast_bvh.hpp:89-90 | the box union that calcBoundingBox accumulates encloses both operands, and a box encloses both exactly when it encloses their union |
| `FastBvh.UnionOfBounds` | src/accel/fast_bvh.hpp:85-92 | the union of a range of wrapper boxes encloses every box of the range |
| `FastBvh.UnionOfLeast` | src/accel/fast_bvh.hpp:85-92 | any box that encloses every box of a range encloses their union, so the computed node box is the tightest one |
| `FastBvh.CalcBoundingBox` | src/accel/fast_bvh.hpp:85-92 | a missing node gives the default (empty) box; otherwise the result is the union of the boxes of exactly the node's primitive range |
| `FastBvh.Fbvh.Build` | src/accel/fast_bvh.hpp:94-116 | after the build the structure is valid: the root covers all primitives; the tree is well formed with every leaf at most `depth` deep; the scene box encloses all primitives and is their union; `bvhpri` is a reordering of the wrapped scene; `depth` grows from its old value to at most the larger of it and `m_maxNodeDepth` |
| `FastBvh.Fbvh.SplitNode` | src/accel/fast_bvh.hpp:118-191 | node k ends as the root of a well-formed subtree over its own range, made of k and newly appended nodes only; earlier nodes are unchanged; the range's primitives are only reordered and primitives outside it are untouched; depth only grows, and never past the maximal node depth |
| `FastBvh.Fbvh.TrySplit` | src/accel/fast_bvh.hpp:129-191 | the non-leaf path of splitNode (queue loop, then leaf or inner node) keeps the same guarantees as splitNode |
| `FastBvh.Fbvh.SplitRanges` | src/accel/fast_bvh.hpp:129-157 | the queue loop ends with between 1 and `FBVH_CHILD_CNT` ranges that tile the node's range exactly; the range's primitives are only reordered and the rest of the array is untouched |
| `FastBvh.Fbvh.SplitFront` | src/accel/fast_bvh.hpp:133-156 | one round either moves the front range to done_splitting (no gain, or a partition with an empty side) or replaces it by its two halves at the partition point, so the queues still tile the node's range |
| `Partition.PartitionRange` | src/accel/fast_bvh.hpp:146-148 | std::partition with the centroid test: primitives passing the test come first, the rest follow from mid on, the range keeps the same multiset of elements, and nothing outside the range changes |
| `FastBvh.QueueMoveFront` | src/accel/fast_bvh.hpp:143-144 | moving the front range to done_splitting keeps the tiling |
| `FastBvh.QueueSplitFront` | src/accel/fast_bvh.hpp:150-155 | replacing the front range by its halves at a proper split point keeps the tiling |
| `Ranges.TilingSplit` | src/accel/fast_bvh.hpp:153-154 | splitting one range of a tiling at an inner point gives a tiling of the same interval |
| `Ranges.TilingSingle` | src/accel/fast_bvh.hpp:130 | the one range pushed first tiles the node's range |
| `FastBvh.TilingParts` | src/accel/fast_bvh.hpp:159-173 | when the loop ends with two or more ranges, the ranges in queue order tile the node's range and each is strictly smaller than the node, so recursion on them terminates |
| `FastBvh.Fbvh.FinishSplit` | src/accel/fast_bvh.hpp:159-191 | a single remaining range makes node k a leaf; otherwise node k becomes an inner node; in both cases splitNode's guarantees hold |
| `FastBvh.Fbvh.PopulateAndBuild` | src/accel/fast_bvh.hpp:163-191 | populating the children from to_split and then done_splitting, and building each, yields a well-formed subtree at node k |
| `FastBvh.Fbvh.PopulateChildren` | src/accel/fast_bvh.hpp:163-169 | populate_child appends one fresh node per queued range, in queue order, and fills node k's next child slots with their indices; nothing else changes |
| `FastBvh.Populated` | src/accel/fast_bvh.hpp:171-172 | after both populate_child calls, child slot j of node k holds a fresh node over the j-th range of to_split followed by done_splitting |
| `BvhTree.NewNode` | src/accel/fast_bvh.hpp:167 | a new node covers exactly the given range and has no children |
| `FastBvh.Fbvh.BuildChildren` | src/accel/fast_bvh.hpp:175-184 | the child loop leaves node k the root of a well-formed subtree: every child is built, every slot box encloses its child's primitives, and only the node's range is reordered |
| `FastBvh.Fbvh.SplitChild` | src/accel/fast_bvh.hpp:181-182 | one child round stores the child's box and builds the child, extending the built prefix of children by one without touching the others |
| `FastBvh.ChildStep` | src/accel/fast_bvh.hpp:176-184 | after child j is built over its range, children 0..j are built, with slot boxes that enclose them, however the build reordered child j's range |
| `FastBvh.ChildrenDone` | src/accel/fast_bvh.hpp:176-184 | once every child is built, node k is a well-formed inner node whose children tile its range |
| `BvhTree.TreeOKFrame` | src/accel/fast_bvh.hpp:176-184 | a built subtree stays well formed when nodes outside it change, primitives outside its range move, or the depth bound grows |
| `FastBvh.Fbvh.MakeLeaf` | src/accel/fast_bvh.hpp:193-198 | node k gets the range [start, end) and no children, all other nodes are unchanged, and `m_depth` becomes the larger of itself and the leaf's depth |
| `FastBvh.LeafOK` | src/accel/fast_bvh.hpp:124-127 | a node without children over part of the primitive array is a well-formed subtree of its own |
| `BvhTree.LeafCovers` | src/accel/fast_bvh.hpp:118-191 | in a well-formed tree every primitive index of a node's range lies in the range of some leaf below it |
| `BvhTree.LeafUnique` | src/accel/fast_bvh.hpp:118-191 | no primitive index lies in the ranges of two different leaves, so every primitive is tested under exactly one leaf |
| `Intersections.Intersection.constructor` | src/math/intersection.h:44-49 | a new record has u = v = 0, t = FLT_MAX and no primitive |
| `Intersections.Intersection.Reset` | src/math/intersection.h:51-59 | Reset sets t to FLT_MAX and clears the primitive, leaves every other field as it was, and changes nothing on a record that is already reset |
| `Intersections.PrimitiveGetIntersect` | src/accel/fast_bvh.hpp:469-470 | the primitive test as the traversals use it: without a record it reports whether the primitive is hit; with one it reports and records only a hit nearer than the record's t, and otherwise leaves the record alone |
| `FastBvh.Fbvh.GetIntersect` | src/accel/fast_bvh.hpp:301-498 | when the ray misses the scene box the record is untouched and the result is false; otherwise the result says whether the record holds a primitive. t never grows, and a changed record holds a real hit of a primitive at its distance. For a conservative ray no primitive is hit nearer than the final t |
| `FastBvh.Fbvh.ClosestStep` | src/accel/fast_bvh.hpp:335-496 | one loop round keeps the invariant (every primitive hit nearer than the record lies under a stacked node), keeps the stack within its `m_depth * FBVH_CHILD_CNT` slots, and strictly decreases a termination measure |
| `FastBvh.Fbvh.IntersectLeaf` | src/accel/fast_bvh.hpp:465-473 | after testing a leaf's primitives, t has not grown, any change is a real hit, and no primitive of the leaf is hit nearer than the record's t |
| `Traversal.ClosestSkip` | src/accel/fast_bvh.hpp:340-341 | skipping a node the ray enters beyond the record's t loses no nearer hit (for a conservative ray) |
| `Traversal.ClosestLeafDone` | src/accel/fast_bvh.hpp:465-472 | popping a tested leaf keeps the closest-hit invariant |
| `Traversal.ClosestExpand` | src/accel/fast_bvh.hpp:475-494 | replacing an inner node by the children it pushed nearest first keeps the closest-hit invariant, its children one level deeper |
| `FastBvh.Fbvh.PushNearestFirst` | src/accel/fast_bvh.hpp:475-494 | the child loop pushes every child the ray enters (entry above -1), each once, farthest first, so the nearest is popped first; it stops at the first round with no child left, and the stack beneath is untouched |
| `FastBvh.SelectFarthest` | src/accel/fast_bvh.hpp:480-487 | the inner scan returns the first child with the largest entry above -1, or -1 exactly when no entry is above -1 |
| `FastBvh.Fbvh.SelectAndPush` | src/accel/fast_bvh.hpp:479-494 | the selection rounds push distinct children in order of non-increasing entry; all are pushed, or the rest have entry at most -1 |
| `FastBvh.Fbvh.SelectRound` | src/accel/fast_bvh.hpp:479-494 | one round either stops because every unpushed child has entry at most -1, or pushes the farthest unpushed child and marks it |
| `FastBvh.SelectionStep` | src/accel/fast_bvh.hpp:489-493 | marking the farthest remaining child with -1 and pushing it with its entry distance extends the selection by a child not selected before |
| `FastBvh.SelectionPushed` | src/accel/fast_bvh.hpp:479-494 | when the rounds end, with every child pushed or the rest entered at -1 or below, the stack holds exactly the children the ray enters above -1, each once, farthest first |
| `FastBvh.Fbvh.IsOccluded` | src/accel/fast_bvh.hpp:500-714 | a ray that misses the scene box is not occluded; a true result means some primitive is hit; for a conservative ray, any hit primitive makes the result true |
| `FastBvh.Fbvh.OccludedStep` | src/accel/fast_bvh.hpp:535-712 | one round either finds a hit primitive or keeps the invariant (every hit primitive lies under a stacked node) within the stack's bounds, with a smaller termination measure |
| `FastBvh.Fbvh.OccludedLeaf` | src/accel/fast_bvh.hpp:690-702 | the leaf test is true exactly when some primitive of the leaf is hit |
| `FastBvh.Fbvh.PushEnteredChildren` | src/accel/fast_bvh.hpp:704-710 | the children whose entry distance is non-negative are pushed, in slot order, and no others |
| `Traversal.OccludedLeafDone` | src/accel/fast_bvh.hpp:690-701 | popping a leaf with no hit primitive keeps the occlusion invariant |
| `Traversal.OccludedExpand` | src/accel/fast_bvh.hpp:704-710 | replacing an inner node by the children the ray enters keeps the occlusion invariant |
| `FastBvh.Fbvh.GetIntersectMulti` | src/accel/fast_bvh.hpp:716-945 | the container starts empty with maxt = FLT_MAX and stays so if the ray misses the scene box. It ends holding only hits of primitives of material matID, with maxt FLT_MAX while not full and no smaller than every stored t. For a conservative ray every matching hit is stored, or the container is full and no stored hit is farther |
| `FastBvh.Fbvh.MultiStep` | src/accel/fast_bvh.hpp:752-944 | one round keeps the multi-hit invariant (every matching hit not settled lies under a stacked node) within the stack's bounds, with a smaller termination measure |
| `FastBvh.Fbvh.MultiLeaf` | src/accel/fast_bvh.hpp:884-921 | testing a leaf's primitives of material matID, each with a reset record, settles every matching hit of the leaf and unsettles nothing, keeping the container's contents and maxt bookkeeping correct |
| `MultiHit.MultiSkip` | src/accel/fast_bvh.hpp:757-758 | skipping a node the ray enters beyond maxt loses no unsettled matching hit |
| `MultiHit.MultiLeafDone` | src/accel/fast_bvh.hpp:884-921 | popping a leaf all of whose matching hits are settled keeps the multi-hit invariant |
| `MultiHit.MultiExpand` | src/accel/fast_bvh.hpp:923-942 | replacing an inner node by the children it pushed keeps the multi-hit invariant |
| `MultiHit.OfferKept` | src/accel/fast_bvh.hpp:896-917 | offering one matching hit keeps the container to matching hits with correct maxt, settles that hit, and keeps settled hits settled |
| `Sss.MaxT` | src/accel/fast_bvh.hpp:906-911 | the largest stored t is at least every stored t and is attained by a stored hit |
| `Sss.InsertNearest` | src/accel/fast_bvh.hpp:899-916 | a hit is appended while there is room; in a full container the count stays K, and the result holds only old hits and the new one |
| `Sss.InsertSettles` | src/accel/fast_bvh.hpp:899-916 | after the insertion the offered hit is stored, or the container is full and no stored hit is farther |
| `Sss.InsertKeepsSettled` | src/accel/fast_bvh.hpp:899-916 | a hit that was settled before an insertion is still settled after it |
| `Sss.OfferAllKeepsNearest` | src/accel/fast_bvh.hpp:899-916 | offering a sequence of hits keeps min(K, n) of them, all among the offered ones, and every offered hit is kept or no nearer than all kept ones: the container holds K nearest hits |
| `Sss.AsWrittenAgrees` | src/accel/fast_bvh.hpp:899-916 | the insertion as written equals the nearest-keeping one while there is room, and on a full container whose largest t is above 0 and above the new hit's t |
| `Sss.AsWrittenEvicts` | src/accel/fast_bvh.hpp:903-913 | on a full container whose largest t is above 0 and at most the new hit's t, the insertion as written still overwrites the first slot of the largest t with the new hit; when the new hit is strictly farther and the evicted hit was stored once, that settled hit becomes unsettled |
| `Sss.AsWrittenEvictsNearer` | src/accel/fast_bvh.hpp:903-913 | with the eviction as written, K = 2 and hits at 1, 2, 3 leave hits 1 and 3 stored: the hit at 2 is lost though nearer than a stored one |
| `Sss.BeyondMaxtSettled` | src/accel/fast_bvh.hpp:757-758 | with correct maxt bookkeeping, a hit farther than maxt is settled, which justifies the skip |
| `Sss.InsertKeepsMaxt` | src/accel/fast_bvh.hpp:899-915 | after an insertion, maxt (unchanged while there was room, else the new largest t) is still correct |
| `Sss.BssrdfIntersections.Add` | src/accel/fast_bvh.hpp:899-916 | the container's hits become the nearest-keeping insertion of the old hits and the new one; maxt is unchanged on the append path and becomes the largest stored t on the full path |
| `Sss.BssrdfIntersections.AddAsWritten` | src/accel/fast_bvh.hpp:899-916 | the insertion exactly as written: the container's hits become the as-written insertion of the old hits and the new one (append while there is room, else overwrite the picked slot whatever the new t); maxt is unchanged on the append path and the largest stored t on the full path |
| `Sss.BssrdfIntersections.PickSlotAsWritten` | src/accel/fast_bvh.hpp:904-911 | the scan started from slot -1 and distance 0 picks the first slot of the largest t when that t is above 0, and no slot (-1) otherwise |
| `Sss.BssrdfIntersections.FarthestSlot` | src/accel/fast_bvh.hpp:904-911 | the scan over a full container returns the first slot holding the largest t, and that t |
| `Sss.BssrdfIntersections.ResolveMaxDepth` | src/accel/fast_bvh.hpp:915 | maxt becomes the largest t among the stored hits |
| `Stats.NatToString` | src/utility/stats.cpp:80 | decimal text of a natural number: digits only, no leading zero |
| `Stats.IntToStringRoundTrip` | src/utility/stats.cpp:80 | to_string reads back to the same integer; it starts with a minus sign exactly for negative values, and every later character is a digit |
| `Stats.ParseNatToString` | src/utility/stats.cpp:80 | parsing the decimal text of n gives n |
| `Stats.StatsIntToString` | src/utility/stats.cpp:79-92 | texts shorter than five characters come back unchanged; longer ones are the text with a comma before every third character from the right |
| `Stats.FillGrouped` | src/utility/stats.cpp:83-91 | the buffer loop, writing right to left and skipping a slot after every third character, produces the grouped text |
| `Stats.GroupedShape` | src/utility/stats.cpp:84-90 | the grouped text has `len + 1 + len / 3` characters (the buffer size), a comma exactly at every fourth position counted from the end, and no comma first or last |
| `Stats.RemoveCommasGrouped` | src/utility/stats.cpp:84-90 | removing the commas from the grouped text of a comma-free text gives the text back |
| `Stats.NegativeSixDigitsAsWritten` | src/utility/stats.cpp:79-92 | the loop as written turns -123456 into "-,123,456" |
| `Stats.StatsIntToStringSigned` | src/utility/stats.cpp:79-92 | the corrected grouping: removing the commas gives to_string back, non-negative values group as the source does, and a negative value never has a comma right after its sign |
| `Stats.AsWrittenVersusSigned` | src/utility/stats.cpp:79-92 | for texts of five or more characters, the loop as written and the corrected grouping differ exactly on negative values whose digit count is a multiple of three (shorter texts come back unchanged from both) |
| `Stats.MinusGrouped` | src/utility/stats.cpp:84-90 | grouping a minus sign with the digits agrees with grouping the digits alone exactly when their count is not a multiple of three |
| `Stats.ElapsedTimeToString` | src/utility/stats.cpp:94-100 | below one second the milliseconds with "(ms)", below a minute the seconds formatter's text |
| `Stats.ElapsedTimeMinutes` | src/utility/stats.cpp:97 | from a minute up to an hour: whole minutes (1..59) and remaining seconds (0..59) that add up to the whole seconds |
| `Stats.ElapsedTimeHours` | src/utility/stats.cpp:98 | from an hour up to a day: whole hours (1..23) and remaining minutes (0..59) that add up to the whole minutes |
| `Stats.ElapsedTimeDays` | src/utility/stats.cpp:99 | from a day on: whole days, hours (0..23) and minutes (0..59) that add up to the whole minutes |
| `Stats.RatioToString` | src/utility/stats.cpp:106-108 | "%d/%d" has exactly one slash, and the texts on either side read back as the nominator and the denominator |
| `Stats.FlushAllAppend` | src/utility/stats.cpp:29-34 | flushing two batches one after the other is flushing their concatenation, so flushing is a fold in registration order |
| `Stats.StatsItemContainer.Register` | src/utility/stats.cpp:26-28 | the item is appended after the registered ones and the flushed flag is unchanged |
| `Stats.StatsItemContainer.FlushData` | src/utility/stats.cpp:29-34 | flushing applies every registered item's update to the summary, in registration order, and marks the container flushed; calling it on a flushed container is the violated assertion |

## Left out

- `Build` gives an empty scene no invalid state. It splits a root over zero primitives, which becomes an empty leaf, and sets `m_isValid` unconditionally. The queries then find nothing because there is nothing to test.
- The closest-hit and multi-hit child loops push every child whose entry distance is above -1, not only those at 0 or more. Only `IsOccluded` tests `>= 0`. The model does the same.
- The SIMD (SSE/AVX) leaf and child paths, `calcBoundingBoxSIMD` and `PushTriangle`/`PackData` are not modelled. Only the scalar `#else` paths are.
- `m_isValid`, `SORT_STATS` counters and `SORT_PROFILE` scopes have no effect on the results and are not modelled. `ray.Prepare` is not modelled either.
- The `thread_local` traversal stacks are modelled as a fresh array per query of the same size, `m_depth * FBVH_CHILD_CNT`. Sharing across queries and threads is not modelled.
- Several helpers are not part of this model. They are parameters, with only the properties the core relies on:
  - `pickBestSplit` is a parameter that may return any axis, position and cost.
  - `computeBBox` is taken to compute the union of the primitive boxes.
  - `Intersect(ray, bbox)` and `Primitive::GetIntersect` are the two functions inside `Geometry.Ray`. `PrimitiveGetIntersect` assumes the primitive test records only hits strictly nearer than the record's t.
  - `BSSRDFIntersections::ResolveMaxDepth` is modelled as the largest stored t.
- The shape code that fills the surface fields of `Intersection` (point, normals, tangent, view, uv) is not modelled. Only t and primitive are written by the model.
- The traversals' completeness statements assume `Geometry.Conservative` of the ray-box test. Soundness holds for every ray.
- Floating point is modelled as exact reals. FLT_MAX is the exact value of the float constant.
- Within each side, `std::partition` may order elements in any way. The model fixes one order (a two-index swap). The tree shape claims do not depend on that order.
- The class declaration of `Fbvh`, with the initial value of `m_depth`, is not part of this model. The model's constructor starts `depth` at 0, and the build only ever raises it.
- The leaf slots of `BSSRDFIntersections` are an array of records. `SORT_MALLOC` allocation and the pointer indirection are not modelled.
- `TOTAL_SSS_INTERSECTION_CNT` is a parameter K >= 1 of the container. The model does not fix its value.
- `Stats.ElapsedTimeToString`: the seconds branch formats a float with `%.2f`. It is left to a caller-supplied formatter. `v /= 1000.0f` and `v /= 60.0f` go through a float, which is modelled as exact integer division. That division is exact only while the values fit the float's 24-bit mantissa. The `%d` conversions at stats.cpp:95 and 97-99 receive a `long long`, so the source prints only what fits an `int`. The model prints the full value. The two agree only while every printed number fits an `int`; this includes negative inputs, which take the first branch.
- `StatsFloat::ToString` (`%.2f`) is not modelled, because it is floating point formatting.
- `StatsSummary::PrintStats`, the logging macros and the registration mutex are not modelled, because they are I/O and concurrency. The per-thread container is one object.
- `StatsItemRegister::FlushData` is modelled as the item's update function applied to a summary value. The `sAssert(func)` check is not modelled.
- `FastBvh.Fbvh.GetIntersectMulti`: it uses the corrected eviction, so a full container holds K nearest hits. The eviction as written can lose a nearer hit; see Findings.
- `FastBvh.Fbvh.MultiLeaf`: it offers each hit through the corrected `Add`, so it never unsettles a hit. The leaf loop as written overwrites the farthest slot whatever the new hit's t; that insertion is `Sss.BssrdfIntersections.AddAsWritten`.
- `Sss.BssrdfIntersections.Add`: it is the corrected insertion. A full container's farthest hit is replaced only by a nearer hit, where the source always overwrites. Its scan is `FarthestSlot`, not the source's scan. `AddAsWritten` is the insertion as written.
- `Sss.BssrdfIntersections.FarthestSlot`: the corrected scan starts at slot 0 with that slot's t. It therefore picks a slot even when no stored t is above 0. The source's scan starts at slot -1 with distance 0 and then picks none; that scan is `PickSlotAsWritten`.
- `Stats.StatsIntToString`: it models the loop as written, including its output for negative values. The corrected form is in Findings.

## Findings

| source | as written | input that shows it | evidently intended | confidence | as-written member | corrected member |
|---|---|---|---|---|---|---|
| src/accel/fast_bvh.hpp:903-913 | a full container overwrites the slot with the largest t with every new hit, even one farther than all stored hits | K = 2, hits at t = 1, 2, 3 offered in that order: the container ends holding 1 and 3, so the hit at 2 is lost | keep the K nearest hits: replace the farthest stored hit only when the new hit is nearer | not executed | `Sss.AsWrittenEvictsNearer`, `Sss.AsWrittenEvicts`, `Sss.BssrdfIntersections.AddAsWritten` | `Sss.OfferAllKeepsNearest` |
| src/utility/stats.cpp:79-92 | the comma positions are counted over the whole text of to_string, including the minus sign | -123456 becomes "-,123,456" | group only the digits, giving "-123,456" | not executed | `Stats.NegativeSixDigitsAsWritten` | `Stats.StatsIntToStringSigned` |
