# NMS post-processor of the SSD-MobileNet example

This project models the non-maximum-suppression (NMS) post-processor of the
SSD-MobileNet example. It is written in Dafny and proves properties of the
model. The post-processor has three layers.

- **Box geometry** (module `Geometry`). A `BoundingBox` is a value with
  inclusive integer pixel bounds, a score and a class id. The module defines:
  - the pixel-inclusive area;
  - the intersection (`*=`) and the union (`+=`);
  - the integer-percentage IoU, whose division truncates as C++ `/` does;
  - the score order (`operator<`).
- **Per-class bucket** (`Nms.ImageClass`). It holds two fixed arrays of
  `MAX_BOXES` (10) boxes, the counters `numBox` and `numPicked`, and a class
  id. Its operations are:
  - `AddBoundingBox` appends a raw box;
  - `SortBoxes` is the nested-loop exchange sort into non-increasing score
    order;
  - `Go` is the greedy pass. From each pivot it widens a representative by
    every following box whose IoU with the widened representative is
    strictly above the threshold. It stops at the first box that fails, and
    that box becomes the next pivot.
  - `Dump` hands the representatives to the callback.
- **Session** (`Nms.NmsPostProcess`). It holds up to 10 buckets, in the order
  their class ids were first seen.
  - `AddBoundingBox` routes a box to its class's bucket by linear search, or
    opens a new bucket.
  - `Go` runs every bucket's pass and delivers each bucket's representatives
    in turn.

The pass is specified by functions in module `Clustering`:
- `Absorb` computes the run of boxes that one pivot absorbs and the
  representative it produces.
- `Clusters` lists the representatives in emission order.
- `Runs` lists the boxes behind each representative.

These functions are generic in the merge test. The pass itself uses
`MergeTest(threshold)`, which holds when the IoU is defined and strictly above
the threshold.

Module `Collector` holds the session as values:
- one `Bucket` per class;
- `Submit`, the effect of adding one box;
- `Suppressed`, the effect of the pass on one bucket;
- `Delivered`, the boxes the callback receives.

The classes are proved against these values. Each array-backed bucket has a
`View()`, and the session keeps a ghost `Buckets` sequence. Both are tied to
the arrays by `Valid()`.

The callback (`NmsCb`) is modelled by the sequence of boxes it receives. The
session's `Go` returns that sequence, and so does `ImageClass.Dump`.

## Model

| member | source | states |
|---|---|---|
| Geometry.TruncDiv | examples/ssd_mobilenet/nms.cpp:57 | C++ integer division: the magnitude is the quotient of the magnitudes, the sign is the product of the signs, and it agrees with Dafny's division on a non-negative dividend and a positive divisor |
| Geometry.BoundingBox.Area | examples/ssd_mobilenet/nms.cpp:46-49 | the pixel-inclusive area is at least 1 for a box whose bounds are not inverted |
| Geometry.BoundingBox.Intersect | examples/ssd_mobilenet/nms.cpp:26-34 | `*=` gives a box inside both operands and keeps the receiver's score and class id |
| Geometry.IntersectIsGreatest | examples/ssd_mobilenet/nms.cpp:26-34 | `*=` gives the largest box inside both operands |
| Geometry.BoundingBox.Union | examples/ssd_mobilenet/nms.cpp:36-44 | `+=` gives a box that encloses both operands and keeps the receiver's score and class id |
| Geometry.UnionIsLeast | examples/ssd_mobilenet/nms.cpp:36-44 | `+=` gives the smallest box that encloses both operands |
| Geometry.BoundingBox.IoUAsWritten | examples/ssd_mobilenet/nms.cpp:51-58 | the IoU exactly as written; None exactly when the source's denominator is zero |
| Geometry.BoundingBox.OverlapArea | examples/ssd_mobilenet/nms.cpp:53-55 | the overlap is never negative; it is 0 exactly when one box is inverted or the boxes are apart along an axis; for proper boxes it is at most either area |
| Geometry.Percent | examples/ssd_mobilenet/nms.cpp:57 | `n * 100 / d` truncated lies in 0..100 when 0 <= n <= d, and is 100 when n == d > 0 |
| Geometry.OverlapWithinAreas | examples/ssd_mobilenet/nms.cpp:51-58 | for proper boxes the overlap is at most either area and the denominator is positive |
| Geometry.BoundingBox.IoU | examples/ssd_mobilenet/nms.cpp:51-58 | the IoU with the overlap clipped at 0; None exactly when the denominator is zero; always defined and within 0..100 for proper boxes |
| Geometry.IoUSymmetric | examples/ssd_mobilenet/nms.cpp:51-58 | the overlap and the IoU do not depend on the order of the boxes, both for the IoU as written and for the clipped IoU |
| Geometry.IoUAgreesOnOverlap | examples/ssd_mobilenet/nms.cpp:51-58 | when the boxes share a pixel, the clipped IoU is the IoU as written |
| Geometry.IoUNoOverlap | examples/ssd_mobilenet/nms.cpp:51-58 | proper boxes that share no pixel have clipped IoU 0 |
| Geometry.IoUAsWrittenAtMostZero | examples/ssd_mobilenet/nms.cpp:51-58 | for proper boxes that share no pixel but are not separated by at least one empty pixel row and at least one empty pixel column, the written IoU is defined and at most 0 |
| Geometry.IoUSelf | examples/ssd_mobilenet/nms.cpp:51-58 | a proper box has IoU 100 with itself |
| Geometry.IoUAsWrittenSelf | examples/ssd_mobilenet/nms.cpp:51-58 | as written, a box of positive area has IoU 100 with itself |
| Geometry.IoUDisjoint | examples/ssd_mobilenet/nms.cpp:51-58 | proper boxes that are separated along one axis have IoU 0 |
| Geometry.AsWrittenDividesByZero | examples/ssd_mobilenet/nms.cpp:53-57 | two proper, disjoint boxes for which the written IoU divides by zero, while the clipped IoU is 0 |
| Geometry.AsWrittenExceedsHundred | examples/ssd_mobilenet/nms.cpp:53-57 | two proper, disjoint boxes for which the written IoU is 200, while the clipped IoU is 0 |
| Geometry.AsWrittenDiagonalGap | examples/ssd_mobilenet/nms.cpp:53-57 | the one-pixel boxes (0,0,0,0) and (2,2,2,2), which share no pixel, have written IoU 100 and clipped IoU 0 |
| Geometry.Less | examples/ssd_mobilenet/nms.cpp:60-63 | `operator<` never holds between a box and itself, nor between two boxes of equal score |
| Geometry.LessIsStrictWeakOrder | examples/ssd_mobilenet/nms.cpp:60-63 | `operator<` compares scores only: it is irreflexive and transitive, and two boxes are tied exactly when their scores are equal |
| Clustering.Merges | examples/ssd_mobilenet/nms.cpp:96 | a merge needs a defined IoU strictly above the threshold; for proper boxes a threshold of 100 or more never merges, and at a non-negative threshold boxes that share no pixel never merge |
| Clustering.MergesSymmetric | examples/ssd_mobilenet/nms.cpp:96 | the merge test does not depend on the order of the two boxes |
| Clustering.MergeTest | examples/ssd_mobilenet/nms.cpp:96 | the test the pass applies at one threshold is symmetric in its two boxes |
| Clustering.MergesAsWritten | examples/ssd_mobilenet/nms.cpp:96 | the test as written needs a defined written IoU strictly above the threshold; a box of positive written area passes it against itself exactly when the threshold is below 100 |
| Clustering.MergesAsWrittenSymmetric | examples/ssd_mobilenet/nms.cpp:96 | the test as written does not depend on the order of the two boxes |
| Clustering.MergeTestAsWritten | examples/ssd_mobilenet/nms.cpp:96 | the source's test at one threshold, the one `Clusters` applies to give the pass as written, is symmetric in its two boxes |
| Clustering.MergesAgree | examples/ssd_mobilenet/nms.cpp:96 | for proper boxes and a non-negative threshold, the model's test and the test as written agree unless the boxes are separated by at least one empty pixel row and at least one empty pixel column |
| Clustering.Widen | examples/ssd_mobilenet/nms.cpp:97 | repeated `+=` keeps the first box's score and class id and encloses every box it absorbed |
| Clustering.WidenIsLeast | examples/ssd_mobilenet/nms.cpp:97 | repeated `+=` gives the smallest box around the boxes it absorbed |
| Clustering.Absorb | examples/ssd_mobilenet/nms.cpp:95-100 | the inner loop absorbs at most the boxes that remain |
| Clustering.AbsorbIsGreedy | examples/ssd_mobilenet/nms.cpp:95-100 | the inner loop absorbs the longest prefix whose boxes each pass the test against the representative widened so far; the representative is the pivot widened by that prefix, and the next box fails the test against it |
| Clustering.Clusters | examples/ssd_mobilenet/nms.cpp:92-102 | the pass emits at least one and at most as many representatives as there are boxes, and none for no boxes |
| Clustering.RunsPartition | examples/ssd_mobilenet/nms.cpp:92-102 | the runs are non-empty, contiguous, in order, and together are exactly the sorted boxes, one run per representative, so each box is absorbed into exactly one representative |
| Clustering.ClustersAreWidenedRuns | examples/ssd_mobilenet/nms.cpp:94-101 | each representative is its run's pivot widened by the rest of its run |
| Clustering.ClustersEncloseRuns | examples/ssd_mobilenet/nms.cpp:94-101 | each representative keeps its pivot's score and class id and encloses every box of its run |
| Clustering.RunsAreGreedy | examples/ssd_mobilenet/nms.cpp:95-99 | inside a run each box passed the test against the representative widened so far, and the pivot of the next run failed it against the finished representative |
| Clustering.ClustersSorted | examples/ssd_mobilenet/nms.cpp:88-103 | on score-sorted boxes the representatives' scores do not increase, and the first representative has the top score |
| Clustering.ClustersKeepClass | examples/ssd_mobilenet/nms.cpp:94-101 | boxes of one class yield representatives of that class only |
| Clustering.PairClustersWith | examples/ssd_mobilenet/nms.cpp:94-101 | for any test, two boxes give their union when they pass it and both boxes when they do not |
| Clustering.PairClusters | examples/ssd_mobilenet/nms.cpp:96-97 | two boxes merge into their union exactly when their IoU is defined and strictly above the threshold, and otherwise both are kept |
| Clustering.ThresholdIsStrict | examples/ssd_mobilenet/nms.cpp:96 | an IoU equal to the threshold does not merge, and it merges at one below the threshold |
| Clustering.NotAGlobalMerge | examples/ssd_mobilenet/nms.cpp:95-99 | scanning stops at the first failing box: two identical boxes separated by a disjoint one stay apart |
| Clustering.AsWrittenMergesDisjoint | examples/ssd_mobilenet/nms.cpp:94-101 | with the test as written at threshold 50, the pass merges (0,0,0,0) and (3,3,7,3), which share no pixel, into (0,0,7,3); the model's pass keeps both |
| Clustering.AsWrittenMergesInverted | examples/ssd_mobilenet/nms.cpp:94-101 | the inverted box (5,5,0,0) has written IoU 100 and clipped IoU 0 with a copy of itself, so the pass as written merges the copy and the model's pass keeps both |
| Collector.AppendBox | examples/ssd_mobilenet/nms.cpp:66-71 | appending succeeds with status 0 exactly when the bucket has room, and then adds the box at the end; otherwise it gives -1 and changes nothing |
| Collector.Find | examples/ssd_mobilenet/nms.cpp:115-120 | the linear search gives the first bucket with the class id, or the bucket count when there is none |
| Collector.Submit | examples/ssd_mobilenet/nms.cpp:113-130 | submitting gives status 0 or -1, a -1 leaves the buckets unchanged, and at most one bucket is opened |
| Collector.SubmitToKnownClass | examples/ssd_mobilenet/nms.cpp:115-120 | a box whose class has a bucket is appended to that bucket and the bucket count is unchanged; a full bucket gives -1 and no change |
| Collector.SubmitNewClass | examples/ssd_mobilenet/nms.cpp:122-129 | a box of a new class opens a bucket at the end with status 0, or gives -1 and no change when 10 buckets are in use |
| Collector.SubmitIsolatesClasses | examples/ssd_mobilenet/nms.cpp:113-130 | the status is 0 or -1 and a failure changes nothing; buckets keep their position, class id and picked boxes; buckets of other classes are untouched |
| Collector.SubmitPreservesInvariant | examples/ssd_mobilenet/nms.cpp:113-130 | submitting keeps the capacity bounds, the pairwise distinct class ids, and every box in the bucket of its class |
| Collector.SubmitKeepsUnpicked | examples/ssd_mobilenet/nms.cpp:113-130 | submitting never adds picked boxes |
| Collector.UnpickedHasRoom | examples/ssd_mobilenet/nms.cpp:101 | a session whose buckets have no picked boxes has room in every bucket for its representatives |
| Collector.SubmittedSessionHasRoom | examples/ssd_mobilenet/nms.cpp:113-130 | after any sequence of submissions to a fresh session the invariant holds, no bucket has picked boxes, and every bucket has room for the pass |
| Collector.Suppressed | examples/ssd_mobilenet/nms.cpp:88-103 | after the pass a bucket keeps its number of raw boxes and gains at least one and at most that many picked boxes, and gains some exactly when it has raw boxes |
| Collector.Delivered | examples/ssd_mobilenet/nms.cpp:132-138 | the callback receives every picked box of every bucket, and nothing that is not a picked box of some bucket |
| Collector.SuppressPreservesInvariant | examples/ssd_mobilenet/nms.cpp:134-135 | the pass on one bucket keeps the session invariant |
| Collector.SuppressionStaysInClass | examples/ssd_mobilenet/nms.cpp:132-138 | every box absorbed into a bucket's representatives has that bucket's class id, and so has every representative |
| Collector.DifferentClassesNeverMerge | examples/ssd_mobilenet/nms.cpp:113-138 | two boxes of different classes, submitted to a fresh session, are both delivered, in submission order, whatever their overlap |
| Collector.DeliveredPrefix | examples/ssd_mobilenet/nms.cpp:134-137 | delivering one bucket more appends that bucket's picked boxes |
| Nms.ImageClass.constructor | examples/ssd_mobilenet/nms.h:51 | a fresh bucket has no raw and no picked boxes and class id -1 |
| Nms.ImageClass.GetClassId | examples/ssd_mobilenet/nms.h:55 | the getter returns the class id of the bucket's value |
| Nms.ImageClass.SetClassId | examples/ssd_mobilenet/nms.h:55-56 | after SetClassId(id), GetClassId() is id and the boxes are unchanged |
| Nms.ImageClass.AddBoundingBox | examples/ssd_mobilenet/nms.cpp:66-71 | the bucket changes as AppendBox says: the box goes to index numBox and numBox grows by one, or -1 when the bucket is full |
| Nms.Swap | examples/ssd_mobilenet/nms.cpp:80-82 | the swap exchanges two entries, leaves the others alone and keeps the multiset of the sorted prefix |
| Nms.ImageClass.SortBoxes | examples/ssd_mobilenet/nms.cpp:74-86 | after the sort the raw boxes are a permutation of what they were, with non-increasing scores; the counters are unchanged |
| Nms.ImageClass.GrowFrom | examples/ssd_mobilenet/nms.cpp:94-100 | the inner loop returns Absorb's representative, and the index of the first box not absorbed |
| Nms.ImageClass.Pick | examples/ssd_mobilenet/nms.cpp:101 | appends one representative to the picked boxes |
| Nms.ImageClass.PickAll | examples/ssd_mobilenet/nms.cpp:92-102 | the outer loop appends exactly Clusters of the raw boxes to the picked boxes and leaves the raw boxes unchanged |
| Nms.ImageClass.Go | examples/ssd_mobilenet/nms.cpp:88-103 | the bucket ends Suppressed: the raw boxes are sorted and permuted, and the picked boxes grow by Clusters of the sorted boxes, that is, by at least one and at most numBox boxes when there are raw boxes |
| Nms.ImageClass.Dump | examples/ssd_mobilenet/nms.cpp:105-111 | hands the callback exactly the picked boxes, in pickArray order |
| Nms.NmsPostProcess.constructor | examples/ssd_mobilenet/nms.h:73 | a fresh session has no buckets in use |
| Nms.NmsPostProcess.Lookup | examples/ssd_mobilenet/nms.cpp:115-120 | the search loop gives Find's index |
| Nms.NmsPostProcess.AddToBucket | examples/ssd_mobilenet/nms.cpp:116-118 | the box is appended to the bucket of its class, as AppendBox says |
| Nms.NmsPostProcess.OpenBucket | examples/ssd_mobilenet/nms.cpp:125-127 | the first unused bucket gets the box's class id and the box |
| Nms.NmsPostProcess.AddBoundingBox | examples/ssd_mobilenet/nms.cpp:113-130 | the status and the new buckets are Submit's, and the session invariant is kept |
| Nms.NmsPostProcess.GoBucket | examples/ssd_mobilenet/nms.cpp:135-136 | one bucket is suppressed and its picked boxes are delivered; the other buckets are unchanged |
| Nms.NmsPostProcess.Go | examples/ssd_mobilenet/nms.cpp:132-138 | every bucket ends Suppressed, and the callback receives the buckets' picked boxes bucket by bucket, in first-seen class order |

## Left out

- BoundingBox `*=`, `+=` and `operator=` are modelled as functions that return the updated box (`Intersect`, `Union`) and as plain value assignment. The source updates the receiver in place. Boxes are always held by copy (in the arrays, and in `pickedBox`), so no aliasing is lost.
- The copy constructor (examples/ssd_mobilenet/nms.h:18) and the six-argument constructor are the datatype constructor. `BoundingBox::GetClassId` is the `classId` field.
- C++ `int` overflow in `Area` and `interArea * 100` is not modelled: the model uses mathematical integers.
- IoU: a zero denominator is undefined behaviour in the source. The model returns None, and the merge test treats None as "no merge".
- Nms.ImageClass.AddBoundingBox: the source writes past `boxArray` when the bucket is full (nms.cpp:68). The model returns -1 and changes nothing.
- Nms.NmsPostProcess.AddBoundingBox: the source ignores the bucket's status and returns 0 for a known class. The model passes on the bucket's -1 when the bucket is full, because the source's write there is out of bounds.
- Nms.ImageClass.Go: the source writes past `pickArray` when the representatives do not fit (nms.cpp:101). The model requires `numPicked + numBox <= MAX_BOXES`. Its caller `NmsPostProcess.Go` requires `HasRoom` for every bucket. `Collector.SubmittedSessionHasRoom` shows that this holds for the first pass after any sequence of submissions to a fresh session. The requirement is sufficient, not necessary: a repeated `Go` whose boxes all merge writes only one representative and stays in bounds in the source, yet the model excludes it when `numPicked + numBox` exceeds 10. It is meant for the single pass per session that the session's lifecycle performs.
- The nested loops of `ImageClass::Go` are split over three methods. `PickAll` is the outer loop, `GrowFrom` is the inner loop and `Pick` is the append. The inner loop's test is passed in as the merge test, and `PickAll` passes `MergeTest(overlayThreshold)`.
- The IoU the pass uses is the corrected one (see Findings), not the one the source writes. `Clustering.MergesAgree` shows that the two tests agree for proper boxes at a non-negative threshold unless the boxes are separated by at least one empty pixel row and at least one empty pixel column. The model's pass therefore departs from the source only: for proper boxes separated by at least one empty pixel row and at least one empty pixel column, where the written IoU can be positive (`Geometry.AsWrittenDiagonalGap`: for (0,0,0,0) and (2,2,2,2) it is 100) (`Clustering.AsWrittenMergesDisjoint`); for inverted raw boxes, where the written area can be positive (`Clustering.AsWrittenMergesInverted`: a duplicated (5,5,0,0) merges in the source and not in the model); and for negative thresholds, where a written IoU below 0 can fail a test the clipped 0 passes.
- NmsCb: virtual dispatch is not modelled. `callback`'s return value is ignored by the source, and the model keeps no return value. Each call is an element of the returned sequence.
- `kCategoryLabels` is declared but never used, and is not part of this model.
- The session's `Go` only groups the per-bucket `Go` and `Dump` calls into one helper (`GoBucket`).

## Findings

| source | as written | input that shows it | evidently intended | confidence | as-written member | corrected member |
|---|---|---|---|---|---|---|
| examples/ssd_mobilenet/nms.cpp:53-57 | the intersection area applies the inclusive-area formula to the intersection box even when it is inverted; for disjoint boxes two negative extents multiply into a positive "area" | (0,0,0,0) and (3,3,5,3): the intersection (3,3,0,0) has area 4 = 1 + 3, so the denominator is 0. (0,0,0,0) and (3,3,7,3): the IoU is 200 | boxes that share no pixel have overlap 0, so their IoU is 0 | not executed | Geometry.BoundingBox.IoUAsWritten, Clustering.MergesAsWritten, Geometry.AsWrittenDividesByZero, Geometry.AsWrittenExceedsHundred, Clustering.AsWrittenMergesDisjoint | Geometry.BoundingBox.IoU, Geometry.IoUDisjoint |
