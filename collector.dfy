/**
  The abstract state of a suppression session as values: one bucket per class
  id, in the order the classes were first seen, each with its raw boxes and
  its picked representatives; the effect of submitting a box, of running the
  suppression pass on a bucket, and the boxes handed to the result callback.
 */
module Collector {
  import opened Geometry
  import opened Clustering

  /** Capacity of a bucket's raw and picked boxes, and of a session's buckets. */
  const MAX_BOXES := 10

  datatype Bucket = Bucket(classId: int, boxes: seq<BoundingBox>, picked: seq<BoundingBox>)

  /**
    What every session keeps: at most MAX_BOXES buckets holding at most
    MAX_BOXES raw and MAX_BOXES picked boxes each, pairwise distinct class
    ids, and every box in a bucket carrying that bucket's class id.
   */
  ghost predicate SessionInvariant(bs: seq<Bucket>) {
    && |bs| <= MAX_BOXES
    && (forall i :: 0 <= i < |bs| ==> |bs[i].boxes| <= MAX_BOXES && |bs[i].picked| <= MAX_BOXES)
    && (forall i, j :: 0 <= i < j < |bs| ==> bs[i].classId != bs[j].classId)
    && (forall i, b :: 0 <= i < |bs| && b in bs[i].boxes ==> b.classId == bs[i].classId)
    && (forall i, b :: 0 <= i < |bs| && b in bs[i].picked ==> b.classId == bs[i].classId)
  }

  /** Appending one raw box to a bucket: status 0 and the box at the end, or -1 and no change when full. */
  function AppendBox(b: Bucket, box: BoundingBox): (r: (int, Bucket))
    ensures r.0 == 0 <==> |b.boxes| < MAX_BOXES
    ensures r.0 == 0 ==> r.1 == b.(boxes := b.boxes + [box])
    ensures r.0 != 0 ==> r.0 == -1 && r.1 == b
  {
    if |b.boxes| < MAX_BOXES then (0, b.(boxes := b.boxes + [box])) else (-1, b)
  }

  /** Linear search: the first bucket with class id `id`, or |bs| when there is none. */
  function Find(bs: seq<Bucket>, id: int): (k: nat)
    ensures k <= |bs|
    ensures k < |bs| ==> bs[k].classId == id
    ensures forall j :: 0 <= j < k ==> bs[j].classId != id
  {
    if bs == [] then 0
    else if bs[0].classId == id then 0
    else 1 + Find(bs[1..], id)
  }

  /**
    Submitting one box to a session: the status code and the new buckets.
    The status is 0 or -1, -1 changes nothing, and at most one bucket is
    opened.
   */
  function Submit(bs: seq<Bucket>, box: BoundingBox): (r: (int, seq<Bucket>))
    ensures r.0 == 0 || r.0 == -1
    ensures r.0 == -1 ==> r.1 == bs
    ensures |bs| <= |r.1| <= |bs| + 1
  {
    var k := Find(bs, box.classId);
    if k < |bs| then
      var (status, b) := AppendBox(bs[k], box);
      (status, bs[k := b])
    else if |bs| >= MAX_BOXES then (-1, bs)
    else (0, bs + [Bucket(box.classId, [box], [])])
  }

  /** Submitting keeps the session invariant, in particular the distinct class ids. */
  lemma SubmitPreservesInvariant(bs: seq<Bucket>, box: BoundingBox)
    requires SessionInvariant(bs)
    ensures SessionInvariant(Submit(bs, box).1)
  {
    var k := Find(bs, box.classId);
    var r := Submit(bs, box).1;
    if k < |bs| {
      forall i, b | 0 <= i < |r| && b in r[i].boxes ensures b.classId == r[i].classId {
        if i == k && b !in bs[k].boxes {
          assert b == box;
        }
      }
    }
  }

  /** A box whose class has a bucket goes to that bucket; the bucket count does not change. */
  lemma SubmitToKnownClass(bs: seq<Bucket>, box: BoundingBox, i: int)
    requires SessionInvariant(bs)
    requires 0 <= i < |bs| && bs[i].classId == box.classId
    ensures |Submit(bs, box).1| == |bs|
    ensures Submit(bs, box).0 == 0 <==> |bs[i].boxes| < MAX_BOXES
    ensures Submit(bs, box).0 == 0 ==> Submit(bs, box).1 == bs[i := bs[i].(boxes := bs[i].boxes + [box])]
    ensures Submit(bs, box).0 != 0 ==> Submit(bs, box) == (-1, bs)
  {
    assert Find(bs, box.classId) == i;
    assert bs[i := bs[i]] == bs;
  }

  /** A box of a new class opens a bucket at the end, unless the session already has MAX_BOXES buckets. */
  lemma SubmitNewClass(bs: seq<Bucket>, box: BoundingBox)
    requires forall i :: 0 <= i < |bs| ==> bs[i].classId != box.classId
    ensures Submit(bs, box).0 == 0 <==> |bs| < MAX_BOXES
    ensures Submit(bs, box).0 == 0 ==> Submit(bs, box).1 == bs + [Bucket(box.classId, [box], [])]
    ensures Submit(bs, box).0 != 0 ==> Submit(bs, box) == (-1, bs)
  {
    assert Find(bs, box.classId) == |bs|;
  }

  /**
    Whatever the outcome, the status is 0 or -1, a failure changes nothing,
    existing buckets keep their position, class id and picked boxes, and
    buckets of other classes are untouched.
   */
  lemma SubmitIsolatesClasses(bs: seq<Bucket>, box: BoundingBox)
    ensures Submit(bs, box).0 == 0 || Submit(bs, box) == (-1, bs)
    ensures |bs| <= |Submit(bs, box).1| <= |bs| + 1
    ensures forall i :: 0 <= i < |bs| ==>
      Submit(bs, box).1[i].classId == bs[i].classId && Submit(bs, box).1[i].picked == bs[i].picked
    ensures forall i :: 0 <= i < |bs| && bs[i].classId != box.classId ==> Submit(bs, box).1[i] == bs[i]
  {
    var k := Find(bs, box.classId);
    if k < |bs| {
      assert bs[k := bs[k]] == bs;
    }
  }

  /**
    One bucket after the suppression pass: same class id, its raw boxes a
    score-sorted permutation of what they were, and the new representatives
    appended to the picked boxes.
   */
  ghost predicate Suppressed(before: Bucket, after: Bucket, threshold: int): (r: bool)
    ensures r ==> |after.boxes| == |before.boxes|
    ensures r ==> |before.picked| <= |after.picked| <= |before.picked| + |before.boxes|
    ensures r ==> (|after.picked| > |before.picked| <==> before.boxes != [])
  {
    assert |multiset(after.boxes)| == |after.boxes| && |multiset(before.boxes)| == |before.boxes|;
    && after.classId == before.classId
    && multiset(after.boxes) == multiset(before.boxes)
    && SortedByScore(after.boxes)
    && after.picked == before.picked + Clusters(after.boxes, MergeTest(threshold))
  }

  /** The first n buckets have been through the pass; the rest are as they were. */
  ghost predicate SuppressedUpTo(before: seq<Bucket>, after: seq<Bucket>, n: int, threshold: int) {
    && |after| == |before| && 0 <= n <= |before|
    && (forall j :: 0 <= j < n ==> Suppressed(before[j], after[j], threshold))
    && (forall j :: n <= j < |after| ==> after[j] == before[j])
  }

  /** Running the pass on bucket n extends the suppressed prefix by one. */
  lemma SuppressedUpToStep(before: seq<Bucket>, after: seq<Bucket>, n: int, b: Bucket, threshold: int)
    requires SuppressedUpTo(before, after, n, threshold) && n < |before|
    requires Suppressed(after[n], b, threshold)
    ensures SuppressedUpTo(before, after[n := b], n + 1, threshold)
  {
  }

  /** The boxes handed to the result callback: every bucket's picked boxes, buckets in order. */
  function Delivered(bs: seq<Bucket>): (r: seq<BoundingBox>)
    ensures forall i, x :: 0 <= i < |bs| && x in bs[i].picked ==> x in r
    ensures forall x :: x in r ==> exists i :: 0 <= i < |bs| && x in bs[i].picked
  {
    if bs == [] then []
    else
      var init := bs[..|bs| - 1];
      assert forall i :: 0 <= i < |init| ==> init[i] == bs[i];
      Delivered(init) + bs[|bs| - 1].picked
  }

  /** Delivering one bucket more appends its picked boxes. */
  lemma DeliveredPrefix(bs: seq<Bucket>, i: int)
    requires 0 <= i < |bs|
    ensures Delivered(bs[..i + 1]) == Delivered(bs[..i]) + bs[i].picked
  {
    assert bs[..i + 1][..i] == bs[..i];
  }

  /** Room for one representative per raw box: the pass cannot overflow the picked boxes. */
  predicate HasRoom(b: Bucket) {
    |b.picked| + |b.boxes| <= MAX_BOXES
  }

  /**
    Before the first suppression pass no bucket has picked boxes, and then
    every bucket has room for the pass: the session's pass can run once
    after any sequence of submissions to a fresh session.
   */
  lemma SubmitKeepsUnpicked(bs: seq<Bucket>, box: BoundingBox)
    requires forall i :: 0 <= i < |bs| ==> bs[i].picked == []
    ensures forall i :: 0 <= i < |Submit(bs, box).1| ==> Submit(bs, box).1[i].picked == []
  {
    SubmitIsolatesClasses(bs, box);
  }

  lemma UnpickedHasRoom(bs: seq<Bucket>)
    requires SessionInvariant(bs)
    requires forall i :: 0 <= i < |bs| ==> bs[i].picked == []
    ensures forall i :: 0 <= i < |bs| ==> HasRoom(bs[i])
  {
  }

  /** Submitting the boxes one after another; the statuses are dropped. */
  function SubmitAll(bs: seq<Bucket>, boxes: seq<BoundingBox>): seq<Bucket>
    decreases |boxes|
  {
    if boxes == [] then bs else SubmitAll(Submit(bs, boxes[0]).1, boxes[1..])
  }

  /**
    After any sequence of submissions to a session with no picked boxes (a
    fresh session `[]` in particular) the invariant holds, no bucket has
    picked boxes, and every bucket has room for the pass.
   */
  lemma {:induction false} SubmittedSessionHasRoom(bs: seq<Bucket>, boxes: seq<BoundingBox>)
    requires SessionInvariant(bs)
    requires forall i :: 0 <= i < |bs| ==> bs[i].picked == []
    ensures SessionInvariant(SubmitAll(bs, boxes))
    ensures forall i :: 0 <= i < |SubmitAll(bs, boxes)| ==>
      SubmitAll(bs, boxes)[i].picked == [] && HasRoom(SubmitAll(bs, boxes)[i])
    decreases |boxes|
  {
    if boxes == [] {
      UnpickedHasRoom(bs);
    } else {
      SubmitPreservesInvariant(bs, boxes[0]);
      SubmitKeepsUnpicked(bs, boxes[0]);
      SubmittedSessionHasRoom(Submit(bs, boxes[0]).1, boxes[1..]);
    }
  }

  /**
    Suppressing one bucket keeps the session invariant: the new
    representatives carry the bucket's class id and fit in its capacity.
   */
  lemma SuppressPreservesInvariant(bs: seq<Bucket>, i: int, after: Bucket, threshold: int)
    requires SessionInvariant(bs)
    requires 0 <= i < |bs| && HasRoom(bs[i])
    requires Suppressed(bs[i], after, threshold)
    ensures SessionInvariant(bs[i := after])
  {
    var c := bs[i].classId;
    forall b | b in after.boxes ensures b.classId == c {
      assert b in multiset(after.boxes);
    }
    ClustersKeepClass(after.boxes, MergeTest(threshold), c);
    assert |after.boxes| == |bs[i].boxes| by {
      assert |multiset(after.boxes)| == |multiset(bs[i].boxes)|;
    }
  }

  lemma InConcat<T>(rs: seq<seq<T>>, i: int, x: T)
    requires 0 <= i < |rs| && x in rs[i]
    ensures x in Concat(rs)
  {
    if i > 0 {
      InConcat(rs[1..], i - 1, x);
    }
  }

  /**
    No merge crosses classes: every box absorbed into a representative of a
    suppressed bucket is one of that bucket's boxes, so it has the bucket's
    class id, and so has the representative.
   */
  lemma SuppressionStaysInClass(before: Bucket, after: Bucket, threshold: int)
    requires forall b :: b in before.boxes ==> b.classId == before.classId
    requires Suppressed(before, after, threshold)
    ensures forall k, x :: 0 <= k < |Runs(after.boxes, MergeTest(threshold))| && x in Runs(after.boxes, MergeTest(threshold))[k] ==>
      x.classId == before.classId
    ensures forall c :: c in Clusters(after.boxes, MergeTest(threshold)) ==> c.classId == before.classId
  {
    var m := MergeTest(threshold);
    forall b | b in after.boxes ensures b.classId == before.classId {
      assert b in multiset(after.boxes);
    }
    RunsPartition(after.boxes, m);
    forall k, x | 0 <= k < |Runs(after.boxes, m)| && x in Runs(after.boxes, m)[k]
      ensures x.classId == before.classId
    {
      InConcat(Runs(after.boxes, m), k, x);
    }
    ClustersKeepClass(after.boxes, m, before.classId);
  }

  /**
    Two boxes of different classes, submitted to a fresh session, are both
    delivered, in submission order, whatever their overlap and the threshold.
   */
  lemma DifferentClassesNeverMerge(a: BoundingBox, b: BoundingBox, threshold: int, after: seq<Bucket>)
    requires a.classId != b.classId
    requires |after| == |Submit(Submit([], a).1, b).1|
    requires forall i :: 0 <= i < |after| ==> Suppressed(Submit(Submit([], a).1, b).1[i], after[i], threshold)
    ensures Delivered(after) == [a, b]
  {
    SubmitTwoClasses(a, b);
    var two := Submit(Submit([], a).1, b).1;
    assert Suppressed(two[0], after[0], threshold);
    assert Suppressed(two[1], after[1], threshold);
    SingletonSuppressed(two[0], after[0], threshold, a);
    SingletonSuppressed(two[1], after[1], threshold, b);
    DeliveredTwo(after);
  }

  lemma SubmitTwoClasses(a: BoundingBox, b: BoundingBox)
    requires a.classId != b.classId
    ensures Submit(Submit([], a).1, b).1 == [Bucket(a.classId, [a], []), Bucket(b.classId, [b], [])]
  {
    SubmitNewClass([], a);
    var one := Submit([], a).1;
    assert one == [Bucket(a.classId, [a], [])];
    SubmitNewClass(one, b);
  }

  lemma DeliveredTwo(bs: seq<Bucket>)
    requires |bs| == 2
    ensures Delivered(bs) == bs[0].picked + bs[1].picked
  {
    var first := bs[..1];
    assert first[..0] == [];
    assert Delivered(first) == Delivered([]) + bs[0].picked;
    assert bs[..|bs| - 1] == first;
  }

  lemma SingletonSuppressed(before: Bucket, after: Bucket, threshold: int, x: BoundingBox)
    requires before.boxes == [x] && before.picked == []
    requires Suppressed(before, after, threshold)
    ensures after.picked == [x]
  {
    assert |after.boxes| == 1 by {
      assert |multiset(after.boxes)| == 1;
    }
    assert after.boxes[0] in multiset(after.boxes);
    assert after.boxes == [x];
    assert [x][1..] == [];
  }
}
