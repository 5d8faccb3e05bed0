/**
  The stateful NMS post-processor: a per-class bucket over two fixed arrays
  of MAX_BOXES boxes, and a session over a fixed array of MAX_BOXES buckets.
  The result callback is modelled by the sequence of boxes it receives.
 */
module Nms {
  import opened Geometry
  import opened Clustering
  import opened Collector

  /** The boxes submitted for one class id and the representatives kept after suppression. */
  class ImageClass {
    const boxArray: array<BoundingBox>
    const pickArray: array<BoundingBox>
    var numBox: int
    var numPicked: int
    var classId: int

    ghost predicate Valid()
      reads this
    {
      && boxArray.Length == MAX_BOXES && pickArray.Length == MAX_BOXES && boxArray != pickArray
      && 0 <= numBox <= MAX_BOXES && 0 <= numPicked <= MAX_BOXES
    }

    /** The raw boxes, `boxArray[0..numBox)`. */
    ghost function Boxes(): seq<BoundingBox>
      reads this, boxArray
      requires Valid()
    {
      boxArray[..numBox]
    }

    /** The representatives, `pickArray[0..numPicked)`. */
    ghost function Picked(): seq<BoundingBox>
      reads this, pickArray
      requires Valid()
    {
      pickArray[..numPicked]
    }

    /** The bucket as a value. */
    ghost function View(): Bucket
      reads this, boxArray, pickArray
      requires Valid()
    {
      Bucket(classId, Boxes(), Picked())
    }

    /** A fresh bucket holds no boxes and no class id yet (-1). */
    constructor ()
      ensures Valid() && fresh(boxArray) && fresh(pickArray)
      ensures numBox == 0 && numPicked == 0 && classId == -1
      ensures View() == Bucket(-1, [], [])
    {
      boxArray := new BoundingBox[MAX_BOXES];
      pickArray := new BoundingBox[MAX_BOXES];
      numBox, numPicked, classId := 0, 0, -1;
    }

    /** The class id; the arrays are in the frame only so that the contract can name the bucket's value. */
    function GetClassId(): (r: int)
      reads this, boxArray, pickArray
      ensures Valid() ==> r == View().classId
    {
      classId
    }

    method SetClassId(id: int)
      requires Valid()
      modifies this
      ensures Valid() && GetClassId() == id
      ensures numBox == old(numBox) && numPicked == old(numPicked)
      ensures View() == old(View()).(classId := id)
    {
      classId := id;
    }

    /**
      Stores `box` at index numBox and bumps numBox; when the bucket is full
      nothing changes and the result is -1.
     */
    method AddBoundingBox(box: BoundingBox) returns (status: int)
      requires Valid()
      modifies this, boxArray
      ensures Valid() && classId == old(classId) && numPicked == old(numPicked)
      ensures (status, View()) == AppendBox(old(View()), box)
      ensures status == 0 ==> numBox == old(numBox) + 1
    {
      if numBox >= MAX_BOXES {
        assert |Boxes()| == numBox;
        return -1;
      }
      ghost var boxes := Boxes();
      boxArray[numBox] := box;
      numBox := numBox + 1;
      assert Boxes() == boxes + [box];
      status := 0;
    }

    /**
      Exchange sort of `boxArray[0..numBox)` into non-increasing score order:
      after round i, position i holds a highest score of positions i and after.
     */
    method SortBoxes()
      requires Valid()
      modifies boxArray
      ensures Valid()
      ensures SortedByScore(Boxes())
      ensures multiset(Boxes()) == multiset(old(Boxes()))
    {
      var n := numBox;
      var i := 0;
      while i < n - 1
        invariant 0 <= i <= n
        invariant multiset(boxArray[..n]) == multiset(old(boxArray[..n]))
        invariant forall p, q :: 0 <= p < i && p < q < n ==> boxArray[q].score <= boxArray[p].score
      {
        var j := i + 1;
        while j < n
          invariant i + 1 <= j <= n
          invariant multiset(boxArray[..n]) == multiset(old(boxArray[..n]))
          invariant forall p, q :: 0 <= p < i && p < q < n ==> boxArray[q].score <= boxArray[p].score
          invariant forall q :: i < q < j ==> boxArray[q].score <= boxArray[i].score
        {
          if Less(boxArray[i], boxArray[j]) {
            Swap(boxArray, i, j, n);
          }
          j := j + 1;
        }
        i := i + 1;
      }
    }

    /**
      The suppression pass: sorts the boxes by score, then picks one
      representative per cluster (PickAll).
     */
    method Go(overlayThreshold: int)
      requires Valid() && numPicked + numBox <= MAX_BOXES
      modifies this, boxArray, pickArray
      ensures Valid() && numBox == old(numBox) && classId == old(classId)
      ensures Suppressed(old(View()), View(), overlayThreshold)
      ensures old(numPicked) < numPicked <= old(numPicked) + numBox || (numBox == 0 && numPicked == old(numPicked))
    {
      SortBoxes();
      PickAll(overlayThreshold);
    }

    /**
      The outer loop of the pass: from each pivot, widens a representative
      by the boxes that follow it (GrowFrom) and appends the representative
      to the picked boxes; the next pivot is the first box not absorbed.
     */
    method PickAll(overlayThreshold: int)
      requires Valid() && numPicked + numBox <= MAX_BOXES
      modifies this, pickArray
      ensures Valid() && numBox == old(numBox) && classId == old(classId)
      ensures Boxes() == old(Boxes())
      ensures Picked() == old(Picked()) + Clusters(Boxes(), MergeTest(overlayThreshold))
    {
      ghost var s := Boxes();
      var merges := MergeTest(overlayThreshold);
      ghost var all := Picked() + Clusters(s, merges);
      var pivot := 0;
      while pivot < numBox
        invariant Valid() && numBox == old(numBox) && classId == old(classId)
        invariant 0 <= pivot <= numBox && numPicked + numBox - pivot <= MAX_BOXES
        invariant Boxes() == s
        invariant all == Picked() + Clusters(s[pivot..], merges)
      {
        ghost var start := pivot;
        var pickedBox;
        pickedBox, pivot := GrowFrom(pivot, merges);
        PickStep(all, Picked(), s, start, pivot, pickedBox, merges);
        Pick(pickedBox);
      }
      assert s[numBox..] == [];
    }

    /** Appends `box` to the picked boxes. */
    method Pick(box: BoundingBox)
      requires Valid() && numPicked < MAX_BOXES
      modifies this, pickArray
      ensures Valid() && numBox == old(numBox) && classId == old(classId) && numPicked == old(numPicked) + 1
      ensures Boxes() == old(Boxes()) && Picked() == old(Picked()) + [box]
    {
      pickArray[numPicked] := box;
      numPicked := numPicked + 1;
      assert Picked() == old(Picked()) + [box];
    }

    /**
      The inner loop of the pass: starting from the box at `start`, widens
      the representative by each following box while `merges` holds between
      the widened box and it; `next` is the first box not absorbed. The pass
      passes the IoU test `MergeTest(overlayThreshold)`.
     */
    method GrowFrom(start: int, merges: (BoundingBox, BoundingBox) -> bool) returns (pickedBox: BoundingBox, next: int)
      requires Valid() && 0 <= start < numBox
      ensures start < next <= numBox
      ensures Absorb(Boxes()[start], Boxes()[start + 1..], merges) == (pickedBox, next - start - 1)
    {
      ghost var s := Boxes();
      ghost var run := Absorb(s[start], s[start + 1..], merges);
      pickedBox := boxArray[start];
      next := start + 1;
      while next < numBox
        invariant start < next <= numBox
        invariant Absorb(pickedBox, s[next..], merges).0 == run.0
        invariant next - start - 1 + Absorb(pickedBox, s[next..], merges).1 == run.1
      {
        assert boxArray[next] == s[next..][0];
        if merges(pickedBox, boxArray[next]) {
          AbsorbTakes(pickedBox, s[next..], merges);
          assert s[next..][1..] == s[next + 1..];
          pickedBox := pickedBox.Union(boxArray[next]);
          next := next + 1;
        } else {
          AbsorbStops(pickedBox, s[next..], merges);
          break;
        }
      }
      AbsorbStops(pickedBox, s[next..], merges);
    }

    /** Hands every representative, in `pickArray` order, to the result callback. */
    method Dump() returns (delivered: seq<BoundingBox>)
      requires Valid()
      ensures delivered == Picked()
    {
      delivered := [];
      for i := 0 to numPicked
        invariant delivered == pickArray[..i]
      {
        delivered := delivered + [pickArray[i]];
      }
    }
  }

  /** Swaps two entries of the first n, which stay a permutation of what they were. */
  method Swap(a: array<BoundingBox>, i: int, j: int, n: int)
    requires 0 <= i < j < n <= a.Length
    modifies a
    ensures a[i] == old(a[j]) && a[j] == old(a[i])
    ensures forall k :: 0 <= k < a.Length && k != i && k != j ==> a[k] == old(a[k])
    ensures multiset(a[..n]) == multiset(old(a[..n]))
  {
    a[i], a[j] := a[j], a[i];
  }

  /** One post-processing session: buckets created in the order class ids are first seen. */
  class NmsPostProcess {
    const imageClass: array<ImageClass>
    var numClasses: int
    ghost var Buckets: seq<Bucket>
    ghost var Repr: set<object>

    /**
      Every bucket object and its two arrays belong to the session, and no
      two buckets share an object.
     */
    ghost predicate Layout()
      reads this, Repr
    {
      && imageClass in Repr && imageClass.Length == MAX_BOXES
      && (forall i :: 0 <= i < MAX_BOXES ==>
            imageClass[i] in Repr && imageClass[i].boxArray in Repr && imageClass[i].pickArray in Repr && imageClass[i].Valid())
      && (forall i, j :: 0 <= i < MAX_BOXES && 0 <= j < MAX_BOXES && i != j ==>
            imageClass[i] != imageClass[j] && imageClass[i].boxArray != imageClass[j].boxArray
            && imageClass[i].boxArray != imageClass[j].pickArray && imageClass[i].pickArray != imageClass[j].pickArray)
    }

    /** The buckets in use hold the abstract buckets; the others are still fresh. */
    ghost predicate Tracks()
      reads this, Repr
      requires Layout()
    {
      && 0 <= numClasses <= MAX_BOXES && |Buckets| == numClasses
      && (forall i :: 0 <= i < numClasses ==> imageClass[i].View() == Buckets[i])
      && (forall i :: numClasses <= i < MAX_BOXES ==> imageClass[i].View() == Bucket(-1, [], []))
    }

    ghost predicate Valid()
      reads this, Repr
    {
      Layout() && Tracks() && SessionInvariant(Buckets)
    }

    /** A fresh session has no buckets in use. */
    constructor ()
      ensures Valid() && fresh(Repr)
      ensures numClasses == 0 && Buckets == []
    {
      var made: seq<ImageClass> := [];
      ghost var objs: set<object> := {};
      while |made| < MAX_BOXES
        invariant |made| <= MAX_BOXES
        invariant fresh(objs)
        invariant forall i :: 0 <= i < |made| ==>
          made[i] in objs && made[i].boxArray in objs && made[i].pickArray in objs
          && made[i].Valid() && made[i].View() == Bucket(-1, [], [])
        invariant forall i, j :: 0 <= i < |made| && 0 <= j < |made| && i != j ==>
          made[i] != made[j] && made[i].boxArray != made[j].boxArray
          && made[i].boxArray != made[j].pickArray && made[i].pickArray != made[j].pickArray
      {
        var c := new ImageClass();
        made := made + [c];
        objs := objs + {c, c.boxArray, c.pickArray};
      }
      imageClass := new ImageClass[MAX_BOXES](i requires 0 <= i < MAX_BOXES => made[i]);
      numClasses := 0;
      Buckets := [];
      Repr := objs + {imageClass};
    }

    /**
      Routes `box` to the bucket of its class id, or opens a bucket at index
      numClasses; -1 when a new class finds all MAX_BOXES buckets in use, or
      when the class's bucket is full.
     */
    method AddBoundingBox(box: BoundingBox) returns (status: int)
      requires Valid()
      modifies this, Repr
      ensures Valid() && Repr == old(Repr)
      ensures (status, Buckets) == Submit(old(Buckets), box)
    {
      var i := Lookup(box.classId);
      if i < numClasses {
        SubmitToKnownClass(Buckets, box, i);
        status := AddToBucket(i, box);
      } else if numClasses >= MAX_BOXES {
        SubmitNewClass(Buckets, box);
        status := -1;
      } else {
        SubmitNewClass(Buckets, box);
        OpenBucket(box);
        status := 0;
      }
    }

    /** Linear search over the buckets in use for class id `id`; numClasses when there is none. */
    method Lookup(id: int) returns (i: int)
      requires Valid()
      ensures i == Find(Buckets, id)
    {
      i := 0;
      while i < numClasses && imageClass[i].GetClassId() != id
        invariant 0 <= i <= numClasses
        invariant forall j :: 0 <= j < i ==> Buckets[j].classId != id
      {
        i := i + 1;
      }
    }

    /** Appends `box` to bucket i, whose class id is the box's. */
    method AddToBucket(i: int, box: BoundingBox) returns (status: int)
      requires Valid() && 0 <= i < numClasses && Buckets[i].classId == box.classId
      modifies this, imageClass[i], imageClass[i].boxArray
      ensures Valid() && Repr == old(Repr)
      ensures (status, Buckets) == (AppendBox(old(Buckets)[i], box).0, old(Buckets)[i := AppendBox(old(Buckets)[i], box).1])
    {
      var bucket := imageClass[i];
      ghost var bs := Buckets;
      status := bucket.AddBoundingBox(box);
      Buckets := Buckets[i := bucket.View()];
      forall j | 0 <= j < MAX_BOXES && j != i
        ensures imageClass[j].Valid() && imageClass[j].View() == old(imageClass[j].View())
      {
        assert unchanged(imageClass[j], imageClass[j].boxArray, imageClass[j].pickArray);
      }
      SubmitToKnownClass(bs, box, i);
      SubmitPreservesInvariant(bs, box);
    }

    /** Opens the first unused bucket for the class of `box`, holding just `box`. */
    method OpenBucket(box: BoundingBox)
      requires Valid() && numClasses < MAX_BOXES
      requires forall j :: 0 <= j < numClasses ==> Buckets[j].classId != box.classId
      modifies this, imageClass[numClasses], imageClass[numClasses].boxArray
      ensures Valid() && Repr == old(Repr)
      ensures Buckets == old(Buckets) + [Bucket(box.classId, [box], [])]
    {
      var i := numClasses;
      var bucket := imageClass[i];
      ghost var bs := Buckets;
      bucket.SetClassId(box.classId);
      var status := bucket.AddBoundingBox(box);
      assert bucket.View() == Bucket(box.classId, [box], []);
      Buckets := Buckets + [bucket.View()];
      numClasses := numClasses + 1;
      forall j | 0 <= j < MAX_BOXES && j != i
        ensures imageClass[j].Valid() && imageClass[j].View() == old(imageClass[j].View())
      {
        assert unchanged(imageClass[j], imageClass[j].boxArray, imageClass[j].pickArray);
      }
      SubmitNewClass(bs, box);
      SubmitPreservesInvariant(bs, box);
    }

    /**
      Runs the suppression pass on every bucket in index order (the order the
      classes were first seen) and delivers each bucket's representatives, in
      order, to the result callback.
     */
    method Go(overlayThreshold: int) returns (delivered: seq<BoundingBox>)
      requires Valid()
      requires forall i :: 0 <= i < |Buckets| ==> HasRoom(Buckets[i])
      modifies this, Repr
      ensures Valid() && Repr == old(Repr) && |Buckets| == |old(Buckets)|
      ensures forall i :: 0 <= i < |Buckets| ==> Suppressed(old(Buckets)[i], Buckets[i], overlayThreshold)
      ensures delivered == Delivered(Buckets)
    {
      delivered := [];
      for i := 0 to numClasses
        invariant Valid() && Repr == old(Repr)
        invariant SuppressedUpTo(old(Buckets), Buckets, i, overlayThreshold)
        invariant delivered == Delivered(Buckets[..i])
      {
        ghost var bs := Buckets;
        var picked := GoBucket(i, overlayThreshold);
        SuppressedUpToStep(old(Buckets), bs, i, Buckets[i], overlayThreshold);
        DeliveredPrefix(Buckets, i);
        delivered := delivered + picked;
      }
      assert Buckets[..numClasses] == Buckets;
    }

    /** The suppression pass on bucket i, then its representatives handed to the callback. */
    method GoBucket(i: int, overlayThreshold: int) returns (picked: seq<BoundingBox>)
      requires Valid() && 0 <= i < numClasses && HasRoom(Buckets[i])
      modifies this, imageClass[i], imageClass[i].boxArray, imageClass[i].pickArray
      ensures Valid() && Repr == old(Repr)
      ensures |Buckets| == |old(Buckets)| && Buckets == old(Buckets)[i := Buckets[i]]
      ensures Suppressed(old(Buckets)[i], Buckets[i], overlayThreshold)
      ensures picked == Buckets[i].picked
    {
      var bucket := imageClass[i];
      bucket.Go(overlayThreshold);
      SuppressPreservesInvariant(Buckets, i, bucket.View(), overlayThreshold);
      Buckets := Buckets[i := bucket.View()];
      forall j | 0 <= j < MAX_BOXES && j != i
        ensures imageClass[j].Valid() && imageClass[j].View() == old(imageClass[j].View())
      {
        assert unchanged(imageClass[j], imageClass[j].boxArray, imageClass[j].pickArray);
      }
      forall j | 0 <= j < numClasses ensures imageClass[j].View() == Buckets[j] {
      }
      picked := bucket.Dump();
    }
  }
}
