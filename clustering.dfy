/**
  The per-class greedy suppression pass, as functions on the score-sorted
  sequence of a class's boxes: the pivot box is widened by each following box
  whose IoU with the widened box is strictly above the threshold, and the
  first box that fails starts the next cluster.
 */
module Clustering {
  import opened Geometry

  /** Scores do not increase along the sequence. */
  predicate SortedByScore(s: seq<BoundingBox>) {
    forall i, j :: 0 <= i < j < |s| ==> s[j].score <= s[i].score
  }

  /**
    The merge test: the IoU is defined and strictly above the threshold. For
    proper boxes a threshold of 100 or more never merges, and at a
    non-negative threshold boxes that share no pixel never merge.
   */
  predicate Merges(rep: BoundingBox, candidate: BoundingBox, threshold: int): (r: bool)
    ensures r ==> rep.IoU(candidate).Some? && rep.IoU(candidate).value > threshold
    ensures rep.WellFormed() && candidate.WellFormed() && threshold >= 100 ==> !r
    ensures rep.WellFormed() && candidate.WellFormed() && threshold >= 0 && rep.OverlapArea(candidate) == 0 ==> !r
  {
    match rep.IoU(candidate)
    case Some(v) => v > threshold
    case None => false
  }

  /** The merge test does not depend on the order of the two boxes. */
  lemma MergesSymmetric(a: BoundingBox, b: BoundingBox, threshold: int)
    ensures Merges(a, b, threshold) == Merges(b, a, threshold)
  {
    IoUSymmetric(a, b);
  }

  /**
    The merge test for one threshold, as the test the greedy pass is
    parameterised by; it is symmetric in the two boxes.
   */
  function MergeTest(threshold: int): (r: (BoundingBox, BoundingBox) -> bool)
    ensures forall a, b :: r(a, b) == r(b, a)
  {
    forall a, b ensures Merges(a, b, threshold) == Merges(b, a, threshold) {
      MergesSymmetric(a, b, threshold);
    }
    (rep, candidate) => Merges(rep, candidate, threshold)
  }

  /**
    The IoU test as the source writes it, with the IoU as written. A box of
    positive written area passes it against itself exactly when the threshold
    is below 100.
   */
  predicate MergesAsWritten(rep: BoundingBox, candidate: BoundingBox, threshold: int): (r: bool)
    ensures r ==> rep.IoUAsWritten(candidate).Some? && rep.IoUAsWritten(candidate).value > threshold
    ensures candidate == rep && rep.Area() > 0 ==> (r <==> threshold < 100)
  {
    assert rep.Area() > 0 ==> rep.IoUAsWritten(rep) == Some(100) by {
      if rep.Area() > 0 {
        IoUAsWrittenSelf(rep);
      }
    }
    match rep.IoUAsWritten(candidate)
    case Some(v) => v > threshold
    case None => false
  }

  /** The test as written does not depend on the order of the two boxes. */
  lemma MergesAsWrittenSymmetric(a: BoundingBox, b: BoundingBox, threshold: int)
    ensures MergesAsWritten(a, b, threshold) == MergesAsWritten(b, a, threshold)
  {
    IoUSymmetric(a, b);
  }

  /**
    The source's test at one threshold, so that `Clusters(s, MergeTestAsWritten(t))`
    is the pass as written; it is symmetric in its two boxes.
   */
  function MergeTestAsWritten(threshold: int): (r: (BoundingBox, BoundingBox) -> bool)
    ensures forall a, b :: r(a, b) == r(b, a)
  {
    forall a, b ensures MergesAsWritten(a, b, threshold) == MergesAsWritten(b, a, threshold) {
      MergesAsWrittenSymmetric(a, b, threshold);
    }
    (rep, candidate) => MergesAsWritten(rep, candidate, threshold)
  }

  /**
    The model's test and the source's test agree on proper boxes at a
    non-negative threshold unless the boxes are apart along both axes.
   */
  lemma MergesAgree(a: BoundingBox, b: BoundingBox, threshold: int)
    requires a.WellFormed() && b.WellFormed() && threshold >= 0
    requires a.Intersect(b).Width() >= 0 || a.Intersect(b).Height() >= 0
    ensures Merges(a, b, threshold) == MergesAsWritten(a, b, threshold)
  {
    IoUAgreesOnOverlap(a, b);
    if !a.Intersect(b).WellFormed() {
      IoUNoOverlap(a, b);
      IoUAsWrittenAtMostZero(a, b);
    }
  }

  /** `rep` widened (`+=`) by every box of `run`, in order. */
  function Widen(rep: BoundingBox, run: seq<BoundingBox>): (r: BoundingBox)
    ensures r.score == rep.score && r.classId == rep.classId
    ensures r.Encloses(rep)
    ensures forall x :: x in run ==> r.Encloses(x)
    decreases |run|
  {
    if run == [] then rep
    else
      var init := run[..|run| - 1];
      assert run == init + [run[|run| - 1]];
      Widen(rep, init).Union(run[|run| - 1])
  }

  /** The widened box is the smallest box around `rep` and the whole run. */
  lemma {:induction false} WidenIsLeast(rep: BoundingBox, run: seq<BoundingBox>, c: BoundingBox)
    requires c.Encloses(rep)
    requires forall x :: x in run ==> c.Encloses(x)
    ensures c.Encloses(Widen(rep, run))
    decreases |run|
  {
    if run != [] {
      var init := run[..|run| - 1];
      assert forall x :: x in init ==> x in run;
      assert run[|run| - 1] in run;
      WidenIsLeast(rep, init, c);
      UnionIsLeast(Widen(rep, init), run[|run| - 1], c);
    }
  }

  /** Widening by a leading box first is widening by the longer run. */
  lemma {:induction false} WidenCons(rep: BoundingBox, x: BoundingBox, run: seq<BoundingBox>)
    ensures Widen(rep.Union(x), run) == Widen(rep, [x] + run)
    decreases |run|
  {
    if run != [] {
      var init := run[..|run| - 1];
      WidenCons(rep, x, init);
      assert ([x] + run)[..|[x] + run| - 1] == [x] + init;
    }
  }

  /**
    One greedy cluster: starting from `rep`, absorb leading boxes of `s`
    while each passes the merge test against the box widened so far. Returns
    the widened box and how many boxes were absorbed.
   */
  function Absorb(rep: BoundingBox, s: seq<BoundingBox>, merges: (BoundingBox, BoundingBox) -> bool): (r: (BoundingBox, nat))
    ensures r.1 <= |s|
    decreases |s|
  {
    if s == [] || !merges(rep, s[0]) then (rep, 0)
    else
      var next := Absorb(rep.Union(s[0]), s[1..], merges);
      (next.0, next.1 + 1)
  }

  /** The representative Absorb returns is `rep` widened by the absorbed prefix. */
  lemma {:induction false} AbsorbWidens(rep: BoundingBox, s: seq<BoundingBox>, merges: (BoundingBox, BoundingBox) -> bool)
    ensures Absorb(rep, s, merges).0 == Widen(rep, s[..Absorb(rep, s, merges).1])
    decreases |s|
  {
    if s != [] && merges(rep, s[0]) {
      var rest := s[1..];
      var k := Absorb(rep.Union(s[0]), rest, merges).1;
      AbsorbWidens(rep.Union(s[0]), rest, merges);
      WidenCons(rep, s[0], rest[..k]);
      assert [s[0]] + rest[..k] == s[..k + 1];
    } else {
      assert s[..0] == [];
    }
  }

  /** Every absorbed box passed the test against `rep` widened by the boxes before it. */
  lemma {:induction false} AbsorbPassed(rep: BoundingBox, s: seq<BoundingBox>, merges: (BoundingBox, BoundingBox) -> bool)
    ensures forall j :: 0 <= j < Absorb(rep, s, merges).1 ==> merges(Widen(rep, s[..j]), s[j])
    decreases |s|
  {
    if s != [] && merges(rep, s[0]) {
      var rest := s[1..];
      var k := Absorb(rep.Union(s[0]), rest, merges).1;
      AbsorbPassed(rep.Union(s[0]), rest, merges);
      forall j | 0 <= j < k + 1
        ensures merges(Widen(rep, s[..j]), s[j])
      {
        if j == 0 {
          assert s[..0] == [];
        } else {
          WidenCons(rep, s[0], rest[..j - 1]);
          assert [s[0]] + rest[..j - 1] == s[..j];
        }
      }
    }
  }

  /** The box right after the absorbed prefix, if any, fails the test against the result. */
  lemma {:induction false} AbsorbStopsAtFailure(rep: BoundingBox, s: seq<BoundingBox>, merges: (BoundingBox, BoundingBox) -> bool)
    ensures Absorb(rep, s, merges).1 < |s| ==> !merges(Absorb(rep, s, merges).0, s[Absorb(rep, s, merges).1])
    decreases |s|
  {
    if s != [] && merges(rep, s[0]) {
      AbsorbStopsAtFailure(rep.Union(s[0]), s[1..], merges);
    }
  }

  /**
    Absorb takes exactly the longest prefix in which every box passes the
    strict merge test against the representative widened by the boxes before
    it; the box right after that prefix fails the test.
   */
  lemma AbsorbIsGreedy(rep: BoundingBox, s: seq<BoundingBox>, merges: (BoundingBox, BoundingBox) -> bool)
    ensures Absorb(rep, s, merges).0 == Widen(rep, s[..Absorb(rep, s, merges).1])
    ensures forall j :: 0 <= j < Absorb(rep, s, merges).1 ==> merges(Widen(rep, s[..j]), s[j])
    ensures Absorb(rep, s, merges).1 < |s| ==> !merges(Absorb(rep, s, merges).0, s[Absorb(rep, s, merges).1])
  {
    AbsorbWidens(rep, s, merges);
    AbsorbPassed(rep, s, merges);
    AbsorbStopsAtFailure(rep, s, merges);
  }

  /** One box more in the run: a box that passes the test is absorbed and Absorb moves on. */
  lemma AbsorbTakes(rep: BoundingBox, s: seq<BoundingBox>, merges: (BoundingBox, BoundingBox) -> bool)
    requires s != [] && merges(rep, s[0])
    ensures Absorb(rep, s, merges)
         == (Absorb(rep.Union(s[0]), s[1..], merges).0, Absorb(rep.Union(s[0]), s[1..], merges).1 + 1)
  {
  }

  /** The end of a run: no box left, or the next box fails the test. */
  lemma AbsorbStops(rep: BoundingBox, s: seq<BoundingBox>, merges: (BoundingBox, BoundingBox) -> bool)
    requires s == [] || !merges(rep, s[0])
    ensures Absorb(rep, s, merges) == (rep, 0)
  {
  }

  /**
    One step of the pass: when the pivot at `start` absorbs up to `next`,
    its representative is the first cluster and the pass resumes at `next`.
   */
  lemma ClustersFrom(s: seq<BoundingBox>, start: int, next: int, rep: BoundingBox, merges: (BoundingBox, BoundingBox) -> bool)
    requires 0 <= start < next <= |s|
    requires Absorb(s[start], s[start + 1..], merges) == (rep, next - start - 1)
    ensures Clusters(s[start..], merges) == [rep] + Clusters(s[next..], merges)
  {
    var t := s[start..];
    assert t[0] == s[start] && t[1..] == s[start + 1..];
    assert t[1 + (next - start - 1)..] == s[next..];
  }

  /**
    The loop invariant of the pass, carried across one pivot: the picked
    representatives grow by the pivot's representative while the clusters
    left to emit lose it.
   */
  lemma PickStep(all: seq<BoundingBox>, picked: seq<BoundingBox>, s: seq<BoundingBox>, start: int, next: int,
                 rep: BoundingBox, merges: (BoundingBox, BoundingBox) -> bool)
    requires 0 <= start < next <= |s|
    requires Absorb(s[start], s[start + 1..], merges) == (rep, next - start - 1)
    requires all == picked + Clusters(s[start..], merges)
    ensures all == (picked + [rep]) + Clusters(s[next..], merges)
  {
    ClustersFrom(s, start, next, rep, merges);
  }

  /** The representatives the greedy pass emits, in emission order. */
  function Clusters(s: seq<BoundingBox>, merges: (BoundingBox, BoundingBox) -> bool): (r: seq<BoundingBox>)
    ensures |r| <= |s|
    ensures |r| == 0 <==> |s| == 0
    decreases |s|
  {
    if s == [] then []
    else
      var k := Absorb(s[0], s[1..], merges).1;
      [Absorb(s[0], s[1..], merges).0] + Clusters(s[1 + k..], merges)
  }

  /** The boxes each representative absorbed (its pivot first), in emission order. */
  function Runs(s: seq<BoundingBox>, merges: (BoundingBox, BoundingBox) -> bool): seq<seq<BoundingBox>>
    decreases |s|
  {
    if s == [] then []
    else
      var k := Absorb(s[0], s[1..], merges).1;
      [s[..1 + k]] + Runs(s[1 + k..], merges)
  }

  function Concat<T>(rs: seq<seq<T>>): seq<T> {
    if rs == [] then [] else rs[0] + Concat(rs[1..])
  }

  /**
    The runs partition the sorted boxes into non-empty contiguous pieces,
    one per representative: every box is absorbed into exactly one cluster.
   */
  lemma {:induction false} RunsPartition(s: seq<BoundingBox>, merges: (BoundingBox, BoundingBox) -> bool)
    ensures Concat(Runs(s, merges)) == s
    ensures |Runs(s, merges)| == |Clusters(s, merges)|
    ensures forall i :: 0 <= i < |Runs(s, merges)| ==> |Runs(s, merges)[i]| >= 1
    decreases |s|
  {
    if s != [] {
      var k := Absorb(s[0], s[1..], merges).1;
      RunsPartition(s[1 + k..], merges);
      assert s == s[..1 + k] + s[1 + k..];
    }
  }

  /**
    Each representative is its run's pivot widened by the rest of the run, so
    it keeps the pivot's score and class id and encloses every absorbed box.
   */
  lemma {:induction false} ClustersAreWidenedRuns(s: seq<BoundingBox>, merges: (BoundingBox, BoundingBox) -> bool)
    ensures |Runs(s, merges)| == |Clusters(s, merges)|
    ensures forall i :: 0 <= i < |Clusters(s, merges)| ==>
      |Runs(s, merges)[i]| >= 1 &&
      Clusters(s, merges)[i] == Widen(Runs(s, merges)[i][0], Runs(s, merges)[i][1..])
    decreases |s|
  {
    RunsPartition(s, merges);
    if s != [] {
      var k := Absorb(s[0], s[1..], merges).1;
      AbsorbIsGreedy(s[0], s[1..], merges);
      assert s[..1 + k][1..] == s[1..][..k];
      ClustersAreWidenedRuns(s[1 + k..], merges);
    }
  }

  /**
    Each representative keeps its pivot's score and class id and encloses
    every box of its run.
   */
  lemma ClustersEncloseRuns(s: seq<BoundingBox>, merges: (BoundingBox, BoundingBox) -> bool)
    ensures |Runs(s, merges)| == |Clusters(s, merges)|
    ensures forall i :: 0 <= i < |Clusters(s, merges)| ==>
      |Runs(s, merges)[i]| >= 1 &&
      Clusters(s, merges)[i].score == Runs(s, merges)[i][0].score &&
      Clusters(s, merges)[i].classId == Runs(s, merges)[i][0].classId
    ensures forall i, x :: 0 <= i < |Clusters(s, merges)| && x in Runs(s, merges)[i] ==> Clusters(s, merges)[i].Encloses(x)
  {
    ClustersAreWidenedRuns(s, merges);
    var rs, cs := Runs(s, merges), Clusters(s, merges);
    forall i, x | 0 <= i < |cs| && x in rs[i] ensures cs[i].Encloses(x) {
      if x != rs[i][0] {
        assert rs[i] == [rs[i][0]] + rs[i][1..];
        assert x in rs[i][1..];
      }
    }
  }

  /** The first run: each of its boxes passed the test against the representative widened so far. */
  lemma FirstRunAbsorbs(s: seq<BoundingBox>, merges: (BoundingBox, BoundingBox) -> bool)
    requires s != []
    ensures |Runs(s, merges)| >= 1
    ensures forall j :: 1 <= j < |Runs(s, merges)[0]| ==>
      merges(Widen(Runs(s, merges)[0][0], Runs(s, merges)[0][1..j]), Runs(s, merges)[0][j])
  {
    var t := s[1..];
    var k := Absorb(s[0], t, merges).1;
    AbsorbPassed(s[0], t, merges);
    var run := s[..1 + k];
    assert Runs(s, merges)[0] == run;
    forall j | 1 <= j < |run|
      ensures merges(Widen(run[0], run[1..j]), run[j])
    {
      assert run[0] == s[0] && run[j] == t[j - 1];
      assert run[1..j] == t[..j - 1];
    }
  }

  /** The pivot of the second run failed the test against the first representative. */
  lemma FirstRunStops(s: seq<BoundingBox>, merges: (BoundingBox, BoundingBox) -> bool)
    requires |Runs(s, merges)| >= 2
    ensures |Runs(s, merges)[1]| >= 1
    ensures !merges(Clusters(s, merges)[0], Runs(s, merges)[1][0])
  {
    var k := Absorb(s[0], s[1..], merges).1;
    var tail := s[1 + k..];
    AbsorbIsGreedy(s[0], s[1..], merges);
    RunsPartition(tail, merges);
    assert Runs(s, merges)[1..] == Runs(tail, merges);
    assert Runs(tail, merges)[0][0] == tail[0] == s[1..][k];
  }

  /**
    Inside a run every box passed the strict test against the representative
    widened by the run's earlier boxes, and the pivot of each following run
    failed it against the finished representative before it.
   */
  lemma {:induction false} RunsAreGreedy(s: seq<BoundingBox>, merges: (BoundingBox, BoundingBox) -> bool)
    ensures |Runs(s, merges)| == |Clusters(s, merges)|
    ensures forall i, j :: 0 <= i < |Runs(s, merges)| && 1 <= j < |Runs(s, merges)[i]| ==>
      merges(Widen(Runs(s, merges)[i][0], Runs(s, merges)[i][1..j]), Runs(s, merges)[i][j])
    ensures forall i :: 0 <= i < |Runs(s, merges)| - 1 ==>
      |Runs(s, merges)[i + 1]| >= 1 &&
      !merges(Clusters(s, merges)[i], Runs(s, merges)[i + 1][0])
    decreases |s|
  {
    RunsPartition(s, merges);
    if s != [] {
      var k := Absorb(s[0], s[1..], merges).1;
      var tail := s[1 + k..];
      var rs, cs := Runs(s, merges), Clusters(s, merges);
      assert rs[1..] == Runs(tail, merges) && cs[1..] == Clusters(tail, merges);
      RunsAreGreedy(tail, merges);
      FirstRunAbsorbs(s, merges);
      if |rs| >= 2 {
        FirstRunStops(s, merges);
      }
      forall i, j | 0 < i < |rs| && 1 <= j < |rs[i]|
        ensures merges(Widen(rs[i][0], rs[i][1..j]), rs[i][j])
      {
        assert rs[i] == Runs(tail, merges)[i - 1];
      }
      forall i | 0 < i < |rs| - 1
        ensures |rs[i + 1]| >= 1 && !merges(cs[i], rs[i + 1][0])
      {
        assert rs[i + 1] == Runs(tail, merges)[i] && cs[i] == Clusters(tail, merges)[i - 1];
      }
    }
  }

  /** On score-sorted input the representatives' scores do not increase, and the first is the top score. */
  lemma {:induction false} ClustersSorted(s: seq<BoundingBox>, merges: (BoundingBox, BoundingBox) -> bool)
    requires SortedByScore(s)
    ensures SortedByScore(Clusters(s, merges))
    ensures s != [] ==> Clusters(s, merges)[0].score == s[0].score
    decreases |s|
  {
    if s != [] {
      var k := Absorb(s[0], s[1..], merges).1;
      var tail := s[1 + k..];
      AbsorbIsGreedy(s[0], s[1..], merges);
      assert SortedByScore(tail);
      ClustersSorted(tail, merges);
      var c := Clusters(s, merges);
      var ct := Clusters(tail, merges);
      assert c == [c[0]] + ct;
      if tail != [] {
        forall j | 0 <= j < |ct| ensures ct[j].score <= c[0].score {
          assert ct[j].score <= ct[0].score;
        }
      }
    }
  }

  /** Boxes of one class give representatives of that class only. */
  lemma {:induction false} ClustersKeepClass(s: seq<BoundingBox>, merges: (BoundingBox, BoundingBox) -> bool, classId: int)
    requires forall b :: b in s ==> b.classId == classId
    ensures forall c :: c in Clusters(s, merges) ==> c.classId == classId
    decreases |s|
  {
    if s != [] {
      var k := Absorb(s[0], s[1..], merges).1;
      AbsorbIsGreedy(s[0], s[1..], merges);
      var tail := s[1 + k..];
      assert forall b :: b in tail ==> b in s;
      ClustersKeepClass(tail, merges, classId);
    }
  }

  /** Two boxes merge into the first one's union with the second exactly when they pass the test. */
  lemma PairClustersWith(a: BoundingBox, b: BoundingBox, merges: (BoundingBox, BoundingBox) -> bool)
    ensures merges(a, b) ==> Clusters([a, b], merges) == [a.Union(b)]
    ensures !merges(a, b) ==> Clusters([a, b], merges) == [a, b]
  {
    var s := [a, b];
    assert s[1..] == [b];
    assert [b][1..] == [];
    if merges(a, b) {
      assert Absorb(a, [b], merges) == (a.Union(b), 1);
      assert s[2..] == [];
    } else {
      assert Absorb(a, [b], merges) == (a, 0);
      assert Absorb(b, [], merges) == (b, 0);
    }
  }

  /** Two boxes merge exactly when their IoU is defined and strictly above the threshold. */
  lemma PairClusters(a: BoundingBox, b: BoundingBox, threshold: int)
    ensures (a.IoU(b).Some? && a.IoU(b).value > threshold) ==> Clusters([a, b], MergeTest(threshold)) == [a.Union(b)]
    ensures !(a.IoU(b).Some? && a.IoU(b).value > threshold) ==> Clusters([a, b], MergeTest(threshold)) == [a, b]
  {
    PairClustersWith(a, b, MergeTest(threshold));
  }

  /** An IoU equal to the threshold does not merge; one above it does. */
  lemma ThresholdIsStrict(a: BoundingBox, b: BoundingBox, threshold: int)
    requires a.IoU(b) == Some(threshold)
    ensures Clusters([a, b], MergeTest(threshold)) == [a, b]
    ensures Clusters([a, b], MergeTest(threshold - 1)) == [a.Union(b)]
  {
    PairClusters(a, b, threshold);
    PairClusters(a, b, threshold - 1);
  }

  /**
    Clustering is local to contiguous runs: a box identical to the first one
    is not merged into it once a disjoint box lies between them in score order.
   */
  lemma NotAGlobalMerge()
    ensures Clusters([BoundingBox(0, 0, 9, 9, 90, 1), BoundingBox(50, 50, 59, 59, 80, 1), BoundingBox(0, 0, 9, 9, 70, 1)], MergeTest(50))
         == [BoundingBox(0, 0, 9, 9, 90, 1), BoundingBox(50, 50, 59, 59, 80, 1), BoundingBox(0, 0, 9, 9, 70, 1)]
  {
    var a, b, c := BoundingBox(0, 0, 9, 9, 90, 1), BoundingBox(50, 50, 59, 59, 80, 1), BoundingBox(0, 0, 9, 9, 70, 1);
    IoUDisjoint(a, b);
    IoUDisjoint(b, c);
    var s := [a, b, c];
    assert s[1..] == [b, c];
    assert Absorb(a, [b, c], MergeTest(50)) == (a, 0);
    assert s[1..][1..] == [c];
    assert Absorb(b, [c], MergeTest(50)) == (b, 0);
    assert [c][1..] == [];
    assert Absorb(c, [], MergeTest(50)) == (c, 0);
  }

  /**
    The source's pass merges two proper boxes that share no pixel, because
    its IoU rates them at 200; the model's pass keeps both.
   */
  lemma AsWrittenMergesDisjoint()
    ensures Clusters([BoundingBox(0, 0, 0, 0, 90, 1), BoundingBox(3, 3, 7, 3, 80, 1)], MergeTestAsWritten(50))
      == [BoundingBox(0, 0, 7, 3, 90, 1)]
    ensures Clusters([BoundingBox(0, 0, 0, 0, 90, 1), BoundingBox(3, 3, 7, 3, 80, 1)], MergeTest(50))
      == [BoundingBox(0, 0, 0, 0, 90, 1), BoundingBox(3, 3, 7, 3, 80, 1)]
  {
    var a, c := BoundingBox(0, 0, 0, 0, 90, 1), BoundingBox(3, 3, 7, 3, 80, 1);
    AsWrittenExceedsHundred();
    PairClustersWith(a, c, MergeTestAsWritten(50));
    PairClusters(a, c, 50);
  }

  /**
    An inverted box (5,5)-(0,0) has area 16 as written, so the source rates
    its IoU with a copy of itself at 100 and merges the copy; the corrected
    IoU of an inverted box is 0, so the model's pass keeps both.
   */
  lemma AsWrittenMergesInverted()
    ensures BoundingBox(5, 5, 0, 0, 90, 1).IoUAsWritten(BoundingBox(5, 5, 0, 0, 80, 1)) == Some(100)
    ensures BoundingBox(5, 5, 0, 0, 90, 1).IoU(BoundingBox(5, 5, 0, 0, 80, 1)) == Some(0)
    ensures Clusters([BoundingBox(5, 5, 0, 0, 90, 1), BoundingBox(5, 5, 0, 0, 80, 1)], MergeTestAsWritten(50))
      == [BoundingBox(5, 5, 0, 0, 90, 1)]
    ensures Clusters([BoundingBox(5, 5, 0, 0, 90, 1), BoundingBox(5, 5, 0, 0, 80, 1)], MergeTest(50))
      == [BoundingBox(5, 5, 0, 0, 90, 1), BoundingBox(5, 5, 0, 0, 80, 1)]
  {
    var d, e := BoundingBox(5, 5, 0, 0, 90, 1), BoundingBox(5, 5, 0, 0, 80, 1);
    var inter := d.Intersect(e);
    assert inter == d;
    assert d.Area() == 16 && e.Area() == 16;
    assert d.AsWrittenDenominator(e) == 16;
    assert TruncDiv(1600, 16) == 100;
    assert d.Denominator(e) == 32;
    assert d.Union(e) == d;
    PairClustersWith(d, e, MergeTestAsWritten(50));
    PairClusters(d, e, 50);
  }
}
