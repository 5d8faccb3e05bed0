/**
  Box geometry of the NMS post-processor: integer bounding boxes with
  inclusive pixel bounds, their intersection and union, the pixel-inclusive
  area, the integer-percentage IoU, and the score ordering.
 */
module Geometry {

  datatype Option<T> = None | Some(value: T)

  function Min(a: int, b: int): int { if a < b then a else b }
  function Max(a: int, b: int): int { if a < b then b else a }
  function Abs(a: int): nat { if a < 0 then -a else a }

  /** C++ integer division: the quotient is truncated toward zero. */
  function TruncDiv(n: int, d: int): (q: int)
    requires d != 0
    ensures Abs(q) == Abs(n) / Abs(d)
    ensures (n < 0) == (d < 0) ==> q >= 0
    ensures (n < 0) != (d < 0) ==> q <= 0
    ensures 0 <= n && 0 < d ==> q == n / d
  {
    var m := Abs(n) / Abs(d);
    DivNonNegative(Abs(n), Abs(d));
    if (n < 0) == (d < 0) then m else -m
  }

  /** One detection: inclusive pixel bounds, a confidence score and a class id. */
  datatype BoundingBox = BoundingBox(minX: int, minY: int, maxX: int, maxY: int, score: int, classId: int)
  {
    /** The bounds are not inverted in either dimension. */
    predicate WellFormed() {
      minX <= maxX && minY <= maxY
    }

    /** Every pixel of `inner` lies inside this box (bounds only). */
    predicate Encloses(inner: BoundingBox) {
      minX <= inner.minX && inner.maxX <= maxX && minY <= inner.minY && inner.maxY <= maxY
    }

    function Width(): int { maxX - minX + 1 }
    function Height(): int { maxY - minY + 1 }

    /** Pixel-inclusive area. */
    function Area(): (r: int)
      ensures WellFormed() ==> r >= 1
    {
      PositiveProduct(Width(), Height());
      Width() * Height()
    }

    /** `*=`: the receiver narrowed to the overlap with `input`; score and class id are the receiver's. */
    function Intersect(input: BoundingBox): (r: BoundingBox)
      ensures Encloses(r) && input.Encloses(r)
      ensures r.score == score && r.classId == classId
    {
      BoundingBox(Max(minX, input.minX), Max(minY, input.minY),
                  Min(maxX, input.maxX), Min(maxY, input.maxY), score, classId)
    }

    /** `+=`: the receiver widened to cover `input`; score and class id are the receiver's. */
    function Union(input: BoundingBox): (r: BoundingBox)
      ensures r.Encloses(this) && r.Encloses(input)
      ensures r.score == score && r.classId == classId
    {
      BoundingBox(Min(minX, input.minX), Min(minY, input.minY),
                  Max(maxX, input.maxX), Max(maxY, input.maxY), score, classId)
    }

    /** The denominator of the IoU as the source writes it. */
    function AsWrittenDenominator(input: BoundingBox): int {
      Area() + input.Area() - Intersect(input).Area()
    }

    /**
      IoU exactly as the source computes it: the intersection area is the
      inclusive-area formula applied to the (possibly inverted) intersection
      box. None stands for the division by zero the source would perform.
     */
    function IoUAsWritten(input: BoundingBox): (r: Option<int>)
      ensures r.None? <==> AsWrittenDenominator(input) == 0
    {
      var d := AsWrittenDenominator(input);
      if d == 0 then None else Some(Percent(Intersect(input).Area(), d))
    }

    /**
      Overlap area: the number of pixels the two boxes share. It is zero exactly when one box is inverted or the boxes are apart along an
      axis, and for proper boxes at most either area.
     */
    function OverlapArea(input: BoundingBox): (r: int)
      ensures Intersect(input).WellFormed() ==> r == Intersect(input).Area()
      ensures !Intersect(input).WellFormed() ==> r == 0
      ensures r >= 0
      ensures r == 0 <==>
        !WellFormed() || !input.WellFormed() ||
        maxX < input.minX || input.maxX < minX || maxY < input.minY || input.maxY < minY
      ensures WellFormed() && input.WellFormed() ==> r <= Area() && r <= input.Area()
    {
      var inter := Intersect(input);
      if inter.WellFormed() then
        MulMono(inter.Width(), inter.Height(), Width(), Height());
        MulMono(inter.Width(), inter.Height(), input.Width(), input.Height());
        inter.Area()
      else 0
    }

    /** Area of the union of the two boxes' pixels. */
    function Denominator(input: BoundingBox): int {
      Area() + input.Area() - OverlapArea(input)
    }

    /**
      IoU as an integer percentage, truncated; None when the denominator is
      zero (the source divides by zero there).
     */
    function IoU(input: BoundingBox): (r: Option<int>)
      ensures r.None? <==> Denominator(input) == 0
      ensures WellFormed() && input.WellFormed() ==> r.Some? && 0 <= r.value <= 100
    {
      OverlapWithinAreas(this, input);
      var d := Denominator(input);
      if d == 0 then None else Some(Percent(OverlapArea(input), d))
    }
  }

  /** The integer percentage `n * 100 / d`, truncated toward zero. */
  function Percent(n: int, d: int): (r: int)
    requires d != 0
    ensures 0 <= n <= d ==> 0 <= r <= 100
    ensures 0 < n == d ==> r == 100
  {
    PercentBounds(n, d);
    TruncDiv(n * 100, d)
  }

  lemma PercentBounds(n: int, d: int)
    requires d != 0
    ensures 0 <= n <= d ==> 0 <= TruncDiv(n * 100, d) <= 100
    ensures 0 < n == d ==> TruncDiv(n * 100, d) == 100
  {
    if 0 <= n <= d {
      DivAtMost(n * 100, d, 100);
    }
    if 0 < n == d {
      DivExact(100, d);
    }
  }

  /** `operator<`: boxes are ordered by score alone. */
  predicate Less(a: BoundingBox, b: BoundingBox): (r: bool)
    ensures r ==> a != b
    ensures a.score == b.score ==> !r
  {
    a.score < b.score
  }

  lemma DivNonNegative(n: int, d: int)
    requires n >= 0 && d > 0
    ensures n / d >= 0
  {
  }

  lemma DivAtMost(n: int, d: int, k: int)
    requires 0 <= n <= k * d && d > 0
    ensures n / d <= k
  {
  }

  lemma DivExact(k: int, d: int)
    requires d > 0
    ensures (k * d) / d == k
  {
    var q, m := (k * d) / d, (k * d) % d;
    assert k * d == q * d + m;
    assert (k - q) * d == m;
    if k - q >= 1 {
      MulMono(1, d, k - q, d);
    } else if k - q <= -1 {
      MulMono(1, d, q - k, d);
    }
  }

  lemma PositiveProduct(a: int, b: int)
    ensures a >= 1 && b >= 1 ==> a * b >= 1
  {
    if a >= 1 && b >= 1 {
      MulMono(1, 1, a, b);
    }
  }

  lemma MulMono(a: int, b: int, c: int, d: int)
    requires 0 <= a <= c && 0 <= b <= d
    ensures a * b <= c * d
  {
    assert a * b <= c * b by {
      assert (c - a) * b >= 0;
    }
    assert c * b <= c * d by {
      assert c * (d - b) >= 0;
    }
  }

  /** For well-formed boxes the overlap is at most either area and the denominator is positive. */
  lemma OverlapWithinAreas(a: BoundingBox, b: BoundingBox)
    ensures a.WellFormed() && b.WellFormed() ==>
      0 <= a.OverlapArea(b) <= a.Area() && a.OverlapArea(b) <= b.Area() &&
      a.OverlapArea(b) <= a.Denominator(b) && a.Denominator(b) >= 1
  {
    var inter := a.Intersect(b);
    if a.WellFormed() && b.WellFormed() && inter.WellFormed() {
      MulMono(inter.Width(), inter.Height(), a.Width(), a.Height());
      MulMono(inter.Width(), inter.Height(), b.Width(), b.Height());
    }
  }

  /** The overlap and the IoU do not depend on the order of the arguments. */
  lemma IoUSymmetric(a: BoundingBox, b: BoundingBox)
    ensures a.OverlapArea(b) == b.OverlapArea(a)
    ensures a.IoU(b) == b.IoU(a)
    ensures a.IoUAsWritten(b) == b.IoUAsWritten(a)
  {
    assert a.Intersect(b).Area() == b.Intersect(a).Area();
    assert a.Intersect(b).WellFormed() == b.Intersect(a).WellFormed();
  }

  /** Where the boxes share a pixel, the corrected IoU is the IoU as written. */
  lemma IoUAgreesOnOverlap(a: BoundingBox, b: BoundingBox)
    ensures a.Intersect(b).WellFormed() ==> a.IoU(b) == a.IoUAsWritten(b)
  {
  }

  /** Proper boxes that share no pixel have clipped IoU 0. */
  lemma IoUNoOverlap(a: BoundingBox, b: BoundingBox)
    requires a.WellFormed() && b.WellFormed() && !a.Intersect(b).WellFormed()
    ensures a.IoU(b) == Some(0)
  {
    OverlapWithinAreas(a, b);
  }

  /**
    For proper boxes that share no pixel but whose intersection is not
    inverted on both axes, the IoU as written is defined and never positive:
    the written intersection area is then at most 0.
   */
  lemma IoUAsWrittenAtMostZero(a: BoundingBox, b: BoundingBox)
    requires a.WellFormed() && b.WellFormed() && !a.Intersect(b).WellFormed()
    requires a.Intersect(b).Width() >= 0 || a.Intersect(b).Height() >= 0
    ensures a.IoUAsWritten(b).Some? && a.IoUAsWritten(b).value <= 0
  {
    var inter := a.Intersect(b);
    ProductNonPositive(inter.Width(), inter.Height());
    PercentNonPositive(inter.Area(), a.AsWrittenDenominator(b));
  }

  lemma ProductNonPositive(w: int, h: int)
    requires w >= 0 || h >= 0
    requires w < 1 || h < 1
    ensures w * h <= 0
  {
    if w >= 0 && h <= 0 {
      MulMono(w, 0, w, -h);
    } else {
      MulMono(h, 0, h, -w);
    }
  }

  lemma PercentNonPositive(n: int, d: int)
    requires n <= 0 && d > 0
    ensures Percent(n, d) <= 0
  {
  }

  /** A well-formed box overlaps itself completely. */
  lemma IoUSelf(a: BoundingBox)
    requires a.WellFormed()
    ensures a.IoU(a) == Some(100)
  {
    assert a.Intersect(a) == a;
    assert a.OverlapArea(a) == a.Area() == a.Denominator(a);
  }

  /** As written, any box of positive area overlaps itself completely. */
  lemma IoUAsWrittenSelf(a: BoundingBox)
    requires a.Area() > 0
    ensures a.IoUAsWritten(a) == Some(100)
  {
    assert a.Intersect(a) == a;
    assert a.AsWrittenDenominator(a) == a.Area();
  }

  /** Well-formed boxes that share no pixel have IoU 0. */
  lemma IoUDisjoint(a: BoundingBox, b: BoundingBox)
    requires a.WellFormed() && b.WellFormed()
    requires a.maxX < b.minX || b.maxX < a.minX || a.maxY < b.minY || b.maxY < a.minY
    ensures a.IoU(b) == Some(0)
  {
    OverlapWithinAreas(a, b);
    assert !a.Intersect(b).WellFormed();
  }

  /** The source's IoU divides by zero on two well-formed, disjoint boxes. */
  lemma AsWrittenDividesByZero()
    ensures BoundingBox(0, 0, 0, 0, 90, 1).IoUAsWritten(BoundingBox(3, 3, 5, 3, 80, 1)) == None
    ensures BoundingBox(0, 0, 0, 0, 90, 1).IoU(BoundingBox(3, 3, 5, 3, 80, 1)) == Some(0)
  {
    var a, b := BoundingBox(0, 0, 0, 0, 90, 1), BoundingBox(3, 3, 5, 3, 80, 1);
    IoUDisjoint(a, b);
    var inter := a.Intersect(b);
    assert inter == BoundingBox(3, 3, 0, 0, 90, 1);
    assert inter.Width() == -2 && inter.Height() == -2;
    assert a.Area() == 1 && b.Area() == 3 && inter.Area() == 4;
  }

  /** The source's IoU rates two well-formed, disjoint boxes at 200 percent. */
  lemma AsWrittenExceedsHundred()
    ensures BoundingBox(0, 0, 0, 0, 90, 1).IoUAsWritten(BoundingBox(3, 3, 7, 3, 80, 1)) == Some(200)
    ensures BoundingBox(0, 0, 0, 0, 90, 1).IoU(BoundingBox(3, 3, 7, 3, 80, 1)) == Some(0)
  {
    var a, c := BoundingBox(0, 0, 0, 0, 90, 1), BoundingBox(3, 3, 7, 3, 80, 1);
    IoUDisjoint(a, c);
    var inter := a.Intersect(c);
    assert inter == BoundingBox(3, 3, 0, 0, 90, 1);
    assert inter.Width() == -2 && inter.Height() == -2;
    assert a.Area() == 1 && c.Area() == 5 && inter.Area() == 4;
    assert a.AsWrittenDenominator(c) == 2;
    assert TruncDiv(400, 2) == 200;
  }

  /** Two one-pixel boxes one empty pixel apart on both axes overlap completely as written. */
  lemma AsWrittenDiagonalGap()
    ensures BoundingBox(0, 0, 0, 0, 90, 1).IoUAsWritten(BoundingBox(2, 2, 2, 2, 80, 1)) == Some(100)
    ensures BoundingBox(0, 0, 0, 0, 90, 1).IoU(BoundingBox(2, 2, 2, 2, 80, 1)) == Some(0)
  {
    var a, b := BoundingBox(0, 0, 0, 0, 90, 1), BoundingBox(2, 2, 2, 2, 80, 1);
    IoUDisjoint(a, b);
    var inter := a.Intersect(b);
    assert inter == BoundingBox(2, 2, 0, 0, 90, 1);
    assert a.Area() == 1 && b.Area() == 1 && inter.Area() == 1;
    assert a.AsWrittenDenominator(b) == 1;
    assert TruncDiv(100, 1) == 100;
  }

  /** `*=` yields the largest box inside both operands. */
  lemma IntersectIsGreatest(a: BoundingBox, b: BoundingBox, c: BoundingBox)
    requires a.Encloses(c) && b.Encloses(c)
    ensures a.Intersect(b).Encloses(c)
  {
  }

  /** `+=` yields the smallest box around both operands. */
  lemma UnionIsLeast(a: BoundingBox, b: BoundingBox, c: BoundingBox)
    requires c.Encloses(a) && c.Encloses(b)
    ensures c.Encloses(a.Union(b))
  {
  }

  /** The score order is a strict weak order whose ties are exactly the equal scores. */
  lemma LessIsStrictWeakOrder(a: BoundingBox, b: BoundingBox, c: BoundingBox)
    ensures !Less(a, a)
    ensures Less(a, b) && Less(b, c) ==> Less(a, c)
    ensures !Less(a, b) && !Less(b, a) <==> a.score == b.score
  {
  }
}
