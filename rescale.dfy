/**
 * Rescaling of predicted cell boxes from the model's fixed input space
 * (448 x 448) to the pixel space of the original image.
 *
 * Python computes `round(coord * (tgt / src))` in floating point; the model
 * computes the exact rational `coord * tgt / src` and rounds it to the nearest
 * integer, exact halves going to the even neighbour as Python's `round` does.
 */
module BBoxRescale {

  /** An image size, (width, height). */
  datatype Size = Size(width: int, height: int)

  /** A cell box, (x_min, y_min, x_max, y_max). */
  datatype BBox = BBox(xMin: int, yMin: int, xMax: int, yMax: int)

  /** Outcome of a rescale: the boxes, or the ZeroDivisionError that
      `tgt[i] / src[i]` raises when a source dimension is 0. */
  datatype Rescaled = Ok(boxes: seq<BBox>) | ZeroDivisionError

  function Abs(x: int): nat { if x < 0 then -x else x }

  /** r is n / d rounded to the nearest integer, an exact half going to the
      even neighbour: |r - n/d| <= 1/2, and = 1/2 only when r is even. */
  ghost predicate IsRoundedQuotient(r: int, n: int, d: int)
  {
    && Abs(2 * (r * d - n)) <= Abs(d)
    && (Abs(2 * (r * d - n)) == Abs(d) ==> r % 2 == 0)
  }

  /** Python's `round` applied to the rational n / d: the nearest integer,
      an exact half going to the even neighbour. */
  function RoundHalfEven(n: int, d: int): (r: int)
    requires d != 0
    ensures IsRoundedQuotient(r, n, d)
  {
    var num := if d < 0 then -n else n;
    var den := if d < 0 then -d else d;
    var q := num / den;
    var rem := num % den;
    var r :=
      if 2 * rem < den then q
      else if 2 * rem > den then q + 1
      else if q % 2 == 0 then q
      else q + 1;
    NearestFromRemainder(num, den, q, rem, r);
    RoundedQuotientNegate(r, n, d);
    r
  }

  /** One coordinate scaled by the ratio t / s and rounded. */
  function ScaleCoord(c: int, s: int, t: int): (r: int)
    requires s != 0
    ensures IsRoundedQuotient(r, c * t, s)
  {
    RoundHalfEven(c * t, s)
  }

  /** One box scaled per axis: x by tgt.width / src.width, y by
      tgt.height / src.height. */
  function ScaleBox(box: BBox, src: Size, tgt: Size): (r: BBox)
    requires src.width != 0 && src.height != 0
    ensures IsScaledBox(r, box, src, tgt)
  {
    BBox(ScaleCoord(box.xMin, src.width, tgt.width),
         ScaleCoord(box.yMin, src.height, tgt.height),
         ScaleCoord(box.xMax, src.width, tgt.width),
         ScaleCoord(box.yMax, src.height, tgt.height))
  }

  /** r is box scaled per axis from src to tgt, each coordinate rounded to
      the nearest integer. */
  ghost predicate IsScaledBox(r: BBox, box: BBox, src: Size, tgt: Size)
  {
    && IsRoundedQuotient(r.xMin, box.xMin * tgt.width, src.width)
    && IsRoundedQuotient(r.yMin, box.yMin * tgt.height, src.height)
    && IsRoundedQuotient(r.xMax, box.xMax * tgt.width, src.width)
    && IsRoundedQuotient(r.yMax, box.yMax * tgt.height, src.height)
  }

  /** `_rescale_bbox`: one scaled box per input box, in the same order. */
  method RescaleBBox(bbox: seq<BBox>, src: Size, tgt: Size) returns (result: Rescaled)
    ensures result.ZeroDivisionError? <==> src.width == 0 || src.height == 0
    ensures result.Ok? ==> |result.boxes| == |bbox|
    ensures result.Ok? ==>
      forall i :: 0 <= i < |bbox| ==> IsScaledBox(result.boxes[i], bbox[i], src, tgt)
    ensures result.Ok? && src == tgt ==> result.boxes == bbox
  {
    if src.width == 0 || src.height == 0 {
      return ZeroDivisionError;
    }
    var scaled: seq<BBox> := [];
    for i := 0 to |bbox|
      invariant |scaled| == i
      invariant forall j :: 0 <= j < i ==> IsScaledBox(scaled[j], bbox[j], src, tgt)
      invariant src == tgt ==> scaled == bbox[..i]
    {
      var scaledBox := ScaleBox(bbox[i], src, tgt);
      if src == tgt {
        ScaleBoxIdentity(bbox[i], src);
      }
      scaled := scaled + [scaledBox];
    }
    assert src == tgt ==> bbox[..|bbox|] == bbox;
    return Ok(scaled);
  }

  // ---------------------------------------------------------------------
  // Rounding

  /** x * d grows by at least d per unit step of x, for a positive d. */
  lemma MulStep(x: int, y: int, d: int)
    requires d > 0 && x >= y + 1
    ensures x * d >= y * d + d
  {
    var k := x - y - 1;
    assert k >= 0;
    assert k * d >= 0;
    assert x * d == y * d + d + k * d;
  }

  /** Negating both n and d does not change which integers round n / d. */
  lemma RoundedQuotientNegate(r: int, n: int, d: int)
    ensures IsRoundedQuotient(r, n, d) == IsRoundedQuotient(r, -n, -d)
  {
    assert r * (-d) == -(r * d);
  }

  /** Rounding down when the remainder is below half of d, up when above,
      and to the even one of q and q + 1 on an exact half, gives the nearest
      integer to n / d. */
  lemma NearestFromRemainder(n: int, d: int, q: int, rem: int, r: int)
    requires d > 0 && n == q * d + rem && 0 <= rem < d
    requires 2 * rem < d ==> r == q
    requires 2 * rem > d ==> r == q + 1
    requires 2 * rem == d ==> (r == q || r == q + 1) && r % 2 == 0
    ensures IsRoundedQuotient(r, n, d)
  {
    if r == q {
      assert r * d - n == -rem;
    } else {
      assert r == q + 1;
      assert r * d == q * d + d;
      assert r * d - n == d - rem;
    }
  }

  /** The rounded quotient is unique for a positive d. */
  lemma RoundedQuotientUniquePositive(a: int, b: int, n: int, d: int)
    requires d > 0 && a <= b
    requires IsRoundedQuotient(a, n, d) && IsRoundedQuotient(b, n, d)
    ensures a == b
  {
    if a + 1 < b {
      // b d - n >= (a d - n) + 2 d, more than the two errors allow
      MulStep(b, a + 1, d);
      MulStep(a + 1, a, d);
      assert false;
    } else if a + 1 == b {
      // both sit exactly half a unit from n / d, so both are even
      MulStep(b, a, d);
      assert false;
    }
  }

  /** The rounded quotient is unique: at most one integer meets the rule. */
  lemma RoundedQuotientUnique(a: int, b: int, n: int, d: int)
    requires d != 0
    requires IsRoundedQuotient(a, n, d) && IsRoundedQuotient(b, n, d)
    ensures a == b
  {
    var n', d' := if d > 0 then n else -n, if d > 0 then d else -d;
    RoundedQuotientNegate(a, n, d);
    RoundedQuotientNegate(b, n, d);
    if a <= b {
      RoundedQuotientUniquePositive(a, b, n', d');
    } else {
      RoundedQuotientUniquePositive(b, a, n', d');
    }
  }

  /** An exact quotient is returned as is. */
  lemma RoundExactQuotient(k: int, d: int)
    requires d != 0
    ensures RoundHalfEven(k * d, d) == k
  {
    assert IsRoundedQuotient(k, k * d, d);
    RoundedQuotientUnique(RoundHalfEven(k * d, d), k, k * d, d);
  }

  /** Rounding n / d is monotone in n for a positive d. */
  lemma RoundHalfEvenMonotone(n1: int, n2: int, d: int)
    requires d > 0 && n1 <= n2
    ensures RoundHalfEven(n1, d) <= RoundHalfEven(n2, d)
  {
    var r1, r2 := RoundHalfEven(n1, d), RoundHalfEven(n2, d);
    if r1 > r2 {
      // 2 n1 >= 2 r1 d - d >= 2 r2 d + d >= 2 n2, so n1 == n2 and both
      // r1 and r2 round the same quotient
      MulStep(r1, r2, d);
      assert false;
    }
  }

  // ---------------------------------------------------------------------
  // Properties of the box scaling

  /** A scaled box is determined by the box and the two sizes. */
  lemma ScaledBoxUnique(r1: BBox, r2: BBox, box: BBox, src: Size, tgt: Size)
    requires src.width != 0 && src.height != 0
    requires IsScaledBox(r1, box, src, tgt) && IsScaledBox(r2, box, src, tgt)
    ensures r1 == r2
  {
    RoundedQuotientUnique(r1.xMin, r2.xMin, box.xMin * tgt.width, src.width);
    RoundedQuotientUnique(r1.yMin, r2.yMin, box.yMin * tgt.height, src.height);
    RoundedQuotientUnique(r1.xMax, r2.xMax, box.xMax * tgt.width, src.width);
    RoundedQuotientUnique(r1.yMax, r2.yMax, box.yMax * tgt.height, src.height);
  }

  /** With src == tgt both ratios are 1 and the box comes back unchanged. */
  lemma ScaleBoxIdentity(box: BBox, size: Size)
    requires size.width != 0 && size.height != 0
    ensures ScaleBox(box, size, size) == box
  {
    RoundExactQuotient(box.xMin, size.width);
    RoundExactQuotient(box.yMin, size.height);
    RoundExactQuotient(box.xMax, size.width);
    RoundExactQuotient(box.yMax, size.height);
  }

  /** (x - y) * t == x * t - y * t. */
  lemma MulSubDistributes(x: int, y: int, t: int)
    ensures (x - y) * t == x * t - y * t
  {
  }

  /** The rounding errors of two successive scalings, s -> t then t -> s,
      add up to at most (t + s) / (2 t) in the original units. */
  lemma RoundTripError(a: int, b: int, c: int, s: int, t: int)
    requires s > 0 && t > 0
    requires IsRoundedQuotient(a, c * t, s) && IsRoundedQuotient(b, a * s, t)
    ensures 2 * (Abs(b - c) * t) <= t + s
    ensures t > s ==> b == c
  {
    var e1, e2 := a * s - c * t, b * t - a * s;
    assert 2 * Abs(e1) <= s && 2 * Abs(e2) <= t;
    var gap := Abs(b - c) * t;
    if b >= c {
      MulSubDistributes(b, c, t);
      assert gap == e1 + e2;
    } else {
      MulSubDistributes(c, b, t);
      assert gap == -(e1 + e2);
    }
    assert 2 * gap <= t + s;
    if t > s && b != c {
      MulStep(Abs(b - c), 0, t);
      assert false;
    }
  }

  /** Scaling s -> t and back t -> s moves a coordinate by at most
      (t + s) / (2 t); when t >= s it comes back exactly. */
  lemma ScaleCoordRoundTrip(c: int, s: int, t: int)
    requires s > 0 && t > 0
    ensures 2 * (Abs(ScaleCoord(ScaleCoord(c, s, t), t, s) - c) * t) <= t + s
    ensures t >= s ==> ScaleCoord(ScaleCoord(c, s, t), t, s) == c
  {
    var a := ScaleCoord(c, s, t);
    var b := ScaleCoord(a, t, s);
    RoundTripError(a, b, c, s, t);
    if t == s {
      RoundExactQuotient(c, s);
      RoundExactQuotient(a, s);
    }
  }

  /** Boxes scaled from src to a size at least as large on both axes, and
      back, are recovered exactly; in general each coordinate moves by at
      most (t + s) / (2 t) on its axis. */
  lemma ScaleBoxRoundTrip(box: BBox, src: Size, tgt: Size)
    requires src.width > 0 && src.height > 0 && tgt.width > 0 && tgt.height > 0
    ensures var back := ScaleBox(ScaleBox(box, src, tgt), tgt, src);
      && 2 * (Abs(back.xMin - box.xMin) * tgt.width) <= tgt.width + src.width
      && 2 * (Abs(back.yMin - box.yMin) * tgt.height) <= tgt.height + src.height
      && 2 * (Abs(back.xMax - box.xMax) * tgt.width) <= tgt.width + src.width
      && 2 * (Abs(back.yMax - box.yMax) * tgt.height) <= tgt.height + src.height
    ensures tgt.width >= src.width && tgt.height >= src.height ==>
      ScaleBox(ScaleBox(box, src, tgt), tgt, src) == box
  {
    ScaleCoordRoundTrip(box.xMin, src.width, tgt.width);
    ScaleCoordRoundTrip(box.yMin, src.height, tgt.height);
    ScaleCoordRoundTrip(box.xMax, src.width, tgt.width);
    ScaleCoordRoundTrip(box.yMax, src.height, tgt.height);
  }

  /** Scaling by non-negative ratios keeps x_min <= x_max and y_min <= y_max. */
  lemma ScaleBoxKeepsOrder(box: BBox, src: Size, tgt: Size)
    requires src.width > 0 && src.height > 0 && tgt.width >= 0 && tgt.height >= 0
    requires box.xMin <= box.xMax && box.yMin <= box.yMax
    ensures var r := ScaleBox(box, src, tgt); r.xMin <= r.xMax && r.yMin <= r.yMax
  {
    assert box.xMin * tgt.width <= box.xMax * tgt.width by {
      assert (box.xMax - box.xMin) * tgt.width >= 0;
    }
    assert box.yMin * tgt.height <= box.yMax * tgt.height by {
      assert (box.yMax - box.yMin) * tgt.height >= 0;
    }
    RoundHalfEvenMonotone(box.xMin * tgt.width, box.xMax * tgt.width, src.width);
    RoundHalfEvenMonotone(box.yMin * tgt.height, box.yMax * tgt.height, src.height);
  }
}
