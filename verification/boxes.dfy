/** The detection record shared by both detectors and their overlap measure.
    Coordinates and scores are Float32 in the application; here they are reals,
    and the one place where Float32 semantics matter, a division whose
    denominator is zero, is an explicit case of `Quotient`. */
module Boxes {

  /** One candidate or final detection, in normalised image coordinates:
      corners `x1, y1, x2, y2`, centre form `cx, cy, w, h`, the winning class
      score `cnf`, the class index `cls` and its label `clsName`. */
  datatype BoundingBox = BoundingBox(
    x1: real, y1: real, x2: real, y2: real,
    cx: real, cy: real, w: real, h: real,
    cnf: real, cls: int, clsName: string)

  /** The outcome of a Float32 division: an ordinary value, or one of the
      IEEE-754 results of dividing by zero. */
  datatype Quotient = Finite(value: real) | PosInfinity | NegInfinity | NotANumber

  function Max(a: real, b: real): (m: real) { if a >= b then a else b }
  function Min(a: real, b: real): (m: real) { if a <= b then a else b }

  /** `n / d` with IEEE-754 behaviour at `d == 0`. */
  function Divide(n: real, d: real): (q: Quotient)
    ensures q.Finite? <==> d != 0.0
    ensures q.Finite? ==> q.value * d == n
    ensures q.NotANumber? <==> d == 0.0 && n == 0.0
    ensures d == 0.0 && n > 0.0 ==> q == PosInfinity
    ensures d == 0.0 && n < 0.0 ==> q == NegInfinity
  {
    if d != 0.0 then Finite(n / d)
    else if n > 0.0 then PosInfinity
    else if n < 0.0 then NegInfinity
    else NotANumber
  }

  /** Kotlin's `q < t` on a Float: false for NaN. */
  predicate Below(q: Quotient, t: real)
  {
    match q
    case Finite(v) => v < t
    case PosInfinity => false
    case NegInfinity => true
    case NotANumber => false
  }

  /** Kotlin's `q >= t` on a Float: false for NaN. */
  predicate AtLeast(q: Quotient, t: real)
  {
    match q
    case Finite(v) => v >= t
    case PosInfinity => true
    case NegInfinity => false
    case NotANumber => false
  }

  /** The two spellings of the suppression test used by the two detectors
      ("keep if below" and "remove if at least") agree on every quotient
      except NaN, where both comparisons are false. */
  lemma BelowIsNotAtLeast(q: Quotient, t: real)
    ensures !q.NotANumber? ==> (Below(q, t) <==> !AtLeast(q, t))
    ensures q.NotANumber? ==> !Below(q, t) && !AtLeast(q, t)
  {
  }

  /** The overlapping area of the two corner rectangles (0 when disjoint). */
  function Intersection(a: BoundingBox, b: BoundingBox): (area: real)
    ensures area >= 0.0
  {
    Overlap(a.x1, a.x2, b.x1, b.x2) * Overlap(a.y1, a.y2, b.y1, b.y2)
  }

  /** The length shared by the intervals [lo1, hi1] and [lo2, hi2], or 0. */
  function Overlap(lo1: real, hi1: real, lo2: real, hi2: real): (len: real)
    ensures len >= 0.0
    ensures lo1 <= hi1 ==> len <= hi1 - lo1
    ensures lo2 <= hi2 ==> len <= hi2 - lo2
  {
    Max(0.0, Min(hi1, hi2) - Max(lo1, lo2))
  }

  /** The area of a box as the detectors compute it: from the stored width
      and height, not from the corners. */
  function Area(b: BoundingBox): (area: real) { b.w * b.h }

  /** Intersection over union, `intersection / (area1 + area2 - intersection)`. */
  function IoU(a: BoundingBox, b: BoundingBox): (q: Quotient)
    ensures q.Finite? <==> Area(a) + Area(b) - Intersection(a, b) != 0.0
  {
    var inter := Intersection(a, b);
    Divide(inter, Area(a) + Area(b) - inter)
  }

  /** IoU does not depend on the order of its arguments. */
  lemma IoUSymmetric(a: BoundingBox, b: BoundingBox)
    ensures IoU(a, b) == IoU(b, a)
  {
    assert Intersection(a, b) == Intersection(b, a);
  }

  /** A box whose corners lie in the unit square, in order, and agree with
      its stored width and height. The decoder guarantees all of this except
      the order of the corners, which needs a non-negative width and height
      from the model. */
  predicate Consistent(b: BoundingBox)
  {
    && 0.0 <= b.x1 <= b.x2 <= 1.0
    && 0.0 <= b.y1 <= b.y2 <= 1.0
    && b.x2 - b.x1 == b.w && b.y2 - b.y1 == b.h
  }

  lemma ProductMonotone(a: real, b: real, c: real, d: real)
    requires 0.0 <= a <= c && 0.0 <= b <= d
    ensures a * b <= c * d
  {
    assert a * b <= c * b;
    assert c * b <= c * d;
  }

  /** The overlap of consistent boxes is no wider and no taller than either. */
  lemma OverlapWithin(a: BoundingBox, b: BoundingBox)
    requires Consistent(a) && Consistent(b)
    ensures Overlap(a.x1, a.x2, b.x1, b.x2) <= a.w && Overlap(a.x1, a.x2, b.x1, b.x2) <= b.w
    ensures Overlap(a.y1, a.y2, b.y1, b.y2) <= a.h && Overlap(a.y1, a.y2, b.y1, b.y2) <= b.h
  {
  }

  /** A ratio `i / (s1 + s2 - i)` whose numerator lies between 0 and both
      areas is NaN when both areas are zero and otherwise lies in [0, 1]. */
  lemma RatioBounded(i: real, s1: real, s2: real)
    requires 0.0 <= i <= s1 && i <= s2
    ensures Divide(i, s1 + s2 - i).NotANumber? <==> s1 == 0.0 && s2 == 0.0
    ensures !Divide(i, s1 + s2 - i).NotANumber? ==>
      Divide(i, s1 + s2 - i).Finite? && 0.0 <= Divide(i, s1 + s2 - i).value <= 1.0
  {
    var d := s1 + s2 - i;
    if d != 0.0 {
      FractionBounded(i, d);
    }
  }

  /** A non-negative numerator over a larger positive denominator. */
  lemma FractionBounded(n: real, d: real)
    requires 0.0 <= n <= d && 0.0 < d
    ensures 0.0 <= n / d <= 1.0
  {
    assert (n / d) * d == n;
  }

  /** The intersection of consistent boxes is no larger than either area. */
  lemma IntersectionWithin(a: BoundingBox, b: BoundingBox)
    requires Consistent(a) && Consistent(b)
    ensures Intersection(a, b) <= Area(a) && Intersection(a, b) <= Area(b)
  {
    OverlapWithin(a, b);
    IntersectionOfNarrowOverlap(a, b);
  }

  /** An overlap no wider and no taller than both boxes gives an
      intersection no larger than either area. */
  lemma IntersectionOfNarrowOverlap(a: BoundingBox, b: BoundingBox)
    requires Overlap(a.x1, a.x2, b.x1, b.x2) <= a.w && Overlap(a.x1, a.x2, b.x1, b.x2) <= b.w
    requires Overlap(a.y1, a.y2, b.y1, b.y2) <= a.h && Overlap(a.y1, a.y2, b.y1, b.y2) <= b.h
    ensures Intersection(a, b) <= Area(a) && Intersection(a, b) <= Area(b)
  {
    var dx := Overlap(a.x1, a.x2, b.x1, b.x2);
    var dy := Overlap(a.y1, a.y2, b.y1, b.y2);
    ProductMonotone(dx, dy, a.w, a.h);
    ProductMonotone(dx, dy, b.w, b.h);
  }

  /** IoU is NaN exactly when both areas are zero, and otherwise a ratio in
      [0, 1], as soon as the intersection is no larger than either area. */
  lemma IoUFromIntersection(a: BoundingBox, b: BoundingBox)
    requires Intersection(a, b) <= Area(a) && Intersection(a, b) <= Area(b)
    ensures IoU(a, b).NotANumber? <==> Area(a) == 0.0 && Area(b) == 0.0
    ensures !IoU(a, b).NotANumber? ==> IoU(a, b).Finite? && 0.0 <= IoU(a, b).value <= 1.0
  {
    RatioBounded(Intersection(a, b), Area(a), Area(b));
  }

  /** For consistent boxes IoU is NaN exactly when both areas are zero, and
      otherwise a ratio in [0, 1]. */
  lemma IoUBounded(a: BoundingBox, b: BoundingBox)
    requires Consistent(a) && Consistent(b)
    ensures IoU(a, b).NotANumber? <==> Area(a) == 0.0 && Area(b) == 0.0
    ensures !IoU(a, b).NotANumber? ==> IoU(a, b).Finite? && 0.0 <= IoU(a, b).value <= 1.0
  {
    IntersectionWithin(a, b);
    IoUFromIntersection(a, b);
  }

  /** Two consistent boxes that are each flat (zero width or zero height)
      have a NaN IoU, whichever way they lie. */
  lemma FlatPairIsNaN(a: BoundingBox, b: BoundingBox)
    requires Consistent(a) && Consistent(b)
    requires (a.w == 0.0 || a.h == 0.0) && (b.w == 0.0 || b.h == 0.0)
    ensures IoU(a, b) == NotANumber
  {
    assert Area(a) == 0.0 && Area(b) == 0.0;
    IoUBounded(a, b);
  }

  /** A consistent box with positive area overlaps itself completely, so any
      threshold up to 1 suppresses an exact duplicate of a selected box. */
  lemma IoUSelf(b: BoundingBox)
    requires Consistent(b) && Area(b) > 0.0
    ensures IoU(b, b) == Finite(1.0)
  {
    var area := b.w * b.h;
    assert Overlap(b.x1, b.x2, b.x1, b.x2) == b.w;
    assert Overlap(b.y1, b.y2, b.y1, b.y2) == b.h;
    assert Intersection(b, b) == area;
    assert IoU(b, b) == Divide(area, area + area - area);
    assert area + area - area == area;
    assert area / area == 1.0;
  }
}
