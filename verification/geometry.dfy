/** Interval and bounding-box algebra of the R*-tree (Bounds and BoundingBox).

    Coordinates are exact reals.  Square roots are never taken: every distance
    is kept squared, which leaves every comparison the index makes unchanged
    because the square root is monotone on non-negative numbers.  A box has one
    interval per dimension; the index's dimensionality is the length of the
    sequence. */
module Geometry {
  import opened Wrappers

  /** One dimension's closed interval. */
  datatype Bounds = Bounds(lower: real, upper: real)

  /** A Bounds value the implementation can hold: its constructor refuses
      lower > upper, so every stored interval satisfies lower <= upper. */
  type Interval = b: Bounds | b.lower <= b.upper witness Bounds(0.0, 0.0)

  /** A bounding box: one interval per dimension. */
  type Box = seq<Interval>

  /** A point: one coordinate per dimension. */
  type Point = seq<real>

  /** The Bounds constructor, which takes its arguments as (upper, lower). */
  function MakeBounds(upper: real, lower: real): (r: Result<Interval>)
    ensures r.Ok? <==> lower <= upper
    ensures r.Ok? ==> r.value.upper == upper && r.value.lower == lower
    ensures r.Err? ==> r.error == InvalidBounds
  {
    if lower <= upper then Ok(Bounds(lower, upper)) else Err(InvalidBounds)
  }

  function Min(x: real, y: real): real {
    if x <= y then x else y
  }

  function Max(x: real, y: real): real {
    if x >= y then x else y
  }

  /** Multiplication, named so that the facts below about squares are stated
      once, on distinct factors, and then reused. */
  function Mul(a: real, b: real): real {
    a * b
  }

  function Sq(x: real): real {
    Mul(x, x)
  }

  lemma MulCommutes(a: real, b: real)
    ensures Mul(a, b) == Mul(b, a)
  {
  }

  lemma MulNegations(a: real, b: real)
    ensures Mul(-a, -b) == Mul(a, b)
  {
  }

  lemma MulMonotone(a: real, b: real, c: real)
    requires a <= b && c >= 0.0
    ensures Mul(a, c) <= Mul(b, c)
  {
    assert (b - a) * c >= 0.0;
  }

  lemma MulStrictlyMonotone(a: real, b: real, c: real)
    requires a < b && c > 0.0
    ensures Mul(a, c) < Mul(b, c)
  {
    assert (b - a) * c > 0.0;
  }

  /** A square is never negative, and positive unless its root is zero. */
  lemma SqPositive(x: real)
    ensures Sq(x) >= 0.0
    ensures x != 0.0 ==> Sq(x) > 0.0
  {
    if x > 0.0 {
      MulStrictlyMonotone(0.0, x, x);
    } else if x < 0.0 {
      MulNegations(x, x);
      MulStrictlyMonotone(0.0, -x, -x);
    }
  }

  /** Squaring preserves the order of non-negative numbers. */
  lemma SqMonotone(s: real, t: real)
    requires s >= 0.0 && t >= 0.0
    ensures s <= t <==> Sq(s) <= Sq(t)
  {
    MulCommutes(s, t);
    if s <= t {
      MulMonotone(s, t, s);
      MulMonotone(s, t, t);
    } else {
      MulStrictlyMonotone(t, s, s);
      MulMonotone(t, s, t);
    }
  }

  /** The extent of an interval; the source takes its absolute value, which
      for a valid interval is the difference itself. */
  function Extent(b: Interval): (r: real)
    ensures r >= 0.0
  {
    b.upper - b.lower
  }

  /** `outer` contains `inner` in every dimension. */
  predicate Encloses(outer: Box, inner: Box) {
    && |outer| == |inner|
    && forall i | 0 <= i < |outer| :: outer[i].lower <= inner[i].lower && inner[i].upper <= outer[i].upper
  }

  predicate ContainsPoint(b: Box, p: Point)
    requires |p| == |b|
  {
    forall i | 0 <= i < |b| :: b[i].lower <= p[i] <= b[i].upper
  }

  // ---------------------------------------------------------------------------
  // Union (findMinBounds)
  // ---------------------------------------------------------------------------

  /** The minimum bounding box of two boxes: per dimension the smaller lower
      value and the larger upper value. */
  function Union(a: Box, b: Box): (r: Box)
    requires |a| == |b|
    ensures |r| == |a|
    ensures forall i | 0 <= i < |r| :: r[i].lower == Min(a[i].lower, b[i].lower) && r[i].upper == Max(a[i].upper, b[i].upper)
    ensures Encloses(r, a) && Encloses(r, b)
  {
    seq(|a|, i requires 0 <= i < |a| => Bounds(Min(a[i].lower, b[i].lower), Max(a[i].upper, b[i].upper)))
  }

  /** findMinBounds as written: each dimension is built by the Bounds
      constructor from (lowerMin, upperMax), but the constructor takes its
      arguments as (upper, lower), so its check runs on the swapped pair. */
  function UnionAsWritten(a: Box, b: Box): (r: Result<Box>)
    requires |a| == |b|
    ensures r.Ok? <==> forall i | 0 <= i < |a| :: Max(a[i].upper, b[i].upper) <= Min(a[i].lower, b[i].lower)
    ensures r.Ok? ==> |r.value| == |a|
    ensures r.Ok? ==> forall i | 0 <= i < |a| ::
              r.value[i].upper == Min(a[i].lower, b[i].lower) && r.value[i].lower == Max(a[i].upper, b[i].upper)
    ensures r.Err? ==> r.error == InvalidBounds
  {
    if |a| == 0 then Ok([])
    else
      var first :- MakeBounds(Min(a[0].lower, b[0].lower), Max(a[0].upper, b[0].upper));
      var rest :- UnionAsWritten(a[1..], b[1..]);
      assert forall i | 1 <= i < |a| :: a[i] == a[1..][i - 1] && b[i] == b[1..][i - 1];
      Ok([first] + rest)
  }

  /** As written, the union only succeeds when both boxes are one and the
      same point, where it agrees with Union; a box with any extent makes it
      fail. */
  lemma UnionAsWrittenDiscrepancy(a: Box, b: Box)
    requires |a| == |b|
    ensures UnionAsWritten(a, b).Ok? <==>
              forall i | 0 <= i < |a| :: a[i].lower == a[i].upper == b[i].lower == b[i].upper
    ensures UnionAsWritten(a, b).Ok? ==> UnionAsWritten(a, b).value == Union(a, b)
    ensures UnionAsWritten([Bounds(0.0, 1.0)], [Bounds(0.0, 1.0)]).Err?
  {
    if UnionAsWritten(a, b).Ok? {
      assert forall i | 0 <= i < |a| :: UnionAsWritten(a, b).value[i] == Union(a, b)[i];
    }
  }

  /** The union is the least box containing both arguments. */
  lemma UnionIsLeast(a: Box, b: Box, c: Box)
    requires |a| == |b|
    requires Encloses(c, a) && Encloses(c, b)
    ensures Encloses(c, Union(a, b))
  {
  }

  lemma UnionCommutative(a: Box, b: Box)
    requires |a| == |b|
    ensures Union(a, b) == Union(b, a)
  {
    assert forall i | 0 <= i < |a| :: Union(a, b)[i] == Union(b, a)[i];
  }

  lemma UnionIdempotent(a: Box)
    ensures Union(a, a) == a
  {
    assert forall i | 0 <= i < |a| :: Union(a, a)[i] == a[i];
  }

  lemma UnionAssociative(a: Box, b: Box, c: Box)
    requires |a| == |b| == |c|
    ensures Union(Union(a, b), c) == Union(a, Union(b, c))
  {
    assert forall i | 0 <= i < |a| :: Union(Union(a, b), c)[i] == Union(a, Union(b, c))[i];
  }

  /** Refitting with a box that is already contained changes nothing. */
  lemma UnionWithEnclosed(a: Box, b: Box)
    requires Encloses(a, b)
    ensures Union(a, b) == a
  {
    assert forall i | 0 <= i < |a| :: Union(a, b)[i] == a[i];
  }

  /** All boxes of a list have the same dimensionality. */
  predicate SameDims(bs: seq<Box>, dims: nat) {
    forall k | 0 <= k < |bs| :: |bs[k]| == dims
  }

  /** `r` is tight for `bs`: every bound of `r` is attained by some box of `bs`. */
  predicate Tight(r: Box, bs: seq<Box>)
    requires SameDims(bs, |r|)
  {
    forall i | 0 <= i < |r| ::
      && (exists k | 0 <= k < |bs| :: r[i].lower == bs[k][i].lower)
      && (exists k | 0 <= k < |bs| :: r[i].upper == bs[k][i].upper)
  }

  /** The minimum bounding box of a non-empty list of boxes (findMinBounds
      over a list of entries), folded left to right. */
  function UnionAll(bs: seq<Box>): (r: Box)
    requires |bs| > 0 && SameDims(bs, |bs[0]|)
    ensures |r| == |bs[0]|
    ensures forall k | 0 <= k < |bs| :: Encloses(r, bs[k])
    ensures Tight(r, bs)
  {
    if |bs| == 1 then bs[0]
    else
      var init := bs[..|bs| - 1];
      var last := bs[|bs| - 1];
      var acc := UnionAll(init);
      var r := Union(acc, last);
      assert forall k | 0 <= k < |bs| - 1 :: bs[k] == init[k];
      assert forall i | 0 <= i < |r| :: exists k | 0 <= k < |bs| :: r[i].lower == bs[k][i].lower by {
        forall i | 0 <= i < |r| ensures exists k | 0 <= k < |bs| :: r[i].lower == bs[k][i].lower {
          if r[i].lower == last[i].lower {
            assert r[i].lower == bs[|bs| - 1][i].lower;
          } else {
            var k :| 0 <= k < |init| && acc[i].lower == init[k][i].lower;
            assert r[i].lower == bs[k][i].lower;
          }
        }
      }
      assert forall i | 0 <= i < |r| :: exists k | 0 <= k < |bs| :: r[i].upper == bs[k][i].upper by {
        forall i | 0 <= i < |r| ensures exists k | 0 <= k < |bs| :: r[i].upper == bs[k][i].upper {
          if r[i].upper == last[i].upper {
            assert r[i].upper == bs[|bs| - 1][i].upper;
          } else {
            var k :| 0 <= k < |init| && acc[i].upper == init[k][i].upper;
            assert r[i].upper == bs[k][i].upper;
          }
        }
      }
      r
  }

  /** A box that contains every box of a list and is tight for it is the
      list's union: the union is determined by the boxes alone. */
  lemma {:induction false} UnionAllUnique(bs: seq<Box>, r: Box)
    requires |bs| > 0 && SameDims(bs, |r|)
    requires forall k | 0 <= k < |bs| :: Encloses(r, bs[k])
    requires Tight(r, bs)
    ensures UnionAll(bs) == r
  {
    var u := UnionAll(bs);
    forall i | 0 <= i < |r|
      ensures u[i] == r[i]
    {
      var k1 :| 0 <= k1 < |bs| && r[i].lower == bs[k1][i].lower;
      var k2 :| 0 <= k2 < |bs| && u[i].lower == bs[k2][i].lower;
      var k3 :| 0 <= k3 < |bs| && r[i].upper == bs[k3][i].upper;
      var k4 :| 0 <= k4 < |bs| && u[i].upper == bs[k4][i].upper;
      assert Encloses(u, bs[k1]) && Encloses(r, bs[k2]) && Encloses(u, bs[k3]) && Encloses(r, bs[k4]);
    }
  }

  /** Folding the union over a list does not depend on the order of the list. */
  lemma {:induction false} UnionAllOrderIndependent(xs: seq<Box>, ys: seq<Box>)
    requires |xs| > 0 && SameDims(xs, |xs[0]|)
    requires multiset(xs) == multiset(ys)
    ensures |ys| > 0 && SameDims(ys, |xs[0]|)
    ensures UnionAll(xs) == UnionAll(ys)
  {
    assert forall b :: b in ys <==> b in xs by {
      forall b ensures b in ys <==> b in xs {
        assert b in multiset(ys) <==> b in multiset(xs);
      }
    }
    assert xs[0] in ys;
    var u := UnionAll(xs);
    forall k | 0 <= k < |ys| ensures Encloses(u, ys[k]) && |ys[k]| == |u| {
      assert ys[k] in xs;
    }
    assert SameDims(ys, |u|);
    forall i | 0 <= i < |u|
      ensures exists k | 0 <= k < |ys| :: u[i].lower == ys[k][i].lower
      ensures exists k | 0 <= k < |ys| :: u[i].upper == ys[k][i].upper
    {
      var k1 :| 0 <= k1 < |xs| && u[i].lower == xs[k1][i].lower;
      assert xs[k1] in ys;
      var k2 :| 0 <= k2 < |xs| && u[i].upper == xs[k2][i].upper;
      assert xs[k2] in ys;
    }
    UnionAllUnique(ys, u);
  }

  // ---------------------------------------------------------------------------
  // Products and sums of per-dimension quantities
  // ---------------------------------------------------------------------------

  function Product(xs: seq<real>): real {
    if |xs| == 0 then 1.0 else Product(xs[..|xs| - 1]) * xs[|xs| - 1]
  }

  function Sum(xs: seq<real>): real {
    if |xs| == 0 then 0.0 else Sum(xs[..|xs| - 1]) + xs[|xs| - 1]
  }

  predicate AllNonNegative(xs: seq<real>) {
    forall i | 0 <= i < |xs| :: xs[i] >= 0.0
  }

  lemma {:induction false} ProductNonNegative(xs: seq<real>)
    requires AllNonNegative(xs)
    ensures Product(xs) >= 0.0
  {
    if |xs| > 0 {
      ProductNonNegative(xs[..|xs| - 1]);
      assert xs[|xs| - 1] >= 0.0;
    }
  }

  lemma {:induction false} SumNonNegative(xs: seq<real>)
    requires AllNonNegative(xs)
    ensures Sum(xs) >= 0.0
  {
    if |xs| > 0 {
      SumNonNegative(xs[..|xs| - 1]);
    }
  }

  /** A sum of non-negative terms is zero exactly when every term is zero. */
  lemma {:induction false} SumZeroIff(xs: seq<real>)
    requires AllNonNegative(xs)
    ensures Sum(xs) == 0.0 <==> forall i | 0 <= i < |xs| :: xs[i] == 0.0
  {
    if |xs| > 0 {
      var init := xs[..|xs| - 1];
      SumZeroIff(init);
      SumNonNegative(init);
      assert forall i | 0 <= i < |init| :: init[i] == xs[i];
    }
  }

  /** A product of non-negative factors is positive exactly when every factor is. */
  lemma {:induction false} ProductPositiveIff(xs: seq<real>)
    requires AllNonNegative(xs)
    ensures Product(xs) > 0.0 <==> forall i | 0 <= i < |xs| :: xs[i] > 0.0
  {
    if |xs| > 0 {
      var init := xs[..|xs| - 1];
      var x := xs[|xs| - 1];
      ProductPositiveIff(init);
      ProductNonNegative(init);
      assert forall i | 0 <= i < |init| :: init[i] == xs[i];
      if Product(init) > 0.0 && x > 0.0 {
        assert Product(init) * x > 0.0;
      } else if Product(init) == 0.0 {
        assert Product(init) * x == 0.0;
      } else {
        assert x == 0.0;
        assert Product(init) * x == 0.0;
      }
    }
  }

  /** The product is monotone in every non-negative factor. */
  lemma {:induction false} ProductMonotone(xs: seq<real>, ys: seq<real>)
    requires |xs| == |ys|
    requires forall i | 0 <= i < |xs| :: 0.0 <= xs[i] <= ys[i]
    ensures Product(xs) <= Product(ys)
  {
    if |xs| > 0 {
      var n := |xs| - 1;
      var px, py := Product(xs[..n]), Product(ys[..n]);
      assert forall i | 0 <= i < n :: xs[..n][i] == xs[i] && ys[..n][i] == ys[i];
      ProductMonotone(xs[..n], ys[..n]);
      ProductNonNegative(xs[..n]);
      assert 0.0 <= px <= py;
      assert 0.0 <= xs[n] <= ys[n];
      assert px * xs[n] <= py * xs[n] by {
        assert (py - px) * xs[n] >= 0.0;
      }
      assert py * xs[n] <= py * ys[n] by {
        assert py * (ys[n] - xs[n]) >= 0.0;
      }
    }
  }

  // ---------------------------------------------------------------------------
  // Volume, perimeter, center
  // ---------------------------------------------------------------------------

  function Extents(b: Box): (r: seq<real>)
    ensures |r| == |b| && AllNonNegative(r)
    ensures forall i | 0 <= i < |b| :: r[i] == Extent(b[i])
  {
    seq(|b|, i requires 0 <= i < |b| => Extent(b[i]))
  }

  /** The volume: the product of the per-dimension extents. */
  function Volume(b: Box): (r: real)
    ensures r >= 0.0
  {
    ProductNonNegative(Extents(b));
    Product(Extents(b))
  }

  /** The perimeter (margin): the sum of the per-dimension extents. */
  function Perimeter(b: Box): (r: real)
    ensures r >= 0.0
  {
    SumNonNegative(Extents(b));
    Sum(Extents(b))
  }

  /** The center: per dimension the midpoint of the interval. */
  function Center(b: Box): (r: Point)
    ensures |r| == |b|
    ensures forall i | 0 <= i < |b| :: b[i].lower <= r[i] <= b[i].upper && r[i] - b[i].lower == b[i].upper - r[i]
  {
    seq(|b|, i requires 0 <= i < |b| => (b[i].lower + b[i].upper) / 2.0)
  }

  /** A box has zero volume exactly when it is flat in some dimension. */
  lemma VolumeZeroIff(b: Box)
    ensures Volume(b) == 0.0 <==> exists i | 0 <= i < |b| :: b[i].lower == b[i].upper
  {
    ProductPositiveIff(Extents(b));
    if exists i | 0 <= i < |b| :: b[i].lower == b[i].upper {
      var i :| 0 <= i < |b| && b[i].lower == b[i].upper;
      assert Extents(b)[i] == 0.0;
    }
  }

  /** A box contained in another has no larger volume. */
  lemma VolumeMonotone(inner: Box, outer: Box)
    requires Encloses(outer, inner)
    ensures Volume(inner) <= Volume(outer)
  {
    ProductMonotone(Extents(inner), Extents(outer));
  }

  /** A box contained in another has no larger perimeter. */
  lemma {:induction false} PerimeterMonotone(inner: Box, outer: Box)
    requires Encloses(outer, inner)
    ensures Perimeter(inner) <= Perimeter(outer)
  {
    SumMonotone(Extents(inner), Extents(outer));
  }

  lemma {:induction false} SumMonotone(xs: seq<real>, ys: seq<real>)
    requires |xs| == |ys|
    requires forall i | 0 <= i < |xs| :: xs[i] <= ys[i]
    ensures Sum(xs) <= Sum(ys)
  {
    if |xs| > 0 {
      var n := |xs| - 1;
      assert forall i | 0 <= i < n :: xs[..n][i] == xs[i] && ys[..n][i] == ys[i];
      SumMonotone(xs[..n], ys[..n]);
    }
  }

  // ---------------------------------------------------------------------------
  // Overlap (findOverlap)
  // ---------------------------------------------------------------------------

  /** The length of the intersection of two intervals; not positive when they
      are disjoint or only touch. */
  function Intersection(a: Interval, b: Interval): real {
    Min(a.upper, b.upper) - Max(a.lower, b.lower)
  }

  function Intersections(a: Box, b: Box): (r: seq<real>)
    requires |a| == |b|
    ensures |r| == |a|
    ensures forall i | 0 <= i < |a| :: r[i] == Intersection(a[i], b[i])
  {
    seq(|a|, i requires 0 <= i < |a| => Intersection(a[i], b[i]))
  }

  /** Some dimension in which the two boxes do not overlap with positive length. */
  predicate HasGap(a: Box, b: Box)
    requires |a| == |b|
  {
    exists i | 0 <= i < |a| :: Intersection(a[i], b[i]) <= 0.0
  }

  /** The volume of the intersection of two boxes: 0 as soon as one dimension
      has a non-positive intersection, otherwise the product of the
      per-dimension intersections. */
  function Overlap(a: Box, b: Box): (r: real)
    requires |a| == |b|
    ensures r >= 0.0
    ensures r > 0.0 <==> forall i | 0 <= i < |a| :: Intersection(a[i], b[i]) > 0.0
  {
    if HasGap(a, b) then 0.0
    else
      ProductPositiveIff(Intersections(a, b));
      Product(Intersections(a, b))
  }

  lemma OverlapSymmetric(a: Box, b: Box)
    requires |a| == |b|
    ensures Overlap(a, b) == Overlap(b, a)
  {
    assert Intersections(a, b) == Intersections(b, a);
  }

  /** A box overlaps itself by its own volume. */
  lemma OverlapSelf(a: Box)
    ensures Overlap(a, a) == Volume(a)
  {
    assert Intersections(a, a) == Extents(a);
    VolumeZeroIff(a);
    if HasGap(a, a) {
      var i :| 0 <= i < |a| && Intersection(a[i], a[i]) <= 0.0;
      assert a[i].lower == a[i].upper;
    }
  }

  /** The overlap of two boxes is at most the volume of either. */
  lemma OverlapAtMostVolume(a: Box, b: Box)
    requires |a| == |b|
    ensures Overlap(a, b) <= Volume(a)
  {
    if !HasGap(a, b) {
      ProductMonotone(Intersections(a, b), Extents(a));
    }
  }

  /** Growing the first box never decreases the overlap. */
  lemma OverlapMonotone(a: Box, grown: Box, b: Box)
    requires |a| == |b|
    requires Encloses(grown, a)
    ensures Overlap(a, b) <= Overlap(grown, b)
  {
    if !HasGap(a, b) {
      assert !HasGap(grown, b) by {
        forall i | 0 <= i < |a| ensures Intersection(grown[i], b[i]) > 0.0 {
          assert Intersection(a[i], b[i]) > 0.0;
        }
      }
      ProductMonotone(Intersections(a, b), Intersections(grown, b));
    }
  }

  // ---------------------------------------------------------------------------
  // Distances (findMinDistance, checkOverlapWithPoint, findDistanceBetweenCenters)
  // ---------------------------------------------------------------------------

  /** The coordinate nearest to `x` inside the interval. */
  function Clamp(x: real, b: Interval): (r: real)
    ensures b.lower <= r <= b.upper
    ensures r == x <==> b.lower <= x <= b.upper
  {
    if b.lower > x then b.lower
    else if b.upper < x then b.upper
    else x
  }

  function SquaredGaps(b: Box, p: Point): (r: seq<real>)
    requires |p| == |b|
    ensures |r| == |b| && AllNonNegative(r)
    ensures forall i | 0 <= i < |b| :: r[i] == Sq(p[i] - Clamp(p[i], b[i]))
  {
    seq(|b|, i requires 0 <= i < |b| => Sq(p[i] - Clamp(p[i], b[i])))
  }

  /** The squared Euclidean distance from a point to the nearest point of a box. */
  function MinDistanceSq(b: Box, p: Point): (r: real)
    requires |p| == |b|
    ensures r >= 0.0
  {
    SumNonNegative(SquaredGaps(b, p));
    Sum(SquaredGaps(b, p))
  }

  /** The distance to a box is zero exactly when the point lies inside it. */
  lemma MinDistanceZeroIffInside(b: Box, p: Point)
    requires |p| == |b|
    ensures MinDistanceSq(b, p) == 0.0 <==> ContainsPoint(b, p)
  {
    var g := SquaredGaps(b, p);
    SumZeroIff(g);
    forall i | 0 <= i < |b| ensures g[i] == 0.0 <==> b[i].lower <= p[i] <= b[i].upper {
      var d := p[i] - Clamp(p[i], b[i]);
      SqPositive(d);
    }
  }

  /** `s` is the (non-negative) square root of `d`. */
  ghost predicate IsSqrt(d: real, s: real) {
    s >= 0.0 && Sq(s) == d
  }

  lemma SqrtAtMost(d: real, radius: real)
    ensures forall s | IsSqrt(d, s) :: s <= radius <==> (radius >= 0.0 && d <= Sq(radius))
  {
    forall s | IsSqrt(d, s) ensures s <= radius <==> (radius >= 0.0 && d <= Sq(radius)) {
      if radius >= 0.0 {
        SqMonotone(s, radius);
      }
    }
  }

  /** True if the ball of the given radius around the point touches the box.
      The source compares the square root of the squared distance with the
      radius; the result is stated against every such square root. */
  function CheckOverlapWithPoint(b: Box, p: Point, radius: real): (r: bool)
    requires |p| == |b|
    ensures forall s | IsSqrt(MinDistanceSq(b, p), s) :: r <==> s <= radius
  {
    SqrtAtMost(MinDistanceSq(b, p), radius);
    radius >= 0.0 && MinDistanceSq(b, p) <= Sq(radius)
  }

  /** A point inside a box is within every non-negative radius of it. */
  lemma InsidePointOverlapsEveryRadius(b: Box, p: Point, radius: real)
    requires |p| == |b| && ContainsPoint(b, p) && radius >= 0.0
    ensures CheckOverlapWithPoint(b, p, radius)
  {
    MinDistanceZeroIffInside(b, p);
  }

  function CenterGaps(a: Box, b: Box): (r: seq<real>)
    requires |a| == |b|
    ensures |r| == |a| && AllNonNegative(r)
    ensures forall i | 0 <= i < |a| :: r[i] == Sq(Center(a)[i] - Center(b)[i])
  {
    seq(|a|, i requires 0 <= i < |a| => Sq(Center(a)[i] - Center(b)[i]))
  }

  /** The squared Euclidean distance between the centers of two boxes. */
  function CenterDistanceSq(a: Box, b: Box): (r: real)
    requires |a| == |b|
    ensures r >= 0.0
  {
    SumNonNegative(CenterGaps(a, b));
    Sum(CenterGaps(a, b))
  }

  lemma CenterDistanceSymmetric(a: Box, b: Box)
    requires |a| == |b|
    ensures CenterDistanceSq(a, b) == CenterDistanceSq(b, a)
  {
    assert CenterGaps(a, b) == CenterGaps(b, a);
  }

  /** The distance between centers is zero exactly when the centers coincide. */
  lemma CenterDistanceZeroIff(a: Box, b: Box)
    requires |a| == |b|
    ensures CenterDistanceSq(a, b) == 0.0 <==> Center(a) == Center(b)
  {
    var g := CenterGaps(a, b);
    SumZeroIff(g);
    forall i | 0 <= i < |a| ensures g[i] == 0.0 <==> Center(a)[i] == Center(b)[i] {
      SqPositive(Center(a)[i] - Center(b)[i]);
    }
  }
}
