// Axis-aligned boxes over integer coordinates: the part of Eigen::AlignedBox
// that the k-d tree node uses (setEmpty, extend, sizes().maxCoeff), and the
// one that the nearest-neighbour test's bounds test uses
// (squaredExteriorDistance, test/test.cpp:56).

module Geometry {

  type Point = seq<int>

  /** An axis-aligned box. `Empty` is the value `setEmpty` produces: its lower
      corner is the largest scalar and its upper corner the lowest in every
      dimension, so that extending it by anything yields that thing. A `Box` may still be
      inverted in some dimension (lo[d] > hi[d]) when a caller supplies one. */
  datatype Box = Empty | Box(lo: Point, hi: Point)

  /** What a bounds getter may return: a point or a box. */
  datatype Element = Pt(p: Point) | Bx(b: Box)

  predicate HasDim(b: Box, n: nat) {
    b.Empty? || (|b.lo| == n && |b.hi| == n)
  }

  /** A point extends a box exactly as the degenerate box [p, p] does. */
  function ElementBox(e: Element): Box {
    match e
    case Pt(p) => Box(p, p)
    case Bx(b) => b
  }

  function Min(x: int, y: int): int { if x <= y then x else y }

  function Max(x: int, y: int): int { if x <= y then y else x }

  /** `outer` covers `inner`: extending `outer` by `inner` leaves it unchanged. */
  predicate Encloses(outer: Box, inner: Box) {
    inner.Empty? ||
    (outer.Box? && |outer.lo| == |inner.lo| && |outer.hi| == |inner.hi| && |inner.lo| == |inner.hi| &&
     forall d :: 0 <= d < |inner.lo| ==> outer.lo[d] <= inner.lo[d] && inner.hi[d] <= outer.hi[d])
  }

  /** AlignedBox::extend, by a point or by a box: the cwise minimum of the lower
      corners and the cwise maximum of the upper corners. The result is the
      least box that covers both arguments. */
  function Extend(b: Box, e: Element, n: nat): (r: Box)
    requires HasDim(b, n) && HasDim(ElementBox(e), n)
    ensures HasDim(r, n)
    ensures Encloses(r, b) && Encloses(r, ElementBox(e))
    ensures r.Empty? <==> b.Empty? && ElementBox(e).Empty?
  {
    var eb := ElementBox(e);
    if eb.Empty? then b
    else if b.Empty? then eb
    else Box(seq(n, d requires 0 <= d < n => Min(b.lo[d], eb.lo[d])),
             seq(n, d requires 0 <= d < n => Max(b.hi[d], eb.hi[d])))
  }

  /** Extend gives the least box covering both arguments. */
  lemma ExtendLeast(b: Box, e: Element, n: nat, c: Box)
    requires HasDim(b, n) && HasDim(ElementBox(e), n) && HasDim(c, n)
    requires Encloses(c, b) && Encloses(c, ElementBox(e))
    ensures Encloses(c, Extend(b, e, n))
  {
  }

  lemma EnclosesTransitive(a: Box, b: Box, c: Box)
    requires Encloses(a, b) && Encloses(b, c)
    ensures Encloses(a, c)
  {
  }

  lemma EnclosesAntisymmetric(a: Box, b: Box)
    requires Encloses(a, b) && Encloses(b, a)
    ensures a == b
  {
    if a.Box? && b.Box? {
      assert a.lo == b.lo;
      assert a.hi == b.hi;
    }
  }

  /** The per-dimension extent hi - lo of a box: Eigen's `sizes()`. */
  function Extents(lo: Point, hi: Point): (r: seq<int>)
    requires |lo| == |hi|
    ensures |r| == |lo|
    ensures forall d :: 0 <= d < |r| ==> r[d] == hi[d] - lo[d]
  {
    seq(|lo|, d requires 0 <= d < |lo| => hi[d] - lo[d])
  }

  /** Eigen's `maxCoeff(&index)`: the position of the largest entry, the first
      such position when several are equal (the scan replaces its candidate
      only on a strictly larger entry). */
  function MaxIndex(s: seq<int>): (k: nat)
    requires |s| > 0
    ensures k < |s|
    ensures forall i :: 0 <= i < |s| ==> s[i] <= s[k]
    ensures forall i :: 0 <= i < k ==> s[i] < s[k]
  {
    if |s| == 1 then 0
    else
      var k := MaxIndex(s[..|s| - 1]);
      if s[|s| - 1] > s[k] then |s| - 1 else k
  }

  /** The axis the node splits along: the dimension of largest extent, the
      smallest such dimension on ties. For the empty box every extent is
      -infinity, so Eigen picks dimension 0. */
  function MajorAxis(b: Box, n: nat): (axis: nat)
    requires n > 0 && HasDim(b, n)
    ensures axis < n
    ensures b.Empty? ==> axis == 0
    ensures b.Box? ==> forall d :: 0 <= d < n ==> b.hi[d] - b.lo[d] <= b.hi[axis] - b.lo[axis]
    ensures b.Box? ==> forall d :: 0 <= d < axis ==> b.hi[d] - b.lo[d] < b.hi[axis] - b.lo[axis]
  {
    if b.Empty? then 0 else MaxIndex(Extents(b.lo, b.hi))
  }

  function Square(x: int): nat { x * x }

  lemma SquareMonotone(x: int, y: int)
    requires 0 <= x <= y
    ensures Square(x) <= Square(y)
  {
    assert x * x <= x * y by {
      assert x * (y - x) >= 0;
    }
    assert x * y <= y * y by {
      assert (y - x) * y >= 0;
    }
  }

  /** Squared Euclidean distance, summed over the dimensions both points have. */
  function SqDist(p: Point, q: Point): nat
  {
    if |p| == 0 || |q| == 0 then 0 else Square(p[0] - q[0]) + SqDist(p[1..], q[1..])
  }

  /** One dimension of `squaredExteriorDistance`: how far x lies outside [lo, hi]. */
  function ExteriorTerm(lo: int, hi: int, x: int): nat
  {
    if lo > x then Square(lo - x) else if x > hi then Square(x - hi) else 0
  }

  function SqExteriorFrom(lo: Point, hi: Point, q: Point): nat
  {
    if |lo| == 0 || |hi| == 0 || |q| == 0 then 0
    else ExteriorTerm(lo[0], hi[0], q[0]) + SqExteriorFrom(lo[1..], hi[1..], q[1..])
  }

  /** AlignedBox::squaredExteriorDistance of a non-empty box: the squared
      distance from q to the nearest point of the box, 0 when q is inside. */
  function SqExteriorDistance(b: Box, q: Point): nat
    requires b.Box?
  {
    SqExteriorFrom(b.lo, b.hi, q)
  }

  lemma {:induction false} ExteriorFromBelow(lo: Point, hi: Point, p: Point, q: Point)
    requires |lo| == |hi| == |p| == |q|
    requires forall d :: 0 <= d < |p| ==> lo[d] <= p[d] <= hi[d]
    ensures SqExteriorFrom(lo, hi, q) <= SqDist(p, q)
  {
    if |p| > 0 {
      var x, y := p[0], q[0];
      if lo[0] > y {
        SquareMonotone(lo[0] - y, x - y);
      } else if y > hi[0] {
        SquareMonotone(y - hi[0], y - x);
        assert Square(y - x) == Square(x - y);
      }
      ExteriorFromBelow(lo[1..], hi[1..], p[1..], q[1..]);
    }
  }

  /** The exterior distance of a box is a lower bound on the distance to any
      point the box covers: what makes pruning a nearest-neighbour walk safe. */
  lemma ExteriorDistanceBelow(b: Box, p: Point, q: Point)
    requires b.Box? && Encloses(b, Box(p, p)) && |q| == |p|
    ensures SqExteriorDistance(b, q) <= SqDist(p, q)
  {
    ExteriorFromBelow(b.lo, b.hi, p, q);
  }
}
