// The nearest-neighbour search of test/test.cpp: a const `visit` over a tree
// of points whose bounds test prunes every box that lies no closer to the
// query than the best point found so far, and whose visitor keeps the closer
// point; and the brute-force scan over the same array that it is checked
// against.

module NearestNeighbour {
  import opened Geometry
  import opened KdTree
  import opened Traversal

  /** A tree over bare points: each point is its own sort point and its own
      bounds element. */
  function Pts(n: nat): Projections<Point> {
    Projections(n, p => p, p => Pt(p))
  }

  /** The search state: nothing found yet (the distance bound is still the
      largest double), or the closest point so far and its squared distance. */
  datatype Nearest = NoneYet | Found(distSq: nat, point: Point)

  /** One step of either search: keep p if it is strictly closer to q than
      the best so far. */
  function Closer(best: Nearest, p: Point, q: Point): Nearest {
    if best.NoneYet? || SqDist(p, q) < best.distSq then Found(SqDist(p, q), p) else best
  }

  /** A step of the search ends with the nearer of the best so far and p,
      and on a tie the earlier point stays. */
  lemma CloserIsNearer(best: Nearest, p: Point, q: Point)
    ensures Closer(best, p, q) == best || Closer(best, p, q) == Found(SqDist(p, q), p)
    ensures Closer(best, p, q).Found? && Closer(best, p, q).distSq <= SqDist(p, q)
    ensures best.Found? ==> Closer(best, p, q).distSq <= best.distSq
    ensures best.Found? && best.distSq <= SqDist(p, q) ==> Closer(best, p, q) == best
  {
  }

  /** The brute-force loop over s[lo..hi), continuing from `best`: it has
      found something once it has seen a point, and never ends further from q
      than the best it started from. ScanAnswers states what it finds. */
  function Scan(best: Nearest, s: seq<Point>, lo: nat, hi: nat, q: Point): (r: Nearest)
    requires lo <= hi <= |s|
    ensures r.Found? <==> best.Found? || lo < hi
    ensures best.Found? ==> r.distSq <= best.distSq
    decreases hi - lo
  {
    if lo == hi then best else Scan(Closer(best, s[lo], q), s, lo + 1, hi, q)
  }

  /** j is the first index of [lo, hi) whose point is closest to q. */
  ghost predicate FirstClosest(s: seq<Point>, lo: nat, hi: nat, q: Point, j: nat) {
    lo <= j < hi <= |s| &&
    (forall i :: lo <= i < hi ==> SqDist(s[j], q) <= SqDist(s[i], q)) &&
    (forall i :: lo <= i < j ==> SqDist(s[j], q) < SqDist(s[i], q))
  }

  /** `best` is the right answer for s[lo..hi): nothing for an empty range,
      otherwise the first closest point with its squared distance. */
  ghost predicate Answers(best: Nearest, s: seq<Point>, lo: nat, hi: nat, q: Point) {
    if lo == hi then best.NoneYet?
    else exists j: nat :: FirstClosest(s, lo, hi, q, j) && best == Found(SqDist(s[j], q), s[j])
  }

  lemma CloserAnswers(best: Nearest, s: seq<Point>, lo: nat, i: nat, q: Point)
    requires lo <= i < |s| && Answers(best, s, lo, i, q)
    ensures Answers(Closer(best, s[i], q), s, lo, i + 1, q)
  {
    var d := SqDist(s[i], q);
    if lo == i {
      assert FirstClosest(s, lo, i + 1, q, i);
    } else {
      var j: nat :| FirstClosest(s, lo, i, q, j) && best == Found(SqDist(s[j], q), s[j]);
      if d < best.distSq {
        assert FirstClosest(s, lo, i + 1, q, i);
      } else {
        assert FirstClosest(s, lo, i + 1, q, j);
      }
    }
  }

  /** Scanning on from a right answer for [lo, i) gives the right answer for
      [lo, hi). */
  lemma {:induction false} ScanAnswers(best: Nearest, s: seq<Point>, lo: nat, i: nat, hi: nat, q: Point)
    requires lo <= i <= hi <= |s| && Answers(best, s, lo, i, q)
    ensures Answers(Scan(best, s, i, hi, q), s, lo, hi, q)
    decreases hi - i
  {
    if i < hi {
      CloserAnswers(best, s, lo, i, q);
      ScanAnswers(Closer(best, s[i], q), s, lo, i + 1, hi, q);
    }
  }

  /** The brute-force loop of the test: over the whole array, from nothing
      found, it finds the first of the closest points. */
  method BruteNearest(a: array<Point>, q: Point) returns (best: Nearest)
    ensures best == Scan(NoneYet, a[..], 0, a.Length, q)
    ensures Answers(best, a[..], 0, a.Length, q)
  {
    best := NoneYet;
    for i := 0 to a.Length
      invariant Scan(best, a[..], i, a.Length, q) == Scan(NoneYet, a[..], 0, a.Length, q)
    {
      var rSq := SqDist(a[i], q);
      if best.NoneYet? || rSq < best.distSq {
        best := Found(rSq, a[i]);
      }
    }
    ScanAnswers(NoneYet, a[..], 0, 0, a.Length, q);
  }

  /** Scanning [lo, hi) is scanning [lo, mid) and then [mid, hi). */
  lemma {:induction false} ScanConcat(best: Nearest, s: seq<Point>, lo: nat, mid: nat, hi: nat, q: Point)
    requires lo <= mid <= hi <= |s|
    ensures Scan(best, s, lo, hi, q) == Scan(Scan(best, s, lo, mid, q), s, mid, hi, q)
    decreases mid - lo
  {
    if lo < mid {
      ScanConcat(Closer(best, s[lo], q), s, lo + 1, mid, hi, q);
    }
  }

  /** Points no closer than the best so far leave it unchanged. */
  lemma {:induction false} ScanKeeps(best: Nearest, s: seq<Point>, lo: nat, hi: nat, q: Point)
    requires lo <= hi <= |s| && best.Found?
    requires forall i :: lo <= i < hi ==> best.distSq <= SqDist(s[i], q)
    ensures Scan(best, s, lo, hi, q) == best
    decreases hi - lo
  {
    if lo < hi {
      ScanKeeps(best, s, lo + 1, hi, q);
    }
  }

  /** The test's bounds test: it leaves the search state alone, rejects the
      empty box, and passes every other box while nothing is found; otherwise
      it passes a box exactly when MayBeCloser does. */
  function NearTest(q: Point): (t: (Nearest, Box) -> (Nearest, bool))
    ensures forall best: Nearest, b: Box :: t(best, b).0 == best
    ensures forall best: Nearest, b: Box :: t(best, b).1 ==> b.Box?
    ensures forall b: Box :: b.Box? ==> t(NoneYet, b).1
  {
    (best: Nearest, b: Box) => (best, MayBeCloser(best, b, q))
  }

  /** A box may hold a point strictly closer than the best so far: it is
      not empty (the exterior distance of the empty box is infinite), and
      nothing is found yet or its exterior distance from q is below the best
      distance. */
  predicate MayBeCloser(best: Nearest, b: Box, q: Point) {
    b.Box? && (best.NoneYet? || SqExteriorDistance(b, q) < best.distSq)
  }

  /** The bounds test passes only non-empty boxes, passes every one of them
      while nothing is found, and a box it rejects holds no point strictly
      closer to q than the best so far. */
  lemma MayBeCloserSound(best: Nearest, b: Box, q: Point, p: Point)
    ensures MayBeCloser(best, b, q) ==> b.Box?
    ensures b.Box? && best.NoneYet? ==> MayBeCloser(best, b, q)
    ensures best.Found? && !MayBeCloser(best, b, q) && |p| == |q| && Encloses(b, Box(p, p)) ==>
              best.distSq <= SqDist(p, q)
  {
    if b.Box? && |p| == |q| && Encloses(b, Box(p, p)) {
      ExteriorDistanceBelow(b, p, q);
    }
  }

  /** The test's visitor: one step of the brute-force loop, on one point. */
  function NearVisitor(q: Point): (v: (Nearest, Point) -> Nearest)
    ensures forall best: Nearest, p: Point :: v(best, p) == Scan(best, [p], 0, 1, q)
  {
    (best: Nearest, p: Point) => Closer(best, p, q)
  }

  lemma {:induction false} VisitRangeScans(s: seq<Point>, i: nat, end: nat, best: Nearest, q: Point)
    requires i <= end <= |s|
    ensures VisitRange(s, i, end, best, ReadOnly(NearVisitor(q))).state == Scan(best, s, i, end, q)
    decreases end - i
  {
    if i < end {
      assert s[i := s[i]] == s;
      VisitRangeScans(s, i + 1, end, Closer(best, s[i], q), q);
    }
  }

  /** A node that fails the bounds test holds no point that would change the
      best so far. */
  lemma PrunedScanKeeps(s: seq<Point>, lo: nat, hi: nat, n: nat, bounds: Box, best: Nearest, q: Point)
    requires AllFit(Pts(n), s, lo, hi) && bounds == BoundsOf(Pts(n), s, lo, hi) && |q| == n
    requires !MayBeCloser(best, bounds, q)
    ensures Scan(best, s, lo, hi, q) == best
  {
    if bounds.Empty? {
      BoundsEmptyIff(Pts(n), s, lo, hi);
    } else {
      BoundsCover(Pts(n), s, lo, hi);
      forall i | lo <= i < hi
        ensures best.distSq <= SqDist(s[i], q)
      {
        assert ElementBox(Pts(n).boundsElement(s[i])) == Box(s[i], s[i]);
        MayBeCloserSound(best, bounds, q, s[i]);
      }
      ScanKeeps(best, s, lo, hi, q);
    }
  }

  /** A rejected node leaves the best so far as it was. */
  lemma SearchPruned(node: Node, s: seq<Point>, lo: nat, hi: nat, n: nat, best: Nearest, q: Point)
    requires AllFit(Pts(n), s, lo, hi) && node.bounds == BoundsOf(Pts(n), s, lo, hi) && |q| == n
    requires LeavesWithin(node, |s|) && !MayBeCloser(best, node.bounds, q)
    ensures Walk(node, s, best, NearTest(q), ReadOnly(NearVisitor(q))).state == Scan(best, s, lo, hi, q)
  {
    PrunedScanKeeps(s, lo, hi, n, node.bounds, best, q);
  }

  /** An accepted leaf scans its range. */
  lemma SearchLeaf(node: Node, s: seq<Point>, lo: nat, hi: nat, best: Nearest, q: Point)
    requires lo <= hi <= |s| && node.body == Leaf(lo, hi) && MayBeCloser(best, node.bounds, q)
    ensures Walk(node, s, best, NearTest(q), ReadOnly(NearVisitor(q))).state == Scan(best, s, lo, hi, q)
  {
    VisitRangeScans(s, lo, hi, best, q);
  }

  /** An accepted branch searches its left half and then its right half. */
  lemma SearchBranch(node: Node, s: seq<Point>, lo: nat, mid: nat, hi: nat, best: Nearest, q: Point)
    requires lo <= mid <= hi <= |s| && node.IsBranch() && LeavesWithin(node, |s|)
    requires MayBeCloser(best, node.bounds, q)
    requires Walk(node.body.left, s, best, NearTest(q), ReadOnly(NearVisitor(q))).state == Scan(best, s, lo, mid, q)
    requires var l := Walk(node.body.left, s, best, NearTest(q), ReadOnly(NearVisitor(q)));
             Walk(node.body.right, s, l.state, NearTest(q), ReadOnly(NearVisitor(q))).state == Scan(l.state, s, mid, hi, q)
    ensures Walk(node, s, best, NearTest(q), ReadOnly(NearVisitor(q))).state == Scan(best, s, lo, hi, q)
  {
    WalkReadOnly(node.body.left, s, best, NearTest(q), NearVisitor(q));
    ScanConcat(best, s, lo, mid, hi, q);
  }

  /** The tree search ends in exactly the state the brute-force loop over the
      node's range reaches from the same start: pruning loses nothing, and
      the walk meets the surviving points in index order. */
  lemma {:induction false} TreeSearchScans(node: Node, s: seq<Point>, lo: nat, hi: nat, n: nat, best: Nearest, q: Point)
    requires AllFit(Pts(n), s, lo, hi) && |q| == n && LeavesWithin(node, |s|)
    ensures Covers(node, s, lo, hi, Pts(n)) ==>
              Walk(node, s, best, NearTest(q), ReadOnly(NearVisitor(q))).state == Scan(best, s, lo, hi, q)
    decreases node
  {
    if Covers(node, s, lo, hi, Pts(n)) {
      if !MayBeCloser(best, node.bounds, q) {
        SearchPruned(node, s, lo, hi, n, best, q);
      } else if node.IsBranch() {
        var mid := lo + Half(hi - lo);
        TreeSearchScans(node.body.left, s, lo, mid, n, best, q);
        var l := Walk(node.body.left, s, best, NearTest(q), ReadOnly(NearVisitor(q)));
        TreeSearchScans(node.body.right, s, mid, hi, n, l.state, q);
        SearchBranch(node, s, lo, mid, hi, best, q);
      } else {
        SearchLeaf(node, s, lo, hi, best, q);
      }
    }
  }

  /** The tree search of the test: a const visit from nothing found. It
      returns the same point and distance as the brute-force loop over the
      array the tree was built on. */
  method NearestByTree(node: Node, a: array<Point>, n: nat, maxPerLeaf: int, maxSubDivs: int, q: Point) returns (best: Nearest)
    requires AllFit(Pts(n), a[..], 0, a.Length) && |q| == n
    requires Built(node, a[..], 0, a.Length, Pts(n), maxPerLeaf, maxSubDivs)
    ensures best == Scan(NoneYet, a[..], 0, a.Length, q)
    ensures Answers(best, a[..], 0, a.Length, q)
  {
    BuiltLeaves(node, a[..], 0, a.Length, Pts(n), maxPerLeaf, maxSubDivs);
    BuiltCovers(node, a[..], 0, a.Length, Pts(n), maxPerLeaf, maxSubDivs);
    TreeSearchScans(node, a[..], 0, a.Length, n, NoneYet, q);
    best := VisitConst(node, a, NoneYet, NearTest(q), NearVisitor(q));
    ScanAnswers(NoneYet, a[..], 0, 0, a.Length, q);
  }

  /** The test case: build a tree over the points with the default leaf size
      and depth budget, then find the point closest to q both ways. The two
      answers agree exactly. */
  method SearchBothWays(a: array<Point>, n: nat, q: Point) returns (treeBest: Nearest, bruteBest: Nearest)
    requires AllFit(Pts(n), a[..], 0, a.Length) && |q| == n
    modifies a
    ensures multiset(a[..]) == multiset(old(a[..]))
    ensures treeBest == bruteBest
    ensures Answers(treeBest, a[..], 0, a.Length, q)
  {
    var node := MakeTree(a, Pts(n), DefaultMaxPerLeaf, DefaultMaxSubDivs);
    bruteBest := BruteNearest(a, q);
    treeBest := NearestByTree(node, a, n, DefaultMaxPerLeaf, DefaultMaxSubDivs, q);
  }
}
