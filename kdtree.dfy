// The k-d tree node of include/kdtreepp/eigenkdtree.hpp: its data, its
// recursive median-split construction over an item array, and what a built
// tree is.

module KdTree {
  import opened Geometry
  import opened Selection

  /** The two caller-supplied projections of the constructor and the
      dimension N of the tree: the sort point of an item (used only to order
      items along the split axis) and its bounds element (used only to grow
      the node's box). */
  datatype Projections<!T> = Projections(n: nat, sortPoint: T -> Point, boundsElement: T -> Element)

  /** An item whose projections have the tree's dimension. */
  predicate Fits<T>(g: Projections<T>, x: T) {
    |g.sortPoint(x)| == g.n && HasDim(ElementBox(g.boundsElement(x)), g.n)
  }

  /** [lo, hi) is a range of `s` whose items all fit a tree of positive
      dimension. */
  predicate AllFit<T>(g: Projections<T>, s: seq<T>, lo: nat, hi: nat) {
    lo <= hi <= |s| && g.n > 0 && forall i :: lo <= i < hi ==> Fits(g, s[i])
  }

  /** The sort-point coordinate the split compares along `axis`. */
  function Coord<T>(g: Projections<T>, axis: nat, x: T): int {
    if axis < |g.sortPoint(x)| then g.sortPoint(x)[axis] else 0
  }

  /** The comparison key of the split along `axis`. */
  function AxisKey<T>(g: Projections<T>, axis: nat): T -> int {
    x => Coord(g, axis, x)
  }

  /** The midpoint offset of a range of `count` items: `count / 2`. */
  function Half(count: nat): (h: nat)
    ensures h <= count && (count > 0 ==> h < count)
  {
    count / 2
  }

  /** The node body: a leaf holds the index range [begin, end) of the caller's
      item array, a branch owns two children. */
  datatype Body = Leaf(begin: nat, end: nat) | Branch(left: Node, right: Node)

  datatype Node = Node(bounds: Box, body: Body) {
    predicate IsLeaf() { body.Leaf? }
    predicate IsBranch() { body.Branch? }
  }

  /** The box the constructor's bounds loop computes over [lo, hi): the empty
      box extended by each item's bounds element in turn. */
  function BoundsOf<T>(g: Projections<T>, s: seq<T>, lo: nat, hi: nat): (b: Box)
    requires AllFit(g, s, lo, hi)
    ensures HasDim(b, g.n)
    decreases hi - lo
  {
    if hi == lo then Empty else Extend(BoundsOf(g, s, lo, hi - 1), g.boundsElement(s[hi - 1]), g.n)
  }

  /** The box covers the bounds element of every item of the range. */
  lemma {:induction false} BoundsCover<T>(g: Projections<T>, s: seq<T>, lo: nat, hi: nat)
    requires AllFit(g, s, lo, hi)
    ensures forall i :: lo <= i < hi ==> Encloses(BoundsOf(g, s, lo, hi), ElementBox(g.boundsElement(s[i])))
    decreases hi - lo
  {
    if hi > lo {
      BoundsCover(g, s, lo, hi - 1);
      var b := BoundsOf(g, s, lo, hi);
      forall i | lo <= i < hi - 1
        ensures Encloses(b, ElementBox(g.boundsElement(s[i])))
      {
        EnclosesTransitive(b, BoundsOf(g, s, lo, hi - 1), ElementBox(g.boundsElement(s[i])));
      }
    }
  }

  /** ... and it is the least box that does. */
  lemma {:induction false} BoundsOfLeast<T>(g: Projections<T>, s: seq<T>, lo: nat, hi: nat, c: Box)
    requires AllFit(g, s, lo, hi) && HasDim(c, g.n)
    requires forall i :: lo <= i < hi ==> Encloses(c, ElementBox(g.boundsElement(s[i])))
    ensures Encloses(c, BoundsOf(g, s, lo, hi))
    decreases hi - lo
  {
    if hi > lo {
      BoundsOfLeast(g, s, lo, hi - 1, c);
      ExtendLeast(BoundsOf(g, s, lo, hi - 1), g.boundsElement(s[hi - 1]), g.n, c);
    }
  }

  /** The box of a range is empty exactly when the bounds element of every
      item in it is empty; in particular an empty range has the empty box. */
  lemma {:induction false} BoundsEmptyIff<T>(g: Projections<T>, s: seq<T>, lo: nat, hi: nat)
    requires AllFit(g, s, lo, hi)
    ensures BoundsOf(g, s, lo, hi).Empty? <==> forall i :: lo <= i < hi ==> ElementBox(g.boundsElement(s[i])).Empty?
    decreases hi - lo
  {
    if hi > lo {
      BoundsEmptyIff(g, s, lo, hi - 1);
    }
  }

  /** The box depends only on the items of the range. */
  lemma {:induction false} BoundsFrame<T>(g: Projections<T>, s: seq<T>, t: seq<T>, lo: nat, hi: nat)
    requires AllFit(g, s, lo, hi) && hi <= |t|
    requires forall i :: lo <= i < hi ==> t[i] == s[i]
    ensures AllFit(g, t, lo, hi) && BoundsOf(g, t, lo, hi) == BoundsOf(g, s, lo, hi)
    decreases hi - lo
  {
    if hi > lo {
      BoundsFrame(g, s, t, lo, hi - 1);
    }
  }

  /** Permuting a range keeps every item fitting. */
  lemma AllFitPermutation<T>(g: Projections<T>, s: seq<T>, t: seq<T>, lo: nat, hi: nat)
    requires AllFit(g, s, lo, hi) && |s| == |t| && multiset(t[lo..hi]) == multiset(s[lo..hi])
    ensures AllFit(g, t, lo, hi)
  {
    forall j | lo <= j < hi
      ensures Fits(g, t[j])
    {
      var k := FromSlice(s, t, lo, hi, j);
    }
  }

  /** The box does not depend on the order of the items, so computing it
      before the in-place split gives the box of the split range too. */
  lemma BoundsOfPermutation<T>(g: Projections<T>, s: seq<T>, t: seq<T>, lo: nat, hi: nat)
    requires AllFit(g, s, lo, hi) && |s| == |t| && multiset(t[lo..hi]) == multiset(s[lo..hi])
    ensures AllFit(g, t, lo, hi) && BoundsOf(g, t, lo, hi) == BoundsOf(g, s, lo, hi)
  {
    AllFitPermutation(g, s, t, lo, hi);
    var bs, bt := BoundsOf(g, s, lo, hi), BoundsOf(g, t, lo, hi);
    BoundsCover(g, s, lo, hi);
    BoundsCover(g, t, lo, hi);
    forall j | lo <= j < hi
      ensures Encloses(bs, ElementBox(g.boundsElement(t[j])))
    {
      var k := FromSlice(s, t, lo, hi, j);
    }
    BoundsOfLeast(g, t, lo, hi, bs);
    forall j | lo <= j < hi
      ensures Encloses(bt, ElementBox(g.boundsElement(s[j])))
    {
      var k := FromSlice(t, s, lo, hi, j);
    }
    BoundsOfLeast(g, s, lo, hi, bt);
    EnclosesAntisymmetric(bs, bt);
  }

  /** `node` is what the constructor produces over the range [lo, hi) of the
      final item sequence `s`, given the leaf size and the depth budget: its
      box is the box of the range; it is a leaf over the whole range when the
      budget is used up or the range is small enough; otherwise the range is
      split at lo + (hi - lo) / 2 so that, along the major axis of the box, no
      sort coordinate on the left exceeds one on the right, and the children
      are built over the two halves with one less level of budget. */
  ghost predicate Built<T>(node: Node, s: seq<T>, lo: nat, hi: nat, g: Projections<T>, maxPerLeaf: int, maxSubDivs: int)
    requires AllFit(g, s, lo, hi)
    decreases if maxSubDivs > 0 then maxSubDivs else 0
  {
    node.bounds == BoundsOf(g, s, lo, hi) &&
    if maxSubDivs <= 0 || hi - lo <= maxPerLeaf then
      node.body == Leaf(lo, hi)
    else
      var mid := lo + Half(hi - lo);
      node.body.Branch? &&
      Split(s, lo, mid, hi, AxisKey(g, MajorAxis(node.bounds, g.n))) &&
      Built(node.body.left, s, lo, mid, g, maxPerLeaf, maxSubDivs - 1) &&
      Built(node.body.right, s, mid, hi, g, maxPerLeaf, maxSubDivs - 1)
  }

  /** A built node stays built when items outside its range change. */
  lemma {:induction false} BuiltFrame<T>(node: Node, s: seq<T>, t: seq<T>, lo: nat, hi: nat, g: Projections<T>, maxPerLeaf: int, maxSubDivs: int)
    requires AllFit(g, s, lo, hi) && hi <= |t|
    requires forall i :: lo <= i < hi ==> t[i] == s[i]
    ensures AllFit(g, t, lo, hi)
    ensures Built(node, s, lo, hi, g, maxPerLeaf, maxSubDivs) ==> Built(node, t, lo, hi, g, maxPerLeaf, maxSubDivs)
    decreases if maxSubDivs > 0 then maxSubDivs else 0
  {
    BoundsFrame(g, s, t, lo, hi);
    if Built(node, s, lo, hi, g, maxPerLeaf, maxSubDivs) && maxSubDivs > 0 && hi - lo > maxPerLeaf {
      var mid := lo + Half(hi - lo);
      BuiltFrame(node.body.left, s, t, lo, mid, g, maxPerLeaf, maxSubDivs - 1);
      BuiltFrame(node.body.right, s, t, mid, hi, g, maxPerLeaf, maxSubDivs - 1);
    }
  }

  /** The constructor's bounds loop: the box of the items in [lo, hi). */
  method ComputeBounds<T>(a: array<T>, lo: nat, hi: nat, g: Projections<T>) returns (bounds: Box)
    requires AllFit(g, a[..], lo, hi)
    ensures bounds == BoundsOf(g, a[..], lo, hi)
  {
    bounds := Empty;
    for i := lo to hi
      invariant bounds == BoundsOf(g, a[..], lo, i)
    {
      bounds := Extend(bounds, g.boundsElement(a[i]), g.n);
    }
  }

  /** The array states around the two child constructions: before them (s1),
      after the left child reordered [lo, mid) (s2) and after the right child
      reordered [mid, hi) (s3). */
  lemma ChildFrames<T>(s1: seq<T>, s2: seq<T>, s3: seq<T>, lo: nat, mid: nat, hi: nat)
    requires lo <= mid <= hi <= |s1| == |s2| == |s3|
    requires s2[..lo] == s1[..lo] && s2[mid..] == s1[mid..]
    requires s3[..mid] == s2[..mid] && s3[hi..] == s2[hi..]
    ensures s3[..lo] == s1[..lo] && s3[hi..] == s1[hi..]
    ensures s3[lo..mid] == s2[lo..mid] && forall i :: lo <= i < mid ==> s3[i] == s2[i]
  {
    assert s3[lo..mid] == s3[..mid][lo..] == s2[..mid][lo..] == s2[lo..mid];
    assert s3[..lo] == s3[..mid][..lo] == s2[..mid][..lo] == s2[..lo];
    assert s3[hi..] == s2[hi..] == s2[mid..][hi - mid..] == s1[mid..][hi - mid..] == s1[hi..];
    forall i | lo <= i < mid
      ensures s3[i] == s2[i]
    {
      assert s3[i] == s3[..mid][i];
    }
  }

  /** The branch case of the constructor, on the array contents before the
      split (s0), after it (s1) and after both children (s3): the range is a
      permutation of what it was and still split along the axis at mid, so
      the node over it is built once its children are. */
  lemma BranchFacts<T>(g: Projections<T>, s0: seq<T>, s1: seq<T>, s3: seq<T>,
                       lo: nat, mid: nat, hi: nat, axis: nat, bounds: Box,
                       left: Node, right: Node, maxPerLeaf: int, maxSubDivs: int)
    requires lo <= mid <= hi <= |s0| == |s1| == |s3|
    requires AllFit(g, s0, lo, hi) && bounds == BoundsOf(g, s0, lo, hi)
    requires s1[..lo] == s0[..lo] && s1[hi..] == s0[hi..] && multiset(s1[lo..hi]) == multiset(s0[lo..hi])
    requires Split(s1, lo, mid, hi, AxisKey(g, axis))
    requires s3[..lo] == s1[..lo] && s3[hi..] == s1[hi..]
    requires multiset(s3[lo..mid]) == multiset(s1[lo..mid]) && multiset(s3[mid..hi]) == multiset(s1[mid..hi])
    ensures s3[..lo] == s0[..lo] && s3[hi..] == s0[hi..]
    ensures multiset(s3[lo..hi]) == multiset(s0[lo..hi])
    ensures AllFit(g, s3, lo, hi) && AllFit(g, s3, lo, mid) && AllFit(g, s3, mid, hi)
    ensures mid == lo + Half(hi - lo) && maxSubDivs > 0 && hi - lo > maxPerLeaf && axis == MajorAxis(bounds, g.n) ==>
            Built(left, s3, lo, mid, g, maxPerLeaf, maxSubDivs - 1) &&
            Built(right, s3, mid, hi, g, maxPerLeaf, maxSubDivs - 1) ==>
            Built(Node(bounds, Branch(left, right)), s3, lo, hi, g, maxPerLeaf, maxSubDivs)
  {
    assert s3[lo..hi] == s3[lo..mid] + s3[mid..hi];
    assert s1[lo..hi] == s1[lo..mid] + s1[mid..hi];
    HalvesKeepSplit(s1, s3, lo, mid, hi, AxisKey(g, axis));
    BoundsOfPermutation(g, s0, s3, lo, hi);
    if mid == lo + Half(hi - lo) && maxSubDivs > 0 && hi - lo > maxPerLeaf && axis == MajorAxis(bounds, g.n) {
      BranchOfHalves(g, s3, lo, mid, hi, bounds, left, right, maxPerLeaf, maxSubDivs);
    }
  }

  /** A node over a range split at its midpoint along the major axis of its
      box, whose children are built over the halves, is built. */
  lemma BranchOfHalves<T>(g: Projections<T>, s: seq<T>, lo: nat, mid: nat, hi: nat, bounds: Box,
                          left: Node, right: Node, maxPerLeaf: int, maxSubDivs: int)
    requires AllFit(g, s, lo, hi) && bounds == BoundsOf(g, s, lo, hi)
    requires mid == lo + Half(hi - lo) && maxSubDivs > 0 && hi - lo > maxPerLeaf
    requires Split(s, lo, mid, hi, AxisKey(g, MajorAxis(bounds, g.n)))
    ensures Built(left, s, lo, mid, g, maxPerLeaf, maxSubDivs - 1) &&
            Built(right, s, mid, hi, g, maxPerLeaf, maxSubDivs - 1) ==>
            Built(Node(bounds, Branch(left, right)), s, lo, hi, g, maxPerLeaf, maxSubDivs)
  {
  }

  /** The EigenKdTreeNode constructor over the range [lo, hi) of the item
      array: it computes the box of the range, and unless the depth budget is
      used up or the range holds at most maxPerLeaf items, median-splits the
      range in place along the box's major axis and builds a child from each
      half with one level less of budget. Only the range is reordered. */
  method Build<T>(a: array<T>, lo: nat, hi: nat, g: Projections<T>, maxPerLeaf: int, maxSubDivs: int)
    returns (node: Node)
    requires AllFit(g, a[..], lo, hi)
    modifies a
    ensures a[..lo] == old(a[..lo]) && a[hi..] == old(a[hi..])
    ensures multiset(a[lo..hi]) == multiset(old(a[lo..hi]))
    ensures AllFit(g, a[..], lo, hi) && Built(node, a[..], lo, hi, g, maxPerLeaf, maxSubDivs)
    ensures maxSubDivs <= 0 || hi - lo <= maxPerLeaf ==> a[..] == old(a[..]) && node.body == Leaf(lo, hi)
    decreases if maxSubDivs > 0 then maxSubDivs else 0, 1
  {
    var bounds := ComputeBounds(a, lo, hi, g);
    if maxSubDivs > 0 && hi - lo > maxPerLeaf {
      ghost var s0 := a[..];
      var axis := MajorAxis(bounds, g.n);
      var mid := lo + Half(hi - lo);
      NthElement(a, lo, mid, hi, AxisKey(g, axis));
      ghost var s1 := a[..];
      AllFitPermutation(g, s0, s1, lo, hi);
      var left, right := BuildChildren(a, lo, mid, hi, g, maxPerLeaf, maxSubDivs);
      node := Node(bounds, Branch(left, right));
      BranchFacts(g, s0, s1, a[..], lo, mid, hi, axis, bounds, left, right, maxPerLeaf, maxSubDivs);
    } else {
      node := Node(bounds, Leaf(lo, hi));
    }
  }

  /** The two recursive constructor calls of a branch: the left child over
      [lo, mid), then the right child over [mid, hi), each with one level
      less of budget. Each child reorders only its own half. */
  method BuildChildren<T>(a: array<T>, lo: nat, mid: nat, hi: nat, g: Projections<T>, maxPerLeaf: int, maxSubDivs: int)
    returns (left: Node, right: Node)
    requires lo <= mid <= hi && AllFit(g, a[..], lo, hi) && maxSubDivs > 0
    modifies a
    ensures a[..lo] == old(a[..lo]) && a[hi..] == old(a[hi..])
    ensures multiset(a[lo..mid]) == multiset(old(a[lo..mid])) && multiset(a[mid..hi]) == multiset(old(a[mid..hi]))
    ensures AllFit(g, a[..], lo, mid) && Built(left, a[..], lo, mid, g, maxPerLeaf, maxSubDivs - 1)
    ensures AllFit(g, a[..], mid, hi) && Built(right, a[..], mid, hi, g, maxPerLeaf, maxSubDivs - 1)
    decreases maxSubDivs, 0
  {
    ghost var s1 := a[..];
    left := Build(a, lo, mid, g, maxPerLeaf, maxSubDivs - 1);
    ghost var s2 := a[..];
    assert forall i :: mid <= i < hi ==> s2[i] == s2[mid..][i - mid] == s1[mid..][i - mid] == s1[i];
    assert s2[mid..hi] == s2[mid..][..hi - mid];
    assert s1[mid..hi] == s1[mid..][..hi - mid];
    right := Build(a, mid, hi, g, maxPerLeaf, maxSubDivs - 1);
    ChildFrames(s1, s2, a[..], lo, mid, hi);
    LeftStaysBuilt(left, s2, a[..], lo, mid, g, maxPerLeaf, maxSubDivs - 1);
  }

  lemma LeftStaysBuilt<T>(left: Node, s2: seq<T>, s3: seq<T>, lo: nat, mid: nat, g: Projections<T>, maxPerLeaf: int, maxSubDivs: int)
    requires AllFit(g, s2, lo, mid) && Built(left, s2, lo, mid, g, maxPerLeaf, maxSubDivs)
    requires mid <= |s3| && forall i :: lo <= i < mid ==> s3[i] == s2[i]
    ensures AllFit(g, s3, lo, mid) && Built(left, s3, lo, mid, g, maxPerLeaf, maxSubDivs)
  {
    BuiltFrame(left, s2, s3, lo, mid, g, maxPerLeaf, maxSubDivs);
  }

  /** The constructor's default leaf size and depth budget. */
  const DefaultMaxPerLeaf: int := 8
  const DefaultMaxSubDivs: int := 16

  /** MakeEigenKdTreeNode: the constructor over the whole item array. */
  method MakeTree<T>(a: array<T>, g: Projections<T>, maxPerLeaf: int, maxSubDivs: int) returns (node: Node)
    requires AllFit(g, a[..], 0, a.Length)
    modifies a
    ensures multiset(a[..]) == multiset(old(a[..]))
    ensures AllFit(g, a[..], 0, a.Length) && Built(node, a[..], 0, a.Length, g, maxPerLeaf, maxSubDivs)
    ensures LeafIndices(node) == Range(0, a.Length) && LeavesWithin(node, a.Length)
    ensures Covers(node, a[..], 0, a.Length, g)
    ensures Depth(node) <= if maxSubDivs > 0 then maxSubDivs else 0
    ensures node.IsLeaf() <==> maxSubDivs <= 0 || a.Length <= maxPerLeaf
    ensures node.IsLeaf() ==> a[..] == old(a[..])
  {
    node := Build(a, 0, a.Length, g, maxPerLeaf, maxSubDivs);
    assert a[..] == a[0..a.Length];
    assert old(a[..]) == old(a[0..a.Length]);
    BuiltLeafCondition(node, a[..], 0, a.Length, g, maxPerLeaf, maxSubDivs);
    BuiltLeaves(node, a[..], 0, a.Length, g, maxPerLeaf, maxSubDivs);
    BuiltDepth(node, a[..], 0, a.Length, g, maxPerLeaf, maxSubDivs);
    BuiltCovers(node, a[..], 0, a.Length, g, maxPerLeaf, maxSubDivs);
  }

  /** The item indices [b, e), in order. */
  function Range(b: nat, e: nat): (r: seq<nat>)
    ensures |r| == if b <= e then e - b else 0
    ensures forall k :: 0 <= k < |r| ==> r[k] == b + k
  {
    seq(if b <= e then e - b else 0, k requires k >= 0 => b + k)
  }

  /** The item indices of the leaves of a tree, left subtree first. */
  function LeafIndices(node: Node): seq<nat> {
    match node.body
    case Leaf(b, e) => Range(b, e)
    case Branch(left, right) => LeafIndices(left) + LeafIndices(right)
  }

  /** Every leaf range is a well-formed range [b, e) with e <= n. */
  predicate LeavesWithin(node: Node, n: nat) {
    match node.body
    case Leaf(b, e) => b <= e <= n
    case Branch(left, right) => LeavesWithin(left, n) && LeavesWithin(right, n)
  }

  lemma LeavesWithinWiden(node: Node, n: nat, m: nat)
    requires LeavesWithin(node, n) && n <= m
    ensures LeavesWithin(node, m)
  {
  }

  /** The number of branch levels above the deepest leaf. */
  function Depth(node: Node): nat {
    match node.body
    case Leaf(_, _) => 0
    case Branch(left, right) => 1 + (if Depth(left) < Depth(right) then Depth(right) else Depth(left))
  }

  /** The constructor makes a leaf exactly when the depth budget is used up
      or the range holds at most maxPerLeaf items, and the leaf is then the
      whole range. */
  lemma BuiltLeafCondition<T>(node: Node, s: seq<T>, lo: nat, hi: nat, g: Projections<T>, maxPerLeaf: int, maxSubDivs: int)
    requires AllFit(g, s, lo, hi) && Built(node, s, lo, hi, g, maxPerLeaf, maxSubDivs)
    ensures node.IsLeaf() <==> maxSubDivs <= 0 || hi - lo <= maxPerLeaf
    ensures node.IsLeaf() ==> node.body == Leaf(lo, hi)
    ensures node.IsBranch() <==> !node.IsLeaf()
  {
  }

  /** Every recursive call spends one level of budget, so the tree is no
      deeper than maxSubDivs (and a single leaf when the budget is not
      positive), whatever the coordinates, duplicates included. */
  lemma {:induction false} BuiltDepth<T>(node: Node, s: seq<T>, lo: nat, hi: nat, g: Projections<T>, maxPerLeaf: int, maxSubDivs: int)
    requires AllFit(g, s, lo, hi)
    ensures Built(node, s, lo, hi, g, maxPerLeaf, maxSubDivs) ==> Depth(node) <= if maxSubDivs > 0 then maxSubDivs else 0
    decreases if maxSubDivs > 0 then maxSubDivs else 0
  {
    if Built(node, s, lo, hi, g, maxPerLeaf, maxSubDivs) && maxSubDivs > 0 && hi - lo > maxPerLeaf {
      var mid := lo + Half(hi - lo);
      BuiltDepth(node.body.left, s, lo, mid, g, maxPerLeaf, maxSubDivs - 1);
      BuiltDepth(node.body.right, s, mid, hi, g, maxPerLeaf, maxSubDivs - 1);
    }
  }

  /** The leaf ranges, left to right, are exactly the node's range [lo, hi):
      disjoint and covering it. */
  lemma {:induction false} BuiltLeaves<T>(node: Node, s: seq<T>, lo: nat, hi: nat, g: Projections<T>, maxPerLeaf: int, maxSubDivs: int)
    requires AllFit(g, s, lo, hi)
    ensures Built(node, s, lo, hi, g, maxPerLeaf, maxSubDivs) ==> LeafIndices(node) == Range(lo, hi) && LeavesWithin(node, hi)
    decreases if maxSubDivs > 0 then maxSubDivs else 0
  {
    if Built(node, s, lo, hi, g, maxPerLeaf, maxSubDivs) && maxSubDivs > 0 && hi - lo > maxPerLeaf {
      var mid := lo + Half(hi - lo);
      BuiltLeaves(node.body.left, s, lo, mid, g, maxPerLeaf, maxSubDivs - 1);
      BuiltLeaves(node.body.right, s, mid, hi, g, maxPerLeaf, maxSubDivs - 1);
      assert Range(lo, mid) + Range(mid, hi) == Range(lo, hi);
      LeavesWithinWiden(node.body.left, mid, hi);
    }
  }

  /** The shape of a constructed tree, whatever its budget: each node's box
      is the box of its range, a leaf holds its whole range, and a branch
      splits its range at the midpoint. */
  ghost predicate Covers<T>(node: Node, s: seq<T>, lo: nat, hi: nat, g: Projections<T>)
    requires AllFit(g, s, lo, hi)
    decreases node
  {
    node.bounds == BoundsOf(g, s, lo, hi) &&
    match node.body
    case Leaf(b, e) => b == lo && e == hi
    case Branch(left, right) =>
      var mid := lo + Half(hi - lo);
      Covers(left, s, lo, mid, g) && Covers(right, s, mid, hi, g)
  }

  lemma {:induction false} BuiltCovers<T>(node: Node, s: seq<T>, lo: nat, hi: nat, g: Projections<T>, maxPerLeaf: int, maxSubDivs: int)
    requires AllFit(g, s, lo, hi)
    ensures Built(node, s, lo, hi, g, maxPerLeaf, maxSubDivs) ==> Covers(node, s, lo, hi, g)
    decreases if maxSubDivs > 0 then maxSubDivs else 0
  {
    if Built(node, s, lo, hi, g, maxPerLeaf, maxSubDivs) && maxSubDivs > 0 && hi - lo > maxPerLeaf {
      var mid := lo + Half(hi - lo);
      BuiltCovers(node.body.left, s, lo, mid, g, maxPerLeaf, maxSubDivs - 1);
      BuiltCovers(node.body.right, s, mid, hi, g, maxPerLeaf, maxSubDivs - 1);
    }
  }

  /** A node's box covers each item of its range, so it covers the box of
      each half: a child's box lies inside its parent's. */
  lemma ChildBoundsInside<T>(node: Node, s: seq<T>, lo: nat, hi: nat, g: Projections<T>, maxPerLeaf: int, maxSubDivs: int)
    requires AllFit(g, s, lo, hi) && Built(node, s, lo, hi, g, maxPerLeaf, maxSubDivs)
    requires node.IsBranch()
    ensures Encloses(node.bounds, node.body.left.bounds) && Encloses(node.bounds, node.body.right.bounds)
  {
    var mid := lo + Half(hi - lo);
    BoundsCover(g, s, lo, hi);
    BoundsOfLeast(g, s, lo, mid, node.bounds);
    BoundsOfLeast(g, s, mid, hi, node.bounds);
  }
}
