// The two `visit` overloads of the k-d tree node: a depth-first walk that
// asks a bounds test about each node's box, skips a node (and its whole
// subtree) whose box the test rejects, hands the items of an accepted leaf to
// a visitor in range order, and walks the left child before the right one.
//
// The test and the visitor are caller functors that may update captured
// state; here each is a function that takes the caller's state and returns
// the new state with its answer. The mutable overload's visitor may also
// rewrite the item it is given. The const overload is const only for the
// node: through a mutable iterator its visitor could still write, and such a
// walk is the mutable one. Here it is modelled with a visitor that only reads.

module Traversal {
  import opened Geometry
  import opened KdTree

  /** What a walk does, in order: a call of the bounds test on a node's box,
      or a call of the visitor on the item at an index of the array. */
  datatype Event = Tested(box: Box) | Visited(index: nat)

  /** The result of a walk: the caller's state after it, the item array after
      it, and the calls it made. */
  datatype Outcome<S, T> = Outcome(state: S, items: seq<T>, log: seq<Event>)

  /** The visits of a leaf over [b, e): one per index, in increasing order. */
  function VisitEvents(b: nat, e: nat): (r: seq<Event>)
    ensures |r| == if b <= e then e - b else 0
    ensures forall k :: 0 <= k < |r| ==> r[k] == Visited(b + k)
  {
    seq(if b <= e then e - b else 0, k requires k >= 0 => Visited(b + k))
  }

  /** The leaf loop from index i to end: the visitor sees each item in turn,
      with the state the previous call left, and may replace it. Only the
      items of [i, end) can change. */
  function VisitRange<S, T>(items: seq<T>, i: nat, end: nat, s: S, visitor: (S, T) -> (S, T)): (r: Outcome<S, T>)
    requires i <= end <= |items|
    ensures |r.items| == |items|
    ensures r.log == VisitEvents(i, end)
    ensures forall k :: 0 <= k < |items| && !(i <= k < end) ==> r.items[k] == items[k]
    decreases end - i
  {
    if i == end then Outcome(s, items, [])
    else
      var v := visitor(s, items[i]);
      var rest := VisitRange(items[i := v.1], i + 1, end, v.0, visitor);
      Outcome(rest.state, rest.items, [Visited(i)] + rest.log)
  }

  /** `visit` as a function of the tree, the item array and the caller's
      state: the bounds test sees the node's box first; a rejected node ends
      there; an accepted leaf runs the leaf loop; an accepted branch walks its
      left child and then its right child from where the left one ended. */
  function Walk<S, T>(node: Node, items: seq<T>, s: S, test: (S, Box) -> (S, bool), visitor: (S, T) -> (S, T)): (r: Outcome<S, T>)
    requires LeavesWithin(node, |items|)
    ensures |r.items| == |items|
    ensures |r.log| > 0 && r.log[0] == Tested(node.bounds)
    decreases node
  {
    var t := test(s, node.bounds);
    if !t.1 then Outcome(t.0, items, [Tested(node.bounds)])
    else
      match node.body
      case Leaf(b, e) =>
        var r := VisitRange(items, b, e, t.0, visitor);
        Outcome(r.state, r.items, [Tested(node.bounds)] + r.log)
      case Branch(left, right) =>
        var l := Walk(left, items, t.0, test, visitor);
        var r := Walk(right, l.items, l.state, test, visitor);
        Outcome(r.state, r.items, [Tested(node.bounds)] + l.log + r.log)
  }

  /** The mutable `visit`: the walk over the caller's item array, which the
      visitor may rewrite in place. */
  method Visit<S, T>(node: Node, a: array<T>, s: S, test: (S, Box) -> (S, bool), visitor: (S, T) -> (S, T)) returns (s': S)
    requires LeavesWithin(node, a.Length)
    modifies a
    ensures s' == Walk(node, old(a[..]), s, test, visitor).state
    ensures a[..] == Walk(node, old(a[..]), s, test, visitor).items
    decreases node
  {
    var t := test(s, node.bounds);
    if !t.1 {
      return t.0;
    }
    match node.body {
      case Leaf(b, e) =>
        s' := t.0;
        for i := b to e
          invariant VisitRange(a[..], i, e, s', visitor).state == VisitRange(old(a[..]), b, e, t.0, visitor).state
          invariant VisitRange(a[..], i, e, s', visitor).items == VisitRange(old(a[..]), b, e, t.0, visitor).items
        {
          var v := visitor(s', a[i]);
          s' := v.0;
          a[i] := v.1;
        }
      case Branch(left, right) =>
        s' := Visit(left, a, t.0, test, visitor);
        s' := Visit(right, a, s', test, visitor);
    }
  }

  /** A visitor that sees an item but does not change it, as a visitor of
      the walk that hands the item back unchanged. */
  function ReadOnly<S, T>(visitor: (S, T) -> S): (S, T) -> (S, T) {
    (s, x) => (visitor(s, x), x)
  }

  lemma {:induction false} VisitRangeReadOnly<S, T>(items: seq<T>, i: nat, end: nat, s: S, visitor: (S, T) -> S)
    requires i <= end <= |items|
    ensures VisitRange(items, i, end, s, ReadOnly(visitor)).items == items
    decreases end - i
  {
    if i < end {
      assert items[i := items[i]] == items;
      VisitRangeReadOnly(items, i + 1, end, visitor(s, items[i]), visitor);
    }
  }

  /** A walk whose visitor only reads leaves every item as it was. */
  lemma {:induction false} WalkReadOnly<S, T>(node: Node, items: seq<T>, s: S, test: (S, Box) -> (S, bool), visitor: (S, T) -> S)
    requires LeavesWithin(node, |items|)
    ensures Walk(node, items, s, test, ReadOnly(visitor)).items == items
    decreases node
  {
    var t := test(s, node.bounds);
    if t.1 {
      match node.body
      case Leaf(b, e) =>
        VisitRangeReadOnly(items, b, e, t.0, visitor);
      case Branch(left, right) =>
        WalkReadOnly(left, items, t.0, test, visitor);
        var l := Walk(left, items, t.0, test, ReadOnly(visitor));
        WalkReadOnly(right, items, l.state, test, visitor);
    }
  }

  /** The const `visit` with a visitor that only reads: the same walk, over
      an array it does not change. */
  method VisitConst<S, T>(node: Node, a: array<T>, s: S, test: (S, Box) -> (S, bool), visitor: (S, T) -> S) returns (s': S)
    requires LeavesWithin(node, a.Length)
    ensures s' == Walk(node, a[..], s, test, ReadOnly(visitor)).state
    decreases node
  {
    var t := test(s, node.bounds);
    if !t.1 {
      return t.0;
    }
    match node.body {
      case Leaf(b, e) =>
        s' := t.0;
        for i := b to e
          invariant VisitRange(a[..], i, e, s', ReadOnly(visitor)).state == VisitRange(a[..], b, e, t.0, ReadOnly(visitor)).state
        {
          assert a[..][i := a[i]] == a[..];
          s' := visitor(s', a[i]);
        }
      case Branch(left, right) =>
        s' := VisitConst(left, a, t.0, test, visitor);
        WalkReadOnly(left, a[..], t.0, test, visitor);
        s' := VisitConst(right, a, s', test, visitor);
    }
  }

  /** A walk changes only items it hands to the visitor. */
  lemma {:induction false} WalkChangesOnlyVisited<S, T>(node: Node, items: seq<T>, s: S, test: (S, Box) -> (S, bool), visitor: (S, T) -> (S, T))
    requires LeavesWithin(node, |items|)
    ensures forall k :: 0 <= k < |items| && Walk(node, items, s, test, visitor).items[k] != items[k] ==>
              Visited(k) in Walk(node, items, s, test, visitor).log
    decreases node
  {
    var t := test(s, node.bounds);
    if t.1 {
      match node.body
      case Leaf(b, e) =>
        var r := VisitRange(items, b, e, t.0, visitor);
        forall k | 0 <= k < |items| && r.items[k] != items[k]
          ensures Visited(k) in [Tested(node.bounds)] + r.log
        {
          assert ([Tested(node.bounds)] + r.log)[k - b + 1] == Visited(k);
        }
      case Branch(left, right) =>
        WalkChangesOnlyVisited(left, items, t.0, test, visitor);
        var l := Walk(left, items, t.0, test, visitor);
        WalkChangesOnlyVisited(right, l.items, l.state, test, visitor);
        var r := Walk(right, l.items, l.state, test, visitor);
        forall k | 0 <= k < |items| && r.items[k] != items[k]
          ensures Visited(k) in [Tested(node.bounds)] + l.log + r.log
        {
          if r.items[k] != l.items[k] {
            var j :| 0 <= j < |r.log| && r.log[j] == Visited(k);
            assert ([Tested(node.bounds)] + l.log + r.log)[1 + |l.log| + j] == Visited(k);
          } else {
            var j :| 0 <= j < |l.log| && l.log[j] == Visited(k);
            assert ([Tested(node.bounds)] + l.log + r.log)[1 + j] == Visited(k);
          }
        }
    }
  }

  /** The calls a walk makes when the test's answer depends on the box alone:
      a test of the node's box, then nothing more if it is rejected; the leaf's
      indices in order if it is an accepted leaf; the left subtree's calls and
      then the right subtree's if it is an accepted branch. */
  function Events(node: Node, accept: Box -> bool): seq<Event> {
    [Tested(node.bounds)] +
    if !accept(node.bounds) then []
    else
      match node.body
      case Leaf(b, e) => VisitEvents(b, e)
      case Branch(left, right) => Events(left, accept) + Events(right, accept)
  }

  /** `test` answers `accept` of the box whatever the state. */
  ghost predicate AnswersBy<S(!new)>(test: (S, Box) -> (S, bool), accept: Box -> bool) {
    forall s, b :: test(s, b).1 == accept(b)
  }

  /** When the test's answer depends on the box alone, the walk makes exactly
      the calls Events lists, whatever the state and the visitor do. */
  lemma {:induction false} WalkEvents<S(!new), T>(node: Node, items: seq<T>, s: S, test: (S, Box) -> (S, bool), visitor: (S, T) -> (S, T), accept: Box -> bool)
    requires LeavesWithin(node, |items|) && AnswersBy(test, accept)
    ensures Walk(node, items, s, test, visitor).log == Events(node, accept)
    decreases node
  {
    var t := test(s, node.bounds);
    assert t.1 == accept(node.bounds);
    if t.1 {
      match node.body
      case Leaf(b, e) =>
      case Branch(left, right) =>
        WalkEvents(left, items, t.0, test, visitor, accept);
        var l := Walk(left, items, t.0, test, visitor);
        WalkEvents(right, l.items, l.state, test, visitor, accept);
        assert [Tested(node.bounds)] + l.log + Events(right, accept) == [Tested(node.bounds)] + (l.log + Events(right, accept));
    }
  }

  /** The indices handed to the visitor, in order. */
  function Indices(log: seq<Event>): seq<nat> {
    if log == [] then []
    else (if log[0].Visited? then [log[0].index] else []) + Indices(log[1..])
  }

  lemma {:induction false} IndicesAppend(x: seq<Event>, y: seq<Event>)
    ensures Indices(x + y) == Indices(x) + Indices(y)
    decreases |x|
  {
    if x != [] {
      var head := if x[0].Visited? then [x[0].index] else [];
      assert (x + y)[0] == x[0];
      assert (x + y)[1..] == x[1..] + y;
      IndicesAppend(x[1..], y);
      calc {
        Indices(x + y);
        head + Indices(x[1..] + y);
        head + (Indices(x[1..]) + Indices(y));
        (head + Indices(x[1..])) + Indices(y);
        Indices(x) + Indices(y);
      }
    } else {
      assert x + y == y;
    }
  }

  lemma {:induction false} IndicesOfLeaf(b: nat, e: nat)
    ensures Indices(VisitEvents(b, e)) == Range(b, e)
    decreases if b <= e then e - b else 0
  {
    if b < e {
      assert VisitEvents(b, e)[1..] == VisitEvents(b + 1, e);
      IndicesOfLeaf(b + 1, e);
    }
  }

  /** Events one level down: no visits below a rejected node, the leaf's
      range below an accepted leaf, the left then the right subtree's visits
      below an accepted branch. */
  lemma IndicesOfEvents(node: Node, accept: Box -> bool)
    ensures Indices(Events(node, accept)) ==
      if !accept(node.bounds) then []
      else match node.body
        case Leaf(b, e) => Range(b, e)
        case Branch(left, right) => Indices(Events(left, accept)) + Indices(Events(right, accept))
  {
    var rest := Events(node, accept)[1..];
    assert Events(node, accept) == [Tested(node.bounds)] + rest;
    IndicesAppend([Tested(node.bounds)], rest);
    assert Indices([Tested(node.bounds)]) == [];
    if accept(node.bounds) {
      match node.body
      case Leaf(b, e) =>
        IndicesOfLeaf(b, e);
      case Branch(left, right) =>
        IndicesAppend(Events(left, accept), Events(right, accept));
    }
  }

  function AcceptAll(b: Box): bool { true }

  /** With a test that accepts every box, the items visited are those of the
      leaves, left to right. */
  lemma {:induction false} AcceptAllVisitsLeaves(node: Node)
    ensures Indices(Events(node, AcceptAll)) == LeafIndices(node)
    decreases node
  {
    IndicesOfEvents(node, AcceptAll);
    match node.body
    case Leaf(b, e) =>
    case Branch(left, right) =>
      AcceptAllVisitsLeaves(left);
      AcceptAllVisitsLeaves(right);
  }

  /** A walk whose test accepts every box hands each item of the array to the
      visitor exactly once, in index order. */
  lemma AcceptAllVisitsEachOnce<S(!new), T>(node: Node, s: seq<T>, g: Projections<T>, maxPerLeaf: int, maxSubDivs: int,
                                           st: S, test: (S, Box) -> (S, bool), visitor: (S, T) -> (S, T))
    requires AllFit(g, s, 0, |s|) && Built(node, s, 0, |s|, g, maxPerLeaf, maxSubDivs)
    requires AnswersBy(test, AcceptAll)
    ensures LeavesWithin(node, |s|)
    ensures Indices(Walk(node, s, st, test, visitor).log) == Range(0, |s|)
  {
    BuiltLeaves(node, s, 0, |s|, g, maxPerLeaf, maxSubDivs);
    WalkEvents(node, s, st, test, visitor, AcceptAll);
    AcceptAllVisitsLeaves(node);
  }

  predicate Increasing(xs: seq<nat>) {
    forall i, j :: 0 <= i < j < |xs| ==> xs[i] < xs[j]
  }

  predicate Within(xs: seq<nat>, lo: nat, hi: nat) {
    forall i :: 0 <= i < |xs| ==> lo <= xs[i] < hi
  }

  lemma ConcatInOrder(x: seq<nat>, y: seq<nat>, lo: nat, mid: nat, hi: nat)
    requires lo <= mid <= hi
    requires Increasing(x) && Within(x, lo, mid) && Increasing(y) && Within(y, mid, hi)
    ensures Increasing(x + y) && Within(x + y, lo, hi)
  {
  }

  /** An accepted leaf visits its range. */
  lemma IndicesOfWalkLeaf<S, T>(node: Node, items: seq<T>, st: S, test: (S, Box) -> (S, bool), visitor: (S, T) -> (S, T))
    requires LeavesWithin(node, |items|) && node.body.Leaf? && test(st, node.bounds).1
    ensures Indices(Walk(node, items, st, test, visitor).log) == Range(node.body.begin, node.body.end)
  {
    var w := Walk(node, items, st, test, visitor);
    var r := VisitRange(items, node.body.begin, node.body.end, test(st, node.bounds).0, visitor);
    assert w.log == [Tested(node.bounds)] + r.log;
    IndicesAppend([Tested(node.bounds)], r.log);
    IndicesOfLeaf(node.body.begin, node.body.end);
  }

  /** An accepted branch visits the left subtree's items, then the right's. */
  lemma IndicesOfWalkBranch<S, T>(node: Node, items: seq<T>, st: S, test: (S, Box) -> (S, bool), visitor: (S, T) -> (S, T))
    requires LeavesWithin(node, |items|) && node.IsBranch() && test(st, node.bounds).1
    ensures var l := Walk(node.body.left, items, test(st, node.bounds).0, test, visitor);
            Indices(Walk(node, items, st, test, visitor).log) ==
              Indices(l.log) + Indices(Walk(node.body.right, l.items, l.state, test, visitor).log)
  {
    var w := Walk(node, items, st, test, visitor);
    var l := Walk(node.body.left, items, test(st, node.bounds).0, test, visitor);
    var r := Walk(node.body.right, l.items, l.state, test, visitor);
    assert w.log == [Tested(node.bounds)] + (l.log + r.log);
    IndicesAppend([Tested(node.bounds)], l.log + r.log);
    IndicesAppend(l.log, r.log);
  }

  /** Whatever the test and the visitor do with the caller's state, the
      visited indices lie in the node's range and strictly increase: no item
      is visited twice, and the left subtree's items come before the right
      subtree's. The tree was built over `s`; the walk runs over `items`,
      which the visitor may rewrite as it goes. */
  lemma {:induction false} VisitedInOrder<S, T, U>(node: Node, s: seq<U>, lo: nat, hi: nat, g: Projections<U>,
                                                  items: seq<T>, st: S, test: (S, Box) -> (S, bool), visitor: (S, T) -> (S, T))
    requires AllFit(g, s, lo, hi) && LeavesWithin(node, |items|)
    ensures Covers(node, s, lo, hi, g) ==>
              Increasing(Indices(Walk(node, items, st, test, visitor).log)) &&
              Within(Indices(Walk(node, items, st, test, visitor).log), lo, hi)
    decreases node
  {
    if Covers(node, s, lo, hi, g) {
      var t := test(st, node.bounds);
      if !t.1 {
        assert Indices([Tested(node.bounds)]) == [];
      } else if node.IsBranch() {
        var mid := lo + Half(hi - lo);
        IndicesOfWalkBranch(node, items, st, test, visitor);
        VisitedInOrder(node.body.left, s, lo, mid, g, items, t.0, test, visitor);
        var l := Walk(node.body.left, items, t.0, test, visitor);
        VisitedInOrder(node.body.right, s, mid, hi, g, l.items, l.state, test, visitor);
        var r := Walk(node.body.right, l.items, l.state, test, visitor);
        ConcatInOrder(Indices(l.log), Indices(r.log), lo, mid, hi);
      } else {
        IndicesOfWalkLeaf(node, items, st, test, visitor);
      }
    }
  }

  /** `test` passes every box that covers `inner`, whatever the state. */
  ghost predicate PassesAllCovering<S(!new)>(test: (S, Box) -> (S, bool), inner: Box) {
    forall st: S, b: Box :: Encloses(b, inner) ==> test(st, b).1
  }

  /** A node's box covers each item of its range, so such a test passes it. */
  lemma CoveringBoxPasses<S(!new), U>(bounds: Box, s: seq<U>, lo: nat, hi: nat, g: Projections<U>, i: nat,
                                     st: S, test: (S, Box) -> (S, bool))
    requires AllFit(g, s, lo, hi) && lo <= i < hi && bounds == BoundsOf(g, s, lo, hi)
    requires PassesAllCovering(test, ElementBox(g.boundsElement(s[i])))
    ensures test(st, bounds).1
  {
    BoundsCover(g, s, lo, hi);
  }

  /** Pruning never loses an item whose box the test would accept: if every
      box covering item i's bounds passes, whatever the caller's state, the
      walk reaches item i, whatever the visitor does with the state and the
      items on the way. */
  lemma {:induction false} PruningKeepsCovered<S(!new), T, U>(node: Node, s: seq<U>, lo: nat, hi: nat, g: Projections<U>, i: nat,
                                                              items: seq<T>, st: S, test: (S, Box) -> (S, bool), visitor: (S, T) -> (S, T))
    requires AllFit(g, s, lo, hi) && lo <= i < hi && LeavesWithin(node, |items|)
    requires PassesAllCovering(test, ElementBox(g.boundsElement(s[i])))
    ensures Covers(node, s, lo, hi, g) ==> i in Indices(Walk(node, items, st, test, visitor).log)
    decreases node, 1
  {
    if Covers(node, s, lo, hi, g) {
      CoveringBoxPasses(node.bounds, s, lo, hi, g, i, st, test);
      if node.IsBranch() {
        PruningBranch(node, s, lo, hi, g, i, items, st, test, visitor);
      } else {
        IndicesOfWalkLeaf(node, items, st, test, visitor);
        assert Range(lo, hi)[i - lo] == i;
      }
    }
  }

  /** The branch case of PruningKeepsCovered: item i lies in one half, whose
      subtree the walk reaches. */
  lemma {:induction false} PruningBranch<S(!new), T, U>(node: Node, s: seq<U>, lo: nat, hi: nat, g: Projections<U>, i: nat,
                                                        items: seq<T>, st: S, test: (S, Box) -> (S, bool), visitor: (S, T) -> (S, T))
    requires AllFit(g, s, lo, hi) && lo <= i < hi && LeavesWithin(node, |items|)
    requires PassesAllCovering(test, ElementBox(g.boundsElement(s[i])))
    requires node.IsBranch() && test(st, node.bounds).1
    requires Covers(node.body.left, s, lo, lo + Half(hi - lo), g) && Covers(node.body.right, s, lo + Half(hi - lo), hi, g)
    ensures i in Indices(Walk(node, items, st, test, visitor).log)
    decreases node, 0
  {
    var mid := lo + Half(hi - lo);
    var t := test(st, node.bounds);
    if i < mid {
      PruningKeepsCovered(node.body.left, s, lo, mid, g, i, items, t.0, test, visitor);
    } else {
      var l := Walk(node.body.left, items, t.0, test, visitor);
      PruningKeepsCovered(node.body.right, s, mid, hi, g, i, l.items, l.state, test, visitor);
    }
    VisitedInBranch(node, items, st, test, visitor, i);
  }

  /** An item the walk of either child visits, the walk of an accepted
      branch visits. */
  lemma VisitedInBranch<S, T>(node: Node, items: seq<T>, st: S, test: (S, Box) -> (S, bool), visitor: (S, T) -> (S, T), i: nat)
    requires LeavesWithin(node, |items|) && node.IsBranch() && test(st, node.bounds).1
    requires var l := Walk(node.body.left, items, test(st, node.bounds).0, test, visitor);
             i in Indices(l.log) || i in Indices(Walk(node.body.right, l.items, l.state, test, visitor).log)
    ensures i in Indices(Walk(node, items, st, test, visitor).log)
  {
    IndicesOfWalkBranch(node, items, st, test, visitor);
  }

  /** A visitor that rewrites each item it is given by f. */
  function MapItems<S, T>(f: T -> T): (S, T) -> (S, T) {
    (st, x) => (st, f(x))
  }

  lemma {:induction false} VisitRangeMaps<S, T>(items: seq<T>, i: nat, end: nat, st: S, f: T -> T)
    requires i <= end <= |items|
    ensures forall k :: 0 <= k < |items| ==>
              VisitRange(items, i, end, st, MapItems(f)).items[k] == if i <= k < end then f(items[k]) else items[k]
    decreases end - i
  {
    if i < end {
      VisitRangeMaps(items[i := f(items[i])], i + 1, end, st, f);
    }
  }

  /** The mutable walk with a test that accepts everything and a rewriting
      visitor rewrites exactly the items of the node's range. The tree's shape
      is stated over `s`, the sequence it was built on, and kept apart from
      `items`: once the left subtree has rewritten its items, the array the
      right subtree walks is no longer the one its box was computed from. */
  lemma {:induction false} WalkMaps<S(!new), T, U>(node: Node, s: seq<U>, lo: nat, hi: nat, g: Projections<U>,
                                                  items: seq<T>, st: S, test: (S, Box) -> (S, bool), f: T -> T)
    requires AllFit(g, s, lo, hi) && |items| == |s| && AnswersBy(test, AcceptAll) && LeavesWithin(node, |items|)
    ensures Covers(node, s, lo, hi, g) ==>
              forall k :: 0 <= k < |items| ==>
                Walk(node, items, st, test, MapItems(f)).items[k] == if lo <= k < hi then f(items[k]) else items[k]
    decreases node
  {
    if Covers(node, s, lo, hi, g) {
      var t := test(st, node.bounds);
      assert t.1;
      if node.IsBranch() {
        var mid := lo + Half(hi - lo);
        WalkMaps(node.body.left, s, lo, mid, g, items, t.0, test, f);
        var l := Walk(node.body.left, items, t.0, test, MapItems(f));
        WalkMaps(node.body.right, s, mid, hi, g, l.items, l.state, test, f);
      } else {
        VisitRangeMaps(items, lo, hi, t.0, f);
      }
    }
  }
}
