# kdtreepp k-d tree node, modelled in Dafny

kdtreepp is a header-only C++ k-d tree over a caller's iterator range
(`include/kdtreepp/eigenkdtree.hpp`). A node has a few parts:

- **Bounding box.** It grows an Eigen axis-aligned box over the bounds element of each item. The element may be a point or a box.
- **Leaf.** A leaf keeps the range `[begin, end)`.
- **Branch.** The depth budget `maxSubDivs` must be positive and the range must hold more than `maxPerLeaf` items. The node then:
  1. picks the box's major axis, the dimension of largest extent;
  2. reorders the range in place with `std::nth_element` around its midpoint `count / 2`, comparing the items' sort points along that axis;
  3. builds a child over each half with one level less of budget.
- **Traversal.** `visit` walks the tree depth first. A node whose box fails a caller's bounds test is skipped. The items of the leaves it reaches go to a caller's visitor in range order, and the left child is walked before the right.

The test suite (`test/test.cpp`) uses the tree for nearest-neighbour search and checks the answer against a brute-force scan.

The project's modules:

- `geometry.dfy` (`Geometry`) covers the box operations the node uses (`setEmpty`, `extend`, `sizes().maxCoeff`) and the one the test's bounds test uses (`squaredExteriorDistance`, test/test.cpp:56). Coordinates are integers.
- `selection.dfy` (`Selection`) implements `std::nth_element` on an array slice as a quickselect with a Lomuto partition. It is proved to meet the standard's postcondition:
  - only the slice is reordered, and as a permutation;
  - nothing before the nth position exceeds anything after it;
  - the nth element is at most everything after it.
- `kdtree.dfy` (`KdTree`) holds the node itself:
  - the node datatype;
  - the constructor as a method `Build` that reorders the caller's array in place;
  - the factory `MakeTree`.

  What a constructed node is, is stated once, as the predicate `Built` over the final array contents: its box, its leaf condition, the split order along the major axis, and its children. The properties of such trees are then lemmas.
- `traversal.dfy` (`Traversal`) models both `visit` overloads.
  - They are methods over the item array. `Visit` lets the visitor rewrite items. `VisitConst` is the const overload called with a visitor that only reads, as the test's visitor does.
  - Each is proved equal to `Walk`, a function that threads the caller's state through the bounds test and the visitor. This is how the C++ functors update what they capture.
  - `Walk` also records the calls the walk makes, and lemmas state which items are visited and in what order.
- `nearest.dfy` (`NearestNeighbour`) models the nearest-neighbour search of `test/test.cpp`. It proves that the tree search returns exactly what the brute-force loop returns.

## Model

| member | source | states |
|---|---|---|
| `Geometry.Extend` | include/kdtreepp/eigenkdtree.hpp:40-42 | Extending a box by a point or a box covers both. The result is empty only when both are empty, so the empty box is the identity. |
| `Geometry.ExtendLeast` | include/kdtreepp/eigenkdtree.hpp:42 | Any box that covers both arguments covers their extension, so `extend` gives the least covering box. |
| `Geometry.MaxIndex` | include/kdtreepp/eigenkdtree.hpp:48 | `maxCoeff(&index)`: the index holds a maximal entry, and every earlier entry is strictly smaller, so it is the first maximum. |
| `Geometry.MajorAxis` | include/kdtreepp/eigenkdtree.hpp:47-48 | `sizes().maxCoeff(&index)`: the split axis is a dimension of the node. Its extent `hi[d] - lo[d]` is maximal, and every lower dimension's extent is strictly smaller. The empty box gives axis 0. |
| `Geometry.ExteriorDistanceBelow` | test/test.cpp:54-57 | A box's squared exterior distance from q never exceeds the squared distance from q to any point the box covers. This is why the test's pruning is safe. |
| `Selection.Partition` | include/kdtreepp/eigenkdtree.hpp:53-56 | One partition step: the pivot lands at p, with keys before p smaller and keys after p no smaller. Only the slice changes, and as a permutation. |
| `Selection.SelectStep` | include/kdtreepp/eigenkdtree.hpp:53-56 | One round of selection: the window around the nth position shrinks, and the split order found so far is kept. |
| `Selection.NthElement` | include/kdtreepp/eigenkdtree.hpp:53-56 | `std::nth_element` on `[lo, hi)`: no key in `[lo, nth)` exceeds one in `[nth, hi)`, and the nth key is at most every later key. The slice is permuted and nothing outside it changes. |
| `Selection.HalvesKeepSplit` | include/kdtreepp/eigenkdtree.hpp:59-64 | Children that each permute only their own half keep the parent's split order. |
| `KdTree.Half` | include/kdtreepp/eigenkdtree.hpp:50 | The midpoint offset `count / 2` lies inside the range, and strictly before its end when the range is non-empty. |
| `KdTree.ComputeBounds` | include/kdtreepp/eigenkdtree.hpp:39-43 | The bounds loop over `[lo, hi)` computes `BoundsOf` of the range, starting from the empty box. |
| `KdTree.BoundsCover` | include/kdtreepp/eigenkdtree.hpp:40-43 | The box of a range covers the bounds element of every item in it. |
| `KdTree.BoundsOfLeast` | include/kdtreepp/eigenkdtree.hpp:40-43 | Any box that covers every item's bounds element covers the range's box, so the range's box is the least box covering them all. |
| `KdTree.BoundsEmptyIff` | include/kdtreepp/eigenkdtree.hpp:40-43 | The box is empty exactly when every item's bounds element is empty. In particular an empty range gives the empty box. |
| `KdTree.BoundsOfPermutation` | include/kdtreepp/eigenkdtree.hpp:53-56 | The box depends only on the multiset of items in the range, so the in-place reordering keeps it. |
| `KdTree.AllFitPermutation` | include/kdtreepp/eigenkdtree.hpp:53-56 | Reordering a range keeps every item in it of the tree's dimension. |
| `KdTree.Build` | include/kdtreepp/eigenkdtree.hpp:34-68 | The constructor over `[lo, hi)`: it only permutes the range and leaves the rest of the array alone. The node satisfies `Built` over the final array. A leaf leaves the array unchanged and holds exactly `[lo, hi)`. |
| `KdTree.BuildChildren` | include/kdtreepp/eigenkdtree.hpp:59-64 | The two recursive calls: the left child is built over `[lo, mid)` and the right over `[mid, hi)`, each with `maxSubDivs - 1`. Each permutes only its own half. |
| `KdTree.LeftStaysBuilt` | include/kdtreepp/eigenkdtree.hpp:59-64 | Building the right child does not invalidate the left one, since it only touches items outside the left range. |
| `KdTree.BuiltFrame` | include/kdtreepp/eigenkdtree.hpp:59-64 | A built node stays built whatever happens outside its range. |
| `KdTree.BranchFacts` | include/kdtreepp/eigenkdtree.hpp:45-64 | The branch case of the constructor: after nth_element and both children, the range is a permutation of what it was. Its box is unchanged, its split order holds, and the node over it is built. |
| `KdTree.BranchOfHalves` | include/kdtreepp/eigenkdtree.hpp:45-64 | A node whose range is split at `count / 2` along its box's major axis is built once its two children are. |
| `KdTree.MakeTree` | include/kdtreepp/eigenkdtree.hpp:145-157 | The factory over the whole array: it permutes the array and returns a built tree. The leaves, left to right, are exactly `0 .. n-1`. The depth is at most the budget. The root is a leaf exactly when `maxSubDivs <= 0` or `n <= maxPerLeaf`, and then the array is unchanged. |
| `KdTree.BuiltLeafCondition` | include/kdtreepp/eigenkdtree.hpp:45-72 | A built node is a leaf (`isLeaf`) if and only if `maxSubDivs <= 0` or `count <= maxPerLeaf`. A leaf holds its whole range, and `isBranch` is the negation of `isLeaf`. |
| `KdTree.BuiltDepth` | include/kdtreepp/eigenkdtree.hpp:45-64 | The tree has depth at most `maxSubDivs` (0 when the budget is not positive), whatever the item coordinates, duplicates included. |
| `KdTree.BuiltLeaves` | include/kdtreepp/eigenkdtree.hpp:49-66 | The leaf ranges, left to right, concatenate to exactly the node's range, so they are disjoint and complete. |
| `KdTree.BuiltCovers` | include/kdtreepp/eigenkdtree.hpp:40-66 | Every built tree has the shape `Covers` states: each node's box is the box of its range, and leaves and branches split ranges at the midpoint. |
| `KdTree.ChildBoundsInside` | include/kdtreepp/eigenkdtree.hpp:40-64 | A child's box lies inside its parent's box (`bounds()`). |
| `Traversal.VisitRange` | include/kdtreepp/eigenkdtree.hpp:89-93 | The leaf loop visits exactly the indices `begin .. end-1`, in order. Items outside the leaf's range are never rewritten. |
| `Traversal.Walk` | include/kdtreepp/eigenkdtree.hpp:84-99 | Every walk starts with one bounds test of the node's own box and keeps the array's length. |
| `Traversal.Visit` | include/kdtreepp/eigenkdtree.hpp:84-99 | The mutable `visit` ends with the state, and leaves the array, exactly as `Walk` describes. |
| `Traversal.VisitConst` | include/kdtreepp/eigenkdtree.hpp:111-126 | The const `visit` with a visitor that only reads leaves the array alone. It ends in the state `Walk` gives for a visitor that hands every item back unchanged. |
| `Traversal.WalkReadOnly` | include/kdtreepp/eigenkdtree.hpp:111-126 | A walk whose visitor only reads leaves the item array unchanged. |
| `Traversal.WalkChangesOnlyVisited` | include/kdtreepp/eigenkdtree.hpp:84-99 | Any item the mutable walk changes was handed to the visitor. |
| `Traversal.WalkEvents` | include/kdtreepp/eigenkdtree.hpp:84-99 | When the bounds test depends on the box alone, the walk makes exactly the calls `Events` lists. A rejected node contributes only its own test, so nothing below it is tested or visited. An accepted leaf visits its range in order. An accepted branch walks left, then right. |
| `Traversal.IndicesOfEvents` | include/kdtreepp/eigenkdtree.hpp:85-98 | A rejected node visits no item. An accepted leaf visits its range. An accepted branch visits the left subtree's items, then the right's. |
| `Traversal.AcceptAllVisitsLeaves` | include/kdtreepp/eigenkdtree.hpp:84-99 | A test that accepts every box visits the leaves' items, left to right. |
| `Traversal.AcceptAllVisitsEachOnce` | include/kdtreepp/eigenkdtree.hpp:84-99 | On a built tree, a test that accepts every box makes the visitor see each item of the array exactly once, in index order. |
| `Traversal.IndicesOfWalkLeaf` | include/kdtreepp/eigenkdtree.hpp:89-93 | A walk whose test accepts a leaf's box visits exactly the leaf's indices `begin .. end-1`, in order, whatever the test and visitor do with the state. |
| `Traversal.IndicesOfWalkBranch` | include/kdtreepp/eigenkdtree.hpp:94-97 | A walk whose test accepts a branch's box visits the left subtree's indices and then the right subtree's, the right one walked from the state and array the left one left. |
| `Traversal.VisitedInOrder` | include/kdtreepp/eigenkdtree.hpp:89-98 | For any bounds test and visitor, including ones whose answers depend on state they update, the visited indices lie in the node's range and strictly increase. No item is visited twice, and left items come before right ones. |
| `Traversal.PruningKeepsCovered` | include/kdtreepp/eigenkdtree.hpp:85-98 | If the test accepts every box that covers item i's bounds element, in whatever state the caller's functors are, the walk visits item i. This holds for any visitor. |
| `Traversal.VisitedInBranch` | include/kdtreepp/eigenkdtree.hpp:94-97 | An item that the walk of either child of an accepted branch visits, the walk of the branch visits. |
| `Traversal.WalkMaps` | include/kdtreepp/eigenkdtree.hpp:84-99 | The mutable visit with an accepting test and a visitor that rewrites items by f rewrites exactly the items of the tree's range, and each exactly once. |
| `NearestNeighbour.CloserIsNearer` | test/test.cpp:41-45 | One step of the brute-force loop, and of the test's visitor: the result is the best so far or the new point with its squared distance. It is found, no further than either, and on a tie the earlier point stays. |
| `NearestNeighbour.Scan` | test/test.cpp:40-46 | The brute-force loop from a given start: it has found a point once it has seen one, and never ends further from q than where it started. |
| `NearestNeighbour.NearTest` | test/test.cpp:54-57 | The test's bounds test leaves the search state unchanged, rejects the empty box, and passes every non-empty box while nothing has been found. |
| `NearestNeighbour.MayBeCloserSound` | test/test.cpp:56 | Only non-empty boxes pass, all of them while nothing has been found. A box that fails holds no point strictly closer to q than the best so far. |
| `NearestNeighbour.NearVisitor` | test/test.cpp:59-66 | The test's visitor on one point is the brute-force loop over that one point. |
| `NearestNeighbour.CloserAnswers` | test/test.cpp:41-45 | One step of the brute-force loop extends a correct answer for `[lo, i)` to one for `[lo, i+1)`. A correct answer is the first closest point with its squared distance. |
| `NearestNeighbour.ScanAnswers` | test/test.cpp:38-46 | From nothing found, the brute-force loop ends with nothing for an empty array and otherwise with the first point of least squared distance to q. |
| `NearestNeighbour.BruteNearest` | test/test.cpp:37-46 | The test's brute-force loop computes `Scan` over the array and returns the first closest point. |
| `NearestNeighbour.ScanConcat` | test/test.cpp:40-46 | Scanning a range equals scanning its first part and then the rest. |
| `NearestNeighbour.PrunedScanKeeps` | test/test.cpp:54-57 | When a node's box fails the test's bounds test, no point in its range is strictly closer than the best so far. |
| `NearestNeighbour.VisitRangeScans` | test/test.cpp:59-66 | The test's visitor over a leaf does what the brute-force loop does over the leaf's range. |
| `NearestNeighbour.TreeSearchScans` | test/test.cpp:48-66 | On a tree of the constructor's shape, the pruned walk ends in exactly the state that the brute-force loop over the node's range reaches from the same start. |
| `NearestNeighbour.NearestByTree` | test/test.cpp:48-66 | The tree search, run through the const `visit`, returns the same point and distance as `BruteNearest`, namely the first closest point. |
| `NearestNeighbour.SearchBothWays` | test/test.cpp:31-68 | The test case: build the tree with the default 8 and 16, then search brute-force and by tree. The two answers are equal, and both are the closest point. |

## Left out

- Eigen scalars and floating point: coordinates and squared distances are unbounded integers. Rounding, overflow and `Approx` comparisons are not modelled.
- The empty box and the initial "largest double" bound, as models of Eigen's values:
  - Eigen's empty box has sentinel corners at the largest and lowest scalar. It is the constructor `Empty`, which `extend` treats as the identity, as Eigen's cwise min/max does.
  - Its `squaredExteriorDistance` overflows to infinity, so the test's bounds test rejects it. `MayBeCloser` states that rejection directly.
  - The test's starting bound `std::numeric_limits<double>::max()` is the state `NoneYet`.
- The `ALIGNMENT`/`alignas` layout hint, which has no behaviour.
- `std::unique_ptr` ownership and allocation: the tree is a datatype, and a leaf holds the index range `[begin, end)` of the caller's array rather than iterators.
- Bounds tests and visitors are pure functions that thread the caller's state. Functors with other effects are not modelled, for example one that writes to the item array through another alias while the walk runs. The mutable overload's visitor returns the new item instead of writing through a reference.
- The constructor's `sortPointGetter` and `boundsGetter` are pure functions `T -> Point` and `T -> Element` (`KdTree.Projections`). Getters with effects are not modelled, nor how many times `std::nth_element` calls the sort-point getter, which the standard leaves unspecified.
- `std::nth_element` is a Lomuto quickselect. A library's introselect arranges the halves differently, and the model does not fix that arrangement. `Built` and every property of the tree rely only on the standard's postcondition, which any conforming implementation meets.
- `Traversal.VisitConst`: the model covers the const overload only with a visitor that only reads, which is the test's case. In C++ the overload is const only for the node: the leaf loop copies the caller's iterator, and the children are reached through `unique_ptr`, whose `->` yields a non-const node. A visitor that writes through a mutable iterator, passed to the const overload, therefore behaves as the mutable one, which `Traversal.Visit` models.
- `NearestNeighbour.CloserIsNearer`: the state `NoneYet` counts as farther than every distance. The test compares with `<` against `std::numeric_limits<double>::max()`, so there a point at a squared distance of that value or more (infinity, or NaN) is never kept. With integer coordinates every distance is finite and smaller, so the model keeps the first point.
- `NearestNeighbour.MayBeCloserSound`: the same holds for the bounds test. A non-empty box passes while nothing is found, whereas the test would reject one whose exterior distance is at least the largest double.
- `Geometry.MajorAxis`: on an empty box every Eigen extent is the same negative value. That the result is 0 there rests on `maxCoeff` returning the first maximal index.
- `NearestNeighbour.SearchBothWays` checks that the returned point is the same and is the closest. It does not check the test's counters `numBoundsChecks`/`numPointChecks` or their bounds (test/test.cpp:51-52, 69-70). Those are statistical facts about random data.
- The box-counting query of test/test.cpp:72-83 is not modelled, and its `intersects`/`contains` are not modelled either. Its checks are statistical.
- The version test (test/test.cpp:15), `include/kdtreepp/version.hpp`, `include/kdtreepp.hpp`, `bench/run.cpp` and `conanfile.py` are version macros, an include umbrella, a timing harness and packaging.
