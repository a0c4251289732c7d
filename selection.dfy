// std::nth_element over an array slice, as the node constructor uses it to
// median-split its item range. Implemented as quickselect with a Lomuto
// partition; what is proved is the standard's postcondition, which is all the
// tree relies on (the exact arrangement inside each half is unspecified).

module Selection {

  /** Along `key`, nothing in s[lo..mid] exceeds anything in s[mid..hi]. */
  ghost predicate Split<T>(s: seq<T>, lo: nat, mid: nat, hi: nat, key: T -> int)
    requires lo <= mid <= hi <= |s|
  {
    forall i, j :: lo <= i < mid <= j < hi ==> key(s[i]) <= key(s[j])
  }

  /** Permuting the inside of [l, r) of `s` keeps everything outside it and the
      multiset of every enclosing slice [lo, hi). */
  lemma PermuteInside<T>(s: seq<T>, t: seq<T>, lo: nat, l: nat, r: nat, hi: nat)
    requires lo <= l <= r <= hi <= |s| == |t|
    requires t[..l] == s[..l] && t[r..] == s[r..]
    requires multiset(t[l..r]) == multiset(s[l..r])
    ensures t[..lo] == s[..lo] && t[hi..] == s[hi..]
    ensures multiset(t[lo..hi]) == multiset(s[lo..hi])
  {
    assert t[..lo] == t[..l][..lo];
    assert s[..lo] == s[..l][..lo];
    assert t[hi..] == t[r..][hi - r..];
    assert s[hi..] == s[r..][hi - r..];
    assert t[lo..l] == t[..l][lo..];
    assert s[lo..l] == s[..l][lo..];
    assert t[r..hi] == t[r..][..hi - r];
    assert s[r..hi] == s[r..][..hi - r];
    assert t[lo..hi] == t[lo..l] + t[l..r] + t[r..hi];
    assert s[lo..hi] == s[lo..l] + s[l..r] + s[r..hi];
  }

  /** A whole-sequence permutation that fixes everything outside [l, r)
      permutes [l, r) itself. */
  lemma SliceOfPermutation<T>(s: seq<T>, t: seq<T>, l: nat, r: nat)
    requires l <= r <= |s| == |t|
    requires t[..l] == s[..l] && t[r..] == s[r..]
    requires multiset(t) == multiset(s)
    ensures multiset(t[l..r]) == multiset(s[l..r])
  {
    assert s == s[..l] + s[l..r] + s[r..];
    assert t == t[..l] + t[l..r] + t[r..];
    assert multiset(s) == multiset(s[..l]) + multiset(s[l..r]) + multiset(s[r..]);
    assert multiset(t) == multiset(t[..l]) + multiset(t[l..r]) + multiset(t[r..]);
    calc {
      multiset(t[l..r]);
      multiset(t) - multiset(t[..l]) - multiset(t[r..]);
      multiset(s) - multiset(s[..l]) - multiset(s[r..]);
      multiset(s[l..r]);
    }
  }

  /** An element of a permuted slice came from the original slice. */
  lemma FromSlice<T>(s: seq<T>, t: seq<T>, l: nat, r: nat, j: nat) returns (k: nat)
    requires l <= j < r <= |s| == |t|
    requires multiset(t[l..r]) == multiset(s[l..r])
    ensures l <= k < r && s[k] == t[j]
  {
    assert t[j] == t[l..r][j - l];
    assert t[j] in multiset(s[l..r]);
    var k' :| 0 <= k' < r - l && s[l..r][k'] == t[j];
    k := l + k';
  }

  /** Permuting each side of a split separately keeps it a split: the
      children of a node reorder only their own half. */
  lemma HalvesKeepSplit<T>(s: seq<T>, t: seq<T>, lo: nat, mid: nat, hi: nat, key: T -> int)
    requires lo <= mid <= hi <= |s| == |t|
    requires multiset(t[lo..mid]) == multiset(s[lo..mid]) && multiset(t[mid..hi]) == multiset(s[mid..hi])
    requires Split(s, lo, mid, hi, key)
    ensures Split(t, lo, mid, hi, key)
  {
    forall i, j | lo <= i < mid <= j < hi
      ensures key(t[i]) <= key(t[j])
    {
      var i' := FromSlice(s, t, lo, mid, i);
      var j' := FromSlice(s, t, mid, hi, j);
    }
  }

  /** The two quickselect invariants survive a permutation of [l, r). */
  lemma {:induction false} PermutationKeepsSplits<T>(s: seq<T>, t: seq<T>, lo: nat, l: nat, r: nat, hi: nat, key: T -> int)
    requires lo <= l <= r <= hi <= |s| == |t|
    requires t[..l] == s[..l] && t[r..] == s[r..]
    requires multiset(t[l..r]) == multiset(s[l..r])
    requires Split(s, lo, l, hi, key) && Split(s, lo, r, hi, key)
    ensures Split(t, lo, l, hi, key) && Split(t, lo, r, hi, key)
  {
    forall i, j | lo <= i < l <= j < hi
      ensures key(t[i]) <= key(t[j])
    {
      assert t[i] == t[..l][i] == s[..l][i] == s[i];
      if j < r {
        var k := FromSlice(s, t, l, r, j);
      } else {
        assert t[j] == t[r..][j - r] == s[r..][j - r] == s[j];
      }
    }
    forall i, j | lo <= i < r <= j < hi
      ensures key(t[i]) <= key(t[j])
    {
      assert t[j] == t[r..][j - r] == s[r..][j - r] == s[j];
      if i < l {
        assert t[i] == t[..l][i] == s[..l][i] == s[i];
      } else {
        var k := FromSlice(s, t, l, r, i);
      }
    }
  }

  /** After partitioning [l, r) at p, the key at p separates everything in
      [lo, hi) around both p and p + 1. */
  lemma {:induction false} PivotSplits<T>(t: seq<T>, lo: nat, l: nat, p: nat, r: nat, hi: nat, key: T -> int)
    requires lo <= l <= p < r <= hi <= |t|
    requires forall i :: l <= i < p ==> key(t[i]) < key(t[p])
    requires forall j :: p < j < r ==> key(t[p]) <= key(t[j])
    requires Split(t, lo, l, hi, key) && Split(t, lo, r, hi, key)
    ensures Split(t, lo, p, hi, key) && Split(t, lo, p + 1, hi, key)
  {
    forall i, j | lo <= i < p <= j < hi
      ensures key(t[i]) <= key(t[j])
    {
      if i >= l && j < r {
        assert key(t[i]) < key(t[p]);
      }
    }
    forall i, j | lo <= i <= p < j < hi
      ensures key(t[i]) <= key(t[j])
    {
      if i >= l && j < r {
        assert key(t[p]) <= key(t[j]);
      }
    }
  }

  method Swap<T>(a: array<T>, i: nat, j: nat)
    requires i < a.Length && j < a.Length
    modifies a
    ensures a[i] == old(a[j]) && a[j] == old(a[i])
    ensures forall k :: 0 <= k < a.Length && k != i && k != j ==> a[k] == old(a[k])
    ensures multiset(a[..]) == multiset(old(a[..]))
  {
    a[i], a[j] := a[j], a[i];
  }

  /** The scan of a Lomuto partition over [l, r - 1) with the pivot key taken
      from a[r - 1]: on return the items with smaller keys come first, up to
      position i, and the pivot item is still at r - 1. */
  method LomutoScan<T>(a: array<T>, l: nat, r: nat, key: T -> int) returns (i: nat)
    requires l < r <= a.Length
    modifies a
    ensures l <= i < r && a[r - 1] == old(a[r - 1])
    ensures forall k :: l <= k < i ==> key(a[k]) < key(a[r - 1])
    ensures forall k :: i <= k < r - 1 ==> key(a[r - 1]) <= key(a[k])
    ensures forall k :: 0 <= k < l || r - 1 <= k < a.Length ==> a[k] == old(a[k])
    ensures multiset(a[..]) == multiset(old(a[..]))
  {
    var pivot := key(a[r - 1]);
    i := l;
    for j := l to r - 1
      invariant l <= i <= j <= r - 1
      invariant forall k :: l <= k < i ==> key(a[k]) < pivot
      invariant forall k :: i <= k < j ==> pivot <= key(a[k])
      invariant forall k :: 0 <= k < l || r - 1 <= k < a.Length ==> a[k] == old(a[k])
      invariant multiset(a[..]) == multiset(old(a[..]))
    {
      if key(a[j]) < pivot {
        Swap(a, i, j);
        i := i + 1;
      }
    }
  }

  /** Lomuto partition of [l, r) around the key of its middle element: on
      return a[p] holds that element, keys before it are smaller and keys after
      it are at least as large. */
  method Partition<T>(a: array<T>, l: nat, r: nat, key: T -> int) returns (p: nat)
    requires l < r <= a.Length
    modifies a
    ensures l <= p < r
    ensures a[..l] == old(a[..l]) && a[r..] == old(a[r..])
    ensures multiset(a[l..r]) == multiset(old(a[l..r]))
    ensures forall i :: l <= i < p ==> key(a[i]) < key(a[p])
    ensures forall j :: p < j < r ==> key(a[p]) <= key(a[j])
  {
    ghost var a0 := a[..];
    Swap(a, l + (r - l) / 2, r - 1);
    p := LomutoScan(a, l, r, key);
    Swap(a, p, r - 1);
    assert a[..l] == a0[..l];
    assert a[r..] == a0[r..];
    SliceOfPermutation(a0, a[..], l, r);
  }

  /** One round of quickselect on the window [l, r) that holds position nth:
      partition it and keep the side holding nth. Both window ends stay
      split points of [lo, hi), and the window shrinks. */
  method SelectStep<T>(a: array<T>, lo: nat, nth: nat, hi: nat, l: nat, r: nat, key: T -> int) returns (l': nat, r': nat)
    requires lo <= l <= nth < r <= hi <= a.Length && l + 1 < r
    requires Split(a[..], lo, l, hi, key) && Split(a[..], lo, r, hi, key)
    modifies a
    ensures lo <= l' <= nth < r' <= hi && r' - l' < r - l
    ensures Split(a[..], lo, l', hi, key) && Split(a[..], lo, r', hi, key)
    ensures a[..lo] == old(a[..lo]) && a[hi..] == old(a[hi..])
    ensures multiset(a[lo..hi]) == multiset(old(a[lo..hi]))
  {
    ghost var before := a[..];
    var p := Partition(a, l, r, key);
    PermuteInside(before, a[..], lo, l, r, hi);
    PermutationKeepsSplits(before, a[..], lo, l, r, hi, key);
    PivotSplits(a[..], lo, l, p, r, hi, key);
    if p < nth {
      l', r' := p + 1, r;
    } else if nth < p {
      l', r' := l, p;
    } else {
      l', r' := p, p + 1;
    }
  }

  /** std::nth_element(a + lo, a + nth, a + hi): permutes [lo, hi) so that
      every key before position nth is at most every key from nth on, and the
      key at nth is at most every key after it. Nothing outside [lo, hi)
      changes. With nth == hi nothing is done. */
  method NthElement<T>(a: array<T>, lo: nat, nth: nat, hi: nat, key: T -> int)
    requires lo <= nth <= hi <= a.Length
    modifies a
    ensures a[..lo] == old(a[..lo]) && a[hi..] == old(a[hi..])
    ensures multiset(a[lo..hi]) == multiset(old(a[lo..hi]))
    ensures Split(a[..], lo, nth, hi, key)
    ensures forall j :: nth < j < hi ==> key(a[nth]) <= key(a[j])
  {
    if nth == hi {
      return;
    }
    var l, r := lo, hi;
    while l + 1 < r
      invariant lo <= l <= nth < r <= hi
      invariant Split(a[..], lo, l, hi, key) && Split(a[..], lo, r, hi, key)
      invariant a[..lo] == old(a[..lo]) && a[hi..] == old(a[hi..])
      invariant multiset(a[lo..hi]) == multiset(old(a[lo..hi]))
      decreases r - l
    {
      l, r := SelectStep(a, lo, nth, hi, l, r, key);
    }
    assert l == nth && r == nth + 1;
  }
}
