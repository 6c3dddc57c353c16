/*
 * Pure part of the heap engine: the comparator policies, the index
 * arithmetic of an implicit binary tree stored in an array, and the
 * properties (heap, sorted suffix) that the in-place algorithms keep.
 * Everything here works on seq<int> snapshots of the borrowed array.
 */
module HeapOrder {

  /** The ordering policy a heap is instantiated with: `std::less<int>`
      (heap::max) or `std::greater<int>` (heap::min). */
  datatype Comparator = Less | Greater

  /** `_cmp(a, b)`: true when `a` must sink below `b`. */
  function Cmp(c: Comparator, a: int, b: int): (r: bool)
    ensures c == Less ==> (r <==> a < b)
    ensures c == Greater ==> (r <==> b < a)
    ensures r ==> a != b
  {
    match c
    case Less => a < b
    case Greater => a > b
  }

  /** `a` may stand above `b`: `b` does not outrank `a`. */
  predicate Ranks(c: Comparator, a: int, b: int) {
    !Cmp(c, a, b)
  }

  /** Both policies are strict orderings on int, and `Ranks` is their total
      (reflexive, transitive) complement. */
  lemma ComparatorIsStrictOrder(c: Comparator)
    ensures forall a :: !Cmp(c, a, a)
    ensures forall a, b :: Cmp(c, a, b) ==> !Cmp(c, b, a)
    ensures forall a, b, d :: Cmp(c, a, b) && Cmp(c, b, d) ==> Cmp(c, a, d)
    ensures forall a, b :: a == b || Cmp(c, a, b) || Cmp(c, b, a)
  {
  }

  // ---------------------------------------------------------------------
  // Index arithmetic of the implicit tree (0-based: children 2i+1, 2i+2)
  // ---------------------------------------------------------------------

  /** Left child index; left children sit at odd indices. */
  function Left(i: nat): (r: nat)
    ensures i < r && r % 2 == 1
  {
    i * 2 + 1
  }

  /** Right child index; right children sit at positive even indices. */
  function Right(i: nat): (r: nat)
    ensures i < r && r % 2 == 0
  {
    i * 2 + 2
  }

  /** Parent index of a non-root node: the node whose left or right child it is. */
  function Parent(i: nat): (p: nat)
    requires 0 < i
    ensures p < i && (Left(p) == i || Right(p) == i)
  {
    (i - 1) / 2
  }

  /** `Parent` inverts `Left` and `Right`, and a node's parent is the only
      index that has it as a child. */
  lemma ParentIsUnique(p: nat, i: nat)
    requires 0 < i
    ensures Parent(Left(p)) == p && Parent(Right(p)) == p
    ensures Left(p) == i || Right(p) == i <==> p == Parent(i)
  {
  }

  /** For an array of `n >= 2` elements, `(n - 2) / 2` is the last index with a
      child inside `[0, n)`: every later index is a leaf. */
  lemma LastParent(n: nat)
    requires 2 <= n
    ensures Left((n - 2) / 2) < n
    ensures forall i: nat :: (n - 2) / 2 < i ==> n <= Left(i)
  {
  }

  // ---------------------------------------------------------------------
  // Heap property and sortedness over a snapshot of the array
  // ---------------------------------------------------------------------

  /** No child of `i` inside `[0, end)` outranks `i`. */
  ghost predicate ParentOk(c: Comparator, s: seq<int>, end: nat, i: nat)
    requires end <= |s|
  {
    && (Left(i) < end ==> Ranks(c, s[i], s[Left(i)]))
    && (Right(i) < end ==> Ranks(c, s[i], s[Right(i)]))
  }

  /** The heap property at every index of `[start, end)`. */
  ghost predicate HeapFrom(c: Comparator, s: seq<int>, start: nat, end: nat)
    requires end <= |s|
  {
    forall i :: start <= i < end ==> ParentOk(c, s, end, i)
  }

  /** `s[..end]` is a heap under `c`. */
  ghost predicate IsHeap(c: Comparator, s: seq<int>, end: nat)
    requires end <= |s|
  {
    HeapFrom(c, s, 0, end)
  }

  /** `s[lo..hi]` is in the output order of `c`: ascending for `Less`,
      descending for `Greater`. */
  ghost predicate SortedRange(c: Comparator, s: seq<int>, lo: nat, hi: nat)
    requires lo <= hi <= |s|
  {
    forall i, j :: lo <= i < j < hi ==> Ranks(c, s[j], s[i])
  }

  ghost predicate Sorted(c: Comparator, s: seq<int>) {
    SortedRange(c, s, 0, |s|)
  }

  /** Every element of the sorted suffix `s[end..len]` ranks every element
      still in the heap `s[..end]`. */
  ghost predicate SuffixDominates(c: Comparator, s: seq<int>, end: nat, len: nat)
    requires end <= len <= |s|
  {
    forall i, j :: 0 <= i < end <= j < len ==> Ranks(c, s[j], s[i])
  }

  /** The state a heap is in between construction and the end of `sort()`:
      a heap in front, a sorted suffix behind, the suffix dominating the heap. */
  ghost predicate SortState(c: Comparator, s: seq<int>, end: nat, len: nat)
    requires end <= len <= |s|
  {
    IsHeap(c, s, end) && SortedRange(c, s, end, len) && SuffixDominates(c, s, end, len)
  }

  /** What the output order means for each policy. */
  lemma SortedMeaning(s: seq<int>)
    ensures Sorted(Less, s) <==> forall i, j :: 0 <= i < j < |s| ==> s[i] <= s[j]
    ensures Sorted(Greater, s) <==> forall i, j :: 0 <= i < j < |s| ==> s[i] >= s[j]
  {
  }

  /** The explicit element swap standing for `std::swap` on two array slots. */
  function Swap(s: seq<int>, i: nat, j: nat): (r: seq<int>)
    requires i < |s| && j < |s|
    ensures |r| == |s| && r[i] == s[j] && r[j] == s[i]
    ensures forall k :: 0 <= k < |s| && k != i && k != j ==> r[k] == s[k]
    ensures multiset(r) == multiset(s)
  {
    s[i := s[j]][j := s[i]]
  }

  /** If two sequences hold the same multiset and agree outside `[lo, hi)`,
      they hold the same multiset inside it. */
  lemma MultisetOfRange(s: seq<int>, t: seq<int>, lo: nat, hi: nat)
    requires lo <= hi <= |s| == |t|
    requires multiset(s) == multiset(t)
    requires forall k :: 0 <= k < |s| && !(lo <= k < hi) ==> s[k] == t[k]
    ensures multiset(s[lo..hi]) == multiset(t[lo..hi])
  {
    assert s[..lo] == t[..lo];
    assert s[hi..] == t[hi..];
    assert s == s[..lo] + s[lo..hi] + s[hi..];
    assert t == t[..lo] + t[lo..hi] + t[hi..];
    assert multiset(s) == multiset(s[..lo]) + multiset(s[lo..hi]) + multiset(s[hi..]);
    assert multiset(t) == multiset(t[..lo]) + multiset(t[lo..hi]) + multiset(t[hi..]);
    forall x ensures multiset(s[lo..hi])[x] == multiset(t[lo..hi])[x] {
      assert multiset(s)[x] == multiset(t)[x];
    }
  }

  /** The prefix version: when only `s[..n]` was permuted, its multiset is
      kept and the rest is equal. */
  lemma PrefixPermuted(s: seq<int>, t: seq<int>, n: nat)
    requires n <= |s| == |t|
    requires multiset(s) == multiset(t)
    requires forall k :: n <= k < |s| ==> s[k] == t[k]
    ensures multiset(s[..n]) == multiset(t[..n]) && s[n..] == t[n..]
  {
    MultisetOfRange(s, t, 0, n);
    assert s[0..n] == s[..n] && t[0..n] == t[..n];
  }

  // ---------------------------------------------------------------------
  // Heap facts
  // ---------------------------------------------------------------------

  /** The root of a heap ranks every element of it: the maximum for `Less`,
      the minimum for `Greater`. */
  lemma {:induction false} RootRanksAll(c: Comparator, s: seq<int>, end: nat, k: nat)
    requires end <= |s| && IsHeap(c, s, end)
    requires k < end
    ensures Ranks(c, s[0], s[k])
  {
    if k > 0 {
      var p := Parent(k);
      assert ParentOk(c, s, end, p);
      RootRanksAll(c, s, end, p);
    }
  }

  /** heap::max keeps its largest element at index 0, heap::min its smallest. */
  lemma RootIsExtremum(s: seq<int>, end: nat)
    requires end <= |s|
    ensures IsHeap(Less, s, end) ==> forall k :: 0 <= k < end ==> s[k] <= s[0]
    ensures IsHeap(Greater, s, end) ==> forall k :: 0 <= k < end ==> s[0] <= s[k]
  {
    forall c, k | 0 <= k < end && IsHeap(c, s, end)
      ensures Ranks(c, s[0], s[k])
    {
      RootRanksAll(c, s, end, k);
    }
  }

  /** Indices from `n / 2` on have no child inside `[0, n)`, so every array
      is already a heap there. */
  lemma LeavesAreHeaps(c: Comparator, s: seq<int>, n: nat)
    requires n <= |s|
    ensures HeapFrom(c, s, n / 2, n)
  {
  }

  // ---------------------------------------------------------------------
  // sift_down: the invariant of its loop, how it starts, steps and stops
  // ---------------------------------------------------------------------

  /** While sifting `start` down, the element under way sits at `root`: every
      index of `[start, end)` but `root` has the heap property, and the parent
      of `root` (inside the subtree walked so far) ranks `root`'s children. */
  ghost predicate SiftInvariant(c: Comparator, s: seq<int>, start: nat, end: nat, root: nat)
    requires end <= |s|
  {
    && start <= root
    && (forall i :: start <= i < end && i != root ==> ParentOk(c, s, end, i))
    && (start < root ==>
          && start <= Parent(root)
          && (Left(root) < end ==> Ranks(c, s[Parent(root)], s[Left(root)]))
          && (Right(root) < end ==> Ranks(c, s[Parent(root)], s[Right(root)])))
  }

  /** The invariant holds at `root == start` when every index after `start` is
      already a heap. */
  lemma SiftBegins(c: Comparator, s: seq<int>, start: nat, end: nat)
    requires end <= |s|
    requires HeapFrom(c, s, start + 1, end)
    ensures SiftInvariant(c, s, start, end, start)
  {
  }

  /** One iteration: `swap` is the child of `root` that outranks it and ranks
      the other child; swapping the two moves the hole one level down. */
  lemma SiftStep(c: Comparator, s: seq<int>, start: nat, end: nat, root: nat, swap: nat)
    requires end <= |s|
    requires SiftInvariant(c, s, start, end, root)
    requires swap == Left(root) || swap == Right(root)
    requires swap < end && Cmp(c, s[root], s[swap])
    requires Ranks(c, s[swap], s[Left(root)])
    requires Right(root) < end ==> Ranks(c, s[swap], s[Right(root)])
    ensures SiftInvariant(c, Swap(s, root, swap), start, end, swap)
  {
    var t := Swap(s, root, swap);
    ParentIsUnique(root, swap);
    forall i | start <= i < end && i != swap
      ensures ParentOk(c, t, end, i)
    {
      if i == root {
        assert t[root] == s[swap];
      } else if start < root && i == Parent(root) {
        assert ParentOk(c, s, end, i);
        ParentIsUnique(i, root);
        if Left(i) != root {
          assert Left(i) != swap;
        }
        if Right(i) != root {
          assert Right(i) != swap;
        }
      } else {
        assert ParentOk(c, s, end, i);
        if Left(i) == root || Right(i) == root {
          ParentIsUnique(i, root);
        }
        if Left(i) == swap || Right(i) == swap {
          ParentIsUnique(i, swap);
        }
      }
    }
    assert ParentOk(c, s, end, swap);
  }

  /** The loop stops when `root` has no child inside the heap or when its
      children already rank below it; either way `[start, end)` is a heap. */
  lemma SiftStops(c: Comparator, s: seq<int>, start: nat, end: nat, root: nat)
    requires end <= |s|
    requires SiftInvariant(c, s, start, end, root)
    requires end <= Left(root) || ParentOk(c, s, end, root)
    ensures HeapFrom(c, s, start, end)
  {
  }

  // ---------------------------------------------------------------------
  // sort: one iteration moves the root behind the heap
  // ---------------------------------------------------------------------

  /** Construction leaves the whole array as heap and an empty sorted suffix. */
  lemma SortStateStarts(c: Comparator, s: seq<int>, len: nat)
    requires len <= |s| && IsHeap(c, s, len)
    ensures SortState(c, s, len, len)
  {
  }

  /** Swapping the root of a heap of `e > 1` elements with its last element
      and shrinking the heap by one extends the sorted, dominating suffix, and
      leaves a heap below the new root. */
  lemma ExtractRoot(c: Comparator, s: seq<int>, e: nat, len: nat)
    requires 1 < e <= len <= |s|
    requires SortState(c, s, e, len)
    ensures HeapFrom(c, Swap(s, 0, e - 1), 1, e - 1)
    ensures SortedRange(c, Swap(s, 0, e - 1), e - 1, len)
    ensures SuffixDominates(c, Swap(s, 0, e - 1), e - 1, len)
  {
    var t := Swap(s, 0, e - 1);
    forall k | 0 <= k < e
      ensures Ranks(c, s[0], s[k])
    {
      RootRanksAll(c, s, e, k);
    }
    var n := e - 1;
    forall i | 1 <= i < n
      ensures ParentOk(c, t, n, i)
    {
      assert ParentOk(c, s, e, i);
    }
    forall i, j | e - 1 <= i < j < len
      ensures Ranks(c, t[j], t[i])
    {
      if i == e - 1 {
        assert t[i] == s[0];
      }
    }
    forall i, j | 0 <= i < e - 1 <= j < len
      ensures Ranks(c, t[j], t[i])
    {
      if j == e - 1 {
        assert t[j] == s[0];
      }
    }
  }

  /** Permuting the heap part of a sort state into a heap again restores the
      whole sort state: the suffix is untouched and dominates the same elements. */
  lemma Resettle(c: Comparator, s: seq<int>, t: seq<int>, e: nat, len: nat)
    requires e <= len <= |s| == |t|
    requires SortedRange(c, s, e, len) && SuffixDominates(c, s, e, len)
    requires IsHeap(c, t, e)
    requires multiset(t) == multiset(s)
    requires forall k :: e <= k < |s| ==> t[k] == s[k]
    ensures SortState(c, t, e, len)
  {
    PrefixPermuted(t, s, e);
    forall i, j | 0 <= i < e <= j < len
      ensures Ranks(c, t[j], t[i])
    {
      assert t[i] in multiset(t[..e]);
      assert t[i] in s[..e];
      var i' :| 0 <= i' < e && s[i'] == t[i];
    }
  }

  /** A heap that has shrunk to at most one element leaves the whole range in
      the output order of `c`. */
  lemma SortStateDrained(c: Comparator, s: seq<int>, end: nat, len: nat)
    requires end <= 1 && end <= len <= |s|
    requires SortState(c, s, end, len)
    ensures Sorted(c, s[..len])
  {
    forall i, j | 0 <= i < j < len
      ensures Ranks(c, s[..len][j], s[..len][i])
    {
      assert s[..len][j] == s[j] && s[..len][i] == s[i];
    }
  }

  /** What a finished sort leaves behind: `s` grew out of `s0` by permuting
      its first `len` elements until at most one heap element was left. The
      first `len` elements are then in output order, hold what they held,
      and were not moved at all if `s0` had already drained its heap. */
  lemma SortFinished(c: Comparator, s0: seq<int>, e0: nat, s: seq<int>, e: nat, len: nat)
    requires e0 <= len && e <= 1 && e <= len && len <= |s0| == |s|
    requires SortState(c, s0, e0, len) && SortState(c, s, e, len)
    requires multiset(s) == multiset(s0)
    requires forall k :: len <= k < |s| ==> s[k] == s0[k]
    ensures Sorted(c, s[..len])
    ensures multiset(s[..len]) == multiset(s0[..len]) && s[len..] == s0[len..]
    ensures e0 <= 1 ==> s == s0
  {
    SortStateDrained(c, s, e, len);
    PrefixPermuted(s, s0, len);
    if e0 <= 1 {
      SortStateDrained(c, s0, e0, len);
      SortedUnique(c, s[..len], s0[..len]);
      assert s == s[..len] + s[len..];
      assert s0 == s0[..len] + s0[len..];
    }
  }

  /** Dropping the first element of a sorted sequence keeps it sorted. */
  lemma SortedTail(c: Comparator, s: seq<int>)
    requires s != [] && Sorted(c, s)
    ensures Sorted(c, s[1..])
  {
    forall i, j | 0 <= i < j < |s| - 1
      ensures Ranks(c, s[1..][j], s[1..][i])
    {
      assert s[1..][j] == s[j + 1] && s[1..][i] == s[i + 1];
    }
  }

  /** The first element of a sorted sequence is ranked by all its elements. */
  lemma SortedHeadIsLowest(c: Comparator, s: seq<int>, x: int)
    requires Sorted(c, s) && x in s
    ensures Ranks(c, x, s[0])
  {
    var k :| 0 <= k < |s| && s[k] == x;
    if k != 0 {
      assert Ranks(c, s[k], s[0]);
    }
  }

  /** Removing equal first elements from two sequences with equal multisets
      leaves equal multisets. */
  lemma TailMultiset(s: seq<int>, t: seq<int>)
    requires s != [] && t != [] && s[0] == t[0]
    requires multiset(s) == multiset(t)
    ensures multiset(s[1..]) == multiset(t[1..])
  {
    assert s == [s[0]] + s[1..];
    assert t == [t[0]] + t[1..];
    assert multiset(s) == multiset{s[0]} + multiset(s[1..]);
    assert multiset(t) == multiset{t[0]} + multiset(t[1..]);
    forall x ensures multiset(s[1..])[x] == multiset(t[1..])[x] {
      assert multiset(s)[x] == multiset(t)[x];
    }
  }

  /** Two sequences in the output order of `c` holding the same elements are
      equal: the sorted result depends only on the input's multiset. */
  lemma {:induction false} SortedUnique(c: Comparator, s: seq<int>, t: seq<int>)
    requires Sorted(c, s) && Sorted(c, t)
    requires multiset(s) == multiset(t)
    ensures s == t
  {
    assert |s| == |multiset(s)| == |multiset(t)| == |t|;
    if s != [] {
      assert s[0] in multiset(t) && t[0] in multiset(s);
      SortedHeadIsLowest(c, t, s[0]);
      SortedHeadIsLowest(c, s, t[0]);
      TailMultiset(s, t);
      SortedTail(c, s);
      SortedTail(c, t);
      SortedUnique(c, s[1..], t[1..]);
    }
  }
}
