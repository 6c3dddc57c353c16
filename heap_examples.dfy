/*
 * Clients of the heap engine: the fixed input of heapwrap_test.C sorted by a
 * max-heap and by a min-heap, and the one-element boundary case. Each result
 * is pinned down only through the contracts of the constructor and of Sort.
 */
module HeapExamples {
  import opened HeapOrder
  import opened HeapEngine

  const HarnessInput: seq<int> := [1, 2, 3, 10, 5, 0, 4, 5, 6, 9, 8, 7, -1]
  const Ascending: seq<int> := [-1, 0, 1, 2, 3, 4, 5, 5, 6, 7, 8, 9, 10]
  const Descending: seq<int> := [10, 9, 8, 7, 6, 5, 5, 4, 3, 2, 1, 0, -1]

  lemma InputElements()
    ensures multiset(HarnessInput) == multiset{1, 2, 3, 10, 5, 0, 4, 5, 6, 9, 8, 7, -1}
  {
  }

  lemma AscendingElements()
    ensures multiset(Ascending) == multiset{-1, 0, 1, 2, 3, 4, 5, 5, 6, 7, 8, 9, 10}
  {
  }

  lemma DescendingElements()
    ensures multiset(Descending) == multiset{10, 9, 8, 7, 6, 5, 5, 4, 3, 2, 1, 0, -1}
  {
  }

  lemma SameElementsAscending()
    ensures multiset{1, 2, 3, 10, 5, 0, 4, 5, 6, 9, 8, 7, -1}
         == multiset{-1, 0, 1, 2, 3, 4, 5, 5, 6, 7, 8, 9, 10}
  {
  }

  lemma SameElementsDescending()
    ensures multiset{-1, 0, 1, 2, 3, 4, 5, 5, 6, 7, 8, 9, 10}
         == multiset{10, 9, 8, 7, 6, 5, 5, 4, 3, 2, 1, 0, -1}
  {
  }

  lemma AscendingIsSorted()
    ensures Sorted(Less, Ascending)
  {
  }

  lemma DescendingIsSorted()
    ensures Sorted(Greater, Descending)
  {
  }

  /** The expected results of the harness hold the input's elements, in
      ascending and in descending order. */
  lemma ExpectedResults()
    ensures multiset(Ascending) == multiset(HarnessInput) && Sorted(Less, Ascending)
    ensures multiset(Descending) == multiset(HarnessInput) && Sorted(Greater, Descending)
  {
    InputElements();
    AscendingElements();
    DescendingElements();
    SameElementsAscending();
    SameElementsDescending();
    AscendingIsSorted();
    DescendingIsSorted();
  }

  /** Copies `input` into a fresh array, heapifies it under `c` and sorts it
      twice: the first sort orders the elements, the second changes nothing. */
  method SortCopy(input: seq<int>, c: Comparator) returns (once: seq<int>, twice: seq<int>)
    ensures multiset(once) == multiset(input) && Sorted(c, once)
    ensures twice == once
  {
    var a := new int[|input|](i requires 0 <= i < |input| => input[i]);
    assert a[..] == input;
    assert a[..a.Length] == input;
    var h;
    if c == Less {
      h := MaxHeap(a, a.Length, 0);
    } else {
      h := MinHeap(a, a.Length, 0);
    }
    assert multiset(a[..h.len]) == multiset(input);
    h.Sort();
    once := a[..];
    assert once == a[..h.len];
    h.Sort();
    twice := a[..];
  }

  /** heap::max over the harness input, sorted twice: ascending, and the
      second sort changes nothing. */
  method MaxSortsAscending() returns (r: seq<int>, again: seq<int>)
    ensures r == Ascending && again == Ascending
  {
    r, again := SortCopy(HarnessInput, Less);
    ExpectedResults();
    SortedUnique(Less, r, Ascending);
  }

  /** heap::min over the harness input: the reverse, descending order. */
  method MinSortsDescending() returns (r: seq<int>)
    ensures r == Descending
  {
    var again;
    r, again := SortCopy(HarnessInput, Greater);
    ExpectedResults();
    SortedUnique(Greater, r, Descending);
  }

  /** A one-element array is heapified and sorted without being changed, and
      the heap covers it alone. */
  method SingletonUntouched(x: int, c: Comparator) returns (r: seq<int>, end: nat)
    ensures r == [x] && end == 1
  {
    var a := new int[][x];
    var h;
    if c == Less {
      h := MaxHeap(a, 1, 0);
    } else {
      h := MinHeap(a, 1, 0);
    }
    h.Sort();
    r, end := a[..], h.end;
  }
}
