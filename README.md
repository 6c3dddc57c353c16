# heapwrap: the in-place binary heap of `heap::base`

This project models `heap::base` from `heapwrap.H` in Dafny. It is a binary
heap that borrows an array from its caller and never copies it. The
constructor remembers the array, its length and an optional capacity, then
heapifies the first `length` slots. It does this by sifting every parent
down, from the last parent back to the root. `sort()` then turns the heap into
sorted output in place: it keeps swapping the root behind the shrinking heap
and sifting the new root down. The comparator decides the direction.
`heap::max` uses `std::less` and leaves the array ascending. `heap::min` uses
`std::greater` and leaves it descending.

The model has three modules:

- `HeapOrder` (`heap_order.dfy`) is pure. It holds:
  - the comparator policies as a datatype;
  - the index arithmetic of the implicit tree (`Left`, `Right`, `Parent`);
  - the heap, sorted-range and sort-state predicates over `seq<int>`
    snapshots of the array;
  - the lemmas that the imperative code relies on.
- `HeapEngine` (`heap_engine.dfy`) is imperative. `Heap` is a class over an
  `array<int>`:
  - the fields `arr`, `len`, `siz` and `cmp` are fixed at construction;
  - only `end` changes;
  - `Heapify`, `SiftDown` and `Sort` are methods with loop invariants that
    change the array by swapping slots.
  - `MaxHeap` and `MinHeap` are the two specialisations.
- `HeapExamples` (`heap_examples.dfy`) holds the fixed input of
  `heapwrap_test.C`, sorted by a max-heap and by a min-heap. Each result is
  derived only from the contracts of the engine.

The class invariant `Valid()` is the state of the heap between construction
and the end of `sort()`:

- `arr[..end]` is a heap;
- `arr[end..len]` is sorted in output order;
- every element of that sorted suffix ranks every element still in the heap.

Right after construction `end == len`, so the suffix is empty and the
invariant says the whole prefix is a heap. After `sort()`, `end <= 1`, and the
invariant says the whole prefix is sorted.

## Model

| member | source | states |
|---|---|---|
| HeapOrder.Cmp | heapwrap.H:105-108 | the comparator call `_cmp(a, b)`: `std::less` (the default of `heap::max`, heapwrap.H:137) holds exactly when `a < b`, `std::greater` (the default of `heap::min`, heapwrap.H:158) exactly when `b < a`, and neither holds for equal values |
| HeapOrder.ComparatorIsStrictOrder | heapwrap.H:134-174 | both `std::less` and `std::greater` are irreflexive, asymmetric, transitive and connected on int, so "ranks" is a total order |
| HeapOrder.Left | heapwrap.H:55-58 | the left child `2i+1` lies after `i`, at an odd index |
| HeapOrder.Right | heapwrap.H:60-63 | the right child `2i+2` lies after `i`, at an even index |
| HeapOrder.Parent | heapwrap.H:65-68 | `(i-1)/2` of a non-root index lies before it and has it as its left or right child |
| HeapOrder.ParentIsUnique | heapwrap.H:55-68 | `parent` inverts `left` and `right`, and an index's parent is the only index that has it as a child |
| HeapOrder.LastParent | heapwrap.H:77-90 | for `len >= 2`, `(len-2)/2` has a child inside the array and every later index is a leaf |
| HeapOrder.LeavesAreHeaps | heapwrap.H:88-93 | every index from `len/2` on already satisfies the heap property, so heapify may start at the last parent |
| HeapOrder.RootRanksAll | heapwrap.H:118-123 | the root of a heap ranks every element of it (proved by induction along the parent chain) |
| HeapOrder.RootIsExtremum | heapwrap.H:118-123 | under `std::less` the root is the largest element of the heap; under `std::greater` it is the smallest |
| HeapOrder.SortedMeaning | heapwrap_test.C:66-81 | output order is non-decreasing for `std::less` and non-increasing for `std::greater`, in both directions of the equivalence |
| HeapOrder.Swap | heapwrap.H:111 | `std::swap` of two slots exchanges them, leaves every other slot alone and keeps the multiset |
| HeapOrder.SiftBegins | heapwrap.H:96-99 | with every index after `start` a heap, the sift invariant holds with `root == start` |
| HeapOrder.SiftStep | heapwrap.H:104-112 | swapping `root` with the child that outranks it and its sibling keeps the sift invariant one level down |
| HeapOrder.SiftStops | heapwrap.H:101-115 | when `root` has no child in the heap, or already ranks its children, `[start, end)` is a heap |
| HeapOrder.SortStateStarts | heapwrap.H:85-94 | a heapified array with `end == len` is in the sort state, with an empty suffix |
| HeapOrder.ExtractRoot | heapwrap.H:127-128 | swapping the root with the last heap slot and shrinking `end` extends the sorted, dominating suffix and leaves a heap below the root |
| HeapOrder.Resettle | heapwrap.H:128-129 | re-heaping the front part by a permutation restores the whole sort state |
| HeapOrder.SortStateDrained | heapwrap.H:127-131 | once at most one heap element is left, the first `len` slots are in output order |
| HeapOrder.SortFinished | heapwrap.H:124-131 | a finished sort leaves `arr[..len]` sorted with the same multiset and the tail untouched, and moves nothing if the heap had already drained |
| HeapOrder.SortedUnique | heapwrap_test.C:66-81 | two sorted sequences with the same multiset are equal, so the heap's output equals `std::sort`'s output and its reverse |
| HeapEngine.Heap.constructor | heapwrap.H:41-53 | records the array, length, policy and capacity (`size ? size : length`); afterwards `end == len`, the prefix is a heap that permutes the old prefix, and the slots after `len` are unchanged |
| HeapEngine.Heap.Heapify | heapwrap.H:75-94 | sets `end = len` and leaves `arr[..len]` a heap permuting its old contents; arrays of at most one element and the slots after `len` are not touched |
| HeapEngine.Heap.SiftDown | heapwrap.H:96-116 | if every index after `start` is a heap, then afterwards every index from `start` is; only slots of `[start, end)` change, by a permutation; a range that already is a heap is left unchanged |
| HeapEngine.Heap.SiftTarget | heapwrap.H:104-109 | the slot chosen to swap with is `root` or one of its children inside the heap, ranks `root` and both children, and is `root` exactly when `root` already ranks its children; the right child is chosen only when it strictly outranks the left one, so ties go left |
| HeapEngine.Heap.Exchange | heapwrap.H:111 | the array afterwards is `Swap` of the array before |
| HeapEngine.Heap.SortStep | heapwrap.H:127-130 | one loop pass keeps `Valid()`, shrinks `end` by one, permutes the array and leaves the slots after `len` alone |
| HeapEngine.Heap.Sort | heapwrap.H:124-131 | leaves `end` at 1 (0 for an empty heap) and `arr[..len]` sorted in output order and a permutation of its old contents; the tail is unchanged, and a heap of at most one element is not touched |
| HeapEngine.MaxHeap | heapwrap.H:134-153 | builds a heap under `std::less` over the caller's array, permuting its prefix; a buffer of at most one element is not touched |
| HeapEngine.MinHeap | heapwrap.H:155-174 | builds a heap under `std::greater` over the caller's array, permuting its prefix; a buffer of at most one element is not touched |
| HeapExamples.ExpectedResults | heapwrap_test.C:49-81 | the test's ascending and descending results hold the elements of its input and are sorted under `std::less` and `std::greater` |
| HeapExamples.SortCopy | heapwrap_test.C:60-71 | heapifying a copy of any input through `heap::max` or `heap::min` and sorting it yields a sorted permutation of it, and sorting it again changes nothing |
| HeapExamples.MaxSortsAscending | heapwrap_test.C:60-71 | `heap::max` sorts the test input into `-1, 0, 1, 2, 3, 4, 5, 5, 6, 7, 8, 9, 10` |
| HeapExamples.MinSortsDescending | heapwrap_test.C:72-82 | `heap::min` sorts the test input into the reverse of that sequence |
| HeapExamples.SingletonUntouched | heapwrap.H:85-87 | a one-element array is neither changed by construction nor by `sort()`, and its heap keeps `end == 1` |

## Left out

- Element type: the template parameter `T` is fixed to `int`. The comparator `P` is reduced to the two policies that the library instantiates, `std::less<int>` and `std::greater<int>`.
- Index type: `S` (`size_t`) is an unbounded `nat`. Overflow of `i*2+1` and `i*2+2` is not modelled. `HeapOrder.Parent` requires `i > 0`, so the unsigned wrap-around of `parent(0)` is not modelled either. The source never calls `parent`.
- Capacity: `_siz` is only recorded. Insertion and re-allocation, which the file's header comment mentions, are not implemented in `heapwrap.H`, so they are not modelled.
- Inheritance: `heap::max` and `heap::min` are subclasses that only pass a comparator to `base`. They are modelled as the factory methods `MaxHeap` and `MinHeap`.
- Reads: Dafny methods cannot state which locations they read. Only the locations they write are framed, with `modifies` and "everything else unchanged" postconditions.
- Fields: `arr`, `len`, `siz` and `cmp` are `const`, because the source never assigns them after construction. Only `end` is mutable.
- HeapEngine.Heap.SiftDown: the precondition asks for the heap property at every index after `start`. The source only needs the two subtrees below `start` to be heaps. Both callers, heapify and sort, meet the stronger form.
- Test harness: the `std::make_heap` comparison at heapwrap_test.C:54-64 is not modelled, because the layout `std::make_heap` produces is not specified. Printing and the test runner are also not modelled.
