/*
 * heap::base: an in-place binary heap over a caller-owned array. The array
 * is borrowed, never copied; heapify, sift-down and sort permute its first
 * `len` slots by swapping, and leave every slot after them alone.
 */
module HeapEngine {
  import opened HeapOrder

  class Heap {
    /** The borrowed array, the heap's logical length, the recorded
        capacity and the ordering policy; none changes after construction. */
    const arr: array<int>
    const len: nat
    const siz: nat
    const cmp: Comparator
    /** End of the part of `arr` that is still a heap. */
    var end: nat

    ghost predicate Bounded()
      reads this
    {
      end <= len <= arr.Length
    }

    /** The object invariant from construction to the end of `Sort`: a heap
        in `arr[..end]`, sorted output in `arr[end..len]` that ranks every
        element of the heap. */
    ghost predicate Valid()
      reads this, arr
    {
      Bounded() && SortState(cmp, arr[..], end, len)
    }

    /** Remembers the array, its length and capacity (0 means "same as
        length") and turns the first `length` slots into a heap. */
    constructor (buffer: array<int>, length: nat, size: nat, c: Comparator)
      requires length <= buffer.Length
      modifies buffer
      ensures arr == buffer && len == length && cmp == c
      ensures siz == if size != 0 then size else length
      ensures end == len && Valid()
      ensures IsHeap(cmp, arr[..], len)
      ensures multiset(arr[..len]) == old(multiset(buffer[..length]))
      ensures arr[len..] == old(buffer[length..])
      ensures length <= 1 ==> arr[..] == old(buffer[..])
    {
      arr := buffer;
      end := 0;
      len := length;
      siz := if size != 0 then size else length;
      cmp := c;
      new;
      Heapify();
    }

    /** Sifts every parent down, from the last one back to the root, so that
        `arr[..len]` becomes a heap; arrays of 0 or 1 elements are untouched. */
    method Heapify()
      requires len <= arr.Length
      modifies this`end, arr
      ensures end == len && Valid()
      ensures multiset(arr[..len]) == old(multiset(arr[..len]))
      ensures arr[len..] == old(arr[len..])
      ensures len <= 1 ==> arr[..] == old(arr[..])
    {
      end := len;
      if len <= 1 {
        return;
      }
      var start: nat := (len - 2) / 2;
      LastParent(len);
      LeavesAreHeaps(cmp, arr[..], len);
      SiftDown(start);
      while start > 0
        invariant start < len && end == len
        invariant HeapFrom(cmp, arr[..], start, end)
        invariant multiset(arr[..]) == old(multiset(arr[..]))
        invariant forall k :: len <= k < arr.Length ==> arr[k] == old(arr[k])
      {
        start := start - 1;
        SiftDown(start);
      }
      SortStateStarts(cmp, arr[..], len);
      PrefixPermuted(arr[..], old(arr[..]), len);
    }

    /** Moves `arr[start]` down to where it ranks its children, given that
        every index after `start` is already a heap. Only slots of
        `[start, end)` change, and only by swapping. */
    method SiftDown(start: nat)
      requires Bounded()
      requires HeapFrom(cmp, arr[..], start + 1, end)
      modifies arr
      ensures HeapFrom(cmp, arr[..], start, end)
      ensures multiset(arr[..]) == old(multiset(arr[..]))
      ensures start <= end ==> multiset(arr[start..end]) == old(multiset(arr[start..end]))
      ensures forall k :: 0 <= k < arr.Length && !(start <= k < end) ==> arr[k] == old(arr[k])
      ensures old(HeapFrom(cmp, arr[..], start, end)) ==> arr[..] == old(arr[..])
    {
      SiftBegins(cmp, arr[..], start, end);
      ghost var settled := HeapFrom(cmp, arr[..], start, end);
      ghost var original := arr[..];
      if settled && start < end {
        assert ParentOk(cmp, arr[..], end, start);
      }
      var root := start;
      while Left(root) < end
        invariant SiftInvariant(cmp, arr[..], start, end, root)
        invariant multiset(arr[..]) == old(multiset(arr[..]))
        invariant forall k :: 0 <= k < arr.Length && !(start <= k < end) ==> arr[k] == old(arr[k])
        invariant settled ==> root == start && arr[..] == original
        invariant settled && start < end ==> ParentOk(cmp, arr[..], end, start)
        decreases end - root
      {
        var swap := SiftTarget(root);
        if swap == root {
          break;
        }
        SiftStep(cmp, arr[..], start, end, root, swap);
        Exchange(root, swap);
        root := swap;
      }
      SiftStops(cmp, arr[..], start, end, root);
      if start <= end {
        MultisetOfRange(arr[..], old(arr[..]), start, end);
      }
    }

    /** The slot `arr[root]` is exchanged with: `root` itself, or the child
        that outranks it and its sibling. `root` stays exactly when it already
        ranks its children. */
    function SiftTarget(root: nat): (swap: nat)
      reads this, arr
      requires Bounded() && Left(root) < end
      ensures swap == root || swap == Left(root) || swap == Right(root)
      ensures swap < end
      ensures Ranks(cmp, arr[swap], arr[root]) && Ranks(cmp, arr[swap], arr[Left(root)])
      ensures Right(root) < end ==> Ranks(cmp, arr[swap], arr[Right(root)])
      ensures swap != root ==> Cmp(cmp, arr[root], arr[swap])
      ensures swap == Right(root) ==> Cmp(cmp, arr[Left(root)], arr[Right(root)])
      ensures swap == root <==> ParentOk(cmp, arr[..], end, root)
    {
      var best := if Cmp(cmp, arr[root], arr[Left(root)]) then Left(root) else root;
      if Right(root) < end && Cmp(cmp, arr[best], arr[Right(root)]) then Right(root) else best
    }

    /** `std::swap` of two slots of the borrowed array. */
    method Exchange(i: nat, j: nat)
      requires i < arr.Length && j < arr.Length
      modifies arr
      ensures arr[..] == Swap(old(arr[..]), i, j)
      ensures forall k :: 0 <= k < arr.Length && k != i && k != j ==> arr[k] == old(arr[k])
      ensures multiset(arr[..]) == old(multiset(arr[..]))
    {
      arr[i], arr[j] := arr[j], arr[i];
    }

    /** Heapsort: while more than one element is left in the heap, swaps the
        root behind it, shrinks it by one and sifts the new root down. The
        result is ascending for `Less` and descending for `Greater`. */
    method Sort()
      requires Valid()
      modifies this`end, arr
      ensures Valid() && end == if old(end) == 0 then 0 else 1
      ensures Sorted(cmp, arr[..len])
      ensures multiset(arr[..len]) == old(multiset(arr[..len]))
      ensures arr[len..] == old(arr[len..])
      ensures old(end) <= 1 ==> arr[..] == old(arr[..])
    {
      while end > 1
        invariant Valid() && end <= old(end)
        invariant old(end) <= 1 ==> end == old(end)
        invariant 1 <= old(end) ==> 1 <= end
        invariant multiset(arr[..]) == old(multiset(arr[..]))
        invariant forall k :: len <= k < arr.Length ==> arr[k] == old(arr[k])
      {
        SortStep();
      }
      SortFinished(cmp, old(arr[..]), old(end), arr[..], end, len);
      assert Valid();
      assert Sorted(cmp, arr[..len]);
    }

    /** One pass of the sort loop: the root, which ranks the whole heap,
        moves to the slot just behind the shrunken heap, and the element it
        displaced is sifted down from the root. */
    method SortStep()
      requires Valid() && end > 1
      modifies this`end, arr
      ensures Valid() && end == old(end) - 1
      ensures multiset(arr[..]) == old(multiset(arr[..]))
      ensures forall k :: len <= k < arr.Length ==> arr[k] == old(arr[k])
    {
      ExtractRoot(cmp, arr[..], end, len);
      end := end - 1;
      Exchange(0, end);
      ghost var swapped := arr[..];
      SiftDown(0);
      Resettle(cmp, swapped, arr[..], end, len);
    }
  }

  /** heap::max: the `std::less` policy; the largest element is at the root
      and `Sort` leaves the array ascending. */
  method MaxHeap(buffer: array<int>, length: nat, size: nat) returns (h: Heap)
    requires length <= buffer.Length
    modifies buffer
    ensures fresh(h) && h.arr == buffer && h.len == length && h.cmp == Less
    ensures h.siz == if size != 0 then size else length
    ensures h.end == length && h.Valid()
    ensures multiset(buffer[..length]) == old(multiset(buffer[..length]))
    ensures buffer[length..] == old(buffer[length..])
    ensures length <= 1 ==> buffer[..] == old(buffer[..])
  {
    h := new Heap(buffer, length, size, Less);
  }

  /** heap::min: the `std::greater` policy; the smallest element is at the
      root and `Sort` leaves the array descending. */
  method MinHeap(buffer: array<int>, length: nat, size: nat) returns (h: Heap)
    requires length <= buffer.Length
    modifies buffer
    ensures fresh(h) && h.arr == buffer && h.len == length && h.cmp == Greater
    ensures h.siz == if size != 0 then size else length
    ensures h.end == length && h.Valid()
    ensures multiset(buffer[..length]) == old(multiset(buffer[..length]))
    ensures buffer[length..] == old(buffer[length..])
    ensures length <= 1 ==> buffer[..] == old(buffer[..])
  {
    h := new Heap(buffer, length, size, Greater);
  }
}
