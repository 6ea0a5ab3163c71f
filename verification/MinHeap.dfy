/**
  The array heap with its position index: a multimap from value to array position that the
  sift loops update entry by entry.
 */
module MinHeapModel {
  import opened TimeOrder
  import opened Multimap
  import HeapSpec

  const EXTSIZE: nat := 1000
  const MAXSIZE: nat := HeapSpec.MAXSIZE
  const SIZETHRESHOLD: nat := 1500

  /** The index lists (s[k], k) once for every position k other than the hole, and nothing else. */
  ghost predicate IndexExact(index: Entries<int>, s: seq<Time>, hole: int) {
    && Sorted(index)
    && forall v, k :: multiset(index)[(v, k)] == if 0 <= k < |s| && k != hole && s[k] == v then 1 else 0
  }

  /** Moving the value at i into the hole at j moves the hole to i. */
  lemma MoveIntoHole(index: Entries<int>, index': Entries<int>, s: seq<Time>, s': seq<Time>, i: nat, j: nat)
    requires i < |s| == |s'| && j < |s| && i != j
    requires IndexExact(index, s, j) && Sorted(index')
    requires multiset(index') == multiset(index) - multiset{(s[i], i)} + multiset{(s[i], j)}
    requires s'[j] == s[i] && forall k :: 0 <= k < |s| && k != i && k != j ==> s'[k] == s[k]
    ensures IndexExact(index', s', i)
  {
  }

  /** Entering the value of the hole closes it. */
  lemma FillHole(index: Entries<int>, index': Entries<int>, s: seq<Time>, j: nat)
    requires j < |s| && IndexExact(index, s, j) && Sorted(index')
    requires multiset(index') == multiset(index) + multiset{(s[j], j)}
    ensures IndexExact(index', s, -1)
  {
  }

  /** A new last position starts as a hole. */
  lemma AppendHole(index: Entries<int>, s: seq<Time>, x: Time)
    requires IndexExact(index, s, -1)
    ensures IndexExact(index, s + [x], |s|)
  {
  }

  /** The array after the last element has been moved to position id. */
  function Vacated(s: seq<Time>, id: nat): seq<Time>
    requires id < |s|
  {
    var n := |s| - 1;
    if id == n then s[..n] else s[..n][id := s[n]]
  }

  /** Without the entries of id and of the last position, the index fits the array with a hole at id. */
  lemma DropLast(index: Entries<int>, index': Entries<int>, s: seq<Time>, id: nat)
    requires id < |s| && IndexExact(index, s, -1) && Sorted(index')
    requires multiset(index') == multiset(index) - multiset{(s[id], id)} - multiset{(s[|s| - 1], |s| - 1)}
    ensures IndexExact(index', Vacated(s, id), if id == |s| - 1 then -1 else id)
  {
  }

  lemma Indexed(index: Entries<int>, s: seq<Time>, k: nat)
    requires k < |s| && IndexExact(index, s, -1)
    ensures exists e :: 0 <= e < |index| && index[e].0 == s[k]
  {
    assert multiset(index)[(s[k], k)] == 1;
    assert (s[k], k) in index;
  }

  class MinHeap {
    var heap: array<Time>
    var currentSize: nat
    var allocatedSize: nat
    var index: Entries<int>

    /** Says nothing about heap order, which Del may lose: see HeapSpec.DeleteAtOrder. */
    ghost predicate Valid()
      reads this, heap
    {
      && heap.Length == allocatedSize <= MAXSIZE
      && currentSize <= allocatedSize
      && IndexExact(index, heap[..currentSize], -1)
    }

    ghost function Contents(): seq<Time>
      reads this, heap
      requires Valid()
    {
      heap[..currentSize]
    }

    constructor ()
      ensures Valid() && fresh(heap) && Contents() == []
    {
      heap := new Time[EXTSIZE];
      currentSize := 0;
      allocatedSize := EXTSIZE;
      index := [];
    }

    /** realloc: a block of the new size with as much of the old contents as fits. */
    method Reallocate(size: nat) returns (block: array<Time>)
      ensures fresh(block) && block.Length == size
      ensures forall k :: 0 <= k < size && k < heap.Length ==> block[k] == heap[k]
    {
      block := new Time[size];
      var i := 0;
      while i < size && i < heap.Length
        invariant 0 <= i <= size && i <= heap.Length
        invariant forall k :: 0 <= k < i ==> block[k] == heap[k]
      {
        block[i] := heap[i];
        i := i + 1;
      }
    }

    /** heap = Shrink(): give back memory when SIZETHRESHOLD or more slots are free. */
    method Shrink()
      requires heap.Length == allocatedSize <= MAXSIZE && currentSize <= allocatedSize
      modifies this`heap, this`allocatedSize
      ensures heap == old(heap) || fresh(heap)
      ensures heap.Length == allocatedSize <= MAXSIZE
      ensures old(currentSize < allocatedSize) ==> currentSize < allocatedSize
      ensures currentSize <= allocatedSize && heap[..currentSize] == old(heap[..currentSize])
      ensures allocatedSize < currentSize + SIZETHRESHOLD
    {
      if allocatedSize - currentSize >= SIZETHRESHOLD {
        allocatedSize := (currentSize / EXTSIZE + 1) * EXTSIZE;
        heap := Reallocate(allocatedSize);
      }
    }

    /** The position in the index of the entry (x, id), or its end. */
    method Search(x: Time, id: int) returns (it: nat)
      requires Sorted(index)
      ensures it <= |index|
      ensures it < |index| ==> index[it] == (x, id)
      ensures it == |index| <==> (x, id) !in index
    {
      var beg, back := LowerBound(index, x), UpperBound(index, x);
      while beg < back
        invariant LowerBound(index, x) <= beg
        invariant forall k :: 0 <= k < beg && k < |index| ==> index[k] != (x, id)
      {
        if index[beg].1 == id {
          return beg;
        } else {
          beg := beg + 1;
        }
      }
      it := |index|;
    }

    /** Search and erase what was found, as every caller of Search does. */
    method EraseFound(x: Time, id: int)
      requires Sorted(index)
      modifies this`index
      ensures Sorted(index) && multiset(index) == old(multiset(index)) - multiset{(x, id)}
    {
      var it := Search(x, id);
      if it != |index| {
        EraseProperties(index, it);
        index := Erase(index, it);
      }
    }

    method Enter(x: Time, id: int)
      requires Sorted(index)
      modifies this`index
      ensures Sorted(index) && multiset(index) == old(multiset(index)) + multiset{(x, id)}
    {
      InsertProperties(index, x, id);
      index := Multimap.Insert(index, x, id);
    }

    /** s is what the heap holds once temp is put back into the hole at j. */
    ghost predicate Pending(s: seq<Time>, j: nat, temp: Time)
      reads this, heap
    {
      && j < |s| <= heap.Length && s[j] == temp
      && (forall k :: 0 <= k < |s| && k != j ==> s[k] == heap[k])
      && IndexExact(index, s, j)
    }

    /** One step of a sift: the element at i drops into the hole at j, in the array and in the index. */
    method Shift(i: nat, j: nat, temp: Time, ghost s: seq<Time>)
      requires Pending(s, j, temp) && i < |s| && i != j
      modifies heap, this`index
      ensures Pending(HeapSpec.Swap(s, j, i), i, temp)
    {
      ghost var index0 := index;
      heap[j] := heap[i];
      EraseFound(heap[i], i);
      Enter(heap[i], j);
      MoveIntoHole(index0, index, s, HeapSpec.Swap(s, j, i), i, j);
    }

    /** The end of a sift: temp goes into the hole and its old entry, if any, is replaced. */
    method Settle(j: nat, temp: Time, flag: nat, ghost s: seq<Time>)
      requires Pending(s, j, temp)
      requires flag < |s| && (flag != j ==> s[flag] != temp)
      modifies heap, this`index
      ensures heap[..|s|] == s && IndexExact(index, s, -1)
    {
      ghost var index0 := index;
      heap[j] := temp;
      assert multiset(index0)[(temp, flag as int)] == 0;
      EraseFound(temp, flag);
      Enter(temp, j);
      FillHole(index0, index, s, j);
    }

    method FilterUp(start: nat)
      requires start < heap.Length && IndexExact(index, heap[..start + 1], start)
      modifies heap, this`index
      ensures heap[..start + 1] == HeapSpec.SiftUp(old(heap[..start + 1]), start)
      ensures IndexExact(index, heap[..start + 1], -1)
    {
      var j, i := start, if start == 0 then 0 else (start - 1) / 2;
      var temp := heap[j];
      var flag := j;
      ghost var s := heap[..start + 1];
      while j > 0
        invariant 0 <= j <= start && i == if j == 0 then 0 else (j - 1) / 2
        invariant |s| == start + 1 && Pending(s, j, temp)
        invariant HeapSpec.SiftUp(s, j) == HeapSpec.SiftUp(old(heap[..start + 1]), start)
        invariant j != flag ==> s[flag] != temp
      {
        if Leq(heap[i], temp) {
          break;
        } else {
          Shift(i, j, temp, s);
          s := HeapSpec.Swap(s, j, i);
          j := i;
          i := if i == 0 then 0 else (i - 1) / 2;
        }
      }
      Settle(j, temp, flag, s);
    }

    method FilterDown(start: nat, end: int)
      requires start <= end < heap.Length && IndexExact(index, heap[..end + 1], start)
      modifies heap, this`index
      ensures heap[..end + 1] == HeapSpec.SiftDown(old(heap[..end + 1]), start)
      ensures IndexExact(index, heap[..end + 1], -1)
    {
      hide IndexExact, HeapSpec.SiftDown;
      var i, j := start, 2 * start + 1;
      var temp := heap[i];
      var flag := i;
      ghost var s := heap[..end + 1];
      while j <= end
        invariant start <= i <= end && j == 2 * i + 1
        invariant |s| == end + 1 && Pending(s, i, temp)
        invariant HeapSpec.SiftDown(s, i) == HeapSpec.SiftDown(old(heap[..end + 1]), start)
        invariant i != flag ==> s[flag] != temp
      {
        if j < end && Less(heap[j + 1], heap[j]) {
          j := j + 1;
        }
        assert j == HeapSpec.SmallerChild(s, i);
        if Leq(temp, heap[j]) {
          break;
        } else {
          HeapSpec.SiftDownStep(s, i);
          Shift(j, i, temp, s);
          s := HeapSpec.Swap(s, i, j);
          i := j;
          j := 2 * j + 1;
        }
      }
      HeapSpec.SiftDownEnds(s, i);
      Settle(i, temp, flag, s);
    }

    /** Grow by EXTSIZE up to the cap when the block is full, then let Shrink have its say. */
    method MakeRoom()
      requires Valid() && currentSize < MAXSIZE
      modifies this`heap, this`allocatedSize
      ensures Valid() && (heap == old(heap) || fresh(heap))
      ensures Contents() == old(Contents()) && currentSize < allocatedSize
    {
      if currentSize == allocatedSize {
        allocatedSize := allocatedSize + EXTSIZE;
        if allocatedSize > MAXSIZE {
          allocatedSize := MAXSIZE;
        }
        heap := Reallocate(allocatedSize);
      }
      Shrink();
    }

    method Insert(x: Time) returns (ok: bool)
      requires Valid()
      modifies this, heap
      ensures Valid() && (heap == old(heap) || fresh(heap))
      ensures ok <==> old(currentSize) < MAXSIZE
      ensures Contents() == if ok then HeapSpec.Insert(old(Contents()), x) else old(Contents())
    {
      if currentSize >= MAXSIZE {
        return false;
      }
      MakeRoom();
      AppendHole(index, heap[..currentSize], x);
      heap[currentSize] := x;
      assert heap[..currentSize + 1] == old(Contents()) + [x];
      FilterUp(currentSize);
      currentSize := currentSize + 1;
      return true;
    }

    /** The last element moves to position at; the entries of the removed and of the moved element go. */
    method Vacate(at: nat)
      requires Valid() && at < currentSize
      modifies heap, this`currentSize, this`index
      ensures currentSize == old(currentSize) - 1
      ensures heap[..currentSize] == Vacated(old(Contents()), at)
      ensures IndexExact(index, heap[..currentSize], if at == currentSize then -1 else at)
    {
      ghost var s, index0 := Contents(), index;
      var x := heap[at];
      heap[at] := heap[currentSize - 1];
      currentSize := currentSize - 1;
      assert heap[..currentSize] == Vacated(s, at);
      EraseBoth(x, at, heap[at], currentSize);
      DropLast(index0, index, s, at);
    }

    method EraseBoth(x: Time, at: nat, last: Time, end: nat)
      requires Sorted(index)
      modifies this`index
      ensures Sorted(index)
      ensures multiset(index) == old(multiset(index)) - multiset{(x, at)} - multiset{(last, end)}
    {
      EraseFound(x, at);
      EraseFound(last, end);
    }

    method RemoveMin() returns (x: Time)
      requires Valid() && currentSize > 0
      modifies this, heap
      ensures Valid() && (heap == old(heap) || fresh(heap))
      ensures x == old(Contents())[0]
      ensures Contents() == HeapSpec.RemoveMin(old(Contents()))
    {
      x := heap[0];
      Vacate(0);
      if currentSize == 0 {
        return;
      }
      FilterDown(0, currentSize - 1);
      Shrink();
    }

    method FindAny(x: Time) returns (it: nat)
      requires Valid()
      ensures it <= |index| && (it < |index| <==> x in Contents())
      ensures it < |index| ==> index[it].0 == x && 0 <= index[it].1 < currentSize && heap[index[it].1] == x
    {
      it := Find(index, x);
      if it == |index| {
        forall k | 0 <= k < currentSize
          ensures heap[k] != x
        {
          Indexed(index, Contents(), k);
        }
      } else {
        assert index[it] in multiset(index);
        assert heap[index[it].1] in Contents();
      }
    }

    /** The end of Del: Shrink, then sift down from the vacated position. */
    method Refill(at: nat)
      requires heap.Length == allocatedSize <= MAXSIZE && at < currentSize <= allocatedSize
      requires IndexExact(index, heap[..currentSize], at)
      modifies this`heap, this`allocatedSize, this`index, heap
      ensures Valid() && (heap == old(heap) || fresh(heap))
      ensures Contents() == HeapSpec.SiftDown(old(heap[..currentSize]), at)
    {
      hide IndexExact;
      Shrink();
      FilterDown(at, currentSize - 1);
    }

    /** id is the position that the index gave for x. */
    method Del(x: Time) returns (found: bool, ghost id: nat)
      requires Valid()
      modifies this, heap
      ensures Valid() && (heap == old(heap) || fresh(heap))
      ensures found <==> x in old(Contents())
      ensures found ==> id < |old(Contents())| && old(Contents())[id] == x
      ensures Contents() == if found then HeapSpec.DeleteAt(old(Contents()), id) else old(Contents())
    {
      var it := FindAny(x);
      if it == |index| {
        return false, 0;
      }
      var at := index[it].1;
      id := at;
      Vacate(at);
      if at == currentSize || currentSize == 0 {
        return true, id;
      }
      Refill(at);
      return true, id;
    }

    method GetMin() returns (x: Time)
      requires Valid() && currentSize > 0
      ensures x == Contents()[0]
    {
      x := heap[0];
    }

    predicate IsEmpty()
      reads this
    {
      currentSize == 0
    }

    predicate IsFull()
      reads this
    {
      currentSize == MAXSIZE
    }

    method Clear()
      requires Valid()
      modifies this
      ensures Valid() && heap == old(heap) && Contents() == []
    {
      currentSize := 0;
      index := [];
    }
  }

  /** The pairs (s[k], k), position by position. */
  function Positions(s: seq<Time>): (r: Entries<int>) {
    if s == [] then [] else Positions(s[..|s| - 1]) + [(s[|s| - 1], |s| - 1)]
  }

  lemma {:induction false} PositionsCount(s: seq<Time>, v: Time, k: int)
    ensures multiset(Positions(s))[(v, k)] == if 0 <= k < |s| && s[k] == v then 1 else 0
  {
    if s == [] {
    } else {
      PositionsCount(s[..|s| - 1], v, k);
    }
  }

  /** The index is the multiset of all (heap[k], k), neither more nor fewer. */
  lemma IndexIsPositions(index: Entries<int>, s: seq<Time>)
    requires IndexExact(index, s, -1)
    ensures multiset(index) == multiset(Positions(s)) && |index| == |Positions(s)|
  {
    forall e: (Time, int)
      ensures multiset(index)[e] == multiset(Positions(s))[e]
    {
      PositionsCount(s, e.0, e.1);
    }
    assert multiset(index) == multiset(Positions(s));
    assert |multiset(index)| == |multiset(Positions(s))|;
  }
}
