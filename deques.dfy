/** `fdt::Deque`: a double-ended queue kept in a ring buffer. The logical
    element `i` lives in slot `(front + i) % capacity`; the buffer doubles when
    a push or an insert fills it. Errors are thrown in the original and are
    returned here as `Failed(...)`/`Err(...)`, with the object unchanged. */
module Deques {
  import opened RingIndex
  import opened RingEdits
  import opened RingBuffers
  import opened DequeIterators
  import opened Failures

  const DefaultCapacity: nat := 64

  class Deque<T(0)> {
    var container: array<T>
    var capacity: nat
    var front: nat
    var size: nat

    /** The buffer has `capacity` slots, `front` is one of them, and the index
        sums the operations form (`front + size`, `b + e`) fit in a `size_t`. */
    ghost predicate Storage()
      reads this
    {
      0 < capacity == container.Length && front < capacity && Addressable(capacity)
    }

    /** `size == capacity` is allowed: `resize` can reach it. */
    ghost predicate Valid()
      reads this
    {
      Storage() && size <= capacity
    }

    /** The logical sequence: `size` elements read from slot `front` on, around the ring. */
    ghost function Contents(): seq<T>
      reads this, container
      requires Storage()
    {
      View(container[..], front, size)
    }

    // -------------------------------------------------------------------------
    // Construction and assignment

    constructor ()
      ensures Valid() && fresh(container)
      ensures capacity == DefaultCapacity && Contents() == []
    {
      container := new T[DefaultCapacity];
      capacity := DefaultCapacity;
      front := 0;
      size := 0;
    }

    constructor WithCapacity(n: SizeT)
      requires 0 < n && Addressable(n)
      ensures Valid() && fresh(container)
      ensures capacity == n && Contents() == []
    {
      container := new T[n];
      capacity := n;
      front := 0;
      size := 0;
    }

    /** The initializer-list constructor: twice as many slots as elements. */
    constructor FromSeq(xs: seq<T>)
      requires 0 < |xs| && Addressable(2 * |xs|)
      ensures Valid() && fresh(container)
      ensures capacity == 2 * |xs| && Contents() == xs
    {
      var a := new T[2 * |xs|];
      for i := 0 to |xs|
        invariant a[..i] == xs[..i]
      {
        a[i] := xs[i];
      }
      container := a;
      capacity := 2 * |xs|;
      front := 0;
      size := |xs|;
      new;
      ViewFromZero(container[..], size);
    }

    /** The copy constructor: same capacity, elements realigned to slot 0. */
    constructor Copy(other: Deque<T>)
      requires other.Valid()
      ensures Valid() && fresh(container) && front == 0
      ensures capacity == other.capacity && Contents() == other.Contents()
    {
      container := new T[other.capacity];
      capacity := other.capacity;
      front := 0;
      size := 0;
      new;
      CopyOut(other.Begin(), other.End(), container);
      size := other.size;
      ViewFromZero(container[..], size);
    }

    /** Copy assignment from a different deque. The buffer is replaced by one
        of twice the other's capacity only when the current one is smaller
        than the other's. */
    method Assign(other: Deque<T>)
      requires Valid() && other.Valid() && other != this && other.container != container
      requires other.capacity <= capacity || Addressable(2 * other.capacity)
      modifies this, container
      ensures Valid() && front == 0
      ensures Contents() == old(other.Contents())
      ensures capacity == if old(capacity) < other.capacity then 2 * other.capacity else old(capacity)
    {
      size := other.size;
      front := 0;
      if capacity < other.capacity {
        capacity := other.capacity * 2;
        container := new T[capacity];
      }
      CopyOut(other.Begin(), other.End(), container);
      ViewFromZero(container[..], size);
    }

    // -------------------------------------------------------------------------
    // Growth

    /** Moves the elements into a fresh buffer of `n` slots, realigned to slot
        0, when `n` exceeds the capacity; otherwise does nothing. It also runs
        one element past a full buffer, as `reallocate` calls it. */
    method Reserve(n: SizeT)
      requires Storage() && size <= capacity + 1
      requires n <= capacity || Addressable(n)
      modifies this
      ensures Storage() && size == old(size) && Contents() == old(Contents())
      ensures n <= old(capacity) ==> container == old(container) && capacity == old(capacity) && front == old(front)
      ensures old(capacity) < n ==> fresh(container) && capacity == n && front == 0
    {
      if n <= capacity {
        return;
      }
      var grown := Relocate(container, front, size, n);
      container := grown;
      capacity := n;
      front := 0;
      ViewFromZero(container[..], size);
    }

    /** Doubles the capacity once the size has reached it. */
    method Reallocate()
      requires Storage() && size <= capacity + 1
      requires size < capacity || Addressable(2 * capacity)
      modifies this
      ensures Storage() && size == old(size) && Contents() == old(Contents())
      ensures size <= capacity
      ensures old(size) < old(capacity) ==> container == old(container) && capacity == old(capacity) && front == old(front)
      ensures old(capacity) <= old(size) ==> fresh(container) && capacity == 2 * old(capacity) && front == 0
    {
      if size < capacity {
        return;
      }
      Reserve(2 * capacity);
    }

    // -------------------------------------------------------------------------
    // Pushing and popping

    /** Appends `v`. On a full ring the slot written is also the first
        element's, so the first element is replaced by `v` as well. */
    method PushBack(v: T)
      requires Valid()
      requires size + 1 < capacity || Addressable(2 * capacity)
      modifies this, container
      ensures Valid() && size == old(size) + 1
      ensures container == old(container) || fresh(container)
      ensures capacity == if old(size) + 1 < old(capacity) then old(capacity) else 2 * old(capacity)
      ensures old(size) < old(capacity) ==> Contents() == old(Contents()) + [v]
      ensures old(size) == old(capacity) ==> Contents() == [v] + old(Contents())[1..] + [v]
    {
      PushBackView(container[..], front, size, v);
      container[(front + size) % capacity] := v;
      size := size + 1;
      Reallocate();
    }

    /** Prepends `v`. On a full ring the slot written is also the last
        element's, so the last element is replaced by `v` as well. */
    method PushFront(v: T)
      requires Valid()
      requires size + 1 < capacity || Addressable(2 * capacity)
      modifies this, container
      ensures Valid() && size == old(size) + 1
      ensures container == old(container) || fresh(container)
      ensures capacity == if old(size) + 1 < old(capacity) then old(capacity) else 2 * old(capacity)
      ensures old(size) < old(capacity) ==> Contents() == [v] + old(Contents())
      ensures old(size) == old(capacity) ==> Contents() == [v] + old(Contents())[..old(size) - 1] + [v]
    {
      PushFrontView(container[..], front, size, v);
      front := (front + capacity - 1) % capacity;
      container[front] := v;
      size := size + 1;
      Reallocate();
    }

    /** Removes the first element, or reports an empty deque. */
    method PopFront() returns (r: Outcome)
      requires Valid()
      modifies this
      ensures r == if old(size) == 0 then Failed(EmptyDeque) else Done
      ensures Valid() && container == old(container) && capacity == old(capacity)
      ensures r.Failed? ==> size == old(size) && front == old(front)
      ensures r.Done? ==> Contents() == old(Contents())[1..]
    {
      r := CheckNonempty();
      if r.Failed? {
        return;
      }
      ViewDropFirst(container[..], front, size);
      size := size - 1;
      front := (front + 1) % capacity;
    }

    /** Removes the last element, or reports an empty deque. */
    method PopBack() returns (r: Outcome)
      requires Valid()
      modifies this
      ensures r == if old(size) == 0 then Failed(EmptyDeque) else Done
      ensures Valid() && container == old(container) && capacity == old(capacity) && front == old(front)
      ensures r.Failed? ==> size == old(size)
      ensures r.Done? ==> Contents() == old(Contents())[..old(size) - 1]
    {
      r := CheckNonempty();
      if r.Failed? {
        return;
      }
      size := size - 1;
      assert Contents() == old(Contents())[..size];
    }

    // -------------------------------------------------------------------------
    // Erasing and inserting

    /** Removes the positions `[first.index, last.index)`, moving whichever
        side of the gap is shorter. Only the cursors' indices are used. */
    method Erase(first: DequeIterator<T>, last: DequeIterator<T>) returns (r: Outcome)
      requires Valid()
      modifies this, container
      ensures r == if first.index >= old(size) then Failed(OutOfRange(first.index, old(size)))
                   else if last.index > old(size) then Failed(OutOfRange(last.index, old(size)))
                   else if first.index > last.index then Failed(OutOfRange(first.index, last.index))
                   else Done
      ensures Valid() && container == old(container) && capacity == old(capacity)
      ensures r.Failed? ==> size == old(size) && front == old(front) && container[..] == old(container[..])
      ensures r.Done? ==> Contents() == Erased(old(Contents()), first.index, last.index)
    {
      var b := first.index;
      var e := last.index;
      if b >= size {
        return Failed(OutOfRange(b, size));
      }
      if e > size {
        return Failed(OutOfRange(e, size));
      }
      if b > e {
        return Failed(OutOfRange(b, e));
      }
      EraseChecked(b, e);
      r := Done;
    }

    /** The body of `erase` once the range has passed the checks: the part
        before the gap moves up when it is the shorter one, otherwise the part
        after the gap moves down. */
    method EraseChecked(b: nat, e: nat)
      requires Valid() && b <= e <= size
      modifies this, container
      ensures Valid() && container == old(container) && capacity == old(capacity)
      ensures Contents() == Erased(old(Contents()), b, e)
    {
      if b + e < size {
        CloseFromFront(b, e);
      } else {
        CloseFromBack(b, e);
      }
    }

    /** Front-side erase: positions `[0, b)` move up by `e - b` and `front`
        advances past the gap. */
    method CloseFromFront(b: nat, e: nat)
      requires Valid() && b <= e <= size
      modifies container, `front, `size
      ensures Valid() && Contents() == Erased(old(Contents()), b, e)
    {
      CloseFront(container, front, size, b, e);
      front := (front + (e - b)) % capacity;
      size := size - (e - b);
    }

    /** Back-side erase: positions `[e, size)` move down by `e - b`. */
    method CloseFromBack(b: nat, e: nat)
      requires Valid() && b <= e <= size
      modifies container, `size
      ensures Valid() && Contents() == Erased(old(Contents()), b, e)
    {
      CloseBack(container, front, size, b, e);
      size := size - (e - b);
    }

    /** `erase(it)`, which erases the range from `it` to `it + 1`. Because `+`
        returns its left operand unchanged (see `DequeIterator.Plus`), that
        range is empty and nothing is removed. */
    method EraseAt(it: DequeIterator<T>) returns (r: Outcome)
      requires Valid()
      modifies this, container
      ensures r == if it.index >= old(size) then Failed(OutOfRange(it.index, old(size))) else Done
      ensures Valid() && size == old(size) && Contents() == old(Contents())
    {
      r := Erase(it, it.Plus(1));
      assert r.Done? ==> Erased(old(Contents()), it.index, it.index) == old(Contents());
    }

    /** `erase(it)` as intended: the range from `it` to the next position,
        built with the corrected `+`, so exactly the element at `it` goes. */
    method EraseOne(it: DequeIterator<T>) returns (r: Outcome)
      requires Valid()
      modifies this, container
      ensures r == if it.index >= old(size) then Failed(OutOfRange(it.index, old(size))) else Done
      ensures Valid()
      ensures r.Failed? ==> size == old(size) && Contents() == old(Contents())
      ensures r.Done? ==> Contents() == old(Contents())[..it.index] + old(Contents())[it.index + 1..]
    {
      r := Erase(it, it.Advanced(1));
    }

    /** Inserts `v` before position `it.index`, moving the front part one slot
        down when the position lies in the first half and the back part one
        slot up otherwise. On a full ring the new last position shares a slot
        with the first, and both show whichever was written there last. */
    method Insert(it: DequeIterator<T>, v: T) returns (r: Outcome)
      requires Valid()
      requires size < capacity || 1 < capacity || 0 < it.index
      requires size + 1 < capacity || Addressable(2 * capacity)
      modifies this, container
      ensures r == if it.index > old(size) then Failed(OutOfRange(it.index, old(size))) else Done
      ensures Valid() && (container == old(container) || fresh(container))
      ensures r.Failed? ==> size == old(size) && Contents() == old(Contents())
      ensures r.Done? ==> size == old(size) + 1
      ensures r.Done? && old(size) < old(capacity) ==> Contents() == Inserted(old(Contents()), it.index, v)
      ensures r.Done? && old(size) == old(capacity) ==>
        var s := Inserted(old(Contents()), it.index, v);
        Contents() == if it.index < old(size) / 2 then s[old(size) := s[0]] else s[0 := s[old(size)]]
    {
      var k := it.index;
      if k > size {
        return Failed(OutOfRange(k, size));
      }
      InsertChecked(k, v);
      r := Done;
    }

    /** The body of `insert` once the position has passed the check. */
    method InsertChecked(k: nat, v: T)
      requires Valid() && k <= size
      requires size < capacity || 1 < capacity || 0 < k
      requires size + 1 < capacity || Addressable(2 * capacity)
      modifies this, container
      ensures Valid() && (container == old(container) || fresh(container))
      ensures size == old(size) + 1
      ensures old(size) < old(capacity) ==> Contents() == Inserted(old(Contents()), k, v)
      ensures old(size) == old(capacity) ==>
        var s := Inserted(old(Contents()), k, v);
        Contents() == if k < old(size) / 2 then s[old(size) := s[0]] else s[0 := s[old(size)]]
    {
      OpenAndFill(k, v);
      Reallocate();
    }

    /** The shift, the write of `v` and the size increment of `insert`, before
        the growth check. */
    method OpenAndFill(k: nat, v: T)
      requires Valid() && k <= size
      requires size < capacity || 1 < capacity || 0 < k
      modifies container, `front, `size
      ensures Storage() && size == old(size) + 1 && size <= capacity + 1
      ensures old(size) < old(capacity) ==> Contents() == Inserted(old(Contents()), k, v)
      ensures old(size) == old(capacity) ==>
        var s := Inserted(old(Contents()), k, v);
        Contents() == if k < old(size) / 2 then s[old(size) := s[0]] else s[0 := s[old(size)]]
    {
      if k < size / 2 {
        OpenBefore(k, v);
      } else {
        OpenAfter(k, v);
      }
    }

    /** Front half: positions `[0, k)` move one slot down, `front` steps back
        one slot, and `v` is written at the new position `k`. */
    method OpenBefore(k: nat, v: T)
      requires Valid() && k < size / 2
      modifies container, `front, `size
      ensures Storage() && size == old(size) + 1
      ensures var s := Inserted(old(Contents()), k, v);
        Contents() == if old(size) < capacity then s else s[old(size) := s[0]]
    {
      OpenFront(container, front, size, k, v);
      front := (front + capacity - 1) % capacity;
      size := size + 1;
    }

    /** Back half: positions `[k, size)` move one slot up and `v` is written
        at position `k`. */
    method OpenAfter(k: nat, v: T)
      requires Valid() && k <= size
      requires size < capacity || 0 < k
      modifies container, `size
      ensures Storage() && size == old(size) + 1
      ensures var s := Inserted(old(Contents()), k, v);
        Contents() == if old(size) < capacity then s else s[0 := s[old(size)]]
    {
      OpenBack(container, front, size, k, v);
      container[(k + front) % capacity] := v;
      size := size + 1;
    }

    // -------------------------------------------------------------------------
    // Resizing and clearing

    /** Sets the size to `n`: a shorter deque keeps its first `n` elements, a
        longer one is padded with copies of `x`. The capacity grows to exactly
        `n` when `n` exceeds it, which leaves the ring full. */
    method Resize(n: SizeT, x: T)
      requires Valid()
      requires n <= capacity || Addressable(n)
      modifies this, container
      ensures Valid() && size == n
      ensures container == old(container) || fresh(container)
      ensures capacity == if n <= old(capacity) then old(capacity) else n
      ensures Contents() == if n <= old(size) then old(Contents())[..n]
                            else old(Contents()) + seq(n - old(size), _ => x)
    {
      if n > capacity {
        Reserve(n);
      }
      ghost var mid := container[..];
      ghost var s := Contents();
      Fill(container, front, size, n, x);
      ghost var R := View(mid, front, n);
      assert forall i :: 0 <= i < size && i < n ==> R[i] == s[i];
      size := n;
    }

    /** `resize` followed by the growth check that pushes perform, so that the
        ring is never left full and a following push appends. */
    method ResizeKeepingRoom(n: SizeT, x: T)
      requires Valid()
      requires n < capacity || Addressable(2 * n)
      modifies this, container
      ensures Valid() && size == n && size < capacity
      ensures container == old(container) || fresh(container)
      ensures Contents() == if n <= old(size) then old(Contents())[..n]
                            else old(Contents()) + seq(n - old(size), _ => x)
    {
      Resize(n, x);
      Reallocate();
    }

    /** Empties the deque and realigns it to slot 0; the buffer is kept. */
    method Clear()
      requires Valid()
      modifies this
      ensures Valid() && Contents() == [] && front == 0
      ensures container == old(container) && capacity == old(capacity)
    {
      size := 0;
      front := 0;
    }

    // -------------------------------------------------------------------------
    // Access

    /** `check_nonempty`. */
    function CheckNonempty(): (r: Outcome)
      reads this, container
      requires Valid()
      ensures r == Done <==> Contents() != []
      ensures r != Done ==> r == Failed(EmptyDeque)
    {
      if size == 0 then Failed(EmptyDeque) else Done
    }

    /** `operator[]`: no range check; the slot is computed in `size_t`. */
    function Get(i: SizeT): (r: T)
      reads this, container
      requires Valid()
      ensures i < size ==> r == Contents()[i]
    {
      ModBetween(front + i, SizeMod);
      container[((front + i) % SizeMod) % capacity]
    }

    /** `at`: `operator[]` behind a range check. */
    function At(i: SizeT): (r: Result<T>)
      reads this, container
      requires Valid()
      ensures r.Ok? <==> i < |Contents()|
      ensures r.Ok? ==> r.value == Contents()[i]
      ensures r.Err? ==> r.error == OutOfRange(i, |Contents()|)
    {
      if i >= size then Err(OutOfRange(i, size)) else Ok(Get(i))
    }

    function Front(): (r: Result<T>)
      reads this, container
      requires Valid()
      ensures r.Ok? <==> Contents() != []
      ensures r.Ok? ==> r.value == Contents()[0]
      ensures r.Err? ==> r.error == EmptyDeque
    {
      ModBetween(front, capacity);
      if size == 0 then Err(EmptyDeque) else Ok(container[front])
    }

    function Back(): (r: Result<T>)
      reads this, container
      requires Valid()
      ensures r.Ok? <==> Contents() != []
      ensures r.Ok? ==> r.value == Contents()[|Contents()| - 1]
      ensures r.Err? ==> r.error == EmptyDeque
    {
      if size == 0 then Err(EmptyDeque) else Ok(container[(front + size - 1) % capacity])
    }

    function Size(): (r: nat)
      reads this, container
      requires Valid()
      ensures r == |Contents()|
    {
      size
    }

    function Empty(): (r: bool)
      reads this, container
      requires Valid()
      ensures r <==> Contents() == []
    {
      size == 0
    }

    function Capacity(): (r: nat)
      reads this
      requires Valid()
      ensures r == container.Length
    {
      capacity
    }

    /** A cursor on the first position of the current snapshot. */
    function Begin(): (r: DequeIterator<T>)
      reads this
      requires Valid()
      ensures r.container == container && r.capacity == capacity && r.size == size
      ensures r.front == front && r.index == 0
    {
      DequeIterator(container, capacity, size, front, 0)
    }

    /** A cursor one past the last position of the same snapshot. */
    function End(): (r: DequeIterator<T>)
      reads this
      requires Valid()
      ensures r == Begin().(index := size)
    {
      DequeIterator(container, capacity, size, front, size)
    }

    /** Stepping `begin()` forward `i` times reads the logical element `i`. */
    lemma BeginReadsContents(i: nat)
      requires Valid() && i < size && i <= Int32Max
      ensures Begin().AddAssign(i).Deref() == Contents()[i]
    {
      ModBetween(i, SizeMod);
      ModBetween(i + front, SizeMod);
    }

    /** `end()` is `begin()` advanced by the size, and the two are `size` apart. */
    lemma EndIsBeginPlusSize()
      requires Valid() && size <= Int32Max
      ensures Begin().AddAssign(size) == End()
      ensures End().Difference(Begin()) == |Contents()|
      ensures Begin().LessEq(End())
    {
      ModBetween(size, SizeMod);
    }
  }

  // ---------------------------------------------------------------------------
  // Concrete runs that show the discrepancies listed in the README

  /** `erase(--end())` on `{1, 2, 3}` leaves all three elements, the last
      still 3; the intended erase leaves two, the last now 2. */
  method EraseLastOfThree() returns (asWritten: (nat, Result<int>), intended: (nat, Result<int>))
    ensures asWritten == (3, Ok(3)) && intended == (2, Ok(2))
  {
    var d := new Deque<int>.FromSeq([1, 2, 3]);
    var r := d.EraseAt(d.End().Decremented());
    asWritten := (d.Size(), d.Back());
    var e := new Deque<int>.FromSeq([1, 2, 3]);
    r := e.EraseOne(e.End().Decremented());
    intended := (e.Size(), e.Back());
  }

  /** Resizing a 4-slot deque to eight 7s fills the ring; a following
      `push_back(1)` then also overwrites the first element. */
  method ResizeThenPushBack() returns (asWritten: Result<int>, intended: Result<int>)
    ensures asWritten == Ok(1) && intended == Ok(7)
  {
    var d := new Deque<int>.WithCapacity(4);
    d.Resize(8, 7);
    d.PushBack(1);
    asWritten := d.Front();
    var e := new Deque<int>.WithCapacity(4);
    e.ResizeKeepingRoom(8, 7);
    e.PushBack(1);
    intended := e.Front();
  }
}
