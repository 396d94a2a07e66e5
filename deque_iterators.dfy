/** The random-access cursor of `Deque` and `LockFreeDeque`. It is a value: a
    snapshot of the container's buffer pointer, capacity, size and front slot,
    plus a logical index. Every field is a `size_t`, so the arithmetic on the
    index wraps modulo 2^64; a signed `int` offset is converted to `size_t`
    before it is added. */
module DequeIterators {
  import opened RingIndex

  const Int32Min: int := -0x8000_0000
  const Int32Max: int := 0x7fff_ffff

  /** The values of a C++ `int`. */
  predicate InInt32(x: int) {
    Int32Min <= x <= Int32Max
  }

  /** The conversion `(int) x` of a `size_t`: the low 32 bits, read in two's complement. */
  function AsInt32(x: SizeT): (r: int)
    ensures InInt32(r)
    ensures (r - x) % 0x1_0000_0000 == 0
    ensures x <= Int32Max ==> r == x
  {
    var low := x % 0x1_0000_0000;
    if low <= Int32Max then low else low - 0x1_0000_0000
  }

  datatype DequeIterator<T> = DequeIterator(
    container: array<T>,
    capacity: SizeT,
    size: SizeT,
    front: SizeT,
    index: SizeT)
  {
    /** `*it`: the element at logical position `index` of the snapshot ring. */
    function Deref(): (r: T)
      reads container
      requires 0 < capacity <= container.Length
      ensures index + front < SizeMod && capacity == container.Length ==>
                r == View(container[..], front, index + 1)[index]
    {
      ModBetween(index + front, SizeMod);
      container[((index + front) % SizeMod) % capacity]
    }

    /** `it[offset]`: the element `offset` positions away from `*it`. */
    function Subscript(offset: int): (r: T)
      reads container
      requires 0 < capacity <= container.Length && InInt32(offset)
      ensures r == AddAssign(offset).Deref()
    {
      ModAddMod(front, index + offset, SizeMod);
      container[((index + front + offset) % SizeMod) % capacity]
    }

    /** `++it`. */
    function Incremented(): (r: DequeIterator<T>)
      ensures r == this.(index := r.index)
      ensures r.index == if index + 1 < SizeMod then index + 1 else 0
    {
      this.(index := (index + 1) % SizeMod)
    }

    /** `--it`. */
    function Decremented(): (r: DequeIterator<T>)
      ensures r == this.(index := r.index)
      ensures r.index == if 0 < index then index - 1 else SizeMod - 1
    {
      this.(index := (index + SizeMod - 1) % SizeMod)
    }

    /** `it++`: yields the cursor as it was, and the advanced cursor. */
    function PostIncrement(): (r: (DequeIterator<T>, DequeIterator<T>))
      ensures r.0 == this && r.1 == Incremented()
    {
      (this, Incremented())
    }

    /** `it--`: yields the cursor as it was, and the cursor moved back. */
    function PostDecrement(): (r: (DequeIterator<T>, DequeIterator<T>))
      ensures r.0 == this && r.1 == Decremented()
    {
      (this, Decremented())
    }

    /** `it += offset`. */
    function AddAssign(offset: int): (r: DequeIterator<T>)
      requires InInt32(offset)
      ensures r == this.(index := r.index)
      ensures 0 <= index + offset < SizeMod ==> r.index == index + offset
    {
      this.(index := (index + offset) % SizeMod)
    }

    /** `it -= offset`. */
    function SubAssign(offset: int): (r: DequeIterator<T>)
      requires InInt32(offset)
      ensures r == this.(index := r.index)
      ensures 0 <= index - offset < SizeMod ==> r.index == index - offset
    {
      this.(index := (index - offset) % SizeMod)
    }

    /** `it + offset` as written: the offset is ignored and a copy of the
        cursor is returned. */
    function Plus(offset: int): (r: DequeIterator<T>)
      requires InInt32(offset)
      ensures r == this
    {
      this
    }

    /** `it + offset` as evidently intended (the body left commented out
        beside the definition): a copy advanced like `+=`. */
    function Advanced(offset: int): (r: DequeIterator<T>)
      requires InInt32(offset)
      ensures r == this.(index := r.index)
      ensures 0 <= index + offset < SizeMod ==> r.index == index + offset
    {
      AddAssign(offset)
    }

    /** `it - offset`, defined through `it + (-offset)`; negating `INT_MIN`
        would overflow, so that offset is excluded. */
    function Minus(offset: int): (r: DequeIterator<T>)
      requires InInt32(offset) && offset != Int32Min
      ensures r == this
    {
      Plus(-offset)
    }

    /** `a - b`: the distance between the two indices, each cast to `int`. */
    function Difference(other: DequeIterator<T>): (r: int)
      ensures index <= Int32Max && other.index <= Int32Max ==> r == index - other.index
    {
      AsInt32(index) - AsInt32(other.index)
    }

    /** Both cursors were taken from the same buffer, in the same state, and
        neither has a zero capacity. The capacities are not compared. */
    predicate SameContainer(other: DequeIterator<T>) {
      container == other.container && capacity != 0 && other.capacity != 0
      && size == other.size && front == other.front
    }

    predicate Equal(other: DequeIterator<T>)
      ensures Equal(other) ==> SameContainer(other) && index == other.index
    {
      SameContainer(other) && index == other.index
    }

    predicate NotEqual(other: DequeIterator<T>)
      ensures NotEqual(other) <==> !Equal(other)
    {
      !SameContainer(other) || index != other.index
    }

    predicate Less(other: DequeIterator<T>)
      ensures Less(other) ==> SameContainer(other) && !Equal(other)
    {
      SameContainer(other) && index < other.index
    }

    predicate LessEq(other: DequeIterator<T>)
      ensures LessEq(other) <==> Less(other) || Equal(other)
    {
      SameContainer(other) && index <= other.index
    }

    predicate Greater(other: DequeIterator<T>)
      ensures Greater(other) <==> other.Less(this)
    {
      SameContainer(other) && index > other.index
    }

    predicate GreaterEq(other: DequeIterator<T>)
      ensures GreaterEq(other) <==> other.LessEq(this)
    {
      SameContainer(other) && index >= other.index
    }
  }

  /** `offset + it`, which forwards to `it + offset`. */
  function OffsetPlus<T>(offset: int, it: DequeIterator<T>): (r: DequeIterator<T>)
    requires InInt32(offset)
    ensures r == it
  {
    it.Plus(offset)
  }

  // ---------------------------------------------------------------------------
  // Properties

  /** `++` and `--` undo each other, also across the `size_t` wrap. */
  lemma IncrementDecrement<T>(it: DequeIterator<T>)
    ensures it.Incremented().Decremented() == it
    ensures it.Decremented().Incremented() == it
  {
  }

  /** `+= k` followed by `-= k` restores the cursor, whatever the wrap. */
  lemma AddSubInverse<T>(it: DequeIterator<T>, k: int)
    requires InInt32(k)
    ensures it.AddAssign(k).SubAssign(k) == it
    ensures it.SubAssign(k).AddAssign(k) == it
  {
    ModAddMod(-k, it.index + k, SizeMod);
    ModAddMod(k, it.index - k, SizeMod);
  }

  /** Stepping `k` times with `++` is the same as `+= k`. */
  lemma {:induction false} RepeatedIncrement<T>(it: DequeIterator<T>, k: nat)
    requires k <= Int32Max
    ensures Steps(it, k) == it.AddAssign(k)
  {
    if k > 0 {
      RepeatedIncrement(it, k - 1);
      ModAddMod(1, it.index + (k - 1), SizeMod);
    }
  }

  /** `k` applications of `++`. */
  function Steps<T>(it: DequeIterator<T>, k: nat): (r: DequeIterator<T>)
    ensures r == it.(index := r.index)
  {
    if k == 0 then it else Steps(it, k - 1).Incremented()
  }

  /** The distance between a cursor and its copy advanced by `k` is `k`. */
  lemma DifferenceOfAdvance<T>(it: DequeIterator<T>, k: int)
    requires 0 <= it.index <= Int32Max && InInt32(k) && 0 <= it.index + k <= Int32Max
    ensures it.Advanced(k).Difference(it) == k
  {
  }

  /** Two cursors on the same snapshot are ordered exactly one way. */
  lemma Trichotomy<T>(a: DequeIterator<T>, b: DequeIterator<T>)
    requires a.SameContainer(b)
    ensures a.Less(b) || a.Equal(b) || a.Greater(b)
    ensures !(a.Less(b) && a.Equal(b)) && !(a.Less(b) && a.Greater(b)) && !(a.Equal(b) && a.Greater(b))
  {
  }

  /** Cursors taken from different snapshots compare unequal and unordered. */
  lemma UnrelatedCursors<T>(a: DequeIterator<T>, b: DequeIterator<T>)
    requires a.container != b.container || a.size != b.size || a.front != b.front
    ensures a.NotEqual(b)
    ensures !a.Less(b) && !a.LessEq(b) && !a.Greater(b) && !a.GreaterEq(b)
  {
  }

  /** `SameContainer` is an equivalence on cursors with a non-zero capacity. */
  lemma SameContainerEquivalence<T>(a: DequeIterator<T>, b: DequeIterator<T>, c: DequeIterator<T>)
    ensures a.capacity != 0 ==> a.SameContainer(a)
    ensures a.SameContainer(b) ==> b.SameContainer(a)
    ensures a.SameContainer(b) && b.SameContainer(c) ==> a.SameContainer(c)
  {
  }

  /** Equality is identity of all fields but the capacity, which is not compared. */
  lemma EqualityIgnoresCapacity<T>(a: DequeIterator<T>, b: DequeIterator<T>)
    requires a.capacity != 0 && b.capacity != 0
    ensures a.Equal(b) <==> a == b.(capacity := a.capacity)
  {
  }

  /** As written, `it + 1` denotes the same position as `it`, so it cannot be
      used as the end of the one-element range starting at `it`. */
  lemma PlusDoesNotAdvance<T>(it: DequeIterator<T>)
    ensures it.Plus(1).index == it.index
    ensures it.Advanced(1).index != it.index
  {
  }

  /** The intended `+` satisfies the random-access identity `*(it + k) == it[k]`. */
  lemma AdvancedDerefIsSubscript<T>(it: DequeIterator<T>, k: int)
    requires 0 < it.capacity <= it.container.Length && InInt32(k)
    ensures it.Advanced(k).Deref() == it.Subscript(k)
  {
  }
}
