/** The earlier, four-field cursor at the top of the repository. Its index is
    a physical slot, not a logical position: `++` moves to the next slot and
    wraps from the last slot back to slot 0. */
module RootIterators {
  import opened RingIndex
  import opened DequeIterators

  datatype SlotIterator<T> = SlotIterator(
    container: array<T>,
    capacity: SizeT,
    size: SizeT,
    index: SizeT)
  {
    /** `*it`: the element in the slot the cursor stands on. */
    function Deref(): (r: T)
      reads container
      requires index < container.Length
    {
      container[index]
    }

    /** `++it`: the next slot, wrapping to 0 after the last one. */
    function Next(): (r: SlotIterator<T>)
      requires 0 < capacity
      ensures r == this.(index := r.index)
      ensures r.index < capacity
      ensures index < capacity ==> r.index == if index + 1 < capacity then index + 1 else 0
    {
      this.(index := ((index + 1) % SizeMod) % capacity)
    }

    /** `a != b`: some field differs. */
    predicate NotEqual(other: SlotIterator<T>)
      ensures NotEqual(other) <==> this != other
    {
      container != other.container || capacity != other.capacity
      || size != other.size || index != other.index
    }
  }

  /** `n` applications of `++`. */
  function Advance<T>(it: SlotIterator<T>, n: nat): (r: SlotIterator<T>)
    requires 0 < it.capacity
    ensures r == it.(index := r.index)
  {
    if n == 0 then it else Advance(it, n - 1).Next()
  }

  /** Stepping from the slot of position `i` reaches the slot of position `i + 1`. */
  lemma StepSlot(i: int, c: int)
    requires 0 < c
    ensures (if i % c + 1 < c then i % c + 1 else 0) == (i + 1) % c
  {
    ModAddMod(1, i, c);
    ModBetween(i % c + 1, c);
  }

  /** After `n` steps the cursor stands on slot `(index + n) % capacity`. */
  lemma {:induction false} AdvanceIndex<T>(it: SlotIterator<T>, n: nat)
    requires 0 < it.capacity && it.index < it.capacity
    ensures Advance(it, n).index == (it.index + n) % it.capacity
  {
    if n > 0 {
      AdvanceIndex(it, n - 1);
      StepSlot(it.index + (n - 1), it.capacity);
    }
  }

  /** One full lap of `capacity` steps brings the cursor back to where it started. */
  lemma FullLap<T>(it: SlotIterator<T>)
    requires 0 < it.capacity && it.index < it.capacity
    ensures Advance(it, it.capacity) == it
  {
    AdvanceIndex(it, it.capacity);
    ModPlusC(it.index, it.capacity);
    ModBetween(it.index, it.capacity);
  }

  /** Within one lap the cursor never meets its starting point again, so a
      loop `for (; it != end; ++it)` with `end` that many steps ahead visits
      each slot once. */
  lemma WithinLapDistinct<T>(it: SlotIterator<T>, n: nat)
    requires 0 < it.capacity && it.index < it.capacity && 0 < n < it.capacity
    ensures Advance(it, n).NotEqual(it)
  {
    AdvanceIndex(it, n);
    ModInjective(it.index, n, 0, it.capacity);
    ModBetween(it.index, it.capacity);
  }

  /** The element read after `n` steps is the one in slot `(index + n) % capacity`. */
  lemma AdvanceDeref<T>(it: SlotIterator<T>, n: nat)
    requires 0 < it.capacity == it.container.Length && it.index < it.capacity
    ensures Advance(it, n).Deref() == it.container[(it.index + n) % it.capacity]
  {
    AdvanceIndex(it, n);
  }
}
