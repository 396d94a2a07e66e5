/** `fdt::LockfreeQueue`: a first-in first-out queue over the same ring buffer
    as `Deque`, with a `tail` slot next to `front` and `size`. Pushing writes at
    `tail` and never grows the buffer; popping advances `front`. The queue is
    meant to keep `tail == (front + size) % capacity`; `push_back` and
    `pop_front` preserve that agreement, but `reserve` and `clear` move `front`
    without moving `tail`. The model is single-threaded: every atomic
    `fetch_add`, `load` and `store` is a plain read or write. */
module LockfreeQueues {
  import opened RingIndex
  import opened RingEdits
  import opened RingBuffers
  import opened DequeIterators
  import opened Failures

  const DefaultCapacity := 64

  class LockfreeQueue<T(0)> {
    var container: array<T>
    var capacity: nat
    var size: nat
    var front: nat
    var tail: nat

    /** The buffer has `capacity` slots, and `front` and `tail` are two of
        them. The size is not bounded: pushing into a full queue goes on. */
    ghost predicate Valid()
      reads this
    {
      0 < capacity == container.Length && capacity < SizeMod && front < capacity && tail < capacity
    }

    /** The logical sequence: `size` elements read from slot `front` on, around the ring. */
    ghost function Contents(): seq<T>
      reads this, container
      requires Valid()
    {
      View(container[..], front, size)
    }

    /** The next push goes to the slot just past the last element. */
    ghost predicate TailAgrees()
      reads this
      requires Valid()
    {
      tail == (front + size) % capacity
    }

    constructor ()
      ensures Valid() && TailAgrees() && fresh(container)
      ensures capacity == DefaultCapacity && size == 0 && front == 0 && tail == 0
    {
      container := new T[DefaultCapacity];
      capacity := DefaultCapacity;
      size := 0;
      front := 0;
      tail := 0;
    }

    constructor WithCapacity(n: SizeT)
      requires 0 < n
      ensures Valid() && TailAgrees() && fresh(container)
      ensures capacity == n && size == 0 && front == 0 && tail == 0
    {
      container := new T[n];
      capacity := n;
      size := 0;
      front := 0;
      tail := 0;
    }

    /** The initializer-list constructor: twice as many slots as elements, and
        the tail just past the last one. */
    constructor FromSeq(xs: seq<T>)
      requires 0 < |xs| && 2 * |xs| < SizeMod
      ensures Valid() && TailAgrees() && fresh(container)
      ensures capacity == 2 * |xs| && front == 0 && tail == |xs| && Contents() == xs
    {
      var a := new T[2 * |xs|];
      for i := 0 to |xs|
        invariant a[..i] == xs[..i]
      {
        a[i] := xs[i];
      }
      container := a;
      capacity := 2 * |xs|;
      size := |xs|;
      front := 0;
      tail := |xs|;
      new;
      ModBetween(|xs|, 2 * |xs|);
      ViewFromZero(container[..], size);
    }

    /** Writes `v` at slot `tail`, steps `tail` forward and counts one more
        element. The slot index passes through an `int`, which keeps its value
        below 2^31. With the tail in agreement and room left, `v` is appended;
        on a full queue it lands in the first element's slot, which then reads
        `v` at both ends. */
    method PushBack(v: T)
      requires Valid() && tail <= Int32Max
      modifies `tail, `size, container
      ensures Valid() && size == old(size) + 1 && tail == (old(tail) + 1) % capacity
      ensures container[..] == old(container[..])[old(tail) := v]
      ensures old(TailAgrees()) ==> TailAgrees()
      ensures old(TailAgrees()) && old(size) < capacity ==> Contents() == old(Contents()) + [v]
      ensures old(TailAgrees()) && old(size) == capacity ==> Contents() == [v] + old(Contents())[1..] + [v]
    {
      if TailAgrees() {
        ModAddMod(1, front + size, capacity);
        if size <= capacity {
          PushBackView(container[..], front, size, v);
        }
      }
      container[tail] := v;
      tail := (tail + 1) % capacity;
      size := size + 1;
    }

    /** Drops the first element, or reports an empty queue. */
    method PopFront() returns (r: Outcome)
      requires Valid()
      modifies `front, `size
      ensures Valid() && r == if old(size) == 0 then Failed(EmptyDeque) else Done
      ensures r.Failed? ==> size == old(size) && front == old(front)
      ensures r.Done? ==> front == (old(front) + 1) % capacity && size == old(size) - 1
      ensures r.Done? ==> Contents() == old(Contents())[1..]
      ensures old(TailAgrees()) ==> TailAgrees()
    {
      r := CheckNonempty();
      if r.Failed? {
        return;
      }
      ViewDropFirst(container[..], front, size);
      ModAddMod(size - 1, front + 1, capacity);
      front := (front + 1) % capacity;
      size := size - 1;
    }

    /** Moves the elements into a fresh buffer of `n` slots, realigned to slot
        0, when `n` exceeds the capacity; `tail` is left where it was. The copy
        loop writes `size` slots, so a queue pushed past its capacity needs
        `n` to hold them. */
    method Reserve(n: SizeT)
      requires Valid() && (n <= capacity || size <= n)
      modifies `container, `capacity, `front
      ensures Valid() && size == old(size) && tail == old(tail) && Contents() == old(Contents())
      ensures n <= old(capacity) ==> container == old(container) && capacity == old(capacity) && front == old(front)
      ensures old(capacity) < n ==> fresh(container) && capacity == n && front == 0
    {
      if n <= capacity {
        return;
      }
      var grown := Relocate(container, front, size, n);
      container := grown;
      capacity := n;
      front := 0;
      ViewFromZero(container[..], size);
    }

    /** `reserve` followed by the missing realignment of the tail: after a
        growth the next push goes just past the last element again. */
    method ReserveRealigned(n: SizeT)
      requires Valid() && (n <= capacity || size <= n)
      modifies `container, `capacity, `front, `tail
      ensures Valid() && size == old(size) && Contents() == old(Contents())
      ensures n <= old(capacity) ==> unchanged(this)
      ensures old(capacity) < n ==> fresh(container) && capacity == n && front == 0 && TailAgrees()
    {
      if n <= capacity {
        return;
      }
      Reserve(n);
      tail := size % capacity;
    }

    /** Empties the queue and sets `front` to slot 0; `tail` is left where it was. */
    method Clear()
      requires Valid()
      modifies `size, `front
      ensures Valid() && size == 0 && front == 0 && tail == old(tail) && Contents() == []
    {
      size := 0;
      front := 0;
    }

    /** `clear` that also brings the tail back to slot 0. */
    method ClearRealigned()
      requires Valid()
      modifies `size, `front, `tail
      ensures Valid() && TailAgrees() && size == 0 && front == 0 && tail == 0 && Contents() == []
    {
      Clear();
      tail := 0;
      assert 0 % capacity == 0;
    }

    /** `check_nonempty`. */
    function CheckNonempty(): (r: Outcome)
      reads this, container
      requires Valid()
      ensures r == Done <==> Contents() != []
      ensures r != Done ==> r == Failed(EmptyDeque)
    {
      if size == 0 then Failed(EmptyDeque) else Done
    }

    function Front(): (r: Result<T>)
      reads this, container
      requires Valid()
      ensures r.Ok? <==> Contents() != []
      ensures r.Ok? ==> r.value == Contents()[0]
      ensures r.Err? ==> r.error == EmptyDeque
    {
      ModBetween(front, capacity);
      if size == 0 then Err(EmptyDeque) else Ok(container[front])
    }

    /** `operator[]`, and also `at`, whose range check only reports: the slot
        of position `i`, computed in `size_t`, whatever `i` is. */
    function Get(i: SizeT): (r: T)
      reads this, container
      requires Valid()
      ensures i < size && front + i < SizeMod ==> r == Contents()[i]
    {
      ModBetween(front + i, SizeMod);
      container[((front + i) % SizeMod) % capacity]
    }

    function Size(): (r: nat)
      reads this, container
      requires Valid()
      ensures r == |Contents()|
    {
      size
    }

    function Empty(): (r: bool)
      reads this, container
      requires Valid()
      ensures r <==> Contents() == []
    {
      size == 0
    }

    function Capacity(): (r: nat)
      reads this
      requires Valid()
      ensures r == container.Length
    {
      capacity
    }

    /** A cursor on the first position of the current snapshot. */
    function Begin(): (r: DequeIterator<T>)
      reads this
      requires Valid() && size < SizeMod
      ensures r.container == container && r.capacity == capacity && r.size == size
      ensures r.front == front && r.index == 0
    {
      DequeIterator(container, capacity, size, front, 0)
    }

    /** A cursor one past the last position of the same snapshot. */
    function End(): (r: DequeIterator<T>)
      reads this
      requires Valid() && size < SizeMod
      ensures r == Begin().(index := size)
    {
      DequeIterator(container, capacity, size, front, size)
    }
  }

  // ---------------------------------------------------------------------------
  // Clients

  /** The message relay of the demo program, run on one thread: a producer
      pushes `xs` in order, waiting while the queue is full, and a consumer
      reads the front and pops it, waiting while the queue is empty. Which of
      the two moves when both could is decided by `schedule` (the producer at
      step `t` when `schedule[t]` holds). Whatever the schedule, the consumer
      receives `xs` in order. */
  method Relay(xs: seq<int>, capacity: SizeT, schedule: seq<bool>) returns (received: seq<int>)
    requires 0 < capacity && capacity <= Int32Max
    ensures received == xs
  {
    var q := new LockfreeQueue<int>.WithCapacity(capacity);
    var pushed := 0;
    var t := 0;
    received := [];
    while |received| < |xs|
      invariant q.Valid() && q.TailAgrees() && fresh(q.container)
      invariant q.capacity == capacity && q.size <= capacity
      invariant |received| <= pushed <= |xs|
      invariant received == xs[..|received|] && q.Contents() == xs[|received|..pushed]
      decreases (|xs| - pushed) + (|xs| - |received|)
    {
      var full := q.Size() == q.Capacity();
      var producerTurn := t < |schedule| && schedule[t];
      if pushed < |xs| && !full && (q.Empty() || producerTurn) {
        q.PushBack(xs[pushed]);
        assert xs[|received|..pushed] + [xs[pushed]] == xs[|received|..pushed + 1];
        pushed := pushed + 1;
      } else {
        var head := q.Front();
        var _ := q.PopFront();
        assert xs[..|received|] + [head.value] == xs[..|received| + 1];
        received := received + [head.value];
      }
      t := t + 1;
    }
  }

  // ---------------------------------------------------------------------------
  // Concrete runs

  /** After `clear`, the next push still goes to the old tail slot while the
      front is back at slot 0: `front()` then returns the element pushed
      before the clear. Realigning the tail returns the new element. */
  method ClearThenPush() returns (asWritten: Result<int>, intended: Result<int>)
    ensures asWritten == Ok(1)
    ensures intended == Ok(2)
  {
    var q := new LockfreeQueue<int>.WithCapacity(4);
    q.PushBack(1);
    assert q.container[0] == 1;
    q.Clear();
    q.PushBack(2);
    assert q.container[0] == 1 && q.size == 1;
    asWritten := q.Front();

    var p := new LockfreeQueue<int>.WithCapacity(4);
    p.PushBack(1);
    p.ClearRealigned();
    p.PushBack(2);
    assert p.container[0] == 2 && p.size == 1;
    intended := p.Front();
  }

  /** After `reserve` has realigned the elements to slot 0, the tail still
      names its old slot; here that is slot 0, so the next push overwrites the
      first element. Realigning the tail keeps it. */
  method ReserveThenPush() returns (asWritten: Result<int>, intended: Result<int>)
    ensures asWritten == Ok(3)
    ensures intended == Ok(2)
  {
    asWritten := GrowAndPush(false);
    intended := GrowAndPush(true);
  }

  /** Capacity 2: push 1, pop it, push 2 (into slot 1, the tail wrapping to
      slot 0), grow to 4 slots with `reserve` or with `ReserveRealigned`, push
      3, and read the front. */
  method GrowAndPush(realign: bool) returns (head: Result<int>)
    ensures head == if realign then Ok(2) else Ok(3)
  {
    var q := new LockfreeQueue<int>.WithCapacity(2);
    q.PushBack(1);
    var _ := q.PopFront();
    q.PushBack(2);
    assert q.Contents() == [2] && q.tail == 0 && q.size == 1;
    if realign {
      q.ReserveRealigned(4);
      assert q.tail == 1;
    } else {
      q.Reserve(4);
      assert q.tail == 0;
    }
    assert q.Contents() == [2] && q.front == 0;
    assert q.Contents()[0] == q.container[..][0 % 4] == q.container[0];
    q.PushBack(3);
    head := q.Front();
  }
}
