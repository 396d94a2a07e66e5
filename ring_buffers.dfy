/** The loops that `Deque` and `LockFreeDeque` run over their buffer: the two
    block moves (`shift_left`, `shift_right`), the copy into a larger buffer
    (`reserve`), the fill of new positions (`resize`) and the copy through a
    pair of cursors (copy constructor and copy assignment). Both containers
    contain the same code; here it is written once, over the buffer array,
    whose length is the ring's capacity. */
module RingBuffers {
  import opened RingIndex
  import opened RingEdits
  import opened DequeIterators

  datatype Option<T> = None | Some(value: T)

  // ---------------------------------------------------------------------------
  // shift_right

  /** `shift_right(b, e, off)`: copies logical positions `[b, e)` to
      `[b + off, e + off)`, last position first, so an overlapping block is not
      overwritten before it is read. The counter runs down to `b + front`
      inclusive and then stops. */
  method ShiftRight<T>(a: array<T>, front: nat, b: nat, e: nat, off: nat)
    requires 0 < a.Length
    requires b <= e ==> (e - b) + off <= a.Length
    modifies a
    ensures b <= e ==>
      View(a[..], front + b, a.Length) == ShiftedUp(View(old(a[..]), front + b, a.Length), 0, e - b, off)
    ensures e <= b ==> a[..] == old(a[..])
  {
    var c := a.Length;
    ghost var o := front + b;
    ghost var len := if b <= e then e - b else 0;
    ghost var R := View(a[..], o, c);
    assert b <= e ==> ShiftedUp(R, len, len, off) == R;
    var i: int := e + front - 1;
    while i >= b + front
      invariant b <= e ==> o - 1 <= i <= e + front - 1
      invariant e < b ==> i == e + front - 1
      invariant e <= b ==> a[..] == old(a[..])
      invariant b <= e ==> View(a[..], o, c) == ShiftedUp(R, i - o + 1, len, off)
      decreases i - (b + front)
    {
      ShiftUpStep(a[..], o, R, i - o, len, off);
      a[(i + off) % c] := a[i % c];
      i := i - 1;
    }
  }

  /** One iteration of `shift_right`'s loop, on the view from origin `o`:
      copying position `p` up by `off` extends the moved part down to `p`. */
  lemma ShiftUpStep<T>(buf: seq<T>, o: nat, R: seq<T>, p: nat, len: nat, off: nat)
    requires 0 < |buf| == |R| && p < len && len + off <= |buf|
    requires View(buf, o, |buf|) == ShiftedUp(R, p + 1, len, off)
    ensures View(buf[(o + p + off) % |buf| := buf[(o + p) % |buf|]], o, |buf|) == ShiftedUp(R, p, len, off)
  {
    var V := View(buf, o, |buf|);
    assert V[p] == R[p];
    ViewWrite(buf, o, |buf|, p + off, V[p]);
  }

  /** The counter of `shift_right`'s loop as written: a `size_t` that starts at
      `i`, keeps going while `i >= lowest` and is decremented with wrap-around.
      The result is the number of iterations before the guard fails, if that
      happens within `fuel` iterations. */
  function SizeTCountdown(i: SizeT, lowest: SizeT, fuel: nat): (r: Option<nat>)
    ensures r.Some? ==> r.value <= fuel
    decreases fuel
  {
    if i < lowest then Some(0)
    else if fuel == 0 then None
    else match SizeTCountdown((i + SizeMod - 1) % SizeMod, lowest, fuel - 1)
      case Some(k) => Some(k + 1)
      case None => None
  }

  /** With `begin + front == 0` the guard `i >= 0` holds for every `size_t`,
      so the loop never stops, however long it runs. */
  lemma {:induction false} CountdownNeverExits(i: SizeT, fuel: nat)
    ensures SizeTCountdown(i, 0, fuel) == None
    decreases fuel
  {
    if fuel > 0 {
      CountdownNeverExits((i + SizeMod - 1) % SizeMod, fuel - 1);
    }
  }

  /** With `begin + front > 0` the loop runs once per position of the block
      and stops, as `ShiftRight` does. */
  lemma {:induction false} CountdownExits(i: SizeT, lowest: SizeT, fuel: nat)
    requires 0 < lowest <= i + 1 && i + 1 - lowest <= fuel
    ensures SizeTCountdown(i, lowest, fuel) == Some(i + 1 - lowest)
    decreases fuel
  {
    if i >= lowest {
      ModBetween(i + SizeMod - 1, SizeMod);
      CountdownExits(i - 1, lowest, fuel - 1);
    }
  }

  // ---------------------------------------------------------------------------
  // shift_left

  /** `shift_left(b, e, off)`: copies logical positions `[b, e)` to
      `[b - off, e - off)`, first position first. The target slot is the
      intended one, `(i - off) mod capacity`; see `WrapSubSlot` for when the
      `size_t` subtraction of the original reaches it. The view is taken from
      the first slot written, logical position `b - off`. */
  method ShiftLeft<T>(a: array<T>, front: nat, b: nat, e: nat, off: nat)
    requires 0 < a.Length && off <= a.Length
    requires b <= e ==> (e - b) + off <= a.Length
    modifies a
    ensures b <= e ==>
      View(a[..], front + b + a.Length - off, a.Length)
        == ShiftedDown(View(old(a[..]), front + b + a.Length - off, a.Length), e - b, off)
    ensures e <= b ==> a[..] == old(a[..])
  {
    var c := a.Length;
    ghost var o := front + b + c - off;
    ghost var R := View(a[..], o, c);
    assert ShiftedDown(R, 0, off) == R;
    var i := b + front;
    while i < e + front
      invariant b <= e ==> b + front <= i <= e + front
      invariant e < b ==> i == b + front
      invariant e <= b ==> a[..] == old(a[..])
      invariant b <= e ==> View(a[..], o, c) == ShiftedDown(R, i - front - b, off)
      decreases e + front - i
    {
      ghost var q := i - front - b;
      assert o + q + off == i + c && o + q == (i - off) + c;
      ModPlusC(i, c);
      ModPlusC(i - off, c);
      assert BackSlot(i, off, c) == (o + q) % c && i % c == (o + q + off) % c;
      ShiftDownStep(a[..], o, R, q, off);
      a[BackSlot(i, off, c)] := a[i % c];
      i := i + 1;
    }
  }

  /** One iteration of `shift_left`'s loop, on the view from origin `o`, the
      first slot written: copying position `q + off` down to `q` extends the
      moved part to `q + 1` positions. */
  lemma ShiftDownStep<T>(buf: seq<T>, o: nat, R: seq<T>, q: nat, off: nat)
    requires 0 < |buf| == |R| && q + off < |buf|
    requires View(buf, o, |buf|) == ShiftedDown(R, q, off)
    ensures View(buf[(o + q) % |buf| := buf[(o + q + off) % |buf|]], o, |buf|) == ShiftedDown(R, q + 1, off)
  {
    var V := View(buf, o, |buf|);
    assert V[q + off] == R[q + off];
    ViewWrite(buf, o, |buf|, q, V[q + off]);
  }

  /** The front-half opening of `insert(k, v)` on a ring of `n` elements:
      `shift_left(0, k, 1)` moves the positions before `k` one slot down and
      `v` is written at position `k` of the ring that now starts one slot
      earlier. On a full ring the new first slot was the last element's, so
      that element is lost. */
  method OpenFront<T>(a: array<T>, front: nat, n: nat, k: nat, v: T)
    requires 0 < a.Length && front < a.Length && k <= n <= a.Length && k < a.Length
    modifies a
    ensures var r := Inserted(View(old(a[..]), front, n), k, v);
            View(a[..], (front + a.Length - 1) % a.Length, n + 1) == if n < a.Length then r else r[n := r[0]]
  {
    ghost var buf := a[..];
    ShiftLeft(a, front, 0, k, 1);
    ghost var buf1 := a[..];
    assert |buf| == |buf1| == a.Length;
    assert View(buf1, front + |buf| - 1, |buf|) == ShiftedDown(View(buf, front + |buf| - 1, |buf|), k, 1);
    InsertByFrontShift(buf, buf1, front, n, k, v);
    var nf := (front + a.Length - 1) % a.Length;
    ghost var r := Inserted(View(buf, front, n), k, v);
    assert View(buf1[(k + nf) % a.Length := v], nf, n + 1) == if n < a.Length then r else r[n := r[0]];
    a[(k + nf) % a.Length] := v;
    assert a[..] == buf1[(k + nf) % a.Length := v];
  }

  /** The back-half opening of `insert(k, v)`: `shift_right(k, n, 1)` moves
      the positions from `k` on one slot up. Writing `v` at position `k` then
      yields the inserted sequence; on a full ring the last element lands in
      the first element's slot. Past the end nothing moves. */
  method OpenBack<T>(a: array<T>, front: nat, n: nat, k: nat, v: T)
    requires 0 < a.Length && front < a.Length && n <= a.Length
    requires k <= n ==> n < a.Length || 0 < k
    modifies a
    ensures k <= n ==>
      var r := Inserted(View(old(a[..]), front, n), k, v);
      View(a[..][(k + front) % a.Length := v], front, n + 1) == if n < a.Length then r else r[0 := r[n]]
    ensures n < k ==> a[..] == old(a[..])
  {
    ghost var buf := a[..];
    ShiftRight(a, front, k, n, 1);
    if k <= n {
      InsertByBackShift(buf, a[..], front, n, k, v);
    }
  }

  /** The front-side close of `erase(b, e)` on a ring of `n` elements:
      `shift_right(0, b, e - b)` moves the positions before the gap up over
      it, and the ring then starts `e - b` slots later. */
  method CloseFront<T>(a: array<T>, front: nat, n: nat, b: nat, e: nat)
    requires 0 < a.Length && front < a.Length && b <= e <= n <= a.Length
    modifies a
    ensures View(a[..], (front + (e - b)) % a.Length, n - (e - b)) == Erased(View(old(a[..]), front, n), b, e)
  {
    ghost var buf := a[..];
    ShiftRight(a, front, 0, b, e - b);
    EraseByFrontShift(buf, a[..], front, n, b, e);
  }

  /** The back-side close of `erase(b, e)` on a ring of `n` elements:
      `shift_left(e, n, e - b)` moves the positions after the gap down over
      it. When `e` lies past the last element nothing moves. */
  method CloseBack<T>(a: array<T>, front: nat, n: nat, b: nat, e: nat)
    requires 0 < a.Length && front < a.Length && b <= e && e - b <= n <= a.Length
    modifies a
    ensures e <= n ==> View(a[..], front, n - (e - b)) == Erased(View(old(a[..]), front, n), b, e)
    ensures n < e ==> a[..] == old(a[..])
  {
    ghost var buf := a[..];
    ShiftLeft(a, front, e, n, e - b);
    if e <= n {
      EraseByBackShift(buf, a[..], front, n, b, e, front + e + a.Length - (e - b));
    }
  }

  // ---------------------------------------------------------------------------
  // reserve, resize, copy

  /** The copy loop of `reserve`: a fresh buffer of `n` slots whose first
      `size` slots hold the logical elements in order. */
  method Relocate<T(0)>(a: array<T>, front: nat, size: nat, n: nat) returns (r: array<T>)
    requires 0 < a.Length && size <= n
    ensures fresh(r) && r.Length == n
    ensures r[..size] == View(a[..], front, size)
  {
    r := new T[n];
    for i := 0 to size
      invariant r[..i] == View(a[..], front, size)[..i]
    {
      r[i] := a[(i + front) % a.Length];
    }
  }

  /** The loop of `resize`: logical positions `[from, to)` receive `x`; no
      slot is written when `to <= from`. */
  method Fill<T>(a: array<T>, front: nat, from: nat, to: nat, x: T)
    requires 0 < a.Length && to <= a.Length
    modifies a
    ensures View(a[..], front, to) == Filled(View(old(a[..]), front, to), from, to, x)
  {
    var c := a.Length;
    ghost var R := View(a[..], front, to);
    assert Filled(R, from, from, x) == R;
    var i := front + from;
    while i < front + to
      invariant front + from <= i
      invariant from <= to ==> i <= front + to
      invariant to < from ==> i == front + from
      invariant View(a[..], front, to) == Filled(R, from, i - front, x)
      decreases front + to - i
    {
      ghost var m := i - front;
      ViewWrite(a[..], front, to, m, x);
      assert i % c == (front + m) % |a[..]|;
      a[i % c] := x;
      assert View(a[..], front, to) == Filled(R, from, m + 1, x);
      i := i + 1;
    }
    assert Filled(R, from, i - front, x) == Filled(R, from, to, x);
  }

  /** The range-for loop of the copy constructor and the copy assignment, with
      `first` and `last` the other container's `begin()` and `end()`: it steps
      a cursor from the first to the last position and copies each element it
      reads into `dst`, from slot 0 on. */
  method CopyOut<T>(first: DequeIterator<T>, last: DequeIterator<T>, dst: array<T>)
    requires 0 < first.capacity == first.container.Length && first.front < first.capacity
    requires first.index == 0 && first.size <= first.capacity && first.front + first.size < SizeMod
    requires last == first.(index := first.size)
    requires dst != first.container && first.size <= dst.Length
    modifies dst
    ensures dst[..first.size] == View(first.container[..], first.front, first.size)
    ensures dst[first.size..] == old(dst[first.size..])
  {
    ghost var src := View(first.container[..], first.front, first.size);
    var it := first;
    var i := 0;
    while it.NotEqual(last)
      invariant i <= first.size && it == first.(index := i)
      invariant dst[..i] == src[..i]
      invariant dst[first.size..] == old(dst[first.size..])
      decreases first.size - i
    {
      dst[i] := it.Deref();
      i := i + 1;
      it := it.Incremented();
    }
  }
}
