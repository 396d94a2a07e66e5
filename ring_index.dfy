/** Circular-buffer index arithmetic shared by every container of the library.
    A ring of capacity `c` whose first live element sits at physical slot `front`
    keeps its logical element `i` at physical slot `(front + i) % c`.

    The proofs about shifting work on a "rotated view": the `c` slots of a buffer
    read in order starting at some origin. Seen that way, moving a block of slots
    one or more places up or down is an ordinary sequence edit, and the only
    modular-arithmetic facts needed are collected at the top of this module. */
module RingIndex {

  /** 2^64, the modulus of C++ `size_t` arithmetic. */
  const SizeMod: int := 0x1_0000_0000_0000_0000

  /** A C++ `size_t`. */
  type SizeT = x: int | 0 <= x < SizeMod

  /** Capacities for which every sum `front + i` with `front, i < capacity`
      fits in a `size_t` without wrapping. */
  predicate Addressable(capacity: nat) {
    2 * capacity <= SizeMod
  }

  // ---------------------------------------------------------------------------
  // Modular arithmetic

  lemma ModBetween(x: int, c: int)
    requires 0 < c && -c <= x < 2 * c
    ensures x % c == if x < 0 then x + c else if x < c then x else x - c
  {
  }

  lemma MulNonneg(a: int, b: int)
    requires 0 <= a && 0 <= b
    ensures 0 <= a * b
  {
  }

  lemma ModPlusC(x: int, c: int)
    requires 0 < c
    ensures (x + c) % c == x % c
  {
    var k := x / c + 1 - (x + c) / c;
    assert (x + c) % c - x % c == c * k;
    if k >= 1 {
      assert c * k == c * (k - 1) + c;
      MulNonneg(c, k - 1);
    } else if k <= -1 {
      assert c * k == c * (k + 1) - c;
      MulNonneg(c, -(k + 1));
    }
  }

  lemma {:induction false} ModShift(x: int, q: int, c: int)
    requires 0 < c
    ensures (x + q * c) % c == x % c
    decreases if q < 0 then -q else q
  {
    if q > 0 {
      ModShift(x, q - 1, c);
      ModPlusC(x + (q - 1) * c, c);
      assert x + (q - 1) * c + c == x + q * c;
    } else if q < 0 {
      ModShift(x, q + 1, c);
      ModPlusC(x + q * c, c);
      assert x + q * c + c == x + (q + 1) * c;
    }
  }

  lemma ModAddMod(a: int, x: int, c: int)
    requires 0 < c
    ensures (a + x % c) % c == (a + x) % c
  {
    ModShift(a + x % c, x / c, c);
  }

  /** Within one lap of the ring, different logical offsets give different slots. */
  lemma ModInjective(s: int, i: int, m: int, c: int)
    requires 0 <= i < c && 0 <= m < c
    ensures (s + i) % c == (s + m) % c <==> i == m
  {
    ModAddMod(i, s, c);
    ModAddMod(m, s, c);
    ModBetween(i + s % c, c);
    ModBetween(m + s % c, c);
  }

  // ---------------------------------------------------------------------------
  // size_t subtraction, as written in shift_left

  /** `x - y` evaluated in `size_t`: it wraps around to `x - y + 2^64` when `y > x`. */
  function WrapSub(x: nat, y: nat): (r: int)
    requires y < SizeMod
    ensures 0 <= r
    ensures x < SizeMod ==> r < SizeMod
    ensures r % SizeMod == (x - y) % SizeMod
  {
    ModPlusC(x - y, SizeMod);
    if x >= y then x - y else x - y + SizeMod
  }

  /** The slot the intended backward step `i - off` denotes on a ring of capacity `c`. */
  function BackSlot(i: nat, off: nat, c: nat): (p: nat)
    requires 0 < c && off <= c
    ensures p < c
    ensures p == (i - off) % c
  {
    ModPlusC(i - off, c);
    (i + c - off) % c
  }

  /** `(i - off) % c` computed through `size_t` lands on the intended slot
      when no wrap happens or `c` divides 2^64. */
  lemma WrapSubSlot(i: nat, off: nat, c: nat)
    requires 0 < c && off <= c && off < SizeMod
    requires off <= i || SizeMod % c == 0
    ensures WrapSub(i, off) % c == BackSlot(i, off, c)
  {
    if i < off {
      ModShift(i - off, SizeMod / c, c);
      assert SizeMod == SizeMod / c * c;
    }
  }

  /** With capacity 10 (the capacity `Deque{1,2,3,4,5}` receives), stepping back
      from slot 0 through `size_t` reaches slot 5 instead of slot 9. With
      capacity 12 (that of `Deque{1,2,3,4,5,6}`) it reaches slot 3, which
      holds the fourth element, instead of slot 11. */
  lemma WrapSubMissesSlot()
    ensures WrapSub(0, 1) % 10 == 5
    ensures BackSlot(0, 1, 10) == 9
    ensures WrapSub(0, 1) % 12 == 3
    ensures BackSlot(0, 1, 12) == 11
  {
    assert WrapSub(0, 1) == 18446744073709551615;
  }

  // ---------------------------------------------------------------------------
  // Views of a ring buffer

  /** The `n` elements that start at physical slot `start` of `buf` and wrap past its end. */
  function View<T>(buf: seq<T>, start: nat, n: nat): seq<T>
    requires 0 < |buf|
  {
    seq(n, i requires 0 <= i < n => buf[(start + i) % |buf|])
  }

  /** The logical sequence after inserting `v` at index `k`. */
  function Inserted<T>(s: seq<T>, k: nat, v: T): (r: seq<T>)
    requires k <= |s|
    ensures |r| == |s| + 1 && r[k] == v
    ensures forall i :: 0 <= i < k ==> r[i] == s[i]
    ensures forall i :: k < i <= |s| ==> r[i] == s[i - 1]
  {
    s[..k] + [v] + s[k..]
  }

  /** The logical sequence after removing the half-open index range `[b, e)`. */
  function Erased<T>(s: seq<T>, b: nat, e: nat): (r: seq<T>)
    requires b <= e <= |s|
    ensures |r| == |s| - (e - b)
    ensures forall i :: 0 <= i < b ==> r[i] == s[i]
    ensures forall i :: b <= i < |r| ==> r[i] == s[i + (e - b)]
  {
    s[..b] + s[e..]
  }

  /** `r` after its block `[from, to)` has been copied `off` places up; the
      slots in `[from, from + off)` keep their old values. */
  function ShiftedUp<T>(r: seq<T>, from: nat, to: nat, off: nat): seq<T>
    requires from <= to && to + off <= |r|
  {
    seq(|r|, m requires 0 <= m < |r| => if from + off <= m < to + off then r[m - off] else r[m])
  }

  /** `r` after its block `[off, off + done)` has been copied `off` places down
      onto `[0, done)`; everything from `done` on keeps its old value. */
  function ShiftedDown<T>(r: seq<T>, done: nat, off: nat): seq<T>
    requires done + off <= |r|
  {
    seq(|r|, m requires 0 <= m < |r| => if m < done then r[m + off] else r[m])
  }

  /** `r` with positions `[lo, hi)` overwritten by `x`. */
  function Filled<T>(r: seq<T>, lo: nat, hi: nat, x: T): seq<T>
  {
    seq(|r|, m requires 0 <= m < |r| => if lo <= m < hi then x else r[m])
  }

  /** Writing one physical slot changes exactly one position of a view of at most one lap. */
  lemma ViewWrite<T>(buf: seq<T>, s: nat, n: nat, m: nat, x: T)
    requires 0 < |buf| && n <= |buf| && m < |buf|
    ensures View(buf[(s + m) % |buf| := x], s, n)
         == if m < n then View(buf, s, n)[m := x] else View(buf, s, n)
  {
    var w := View(buf[(s + m) % |buf| := x], s, n);
    forall i | 0 <= i < n
      ensures w[i] == if i == m then x else View(buf, s, n)[i]
    {
      ModInjective(s, i, m, |buf|);
    }
  }

  /** An origin may be reduced modulo the capacity. */
  lemma ViewNormalize<T>(buf: seq<T>, s: nat, n: nat)
    requires 0 < |buf|
    ensures View(buf, s % |buf|, n) == View(buf, s, n)
  {
    forall i | 0 <= i < n
      ensures View(buf, s % |buf|, n)[i] == View(buf, s, n)[i]
    {
      ModAddMod(i, s, |buf|);
    }
  }

  /** A view that starts at slot 0 and stays within one lap is a plain prefix. */
  lemma ViewFromZero<T>(buf: seq<T>, n: nat)
    requires 0 < |buf| && n <= |buf|
    ensures View(buf, 0, n) == buf[..n]
  {
    forall i | 0 <= i < n
      ensures View(buf, 0, n)[i] == buf[i]
    {
      ModBetween(i, |buf|);
    }
  }

  /** Advancing the origin by one slot drops the first element of the view. */
  lemma ViewDropFirst<T>(buf: seq<T>, s: nat, n: nat)
    requires 0 < |buf| && 0 < n
    ensures View(buf, (s + 1) % |buf|, n - 1) == View(buf, s, n)[1..]
  {
    ViewNormalize(buf, s + 1, n - 1);
  }
}
