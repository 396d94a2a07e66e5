/** What the block moves performed by `insert` and `erase` do to the logical
    contents of a ring. Each lemma takes the buffer before (`buf`) and after
    (`buf1`) a shift, described as a rotated view, and concludes the logical
    sequence edit. They are shared by `Deque` and `LockFreeDeque`, whose
    `insert` and `erase` bodies are the same. */
module RingEdits {
  import opened RingIndex

  /** Back-side insert (`shift_right(k, n, 1)`, then the write at slot
      `(k + front) % c`): the logical result is `Inserted(old, k, v)`. When the
      ring was full (`n == c`), logical positions 0 and `n` share a slot and
      both show what was written there last. Push-back is the case `k == n`. */
  lemma InsertByBackShift<T>(buf: seq<T>, buf1: seq<T>, front: nat, n: nat, k: nat, v: T)
    requires 0 < |buf| == |buf1| && front < |buf|
    requires k <= n <= |buf| && (n < |buf| || 0 < k)
    requires View(buf1, front + k, |buf|) == ShiftedUp(View(buf, front + k, |buf|), 0, n - k, 1)
    ensures var r := Inserted(View(buf, front, n), k, v);
            View(buf1[(k + front) % |buf| := v], front, n + 1) == if n < |buf| then r else r[0 := r[n]]
  {
    var c := |buf|;
    var s := View(buf, front, n);
    var r := Inserted(s, k, v);
    var res := View(buf1[(k + front) % c := v], front, n + 1);
    var want := if n < c then r else r[0 := r[n]];
    forall i | 0 <= i <= n
      ensures res[i] == want[i]
    {
      SlotsMeet(front, i, k, c);
      if i == k {
        assert res[i] == v == want[i];
      } else if k < i {
        InsertBackMoved(buf, buf1, front, n, k, i);
        assert want[i] == s[i - 1];
      } else if k == i + c {
        assert res[i] == v == r[n] == want[i];
      } else {
        InsertBackKept(buf, buf1, front, n, k, i);
        if i == 0 && n == c {
          assert want[i] == r[n] == s[n - 1];
        } else {
          assert want[i] == s[i];
        }
      }
    }
  }

  /** After the back-side shift, a position past `k` holds its predecessor. */
  lemma InsertBackMoved<T>(buf: seq<T>, buf1: seq<T>, front: nat, n: nat, k: nat, i: nat)
    requires 0 < |buf| == |buf1| && front < |buf|
    requires k <= n <= |buf| && (n < |buf| || 0 < k)
    requires View(buf1, front + k, |buf|) == ShiftedUp(View(buf, front + k, |buf|), 0, n - k, 1)
    requires k < i <= n && i < k + |buf|
    ensures buf1[(front + i) % |buf|] == buf[(front + i - 1) % |buf|]
  {
    var c := |buf|;
    assert View(buf1, front + k, c)[i - k] == View(buf, front + k, c)[i - k - 1];
  }

  /** After the back-side shift, a position before `k` keeps its element,
      except on a full ring, where the first slot receives the last element. */
  lemma InsertBackKept<T>(buf: seq<T>, buf1: seq<T>, front: nat, n: nat, k: nat, i: nat)
    requires 0 < |buf| == |buf1| && front < |buf|
    requires k <= n <= |buf| && (n < |buf| || 0 < k)
    requires View(buf1, front + k, |buf|) == ShiftedUp(View(buf, front + k, |buf|), 0, n - k, 1)
    requires i < k < i + |buf|
    ensures buf1[(front + i) % |buf|]
         == if i == 0 && n == |buf| then buf[(front + n - 1) % |buf|] else buf[(front + i) % |buf|]
  {
    var c := |buf|;
    var m := i - k + c;
    ModPlusC(front + i, c);
    if m < n - k + 1 {
      assert View(buf1, front + k, c)[m] == View(buf, front + k, c)[m - 1];
    } else {
      assert View(buf1, front + k, c)[m] == View(buf, front + k, c)[m];
    }
  }

  /** Front-side insert (`shift_left(0, k, 1)`, `front` moved back one slot,
      then the write at slot `(k + front) % c`): the logical result is
      `Inserted(old, k, v)`; on a full ring the last logical position aliases
      the first. Push-front is the case `k == 0`. */
  lemma InsertByFrontShift<T>(buf: seq<T>, buf1: seq<T>, front: nat, n: nat, k: nat, v: T)
    requires 0 < |buf| == |buf1| && front < |buf|
    requires k <= n <= |buf| && k < |buf|
    requires View(buf1, front + |buf| - 1, |buf|) == ShiftedDown(View(buf, front + |buf| - 1, |buf|), k, 1)
    ensures var nf := (front + |buf| - 1) % |buf|;
            var r := Inserted(View(buf, front, n), k, v);
            View(buf1[(k + nf) % |buf| := v], nf, n + 1) == if n < |buf| then r else r[n := r[0]]
  {
    var nf := (front + |buf| - 1) % |buf|;
    var r := Inserted(View(buf, front, n), k, v);
    var res := View(buf1[(k + nf) % |buf| := v], nf, n + 1);
    forall i | 0 <= i <= n
      ensures res[i] == (if n < |buf| then r else r[n := r[0]])[i]
    {
      FrontRead(buf1, front, n, k, v, i);
      InsertFrontElement(buf, buf1, front, n, k, v, i);
    }
  }

  /** `InsertByFrontShift` at one position `i`, in terms of the slot that
      `FrontRead` says position `i` reads. */
  lemma InsertFrontElement<T>(buf: seq<T>, buf1: seq<T>, front: nat, n: nat, k: nat, v: T, i: nat)
    requires 0 < |buf| == |buf1| && front < |buf|
    requires k <= n <= |buf| && k < |buf|
    requires View(buf1, front + |buf| - 1, |buf|) == ShiftedDown(View(buf, front + |buf| - 1, |buf|), k, 1)
    requires i <= n
    ensures var r := Inserted(View(buf, front, n), k, v);
            var want := if n < |buf| then r else r[n := r[0]];
            (i == k || i == k + |buf| ==> want[i] == v)
            && (i < |buf| && i != k ==> want[i] == buf1[(front + |buf| - 1 + i) % |buf|])
            && (i == |buf| && k != 0 ==> want[i] == buf1[(front + |buf| - 1 + 0) % |buf|])
  {
    var c := |buf|;
    var s := View(buf, front, n);
    var r := Inserted(s, k, v);
    var want := if n < c then r else r[n := r[0]];
    if i == k {
      assert want[i] == v;
    } else if i == k + c {
      assert want[i] == r[0] == v;
    } else if i < c {
      if i < k {
        InsertFrontBefore(buf, buf1, front, n, k, i);
        assert want[i] == s[i];
      } else {
        InsertFrontAfter(buf, buf1, front, n, k, i);
        assert want[i] == s[i - 1];
      }
    } else {
      InsertFrontBefore(buf, buf1, front, n, k, 0);
      assert want[i] == r[0] == s[0];
    }
  }

  /** Reading position `i` of the ring that starts one slot before `front`,
      after `v` was written at its position `k`: a position other than `k`
      (and, a lap on, `k + c`) reads slot `i` of the ring, or slot 0 once
      round. */
  lemma FrontRead<T>(buf1: seq<T>, front: nat, n: nat, k: nat, v: T, i: nat)
    requires 0 < |buf1| && front < |buf1| && k < |buf1| && n <= |buf1| && i <= n
    ensures var nf := (front + |buf1| - 1) % |buf1|;
            i == k || i == k + |buf1| ==> View(buf1[(k + nf) % |buf1| := v], nf, n + 1)[i] == v
    ensures var nf := (front + |buf1| - 1) % |buf1|;
            i < |buf1| && i != k ==>
              View(buf1[(k + nf) % |buf1| := v], nf, n + 1)[i] == buf1[(front + |buf1| - 1 + i) % |buf1|]
    ensures var nf := (front + |buf1| - 1) % |buf1|;
            i == |buf1| && k != 0 ==>
              View(buf1[(k + nf) % |buf1| := v], nf, n + 1)[i] == buf1[(front + |buf1| - 1 + 0) % |buf1|]
  {
    var c := |buf1|;
    var o := front + c - 1;
    var nf := o % c;
    var p := (nf + i) % c;
    assert View(buf1[(k + nf) % c := v], nf, n + 1)[i] == buf1[(k + nf) % c := v][p];
    SlotsMeet(nf, i, k, c);
    assert p == (k + nf) % c <==> i == k || i == k + c;
    if i < c {
      ModAddMod(i, o, c);
      assert p == (o + i) % c;
    } else {
      ModAddMod(0, o, c);
      ModPlusC(nf, c);
      assert p == (o + 0) % c;
    }
  }

  /** After the front-side shift, position `i < k` of the ring that starts one
      slot earlier holds the old element `i`. */
  lemma InsertFrontBefore<T>(buf: seq<T>, buf1: seq<T>, front: nat, n: nat, k: nat, i: nat)
    requires 0 < |buf| == |buf1| && front < |buf|
    requires k <= n <= |buf| && k < |buf|
    requires View(buf1, front + |buf| - 1, |buf|) == ShiftedDown(View(buf, front + |buf| - 1, |buf|), k, 1)
    requires i < k
    ensures buf1[(front + |buf| - 1 + i) % |buf|] == buf[(front + i) % |buf|]
  {
    var c := |buf|;
    ModPlusC(front + i, c);
    assert View(buf1, front + c - 1, c)[i] == View(buf, front + c - 1, c)[i + 1];
  }

  /** After the front-side shift, position `i > k` of the ring that starts one
      slot earlier holds the old element `i - 1`. */
  lemma InsertFrontAfter<T>(buf: seq<T>, buf1: seq<T>, front: nat, n: nat, k: nat, i: nat)
    requires 0 < |buf| == |buf1| && front < |buf|
    requires k <= n <= |buf| && k < |buf|
    requires View(buf1, front + |buf| - 1, |buf|) == ShiftedDown(View(buf, front + |buf| - 1, |buf|), k, 1)
    requires k < i < |buf|
    ensures buf1[(front + |buf| - 1 + i) % |buf|] == buf[(front + i - 1) % |buf|]
  {
    var c := |buf|;
    ModPlusC(front + i - 1, c);
    assert View(buf1, front + c - 1, c)[i] == View(buf, front + c - 1, c)[i];
  }

  /** Front-side erase (`shift_right(0, b, e - b)`, then `front` advanced by
      `e - b`): the logical result is `Erased(old, b, e)`. */
  lemma EraseByFrontShift<T>(buf: seq<T>, buf1: seq<T>, front: nat, n: nat, b: nat, e: nat)
    requires 0 < |buf| == |buf1| && front < |buf|
    requires b <= e <= n <= |buf|
    requires View(buf1, front, |buf|) == ShiftedUp(View(buf, front, |buf|), 0, b, e - b)
    ensures View(buf1, (front + (e - b)) % |buf|, n - (e - b)) == Erased(View(buf, front, n), b, e)
  {
    var c := |buf|;
    var off := e - b;
    var s := View(buf, front, n);
    var R := View(buf, front, c);
    var V1 := View(buf1, front, c);
    ViewNormalize(buf1, front + off, n - off);
    var res := View(buf1, front + off, n - off);
    forall i | 0 <= i < n - off
      ensures res[i] == Erased(s, b, e)[i]
    {
      assert res[i] == V1[off + i];
      if i < b {
        assert V1[off + i] == R[i];
      } else {
        assert V1[off + i] == R[off + i];
      }
    }
  }

  /** Back-side erase (`shift_left(e, n, e - b)`, `front` unchanged): the
      logical result is `Erased(old, b, e)`. The shift is described from the
      first slot it writes, `o`: position `b` one lap on. */
  lemma EraseByBackShift<T>(buf: seq<T>, buf1: seq<T>, front: nat, n: nat, b: nat, e: nat, o: nat)
    requires 0 < |buf| == |buf1| && front < |buf|
    requires b <= e <= n <= |buf| && o == front + b + |buf|
    requires View(buf1, o, |buf|) == ShiftedDown(View(buf, o, |buf|), n - e, e - b)
    ensures View(buf1, front, n - (e - b)) == Erased(View(buf, front, n), b, e)
  {
    var s := View(buf, front, n);
    var res := View(buf1, front, n - (e - b));
    forall i | 0 <= i < |res|
      ensures res[i] == Erased(s, b, e)[i]
    {
      if i < b {
        EraseBackKept(buf, buf1, front, n, b, e, o, i);
      } else {
        EraseBackMoved(buf, buf1, front, n, b, e, o, i);
      }
    }
  }

  /** A position before the gap is untouched by the back-side shift. */
  lemma EraseBackKept<T>(buf: seq<T>, buf1: seq<T>, front: nat, n: nat, b: nat, e: nat, o: nat, i: nat)
    requires 0 < |buf| == |buf1| && front < |buf|
    requires b <= e <= n <= |buf| && o == front + b + |buf|
    requires View(buf1, o, |buf|) == ShiftedDown(View(buf, o, |buf|), n - e, e - b)
    requires i < b
    ensures buf1[(front + i) % |buf|] == buf[(front + i) % |buf|]
  {
    var c := |buf|;
    var m := i - b + c;
    ModPlusC(front + i, c);
    ModPlusC(front + i + c, c);
    assert View(buf1, o, c)[m] == View(buf, o, c)[m];
  }

  /** A position after the gap holds what stood `e - b` places further on. */
  lemma EraseBackMoved<T>(buf: seq<T>, buf1: seq<T>, front: nat, n: nat, b: nat, e: nat, o: nat, i: nat)
    requires 0 < |buf| == |buf1| && front < |buf|
    requires b <= e <= n <= |buf| && o == front + b + |buf|
    requires View(buf1, o, |buf|) == ShiftedDown(View(buf, o, |buf|), n - e, e - b)
    requires b <= i < n - (e - b)
    ensures buf1[(front + i) % |buf|] == buf[(front + i + (e - b)) % |buf|]
  {
    var c := |buf|;
    var off := e - b;
    ModPlusC(front + i, c);
    ModPlusC(front + i + off, c);
    assert View(buf1, o, c)[i - b] == View(buf, o, c)[i - b + off];
  }

  /** `push_back` before the growth check: writing `v` into the slot after
      the last element appends it; on a full ring that slot is the first
      element's, which `v` replaces as well. */
  lemma PushBackView<T>(buf: seq<T>, front: nat, n: nat, v: T)
    requires 0 < |buf| && front < |buf| && n <= |buf|
    ensures var s := View(buf, front, n);
            View(buf[(front + n) % |buf| := v], front, n + 1)
              == if n < |buf| then s + [v] else [v] + s[1..] + [v]
  {
    var c := |buf|;
    var s := View(buf, front, n);
    var w := View(buf[(front + n) % c := v], front, n + 1);
    forall i | 0 <= i <= n
      ensures w[i] == if i == n || (i == 0 && n == c) then v else s[i]
    {
      SlotsMeet(front, i, n, c);
    }
    if n < c {
      assert w == s + [v];
    } else {
      assert w == [v] + s[1..] + [v];
    }
  }

  /** `push_front` before the growth check: stepping `front` back one slot and
      writing `v` there prepends it; on a full ring that slot is the last
      element's, which `v` replaces as well. */
  lemma PushFrontView<T>(buf: seq<T>, front: nat, n: nat, v: T)
    requires 0 < |buf| && front < |buf| && n <= |buf|
    ensures var s := View(buf, front, n);
            var nf := (front + |buf| - 1) % |buf|;
            View(buf[nf := v], nf, n + 1)
              == if n < |buf| then [v] + s else [v] + s[..n - 1] + [v]
  {
    var c := |buf|;
    var s := View(buf, front, n);
    var nf := (front + c - 1) % c;
    var w := View(buf[nf := v], nf, n + 1);
    forall i | 0 < i <= n
      ensures w[i] == if i == c then v else s[i - 1]
    {
      PredecessorSlot(front, c, i);
    }
    PredecessorSlot(front, c, 0);
    assert w[0] == v;
    if n < c {
      assert w == [v] + s;
    } else {
      assert w[..n] == [v] + s[..n - 1];
      assert w == w[..n] + [v];
    }
  }

  /** Slot arithmetic behind `PushFrontView`: from the slot before `front`,
      `i` steps reach the slot of position `i - 1`, and come back round only
      after a full turn. */
  lemma PredecessorSlot(front: nat, c: nat, i: nat)
    requires front < c && i <= c
    ensures var nf := (front + c - 1) % c;
            if i == 0 || i == c then (nf + i) % c == nf
            else (nf + i) % c == (front + i - 1) % c != nf
  {
    ModBetween(front + c - 1, c);
    var nf := (front + c - 1) % c;
    ModBetween(nf + i, c);
    ModBetween(front + i - 1, c);
  }

  /** Slot arithmetic behind the back-side lemmas: two positions at most one
      lap apart share a slot exactly when they are equal or a full lap apart. */
  lemma SlotsMeet(front: nat, i: nat, k: nat, c: nat)
    requires 0 < c && i <= c && k <= c
    ensures (front + i) % c == (front + k) % c <==> i == k || i == k + c || k == i + c
  {
    if i < c && k < c {
      ModInjective(front, i, k, c);
    } else if i == c && k == c {
    } else if i == c {
      ModPlusC(front, c);
      ModInjective(front, 0, k, c);
    } else {
      ModPlusC(front, c);
      ModInjective(front, i, 0, c);
    }
  }
}
