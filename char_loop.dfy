/** CharLoop<ST, N>: a fixed buffer of N characters handed out as consecutive
    slices, wrapping back to the start when the next slice would not fit. The
    CHAR_STREAM_OPERATOR macro keeps one per conversion operator, of SIZE*COUNT
    characters, and claims SIZE at a time, so the last COUNT results stay
    intact. */
module CharLoops {
  import opened CStrings

  /** A claimed slice: its first position in the loop's buffer and its size. */
  datatype Slice = Slice(index: nat, size: nat)

  /** Where claim(size) starts when the cursor is at `next` in a buffer of `n`:
      a slice no longer than the buffer always fits from there, and it starts
      at the cursor unless it would not fit there (from 0 either way when the
      cursor is at 0). */
  function ClaimStart(next: nat, size: nat, n: nat): (r: nat)
    ensures size <= n ==> r + size <= n
    ensures r == next <==> next + size <= n || next == 0
  {
    if next + size > n then 0 else next
  }

  class CharLoop {
    const buff: array<char>
    var next: nat

    ghost predicate Valid()
      reads this
    {
      next <= buff.Length
    }

    /** A fresh loop: every character NUL, cursor at 0. */
    constructor (n: nat)
      ensures Valid() && fresh(buff)
      ensures buff.Length == n && next == 0
      ensures forall i :: 0 <= i < n ==> buff[i] == NUL
    {
      buff := new char[n](_ => NUL);
      next := 0;
    }

    /** claim: restarts at 0 when the slice would run past the end, writes a
        NUL into the slice's last character and moves the cursor past it. */
    method Claim(size: nat) returns (r: Slice)
      requires Valid()
      requires 1 <= size <= buff.Length
      modifies this, buff
      ensures Valid()
      ensures r == Slice(ClaimStart(old(next), size, buff.Length), size)
      ensures r.index + r.size <= buff.Length
      ensures next == r.index + r.size
      ensures buff[..] == old(buff[..])[r.index + r.size - 1 := NUL]
    {
      if next + size > buff.Length {
        next := 0;
      }
      buff[next + size - 1] := NUL;
      r := Slice(next, size);
      next := next + size;
    }
  }

  /** The cursor after `k` claims of `size` on a fresh loop of `n`. */
  function NextAfter(k: nat, size: nat, n: nat): nat {
    if k == 0 then 0 else ClaimStart(NextAfter(k - 1, size, n), size, n) + size
  }

  /** Where the claim numbered `k` (from 0) on a fresh loop starts. */
  function StartOf(k: nat, size: nat, n: nat): nat {
    ClaimStart(NextAfter(k, size, n), size, n)
  }

  lemma MulMonotone(a: nat, b: nat, size: nat)
    requires a <= b
    ensures a * size <= b * size
  {
  }

  lemma ModUnique(x: nat, m: nat, q: nat, r: nat)
    requires m >= 1 && r < m && x == q * m + r
    ensures x % m == r
  {
    var q', r' := x / m, x % m;
    assert x == q' * m + r';
    if q' < q {
      MulMonotone(q' + 1, q, m);
      assert false;
    } else if q' > q {
      MulMonotone(q + 1, q', m);
      assert false;
    }
  }

  /** Counting one more claim moves the slot number on by one, wrapping at
      `count`. */
  lemma ModStep(k: nat, count: nat)
    requires k >= 1 && count >= 1
    ensures k % count == if (k - 1) % count + 1 < count then (k - 1) % count + 1 else 0
  {
    var q, j := (k - 1) / count, (k - 1) % count;
    assert k - 1 == q * count + j;
    if j + 1 < count {
      ModUnique(k, count, q, j + 1);
    } else {
      assert k == (q + 1) * count;
      ModUnique(k, count, q + 1, 0);
    }
  }

  /** The slot boundary the cursor sits on after `k` claims on a ring of
      `count` slots: slot k mod count, or the very end when k is a positive
      multiple of count. */
  function CursorSlot(k: nat, count: nat): nat
    requires count >= 1
  {
    if k > 0 && k % count == 0 then count else k % count
  }

  lemma MulSucc(j: nat, size: nat)
    ensures (j + 1) * size == j * size + size
  {
  }

  /** One claim from a cursor on a slot boundary lands on the next boundary. */
  lemma SlotStep(k: nat, size: nat, count: nat)
    requires k >= 1 && size >= 1 && count >= 1
    requires NextAfter(k - 1, size, count * size) == CursorSlot(k - 1, count) * size
    ensures NextAfter(k, size, count * size) == CursorSlot(k, count) * size
  {
    var n := count * size;
    var prev := NextAfter(k - 1, size, n);
    var j := (k - 1) % count;
    ModStep(k, count);
    if k - 1 > 0 && j == 0 {
      assert prev == n;
      assert ClaimStart(prev, size, n) == 0;
    } else {
      assert prev == j * size;
      MulMonotone(j + 1, count, size);
      MulSucc(j, size);
      assert ClaimStart(prev, size, n) == prev;
    }
  }

  /** With a buffer of exactly `count` slots of `size`, the cursor always sits
      on a slot boundary. */
  lemma {:induction false} NextAfterOnSlot(k: nat, size: nat, count: nat)
    requires size >= 1 && count >= 1
    ensures NextAfter(k, size, count * size) == CursorSlot(k, count) * size
  {
    if k > 0 {
      NextAfterOnSlot(k - 1, size, count);
      SlotStep(k, size, count);
    }
  }

  /** Claims of one size on a ring of `count` such slots take the slots in
      turn: claim k starts at slot k mod count. */
  lemma {:induction false} ClaimsRotate(k: nat, size: nat, count: nat)
    requires size >= 1 && count >= 1
    ensures StartOf(k, size, count * size) == (k % count) * size
  {
    var n := count * size;
    NextAfterOnSlot(k, size, count);
    var j := k % count;
    if k > 0 && j == 0 {
      assert NextAfter(k, size, n) == n;
    } else {
      MulMonotone(j + 1, count, size);
      MulSucc(j, size);
      assert NextAfter(k, size, n) == j * size;
    }
  }

  /** Fewer than `count` steps apart, two numbers fall in different slots. */
  lemma ModDistinct(k1: nat, k2: nat, count: nat)
    requires count >= 1 && k1 < k2 < k1 + count
    ensures k1 % count != k2 % count
  {
    var q1, q2 := k1 / count, k2 / count;
    assert k1 == q1 * count + k1 % count;
    assert k2 == q2 * count + k2 % count;
    if k1 % count == k2 % count {
      assert k2 - k1 == q2 * count - q1 * count == (q2 - q1) * count;
      assert q2 > q1;
      MulMonotone(1, q2 - q1, count);
      assert false;
    }
  }

  /** Any `count` consecutive results of the conversion operator are disjoint
      slices, so none of them is overwritten by the others. */
  lemma ClaimsDisjoint(k1: nat, k2: nat, size: nat, count: nat)
    requires size >= 1 && count >= 1
    requires k1 < k2 < k1 + count
    ensures StartOf(k1, size, count * size) + size <= StartOf(k2, size, count * size)
         || StartOf(k2, size, count * size) + size <= StartOf(k1, size, count * size)
  {
    ClaimsRotate(k1, size, count);
    ClaimsRotate(k2, size, count);
    var j1, j2 := k1 % count, k2 % count;
    ModDistinct(k1, k2, count);
    if j1 < j2 {
      MulMonotone(j1 + 1, j2, size);
      MulSucc(j1, size);
    } else {
      MulMonotone(j2 + 1, j1, size);
      MulSucc(j2, size);
    }
  }
}
