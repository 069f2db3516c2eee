/** Index arithmetic of the circular buffer over a capacity `n >= 1`.

    `Advance`, `Count`, `Slot` and `LastSlot` compute what circ_buffer.h
    computes, with the same branches and subtractions; each contract states
    what the value means in terms of arithmetic modulo `n`. `Offset` has no
    counterpart in the header: it inverts `Slot` for the proofs. The indices,
    counts and sums never leave [0, 2n); integers are unbounded here, so the
    model matches the C++ `int` arithmetic only while `2n - 2` fits in an
    `int`. */
module RingIndex {

  /** The index after `i`: `_h++` or `_t++` followed by the reset to 0 when
      the index reaches the capacity. */
  function Advance(n: nat, i: int): (r: int)
    requires 0 <= i < n
    ensures 0 <= r < n
    ensures r == (i + 1) % n
  {
    var r := if i + 1 == n then 0 else i + 1;
    ModUnique(i + 1, n, if i + 1 == n then 1 else 0, r);
    r
  }

  /** `size()`: the number of live elements for write index `h`, read index
      `t` and the full flag. */
  function Count(n: nat, h: int, t: int, full: bool): (r: int)
    requires 0 <= h < n && 0 <= t < n
    ensures 0 <= r <= n
    ensures full ==> r == n
    ensures !full ==> r < n && r == (h - t) % n
    ensures r == 0 <==> h == t && !full
  {
    if full then n
    else if h < t then n - t + h
    else h - t
  }

  /** The physical slot that `operator[](idx)` reaches for read index `t`:
      `idx` is reduced modulo `n`, added to `t`, and `n` is subtracted once
      when the sum passes the end of the array. */
  function Slot(n: nat, t: int, idx: int): (r: int)
    requires 0 <= t < n && 0 <= idx
    ensures 0 <= r < n
    ensures r == (t + idx) % n
  {
    var i := idx % n;
    var q := if t + i >= n then 1 else 0;
    ModUnique(t + idx, n, idx / n + q, t + i - n * q);
    if t + i >= n then t + i - n else t + i
  }

  /** The slot that `back()` reads: the one just before the write index. */
  function LastSlot(n: nat, h: int): (r: int)
    requires 0 <= h < n
    ensures 0 <= r < n
    ensures r == (h - 1) % n
  {
    var r := if h == 0 then n - 1 else h - 1;
    ModUnique(h - 1, n, if h == 0 then -1 else 0, r);
    r
  }

  /** The logical position of physical slot `j` counted from the read index
      `t`; the inverse of `Slot`. */
  function Offset(n: nat, t: int, j: int): (r: int)
    requires 0 <= t < n && 0 <= j < n
    ensures 0 <= r < n
    ensures r == (j - t) % n
    ensures Slot(n, t, r) == j
  {
    var r := if j >= t then j - t else j - t + n;
    ModUnique(j - t, n, if j >= t then 0 else -1, r);
    ModUnique(r, n, 0, r);
    r
  }

  /** A positive multiple of `n` is at least `n`. */
  lemma {:induction false} MulAtLeast(n: int, k: int)
    requires n > 0 && k >= 1
    ensures n * k >= n
  {
    if k > 1 {
      MulAtLeast(n, k - 1);
      assert n * k == n * (k - 1) + n;
    }
  }

  /** The Euclidean remainder is pinned down by any quotient/remainder pair. */
  lemma ModUnique(a: int, n: int, q: int, r: int)
    requires n > 0 && 0 <= r < n && a == n * q + r
    ensures a % n == r
  {
    var q', r' := a / n, a % n;
    assert a == n * q' + r';
    assert n * (q - q') == n * q - n * q';
    if q - q' >= 1 {
      MulAtLeast(n, q - q');
    } else if q' - q >= 1 {
      MulAtLeast(n, q' - q);
    }
  }

  /** `Slot` is one-to-one on the logical positions 0 .. n-1, and `Offset`
      undoes it. */
  lemma {:induction false} OffsetOfSlot(n: nat, t: int, i: int)
    requires 0 <= t < n && 0 <= i < n
    ensures Offset(n, t, Slot(n, t, i)) == i
  {
    assert i % n == i;
  }

  /** Pushing into a buffer that is not full: the count computed from the
      advanced write index (with the full flag set exactly when it meets the
      read index) is one more than before. */
  lemma {:induction false} CountAfterPush(n: nat, h: int, t: int)
    requires 0 <= h < n && 0 <= t < n
    ensures Count(n, Advance(n, h), t, Advance(n, h) == t) == Count(n, h, t, false) + 1
  {
  }

  /** Popping from a buffer that is not empty: advancing the read index and
      clearing the full flag takes one from the count. */
  lemma {:induction false} CountAfterPop(n: nat, h: int, t: int, full: bool)
    requires 0 <= h < n && 0 <= t < n
    requires full ==> h == t
    requires Count(n, h, t, full) > 0
    ensures Count(n, h, Advance(n, t), false) == Count(n, h, t, full) - 1
  {
  }

  /** The slot written by a push is the one just past the live region, and the
      slot `back()` reads is the last live one. */
  lemma {:induction false} WriteSlotFollowsLive(n: nat, h: int, t: int, full: bool)
    requires 0 <= h < n && 0 <= t < n
    requires full ==> h == t
    ensures !full ==> Offset(n, t, h) == Count(n, h, t, full)
    ensures Count(n, h, t, full) > 0 ==> LastSlot(n, h) == Slot(n, t, Count(n, h, t, full) - 1)
  {
    var c := Count(n, h, t, full);
    if c > 0 {
      ModUnique(c - 1, n, 0, c - 1);
    }
  }

  /** After the read index moves on by one, every other slot is one position
      nearer the front. */
  lemma {:induction false} OffsetAfterAdvance(n: nat, t: int, j: int)
    requires 0 <= t < n && 0 <= j < n && j != t
    ensures Offset(n, Advance(n, t), j) == Offset(n, t, j) - 1
  {
  }

  /** Moving the read index on by one shifts every logical position by one. */
  lemma {:induction false} SlotAfterAdvance(n: nat, t: int, i: int)
    requires 0 <= t < n && 0 <= i && i + 1 < n
    ensures Slot(n, Advance(n, t), i) == Slot(n, t, i + 1)
  {
    ModUnique(i, n, 0, i);
    ModUnique(i + 1, n, 0, i + 1);
  }
}
