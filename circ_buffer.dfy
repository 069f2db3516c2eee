/** `utils::CircBuffer<T, N>`: a ring buffer of capacity `N` stored in a
    fixed array, with a write index `h`, a read index `t` and a flag that
    tells a full buffer from an empty one when the two indices meet.

    The ghost sequence `Contents` is the public view: the live elements from
    the oldest (at slot `t`) to the newest (just before slot `h`). `Zero`
    stands for the value-initialised element `T{}`, which circ_buffer.h uses
    to fill the array at construction and to clear a slot on `pop`. */
module CircularBuffer {
  import opened RingIndex

  class CircBuffer<T> {
    const N: nat
    const Zero: T
    const d: array<T>
    var h: int
    var t: int
    var isFull: bool
    ghost var Contents: seq<T>

    /** The object invariant: indices in range, the full flag only where the
        indices meet, the empty state always at index 0, and the live
        elements read from the array starting at `t` with wraparound. */
    ghost predicate Valid()
      reads this, d
    {
      d.Length == N && Layout(N, h, t, isFull, d[..], Contents)
    }

    /** Every slot outside the live region holds `T{}`. It holds from
        construction on and `Push` and `Pop` keep it; a write through
        `operator[]` past the live region may break it. */
    ghost predicate Clean()
      reads this, d
      requires Valid()
    {
      Cleared(N, t, |Contents|, d[..], Zero)
    }

    /** A fresh buffer: every slot value-initialised, both indices 0. */
    constructor (n: nat, zero: T)
      requires n >= 1
      ensures Valid() && Clean() && fresh(d)
      ensures N == n && Zero == zero && Contents == []
      ensures h == 0 && t == 0 && !isFull
      ensures forall j :: 0 <= j < n ==> d[j] == zero
    {
      N, Zero := n, zero;
      d := new T[n](_ => zero);
      h, t, isFull := 0, 0, false;
      Contents := [];
    }

    /** `empty()` */
    function Empty(): (r: bool)
      reads this, d
      requires Valid()
      ensures r <==> Contents == []
      ensures r ==> h == 0 && t == 0
    {
      h == t && !isFull
    }

    /** `full()` */
    function Full(): (r: bool)
      reads this, d
      requires Valid()
      ensures r <==> |Contents| == N
      ensures r ==> h == t
    {
      isFull
    }

    /** `size()` */
    function Size(): (r: int)
      reads this, d
      requires Valid()
      ensures r == |Contents|
      ensures 0 <= r <= N
      ensures r == if isFull then N else (h - t) % N
    {
      Count(N, h, t, isFull)
    }

    /** `front()`: the oldest element; on an empty buffer the cleared slot 0. */
    function Front(): (r: T)
      reads this, d
      requires Valid()
      ensures Contents != [] ==> r == Contents[0]
      ensures Contents == [] && Clean() ==> r == Zero
    {
      assert Slot(N, t, 0) == t;
      d[t]
    }

    /** `back()`: the newest element; on an empty buffer the cleared last slot. */
    function Back(): (r: T)
      reads this, d
      requires Valid()
      ensures Contents != [] ==> r == Contents[|Contents| - 1]
      ensures Contents == [] && Clean() ==> r == Zero
    {
      WriteSlotFollowsLive(N, h, t, isFull);
      d[LastSlot(N, h)]
    }

    /** `operator[](idx)`: logical index `idx` reduced modulo `N`, with no
        check against `size()`. Below the size it reads the live element; past
        it, a slot outside the live region. */
    function At(idx: int): (r: T)
      reads this, d
      requires Valid() && idx >= 0
      ensures idx % N < |Contents| ==> r == Contents[idx % N]
      ensures Clean() && idx % N >= |Contents| ==> r == Zero
    {
      ModUnique(idx % N, N, 0, idx % N);
      OffsetOfSlot(N, t, idx % N);
      d[Slot(N, t, idx)]
    }

    /** Assignment through the reference `operator[](idx)` returns; also
        through `front()` (index 0) and `back()` (index `size() - 1` on a
        non-empty buffer, index `N - 1` on an empty one). */
    method Set(idx: int, v: T)
      requires Valid() && idx >= 0
      modifies d, this`Contents
      ensures Valid()
      ensures d[..] == old(d[..])[Slot(N, t, idx) := v]
      ensures Contents == if idx % N < |old(Contents)| then old(Contents)[idx % N := v] else old(Contents)
      ensures old(Clean()) && (idx % N < |Contents| || v == Zero) ==> Clean()
    {
      SetKeepsLayout(N, h, t, isFull, d[..], Contents, idx, v);
      if Clean() {
        SetKeepsCleared(N, t, |Contents|, d[..], idx, v, Zero);
      }
      d[Slot(N, t, idx)] := v;
      if idx % N < |Contents| {
        Contents := Contents[idx % N := v];
      }
    }

    /** `push(e)` (both overloads): dropped when full; otherwise `e` goes to
        slot `h`, `h` moves on with wraparound, and the buffer becomes full
        when `h` meets `t`. */
    method Push(e: T)
      requires Valid()
      modifies this, d
      ensures Valid()
      ensures old(isFull) ==>
        h == old(h) && t == old(t) && isFull && d[..] == old(d[..]) && Contents == old(Contents)
      ensures !old(isFull) ==>
        d[..] == old(d[..])[old(h) := e] &&
        h == (old(h) + 1) % N && t == old(t) && isFull == (h == t) &&
        Contents == old(Contents) + [e]
      ensures !old(isFull) ==> Back() == e
      ensures old(Clean()) ==> Clean()
    {
      if isFull {
        return;
      }
      PushKeepsLayout(N, h, t, d[..], Contents, e);
      if Clean() {
        WriteSlotFollowsLive(N, h, t, isFull);
        PushKeepsCleared(N, t, h, |Contents|, d[..], e, Zero);
      }
      d[h] := e;
      h := h + 1;
      if h == N {
        h := 0;
      }
      if h == t {
        isFull := true;
      }
      Contents := Contents + [e];
    }

    /** `pop()`: a no-op when empty; otherwise slot `t` is reset to `T{}`,
        the full flag cleared and `t` moved on, and a drained buffer returns
        to the canonical empty state `h == t == 0`. */
    method Pop()
      requires Valid()
      modifies this, d
      ensures Valid()
      ensures old(Contents) == [] ==>
        h == old(h) && t == old(t) && isFull == old(isFull) &&
        d[..] == old(d[..]) && Contents == old(Contents)
      ensures old(Contents) != [] ==>
        d[..] == old(d[..])[old(t) := Zero] && !isFull &&
        Contents == old(Contents)[1..] &&
        if Contents == [] then h == 0 && t == 0
        else h == old(h) && t == (old(t) + 1) % N
      ensures old(Clean()) ==> Clean()
    {
      if Empty() {
        return;
      }
      PopKeepsLayout(N, h, t, isFull, d[..], Contents, Zero);
      if Clean() {
        PopKeepsCleared(N, t, h, |Contents|, d[..], Zero);
      }
      d[t] := Zero;
      t := t + 1;
      isFull := false;
      if t == N {
        t := 0;
      }
      if t == h {
        t, h := 0, 0;
      }
      Contents := Contents[1..];
    }

    /** `begin()`: an iterator at the raw read index. */
    method Begin() returns (it: Iterator<T>)
      ensures fresh(it) && it.buf == this && it.idx == t
    {
      it := new Iterator(this, t);
    }

    /** `end()`: an iterator at the raw write index. */
    method End() returns (it: Iterator<T>)
      ensures fresh(it) && it.buf == this && it.idx == h
    {
      it := new Iterator(this, h);
    }

    /** A range-for over the buffer as circ_buffer.h defines it: from `begin()`
        while the iterator differs from `end()`, dereferencing and advancing.
        When `h < t` the index never meets `end()` (see the README), so that
        case is excluded. What it yields is `h - t` elements starting at
        slot `2t`, not the live contents: nothing at all for a full buffer,
        and the live contents only when `t == 0`. */
    method Traverse() returns (out: seq<T>)
      requires Valid() && t <= h
      ensures |out| == h - t
      ensures forall k :: 0 <= k < |out| ==> out[k] == d[(2 * t + k) % N]
      ensures isFull ==> out == []
      ensures t == 0 && !isFull ==> out == Contents
    {
      var it := Begin();
      var last := End();
      out := [];
      while !it.Equals(last)
        invariant fresh(it) && it != last
        invariant it.buf == this && last.buf == this && last.idx == h
        invariant t <= it.idx <= h
        invariant |out| == it.idx - t
        invariant forall k :: 0 <= k < |out| ==> out[k] == d[Slot(N, t, t + k)]
        decreases h - it.idx
      {
        var e := it.Get();
        out := out + [e];
        it.Next();
      }
    }

    /** The iteration the container is meant to offer: logical offsets from
        0 up to `size()`, each dereferenced through `operator[]`. */
    method TraverseLogical() returns (out: seq<T>)
      requires Valid()
      ensures out == Contents
    {
      var it := new Iterator(this, 0);
      var last := new Iterator(this, Size());
      out := [];
      while !it.Equals(last)
        invariant fresh(it) && it != last
        invariant it.buf == this && last.buf == this && last.idx == |Contents|
        invariant 0 <= it.idx <= |Contents|
        invariant out == Contents[..it.idx]
        decreases |Contents| - it.idx
      {
        var e := it.Get();
        out := out + [e];
        it.Next();
      }
    }
  }

  /** The layout behind `CircBuffer.Valid()`, over the array's contents `s`
      and the live elements `c`: indices in range, the full flag only where
      the indices meet, the empty state always at index 0, and element `i` of
      `c` in slot `(t + i) mod n`. */
  ghost predicate Layout<T>(n: nat, h: int, t: int, full: bool, s: seq<T>, c: seq<T>)
  {
    n >= 1 && |s| == n &&
    0 <= h < n && 0 <= t < n &&
    (full ==> h == t) &&
    (h == t && !full ==> h == 0) &&
    |c| == Count(n, h, t, full) &&
    forall i :: 0 <= i < |c| ==> c[i] == s[Slot(n, t, i)]
  }

  /** The slots of `s` outside the `len` live ones that start at `t` all
      hold `zero`. */
  ghost predicate Cleared<T>(n: nat, t: int, len: int, s: seq<T>, zero: T)
    requires 0 <= t < n == |s|
  {
    forall j :: 0 <= j < n && Offset(n, t, j) >= len ==> s[j] == zero
  }

  /** A push into a buffer that is not full: writing `e` at `h`, advancing
      `h` and setting the flag when it meets `t` appends `e` to the live
      elements. */
  lemma PushKeepsLayout<T>(n: nat, h: int, t: int, s: seq<T>, c: seq<T>, e: T)
    requires Layout(n, h, t, false, s, c)
    ensures Layout(n, Advance(n, h), t, Advance(n, h) == t, s[h := e], c + [e])
  {
    WriteSlotFollowsLive(n, h, t, false);
    CountAfterPush(n, h, t);
    forall i | 0 <= i < |c|
      ensures Slot(n, t, i) != h
    {
      OffsetOfSlot(n, t, i);
    }
  }

  /** A pop from a buffer that is not empty: clearing slot `t`, advancing
      `t` and clearing the flag drops the first live element; when that
      drains the buffer, the indices reset to 0 keep the layout. */
  lemma PopKeepsLayout<T>(n: nat, h: int, t: int, full: bool, s: seq<T>, c: seq<T>, zero: T)
    requires Layout(n, h, t, full, s, c) && c != []
    ensures Advance(n, t) == h ==> c[1..] == [] && Layout(n, 0, 0, false, s[t := zero], c[1..])
    ensures Advance(n, t) != h ==> Layout(n, h, Advance(n, t), false, s[t := zero], c[1..])
  {
    var t1 := Advance(n, t);
    CountAfterPop(n, h, t, full);
    forall i | 0 <= i < |c| - 1
      ensures Slot(n, t1, i) != t && c[i + 1] == s[Slot(n, t1, i)]
    {
      SlotAfterAdvance(n, t, i);
      OffsetOfSlot(n, t, i + 1);
    }
  }

  /** A write through `operator[](idx)` keeps the layout, replacing live
      element `idx mod n` when there is one. */
  lemma SetKeepsLayout<T>(n: nat, h: int, t: int, full: bool, s: seq<T>, c: seq<T>, idx: int, v: T)
    requires Layout(n, h, t, full, s, c) && idx >= 0
    ensures Layout(n, h, t, full, s[Slot(n, t, idx) := v],
                   if idx % n < |c| then c[idx % n := v] else c)
  {
    ModUnique(idx % n, n, 0, idx % n);
    OffsetOfSlot(n, t, idx % n);
    forall i | 0 <= i < |c|
      ensures Offset(n, t, Slot(n, t, i)) == i
    {
      OffsetOfSlot(n, t, i);
    }
  }

  /** Writing the slot just past the live elements keeps the rest of the
      region outside them cleared. */
  lemma PushKeepsCleared<T>(n: nat, t: int, h: int, len: int, s: seq<T>, e: T, zero: T)
    requires 0 <= t < n == |s| && 0 <= h < n
    requires Offset(n, t, h) == len
    requires Cleared(n, t, len, s, zero)
    ensures Cleared(n, t, len + 1, s[h := e], zero)
  {
  }

  /** Clearing the vacated slot keeps the region outside the live elements
      cleared, whether the read index moves on by one or, when the last
      element goes, both indices return to 0. */
  lemma PopKeepsCleared<T>(n: nat, t: int, h: int, len: int, s: seq<T>, zero: T)
    requires 0 <= t < n == |s| && 0 <= h < n
    requires 1 <= len
    requires Advance(n, t) == h ==> len == 1
    requires Cleared(n, t, len, s, zero)
    ensures Advance(n, t) == h ==> Cleared(n, 0, 0, s[t := zero], zero)
    ensures Advance(n, t) != h ==> Cleared(n, Advance(n, t), len - 1, s[t := zero], zero)
  {
    forall j | 0 <= j < n && j != t
      ensures Offset(n, t, j) >= 1
      ensures Offset(n, Advance(n, t), j) == Offset(n, t, j) - 1
    {
      OffsetOfSlot(n, t, 0);
      OffsetAfterAdvance(n, t, j);
    }
  }

  /** A write through `operator[](idx)` inside the live elements, or of
      `zero` anywhere, keeps the region outside them cleared. */
  lemma SetKeepsCleared<T>(n: nat, t: int, len: int, s: seq<T>, idx: int, v: T, zero: T)
    requires 0 <= t < n == |s| && idx >= 0
    requires Cleared(n, t, len, s, zero)
    ensures idx % n < len || v == zero ==> Cleared(n, t, len, s[Slot(n, t, idx) := v], zero)
  {
    ModUnique(idx % n, n, 0, idx % n);
    OffsetOfSlot(n, t, idx % n);
  }

  /** The nested `iterator`: a buffer reference and a raw index that `++`
      increments without wrapping; dereferencing goes through `operator[]`. */
  class Iterator<T> {
    const buf: CircBuffer<T>
    var idx: int

    constructor (b: CircBuffer<T>, i: int)
      ensures buf == b && idx == i
    {
      buf, idx := b, i;
    }

    /** Prefix `++`. */
    method Next()
      modifies this
      ensures idx == old(idx) + 1
    {
      idx := idx + 1;
    }

    /** Postfix `++`: a copy at the old position, this one moved on. */
    method NextPost() returns (prev: Iterator<T>)
      modifies this
      ensures fresh(prev) && prev.buf == buf && prev.idx == old(idx)
      ensures idx == old(idx) + 1
    {
      prev := new Iterator(buf, idx);
      idx := idx + 1;
    }

    /** `*`: the element `operator[]` gives for the raw index. */
    function Get(): (r: T)
      reads this, buf, buf.d
      requires buf.Valid() && idx >= 0
      ensures idx % buf.N < |buf.Contents| ==> r == buf.Contents[idx % buf.N]
      ensures buf.Clean() && idx % buf.N >= |buf.Contents| ==> r == buf.Zero
    {
      buf.At(idx)
    }

    /** `==`: same buffer and same raw index (`!=` is its negation). */
    predicate Equals(other: Iterator<T>)
      reads this, other
    {
      buf == other.buf && idx == other.idx
    }
  }

  /** `begin() == end()` exactly when the buffer is empty or full: the two
      iterators share the buffer, and the raw indices `t` and `h` coincide in
      just those two states. */
  lemma BeginMeetsEnd<T>(b: CircBuffer<T>, first: Iterator<T>, last: Iterator<T>)
    requires b.Valid()
    requires first.buf == b && first.idx == b.t
    requires last.buf == b && last.idx == b.h
    ensures first.Equals(last) <==> (b.Contents == [] || |b.Contents| == b.N)
  {
  }

  /** When the write index lies below the read index, an iterator that
      started at `begin()` and took any number `k` of `++` steps (raw index
      `t + k`) is never equal to `end()` (raw index `h`), so a range-for
      over the buffer does not end. */
  lemma RawIndexNeverMeetsEnd<T>(b: CircBuffer<T>, it: Iterator<T>, last: Iterator<T>, k: nat)
    requires b.Valid() && b.h < b.t
    requires it.buf == b && it.idx == b.t + k
    requires last.buf == b && last.idx == b.h
    ensures !it.Equals(last)
  {
  }
}
