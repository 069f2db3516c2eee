/** Clients of the buffer that replay the scenarios of
    tests/circ_buffer_test.cpp on a capacity-3 buffer of `int`, using only
    the contracts of `CircBuffer`. `0` is `int{}`. */
module Scenarios {
  import opened CircularBuffer

  /** One push, then one pop back to the empty state, on any empty buffer
      with room for two elements (the template `one_element`). */
  method OneElement(c: CircBuffer<int>)
    requires c.Valid() && c.N >= 2 && c.Empty()
    modifies c, c.d
    ensures c.Valid() && c.Empty() && c.h == 0 && c.t == 0
  {
    assert c.Size() == 0 && !c.Full() && c.Empty();
    c.Push(1);
    assert c.Size() == 1 && !c.Full() && !c.Empty();
    assert c.At(0) == 1 && c.Front() == 1 && c.Back() == 1;
    c.Pop();
    assert c.Size() == 0 && !c.Full() && c.Empty();
  }

  /** `one_element` on a fresh capacity-3 buffer. */
  method OneElementTest() returns (c: CircBuffer<int>)
    ensures fresh(c) && c.Valid() && c.Empty()
  {
    c := new CircBuffer<int>(3, 0);
    OneElement(c);
  }

  /** Two pushes, then the pops drain the buffer from the front. */
  method TwoElements() returns (c: CircBuffer<int>)
    ensures fresh(c) && c.Valid() && c.Empty()
  {
    c := new CircBuffer<int>(3, 0);
    c.Push(1);
    c.Push(2);
    assert c.Size() == 2 && !c.Full() && !c.Empty();
    assert c.Front() == 1 && c.Back() == 2 && c.At(0) == 1 && c.At(1) == 2;
    c.Pop();
    assert c.At(0) == 2 && c.Size() == 1 && !c.Full() && !c.Empty();
    assert c.Front() == 2 && c.Back() == 2;
    c.Pop();
    assert c.Size() == 0 && !c.Full() && c.Empty();
  }

  /** A push into a full buffer is dropped; after a pop the next push wraps
      round the end of the array, and indexing still follows insertion
      order. Draining returns both indices to 0. */
  method FullAndRollover() returns (c: CircBuffer<int>)
    ensures fresh(c) && c.Valid() && c.Empty() && c.h == 0 && c.t == 0
  {
    c := new CircBuffer<int>(3, 0);
    c.Push(1);
    c.Push(2);
    c.Push(3);
    assert c.Contents == [1, 2, 3] && c.isFull && c.t == 0;
    c.Push(4);
    assert c.Contents == [1, 2, 3];
    assert c.Size() == 3 && c.Full() && !c.Empty();
    assert c.Front() == 1 && c.Back() == 3;
    assert c.At(0) == 1 && c.At(1) == 2 && c.At(2) == 3;
    RolloverAfterPop(c);
  }

  /** The second half of the scenario above, from the full buffer holding
      1, 2, 3: a pop, a push that wraps round, and the final drain. */
  method RolloverAfterPop(c: CircBuffer<int>)
    requires c.Valid() && c.N == 3 && c.Contents == [1, 2, 3] && c.t == 0
    modifies c, c.d
    ensures c.Valid() && c.Empty() && c.h == 0 && c.t == 0
  {
    c.Pop();
    assert c.Contents == [2, 3] && c.t == 1;
    assert c.Size() == 2 && !c.Full() && !c.Empty();
    assert c.Front() == 2 && c.Back() == 3 && c.At(0) == 2 && c.At(1) == 3;

    c.Push(4);
    assert c.Contents == [2, 3, 4] && c.t == 1;
    assert c.Size() == 3 && c.Full() && !c.Empty();
    assert c.Front() == 2 && c.Back() == 4;
    assert c.At(0) == 2 && c.At(1) == 3 && c.At(2) == 4;

    c.Pop();
    assert c.Contents == [3, 4];
    assert c.Size() == 2 && !c.Full() && !c.Empty();
    assert c.Front() == 3 && c.Back() == 4 && c.At(0) == 3 && c.At(1) == 4;

    c.Pop();
    c.Pop();
    assert c.Size() == 0 && !c.Full() && c.Empty();
    assert c.h == 0 && c.t == 0;
  }

  /** Range-for over a buffer filled with 1, 2, 3: `begin()` and `end()`
      carry the same raw index, so the loop body never runs although the
      buffer holds three elements. */
  method IterateFull() returns (yielded: seq<int>, size: int)
    ensures yielded == [] && size == 3
  {
    var c := new CircBuffer<int>(3, 0);
    c.Push(1);
    c.Push(2);
    c.Push(3);
    yielded := c.Traverse();
    size := c.Size();
    var logical := c.TraverseLogical();
    assert logical == [1, 2, 3];
  }

  /** Range-for after pushing 1, 2 and popping once: the live contents are
      [2], but the single step dereferences raw index 1 through
      `operator[]`, which adds `t == 1` again and reads the cleared slot 2. */
  method IterateAfterPop() returns (yielded: seq<int>, front: int)
    ensures yielded == [0] && front == 2
  {
    var c := new CircBuffer<int>(3, 0);
    c.Push(1);
    c.Push(2);
    c.Pop();
    yielded := c.Traverse();
    front := c.Front();
    var logical := c.TraverseLogical();
    assert logical == [2];
  }

  /** Push 1, 2, 3 and pop twice: one element is left, with the write index
      0 below the read index 2. A range-for would start at raw index 2 and
      count up, never meeting `end()` at raw index 0; the logical iteration
      yields the one element. `RawIndexNeverMeetsEnd` states the first
      point for every number of steps. */
  method IterateWrapped() returns (begin: int, end: int, logical: seq<int>)
    ensures begin == 2 && end == 0 && logical == [3]
  {
    var c := new CircBuffer<int>(3, 0);
    c.Push(1);
    c.Push(2);
    c.Push(3);
    c.Pop();
    c.Pop();
    var b := c.Begin();
    var e := c.End();
    begin, end := b.idx, e.idx;
    logical := c.TraverseLogical();
  }
}
