# utils::CircBuffer in Dafny

A model of `utils::CircBuffer<T, N>` from `circ_buffer.h`: a fixed-capacity
ring buffer over an array of `N` slots. It has a write index `_h`, a read
index `_t` and a `_full` flag, which tells a full buffer from an empty one
when the two indices meet. `push` appends at the write index and silently
drops the element when the buffer is full. `pop` clears the slot at the read
index, does nothing on an empty buffer, and moves both indices back to 0
when the buffer drains. `front`, `back` and `operator[]` read the live
elements with wraparound. A nested iterator walks raw indices from `begin()`
(at `_t`) to `end()` (at `_h`).

Files:

- `ring_index.dfy` (module `RingIndex`): the index arithmetic of the header,
  written with branches and subtraction as the C++ does. Each contract states
  what the value means modulo `N`. The module also holds the lemmas that
  `push` and `pop` need about counts and slots.
- `circ_buffer.dfy` (module `CircularBuffer`): class `CircBuffer<T>` and class
  `Iterator<T>`.
  - The fields are `d` (the array), `h`, `t` and `isFull`. The ghost sequence
    `Contents` holds the live elements, oldest first.
  - `Valid()` ties `Contents` to the array and the indices through the
    predicate `Layout` over `d[..]`. It also states that the full flag is
    only set when `h == t`, and that an empty buffer always has
    `h == t == 0`. The lemmas `PushKeepsLayout`, `PopKeepsLayout` and
    `SetKeepsLayout` prove that the three writers keep it.
  - `Clean()` states that every slot outside the live region holds `T{}`.
  - The queries are functions. `Push`, `Pop` and `Set` (a write through
    `operator[]`) are methods that update the array in place.
- `scenarios.dfy` (module `Scenarios`): the scenarios of
  `tests/circ_buffer_test.cpp` replayed as client methods. They use only the
  contracts of the class.

`T{}` has no generic counterpart in Dafny. So the constructor takes the
value-initialised element as a parameter and keeps it as `Zero`. The
capacity `N` is a constructor parameter, at least 1, and never changes.
Iterator equality (`operator==`) is `Iterator.Equals`: the same buffer
object and the same raw index. `operator!=` is its negation.
`BeginMeetsEnd` states what this means for `begin()` and `end()`: they
compare equal exactly when the buffer is empty or full.

Iteration follows the code, not the behaviour the tests expect. The code does not
yield the live contents in general. `begin()` and `end()` carry the raw
indices `_t` and `_h`, and dereferencing passes the raw index to
`operator[]`, which adds `_t` once more. `Traverse` models a range-for loop
exactly as written. `TraverseLogical` is the iteration the container is meant
to offer, and it yields exactly `Contents`. See "## Findings".

## Model

| member | source | states |
|---|---|---|
| `RingIndex.Advance` | circ_buffer.h:53-55 | stepping an index (`_h++`, then reset to 0 at `N`) gives `(i + 1) mod N`, within `[0, N)` |
| `RingIndex.Count` | circ_buffer.h:43-49 | the size is `N` when full and `(h - t) mod N` otherwise; it lies in `[0, N]` and is 0 exactly when `h == t` and the flag is clear |
| `RingIndex.Slot` | circ_buffer.h:95-100 | `operator[]`'s reduce-then-subtract-once computation reaches physical slot `(t + idx) mod N` |
| `RingIndex.LastSlot` | circ_buffer.h:79-83 | `back()`'s slot is `(h - 1) mod N` |
| `RingIndex.CountAfterPush` | circ_buffer.h:53-57 | on a non-full buffer, the count after `h` advances (with the flag set when `h` meets `t`) is one more than before |
| `RingIndex.CountAfterPop` | circ_buffer.h:72-77 | on a non-empty buffer, advancing `t` and clearing the flag takes one from the count |
| `RingIndex.WriteSlotFollowsLive` | circ_buffer.h:53 | the slot a push writes is logical position `size()`, just past the live elements, and, on a non-empty buffer, `back()`'s slot is logical position `size() - 1` |
| `RingIndex.SlotAfterAdvance` | circ_buffer.h:72-75 | after `t` moves on by one, logical position `i` is the slot that was position `i + 1` |
| `CircularBuffer.PushKeepsLayout` | circ_buffer.h:53-57 | writing `e` at `h`, advancing `h` and setting the flag when it meets `t` keeps the layout invariant and appends `e` to the live elements |
| `CircularBuffer.PopKeepsLayout` | circ_buffer.h:72-77 | clearing slot `t`, advancing `t` and clearing the flag keeps the layout invariant and drops the first live element; when the buffer drains, the reset to `h == t == 0` keeps it too |
| `CircularBuffer.SetKeepsLayout` | circ_buffer.h:95-100 | a write through `operator[](idx)` keeps the layout invariant and replaces live element `idx mod N` if there is one |
| `CircularBuffer.PushKeepsCleared` | circ_buffer.h:53 | writing the slot just past the live elements leaves every other free slot at `T{}` |
| `CircularBuffer.PopKeepsCleared` | circ_buffer.h:72-77 | clearing the vacated slot keeps every slot outside the live region equal to `T{}`, both when `t` advances and when the drained buffer resets to index 0 |
| `CircularBuffer.SetKeepsCleared` | circ_buffer.h:95-100 | a write through `operator[](idx)` keeps the free slots at `T{}` when it lands inside the live elements or writes `T{}` |
| `CircularBuffer.CircBuffer.constructor` | circ_buffer.h:36-39 | a new buffer is empty, with `h == t == 0`, the flag clear and every slot `T{}` |
| `CircularBuffer.CircBuffer.Empty` | circ_buffer.h:41 | `empty()` holds exactly when there are no live elements, and then `h == t == 0` |
| `CircularBuffer.CircBuffer.Full` | circ_buffer.h:42 | `full()` holds exactly when there are `N` live elements, and then `h == t` |
| `CircularBuffer.CircBuffer.Size` | circ_buffer.h:43-49 | `size()` is the number of live elements, between 0 and `N`, and equals `N` when full and `(h - t) mod N` otherwise |
| `CircularBuffer.CircBuffer.Front` | circ_buffer.h:89-94 | `front()` is the oldest live element; on an empty buffer whose free slots are clear it is `T{}` |
| `CircularBuffer.CircBuffer.Back` | circ_buffer.h:79-88 | `back()` is the newest live element; on an empty buffer whose free slots are clear it is `T{}` |
| `CircularBuffer.CircBuffer.At` | circ_buffer.h:95-106 | `operator[](idx)` is live element `idx mod N` when that is below `size()`; otherwise, with clear free slots, `T{}` (no bounds check) |
| `CircularBuffer.CircBuffer.Set` | circ_buffer.h:95-100 | writing through `operator[](idx)` changes only slot `(t + idx) mod N`; it replaces live element `idx mod N` when that is below `size()` and leaves the contents alone otherwise; free slots stay clear unless the write goes past `size()` with a value other than `T{}` |
| `CircularBuffer.CircBuffer.Push` | circ_buffer.h:50-67 | on a full buffer nothing changes; otherwise only slot `h` changes (to `e`), `h` becomes `(h + 1) mod N`, `t` stays, the flag is set exactly when `h` meets `t`, `e` is appended to the contents and `back()` is `e`; free slots stay clear |
| `CircularBuffer.CircBuffer.Pop` | circ_buffer.h:68-78 | on an empty buffer nothing changes; otherwise only slot `t` changes (to `T{}`), the flag is cleared and the first element leaves the contents; `t` becomes `(t + 1) mod N` with `h` kept, or both become 0 when the buffer drains; free slots stay clear |
| `CircularBuffer.CircBuffer.Begin` | circ_buffer.h:121-126 | `begin()` is a new iterator over this buffer at raw index `t` |
| `CircularBuffer.CircBuffer.End` | circ_buffer.h:127-132 | `end()` is a new iterator over this buffer at raw index `h` |
| `CircularBuffer.CircBuffer.Traverse` | circ_buffer.h:108-132 | a range-for from `begin()` to `end()` with `t <= h` yields `h - t` elements, the k-th being slot `(2t + k) mod N`: nothing for a full buffer, and the contents only when `t == 0` |
| `CircularBuffer.CircBuffer.TraverseLogical` | circ_buffer.h:108-132 | iterating logical offsets 0 to `size()` through `operator[]` yields exactly the contents, oldest first |
| `CircularBuffer.Iterator.constructor` | circ_buffer.h:113 | an iterator holds the given buffer and index |
| `CircularBuffer.Iterator.Next` | circ_buffer.h:114 | prefix `++` adds one to the raw index, with no wraparound |
| `CircularBuffer.Iterator.NextPost` | circ_buffer.h:115 | postfix `++` returns a copy at the old index and moves this iterator on by one |
| `CircularBuffer.Iterator.Get` | circ_buffer.h:116 | `*` is what `operator[]` gives for the raw index: live element `idx mod N` below `size()`, else `T{}` while the free slots are clear |
| `CircularBuffer.BeginMeetsEnd` | circ_buffer.h:117-132 | `==` compares the buffer object and the raw index, so `begin() == end()` holds exactly when the buffer is empty or full |
| `CircularBuffer.RawIndexNeverMeetsEnd` | circ_buffer.h:114-132 | on a valid buffer with `h < t`, an iterator over it at raw index `t + k`, reached from `begin()` after any number `k` of `++` steps, is never `==` to `end()` at raw index `h` |
| `Scenarios.OneElement` | tests/circ_buffer_test.cpp:32-48 | on an empty buffer of capacity at least 2: after one push, `size()` is 1, not full, not empty, and `[0]`, `front()` and `back()` are the pushed value; after one pop, the buffer is empty again with both indices 0 |
| `Scenarios.OneElementTest` | tests/circ_buffer_test.cpp:50-53 | `one_element` on a fresh capacity-3 buffer leaves it empty |
| `Scenarios.TwoElements` | tests/circ_buffer_test.cpp:55-81 | after two pushes, `size()` is 2 with `front()`/`[0]` the first and `back()`/`[1]` the second; after one pop, the second is at the front and the back; after the second pop, the buffer is empty |
| `Scenarios.FullAndRollover` | tests/circ_buffer_test.cpp:83-97 | pushing 1, 2, 3, 4 at capacity 3 drops 4: `size()` is 3, full, `front()` 1, `back()` 3, `[0..2]` are 1, 2, 3; the rest of the test then drains the buffer to `h == t == 0` |
| `Scenarios.RolloverAfterPop` | tests/circ_buffer_test.cpp:99-132 | from a full buffer holding 1, 2, 3: a pop leaves 2, 3; a push of 4 wraps round to give 2, 3, 4 in `[0..2]` with `back()` 4; the pops leave 3, 4, then an empty buffer with both indices 0 |
| `Scenarios.IterateWrapped` | circ_buffer.h:121-132 | after pushing 1, 2, 3 and popping twice at capacity 3, `begin()` is at raw index 2 and `end()` at raw index 0, so a range-for never ends, while the logical iteration yields 3 |
| `Scenarios.IterateFull` | tests/circ_buffer_test.cpp:135-145 | after pushing 1, 2, 3 into a capacity-3 buffer, a range-for yields nothing while `size()` is 3 |
| `Scenarios.IterateAfterPop` | circ_buffer.h:116-123 | after pushing 1, 2 and popping once, a range-for yields the cleared value 0 while `front()` is 2 |

## Left out

- Copy versus move `push`: the two overloads (circ_buffer.h:50-67) have the same control flow and are modelled by one `Push`. Move semantics have no Dafny counterpart.
- Const and non-const overload pairs and returning references: reads are functions. Writes through the references of `operator[]`, `front()` and `back()` are `Set`. `front()` is index 0. `back()` is index `size() - 1` on a non-empty buffer and index `N - 1` on an empty one.
- A negative index in `operator[]`: C++ `%` keeps the sign, so the computed slot can fall outside the array. `At`, `Set` and `Iterator.Get` require `idx >= 0`.
- CircularBuffer.CircBuffer.Traverse: requires `t <= h`. When `h < t`, the iterator's index starts above `end()`'s index and only grows, so it never meets `end()` (`RawIndexNeverMeetsEnd`; third row of "## Findings"). The loop would run until `int` overflows, which is undefined behaviour with no result to model.
- `int` width: the model uses unbounded integers and so assumes `2N - 2 <= INT_MAX`. For a larger `N`, the sum `_t + idx` in `operator[]` (circ_buffer.h:96-98) can pass `INT_MAX`, which is undefined behaviour, while `Slot` still returns a valid slot. Under that bound the buffer's own indices and sums stay in `[0, 2N)`, and only the iterator's index can overflow, on the path excluded above.
- Pointer identity in iterator equality: modelled by Dafny reference equality of `buf`, and of nothing else.
- `constexpr` and template mechanics: `N` is a constructor parameter and `T{}` a constructor argument.
- CircularBuffer.CircBuffer.Front: the result on an empty buffer is stated as `T{}` only while `Clean()` holds. A write through `operator[]` past `size()` may leave a stale value there, as the C++ allows.
- Concurrency: the container is single-threaded and has no locking. Callers must synchronise.

## Findings

The test at tests/circ_buffer_test.cpp:142-144 expects a range-for over a
full buffer holding 1, 2, 3 to visit 1, 2, 3 in order. That is, iteration is
meant to visit the live elements, oldest first. The code does not do this.

| source | as written | input that shows it | evidently intended | confidence | as-written member | corrected member |
|---|---|---|---|---|---|---|
| circ_buffer.h:121-132 | `begin()` and `end()` carry the raw indices `_t` and `_h`, which are equal when the buffer is full, so the loop body never runs | capacity 3, push 1, 2, 3, then range-for | yields 1, 2, 3 | high; not executed | `Scenarios.IterateFull` | `CircularBuffer.CircBuffer.TraverseLogical` |
| circ_buffer.h:116 | dereference passes the raw index to `operator[]`, which adds `_t` again, so element k comes from slot `(2·_t + k) mod N` | capacity 3, push 1, 2, pop, then range-for | yields 2 | high; not executed | `Scenarios.IterateAfterPop` | `CircularBuffer.CircBuffer.TraverseLogical` |
| circ_buffer.h:121-132 | when the write index has wrapped below the read index, `begin()`'s raw index starts above `end()`'s and `++` only counts up, so the loop never ends (until `int` overflow) | capacity 3, push 1, 2, 3, pop, pop (leaves `_h == 0`, `_t == 2`), then range-for | yields 3 and stops | high; not executed | `Scenarios.IterateWrapped` | `CircularBuffer.CircBuffer.TraverseLogical` |
