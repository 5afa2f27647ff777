# Vector: a verified model of a contiguous, growable array

This project models `Vector<T, Allocator>` of `vector.cpp`: a container that
owns one buffer of `_capacity` slots, of which the first `_size` hold live,
constructed elements and the rest are raw memory. The model is a Dafny class
`Vectors.Vector` with the same three fields (`data`, `size`, `capacity`);
`data` is an `array?<Slot<T>>`, where a slot is either `Uninit` (raw memory,
or an element already destroyed) or `Live(value)`. Constructing an element
writes `Live`, destroying it writes `Uninit`.

The object invariant `Valid()` ties the buffer to a ghost sequence
`Elements` of the live elements: slots `[0, size)` hold them in order, slots
`[size, capacity)` are `Uninit`, `size <= capacity`, and there is a buffer
(`data != null`) exactly when `capacity > 0`. Every method keeps `Valid()`
and states its new `Elements`, `size`, `capacity` and buffer in terms of the
old ones; the one exception is `PushBackOwnAsWritten`, the as-written model
of the defect under "Findings", which states its new size, capacity and
buffer but on a full vector leaves an invalid state, as the source does.
A ghost counter `Moves` records how many elements have been relocated into
a new buffer, so that the cost of growth can be stated about the class
itself.

- `growth.dfy` (module `Growth`): the growth rule of `ensure_capacity` and the
  capacity and relocation cost it produces over a run of appends, with the
  doubling trace 0, 1, 2, 4, ... and the amortised bound proved.
- `vector.dfy` (module `Vectors`): the class, its three constructors, the
  destructor, the accessors, `reserve`, `shrink_to_fit`, `clear`,
  `push_back`, `pop_back`, `ensure_capacity`, and the relocation loop shared
  by `reserve` and `shrink_to_fit`.
- `scenarios.dfy` (module `Scenarios`): client code that derives, from the
  class contracts alone, the documented usage properties: appends follow the
  doubling trace, `at` and `operator[]` agree below the size, push-then-pop
  restores the contents, and the concrete
  scenarios (construct from `[1, 2, 3]`, three pushes, `(4, "x")`, clear then
  push, shrink after clear, `push_back(v[0])` on a full vector).

Modelling decisions:

- `at` returns `Checked<T>`: `Ok(value)` or `OutOfRange` in place of throwing
  `std::out_of_range`.
- `operator[]`, `front`, `back` and `pop_back` are undefined (or
  debug-asserted) outside their domain in the source; their Dafny
  counterparts `requires` the index to be in range or the vector nonempty.
- The const and non-const overloads of each accessor are one method, and the
  copy and move overloads of `push_back` are one method: with value semantics
  they do the same thing.
- `size_t` is modelled as `nat`.
- After `clear()` the buffer is kept, so an empty vector may still own a
  non-null buffer; only a vector with capacity 0 has none. The model follows
  the code here, not a reading of `data()` as null whenever the vector is
  empty.

## Model

| member | source | states |
|---|---|---|
| `Growth.Grow` | vector.cpp:312-317 | the capacity requested on growth is 1 when the current one is 0 and twice the current one otherwise; it is strictly larger than the current one, and a power of two whenever the current one is 0 or a power of two |
| `Growth.CapacityAfterPushesIsLeastPow2` | vector.cpp:247-257 | after n appends to an empty vector the capacity is 0 for n = 0 and otherwise a power of two with `n <= capacity < 2n`, i.e. the trace 0, 1, 2, 4, 8, ... |
| `Growth.CapacityAfterPushesMonotone` | vector.cpp:312-317 | under appends the capacity never decreases |
| `Growth.MovesAfterPushesBound` | vector.cpp:169-185 | n >= 1 appends relocate exactly `capacity - 1` elements in total, fewer than `2n` (amortised constant-time append) |
| `Vectors.Vector.Valid` | vector.cpp:29-31 | the object invariant implies `size <= capacity`, that `size` is the number of elements, and `data == null` exactly when `capacity == 0` |
| `Vectors.Vector.constructor` | vector.cpp:271 | the default constructor yields no elements, `size == capacity == 0` and a null buffer |
| `Vectors.Vector.FromList` | vector.cpp:273-285 | the initializer-list constructor yields `size` and `capacity` both equal to the number of items, and the elements equal `items` in order |
| `Vectors.Vector.Filled` | vector.cpp:287-293 | the (count, value) constructor yields `size == capacity == count` and every element equal to `value` |
| `Vectors.Vector.Destroy` | vector.cpp:295-304 | the destructor leaves no live element and every slot of the buffer destroyed |
| `Vectors.Vector.At` | vector.cpp:41-59 | `at(pos)` fails with out-of-range exactly when `pos >= size`, and otherwise yields the element at `pos` |
| `Vectors.Vector.Get` | vector.cpp:64-74 | for `pos < size`, `operator[](pos)` yields the element at `pos`, the same one `at(pos)` yields |
| `Vectors.Vector.Front` | vector.cpp:76-90 | on a nonempty vector `front()` is the element at index 0 |
| `Vectors.Vector.Back` | vector.cpp:92-106 | on a nonempty vector `back()` is the element at index `size - 1` |
| `Vectors.Vector.Empty` | vector.cpp:154-157 | `empty()` holds exactly when there are no elements |
| `Vectors.Vector.Size` | vector.cpp:159-161 | `size()` is the number of live elements |
| `Vectors.Vector.Capacity` | vector.cpp:190-192 | `capacity()` is the slot count, never below the size, and 0 exactly when there is no buffer |
| `Vectors.Vector.Reserve` | vector.cpp:163-188 | `reserve(n)` with `n <= capacity` changes neither the buffer nor size, capacity or elements; with `n > capacity` it gives a fresh buffer with `capacity == n`, the same size and the same elements in the same order, and every slot of the old buffer destroyed; only a growing call relocates, and it relocates `size` elements |
| `Vectors.Vector.ShrinkToFit` | vector.cpp:194-224 | `shrink_to_fit()` keeps the elements and gives `capacity == size`; it is a no-op when they were equal, leaves a null buffer when the vector is empty, and otherwise moves the elements into a fresh buffer, destroying every old slot and relocating `size` elements |
| `Vectors.Vector.Relocate` | vector.cpp:171-182 | the relocation loop leaves the first n slots of the new buffer equal to the old elements in order, every one of those old slots destroyed, and every other slot of both buffers untouched |
| `Vectors.Vector.Clear` | vector.cpp:232-245 | `clear()` destroys every element, sets the size to 0, and keeps the capacity and the buffer |
| `Vectors.Vector.PushBack` | vector.cpp:247-257 | `push_back(x)` appends x after the old elements; the capacity becomes 1 or twice the old one exactly when the vector was full, in which case the buffer is fresh, every slot of the old one is destroyed and `size` elements are relocated; otherwise the buffer is kept |
| `Vectors.Vector.PushBackOwnAsWritten` | vector.cpp:247-251 | `push_back(v[k])` as written: the size always grows by one and the capacity follows the doubling rule; on a vector with room it appends element k and keeps the invariant; on a full vector the referenced slot has been destroyed by the growth before it is read, the fresh buffer holds the old elements in order below the old size, the new slot is built from that destroyed slot, the slots after it are raw, and the object invariant no longer holds (see Findings) |
| `Vectors.Vector.PushBackOwn` | vector.cpp:247-251 | `push_back(v[k])` as intended: element k is appended whatever the capacity, with the same growth as `push_back`: the doubling rule, a fresh buffer with every old slot destroyed and `size` elements relocated when full, the same buffer otherwise |
| `Vectors.Vector.PopBack` | vector.cpp:259-265 | `pop_back()` on a nonempty vector removes the last element, keeps the rest in order, and keeps the capacity and the buffer |
| `Vectors.Vector.EnsureCapacity` | vector.cpp:312-317 | `ensure_capacity()` grows by the doubling rule exactly when `size == capacity` and always leaves room for one more element, keeping the elements; when it grows, the old buffer's slots are all destroyed and `size` elements are relocated |
| `Scenarios.AppendAll` | vector.cpp:247-257 | appending items one by one to a vector on the doubling trace appends them in order and keeps the capacity the least power of two not below the size; the elements relocated meanwhile are exactly those the append trace predicts, fewer than twice the number appended when starting empty |
| `Scenarios.AtMatchesIndex` | vector.cpp:41-74 | for every index below the size, `at(pos)` succeeds with exactly the element `operator[](pos)` yields |
| `Scenarios.PushThenPop` | vector.cpp:247-265 | `push_back` then `pop_back` restores the elements and the size, and the capacity does not shrink |

## Findings

| source | as written | input that shows it | evidently intended | confidence | as-written member | corrected member |
|---|---|---|---|---|---|---|
| vector.cpp:247-257 | both `push_back` overloads take `item` by reference and call `ensure_capacity` before constructing from it, so when `item` is an element of the same full vector it is read after `reserve` has destroyed it and freed its buffer, and `_size` is still incremented over a slot holding no element | a vector with `size == capacity == 1` holding 7, then `push_back(v[0])` | the element is copied (or the new element constructed) before the old buffer is released, so a copy of 7 is appended | not executed | `Vectors.Vector.PushBackOwnAsWritten` | `Vectors.Vector.PushBackOwn` |

## Left out

- The allocator (`std::allocator` by default, the `_allocator` field): `allocate` is array allocation, `construct` and `destroy` write `Live` and `Uninit`, and `deallocate` has no observable effect, so it is not modelled.
- Move versus copy in relocation (`std::move_if_noexcept`) and the weak exception-safety window mid-relocation: relocation is a value copy, and element moves and copies never fail here.
- Allocation failure (`std::bad_alloc` from `allocate`): allocation always succeeds in the model.
- `size_t` overflow of `_capacity * 2` in `ensure_capacity`: capacities are unbounded `nat`, and the source does no check.
- `data()`, `begin()`, `end()`, `cbegin()`, `cend()`: raw pointers and pointer arithmetic. `Valid()` states that the range they span, slots `[0, size)`, holds exactly the live elements.
- The reverse-iterator declarations are commented out in the source and have no behaviour.
- Vectors.Vector.PushBack: takes the item by value, so the case where the argument refers into the vector's own buffer is not covered by it; that case is modelled separately by `PushBackOwnAsWritten` and `PushBackOwn` (see Findings).
- Writes through the references returned by `at`, `operator[]`, `front` and `back`: the model returns the element's value, not an assignable reference.
- Vectors.Vector.Destroy: models the destructor's clear-then-release; releasing the buffer itself has no observable result, so the object keeps its (now all-`Uninit`) buffer reference.
- Copying or assigning a `Vector`: the source defines no copy constructor or assignment operator, and the compiler-generated ones share the raw buffer between two owners; aliasing of one buffer by two vectors is not modelled.
