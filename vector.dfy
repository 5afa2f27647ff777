/** The contiguous, growable array of vector.cpp: a buffer of slots, the
    number of live elements and the number of allocated slots. */
module Vectors {
  import opened Growth

  /** One slot of the buffer: raw memory, or memory holding a constructed
      element. Constructing writes Live, destroying writes Uninit back. */
  datatype Slot<T> = Uninit | Live(value: T)

  /** The outcome of the bounds-checked access `at`, which throws
      std::out_of_range when the index is not below the size. */
  datatype Checked<T> = Ok(value: T) | OutOfRange

  class Vector<T> {
    // public view
    ghost var Elements: seq<T>   // the live elements, in index order
    ghost var Repr: set<object>  // this object and its buffer
    ghost var Moves: nat         // elements relocated into a new buffer so far

    // the three fields of vector.cpp
    var data: array?<Slot<T>>
    var size: nat
    var capacity: nat

    /** Slots [0, size) hold the elements, slots [size, capacity) are raw
        memory, and there is a buffer exactly when capacity > 0. */
    ghost predicate Valid()
      reads this, Repr
      ensures Valid() ==> this in Repr && size <= capacity && |Elements| == size
      ensures Valid() ==> (data == null <==> capacity == 0)
    {
      this in Repr && size <= capacity && |Elements| == size &&
      if data == null then
        capacity == 0 && Repr == {this}
      else
        capacity > 0 && data.Length == capacity && Repr == {this, data} &&
        (forall i :: 0 <= i < size ==> data[i] == Live(Elements[i])) &&
        (forall i :: size <= i < capacity ==> data[i] == Uninit)
    }

    // ---------------------------------------------------------------- constructors

    /** Vector(): no buffer, no elements. */
    constructor ()
      ensures Valid() && fresh(Repr)
      ensures Elements == [] && size == 0 && capacity == 0 && data == null
    {
      data, size, capacity := null, 0, 0;
      Elements, Repr, Moves := [], {this}, 0;
    }

    /** Vector(initializer_list): reserves exactly |items| slots and constructs
        the items into them in order. */
    constructor FromList(items: seq<T>)
      ensures Valid() && fresh(Repr)
      ensures Elements == items && size == |items| && capacity == |items|
    {
      data, size, capacity := null, 0, 0;
      Elements, Repr, Moves := [], {this}, 0;
      new;
      Reserve(|items|);
      var i := 0;
      while i < |items|
        invariant 0 <= i <= |items|
        invariant |items| > 0 ==> data != null && data.Length == |items|
        invariant data != null ==> forall k :: 0 <= k < i ==> data[k] == Live(items[k])
        invariant data != null ==> forall k :: i <= k < data.Length ==> data[k] == Uninit
        modifies data
      {
        data[i] := Live(items[i]);
        i := i + 1;
      }
      size := |items|;
      capacity := |items|;
      Elements := items;
    }

    /** Vector(count, item): reserves count slots and copy-constructs item into
        each of them. */
    constructor Filled(count: nat, item: T)
      ensures Valid() && fresh(Repr)
      ensures size == count && capacity == count
      ensures Elements == seq(count, _ => item)
      ensures forall i :: 0 <= i < |Elements| ==> Elements[i] == item
    {
      data, size, capacity := null, 0, 0;
      Elements, Repr, Moves := [], {this}, 0;
      new;
      Reserve(count);
      var i := 0;
      while i < count
        invariant 0 <= i <= count
        invariant count > 0 ==> data != null && data.Length == count
        invariant data != null ==> forall k :: 0 <= k < i ==> data[k] == Live(item)
        invariant data != null ==> forall k :: i <= k < data.Length ==> data[k] == Uninit
        modifies data
      {
        data[i] := Live(item);
        i := i + 1;
      }
      size := count;
      Elements := seq(count, _ => item);
    }

    /** ~Vector(): destroys every live element (clear), then releases the
        buffer; releasing memory has no observable effect here. */
    method Destroy()
      requires Valid()
      modifies Repr
      ensures Valid() && Repr == old(Repr)
      ensures size == 0 && Elements == [] && Moves == old(Moves)
      ensures old(data) != null ==> forall i :: 0 <= i < old(data).Length ==> old(data)[i] == Uninit
    {
      if data == null {
        return;
      }
      Clear();
    }

    // ---------------------------------------------------------------- element access

    /** at(pos): the element at pos, or out-of-range exactly when pos >= size. */
    method At(pos: nat) returns (r: Checked<T>)
      requires Valid()
      ensures r.OutOfRange? <==> pos >= |Elements|
      ensures r.Ok? ==> r.value == Elements[pos]
    {
      if pos >= size {
        return OutOfRange;
      }
      r := Ok(data[pos].value);
    }

    /** operator[](pos): unchecked; the caller guarantees pos < size. */
    method Get(pos: nat) returns (x: T)
      requires Valid() && pos < |Elements|
      ensures x == Elements[pos]
    {
      x := data[pos].value;
    }

    /** front(): the first element; calling it on an empty vector is undefined. */
    method Front() returns (x: T)
      requires Valid() && |Elements| >= 1
      ensures x == Elements[0]
    {
      x := data[0].value;
    }

    /** back(): the last element; calling it on an empty vector is undefined. */
    method Back() returns (x: T)
      requires Valid() && |Elements| >= 1
      ensures x == Elements[|Elements| - 1]
    {
      x := data[size - 1].value;
    }

    // ---------------------------------------------------------------- capacity

    method Empty() returns (r: bool)
      requires Valid()
      ensures r <==> Elements == []
    {
      r := size == 0;
    }

    method Size() returns (r: nat)
      requires Valid()
      ensures r == |Elements|
    {
      r := size;
    }

    method Capacity() returns (r: nat)
      requires Valid()
      ensures r == capacity && r >= |Elements|
      ensures r == 0 <==> data == null
    {
      r := capacity;
    }

    /** reserve(n): a no-op when n <= capacity; otherwise moves the elements,
        in order, into a fresh buffer of exactly n slots and destroys every
        slot of the old one before releasing it. */
    method Reserve(newCapacity: nat)
      requires Valid()
      modifies Repr
      ensures Valid() && fresh(Repr - old(Repr))
      ensures Elements == old(Elements) && size == old(size)
      ensures newCapacity <= old(capacity) ==> capacity == old(capacity) && data == old(data)
      ensures newCapacity > old(capacity) ==> capacity == newCapacity && fresh(data)
      ensures newCapacity > old(capacity) && old(data) != null ==>
        forall i :: 0 <= i < old(data).Length ==> old(data)[i] == Uninit
      ensures Moves == old(Moves) + if newCapacity > old(capacity) then old(size) else 0
    {
      if newCapacity <= capacity {
        return;
      }
      var block := new Slot<T>[newCapacity](_ => Uninit);
      if data != null {
        Relocate(data, block, size);
      }
      data := block;
      capacity := newCapacity;
      Repr := {this, block};
      Moves := Moves + size;
    }

    /** shrink_to_fit(): a no-op when capacity == size; frees the buffer when
        there are no elements; otherwise moves the elements into a buffer of
        exactly size slots. */
    method ShrinkToFit()
      requires Valid()
      modifies Repr
      ensures Valid() && fresh(Repr - old(Repr))
      ensures Elements == old(Elements) && size == old(size)
      ensures capacity == size
      ensures old(capacity) == old(size) ==> data == old(data)
      ensures old(size) == 0 ==> data == null
      ensures old(capacity) != old(size) && old(size) > 0 ==> fresh(data)
      ensures old(capacity) != old(size) && old(data) != null ==>
        forall i :: 0 <= i < old(data).Length ==> old(data)[i] == Uninit
      ensures Moves == old(Moves) + if old(capacity) != old(size) then old(size) else 0
    {
      if capacity == size {
        return;
      }
      if size == 0 {
        capacity := 0;
        data := null;
        Repr := {this};
        return;
      }
      var block := new Slot<T>[size](_ => Uninit);
      Relocate(data, block, size);
      data := block;
      capacity := size;
      Repr := {this, block};
      Moves := Moves + size;
    }

    /** The relocation loop of reserve and shrink_to_fit: for each index below
        n, construct the element in the new buffer, then destroy it in the old. */
    static method Relocate(src: array<Slot<T>>, dst: array<Slot<T>>, n: nat)
      requires src != dst && n <= src.Length && n <= dst.Length
      modifies src, dst
      ensures forall k :: 0 <= k < n ==> dst[k] == old(src[k]) && src[k] == Uninit
      ensures forall k :: n <= k < dst.Length ==> dst[k] == old(dst[k])
      ensures forall k :: n <= k < src.Length ==> src[k] == old(src[k])
    {
      var i := 0;
      while i < n
        invariant 0 <= i <= n
        invariant forall k :: 0 <= k < i ==> dst[k] == old(src[k]) && src[k] == Uninit
        invariant forall k :: i <= k < dst.Length ==> dst[k] == old(dst[k])
        invariant forall k :: i <= k < src.Length ==> src[k] == old(src[k])
      {
        dst[i] := src[i];
        src[i] := Uninit;
        i := i + 1;
      }
    }

    // ---------------------------------------------------------------- modifiers

    /** clear(): destroys the live elements; the capacity and the buffer stay. */
    method Clear()
      requires Valid()
      modifies Repr
      ensures Valid() && Repr == old(Repr)
      ensures Elements == [] && size == 0 && Moves == old(Moves)
      ensures capacity == old(capacity) && data == old(data)
    {
      assert data != null || size == 0;
      var i := 0;
      while i < size
        invariant 0 <= i <= size
        invariant data != null ==> forall k :: 0 <= k < i ==> data[k] == Uninit
        invariant data != null ==> forall k :: i <= k < size ==> data[k] == Live(Elements[k])
        invariant data != null ==> forall k :: size <= k < capacity ==> data[k] == Uninit
        modifies data
      {
        data[i] := Uninit;
        i := i + 1;
      }
      size := 0;
      Elements := [];
    }

    /** push_back(item): grows by the doubling rule when full, then constructs
        item at index size. */
    method PushBack(item: T)
      requires Valid()
      modifies Repr
      ensures Valid() && fresh(Repr - old(Repr))
      ensures Elements == old(Elements) + [item]
      ensures capacity == if old(size) == old(capacity) then Grow(old(capacity)) else old(capacity)
      ensures old(size) < old(capacity) ==> data == old(data)
      ensures old(size) == old(capacity) ==> fresh(data)
      ensures old(size) == old(capacity) && old(data) != null ==>
        forall i :: 0 <= i < old(data).Length ==> old(data)[i] == Uninit
      ensures Moves == old(Moves) + if old(size) == old(capacity) then old(size) else 0
    {
      EnsureCapacity();
      data[size] := Live(item);
      size := size + 1;
      Elements := Elements + [item];
    }

    /** push_back(v[k]) as written: both overloads take item by reference, so
        when the argument is the vector's own element k, item points into the
        current buffer. ensure_capacity runs first; when the vector is full it
        relocates every element and destroys the old slots, and the new slot
        is then constructed from that destroyed slot and the size incremented
        regardless. The slot actually read is returned. On a full vector the
        result breaks the object invariant: the size counts a slot that holds
        no element. */
    method PushBackOwnAsWritten(k: nat) returns (read: Slot<T>)
      requires Valid() && k < |Elements|
      modifies Repr
      ensures fresh(Repr - old(Repr))
      ensures size == old(size) + 1
      ensures capacity == if old(size) == old(capacity) then Grow(old(capacity)) else old(capacity)
      ensures Moves == old(Moves) + if old(size) == old(capacity) then old(size) else 0
      ensures old(size) < old(capacity) ==>
        Valid() && data == old(data) && read == Live(old(Elements)[k]) &&
        Elements == old(Elements) + [old(Elements)[k]]
      ensures old(size) == old(capacity) ==>
        fresh(data) && data.Length == capacity && read == Uninit &&
        data[old(size)] == Uninit &&
        (forall i :: 0 <= i < old(size) ==> data[i] == Live(old(Elements)[i])) &&
        (forall i :: old(size) < i < capacity ==> data[i] == Uninit) &&
        Elements == old(Elements) && !Valid()
      ensures old(size) == old(capacity) && old(data) != null ==>
        forall i :: 0 <= i < old(data).Length ==> old(data)[i] == Uninit
    {
      var source := data;   // the buffer item refers into
      EnsureCapacity();
      read := source[k];
      data[size] := read;   // construct from item
      size := size + 1;
      if read.Live? {
        // the ghost view gains an element only when one was constructed
        Elements := Elements + [read.value];
      }
    }

    /** push_back(v[k]) as intended: the element is copied out before the
        buffer can be reallocated, so the copy of element k is always appended,
        with the growth of push_back. */
    method PushBackOwn(k: nat)
      requires Valid() && k < |Elements|
      modifies Repr
      ensures Valid() && fresh(Repr - old(Repr))
      ensures Elements == old(Elements) + [old(Elements)[k]]
      ensures capacity == if old(size) == old(capacity) then Grow(old(capacity)) else old(capacity)
      ensures old(size) < old(capacity) ==> data == old(data)
      ensures old(size) == old(capacity) ==> fresh(data)
      ensures old(size) == old(capacity) && old(data) != null ==>
        forall i :: 0 <= i < old(data).Length ==> old(data)[i] == Uninit
      ensures Moves == old(Moves) + if old(size) == old(capacity) then old(size) else 0
    {
      var item := data[k].value;
      PushBack(item);
    }

    /** pop_back(): destroys the last element; undefined on an empty vector. */
    method PopBack()
      requires Valid() && |Elements| > 0
      modifies Repr
      ensures Valid() && Repr == old(Repr)
      ensures Elements == old(Elements)[..|old(Elements)| - 1]
      ensures capacity == old(capacity) && data == old(data) && Moves == old(Moves)
    {
      data[size - 1] := Uninit;
      size := size - 1;
      Elements := Elements[..size];
    }

    /** ensure_capacity(): when the buffer is full, reserve Grow(capacity). */
    method EnsureCapacity()
      requires Valid()
      modifies Repr
      ensures Valid() && fresh(Repr - old(Repr))
      ensures Elements == old(Elements) && size == old(size)
      ensures size < capacity
      ensures capacity == if old(size) == old(capacity) then Grow(old(capacity)) else old(capacity)
      ensures old(size) < old(capacity) ==> data == old(data)
      ensures old(size) == old(capacity) ==> fresh(data)
      ensures old(size) == old(capacity) && old(data) != null ==>
        forall i :: 0 <= i < old(data).Length ==> old(data)[i] == Uninit
      ensures Moves == old(Moves) + if old(size) == old(capacity) then old(size) else 0
    {
      if size == capacity {
        Reserve(Grow(capacity));
      }
    }
  }
}
