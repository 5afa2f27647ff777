/** Clients of the container: what a caller can conclude from the contracts
    of Vectors.Vector alone, for the usage patterns the container promises. */
module Scenarios {
  import opened Growth
  import opened Vectors

  /** Appending a sequence of items one push_back at a time to a vector that
      has only ever been appended to keeps its capacity on the doubling trace
      0, 1, 2, 4, ...: the least power of two not below the size. The elements
      relocated meanwhile are those the append trace predicts, so appending to
      an empty vector relocates fewer than twice as many elements as it
      appends. */
  method AppendAll<T>(v: Vector<T>, items: seq<T>)
    requires v.Valid() && v.capacity == CapacityAfterPushes(|v.Elements|)
    modifies v.Repr
    ensures v.Valid() && fresh(v.Repr - old(v.Repr))
    ensures v.Elements == old(v.Elements) + items
    ensures v.capacity == CapacityAfterPushes(|v.Elements|)
    ensures |v.Elements| >= 1 ==> IsPow2(v.capacity) && |v.Elements| <= v.capacity < 2 * |v.Elements|
    ensures v.Moves + MovesAfterPushes(|old(v.Elements)|) == old(v.Moves) + MovesAfterPushes(|v.Elements|)
    ensures old(v.Elements) == [] && items != [] ==> v.Moves - old(v.Moves) < 2 * |items|
  {
    var i := 0;
    while i < |items|
      invariant 0 <= i <= |items|
      invariant v.Valid() && fresh(v.Repr - old(v.Repr))
      invariant v.Elements == old(v.Elements) + items[..i]
      invariant v.capacity == CapacityAfterPushes(|v.Elements|)
      invariant v.Moves + MovesAfterPushes(|old(v.Elements)|) == old(v.Moves) + MovesAfterPushes(|v.Elements|)
    {
      v.PushBack(items[i]);
      i := i + 1;
    }
    assert items[..i] == items;
    CapacityAfterPushesIsLeastPow2(|v.Elements|);
    MovesAfterPushesBound(|v.Elements|);
  }

  /** For an index below the size, the checked at(pos) succeeds with the very
      element the unchecked operator[](pos) yields. */
  method AtMatchesIndex<T>(v: Vector<T>, pos: nat) returns (checked: Checked<T>, unchecked: T)
    requires v.Valid() && pos < v.size
    ensures checked == Ok(unchecked)
  {
    checked := v.At(pos);
    unchecked := v.Get(pos);
  }

  /** push_back followed by pop_back restores the elements and the size; the
      capacity may have grown. */
  method PushThenPop<T>(v: Vector<T>, x: T)
    requires v.Valid()
    modifies v.Repr
    ensures v.Valid() && fresh(v.Repr - old(v.Repr))
    ensures v.Elements == old(v.Elements) && v.size == old(v.size)
    ensures v.capacity >= old(v.capacity)
  {
    v.PushBack(x);
    v.PopBack();
  }

  /** Construct from [1, 2, 3]: size and capacity 3, at(0) == 1, at(2) == 3,
      at(3) is out of range. */
  method ListScenario() {
    var v := new Vector.FromList([1, 2, 3]);
    var n := v.Size();
    var c := v.Capacity();
    assert n == 3 && c == 3;
    var a := v.At(0);
    var b := v.At(2);
    var e := v.At(3);
    assert a == Ok(1) && b == Ok(3) && e == OutOfRange;
  }

  /** Construct empty and push 5 three times: the capacities seen are 1, 2, 4. */
  method PushScenario() {
    var v := new Vector<int>();
    v.PushBack(5);
    assert v.capacity == 1;
    v.PushBack(5);
    assert v.capacity == 2;
    v.PushBack(5);
    assert v.capacity == 4 && v.Elements == [5, 5, 5];
    var n := v.Size();
    assert n == 3;
  }

  /** Construct with (4, "x"): four elements, every one "x". */
  method FilledScenario() {
    var v := new Vector.Filled(4, "x");
    var n := v.Size();
    var f := v.Front();
    var l := v.Back();
    assert n == 4 && f == "x" && l == "x";
  }

  /** clear() on five elements keeps the capacity, and later appends reuse the
      buffer until the size passes that capacity. */
  method ClearScenario() {
    var v := new Vector.FromList([1, 2, 3, 4, 5]);
    var buffer := v.data;
    v.Clear();
    assert v.size == 0 && v.capacity == 5 && v.data == buffer;
    v.PushBack(6);
    v.PushBack(7);
    v.PushBack(8);
    v.PushBack(9);
    v.PushBack(10);
    assert v.data == buffer && v.capacity == 5;
    v.PushBack(11);
    assert v.capacity == 10;
  }

  /** push_back(v[0]) on a full one-element vector: as written, the item is
      read from a slot that growing has already destroyed, and the size still
      becomes 2; copying it first appends it. */
  method PushOwnElementScenario() {
    var v := new Vector.FromList([7]);
    var read := v.PushBackOwnAsWritten(0);
    assert read == Uninit && v.size == 2 && v.capacity == 2 && !v.Valid();
    assert v.data[0] == Live(7) && v.data[1] == Uninit;
    var w := new Vector.FromList([7]);
    w.PushBackOwn(0);
    assert w.Elements == [7, 7] && w.capacity == 2;
  }

  /** shrink_to_fit after clear releases the buffer. */
  method ShrinkScenario() {
    var v := new Vector.Filled(3, 0);
    v.Reserve(8);
    assert v.capacity == 8;
    v.ShrinkToFit();
    assert v.capacity == 3 && v.Elements == [0, 0, 0];
    v.Clear();
    v.ShrinkToFit();
    assert v.capacity == 0 && v.data == null;
  }
}
