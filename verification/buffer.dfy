/** `BufferT`: a growable array of trivially copyable elements with a size
    and a capacity. Only the first `size` elements have defined contents,
    so the model holds exactly those; where the source exposes memory it
    has not initialised (growing with `set_size`), the caller supplies the
    values found there. */
module Buffer {
  datatype Buffer<T> = Buffer(data: seq<T>, capacity: nat)

  /** `is_consistent`: the capacity covers the size. */
  predicate IsConsistent<T>(b: Buffer<T>) {
    |b.data| <= b.capacity
  }

  function Size<T>(b: Buffer<T>): nat {
    |b.data|
  }

  function IsEmpty<T>(b: Buffer<T>): (r: bool)
    ensures r <==> Size(b) == 0
  {
    |b.data| == 0
  }

  function Max(a: nat, b: nat): nat {
    if a < b then b else a
  }

  /** The default constructor: no elements and no allocation. */
  function Empty<T>(): (b: Buffer<T>)
    ensures IsConsistent(b) && Size(b) == 0 && b.capacity == 0
  {
    Buffer([], 0)
  }

  /** `BufferT(size, capacity)`: `size` uninitialised elements (the values
      given) and room for the larger of the two numbers. */
  function WithCapacity<T>(uninitialised: seq<T>, capacity: nat): (b: Buffer<T>)
    ensures IsConsistent(b) && b.data == uninitialised
    ensures b.capacity == Max(|uninitialised|, capacity)
  {
    Buffer(uninitialised, Max(|uninitialised|, capacity))
  }

  /** `BufferT(data, size, capacity)` (and `BufferT(data, size)` with the
      capacity equal to the size): a copy of the elements. */
  function FromData<T>(elements: seq<T>, capacity: nat): (b: Buffer<T>)
    ensures IsConsistent(b) && b.data == elements
    ensures b.capacity == Max(|elements|, capacity)
  {
    WithCapacity(elements, capacity)
  }

  /** `ensure_capacity_with_headroom`: nothing happens when the capacity
      already suffices; otherwise the elements move to an allocation of the
      requested size or, with headroom, of at least one and a half times
      the old capacity. */
  function EnsureCapacityWithHeadroom<T>(b: Buffer<T>, capacity: nat, extraHeadroom: bool): (r: Buffer<T>)
    ensures r.data == b.data
    ensures capacity <= b.capacity ==> r == b
    ensures capacity > b.capacity && !extraHeadroom ==> r.capacity == capacity
    ensures capacity > b.capacity && extraHeadroom ==>
              r.capacity >= capacity && r.capacity >= b.capacity + b.capacity / 2 &&
              (r.capacity == capacity || r.capacity == b.capacity + b.capacity / 2)
  {
    if capacity <= b.capacity then b
    else
      var newCapacity := if extraHeadroom then Max(capacity, b.capacity + b.capacity / 2) else capacity;
      Buffer(b.data, newCapacity)
  }

  /** `ensure_capacity`: exactly the requested capacity when it grows. */
  function EnsureCapacity<T>(b: Buffer<T>, capacity: nat): (r: Buffer<T>)
    requires IsConsistent(b)
    ensures IsConsistent(r) && r.data == b.data
    ensures r.capacity == Max(b.capacity, capacity)
  {
    EnsureCapacityWithHeadroom(b, capacity, false)
  }

  /** `append_data(data, size)`: the elements go after the current ones. */
  function AppendData<T>(b: Buffer<T>, elements: seq<T>): (r: Buffer<T>)
    requires IsConsistent(b)
    ensures IsConsistent(r)
    ensures |r.data| == |b.data| + |elements|
    ensures r.data[..|b.data|] == b.data && r.data[|b.data|..] == elements
    ensures r.capacity >= b.capacity
  {
    var grown := EnsureCapacityWithHeadroom(b, |b.data| + |elements|, true);
    Buffer(grown.data + elements, grown.capacity)
  }

  /** `set_data`: the size drops to zero and the elements are appended. */
  function SetData<T>(b: Buffer<T>, elements: seq<T>): (r: Buffer<T>)
    requires IsConsistent(b)
    ensures IsConsistent(r) && r.data == elements
    ensures |elements| <= b.capacity ==> r.capacity == b.capacity
  {
    AppendData(Buffer([], b.capacity), elements)
  }

  /** `set_size`: the first min(old, new) elements are kept; growing
      exposes the uninitialised elements after them (the values given). */
  function SetSize<T>(b: Buffer<T>, size: nat, uninitialised: seq<T>): (r: Buffer<T>)
    requires IsConsistent(b)
    requires size > |b.data| ==> |uninitialised| == size - |b.data|
    ensures IsConsistent(r) && |r.data| == size
    ensures size <= |b.data| ==> r.data == b.data[..size]
    ensures size > |b.data| ==> r.data == b.data + uninitialised
    ensures r.capacity == EnsureCapacityWithHeadroom(b, size, true).capacity
  {
    var grown := EnsureCapacityWithHeadroom(b, size, true);
    if size <= |b.data| then Buffer(b.data[..size], grown.capacity)
    else Buffer(b.data + uninitialised, grown.capacity)
  }

  /** `append_data(max_elements, setter)`: room for `max_elements` more is
      made as `set_size` does, the setter writes `written` (at most
      `max_elements` elements, as the setter is required to), and the size
      becomes the old size plus what was written. */
  function AppendWith<T>(b: Buffer<T>, maxElements: nat, written: seq<T>): (r: (Buffer<T>, nat))
    requires IsConsistent(b) && |written| <= maxElements
    ensures IsConsistent(r.0) && r.1 == |written|
    ensures r.0.data == b.data + written
    ensures r.0.capacity == EnsureCapacityWithHeadroom(b, |b.data| + maxElements, true).capacity
  {
    var grown := EnsureCapacityWithHeadroom(b, |b.data| + maxElements, true);
    (Buffer(b.data + written, grown.capacity), |written|)
  }

  /** `set_data(max_elements, setter)`: `append_data` with the size first
      dropped to zero. */
  function SetDataWith<T>(b: Buffer<T>, maxElements: nat, written: seq<T>): (r: (Buffer<T>, nat))
    requires IsConsistent(b) && |written| <= maxElements
    ensures IsConsistent(r.0) && r.0.data == written && r.1 == |written|
  {
    AppendWith(Buffer([], b.capacity), maxElements, written)
  }

  /** `clear`: no elements, the allocation kept. */
  function Clear<T>(b: Buffer<T>): (r: Buffer<T>)
    ensures IsConsistent(r) && Size(r) == 0 && r.capacity == b.capacity
  {
    Buffer([], b.capacity)
  }

  /** `operator==`: equal sizes and equal elements, position by position. */
  function Equal<T(==)>(a: Buffer<T>, b: Buffer<T>): (r: bool)
    ensures r <==> a.data == b.data
  {
    |a.data| == |b.data| && forall i :: 0 <= i < |a.data| ==> a.data[i] == b.data[i]
  }

  // ---------------------------------------------------------------------
  // Properties across operations

  /** Appending in two steps holds the same elements as appending the
      concatenation at once. */
  lemma AppendTwice<T>(b: Buffer<T>, x: seq<T>, y: seq<T>)
    requires IsConsistent(b)
    ensures AppendData(AppendData(b, x), y).data == AppendData(b, x + y).data
  {
    var r := AppendData(AppendData(b, x), y).data;
    assert r == b.data + x + y;
  }

  /** Shrinking back to the old size undoes an append and keeps the
      capacity it reached. */
  lemma SetSizeUndoesAppend<T>(b: Buffer<T>, x: seq<T>)
    requires IsConsistent(b)
    ensures var a := AppendData(b, x);
            SetSize(a, |b.data|, []) == Buffer(b.data, a.capacity)
  {
  }

  /** Replacing the contents twice leaves only the second contents, and the
      capacity never shrinks. */
  lemma SetDataTwice<T>(b: Buffer<T>, x: seq<T>, y: seq<T>)
    requires IsConsistent(b)
    ensures SetData(SetData(b, x), y).data == y
    ensures SetData(SetData(b, x), y).capacity >= SetData(b, x).capacity >= b.capacity
  {
  }

  /** Growth with headroom is geometric: a reallocation at least
      multiplies the capacity by one and a half (rounded down), so n
      appends of one element reallocate O(log n) times. */
  lemma HeadroomGrowth<T>(b: Buffer<T>, capacity: nat)
    requires capacity > b.capacity
    ensures 2 * EnsureCapacityWithHeadroom(b, capacity, true).capacity >= 3 * b.capacity - 1
  {
  }

  /** Clearing then appending is setting the data. */
  lemma ClearThenAppend<T>(b: Buffer<T>, x: seq<T>)
    requires IsConsistent(b)
    ensures AppendData(Clear(b), x) == SetData(b, x)
  {
  }
}
