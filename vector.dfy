/** lib::vector<T>: a growable array with 32-bit `size_` and `capacity_` counters over a
    heap buffer `buffer_`. */
module StlVector {
  import opened Base

  /** The capacity push_back asks for when the vector is full: twice the old one in
      32-bit arithmetic, but at least 8. */
  function Grown(capacity: nat): (c: nat)
    requires capacity < U32
    ensures c >= 8
    ensures capacity < 0x8000_0000 ==> c > capacity && (capacity >= 4 ==> c == 2 * capacity)
    ensures capacity < 4 ==> c == 8
    ensures c < U32
  {
    var doubled := (capacity * 2) % U32;
    if doubled < 8 then 8 else doubled
  }

  class Vector<T(0)> {
    /** `size_`, `capacity_` and `buffer_`; a null `buffer` is the null `buffer_` of a
        default-constructed or cleared vector. */
    var size: nat
    var capacity: nat
    var buffer: array?<T>

    /** The buffer has exactly `capacity` slots, of which the first `size` are in use. */
    ghost predicate Valid()
      reads this
    {
      size <= capacity < U32 &&
      (buffer == null ==> capacity == 0) &&
      (buffer != null ==> buffer.Length == capacity)
    }

    /** The elements in use. */
    function Elements(): (s: seq<T>)
      reads this, buffer
      requires Valid()
      ensures |s| == size
    {
      if buffer == null then [] else buffer[..size]
    }

    /** push_back does not overflow the 32-bit doubling of the capacity. */
    predicate CanPush()
      reads this
    {
      size < capacity || capacity < 0x8000_0000
    }

    /** `vector()`: no buffer at all. */
    constructor ()
      ensures Valid() && Elements() == []
      ensures capacity == 0 && buffer == null
    {
      size, capacity, buffer := 0, 0, null;
    }

    /** `vector(size)`: `n` default slots, all in use. */
    constructor Sized(n: nat)
      requires n < U32
      ensures Valid() && size == n && capacity == n && fresh(buffer)
    {
      size, capacity := n, n;
      buffer := new T[n];
    }

    /** `vector(size, initial)`: `n` copies of `initial`. */
    constructor Filled(n: nat, initial: T)
      requires n < U32
      ensures Valid() && Elements() == Repeat(initial, n) && capacity == n && fresh(buffer)
    {
      var a := new T[n];
      var i := 0;
      while i < n
        invariant i <= n
        invariant forall k :: 0 <= k < i ==> a[k] == initial
      {
        a[i] := initial;
        i := i + 1;
      }
      size, capacity, buffer := n, n, a;
    }

    /** A copy with as many slots as `v` has capacity (see CopyAsWritten for what the
        copy constructor and `operator=` allocate). */
    constructor Copy(v: Vector<T>)
      requires v.Valid()
      ensures Valid() && Elements() == v.Elements() && capacity == v.capacity
      ensures buffer == null || fresh(buffer)
    {
      var a: array?<T> := null;
      if v.buffer != null {
        a := CopyOf(v.buffer, v.size, v.capacity);
      }
      size, capacity, buffer := v.size, v.capacity, a;
    }

    /** `operator=`, with the same allocation as Copy. */
    method Assign(v: Vector<T>)
      requires v.Valid()
      modifies this
      ensures Valid() && Elements() == old(v.Elements()) && capacity == old(v.capacity)
      ensures buffer == null || fresh(buffer)
    {
      var a: array?<T> := null;
      if v.buffer != null {
        a := CopyOf(v.buffer, v.size, v.capacity);
      }
      size, capacity, buffer := v.size, v.capacity, a;
    }

    function Size(): (n: nat)
      reads this, buffer
      requires Valid()
      ensures n == |Elements()|
    {
      size
    }

    function Capacity(): (n: nat)
      reads this
      requires Valid()
      ensures Size() <= n < U32
    {
      capacity
    }

    function Empty(): (b: bool)
      reads this, buffer
      requires Valid()
      ensures b <==> Elements() == []
    {
      size == 0
    }

    /** `front()`; the source reads slot 0 without a check. */
    function Front(): (x: T)
      reads this, buffer
      requires Valid() && size > 0
      ensures x == Elements()[0]
    {
      buffer[0]
    }

    /** `back()`; the source reads slot `size_ - 1` without a check. */
    function Back(): (x: T)
      reads this, buffer
      requires Valid() && size > 0
      ensures x == Elements()[|Elements()| - 1]
    {
      buffer[size - 1]
    }

    /** `reserve(capacity)`: grows the buffer to `n` slots when `n` exceeds the capacity,
        keeping the elements in use; never shrinks. */
    method Reserve(n: nat)
      requires Valid() && n < U32
      modifies this
      ensures Valid() && Elements() == old(Elements())
      ensures capacity == if n <= old(capacity) then old(capacity) else n
      ensures n <= old(capacity) ==> buffer == old(buffer)
      ensures n > old(capacity) ==> fresh(buffer)
    {
      if buffer == null {
        size, capacity := 0, 0;
      }
      if n <= capacity {
        return;
      }
      var a := CopyOf(buffer, size, n);
      capacity, buffer := n, a;
    }

    /** `push_back(value)`: appends, growing to Grown(capacity) slots when full. */
    method PushBack(x: T)
      requires Valid() && CanPush()
      modifies this, buffer
      ensures Valid() && Elements() == old(Elements()) + [x]
      ensures old(size) < old(capacity) ==> capacity == old(capacity) && buffer == old(buffer)
      ensures old(size) >= old(capacity) ==> capacity == Grown(old(capacity)) && fresh(buffer)
    {
      if size >= capacity {
        Reserve(Grown(capacity));
      }
      buffer[size] := x;
      size := size + 1;
    }

    /** `pop_back()`: drops the last element; the buffer is left as it is. */
    method PopBack()
      requires Valid() && size > 0
      modifies this
      ensures Valid() && Elements() == old(Elements())[..old(size) - 1]
      ensures capacity == old(capacity) && buffer == old(buffer)
    {
      size := size - 1;
    }

    /** `resize(size)`: reserves `n` slots, then makes exactly `n` of them in use; the
        elements both sizes keep are unchanged. */
    method Resize(n: nat)
      requires Valid() && n < U32
      modifies this
      ensures Valid() && size == n
      ensures capacity == if n <= old(capacity) then old(capacity) else n
      ensures var m := if n < old(size) then n else old(size);
        Elements()[..m] == old(Elements())[..m]
      ensures n <= old(capacity) ==> buffer == old(buffer)
    {
      Reserve(n);
      size := n;
    }

    /** `operator[]` read: the element, or None where the source exits the program. */
    function At(index: nat): (r: Option<T>)
      reads this, buffer
      requires Valid()
      ensures r.Some? <==> index < |Elements()|
      ensures r.Some? ==> r.value == Elements()[index]
    {
      if index >= size then None else Some(buffer[index])
    }

    /** `operator[]` write: `ok` is false where the source exits the program. */
    method Set(index: nat, x: T) returns (ok: bool)
      requires Valid()
      modifies buffer
      ensures Valid() && ok == (index < size)
      ensures Elements() == if ok then old(Elements())[index := x] else old(Elements())
    {
      if index >= size {
        return false;
      }
      buffer[index] := x;
      return true;
    }

    /** `clear()`: drops the buffer without freeing it. */
    method Clear()
      modifies this
      ensures Valid() && Elements() == [] && capacity == 0 && buffer == null
    {
      size, capacity, buffer := 0, 0, null;
    }
  }

  /** A fresh array of `n` slots whose first `k` are those of `src` (none when `src` is
      null). */
  method CopyOf<T(0)>(src: array?<T>, k: nat, n: nat) returns (a: array<T>)
    requires k <= n
    requires if src == null then k == 0 else k <= src.Length
    ensures fresh(a) && a.Length == n
    ensures src != null ==> a[..k] == src[..k]
  {
    a := new T[n];
    var i := 0;
    while i < k
      invariant i <= k
      invariant forall j :: 0 <= j < i ==> a[j] == src[j]
    {
      a[i] := src[i];
      i := i + 1;
    }
  }

  // ---------------------------------------------------------------------------
  // The copy constructor and operator= as written

  /** The bookkeeping of a vector: its counters and how many slots are allocated. */
  datatype Layout = Layout(size: nat, capacity: nat, slots: nat)

  /** A layout whose buffer holds its capacity. */
  predicate Sound(l: Layout) {
    l.size <= l.capacity == l.slots
  }

  /** The copy constructor and `operator=` take over `size_` and `capacity_` but
      allocate only `size_` slots. */
  function CopyAsWritten(v: Layout): Layout {
    Layout(v.size, v.capacity, v.size)
  }

  /** The slot push_back writes without reallocating, if it does not reallocate. */
  function PushSlot(l: Layout): Option<nat> {
    if l.size >= l.capacity then None else Some(l.size)
  }

  /** Copying any vector with spare capacity yields one whose next push_back writes past
      its buffer: string("a") has size 1 and capacity 8, so `string("a") + "b"` writes
      slot 1 of a one-slot buffer. */
  lemma CopyThenPushOverruns(v: Layout)
    requires Sound(v) && v.size < v.capacity
    ensures var c := CopyAsWritten(v); !Sound(c) && PushSlot(c).Some? && PushSlot(c).value >= c.slots
  {
  }

  /** The allocation of Copy and Assign: as many slots as the capacity. */
  function CopyFixed(v: Layout): (c: Layout)
    ensures Sound(v) ==> Sound(c) && c.size == v.size && c.capacity == v.capacity
    ensures Sound(v) ==> forall i :: PushSlot(c) == Some(i) ==> i < c.slots
  {
    Layout(v.size, v.capacity, v.capacity)
  }
}
