/** The growing output buffer: inline storage of 500 characters, then heap storage growing by half. */
module OutputBuffer {

  const INLINE_BUFFER_SIZE: nat := 500

  function Max(x: nat, y: nat): nat {
    if x < y then y else x
  }

  // The capacity after making room for `needed` elements.
  function CapacityFor(capacity: nat, needed: nat): (c: nat)
    ensures c >= needed && c >= capacity
  {
    if needed > capacity then Max(needed, capacity + capacity / 2) else capacity
  }

  // Half as much again, or what is needed when that is more.
  lemma GrowsByHalf(capacity: nat, needed: nat)
    ensures needed <= capacity ==> CapacityFor(capacity, needed) == capacity
    ensures 2 * capacity < 2 * needed <= 3 * capacity ==> 2 * CapacityFor(capacity, needed) in {3 * capacity, 3 * capacity - 1}
    ensures 2 * needed > 3 * capacity ==> CapacityFor(capacity, needed) == needed
    ensures CapacityFor(500, 501) == 750 && CapacityFor(500, 2000) == 2000
  {
  }

  // Size, capacity and the number of elements grow has copied so far.
  datatype Usage = Usage(size: nat, capacity: nat, copied: nat)

  const EMPTY: Usage := Usage(0, INLINE_BUFFER_SIZE, 0)

  // Appending n elements, by append or, with n == 1, by push_back.
  function Appended(u: Usage, n: nat): Usage {
    Usage(u.size + n, CapacityFor(u.capacity, u.size + n),
          if u.size + n > u.capacity then u.copied + u.size else u.copied)
  }

  function AppendedAll(u: Usage, ns: seq<nat>): Usage {
    if ns == [] then u else Appended(AppendedAll(u, ns[..|ns| - 1]), ns[|ns| - 1])
  }

  ghost predicate Economical(u: Usage) {
    && u.size <= u.capacity && u.capacity >= INLINE_BUFFER_SIZE
    && u.copied <= 3 * u.capacity && u.copied <= 4 * u.size
  }

  lemma AppendStaysEconomical(u: Usage, n: nat)
    requires Economical(u)
    ensures Economical(Appended(u, n))
  {
  }

  // Over any run of appends from an empty buffer the elements copied are at most four times the size.
  lemma {:induction false} CopyingIsLinear(ns: seq<nat>)
    ensures Economical(AppendedAll(EMPTY, ns))
  {
    if ns != [] {
      CopyingIsLinear(ns[..|ns| - 1]);
      AppendStaysEconomical(AppendedAll(EMPTY, ns[..|ns| - 1]), ns[|ns| - 1]);
    }
  }

  class MemoryBuffer {
    var ptr: array<char>
    var size: nat
    var capacity: nat
    ghost var copied: nat

    ghost predicate Valid()
      reads this
    {
      ptr.Length == capacity && size <= capacity && capacity >= INLINE_BUFFER_SIZE
    }

    function Contents(): (s: seq<char>)
      reads this, ptr
      requires Valid()
    {
      ptr[..size]
    }

    ghost function Used(): Usage
      reads this
    {
      Usage(size, capacity, copied)
    }

    constructor ()
      ensures Valid() && Contents() == [] && Used() == EMPTY && fresh(ptr)
    {
      ptr := new char[INLINE_BUFFER_SIZE];
      size, capacity, copied := 0, INLINE_BUFFER_SIZE, 0;
    }

    // Moves the contents to new storage; called only when more room is needed than there is.
    method Grow(needed: nat)
      requires Valid() && needed > capacity
      modifies this
      ensures Valid() && size == old(size) && capacity == CapacityFor(old(capacity), needed)
      ensures fresh(ptr) && Contents() == old(Contents())
      ensures copied == old(copied) + size
    {
      var newCapacity := Max(needed, capacity + capacity / 2);
      var newPtr := new char[newCapacity];
      forall i | 0 <= i < size {
        newPtr[i] := ptr[i];
      }
      copied := copied + size;
      capacity := newCapacity;
      ptr := newPtr;
    }

    method Reserve(needed: nat)
      requires Valid()
      modifies this
      ensures Valid() && size == old(size) && capacity == CapacityFor(old(capacity), needed)
      ensures Contents() == old(Contents())
      ensures if needed > old(capacity) then fresh(ptr) else ptr == old(ptr)
    {
      if needed > capacity {
        Grow(needed);
      }
    }

    // New elements are not initialized.
    method Resize(newSize: nat)
      requires Valid()
      modifies this
      ensures Valid() && size == newSize && capacity == CapacityFor(old(capacity), newSize)
      ensures forall i :: 0 <= i < newSize && i < old(size) ==> ptr[i] == old(ptr[i])
      ensures if newSize > old(capacity) then fresh(ptr) else ptr == old(ptr)
    {
      if newSize > capacity {
        ghost var contents := Contents();
        Grow(newSize);
        assert forall i :: 0 <= i < size ==> ptr[i] == contents[i];
      }
      size := newSize;
    }

    method Clear()
      requires Valid()
      modifies `size
      ensures Valid() && Contents() == []
    {
      size := 0;
    }

    method PushBack(value: char)
      requires Valid()
      modifies this, ptr
      ensures Valid() && Contents() == old(Contents()) + [value]
      ensures Used() == Appended(old(Used()), 1)
      ensures ptr == old(ptr) || fresh(ptr)
    {
      if size == capacity {
        Grow(size + 1);
      }
      ptr[size] := value;
      size := size + 1;
    }

    method Append(data: seq<char>)
      requires Valid()
      modifies this, ptr
      ensures Valid() && Contents() == old(Contents()) + data
      ensures Used() == Appended(old(Used()), |data|)
      ensures ptr == old(ptr) || fresh(ptr)
    {
      if size + |data| > capacity {
        Grow(size + |data|);
      }
      forall i | 0 <= i < |data| {
        ptr[size + i] := data[i];
      }
      size := size + |data|;
    }
  }
}
