/** lib/collection/Vector.hpp: a bounded vector over a caller-supplied buffer. */
module Collection {
  import opened Common

  /**
   * `collection::Vector<Type_t>`: the first `length` cells of `buffer` are the elements; the
   * vector never allocates, and beyond `capacity` it refuses to grow.
   */
  class Vector<T> {
    const buffer: array<T>
    const capacity: uint32
    var length: uint32

    /** The buffer is non-null and holds at least `capacity` cells, and `capacity` is not zero. */
    ghost predicate Valid()
      reads this
    {
      0 < capacity <= buffer.Length && length <= capacity
    }

    /** The elements, oldest first. */
    function Contents(): seq<T>
      reads this, buffer
      requires Valid()
    {
      buffer[..length]
    }

    /** The constructor over a buffer of at least `capacity` cells; the source asserts `capacity != 0`. */
    constructor (p_buffer: array<T>, cap: uint32)
      requires cap != 0
      requires cap <= p_buffer.Length
      ensures Valid()
      ensures buffer == p_buffer && capacity == cap
      ensures Contents() == []
    {
      buffer := p_buffer;
      capacity := cap;
      length := 0;
    }

    /** `push_back`: appends `x` when there is room and reports whether it did; a full vector is left as it was. */
    method PushBack(x: T) returns (ok: bool)
      requires Valid()
      modifies this`length, buffer
      ensures Valid()
      ensures ok <==> old(length) < capacity
      ensures ok ==> Contents() == old(Contents()) + [x]
      ensures !ok ==> Contents() == old(Contents()) && buffer[..] == old(buffer[..])
      ensures forall k :: 0 <= k < buffer.Length && k != old(length) as int ==> buffer[k] == old(buffer[k])
    {
      ok := length < capacity;
      if ok {
        buffer[length] := x;
        length := length + 1;
      }
    }

    /** `pop_back`: drops the last element when there is one and reports whether it did. */
    method PopBack() returns (ok: bool)
      requires Valid()
      modifies this`length
      ensures Valid()
      ensures ok <==> old(length) > 0
      ensures ok ==> Contents() == old(Contents())[..old(length) - 1]
      ensures !ok ==> Contents() == old(Contents()) == []
    {
      ok := length > 0;
      if ok {
        length := length - 1;
      }
    }

    /** `clear`: forgets every element; the buffer cells are not touched. */
    method Clear()
      requires Valid()
      modifies this`length
      ensures Valid()
      ensures Contents() == []
    {
      length := 0;
    }

    /** `operator[]` used for reading; the source asserts `index < length`. */
    method Get(index: uint32) returns (x: T)
      requires Valid()
      requires index < length
      ensures x == Contents()[index]
    {
      x := buffer[index];
    }

    /** `operator[]` used for writing through the returned reference. */
    method Set(index: uint32, x: T)
      requires Valid()
      requires index < length
      modifies buffer
      ensures Valid()
      ensures Contents() == old(Contents())[index := x]
      ensures forall k :: length <= k < buffer.Length ==> buffer[k] == old(buffer[k])
    {
      buffer[index] := x;
      assert buffer[..length] == old(buffer[..length])[index := x];
    }

    /** `get_length`: the number of elements. */
    function Length(): (n: uint32)
      reads this, buffer
      requires Valid()
      ensures n as int == |Contents()|
      ensures n <= capacity
    {
      length
    }

    /** `get_capacity`. */
    function Capacity(): (n: uint32)
      reads this
      requires Valid()
      ensures n == capacity && n != 0
    {
      capacity
    }

    /** `is_empty`: there is no element. */
    function IsEmpty(): (b: bool)
      reads this, buffer
      requires Valid()
      ensures b <==> Contents() == []
    {
      0 == length
    }

    /** `is_full`: the next `push_back` would be refused. */
    function IsFull(): (b: bool)
      reads this, buffer
      requires Valid()
      ensures b <==> |Contents()| == capacity
    {
      length == capacity
    }
  }
}
