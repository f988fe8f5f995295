/** The growable byte buffer of std_buffer_array.c. */
module BufferArray {

  const DEFAULT_CAPACITY: nat := 64

  class Buffer {
    var data: array<bv8>
    var size: nat
    var capacity: nat

    ghost predicate Valid()
      reads this
    {
      size <= capacity == data.Length && capacity > 0
    }

    ghost function Contents(): (s: seq<bv8>)
      requires Valid()
      reads this, data
    {
      data[..size]
    }

    constructor (defaultCapacity: nat)
      ensures Valid() && fresh(data) && Contents() == []
      ensures capacity == if defaultCapacity == 0 then DEFAULT_CAPACITY else defaultCapacity
    {
      var n := if defaultCapacity == 0 then DEFAULT_CAPACITY else defaultCapacity;
      data := new bv8[n];
      size := 0;
      capacity := n;
    }

    // The buffer doubles at most once per call, so one doubling must make room.
    method Put(bytes: seq<bv8>)
      requires Valid() && size + |bytes| <= 2 * capacity
      modifies this, data
      ensures Valid() && (data == old(data) || fresh(data))
      ensures Contents() == old(Contents()) + bytes
      ensures capacity == if old(size) + |bytes| > old(capacity) then 2 * old(capacity) else old(capacity)
    {
      if size + |bytes| > capacity {
        var bigger := new bv8[capacity * 2];
        forall i | 0 <= i < capacity {
          bigger[i] := data[i];
        }
        assert bigger[..size] == data[..size];
        capacity := capacity * 2;
        data := bigger;
      }
      assert data[..size] == old(Contents());
      CopyIn(bytes);
      size := size + |bytes|;
    }

    // memcpy to the end of what there is.
    method CopyIn(bytes: seq<bv8>)
      requires size + |bytes| <= data.Length
      modifies data
      ensures data[..size + |bytes|] == old(data[..size]) + bytes
    {
      ghost var before := data[..size];
      forall i | 0 <= i < |bytes| {
        data[size + i] := bytes[i];
      }
      assert data[..size] == before;
      assert data[size..size + |bytes|] == bytes;
      assert data[..size + |bytes|] == data[..size] + data[size..size + |bytes|];
    }

    method Clear()
      requires Valid()
      modifies this`size, data
      ensures Valid() && Contents() == []
    {
      size := 0;
      forall i | 0 <= i < data.Length {
        data[i] := 0;
      }
    }
  }
}
