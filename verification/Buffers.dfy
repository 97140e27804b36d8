/**
  The receive buffer: a byte vector whose length and capacity move separately.

  The capacity of a zeroed or shrunk vector is taken to be exact, as the source's own
  tests do. Bytes past the length stay in place until something overwrites them.
 */
module Buffers {
  import opened Prelude

  /** The value of a vector: every byte of its allocation, and how many are in use. */
  datatype Vec = Vec(store: seq<Byte>, len: nat) {
    predicate Valid() {
      len <= |store|
    }

    /** `clear`. */
    function Cleared(): Buf {
      Vec(store, 0)
    }

    /** `resize(capacity, 0)`, which never reallocates. */
    function Extended(): (b: Buf)
      requires Valid()
      ensures |b.store| == |store|
    {
      Vec(store[..len] + Zeros(|store| - len), |store|)
    }

    /** `resize(size, 0)` followed by `shrink_to_fit`. */
    function Resized(size: nat): (b: Buf)
      requires Valid()
      ensures |b.store| == size
    {
      Vec(store[..Min(len, size)] + Zeros(size - Min(len, size)), size)
    }

    /** The kernel's copy of a datagram into the allocation, cut at the capacity. */
    function Overwritten(datagram: seq<Byte>): (b: Buf)
      requires Valid()
      ensures |b.store| == |store| && b.len == len
    {
      var count := Min(|datagram|, |store|);
      Vec(datagram[..count] + store[count..], len)
    }
  }

  type Buf = v: Vec | v.Valid() witness Vec([], 0)

  function Fresh(size: nat): Buf {
    Vec(Zeros(size), size)
  }

  class ByteVec {
    var data: array<Byte>
    var len: nat

    ghost predicate Valid()
      reads this
    {
      len <= data.Length
    }

    ghost function Model(): (b: Buf)
      requires Valid()
      reads this, data
    {
      Vec(data[..], len)
    }

    constructor Zeroed(size: nat)
      ensures Valid() && fresh(data)
      ensures Model() == Fresh(size)
    {
      data := new Byte[size](_ => 0);
      len := size;
    }

    method Clear()
      requires Valid()
      modifies `len
      ensures Valid() && Model() == old(Model()).Cleared()
    {
      len := 0;
    }

    method SetLen(count: nat)
      requires Valid() && count <= data.Length
      modifies `len
      ensures Valid() && Model() == Vec(old(data[..]), count)
    {
      len := count;
    }

    /** Grows in place while the capacity allows, else moves to a larger allocation. */
    method Resize(size: nat)
      requires Valid()
      modifies this, data
      ensures Valid() && len == size
      ensures size <= old(data.Length) ==> data == old(data)
      ensures size > old(data.Length) ==> fresh(data)
      ensures data[..size] == old(Model()).Resized(size).store
      ensures size == old(data.Length) ==> Model() == old(Model()).Extended()
    {
      if size <= len {
        len := size;
      } else if size <= data.Length {
        forall i | len <= i < size {
          data[i] := 0;
        }
        len := size;
      } else {
        var grown := new Byte[if 2 * data.Length > size then 2 * data.Length else size](_ => 0);
        forall i | 0 <= i < len {
          grown[i] := data[i];
        }
        data, len := grown, size;
      }
    }

    method ShrinkToFit()
      requires Valid()
      modifies this
      ensures Valid() && (data == old(data) || fresh(data))
      ensures Model() == Vec(old(data[..len]), old(len))
    {
      if len < data.Length {
        var exact := new Byte[len](_ => 0);
        forall i | 0 <= i < len {
          exact[i] := data[i];
        }
        data := exact;
      }
    }

    /** `set_read_buffer_size` on every handle type is these two calls. */
    method SetSize(size: nat)
      requires Valid()
      modifies this, data
      ensures Valid() && (data == old(data) || fresh(data))
      ensures Model() == old(Model()).Resized(size)
    {
      Resize(size);
      ShrinkToFit();
    }
  }
}
