/**
 * The part of java.nio.ByteBuffer the engine relies on: a window of a
 * backing byte array with a byte order and a position, absolute get/put,
 * relative bulk put, and slice(), which shares the backing array.
 */
module Buffers {
  import opened Bytes

  class ByteBuffer {
    /** The backing array; slices of one buffer share it. */
    const data: array<byte>
    /** Index in data of this buffer's byte 0. */
    const base: nat
    const capacity: nat
    var order: ByteOrder
    var position: nat

    ghost predicate Valid()
      reads this
    {
      base + capacity <= data.Length && position <= capacity
    }

    /** The bytes of the buffer, indexed as the absolute get/put operations index them. */
    function Bytes(): (s: seq<byte>)
      reads this, data
      requires Valid()
      ensures |s| == capacity
    {
      data[base..base + capacity]
    }

    /** The bytes from the position on: what slice() makes visible. */
    function Remaining(): (s: seq<byte>)
      reads this, data
      requires Valid()
      ensures |s| == capacity - position
    {
      Bytes()[position..]
    }

    /** ByteBuffer.allocate(n): zero-filled, big-endian, position 0. */
    constructor Allocate(n: nat)
      ensures Valid() && fresh(data)
      ensures base == 0 && capacity == n && data.Length == n
      ensures order == BigEndian && position == 0
      ensures Bytes() == Zeros(n)
    {
      data := new byte[n](_ => 0);
      base := 0;
      capacity := n;
      order := BigEndian;
      position := 0;
      new;
      assert data[..] == Zeros(n);
    }

    /** The buffer slice() returns: the remaining bytes, big-endian whatever the parent's order, position 0. */
    constructor SliceOf(parent: ByteBuffer)
      requires parent.Valid()
      ensures Valid() && data == parent.data
      ensures base == parent.base + parent.position && capacity == parent.capacity - parent.position
      ensures order == BigEndian && position == 0
      ensures Bytes() == parent.Remaining()
    {
      data := parent.data;
      base := parent.base + parent.position;
      capacity := parent.capacity - parent.position;
      order := BigEndian;
      position := 0;
    }

    method Slice() returns (s: ByteBuffer)
      requires Valid()
      ensures fresh(s) && s.Valid() && s.data == data
      ensures s.base == base + position && s.capacity == capacity - position
      ensures s.order == BigEndian && s.position == 0
      ensures s.Bytes() == Remaining()
    {
      s := new ByteBuffer.SliceOf(this);
    }

    method SetOrder(o: ByteOrder)
      requires Valid()
      modifies this
      ensures Valid() && order == o && position == old(position)
      ensures Bytes() == old(Bytes())
    {
      order := o;
    }

    method SetPosition(p: nat)
      requires Valid() && p <= capacity
      modifies this
      ensures Valid() && position == p && order == old(order)
      ensures Bytes() == old(Bytes())
    {
      position := p;
    }

    /** Absolute put(index, b): only the byte at index changes. */
    method Put(index: nat, b: byte)
      requires Valid() && index < capacity
      modifies data
      ensures data[..] == old(data[..])[base + index := b]
      ensures Bytes() == old(Bytes())[index := b]
    {
      data[base + index] := b;
    }

    /**
     * Relative bulk put(src): the remaining bytes of src are copied to this
     * buffer at its position, and both positions advance past them.
     */
    method PutBuffer(src: ByteBuffer)
      requires Valid() && src.Valid() && src.data != data
      requires |src.Remaining()| <= capacity - position
      modifies data, this, src
      ensures Valid() && src.Valid() && order == old(order) && src.order == old(src.order)
      ensures data[..] == Splice(old(data[..]), base + old(position), old(src.Remaining()))
      ensures Bytes() == Splice(old(Bytes()), old(position), old(src.Remaining()))
      ensures position == old(position) + |old(src.Remaining())| && src.position == src.capacity
    {
      ghost var before := data[..];
      ghost var w := src.Remaining();
      var p, from, n := position, src.base + src.position, src.capacity - src.position;
      var k := 0;
      while k < n
        invariant 0 <= k <= n
        invariant data[..] == Splice(before, base + p, w[..k])
        modifies data
      {
        SpliceSnoc(before, base + p, w[..k], w[k]);
        assert w[..k + 1] == w[..k] + [w[k]];
        data[base + p + k] := src.data[from + k];
        k := k + 1;
      }
      assert w[..n] == w;
      position := p + n;
      src.position := src.capacity;
      assert Bytes() == data[..][base..base + capacity];
      assert old(Bytes()) == before[base..base + capacity];
      SpliceWindow(before, base, base + capacity, base + p, w);
    }
  }
}
