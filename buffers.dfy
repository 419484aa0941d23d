/**
 * The two buffer types the record detector reads: Netty's `ByteBuf` and
 * the JDK's `java.nio.ByteBuffer`, reduced to the operations the detector
 * and its segmented variant use. Bytes are stored as octets; reads in the
 * buffer's configured byte order assemble Java shorts from them.
 */
module Buffers {
  import opened JavaInts

  datatype ByteOrder = BigEndian | LittleEndian

  /** The short at `data[i], data[i + 1]` read in byte order `order`. */
  function ShortAt(data: seq<Octet>, i: nat, order: ByteOrder): JShort
    requires i + 2 <= |data|
  {
    match order
    case BigEndian => ShortOf(data[i], data[i + 1])
    case LittleEndian => ShortOf(data[i + 1], data[i])
  }

  /**
   * A Netty `ByteBuf`: a fixed-capacity array of bytes with a byte order
   * (a little-endian buffer is Netty's swapped view) and a read-only flag.
   * The reader and writer indices are not modelled: the detector uses
   * absolute reads only.
   */
  class ByteBuf {
    const data: array<Octet>
    const order: ByteOrder
    const readOnly: bool

    constructor (data: array<Octet>, order: ByteOrder, readOnly: bool)
      ensures this.data == data && this.order == order && this.readOnly == readOnly
    {
      this.data := data;
      this.order := order;
      this.readOnly := readOnly;
    }

    /** `getUnsignedByte(index)`. */
    function GetUnsignedByte(index: nat): (r: int)
      reads data
      requires index < data.Length
      ensures 0 <= r < 0x100
    {
      data[index]
    }

    /** `getShort(index)`, in the buffer's byte order. */
    function GetShort(index: nat): JShort
      reads data
      requires index + 2 <= data.Length
    {
      ShortAt(data[..], index, order)
    }

    /** `getUnsignedShort(index)`, that is `getShort(index) & 0xFFFF`. */
    function GetUnsignedShort(index: nat): (r: int)
      reads data
      requires index + 2 <= data.Length
      ensures 0 <= r < 0x1_0000
    {
      GetShort(index) % 0x1_0000
    }

    /** `setZero(index, length)`: writes `length` zero bytes from `index` on. */
    method SetZero(index: nat, length: nat)
      requires !readOnly
      requires index + length <= data.Length
      modifies data
      ensures forall k :: 0 <= k < data.Length ==>
        data[k] == if index <= k < index + length then 0 else old(data[k])
    {
      var i := index;
      while i < index + length
        invariant index <= i <= index + length
        invariant forall k :: 0 <= k < data.Length ==>
          data[k] == if index <= k < i then 0 else old(data[k])
      {
        data[i] := 0;
        i := i + 1;
      }
    }
  }

  /**
   * A heap `java.nio.ByteBuffer`: a backing array (shared with duplicates),
   * a position, a limit and a byte order. The bytes between position and
   * limit are the buffer's remaining bytes.
   */
  class ByteBuffer {
    const hb: array<Octet>
    var position: nat
    var limit: nat
    var order: ByteOrder

    ghost predicate Valid()
      reads this
    {
      position <= limit <= hb.Length
    }

    /** The remaining bytes, `position` up to `limit`. */
    ghost function Window(): seq<Octet>
      reads this, hb
      requires Valid()
    {
      hb[position..limit]
    }

    /** `ByteBuffer.allocate(capacity)`: zero-filled, big-endian. */
    constructor Allocate(capacity: nat)
      ensures Valid() && fresh(hb)
      ensures hb.Length == capacity && position == 0 && limit == capacity && order == BigEndian
      ensures forall k :: 0 <= k < capacity ==> hb[k] == 0
    {
      hb := new Octet[capacity](_ => 0);
      position, limit, order := 0, capacity, BigEndian;
    }

    /** `ByteBuffer.wrap(backing, offset, length)`: a big-endian view of the
        given array, positioned at `offset`. */
    constructor Wrap(backing: array<Octet>, offset: nat, length: nat)
      requires offset + length <= backing.Length
      ensures Valid()
      ensures hb == backing && position == offset && limit == offset + length && order == BigEndian
    {
      hb := backing;
      position, limit, order := offset, offset + length, BigEndian;
    }

    /** `remaining()`. */
    function Remaining(): (n: nat)
      reads this
      requires Valid()
      ensures n == |Window()|
    {
      limit - position
    }

    /** `hasRemaining()`. */
    function HasRemaining(): (b: bool)
      reads this
      requires Valid()
      ensures b <==> Window() != []
    {
      position < limit
    }

    /** `get(index)`: the absolute read of a signed byte; the index must lie
        below the limit. */
    function Get(index: nat): (b: JByte)
      reads this, hb
      requires Valid() && index < limit
      ensures b % 0x100 == hb[index]
    {
      ToByte(hb[index])
    }

    /** `getShort(index)`: the absolute read of a short in the buffer's byte
        order. */
    function GetShort(index: nat): JShort
      reads this, hb
      requires Valid() && index + 2 <= limit
    {
      ShortAt(hb[..], index, order)
    }

    /** `duplicate()`: a new buffer object over the same array with the same
        position and limit; the duplicate is big-endian. */
    method Duplicate() returns (d: ByteBuffer)
      requires Valid()
      ensures fresh(d) && d.Valid()
      ensures d.hb == hb && d.position == position && d.limit == limit && d.order == BigEndian
    {
      d := new ByteBuffer.Wrap(hb, position, limit - position);
    }

    /** `limit(newLimit)`: a position beyond the new limit is pulled back to it. */
    method SetLimit(newLimit: nat)
      requires Valid() && newLimit <= hb.Length
      modifies this
      ensures Valid() && limit == newLimit && order == old(order)
      ensures position == if old(position) > newLimit then newLimit else old(position)
    {
      limit := newLimit;
      if position > newLimit {
        position := newLimit;
      }
    }

    /** `flip()`: the limit becomes the position and the position zero. */
    method Flip()
      requires Valid()
      modifies this
      ensures Valid() && limit == old(position) && position == 0 && order == old(order)
    {
      limit := position;
      position := 0;
    }

    /**
     * `put(src)`: copies the remaining bytes of `src` to this buffer at its
     * position and advances both positions. The JDK throws when `src` is
     * this buffer or when `src` has more remaining bytes than this buffer.
     */
    method Put(src: ByteBuffer)
      requires Valid() && src.Valid() && src != this
      requires src.Remaining() <= Remaining()
      modifies this, hb, src
      ensures Valid() && src.Valid()
      ensures position == old(position) + old(src.Remaining())
      ensures limit == old(limit) && order == old(order)
      ensures src.position == old(src.limit) && src.limit == old(src.limit) && src.order == old(src.order)
      ensures hb[..] == old(hb[..position]) + old(src.Window()) + old(hb[position + src.Remaining()..])
    {
      var n := src.limit - src.position;
      ghost var written := hb[..position] + src.hb[src.position..src.limit] + hb[position + n..];
      forall k | 0 <= k < n {
        hb[position + k] := src.hb[src.position + k];
      }
      assert hb[..] == written;
      position := position + n;
      src.position := src.limit;
    }
  }
}
