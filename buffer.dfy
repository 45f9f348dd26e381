// The fixed-size byte buffers with a fill level that the tool keeps for
// incoming data: the 64 KiB receive buffer of a receiver session
// (RECEIVEBUF_t, receiver.h) and the 4 KiB SPI read-back buffer
// (SPI_READBUFFER_t, spi_read_buffer.h). Both are filled at the end and
// drained at the front, the rest being moved down with memmove.
module Buffer {
  import opened Bytes

  class ByteBuffer {
    /** The storage; its length is the buffer's capacity. */
    const data: array<byte>
    /** Bytes in use, counted from the start of data (pEnd - Buf, or size). */
    var size: nat

    predicate Valid()
      reads this
    {
      size <= data.Length
    }

    /** The buffered bytes, oldest first. */
    function Contents(): (c: seq<byte>)
      reads this, data
      requires Valid()
      ensures |c| == size
    {
      data[..size]
    }

    /** Free space at the end. */
    function Room(): (r: nat)
      reads this
      requires Valid()
      ensures size + r == data.Length
    {
      data.Length - size
    }

    constructor (capacity: nat)
      ensures Valid() && fresh(data)
      ensures data.Length == capacity && size == 0
    {
      data := new byte[capacity];
      size := 0;
    }

    /** Empties the buffer (pCurrent = pEnd = Buf). */
    method Clear()
      requires Valid()
      modifies this
      ensures Valid() && Contents() == [] && Room() == data.Length
    {
      size := 0;
    }

    /** Stores s right after the buffered bytes, as a driver read into
        pEnd does, and advances the fill level by |s|. */
    method Append(s: seq<byte>)
      requires Valid() && |s| <= Room()
      modifies this, data
      ensures Valid() && Contents() == old(Contents()) + s
    {
      forall k | 0 <= k < |s| {
        data[size + k] := s[k];
      }
      assert data[..size + |s|] == old(data[..size]) + s;
      size := size + |s|;
    }

    /** Drops the first n bytes and moves the remaining ones, in their
        order, to the start of the storage (the memmove in
        rcvReceiveMessage and SPI_READ). */
    method Consume(n: nat)
      requires Valid() && n <= size
      modifies this, data
      ensures Valid() && Contents() == old(Contents())[n..]
    {
      var k := 0;
      while k < size - n
        modifies data
        invariant 0 <= k <= size - n
        invariant forall j :: 0 <= j < k ==> data[j] == old(data[n + j])
        invariant forall j :: k <= j < data.Length ==> data[j] == old(data[j])
      {
        data[k] := data[n + k];
        k := k + 1;
      }
      assert data[..size - n] == old(data[..size])[n..];
      size := size - n;
    }
  }
}
