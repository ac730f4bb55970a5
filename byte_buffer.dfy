/** The part of java.nio.ByteBuffer the secure session uses: a heap buffer
    over a fixed backing array, with position, limit and mark
    (the capacity is the length of the array). */
module ByteBuffers {

  newtype byte = x: int | 0 <= x < 256

  class ByteBuffer {
    const hb: array<byte>
    var position: nat
    var limit: nat
    var mark: int   // -1 when no mark is set

    /** java.nio.Buffer's invariant: -1 <= mark <= position <= limit <= capacity */
    ghost predicate Valid()
      reads this
    {
      -1 <= mark <= position <= limit <= hb.Length
    }

    function Capacity(): nat
    {
      hb.Length
    }

    predicate HasRemaining()
      reads this
    {
      position < limit
    }

    /** ByteBuffer.allocate(capacity): zero-filled, position 0, limit = capacity. */
    constructor Allocate(capacity: nat)
      ensures Valid() && fresh(hb)
      ensures Capacity() == capacity && position == 0 && limit == capacity && mark == -1
      ensures forall i :: 0 <= i < capacity ==> hb[i] == 0
    {
      hb := new byte[capacity](_ => 0);
      position, limit, mark := 0, capacity, -1;
    }

    /** Buffer.clear(): ready for filling again; the bytes are left in place. */
    method Clear()
      modifies this
      ensures Valid() && position == 0 && limit == Capacity() && mark == -1
    {
      position, limit, mark := 0, hb.Length, -1;
    }

    /** Buffer.flip(): what was written becomes what can be read. */
    method Flip()
      requires Valid()
      modifies this
      ensures Valid() && limit == old(position) && position == 0 && mark == -1
    {
      limit, position, mark := position, 0, -1;
    }

    /** Buffer.mark(): remember the current position. */
    method Mark()
      requires Valid()
      modifies this`mark
      ensures Valid() && mark == position
    {
      mark := position;
    }

    /** ByteBuffer.compact(): the remaining bytes move to the front, position
        follows them, limit becomes the capacity, the mark is discarded. */
    method Compact()
      requires Valid()
      modifies this, hb
      ensures Valid()
      ensures position == old(limit - position) && limit == Capacity() && mark == -1
      ensures hb[..] == old(hb[position..limit] + hb[limit - position..])
    {
      var n := limit - position;
      ghost var before := hb[..];
      forall i | 0 <= i < n {
        hb[i] := hb[position + i];
      }
      assert hb[..n] == before[position..limit];
      assert hb[n..] == before[n..];
      assert hb[..] == hb[..n] + hb[n..];
      position, limit, mark := n, hb.Length, -1;
    }

    /** ByteBuffer.put(byte[]): BufferOverflowException (reported as
        overflow, nothing written) when the array exceeds the remaining space. */
    method PutBytes(src: seq<byte>) returns (overflow: bool)
      requires Valid()
      modifies this`position, hb
      ensures Valid() && limit == old(limit) && mark == old(mark)
      ensures overflow <==> |src| > old(limit - position)
      ensures overflow ==> position == old(position) && hb[..] == old(hb[..])
      ensures !overflow ==> position == old(position) + |src|
      ensures !overflow ==> hb[..] == old(hb[..position] + src + hb[position + |src|..])
    {
      overflow := |src| > limit - position;
      if !overflow {
        forall i | 0 <= i < |src| {
          hb[position + i] := src[i];
        }
        position := position + |src|;
      }
    }

    /** ByteBuffer.put(ByteBuffer src): copies src's remaining bytes and
        advances both positions; BufferOverflowException (overflow, nothing
        moves) when they do not fit. In this model two buffers never share
        a backing array, which also rules out put(this). */
    method Put(src: ByteBuffer) returns (overflow: bool)
      requires Valid() && src.Valid() && src.hb != hb
      modifies this`position, hb, src`position
      ensures Valid() && src.Valid() && limit == old(limit) && mark == old(mark)
      ensures overflow <==> old(src.limit - src.position) > old(limit - position)
      ensures overflow ==> position == old(position) && src.position == old(src.position) && hb[..] == old(hb[..])
      ensures !overflow ==> src.position == src.limit
      ensures !overflow ==> position == old(position) + old(src.limit - src.position)
      ensures !overflow ==> hb[..] == old(hb[..position] + src.hb[src.position..src.limit] + hb[position + (src.limit - src.position)..])
    {
      var n := src.limit - src.position;
      overflow := n > limit - position;
      if !overflow {
        forall i | 0 <= i < n {
          hb[position + i] := src.hb[src.position + i];
        }
        position := position + n;
        src.position := src.limit;
      }
    }
  }
}
