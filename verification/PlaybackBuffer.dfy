/**
  The packet buffer in front of a playback, the same for a recording and for LiveTV: a ring, and the
  packet callers are reading from.
*/
module PlaybackBuffer {
  import opened Options
  import opened Bytes
  import opened RingSpec
  import opened PacketRing

  class Buffer {
    const rbuf: RingBuffer
    var packet: Packet?
    var consumed: int
    /** The bytes read from the transfer and not yet handed out. */
    ghost var bytes: seq<Byte>

    /** The packet at hand has the bytes left. */
    ghost predicate AtHand()
      reads this, if packet == null then {} else {packet}
    {
      if packet == null then bytes == []
      else packet.Filled() && 0 <= consumed < packet.size && bytes == packet.Payload()[consumed..]
    }

    /** Between calls the ring is empty. */
    ghost predicate Valid()
      reads this, rbuf, rbuf.chunks, rbuf.held`size, rbuf.held`data, if packet == null then {} else {packet}
    {
      && rbuf.Valid() && Holds(rbuf.ring, [])
      && (packet != null ==> packet in rbuf.lent) && AtHand()
    }

    /** The slots are the same, and any packet that joined is new. */
    twostate predicate Keeps()
      reads rbuf
    {
      rbuf.chunks == old(rbuf.chunks) && fresh(rbuf.packets - old(rbuf.packets))
    }

    constructor (capacity: nat)
      requires capacity > 0
      ensures Valid() && bytes == [] && fresh(rbuf) && fresh(rbuf.chunks) && rbuf.packets == {}
    {
      rbuf := new RingBuffer(capacity);
      packet, consumed, bytes := null, 0, [];
      new;
      InitHolds(capacity);
    }

    /** `bytesUnread` of the ring and the rest of the packet at hand. */
    method Unread() returns (n: int)
      requires Valid()
      ensures n == |bytes|
    {
      n := rbuf.BytesUnread();
      HoldsTotal(rbuf.ring, []);
      if packet != null {
        n := n + packet.size - consumed;
      }
    }

    method IsEmpty() returns (b: bool)
      requires Valid()
      ensures b <==> bytes == []
    {
      b := packet == null;
    }

    /** Hands out bytes of the packet at hand; an emptied packet is recycled. */
    method Deliver(n: nat) returns (r: nat, out: seq<Byte>)
      requires Valid() && bytes != []
      modifies this`packet, this`consumed, this`bytes, rbuf`pool, rbuf`lent
      ensures Valid() && Keeps() && r == |out| == (if n < |old(bytes)| then n else |old(bytes)|)
      ensures old(bytes) == out + bytes
    {
      hide Holds;
      var s := packet.size - consumed;
      r := if n < s then n else s;
      out := packet.data[consumed..consumed + r];
      assert out == bytes[..r];
      consumed := consumed + r;
      assert packet.Payload()[consumed..] == bytes[r..];
      bytes := bytes[r..];
      if consumed >= packet.size {
        rbuf.FreePacket(packet);
        packet := null;
      }
    }

    /** `m_buffer.rbuf->read()` finds nothing. */
    method TakeNext()
      requires Valid() && bytes == []
      modifies this`packet, this`consumed, rbuf, rbuf.chunks
      ensures Valid() && Keeps() && bytes == []
    {
      hide RingBuffer.Linked, RingBuffer.Stocked, RingBuffer.Apart, RingBuffer.Union, RingBuffer.Within, Holds, FirstAt;
      HoldsTotal(rbuf.ring, []);
      ghost var i;
      packet, i := rbuf.Read();
      consumed := 0;
    }

    /** A packet to read a block into. */
    method Reserve(len: nat) returns (p: Packet)
      requires Valid() && bytes == []
      modifies rbuf`pool, rbuf`lent, rbuf`packets, rbuf.packets
      ensures Valid() && Keeps() && p in rbuf.lent && p in rbuf.packets && |p.data| >= len
    {
      hide RingBuffer.Valid, Holds;
      p := rbuf.NewPacket(len);
    }

    /** A block that came passes through the ring and is at hand; an unused packet is recycled. */
    method Store(p: Packet, r: int, block: seq<Byte>)
      requires Valid() && bytes == [] && p in rbuf.lent && (r > 0 ==> |block| == r <= |p.data|)
      modifies this, rbuf, rbuf.chunks, p
      ensures Valid() && Keeps() && bytes == if r > 0 then block else []
    {
      hide RingBuffer.Valid, Holds;
      if r > 0 {
        Fill(p, block);
        Pass(p);
      } else {
        rbuf.FreePacket(p);
      }
    }

    method Fill(p: Packet, block: seq<Byte>)
      requires rbuf.Valid() && p in rbuf.lent && |block| <= |p.data|
      modifies p`data, p`size
      ensures rbuf.Valid() && p.Filled() && p.size == |block| && p.Payload() == block
    {
      hide RingBuffer.Linked, RingBuffer.Stocked, RingBuffer.Apart, RingBuffer.Within;
      rbuf.LentApart(p);
      p.data := block + p.data[|block|..];
      p.size := |block|;
    }

    /** Through the empty ring: what is written is read. */
    method Pass(p: Packet)
      requires rbuf.Valid() && Holds(rbuf.ring, []) && p in rbuf.lent && p.Filled() && p.size > 0
      modifies this, rbuf, rbuf.chunks, p`id
      ensures Valid() && Keeps() && bytes == old(p.Payload())
    {
      hide RingBuffer.Linked, RingBuffer.Stocked, RingBuffer.Apart, RingBuffer.Union, RingBuffer.Within, Holds, FirstAt;
      ghost var b := p.Payload();
      rbuf.LinkedParts();
      WriteAppends(rbuf.ring, [], b);
      rbuf.WritePacket(p);
      assert [] + [b] == [b];
      HoldsTotal(rbuf.ring, [b]);
      ghost var i, written := 0, rbuf.ring;
      packet, i := rbuf.Read();
      ReadYields(written, [b], i, packet.Payload());
      consumed, bytes := 0, b;
    }

    /** All buffered data is dropped. */
    method Discard()
      requires Valid()
      modifies this, rbuf, rbuf.chunks
      ensures Valid() && Keeps() && bytes == []
    {
      hide RingBuffer.Linked, RingBuffer.Stocked, RingBuffer.Apart, RingBuffer.Union, RingBuffer.Within, Holds;
      if packet != null {
        rbuf.FreePacket(packet);
        packet := null;
      }
      rbuf.LinkedParts();
      ClearedHolds(rbuf.ring);
      rbuf.Clear();
      bytes := [];
    }
  }
}
