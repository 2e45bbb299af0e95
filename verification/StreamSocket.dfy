/**
  `TcpSocket` as a reader of a byte stream: small reads go through a buffer, large ones straight
  to the caller.
*/
module StreamSocket {
  import opened Bytes

  const BUFFER_SIZE := 1472

  /** One turn of the receive loop: up to `k` more bytes are there, or the wait fails. */
  datatype Arrival = Arrives(k: nat) | Fails

  class TcpSocket {
    const buffer: array<Byte>
    var bufptr: nat
    var rcvlen: nat
    /** What the peer has still to send, and how it will arrive; after that everything arrives at once. */
    var net: seq<Byte>
    var arrivals: seq<Arrival>

    ghost predicate Valid()
      reads this
    {
      buffer.Length == BUFFER_SIZE && bufptr <= rcvlen <= BUFFER_SIZE
    }

    /** The bytes still to be read, in order. */
    ghost function Stream(): seq<Byte>
      requires Valid()
      reads this, buffer
    {
      buffer[bufptr..rcvlen] + net
    }

    /** No wait fails before the peer is done. */
    ghost predicate Steady()
      reads this`arrivals
    {
      forall i :: 0 <= i < |arrivals| ==> arrivals[i].Arrives?
    }

    constructor (net: seq<Byte>, arrivals: seq<Arrival>)
      ensures Valid() && Stream() == net && this.arrivals == arrivals && fresh(buffer)
    {
      buffer := new Byte[BUFFER_SIZE];
      bufptr, rcvlen, this.net, this.arrivals := 0, 0, net, arrivals;
    }

    /** `poll` and `recv`: between one byte and `room` bytes, nothing at the end of the stream or on failure. */
    method Recv(room: nat) returns (bytes: seq<Byte>)
      modifies this`net, this`arrivals
      ensures bytes + net == old(net) && |bytes| <= room
      ensures old(Steady()) ==> Steady() && (room > 0 && old(net) != [] ==> bytes != [])
      ensures bytes == [] || |net| < |old(net)|
    {
      var k := room;
      if arrivals != [] {
        var a := arrivals[0];
        arrivals := arrivals[1..];
        k := if a.Fails? then 0 else if a.k == 0 then 1 else a.k;
      }
      k := if k > room then room else k;
      k := if k > |net| then |net| else k;
      bytes := net[..k];
      net := net[k..];
    }

    /** What is left in the buffer, first. */
    method TakeBuffered(n: nat) returns (bytes: seq<Byte>)
      requires Valid()
      modifies this`bufptr
      ensures Valid() && bytes + Stream() == old(Stream()) && |bytes| <= n
      ensures |bytes| < n ==> bufptr == rcvlen
    {
      var k := rcvlen - bufptr;
      k := if k > n then n else k;
      bytes := buffer[bufptr..bufptr + k];
      assert buffer[bufptr..rcvlen] == bytes + buffer[bufptr + k..rcvlen];
      bufptr := bufptr + k;
    }

    /** One receive of the loop, when the buffer is empty. */
    method ReceiveMore(n: nat) returns (bytes: seq<Byte>)
      requires Valid() && bufptr == rcvlen && n > 0
      modifies this`bufptr, this`rcvlen, this`net, this`arrivals, buffer
      ensures Valid() && bytes + Stream() == old(Stream()) && |bytes| <= n
      ensures |bytes| < n ==> bufptr == rcvlen
      ensures |bytes| < n && bytes != [] ==> |net| < |old(net)|
      ensures old(Steady()) ==> Steady() && (old(Stream()) != [] ==> bytes != [])
    {
      bufptr, rcvlen := 0, 0;
      if n < BUFFER_SIZE {
        var got := Recv(BUFFER_SIZE);
        forall i | 0 <= i < |got| {
          buffer[i] := got[i];
        }
        assert buffer[..|got|] == got;
        rcvlen := |got|;
        bytes := TakeBuffered(n);
      } else {
        bytes := Recv(n);
      }
    }

    /**
      `ReceiveData` hands out the next bytes of the stream, none lost, repeated or out of order, and
      as many as asked unless the stream ends or a wait fails.
    */
    method ReceiveData(n: nat) returns (bytes: seq<Byte>)
      requires Valid()
      modifies this`bufptr, this`rcvlen, this`net, this`arrivals, buffer
      ensures Valid() && bytes + Stream() == old(Stream()) && |bytes| <= n
      ensures old(Steady()) ==> Steady() && (|bytes| == n || Stream() == [])
    {
      hide Stream;
      bytes := TakeBuffered(n);
      while |bytes| < n
        invariant Valid() && |bytes| <= n && bytes + Stream() == old(Stream())
        invariant |bytes| < n ==> bufptr == rcvlen
        invariant old(Steady()) ==> Steady()
        decreases n - |bytes|
      {
        ghost var was, rest := bytes, Stream();
        var more := ReceiveMore(n - |bytes|);
        if more == [] {
          break;
        }
        bytes := bytes + more;
        assert was + more + Stream() == was + (more + Stream());
      }
    }
  }
}
