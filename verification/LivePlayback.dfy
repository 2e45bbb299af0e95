/** LiveTV as its callers see it: the chain read through the packet buffer, a plain file that grows. */
module LivePlayback {
  import opened Options
  import opened Bytes
  import opened FileTransfer
  import opened PacketRing
  import opened PlaybackBuffer
  import opened PlainFile
  import opened LiveChain

  class LiveTVPlayback {
    const chain: Chain
    const buffer: Buffer
    var chunk: nat

    constructor (chain: Chain, capacity: nat, chunk: nat)
      requires capacity > 0 && chain.Valid() && chain.Streaming()
      ensures this.chain == chain && this.chunk == chunk && buffer.Valid() && Streams() && buffer.bytes == []
      ensures fresh(buffer) && fresh(buffer.rbuf) && fresh(buffer.rbuf.chunks) && buffer.rbuf.packets == {}
    {
      hide Chain.Valid, Chain.Streaming, Chain.Stream, Chain.Head;
      this.chain, this.chunk := chain, chunk;
      buffer := new Buffer(capacity);
      new;
      chain.Here();
    }

    /** The position in the stream of the next byte a caller gets. */
    ghost function Logical(): int
      reads chain, buffer`bytes
    {
      chain.Head() - |buffer.bytes|
    }

    /** What is buffered are the stream's bytes just before the chain's position. */
    ghost predicate Streams()
      reads chain, chain.recorder, chain.chained, buffer`bytes
    {
      chain.Valid() && chain.Streaming() && chain.Stream(buffer.bytes, Logical(), chain.Head())
    }

    method GetPosition() returns (pos: int)
      requires chain.Valid() && buffer.Valid()
      ensures pos == Logical()
    {
      var unread := buffer.Unread();
      pos := chain.GetPosition(unread);
    }

    // -------------------------------------------------------------- reading

    /** The stream was a prefix of what it is. */
    ghost predicate Grows(was: seq<View>)
      reads chain
    {
      Extends(chain.files, Sizes(was), Sizes(chain.views))
    }

    /** Why a read may fail: no file, a file that cannot be opened, trouble with the network. */
    ghost predicate Refused(live: LiveNet, seq0: nat)
      reads chain
    {
      seq0 == 0 || chain.Unannounced(live) || Chain.Troubles(live.net, 10)
    }

    /** Why a read may give nothing: no room, the known end of the stream, or grants of nothing. */
    ghost predicate Nothing(live: LiveNet, from: nat, sizes: seq<int>, ahead: bool)
      reads this, chain
    {
      chunk == 0 || chain.NothingToGive(live, from, sizes, ahead)
    }

    /** The sizes of the files are what they were, or were announced or reported meanwhile. */
    ghost predicate Traces(was: seq<View>, live: LiveNet, fp: int)
      reads chain
    {
      AllTraced(was, chain.files, live, fp, Sizes(chain.views))
    }

    /** The buffer is empty: a block of the stream goes into a packet, through the ring, and is at hand. */
    method Fetch(live: LiveNet) returns (r: int)
      requires buffer.Valid() && Streams() && buffer.bytes == []
      modifies chain`current, chain`currentTransfer, chain`views, chain.recorder, chain.chained
      modifies buffer, buffer.rbuf, buffer.rbuf.chunks, buffer.rbuf.packets
      ensures buffer.Valid() && buffer.Keeps() && chain.Valid() && Grows(old(chain.views))
      ensures old(chain.current) <= chain.current && (r == -1 || r >= 0)
      ensures r >= 0 ==> Streams() && Logical() == old(Logical()) && |buffer.bytes| == r
      ensures r == -1 ==> buffer.bytes == [] && Refused(live, old(chain.current))
      ensures r == 0 ==> Nothing(live, old(chain.current), old(Sizes(chain.views)), old(chain.ReadsAhead(live)))
      ensures r == 0 && chunk > 0 && old(chain.ReadsAhead(live))
              && !chain.Exhausted(old(chain.current), live.polled) ==>
        forall i :: 0 <= i < 10 ==> live.net(i).grant == 0
      ensures forall k, size :: 0 <= k < 10 && old(chain.GrowsAndFeeds(chunk, live, size, k)) ==>
        r == Playback.BlockSize(Min(size - old(chain.FilePosition()), chunk))
      ensures Traces(old(chain.views), live, old(chain.FilePosition()))
      ensures old(chain.Promptly(chunk, live.net)) ==> r == Playback.BlockSize(old(chain.Left(chunk)))
    {
      hide Buffer.Valid, Refused, Nothing, Grows, Chain.Streaming, Chain.Stream, Chain.Head, Chain.Size;
      hide Chain.Promptly, Chain.Left, Chain.FilePosition, Chain.Finished, Traces;
      var p := Prepare();
      assert forall k, size ::
        chain.GrowsAndFeeds(chunk, live, size, k) == old(chain.GrowsAndFeeds(chunk, live, size, k));
      var bytes;
      r, bytes := ReadBlock(live);
      Keep(p, r, bytes);
    }

    /** The block, from the chain; the buffer is not concerned. */
    method ReadBlock(live: LiveNet) returns (r: int, bytes: seq<Byte>)
      requires buffer.Valid() && Streams() && buffer.bytes == []
      modifies chain`current, chain`currentTransfer, chain`views, chain.recorder, chain.chained
      ensures buffer.Valid() && chain.Valid() && Grows(old(chain.views))
      ensures old(chain.current) <= chain.current && (r == -1 || 0 <= r <= chunk)
      ensures r >= 0 ==> chain.Streaming() && chain.Head() == old(chain.Head()) + r
      ensures r >= 0 ==> |bytes| == r && chain.Stream(bytes, old(chain.Head()), chain.Head())
      ensures r == -1 ==> Refused(live, old(chain.current))
      ensures r == 0 ==> Nothing(live, old(chain.current), old(Sizes(chain.views)), old(chain.ReadsAhead(live)))
      ensures r == 0 && chunk > 0 && old(chain.ReadsAhead(live))
              && !chain.Exhausted(old(chain.current), live.polled) ==>
        forall i :: 0 <= i < 10 ==> live.net(i).grant == 0
      ensures forall k, size :: 0 <= k < 10 && old(chain.GrowsAndFeeds(chunk, live, size, k)) ==>
        r == Playback.BlockSize(Min(size - old(chain.FilePosition()), chunk))
      ensures Traces(old(chain.views), live, old(chain.FilePosition()))
      ensures old(chain.Promptly(chunk, live.net)) ==> r == Playback.BlockSize(old(chain.Left(chunk)))
    {
      hide Buffer.Valid, Chain.Valid, Chain.Streaming, Chain.Head, Chain.Troubles, Chain.Unannounced, Extends;
      hide Chain.NothingToGive, Chain.Promptly, Chain.Left, Chain.FilePosition, Chain.Finished, Chain.Size;
      hide AllTraced, Stalls;
      r, bytes := chain.ReadChain(chunk, live, q => At(q), 2 * RCVBUF);
      Chain.MoreTries(live.net);
    }

    /** The block goes through the ring and is at hand. */
    method Keep(p: Packet, r: int, bytes: seq<Byte>)
      requires buffer.Valid() && buffer.bytes == [] && p in buffer.rbuf.lent && (r > 0 ==> |bytes| == r <= |p.data|)
      requires chain.Valid()
      requires r >= 0 ==> chain.Streaming() && |bytes| == r && chain.Stream(bytes, chain.Head() - r, chain.Head())
      modifies buffer, buffer.rbuf, buffer.rbuf.chunks, p
      ensures buffer.Valid() && buffer.Keeps() && chain.Valid()
      ensures if r >= 0 then Streams() && |buffer.bytes| == r else buffer.bytes == []
    {
      hide Buffer.Valid, Chain.Valid, Chain.Streaming, Chain.Stream, Chain.Head;
      assert r == 0 ==> bytes == [];
      buffer.Store(p, r, bytes);
    }

    /** A packet to read into; the chain is not concerned. */
    method Prepare() returns (p: Packet)
      requires buffer.Valid() && Streams() && buffer.bytes == []
      modifies buffer, buffer.rbuf, buffer.rbuf.chunks, buffer.rbuf.packets
      ensures buffer.Valid() && buffer.Keeps() && buffer.bytes == [] && Streams()
      ensures p in buffer.rbuf.lent && p in buffer.rbuf.packets && |p.data| >= chunk
    {
      hide Buffer.Valid, Chain.Streaming, Chain.Stream, Chain.Valid;
      buffer.TakeNext();
      p := buffer.Reserve(chunk);
    }

    /** Hands out what is at hand; the chain is not concerned. */
    method HandOut(n: nat) returns (r: int, bytes: seq<Byte>)
      requires buffer.Valid() && Streams() && buffer.bytes != []
      modifies buffer, buffer.rbuf
      ensures buffer.Valid() && buffer.Keeps() && buffer.rbuf.packets == old(buffer.rbuf.packets)
      ensures Streams() && r == Min(n, |old(buffer.bytes)|) && Logical() == old(Logical()) + r
      ensures chain.Stream(bytes, old(Logical()), Logical())
      ensures |bytes| == r && |buffer.bytes| == |old(buffer.bytes)| - r
    {
      hide Buffer.Valid, Chain.Valid, Chain.Streaming, Chain.Head, Chain.Stream;
      ghost var b, at, head := buffer.bytes, Logical(), chain.Head();
      r, bytes := buffer.Deliver(n);
      chain.Split(b, bytes, buffer.bytes, at, head);
    }

    /**
      `Read`: at most `n` bytes of the stream from the caller's position, which moves on by as many. What is
      buffered comes first. It fails only without a file, when the next file cannot be opened or for
      trouble with the network, and gives nothing only at the known end or for a grant of nothing.
    */
    method Read(n: nat, live: LiveNet) returns (r: int, bytes: seq<Byte>)
      requires buffer.Valid() && Streams()
      modifies chain`current, chain`currentTransfer, chain`views, chain.recorder, chain.chained
      modifies buffer, buffer.rbuf, buffer.rbuf.chunks, buffer.rbuf.packets
      ensures buffer.Valid() && buffer.Keeps() && chain.Valid() && Grows(old(chain.views))
      ensures old(chain.current) <= chain.current && (r == -1 || 0 <= r <= n)
      ensures r >= 0 ==> Streams() && Logical() == old(Logical()) + r
      ensures r >= 0 ==> |bytes| == r && chain.Stream(bytes, old(Logical()), Logical())
      ensures old(buffer.bytes) != [] ==> r == Min(n, |old(buffer.bytes)|)
      ensures r == -1 ==> old(buffer.bytes) == [] && Refused(live, old(chain.current))
      ensures r == 0 && n > 0 ==>
        && old(buffer.bytes) == [] == buffer.bytes
        && Nothing(live, old(chain.current), old(Sizes(chain.views)), old(chain.ReadsAhead(live)))
      ensures
        if old(buffer.bytes) == [] then Traces(old(chain.views), live, old(chain.FilePosition()))
        else chain.views == old(chain.views)
      ensures r == 0 && n > 0 && chunk > 0 && old(chain.ReadsAhead(live))
              && !chain.Exhausted(old(chain.current), live.polled) ==>
        forall i :: 0 <= i < 10 ==> live.net(i).grant == 0
      ensures old(buffer.bytes) == [] ==>
        forall k, size :: 0 <= k < 10 && old(chain.GrowsAndFeeds(chunk, live, size, k)) ==>
          r == Min(n, Playback.BlockSize(Min(size - old(chain.FilePosition()), chunk)))
      ensures old(buffer.bytes) == [] && old(chain.Promptly(chunk, live.net)) ==>
        && r == Min(n, Playback.BlockSize(old(chain.Left(chunk))))
        && |buffer.bytes| == Playback.BlockSize(old(chain.Left(chunk))) - r
    {
      hide Buffer.Valid, Refused, Nothing, Grows, Logical, Chain.Streaming, Chain.Stream, Chain.Head, Chain.Size;
      hide Chain.Valid, Chain.Promptly, Chain.Left, Chain.FilePosition, Chain.Finished, Traces;
      bytes := [];
      chain.FeedsSomething(chunk, live);
      var empty := buffer.IsEmpty();
      NotGrown();
      AtHead();
      if empty {
        assert forall k, size ::
          chain.GrowsAndFeeds(chunk, live, size, k) == old(chain.GrowsAndFeeds(chunk, live, size, k));
        r := Fetch(live);
        if r <= 0 {
          AtHead();
          return;
        }
      }
      r, bytes := HandOut(n);
    }

    lemma NotGrown()
      requires chain.Streaming()
      ensures Grows(chain.views)
    {
      InOrderBounded(chain.views, chain.files, chain.current);
    }

    lemma AtHead()
      ensures buffer.bytes == [] ==> Logical() == chain.Head()
      ensures Streams() && buffer.bytes == [] ==> chain.Stream([], Logical(), Logical())
    {
    }

    // -------------------------------------------------------------- seeking

    /** The place in the stream a seek asks for. */
    ghost function Target(offset: int, whence: Whence): int
      reads chain, buffer`bytes
    {
      Goal(Logical(), chain.Size(), FROM_END, offset, whence)
    }

    /** What a seek by zero reports for the position `p` of the next byte a caller gets. */
    static function Reported(p: int, unread: nat): int {
      if p >= unread then p - unread else p
    }

    /** The position of the chain and what is buffered before it, by the values alone. */
    static ghost predicate Stands(views: seq<View>, files: seq<seq<Byte>>, current: nat, bytes: seq<Byte>, at: int) {
      && at == (if 0 < current <= |views| then Start(Sizes(views), current - 1) + views[current - 1].position else 0)
      && Bounded(files, Sizes(views)) && 0 <= at - |bytes| <= at <= Start(Sizes(views), |views|)
      && bytes == Content(files, Sizes(views), |files|)[at - |bytes|..at]
    }

    lemma StandsExactly(at: int)
      requires chain.Streaming()
      ensures chain.Head() == at && chain.Stream(buffer.bytes, at - |buffer.bytes|, at) <==>
              Stands(chain.views, chain.files, chain.current, buffer.bytes, at)
    {
      InOrderBounded(chain.views, chain.files, chain.current);
    }

    lemma InsideStream(at: int)
      requires Stands(chain.views, chain.files, chain.current, buffer.bytes, at)
      ensures |buffer.bytes| <= at <= chain.Size()
    {
    }

    /** A seek by zero: nothing moves, and the buffered bytes are taken off once by `_seek` and once here. */
    method SeekByZero(reply: int -> Answer, patience: nat) returns (r: int)
      requires buffer.Valid() && Streams() && chain.current > 0 && Chain.Honest(reply) && patience >= 2 * RCVBUF
      modifies chain`current, chain`currentTransfer, chain`views, chain.recorder, chain.chained
      ensures buffer.Valid() && Streams() && Logical() == old(Logical())
      ensures chain.current == old(chain.current) && chain.views == old(chain.views)
      ensures r == Reported(Logical(), |buffer.bytes|)
    {
      hide Buffer.Valid, Chain.Honest, Chain.Valid, Chain.Streaming, Chain.Healthy, Chain.Head, Start;
      hide Chain.Sought, Chain.Stream, Stands, Sizes;
      ghost var at := chain.Head();
      chain.IsHealthy();
      chain.Here();
      StandsExactly(at);
      InsideStream(at);
      var unread := buffer.Unread();
      var p := chain.SeekChain(0, Cur, unread, reply, patience);
      StandsExactly(at);
      r := Reported(p, unread);
    }

    /** A seek to a place with the buffer empty: the chain goes there, or nowhere. */
    method SeekTo(offset: int, whence: Whence, reply: int -> Answer, patience: nat) returns (r: int)
      requires buffer.Valid() && Streams() && chain.current > 0 && Chain.Honest(reply) && patience >= 2 * RCVBUF
      requires buffer.bytes == []
      modifies chain`current, chain`currentTransfer, chain`views, chain.recorder, chain.chained
      ensures buffer.Valid() && Streams() && chain.current > 0 && Sizes(chain.views) == old(Sizes(chain.views))
      ensures
        var p := old(Target(offset, whence));
        && (if r != -1 then r == p == Logical() && 0 <= p <= chain.Size() else Logical() == old(Logical()))
        && (0 <= p <= chain.Size() && (forall q :: reply(q) == At(q)) ==> r == p)
    {
      hide Buffer.Valid, Chain.Honest, Chain.Streaming, Chain.Stream, Chain.Valid, Chain.Size;
      hide Sound, Start, Sizes;
      chain.IsHealthy();
      r := chain.SeekChain(offset, whence, 0, reply, patience);
      chain.Here();
    }

    method Drop()
      requires buffer.Valid() && Streams()
      modifies buffer, buffer.rbuf, buffer.rbuf.chunks
      ensures buffer.Valid() && buffer.Keeps() && Streams() && buffer.bytes == [] && chain.Head() == old(chain.Head())
    {
      hide Buffer.Valid, Chain.Valid, Chain.Streaming, Chain.Stream, Chain.Head;
      chain.Here();
      buffer.Discard();
    }

    /**
      `Seek`. A seek to a place, or by a nonzero distance from where the caller is, takes the caller
      there and drops the buffer; one that fails only drops the buffer. A seek by zero moves nothing,
      and what it reports is the caller's position if and only if the buffer is empty or holds more
      than lies before that position.
    */
    method Seek(offset: int, whence: Whence, reply: int -> Answer, patience: nat) returns (r: int)
      requires buffer.Valid() && Streams() && chain.current > 0 && Chain.Honest(reply) && patience >= 2 * RCVBUF
      modifies chain`current, chain`currentTransfer, chain`views, chain.recorder, chain.chained
      modifies buffer, buffer.rbuf, buffer.rbuf.chunks
      ensures buffer.Valid() && buffer.Keeps() && Streams() && chain.current > 0
      ensures Sizes(chain.views) == old(Sizes(chain.views))
      ensures whence == Cur && offset == 0 ==>
        && Logical() == old(Logical()) && buffer.bytes == old(buffer.bytes) && r == Reported(Logical(), |buffer.bytes|)
        && (r == Logical() <==> buffer.bytes == [] || Logical() < |buffer.bytes|)
      ensures !(whence == Cur && offset == 0) ==>
        var p := old(Target(offset, whence));
        && buffer.bytes == []
        && (if r != -1 then r == p == Logical() && 0 <= p <= chain.Size() else Logical() == old(chain.Head()))
        && (0 <= p <= chain.Size() && (forall q :: reply(q) == At(q)) ==> r == p)
      ensures r != -1 && !(whence == Cur && offset == 0) ==>
        r == match whence
          case Set => offset
          case Cur => old(Logical()) + offset
          case End => old(chain.Size()) + offset
    {
      hide Buffer.Valid, Chain.Valid, Chain.Honest, Chain.Streaming, Chain.Stream, Chain.Head, Chain.Size, Sizes;
      var distance := offset;
      if whence == Cur {
        if offset == 0 {
          r := SeekByZero(reply, patience);
          return;
        }
        var unread := buffer.Unread();
        distance := offset - unread;
      }
      Drop();
      r := SeekTo(distance, whence, reply, patience);
    }

    // -------------------------------------------------------------- whole sessions

    /** Why a read may give nothing, as its caller can see it. */
    static predicate Idle(at: int, live: LiveNet, size: int) {
      at >= size || live.net(0).grant == 0
    }

    /** Trouble with the network, or a file the backend does not announce. */
    static ghost predicate Amiss(live: LiveNet) {
      Chain.Troubles(live.net, 10) || exists k: nat :: live.announced(k) == None
    }

    /** Why a call may fail: something is amiss, a place outside the stream, no answer. */
    static ghost predicate Blocked(op: Op<LiveNet>, at: int, size: int) {
      match op
      case ReadOp(_, live) => Amiss(live)
      case SeekOp(offset, whence, answered) => !(answered && 0 <= Goal(at, size, FROM_END, offset, whence) <= size)
    }

    /** Any call but a seek by zero. */
    static predicate Moves(op: Op<LiveNet>) {
      op.SeekOp? ==> op.whence != Cur || op.offset != 0
    }

    /** When a read may give nothing. */
    static function NothingLeft(chunk: nat): Excuse<LiveNet> {
      (at: int, op: Op<LiveNet>, out: Out) => chunk == 0 || (op.ReadOp? && Idle(at, op.net, out.size))
    }

    ghost predicate Served(op: Op<LiveNet>, out: Out, at: int)
      requires Streams()
      reads this, chain, chain.recorder, chain.chained, buffer`bytes
    {
      Serves(chain.Contents(), at, FROM_END, op, out, NothingLeft(chunk))
    }

    method PerformRead(n: nat, live: LiveNet) returns (out: Out)
      requires buffer.Valid() && Streams() && chain.current > 0
      modifies chain`current, chain`currentTransfer, chain`views, chain.recorder, chain.chained
      modifies buffer, buffer.rbuf, buffer.rbuf.chunks, buffer.rbuf.packets
      ensures buffer.Valid() && buffer.Keeps() && chain.Valid() && chain.current > 0 && Grows(old(chain.views))
      ensures out.size == old(chain.Size()) && AllTold(old(chain.views), chain.views, chain.files, [ReadOp(n, live)])
      ensures out.r < 0 ==> Amiss(live)
      ensures out.r >= 0 ==> Streams() && Logical() == old(Logical()) + out.r
      ensures out.r >= 0 ==> Served(ReadOp(n, live), out, old(Logical())) && Persists(ReadOp(n, live), out)
    {
      hide Buffer.Valid, Nothing, Grows, ReadOut, Traces, Chain.Troubles, Chain.Streaming, Chain.Head, Chain.Valid;
      hide Start, Sizes, Chain.Promptly, Chain.Left, Chain.FilePosition, Chain.Finished, AllTold;
      var size := chain.GetSize();
      AtHead();
      ghost var fp, ahead, seq0, was := chain.FilePosition(), chain.ReadsAhead(live), chain.current, chain.views;
      var r, bytes := Read(n, live);
      if r == 0 && n > 0 {
        Spent(live, seq0, was, ahead);
      }
      TracedIsTold(was, n, live, fp);
      out := Out(r, bytes, size);
    }

    lemma Spent(live: LiveNet, from: nat, was: seq<View>, ahead: bool)
      requires Streams() && Nothing(live, from, Sizes(was), ahead)
      ensures chunk == 0 || chain.Head() >= Start(Sizes(was), |was|) || live.net(0).grant == 0
      ensures chunk == 0 || ReadOut(live.polled) || live.net(0).grant == 0
    {
      hide Start, Sizes, InOrder, Chain.Exhausted, Chain.Head, Chain.Stream;
      if chunk > 0 && live.net(0).grant > 0 {
        assert chain.Exhausted(from, live.polled);
        chain.AllOpen(from, live.polled);
      }
    }

    /**
      Every file of the chain is open and the last one is read to its end. Nothing is known of the files after
      some file, and no size reported for the last one goes beyond the size of that file.
    */
    ghost predicate ReadOut(polled: seq<int>)
      reads chain
    {
      && (forall i :: 0 <= i < |chain.views| ==> chain.views[i].isOpen)
      && exists from :: chain.Exhausted(from, polled)
    }

    /** A read that gave nothing, though something was granted, came to the end of the last file. */
    ghost predicate Persists(op: Op<LiveNet>, out: Out)
      reads this, chain
    {
      op.ReadOp? && op.n > 0 && out.r == 0 ==> chunk == 0 || ReadOut(op.net.polled) || op.net.net(0).grant == 0
    }

    /** A size announced for the `i`-th file, or reported, while a read was under way. */
    static ghost predicate ToldBy(op: Op<LiveNet>, i: nat, length: nat, size: int) {
      && op.ReadOp?
      && (|| (op.net.announced(i).Some? && size == Min(op.net.announced(i).value, length))
          || exists m :: 0 <= m < |op.net.polled| && size == Min(op.net.polled[m], length))
    }

    /** Each size is what it was, nothing for a file that joined, or one of these calls was told it. */
    static ghost predicate AllTold(was: seq<View>, now: seq<View>, files: seq<seq<Byte>>, ops: seq<Op<LiveNet>>) {
      && |was| <= |now| == |files|
      && forall i :: 0 <= i < |now| ==>
           || now[i].size == (if i < |was| then was[i].size else 0)
           || exists k :: 0 <= k < |ops| && ToldBy(ops[k], i, |files[i]|, now[i].size)
    }

    lemma TracedIsTold(was: seq<View>, n: nat, live: LiveNet, fp: int)
      requires chain.Valid() && (Traces(was, live, fp) || chain.views == was)
      ensures AllTold(was, chain.views, chain.files, [ReadOp(n, live)])
    {
      var ops := [ReadOp(n, live)];
      if Traces(was, live, fp) {
        forall i | 0 <= i < |was| && chain.views[i].size != was[i].size
          ensures ToldBy(ops[0], i, |chain.files[i]|, chain.views[i].size)
        {
          assert Traced(was[i], i, |chain.files[i]|, i == |was| - 1, live, fp, Sizes(chain.views)[i]);
        }
      }
    }

    static lemma SameIsTold(was: seq<View>, now: seq<View>, files: seq<seq<Byte>>, ops: seq<Op<LiveNet>>)
      requires |was| == |files| && Sizes(was) == Sizes(now)
      ensures AllTold(was, now, files, ops)
    {
      assert forall i :: 0 <= i < |now| ==> Sizes(now)[i] == Sizes(was)[i];
    }

    /** The sizes after one more call. */
    static lemma ToldNext(was: seq<View>, mid: seq<View>, now: seq<View>, files: seq<seq<Byte>>, files': seq<seq<Byte>>,
        ops: seq<Op<LiveNet>>, k: nat)
      requires AllTold(was, mid, files, ops) && files <= files' && k < |ops| && AllTold(mid, now, files', [ops[k]])
      ensures AllTold(was, now, files', ops)
    {
      forall i | 0 <= i < |now|
        ensures
          || now[i].size == (if i < |was| then was[i].size else 0)
          || exists j :: 0 <= j < |ops| && ToldBy(ops[j], i, |files'[i]|, now[i].size)
      {
        if now[i].size != (if i < |mid| then mid[i].size else 0) {
          assert ToldBy(ops[k], i, |files'[i]|, now[i].size);
        } else if i < |mid| {
          assert files'[i] == files[i];
        }
      }
    }

    method PerformSeek(offset: int, whence: Whence, answered: bool) returns (out: Out)
      requires buffer.Valid() && Streams() && chain.current > 0 && (whence != Cur || offset != 0)
      modifies chain`current, chain`currentTransfer, chain`views, chain.recorder, chain.chained
      modifies buffer, buffer.rbuf, buffer.rbuf.chunks
      ensures buffer.Valid() && buffer.Keeps() && Streams() && chain.current > 0 && out.size == chain.Size()
      ensures Sizes(chain.views) == old(Sizes(chain.views))
      ensures out.r < 0 ==> Blocked(SeekOp(offset, whence, answered), old(Logical()), chain.Size())
      ensures out.r >= 0 ==> Logical() == out.r && Served(SeekOp(offset, whence, answered), out, old(Logical()))
    {
      hide Buffer.Valid, Chain.Valid, Chain.Streaming, Chain.Head, Start, Sizes;
      var size := chain.GetSize();
      var reply := if answered then (q: int) => At(q) else (q: int) => Broken;
      var r := Seek(offset, whence, reply, 2 * RCVBUF);
      out := Out(r, [], size);
    }

    /** One call; whatever the network does, it is the call on a plain file, or it fails for a reason. */
    method Perform(op: Op<LiveNet>) returns (out: Out)
      requires buffer.Valid() && Streams() && chain.current > 0 && Moves(op)
      modifies chain`current, chain`currentTransfer, chain`views, chain.recorder, chain.chained
      modifies buffer, buffer.rbuf, buffer.rbuf.chunks, buffer.rbuf.packets
      ensures buffer.Valid() && buffer.Keeps() && chain.Valid() && chain.current > 0 && Grows(old(chain.views))
      ensures out.size == old(chain.Size()) && AllTold(old(chain.views), chain.views, chain.files, [op])
      ensures out.r < 0 ==> Blocked(op, old(Logical()), old(chain.Size()))
      ensures out.r >= 0 ==> Streams() && Served(op, out, old(Logical())) && Persists(op, out)
      ensures out.r >= 0 ==> Logical() == if op.ReadOp? then old(Logical()) + out.r else out.r
    {
      hide Buffer.Valid, Chain.Valid, Amiss, Extends, Chain.Streaming, Chain.Stream, Chain.Head, Served, Start, Sizes;
      hide ReadOut, AllTold;
      NotGrown();
      ghost var was := chain.views;
      match op
      case ReadOp(n, live) =>
        out := PerformRead(n, live);
      case SeekOp(offset, whence, answered) =>
        out := PerformSeek(offset, whence, answered);
        SizesTold(was, [op]);
    }

    lemma SizesTold(was: seq<View>, ops: seq<Op<LiveNet>>)
      requires chain.Valid() && Sizes(was) == Sizes(chain.views)
      ensures AllTold(was, chain.views, chain.files, ops)
    {
      assert |Sizes(was)| == |was|;
      SameIsTold(was, chain.views, chain.files, ops);
    }

    /** The stream as far as it is known. */
    ghost function Contents(): seq<Byte>
      requires Streams()
      reads chain, chain.recorder, chain.chained, buffer`bytes
    {
      chain.Contents()
    }

    /** The file that joins the chain, if one does. */
    method Join(t: Option<Transfer>)
      requires buffer.Valid() && Streams() && chain.current > 0
      requires t.Some? ==> t.value !in chain.chained && Chain.ViewOf(t.value) == BLANK
      modifies chain`chained, chain`last, chain`files, chain`views
      ensures buffer.Valid() && Streams() && chain.current > 0
      ensures chain.chained == old(chain.chained) + if t.Some? then [t.value] else []
      ensures chain.files == old(chain.files) + if t.Some? then [t.value.file] else []
      ensures chain.views == old(chain.views) + if t.Some? then [BLANK] else []
      ensures Logical() == old(Logical()) && Contents() == old(Contents())
    {
      hide Buffer.Valid, Chain.Valid, Chain.Streaming, Chain.Head;
      if t.Some? {
        chain.Append(t.value);
      }
    }

    /** No call of the session has a reason to fail. */
    static ghost predicate Untroubled(ops: seq<Op<LiveNet>>, size: int) {
      forall k :: 0 <= k < |ops| ==>
        match ops[k]
        case ReadOp(_, live) => !Amiss(live)
        case SeekOp(offset, whence, answered) => answered && whence == Set && 0 <= offset <= size
    }

    /** The files that join the chain. */
    static ghost function Added(news: seq<Option<Transfer>>): set<Transfer> {
      set k | 0 <= k < |news| && news[k].Some? :: news[k].value
    }

    /** The files from the `i`-th on are new to the chain, and none was opened. */
    ghost predicate Waiting(news: seq<Option<Transfer>>, i: nat)
      reads chain, Added(news)
    {
      && (forall k :: i <= k < |news| && news[k].Some? ==>
            news[k].value !in chain.chained && Chain.ViewOf(news[k].value) == BLANK)
      && (forall j, k :: i <= j < k < |news| && news[j].Some? && news[k].Some? ==> news[j] != news[k])
    }

    /**
      A session of reads and seeks over the chain, with files joining it between the calls: every call
      gave what a plain file gives at the position the earlier calls led to, across file changes and
      while the stream grows at its end. A last read that gave nothing, though something was granted, has
      come to the end of the last file. The session stops early only at a call that had a reason to
      fail, and one of untroubled calls is played to its end.
    */
    method Session(ops: seq<Op<LiveNet>>, news: seq<Option<Transfer>>)
      returns (outs: seq<Out>, ghost stream: seq<Byte>)
      requires buffer.Valid() && Streams() && chain.current > 0
      requires forall k :: 0 <= k < |ops| ==> Moves(ops[k])
      requires |news| == |ops| && Waiting(news, 0)
      modifies chain, chain.recorder, chain.chained, Added(news)
      modifies buffer, buffer.rbuf, buffer.rbuf.chunks, buffer.rbuf.packets
      ensures buffer.Valid() && |outs| <= |ops| && old(Contents()) <= stream
      ensures LikeFile(stream, old(Logical()), FROM_END, ops, outs, NothingLeft(chunk))
      ensures |outs| < |ops| ==> Blocked(ops[|outs|], Where(old(Logical()), FROM_END, ops, outs), |stream|)
      ensures |outs| == |ops| ==>
        && Streams() && stream == Contents() && Logical() == Where(old(Logical()), FROM_END, ops, outs)
        && chain.chained == old(chain.chained) + Joined(news)
        && AllTold(old(chain.views), chain.views, chain.files, ops)
      ensures |outs| == |ops| > 0 ==> Persists(ops[|ops| - 1], outs[|ops| - 1])
      ensures Untroubled(ops, |old(Contents())|) ==> |outs| == |ops|
    {
      hide Buffer.Valid, Streams, Served, Logical, Contents, Waiting, Blocked, Untroubled, Moves, Persists;
      hide LikeFile, Where, Serves, NothingLeft, AllTold, Joined;
      outs := [];
      ghost var start, excuse, was := Logical(), NothingLeft(chunk), chain.views;
      NobodyJoined(news, ops);
      stream := Contents();
      NothingYet(stream, start, FROM_END, ops, excuse);
      for i := 0 to |ops|
        invariant buffer.Valid() && buffer.Keeps() && Streams() && chain.current > 0 && |outs| == i
        invariant chain.recorder == old(chain.recorder) && Waiting(news, i)
        invariant chain.chained == old(chain.chained) + Joined(news[..i])
        invariant AllTold(was, chain.views, chain.files, ops)
        invariant stream == Contents() && old(Contents()) <= stream
        invariant Logical() == Where(start, FROM_END, ops, outs)
        invariant LikeFile(stream, start, FROM_END, ops, outs, excuse)
        invariant outs != [] ==> Persists(ops[i - 1], outs[i - 1])
      {
        ghost var mid, files := chain.views, chain.files;
        JoinedNext(news, i);
        JoinedAdded(news, i);
        var out := Call(ops[i], news, i);
        if out.r < 0 {
          NoReason(ops, i, Where(start, FROM_END, ops, outs), |old(Contents())|, |stream|);
          return;
        }
        LikeLonger(stream, Contents(), start, FROM_END, ops, outs, excuse);
        stream := Contents();
        ServedBy(ops[i], out, Where(start, FROM_END, ops, outs));
        LikeFileMore(stream, start, FROM_END, ops, outs, out, excuse);
        outs := outs + [out];
        ToldNext(was, mid, chain.views, files, chain.files, ops, i);
      }
      assert news[..|news|] == news;
    }

    /** The files that join, in order. */
    static ghost function Joined(news: seq<Option<Transfer>>): seq<Transfer> {
      if news == [] then []
      else
        var k := |news| - 1;
        Joined(news[..k]) + if news[k].Some? then [news[k].value] else []
    }

    lemma NobodyJoined(news: seq<Option<Transfer>>, ops: seq<Op<LiveNet>>)
      requires Streams()
      ensures Joined(news[..0]) == [] && AllTold(chain.views, chain.views, chain.files, ops)
    {
      SameIsTold(chain.views, chain.views, chain.files, ops);
    }

    static lemma JoinedNext(news: seq<Option<Transfer>>, i: nat)
      requires i < |news|
      ensures Joined(news[..i + 1]) == Joined(news[..i]) + if news[i].Some? then [news[i].value] else []
    {
      assert news[..i + 1][..i] == news[..i];
    }

    /** Whoever has joined is among the files that do. */
    static lemma {:induction false} JoinedAdded(news: seq<Option<Transfer>>, i: nat)
      requires i <= |news|
      ensures forall t :: t in Joined(news[..i]) ==> t in Added(news)
    {
      if i > 0 {
        JoinedAdded(news, i - 1);
        JoinedNext(news, i - 1);
      }
    }

    lemma ServedBy(op: Op<LiveNet>, out: Out, at: int)
      requires Streams() && Served(op, out, at)
      ensures Serves(Contents(), at, FROM_END, op, out, NothingLeft(chunk))
    {
    }

    /** A call without a reason to fail is not blocked, however the stream has grown. */
    static lemma NoReason(ops: seq<Op<LiveNet>>, i: nat, at: int, size0: int, size: int)
      requires i < |ops| && size0 <= size && Blocked(ops[i], at, size)
      ensures !Untroubled(ops, size0)
    {
    }

    /** A file joins the chain, if one does, and then the call. */
    method Call(op: Op<LiveNet>, news: seq<Option<Transfer>>, i: nat) returns (out: Out)
      requires buffer.Valid() && Streams() && chain.current > 0 && Moves(op)
      requires i < |news| && Waiting(news, i)
      modifies chain, chain.recorder, chain.chained, Added(news)
      modifies buffer, buffer.rbuf, buffer.rbuf.chunks, buffer.rbuf.packets
      ensures buffer.Valid() && buffer.Keeps() && chain.recorder == old(chain.recorder) && Waiting(news, i + 1)
      ensures chain.chained == old(chain.chained) + if news[i].Some? then [news[i].value] else []
      ensures old(chain.files) <= chain.files && AllTold(old(chain.views), chain.views, chain.files, [op])
      ensures out.r < 0 ==> Blocked(op, old(Logical()), |old(Contents())|)
      ensures out.r >= 0 ==> Streams() && chain.current > 0 && Served(op, out, old(Logical()))
      ensures out.r >= 0 ==> old(Contents()) <= Contents() && Persists(op, out)
      ensures out.r >= 0 ==> Logical() == if op.ReadOp? then old(Logical()) + out.r else out.r
    {
      hide Buffer.Valid, Streams, Served, Logical, Contents, Blocked, Moves, Grows, Before, Persists, AllTold;
      hide Chain.Valid, Chain.Size;
      ghost var stream := Contents();
      assert news[i].Some? ==> news[i].value in Added(news);
      Join(news[i]);
      ghost var was := chain.views;
      Extent(was, stream);
      out := Perform(op);
      ToldAfterJoin(old(chain.views), was, chain.views, chain.files, [op]);
      if out.r >= 0 {
        Longer(was, stream);
      }
    }

    /** A file that joins has no size yet. */
    static lemma ToldAfterJoin(before: seq<View>, was: seq<View>, now: seq<View>, files: seq<seq<Byte>>,
        ops: seq<Op<LiveNet>>)
      requires AllTold(was, now, files, ops) && (was == before || was == before + [BLANK])
      ensures AllTold(before, now, files, ops)
    {
    }

    /** What the stream was, with the files there are. */
    ghost predicate Before(was: seq<View>, stream: seq<Byte>)
      reads chain
    {
      && Bounded(chain.files, Sizes(was)) && stream == Content(chain.files, Sizes(was), |chain.files|)
    }

    lemma Extent(was: seq<View>, stream: seq<Byte>)
      requires Streams() && was == chain.views && stream == Contents()
      ensures Before(was, stream) && |stream| == chain.Size()
    {
      InOrderBounded(chain.views, chain.files, chain.current);
    }

    lemma Longer(was: seq<View>, stream: seq<Byte>)
      requires Streams() && Before(was, stream) && Grows(was)
      ensures stream <= Contents()
    {
    }
  }

  /** A chain of one file that was never opened. */
  method Unopened(file: seq<Byte>) returns (chain: Chain)
    ensures fresh(chain) && fresh(chain.recorder) && fresh(chain.chained) && chain.Valid() && chain.Streaming()
    ensures chain.current == 0 && chain.files == [file] && chain.views == [BLANK]
  {
    hide InOrder, Start, Sizes, Content, Chain.Head, Chain.Contents, Chain.Size;
    var control := new Playback();
    var t := new Transfer(file);
    chain := new Chain(control);
    chain.Append(t);
  }

  /** A chain of one file, opened and standing at its start. */
  method OneFile(file: seq<Byte>) returns (chain: Chain)
    ensures fresh(chain) && fresh(chain.recorder) && fresh(chain.chained) && chain.Valid() && chain.Streaming()
    ensures chain.current == 1 && chain.files == [file] && chain.views == [View(|file|, 0, 0, [], true)]
  {
    hide InOrder, Start, Sizes, Content, Chain.Head, Chain.Contents, Chain.Size;
    chain := Unopened(file);
    InOrderOpened(chain.views, chain.files, 0, |file|);
    var ok := chain.SwitchChain(1, Some(|file|));
  }

  /**
    After the first ten bytes of a file of 14 were read in one block, the caller is at byte 10 and a seek
    by zero reports 6.
  */
  method SeekByZeroMisreports(file: seq<Byte>) returns (at: int, told: int)
    requires |file| == 14
    ensures at == 10 && told == 6
  {
    hide Chain.Valid, Chain.Stream, Chain.Streaming, Chain.Head, Chain.Honest, Buffer.Valid;
    hide LiveTVPlayback.Grows, LiveTVPlayback.Refused, LiveTVPlayback.Nothing, Chain.Promptly, Chain.Left;
    var chain := OneFile(file);
    var live := new LiveTVPlayback(chain, 1, 14);
    var net := LiveNet([], i => Net(true, 14, [Ready(Readable(14), Reply)], Broken, 0), k => None);
    AtFront(chain, net.net);
    var r, bytes := live.Read(10, net);
    at := live.GetPosition();
    assert Chain.Honest(q => Broken) by {
      NobodyAnswers();
    }
    told := live.Seek(0, Cur, q => Broken, 2 * RCVBUF);
  }

  /** A chain of a file of 10 bytes, opened, and one of 5 bytes that has just joined. */
  method TwoFiles(a: seq<Byte>, b: seq<Byte>) returns (chain: Chain)
    requires |a| == 10 && |b| == 5
    ensures fresh(chain) && fresh(chain.recorder) && fresh(chain.chained) && chain.Valid() && chain.Streaming()
    ensures chain.current == 1 && chain.files == [a, b] && chain.views == [View(10, 0, 0, [], true), BLANK]
  {
    hide Chain.Streaming, Start, Sizes, Content;
    chain := OneFile(a);
    var t := new Transfer(b);
    chain.Append(t);
  }

  /**
    The first file is read to its end. The next read opens the second one, still empty, and gives nothing,
    although 5 bytes of it are reported: that is not beyond the 10 bytes read of the first. The read
    after it, told the same, gives some.
  */
  method ReportOverlooked(a: seq<Byte>, b: seq<Byte>) returns (first: int, second: int, third: int)
    requires |a| == 10 && |b| == 5
    ensures first == 10 && second == 0 && third > 0
  {
    hide Chain.Valid, Chain.Stream, Chain.Streaming, Extends, AllTraced, Stalls, Chain.NothingToGive, Sizes, Start;
    hide Chain.Finished, Chain.Promptly, Chain.Left, Chain.FilePosition, Chain.Head, Chain.Size, Chain.Troubles;
    hide Chain.Grantless, Chain.Unannounced;
    var chain := TwoFiles(a, b);
    var net := Net(true, 10, [Ready(Readable(10), Reply), PollTimeout], Broken, 0);
    var live := LiveNet([5], i => net, k => Some(0));
    var reply := q => At(q);
    var bytes;
    NoTrouble(live.net, net);
    BeforeFirst(chain, live);
    first, bytes := chain.ReadChain(10, live, reply, 2 * RCVBUF);
    BeforeSecond(chain, live);
    second, bytes := chain.ReadChain(10, live, reply, 2 * RCVBUF);
    BeforeThird(chain, live);
    third, bytes := chain.ReadChain(10, live, reply, 2 * RCVBUF);
    AfterThird(chain, live);
  }

  lemma BeforeFirst(chain: Chain, live: LiveNet)
    requires chain.current == 1 && chain.views == [View(10, 0, 0, [], true), BLANK]
    requires |chain.files| == 2 && |chain.files[0]| == 10 && live.net(0).sent && live.net(0).grant == 10
    requires live.net(0).polls == [Ready(Readable(10), Reply), PollTimeout]
    ensures !chain.Finished() && chain.Promptly(10, live.net) && chain.Left(10) == 10
    ensures chain.Head() == 0 && Sizes(chain.views) == [10, 0]
  {
    PromptFlows(live.net(0).polls, 10);
  }

  lemma BeforeSecond(chain: Chain, live: LiveNet)
    requires chain.current == 1 && Sizes(chain.views) == [10, 0] && chain.Head() == 10
    requires |chain.files| == 2 && |chain.files[1]| == 5 && live.polled == [5] && live.announced(1) == Some(0)
    ensures chain.Finished() && Stalls(chain.views, chain.files, live, 1, chain.FilePosition())
  {
    assert Sizes(chain.views)[0] == 10 && Sizes(chain.views)[1] == 0;
    assert Start(Sizes(chain.views), 0) == 0;
  }

  lemma BeforeThird(chain: Chain, live: LiveNet)
    requires chain.NothingToGive(live, 1, [10, 0], true) || chain.NothingToGive(live, 1, [10, 0], false)
    requires !Chain.Grantless(live.net, 1) && !Chain.Grantless(live.net, 10)
    ensures chain.current == 2 && Sizes(chain.views) == [10, 0]
  {
    assert |Sizes(chain.views)| == 2;
  }

  /** The second file has 5 bytes, which are reported. */
  lemma AfterThird(chain: Chain, live: LiveNet)
    requires |chain.files| == 2 && |chain.files[1]| == 5 && live.polled == [5] && forall k :: live.announced(k).Some?
    requires !Chain.Grantless(live.net, 1) && !Chain.Grantless(live.net, 10)
    ensures !chain.NothingToGive(live, 2, [10, 0], true) && !chain.NothingToGive(live, 2, [10, 0], false)
    ensures !chain.Unannounced(live)
  {
    if Sizes(chain.views) == [10, 0] {
      assert Sizes(chain.views)[1] == 0 && live.polled[0] == 5;
    }
  }

  lemma NoTrouble(nets: nat -> Net, net: Net)
    requires net.sent && net.grant > 0 && net.polls == [Ready(Readable(10), Reply), PollTimeout]
    requires forall i :: nets(i) == net
    ensures !Chain.Troubles(nets, 1) && !Chain.Troubles(nets, 10)
    ensures !Chain.Grantless(nets, 1) && !Chain.Grantless(nets, 10)
  {
    SmoothExample(10);
    assert nets(0).grant > 0;
  }

  lemma AtFront(chain: Chain, net: nat -> Net)
    requires chain.current == 1 && chain.views == [View(14, 0, 0, [], true)] && |chain.files| == 1
    requires |chain.files[0]| == 14 && net(0) == Net(true, 14, [Ready(Readable(14), Reply)], Broken, 0)
    ensures chain.Head() == 0 && chain.Promptly(14, net) && chain.Left(14) == 14
  {
    PromptFlows(net(0).polls, 14);
  }

  lemma NobodyAnswers()
    ensures Chain.Honest(q => Broken)
  {
  }
}
