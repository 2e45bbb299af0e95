/**
  Playback of one recording through the packet buffer. Blocks come off the transfer into packets,
  callers read from the packet at hand: to them it is a plain file.
*/
module BufferedPlayback {
  import opened Options
  import opened Bytes
  import opened FileTransfer
  import opened PlaybackBuffer
  import opened PlainFile

  /** An offset from the end of a recording counts backward, as the range check of a seek reads it. */
  const FROM_END := -1

  class RecordingPlayback {
    const control: Playback
    const transfer: Transfer
    const buffer: Buffer
    var chunk: nat
    var readAhead: bool

    /** The position of the next byte a caller gets. */
    ghost function Logical(): int
      reads transfer`position, buffer`bytes
    {
      transfer.position - |buffer.bytes|
    }

    /** What is buffered are the file's bytes just before the transfer's position. */
    ghost predicate Streams()
      reads transfer, control, buffer`bytes
    {
      && control.pending == None && transfer.InStep() && transfer.requested - transfer.position < 2 * RCVBUF
      && 0 <= Logical() && buffer.bytes == transfer.file[Logical()..transfer.position]
    }

    constructor (control: Playback, transfer: Transfer, capacity: nat, chunk: nat, readAhead: bool)
      requires capacity > 0 && control.pending == None
      requires transfer.InStep() && transfer.position == transfer.requested == 0
      ensures buffer.Valid() && Streams() && Logical() == 0 && this.control == control && this.transfer == transfer
      ensures fresh(buffer) && fresh(buffer.rbuf) && fresh(buffer.rbuf.chunks) && buffer.rbuf.packets == {}
    {
      this.control, this.transfer := control, transfer;
      buffer := new Buffer(capacity);
      this.chunk, this.readAhead := chunk, readAhead;
    }

    method GetPosition() returns (p: int)
      requires buffer.Valid()
      ensures p == Logical()
    {
      var unread := buffer.Unread();
      p := transfer.position - unread;
    }

    // -------------------------------------------------------------- reading

    /** The block `_read` asks for: what the file is known to have left, unless reading ahead. */
    ghost function Asks(n: nat): nat
      reads this, transfer
    {
      if readAhead then n
      else if transfer.size <= transfer.position then 0
      else Min(transfer.size - transfer.position, n)
    }

    /** The command did not go out, or the sockets reported trouble or fell silent. */
    static ghost predicate Troubled(isOpen: bool, net: Net) {
      !isOpen || !net.sent || !Smooth(net.polls)
    }

    /**
      The backend has nothing more to give for a block of `n` bytes: a grant of nothing, or all of the file
      was requested before and the block goes past its end, which happens only to a reader that asks for
      more than the file is known to have. And nothing is under way, or the feedback overtook it.
    */
    ghost predicate Dry(n: nat, net: Net)
      reads this, transfer
    {
      && (|| net.grant == 0
          || (&& (readAhead || transfer.size > |transfer.file|) && transfer.requested == |transfer.file|
              && transfer.position + Playback.BlockSize(n) > |transfer.file|))
      && (transfer.position == transfer.requested || FeedbackFirst(net.polls))
    }

    method ReadTransfer(n: nat, net: Net) returns (r: int, bytes: seq<Byte>)
      requires control.pending == None && transfer.InStep() && transfer.requested - transfer.position < 2 * RCVBUF
      modifies control, transfer`position, transfer`wire, transfer`requested
      ensures control.latch == old(control.latch) && control.pending == None
      ensures r == -1 || 0 <= r <= Playback.BlockSize(old(Asks(n)))
      ensures r >= 0 ==>
        && transfer.InStep() && transfer.requested - transfer.position < 2 * RCVBUF
        && transfer.position == old(transfer.position) + r
        && bytes == transfer.file[old(transfer.position)..transfer.position]
        && transfer.requested == old(Playback.Served(transfer, Asks(n), net))
      ensures !readAhead && r > 0 ==> transfer.position <= transfer.size
      ensures r == -1 ==> Troubled(transfer.isOpen, net)
      ensures r == 0 ==> old(Asks(n)) == 0 || old(Dry(n, net))
      ensures old(Playback.Fills(transfer, Asks(n), net)) ==> r == Playback.BlockSize(old(Asks(n)))
    {
      var m := n;
      if !readAhead {
        var s := transfer.size - transfer.position;
        if s <= 0 {
          return 0, [];
        }
        m := Min(s, n);
      }
      r, bytes := control.TransferRequestBlock(transfer, m, net);
    }

    /** The buffer is empty: a block goes into a packet, through the ring, and is at hand. */
    method Fetch(net: Net) returns (r: int)
      requires buffer.Valid() && Streams() && buffer.bytes == []
      modifies control, transfer`position, transfer`wire, transfer`requested
      modifies buffer, buffer.rbuf, buffer.rbuf.chunks, buffer.rbuf.packets
      ensures buffer.Valid() && buffer.Keeps() && control.latch == old(control.latch)
      ensures r >= 0 ==> Streams() && Logical() == old(Logical()) && |buffer.bytes| == r
      ensures r >= 0 ==> transfer.requested == old(Playback.Served(transfer, Asks(chunk), net))
      ensures r == -1 || r >= 0
      ensures !readAhead && r > 0 ==> transfer.position <= transfer.size
      ensures r == -1 ==> Troubled(transfer.isOpen, net) && buffer.bytes == []
      ensures r == 0 ==> old(Asks(chunk)) == 0 || old(Dry(chunk, net))
      ensures old(Playback.Fills(transfer, Asks(chunk), net)) ==> r == Playback.BlockSize(old(Asks(chunk)))
    {
      hide Buffer.Valid;
      buffer.TakeNext();
      var p := buffer.Reserve(chunk);
      var bytes;
      r, bytes := ReadTransfer(chunk, net);
      buffer.Store(p, r, bytes);
    }

    /**
      `Read`: at most `n` of the file's bytes from the logical position, which moves on by as many. What
      is buffered comes first. It fails only for trouble with the network, and gives nothing only
      when nothing is left or granted.
    */
    method Read(n: nat, net: Net) returns (r: int, bytes: seq<Byte>)
      requires buffer.Valid() && Streams()
      modifies control, transfer`position, transfer`wire, transfer`requested
      modifies buffer, buffer.rbuf, buffer.rbuf.chunks, buffer.rbuf.packets
      ensures buffer.Valid() && buffer.Keeps() && control.latch == old(control.latch)
      ensures r == -1 || 0 <= r <= n
      ensures r >= 0 ==>
        && Streams() && Logical() == old(Logical()) + r
        && bytes == transfer.file[old(Logical())..Logical()]
      ensures old(buffer.bytes) != [] ==> r == Min(n, |old(buffer.bytes)|)
      ensures r == -1 ==> old(buffer.bytes) == [] && Troubled(transfer.isOpen, net)
      ensures r == 0 && n > 0 ==> old(buffer.bytes) == [] && (old(Asks(chunk)) == 0 || old(Dry(chunk, net)))
      ensures r == 0 && n > 0 ==> transfer.requested == old(Playback.Served(transfer, Asks(chunk), net))
      ensures old(buffer.bytes) == [] && r > 0 ==> r == Min(n, transfer.position - old(transfer.position))
      ensures !readAhead && old(buffer.bytes) == [] && r > 0 ==> transfer.position <= transfer.size
    {
      hide Buffer.Valid, Troubled, Dry, Asks, Transfer.InStep;
      bytes := [];
      var empty := buffer.IsEmpty();
      if empty {
        r := Fetch(net);
        if r <= 0 {
          return;
        }
      }
      r, bytes := HandOut(n);
    }

    method HandOut(n: nat) returns (r: int, bytes: seq<Byte>)
      requires buffer.Valid() && Streams() && buffer.bytes != []
      modifies buffer, buffer.rbuf
      ensures buffer.Valid() && buffer.Keeps() && buffer.rbuf.packets == old(buffer.rbuf.packets)
      ensures Streams() && r == Min(n, |old(buffer.bytes)|) && Logical() == old(Logical()) + r
      ensures bytes == transfer.file[old(Logical())..Logical()]
    {
      hide Buffer.Valid;
      ghost var b, at := buffer.bytes, Logical();
      r, bytes := buffer.Deliver(n);
      assert b[..r] == bytes && b[r..] == buffer.bytes;
      assert b[..r] == transfer.file[at..at + r] && b[r..] == transfer.file[at + r..transfer.position];
    }

    // -------------------------------------------------------------- seeking

    /** The place in the file a seek asks for. */
    ghost function Target(offset: int, whence: Whence): int
      reads transfer`position, transfer`size, buffer`bytes
    {
      Goal(Logical(), transfer.size, FROM_END, offset, whence)
    }

    /** The backend answers with the position it is asked for, and what is under way arrives. */
    ghost predicate Honest(offset: int, whence: Whence, answer: Answer, patience: nat)
      reads transfer, buffer`bytes
    {
      && (answer.At? ==> answer.q == Target(offset, whence))
      && |transfer.wire| <= patience && transfer.size <= |transfer.file|
    }

    /** The seek is answered without a command: it asks for where the transfer is. */
    ghost predicate Stays(offset: int, whence: Whence)
      reads transfer`position, transfer`size, buffer`bytes
    {
      (whence == Cur && offset == 0) || (whence != End && Target(offset, whence) == transfer.position)
    }

    /**
      `Seek` succeeds exactly when it asks for where the transfer is, or for a place inside the file on
      an open transfer and the backend answers. Then the logical position is the one asked for. A
      seek that fails drops what was buffered.
    */
    method Seek(offset: int, whence: Whence, answer: Answer, patience: nat) returns (r: int)
      requires buffer.Valid() && Streams() && Honest(offset, whence, answer, patience)
      modifies control`latch, transfer`position, transfer`wire, transfer`requested
      modifies buffer, buffer.rbuf, buffer.rbuf.chunks
      ensures buffer.Valid() && buffer.Keeps() && Streams() && control.latch == old(control.latch)
      ensures
        var target := old(Target(offset, whence));
        if old(Stays(offset, whence)) || (0 <= target <= transfer.size && transfer.isOpen && answer.At?) then
          r == target == Logical()
        else
          r == -1 && Logical() == transfer.position == old(transfer.position)
      ensures r != -1 ==>
        r == match whence
          case Set => offset
          case Cur => old(Logical()) + offset
          case End => transfer.size - offset
    {
      hide Buffer.Valid;
      var step := offset;
      if whence == Cur {
        var unread := buffer.Unread();
        if offset == 0 {
          var p := control.TransferSeek(transfer, offset, whence, answer, patience);
          return if p >= unread then p - unread else p;
        }
        step := offset - unread;
      }
      buffer.Discard();
      r := SeekTransfer(step, whence, answer, patience);
    }

    /** With the buffer empty. */
    method SeekTransfer(offset: int, whence: Whence, answer: Answer, patience: nat) returns (r: int)
      requires Streams() && buffer.bytes == [] && Honest(offset, whence, answer, patience)
      modifies control`latch, transfer`position, transfer`wire, transfer`requested
      ensures Streams() && control.latch == old(control.latch)
      ensures
        var target := old(Target(offset, whence));
        if old(Stays(offset, whence)) || (0 <= target <= transfer.size && transfer.isOpen && answer.At?) then
          r == target == transfer.position
        else
          r == -1 && transfer.position == old(transfer.position)
    {
      r := control.TransferSeek(transfer, offset, whence, answer, patience);
    }

    // -------------------------------------------------------------- whole sessions

    /** Why a call may fail: trouble with the network, a place outside the file, no answer. */
    static ghost predicate Blocked(op: Op<Net>, at: int, size: int, isOpen: bool) {
      match op
      case ReadOp(_, net) => Troubled(isOpen, net)
      case SeekOp(offset, whence, answered) =>
        !(isOpen && answered && 0 <= Goal(at, size, FROM_END, offset, whence) <= size)
    }

    /**
      A read gives nothing only at the known end or for a grant of nothing. Reading ahead, the end is that
      of what is recorded, and where the next block goes past it, feedback that comes before any data
      is a reason too.
    */
    static ghost function NothingLeft(chunk: nat, ahead: bool, length: nat): Excuse<Net> {
      (at: int, op: Op<Net>, out: Out) =>
        || chunk == 0 || (!ahead && out.size <= at) || (op.ReadOp? && op.net.grant == 0)
        || (&& ahead && op.ReadOp? && length - at < Playback.BlockSize(chunk)
            && (length <= at || FeedbackFirst(op.net.polls)))
    }

    /** A read ahead that gave nothing, though something was granted, finds all of the recording requested. */
    ghost predicate Persists(op: Op<Net>, out: Out)
      reads this, transfer
    {
      op.ReadOp? && op.n > 0 && out.r == 0 && readAhead && chunk > 0 && op.net.grant > 0 ==>
        transfer.requested == |transfer.file|
    }

    /** One call; whatever the network does, it is the call on a plain file, or it fails for a reason. */
    method Perform(op: Op<Net>) returns (out: Out)
      requires buffer.Valid() && Streams() && transfer.size <= |transfer.file|
      modifies control, transfer`position, transfer`wire, transfer`requested
      modifies buffer, buffer.rbuf, buffer.rbuf.chunks, buffer.rbuf.packets
      ensures buffer.Valid() && buffer.Keeps() && out.size == transfer.size
      ensures out.r < 0 ==> Blocked(op, old(Logical()), transfer.size, transfer.isOpen)
      ensures out.r >= 0 ==>
        && Streams()
        && Serves(transfer.file, old(Logical()), FROM_END, op, out, NothingLeft(chunk, readAhead, |transfer.file|))
        && Logical() == (if op.ReadOp? then old(Logical()) + out.r else out.r) && Persists(op, out)
    {
      hide Buffer.Valid, Troubled;
      match op
      case ReadOp(n, net) =>
        var r, bytes := Read(n, net);
        out := Out(r, bytes, transfer.size);
      case SeekOp(offset, whence, answered) =>
        var at := GetPosition();
        var answer := if answered then At(Goal(at, transfer.size, FROM_END, offset, whence)) else Broken;
        var r := Seek(offset, whence, answer, |transfer.wire|);
        out := Out(r, [], transfer.size);
    }

    /** No call of the session has a reason to fail. */
    static ghost predicate Untroubled(ops: seq<Op<Net>>, size: int, isOpen: bool) {
      forall k :: 0 <= k < |ops| ==>
        match ops[k]
        case ReadOp(_, net) => !Troubled(isOpen, net)
        case SeekOp(offset, whence, answered) => isOpen && answered && whence == Set && 0 <= offset <= size
    }

    /**
      A session of reads and seeks on one open transfer: every call gave what a plain file gives at
      the position the earlier calls led to. A last read ahead that gave nothing, though something was
      granted, finds all of the recording requested: what its caller did not get is under way. It stops
      early only at a call that had a reason to fail, and one of untroubled calls is played to its end.
    */
    method Session(ops: seq<Op<Net>>) returns (outs: seq<Out>)
      requires buffer.Valid() && Streams() && transfer.size <= |transfer.file|
      modifies control, transfer`position, transfer`wire, transfer`requested
      modifies buffer, buffer.rbuf, buffer.rbuf.chunks, buffer.rbuf.packets
      ensures buffer.Valid() && |outs| <= |ops|
      ensures LikeFile(transfer.file, old(Logical()), FROM_END, ops, outs,
        NothingLeft(chunk, readAhead, |transfer.file|))
      ensures |outs| < |ops| ==>
        Blocked(ops[|outs|], Where(old(Logical()), FROM_END, ops, outs), transfer.size, transfer.isOpen)
      ensures |outs| == |ops| ==> Streams() && Logical() == Where(old(Logical()), FROM_END, ops, outs)
      ensures |outs| == |ops| > 0 ==> Persists(ops[|ops| - 1], outs[|ops| - 1])
      ensures Untroubled(ops, transfer.size, transfer.isOpen) ==> |outs| == |ops|
    {
      hide Buffer.Valid, Streams, LikeFile, Where, Serves, Troubled, NothingLeft;
      outs := [];
      ghost var start, excuse := Logical(), NothingLeft(chunk, readAhead, |transfer.file|);
      NothingYet(transfer.file, start, FROM_END, ops, excuse);
      for i := 0 to |ops|
        invariant buffer.Valid() && buffer.Keeps() && Streams() && |outs| == i
        invariant Logical() == Where(start, FROM_END, ops, outs)
        invariant LikeFile(transfer.file, start, FROM_END, ops, outs, excuse)
        invariant outs != [] ==> Persists(ops[i - 1], outs[i - 1])
      {
        var out := Perform(ops[i]);
        if out.r < 0 {
          return;
        }
        LikeFileMore(transfer.file, start, FROM_END, ops, outs, out, excuse);
        outs := outs + [out];
      }
    }
  }
}
