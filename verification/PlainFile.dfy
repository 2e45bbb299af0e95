/**
  What callers of a playback should see: a plain file with a position, whatever packets, requests
  and files are behind it.
*/
module PlainFile {
  import opened Bytes
  import opened FileTransfer

  /** One call of a session; `net` is what the network does meanwhile. */
  datatype Op<N> = ReadOp(n: nat, net: N) | SeekOp(offset: int, whence: Whence, answered: bool)

  /** What a call gave, and the size of the file when it was made. */
  datatype Out = Out(r: int, bytes: seq<Byte>, size: int)

  /** The place a seek asks for. `sign` says which way an offset from the end counts. */
  function Goal(at: int, size: int, sign: int, offset: int, whence: Whence): int {
    match whence
    case Set => offset
    case Cur => at + offset
    case End => size + sign * offset
  }

  /** The position after calls that gave `outs`. */
  function Where<N>(start: int, sign: int, ops: seq<Op<N>>, outs: seq<Out>): int
    requires |outs| <= |ops|
  {
    if outs == [] then start
    else
      var k := |outs| - 1;
      var before := Where(start, sign, ops, outs[..k]);
      match ops[k]
      case ReadOp(_, _) => before + outs[k].r
      case SeekOp(offset, whence, _) => Goal(before, outs[k].size, sign, offset, whence)
  }

  /** A plain file at `at` may give `out` to the call. */
  predicate Gives<N>(file: seq<Byte>, at: int, sign: int, op: Op<N>, out: Out) {
    match op
    case ReadOp(n, _) => 0 <= out.r <= n && 0 <= at && at + out.r <= |file| && out.bytes == file[at..at + out.r]
    case SeekOp(offset, whence, _) => out.r == Goal(at, out.size, sign, offset, whence) && 0 <= out.r
  }

  /** When a read may come back empty-handed at a position. */
  type Excuse<!N> = (int, Op<N>, Out) -> bool

  /** As a plain file, and without bytes only with an excuse. */
  predicate Serves<N>(file: seq<Byte>, at: int, sign: int, op: Op<N>, out: Out, excuse: Excuse<N>) {
    Gives(file, at, sign, op, out) && (op.ReadOp? && op.n > 0 && out.r == 0 ==> excuse(at, op, out))
  }

  /** Every call gave what a plain file gives where the earlier calls led to. */
  ghost predicate LikeFile<N>(file: seq<Byte>, start: int, sign: int, ops: seq<Op<N>>, outs: seq<Out>,
      excuse: Excuse<N>)
    requires |outs| <= |ops|
  {
    forall k :: 0 <= k < |outs| ==> Serves(file, Where(start, sign, ops, outs[..k]), sign, ops[k], outs[k], excuse)
  }

  lemma LikeFileMore<N>(file: seq<Byte>, start: int, sign: int, ops: seq<Op<N>>, outs: seq<Out>, out: Out,
      excuse: Excuse<N>)
    requires |outs| < |ops| && LikeFile(file, start, sign, ops, outs, excuse)
    requires Serves(file, Where(start, sign, ops, outs), sign, ops[|outs|], out, excuse)
    ensures LikeFile(file, start, sign, ops, outs + [out], excuse)
    ensures Where(start, sign, ops, outs + [out]) ==
            if ops[|outs|].ReadOp? then Where(start, sign, ops, outs) + out.r else out.r
  {
    var outs' := outs + [out];
    forall k | 0 <= k < |outs'|
      ensures Serves(file, Where(start, sign, ops, outs'[..k]), sign, ops[k], outs'[k], excuse)
    {
      assert outs'[..k] == outs[..k];
      if k == |outs| {
        assert outs[..k] == outs;
      }
    }
    assert outs'[..|outs|] == outs;
  }

  /** A file that has grown at its end gives the same. */
  lemma LikeLonger<N>(file: seq<Byte>, file': seq<Byte>, start: int, sign: int, ops: seq<Op<N>>, outs: seq<Out>,
      excuse: Excuse<N>)
    requires |outs| <= |ops| && LikeFile(file, start, sign, ops, outs, excuse) && file <= file'
    ensures LikeFile(file', start, sign, ops, outs, excuse)
  {
    forall k | 0 <= k < |outs|
      ensures Serves(file', Where(start, sign, ops, outs[..k]), sign, ops[k], outs[k], excuse)
    {
      var at := Where(start, sign, ops, outs[..k]);
      assert Serves(file, at, sign, ops[k], outs[k], excuse);
      if ops[k].ReadOp? {
        assert file'[at..at + outs[k].r] == file[at..at + outs[k].r];
      }
    }
  }

  lemma NothingYet<N>(file: seq<Byte>, start: int, sign: int, ops: seq<Op<N>>, excuse: Excuse<N>)
    ensures LikeFile(file, start, sign, ops, [], excuse) && Where(start, sign, ops, []) == start
  {
  }
}
