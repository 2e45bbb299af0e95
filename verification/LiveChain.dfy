/** LiveTV: a chain of files, each with its own transfer, seen as one stream. */
module LiveChain {
  import opened Options
  import opened Bytes
  import opened FileTransfer
  import opened PlaybackBuffer
  import opened PlainFile

  /** An offset from the end of the stream counts forward. */
  const FROM_END := 1

  /**
    What happens meanwhile: the sizes reported for the last file, by the recorder when it is asked or, as
    long as the file is empty, by update events; the network at each request; and what the backend
    announces for a file that has to be opened, by its place in the chain.
  */
  datatype LiveNet = LiveNet(polled: seq<int>, net: nat -> Net, announced: nat -> Option<nat>)

  /** Where the `k`-th of files with these sizes starts in the stream. */
  function Start(sizes: seq<int>, k: nat): int
    requires k <= |sizes|
  {
    if k == 0 then 0 else Start(sizes, k - 1) + sizes[k - 1]
  }

  lemma {:induction false} StartMonotone(sizes: seq<int>, j: nat, k: nat)
    requires j <= k <= |sizes| && forall i :: 0 <= i < |sizes| ==> sizes[i] >= 0
    ensures 0 <= Start(sizes, j) <= Start(sizes, k)
  {
    if k > 0 {
      StartMonotone(sizes, if j < k then j else j - 1, k - 1);
    }
  }

  lemma {:induction false} StartPrefix(sizes: seq<int>, sizes': seq<int>, k: nat)
    requires k <= |sizes| && k <= |sizes'| && forall i :: 0 <= i < k ==> sizes[i] == sizes'[i]
    ensures Start(sizes, k) == Start(sizes', k)
  {
    if k > 0 {
      StartPrefix(sizes, sizes', k - 1);
    }
  }

  /** The first `k` files, one after the other, each as far as it is known. */
  function Content(files: seq<seq<Byte>>, sizes: seq<int>, k: nat): (c: seq<Byte>)
    requires k <= |files| == |sizes| && forall i :: 0 <= i < |files| ==> 0 <= sizes[i] <= |files[i]|
    ensures |c| == Start(sizes, k)
  {
    if k == 0 then [] else Content(files, sizes, k - 1) + files[k - 1][..sizes[k - 1]]
  }

  /** The stream has the bytes of the `k`-th file where that file starts. */
  lemma {:induction false} ContentOf(files: seq<seq<Byte>>, sizes: seq<int>, n: nat, k: nat, a: nat, b: nat)
    requires k < n <= |files| == |sizes| && forall i :: 0 <= i < |files| ==> 0 <= sizes[i] <= |files[i]|
    requires a <= b <= sizes[k]
    ensures 0 <= Start(sizes, k) && Start(sizes, k) + b <= |Content(files, sizes, n)|
    ensures Content(files, sizes, n)[Start(sizes, k) + a..Start(sizes, k) + b] == files[k][a..b]
  {
    if k < n - 1 {
      ContentOf(files, sizes, n - 1, k, a, b);
    } else {
      var front, tail := Content(files, sizes, n - 1), files[k][..sizes[k]];
      assert (front + tail)[|front| + a..|front| + b] == tail[a..b];
    }
  }

  predicate Bounded(files: seq<seq<Byte>>, sizes: seq<int>) {
    |files| == |sizes| && forall i :: 0 <= i < |files| ==> 0 <= sizes[i] <= |files[i]|
  }

  /** The stream was a prefix of what it is. */
  ghost predicate Extends(files: seq<seq<Byte>>, sizes: seq<int>, sizes': seq<int>) {
    && Bounded(files, sizes) && Bounded(files, sizes')
    && Content(files, sizes, |files|) <= Content(files, sizes', |files|)
  }

  lemma ExtendsSame(files: seq<seq<Byte>>, sizes: seq<int>)
    requires Bounded(files, sizes)
    ensures Extends(files, sizes, sizes)
  {
  }

  lemma ExtendsTwice(files: seq<seq<Byte>>, a: seq<int>, b: seq<int>, c: seq<int>)
    requires Extends(files, a, b) && Extends(files, b, c)
    ensures Extends(files, a, c)
  {
  }

  /** When a file after which all are empty gets longer, the stream only grows at its end. */
  lemma ContentGrows(files: seq<seq<Byte>>, sizes: seq<int>, c: nat, size: int)
    requires Bounded(files, sizes) && c < |files| && sizes[c] <= size <= |files[c]|
    requires forall i :: c < i < |files| ==> sizes[i] == 0
    ensures Extends(files, sizes, sizes[c := size])
  {
    ContentGrowsTo(files, sizes, c, size, |files|);
  }

  lemma {:induction false} ContentGrowsTo(files: seq<seq<Byte>>, sizes: seq<int>, c: nat, size: int, k: nat)
    requires Bounded(files, sizes) && c < |files| && sizes[c] <= size <= |files[c]| && k <= |files|
    requires forall i :: c < i < |files| ==> sizes[i] == 0
    ensures Content(files, sizes, k) <= Content(files, sizes[c := size], k)
    ensures k <= c ==> Content(files, sizes, k) == Content(files, sizes[c := size], k)
  {
    if k > 0 {
      ContentGrowsTo(files, sizes, c, size, k - 1);
      if k - 1 == c {
        assert files[c][..sizes[c]] <= files[c][..size];
      } else if k - 1 > c {
        assert files[k - 1][..0] == [];
      }
    }
  }

  /** A file that is still empty changes nothing. */
  lemma ContentAppended(files: seq<seq<Byte>>, sizes: seq<int>, file: seq<Byte>)
    requires Bounded(files, sizes)
    ensures Bounded(files + [file], sizes + [0])
    ensures Content(files + [file], sizes + [0], |files| + 1) == Content(files, sizes, |files|)
  {
    ContentPrefix(files, sizes, file, |files|);
  }

  lemma {:induction false} ContentPrefix(files: seq<seq<Byte>>, sizes: seq<int>, file: seq<Byte>, k: nat)
    requires Bounded(files, sizes) && k <= |files|
    ensures Content(files + [file], sizes + [0], k) == Content(files, sizes, k)
  {
    if k > 0 {
      ContentPrefix(files, sizes, file, k - 1);
    }
  }

  /** A transfer, as a value. */
  datatype View = View(size: int, position: int, requested: int, wire: seq<Byte>, isOpen: bool)

  function Sizes(views: seq<View>): (s: seq<int>)
    ensures |s| == |views| && forall i :: 0 <= i < |s| ==> s[i] == views[i].size
  {
    seq(|views|, i requires 0 <= i < |views| => views[i].size)
  }

  /** The socket holds exactly what was requested and not read, inside what the file is known to have. */
  ghost predicate Flows(v: View, file: seq<Byte>) {
    && 0 <= v.position <= v.requested <= |file| && v.wire == file[v.position..v.requested]
    && v.requested - v.position < 2 * RCVBUF
    && v.isOpen && v.position <= v.size <= |file|
  }

  /** The whole block of a file is granted, and flows in. */
  ghost predicate Arrives(v: View, file: seq<Byte>, n: nat, net: Net) {
    var m := Playback.BlockSize(n);
    && FlowsOver(net.polls, m)
    && (v.position + m > v.requested ==>
          && v.isOpen && net.sent
          && (v.requested <= |file| ==>
                v.position + m <= v.requested + Playback.Granted(net.grant, m, |file| - v.requested)))
  }

  /** A transfer that was never opened. */
  const BLANK := View(0, 0, 0, [], false)

  ghost predicate Fit(v: View, file: seq<Byte>) {
    Flows(v, file) || v == BLANK
  }

  /** Every transfer is in step; those never opened come last, after the current one. */
  ghost predicate InOrder(views: seq<View>, files: seq<seq<Byte>>, current: nat) {
    && |views| == |files| && current <= |views|
    && (forall i :: 0 <= i < |views| ==> Fit(views[i], files[i]))
    && (forall i, j :: 0 <= i < j < |views| && views[j].isOpen ==> views[i].isOpen)
    && (current > 0 ==> views[current - 1].isOpen)
  }

  /** Every transfer is inside its file, and nothing is known of the file of one that is not open. */
  predicate Sound(views: seq<View>) {
    forall i :: 0 <= i < |views| ==> 0 <= views[i].position <= views[i].size && (views[i].isOpen || views[i].size == 0)
  }

  lemma InOrderBounded(views: seq<View>, files: seq<seq<Byte>>, current: nat)
    requires InOrder(views, files, current)
    ensures Bounded(files, Sizes(views)) && Sound(views)
  {
    InOrderIsSound(views, files, current);
  }

  lemma InOrderMoved(views: seq<View>, files: seq<seq<Byte>>, current: nat, k: nat)
    requires InOrder(views, files, current) && k <= |views| && (k > 0 ==> views[k - 1].isOpen)
    ensures InOrder(views, files, k)
  {
  }

  lemma InOrderAppended(views: seq<View>, files: seq<seq<Byte>>, current: nat, file: seq<Byte>)
    requires InOrder(views, files, current)
    ensures InOrder(views + [BLANK], files + [file], current)
  {
  }

  lemma SizesAppended(views: seq<View>)
    ensures Sizes(views + [BLANK]) == Sizes(views) + [0]
  {
  }

  /** After a transfer that was never opened all are empty. */
  lemma RestIsBlank(views: seq<View>, files: seq<seq<Byte>>, current: nat, k: nat)
    requires InOrder(views, files, current) && k < |views| && !views[k].isOpen
    ensures forall i :: k <= i < |views| ==> views[i].size == 0
  {
    InOrderIsSound(views, files, current);
  }

  lemma InOrderIsSound(views: seq<View>, files: seq<seq<Byte>>, current: nat)
    requires InOrder(views, files, current)
    ensures Sound(views) && forall i :: 0 <= i < |views| ==> views[i].size <= |files[i]|
  {
    forall i | 0 <= i < |views|
      ensures 0 <= views[i].position <= views[i].size <= |files[i]| && (views[i].isOpen || views[i].size == 0)
    {
      assert Fit(views[i], files[i]);
    }
  }

  lemma InOrderReplaced(views: seq<View>, files: seq<seq<Byte>>, current: nat, k: nat, v: View)
    requires InOrder(views, files, current) && k < |views| && views[k].isOpen && Flows(v, files[k])
    ensures InOrder(views[k := v], files, current)
  {
  }

  /** A transfer that was open, and still in step if it was. */
  lemma StaysInOrder(was: seq<View>, files: seq<seq<Byte>>, current: nat, k: nat, v: View)
    requires InOrder(was, files, current) && k < |was| && was[k].isOpen
    requires Flows(was[k], files[k]) ==> Flows(v, files[k])
    ensures InOrder(was[k := v], files, current)
  {
    assert Fit(was[k], files[k]);
    InOrderReplaced(was, files, current, k, v);
  }

  lemma SameSizes(views: seq<View>, k: nat, v: View)
    requires k < |views| && v.size == views[k].size
    ensures Sizes(views[k := v]) == Sizes(views)
  {
  }

  lemma SoundReplaced(views: seq<View>, k: nat, v: View)
    requires Sound(views) && k < |views| && 0 <= v.position <= v.size && v.isOpen
    ensures Sound(views[k := v])
  {
  }

  /** The next transfer, if it was never opened, is opened with a size the file has. */
  lemma InOrderOpened(views: seq<View>, files: seq<seq<Byte>>, current: nat, size: int)
    requires InOrder(views, files, current) && current < |views| && 0 <= size <= |files[current]|
    ensures InOrder(views[current := View(size, 0, 0, [], true)], files, current + 1)
  {
    assert files[current][0..0] == [];
  }

  // ---------------------------------------------------------------- what is reported and announced

  /** No size reported for a file goes beyond `fp`; no more is reported than is recorded. */
  predicate NoneBeyond(polled: seq<int>, length: nat, fp: int) {
    forall i :: 0 <= i < |polled| ==> Min(polled[i], length) <= fp
  }

  /** The first size reported beyond `fp`. */
  ghost predicate FirstBeyond(polled: seq<int>, length: nat, fp: int, size: int) {
    exists i :: 0 <= i < |polled| && size == Min(polled[i], length) > fp && NoneBeyond(polled[..i], length, fp)
  }

  lemma NotInPrefix(polled: seq<int>, i: nat, j: nat)
    requires i < |polled| && j < |polled|
    ensures i < j ==> polled[..j][i] == polled[i]
  {
  }

  lemma OneFirst(polled: seq<int>, length: nat, fp: int, a: int, b: int)
    requires FirstBeyond(polled, length, fp, a) && FirstBeyond(polled, length, fp, b)
    ensures a == b > fp
  {
    var i :| 0 <= i < |polled| && a == Min(polled[i], length) > fp && NoneBeyond(polled[..i], length, fp);
    var j :| 0 <= j < |polled| && b == Min(polled[j], length) > fp && NoneBeyond(polled[..j], length, fp);
    NotInPrefix(polled, i, j);
    NotInPrefix(polled, j, i);
  }

  /** The size with which a file is taken up. */
  function Taken(v: View, announced: Option<nat>, length: nat): int {
    if v.isOpen || announced == None then v.size else Min(announced.value, length)
  }

  /** The file can be taken up, and nothing is known of it then. */
  predicate Bare(v: View, announced: Option<nat>, length: nat) {
    if v.isOpen then v.size == 0 else announced.Some? && Min(announced.value, length) == 0
  }

  /** All these files come up empty. */
  ghost predicate AllBare(views: seq<View>, files: seq<seq<Byte>>, live: LiveNet, from: nat, to: nat)
    requires to <= |views| == |files|
  {
    forall i :: from <= i < to ==> Bare(views[i], live.announced(i), |files[i]|)
  }

  /**
    A read that starts at the end of a file, `fp` bytes into it, waits in vain: all files from `from` on come
    up empty, and no size reported for the last one goes beyond `fp`, the position in the file it started in.
  */
  ghost predicate Stalls(views: seq<View>, files: seq<seq<Byte>>, live: LiveNet, from: nat, fp: int) {
    && 0 < |views| == |files| && AllBare(views, files, live, from, |views|)
    && NoneBeyond(live.polled, |files[|files| - 1]|, fp)
  }

  /** The largest size reported. */
  function Largest(polled: seq<int>, length: nat): int {
    if polled == [] then 0
    else
      var before, k := Largest(polled[..|polled| - 1], length), |polled| - 1;
      if Min(polled[k], length) > before then Min(polled[k], length) else before
  }

  lemma {:induction false} LargestBounds(polled: seq<int>, length: nat, fp: int)
    requires fp >= 0
    ensures NoneBeyond(polled, length, fp) <==> Largest(polled, length) <= fp
  {
    if polled != [] {
      var before, k := polled[..|polled| - 1], |polled| - 1;
      LargestBounds(before, length, fp);
      assert forall i :: 0 <= i < k ==> polled[i] == before[i];
    }
  }

  /**
    A read that moves on into files that come up empty compares what is reported for the last one with the
    position in the file it started in. It waits in vain, although more of the last file is reported,
    if and only if the largest size reported is not beyond that position.
  */
  lemma OverlooksExactly(views: seq<View>, files: seq<seq<Byte>>, live: LiveNet, from: nat, fp: int)
    requires from < |views| == |files| && fp >= 0 && AllBare(views, files, live, from, |views|)
    ensures
      var length := |files[|files| - 1]|;
      (Stalls(views, files, live, from, fp) && !NoneBeyond(live.polled, length, 0)) <==>
        0 < Largest(live.polled, length) <= fp
  {
    LargestBounds(live.polled, |files[|files| - 1]|, fp);
    LargestBounds(live.polled, |files[|files| - 1]|, 0);
  }

  /** A file's size is what it was, or what was announced when it was opened, or a size reported for the last file. */
  ghost predicate Traced(v: View, i: nat, length: nat, last: bool, live: LiveNet, fp: int, size: int) {
    || size == v.size
    || (!v.isOpen && live.announced(i).Some? && size == Min(live.announced(i).value, length))
    || (last && FirstBeyond(live.polled, length, fp, size))
  }

  ghost predicate AllTraced(was: seq<View>, files: seq<seq<Byte>>, live: LiveNet, fp: int, sizes: seq<int>) {
    && |was| == |files| == |sizes|
    && forall i :: 0 <= i < |was| ==> Traced(was[i], i, |files[i]|, i == |was| - 1, live, fp, sizes[i])
  }

  lemma TracedSame(views: seq<View>, files: seq<seq<Byte>>, live: LiveNet, fp: int)
    requires |views| == |files|
    ensures AllTraced(views, files, live, fp, Sizes(views))
  {
  }

  lemma TracedNext(was: seq<View>, files: seq<seq<Byte>>, live: LiveNet, fp: int, before: seq<View>, k: nat, v: View)
    requires AllTraced(was, files, live, fp, Sizes(before)) && k < |before|
    requires Traced(was[k], k, |files[k]|, k == |was| - 1, live, fp, v.size)
    ensures AllTraced(was, files, live, fp, Sizes(before[k := v]))
  {
  }

  /**
    How far a read that started at the end of a file has come: it stands in file `current`, with nothing
    known of the files passed so far as long as it is `done` with them.
  */
  ghost predicate Course(was: seq<View>, now: seq<View>, files: seq<seq<Byte>>, live: LiveNet, fp: int,
      from: nat, current: nat, done: bool)
  {
    && 0 < from <= current <= |was| == |now| == |files|
    && (forall i :: current <= i < |now| ==> now[i] == was[i])
    && AllTraced(was, files, live, fp, Sizes(now))
    && (if done then
          && AllBare(was, files, live, from, current) && Sizes(now) == Sizes(was)
          && forall i :: from <= i < current ==> now[i].size == 0
        else !Stalls(was, files, live, from, fp))
  }

  lemma CourseStarts(views: seq<View>, files: seq<seq<Byte>>, live: LiveNet, fp: int, current: nat)
    requires 0 < current <= |views| == |files|
    ensures Course(views, views, files, live, fp, current, current, true)
  {
    TracedSame(views, files, live, fp);
  }

  /** On into the next file. */
  lemma CourseNext(was: seq<View>, now: seq<View>, files: seq<seq<Byte>>, live: LiveNet, fp: int,
      from: nat, c: nat, v: View)
    requires Course(was, now, files, live, fp, from, c, true) && c < |now|
    requires now[c].isOpen || live.announced(c).Some?
    requires v.size == Taken(now[c], live.announced(c), |files[c]|) && (v.size == 0 ==> now[c].size == 0)
    ensures Course(was, now[c := v], files, live, fp, from, c + 1, v.size == 0)
    ensures v.size != 0 ==> !AllBare(was, files, live, from, |was|)
  {
    hide FirstBeyond, NoneBeyond;
    TracedNext(was, files, live, fp, now, c, v);
    if v.size == 0 {
      SameSizes(now, c, v);
    } else {
      assert !Bare(was[c], live.announced(c), |files[c]|);
    }
  }

  /** More of the last file is reported. */
  lemma CourseGrows(was: seq<View>, now: seq<View>, files: seq<seq<Byte>>, live: LiveNet, fp: int,
      from: nat, v: View)
    requires Course(was, now, files, live, fp, from, |now|, true)
    requires FirstBeyond(live.polled, |files[|now| - 1]|, fp, v.size)
    requires !NoneBeyond(live.polled, |files[|now| - 1]|, fp)
    ensures Course(was, now[|now| - 1 := v], files, live, fp, from, |now|, false)
    ensures AllBare(was, files, live, from, |was|)
  {
    hide FirstBeyond, NoneBeyond;
    TracedNext(was, files, live, fp, now, |now| - 1, v);
  }

  lemma CourseEnds(was: seq<View>, now: seq<View>, files: seq<seq<Byte>>, live: LiveNet, fp: int,
      from: nat, current: nat)
    requires Course(was, now, files, live, fp, from, current, false)
    ensures AllTraced(was, files, live, fp, Sizes(now)) && !Stalls(was, files, live, from, fp)
  {
  }

  /** How a read goes on at the end of a file: with bytes to read, waiting in vain, or without the next file. */
  datatype Turn = Go | Wait | Fail

  /** The chain, and the recorder whose connection drives its transfers. */
  class Chain {
    var recorder: Playback?
    var chained: seq<Transfer>
    var last: nat
    var current: nat
    var currentTransfer: Transfer?
    /** The chain as values: what each file holds, and the state of each transfer. */
    ghost var files: seq<seq<Byte>>
    ghost var views: seq<View>

    static ghost function ViewOf(t: Transfer): View
      reads t
    {
      View(t.size, t.position, t.requested, t.wire, t.isOpen)
    }

    ghost predicate Valid()
      reads this, chained
    {
      && last == |chained| == |views| == |files| && current <= last
      && (forall i, j :: 0 <= i < j < |chained| ==> chained[i] != chained[j])
      && (forall i :: 0 <= i < |chained| ==> views[i] == ViewOf(chained[i]) && files[i] == chained[i].file)
      && (current > 0 ==> currentTransfer == chained[current - 1])
    }

    constructor (recorder: Playback)
      ensures Valid() && current == 0 && chained == [] && this.recorder == recorder
      ensures recorder.pending == None ==> Streaming()
    {
      this.recorder := recorder;
      chained, last, current, currentTransfer := [], 0, 0, null;
      files, views := [], [];
    }

    // -------------------------------------------------------------- the stream

    /** Every transfer is inside its file. */
    ghost predicate Healthy()
      reads this
    {
      recorder != null && Sound(views)
    }

    /** Every socket is in step with its file. */
    ghost predicate Streaming()
      reads this, recorder
    {
      recorder != null && recorder.pending == None && InOrder(views, files, current)
    }

    /** The position in the stream of the next byte from the current transfer. */
    ghost function Head(): int
      reads this
    {
      if 0 < current <= |views| then Start(Sizes(views), current - 1) + views[current - 1].position else 0
    }

    /** The length of the stream. */
    ghost function Size(): int
      reads this
    {
      Start(Sizes(views), |views|)
    }

    /** The whole stream, as far as its files are known. */
    ghost function Contents(): (c: seq<Byte>)
      requires Streaming()
      reads this, recorder
      ensures |c| == Size()
    {
      InOrderBounded(views, files, current);
      Content(files, Sizes(views), |files|)
    }

    /** These are the bytes of the stream between two places. */
    ghost predicate Stream(bytes: seq<Byte>, from: int, to: int)
      requires Streaming()
      reads this, recorder
    {
      0 <= from <= to <= Size() && bytes == Contents()[from..to]
    }

    lemma IsHealthy()
      requires Streaming()
      ensures Healthy()
    {
      InOrderBounded(views, files, current);
    }

    /** A part of the stream, cut in two. */
    lemma Split(b: seq<Byte>, front: seq<Byte>, tail: seq<Byte>, from: int, to: int)
      requires Streaming() && Stream(b, from, to) && b == front + tail
      ensures Stream(front, from, from + |front|) && Stream(tail, to - |tail|, to)
    {
      assert front == b[..|front|] && tail == b[|front|..];
    }

    /** Where the chain stands is inside the stream. */
    lemma Here()
      requires Streaming()
      ensures 0 <= Head() <= Size() && Stream([], Head(), Head())
    {
      hide Content, InOrder;
      InOrderBounded(views, files, current);
      InStep();
      HeadInside(views, current);
    }

    lemma InStep()
      requires Streaming()
      ensures current <= |views| == |files|
    {
    }

    static lemma HeadInside(views: seq<View>, current: nat)
      requires Sound(views) && current <= |views|
      ensures 0 <= Start(Sizes(views), |views|)
      ensures current > 0 ==>
        0 <= Start(Sizes(views), current - 1) + views[current - 1].position <= Start(Sizes(views), |views|)
    {
      StartMonotone(Sizes(views), 0, |views|);
      if current > 0 {
        StartMonotone(Sizes(views), 0, current - 1);
        StartMonotone(Sizes(views), current, |views|);
      }
    }

    /** The bytes of a file are in the stream. */
    lemma OfStream(k: nat, a: int, b: int)
      requires Streaming() && k < |views| && 0 <= a <= b <= views[k].size
      ensures b <= |files[k]| && Stream(files[k][a..b], Start(Sizes(views), k) + a, Start(Sizes(views), k) + b)
    {
      InOrderBounded(views, files, current);
      ContentOf(files, Sizes(views), |files|, k, a, b);
    }

    method GetSize() returns (size: int)
      requires Valid()
      ensures size == Size()
    {
      size := 0;
      for i := 0 to |chained|
        invariant size == Start(Sizes(views), i)
      {
        size := size + chained[i].size;
      }
    }

    /** `GetPosition`, for a buffer that holds `unread` bytes. */
    method GetPosition(unread: nat) returns (pos: int)
      requires Valid()
      ensures pos == Head() - unread
    {
      pos := 0;
      if current > 0 {
        var s := current - 1;
        for i := 0 to s
          invariant pos == Start(Sizes(views), i)
        {
          pos := pos + chained[i].size;
        }
        pos := pos + currentTransfer.position;
      }
      pos := pos - unread;
    }

    // -------------------------------------------------------------- the chain

    /** A new file at the end of the chain, as `HandleChainUpdate` adds it: its transfer was never opened. */
    method Append(t: Transfer)
      requires Valid() && Streaming() && ViewOf(t) == BLANK && t !in chained
      modifies this`chained, this`last, this`files, this`views
      ensures Valid() && Streaming() && chained == old(chained) + [t] && current == old(current)
      ensures files == old(files) + [t.file] && views == old(views) + [BLANK]
      ensures Head() == old(Head()) && Contents() == old(Contents())
    {
      hide InOrder, Content, Start, Sizes, Bounded;
      InOrderBounded(views, files, current);
      ContentAppended(files, Sizes(views), t.file);
      InOrderAppended(views, files, current, t.file);
      SizesAppended(views);
      if current > 0 {
        StartPrefix(Sizes(views), Sizes(views) + [0], current - 1);
      }
      chained := chained + [t];
      last := |chained|;
      files, views := files + [t.file], views + [BLANK];
    }

    /** `SwitchChain` to a transfer that is open. */
    method MakeCurrent(sequence: nat) returns (ok: bool)
      requires Valid() && (1 <= sequence <= last ==> chained[sequence - 1].isOpen)
      modifies this`current, this`currentTransfer
      ensures Valid() && ok == (1 <= sequence <= last)
      ensures current == if ok then sequence else old(current)
      ensures old(Streaming()) ==> Streaming()
    {
      hide InOrder;
      if sequence < 1 || sequence > last {
        return false;
      }
      assert views[sequence - 1] == ViewOf(chained[sequence - 1]);
      if InOrder(views, files, current) {
        InOrderMoved(views, files, current, sequence);
      }
      currentTransfer := chained[sequence - 1];
      current := sequence;
      ok := true;
    }

    /** Opens a transfer of the chain that is closed. */
    method OpenAt(k: nat, announced: Option<int>) returns (ok: bool)
      requires Valid() && k < last && !chained[k].isOpen
      modifies this`views, chained`size, chained`position, chained`requested, chained`wire, chained`isOpen
      ensures Valid() && ok == announced.Some?
      ensures views == if ok then old(views)[k := View(announced.value, 0, 0, [], true)] else old(views)
    {
      var t := chained[k];
      ok := t.Open(announced);
      views := views[k := ViewOf(t)];
    }

    /** `SwitchChain`: a closed transfer is opened first, at its start and with the size the backend announces. */
    method SwitchChain(sequence: nat, announced: Option<int>) returns (ok: bool)
      requires Valid()
      modifies this`current, this`currentTransfer, this`views
      modifies chained`size, chained`position, chained`requested, chained`wire, chained`isOpen
      ensures Valid()
      ensures ok == (1 <= sequence <= last && (old(chained[sequence - 1].isOpen) || announced.Some?))
      ensures current == if ok then sequence else old(current)
      ensures views ==
        if ok && !old(chained[sequence - 1].isOpen)
        then old(views)[sequence - 1 := View(announced.value, 0, 0, [], true)] else old(views)
    {
      hide Streaming;
      if sequence < 1 || sequence > last {
        return false;
      }
      if !chained[sequence - 1].isOpen {
        ok := OpenAt(sequence - 1, announced);
        if !ok {
          return;
        }
        assert views[sequence - 1] == ViewOf(chained[sequence - 1]);
      }
      ok := MakeCurrent(sequence);
    }

    // -------------------------------------------------------------- seeking

    /** The search forward: it never runs off the end of the chain. */
    method FindForward(p: int, from: int) returns (ci: nat, position: int)
      requires Valid() && Healthy() && current > 0 && from == Head() < p <= Size()
      ensures ci < |views| && views[ci].isOpen && position == Start(Sizes(views), ci) + views[ci].position
      ensures Start(Sizes(views), ci) <= p <= Start(Sizes(views), ci) + views[ci].size
    {
      ci, position := current - 1, from;
      while position + (chained[ci].size - chained[ci].position) < p
        invariant ci < |views| && position == Start(Sizes(views), ci) + views[ci].position
        invariant Start(Sizes(views), ci) < p
        decreases |views| - ci
      {
        position := position + (chained[ci].size - chained[ci].position);
        ci := ci + 1;
        assert ci < last;
        position := position + chained[ci].position;
      }
    }

    /** The search backward: it never runs off the front of the chain. */
    method FindBackward(p: int, from: int) returns (ci: nat, position: int)
      requires Valid() && Healthy() && current > 0 && 0 <= p < from == Head()
      ensures ci < |views| && views[ci].isOpen && position == Start(Sizes(views), ci) + views[ci].position
      ensures Start(Sizes(views), ci) <= p <= Start(Sizes(views), ci) + views[ci].size
    {
      ci, position := current - 1, from;
      while position - chained[ci].position > p
        invariant ci < |views| && position == Start(Sizes(views), ci) + views[ci].position
        invariant p < Start(Sizes(views), ci) + views[ci].size
        decreases ci
      {
        position := position - chained[ci].position;
        assert ci > 0;
        ci := ci - 1;
        position := position - (chained[ci].size - chained[ci].position);
      }
    }

    /** The place in the stream a seek asks for. */
    ghost function Target(offset: int, whence: Whence, unread: nat): int
      reads this
    {
      Goal(Head() - unread, Size(), FROM_END, offset, whence)
    }

    /** The backend answers a SEEK with the position it was asked for, or not at all. */
    static ghost predicate Honest(reply: int -> Answer) {
      forall q :: reply(q) == At(q) || reply(q) == Broken
    }

    static lemma HonestAt(reply: int -> Answer, q: int)
      ensures Honest(reply) ==> reply(q) == At(q) || reply(q) == Broken
    {
    }

    /** A seek inside one file, by a distance that stays inside it. */
    method SeekAt(k: nat, distance: int, answer: Answer, patience: nat) returns (q: int)
      requires Valid() && recorder != null && k < last && views[k].isOpen
      requires 0 <= views[k].position <= views[k].size && 0 <= views[k].position + distance <= views[k].size
      modifies this`views, recorder`latch, chained`position, chained`wire, chained`requested
      ensures Valid() && views == old(views)[k := views[k]] && views[k].size == old(views[k].size) && views[k].isOpen
      ensures
        var asked := old(views[k].position) + distance;
        answer == At(asked) || answer == Broken ==>
          && (if q >= 0 then views[k].(requested := 0, wire := []) ==
                old(views[k]).(position := asked, requested := 0, wire := [])
              else views == old(views))
          && (answer == At(asked) ==> q >= 0)
          && (patience >= 2 * RCVBUF && old(Flows(views[k], files[k])) ==> Flows(views[k], files[k]))
    {
      var t := chained[k];
      q := recorder.TransferSeek(t, distance, Cur, answer, patience);
      views := views[k := ViewOf(t)];
    }

    /** The chain stands at `p`, or nothing changed. */
    ghost predicate Sought(p: int, r: int, seq0: nat, was: seq<View>)
      reads this
    {
      Healthy() && if r == p then current > 0 && Head() == p else r == -1 && current == seq0 && views == was
    }

    /** Seeks in the file found and makes it the current one. `reply` answers the position asked for in that file. */
    method SeekIn(ci: nat, p: int, position: int, reply: int -> Answer, patience: nat) returns (r: int)
      requires Valid() && Healthy() && ci < |views| && views[ci].isOpen
      requires position == Start(Sizes(views), ci) + views[ci].position
      requires Start(Sizes(views), ci) <= p <= Start(Sizes(views), ci) + views[ci].size
      modifies this`current, this`currentTransfer, this`views
      modifies recorder`latch, chained`position, chained`wire, chained`requested
      ensures Valid() && (r == p || r == -1) && Sizes(views) == old(Sizes(views))
      ensures Honest(reply) ==> Sought(p, r, old(current), old(views))
      ensures Honest(reply) && patience >= 2 * RCVBUF && old(Streaming()) ==> Streaming()
      ensures (forall q :: reply(q) == At(q)) ==> r == p
    {
      hide Start, Honest, InOrder, Flows, Sizes, Sound;
      IsSound(ci);
      assert 0 <= p by { StartMonotone(Sizes(views), 0, ci); }
      var asked := chained[ci].position + (p - position);
      HonestAt(reply, asked);
      ghost var was := views;
      var q := SeekAt(ci, p - position, reply(asked), patience);
      SameSizes(was, ci, views[ci]);
      if Honest(reply) {
        SoundReplaced(was, ci, views[ci]);
      }
      if Honest(reply) && patience >= 2 * RCVBUF && InOrder(was, files, current) {
        StaysInOrder(was, files, current, ci, views[ci]);
      }
      if q < 0 {
        return -1;
      }
      var ok := MakeCurrent(ci + 1);
      r := p;
    }

    lemma IsSound(k: nat)
      requires Healthy() && k < |views|
      ensures 0 <= views[k].position <= views[k].size && forall i :: 0 <= i < |views| ==> Sizes(views)[i] >= 0
    {
    }

    /** From `position` to another place in the stream. */
    method Reach(p: int, position: int, reply: int -> Answer, patience: nat) returns (r: int)
      requires Valid() && Healthy() && current > 0 && 0 <= p <= Size() && position == Head() != p
      modifies this`current, this`currentTransfer, this`views
      modifies recorder`latch, chained`position, chained`wire, chained`requested
      ensures Valid() && (r == p || r == -1) && Sizes(views) == old(Sizes(views))
      ensures Honest(reply) ==> Sought(p, r, old(current), old(views))
      ensures Honest(reply) && patience >= 2 * RCVBUF && old(Streaming()) ==> Streaming()
      ensures (forall q :: reply(q) == At(q)) ==> r == p
    {
      hide Start, Honest, Sought, Streaming, Sound;
      var ci, at;
      if p > position {
        ci, at := FindForward(p, position);
      } else {
        ci, at := FindBackward(p, position);
      }
      r := SeekIn(ci, p, at, reply, patience);
    }

    /**
      `_seek` over transfers that are inside their files, with nothing buffered or a seek by zero. With a
      backend that answers with the position asked, a target inside the stream is reached, whatever
      file it is in. A target outside, or an answer that never comes, changes nothing.
    */
    method SeekChain(offset: int, whence: Whence, unread: nat, reply: int -> Answer, patience: nat) returns (r: int)
      requires Valid() && Healthy() && (unread == 0 || (whence == Cur && offset == 0))
      modifies this`current, this`currentTransfer, this`views
      modifies recorder`latch, chained`position, chained`wire, chained`requested
      ensures Valid() && Sizes(views) == old(Sizes(views))
      ensures
        var p := old(Target(offset, whence, unread));
        if old(current) == 0 || p < 0 || p > Size() then r == -1 && current == old(current) && views == old(views)
        else
          && (r == p || r == -1)
          && (Honest(reply) ==> Sought(p + unread, if r == p then p + unread else r, old(current), old(views)))
          && ((forall q :: reply(q) == At(q)) || p == old(Head()) - unread ==> r == p)
          && (p == old(Head()) - unread ==> current == old(current) && views == old(views))
      ensures Honest(reply) && patience >= 2 * RCVBUF && old(Streaming()) ==> Streaming()
    {
      hide Start, Honest, Streaming, Sound;
      if current == 0 {
        return -1;
      }
      var size := GetSize();
      var position := GetPosition(unread);
      var p := match whence case Set => offset case End => size + offset case Cur => position + offset;
      if p > size || p < 0 {
        return -1;
      }
      r := p;
      if p != position {
        r := Reach(p, position, reply, patience);
      }
    }

    // -------------------------------------------------------------- the files change over

    /** The stream goes on: the chain stands where it stood, and what was in the stream is still there. */
    ghost predicate GoesOn(was: seq<View>, at: int)
      reads this, recorder
    {
      Streaming() && Head() == at && Extends(files, Sizes(was), Sizes(views))
    }

    /** The current file is known to its end and read to there. */
    ghost predicate Finished()
      reads this
    {
      0 < current <= |views| && views[current - 1].position == views[current - 1].size
    }

    /** The backend announces no more than is recorded. */
    static function Known(announced: Option<nat>, length: nat): (size: Option<int>)
      ensures size.Some? == announced.Some? && (size.Some? ==> 0 <= size.value <= length)
    {
      match announced
      case None => None
      case Some(size) => Some(Min(size, length))
    }

    /** The chain with the next file open. */
    static ghost function Opened(views: seq<View>, k: nat, size: int): (v: seq<View>)
      requires k < |views|
      ensures |v| == |views|
    {
      if views[k].isOpen then views else views[k := View(size, 0, 0, [], true)]
    }

    /** Opening the next file, if need be, lets the stream grow at its end. */
    static lemma OpenedGrows(views: seq<View>, files: seq<seq<Byte>>, c: nat, size: int)
      requires InOrder(views, files, c) && c < |views| && 0 <= size <= |files[c]|
      ensures
        var v := Opened(views, c, size);
        && InOrder(v, files, c + 1) && Extends(files, Sizes(views), Sizes(v)) && v[c].isOpen
        && Start(Sizes(v), c) == Start(Sizes(views), c) && (v[c].size == 0 ==> Sizes(v) == Sizes(views))
    {
      hide Content;
      InOrderBounded(views, files, c);
      if views[c].isOpen {
        InOrderMoved(views, files, c, c + 1);
        ExtendsSame(files, Sizes(views));
      } else {
        var v := Opened(views, c, size);
        InOrderOpened(views, files, c, size);
        RestIsBlank(views, files, c, c);
        ContentGrows(files, Sizes(views), c, size);
        assert Sizes(v) == Sizes(views)[c := size];
        StartPrefix(Sizes(v), Sizes(views), c);
      }
    }

    /** On to the next file, which is opened if it never was. */
    method SwitchNext(announced: Option<nat>) returns (ok: bool)
      requires Valid() && Streaming() && 0 < current < last
      modifies this`current, this`currentTransfer, this`views
      modifies chained`size, chained`position, chained`requested, chained`wire, chained`isOpen
      ensures Valid() && Streaming() && ok == (old(views[current].isOpen) || announced.Some?)
      ensures Extends(files, old(Sizes(views)), Sizes(views))
      ensures !ok ==> current == old(current) && views == old(views)
      ensures ok ==>
        && current == old(current) + 1 && views[current - 1].isOpen
        && views == old(views)[current - 1 := views[current - 1]]
        && views[current - 1].size == Taken(old(views[current]), announced, |files[current - 1]|)
        && (old(views[current].isOpen) || views[current - 1].size == Min(announced.value, |files[current - 1]|))
        && Start(Sizes(views), current - 1) == old(Start(Sizes(views), current))
        && (views[current - 1].size == 0 ==> Sizes(views) == old(Sizes(views)))
    {
      hide InOrder, Content, Start, Sizes, Bounded;
      InOrderBounded(views, files, current);
      ExtendsSame(files, Sizes(views));
      var size := Known(announced, |chained[current].file|);
      OpenedGrows(views, files, current, if size.Some? then size.value else 0);
      ok := SwitchChain(current + 1, size);
    }

    /** At the end of a file the next one starts. */
    lemma HereAndNext()
      requires Streaming() && Finished()
      ensures Head() == Start(Sizes(views), current) && Extends(files, Sizes(views), Sizes(views))
    {
      InOrderBounded(views, files, current);
    }

    /** The current file is read from its start. */
    method Rewind(reply: int -> Answer, patience: nat)
      requires Valid() && Streaming() && current > 0 && (forall q :: reply(q) == At(q)) && patience >= 2 * RCVBUF
      modifies this`views, recorder`latch, chained`position, chained`wire, chained`requested
      ensures Valid() && Streaming() && Sizes(views) == old(Sizes(views))
      ensures views == old(views)[current - 1 := views[current - 1]]
      ensures views[current - 1].position == 0 && views[current - 1].size == old(views[current - 1].size)
    {
      hide InOrder, Sizes, Flows;
      if currentTransfer.position != 0 {
        ghost var was, k := views, current - 1;
        ItFlows(views, files, current, k);
        RewindFile(k, reply(0), patience);
        InOrderReplaced(was, files, current, k, views[k]);
        SameSizes(was, k, views[k]);
      }
    }

    method RewindFile(ghost k: nat, answer: Answer, patience: nat)
      requires Valid() && recorder != null && current == k + 1 && Flows(views[k], files[k]) && views[k].position != 0
      requires answer == At(0) && patience >= 2 * RCVBUF
      modifies this`views, recorder`latch, chained`position, chained`wire, chained`requested
      ensures Valid() && views == old(views)[k := views[k]] && Flows(views[k], files[k])
      ensures views[k].position == 0 && views[k].size == old(views[k].size)
    {
      var q := recorder.TransferSeek(currentTransfer, 0, Set, answer, patience);
      views := views[k := ViewOf(currentTransfer)];
    }

    /**
      The next file is taken up at its start, where the one before ends; a file that was never opened is
      opened. It fails only when the backend does not announce that file.
    */
    method NextFile(announced: Option<nat>, reply: int -> Answer, patience: nat) returns (ok: bool)
      requires Valid() && Streaming() && 0 < current < last && Finished()
      requires (forall q :: reply(q) == At(q)) && patience >= 2 * RCVBUF
      modifies this`current, this`currentTransfer, this`views, recorder`latch
      modifies chained`size, chained`position, chained`requested, chained`wire, chained`isOpen
      ensures Valid() && ok == (old(views[current].isOpen) || announced.Some?) && GoesOn(old(views), old(Head()))
      ensures !ok ==> current == old(current) && views == old(views)
      ensures ok ==> current == old(current) + 1 && views[current - 1].position == 0
      ensures ok ==> views == old(views)[current - 1 := views[current - 1]]
      ensures ok ==> views[current - 1].size == Taken(old(views[current]), announced, |files[current - 1]|)
      ensures ok && !old(views[current].isOpen) ==>
        views[current - 1].size == Min(announced.value, |files[current - 1]|)
      ensures ok && views[current - 1].size == 0 ==> Sizes(views) == old(Sizes(views))
    {
      hide Content, Sizes, Extends, Start, Taken, Streaming;
      HereAndNext();
      ok := SwitchNext(announced);
      if ok {
        Rewind(reply, patience);
      }
    }

    // -------------------------------------------------------------- waiting for more

    /** The first size reported beyond `fp` before the time is up; no more is reported than is recorded. */
    method PollSize(fp: int, polled: seq<int>, length: nat) returns (rp: Option<int>)
      ensures
        if rp.Some? then fp < rp.value <= length && FirstBeyond(polled, length, fp, rp.value)
        else NoneBeyond(polled, length, fp)
      ensures rp.Some? <==> !NoneBeyond(polled, length, fp)
    {
      for i := 0 to |polled|
        invariant NoneBeyond(polled[..i], length, fp)
      {
        if Min(polled[i], length) > fp {
          return Some(Min(polled[i], length));
        }
        assert polled[..i + 1] == polled[..i] + [polled[i]];
      }
      assert polled[..|polled|] == polled;
      rp := None;
    }

    /**
      The last file is read to its end, all files from `from` on are empty, and no size reported for the last
      one goes beyond that of the file before `from`, where the read started.
    */
    ghost predicate Exhausted(from: nat, polled: seq<int>)
      reads this
    {
      && Finished() && 0 < from <= current == |views| == |files|
      && (forall i :: from <= i < |views| ==> views[i].size == 0)
      && NoneBeyond(polled, |files[current - 1]|, views[from - 1].size)
    }

    /** The last file turns out to be longer. */
    method Grow(rp: int)
      requires Valid() && Streaming() && Finished() && current == last
      requires views[current - 1].size <= rp <= |files[current - 1]|
      modifies this`views, chained`size
      ensures Valid() && GoesOn(old(views), old(Head()))
      ensures views == old(views)[current - 1 := old(views[current - 1]).(size := rp)]
    {
      hide InOrder, Content, Sizes, Start, Extends;
      LongerLast(views, files, current, rp);
      currentTransfer.size := rp;
      views := views[current - 1 := ViewOf(currentTransfer)];
    }

    static lemma LongerLast(views: seq<View>, files: seq<seq<Byte>>, current: nat, rp: int)
      requires InOrder(views, files, current) && 0 < current == |views|
      requires views[current - 1].size <= rp <= |files[current - 1]|
      ensures
        var v := views[current - 1 := views[current - 1].(size := rp)];
        && InOrder(v, files, current) && Extends(files, Sizes(views), Sizes(v))
        && Start(Sizes(v), current - 1) == Start(Sizes(views), current - 1)
    {
      hide Content;
      var k := current - 1;
      var v := views[k := views[k].(size := rp)];
      ItFlows(views, files, current, k);
      InOrderReplaced(views, files, current, k, v[k]);
      InOrderBounded(views, files, current);
      ContentGrows(files, Sizes(views), k, rp);
      assert Sizes(v) == Sizes(views)[k := rp];
      StartPrefix(Sizes(v), Sizes(views), k);
    }

    /** Waits until more of the last file is known. */
    method AwaitMore(fp: int, polled: seq<int>) returns (turn: Turn)
      requires Valid() && Streaming() && Finished() && current == last && 0 <= fp && views[current - 1].position <= fp
      modifies this`views, chained`size
      ensures Valid() && GoesOn(old(views), old(Head())) && turn != Fail
      ensures turn == Wait <==> NoneBeyond(polled, |files[current - 1]|, fp)
      ensures views == old(views)[current - 1 := old(views[current - 1]).(size := views[current - 1].size)]
      ensures turn == Go ==> !Finished() && FirstBeyond(polled, |files[current - 1]|, fp, views[current - 1].size)
      ensures turn == Wait ==> views == old(views)
    {
      hide InOrder, Sizes, Extends, Head, FirstBeyond, NoneBeyond;
      Starts();
      turn := Wait;
      var rp := PollSize(fp, polled, |currentTransfer.file|);
      if rp.Some? {
        Grow(rp.value);
        turn := Go;
      }
    }

    /** The current file is read to its end: on to the next one, or wait for more of the last one. */
    method Advance(fp: int, live: LiveNet, reply: int -> Answer, patience: nat) returns (turn: Turn, ahead: bool)
      requires Valid() && Streaming() && Finished() && 0 <= fp && views[current - 1].position <= fp
      requires (forall q :: reply(q) == At(q)) && patience >= 2 * RCVBUF
      modifies this`current, this`currentTransfer, this`views, recorder`latch
      modifies chained`size, chained`position, chained`requested, chained`wire, chained`isOpen
      ensures Valid() && GoesOn(old(views), old(Head())) && ahead == (old(current) == last) && |views| == old(|views|)
      ensures turn != Go ==> current == old(current) && views == old(views)
      ensures turn == Go ==> 0 < current <= |views| && views[current - 1].position <= fp
      ensures turn == Go && Finished() ==> Sizes(views) == old(Sizes(views))
      ensures turn == Go && ahead ==> current == old(current) && !Finished()
      ensures turn == Go && !ahead ==> current == old(current) + 1
      ensures ahead ==> (turn == Wait <==> NoneBeyond(live.polled, |files[current - 1]|, fp)) && turn != Fail
      ensures !ahead ==> (turn == Fail <==> old(Unannounced(live))) && turn != Wait
      ensures turn == Go ==> views == old(views)[current - 1 := views[current - 1]]
      ensures turn == Go && ahead ==>
        && views == old(views)[current - 1 := old(views[current - 1]).(size := views[current - 1].size)]
        && FirstBeyond(live.polled, |files[current - 1]|, fp, views[current - 1].size)
      ensures turn == Go && !ahead ==>
        && views[current - 1].size == Taken(old(views[current]), live.announced(old(current)), |files[current - 1]|)
        && views[current - 1].position == 0
    {
      hide InOrder, Sizes, Extends, Head, Start, FirstBeyond, NoneBeyond;
      Starts();
      ahead := current == last;
      if ahead {
        turn := AwaitMore(fp, live.polled);
      } else {
        var ok := NextFile(live.announced(current), reply, patience);
        turn := if ok then Go else Fail;
      }
    }

    /** The next file was never opened and the backend does not announce it. */
    ghost predicate Unannounced(live: LiveNet)
      reads this
    {
      0 < current < |views| && !views[current].isOpen && live.announced(current) == None
    }

    /** A read from here waits for more of the last file: the current one is finished, all after it come up empty. */
    ghost predicate ReadsAhead(live: LiveNet)
      reads this
    {
      Finished() && |views| == |files| && AllBare(views, files, live, current, |views|)
    }

    /** One turn of the outer loop, on a read that started at the end of file `from`. */
    method Proceed(fp: int, live: LiveNet, reply: int -> Answer, patience: nat,
        ghost was: seq<View>, ghost at: int, ghost from: nat) returns (turn: Turn, ahead: bool)
      requires Valid() && GoesOn(was, at) && Finished() && 0 <= fp && views[current - 1].position <= fp
      requires Course(was, views, files, live, fp, from, current, true)
      requires (forall q :: reply(q) == At(q)) && patience >= 2 * RCVBUF
      modifies this`current, this`currentTransfer, this`views, recorder`latch
      modifies chained`size, chained`position, chained`requested, chained`wire, chained`isOpen
      ensures Valid() && GoesOn(was, at) && |views| == old(|views|) && 0 < current <= |views|
      ensures turn == Go ==>
        && Course(was, views, files, live, fp, from, current, Finished()) && views[current - 1].position <= fp
        && (if ahead then current == old(current) && !Finished() else current == old(current) + 1)
        && (!Finished() ==> (ahead <==> AllBare(was, files, live, from, |was|)))
      ensures turn == Go && ahead ==>
        && views == old(views)[current - 1 := old(views[current - 1]).(size := views[current - 1].size)]
        && FirstBeyond(live.polled, |files[current - 1]|, fp, views[current - 1].size)
      ensures turn != Go ==> current == old(current) && views == old(views)
      ensures turn == Wait ==> current == |views| && NoneBeyond(live.polled, |files[current - 1]|, fp)
      ensures turn == Fail ==> Unannounced(live)
    {
      hide Valid, Sizes, GoesOn, Streaming, Extends, Head, Course, NoneBeyond, FirstBeyond, Taken, AllBare;
      ghost var before, c := views, current;
      AtCurrent();
      StillStreaming(was, at);
      turn, ahead := Advance(fp, live, reply, patience);
      GoesOnTwice(was, before, at);
      if turn == Go {
        if ahead {
          CourseGrows(was, before, files, live, fp, from, views[c - 1]);
        } else {
          CourseNext(was, before, files, live, fp, from, c, views[c]);
        }
      }
    }

    /** Moves on from finished files, and at the end of the last one waits for more of it. */
    method Settle(live: LiveNet, reply: int -> Answer, patience: nat) returns (turn: Turn, ahead: bool)
      requires Valid() && Streaming() && current > 0
      requires (forall q :: reply(q) == At(q)) && patience >= 2 * RCVBUF
      modifies this`current, this`currentTransfer, this`views, recorder`latch
      modifies chained`size, chained`position, chained`requested, chained`wire, chained`isOpen
      ensures Valid() && GoesOn(old(views), old(Head())) && current >= old(current)
      ensures if turn == Go then !Finished() else Finished() && Sizes(views) == old(Sizes(views))
      ensures AllTraced(old(views), files, live, old(FilePosition()), Sizes(views))
      ensures turn == Wait <==> old(Finished() && Stalls(views, files, live, current, FilePosition()))
      ensures turn == Wait ==> Exhausted(old(current), live.polled)
      ensures turn == Fail ==> Unannounced(live) && current < |views| == old(|views|)
      ensures !old(Finished()) ==> turn == Go && !ahead && current == old(current) && views == old(views)
      ensures turn == Go ==> (ahead <==> old(ReadsAhead(live)))
      ensures old(Finished() && current == |views|) && turn == Go ==>
        && current == old(current)
        && views == old(views)[current - 1 := old(views[current - 1]).(size := views[current - 1].size)]
        && FirstBeyond(live.polled, |files[current - 1]|, old(FilePosition()), views[current - 1].size)
    {
      hide Valid, Sizes, GoesOn, Streaming, Extends, Head, Course, Stalls, AllTraced, NoneBeyond, FirstBeyond;
      hide Taken, Exhausted, AllBare;
      ghost var was, at, from := views, Head(), current;
      ahead, turn := false, Go;
      Starts();
      AtCurrent();
      var fp := currentTransfer.position;
      CourseStarts(views, files, live, fp, current);
      TracedSame(views, files, live, fp);
      while currentTransfer.size == currentTransfer.position
        invariant Valid() && GoesOn(was, at) && from <= current <= |views| && turn == Go
        invariant currentTransfer != null && (currentTransfer.size == currentTransfer.position <==> Finished())
        invariant 0 <= fp && views[current - 1].position <= fp
        invariant if old(Finished()) then Course(was, views, files, live, fp, from, current, Finished())
                  else current == from && views == was && !ahead
        invariant old(Finished()) && !Finished() ==> (ahead <==> AllBare(was, files, live, from, |was|))
        invariant old(Finished()) && from == |was| ==>
          && current == from && (Finished() ==> views == was)
          && (!Finished() ==>
                && views == was[from - 1 := was[from - 1].(size := views[from - 1].size)]
                && FirstBeyond(live.polled, |files[from - 1]|, fp, views[from - 1].size))
        decreases |views| - current, if Finished() then 1 else 0
      {
        turn, ahead := Proceed(fp, live, reply, patience, was, at, from);
        AtCurrent();
        if turn != Go {
          Halts(was, live, fp, from, turn);
          return;
        }
      }
      if old(Finished()) {
        CourseEnds(was, views, files, live, fp, from, current);
      }
    }

    /** Where the read stops for want of bytes or of the next file. */
    lemma Halts(was: seq<View>, live: LiveNet, fp: int, from: nat, turn: Turn)
      requires Course(was, views, files, live, fp, from, current, true) && Finished() && was[from - 1].size == fp
      requires
        if turn == Wait then current == |views| && NoneBeyond(live.polled, |files[current - 1]|, fp)
        else Unannounced(live)
      ensures Sizes(views) == Sizes(was) && AllTraced(was, files, live, fp, Sizes(views))
      ensures if turn == Wait then Exhausted(from, live.polled) && Stalls(was, files, live, from, fp)
              else !Stalls(was, files, live, from, fp)
    {
      hide NoneBeyond;
      assert Sizes(views)[from - 1] == Sizes(was)[from - 1];
      if turn != Wait {
        assert !Bare(was[current], live.announced(current), |files[current]|);
      }
    }

    lemma AtCurrent()
      requires Valid() && current > 0
      ensures currentTransfer != null && current <= last == |views| == |chained| == |files|
      ensures views[current - 1] == ViewOf(currentTransfer)
    {
    }

    lemma Starts()
      requires Streaming()
      ensures GoesOn(views, Head()) && (current > 0 ==> 0 <= views[current - 1].position)
    {
      InOrderBounded(views, files, current);
    }

    lemma StillStreaming(was: seq<View>, at: int)
      requires GoesOn(was, at)
      ensures Streaming() && Head() == at && Extends(files, Sizes(was), Sizes(views))
    {
    }

    lemma GoesOnTwice(was: seq<View>, before: seq<View>, at: int)
      requires Extends(files, Sizes(was), Sizes(before)) && GoesOn(before, at)
      ensures GoesOn(was, at)
    {
      ExtendsTwice(files, Sizes(was), Sizes(before), Sizes(views));
    }

    // -------------------------------------------------------------- reading

    /** The `i`-th request did not go out, or the sockets reported trouble or fell silent, after grants of nothing. */
    static ghost predicate FailsAt(net: nat -> Net, i: nat) {
      (!net(i).sent || !Smooth(net(i).polls)) && Grantless(net, i)
    }

    /** None of the first requests is granted anything. */
    static predicate Grantless(net: nat -> Net, tries: nat) {
      forall i :: 0 <= i < tries ==> net(i).grant == 0
    }

    static ghost predicate Troubles(net: nat -> Net, tries: nat) {
      exists i :: 0 <= i < tries && FailsAt(net, i)
    }

    /** The first requests go out and are answered without trouble, but granted nothing. */
    static ghost predicate Starved(net: nat -> Net, k: nat) {
      forall i :: 0 <= i < k ==> net(i).sent && Smooth(net(i).polls) && net(i).grant == 0
    }

    /** With nothing under way, the first `k` requests are granted nothing, and the next one brings the whole block. */
    static ghost predicate FedAt(v: View, file: seq<Byte>, n: int, net: nat -> Net, k: nat) {
      n > 0 && v.position == v.requested && Starved(net, k) && Arrives(v, file, n, net(k))
    }

    ghost predicate Feeds(n: int, net: nat -> Net, k: nat)
      reads this
    {
      0 < current <= |views| == |files| && FedAt(views[current - 1], files[current - 1], n, net, k)
    }

    /** One request for a block of an open file that is known to have as much. */
    method RequestBlock(ghost k: nat, n: nat, e: Net) returns (r: int, bytes: seq<Byte>)
      requires Valid() && recorder != null && recorder.pending == None && current == k + 1
      requires Flows(views[k], files[k]) && n <= views[k].size - views[k].position
      modifies this`views, recorder, chained`position, chained`wire, chained`requested
      ensures Valid() && (r == -1 || 0 <= r <= n) && recorder.pending == None
      ensures views == old(views)[k := views[k]] && views[k].size == old(views[k].size)
      ensures r >= 0 ==>
        && Flows(views[k], files[k]) && views[k].position == old(views[k].position) + r
        && bytes == files[k][old(views[k].position)..views[k].position]
      ensures r == -1 ==> n > 0 && (!e.sent || !Smooth(e.polls))
      ensures r == 0 && n > 0 ==> e.grant == 0
      ensures old(Arrives(views[k], files[k], n, e)) ==> r == Playback.BlockSize(n)
      ensures old(views[k].position == views[k].requested) && e.sent && Smooth(e.polls) && e.grant == 0 ==>
        r == 0 && views == old(views)
    {
      hide Smooth;
      r, bytes := recorder.TransferRequestBlock(currentTransfer, n, e);
      views := views[k := ViewOf(currentTransfer)];
    }

    /** One request for a block of the current file. */
    method Request(n: nat, e: Net) returns (r: int, bytes: seq<Byte>)
      requires Valid() && Streaming() && current > 0 && n <= views[current - 1].size - views[current - 1].position
      modifies this`views, recorder, chained`position, chained`wire, chained`requested
      ensures Valid() && (r == -1 || 0 <= r <= n) && Sizes(views) == old(Sizes(views))
      ensures r >= 0 ==> Streaming() && Head() == old(Head()) + r && Stream(bytes, old(Head()), Head())
      ensures r == 0 ==> views[current - 1].position == old(views[current - 1].position)
      ensures r == -1 ==> n > 0 && (!e.sent || !Smooth(e.polls))
      ensures r == 0 && n > 0 ==> e.grant == 0
      ensures old(Arrives(views[current - 1], files[current - 1], n, e)) ==> r == Playback.BlockSize(n)
      ensures old(views[current - 1].position == views[current - 1].requested)
              && e.sent && Smooth(e.polls) && e.grant == 0 ==>
        r == 0 && views == old(views)
    {
      hide Smooth, InOrder, Flows, Sizes, Start, Stream, Arrives;
      ghost var was, k := views, current - 1;
      ItFlows(views, files, current, k);
      FlowsInside(views[k], files[k]);
      r, bytes := RequestBlock(k, n, e);
      SameSizes(was, k, views[k]);
      if r >= 0 {
        InOrderReplaced(was, files, current, k, views[k]);
        FlowsInside(views[k], files[k]);
        OfStream(k, was[k].position, views[k].position);
      }
    }

    /** Requests a block of the current file, up to ten times while reading ahead gives nothing. */
    method Block(n: nat, ahead: bool, net: nat -> Net) returns (r: int, bytes: seq<Byte>)
      requires Valid() && Streaming() && current > 0 && n <= views[current - 1].size - views[current - 1].position
      modifies this`views, recorder, chained`position, chained`wire, chained`requested
      ensures Valid() && (r == -1 || 0 <= r <= n) && Sizes(views) == old(Sizes(views))
      ensures r >= 0 ==> Streaming() && Head() == old(Head()) + r && Stream(bytes, old(Head()), Head())
      ensures r == -1 ==> Troubles(net, if ahead then 10 else 1)
      ensures r == 0 && n > 0 ==> Grantless(net, if ahead then 10 else 1)
      ensures old(Arrives(views[current - 1], files[current - 1], n, net(0))) ==> r == Playback.BlockSize(n)
      ensures forall k :: 0 <= k < (if ahead then 10 else 1) && old(Feeds(n, net, k)) ==> r == Playback.BlockSize(n)
    {
      hide Valid, Streaming, Head, Stream, Smooth, Sizes, Arrives;
      AtCurrent();
      ghost var prompt := Arrives(views[current - 1], files[current - 1], n, net(0));
      ghost var v, file := views[current - 1], files[current - 1];
      Here();
      r, bytes := 0, [];
      for i := 0 to 10
        invariant Valid() && Streaming() && r == 0 && Sizes(views) == old(Sizes(views))
        invariant Head() == old(Head()) && Stream(bytes, Head(), Head())
        invariant current <= |views| && n <= views[current - 1].size - views[current - 1].position
        invariant n > 0 ==> Grantless(net, i)
        invariant i == 0 ==> prompt == Arrives(views[current - 1], files[current - 1], n, net(0))
        invariant i > 0 ==> ahead && (prompt ==> n == 0)
        invariant v.position == v.requested && Starved(net, i) ==> views[current - 1] == v
        invariant forall k :: 0 <= k < i ==> !FedAt(v, file, n, net, k)
      {
        r, bytes := Request(n, net(i));
        if r == -1 {
          assert FailsAt(net, i);
        }
        if !ahead || r != 0 {
          break;
        }
        AtCurrent();
      }
    }

    /** The position in the current file. */
    ghost function FilePosition(): int
      reads this
    {
      if 0 < current <= |views| then views[current - 1].position else 0
    }

    /** How much of a file is asked for at once: no more than it is known to have left. */
    ghost function Left(n: nat): nat
      reads this
    {
      if 0 < current <= |views| && views[current - 1].position < views[current - 1].size
      then Min(views[current - 1].size - views[current - 1].position, n) else 0
    }

    /** The current file has bytes left and a whole block of them arrives. */
    ghost predicate Promptly(n: nat, net: nat -> Net)
      reads this
    {
      && 0 < current <= |views| == |files| && !Finished()
      && Arrives(views[current - 1], files[current - 1], Left(n), net(0))
    }

    /**
      The last file is read to its end and a larger size is reported for it; nothing is under way, the first
      `k` requests for what is new are granted nothing, and the next one brings a whole block.
    */
    ghost predicate GrowsAndFeeds(n: nat, live: LiveNet, size: int, k: nat)
      reads this
    {
      && Finished() && current == |views| == |files|
      && FirstBeyond(live.polled, |files[current - 1]|, FilePosition(), size)
      && FedAt(views[current - 1].(size := size), files[current - 1], Min(size - FilePosition(), n), live.net, k)
    }

    /** A block of the current file. */
    method ReadCurrent(n: nat, ahead: bool, net: nat -> Net) returns (r: int, bytes: seq<Byte>)
      requires Valid() && Streaming() && current > 0 && !Finished()
      modifies this`views, recorder, chained`position, chained`wire, chained`requested
      ensures Valid() && (r == -1 || 0 <= r <= n) && Sizes(views) == old(Sizes(views))
      ensures r >= 0 ==> Streaming() && Head() == old(Head()) + r && Stream(bytes, old(Head()), Head())
      ensures r == -1 ==> Troubles(net, if ahead then 10 else 1)
      ensures r == 0 && n > 0 ==> Grantless(net, if ahead then 10 else 1)
      ensures old(Promptly(n, net)) ==> r == Playback.BlockSize(old(Left(n)))
      ensures forall k :: 0 <= k < (if ahead then 10 else 1) && old(Feeds(Left(n), net, k)) ==>
        r == Playback.BlockSize(old(Left(n)))
    {
      hide Valid, Streaming, Head, Stream, Sizes, Troubles, Grantless, Arrives, Starved;
      AtCurrent();
      InsideCurrent();
      var m := Min(currentTransfer.size - currentTransfer.position, n);
      r, bytes := Block(m, ahead, net);
    }

    lemma InsideCurrent()
      requires Streaming() && current > 0
      ensures current <= |views| && 0 <= views[current - 1].position <= views[current - 1].size
    {
      InOrderIsSound(views, files, current);
    }

    /** Nothing is left of the stream as far as it is known, and nothing more of it comes up in time. */
    lemma AtTheEnd(from: nat, polled: seq<int>)
      requires Streaming() && Exhausted(from, polled)
      ensures Head() == Size()
    {
    }

    lemma AllOpen(from: nat, polled: seq<int>)
      requires Streaming() && Exhausted(from, polled)
      ensures forall i :: 0 <= i < |views| ==> views[i].isOpen
    {
    }

    /**
      `_read`: whatever file it is in and however the files change over, what is read are the
      stream's bytes from where it stands, and it moves on by as many. It fails only without a file,
      when the next file cannot be opened, or for trouble with the network, and gives nothing only at
      the known end of the stream or for a grant of nothing, ten times over while it is reading ahead.
    */
    method ReadChain(n: nat, live: LiveNet, reply: int -> Answer, patience: nat) returns (r: int, bytes: seq<Byte>)
      requires Valid() && Streaming()
      requires (forall q :: reply(q) == At(q)) && patience >= 2 * RCVBUF
      modifies this`current, this`currentTransfer, this`views, recorder
      modifies chained`size, chained`position, chained`requested, chained`wire, chained`isOpen
      ensures Valid() && (r == -1 || 0 <= r <= n) && old(current) <= current
      ensures Extends(files, old(Sizes(views)), Sizes(views))
      ensures r >= 0 ==> Streaming() && Head() == old(Head()) + r && Stream(bytes, old(Head()), Head())
      ensures r == -1 ==>
        || old(current) == 0 || Unannounced(live)
        || Troubles(live.net, if old(ReadsAhead(live)) then 10 else 1)
      ensures old(current) == 0 ==> r == -1
      ensures r == 0 && n > 0 ==>
        NothingToGive(live, old(current), old(Sizes(views)), old(ReadsAhead(live)))
      ensures r == 0 && n > 0 && old(ReadsAhead(live)) && !Exhausted(old(current), live.polled) ==>
        forall i :: 0 <= i < 10 ==> live.net(i).grant == 0
      ensures forall k, size :: 0 <= k < 10 && old(GrowsAndFeeds(n, live, size, k)) ==>
        r == Playback.BlockSize(Min(size - old(FilePosition()), n))
      ensures old(Finished() && Stalls(views, files, live, current, FilePosition())) ==> r == 0
      ensures old(current > 0 && !Finished()) ==> current == old(current) && Sizes(views) == old(Sizes(views))
      ensures AllTraced(old(views), files, live, old(FilePosition()), Sizes(views))
      ensures old(Promptly(n, live.net)) ==> r == Playback.BlockSize(old(Left(n)))
    {
      hide Valid, Streaming, GoesOn, Head, Stream, Extends, Sizes, Troubles, Grantless, Exhausted, Unannounced;
      hide Arrives, Stalls, AllTraced, FirstBeyond, ReadsAhead, Starved;
      Starts();
      Here();
      if current == 0 {
        StillStreaming(views, Head());
        InStep();
        TracedSame(views, files, live, 0);
        return -1, [];
      }
      ghost var was, at := views, Head();
      GrowthReadsAhead(n, live);
      var turn, ahead := Settle(live, reply, patience);
      StillStreaming(was, at);
      if turn != Go {
        Here();
        if turn == Wait {
          AtTheEnd(old(current), live.polled);
        }
        assert forall k, size :: 0 <= k < 10 ==> !old(GrowsAndFeeds(n, live, size, k));
        return if turn == Wait then 0 else -1, [];
      }
      forall k, size | 0 <= k < 10 && old(GrowsAndFeeds(n, live, size, k))
        ensures ahead && Feeds(Left(n), live.net, k) && Left(n) == Min(size - old(FilePosition()), n)
      {
        OneFirst(live.polled, |files[current - 1]|, old(FilePosition()), size, views[current - 1].size);
      }
      r, bytes := ReadCurrent(n, ahead, live.net);
      NothingTen(live.net);
    }

    /** Such a read is one that reads ahead, and not in vain. */
    lemma GrowthReadsAhead(n: nat, live: LiveNet)
      ensures forall k, size :: GrowsAndFeeds(n, live, size, k) ==>
        ReadsAhead(live) && !Stalls(views, files, live, current, FilePosition())
    {
      forall k: nat, size | GrowsAndFeeds(n, live, size, k)
        ensures ReadsAhead(live) && !Stalls(views, files, live, current, FilePosition())
      {
        var i :| 0 <= i < |live.polled| && size == Min(live.polled[i], |files[current - 1]|) > FilePosition();
      }
    }

    lemma FeedsSomething(n: nat, live: LiveNet)
      ensures forall k, size :: GrowsAndFeeds(n, live, size, k) ==> Min(size - FilePosition(), n) > 0
    {
    }

    static lemma NothingTen(net: nat -> Net)
      ensures Grantless(net, 10) ==> forall i :: 0 <= i < 10 ==> net(i).grant == 0
    {
    }

    /** Why a read may give nothing: the known end of the stream, or grants of nothing. */
    ghost predicate NothingToGive(live: LiveNet, from: nat, sizes: seq<int>, ahead: bool)
      reads this
    {
      || (Exhausted(from, live.polled) && Head() == Size() && Sizes(views) == sizes)
      || Grantless(live.net, if ahead then 10 else 1)
    }

    static lemma MoreTries(net: nat -> Net)
      ensures Troubles(net, 1) ==> Troubles(net, 10)
      ensures Grantless(net, 10) ==> Grantless(net, 1)
    {
    }
  }

  lemma FlowsInside(v: View, file: seq<Byte>)
    requires Flows(v, file)
    ensures 0 <= v.position <= v.size <= |file| && v.isOpen
  {
  }

  lemma ItFlows(views: seq<View>, files: seq<seq<Byte>>, current: nat, k: nat)
    requires InOrder(views, files, current) && k < current
    ensures Flows(views[k], files[k])
  {
    assert Fit(views[k], files[k]);
  }
}
