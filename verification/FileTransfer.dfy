/**
  A file transfer and the playback connection that drives it. The transfer keeps three
  numbers (size, position, requested); what the backend sends travels on the transfer's own
  socket, commands and their feedback on the control socket.
*/
module FileTransfer {
  import opened Options
  import opened Bytes

  const RCVBUF := 262000
  const BUFFER_SIZE := 4000

  datatype Whence = Set | Cur | End

  /** What comes back on the control socket for a SEEK: nothing usable, or a position. */
  datatype Answer = Broken | At(q: int)

  function Min(a: int, b: int): int {
    if a <= b then a else b
  }

  class Transfer {
    /** What the backend has to send. */
    const file: seq<Byte>
    var size: int
    var position: int
    var requested: int
    var isOpen: bool
    /** Bytes granted by the backend and not yet received. */
    var wire: seq<Byte>

    /** A transfer that was never opened. */
    constructor (file: seq<Byte>)
      ensures this.file == file && size == 0 && !isOpen && wire == [] && position == 0 && requested == 0
    {
      this.file := file;
      size, position, requested, isOpen, wire := 0, 0, 0, false, [];
    }

    /** The socket holds exactly the file's bytes from the position up to `served`. */
    ghost predicate Carries(served: int)
      reads this
    {
      0 <= position <= served <= |file| && wire == file[position..served]
    }

    /** No request is open, and the socket holds exactly what was requested and not read. */
    ghost predicate InStep()
      reads this
    {
      Carries(requested)
    }

    /** A closed transfer is announced again: it starts over, with the size the backend gives. */
    method Open(announced: Option<int>) returns (ok: bool)
      modifies this`isOpen, this`size, this`position, this`requested, this`wire
      ensures ok == (old(isOpen) || announced.Some?)
      ensures !old(isOpen) && ok ==> isOpen && size == announced.value && position == requested == 0 && wire == []
      ensures old(isOpen) || !ok ==>
        && isOpen == old(isOpen) && size == old(size) && position == old(position)
        && requested == old(requested) && wire == old(wire)
    {
      ok := isOpen || announced.Some?;
      if !isOpen && ok {
        isOpen, size, position, requested, wire := true, announced.value, 0, 0, [];
      }
    }

    /** `ReceiveData`: `k` bytes, or what arrives within `patience`. */
    method Receive(k: nat, patience: nat) returns (got: nat)
      modifies this`wire
      ensures got == Min(Min(k, patience), |old(wire)|)
      ensures wire == old(wire)[got..]
    {
      got := Min(Min(k, patience), |wire|);
      wire := wire[got..];
    }

    /** Drains what was requested and not read; the position moves on whether or not all of it came. */
    method Flush(patience: nat)
      modifies this`wire, this`position
      ensures position == if requested > old(position) then requested else old(position)
      ensures requested <= old(position) ==> wire == old(wire)
      ensures requested - old(position) == |old(wire)| ==> wire == old(wire)[Min(patience, |old(wire)|)..]
    {
      var unread := requested - position;
      if unread > 0 {
        var n := unread;
        var left := patience;
        while n > 0
          invariant 0 <= n <= unread && left == patience - (unread - n) >= 0
          invariant unread - n <= |old(wire)| && wire == old(wire)[unread - n..]
        {
          var s := Min(n, BUFFER_SIZE);
          var got := Receive(s, left);
          if got != s {
            break;
          }
          left := left - s;
          n := n - s;
        }
        position := requested;
      }
    }
  }

  // ---------------------------------------------------------------- block requests

  /** One return of `poll` on the two sockets, and what `recv` or the feedback then give. */
  datatype Poll = PollError | PollTimeout | Ready(data: DataEvent, control: ControlEvent)
  datatype DataEvent = NoData | Readable(k: nat) | RecvError | DataHangup
  datatype ControlEvent = NoControl | Reply | BadReply | ControlHangup

  /**
    What the network does during one block request: whether the command goes out, what the backend
    grants, what the sockets report, and how a seek to recover would be answered.
  */
  datatype Net = Net(sent: bool, grant: nat, polls: seq<Poll>, recovery: Answer, patience: nat)

  /** The local variables of `TransferRequestBlock`; `got` is what was written to the caller's buffer. */
  datatype Loop =
    Loop(ok: bool, request: bool, data: bool, ended: bool, got: seq<Byte>, filePosition: int, fileRequest: int)

  /** Where a block request starts, how much it may take, and what is on its way for it. */
  datatype Plan = Plan(start: int, n: int, latch0: int, base: int, served: int)

  predicate Running(l: Loop) {
    l.ok && !l.ended && (l.request || l.data || l.got == [])
  }

  /** How much a data event delivers into a buffer of `n` bytes; a full buffer is not polled for data. */
  function Delivered(l: Loop, n: nat, wire: seq<Byte>, e: DataEvent): (rr: nat)
    requires |l.got| <= n
    ensures rr <= |wire| && |l.got| + rr <= n
  {
    if e.Readable? then Min(Min(e.k, n - |l.got|), |wire|) else 0
  }

  function AfterData(l: Loop, n: nat, wire: seq<Byte>, e: DataEvent): Loop
    requires |l.got| <= n
  {
    var rr := Delivered(l, n, wire, e);
    l.(ok := l.ok && !e.DataHangup? && !(e.RecvError? && |l.got| < n),
       data := rr > 0 && |l.got| + rr != n,
       got := l.got + wire[..rr],
       filePosition := l.filePosition + rr)
  }

  function AfterFeedback(l: Loop, granted: nat, e: ControlEvent): Loop {
    match e
    case NoControl => l
    case ControlHangup => l.(ok := false)
    case BadReply => l.(ok := false, request := false)
    case Reply =>
      if granted == 0 && !l.data then l.(request := false, ended := l.ok)
      else l.(request := false, fileRequest := l.fileRequest + granted)
  }

  function AfterPoll(l: Loop, n: nat, wire: seq<Byte>, granted: nat, p: Poll): Loop
    requires |l.got| <= n
  {
    match p
    case PollError => l.(ok := false)
    case PollTimeout => if l.data then l.(data := false) else l.(ok := false)
    case Ready(d, c) =>
      var l' := AfterData(l, n, wire, d);
      if l.request then AfterFeedback(l', granted, c) else l'
  }

  // ---------------------------------------------------------------- a network without trouble

  predicate GivesData(p: Poll) {
    p.Ready? && p.data.Readable? && p.data.k > 0
  }

  /** Feedback and a whole block at once. */
  predicate FullBlock(p: Poll, m: nat) {
    Answers(p) && GivesData(p) && m <= p.data.k
  }

  predicate Answers(p: Poll) {
    p.Ready? && p.control.Reply?
  }

  /** An error, a hang-up or a bad reply. */
  predicate Reports(p: Poll) {
    || p.PollError?
    || (p.Ready? && (p.data.RecvError? || p.data.DataHangup? || p.control.BadReply? || p.control.ControlHangup?))
  }

  ghost predicate AnsweredBy(polls: seq<Poll>, i: int) {
    exists j :: 0 <= j < i && j < |polls| && Answers(polls[j])
  }

  ghost predicate FedBy(polls: seq<Poll>, i: int) {
    exists j :: 0 <= j < i && j < |polls| && GivesData(polls[j])
  }

  /** Trouble on a socket that is polled, or silence; the control socket is polled as long as a request is open. */
  predicate Troubled(p: Poll, requested: bool) {
    || p.PollError? || p.PollTimeout?
    || (p.Ready? && (p.data.RecvError? || p.data.DataHangup?
                     || (requested && (p.control.BadReply? || p.control.ControlHangup?))))
  }

  /** Trouble, or silence, after polls that brought nothing. */
  ghost predicate TroubleFirst(polls: seq<Poll>, requested: bool) {
    exists i :: 0 <= i < |polls| && Troubled(polls[i], requested) && QuietBefore(polls, i)
  }

  predicate QuietBefore(polls: seq<Poll>, i: nat)
    requires i <= |polls|
  {
    forall j :: 0 <= j < i ==> polls[j] == Ready(NoData, NoControl)
  }

  /** The feedback comes before any data. */
  ghost predicate FeedbackFirst(polls: seq<Poll>) {
    exists i :: 0 <= i < |polls| && Answers(polls[i]) && !FedBy(polls, i + 1)
  }

  /** The `e`-th poll finds no more data, after data and the feedback have come. */
  ghost predicate Closes(polls: seq<Poll>, e: int) {
    0 <= e < |polls| && !GivesData(polls[e]) && AnsweredBy(polls, e + 1) && FedBy(polls, e + 1)
  }

  /**
    Polls without trouble: nothing reported, a timeout only right after data and once the feedback
    is there, and the polls do not run out before feedback, data and the end of the data.
  */
  ghost predicate Smooth(polls: seq<Poll>) {
    && (forall i :: 0 <= i < |polls| ==> !Reports(polls[i]))
    && (forall i :: 0 <= i < |polls| && polls[i].PollTimeout? ==>
          i > 0 && GivesData(polls[i - 1]) && AnsweredBy(polls, i))
    && exists e :: Closes(polls, e)
  }

  /** Data with the feedback, then silence, is without trouble. */
  lemma SmoothExample(k: nat)
    requires k > 0
    ensures Smooth([Ready(Readable(k), Reply), PollTimeout])
  {
    var polls := [Ready(Readable(k), Reply), PollTimeout];
    assert Answers(polls[0]) && GivesData(polls[0]);
    assert Closes(polls, 1);
  }

  /** How much the first polls offer. */
  function Offered(polls: seq<Poll>, i: nat): nat
    requires i <= |polls|
  {
    if i == 0 then 0
    else
      var p := polls[i - 1];
      Offered(polls, i - 1) + if p.Ready? && p.data.Readable? then p.data.k else 0
  }

  /** Data comes with every poll up to the `e`-th, `m` bytes in all, and somewhere among them the feedback. */
  ghost predicate Flowing(polls: seq<Poll>, e: nat, m: nat) {
    && e < |polls| && m <= Offered(polls, e + 1) && AnsweredBy(polls, e + 1)
    && forall i :: 0 <= i <= e ==> GivesData(polls[i]) && (polls[i].control.Reply? || polls[i].control.NoControl?)
  }

  ghost predicate FlowsOver(polls: seq<Poll>, m: nat) {
    exists e :: Flowing(polls, e, m)
  }

  lemma PromptFlows(polls: seq<Poll>, m: nat)
    requires polls != [] && FullBlock(polls[0], m)
    ensures FlowsOver(polls, m)
  {
    assert Offered(polls, 1) == Offered(polls, 0) + polls[0].data.k;
    assert Flowing(polls, 0, m);
  }

  /** Where a loop over such polls stands before the `i`-th. `left` counts the bytes on the wire. */
  ghost predicate InFlow(l: Loop, polls: seq<Poll>, i: nat, m: nat, left: int) {
    && l.ok && i <= |polls| && |l.got| == Min(Offered(polls, i), m) && left >= m - |l.got|
    && (i > 0 ==> l.got != [] && (l.data <==> |l.got| < m))
    && (l.ended ==> |l.got| == m) && (l.request ==> !AnsweredBy(polls, i))
  }

  lemma FlowTurn(l: Loop, polls: seq<Poll>, i: nat, e: nat, m: nat, wire: seq<Byte>, granted: nat)
    requires Flowing(polls, e, m) && i <= e && InFlow(l, polls, i, m, |wire|) && Running(l) && m > 0
    requires |l.got| <= m
    ensures
      var l' := AfterPoll(l, m, wire, granted, polls[i]);
      InFlow(l', polls, i + 1, m, |wire| - (|l'.got| - |l.got|))
  {
    ByNext(polls, i);
    assert GivesData(polls[i]);
    assert Offered(polls, i + 1) == Offered(polls, i) + polls[i].data.k;
  }

  lemma FlowEnds(l: Loop, polls: seq<Poll>, i: nat, e: nat, m: nat, left: int)
    requires Flowing(polls, e, m) && i <= e + 1 && InFlow(l, polls, i, m, left) && m > 0
    ensures i == e + 1 ==> !Running(l)
    ensures !Running(l) ==> |l.got| == m
  {
  }

  /** Where a loop over such polls stands before the `i`-th. `left` counts the bytes granted and not received. */
  ghost predicate OnCourse(l: Loop, polls: seq<Poll>, i: int, left: int) {
    && l.ok && 0 <= i <= |polls|
    && (l.request ==> !AnsweredBy(polls, i))
    && (l.data ==> i > 0 && GivesData(polls[i - 1]))
    && (l.got == [] && left > 0 ==> !FedBy(polls, i))
    && (!l.request && l.got == [] && !l.ended ==> left > 0)
  }

  lemma ByNext(polls: seq<Poll>, i: int)
    requires 0 <= i < |polls|
    ensures AnsweredBy(polls, i + 1) <==> AnsweredBy(polls, i) || Answers(polls[i])
    ensures FedBy(polls, i + 1) <==> FedBy(polls, i) || GivesData(polls[i])
  {
  }

  /** Each turn over such polls stays on course, and the closing poll ends the loop. */
  lemma TurnOnCourse(l: Loop, polls: seq<Poll>, i: int, n: nat, wire: seq<Byte>, granted: nat)
    requires Smooth(polls) && 0 <= i < |polls| && OnCourse(l, polls, i, |wire|) && Running(l) && |l.got| <= n && n > 0
    requires l.request && l.got == [] ==> |wire| >= granted
    ensures
      var l' := AfterPoll(l, n, wire, granted, polls[i]);
      && l'.ok && OnCourse(l', polls, i + 1, |wire| - (|l'.got| - |l.got|))
      && (Closes(polls, i) ==> !Running(l'))
  {
    ByNext(polls, i);
    assert !Reports(polls[i]);
    if i > 0 && GivesData(polls[i - 1]) {
      assert FedBy(polls, i);
    }
  }

  // ---------------------------------------------------------------- the course of the loop

  /** What is watched of the polls: whether they are without trouble, flow, or bring trouble first, and until when. */
  datatype Watch = Watch(l0: Loop, calm: Option<int>, flows: Option<nat>, trouble: Option<nat>, owed: bool)

  /** Where the loop stands before the `i`-th poll, as far as each of these says. */
  ghost predicate Watched(w: Watch, polls: seq<Poll>, m: nat, l: Loop, i: nat, left: int) {
    && i <= |polls| && m > 0 && |l.got| <= m
    && (w.calm.Some? ==>
          && Smooth(polls) && Closes(polls, w.calm.value) && l.ok && OnCourse(l, polls, i, left)
          && (i > w.calm.value ==> !Running(l)))
    && (w.flows.Some? ==>
          && Flowing(polls, w.flows.value, m) && i <= w.flows.value + 1 && InFlow(l, polls, i, m, left)
          && (i == w.flows.value + 1 ==> !Running(l)))
    && (w.trouble.Some? ==>
          && w.trouble.value < |polls| && Troubled(polls[w.trouble.value], w.l0.request)
          && QuietBefore(polls, w.trouble.value) && w.l0.got == [] && !w.l0.data
          && if i <= w.trouble.value then l == w.l0 else !l.ok)
    && (w.owed && l.ok ==> Unfed(l, polls, i, left))
  }

  lemma Begins(l: Loop, polls: seq<Poll>, m: nat, left: int) returns (w: Watch)
    requires m > 0 && l.got == [] && !l.data && !l.ended && (!l.request ==> left > 0)
    ensures Watched(w, polls, m, l, 0, left)
    ensures w.calm.Some? <==> l.ok && Smooth(polls)
    ensures w.flows.Some? <==> l.ok && FlowsOver(polls, m) && left >= m
    ensures w.trouble.Some? <==> TroubleFirst(polls, l.request)
    ensures w.owed <==> left > 0
  {
    if l.ok {
      StartsOnCourse(l, polls, left);
    }
    w := Watch(l,
               if l.ok && Smooth(polls) then Some(ClosingPoll(polls)) else None,
               if l.ok && FlowsOver(polls, m) && left >= m then Some(LastFlow(polls, m)) else None,
               if TroubleFirst(polls, l.request) then Some(FirstTrouble(polls, l.request)) else None,
               left > 0);
  }

  lemma WatchTurn(w: Watch, polls: seq<Poll>, m: nat, l: Loop, i: nat, wire: seq<Byte>, granted: nat)
    requires Watched(w, polls, m, l, i, |wire|) && i < |polls| && Running(l)
    requires l.request && l.got == [] ==> |wire| >= granted
    ensures
      var l' := AfterPoll(l, m, wire, granted, polls[i]);
      Watched(w, polls, m, l', i + 1, |wire| - (|l'.got| - |l.got|))
  {
    hide Smooth, Closes, AfterPoll, OnCourse, Unfed, Troubled, QuietBefore, InFlow, Flowing;
    var l' := AfterPoll(l, m, wire, granted, polls[i]);
    NeverTooMuch(l, m, wire, granted, polls[i]);
    if w.owed {
      StillUnfed(l, m, wire, granted, polls, i);
    }
    if w.flows.Some? {
      FlowTurn(l, polls, i, w.flows.value, m, wire, granted);
      FlowEnds(l', polls, i + 1, w.flows.value, m, |wire| - (|l'.got| - |l.got|));
    }
    if w.trouble.Some? && i <= w.trouble.value {
      QuietTurn(l, m, wire, granted, polls, i, w.trouble.value);
    }
    if w.calm.Some? {
      TurnOnCourse(l, polls, i, m, wire, granted);
    }
  }

  lemma NeverTooMuch(l: Loop, m: nat, wire: seq<Byte>, granted: nat, p: Poll)
    requires |l.got| <= m
    ensures |AfterPoll(l, m, wire, granted, p).got| <= m
  {
  }

  /** Polls run out only where nothing was promised. */
  lemma WatchOver(w: Watch, polls: seq<Poll>, m: nat, l: Loop, i: nat, left: int)
    requires Watched(w, polls, m, l, i, left) && Running(l) && i >= |polls|
    ensures Watched(w, polls, m, l.(ok := false), i, left)
  {
    hide OnCourse, InFlow, Unfed, Smooth;
  }

  lemma WatchEnds(w: Watch, polls: seq<Poll>, m: nat, l: Loop, i: nat, left: int)
    requires Watched(w, polls, m, l, i, left) && !Running(l) && (w.trouble.Some? ==> w.l0.got == [] && !w.l0.ended)
    ensures w.calm.Some? ==> l.ok
    ensures w.flows.Some? ==> l.ok && |l.got| == m
    ensures w.trouble.Some? ==> !l.ok
    ensures w.owed && l.ok && l.ended && l.got == [] ==> FeedbackFirst(polls)
  {
    hide OnCourse, Smooth, Closes, Troubled, QuietBefore;
  }

  ghost function LastFlow(polls: seq<Poll>, m: nat): (e: nat)
    requires FlowsOver(polls, m)
    ensures Flowing(polls, e, m)
  {
    var e :| Flowing(polls, e, m);
    e
  }

  ghost function FirstTrouble(polls: seq<Poll>, requested: bool): (i: nat)
    requires TroubleFirst(polls, requested)
    ensures i < |polls| && Troubled(polls[i], requested) && QuietBefore(polls, i)
  {
    var i :| 0 <= i < |polls| && Troubled(polls[i], requested) && QuietBefore(polls, i);
    i
  }

  /** Polls that bring nothing change nothing, and trouble after them ends the loop. */
  lemma QuietTurn(l: Loop, n: nat, wire: seq<Byte>, granted: nat, polls: seq<Poll>, i: nat, at: nat)
    requires i <= at < |polls| && Troubled(polls[at], l.request) && QuietBefore(polls, at)
    requires l.ok && !l.ended && l.got == [] && !l.data && 0 < n
    ensures
      var l' := AfterPoll(l, n, wire, granted, polls[i]);
      if i < at then l' == l else !l'.ok
  {
  }

  /** As long as the buffer is empty no data came, and only the feedback can have ended the loop. */
  ghost predicate Unfed(l: Loop, polls: seq<Poll>, i: int, left: int) {
    l.got == [] ==> left > 0 && !FedBy(polls, i) && (l.ended ==> FeedbackFirst(polls))
  }

  lemma StartsOnCourse(l: Loop, polls: seq<Poll>, left: int)
    requires l.ok && l.got == [] && !l.data && !l.ended && (!l.request ==> left > 0)
    ensures OnCourse(l, polls, 0, left)
  {
  }

  ghost function ClosingPoll(polls: seq<Poll>): (e: int)
    requires Smooth(polls)
    ensures Closes(polls, e) && 0 <= e < |polls|
  {
    var e :| Closes(polls, e);
    e
  }

  lemma StillUnfed(l: Loop, n: nat, wire: seq<Byte>, granted: nat, polls: seq<Poll>, i: nat)
    requires i < |polls| && |l.got| <= n && 0 < n && !l.ended && Unfed(l, polls, i, |wire|)
    ensures
      var l' := AfterPoll(l, n, wire, granted, polls[i]);
      Unfed(l', polls, i + 1, |wire| - (|l'.got| - |l.got|))
  {
    ByNext(polls, i);
  }

  /** The command connection: how often its latch is held, and the grant of a request not yet answered. */
  class Playback {
    var latch: int
    var pending: Option<nat>

    constructor ()
      ensures latch == 0 && pending == None
    {
      latch, pending := 0, None;
    }

    /** The grant of the request that is open. */
    function Open(): nat
      reads this`pending
    {
      if pending.Some? then pending.value else 0
    }

    /**
      Bytes `start..` of the file were delivered and those up to `served` are on their way; the latch
      is held once exactly while a request is open.
    */
    ghost predicate Tracks(t: Transfer, l: Loop, g: Plan)
      reads this, t
    {
      && |l.got| <= g.n && l.filePosition == t.position == g.start + |l.got| && l.fileRequest == t.requested
      && latch == g.latch0 + (if l.request then 1 else 0) && (!l.request ==> pending == None)
      && t.Carries(g.served) && g.served - g.start < 2 * RCVBUF
      && 0 <= g.start <= g.base && (t.requested == g.base || t.requested == g.served)
      && l.got == t.file[g.start..t.position]
      && (l.ok ==> (l.request ==> pending.Some?) && t.requested + Open() == g.served)
    }

    /** The next `rr` bytes off the socket. */
    method Take(t: Transfer, rr: nat, ghost served: int) returns (bytes: seq<Byte>)
      requires t.Carries(served) && rr <= |t.wire|
      modifies t`position, t`wire
      ensures t.Carries(served) && bytes == old(t.wire)[..rr] && t.wire == old(t.wire)[rr..]
      ensures t.position == old(t.position) + rr && bytes == t.file[old(t.position)..t.position]
    {
      bytes := t.wire[..rr];
      t.wire := t.wire[rr..];
      t.position := t.position + rr;
    }

    /** `recv` into the rest of the buffer. */
    method ReceiveBlock(t: Transfer, n: nat, e: DataEvent, l: Loop, ghost g: Plan) returns (l': Loop)
      requires l.ok && Tracks(t, l, g) && n == g.n
      modifies t`position, t`wire
      ensures Tracks(t, l', g)
      ensures l' == AfterData(l, n, old(t.wire), e) && |old(t.wire)| - |t.wire| == |l'.got| - |l.got|
    {
      var rr := Delivered(l, n, t.wire, e);
      var bytes := Take(t, rr, g.served);
      Slices(t.file, g.start, old(t.position), t.position);
      l' := l.(ok := !e.DataHangup? && !(e.RecvError? && |l.got| < n), data := rr > 0 && |l.got| + rr != n,
               got := l.got + bytes, filePosition := l.filePosition + rr);
    }

    static lemma Slices(file: seq<Byte>, a: int, b: int, c: int)
      requires 0 <= a <= b <= c <= |file|
      ensures file[a..b] + file[b..c] == file[a..c]
    {
    }

    /** The feedback of the request, if the control socket has it: the latch is released with it. */
    method ReceiveFeedback(t: Transfer, e: ControlEvent, l: Loop, ghost g: Plan) returns (l': Loop)
      requires l.request && !l.ended && Tracks(t, l, g) && pending.Some? && t.requested + Open() == g.served
      modifies t`requested, this
      ensures Tracks(t, l', g)
      ensures l' == AfterFeedback(l, old(Open()), e)
      ensures pending == if e.Reply? || e.BadReply? then None else old(pending)
    {
      l' := l;
      match e
      case NoControl =>
      case ControlHangup => l' := l'.(ok := false);
      case BadReply =>
        pending := None;
        latch := latch - 1;
        l' := l'.(ok := false, request := false);
      case Reply =>
        var rlen := pending.value;
        pending := None;
        latch := latch - 1;
        if rlen == 0 && !l.data {
          return l'.(request := false, ended := l.ok);
        }
        t.requested := l.fileRequest + rlen;
        l' := l'.(request := false, fileRequest := l.fileRequest + rlen);
    }

    /** One turn of the loop. */
    method HandlePoll(t: Transfer, n: nat, poll: Poll, l: Loop, ghost g: Plan) returns (l': Loop)
      requires l.ok && !l.ended && Tracks(t, l, g) && n == g.n
      modifies t`position, t`wire, t`requested, this
      ensures Tracks(t, l', g)
      ensures l' == AfterPoll(l, n, old(t.wire), old(Open()), poll)
      ensures |old(t.wire)| - |t.wire| == |l'.got| - |l.got|
      ensures pending == if l'.request then old(pending) else None
    {
      match poll
      case PollError => l' := l.(ok := false);
      case PollTimeout => l' := if l.data then l.(data := false) else l.(ok := false);
      case Ready(d, c) =>
        l' := ReceiveBlock(t, n, d, l, g);
        if l.request {
          l' := ReceiveFeedback(t, c, l', g);
        }
    }

    /** The backend grants at most what it is asked and no more than it has. */
    static function Granted(grant: nat, n: nat, left: nat): (g: nat)
      ensures g <= grant && g <= n && g <= left
      ensures g == 0 ==> grant == 0 || n == 0 || left == 0
    {
      Min(grant, Min(n, left))
    }

    /** `TransferRequestBlock75` sends the command; the bytes granted set out on the transfer's socket. */
    method SendRequest(t: Transfer, n: nat, sent: bool, grant: nat) returns (ok: bool)
      requires pending == None && t.InStep() && grant <= n && t.requested + grant <= |t.file|
      modifies this`pending, t`wire
      ensures ok == (t.isOpen && sent)
      ensures ok ==> pending == Some(grant) && t.Carries(t.requested + grant)
      ensures !ok ==> pending == None && t.wire == old(t.wire)
    {
      ok := t.isOpen && sent;
      if ok {
        pending := Some(grant);
        var more := t.file[t.requested..t.requested + grant];
        assert t.file[t.position..t.requested] + more == t.file[t.position..t.requested + grant];
        t.wire := t.wire + more;
      }
    }

    /** Blocks are limited to the receive buffer. */
    static function BlockSize(n: nat): nat {
      Min(n, RCVBUF)
    }

    /** What is requested already does not cover the block. */
    static ghost predicate Needs(t: Transfer, n: nat)
      reads t
    {
      t.position + BlockSize(n) > t.requested
    }

    /** The request goes out, or none is needed. */
    static ghost predicate Reaches(t: Transfer, n: nat, net: Net)
      reads t
    {
      Needs(t, n) ==> t.isOpen && net.sent
    }

    /** How far the backend will have granted bytes once the request, if one is needed, is out. */
    static ghost function Served(t: Transfer, n: nat, net: Net): int
      reads t
    {
      t.requested +
        if Needs(t, n) && t.isOpen && net.sent && t.requested <= |t.file|
        then Granted(net.grant, BlockSize(n), |t.file| - t.requested) else 0
    }

    /** As much as the block is under way once the request, if one is needed, is out, and it flows. */
    static ghost predicate Fills(t: Transfer, n: nat, net: Net)
      reads t
    {
      Reaches(t, n, net) && t.position + BlockSize(n) <= Served(t, n, net) && FlowsOver(net.polls, BlockSize(n))
    }

    /**
      `TransferRequestBlock`: the file's next bytes. It fails only when a request was needed and did
      not go out, or the sockets reported trouble or fell silent. The seek that should then recover the
      position does nothing: what was granted and not received is still under way, and an answer to
      such a seek would be ignored. It gives nothing only when the backend had nothing more to give and
      nothing was under way, or the feedback overtook what was. Running out of polls is a poll error.
    */
    method TransferRequestBlock(t: Transfer, n: nat, net: Net) returns (r: int, bytes: seq<Byte>)
      requires pending == None && t.InStep() && t.requested - t.position < 2 * RCVBUF
      modifies this, t`position, t`wire, t`requested
      ensures latch == old(latch) && pending == None
      ensures r == -1 || (0 <= r <= n && r <= 262000)
      ensures r >= 0 ==>
        && t.InStep() && t.requested - t.position < 2 * RCVBUF
        && t.position == old(t.position) + r && bytes == t.file[old(t.position)..t.position]
        && t.requested == old(Served(t, n, net))
      ensures r == -1 ==> n > 0 && (!old(Reaches(t, n, net)) || !Smooth(net.polls))
      ensures n > 0 && (!old(Reaches(t, n, net)) || TroubleFirst(net.polls, old(Needs(t, n)))) ==> r == -1
      ensures r == -1 ==>
        t.Carries(old(Served(t, n, net))) && (t.requested == old(t.requested) || t.requested == old(Served(t, n, net)))
      ensures r == 0 && n > 0 ==>
        && old(Needs(t, n)) && (net.grant == 0 || old(t.requested) == |t.file|)
        && (old(t.position == t.requested) || FeedbackFirst(net.polls))
      ensures old(Fills(t, n, net)) ==> r == BlockSize(n)
    {
      hide FlowsOver, Smooth, FullBlock, Tracks, FeedbackFirst, TroubleFirst;
      bytes := [];
      if n == 0 {
        return 0, bytes;
      }
      var l, given := Begin(t, BlockSize(n), net);
      ghost var g := Plan(t.position, BlockSize(n), old(latch), t.requested, old(Served(t, n, net)));
      l := Collect(t, BlockSize(n), net.polls, l, given, g);
      if l.ok {
        Finished(t, l, g);
        return |l.got|, l.got;
      }
      Failed(t, l, g);
      if l.request {
        latch := latch - 1;
      }
      pending := None;
      r := TransferSeek(t, l.filePosition, Set, net.recovery, net.patience);
      r := -1;
    }

    lemma Finished(t: Transfer, l: Loop, g: Plan)
      requires Tracks(t, l, g) && l.ok && !l.request
      ensures pending == None && latch == g.latch0 && |l.got| <= g.n
      ensures t.InStep() && t.requested - t.position < 2 * RCVBUF
      ensures t.position == g.start + |l.got| && l.got == t.file[g.start..t.position] && t.requested == g.served
    {
    }

    lemma Failed(t: Transfer, l: Loop, g: Plan)
      requires Tracks(t, l, g)
      ensures l.filePosition == t.position && latch == g.latch0 + if l.request then 1 else 0
      ensures t.Carries(g.served) && (t.requested == g.base || t.requested == g.served)
    {
    }

    /** Sends the request if one is needed; the latch is taken with it. */
    method Begin(t: Transfer, m: nat, net: Net) returns (l: Loop, ghost given: nat)
      requires 0 < m <= RCVBUF && pending == None && t.InStep() && t.requested - t.position < 2 * RCVBUF
      modifies this, t`wire
      ensures Tracks(t, l, Plan(t.position, m, old(latch), t.requested, t.requested + if l.ok then given else 0))
      ensures l.got == [] && !l.data && !l.ended
      ensures l.request == (t.position + m > t.requested) && l.ok == (l.request ==> t.isOpen && net.sent)
      ensures l.ok ==> Open() == given && |t.wire| == t.requested + given - t.position
      ensures given == if l.request then Granted(net.grant, m, |t.file| - t.requested) else 0
    {
      l, given := Loop(true, false, false, false, [], t.position, t.requested), 0;
      if t.position + m > t.requested {
        latch := latch + 1;
        var g := Granted(net.grant, m, |t.file| - t.requested);
        given := g;
        var ok := SendRequest(t, m, net.sent, g);
        l := l.(request := true, ok := ok);
      }
    }

    /** The poll loop. */
    method Collect(t: Transfer, m: nat, polls: seq<Poll>, l0: Loop, ghost given: nat, ghost g: Plan)
      returns (l: Loop)
      requires m > 0 && Tracks(t, l0, g) && m == g.n && l0.got == [] && !l0.data && !l0.ended
      requires l0.ok ==> Open() == given && |t.wire| == t.requested + given - t.position
      requires !l0.request ==> l0.ok && given == 0 && |t.wire| >= m
      modifies t`position, t`wire, t`requested, this
      ensures Tracks(t, l, g) && !Running(l) && (l.ok ==> l0.ok && !l.request)
      ensures l.ok && l.got == [] ==> l0.request && given == 0 && (old(t.wire) == [] || FeedbackFirst(polls))
      ensures l0.ok && Smooth(polls) ==> l.ok
      ensures TroubleFirst(polls, l0.request) ==> !l.ok
      ensures l0.ok && FlowsOver(polls, m) && |old(t.wire)| >= m ==> l.ok && |l.got| == m
    {
      hide Smooth, AfterPoll, Watched, TroubleFirst, FlowsOver, FeedbackFirst;
      l := l0;
      ghost var w := Begins(l, polls, m, |t.wire|);
      var i := 0;
      while Running(l)
        invariant Tracks(t, l, g) && 0 <= i <= |polls| && (l.ok ==> l0.ok)
        invariant l.ended ==> l.ok && !l.request && given == 0 && l0.request
        invariant l.request ==> l0.request && (l.ok ==> Open() == given)
        invariant Watched(w, polls, m, l, i, |t.wire|)
        decreases l.ok && !l.ended, |polls| - i
      {
        if i >= |polls| {
          WatchOver(w, polls, m, l, i, |t.wire|);
          l := l.(ok := false);
        } else {
          ghost var was, wire, open := l, t.wire, Open();
          l := HandlePoll(t, m, polls[i], l, g);
          EndsWith(was, m, wire, open, polls[i]);
          WatchTurn(w, polls, m, was, i, wire, open);
          i := i + 1;
        }
      }
      WatchEnds(w, polls, m, l, i, |t.wire|);
    }

    /** The loop is only cut short by an answer that grants nothing. */
    static lemma EndsWith(l: Loop, n: nat, wire: seq<Byte>, granted: nat, p: Poll)
      requires |l.got| <= n && !l.ended && l.ok
      ensures
        var l' := AfterPoll(l, n, wire, granted, p);
        (l'.request ==> l.request) && (l'.ended ==> l'.ok && l.request && !l'.request && granted == 0)
    {
    }

    // -------------------------------------------------------------- seeks

    /** The position a seek asks for, as the client's own range check reads it. */
    static function Asked(position: int, size: int, offset: int, whence: Whence): int {
      match whence
      case Set => offset
      case Cur => position + offset
      case End => size - offset
    }

    /** The seek needs no command: it asks for where the transfer is. */
    static predicate Idle(position: int, offset: int, whence: Whence) {
      (whence == Cur && offset == 0) || (whence == Set && offset == position)
    }

    /**
      `TransferSeek75`: a seek to where the transfer is does nothing; one out of range, on a closed
      transfer or without an answer fails and changes nothing; any other leaves the transfer at the
      backend's answer with nothing requested beyond it.
    */
    method TransferSeek(t: Transfer, offset: int, whence: Whence, answer: Answer, patience: nat) returns (r: int)
      modifies this`latch, t`position, t`wire, t`requested
      ensures latch == old(latch)
      ensures
        var asked := Asked(old(t.position), t.size, offset, whence);
        if Idle(old(t.position), offset, whence) then
          r == t.position == old(t.position) && t.requested == old(t.requested) && t.wire == old(t.wire)
        else if asked < 0 || asked > t.size || !t.isOpen || answer.Broken? then
          r == -1 && t.position == old(t.position) && t.requested == old(t.requested) && t.wire == old(t.wire)
        else
          && r == answer.q == t.position == t.requested
          && (old(t.InStep()) ==> t.wire == old(t.wire)[Min(patience, |old(t.wire)|)..])
          && (old(t.InStep()) && 0 <= r <= |t.file| ==> (t.InStep() <==> |old(t.wire)| <= patience))
    {
      var filePosition, fileSize := t.position, t.size;
      match whence {
        case Cur =>
          if offset == 0 {
            return filePosition;
          }
          var position := filePosition + offset;
          if position < 0 || position > fileSize {
            return -1;
          }
        case Set =>
          if offset == filePosition {
            return filePosition;
          }
          if offset < 0 || offset > fileSize {
            return -1;
          }
        case End =>
          var position := fileSize - offset;
          if position < 0 || position > fileSize {
            return -1;
          }
      }
      latch := latch + 1;
      if !t.isOpen {
        latch := latch - 1;
        return -1;
      }
      if answer.Broken? {
        latch := latch - 1;
        return -1;
      }
      r := answer.q;
      t.Flush(patience);
      t.requested := r;
      t.position := r;
      latch := latch - 1;
    }
  }
}
