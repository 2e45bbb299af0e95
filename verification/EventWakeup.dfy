/**
  The wake-up protocol of a subscription thread: posters append to the queue and notify the
  event while they hold the queue's mutex; the thread looks at the queue without the mutex,
  takes and handles messages, and waits on the event when the queue looked empty or a stop
  was asked for. Each access under a mutex, each call of `is_stopped` and each unguarded look at
  the queue is one step.
*/
module EventWakeup {

  datatype Message = Message(poster: nat, serial: nat)

  /** `OS::Event` with one waiter and automatic reset. */
  datatype Event = Event(notified: bool, one: bool, waiting: int)

  /** Where the subscription thread is in `process`; `Asleep` is inside `cond_wait`, `Awake` about to look again. */
  datatype Place = Outer | LookQueue | LookStop | Take | Handle(m: Message) | Wait | Awake | Asleep | Done

  /** `Stop`: not called, the flag is up but the event not yet notified, or both are done. */
  datatype Stopping = Running | Flagged | Notified

  /** `poster` holds the queue's mutex between its push and its notify. `posted` and `handled` are histories. */
  datatype State = State(queue: seq<Message>, poster: bool, event: Event, at: Place, stop: Stopping,
                         posted: seq<Message>, handled: seq<Message>)

  datatype Move =
    | Push(m: Message)   // some poster locks the mutex and appends
    | Notify             // the poster holding the mutex notifies and unlocks
    | AskStop            // `Stop` raises the flag
    | NotifyStop         // `Stop` notifies
    | Run                // the subscription thread
    | Spurious           // `cond_wait` returns by itself

  function Init(): State {
    State([], false, Event(false, false, 0), Outer, Running, [], [])
  }

  predicate Enabled(s: State, a: Move) {
    match a
    case Push(_) => !s.poster
    case Notify => s.poster
    case AskStop => s.stop == Running
    case NotifyStop => s.stop == Flagged
    case Run => s.at != Asleep && s.at != Done && (s.at == Take ==> !s.poster)
    case Spurious => s.at == Asleep
  }

  /** `notify_one`: the flag, and the signal a sleeper gets. */
  function NotifyOne(s: State): State {
    s.(event := s.event.(notified := true, one := true), at := if s.at == Asleep then Awake else s.at)
  }

  /** The wait loop's look at the flag, by a waiter already counted. */
  function TestEvent(s: State): State {
    if !s.event.notified then s.(at := Asleep)
    else
      var waiting := s.event.waiting - 1;
      s.(at := Outer, event := Event(!(s.event.one || waiting == 0), s.event.one, waiting))
  }

  predicate IsStopped(s: State) {
    s.stop != Running
  }

  /** The subscription thread's next step. */
  function Proceed(s: State): State
    requires Enabled(s, Run) && (s.at == Take ==> s.queue != [])
  {
    match s.at
    case Outer => s.(at := if IsStopped(s) then Done else LookQueue)
    case LookQueue => s.(at := if s.queue != [] then LookStop else Wait)
    case LookStop => s.(at := if IsStopped(s) then Wait else Take)
    case Take => s.(at := Handle(s.queue[0]), queue := s.queue[1..])
    case Handle(m) => s.(at := LookQueue, handled := s.handled + [m])
    case Wait => TestEvent(s.(event := s.event.(waiting := s.event.waiting + 1)))
    case Awake => TestEvent(s)
  }

  function Next(s: State, a: Move): State
    requires Enabled(s, a) && (s.at == Take ==> s.queue != [])
  {
    match a
    case Push(m) => s.(queue := s.queue + [m], posted := s.posted + [m], poster := true)
    case Notify => NotifyOne(s).(poster := false)
    case AskStop => s.(stop := Flagged)
    case NotifyStop => NotifyOne(s).(stop := Notified)
    case Run => Proceed(s)
    case Spurious => s.(at := Awake)
  }

  // ---------------------------------------------------------------- the invariant

  /** The message the thread is handling. */
  function InHand(s: State): seq<Message> {
    if s.at.Handle? then [s.at.m] else []
  }

  predicate InWait(at: Place) {
    at == Wait || at == Awake || at == Asleep
  }

  ghost predicate Inv(s: State) {
    && s.posted == s.handled + InHand(s) + s.queue
    && (s.at == Take || s.at == LookStop ==> s.queue != [])
    && s.event.waiting == (if s.at == Awake || s.at == Asleep then 1 else 0)
    && (s.event.notified ==> s.event.one)
    && (s.at == Asleep ==> !s.event.notified)
    && (s.at == Done ==> IsStopped(s))
    // a message arrived since the last look: its notification is there or on its way
    && (InWait(s.at) && s.queue != [] ==> s.event.notified || s.poster || IsStopped(s))
    // a stop was notified since the last test of the flag: the notification is still there
    && (s.stop == Notified && s.at != Outer && s.at != Done ==> s.event.notified)
  }

  lemma RunKeepsInv(s: State)
    requires Inv(s) && Enabled(s, Run)
    ensures Inv(Proceed(s))
  {
    var s' := Proceed(s);
    if s.at == Take {
      assert s.queue == [s.queue[0]] + s.queue[1..];
      assert s'.posted == s'.handled + InHand(s') + s'.queue;
    } else if s.at.Handle? {
      assert s'.handled + InHand(s') == s.handled + InHand(s);
    }
  }

  lemma NextKeepsInv(s: State, a: Move)
    requires Inv(s) && Enabled(s, a)
    ensures Inv(Next(s, a))
  {
    if a == Run {
      RunKeepsInv(s);
    } else if a.Push? {
      var s' := Next(s, a);
      assert s'.handled + InHand(s') + s'.queue == s.handled + InHand(s) + s.queue + [a.m];
    }
  }

  /** A schedule, from the start; entries that are not enabled are passed over. */
  ghost function Exec(schedule: seq<Move>): (s: State)
    ensures Inv(s)
  {
    if schedule == [] then Init()
    else
      var before, a := Exec(schedule[..|schedule| - 1]), schedule[|schedule| - 1];
      if Enabled(before, a) then
        NextKeepsInv(before, a);
        Next(before, a)
      else before
  }

  // ---------------------------------------------------------------- what it is for

  /** The messages pushed by a schedule, in the order of their pushes. */
  ghost function Pushed(schedule: seq<Move>): seq<Message> {
    if schedule == [] then []
    else
      var before, a := schedule[..|schedule| - 1], schedule[|schedule| - 1];
      Pushed(before) + if a.Push? && Enabled(Exec(before), a) then [a.m] else []
  }

  lemma PostedGrows(s: State, a: Move)
    requires Inv(s) && Enabled(s, a)
    ensures Next(s, a).posted == s.posted + if a.Push? then [a.m] else []
  {
  }

  /** Messages are handled in the order of the posts, each once. */
  lemma {:induction false} HandledInOrder(schedule: seq<Move>)
    ensures Exec(schedule).posted == Pushed(schedule)
    ensures Exec(schedule).handled <= Pushed(schedule)
  {
    hide Next, Inv;
    var s := Exec(schedule);
    if schedule != [] {
      var before, a := schedule[..|schedule| - 1], schedule[|schedule| - 1];
      HandledInOrder(before);
      if Enabled(Exec(before), a) {
        PostedGrows(Exec(before), a);
      }
    }
    Conserved(s);
  }

  lemma Conserved(s: State)
    requires Inv(s)
    ensures s.handled <= s.posted
  {
    assert s.posted == s.handled + (InHand(s) + s.queue);
  }

  /** No lost wake-up: whoever sleeps while there is work is about to be signalled. */
  lemma NoLostWakeup(schedule: seq<Move>)
    ensures
      var s := Exec(schedule);
      s.at == Asleep && (s.queue != [] || IsStopped(s)) ==>
        || (Enabled(s, Notify) && Next(s, Notify).at == Awake)
        || (Enabled(s, NotifyStop) && Next(s, NotifyStop).at == Awake)
  {
  }

  /** How many messages the thread may still handle once it is asked to stop: one in hand or about to be taken. */
  function Last(s: State): nat {
    if s.at == Take || s.at.Handle? then 1 else 0
  }

  lemma StopStep(s: State, a: Move)
    requires Inv(s) && Enabled(s, a) && s.stop != Running
    ensures Next(s, a).stop != Running && s.handled <= Next(s, a).handled
    ensures |Next(s, a).handled| + Last(Next(s, a)) <= |s.handled| + Last(s)
  {
  }

  /**
    Once `Stop` has raised the flag the thread finishes the message it has taken or is about to take, and
    handles no other in any continuation of the run.
  */
  lemma {:induction false} NothingAfterStop(run: seq<Move>, more: seq<Move>)
    requires Exec(run).stop != Running
    ensures
      var s, t := Exec(run), Exec(run + more);
      && t.stop != Running && s.handled <= t.handled && |t.handled| + Last(t) <= |s.handled| + Last(s)
  {
    hide Next, Inv;
    if more == [] {
      assert run + more == run;
    } else {
      var shorter, a := more[..|more| - 1], more[|more| - 1];
      NothingAfterStop(run, shorter);
      var all := run + more;
      assert all[..|all| - 1] == run + shorter && all[|all| - 1] == a;
      if Enabled(Exec(run + shorter), a) {
        StopStep(Exec(run + shorter), a);
      }
    }
  }

  /** A measure of the work left to the posters in progress, `Stop` and the thread. */
  function Rank(at: Place): nat {
    match at
    case Outer => 5
    case LookQueue => 4
    case LookStop => 3
    case Take => 1
    case Handle(_) => 5
    case Wait => 2
    case Awake => 1
    case Asleep => 0
    case Done => 0
  }

  function Work(s: State): nat {
    5 * |s.queue| + (if s.event.notified then 5 else 0) + (if s.poster then 7 else 0)
    + (if s.stop == Flagged then 7 else 0) + Rank(s.at)
  }

  /** Every step but a new post, a new stop or a spurious wake-up is progress. */
  lemma ProgressMade(s: State, a: Move)
    requires Inv(s) && Enabled(s, a) && (a == Notify || a == NotifyStop || a == Run)
    ensures Work(Next(s, a)) < Work(s)
  {
  }

  /** A wake-up for nothing costs one more look; no step but a post or a stop changes what is asked for. */
  lemma NothingAsked(s: State, a: Move)
    requires Inv(s) && Enabled(s, a) && (a == Notify || a == NotifyStop || a == Run || a == Spurious)
    ensures a == Spurious ==> Work(Next(s, a)) == Work(s) + 1
    ensures Next(s, a).posted == s.posted && Next(s, a).stop.Running? == s.stop.Running?
  {
  }

  /** Nothing is left to do but to wait for a new post or a stop. */
  predicate Quiet(s: State) {
    !Enabled(s, Notify) && !Enabled(s, NotifyStop) && !Enabled(s, Run)
  }

  /**
    Where nothing is left to do the promise is kept: without a stop the thread sleeps and every
    message posted was handled; with one the thread has left its loop.
  */
  lemma QuietMeansDone(s: State)
    requires Inv(s) && Quiet(s)
    ensures !IsStopped(s) ==> s.at == Asleep && s.handled == s.posted
    ensures IsStopped(s) ==> s.at == Done
  {
  }

  /** How often `cond_wait` returns by itself. */
  function Spurii(run: seq<Move>): nat {
    if run == [] then 0 else (if run[0] == Spurious then 1 else 0) + Spurii(run[1..])
  }

  /** The steps of a run from `s` in which nothing new is asked for; the thread may wake by itself. */
  ghost predicate Continues(s: State, run: seq<Move>, t: State)
    requires Inv(s)
    decreases |run|
  {
    if run == [] then t == s
    else
      && (run[0] == Notify || run[0] == NotifyStop || run[0] == Run || run[0] == Spurious)
      && Enabled(s, run[0])
      && (NextKeepsInv(s, run[0]);
          Continues(Next(s, run[0]), run[1..], t))
  }

  /**
    However the posters in progress, `Stop` and the thread are interleaved from any reachable
    state, they come to rest within `Work` steps and two more for each time the thread wakes by itself,
    and at rest everything posted was handled, or the thread has stopped.
  */
  lemma {:induction false} EveryRunDelivers(s: State, run: seq<Move>, t: State)
    requires Inv(s) && Continues(s, run, t)
    ensures |run| + Work(t) <= Work(s) + 2 * Spurii(run) && Inv(t)
    ensures t.posted == s.posted && t.stop.Running? == s.stop.Running?
    ensures Quiet(t) ==> if IsStopped(s) then t.at == Done else t.handled == s.posted
    decreases |run|
  {
    hide Next, Work, Quiet;
    if run != [] {
      NextKeepsInv(s, run[0]);
      NothingAsked(s, run[0]);
      if run[0] != Spurious {
        ProgressMade(s, run[0]);
      }
      EveryRunDelivers(Next(s, run[0]), run[1..], t);
    } else if Quiet(t) {
      QuietMeansDone(t);
    }
  }
}
