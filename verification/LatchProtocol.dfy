/**
  The reader/writer latch as a step machine over any number of threads.

  Every stretch of `Latch::lock`, `unlock`, `lock_shared`, `unlock_shared` and
  `try_lock_shared` between a `spin_lock` and the next `spin_unlock` is one atomic step
  on the shared words (`Core`). A thread blocked on a condition variable re-checks its
  guard whenever it wakes; since every wait has a timeout it may wake at any time.
*/
module LatchProtocol {

  import opened ThreadIds

  /** The owner word; `thread_t(0)` in it is `NoThread`. */
  datatype Owner = NoThread | Thread(id: Tid)

  /** The words guarded by the spin word. `holds` is the busy list of S nodes, seen as a map. */
  datatype Core = Core(flag: int, wait: int, owner: Owner, px: bool, holds: map<Tid, nat>)

  /** How an atomic stretch ends: the call returned, or the thread sleeps at a gate. */
  datatype Outcome = Returned | AtXGate | AtSGate | AtSharedGate

  const X_STEP_0 := 0
  const X_STEP_1 := 1
  const X_STEP_2 := 2
  const X_STEP_3 := 3

  // ---------------------------------------------------------------- atomic stretches

  /** X = 1: take X unless a thread other than `t` still holds S. */
  function AwaitReaders(c: Core, t: Tid): (Core, Outcome) {
    if c.holds.Keys <= {t} then (c.(flag := X_STEP_3, owner := Thread(t)), Returned) else (c, AtSGate)
  }

  /** A request already counted in `wait` tests the X gate. */
  function PassXGate(c: Core, t: Tid): (Core, Outcome) {
    if c.flag == X_STEP_0 || c.flag == X_STEP_2 then
      AwaitReaders(c.(flag := X_STEP_1, wait := c.wait - 1), t)
    else
      (c, AtXGate)
  }

  function Lock(c: Core, t: Tid): (Core, Outcome) {
    if c.owner == Thread(t) then (c.(flag := c.flag + 1), Returned) else PassXGate(c.(wait := c.wait + 1), t)
  }

  /** Woken at the S gate: the last reader may have handed X over, else retry. */
  function PassSGate(c: Core, t: Tid): (Core, Outcome) {
    if c.flag == X_STEP_3 then (c.(owner := Thread(t)), Returned) else AwaitReaders(c, t)
  }

  function Unlock(c: Core, t: Tid): Core {
    if c.owner != Thread(t) then c
    else if c.flag - 1 != X_STEP_2 then c.(flag := c.flag - 1)
    else c.(flag := if c.wait == 0 then X_STEP_0 else X_STEP_2, owner := NoThread)
  }

  function CountOf(holds: map<Tid, nat>, t: Tid): nat {
    if t in holds then holds[t] else 0
  }

  function TakeShared(c: Core, t: Tid): Core {
    c.(holds := c.holds[t := CountOf(c.holds, t) + 1])
  }

  /** The guard of the loop in `lock_shared`. */
  predicate Admits(c: Core, t: Tid) {
    if c.px then c.flag == X_STEP_0 || (c.flag == X_STEP_1 && t in c.holds) else c.flag < X_STEP_2
  }

  function PassSharedGate(c: Core, t: Tid): (Core, Outcome) {
    if Admits(c, t) then (TakeShared(c, t), Returned) else (c, AtSharedGate)
  }

  function LockShared(c: Core, t: Tid): (Core, Outcome) {
    if c.owner == Thread(t) then (TakeShared(c, t), Returned) else PassSharedGate(c, t)
  }

  function UnlockShared(c: Core, t: Tid): Core
    requires t in c.holds && c.holds[t] > 0
  {
    if c.holds[t] > 1 then c.(holds := c.holds[t := c.holds[t] - 1])
    else
      var left := c.holds - {t};
      if c.flag == X_STEP_1 && c.owner != Thread(t) && left.Keys == {} then c.(holds := left, flag := X_STEP_3)
      else c.(holds := left)
  }

  predicate MayTryShared(c: Core, t: Tid) {
    c.flag == X_STEP_0 || c.owner == Thread(t)
  }

  function TryLockShared(c: Core, t: Tid): (Core, bool) {
    if MayTryShared(c, t) then (TakeShared(c, t), true) else (c, false)
  }

  // ---------------------------------------------------------------- interleavings

  /** The threads asleep at each gate; any other thread is running its own code. */
  datatype State = State(core: Core, atX: set<Tid>, atS: set<Tid>, atShared: set<Tid>)

  predicate Asleep(s: State, t: Tid) {
    t in s.atX || t in s.atS || t in s.atShared
  }

  /** What the scheduler lets a thread do: enter a call, or wake up at its gate. */
  datatype Call = CallLock | CallUnlock | CallLockShared | CallUnlockShared | CallTryLockShared | Wake

  /** What the calling code observes of one step. */
  datatype Event = XTaken | XDropped | STaken | SDropped | Silent

  datatype Turn = Turn(thread: Tid, call: Call)
  datatype Seen = Seen(thread: Tid, event: Event)

  function Init(px: bool): State {
    State(Core(X_STEP_0, 0, NoThread, px, map[]), {}, {}, {})
  }

  /** A sleeping thread can only wake; `unlock_shared` asserts that the caller holds S. */
  predicate Enabled(s: State, u: Turn) {
    && (u.call.Wake? <==> Asleep(s, u.thread))
    && (u.call.CallUnlockShared? ==> u.thread in s.core.holds && s.core.holds[u.thread] > 0)
  }

  /** `t` goes where its atomic stretch left it. */
  function Settle(s: State, t: Tid, r: (Core, Outcome), e: Event): (State, Event) {
    var (c, o) := r;
    (State(c,
           if o == AtXGate then s.atX + {t} else s.atX - {t},
           if o == AtSGate then s.atS + {t} else s.atS - {t},
           if o == AtSharedGate then s.atShared + {t} else s.atShared - {t}),
     if o == Returned then e else Silent)
  }

  function WakeUp(s: State, t: Tid): (State, Event) {
    if t in s.atX then Settle(s, t, PassXGate(s.core, t), XTaken)
    else if t in s.atS then Settle(s, t, PassSGate(s.core, t), XTaken)
    else Settle(s, t, PassSharedGate(s.core, t), STaken)
  }

  function Next(s: State, u: Turn): (State, Event)
    requires Enabled(s, u)
  {
    var t := u.thread;
    match u.call
    case CallLock => Settle(s, t, Lock(s.core, t), XTaken)
    case CallUnlock => (s.(core := Unlock(s.core, t)), XDropped)
    case CallLockShared => Settle(s, t, LockShared(s.core, t), STaken)
    case CallUnlockShared => (s.(core := UnlockShared(s.core, t)), SDropped)
    case CallTryLockShared =>
      var (c, ok) := TryLockShared(s.core, t);
      (s.(core := c), if ok then STaken else Silent)
    case Wake => WakeUp(s, t)
  }

  /** One entry of a schedule; an entry its thread cannot follow is passed over. */
  function Step(s: State, u: Turn): (State, Event) {
    if Enabled(s, u) then Next(s, u) else (s, Silent)
  }

  function Exec(px: bool, schedule: seq<Turn>): State {
    if schedule == [] then Init(px)
    else Step(Exec(px, schedule[..|schedule| - 1]), schedule[|schedule| - 1]).0
  }

  /** What the calling code of all threads saw, in order. */
  function Log(px: bool, schedule: seq<Turn>): seq<Seen> {
    if schedule == [] then []
    else
      var before, u := schedule[..|schedule| - 1], schedule[|schedule| - 1];
      Log(px, before) + [Seen(u.thread, Step(Exec(px, before), u).1)]
  }

  /** Client view: X calls returned to `t` less its X releases; a release of nothing counts for nothing. */
  function XDepth(log: seq<Seen>, t: Tid): nat {
    if log == [] then 0
    else
      var before, last := XDepth(log[..|log| - 1], t), log[|log| - 1];
      if last.thread != t then before
      else if last.event == XTaken then before + 1
      else if last.event == XDropped && before > 0 then before - 1
      else before
  }

  /** Client view: S calls returned to `t` less its S releases. */
  function SDepth(log: seq<Seen>, t: Tid): int {
    if log == [] then 0
    else
      var before, last := SDepth(log[..|log| - 1], t), log[|log| - 1];
      if last.thread != t then before
      else if last.event == STaken then before + 1
      else if last.event == SDropped then before - 1
      else before
  }

  // ---------------------------------------------------------------- the invariant

  /** X is handed over to the pending thread, which has yet to wake and sign the owner word. */
  predicate HandedOver(c: Core) {
    c.flag >= X_STEP_3 && c.owner == NoThread
  }

  /** The shared words agree with each other. */
  ghost predicate Words(c: Core) {
    && c.flag >= X_STEP_0
    && (c.flag == X_STEP_0 ==> c.wait == 0)
    && (c.flag == X_STEP_2 ==> c.wait > 0)
    && (c.owner.Thread? ==> c.flag >= X_STEP_3)
    && (forall t :: t in c.holds ==> c.holds[t] > 0)
    && (forall t :: t in c.holds && c.flag >= X_STEP_3 ==> c.owner == Thread(t))
    && (HandedOver(c) ==> c.flag == X_STEP_3)
  }

  /** The sleepers agree with the shared words: at most one is pending, and exactly when the flag says so. */
  ghost predicate Places(s: State) {
    && (forall t :: t in s.atX ==> t !in s.atS && t !in s.atShared)
    && (forall t :: t in s.atS ==> t !in s.atShared)
    && (forall t, u :: t in s.atS && u in s.atS ==> t == u)
    && (s.core.flag == X_STEP_1 || HandedOver(s.core) <==> exists t :: t in s.atS)
    && (s.core.owner.Thread? ==> !Asleep(s, s.core.owner.id))
  }

  /** The wait word counts the requests asleep at the X gate. */
  ghost predicate Counted(s: State) {
    |s.atX| == s.core.wait
  }

  ghost predicate Inv(s: State) {
    Words(s.core) && Places(s) && Counted(s)
  }

  lemma WordsKeptByCall(s: State, u: Turn)
    requires Inv(s) && u.call != Wake
    ensures Words(Step(s, u).0.core)
  {
  }

  lemma WordsKeptByWake(s: State, u: Turn)
    requires Inv(s) && u.call == Wake
    ensures Words(Step(s, u).0.core)
  {
    if u.thread in s.atX {
      assert s.core.wait > 0;
    }
  }

  lemma PendingKept(s: State, u: Turn)
    requires Words(s.core) && Places(s)
    ensures var s' := Step(s, u).0; s'.core.flag == X_STEP_1 || HandedOver(s'.core) ==> exists t :: t in s'.atS
  {
    var s' := Step(s, u).0;
    if s'.core.flag == X_STEP_1 || HandedOver(s'.core) {
      if s.core.flag == X_STEP_1 || HandedOver(s.core) {
        var t :| t in s.atS;
        assert t in s'.atS;
      } else {
        assert u.thread in s'.atS;
      }
    }
  }

  lemma PlacesKeptByCall(s: State, u: Turn)
    requires Words(s.core) && Places(s) && u.call != Wake
    ensures Places(Step(s, u).0)
  {
    PendingKept(s, u);
  }

  lemma PlacesKeptByWake(s: State, u: Turn)
    requires Words(s.core) && Places(s) && u.call == Wake
    ensures Places(Step(s, u).0)
  {
    PendingKept(s, u);
  }

  lemma AtXMoves(s: State, u: Turn)
    requires Places(s)
    ensures
      var t, s' := u.thread, Step(s, u).0;
      || (s'.atX == s.atX && s'.core.wait == s.core.wait)
      || (t !in s.atX && s'.atX == s.atX + {t} && s'.core.wait == s.core.wait + 1)
      || (t in s.atX && s'.atX == s.atX - {t} && s'.core.wait == s.core.wait - 1)
  {
  }

  lemma CountedKept(s: State, u: Turn)
    requires Counted(s) && Places(s)
    ensures Counted(Step(s, u).0)
  {
    AtXMoves(s, u);
  }

  lemma StepKeepsInv(s: State, u: Turn)
    requires Inv(s)
    ensures Inv(Step(s, u).0)
  {
    if u.call == Wake {
      WordsKeptByWake(s, u);
      PlacesKeptByWake(s, u);
    } else {
      WordsKeptByCall(s, u);
      PlacesKeptByCall(s, u);
    }
    CountedKept(s, u);
  }

  lemma StepKeepsPx(s: State, u: Turn)
    ensures Step(s, u).0.core.px == s.core.px
  {
  }

  /** Every reachable state satisfies the invariant. */
  lemma {:induction false} ReachableInv(px: bool, schedule: seq<Turn>)
    ensures Inv(Exec(px, schedule)) && Exec(px, schedule).core.px == px
  {
    if schedule == [] {
    } else {
      var before := schedule[..|schedule| - 1];
      var u := schedule[|schedule| - 1];
      ReachableInv(px, before);
      StepKeepsInv(Exec(px, before), u);
      StepKeepsPx(Exec(px, before), u);
      assert Exec(px, schedule) == Step(Exec(px, before), u).0;
    }
  }

  // ---------------------------------------------------------------- what the callers see

  /** The X recursion depth of `t` according to the shared words. */
  function XHeld(c: Core, t: Tid): int {
    if c.owner == Thread(t) then c.flag - X_STEP_2 else 0
  }

  lemma StepShowsX(s: State, u: Turn, t: Tid)
    requires Words(s.core) && Places(s)
    ensures
      var (s', e) := Step(s, u);
      XHeld(s'.core, t) == XHeld(s.core, t) +
        (if u.thread != t then 0
         else if e == XTaken then 1
         else if e == XDropped && XHeld(s.core, t) > 0 then -1
         else 0)
  {
  }

  lemma StepShowsS(s: State, u: Turn, t: Tid)
    ensures
      var (s', e) := Step(s, u);
      CountOf(s'.core.holds, t) == CountOf(s.core.holds, t) +
        (if u.thread != t then 0 else if e == STaken then 1 else if e == SDropped then -1 else 0)
  {
  }

  /** The callers' own counts, kept from returned calls alone, are the counts in the latch. */
  lemma {:induction false} ClientView(px: bool, schedule: seq<Turn>, t: Tid)
    ensures XDepth(Log(px, schedule), t) == XHeld(Exec(px, schedule).core, t)
    ensures SDepth(Log(px, schedule), t) == CountOf(Exec(px, schedule).core.holds, t)
  {
    if schedule == [] {
    } else {
      var before, u := schedule[..|schedule| - 1], schedule[|schedule| - 1];
      ClientView(px, before, t);
      ReachableInv(px, before);
      StepShowsX(Exec(px, before), u, t);
      StepShowsS(Exec(px, before), u, t);
      var log := Log(px, schedule);
      assert log == Log(px, before) + [Seen(u.thread, Step(Exec(px, before), u).1)];
      assert log[..|log| - 1] == Log(px, before);
      assert Exec(px, schedule) == Step(Exec(px, before), u).0;
    }
  }

  /** Exclusion, in the callers' terms only: who holds X is alone, with X or S, in every run. */
  lemma MutualExclusion(px: bool, schedule: seq<Turn>, t: Tid, u: Tid)
    requires XDepth(Log(px, schedule), t) > 0
    requires XDepth(Log(px, schedule), u) > 0 || SDepth(Log(px, schedule), u) > 0
    ensures t == u
  {
    ReachableInv(px, schedule);
    ClientView(px, schedule, t);
    ClientView(px, schedule, u);
  }

  /** The flag word, decoded: depth of the owner, hand-over, and who may be pending. */
  lemma FlagMeaning(px: bool, schedule: seq<Turn>)
    ensures
      var s := Exec(px, schedule);
      && (s.core.owner.Thread? ==> s.core.flag - 2 == XDepth(Log(px, schedule), s.core.owner.id) > 0)
      && (s.core.owner.Thread? ==> forall t :: t in s.core.holds ==> t == s.core.owner.id)
      && (s.core.flag >= X_STEP_3 && s.core.owner == NoThread ==> s.core.holds.Keys == {})
      && (forall t, u :: t in s.atS && u in s.atS ==> t == u)
      && (s.core.owner.Thread? ==> s.atS == {})
  {
    var s := Exec(px, schedule);
    ReachableInv(px, schedule);
    if s.core.owner.Thread? {
      ClientView(px, schedule, s.core.owner.id);
    }
  }

  ghost predicate XIsFree(log: seq<Seen>) {
    forall t :: XDepth(log, t) == 0
  }

  lemma XIsFreeExactly(px: bool, schedule: seq<Turn>)
    ensures XIsFree(Log(px, schedule)) <==> Exec(px, schedule).core.owner == NoThread
  {
    var c := Exec(px, schedule).core;
    ReachableInv(px, schedule);
    forall t ensures XDepth(Log(px, schedule), t) == XHeld(c, t) {
      ClientView(px, schedule, t);
    }
    if c.owner.Thread? {
      assert XDepth(Log(px, schedule), c.owner.id) == XHeld(c, c.owner.id) > 0;
    }
  }

  /** `try_lock_shared` succeeds exactly when X is neither owned nor asked for, or is the caller's own. */
  lemma TrySharedMeaning(px: bool, schedule: seq<Turn>, t: Tid)
    ensures
      var s := Exec(px, schedule);
      MayTryShared(s.core, t) <==>
        || XDepth(Log(px, schedule), t) > 0
        || (XIsFree(Log(px, schedule)) && s.atX == {} && s.atS == {})
  {
    var s := Exec(px, schedule);
    ReachableInv(px, schedule);
    ClientView(px, schedule, t);
    XIsFreeExactly(px, schedule);
    if s.core.flag == X_STEP_0 {
      assert s.atX == {} && s.atS == {};
    } else if s.core.flag == X_STEP_2 {
      assert s.atX != {};
    }
  }

  // ---------------------------------------------------------------- no stuck state

  /** The guard at the gate where `t` sleeps is true: if it wakes, it moves. */
  predicate CanMove(s: State, t: Tid) {
    || (t in s.atX && (s.core.flag == X_STEP_0 || s.core.flag == X_STEP_2))
    || (t in s.atS && (s.core.flag == X_STEP_3 || s.core.holds.Keys <= {t}))
    || (t in s.atShared && Admits(s.core, t))
  }

  predicate Holds(s: State, t: Tid) {
    s.core.owner == Thread(t) || t in s.core.holds
  }

  /** Somebody sleeps, nobody asleep can move, and nobody awake has anything to release. */
  ghost predicate Stuck(s: State) {
    && (exists t :: Asleep(s, t))
    && (forall t :: !CanMove(s, t))
    && (forall t :: Holds(s, t) ==> Asleep(s, t))
  }

  /** A pending writer waits for readers that all sleep inside `lock` themselves. */
  ghost predicate UpgradeDeadlock(s: State) {
    && s.core.flag == X_STEP_1
    && (exists q :: q in s.core.holds && q in s.atX)
    && (forall q :: q in s.core.holds ==> q in s.atX || q in s.atS)
    && (forall t :: t in s.atShared ==> !Admits(s.core, t))
  }

  /** Crossed upgrades are the only way to get stuck. */
  lemma StuckExactly(s: State)
    requires Inv(s)
    ensures Stuck(s) <==> UpgradeDeadlock(s)
  {
    if Stuck(s) {
      if s.core.flag == X_STEP_1 {
        var p :| p in s.atS;
        assert !CanMove(s, p);
        forall q | q in s.core.holds ensures q in s.atX || q in s.atS {
          assert Holds(s, q);
          assert !CanMove(s, q);
        }
        var q :| q in s.core.holds && q != p;
        assert q in s.atX;
        forall t | t in s.atShared ensures !Admits(s.core, t) {
          assert !CanMove(s, t);
        }
      } else {
        SomebodyMoves(s);
      }
    }
    if UpgradeDeadlock(s) {
      var q :| q in s.core.holds && q in s.atX;
      assert Asleep(s, q);
      forall t ensures !CanMove(s, t) {
        assert q in s.core.holds.Keys;
      }
    }
  }

  lemma SomebodyMoves(s: State)
    requires Inv(s) && (exists t :: Asleep(s, t)) && s.core.flag != X_STEP_1
    ensures !Stuck(s)
  {
    if s.core.owner.Thread? {
      assert Holds(s, s.core.owner.id);
    } else if s.core.flag == X_STEP_0 {
      var t :| Asleep(s, t);
      assert CanMove(s, t);
    } else if s.core.flag == X_STEP_2 {
      var t :| t in s.atX;
      assert CanMove(s, t);
    } else {
      var t :| t in s.atS;
      assert CanMove(s, t);
    }
  }

  /** No thread asks for X while it holds S without holding X. */
  predicate NeverUpgrades(px: bool, schedule: seq<Turn>) {
    schedule == [] ||
    var before, u := schedule[..|schedule| - 1], schedule[|schedule| - 1];
    && NeverUpgrades(px, before)
    && (u.call == CallLock ==> SDepth(Log(px, before), u.thread) == 0 || XDepth(Log(px, before), u.thread) > 0)
  }

  lemma StepAtXGate(s: State, u: Turn, t: Tid)
    requires Places(s)
    requires t in s.atX ==> t !in s.core.holds
    requires u.call == CallLock ==> u.thread !in s.core.holds || s.core.owner == Thread(u.thread)
    ensures var s' := Step(s, u).0; t in s'.atX ==> t !in s'.core.holds
  {
  }

  lemma {:induction false} XGateHoldsNothing(px: bool, schedule: seq<Turn>, t: Tid)
    requires NeverUpgrades(px, schedule)
    ensures var s := Exec(px, schedule); t in s.atX ==> t !in s.core.holds
  {
    if schedule == [] {
    } else {
      var before, u := schedule[..|schedule| - 1], schedule[|schedule| - 1];
      XGateHoldsNothing(px, before, t);
      ReachableInv(px, before);
      ClientView(px, before, u.thread);
      StepAtXGate(Exec(px, before), u, t);
      assert Exec(px, schedule) == Step(Exec(px, before), u).0;
    }
  }

  /** Progress in the callers' terms: a program that never upgrades S to X is never stuck. */
  lemma NeverStuck(px: bool, schedule: seq<Turn>)
    requires NeverUpgrades(px, schedule)
    ensures !Stuck(Exec(px, schedule))
  {
    var s := Exec(px, schedule);
    ReachableInv(px, schedule);
    StuckExactly(s);
    forall q | q in s.core.holds ensures q !in s.atX {
      XGateHoldsNothing(px, schedule, q);
    }
  }

  /** The restriction is needed: two readers that both ask for X wait for each other for ever. */
  lemma CrossedUpgradesStick(px: bool)
    ensures
      var s := Exec(px, [Turn(1, CallLockShared), Turn(2, CallLockShared), Turn(1, CallLock), Turn(2, CallLock)]);
      Stuck(s) && Crossed(s, 1, 2)
  {
    var r := [Turn(1, CallLockShared), Turn(2, CallLockShared), Turn(1, CallLock), Turn(2, CallLock)];
    TwoReaders(px);
    assert r[..3][..2] == [Turn(1, CallLockShared), Turn(2, CallLockShared)];
    var s2 := State(Core(X_STEP_0, 0, NoThread, px, map[1 := 1, 2 := 1]), {}, {}, {});
    assert 2 in s2.core.holds.Keys;
    var s3 := State(Core(X_STEP_1, 0, NoThread, px, map[1 := 1, 2 := 1]), {}, {1}, {});
    assert Step(s2, Turn(1, CallLock)).0 == s3;
    assert Exec(px, r[..3]) == s3;
    var s4 := State(Core(X_STEP_1, 1, NoThread, px, map[1 := 1, 2 := 1]), {2}, {1}, {});
    assert Step(s3, Turn(2, CallLock)).0 == s4;
    assert Exec(px, r) == s4;
    assert Asleep(s4, 1);
  }

  lemma TwoReaders(px: bool)
    ensures Exec(px, [Turn(1, CallLockShared), Turn(2, CallLockShared)]) ==
            State(Core(X_STEP_0, 0, NoThread, px, map[1 := 1, 2 := 1]), {}, {}, {})
  {
    var r := [Turn(1, CallLockShared), Turn(2, CallLockShared)];
    assert r[..1] == [Turn(1, CallLockShared)] && r[..1][..0] == [];
    assert Exec(px, r[..1]) == Step(Init(px), Turn(1, CallLockShared)).0;
    assert map[1 := 1][2 := 1] == map[1 := 1, 2 := 1];
  }

  /** A pending writer waits for a reader that waits for X itself. */
  predicate Crossed(s: State, p: Tid, q: Tid) {
    s.core.flag == X_STEP_1 && p != q && p in s.atS && q in s.atX && q in s.core.holds
  }

  lemma CrossedStays(s: State, u: Turn, p: Tid, q: Tid)
    requires Inv(s) && Crossed(s, p, q)
    ensures Crossed(Step(s, u).0, p, q)
  {
    assert q in s.core.holds.Keys;
    if u.call.CallUnlockShared? && u.thread != q {
      assert q in (s.core.holds - {u.thread}).Keys;
    }
  }

  /** Once crossed, the two wait for ever: no continuation of the run gets either of them through. */
  lemma {:induction false} CrossedForEver(px: bool, run: seq<Turn>, more: seq<Turn>, p: Tid, q: Tid)
    requires Crossed(Exec(px, run), p, q)
    ensures Crossed(Exec(px, run + more), p, q)
  {
    if more == [] {
      assert run + more == run;
    } else {
      var shorter, u := more[..|more| - 1], more[|more| - 1];
      CrossedForEver(px, run, shorter, p, q);
      var all := run + more;
      assert all[..|all| - 1] == run + shorter && all[|all| - 1] == u;
      ReachableInv(px, run + shorter);
      CrossedStays(Exec(px, run + shorter), u, p, q);
    }
  }

  // ---------------------------------------------------------------- X precedence

  /** While X is asked for or held, a new S holder can only be the owner of X. */
  lemma NoNewReader(s: State, u: Turn)
    requires Words(s.core) && s.core.px && s.core.flag != X_STEP_0
    ensures forall t :: t in Step(s, u).0.core.holds && t !in s.core.holds ==> s.core.owner == Thread(t)
  {
  }

  /** With X precedence the set of S holders never grows as long as a writer is pending. */
  lemma {:induction false} ReadersOnlyDrain(run: seq<Turn>, more: seq<Turn>)
    requires forall i :: 0 <= i < |more| ==> Exec(true, run + more[..i]).core.flag == X_STEP_1
    ensures Exec(true, run + more).core.holds.Keys <= Exec(true, run).core.holds.Keys
  {
    if more == [] {
      assert run + more == run;
    } else {
      var shorter, u := more[..|more| - 1], more[|more| - 1];
      forall i | 0 <= i < |shorter| ensures Exec(true, run + shorter[..i]).core.flag == X_STEP_1 {
        assert shorter[..i] == more[..i];
      }
      ReadersOnlyDrain(run, shorter);
      var all := run + more;
      assert all[..|all| - 1] == run + shorter;
      ReachableInv(true, run + shorter);
      NoNewReader(Exec(true, run + shorter), u);
      assert Exec(true, all) == Step(Exec(true, run + shorter), u).0;
    }
  }
}
