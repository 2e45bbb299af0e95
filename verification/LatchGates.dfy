/**
  What each call of the latch does, in the callers' terms: who holds X or S by the returned calls, and
  who sleeps at which gate. The words of the latch do not occur.
*/
module LatchGates {
  import opened ThreadIds
  import opened LatchProtocol

  // ---------------------------------------------------------------- one step, by the words

  lemma LockAt(s: State, t: Tid)
    requires Words(s.core) && Places(s) && !Asleep(s, t)
    ensures
      var (s', e) := Step(s, Turn(t, CallLock));
      && s'.atShared == s.atShared
      && if s.core.owner == Thread(t) then e == XTaken && s'.atX == s.atX && s'.atS == s.atS
         else if s.core.flag == X_STEP_0 || s.core.flag == X_STEP_2 then
           && s'.atX == s.atX
           && if s.core.holds.Keys <= {t} then e == XTaken && s'.atS == {} else e == Silent && s'.atS == {t}
         else e == Silent && s'.atX == s.atX + {t} && s'.atS == s.atS
  {
  }

  lemma WakeAtSAt(s: State, t: Tid)
    requires Words(s.core) && Places(s) && t in s.atS
    ensures
      var (s', e) := Step(s, Turn(t, Wake));
      && s'.atX == s.atX && s'.atShared == s.atShared
      && if s.core.holds.Keys <= {t} then e == XTaken && s'.atS == {} else e == Silent && s' == s
  {
    assert s.atS == {t};
  }

  lemma WakeAtXAt(s: State, t: Tid)
    requires Words(s.core) && Places(s) && t in s.atX
    ensures
      var (s', e) := Step(s, Turn(t, Wake));
      && s'.atShared == s.atShared
      && if s.core.flag == X_STEP_0 || s.core.flag == X_STEP_2 then
           && s'.atX == s.atX - {t}
           && if s.core.holds.Keys <= {t} then e == XTaken && s'.atS == {} else e == Silent && s'.atS == {t}
         else e == Silent && s' == s
  {
    if s.core.flag != X_STEP_0 && s.core.flag != X_STEP_2 {
      assert s.atX + {t} == s.atX;
    }
  }

  lemma LockSharedAt(s: State, t: Tid)
    requires Words(s.core) && Places(s) && !Asleep(s, t)
    ensures
      var (s', e) := Step(s, Turn(t, CallLockShared));
      && s'.atX == s.atX && s'.atS == s.atS
      && if s.core.owner == Thread(t) || Admits(s.core, t) then e == STaken && s'.atShared == s.atShared
         else e == Silent && s'.atShared == s.atShared + {t}
  {
  }

  lemma WakeAtSharedAt(s: State, t: Tid)
    requires Words(s.core) && Places(s) && t in s.atShared
    ensures
      var (s', e) := Step(s, Turn(t, Wake));
      && s'.atX == s.atX && s'.atS == s.atS
      && if Admits(s.core, t) then e == STaken && s'.atShared == s.atShared - {t} else e == Silent && s' == s
  {
    if !Admits(s.core, t) {
      assert s.atShared + {t} == s.atShared;
    }
  }

  // ---------------------------------------------------------------- the law of waking

  /**
    Whoever can move does when it wakes: it leaves its gate, from the S gate with X and from the shared gate
    with S. Whoever cannot stays asleep, and nothing changes.
  */
  lemma WakeMoves(s: State, t: Tid)
    requires Inv(s) && Asleep(s, t)
    ensures
      var (s', e) := Step(s, Turn(t, Wake));
      if CanMove(s, t) then
        && (t in s.atX ==> t !in s'.atX && (e == XTaken || t in s'.atS))
        && (t in s.atS ==> t !in s'.atS && e == XTaken)
        && (t in s.atShared ==> t !in s'.atShared && e == STaken)
      else s' == s && e == Silent
  {
    hide Step;
    if t in s.atX {
      WakeAtXAt(s, t);
    } else if t in s.atS {
      WakeAtSAt(s, t);
    } else {
      WakeAtSharedAt(s, t);
    }
  }

  // ---------------------------------------------------------------- a pending writer waits for somebody

  /** As long as a writer is pending and X was not handed over, there are readers. */
  predicate Awaited(s: State) {
    s.core.flag == X_STEP_1 ==> s.core.holds.Keys != {}
  }

  lemma StepKeepsAwaited(s: State, u: Turn)
    requires Inv(s) && Awaited(s)
    ensures Awaited(Step(s, u).0)
  {
    var s' := Step(s, u).0;
    if s'.core.flag == X_STEP_1 && u.call != CallUnlockShared {
      if s'.core.holds == s.core.holds {
        if s.core.flag != X_STEP_1 {
          assert !(s.core.holds.Keys <= {u.thread});
        }
      } else {
        assert u.thread in s'.core.holds.Keys;
      }
    }
  }

  lemma {:induction false} ReachableAwaited(px: bool, schedule: seq<Turn>)
    ensures Awaited(Exec(px, schedule))
  {
    if schedule != [] {
      var before, u := schedule[..|schedule| - 1], schedule[|schedule| - 1];
      ReachableAwaited(px, before);
      ReachableInv(px, before);
      StepKeepsAwaited(Exec(px, before), u);
      assert Exec(px, schedule) == Step(Exec(px, before), u).0;
    }
  }

  // ---------------------------------------------------------------- the callers' terms

  ghost predicate NobodyElseReads(log: seq<Seen>, t: Tid) {
    forall u :: u != t ==> SDepth(log, u) == 0
  }

  ghost predicate SomebodyReads(log: seq<Seen>) {
    exists u :: SDepth(log, u) > 0
  }

  /** What the words say about holders and sleepers, for a reachable state. */
  ghost predicate Decodes(s: State, log: seq<Seen>) {
    && (XIsFree(log) <==> s.core.owner == NoThread)
    && (forall t :: XDepth(log, t) > 0 <==> s.core.owner == Thread(t))
    && (forall t :: SDepth(log, t) > 0 <==> t in s.core.holds) && (forall t :: SDepth(log, t) >= 0)
  }

  lemma Decoded(px: bool, schedule: seq<Turn>)
    ensures Decodes(Exec(px, schedule), Log(px, schedule)) && Inv(Exec(px, schedule))
    ensures Exec(px, schedule).core.px == px
  {
    ReachableInv(px, schedule);
    XIsFreeExactly(px, schedule);
    forall t
      ensures XDepth(Log(px, schedule), t) == XHeld(Exec(px, schedule).core, t)
      ensures SDepth(Log(px, schedule), t) == CountOf(Exec(px, schedule).core.holds, t)
    {
      ClientView(px, schedule, t);
    }
  }

  lemma ReadersDecoded(s: State, log: seq<Seen>, t: Tid)
    requires Decodes(s, log)
    ensures NobodyElseReads(log, t) <==> s.core.holds.Keys <= {t}
    ensures SomebodyReads(log) <==> s.core.holds.Keys != {}
  {
    if NobodyElseReads(log, t) {
      forall u | u in s.core.holds.Keys ensures u == t {
        assert SDepth(log, u) > 0;
      }
    }
    if s.core.holds.Keys <= {t} {
      forall u | u != t ensures SDepth(log, u) == 0 {
        assert u !in s.core.holds.Keys;
      }
    }
    if s.core.holds.Keys != {} {
      var u :| u in s.core.holds.Keys;
      assert SDepth(log, u) > 0;
    }
  }

  /** Nobody has X or is about to, so that the X gate is open. */
  ghost predicate XGateOpen(log: seq<Seen>, s: State) {
    XIsFree(log) && s.atS == {}
  }

  lemma XGateDecoded(s: State, log: seq<Seen>)
    requires Decodes(s, log) && Inv(s)
    ensures XGateOpen(log, s) <==> s.core.flag == X_STEP_0 || s.core.flag == X_STEP_2
    ensures XGateOpen(log, s) && s.atX == {} <==> s.core.flag == X_STEP_0
  {
    if s.core.flag == X_STEP_0 {
      assert s.atX == {};
    }
    if s.core.flag == X_STEP_2 {
      assert s.atX != {};
    }
  }

  /** The thread passes the X gate, or not: with X, or pending behind the readers, or asleep at the gate. */
  ghost predicate AsksForX(s: State, log: seq<Seen>, t: Tid, s': State, e: Event) {
    && s'.atShared == s.atShared
    && if XGateOpen(log, s) then
         && s'.atX == s.atX - {t}
         && if NobodyElseReads(log, t) then e == XTaken && s'.atS == {} else e == Silent && s'.atS == {t}
       else e == Silent && s'.atX == s.atX + {t} && s'.atS == s.atS
  }

  // ---------------------------------------------------------------- lock and unlock

  /**
    `lock`: at once for the holder of X. For anybody else at once exactly if nobody holds X or is
    pending, and nobody else holds S; if only others' S is in the way it is pending, else it queues.
  */
  lemma LockExactly(px: bool, schedule: seq<Turn>, t: Tid)
    requires !Asleep(Exec(px, schedule), t)
    ensures
      var s, log := Exec(px, schedule), Log(px, schedule);
      var (s', e) := Step(s, Turn(t, CallLock));
      if XDepth(log, t) > 0 then e == XTaken && s'.atX == s.atX && s'.atS == s.atS && s'.atShared == s.atShared
      else AsksForX(s, log, t, s', e)
  {
    var s, log := Exec(px, schedule), Log(px, schedule);
    Decoded(px, schedule);
    ReadersDecoded(s, log, t);
    XGateDecoded(s, log);
    LockAt(s, t);
    hide Step, Exec, Log, NobodyElseReads, XIsFree, XGateOpen;
    assert s.atX - {t} == s.atX;
  }

  /** Woken at the X gate: the same test as on the way in. */
  lemma WakeAtXExactly(px: bool, schedule: seq<Turn>, t: Tid)
    requires t in Exec(px, schedule).atX
    ensures
      var s := Exec(px, schedule);
      var (s', e) := Step(s, Turn(t, Wake));
      AsksForX(s, Log(px, schedule), t, s', e)
  {
    var s, log := Exec(px, schedule), Log(px, schedule);
    Decoded(px, schedule);
    ReadersDecoded(s, log, t);
    XGateDecoded(s, log);
    WakeAtXAt(s, t);
    hide Step, Exec, Log, NobodyElseReads, XIsFree, XGateOpen;
    assert s.atX + {t} == s.atX;
  }

  /** Woken at the S gate: X exactly when nobody else holds S. */
  lemma WakeAtSExactly(px: bool, schedule: seq<Turn>, t: Tid)
    requires t in Exec(px, schedule).atS
    ensures
      var s := Exec(px, schedule);
      var (s', e) := Step(s, Turn(t, Wake));
      && s'.atX == s.atX && s'.atShared == s.atShared
      && if NobodyElseReads(Log(px, schedule), t) then e == XTaken && s'.atS == {} else e == Silent && s' == s
  {
    var s, log := Exec(px, schedule), Log(px, schedule);
    Decoded(px, schedule);
    ReadersDecoded(s, log, t);
    WakeAtSAt(s, t);
    hide Step, Exec, Log, NobodyElseReads, XIsFree;
  }

  /** `unlock` gives back one X of its holder, and wakes or moves nobody by itself. */
  lemma UnlockExactly(px: bool, schedule: seq<Turn>, t: Tid)
    requires !Asleep(Exec(px, schedule), t)
    ensures
      var s, log := Exec(px, schedule), Log(px, schedule);
      var (s', e) := Step(s, Turn(t, CallUnlock));
      && e == XDropped && s'.atX == s.atX && s'.atS == s.atS && s'.atShared == s.atShared
      && XDepth(log + [Seen(t, e)], t) == if XDepth(log, t) > 0 then XDepth(log, t) - 1 else 0
  {
    var log := Log(px, schedule);
    var log' := log + [Seen(t, XDropped)];
    assert log'[..|log'| - 1] == log;
  }

  // ---------------------------------------------------------------- lock_shared and its kin

  /**
    When the shared gate lets a thread in that does not hold X. With X precedence: nobody has X or asks for it,
    or it holds S already and a writer is pending. Without: nobody has X or asks for it, or a writer is
    pending behind readers.
  */
  ghost predicate SharedGateOpen(px: bool, s: State, log: seq<Seen>, t: Tid) {
    && XIsFree(log)
    && if s.atS == {} then s.atX == {}
       else if px then SDepth(log, t) > 0
       else SomebodyReads(log)
  }

  lemma SharedGateDecoded(px: bool, schedule: seq<Turn>, t: Tid)
    ensures
      var s := Exec(px, schedule);
      SharedGateOpen(px, s, Log(px, schedule), t) <==> Admits(s.core, t)
  {
    var s, log := Exec(px, schedule), Log(px, schedule);
    Decoded(px, schedule);
    ReadersDecoded(s, log, t);
    XGateDecoded(s, log);
    ReachableAwaited(px, schedule);
  }

  lemma LockSharedExactly(px: bool, schedule: seq<Turn>, t: Tid)
    requires !Asleep(Exec(px, schedule), t)
    ensures
      var s, log := Exec(px, schedule), Log(px, schedule);
      var (s', e) := Step(s, Turn(t, CallLockShared));
      && s'.atX == s.atX && s'.atS == s.atS
      && if XDepth(log, t) > 0 || SharedGateOpen(px, s, log, t) then e == STaken && s'.atShared == s.atShared
         else e == Silent && s'.atShared == s.atShared + {t}
  {
    Decoded(px, schedule);
    SharedGateDecoded(px, schedule, t);
    LockSharedAt(Exec(px, schedule), t);
    hide Step, Exec, Log, SharedGateOpen, Admits;
  }

  lemma WakeAtSharedExactly(px: bool, schedule: seq<Turn>, t: Tid)
    requires t in Exec(px, schedule).atShared
    ensures
      var s := Exec(px, schedule);
      var (s', e) := Step(s, Turn(t, Wake));
      && s'.atX == s.atX && s'.atS == s.atS
      && if SharedGateOpen(px, s, Log(px, schedule), t) then e == STaken && s'.atShared == s.atShared - {t}
         else e == Silent && s' == s
  {
    Decoded(px, schedule);
    SharedGateDecoded(px, schedule, t);
    WakeAtSharedAt(Exec(px, schedule), t);
    hide Step, Exec, Log, SharedGateOpen, Admits;
  }

  /** `try_lock_shared` never waits; it succeeds exactly when X is neither owned nor asked for, or the caller's own. */
  lemma TrySharedExactly(px: bool, schedule: seq<Turn>, t: Tid)
    requires !Asleep(Exec(px, schedule), t)
    ensures
      var s, log := Exec(px, schedule), Log(px, schedule);
      var (s', e) := Step(s, Turn(t, CallTryLockShared));
      && s'.atX == s.atX && s'.atS == s.atS && s'.atShared == s.atShared
      && e == if XDepth(log, t) > 0 || (XIsFree(log) && s.atX == {} && s.atS == {}) then STaken else Silent
  {
    Decoded(px, schedule);
    XGateDecoded(Exec(px, schedule), Log(px, schedule));
  }

  /** `unlock_shared` of a holder gives back one S, and moves nobody by itself. */
  lemma UnlockSharedExactly(px: bool, schedule: seq<Turn>, t: Tid)
    requires !Asleep(Exec(px, schedule), t) && SDepth(Log(px, schedule), t) > 0
    ensures
      var s := Exec(px, schedule);
      var (s', e) := Step(s, Turn(t, CallUnlockShared));
      e == SDropped && s'.atX == s.atX && s'.atS == s.atS && s'.atShared == s.atShared
  {
    Decoded(px, schedule);
  }
}
