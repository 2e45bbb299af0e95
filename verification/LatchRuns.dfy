/**
  Any schedule, run on the latch object: threads enter calls, sleep at the gates with the node
  they found before they slept, and wake. The object follows the protocol step by step.
*/
module LatchRuns {
  import opened ThreadIds
  import opened LatchProtocol
  import opened LatchNodes
  import opened LatchObject

  class Threads {
    const latch: Latch
    var atX: set<Tid>
    var atS: set<Tid>
    var atShared: set<Tid>
    /** The node a sleeping thread found when it began to wait. */
    var captured: map<Tid, TNode?>

    constructor (px: bool)
      ensures Follows(Init(px)) && fresh(latch) && fresh(latch.lists) && fresh(latch.lists.nodes)
    {
      latch := new Latch(px);
      atX, atS, atShared, captured := {}, {}, {}, map[];
    }

    /** What a thread found before it slept is still its node, however long it slept. */
    ghost predicate Held()
      reads this, latch.lists`table, latch.lists`shares
    {
      forall t :: t in atS || t in atShared ==> t in captured && latch.lists.IsNodeOf(captured[t], t)
    }

    /** The words, the sleepers and what they captured agree with the protocol's state. */
    ghost predicate Follows(s: State)
      reads this, latch, latch.lists, latch.lists.nodes
    {
      && latch.Valid() && latch.View() == s.core
      && atX == s.atX && atS == s.atS && atShared == s.atShared
      && Held()
    }

    /** `t` goes where its atomic stretch left it. */
    method Settle(t: Tid, o: Outcome, n: TNode?)
      requires forall u :: u != t && (u in atS || u in atShared) ==>
        u in captured && latch.lists.IsNodeOf(captured[u], u)
      requires o == AtSGate || o == AtSharedGate ==> latch.lists.IsNodeOf(n, t)
      modifies this
      ensures Held()
      ensures atX == if o == AtXGate then old(atX) + {t} else old(atX) - {t}
      ensures atS == if o == AtSGate then old(atS) + {t} else old(atS) - {t}
      ensures atShared == if o == AtSharedGate then old(atShared) + {t} else old(atShared) - {t}
    {
      atX := if o == AtXGate then atX + {t} else atX - {t};
      atS := if o == AtSGate then atS + {t} else atS - {t};
      atShared := if o == AtSharedGate then atShared + {t} else atShared - {t};
      captured := captured[t := n];
    }

    /** What the calling code sees of a call that ended, or did not. */
    static function Sees(o: Outcome, e: Event): Event {
      if o == Returned then e else Silent
    }

    /** The S calls, by a thread that is awake. */
    method EnterShared(t: Tid, ghost s: State) returns (e: Event)
      requires Follows(s) && !Asleep(s, t)
      modifies this, latch.lists, latch.lists.nodes
      ensures var (s', seen) := Step(s, Turn(t, CallLockShared)); Follows(s') && e == seen
      ensures fresh(latch.lists.nodes - old(latch.lists.nodes))
    {
      hide NodeLists.Valid;
      latch.lists.SameKeys();
      var o, n := latch.LockShared(t);
      latch.lists.SameKeys();
      Settle(t, o, n);
      e := Sees(o, STaken);
    }

    method TryShared(t: Tid, ghost s: State) returns (e: Event)
      requires Follows(s) && !Asleep(s, t)
      modifies this, latch.lists, latch.lists.nodes
      ensures var (s', seen) := Step(s, Turn(t, CallTryLockShared)); Follows(s') && e == seen
      ensures fresh(latch.lists.nodes - old(latch.lists.nodes))
    {
      hide NodeLists.Valid;
      latch.lists.SameKeys();
      var ok := latch.TryLockShared(t);
      latch.lists.SameKeys();
      e := if ok then STaken else Silent;
    }

    /** `unlock_shared` by a thread without S is an assertion failure; here it is passed over. */
    method LeaveShared(t: Tid, ghost s: State) returns (e: Event)
      requires Follows(s) && !Asleep(s, t)
      modifies this, latch, latch.lists, latch.lists.nodes
      ensures var (s', seen) := Step(s, Turn(t, CallUnlockShared)); Follows(s') && e == seen
      ensures fresh(latch.lists.nodes - old(latch.lists.nodes))
    {
      hide NodeLists.Valid;
      latch.lists.SameKeys();
      latch.lists.Positive();
      e := Silent;
      var n := latch.lists.FindNode(t);
      if n != null {
        latch.UnlockShared(t);
        latch.lists.SameKeys();
        e := SDropped;
      }
    }

    /** The X calls, by a thread that is awake. */
    method Enter(t: Tid, ghost s: State) returns (e: Event)
      requires Follows(s) && !Asleep(s, t)
      modifies this, latch
      ensures var (s', seen) := Step(s, Turn(t, CallLock)); Follows(s') && e == seen
    {
      hide NodeLists.Valid;
      var o, n := latch.Lock(t);
      Settle(t, o, n);
      e := Sees(o, XTaken);
    }

    method Leave(t: Tid, ghost s: State) returns (e: Event)
      requires Follows(s) && !Asleep(s, t)
      modifies this, latch
      ensures var (s', seen) := Step(s, Turn(t, CallUnlock)); Follows(s') && e == seen
    {
      hide NodeLists.Valid;
      latch.Unlock(t);
      e := XDropped;
    }

    /** A sleeper wakes at its gate, with the node it captured. */
    method WakeAt(t: Tid, ghost s: State) returns (e: Event)
      requires Follows(s) && Asleep(s, t) && Places(s)
      modifies this, latch, latch.lists, latch.lists.nodes
      ensures var (s', seen) := Step(s, Turn(t, Wake)); Follows(s') && e == seen
      ensures fresh(latch.lists.nodes - old(latch.lists.nodes))
    {
      hide NodeLists.Valid;
      latch.lists.SameKeys();
      var o, n := Returned, null;
      e := XTaken;
      if t in atX {
        o, n := latch.PassXGate(t);
      } else {
        n := captured[t];
        if t in atS {
          o := latch.PassSGate(t, n);
        } else {
          o := latch.PassSharedGate(t, n);
          latch.lists.SameKeys();
          e := STaken;
        }
      }
      Settle(t, o, n);
      e := Sees(o, e);
    }

    method Take(u: Turn, ghost s: State) returns (e: Event)
      requires Follows(s) && Places(s)
      modifies this, latch, latch.lists, latch.lists.nodes
      ensures var (s', seen) := Step(s, u); Follows(s') && e == seen
      ensures fresh(latch.lists.nodes - old(latch.lists.nodes))
    {
      hide NodeLists.Valid, Held, Places, Next;
      var t := u.thread;
      e := Silent;
      var asleep := t in atX || t in atS || t in atShared;
      if u.call.Wake? != asleep {
        return;
      }
      match u.call
      case CallLock => e := Enter(t, s);
      case CallUnlock => e := Leave(t, s);
      case CallLockShared => e := EnterShared(t, s);
      case CallUnlockShared => e := LeaveShared(t, s);
      case CallTryLockShared => e := TryShared(t, s);
      case Wake => e := WakeAt(t, s);
    }

    /**
      Any schedule of any number of threads on the heap is the protocol's run of that schedule, and
      the callers see what the protocol says they see: what is proved of the log holds of them.
    */
    method Run(px: bool, schedule: seq<Turn>) returns (log: seq<Seen>)
      requires Follows(Init(px))
      modifies this, latch, latch.lists, latch.lists.nodes
      ensures Follows(Exec(px, schedule)) && log == Log(px, schedule)
    {
      hide Follows, Step, Places;
      ghost var s := Init(px);
      log := [];
      for i := 0 to |schedule|
        invariant s == Exec(px, schedule[..i]) && Follows(s) && log == Log(px, schedule[..i])
        invariant fresh(latch.lists.nodes - old(latch.lists.nodes))
      {
        ghost var before := schedule[..i + 1];
        assert before[..i] == schedule[..i] && before[i] == schedule[i];
        ReachablePlaces(px, schedule[..i]);
        var e := Take(schedule[i], s);
        s := Step(s, schedule[i]).0;
        log := log + [Seen(schedule[i].thread, e)];
      }
      assert schedule[..|schedule|] == schedule;
    }

    static lemma ReachablePlaces(px: bool, schedule: seq<Turn>)
      ensures Places(Exec(px, schedule))
    {
      ReachableInv(px, schedule);
    }
  }
}
