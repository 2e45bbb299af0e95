/**
  The heap nodes of the latch: a busy doubly linked list of per-thread S counters and a
  free list the nodes are recycled through. Between calls they are a map from thread to a
  positive count.
*/
module LatchNodes {
  import opened ThreadIds
  import opened LatchProtocol

  class TNode {
    var prev: TNode?
    var next: TNode?
    var id: Tid
    var count: int

    constructor ()
    {
      prev, next, id, count := null, null, 0, 0;
    }
  }

  /** The `i`-th node, or null past either end. */
  ghost function At(list: seq<TNode>, i: int): TNode? {
    if 0 <= i < |list| then list[i] else null
  }

  /** `list` is what following `next` from `head` visits. */
  ghost predicate Linked(list: seq<TNode>, head: TNode?)
    reads list`next
  {
    && head == At(list, 0)
    && forall i {:trigger list[i].next} :: 0 <= i < |list| ==> list[i].next == At(list, i + 1)
  }

  /** Following `prev` visits `list` backwards. */
  ghost predicate LinkedBack(list: seq<TNode>)
    reads list`prev
  {
    forall i {:trigger list[i].prev} :: 0 <= i < |list| ==> list[i].prev == At(list, i - 1)
  }

  ghost predicate Distinct(list: seq<TNode>) {
    forall i, j :: 0 <= i < j < |list| ==> list[i] != list[j]
  }

  /** `list` without its `k`-th element. */
  ghost function Without(list: seq<TNode>, k: nat): (r: seq<TNode>)
    requires k < |list|
    ensures |r| == |list| - 1
    ensures forall i :: 0 <= i < |r| ==> r[i] == list[if i < k then i else i + 1]
  {
    list[..k] + list[k + 1..]
  }

  lemma WithoutMembers(list: seq<TNode>, k: nat)
    requires k < |list| && Distinct(list)
    ensures Distinct(Without(list, k))
    ensures forall n :: n in Without(list, k) <==> n in list && n != list[k]
  {
    var r := Without(list, k);
    forall n | n in list && n != list[k] ensures n in r {
      var i :| 0 <= i < |list| && list[i] == n;
      assert r[if i < k then i else i - 1] == n;
    }
  }

  /** Joining the neighbours of the `k`-th node over it leaves the list of the others. */
  lemma Joined(list: seq<TNode>, k: nat, head: TNode?)
    requires k < |list| && Distinct(list)
    requires head == At(list, if k == 0 then 1 else 0)
    requires forall i {:trigger list[i].next} :: 0 <= i < |list| && i != k ==>
      list[i].next == At(list, if i == k - 1 then i + 2 else i + 1)
    requires forall i {:trigger list[i].prev} :: 0 <= i < |list| && i != k ==>
      list[i].prev == At(list, if i == k + 1 then i - 2 else i - 1)
    ensures Linked(Without(list, k), head) && LinkedBack(Without(list, k))
  {
    var r := Without(list, k);
    forall i | 0 <= i < |r|
      ensures r[i].next == At(r, i + 1)
      ensures r[i].prev == At(r, i - 1)
    {
      var j := if i < k then i else i + 1;
      assert r[i] == list[j] && j != k;
      assert list[j].next == At(list, if j == k - 1 then j + 2 else j + 1);
      assert list[j].prev == At(list, if j == k + 1 then j - 2 else j - 1);
      if i + 1 < |r| {
        assert r[i + 1] == list[if i + 1 < k then i + 1 else i + 2];
      }
      if i > 0 {
        assert r[i - 1] == list[if i - 1 < k then i - 1 else i];
      }
    }
  }

  /** `table` gives the one node of each thread in `list`, and `shares` its count. */
  ghost predicate Counts(list: seq<TNode>, table: map<Tid, TNode>, shares: map<Tid, nat>)
    reads list`id, list`count
  {
    && (forall n :: n in list ==> n.id in table && table[n.id] == n)
    && (forall t :: t in table ==> table[t] in list && table[t].id == t)
    && shares.Keys == table.Keys
    && (forall t :: t in table ==> shares[t] == table[t].count)
  }

  class NodeLists {
    var sFreed: TNode?
    var sNodes: TNode?

    ghost var busy: seq<TNode>
    ghost var free: seq<TNode>
    /** Every node ever created. */
    ghost var nodes: set<TNode>
    /** The busy list as maps from thread to node and to count. */
    ghost var table: map<Tid, TNode>
    ghost var shares: map<Tid, nat>

    /** Both lists are well formed and, with the nodes in `out`, share the created nodes. */
    ghost predicate LinkedBut(out: set<TNode>)
      reads this`sNodes, this`sFreed, this`busy, this`free, this`nodes, nodes`prev, nodes`next
    {
      && (set n | n in busy) <= nodes && (set n | n in free) <= nodes && out <= nodes
      && (forall n :: n in nodes ==> n in busy || n in free || n in out)
      && (forall n :: n in busy ==> n !in free && n !in out)
      && (forall n :: n in free ==> n !in out)
      && Distinct(busy) && Distinct(free)
      && Linked(busy, sNodes) && LinkedBack(busy) && Linked(free, sFreed)
    }

    ghost predicate WellLinked()
      reads this`sNodes, this`sFreed, this`busy, this`free, this`nodes, nodes`prev, nodes`next
    {
      LinkedBut({}) && forall n :: n in busy ==> n in nodes
    }

    ghost predicate Valid()
      reads this`sNodes, this`sFreed, this`busy, this`free, this`nodes, this`table, this`shares, nodes
    {
      WellLinked() && Counts(busy, table, shares) && forall t :: t in shares ==> shares[t] > 0
    }

    /** The node of thread `t`, as `find_node` captures it at the start of a call. */
    ghost predicate IsNodeOf(n: TNode?, t: Tid)
      reads this`table, this`shares
    {
      if n == null then t !in table && t !in shares else t in table && t in shares && table[t] == n
    }

    lemma SameKeys()
      requires Valid()
      ensures table.Keys == shares.Keys
    {
    }

    lemma Positive()
      requires Valid()
      ensures forall t :: t in shares ==> shares[t] > 0
    {
    }

    /** Every other thread keeps its node, or stays without one: what it captured before it slept is still true. */
    twostate predicate KeepsOthers(t: Tid)
      reads this`table
    {
      forall u :: u != t ==> (u in table <==> u in old(table)) && (u in table ==> table[u] == old(table)[u])
    }

    constructor ()
      ensures Valid() && fresh(nodes) && shares == map[] && |free| == 2
    {
      sFreed, sNodes := null, null;
      busy, free, nodes, table, shares := [], [], {}, map[], map[];
      new;
      Preallocate();
    }

    /** Puts two nodes on the free list of a new latch. */
    method Preallocate()
      requires WellLinked() && busy == [] && free == [] && nodes == {}
      modifies this`sNodes, this`sFreed, this`busy, this`free, this`nodes
      ensures WellLinked() && fresh(nodes) && busy == [] && |free| == 2
    {
      var n1 := NewNode(0);
      assert busy == [n1];
      var n2 := NewNode(0);
      assert busy == [n2, n1];
      FreeNode(n1, 1);
      assert busy == [n2];
      FreeNode(n2, 0);
      assert busy == [];
    }

    method FindNode(t: Tid) returns (p: TNode?)
      requires Valid()
      ensures IsNodeOf(p, t)
      ensures p != null ==> p in busy && p in nodes && p.id == t && p.count == shares[t]
    {
      p := sNodes;
      ghost var i := 0;
      while p != null && p.id != t
        invariant 0 <= i <= |busy|
        invariant p == At(busy, i)
        invariant forall j :: 0 <= j < i ==> busy[j].id != t
        decreases |busy| - i
      {
        p := p.next;
        i := i + 1;
      }
    }

    /** The front of the free list, or a node made for the purpose. */
    method TakeNode() returns (p: TNode)
      requires WellLinked()
      modifies this`sFreed, this`free, this`nodes
      ensures LinkedBut({p}) && fresh(nodes - old(nodes)) && old(nodes) <= nodes
      ensures free == if old(free) == [] then [] else old(free)[1..]
    {
      if sFreed == null {
        p := new TNode();
        nodes := nodes + {p};
      } else {
        p := sFreed;
        sFreed := p.next;
        free := free[1..];
      }
    }

    method NewNode(t: Tid) returns (p: TNode)
      requires WellLinked()
      modifies this`sNodes, this`sFreed, this`busy, this`free, this`nodes, nodes
      ensures WellLinked() && fresh(nodes - old(nodes)) && old(nodes) <= nodes
      ensures busy == [p] + old(busy) && p !in old(busy)
      ensures free == if old(free) == [] then [] else old(free)[1..]
      ensures p.id == t && p.count == 0
      ensures forall n :: n in old(busy) ==> n.id == old(n.id) && n.count == old(n.count)
    {
      p := TakeNode();
      p.id := t;
      p.count := 0;
      PushBusy(p);
    }

    method PushBusy(p: TNode)
      requires LinkedBut({p})
      modifies this`sNodes, this`busy, nodes`prev, nodes`next
      ensures WellLinked()
      ensures busy == [p] + old(busy) && p !in old(busy)
    {
      p.prev := null;
      p.next := sNodes;
      if sNodes != null {
        sNodes.prev := p;
      }
      sNodes := p;
      busy := [p] + busy;
    }

    /** The neighbours of `n` are joined over it. */
    method Bypass(n: TNode, ghost k: nat)
      requires WellLinked()
      requires k < |busy| && busy[k] == n
      modifies this`sNodes, (set m | m in busy)`prev, (set m | m in busy)`next
      ensures sNodes == At(busy, if k == 0 then 1 else 0)
      ensures forall i {:trigger busy[i].next} :: 0 <= i < |busy| && i != k ==>
        busy[i].next == At(busy, if i == k - 1 then i + 2 else i + 1)
      ensures forall i {:trigger busy[i].prev} :: 0 <= i < |busy| && i != k ==>
        busy[i].prev == At(busy, if i == k + 1 then i - 2 else i - 1)
    {
      assert n.next == At(busy, k + 1) && n.prev == At(busy, k - 1);
      if n == sNodes {
        sNodes := n.next;
      } else {
        n.prev.next := n.next;
      }
      if n.next != null {
        n.next.prev := n.prev;
      }
    }

    /** `n` leaves the busy list. */
    method Unlink(n: TNode, ghost k: nat)
      requires WellLinked()
      requires k < |busy| && busy[k] == n
      modifies this`sNodes, this`busy, (set m | m in busy)`prev, (set m | m in busy)`next
      ensures LinkedBut({n})
      ensures busy == Without(old(busy), k)
    {
      Bypass(n, k);
      WithoutMembers(busy, k);
      Joined(busy, k, sNodes);
      busy := Without(busy, k);
    }

    method FreeNode(n: TNode, ghost k: nat)
      requires WellLinked()
      requires k < |busy| && busy[k] == n
      modifies this`sNodes, this`sFreed, this`busy, this`free, nodes`prev, nodes`next
      ensures WellLinked()
      ensures busy == Without(old(busy), k)
      ensures free == [n] + old(free)
      ensures forall m :: m in busy <==> m in old(busy) && m != n
    {
      WithoutMembers(busy, k);
      Unlink(n, k);
      PushFree(n);
    }

    method PushFree(n: TNode)
      requires LinkedBut({n})
      modifies this`sFreed, this`free, nodes`prev, nodes`next
      ensures WellLinked()
      ensures free == [n] + old(free)
    {
      if sFreed != null {
        sFreed.prev := n;
      }
      n.next := sFreed;
      n.prev := null;
      sFreed := n;
      free := [n] + free;
    }

    // -------------------------------------------------------------- what the latch calls ask

    /** The test that ends the wait for readers: nobody holds S, or only the owner of `n`. */
    method Alone(t: Tid, n: TNode?) returns (b: bool)
      requires Valid() && IsNodeOf(n, t)
      ensures b <==> shares.Keys <= {t}
    {
      b := sNodes == null || (sNodes == n && sNodes.next == null);
      if b {
        assert busy == [] || busy == [n];
      } else {
        assert busy[0].id in shares.Keys;
        if sNodes == n {
          assert busy[1].id in shares.Keys && busy[1].id != t;
        }
      }
    }

    method Empty() returns (b: bool)
      requires WellLinked() && Counts(busy, table, shares)
      ensures b <==> shares.Keys == {}
    {
      b := sNodes == null;
      assert busy != [] ==> busy[0].id in shares;
    }

    /** Counts one more S lock for `t`, with a node from the free list if it had none. */
    method Count(t: Tid, n: TNode?)
      requires Valid() && IsNodeOf(n, t)
      modifies this, nodes
      ensures Valid() && fresh(nodes - old(nodes)) && old(nodes) <= nodes
      ensures shares == old(shares)[t := CountOf(old(shares), t) + 1] && KeepsOthers(t)
    {
      hide LinkedBut;
      var p := n;
      if n == null {
        p := Register(t);
      }
      Increment(p);
    }

    /** A node for a thread that had none, with nothing counted yet. */
    method Register(t: Tid) returns (p: TNode)
      requires WellLinked() && Counts(busy, table, shares) && t !in table
      modifies this, nodes
      ensures WellLinked() && Counts(busy, table, shares) && fresh(nodes - old(nodes)) && old(nodes) <= nodes
      ensures p in busy && p.id == t && shares == old(shares)[t := 0] && KeepsOthers(t)
    {
      hide LinkedBut;
      p := NewNode(t);
      table, shares := table[t := p], shares[t := 0];
    }

    method Increment(n: TNode)
      requires WellLinked() && Counts(busy, table, shares) && n in busy && n in nodes
      modifies this`shares, n`count
      ensures WellLinked() && Counts(busy, table, shares)
      ensures shares == old(shares)[n.id := old(shares)[n.id] + 1]
    {
      hide LinkedBut;
      n.count := n.count + 1;
      shares := shares[n.id := shares[n.id] + 1];
    }

    /** The last S lock of `t` is gone: its node goes back to the free list. */
    method DropNode(t: Tid, n: TNode)
      requires WellLinked() && Counts(busy, table, shares) && n in busy && n.id == t
      modifies this`sNodes, this`sFreed, this`busy, this`free, this`table, this`shares, nodes
      ensures WellLinked() && Counts(busy, table, shares) && shares == old(shares) - {t} && KeepsOthers(t)
    {
      hide LinkedBut;
      ghost var k :| 0 <= k < |busy| && busy[k] == n;
      FreeNode(n, k);
      table, shares := table - {t}, shares - {t};
    }

    method Decrement(n: TNode)
      requires WellLinked() && Counts(busy, table, shares) && n in busy && n in nodes && n.count > 0
      requires n.id in shares
      modifies this`shares, n`count
      ensures WellLinked() && Counts(busy, table, shares)
      ensures shares == old(shares)[n.id := old(shares)[n.id] - 1]
      ensures n.count == shares[n.id]
    {
      hide LinkedBut;
      n.count := n.count - 1;
      shares := shares[n.id := shares[n.id] - 1];
    }

    /** Counts one S lock less for `t`; tells whether it was the last of `t`, and of all. */
    method Release(t: Tid) returns (last: bool, none: bool)
      requires Valid() && t in shares
      modifies this, nodes
      ensures Valid() && nodes == old(nodes)
      ensures last <==> old(shares)[t] == 1
      ensures shares == if last then old(shares) - {t} else old(shares)[t := old(shares)[t] - 1]
      ensures none <==> shares.Keys == {}
      ensures KeepsOthers(t)
    {
      hide LinkedBut;
      hide Counts;
      var n := FindNode(t);
      Decrement(n);
      last := n.count == 0;
      if last {
        DropNode(t, n);
      }
      none := Empty();
    }
  }
}

/**
  The latch object. Each method is one atomic stretch of the source and is proved to be the
  step of the same name of `LatchProtocol`.
*/
module LatchObject {
  import opened ThreadIds
  import opened LatchProtocol
  import opened LatchNodes

  class Latch {
    var xOwner: Owner
    var xWait: int
    var xFlag: int
    const px: bool
    const lists: NodeLists

    ghost predicate Valid()
      reads lists, lists.nodes
    {
      lists.Valid()
    }

    ghost function View(): Core
      reads this, lists
    {
      Core(xFlag, xWait, xOwner, px, lists.shares)
    }

    constructor (px: bool)
      ensures Valid() && fresh(lists) && fresh(lists.nodes)
      ensures View() == Init(px).core
    {
      xOwner, xWait, xFlag := NoThread, 0, X_STEP_0;
      this.px := px;
      lists := new NodeLists();
    }

    /** X = 1: the test of the S loop. `n` is the caller's node, found when X became pending. */
    method AwaitReaders(t: Tid, n: TNode?) returns (r: Outcome)
      requires Valid() && lists.IsNodeOf(n, t)
      modifies this
      ensures (View(), r) == LatchProtocol.AwaitReaders(old(View()), t)
    {
      var alone := lists.Alone(t, n);
      if alone {
        xFlag := X_STEP_3;
        xOwner := Thread(t);
        r := Returned;
      } else {
        r := AtSGate;
      }
    }

    /** The X gate loop body, with the request counted in `xWait`. */
    method PassXGate(t: Tid) returns (r: Outcome, n: TNode?)
      requires Valid()
      modifies this
      ensures (View(), r) == LatchProtocol.PassXGate(old(View()), t)
      ensures r == AtSGate ==> lists.IsNodeOf(n, t)
    {
      hide NodeLists.Valid;
      n := null;
      if xFlag == X_STEP_0 || xFlag == X_STEP_2 {
        xFlag := X_STEP_1;
        xWait := xWait - 1;
        n := lists.FindNode(t);
        r := AwaitReaders(t, n);
      } else {
        r := AtXGate;
      }
    }

    method Lock(t: Tid) returns (r: Outcome, n: TNode?)
      requires Valid()
      modifies this
      ensures (View(), r) == LatchProtocol.Lock(old(View()), t)
      ensures r == AtSGate ==> lists.IsNodeOf(n, t)
    {
      if xOwner != Thread(t) {
        xWait := xWait + 1;
        r, n := PassXGate(t);
      } else {
        xFlag := xFlag + 1;
        r, n := Returned, null;
      }
    }

    /** Woken at the S gate. */
    method PassSGate(t: Tid, n: TNode?) returns (r: Outcome)
      requires Valid() && lists.IsNodeOf(n, t)
      modifies this
      ensures (View(), r) == LatchProtocol.PassSGate(old(View()), t)
    {
      if xFlag == X_STEP_3 {
        xOwner := Thread(t);
        r := Returned;
      } else {
        r := AwaitReaders(t, n);
      }
    }

    method Unlock(t: Tid)
      requires Valid()
      modifies this
      ensures View() == LatchProtocol.Unlock(old(View()), t)
    {
      if xOwner == Thread(t) {
        xFlag := xFlag - 1;
        if xFlag == X_STEP_2 {
          xOwner := NoThread;
          if xWait == 0 {
            xFlag := X_STEP_0;
          }
        }
      }
    }

    method PassSharedGate(t: Tid, n: TNode?) returns (r: Outcome)
      requires Valid() && lists.IsNodeOf(n, t)
      modifies lists, lists.nodes
      ensures Valid() && fresh(lists.nodes - old(lists.nodes)) && lists.KeepsOthers(t)
      ensures (View(), r) == LatchProtocol.PassSharedGate(old(View()), t)
      ensures r == AtSharedGate ==> lists.IsNodeOf(n, t)
    {
      hide NodeLists.Valid;
      var admitted := if px then xFlag == X_STEP_0 || (xFlag == X_STEP_1 && n != null) else xFlag < X_STEP_2;
      if admitted {
        lists.Count(t, n);
        r := Returned;
      } else {
        r := AtSharedGate;
      }
    }

    method LockShared(t: Tid) returns (r: Outcome, n: TNode?)
      requires Valid()
      modifies lists, lists.nodes
      ensures Valid() && fresh(lists.nodes - old(lists.nodes)) && lists.KeepsOthers(t)
      ensures (View(), r) == LatchProtocol.LockShared(old(View()), t)
      ensures r == AtSharedGate ==> lists.IsNodeOf(n, t)
    {
      hide NodeLists.Valid;
      n := lists.FindNode(t);
      if xOwner != Thread(t) {
        r := PassSharedGate(t, n);
      } else {
        lists.Count(t, n);
        r := Returned;
      }
    }

    method UnlockShared(t: Tid)
      requires Valid() && t in lists.shares
      modifies this, lists, lists.nodes
      ensures Valid() && lists.nodes == old(lists.nodes) && lists.KeepsOthers(t)
      ensures View() == LatchProtocol.UnlockShared(old(View()), t)
    {
      hide NodeLists.Valid;
      var last, none := lists.Release(t);
      if last && xFlag == X_STEP_1 && xOwner != Thread(t) && none {
        xFlag := X_STEP_3;
      }
    }

    method TryLockShared(t: Tid) returns (ok: bool)
      requires Valid()
      modifies lists, lists.nodes
      ensures Valid() && fresh(lists.nodes - old(lists.nodes)) && lists.KeepsOthers(t)
      ensures (View(), ok) == LatchProtocol.TryLockShared(old(View()), t)
    {
      hide NodeLists.Valid;
      if xFlag == X_STEP_0 || xOwner == Thread(t) {
        var n := lists.FindNode(t);
        lists.Count(t, n);
        return true;
      }
      return false;
    }
  }
}
