/** The ring of packet slots as a value: what its operations do, and when it is a queue. */
module RingSpec {
  import opened Options
  import opened Bytes

  /** The payloads in the slots, the slot to read next and the slot to write next. */
  datatype Ring = Ring(slots: seq<Option<seq<Byte>>>, r: nat, w: nat)

  predicate Shaped(g: Ring) {
    0 <= g.r < |g.slots| && 0 <= g.w < |g.slots|
  }

  function Init(capacity: nat): (g: Ring)
    requires capacity > 0
    ensures Shaped(g) && Total(g.slots) == 0
  {
    NothingUnread(capacity);
    Ring(Blank(capacity), 0, 0)
  }

  /** No slot has a packet. */
  function Blank(n: nat): seq<Option<seq<Byte>>> {
    seq(n, _ => None)
  }

  function After(i: nat, capacity: nat): nat
    requires i < capacity
  {
    if i + 1 < capacity then i + 1 else 0
  }

  function Size(x: Option<seq<Byte>>): nat {
    if x.Some? then |x.value| else 0
  }

  /** The bytes in the slots: what `m_unread` counts. */
  function Total(slots: seq<Option<seq<Byte>>>): nat {
    if slots == [] then 0 else Total(slots[..|slots| - 1]) + Size(slots[|slots| - 1])
  }

  lemma {:induction false} TotalUpdate(slots: seq<Option<seq<Byte>>>, i: nat, x: Option<seq<Byte>>)
    requires i < |slots|
    ensures Total(slots[i := x]) == Total(slots) - Size(slots[i]) + Size(x)
    ensures Size(slots[i]) <= Total(slots)
  {
    var k := |slots| - 1;
    if i < k {
      TotalUpdate(slots[..k], i, x);
      assert slots[i := x][..k] == slots[..k][i := x];
    } else {
      assert slots[i := x][..k] == slots[..k];
    }
  }

  lemma {:induction false} NothingUnread(capacity: nat)
    ensures Total(Blank(capacity)) == 0
  {
    if capacity > 0 {
      NothingUnread(capacity - 1);
      assert Blank(capacity)[..capacity - 1] == Blank(capacity - 1);
    }
  }

  lemma {:induction false} SomeUnread(slots: seq<Option<seq<Byte>>>)
    requires Total(slots) > 0
    ensures exists i :: 0 <= i < |slots| && slots[i].Some?
  {
    var k := |slots| - 1;
    if Size(slots[k]) == 0 {
      SomeUnread(slots[..k]);
      var i :| 0 <= i < k && slots[..k][i].Some?;
      assert slots[i].Some?;
    } else {
      assert slots[k].Some?;
    }
  }

  /** Writing takes the slot at `w`, whatever is there. */
  function Write(g: Ring, b: seq<Byte>): (g': Ring)
    requires Shaped(g)
    ensures Shaped(g') && |g'.slots| == |g.slots|
  {
    Ring(g.slots[g.w := Some(b)], g.r, After(g.w, |g.slots|))
  }

  /** The slot `i` places after `r`. */
  function Place(r: nat, i: nat, capacity: nat): nat
    requires r < capacity && i < capacity
  {
    if r + i < capacity then r + i else r + i - capacity
  }

  /** The first slot with a packet is `i` places on. */
  ghost predicate FirstAt(g: Ring, i: nat)
    requires Shaped(g)
  {
    && i < |g.slots| && g.slots[Place(g.r, i, |g.slots|)].Some?
    && forall j :: 0 <= j < i ==> g.slots[Place(g.r, j, |g.slots|)] == None
  }

  /** A read passes over `i` slots and yields `b`. */
  ghost predicate Yields(g: Ring, i: nat, b: seq<Byte>)
    requires Shaped(g)
  {
    i < |g.slots| && FirstAt(g, i) && g.slots[Place(g.r, i, |g.slots|)] == Some(b)
  }

  /** Reading takes the packet of the first slot that has one. */
  function TakeAt(g: Ring, i: nat): (g': Ring)
    requires Shaped(g) && i < |g.slots|
    ensures Shaped(g') && |g'.slots| == |g.slots|
  {
    var at := Place(g.r, i, |g.slots|);
    Ring(g.slots[at := None], After(at, |g.slots|), g.w)
  }

  function Cleared(g: Ring): (g': Ring)
    requires Shaped(g)
    ensures Shaped(g') && Total(g'.slots) == 0
  {
    NothingUnread(|g.slots|);
    Ring(Blank(|g.slots|), g.w, g.w)
  }

  // ---------------------------------------------------------------- the ring as a queue

  /** From the read slot on the ring holds `q`, then nothing, and the write slot comes next. */
  ghost predicate Holds(g: Ring, q: seq<seq<Byte>>) {
    && Shaped(g) && |q| <= |g.slots|
    && g.w == (if |q| == |g.slots| then g.r else Place(g.r, |q|, |g.slots|))
    && (forall i {:trigger q[i]} :: 0 <= i < |q| ==> g.slots[Place(g.r, i, |g.slots|)] == Some(q[i]))
    && forall k :: 0 <= k < |g.slots| && Distance(g.r, k, |g.slots|) >= |q| ==> g.slots[k] == None
  }

  /** How many places after `r` the slot `k` is. */
  function Distance(r: nat, k: nat, capacity: nat): nat
    requires r < capacity && k < capacity
  {
    if r <= k then k - r else k + capacity - r
  }

  function Flat(q: seq<seq<Byte>>): seq<Byte> {
    if q == [] then [] else q[0] + Flat(q[1..])
  }

  lemma InitHolds(capacity: nat)
    requires capacity > 0
    ensures Holds(Init(capacity), [])
  {
  }

  lemma ClearedHolds(g: Ring)
    requires Shaped(g)
    ensures Holds(Cleared(g), [])
  {
  }

  /** A write to a ring that is not full appends. */
  lemma WriteAppends(g: Ring, q: seq<seq<Byte>>, b: seq<Byte>)
    requires Holds(g, q) && |q| < |g.slots|
    ensures Holds(Write(g, b), q + [b])
  {
    var g', q' := Write(g, b), q + [b];
    forall i {:trigger q'[i]} | 0 <= i < |q'| ensures g'.slots[Place(g'.r, i, |g'.slots|)] == Some(q'[i]) {
      if i < |q| {
        assert g.slots[Place(g.r, i, |g.slots|)] == Some(q[i]);
      }
    }
  }

  /** A read takes the oldest packet; no slot is skipped. */
  lemma ReadTakesFirst(g: Ring, q: seq<seq<Byte>>)
    requires Holds(g, q) && q != []
    ensures FirstAt(g, 0) && g.slots[g.r] == Some(q[0]) && Holds(TakeAt(g, 0), q[1..])
  {
    var g', q' := TakeAt(g, 0), q[1..];
    assert g.slots[Place(g.r, 0, |g.slots|)] == Some(q[0]);
    forall i {:trigger q'[i]} | 0 <= i < |q'| ensures g'.slots[Place(g'.r, i, |g'.slots|)] == Some(q'[i]) {
      assert g.slots[Place(g.r, i + 1, |g.slots|)] == Some(q[i + 1]);
    }
  }

  /** A read of the queue yields its first packet and no other. */
  lemma ReadYields(g: Ring, q: seq<seq<Byte>>, i: nat, b: seq<Byte>)
    requires Holds(g, q) && q != [] && Yields(g, i, b)
    ensures i == 0 && b == q[0] && Holds(TakeAt(g, 0), q[1..])
  {
    ReadTakesFirst(g, q);
  }

  /** The bytes counted are the bytes queued. */
  lemma {:induction false} HoldsTotal(g: Ring, q: seq<seq<Byte>>)
    requires Holds(g, q)
    ensures Total(g.slots) == |Flat(q)|
    decreases |q|
  {
    if q == [] {
      assert forall k :: 0 <= k < |g.slots| ==> g.slots[k] == None by {
        forall k | 0 <= k < |g.slots| ensures g.slots[k] == None {
          assert Distance(g.r, k, |g.slots|) >= 0;
        }
      }
      assert g.slots == Blank(|g.slots|);
      NothingUnread(|g.slots|);
    } else {
      ReadTakesFirst(g, q);
      HoldsTotal(TakeAt(g, 0), q[1..]);
      TotalUpdate(g.slots, g.r, None);
    }
  }

  // ---------------------------------------------------------------- whole runs

  datatype Op = Put(b: seq<Byte>) | Get

  /** A run of writes and reads: the ring at the end and the packets read, in order. */
  ghost predicate Runs(g: Ring, ops: seq<Op>, g': Ring, taken: seq<seq<Byte>>)
    decreases |ops|
  {
    Shaped(g) &&
    if ops == [] then g' == g && taken == []
    else if ops[0].Put? then Runs(Write(g, ops[0].b), ops[1..], g', taken)
    else if Total(g.slots) == 0 then Runs(g, ops[1..], g', taken)
    else taken != [] && exists i :: Yields(g, i, taken[0]) && Runs(TakeAt(g, i), ops[1..], g', taken[1..])
  }

  function Puts(ops: seq<Op>): seq<seq<Byte>> {
    if ops == [] then []
    else if ops[0].Put? then [ops[0].b] + Puts(ops[1..])
    else Puts(ops[1..])
  }

  /** Every packet is nonempty, and none is written into a full ring holding `n` packets at first. */
  predicate Mild(ops: seq<Op>, n: nat, capacity: nat) {
    ops == [] ||
    if ops[0].Put? then ops[0].b != [] && n < capacity && Mild(ops[1..], n + 1, capacity)
    else Mild(ops[1..], if n == 0 then 0 else n - 1, capacity)
  }

  predicate NoneEmpty(q: seq<seq<Byte>>) {
    forall i :: 0 <= i < |q| ==> q[i] != []
  }

  lemma UnreadExactly(g: Ring, q: seq<seq<Byte>>)
    requires Holds(g, q) && NoneEmpty(q)
    ensures Total(g.slots) == 0 <==> q == []
  {
    HoldsTotal(g, q);
    if q != [] {
      assert q[0] != [];
    }
  }

  /** Reads return the packets in the order written; what is left is still in the ring. */
  lemma {:induction false} FirstInFirstOut(g: Ring, ops: seq<Op>, g': Ring, taken: seq<seq<Byte>>, q: seq<seq<Byte>>)
    requires Holds(g, q) && NoneEmpty(q) && Mild(ops, |q|, |g.slots|) && Runs(g, ops, g', taken)
    ensures taken <= q + Puts(ops) && Holds(g', (q + Puts(ops))[|taken|..])
    decreases |ops|
  {
    hide Holds, FirstAt, Total, TakeAt, Write, Place;
    if ops == [] {
      assert q + Puts(ops) == q;
    } else if ops[0].Put? {
      WriteAppends(g, q, ops[0].b);
      FirstInFirstOut(Write(g, ops[0].b), ops[1..], g', taken, q + [ops[0].b]);
      assert q + [ops[0].b] + Puts(ops[1..]) == q + Puts(ops);
    } else {
      UnreadExactly(g, q);
      if q == [] {
        FirstInFirstOut(g, ops[1..], g', taken, q);
      } else {
        var i :| Yields(g, i, taken[0]) && Runs(TakeAt(g, i), ops[1..], g', taken[1..]);
        ReadYields(g, q, i, taken[0]);
        FirstInFirstOut(TakeAt(g, 0), ops[1..], g', taken[1..], q[1..]);
        var all, rest := q + Puts(ops), q[1..] + Puts(ops[1..]);
        assert all == [q[0]] + rest;
        assert all[|taken|..] == rest[|taken[1..]|..];
      }
    }
  }

  /** A write into a full ring breaks the order: of three packets in two slots the last is read before the second. */
  lemma OverwriteReorders(a: seq<Byte>, b: seq<Byte>, c: seq<Byte>)
    requires a != [] && b != [] && c != []
    ensures
      var g := Write(Write(Write(Init(2), a), b), c);
      && FirstAt(g, 0) && g.slots[Place(g.r, 0, 2)] == Some(c)
      && FirstAt(TakeAt(g, 0), 0) && TakeAt(g, 0).slots[Place(TakeAt(g, 0).r, 0, 2)] == Some(b)
  {
  }
}

/** `RingBuffer`: slots linked in a circle, packets that pass between the ring, the pool and the caller. */
module PacketRing {
  import opened Options
  import opened Bytes
  import opened RingSpec

  class Packet {
    var id: nat
    var size: int
    var data: seq<Byte>

    constructor (capacity: nat)
      ensures id == 0 && size == 0 && |data| == capacity
    {
      id, size, data := 0, 0, seq(capacity, _ => 0);
    }

    ghost predicate Filled()
      reads this`size, this`data
    {
      0 <= size <= |data|
    }

    function Payload(): seq<Byte>
      requires Filled()
      reads this`size, this`data
    {
      data[..size]
    }
  }

  class Chunk {
    var packet: Packet?
    var next: Chunk?

    constructor ()
      ensures packet == null && next == null
    {
      packet, next := null, null;
    }
  }

  class RingBuffer {
    var chunks: seq<Chunk>
    var readAt: Chunk
    var writeAt: Chunk
    var count: nat
    var unread: int
    var pool: seq<Packet>
    /** The ring as a value, and the packets callers have. */
    ghost var ring: Ring
    ghost var held: seq<Packet?>
    ghost var lent: set<Packet>
    /** Every packet there ever was. */
    ghost var packets: set<Packet>

    /** The slots form one circle in the order of the vector. */
    ghost predicate Linked()
      reads this`chunks, this`readAt, this`writeAt, this`ring, this`held, chunks
    {
      && Shaped(ring) && |chunks| == |held| == |ring.slots|
      && (forall i, j :: 0 <= i < j < |chunks| ==> chunks[i] != chunks[j])
      && (forall i :: 0 <= i < |chunks| ==> chunks[i].next == chunks[After(i, |chunks|)] && chunks[i].packet == held[i])
      && readAt == chunks[ring.r] && writeAt == chunks[ring.w]
    }

    static ghost predicate Agrees(p: Packet?, x: Option<seq<Byte>>)
      reads (if p == null then {} else {p})`size, (if p == null then {} else {p})`data
    {
      if p == null then x == None else p.Filled() && x == Some(p.Payload())
    }

    /** Every slot has the packet the ring says. */
    ghost predicate Stocked()
      reads this`ring, this`held, this`unread, held`size, held`data
    {
      && |held| == |ring.slots| && unread == Total(ring.slots)
      && forall i :: 0 <= i < |held| ==> Agrees(held[i], ring.slots[i])
    }

    /** A packet is in one place only. */
    static ghost predicate Apart(held: seq<Packet?>, pool: seq<Packet>, lent: set<Packet>) {
      && (forall i, j :: 0 <= i < j < |held| && held[i] != null ==> held[i] != held[j])
      && (forall i, j :: 0 <= i < j < |pool| ==> pool[i] != pool[j])
      && (forall i :: 0 <= i < |held| && held[i] != null ==> held[i] !in pool && held[i] !in lent)
      && forall i :: 0 <= i < |pool| ==> pool[i] !in lent
    }

    /** Every packet in one of the three places. */
    static ghost function Union(held: seq<Packet?>, pool: seq<Packet>, lent: set<Packet>): set<Packet> {
      (set i | 0 <= i < |held| && held[i] != null :: held[i]) + (set p | p in pool) + lent
    }

    static ghost predicate Within(held: seq<Packet?>, pool: seq<Packet>, lent: set<Packet>, packets: set<Packet>) {
      && (forall i :: 0 <= i < |held| && held[i] != null ==> held[i] in packets)
      && (forall i :: 0 <= i < |pool| ==> pool[i] in packets)
      && lent <= packets
    }

    ghost predicate Valid()
      reads this, chunks, held`size, held`data
    {
      Linked() && Stocked() && Apart(held, pool, lent) && Within(held, pool, lent, packets)
    }

    /** `init`: the slots of the vector, each linked to the next and the last to the first. */
    static method MakeChunks(capacity: nat) returns (chunks: seq<Chunk>)
      requires capacity > 0
      ensures |chunks| == capacity && fresh(chunks)
      ensures forall i, j :: 0 <= i < j < |chunks| ==> chunks[i] != chunks[j]
      ensures forall i :: 0 <= i < |chunks| ==> chunks[i].packet == null && chunks[i].next == chunks[After(i, |chunks|)]
    {
      chunks := [];
      for i := 0 to capacity
        invariant |chunks| == i && fresh(chunks)
        invariant forall k, j :: 0 <= k < j < |chunks| ==> chunks[k] != chunks[j]
        invariant forall k :: 0 <= k < |chunks| ==> chunks[k].packet == null
        invariant forall k :: 0 <= k < |chunks| - 1 ==> chunks[k].next == chunks[k + 1]
      {
        var c := new Chunk();
        if i > 0 {
          chunks[i - 1].next := c;
        }
        chunks := chunks + [c];
      }
      chunks[capacity - 1].next := chunks[0];
    }

    constructor (capacity: nat)
      requires capacity > 0
      ensures Valid() && ring == Init(capacity) && lent == {} && pool == [] && packets == {}
      ensures fresh(chunks) && forall i :: 0 <= i < |held| ==> held[i] == null
    {
      var made := MakeChunks(capacity);
      chunks, readAt, writeAt := made, made[0], made[0];
      count, unread, pool := 0, 0, [];
      ring, held, lent, packets := Init(capacity), seq(capacity, _ => null), {}, {};
    }

    /** Every packet the ring knows of. */
    ghost function Everyone(): set<Packet>
      reads this`held, this`pool, this`lent
    {
      Union(held, pool, lent)
    }

    /** `needPacket`: the first of the pool if it is large enough, a new one otherwise. */
    method NeedPacket(len: nat) returns (p: Packet)
      modifies this`pool
      ensures |p.data| >= len
      ensures pool == if old(pool) == [] then [] else old(pool)[1..]
      ensures if old(pool) != [] && |old(pool)[0].data| >= len then p == old(pool)[0] else fresh(p)
    {
      if pool != [] {
        p := pool[0];
        pool := pool[1..];
        if |p.data| >= len {
          return;
        }
      }
      p := new Packet(len);
    }

    method NewPacket(len: nat) returns (p: Packet)
      requires Valid()
      modifies this`pool, this`lent, this`packets, packets
      ensures Valid() && p.size == 0 && |p.data| >= len
      ensures p in old(packets) || fresh(p)
      ensures packets == old(packets) + {p}
      ensures p !in old(lent) && lent == old(lent) + {p}
      ensures Everyone() <= old(Everyone()) + {p}
    {
      hide Linked, Total;
      p := NeedPacket(len);
      assert p !in held && p !in pool && p !in lent;
      p.id := 0;
      p.size := 0;
      lent := lent + {p};
      packets := packets + {p};
    }

    method FreePacket(p: Packet)
      requires Valid() && p in lent
      modifies this`pool, this`lent
      ensures Valid() && lent == old(lent) - {p} && pool == old(pool) + [p]
      ensures Everyone() == old(Everyone())
    {
      pool := pool + [p];
      lent := lent - {p};
    }

    method BytesUnread() returns (n: int)
      requires Valid()
      ensures n == Total(ring.slots)
    {
      n := unread;
    }

    // -------------------------------------------------------------- one slot at a time

    method Exchange(c: Chunk, p: Packet?, ghost k: nat, ghost x: Option<seq<Byte>>) returns (was: Packet?)
      requires Linked() && k < |chunks| && c == chunks[k]
      modifies c`packet, this`held, this`ring
      ensures Linked() && was == old(held[k]) && held == old(held)[k := p]
      ensures ring == old(ring).(slots := old(ring).slots[k := x])
    {
      was := c.packet;
      c.packet := p;
      held := held[k := p];
      ring := ring.(slots := ring.slots[k := x]);
    }

    method StepWrite()
      requires Linked() && Stocked()
      modifies this`writeAt, this`ring
      ensures Linked() && Stocked() && ring == old(ring).(w := After(old(ring.w), |ring.slots|))
    {
      hide Total, Agrees;
      writeAt := writeAt.next;
      ring := ring.(w := After(ring.w, |ring.slots|));
    }

    method StepRead()
      requires Linked() && Stocked()
      modifies this`readAt, this`ring
      ensures Linked() && Stocked() && ring == old(ring).(r := After(old(ring.r), |ring.slots|))
    {
      hide Total, Agrees;
      readAt := readAt.next;
      ring := ring.(r := After(ring.r, |ring.slots|));
    }

    /** A caller's packet goes into a slot, the one there to the pool. */
    static lemma Given(held: seq<Packet?>, pool: seq<Packet>, lent: set<Packet>, k: nat, p: Packet)
      requires Apart(held, pool, lent) && k < |held| && p in lent
      ensures
        var pool' := if held[k] == null then pool else pool + [held[k]];
        Apart(held[k := p], pool', lent - {p}) && Union(held[k := p], pool', lent - {p}) == Union(held, pool, lent)
    {
      var held', pool', lent' := held[k := p], if held[k] == null then pool else pool + [held[k]], lent - {p};
      forall x | x in Union(held, pool, lent) ensures x in Union(held', pool', lent') {
        if x in held {
          var i :| 0 <= i < |held| && held[i] == x;
          assert i != k ==> held'[i] == x;
        } else if x == p {
          assert held'[k] == x;
        } else if x in pool {
          assert x in pool';
        }
      }
      forall x | x in Union(held', pool', lent') ensures x in Union(held, pool, lent) {
        if x in held' {
          var i :| 0 <= i < |held'| && held'[i] == x;
          assert i != k ==> held[i] == x;
        }
      }
    }

    /** A packet leaves its slot for a caller. */
    static lemma Taken(held: seq<Packet?>, pool: seq<Packet>, lent: set<Packet>, k: nat, p: Packet)
      requires Apart(held, pool, lent) && k < |held| && held[k] == p
      ensures Apart(held[k := null], pool, lent + {p})
      ensures Union(held[k := null], pool, lent + {p}) == Union(held, pool, lent)
      ensures p !in lent
    {
      var held' := held[k := null];
      forall x | x in Union(held, pool, lent) ensures x in Union(held', pool, lent + {p}) {
        if x in held && x != p {
          var i :| 0 <= i < |held| && held[i] == x;
          assert held'[i] == x;
        }
      }
      forall x | x in Union(held', pool, lent + {p}) ensures x in Union(held, pool, lent) {
        if x in held' {
          var i :| 0 <= i < |held'| && held'[i] == x;
          assert held[i] == x;
        }
      }
    }

    /** The slot at `c` gets a packet or none, and the count of unread bytes follows. */
    method Replace(c: Chunk, p: Packet?, ghost k: nat, ghost x: Option<seq<Byte>>) returns (was: Packet?)
      requires Linked() && Stocked() && k < |chunks| && c == chunks[k] && Agrees(p, x)
      modifies c`packet, this`held, this`ring, this`unread
      ensures Linked() && Stocked() && was == old(held[k]) && held == old(held)[k := p]
      ensures ring == old(ring).(slots := old(ring).slots[k := x])
    {
      hide Total, Linked;
      LinkedParts();
      TotalUpdate(ring.slots, k, x);
      assert Agrees(held[k], ring.slots[k]);
      was := Exchange(c, p, k, x);
      if was != null {
        unread := unread - was.size;
      }
      if p != null {
        unread := unread + p.size;
      }
    }

    /** The packet goes to the write slot; one that is still there is lost to the reader. */
    method WritePacket(p: Packet)
      requires Valid() && p in lent && p.Filled()
      modifies this, writeAt`packet, p`id
      ensures Valid() && ring == Write(old(ring), p.Payload()) && lent == old(lent) - {p}
      ensures chunks == old(chunks) && packets == old(packets) && Everyone() == old(Everyone())
      ensures p.data == old(p.data) && p.size == old(p.size)
    {
      hide Union, Apart, Linked, Stocked;
      count := count + 1;
      p.id := count;
      LinkedParts();
      Given(held, pool, lent, ring.w, p);
      var was := Replace(writeAt, p, ring.w, Some(p.Payload()));
      StepWrite();
      pool := if was == null then pool else pool + [was];
      lent := lent - {p};
    }

    lemma LinkedParts()
      requires Linked()
      ensures Shaped(ring) && |chunks| == |held| == |ring.slots|
      ensures readAt == chunks[ring.r] && writeAt == chunks[ring.w]
    {
    }

    // -------------------------------------------------------------- reading

    /** The skip loop: with something unread there is a packet within one turn of the circle. */
    method SkipEmpty() returns (ghost i: nat)
      requires Linked() && Stocked() && unread > 0
      modifies this`readAt, this`ring
      ensures Linked() && Stocked() && held[ring.r] != null
      ensures FirstAt(old(ring), i) && ring == old(ring).(r := Place(old(ring.r), i, |ring.slots|))
    {
      hide Linked, Stocked, Total;
      LinkedParts();
      StockedParts();
      SomeUnread(ring.slots);
      ghost var n := |ring.slots|;
      ghost var k :| 0 <= k < n && ring.slots[k].Some?;
      ghost var d := Distance(ring.r, k, n);
      i := 0;
      while readAt.packet == null
        invariant Linked() && Stocked() && 0 <= i <= d
        invariant ring == old(ring).(r := Place(old(ring.r), i, n))
        invariant forall j :: 0 <= j < i ==> ring.slots[Place(old(ring.r), j, n)] == None
        decreases d - i
      {
        LinkedParts();
        StockedParts();
        StepRead();
        i := i + 1;
      }
      LinkedParts();
      StockedParts();
    }

    lemma StockedParts()
      requires Linked() && Stocked()
      ensures unread == Total(ring.slots)
      ensures forall i :: 0 <= i < |held| ==> (held[i] == null <==> ring.slots[i] == None)
      ensures readAt.packet == held[ring.r]
    {
      forall i | 0 <= i < |held| ensures held[i] == null <==> ring.slots[i] == None {
        assert Agrees(held[i], ring.slots[i]);
      }
    }

    /** Takes the packet of the first slot that has one; nothing when no byte is unread. */
    method Read() returns (p: Packet?, ghost i: nat)
      requires Valid()
      modifies this, chunks
      ensures Valid() && chunks == old(chunks) && pool == old(pool) && packets == old(packets)
      ensures Everyone() == old(Everyone())
      ensures p == null <==> Total(old(ring).slots) == 0
      ensures p == null ==> ring == old(ring) && lent == old(lent)
      ensures p != null ==>
        && p in old(held) && p !in old(lent) && lent == old(lent) + {p}
        && p.Filled() && Yields(old(ring), i, p.Payload()) && ring == TakeAt(old(ring), i)
    {
      hide Linked, Stocked, Total, Union, Apart;
      LinkedParts();
      StockedParts();
      p, i := null, 0;
      if unread != 0 {
        i := SkipEmpty();
        LinkedParts();
        ghost var k := ring.r;
        AgreesAt(k);
        Taken(held, pool, lent, k, held[k]);
        p := Replace(readAt, null, k, None);
        StepRead();
        lent := lent + {p};
      }
    }

    /** A caller's packet is not in the ring: filling it leaves the ring alone. */
    lemma LentApart(p: Packet)
      requires Valid() && p in lent
      ensures p !in held
    {
    }

    lemma AgreesAt(k: nat)
      requires Stocked() && k < |held|
      ensures |held| == |ring.slots| && Agrees(held[k], ring.slots[k])
    {
    }

    // -------------------------------------------------------------- clearing

    /** The packet of a slot goes to the pool. */
    static lemma Dropped(held: seq<Packet?>, pool: seq<Packet>, lent: set<Packet>, k: nat)
      requires Apart(held, pool, lent) && k < |held|
      ensures
        var pool' := if held[k] == null then pool else pool + [held[k]];
        Apart(held[k := null], pool', lent) && Union(held[k := null], pool', lent) == Union(held, pool, lent)
    {
      var held', pool' := held[k := null], if held[k] == null then pool else pool + [held[k]];
      forall x | x in Union(held, pool, lent) ensures x in Union(held', pool', lent) {
        if x in held {
          var i :| 0 <= i < |held| && held[i] == x;
          assert i != k ==> held'[i] == x;
        } else if x in pool {
          assert x in pool';
        }
      }
      forall x | x in Union(held', pool', lent) ensures x in Union(held, pool, lent) {
        if x in held' {
          var i :| 0 <= i < |held'| && held'[i] == x;
          assert held[i] == x;
        }
      }
    }

    /** Every packet goes to the pool, and reading goes on at the write slot. */
    method Clear()
      requires Valid()
      modifies this, chunks
      ensures Valid() && ring == Cleared(old(ring))
      ensures chunks == old(chunks) && lent == old(lent) && packets == old(packets) && Everyone() == old(Everyone())
    {
      hide Linked, Stocked, Union, Apart;
      LinkedParts();
      var n := |chunks|;
      for k := 0 to n
        invariant Linked() && Apart(held, pool, lent) && Everyone() == old(Everyone())
        invariant packets == old(packets) && Within(held, pool, lent, packets)
        invariant chunks == old(chunks) && lent == old(lent) && ring.r == old(ring).r && ring.w == old(ring).w
        invariant n == |chunks| == |held| == |ring.slots|
        invariant forall j :: 0 <= j < k ==> held[j] == null && ring.slots[j] == None
      {
        Dropped(held, pool, lent, k);
        var was := Exchange(chunks[k], null, k, None);
        pool := if was == null then pool else pool + [was];
      }
      count, unread := 0, 0;
      Restart();
    }

    method Restart()
      requires Linked() && unread == 0
      requires forall j :: 0 <= j < |held| ==> held[j] == null && ring.slots[j] == None
      modifies this`readAt, this`ring
      ensures Linked() && Stocked() && ring == Cleared(old(ring))
    {
      assert ring.slots == Blank(|ring.slots|);
      readAt := writeAt;
      ring := Cleared(ring);
    }
  }
}
