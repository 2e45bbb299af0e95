/** How the reader cuts a message into fields: a matcher for the separator that never backs up. */
module FieldSplitter {
  import opened Options
  import opened Bytes
  import opened TextBuffers

  /** "[]:[]" */
  const SEPARATOR: Text := [0x5B, 0x5D, 0x3A, 0x5B, 0x5D]
  const OPEN: Byte := 0x5B

  /** The separator bytes matched after one more byte. */
  function Matched(k: nat, b: Byte): (k': nat)
    requires k < 5
    ensures k' <= 5
  {
    if b == SEPARATOR[k] then k + 1 else 0
  }

  /** Where the first separator ends that the matcher sees from `p` on, with `k` bytes matched before. */
  function Cut(s: Text, p: nat, k: nat): (r: Option<nat>)
    requires p <= |s| && k < 5 && k <= p
    ensures r.Some? ==> 5 <= r.value <= |s| && p < r.value
    decreases |s| - p
  {
    if p == |s| then None
    else
      var k' := Matched(k, s[p]);
      if k' == 5 then Some(p + 1) else Cut(s, p + 1, k')
  }

  /** The first field of a message and how many bytes it takes, its separator included. */
  function FirstField(s: Text): (r: (Text, nat))
    ensures r.1 <= |s| && |r.0| <= r.1 && (s != [] ==> r.1 > 0)
  {
    match Cut(s, 0, 0)
    case Some(q) => (s[..q - 5], q)
    case None => (s, |s|)
  }

  /** All fields of a message; one that is empty at the very end is not seen. */
  function FieldsOf(s: Text): seq<Text>
    decreases |s|
  {
    if s == [] then [] else [FirstField(s).0] + FieldsOf(s[FirstField(s).1..])
  }

  // ---------------------------------------------------------------- when the cut is right

  /** The bytes matched after a whole text, `None` if a separator was seen inside it. */
  function Scan(f: Text): Option<nat> {
    if f == [] then Some(0)
    else
      match Scan(f[..|f| - 1])
      case None => None
      case Some(k) =>
        if k >= 5 then None
        else if Matched(k, f[|f| - 1]) == 5 then None else Some(Matched(k, f[|f| - 1]))
  }

  lemma {:induction false} ScanBound(f: Text)
    ensures Scan(f).Some? ==> Scan(f).value < 5 && Scan(f).value <= |f|
  {
    if f != [] {
      ScanBound(f[..|f| - 1]);
    }
  }

  /** Up to the end of a text without a separator the matcher only changes its state. */
  lemma {:induction false} CutAfter(f: Text, t: Text)
    requires Scan(f).Some?
    ensures Scan(f).value < 5 && Scan(f).value <= |f| && Cut(f + t, 0, 0) == Cut(f + t, |f|, Scan(f).value)
  {
    ScanBound(f);
    if f != [] {
      var g, b := f[..|f| - 1], f[|f| - 1];
      CutAfter(g, [b] + t);
      assert g + ([b] + t) == f + t;
    }
  }

  lemma {:induction false} CutInside(f: Text, t: Text)
    requires Scan(f).None?
    ensures Cut(f + t, 0, 0).Some? && Cut(f + t, 0, 0).value <= |f|
  {
    var g, b := f[..|f| - 1], f[|f| - 1];
    assert g + ([b] + t) == f + t;
    if Scan(g).None? {
      CutInside(g, [b] + t);
    } else {
      CutAfter(g, [b] + t);
    }
  }

  /** The separator right after a text in state `k`: seen at its end only if nothing was matched. */
  lemma CutSeparator(f: Text, rest: Text, k: nat)
    requires k < 5 && k <= |f|
    ensures Cut(f + SEPARATOR + rest, |f|, k) == Some(|f| + 5) <==> k == 0
  {
    var s, p := f + SEPARATOR + rest, |f|;
    assert s[p] == 0x5B && s[p + 1] == 0x5D && s[p + 2] == 0x3A && s[p + 3] == 0x5B && s[p + 4] == 0x5D;
    if k == 0 {
      assert Cut(s, p + 4, 4) == Some(p + 5);
      assert Cut(s, p + 3, 3) == Some(p + 5);
      assert Cut(s, p + 2, 2) == Some(p + 5);
    } else if k == 3 {
      assert Cut(s, p + 1, 4) == Some(p + 2);
    } else {
      assert Cut(s, p + 5, 2) != Some(p + 5);
      assert Cut(s, p + 4, 1) == Cut(s, p + 5, 2);
      assert Cut(s, p + 3, 0) == Cut(s, p + 4, 1);
      assert Cut(s, p + 2, 0) == Cut(s, p + 3, 0);
      assert Cut(s, p + 1, 0) == Cut(s, p + 2, 0);
    }
  }

  /** A field is cut off right exactly when no separator is seen in it and none is half matched at its end. */
  lemma CutExactly(f: Text, rest: Text)
    ensures FirstField(f + SEPARATOR + rest) == (f, |f| + 5) <==> Scan(f) == Some(0)
  {
    var s := f + SEPARATOR + rest;
    assert f + (SEPARATOR + rest) == s && s[..|f|] == f;
    if Scan(f).None? {
      CutInside(f, SEPARATOR + rest);
    } else {
      CutAfter(f, SEPARATOR + rest);
      CutSeparator(f, rest, Scan(f).value);
    }
  }

  predicate NoBracket(f: Text) {
    forall i :: 0 <= i < |f| ==> f[i] != OPEN
  }

  /** In particular every field without '[' is. */
  lemma {:induction false} NoBracketScan(f: Text)
    requires NoBracket(f)
    ensures Scan(f) == Some(0)
  {
    if f != [] {
      NoBracketScan(f[..|f| - 1]);
    }
  }

  /** The field "[" is not: with the next field it comes out as one. */
  lemma BracketGlues()
    ensures FirstField([OPEN] + SEPARATOR + [0x61]) == ([OPEN] + SEPARATOR + [0x61], 7)
  {
    var s := [OPEN] + SEPARATOR + [0x61];
    assert s == [0x5B, 0x5B, 0x5D, 0x3A, 0x5B, 0x5D, 0x61];
    assert Cut(s, 6, 2) == None;
    assert Cut(s, 5, 1) == None;
    assert Cut(s, 4, 0) == None;
    assert Cut(s, 3, 0) == None;
    assert Cut(s, 2, 0) == None;
    assert Cut(s, 1, 1) == None;
  }

  // ---------------------------------------------------------------- whole messages

  function Join(fields: seq<Text>): Text
    requires fields != []
  {
    if |fields| == 1 then fields[0] else fields[0] + SEPARATOR + Join(fields[1..])
  }

  ghost predicate Clean(fields: seq<Text>) {
    forall i :: 0 <= i < |fields| ==> Scan(fields[i]) == Some(0)
  }

  /** Fields joined and cut again are the fields, unless the last one is empty: then it is lost. */
  lemma {:induction false} FieldsOfJoin(fields: seq<Text>)
    requires fields != [] && Clean(fields)
    ensures FieldsOf(Join(fields)) == if fields[|fields| - 1] == [] then fields[..|fields| - 1] else fields
  {
    hide Scan, FieldsOf, Join;
    if |fields| == 1 {
      LastField(fields[0]);
      assert Join(fields) == fields[0] by { JoinOne(fields); }
    } else {
      var rest := fields[1..];
      FieldsOfJoin(rest);
      assert Scan(fields[0]) == Some(0);
      JoinStep(fields);
      assert fields == [fields[0]] + rest;
      assert fields[..|fields| - 1] == [fields[0]] + rest[..|rest| - 1];
    }
  }

  /** Two fields without '[' with "[]:[]" between them, octet by octet. */
  lemma TwoFields(a: Text, b: Text)
    requires b != [] && (forall i :: 0 <= i < |a| ==> a[i] != 0x5B) && (forall i :: 0 <= i < |b| ==> b[i] != 0x5B)
    ensures FieldsOf(a + [0x5B, 0x5D, 0x3A, 0x5B, 0x5D] + b) == [a, b]
  {
    NoBracketScan(a);
    NoBracketScan(b);
    FieldsOfJoin([a, b]);
    assert [a, b][1..] == [b];
    assert Join([a, b]) == a + SEPARATOR + b;
  }

  lemma JoinOne(fields: seq<Text>)
    requires |fields| == 1
    ensures Join(fields) == fields[0]
  {
  }

  lemma JoinStep(fields: seq<Text>)
    requires |fields| > 1 && Scan(fields[0]) == Some(0)
    ensures FieldsOf(Join(fields)) == [fields[0]] + FieldsOf(Join(fields[1..]))
  {
    hide FirstField, Scan;
    var f, rest := fields[0], Join(fields[1..]);
    CutExactly(f, rest);
    assert (f + SEPARATOR + rest)[|f| + 5..] == rest;
  }

  lemma LastField(f: Text)
    requires Scan(f) == Some(0)
    ensures FieldsOf(f) == if f == [] then [] else [f]
  {
    CutAfter(f, []);
    assert f + [] == f;
  }
}

/** `ProtoBase`: frames of an 8-byte length and a body, read field by field. */
module WireConnection {
  import opened Options
  import opened Bytes
  import opened TextBuffers
  import opened DecimalText
  import opened FieldSplitter

  const BUFFER_SIZE := 4000
  const SENDMSG_MAXSIZE := 64000
  const UINT32_MAX := 0xFFFF_FFFF
  const BLANK: Byte := 0x20

  /** The length, left-aligned in eight bytes: `"%-8u"`. */
  function Header(n: nat): (h: Text)
    requires |Digits(n)| < 8
    ensures |h| == 8
  {
    Digits(n) + seq(8 - |Digits(n)|, _ => BLANK)
  }

  /** A command of twelve bytes goes out after `12` and six spaces. */
  lemma HeaderExample()
    ensures |Digits(12)| < 8 && Header(12) == [0x31, 0x32, 0x20, 0x20, 0x20, 0x20, 0x20, 0x20]
  {
    assert Digits(1) == [0x31] && Digits(12) == Digits(1) + [0x32];
  }

  lemma HeaderParses(n: nat)
    requires |Digits(n)| < 8 && n <= UINT32_MAX
    ensures ParseUnsigned(Header(n), UINT32_MAX) == Value(n)
  {
    var d, h := Digits(n), Header(n);
    DigitsValue(n);
    assert h[..|d|] == d && d[..0] == [] && Decimal([]) == 0;
    assert IsDigit(d[0]) && IsSpace(h[|d|]);
    NothingSkipped(h);
    AccumulateUpTo(h, |d|, 0, 0, UINT32_MAX);
  }

  predicate Sendable(body: Text) {
    |Digits(|body|)| < 8 && |body| <= UINT32_MAX
  }

  predicate AllSendable(bodies: seq<Text>) {
    forall i :: 0 <= i < |bodies| ==> Sendable(bodies[i])
  }

  /** Frames one after the other, as the backend sends them. */
  function Wire(bodies: seq<Text>): Text
    requires AllSendable(bodies)
  {
    if bodies == [] then [] else Header(|bodies[0]|) + bodies[0] + Wire(bodies[1..])
  }

  /** One more frame at the end. */
  lemma {:induction false} WireMore(bodies: seq<Text>, k: nat)
    requires AllSendable(bodies) && k < |bodies|
    ensures Wire(bodies[..k + 1]) == Wire(bodies[..k]) + (Header(|bodies[k]|) + bodies[k])
  {
    if k == 0 {
      assert bodies[..1][1..] == [];
    } else {
      WireMore(bodies[1..], k - 1);
      assert bodies[1..][..k] == bodies[..k + 1][1..] && bodies[1..][..k - 1] == bodies[..k][1..];
    }
  }

  class Connection {
    var msgLength: nat
    var msgConsumed: nat
    var hung: bool
    /** What the socket will still deliver, and what was sent on it. */
    var input: Text
    var output: Text

    /** Bytes of the current message not yet read. */
    ghost function Left(): int
      reads this
    {
      msgLength - msgConsumed
    }

    ghost predicate Counts()
      reads this
    {
      msgConsumed < msgLength || msgConsumed == msgLength == 0
    }

    constructor (input: Text)
      ensures Counts() && msgLength == 0 && !hung && this.input == input && output == []
    {
      msgLength, msgConsumed, hung, this.input, output := 0, 0, false, input, [];
    }

    method HangException()
      modifies this`hung, this`input
      ensures hung && input == []
    {
      hung, input := true, [];
    }

    /**
      `ReadField`: one field of the current message. Whatever the bytes, they fit the buffer; without
      a NUL the field is the first of what is left, and it and its separator are consumed.
    */
    method ReadField() returns (ok: bool, field: Text)
      requires Counts()
      modifies this`msgLength, this`msgConsumed, this`hung, this`input
      ensures Counts()
      ensures old(Left()) == 0 ==> !ok && input == old(input) && hung == old(hung) && Left() == 0
      ensures 0 < old(Left()) <= |old(input)| ==>
        var body := old(input)[..old(Left())];
        && ok && hung == old(hung)
        && input == old(input)[FirstField(body).1..] && Left() == old(Left()) - FirstField(body).1
        && (NoNul(body) ==> field == FirstField(body).0)
    {
      hide FirstField, NoNul, TextBuffer.Valid;
      field, ok := [], false;
      if msgConsumed >= msgLength {
        return;
      }
      ghost var n := msgLength - msgConsumed;
      ghost var body := if n <= |input| then input[..n] else input;
      var b := new TextBuffer(SEPARATOR, BUFFER_SIZE);
      var c := msgConsumed;
      while msgLength > c && b.matched < 5
        invariant old(msgConsumed) <= c <= msgLength && msgLength == old(msgLength) && msgConsumed == old(msgConsumed)
        invariant hung == old(hung) && c - msgConsumed <= |body| && input == old(input)[c - msgConsumed..]
        invariant b.Valid() && fresh(b) && fresh(b.buf) && b.separator == SEPARATOR
        invariant b.seen == body[..c - msgConsumed] && b.matched <= 5
        invariant b.matched <= c - msgConsumed
        invariant Cut(body, 0, 0) ==
          if b.matched == 5 then Some(c - msgConsumed) else Cut(body, c - msgConsumed, b.matched)
        decreases msgLength - c
      {
        if input == [] {
          HangException();
          return;
        }
        assert body[c - msgConsumed] == input[0];
        b.Take(input[0]);
        input := input[1..];
        c := c + 1;
      }
      field := b.Finish();
      if n == |body| {
        FirstFieldIs(body, if b.matched == 5 then Some(c - msgConsumed) else None);
        NoNulPrefix(body, c - msgConsumed);
      }
      ok := true;
      if msgLength > c {
        msgConsumed := c;
      } else {
        msgConsumed, msgLength := 0, 0;
      }
    }

    static lemma NoNulPrefix(body: Text, i: nat)
      requires i <= |body|
      ensures NoNul(body) ==> NoNul(body[..i])
    {
    }

    static lemma FirstFieldIs(body: Text, cut: Option<nat>)
      requires Cut(body, 0, 0) == cut
      ensures FirstField(body) == if cut.Some? then (body[..cut.value - 5], cut.value) else (body, |body|)
    {
    }

    /** Drops what is left of the current message. */
    method FlushMessage() returns (n: nat)
      requires Counts()
      modifies this`msgLength, this`msgConsumed, this`hung, this`input
      ensures msgLength == msgConsumed == 0
      ensures old(Left()) <= |old(input)| ==> n == old(Left()) && hung == old(hung) && input == old(input)[n..]
      ensures old(Left()) > |old(input)| ==> hung
    {
      var f := msgLength - msgConsumed;
      n := 0;
      while f > 0
        invariant f >= 0 && n + f == old(Left()) && n <= |old(input)| && input == old(input)[n..] && hung == old(hung)
      {
        var r := if f > BUFFER_SIZE then BUFFER_SIZE else f;
        if |input| < r {
          HangException();
          break;
        }
        input := input[r..];
        f := f - r;
        n := n + r;
      }
      msgLength, msgConsumed := 0, 0;
    }

    /** The header of the next frame. */
    method RcvMessageLength() returns (ok: bool)
      modifies this`msgLength, this`msgConsumed, this`hung, this`input
      ensures old(msgLength) > 0 ==>
        && !ok && msgLength == old(msgLength) && msgConsumed == old(msgConsumed)
        && hung == old(hung) && input == old(input)
      ensures old(msgLength) == 0 && |old(input)| >= 8 && ParseUnsigned(old(input)[..8], UINT32_MAX).Value? ==>
        && ok && msgLength == ParseUnsigned(old(input)[..8], UINT32_MAX).v && msgConsumed == 0
        && hung == old(hung) && input == old(input)[8..]
      ensures ok ==> msgConsumed == 0 && |old(input)| >= 8
      ensures !ok && old(msgLength) == 0 ==> hung && msgLength == 0 && msgConsumed == old(msgConsumed)
    {
      if msgLength > 0 {
        return false;
      }
      if |input| >= 8 {
        var header := input[..8];
        input := input[8..];
        var val := StringToUnsigned(header, UINT32_MAX);
        if val.Value? {
          msgLength, msgConsumed := val.v, 0;
          return true;
        }
      }
      HangException();
      ok := false;
    }

    // -------------------------------------------------------------- frame synchronisation

    /** What the socket delivers is the rest of the current message, then whole frames with these bodies. */
    ghost predicate Synced(later: seq<Text>)
      reads this
    {
      && Counts() && !hung && AllSendable(later)
      && Left() <= |input| && input[Left()..] == Wire(later)
    }

    /** The fields still to come from the current message. */
    ghost function FieldsLeft(): seq<Text>
      requires Counts() && Left() <= |input|
      reads this
    {
      FieldsOf(input[..Left()])
    }

    /** The header of the next frame is there, and the length it gives is that of its body. */
    method RcvFrame(ghost later: seq<Text>) returns (ok: bool)
      requires Synced(later) && msgLength == 0
      modifies this`msgLength, this`msgConsumed, this`hung, this`input
      ensures ok == (later != []) && Counts()
      ensures ok ==> Synced(later[1..]) && Left() == |later[0]| && input[..Left()] == later[0]
    {
      hide ParseUnsigned, Header, Sendable;
      if later != [] {
        ghost var body := later[0];
        assert Sendable(body);
        SendableHeader(body);
        assert input == Header(|body|) + (body + Wire(later[1..]));
        assert input[..8] == Header(|body|) && input[8..] == body + Wire(later[1..]);
      }
      ok := RcvMessageLength();
    }

    static lemma SendableHeader(body: Text)
      requires Sendable(body)
      ensures |Digits(|body|)| < 8 && ParseUnsigned(Header(|body|), UINT32_MAX) == Value(|body|)
    {
      HeaderParses(|body|);
    }

    /**
      Sends a command as a frame of its own; whatever the last caller left unread is dropped first.
      With feedback the current message is then the next frame, from its first byte.
    */
    method SendCommand(cmd: Text, sent: bool, feedback: bool, ghost later: seq<Text>) returns (ok: bool)
      requires Synced(later)
      modifies this
      ensures Counts() && ok == (0 < |cmd| < 64000 && sent && (feedback ==> later != []))
      ensures ok ==> |Digits(|cmd|)| < 8 && output == old(output) + Header(|cmd|) + cmd
      ensures ok && feedback ==> Synced(later[1..]) && Left() == |later[0]| && input[..Left()] == later[0]
      ensures ok && !feedback ==> Synced(later) && Left() == 0
    {
      hide Header, Digits;
      if msgConsumed != msgLength {
        var n := FlushMessage();
      }
      if 0 < |cmd| < SENDMSG_MAXSIZE {
        ShortNumeral(|cmd|);
        if sent {
          output := output + Header(|cmd|) + cmd;
          ok := true;
          if feedback {
            ok := RcvFrame(later);
          }
          return;
        }
        HangException();
      }
      ok := false;
    }

    static lemma ShortNumeral(n: nat)
      requires n < SENDMSG_MAXSIZE
      ensures |Digits(n)| < 8
    {
      assert n / 10 < 6400 && n / 10 / 10 < 640 && n / 10 / 10 / 10 < 64 && n / 10 / 10 / 10 / 10 < 10;
      assert |Digits(n / 10 / 10 / 10 / 10)| == 1;
      assert |Digits(n / 10 / 10 / 10)| <= 2;
      assert |Digits(n / 10 / 10)| <= 3;
      assert |Digits(n / 10)| <= 4;
    }

    /** The next field of the current message; the frames after it stay where they are. */
    method NextField(ghost later: seq<Text>) returns (ok: bool, field: Text)
      requires Synced(later) && NoNul(input[..Left()])
      modifies this`msgLength, this`msgConsumed, this`hung, this`input
      ensures Synced(later) && NoNul(input[..Left()]) && ok == (old(FieldsLeft()) != [])
      ensures ok ==> old(FieldsLeft()) == [field] + FieldsLeft()
      ensures !ok ==> FieldsLeft() == []
    {
      hide FirstField;
      ghost var body := input[..Left()];
      ok, field := ReadField();
      if ok {
        ghost var k := FirstField(body).1;
        assert input[..Left()] == body[k..];
        assert input[Left()..] == old(input[Left()..]);
      }
    }

    /** A command's caller reads up to `count` fields of its answer. */
    method ReadFields(count: nat, ghost later: seq<Text>) returns (fields: seq<Text>)
      requires Synced(later) && NoNul(input[..Left()])
      modifies this`msgLength, this`msgConsumed, this`hung, this`input
      ensures Synced(later)
      ensures fields <= old(FieldsLeft())
      ensures |fields| == if count <= |old(FieldsLeft())| then count else |old(FieldsLeft())|
    {
      hide FieldsOf, Wire, AllSendable;
      ghost var all := FieldsLeft();
      fields := [];
      for i := 0 to count
        invariant Synced(later) && Counts() && Left() <= |input| && NoNul(input[..Left()])
        invariant |fields| == i && all == fields + FieldsLeft()
      {
        var ok, field := NextField(later);
        if !ok {
          return;
        }
        fields := fields + [field];
      }
    }

    // -------------------------------------------------------------- whole conversations

    /** The caller of the `k`-th command got the first fields of the `k`-th answer and nothing else. */
    static ghost predicate Answered(bodies: seq<Text>, counts: seq<nat>, answers: seq<seq<Text>>) {
      && |answers| <= |counts| <= |bodies|
      && forall k :: 0 <= k < |answers| ==>
           && answers[k] <= FieldsOf(bodies[k])
           && (|answers[k]| == counts[k] || answers[k] == FieldsOf(bodies[k]))
    }

    /**
      A run of commands, each with an answer from the backend, whose callers read as many fields as
      they please and leave the rest: what is sent are the commands, one frame each and in order, and no
      answer is ever mistaken for another.
    */
    method Converse(cmds: seq<Text>, counts: seq<nat>, ghost bodies: seq<Text>) returns (answers: seq<seq<Text>>)
      requires Synced(bodies) && |cmds| == |counts| <= |bodies|
      requires forall i :: 0 <= i < |cmds| ==> 0 < |cmds[i]| < SENDMSG_MAXSIZE
      requires forall i :: 0 <= i < |bodies| ==> NoNul(bodies[i])
      modifies this
      ensures Synced(bodies[|cmds|..]) && |answers| == |cmds| && Answered(bodies, counts, answers)
      ensures AllSendable(cmds) && output == old(output) + Wire(cmds)
    {
      hide FieldsOf, Wire, Header;
      answers := [];
      assert bodies[0..] == bodies;
      CommandsSendable(cmds);
      NothingSent();
      for i := 0 to |cmds|
        invariant |answers| == i && Answered(bodies, counts, answers)
        invariant Synced(bodies[i..]) && output == old(output) + Wire(cmds[..i])
      {
        WireMore(cmds, i);
        var ok := SendCommand(cmds[i], true, true, bodies[i..]);
        assert bodies[i..][1..] == bodies[i + 1..];
        assert input[..Left()] == bodies[i];
        var fields := ReadFields(counts[i], bodies[i + 1..]);
        answers := answers + [fields];
      }
      assert cmds[..|cmds|] == cmds;
    }

    static lemma CommandsSendable(cmds: seq<Text>)
      requires forall i :: 0 <= i < |cmds| ==> 0 < |cmds[i]| < SENDMSG_MAXSIZE
      ensures AllSendable(cmds)
    {
      forall i | 0 <= i < |cmds| ensures Sendable(cmds[i]) {
        ShortNumeral(|cmds[i]|);
      }
    }

    static lemma NothingSent()
      ensures Wire([]) == []
    {
    }
  }
}
