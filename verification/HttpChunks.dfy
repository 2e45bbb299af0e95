/**
  A body in chunked transfer coding (section 7.1 of RFC 9112) read through a chunk buffer.
*/
module HttpChunks {
  import opened Options
  import opened Bytes
  import opened TextBuffers
  import opened StreamSocket

  const CR: Byte := 0x0D
  const LF: Byte := 0x0A
  const CRLF: Text := [CR, LF]
  const SEMICOLON: Byte := 0x3B
  const HEADER_MAXLEN := 0x4000
  const LINE_BUFFER := 0x400
  const CHUNK_MAX_SIZE := 0x20000

  // ---------------------------------------------------------------- the coding

  /** What `sscanf("%x")` makes of "0x0" and the text: its leading hexadecimal digits. */
  function HexPrefix(s: Text, p: nat, val: nat): nat
    requires p <= |s|
    decreases |s| - p
  {
    if p < |s| && HexDigit(s[p]).Some? then HexPrefix(s, p + 1, val * 16 + HexDigit(s[p]).value) else val
  }

  /** The text before the chunk extensions. */
  function BeforeExtensions(s: Text): Text {
    if s == [] || s[0] == SEMICOLON then [] else [s[0]] + BeforeExtensions(s[1..])
  }

  function ChunkSize(line: Text): nat {
    HexPrefix(BeforeExtensions(line), 0, 0)
  }

  /** The value of hexadecimal digits. */
  function Sixteens(digits: seq<nat>): nat {
    if digits == [] then 0 else 16 * Sixteens(digits[..|digits| - 1]) + digits[|digits| - 1]
  }

  predicate AllHex(digits: seq<nat>) {
    forall i :: 0 <= i < |digits| ==> digits[i] < 16
  }

  /** The digits as a sender writes them, each in the case it likes. */
  function HexText(digits: seq<nat>, capital: nat -> bool): (t: Text)
    requires AllHex(digits)
    ensures |t| == |digits| && forall i :: 0 <= i < |t| ==> t[i] == HexOctet(digits[i], capital(i))
    ensures SEMICOLON !in t
  {
    if digits == [] then []
    else
      var k := |digits| - 1;
      HexText(digits[..k], capital) + [HexOctet(digits[k], capital(k))]
  }

  /** Every size has digits. */
  lemma {:induction false} HexDigitsOf(n: nat) returns (digits: seq<nat>)
    ensures digits != [] && AllHex(digits) && Sixteens(digits) == n
  {
    if n < 16 {
      digits := [n];
      assert digits[..0] == [];
    } else {
      var front := HexDigitsOf(n / 16);
      digits := front + [n % 16];
      assert digits[..|front|] == front;
    }
  }

  lemma {:induction false} HexPrefixOf(digits: seq<nat>, capital: nat -> bool, k: nat)
    requires AllHex(digits) && k <= |digits|
    ensures HexPrefix(HexText(digits, capital), k, Sixteens(digits[..k])) == Sixteens(digits)
    decreases |digits| - k
  {
    hide HexText, HexOctet, HexDigit;
    if k < |digits| {
      HexPrefixOf(digits, capital, k + 1);
      assert digits[..k + 1][..k] == digits[..k];
      HexDigitExactly(HexOctet(digits[k], capital(k)), digits[k]);
    } else {
      assert digits[..k] == digits;
    }
  }

  lemma {:induction false} NoExtension(s: Text, ext: Text)
    requires (forall i :: 0 <= i < |s| ==> s[i] != SEMICOLON) && (ext == [] || ext[0] == SEMICOLON)
    ensures BeforeExtensions(s + ext) == s
  {
    if s == [] {
      assert s + ext == ext;
    } else {
      NoExtension(s[1..], ext);
      assert (s + ext)[1..] == s[1..] + ext;
    }
  }

  /**
    A size line as a sender writes it, with digits in either case, leading zeros or not, with or without
    extensions after a semicolon, gives the size back.
  */
  lemma ChunkSizeRoundTrip(digits: seq<nat>, capital: nat -> bool, ext: Text)
    requires AllHex(digits) && (ext == [] || ext[0] == 0x3B)
    ensures ChunkSize(HexText(digits, capital) + ext) == Sixteens(digits)
  {
    NoExtension(HexText(digits, capital), ext);
    HexPrefixOf(digits, capital, 0);
  }

  /** A line the reader returns whole: no CR, no NUL, within the header limit. */
  predicate IsLine(s: Text) {
    |s| < HEADER_MAXLEN && forall i :: 0 <= i < |s| ==> s[i] != CR && s[i] != 0
  }

  /** A chunk: its size line, which may carry extensions, and its data. */
  datatype Chunk = Chunk(head: Text, data: Text)

  predicate Proper(c: Chunk) {
    IsLine(c.head) && c.head != [] && 0 < |c.data| <= CHUNK_MAX_SIZE && ChunkSize(c.head) == |c.data|
  }

  /** The end of the body: a size line of zero, trailer lines, an empty line. */
  datatype Ending = Ending(head: Text, trailers: seq<Text>)

  predicate ProperEnding(e: Ending) {
    IsLine(e.head) && e.head != [] && ChunkSize(e.head) == 0 && ProperTrailers(e.trailers)
  }

  function Lines(trailers: seq<Text>): Text {
    if trailers == [] then CRLF else trailers[0] + CRLF + Lines(trailers[1..])
  }

  function Encode(chunks: seq<Chunk>, e: Ending): Text {
    if chunks == [] then e.head + CRLF + Lines(e.trailers)
    else chunks[0].head + CRLF + chunks[0].data + CRLF + Encode(chunks[1..], e)
  }

  /** One chunk, the end and a trailer, octet by octet. */
  lemma EncodedOctets(head: Text, data: Text, trailer: Text)
    ensures
      Encode([Chunk(head, data)], Ending([0x30], [trailer])) ==
        head + [0x0D, 0x0A] + data + [0x0D, 0x0A] + ([0x30, 0x0D, 0x0A] + (trailer + [0x0D, 0x0A] + [0x0D, 0x0A]))
  {
    assert Lines([trailer]) == trailer + CRLF + CRLF;
    assert Encode([], Ending([0x30], [trailer])) == [0x30, 0x0D, 0x0A] + Lines([trailer]);
  }

  /** The limits of a line and of a chunk. */
  lemma Limits(s: Text, c: Chunk)
    ensures IsLine(s) <==> |s| < 16384 && 0x0D !in s && 0 !in s
    ensures Proper(c) ==> |c.data| <= 131072
  {
    if 0x0D !in s && 0 !in s {
      assert forall i :: 0 <= i < |s| ==> s[i] in s;
    }
  }

  function Decoded(chunks: seq<Chunk>): Text {
    if chunks == [] then [] else chunks[0].data + Decoded(chunks[1..])
  }

  function First(s: Text, k: nat): Text {
    if k <= |s| then s[..k] else s
  }

  predicate AllProper(chunks: seq<Chunk>) {
    forall i :: 0 <= i < |chunks| ==> Proper(chunks[i])
  }

  // ---------------------------------------------------------------- lines

  /** The stream is a line, its end and `rest`, and all of it arrives. */
  ghost predicate Offers(socket: TcpSocket, line: Text, rest: Text)
    requires socket.Valid()
    reads socket, socket.buffer
  {
    socket.Steady() && IsLine(line) && socket.Stream() == line + CRLF + rest
  }

  /** After `i` bytes of a line and its end, this much of the end is matched. */
  function MatchedIn(line: Text, i: nat): nat {
    if i <= |line| then 0 else i - |line|
  }

  /** Each byte of such a stream moves the matcher as it should. */
  lemma LineByte(want: Text, rest: Text, i: nat)
    requires IsLine(want) && i < |want| + 2
    ensures
      var b := (want + CRLF + rest)[i];
      var k := MatchedIn(want, i);
      MatchedIn(want, i + 1) == (if b == CRLF[k] then k + 1 else 0) && (MatchedIn(want, i + 1) == 0 ==> i < |want|)
  {
    if i < |want| {
      assert want[i] != CR;
    }
  }

  lemma LineSeen(want: Text, rest: Text, seen: Text, left: Text)
    requires IsLine(want) && seen + left == want + CRLF + rest && |seen| == |want| + 2
    ensures NoNul(seen) && seen[..|seen| - 2] == want && left == rest
  {
    var all := want + CRLF + rest;
    assert seen == all[..|want| + 2] == want + CRLF;
    assert left == all[|want| + 2..];
  }

  /** One byte from the socket to the buffer. */
  method TakeByte(socket: TcpSocket, b: TextBuffer) returns (ok: bool)
    requires socket.Valid() && b.Valid() && b.matched < |b.separator| && b.buf != socket.buffer
    modifies socket, socket.buffer, b, b.buf
    ensures socket.Valid() && b.Valid() && (old(socket.Steady()) ==> socket.Steady())
    ensures b.seen + socket.Stream() == old(b.seen + socket.Stream())
    ensures ok ==>
      && |b.seen| == |old(b.seen)| + 1 && |socket.Stream()| < |old(socket.Stream())|
      && b.matched == (if b.seen[|old(b.seen)|] == b.separator[old(b.matched)] then old(b.matched) + 1 else 0)
      && (b.moved == old(b.moved) || (b.matched == 0 && b.moved == |b.seen|))
    ensures !ok ==> b.seen == old(b.seen) && (old(socket.Steady()) ==> old(socket.Stream()) == [])
  {
    hide TcpSocket.Stream, TextBuffer.Valid;
    var bytes := socket.ReceiveData(1);
    ok := bytes != [];
    if ok {
      ghost var was := b.seen;
      b.Take(bytes[0]);
      assert bytes == [bytes[0]];
      assert was + [bytes[0]] + socket.Stream() == was + (bytes + socket.Stream());
    }
  }

  /**
    `ReadHeaderLine` up to CRLF. A line without CR and NUL, within the limit, comes back whole, and
    what follows it is left in the stream.
  */
  method ReadHeaderLine(socket: TcpSocket, ghost want: Text, ghost rest: Text) returns (ok: bool, line: Text, len: nat)
    requires socket.Valid()
    modifies socket, socket.buffer
    ensures socket.Valid() && (old(socket.Steady()) ==> socket.Steady())
    ensures ok ==> |socket.Stream()| < |old(socket.Stream())|
    ensures old(Offers(socket, want, rest)) ==> ok && line == want && len == |want| && socket.Stream() == rest
  {
    hide TcpSocket.Stream, TextBuffer.Valid, IsLine, MatchedIn, TcpSocket.Steady;
    var b := new TextBuffer(CRLF, LINE_BUFFER);
    ghost var all, good := socket.Stream(), Offers(socket, want, rest);
    MatchedAt(want);
    while b.matched < 2 && b.moved < HEADER_MAXLEN
      invariant socket.Valid() && b.Valid() && fresh(b) && fresh(b.buf) && b.separator == CRLF
      invariant old(socket.Steady()) ==> socket.Steady()
      invariant b.seen + socket.Stream() == all
      invariant good ==> |b.seen| <= |want| + 2 && b.matched == MatchedIn(want, |b.seen|) && b.moved <= |want|
      decreases |socket.Stream()|
    {
      ghost var i := |b.seen|;
      if good {
        LineByte(want, rest, i);
      }
      var got := TakeByte(socket, b);
      if !got {
        return false, b.text, b.moved;
      }
      assert b.seen[i] == all[i];
    }
    if good {
      LineSeen(want, rest, b.seen, socket.Stream());
    }
    len := b.Length();
    len := if b.matched == 2 then len - 2 else b.moved;
    line := b.Finish();
    ok := true;
  }

  lemma MatchedAt(want: Text)
    ensures MatchedIn(want, 0) == 0
    ensures forall i: nat {:trigger MatchedIn(want, i)} :: i <= |want| + 2 ==>
      MatchedIn(want, i) <= 2 && (MatchedIn(want, i) == 2 <==> i == |want| + 2)
    ensures IsLine(want) ==> |want| < HEADER_MAXLEN
  {
  }

  /** The next line that is not empty: the size line, after the end of the chunk before it if there was one. */
  method ReadSizeLine(socket: TcpSocket, ghost blank: bool, ghost want: Text, ghost rest: Text) returns (line: Text)
    requires socket.Valid()
    modifies socket, socket.buffer
    ensures socket.Valid() && (old(socket.Steady()) ==> socket.Steady())
    ensures
      old(socket.Steady() && IsLine(want) && want != []
          && socket.Stream() == (if blank then CRLF else []) + (want + CRLF + rest)) ==>
        line == want && socket.Stream() == rest
  {
    hide TcpSocket.Stream, TcpSocket.Steady;
    ghost var good := socket.Steady() && IsLine(want) && want != []
      && socket.Stream() == (if blank then CRLF else []) + (want + CRLF + rest);
    ghost var after := if blank then want + CRLF + rest else rest;
    var ok, len;
    assert good ==> Offers(socket, if blank then [] else want, after) by {
      assert [] + CRLF + after == CRLF + after && [] + (want + CRLF + rest) == want + CRLF + rest;
    }
    ok, line, len := ReadHeaderLine(socket, if blank then [] else want, after);
    while ok && len == 0
      invariant socket.Valid() && (old(socket.Steady()) ==> socket.Steady())
      invariant good ==> ok
      invariant good && len == 0 ==> Offers(socket, want, rest)
      invariant good && len > 0 ==> line == want && socket.Stream() == rest
      decreases ok, |socket.Stream()|
    {
      ok, line, len := ReadHeaderLine(socket, want, rest);
    }
  }

  /** Trailer lines up to the empty one. */
  method ReadTrailers(socket: TcpSocket, ghost trailers: seq<Text>, ghost after: Text)
    requires socket.Valid()
    modifies socket, socket.buffer
    ensures socket.Valid() && (old(socket.Steady()) ==> socket.Steady())
    ensures old(socket.Steady() && ProperTrailers(trailers) && socket.Stream() == Lines(trailers) + after) ==>
      socket.Stream() == after
  {
    hide TcpSocket.Stream, TcpSocket.Steady, IsLine;
    ghost var good := socket.Steady() && ProperTrailers(trailers) && socket.Stream() == Lines(trailers) + after;
    ghost var i := 0;
    EmptyLine();
    assert trailers[0..] == trailers;
    var ok, len := true, 1;
    while ok && len != 0
      invariant socket.Valid() && (old(socket.Steady()) ==> socket.Steady())
      invariant good && len != 0 ==> i <= |trailers| && socket.Stream() == Lines(trailers[i..]) + after
      invariant good && (len == 0 || !ok) ==> socket.Stream() == after
      decreases ok, |socket.Stream()|
    {
      ghost var want := if i < |trailers| then trailers[i] else [];
      ghost var rest := if i < |trailers| then Lines(trailers[i + 1..]) + after else after;
      if good {
        NextTrailer(trailers, i, after);
      }
      var line;
      ok, line, len := ReadHeaderLine(socket, want, rest);
      i := i + 1;
    }
  }

  predicate ProperTrailers(trailers: seq<Text>) {
    forall i :: 0 <= i < |trailers| ==> IsLine(trailers[i]) && trailers[i] != []
  }

  lemma EmptyLine()
    ensures IsLine([])
  {
  }

  lemma NextTrailer(trailers: seq<Text>, i: nat, after: Text)
    requires i <= |trailers|
    ensures Lines(trailers[i..]) + after ==
            if i < |trailers| then trailers[i] + CRLF + (Lines(trailers[i + 1..]) + after) else [] + CRLF + after
  {
    if i < |trailers| {
      assert trailers[i..][1..] == trailers[i + 1..];
    }
  }

  // ---------------------------------------------------------------- the reader

  class ChunkReader {
    const socket: TcpSocket
    var chunk: array<Byte>
    var ptr: nat
    var eor: nat
    var end: nat
    var consumed: nat
    /** What the peer sends from here on: chunks, the ending, and whatever comes after it. */
    ghost var chunks: seq<Chunk>
    ghost const ending: Ending
    ghost const after: Text
    ghost var started: bool
    ghost var done: bool

    /** The four pointers are in order. */
    ghost predicate Valid()
      reads this, socket
    {
      socket.Valid() && chunk != socket.buffer && ptr <= eor <= end == chunk.Length
    }

    /** What follows the data of the current chunk. */
    ghost function Following(): Text
      reads this`chunks, this`started
    {
      (if started then CRLF else []) + (Encode(chunks, ending) + after)
    }

    /** The stream is the rest of the current chunk and what follows. */
    ghost predicate InSync()
      requires Valid()
      reads this, socket, socket.buffer
    {
      && socket.Steady() && AllProper(chunks) && ProperEnding(ending) && !done
      && end - eor <= |socket.Stream()| && socket.Stream()[end - eor..] == Following()
    }

    /** The decoded bytes still to be handed out. */
    ghost function Body(): Text
      requires Valid()
      reads this, socket, socket.buffer, chunk
    {
      chunk[ptr..eor] + First(socket.Stream(), end - eor) + Decoded(chunks)
    }

    constructor (socket: TcpSocket, ghost chunks: seq<Chunk>, ghost ending: Ending, ghost after: Text)
      requires socket.Valid() && socket.Steady() && AllProper(chunks) && ProperEnding(ending)
      requires socket.Stream() == Encode(chunks, ending) + after
      ensures Valid() && InSync() && Body() == Decoded(chunks) && this.socket == socket && fresh(chunk)
      ensures this.ending == ending && this.after == after
    {
      this.socket := socket;
      chunk := new Byte[0];
      ptr, eor, end, consumed := 0, 0, 0, 0;
      this.chunks, this.ending, this.after, started, done := chunks, ending, after, false, false;
      new;
      assert [] + (Encode(chunks, ending) + after) == Encode(chunks, ending) + after;
      assert socket.Stream()[0..] == socket.Stream();
      assert socket.Stream()[..0] == [] && chunk[0..0] == [];
    }

    /** Hands out what is in the chunk buffer. */
    method Deliver(n: nat) returns (bytes: Text)
      requires Valid()
      modifies this`ptr, this`consumed
      ensures Valid() && |bytes| == (if n < old(eor - ptr) then n else old(eor - ptr))
      ensures old(InSync()) ==> InSync() && old(Body()) == bytes + Body()
    {
      hide TcpSocket.Stream, Encode, Decoded;
      var s := eor - ptr;
      s := if n < s then n else s;
      bytes := chunk[ptr..ptr + s];
      assert chunk[ptr..eor] == bytes + chunk[ptr + s..eor];
      ptr := ptr + s;
      consumed := consumed + s;
      if InSync() {
        ghost var front, data := chunk[ptr..eor], socket.Stream()[..end - eor];
        assert bytes + front + data + Decoded(chunks) == bytes + (front + data + Decoded(chunks));
      }
    }

    /** Asks for the rest of the chunk, once everything received was handed out. */
    method Fill()
      requires Valid()
      modifies this`eor, socket, socket.buffer, chunk
      ensures Valid() && ptr == old(ptr) && end == old(end)
      ensures old(InSync()) ==> InSync() && Body() == old(Body()) && (ptr < eor || eor == end)
    {
      if ptr >= eor {
        FillUp();
      }
    }

    method FillUp()
      requires Valid() && ptr == eor
      modifies this`eor, socket, socket.buffer, chunk
      ensures Valid()
      ensures old(InSync()) ==> InSync() && eor == end && Body() == old(Body())
    {
      hide Encode, Decoded, TcpSocket.Stream, Following, AllProper, ProperEnding, TcpSocket.Steady;
      ghost var good, stream, want := InSync(), socket.Stream(), end - eor;
      var bytes := socket.ReceiveData(end - eor);
      if good {
        Received(bytes, socket.Stream(), stream, want, Following());
      }
      Append(bytes);
      assert chunk[ptr..eor] == bytes;
    }

    method Append(bytes: Text)
      requires eor + |bytes| <= chunk.Length
      modifies this`eor, chunk
      ensures eor == old(eor) + |bytes| && chunk[old(eor)..eor] == bytes
    {
      forall k | eor <= k < eor + |bytes| {
        chunk[k] := bytes[k - eor];
      }
      eor := eor + |bytes|;
    }

    static lemma Received(bytes: Text, left: Text, stream: Text, want: nat, following: Text)
      requires bytes + left == stream && |bytes| <= want <= |stream| && (|bytes| == want || left == [])
      requires stream[want..] == following
      ensures |bytes| == want && bytes == stream[..want] && left == following && left[0..] == left && left[..0] == []
    {
      assert stream[..|bytes|] == bytes && stream[|bytes|..] == left;
    }

    /** Where the next size line is in the stream: after the end of the last chunk, if there was one. */
    ghost function SizeLine(): Text
      reads this`chunks
    {
      if chunks == [] then ending.head else chunks[0].head
    }

    ghost function AfterSizeLine(): Text
      reads this`chunks
    {
      if chunks == [] then Lines(ending.trailers) + after
      else chunks[0].data + (CRLF + (Encode(chunks[1..], ending) + after))
    }

    lemma FollowingIs()
      ensures Encode(chunks, ending) + after == SizeLine() + CRLF + AfterSizeLine()
    {
      if chunks == [] {
        assert ending.head + CRLF + Lines(ending.trailers) + after ==
          ending.head + CRLF + (Lines(ending.trailers) + after);
      } else {
        var c, rest := chunks[0], Encode(chunks[1..], ending);
        assert c.head + CRLF + c.data + CRLF + rest + after == c.head + CRLF + (c.data + (CRLF + (rest + after)));
      }
    }

    /** Between chunks the stream is what follows, starting with a size line. */
    lemma Settled()
      requires Valid() && InSync() && ptr == eor == end
      ensures socket.Stream() == Following() && Body() == Decoded(chunks) && (chunks == [] ==> Body() == [])
      ensures IsLine(SizeLine()) && SizeLine() != [] && ProperTrailers(ending.trailers)
      ensures ChunkSize(SizeLine()) == if chunks == [] then 0 else |chunks[0].data|
      ensures chunks != [] ==> 0 < |chunks[0].data| <= CHUNK_MAX_SIZE
    {
      assert socket.Stream()[0..] == socket.Stream() && socket.Stream()[..0] == [] && chunk[ptr..eor] == [];
      if chunks != [] {
        assert Proper(chunks[0]);
      }
    }

    static lemma SplitAt(data: Text, tail: Text)
      ensures (data + tail)[..|data|] == data && (data + tail)[|data|..] == tail
    {
    }

    static lemma DecodedStep(chunks: seq<Chunk>, none: Text)
      requires chunks != [] && none == []
      ensures Decoded(chunks) == none + chunks[0].data + Decoded(chunks[1..])
    {
      assert none + chunks[0].data == chunks[0].data;
    }

    /** The size line of the next chunk has been read, and its data comes next. */
    ghost predicate Ready(size: nat)
      requires Valid()
      reads this, socket, socket.buffer
    {
      && socket.Steady() && AllProper(chunks) && ProperEnding(ending) && !done
      && chunks != [] && size == |chunks[0].data| && socket.Stream() == AfterSizeLine()
    }

    method OpenChunk(size: nat)
      requires Valid()
      modifies this
      ensures Valid() && fresh(chunk) && ptr == eor == 0 && end == size
      ensures old(Ready(size)) ==> InSync() && Body() == Decoded(old(chunks))
    {
      hide Encode, Decoded, TcpSocket.Stream, TcpSocket.Steady, Proper, ProperEnding;
      ghost var ready, was := Ready(size), chunks;
      chunk := new Byte[size];
      ptr, eor, end := 0, 0, size;
      if ready {
        SplitAt(chunks[0].data, CRLF + (Encode(chunks[1..], ending) + after));
        DecodedStep(was, chunk[0..0]);
        started, chunks := true, chunks[1..];
      }
    }

    /** Drops the chunk buffer and reads the size line of the next chunk, -1 if there is none. */
    method ReadSize() returns (size: int)
      requires Valid() && ptr == eor == end
      modifies this`chunk, this`ptr, this`eor, this`end, socket, socket.buffer
      ensures Valid() && fresh(chunk) && ptr == eor == end == 0 && size >= -1
      ensures old(InSync()) ==>
        && socket.Steady() && socket.Stream() == AfterSizeLine()
        && size == if chunks == [] then 0 else |chunks[0].data|
    {
      hide Encode, TcpSocket.Stream, TcpSocket.Steady, IsLine, ChunkSize;
      hide Lines, AllProper, ProperEnding, ProperTrailers, AfterSizeLine, SizeLine;
      FollowingIs();
      if InSync() {
        Settled();
      }
      ghost var want, rest := SizeLine(), AfterSizeLine();
      chunk := new Byte[0];
      ptr, eor, end := 0, 0, 0;
      var line := ReadSizeLine(socket, started, want, rest);
      size := if line == [] then -1 else ChunkSize(line);
    }

    /** The size line, and the end of the body after the last chunk. */
    method NextChunk() returns (r: int)
      requires Valid() && ptr == eor == end
      modifies this, socket, socket.buffer
      ensures Valid() && fresh(chunk) && -1 <= r <= 1 && ptr == eor == 0
      ensures old(InSync()) && old(chunks) != [] ==> r == 1 && InSync() && end > 0 && Body() == old(Body())
      ensures old(InSync()) && old(chunks) == [] ==> r == 0 && done && socket.Stream() == after
    {
      hide Encode, Decoded, TcpSocket.Stream, Lines, AllProper, Proper, ProperTrailers, IsLine, ChunkSize, Following;
      if InSync() {
        Settled();
      }
      var size := ReadSize();
      if size < 0 || size > CHUNK_MAX_SIZE {
        return -1;
      }
      if size > 0 {
        OpenChunk(size);
        r := 1;
      } else {
        ReadTrailers(socket, ending.trailers, after);
        done := true;
        r := 0;
      }
    }

    /** A chunk with bytes to hand out, unless the body is finished. */
    method Advance() returns (r: int)
      requires Valid()
      modifies this, socket, socket.buffer
      ensures Valid() && -1 <= r <= 1 && (chunk == old(chunk) || fresh(chunk))
      ensures old(InSync()) ==>
        if r == 1 then InSync() && ptr < end && Body() == old(Body())
        else r == 0 && done && old(Body()) == [] && socket.Stream() == after
    {
      hide Encode, Decoded, TcpSocket.Stream, TcpSocket.Steady, AllProper;
      hide ProperEnding, Following, Body, SizeLine, IsLine, ChunkSize;
      r := 1;
      if ptr >= end {
        if InSync() {
          Settled();
        }
        r := NextChunk();
      }
    }

    method Serve(n: nat) returns (bytes: Text)
      requires Valid()
      modifies this`ptr, this`eor, this`consumed, socket, socket.buffer, chunk
      ensures Valid() && |bytes| <= n
      ensures old(InSync()) ==> InSync() && old(Body()) == bytes + Body() && (n > 0 && old(ptr) < end ==> bytes != [])
    {
      hide InSync, Body;
      Fill();
      bytes := Deliver(n);
    }

    /**
      `ReadChunk`: for a well-formed body whose bytes all arrive, the next decoded bytes, at most as
      many as the caller has room for; nothing exactly when the body is finished or there is no room.
    */
    method ReadChunk(n: nat) returns (r: int, bytes: Text)
      requires Valid()
      modifies this, socket, socket.buffer, chunk
      ensures Valid() && (r == -1 || r == |bytes| <= n) && (chunk == old(chunk) || fresh(chunk))
      ensures old(InSync()) ==>
        && r >= 0
        && (if done then r == 0 && old(Body()) == [] && socket.Stream() == after
            else InSync() && old(Body()) == bytes + Body() && (n > 0 ==> r > 0))
    {
      hide Encode, Decoded, TcpSocket.Stream, TcpSocket.Steady, AllProper, ProperEnding, Following, Body;
      bytes := [];
      r := Advance();
      if r == 1 {
        bytes := Serve(n);
        r := |bytes|;
      }
    }

    /**
      Any sequence of reads, up to the one that gives nothing: together they are the decoded body,
      whatever the callers' buffers, and the stream is left right after it.
    */
    method ReadAll(rooms: seq<nat>) returns (body: Text)
      requires Valid() && InSync() && forall i :: 0 <= i < |rooms| ==> rooms[i] > 0
      modifies this, socket, socket.buffer, chunk
      ensures Valid() && body <= old(Body())
      ensures done ==> body == old(Body()) && socket.Stream() == after
      ensures !done ==> InSync() && body + Body() == old(Body()) && |body| >= |rooms|
    {
      hide Encode, Decoded, TcpSocket.Stream, TcpSocket.Steady, AllProper, ProperEnding, Following, Body;
      body := [];
      ghost var all := Body();
      for i := 0 to |rooms|
        invariant Valid() && InSync() && (chunk == old(chunk) || fresh(chunk))
        invariant body + Body() == all && |body| >= i
      {
        ghost var left := Body();
        var r, bytes := ReadChunk(rooms[i]);
        if r <= 0 {
          return;
        }
        assert body + (bytes + Body()) == body + bytes + Body();
        body := body + bytes;
      }
    }
  }
}
