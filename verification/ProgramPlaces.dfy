/**
  Which field of a message is which item of a program's record, place by place, and what its text means. The tables
  of the reader and the writer do not occur.
*/
module ProgramPlaces {
  import opened Options
  import opened Bytes
  import opened TextBuffers
  import opened DecimalText
  import opened FieldSplitter
  import opened ProgramInfo

  /** How many fields a record has. */
  function Count(version: nat): nat {
    if version < 79 then 47 else if version < 82 then 49 else if version < 86 then 50 else 52
  }

  /** The place of an item in versions before 79. */
  function Place76(n: Name): nat {
    match n
    case Title => 0 case SubTitle => 1 case Description => 2 case Season => 3 case Episode => 4
    case Category => 6 case ChanId => 7 case ChanNum => 8 case CallSign => 9 case ChannelName => 10
    case FileName => 11 case FileSize => 12 case StartTime => 13 case EndTime => 14
    case HostName => 16 case SourceId => 17 case InputId => 19 case Priority => 20 case Status => 21
    case RecordId => 22 case RecType => 23 case DupInType => 24 case DupMethod => 25 case StartTs => 26 case EndTs => 27
    case ProgramFlags => 28 case RecGroup => 29 case ChanFilters => 30 case SeriesId => 31 case ProgramId => 32
    case Inetref => 33 case LastModified => 34 case Stars => 35 case Airdate => 36 case PlayGroup => 37
    case StorageGroup => 40 case AudioProps => 41 case VideoProps => 42 case SubProps => 43
    case CatType => 47 case RecordedId => 48
  }

  /** From version 79 on a number of episodes comes before all but the first five, and two items are new. */
  function Place(version: nat, n: Name): Option<nat> {
    if n == CatType && version < 79 then None
    else if n == RecordedId && version < 82 then None
    else if version < 79 || Place76(n) < 5 then Some(Place76(n))
    else Some(Place76(n) + 1)
  }

  predicate UnsignedTo(t: Text, max: nat, x: Item) {
    x.NumberItem? && 0 <= x.n <= max && ParseUnsigned(t, 0xFFFF_FFFF) == Value(x.n)
  }

  predicate SignedTo(t: Text, limit: nat, min: int, max: int, x: Item) {
    x.NumberItem? && min <= x.n <= max && ParseSigned(t, limit) == Value(x.n)
  }

  /** The category types by their numbers: movie, series, sports, tvshow, and nothing for any other. */
  function CategoryText(v: int): Text {
    if v == 1 then [0x6D, 0x6F, 0x76, 0x69, 0x65]
    else if v == 2 then [0x73, 0x65, 0x72, 0x69, 0x65, 0x73]
    else if v == 3 then [0x73, 0x70, 0x6F, 0x72, 0x74, 0x73]
    else if v == 4 then [0x74, 0x76, 0x73, 0x68, 0x6F, 0x77]
    else []
  }

  /** What the text of a field says of an item. A double is its text. */
  predicate Says(n: Name, t: Text, x: Item) {
    match n
    case Season | Episode | AudioProps | VideoProps | SubProps => UnsignedTo(t, 65535, x)
    case RecType | DupInType | DupMethod => UnsignedTo(t, 255, x)
    case ChanId | SourceId | InputId | RecordId | ProgramFlags | RecordedId => UnsignedTo(t, 4294967295, x)
    case Status => SignedTo(t, 2147483647, -128, 127, x)
    case Priority => SignedTo(t, 2147483647, -2147483647, 2147483647, x)
    case FileSize | StartTime | EndTime | StartTs | EndTs | LastModified =>
      SignedTo(t, 9223372036854775807, -9223372036854775807, 9223372036854775807, x)
    case CatType =>
      ParseSigned(t, 9223372036854775807).Value? &&
      x == TextItem(CategoryText(ToInt32(ParseSigned(t, 9223372036854775807).v)))
    case _ => x == TextItem(t)
  }

  // ---------------------------------------------------------------- the tables keep the places

  function KindOf(n: Name): Kind {
    match n
    case Season | Episode | AudioProps | VideoProps | SubProps => U16
    case RecType | DupInType | DupMethod => U8
    case ChanId | SourceId | InputId | RecordId | ProgramFlags | RecordedId => U32
    case Status => I8
    case Priority => I32
    case FileSize | StartTime | EndTime | StartTs | EndTs | LastModified => I64
    case CatType => CategoryNumber
    case Stars => Double
    case _ => Plain
  }

  /** A part of the table of an early version that starts at `from`: whatever it has is in its place. */
  ghost predicate Placed(rs: seq<Reader>, from: nat) {
    forall i :: 0 <= i < |rs| && rs[i].Get? ==> Place76(rs[i].name) == from + i && rs[i].kind == KindOf(rs[i].name)
  }

  /** And it has whatever should be there. */
  ghost predicate InPlace76(rs: seq<Reader>, from: nat) {
    Placed(rs, from) && forall n :: from <= Place76(n) < from + |rs| ==> rs[Place76(n) - from] == Get(n, KindOf(n))
  }

  lemma TitlesPlaced()
    ensures Placed(READ_TITLES, 0) && |READ_TITLES| == 5
  {
  }

  lemma TitlesHas(n: Name)
    requires 0 <= Place76(n) < 5
    ensures |READ_TITLES| == 5 && READ_TITLES[Place76(n) - 0] == Get(n, KindOf(n))
  {
    match n
    case Title => case SubTitle => case Description => case Season => case Episode => case _ =>
  }

  lemma TitlesInPlace()
    ensures InPlace76(READ_TITLES, 0) && |READ_TITLES| == 5
  {
    TitlesPlaced();
    hide READ_TITLES, Placed;
    forall n | 0 <= Place76(n) < 5 ensures READ_TITLES[Place76(n) - 0] == Get(n, KindOf(n)) {
      TitlesHas(n);
    }
  }

  lemma ChannelPlaced()
    ensures Placed(READ_CHANNEL, 5) && |READ_CHANNEL| == 11
  {
  }

  lemma ChannelHas(n: Name)
    requires 5 <= Place76(n) < 16
    ensures |READ_CHANNEL| == 11 && READ_CHANNEL[Place76(n) - 5] == Get(n, KindOf(n))
  {
    match n
    case Category => case ChanId => case ChanNum => case CallSign => case ChannelName => case FileName =>
    case FileSize => case StartTime => case EndTime => case _ =>
  }

  lemma ChannelInPlace()
    ensures InPlace76(READ_CHANNEL, 5) && |READ_CHANNEL| == 11
  {
    ChannelPlaced();
    hide READ_CHANNEL, Placed;
    forall n | 5 <= Place76(n) < 16 ensures READ_CHANNEL[Place76(n) - 5] == Get(n, KindOf(n)) {
      ChannelHas(n);
    }
  }

  lemma RecordingKinds()
    ensures forall i :: 0 <= i < |READ_RECORDING| && READ_RECORDING[i].Get? ==>
      READ_RECORDING[i].kind == KindOf(READ_RECORDING[i].name)
  {
    hide Place76;
  }

  lemma RecordingPlaced()
    ensures Placed(READ_RECORDING, 16) && |READ_RECORDING| == 12
  {
    RecordingKinds();
    hide KindOf;
  }

  lemma RecordingHas(n: Name)
    requires 16 <= Place76(n) < 28
    ensures |READ_RECORDING| == 12 && READ_RECORDING[Place76(n) - 16] == Get(n, KindOf(n))
  {
    match n
    case HostName => case SourceId => case InputId => case Priority => case Status => case RecordId =>
    case RecType => case DupInType => case DupMethod => case StartTs => case EndTs => case _ =>
  }

  lemma RecordingInPlace()
    ensures InPlace76(READ_RECORDING, 16) && |READ_RECORDING| == 12
  {
    RecordingPlaced();
    hide READ_RECORDING, Placed;
    forall n | 16 <= Place76(n) < 28 ensures READ_RECORDING[Place76(n) - 16] == Get(n, KindOf(n)) {
      RecordingHas(n);
    }
  }

  lemma ProgramKinds()
    ensures forall i :: 0 <= i < |READ_PROGRAM| && READ_PROGRAM[i].Get? ==>
      READ_PROGRAM[i].kind == KindOf(READ_PROGRAM[i].name)
  {
    hide Place76;
  }

  lemma ProgramPlaced()
    ensures Placed(READ_PROGRAM, 28) && |READ_PROGRAM| == 10
  {
    ProgramKinds();
    hide KindOf;
  }

  lemma ProgramHas(n: Name)
    requires 28 <= Place76(n) < 38
    ensures |READ_PROGRAM| == 10 && READ_PROGRAM[Place76(n) - 28] == Get(n, KindOf(n))
  {
    match n
    case ProgramFlags => case RecGroup => case ChanFilters => case SeriesId => case ProgramId =>
    case Inetref => case LastModified => case Stars => case Airdate => case PlayGroup => case _ =>
  }

  lemma ProgramInPlace()
    ensures InPlace76(READ_PROGRAM, 28) && |READ_PROGRAM| == 10
  {
    ProgramPlaced();
    hide READ_PROGRAM, Placed;
    forall n | 28 <= Place76(n) < 38 ensures READ_PROGRAM[Place76(n) - 28] == Get(n, KindOf(n)) {
      ProgramHas(n);
    }
  }

  lemma PropsKinds()
    ensures forall i :: 0 <= i < |READ_PROPS| && READ_PROPS[i].Get? ==> READ_PROPS[i].kind == KindOf(READ_PROPS[i].name)
  {
    hide Place76;
  }

  lemma PropsPlaced()
    ensures Placed(READ_PROPS, 38) && |READ_PROPS| == 9
  {
    PropsKinds();
    hide KindOf;
  }

  lemma PropsHas(n: Name)
    requires 38 <= Place76(n) < 47
    ensures |READ_PROPS| == 9 && READ_PROPS[Place76(n) - 38] == Get(n, KindOf(n))
  {
    match n
    case StorageGroup => case AudioProps => case VideoProps => case SubProps => case _ =>
  }

  lemma PropsInPlace()
    ensures InPlace76(READ_PROPS, 38) && |READ_PROPS| == 9
  {
    PropsPlaced();
    hide READ_PROPS, Placed;
    forall n | 38 <= Place76(n) < 47 ensures READ_PROPS[Place76(n) - 38] == Get(n, KindOf(n)) {
      PropsHas(n);
    }
  }

  // ---------------------------------------------------------------- the whole table

  /** A part of the table that starts at `from`. */
  ghost predicate InPlace(version: nat, rs: seq<Reader>, from: nat) {
    && (forall i :: 0 <= i < |rs| && rs[i].Get? ==>
          Place(version, rs[i].name) == Some(from + i) && rs[i].kind == KindOf(rs[i].name))
    && forall n :: Place(version, n).Some? && from <= Place(version, n).value < from + |rs| ==>
         rs[Place(version, n).value - from] == Get(n, KindOf(n))
  }

  /** The table up to a place. */
  ghost predicate UpTo(version: nat, rs: seq<Reader>, length: nat) {
    |rs| == length && InPlace(version, rs, 0)
  }

  lemma OneMore(version: nat, a: seq<Reader>, b: seq<Reader>, from: nat, to: nat)
    requires UpTo(version, a, from) && InPlace(version, b, from) && to == from + |b|
    ensures UpTo(version, a + b, to)
  {
    hide Place, KindOf;
  }

  lemma PlaceMoves(version: nat, n: Name, i: nat)
    requires i < 47
    ensures Place76(n) == i <==> Place(version, n) == Some(if i < 5 || version < 79 then i else i + 1)
  {
    assert Place76(CatType) == 47 && Place76(RecordedId) == 48;
    hide Place76;
  }

  lemma Shifted(version: nat, rs: seq<Reader>, from: nat)
    requires InPlace76(rs, from) && (from + |rs| <= 5 || 5 <= from) && from + |rs| <= 47
    ensures InPlace(version, rs, if from < 5 || version < 79 then from else from + 1)
  {
    hide Place76, Place, KindOf;
    var to := if from < 5 || version < 79 then from else from + 1;
    forall i | 0 <= i < |rs| && rs[i].Get? ensures Place(version, rs[i].name) == Some(to + i) {
      PlaceMoves(version, rs[i].name, from + i);
    }
    forall n | Place(version, n).Some? && to <= Place(version, n).value < to + |rs|
      ensures rs[Place(version, n).value - to] == Get(n, KindOf(n))
    {
      PlaceMoves(version, n, Place(version, n).value - to + from);
    }
  }

  lemma NoSuchPlace(n: Name)
    ensures Place76(n) != 5 && Place76(n) <= 48
    ensures (Place76(n) == 47 <==> n == CatType) && (Place76(n) == 48 <==> n == RecordedId)
  {
  }

  lemma NothingAt(version: nat, n: Name)
    ensures version >= 79 ==> Place(version, n) != Some(5)
    ensures Place(version, n) != Some(50) && Place(version, n) != Some(51)
    ensures Place(version, n) == Some(48) && version >= 79 ==> n == CatType
    ensures Place(version, n) == Some(49) ==> n == RecordedId
  {
    NoSuchPlace(n);
    hide Place76;
  }

  lemma Extra(version: nat)
    ensures version >= 79 ==> InPlace(version, [Ignore], 5) && InPlace(version, [Get(CatType, CategoryNumber)], 48)
    ensures version >= 82 ==> InPlace(version, [Get(RecordedId, U32)], 49)
    ensures version >= 86 ==> InPlace(version, [Ignore, Ignore], 50)
    ensures forall k :: InPlace(version, [], k)
  {
    assert Place76(CatType) == 47 && Place76(RecordedId) == 48;
    hide Place76;
    forall n
      ensures version >= 79 ==> Place(version, n) != Some(5)
      ensures Place(version, n) != Some(50) && Place(version, n) != Some(51)
      ensures Place(version, n) == Some(48) && version >= 79 ==> n == CatType
      ensures Place(version, n) == Some(49) ==> n == RecordedId
    {
      NothingAt(version, n);
    }
  }

  lemma Assembled(version: nat, r1: seq<Reader>, r2: seq<Reader>, r3: seq<Reader>, r4: seq<Reader>, r5: seq<Reader>)
    requires InPlace76(r1, 0) && |r1| == 5 && InPlace76(r2, 5) && |r2| == 11 && InPlace76(r3, 16) && |r3| == 12
    requires InPlace76(r4, 28) && |r4| == 10 && InPlace76(r5, 38) && |r5| == 9
    ensures
      var rs := r1 + (if version >= 79 then [Ignore] else []) + r2 + r3 + r4 + r5
        + (if version >= 79 then [Get(CatType, CategoryNumber)] else [])
        + (if version >= 82 then [Get(RecordedId, U32)] else [])
        + (if version >= 86 then [Ignore, Ignore] else []);
      UpTo(version, rs, Count(version))
  {
    Shifted(version, r1, 0);
    Shifted(version, r2, 5);
    Shifted(version, r3, 16);
    Shifted(version, r4, 28);
    Shifted(version, r5, 38);
    Extra(version);
    hide InPlace, InPlace76;
    var r0 := if version >= 79 then [Ignore] else [];
    var r6 := if version >= 79 then [Get(CatType, CategoryNumber)] else [];
    var r7 := if version >= 82 then [Get(RecordedId, U32)] else [];
    var r8 := if version >= 86 then [Ignore, Ignore] else [];
    var d, e := if version >= 79 then 1 else 0, if version < 79 then 47 else if version < 82 then 49 else 50;
    assert [] + r1 == r1;
    OneMore(version, [], r1, 0, 5);
    hide UpTo;
    OneMore(version, r1, r0, 5, 5 + d);
    OneMore(version, r1 + r0, r2, 5 + d, 16 + d);
    OneMore(version, r1 + r0 + r2, r3, 16 + d, 28 + d);
    OneMore(version, r1 + r0 + r2 + r3, r4, 28 + d, 38 + d);
    OneMore(version, r1 + r0 + r2 + r3 + r4, r5, 38 + d, 47 + d);
    OneMore(version, r1 + r0 + r2 + r3 + r4 + r5, r6, 47 + d, 47 + 2 * d);
    OneMore(version, r1 + r0 + r2 + r3 + r4 + r5 + r6, r7, 47 + 2 * d, e);
    OneMore(version, r1 + r0 + r2 + r3 + r4 + r5 + r6 + r7, r8, e, Count(version));
  }

  lemma ReadersInPlace(version: nat)
    ensures |Readers(version)| == Count(version) && InPlace(version, Readers(version), 0)
  {
    TitlesInPlace();
    ChannelInPlace();
    RecordingInPlace();
    ProgramInPlace();
    PropsInPlace();
    hide InPlace, InPlace76;
    Assembled(version, READ_TITLES, READ_CHANNEL, READ_RECORDING, READ_PROGRAM, READ_PROPS);
  }

  // ---------------------------------------------------------------- reading

  lemma ParseSays(n: Name, t: Text, x: Item)
    ensures Parse(KindOf(n), t) == Some(x) <==> Says(n, t, x)
  {
    hide ParseUnsigned, ParseSigned;
  }

  /** What a table read says of each of its places. */
  lemma {:induction false} RcvFound(rs: seq<Reader>, fields: seq<Text>, have: Program, p: Program)
    requires Rcv(rs, fields, have) == Some(p)
    requires forall i, j :: 0 <= i < j < |rs| && rs[i].Get? && rs[j].Get? ==> rs[i].name != rs[j].name
    ensures |rs| <= |fields|
    ensures forall i :: 0 <= i < |rs| && rs[i].Get? ==>
      rs[i].name in p && Parse(rs[i].kind, fields[i]) == Some(p[rs[i].name])
    ensures forall n :: n in p ==> n in have || exists i :: 0 <= i < |rs| && rs[i].Get? && rs[i].name == n
    ensures forall n :: n in have && (forall i :: 0 <= i < |rs| && rs[i].Get? ==> rs[i].name != n) ==>
      n in p && p[n] == have[n]
    decreases |rs|
  {
    hide Parse;
    if rs != [] {
      var rest := rs[1..];
      var have' := if rs[0].Get? then have[rs[0].name := Parse(rs[0].kind, fields[0]).value] else have;
      RcvFound(rest, fields[1..], have', p);
      forall i | 0 <= i < |rs| && rs[i].Get?
        ensures i < |fields| && rs[i].name in p && Parse(rs[i].kind, fields[i]) == Some(p[rs[i].name])
      {
        if i > 0 {
          assert rest[i - 1] == rs[i] && fields[1..][i - 1] == fields[i];
        }
      }
      forall n | n in p ensures n in have || exists i :: 0 <= i < |rs| && rs[i].Get? && rs[i].name == n {
        if n !in have && !(rs[0].Get? && rs[0].name == n) {
          var i :| 0 <= i < |rest| && rest[i].Get? && rest[i].name == n;
          assert rs[i + 1] == rest[i];
        }
      }
    }
  }

  lemma {:induction false} RcvSucceeds(rs: seq<Reader>, fields: seq<Text>, have: Program)
    requires |rs| <= |fields| && forall i :: 0 <= i < |rs| && rs[i].Get? ==> Parse(rs[i].kind, fields[i]).Some?
    ensures Rcv(rs, fields, have).Some?
    decreases |rs|
  {
    hide Parse;
    if rs != [] {
      var have' := if rs[0].Get? then have[rs[0].name := Parse(rs[0].kind, fields[0]).value] else have;
      RcvSucceeds(rs[1..], fields[1..], have');
    }
  }

  /** The record has exactly the items of the version, and each is what the field at its place says. */
  ghost predicate Describes(version: nat, fields: seq<Text>, p: Program) {
    && Count(version) <= |fields|
    && (forall n :: n in p <==> Place(version, n).Some?)
    && forall n :: n in p ==> Says(n, fields[Place(version, n).value], p[n])
  }

  lemma PlacesBelow(version: nat, n: Name)
    ensures Place(version, n).Some? ==> Place(version, n).value < Count(version)
  {
  }

  /**
    A message is read to a record exactly if it has enough fields and every one at the place of an item is a text
    of that item; then the record is those items. Any other message is refused.
  */
  lemma ReceivedExactly(version: nat, message: Text, p: Program)
    requires version >= 76
    ensures RcvProgramInfo(version, message) == Some(p) <==> Describes(version, FieldsOf(message), p)
  {
    hide FieldsOf, Readers, Says, Parse, Rcv;
    var rs, fields := Readers(version), FieldsOf(message);
    ReadersInPlace(version);
    forall n ensures Place(version, n).Some? ==> Place(version, n).value < Count(version) {
      PlacesBelow(version, n);
    }
    if Rcv(rs, fields, map[]) == Some(p) {
      ReadsDescribed(version, rs, fields, p);
    }
    if Describes(version, fields, p) {
      DescribedReads(version, rs, fields, p);
    }
  }

  lemma ReadsDescribed(version: nat, rs: seq<Reader>, fields: seq<Text>, p: Program)
    requires InPlace(version, rs, 0) && |rs| == Count(version) && Rcv(rs, fields, map[]) == Some(p)
    requires forall n :: Place(version, n).Some? ==> Place(version, n).value < Count(version)
    ensures Describes(version, fields, p)
  {
    hide Says, Parse, Rcv, Place76;
    RcvFound(rs, fields, map[], p);
    forall n | Place(version, n).Some? ensures n in p && Says(n, fields[Place(version, n).value], p[n]) {
      var i := Place(version, n).value;
      assert rs[i] == Get(n, KindOf(n));
      ParseSays(n, fields[i], p[n]);
    }
  }

  lemma DescribedReads(version: nat, rs: seq<Reader>, fields: seq<Text>, p: Program)
    requires InPlace(version, rs, 0) && |rs| == Count(version) && Describes(version, fields, p)
    requires forall n :: Place(version, n).Some? ==> Place(version, n).value < Count(version)
    ensures Rcv(rs, fields, map[]) == Some(p)
  {
    hide Says, Parse, Rcv, Place76;
    forall i | 0 <= i < |rs| && rs[i].Get? ensures Parse(rs[i].kind, fields[i]).Some? {
      ParseSays(rs[i].name, fields[i], p[rs[i].name]);
    }
    RcvSucceeds(rs, fields, map[]);
    var q := Rcv(rs, fields, map[]).value;
    ReadsDescribed(version, rs, fields, q);
    forall n | n in p ensures n in q && q[n] == p[n] {
      ParseSays(n, fields[Place(version, n).value], p[n]);
      ParseSays(n, fields[Place(version, n).value], q[n]);
    }
    assert p == q;
  }

  /** The cast of a category number to 32 bits. */
  lemma ToInt32Means(v: int)
    ensures -0x8000_0000 <= ToInt32(v) < 0x8000_0000 && (v - ToInt32(v)) % 0x1_0000_0000 == 0
  {
  }

  /** A number outside the type of its item is refused, one inside is taken, whatever its size. */
  lemma OutOfRangeRefused(k: nat, i: int, x: Item)
    ensures Says(RecType, Digits(k), x) <==> k <= 255 && x == NumberItem(k)
    ensures Says(Season, Digits(k), x) <==> k <= 65535 && x == NumberItem(k)
    ensures Says(ChanId, Digits(k), x) <==> k <= 4294967295 && x == NumberItem(k)
    ensures Says(Status, SignedText(i), x) <==> -128 <= i <= 127 && x == NumberItem(i)
    ensures Says(Priority, SignedText(i), x) <==> -2147483647 <= i <= 2147483647 && x == NumberItem(i)
  {
    hide ParseUnsigned, ParseSigned, Digits, SignedText;
    DigitsValue(k);
    ParseMeaning(Digits(k), 0xFFFF_FFFF);
    SignedMeaning(i, 2147483647);
  }

  // ---------------------------------------------------------------- writing

  /** The text sent for an item. */
  function Sent(n: Name, x: Item): Text {
    match x
    case NumberItem(v) => SignedText(v)
    case TextItem(t) =>
      if n != CatType then t
      else if t == [0x6D, 0x6F, 0x76, 0x69, 0x65] then [0x31]
      else if t == [0x73, 0x65, 0x72, 0x69, 0x65, 0x73] then [0x32]
      else if t == [0x73, 0x70, 0x6F, 0x72, 0x74, 0x73] then [0x33]
      else if t == [0x74, 0x76, 0x73, 0x68, 0x6F, 0x77] then [0x34]
      else [0x30]
  }

  /** What is sent at the places of no item: a 0, or nothing for the syndicated episode and two of version 86. */
  function Filler(version: nat, i: nat): Text {
    if i == (if version < 79 then 5 else 6) || i >= 50 then [] else [0x30]
  }

  ghost predicate Fills(version: nat, ws: seq<Writer>, from: nat) {
    forall i :: 0 <= i < |ws| && ws[i].Const? ==> ws[i].text == Filler(version, from + i)
  }

  ghost predicate FilledTo(version: nat, ws: seq<Writer>, length: nat) {
    |ws| == length && Fills(version, ws, 0)
  }

  lemma OneFilled(version: nat, a: seq<Writer>, b: seq<Writer>, from: nat, to: nat)
    requires FilledTo(version, a, from) && Fills(version, b, from) && to == from + |b|
    ensures FilledTo(version, a + b, to)
  {
    hide Filler;
  }

  lemma PartsFill(version: nat)
    ensures
      var d := if version >= 79 then 1 else 0;
      && |WRITE_TITLES| == 5 && |WRITE_CHANNEL| == 11 && |WRITE_RECORDING| == 12
      && |WRITE_PROGRAM| == 10 && |WRITE_PROPS| == 9
      && Fills(version, WRITE_TITLES, 0) && Fills(version, WRITE_CHANNEL, 5 + d)
      && Fills(version, WRITE_RECORDING, 16 + d) && Fills(version, WRITE_PROGRAM, 28 + d)
      && Fills(version, WRITE_PROPS, 38 + d)
  {
  }

  lemma AllFilled(version: nat, w1: seq<Writer>, w2: seq<Writer>, w3: seq<Writer>, w4: seq<Writer>, w5: seq<Writer>)
    requires |w1| == 5 && |w2| == 11 && |w3| == 12 && |w4| == 10 && |w5| == 9
    requires
      var d := if version >= 79 then 1 else 0;
      && Fills(version, w1, 0) && Fills(version, w2, 5 + d) && Fills(version, w3, 16 + d)
      && Fills(version, w4, 28 + d) && Fills(version, w5, 38 + d)
    ensures
      var ws := w1 + (if version >= 79 then [Const(ZERO)] else []) + w2 + w3 + w4 + w5
        + (if version >= 79 then [Put(CatType, CategoryNumber)] else [])
        + (if version >= 82 then [Put(RecordedId, U32)] else [])
        + (if version >= 86 then [Const([]), Const([])] else []);
      FilledTo(version, ws, Count(version))
  {
    var w0 := if version >= 79 then [Const(ZERO)] else [];
    var w6 := if version >= 79 then [Put(CatType, CategoryNumber)] else [];
    var w7 := if version >= 82 then [Put(RecordedId, U32)] else [];
    var w8 := if version >= 86 then [Const([]), Const([])] else [];
    var d, e := if version >= 79 then 1 else 0, if version < 79 then 47 else if version < 82 then 49 else 50;
    assert Fills(version, w0, 5) && Fills(version, w6, 47 + d);
    assert Fills(version, w7, 47 + 2 * d) && Fills(version, w8, e);
    assert [] + w1 == w1;
    hide Fills;
    assert FilledTo(version, w1, 5);
    hide FilledTo;
    OneFilled(version, w1, w0, 5, 5 + d);
    OneFilled(version, w1 + w0, w2, 5 + d, 16 + d);
    OneFilled(version, w1 + w0 + w2, w3, 16 + d, 28 + d);
    OneFilled(version, w1 + w0 + w2 + w3, w4, 28 + d, 38 + d);
    OneFilled(version, w1 + w0 + w2 + w3 + w4, w5, 38 + d, 47 + d);
    OneFilled(version, w1 + w0 + w2 + w3 + w4 + w5, w6, 47 + d, 47 + 2 * d);
    OneFilled(version, w1 + w0 + w2 + w3 + w4 + w5 + w6, w7, 47 + 2 * d, e);
    OneFilled(version, w1 + w0 + w2 + w3 + w4 + w5 + w6 + w7, w8, e, Count(version));
  }

  lemma WritersFill(version: nat)
    ensures FilledTo(version, Writers(version), Count(version))
  {
    PartsFill(version);
    hide Fills, FilledTo;
    AllFilled(version, WRITE_TITLES, WRITE_CHANNEL, WRITE_RECORDING, WRITE_PROGRAM, WRITE_PROPS);
  }

  lemma PrintSends(n: Name, x: Item)
    requires Carried(KindOf(n), x)
    ensures Print(KindOf(n), x) == Sent(n, x)
  {
    hide Digits, Shown, NoBracket, NoNul;
    if x.NumberItem? && KindOf(n) in {U8, U16, U32} {
      WholeNumeral(x.n, if KindOf(n) == U8 then 3 else if KindOf(n) == U16 then 5 else 10);
    } else if KindOf(n) == CategoryNumber {
      var c := CategoryToNum(x.text);
      WholeNumeral(c, 3);
      OneDigit(c);
    }
  }

  lemma OneDigit(c: nat)
    requires c < 10
    ensures Digits(c) == [0x30 + c]
  {
  }

  /** What is written at each place: the text of the item that belongs there, or the filler. */
  lemma MadeExactly(version: nat, p: Program)
    requires version >= 76 && Complete(Writers(version), p) && AllCarried(Writers(version), p)
    ensures
      var fields := Make(Writers(version), p);
      && |fields| == Count(version)
      && (forall n :: Place(version, n).Some? ==>
            var i := Place(version, n).value;
            i < |fields| && n in p && fields[i] == Sent(n, p[n]))
      && forall i :: 0 <= i < |fields| && (forall n :: Place(version, n) != Some(i)) ==> fields[i] == Filler(version, i)
  {
    var ws := Writers(version);
    TablesAgree(version);
    ReadersInPlace(version);
    WritersFill(version);
    hide Writers, Readers, Sent, Print, Carried, Place76, Filler;
    forall n | Place(version, n).Some?
      ensures
        var i := Place(version, n).value;
        i < |ws| && n in p && FieldText(ws[i], p) == Sent(n, p[n])
    {
      var i := Place(version, n).value;
      PlacesBelow(version, n);
      assert Agrees(ws[i], Readers(version)[i]) && Has(ws[i], p);
      PrintSends(n, p[n]);
    }
    forall i | 0 <= i < |ws| && forall n :: Place(version, n) != Some(i)
      ensures FieldText(ws[i], p) == Filler(version, i)
    {
      assert Agrees(ws[i], Readers(version)[i]);
    }
  }
}
