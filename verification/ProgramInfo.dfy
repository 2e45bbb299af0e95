/**
  A program's record as the fields of a message: what `MakeProgramInfo` writes and what
  `RcvProgramInfo` reads, for protocol versions from 76 on. The two sides are separate tables, as
  they are separate functions in the program; that they agree is a theorem.
*/
module ProgramInfo {
  import opened Options
  import opened Bytes
  import opened TextBuffers
  import opened DecimalText
  import opened FieldSplitter
  import opened WireConnection

  datatype Name =
    | Title | SubTitle | Description | Season | Episode | Category | ChanId | ChanNum | CallSign | ChannelName
    | FileName | FileSize | StartTime | EndTime | HostName | SourceId | InputId | Priority | Status | RecordId
    | RecType | DupInType | DupMethod | StartTs | EndTs | ProgramFlags | RecGroup | ChanFilters | SeriesId
    | ProgramId | Inetref | LastModified | Stars | Airdate | PlayGroup | StorageGroup | AudioProps | VideoProps
    | SubProps | CatType | RecordedId

  datatype Item = TextItem(text: Text) | NumberItem(n: int)

  type Program = map<Name, Item>

  /** How a field is put into text. A double is its printed text. */
  datatype Kind = Plain | Double | U8 | U16 | U32 | I8 | I32 | I64 | CategoryNumber

  datatype Writer = Put(name: Name, kind: Kind) | Const(text: Text)
  datatype Reader = Get(name: Name, kind: Kind) | Ignore

  const ZERO: Text := [0x30]
  const INT32_MAX := 0x7FFF_FFFF

  // ---------------------------------------------------------------- what is written

  const WRITE_TITLES: seq<Writer> := [
    Put(Title, Plain), Put(SubTitle, Plain), Put(Description, Plain), Put(Season, U16), Put(Episode, U16)
  ]

  const WRITE_CHANNEL: seq<Writer> := [
    Const([]), Put(Category, Plain), Put(ChanId, U32), Put(ChanNum, Plain), Put(CallSign, Plain),
    Put(ChannelName, Plain),
    Put(FileName, Plain), Put(FileSize, I64), Put(StartTime, I64), Put(EndTime, I64), Const(ZERO)
  ]

  const WRITE_RECORDING: seq<Writer> := [
    Put(HostName, Plain), Put(SourceId, U32), Const(ZERO), Put(InputId, U32), Put(Priority, I32), Put(Status, I8),
    Put(RecordId, U32), Put(RecType, U8), Put(DupInType, U8), Put(DupMethod, U8), Put(StartTs, I64), Put(EndTs, I64)
  ]

  const WRITE_PROGRAM: seq<Writer> := [
    Put(ProgramFlags, U32), Put(RecGroup, Plain), Put(ChanFilters, Plain), Put(SeriesId, Plain), Put(ProgramId, Plain),
    Put(Inetref, Plain), Put(LastModified, I64), Put(Stars, Double), Put(Airdate, Plain), Put(PlayGroup, Plain)
  ]

  const WRITE_PROPS: seq<Writer> := [
    Const(ZERO), Const(ZERO), Put(StorageGroup, Plain), Put(AudioProps, U16), Put(VideoProps, U16), Put(SubProps, U16),
    Const(ZERO), Const(ZERO), Const(ZERO)
  ]

  function Writers(version: nat): (ws: seq<Writer>)
    ensures ws != []
  {
    WRITE_TITLES + (if version >= 79 then [Const(ZERO)] else [])
      + WRITE_CHANNEL + WRITE_RECORDING + WRITE_PROGRAM + WRITE_PROPS
    + (if version >= 79 then [Put(CatType, CategoryNumber)] else [])
    + (if version >= 82 then [Put(RecordedId, U32)] else [])
    + (if version >= 86 then [Const([]), Const([])] else [])
  }

  // ---------------------------------------------------------------- what is read

  const READ_TITLES: seq<Reader> := [
    Get(Title, Plain), Get(SubTitle, Plain), Get(Description, Plain), Get(Season, U16), Get(Episode, U16)
  ]

  const READ_CHANNEL: seq<Reader> := [
    Ignore, Get(Category, Plain), Get(ChanId, U32), Get(ChanNum, Plain), Get(CallSign, Plain), Get(ChannelName, Plain),
    Get(FileName, Plain), Get(FileSize, I64), Get(StartTime, I64), Get(EndTime, I64), Ignore
  ]

  const READ_RECORDING: seq<Reader> := [
    Get(HostName, Plain), Get(SourceId, U32), Ignore, Get(InputId, U32), Get(Priority, I32), Get(Status, I8),
    Get(RecordId, U32), Get(RecType, U8), Get(DupInType, U8), Get(DupMethod, U8), Get(StartTs, I64), Get(EndTs, I64)
  ]

  const READ_PROGRAM: seq<Reader> := [
    Get(ProgramFlags, U32), Get(RecGroup, Plain), Get(ChanFilters, Plain), Get(SeriesId, Plain), Get(ProgramId, Plain),
    Get(Inetref, Plain), Get(LastModified, I64), Get(Stars, Double), Get(Airdate, Plain), Get(PlayGroup, Plain)
  ]

  const READ_PROPS: seq<Reader> := [
    Ignore, Ignore, Get(StorageGroup, Plain), Get(AudioProps, U16), Get(VideoProps, U16), Get(SubProps, U16),
    Ignore, Ignore, Ignore
  ]

  function Readers(version: nat): seq<Reader> {
    READ_TITLES + (if version >= 79 then [Ignore] else []) + READ_CHANNEL + READ_RECORDING + READ_PROGRAM + READ_PROPS
    + (if version >= 79 then [Get(CatType, CategoryNumber)] else [])
    + (if version >= 82 then [Get(RecordedId, U32)] else [])
    + (if version >= 86 then [Ignore, Ignore] else [])
  }

  // ---------------------------------------------------------------- one field

  /** The names of the category types, by number. */
  const CATEGORIES: seq<Text> := [
    [],
    [0x6D, 0x6F, 0x76, 0x69, 0x65],
    [0x73, 0x65, 0x72, 0x69, 0x65, 0x73],
    [0x73, 0x70, 0x6F, 0x72, 0x74, 0x73],
    [0x74, 0x76, 0x73, 0x68, 0x6F, 0x77]
  ]

  function CategoryToNum(name: Text): (n: nat)
    ensures n < |CATEGORIES|
  {
    if name == CATEGORIES[1] then 1
    else if name == CATEGORIES[2] then 2
    else if name == CATEGORIES[3] then 3
    else if name == CATEGORIES[4] then 4
    else 0
  }

  /** A 64-bit value cast to `int`. */
  function ToInt32(v: int): int {
    var u := v % 0x1_0000_0000;
    if u <= INT32_MAX then u else u - 0x1_0000_0000
  }

  function CategoryFromNum(v: int): Text {
    if 0 <= v < |CATEGORIES| then CATEGORIES[v] else []
  }

  predicate Typed(kind: Kind, x: Item) {
    if kind == Plain || kind == Double || kind == CategoryNumber then x.TextItem? else x.NumberItem?
  }

  /** Unsigned numbers go through `uint_to_strdec` with room for the widest, signed ones through `snprintf`. */
  function Print(kind: Kind, x: Item): Text
    requires Typed(kind, x)
  {
    match kind
    case Plain => x.text
    case Double => x.text
    case U8 => Shown(Natural(x.n), 3, false)
    case U16 => Shown(Natural(x.n), 5, false)
    case U32 => Shown(Natural(x.n), 10, false)
    case I8 => SignedText(x.n)
    case I32 => SignedText(x.n)
    case I64 => SignedText(x.n)
    case CategoryNumber => Shown(CategoryToNum(x.text), 3, false)
  }

  function Natural(n: int): nat {
    if n < 0 then 0 else n
  }

  function Number(r: Parsed): Option<Item> {
    if r.Value? then Some(NumberItem(r.v)) else None
  }

  function Parse(kind: Kind, t: Text): Option<Item> {
    match kind
    case Plain => Some(TextItem(t))
    case Double => Some(TextItem(t))
    case U8 => Number(Narrow(ParseUnsigned(t, UINT32_MAX), 0, 255))
    case U16 => Number(Narrow(ParseUnsigned(t, UINT32_MAX), 0, 65535))
    case U32 => Number(ParseUnsigned(t, UINT32_MAX))
    case I8 => Number(Narrow(ParseSigned(t, INT32_MAX), -128, 127))
    case I32 => Number(ParseSigned(t, INT32_MAX))
    case I64 => Number(ParseSigned(t, INT64_MAX))
    case CategoryNumber =>
      match ParseSigned(t, INT64_MAX)
      case Value(v) => Some(TextItem(CategoryFromNum(ToInt32(v))))
      case _ => None
  }

  /**
    What a field may hold to come back: text the reader can cut off, numbers of the type but the signed
    minimum, known categories.
  */
  ghost predicate Carried(kind: Kind, x: Item) {
    Typed(kind, x) &&
    match kind
    case Plain => NoBracket(x.text) && NoNul(x.text)
    case Double => NoBracket(x.text) && NoNul(x.text)
    case U8 => 0 <= x.n <= 255
    case U16 => 0 <= x.n <= 65535
    case U32 => 0 <= x.n <= UINT32_MAX
    case I8 => -128 <= x.n <= 127
    case I32 => -INT32_MAX <= x.n <= INT32_MAX
    case I64 => -INT64_MAX <= x.n <= INT64_MAX
    case CategoryNumber => x.text in CATEGORIES
  }

  /** The buffers of `uint_to_strdec` are wide enough: no digit is cut. */
  lemma WholeNumeral(n: nat, width: nat)
    requires (width == 3 && n <= 255) || (width == 5 && n <= 65535) || (width == 10 && n <= UINT32_MAX)
    ensures Shown(n, width, false) == Digits(n)
  {
    assert Pow10(1) == 10;
    assert Pow10(2) == 100;
    assert Pow10(3) == 1000;
    assert Pow10(4) == 10000;
    assert Pow10(5) == 100000;
    assert Pow10(8) == 1000 * Pow10(5);
    assert Pow10(10) == 100 * Pow10(8);
    DigitsLength(n, width);
    if |Digits(n)| == width {
      assert Digits(n)[0..] == Digits(n);
    }
  }

  lemma NumeralIsClean(n: int)
    ensures NoBracket(SignedText(n)) && NoNul(SignedText(n))
  {
    var m := if n < 0 then -n else n;
    DigitsValue(m);
    forall i | 0 <= i < |Digits(m)| ensures Digits(m)[i] != OPEN && Digits(m)[i] != 0 {
      assert IsDigit(Digits(m)[i]);
    }
  }

  /** One field, printed and parsed, is itself; its text is one the reader cuts off right. */
  lemma FieldRoundTrip(kind: Kind, x: Item)
    requires Carried(kind, x)
    ensures Parse(kind, Print(kind, x)) == Some(x)
    ensures NoBracket(Print(kind, x)) && NoNul(Print(kind, x))
    ensures kind == U32 || kind == CategoryNumber ==> Print(kind, x) != []
  {
    hide Digits, ParseUnsigned, ParseSigned, Shown, SignedText, NoBracket, NoNul;
    match kind
    case Plain =>
    case Double =>
    case U8 => UnsignedField(x.n, 3);
    case U16 => UnsignedField(x.n, 5);
    case U32 => UnsignedField(x.n, 10);
    case I8 => SignedField(x.n, INT32_MAX);
    case I32 => SignedField(x.n, INT32_MAX);
    case I64 => SignedField(x.n, INT64_MAX);
    case CategoryNumber =>
      var c := CategoryToNum(x.text);
      WholeNumeral(c, 3);
      CategoryText(c);
  }

  lemma UnsignedField(n: nat, width: nat)
    requires (width == 3 && n <= 255) || (width == 5 && n <= 65535) || (width == 10 && n <= UINT32_MAX)
    ensures Shown(n, width, false) == Digits(n) && ParseUnsigned(Digits(n), UINT32_MAX) == Value(n)
    ensures NoBracket(Digits(n)) && NoNul(Digits(n))
  {
    WholeNumeral(n, width);
    UnsignedRoundTrip(n, UINT32_MAX);
    NumeralIsClean(n);
  }

  lemma SignedField(n: int, limit: nat)
    requires 0 - limit <= n <= limit < WRAP
    ensures ParseSigned(SignedText(n), limit) == Value(n) && NoBracket(SignedText(n)) && NoNul(SignedText(n))
  {
    SignedRoundTrip(n, limit);
    NumeralIsClean(n);
  }

  lemma CategoryText(c: nat)
    ensures c <= INT64_MAX ==> ParseSigned(Digits(c), INT64_MAX) == Value(c)
    ensures NoBracket(Digits(c)) && NoNul(Digits(c))
  {
    NumeralIsClean(c);
    if c <= INT64_MAX {
      SignedRoundTrip(c, INT64_MAX);
    }
  }

  // ---------------------------------------------------------------- whole records

  /** The fields of a record, as they are written. */
  function Make(ws: seq<Writer>, p: Program): (fields: seq<Text>)
    requires Complete(ws, p)
    ensures |fields| == |ws| && forall i :: 0 <= i < |ws| ==> fields[i] == FieldText(ws[i], p)
  {
    seq(|ws|, i requires 0 <= i < |ws| => FieldText(ws[i], p))
  }

  /** The record has every item that is written, of the right type. */
  predicate Complete(ws: seq<Writer>, p: Program) {
    forall i :: 0 <= i < |ws| ==> Has(ws[i], p)
  }

  predicate Has(w: Writer, p: Program) {
    w.Put? ==> w.name in p && Typed(w.kind, p[w.name])
  }

  function FieldText(w: Writer, p: Program): Text
    requires Has(w, p)
  {
    match w
    case Put(name, kind) => Print(kind, p[name])
    case Const(text) => text
  }

  /** Reads fields one by one into a record; stops at the first that is missing or does not parse. */
  function Rcv(rs: seq<Reader>, fields: seq<Text>, p: Program): Option<Program> {
    if rs == [] then Some(p)
    else if fields == [] then None
    else
      match rs[0]
      case Ignore => Rcv(rs[1..], fields[1..], p)
      case Get(name, kind) =>
        match Parse(kind, fields[0])
        case None => None
        case Some(x) => Rcv(rs[1..], fields[1..], p[name := x])
  }

  /** What one side writes the other side reads. */
  predicate Agrees(w: Writer, r: Reader) {
    match (w, r)
    case (Put(n, k), Get(m, j)) => n == m && k == j
    case (Const(_), Ignore) => true
    case (_, _) => false
  }

  ghost predicate Agree(ws: seq<Writer>, rs: seq<Reader>) {
    |ws| == |rs| && forall i :: 0 <= i < |ws| ==> Agrees(ws[i], rs[i])
  }

  /** The items a table transmits. */
  function Names(ws: seq<Writer>): set<Name> {
    set i | 0 <= i < |ws| && ws[i].Put? :: ws[i].name
  }

  ghost predicate AllCarried(ws: seq<Writer>, p: Program) {
    forall i :: 0 <= i < |ws| && ws[i].Put? ==> ws[i].name in p && Carried(ws[i].kind, p[ws[i].name])
  }

  function Restrict(p: Program, names: set<Name>): Program {
    map n | n in p && n in names :: p[n]
  }

  lemma AgreeAppend(ws: seq<Writer>, rs: seq<Reader>, ws': seq<Writer>, rs': seq<Reader>)
    requires Agree(ws, rs) && Agree(ws', rs')
    ensures Agree(ws + ws', rs + rs')
  {
  }

  lemma PartsAgree()
    ensures Agree(WRITE_TITLES, READ_TITLES) && Agree(WRITE_CHANNEL, READ_CHANNEL)
      && Agree(WRITE_RECORDING, READ_RECORDING)
    ensures Agree(WRITE_PROGRAM, READ_PROGRAM) && Agree(WRITE_PROPS, READ_PROPS)
  {
  }

  /** The two tables agree in every version. */
  lemma TablesAgree(version: nat)
    ensures Agree(Writers(version), Readers(version))
  {
    PartsAgree();
    Assembled(version, WRITE_TITLES, WRITE_CHANNEL, WRITE_RECORDING, WRITE_PROGRAM, WRITE_PROPS,
              READ_TITLES, READ_CHANNEL, READ_RECORDING, READ_PROGRAM, READ_PROPS);
  }

  lemma Assembled(version: nat, w1: seq<Writer>, w2: seq<Writer>, w3: seq<Writer>, w4: seq<Writer>, w5: seq<Writer>,
                  r1: seq<Reader>, r2: seq<Reader>, r3: seq<Reader>, r4: seq<Reader>, r5: seq<Reader>)
    requires Agree(w1, r1) && Agree(w2, r2) && Agree(w3, r3) && Agree(w4, r4) && Agree(w5, r5)
    ensures Agree(
      w1 + (if version >= 79 then [Const(ZERO)] else []) + w2 + w3 + w4 + w5
      + (if version >= 79 then [Put(CatType, CategoryNumber)] else [])
      + (if version >= 82 then [Put(RecordedId, U32)] else [])
      + (if version >= 86 then [Const([]), Const([])] else []),
      r1 + (if version >= 79 then [Ignore] else []) + r2 + r3 + r4 + r5
      + (if version >= 79 then [Get(CatType, CategoryNumber)] else [])
      + (if version >= 82 then [Get(RecordedId, U32)] else [])
      + (if version >= 86 then [Ignore, Ignore] else []))
  {
    var w0, r0 := if version >= 79 then [Const(ZERO)] else [], if version >= 79 then [Ignore] else [];
    var w6 := if version >= 79 then [Put(CatType, CategoryNumber)] else [];
    var r6 := if version >= 79 then [Get(CatType, CategoryNumber)] else [];
    var w7 := if version >= 82 then [Put(RecordedId, U32)] else [];
    var r7 := if version >= 82 then [Get(RecordedId, U32)] else [];
    var w8, r8 := if version >= 86 then [Const([]), Const([])] else [], if version >= 86 then [Ignore, Ignore] else [];
    assert Agree(w0, r0) && Agree(w6, r6) && Agree(w7, r7) && Agree(w8, r8);
    hide Agree;
    AgreeAppend(w1, r1, w0, r0);
    AgreeAppend(w1 + w0, r1 + r0, w2, r2);
    AgreeAppend(w1 + w0 + w2, r1 + r0 + r2, w3, r3);
    AgreeAppend(w1 + w0 + w2 + w3, r1 + r0 + r2 + r3, w4, r4);
    AgreeAppend(w1 + w0 + w2 + w3 + w4, r1 + r0 + r2 + r3 + r4, w5, r5);
    AgreeAppend(w1 + w0 + w2 + w3 + w4 + w5, r1 + r0 + r2 + r3 + r4 + r5, w6, r6);
    AgreeAppend(w1 + w0 + w2 + w3 + w4 + w5 + w6, r1 + r0 + r2 + r3 + r4 + r5 + r6, w7, r7);
    AgreeAppend(w1 + w0 + w2 + w3 + w4 + w5 + w6 + w7, r1 + r0 + r2 + r3 + r4 + r5 + r6 + r7, w8, r8);
  }

  /** Reading back what was written fills in the items transmitted. */
  lemma {:induction false} RcvOfMake(ws: seq<Writer>, rs: seq<Reader>, p: Program, have: Program)
    requires Agree(ws, rs) && Complete(ws, p) && AllCarried(ws, p)
    ensures Rcv(rs, Make(ws, p), have) == Some(have + Restrict(p, Names(ws)))
    decreases |ws|
  {
    hide Print, Parse, Carried;
    if ws == [] {
      assert have + Restrict(p, Names(ws)) == have;
    } else {
      var w, r := ws[0], rs[0];
      assert Agrees(w, r) && Has(w, p);
      assert Make(ws, p)[1..] == Make(ws[1..], p);
      if w.Put? {
        FieldRoundTrip(w.kind, p[w.name]);
        RcvOfMake(ws[1..], rs[1..], p, have[w.name := p[w.name]]);
      } else {
        RcvOfMake(ws[1..], rs[1..], p, have);
      }
      NamesStep(ws, p, have);
    }
  }

  lemma NamesStep(ws: seq<Writer>, p: Program, have: Program)
    requires ws != [] && (ws[0].Put? ==> ws[0].name in p)
    ensures
      var have' := if ws[0].Put? then have[ws[0].name := p[ws[0].name]] else have;
      have' + Restrict(p, Names(ws[1..])) == have + Restrict(p, Names(ws))
  {
    var rest := ws[1..];
    forall n ensures n in Names(ws) <==> n in Names(rest) || (ws[0].Put? && n == ws[0].name) {
      if n in Names(rest) {
        var i :| 0 <= i < |rest| && rest[i].Put? && rest[i].name == n;
        assert ws[i + 1] == rest[i];
      }
      if n in Names(ws) {
        var i :| 0 <= i < |ws| && ws[i].Put? && ws[i].name == n;
        assert i > 0 ==> rest[i - 1] == ws[i];
      }
    }
  }

  lemma {:induction false} RcvTooFew(rs: seq<Reader>, fields: seq<Text>, have: Program)
    requires |fields| < |rs|
    ensures Rcv(rs, fields, have) == None
    decreases |rs|
  {
    if fields != [] {
      match rs[0]
      case Ignore => RcvTooFew(rs[1..], fields[1..], have);
      case Get(name, kind) =>
        if Parse(kind, fields[0]).Some? {
          RcvTooFew(rs[1..], fields[1..], have[name := Parse(kind, fields[0]).value]);
        }
    }
  }

  /** The last field written is empty from version 86 on and never before. */
  lemma LastWriter(version: nat)
    ensures
      var w := Writers(version)[|Writers(version)| - 1];
      && (version < 79 ==> w == Const(ZERO))
      && (79 <= version < 82 ==> w == Put(CatType, CategoryNumber))
      && (82 <= version < 86 ==> w == Put(RecordedId, U32))
      && (86 <= version ==> w == Const([]))
  {
  }

  predicate WellFormed(ws: seq<Writer>) {
    forall i :: 0 <= i < |ws| && ws[i].Const? ==> ws[i].text == ZERO || ws[i].text == []
  }

  lemma MadeClean(ws: seq<Writer>, p: Program)
    requires WellFormed(ws) && Complete(ws, p) && AllCarried(ws, p)
    ensures Clean(Make(ws, p))
  {
    hide Print, Parse, Scan;
    forall i | 0 <= i < |ws| ensures Scan(Make(ws, p)[i]) == Some(0) {
      if ws[i].Put? {
        FieldRoundTrip(ws[i].kind, p[ws[i].name]);
      }
      NoBracketScan(Make(ws, p)[i]);
    }
  }

  lemma WritersWellFormed(version: nat)
    ensures WellFormed(Writers(version))
  {
    assert WellFormed(WRITE_TITLES) && WellFormed(WRITE_CHANNEL) && WellFormed(WRITE_RECORDING);
    assert WellFormed(WRITE_PROGRAM) && WellFormed(WRITE_PROPS);
  }

  /** The text of a record. */
  function MakeProgramInfo(version: nat, p: Program): Text
    requires version >= 76 && Complete(Writers(version), p)
  {
    Join(Make(Writers(version), p))
  }

  /** The record in a message. */
  function RcvProgramInfo(version: nat, message: Text): Option<Program>
    requires version >= 76
  {
    Rcv(Readers(version), FieldsOf(message), map[])
  }

  /**
    A record of transmissible items comes back with every item that was transmitted, exactly in the
    versions before 86; from then on the reader refuses what the writer wrote.
  */
  lemma ProgramRoundTrip(version: nat, p: Program)
    requires version >= 76 && Complete(Writers(version), p) && AllCarried(Writers(version), p)
    ensures RcvProgramInfo(version, MakeProgramInfo(version, p)) ==
            if version < 86 then Some(Restrict(p, Names(Writers(version)))) else None
  {
    hide Writers, Readers, FieldText, FieldsOf, Join, AllCarried, Complete, Names, Restrict;
    var ws, rs := Writers(version), Readers(version);
    TablesAgree(version);
    FieldsMade(version, p);
    if version < 86 {
      RcvOfMake(ws, rs, p, map[]);
      assert map[] + Restrict(p, Names(ws)) == Restrict(p, Names(ws));
    } else {
      RcvTooFew(rs, Make(ws, p)[..|ws| - 1], map[]);
    }
  }

  lemma FieldsMade(version: nat, p: Program)
    requires version >= 76 && Complete(Writers(version), p) && AllCarried(Writers(version), p)
    ensures
      var fields := Make(Writers(version), p);
      FieldsOf(MakeProgramInfo(version, p)) == if version < 86 then fields else fields[..|fields| - 1]
  {
    hide Writers, Readers, Print, Join, FieldsOf, Carried, Clean, WellFormed;
    var ws := Writers(version);
    WritersWellFormed(version);
    MadeClean(ws, p);
    FieldsOfJoin(Make(ws, p));
    LastWriter(version);
    var w := ws[|ws| - 1];
    if w.Put? {
      FieldRoundTrip(w.kind, p[w.name]);
    }
  }

  /** `RcvProgramInfo` on the connection: field after field of the current message, and of no other. */
  method Receive(conn: Connection, version: nat, ghost later: seq<Text>) returns (r: Option<Program>)
    requires version >= 76 && conn.Synced(later) && NoNul(conn.input[..conn.Left()])
    modifies conn
    ensures conn.Synced(later)
    ensures r == RcvProgramInfo(version, old(conn.input[..conn.Left()]))
  {
    hide Readers, FieldsOf, Parse, Wire, AllSendable;
    var rs := Readers(version);
    var p: Program := map[];
    assert rs[0..] == rs;
    for i := 0 to |rs|
      invariant conn.Synced(later) && NoNul(conn.input[..conn.Left()])
      invariant Rcv(rs[i..], conn.FieldsLeft(), p) == Rcv(rs, old(conn.FieldsLeft()), map[])
    {
      ghost var fields := conn.FieldsLeft();
      assert rs[i..][0] == rs[i] && rs[i..][1..] == rs[i + 1..];
      var ok, field := conn.NextField(later);
      if !ok {
        return None;
      }
      assert fields[0] == field && fields[1..] == conn.FieldsLeft();
      if rs[i].Get? {
        var x := Parse(rs[i].kind, field);
        if x.None? {
          return None;
        }
        p := p[rs[i].name := x.value];
      }
    }
    r := Some(p);
  }
}
