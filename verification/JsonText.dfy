/**
  JSON texts octet by octet, as a sender may write them: with white space and escapes of its choice, hexadecimal
  digits in either case, and with the liberties the parser grants. What such a text means is said here
  without the parser; only the trees are its.
*/
module JsonText {
  import opened Options
  import opened Bytes
  import JsonGrammar

  type Text = seq<Byte>

  /** White space. */
  predicate Blank(w: Text) {
    forall i :: 0 <= i < |w| ==> w[i] == 0x20 || w[i] == 0x09 || w[i] == 0x0A || w[i] == 0x0D
  }

  // ---------------------------------------------------------------- strings

  /**
    A piece of a string: an octet as it is, a backslash and a letter, a `\\u` escape, or two for a code point
    beyond the first 65536. `caps` says which digits are capitals.
  */
  datatype Piece = Plain(b: Byte) | Letter(b: Byte) | Unit(u: nat, caps: seq<bool>) | Pair(c: nat, caps: seq<bool>)

  predicate PieceOk(p: Piece) {
    match p
    case Plain(b) => b != 0x22 && b != 0x5C
    case Letter(b) => b in {0x22, 0x5C, 0x2F, 0x62, 0x66, 0x6E, 0x72, 0x74}
    case Unit(u, caps) => u < 0x10000 && !(0xD800 <= u < 0xDC00) && |caps| == 4
    case Pair(c, caps) => 0x10000 <= c < 0x110000 && |caps| == 8
  }

  function FourDigits(u: nat, caps: seq<bool>): Text
    requires u < 0x10000 && |caps| == 4
  {
    [HexOctet(u / 0x1000, caps[0]), HexOctet(u / 0x100 % 0x10, caps[1]),
     HexOctet(u / 0x10 % 0x10, caps[2]), HexOctet(u % 0x10, caps[3])]
  }

  function PieceText(p: Piece): Text
    requires PieceOk(p)
  {
    match p
    case Plain(b) => [b]
    case Letter(b) => [0x5C, b]
    case Unit(u, caps) => [0x5C, 0x75] + FourDigits(u, caps)
    case Pair(c, caps) =>
      [0x5C, 0x75] + FourDigits(0xD800 + (c - 0x10000) / 0x400, caps[..4])
      + [0x5C, 0x75] + FourDigits(0xDC00 + (c - 0x10000) % 0x400, caps[4..])
  }

  /** The octets of a code point, six bits each after the first. */
  function Octets(u: nat): Text
    requires u < 0x110000
  {
    if u < 128 then [u]
    else if u < 2048 then [192 + u / 64, 128 + u % 64]
    else if u < 65536 then [224 + u / 4096, 128 + u / 64 % 64, 128 + u % 64]
    else [240 + u / 262144, 128 + u / 4096 % 64, 128 + u / 64 % 64, 128 + u % 64]
  }

  /** A control octet that is not escaped is taken for a space. */
  function PieceMeans(p: Piece): Text
    requires PieceOk(p)
  {
    match p
    case Plain(b) => if b < 0x20 then [0x20] else [b]
    case Letter(b) =>
      if b == 0x62 then [8] else if b == 0x74 then [9] else if b == 0x6E then [10]
      else if b == 0x66 then [12] else if b == 0x72 then [13] else [b]
    case Unit(u, _) => Octets(u)
    case Pair(c, _) => Octets(c)
  }

  predicate PiecesOk(pieces: seq<Piece>) {
    forall i :: 0 <= i < |pieces| ==> PieceOk(pieces[i])
  }

  function Content(pieces: seq<Piece>): Text
    requires PiecesOk(pieces)
  {
    if pieces == [] then [] else PieceText(pieces[0]) + Content(pieces[1..])
  }

  function StringMeans(pieces: seq<Piece>): Text
    requires PiecesOk(pieces)
  {
    if pieces == [] then [] else PieceMeans(pieces[0]) + StringMeans(pieces[1..])
  }

  // ---------------------------------------------------------------- numbers

  predicate AllDigits(d: Text) {
    forall i :: 0 <= i < |d| ==> IsDigit(d[i])
  }

  /** The exponent: its letter, its sign if it has one, its digits. */
  datatype Power = Power(e: Byte, sign: Option<Byte>, digits: Text)

  /** Digits before the point may be missing after a minus, digits after it always. */
  datatype Number = Number(minus: bool, whole: Text, fraction: Option<Text>, power: Option<Power>)

  predicate NumberOk(n: Number) {
    && AllDigits(n.whole) && (n.whole == [] ==> n.minus) && (n.whole != [] && n.whole[0] == 0x30 ==> |n.whole| == 1)
    && (n.fraction.Some? ==> AllDigits(n.fraction.value))
    && (n.power.Some? ==> PowerOk(n.power.value))
  }

  predicate PowerOk(p: Power) {
    && (p.e == 0x65 || p.e == 0x45) && (p.sign.Some? ==> p.sign.value == 0x2B || p.sign.value == 0x2D)
    && p.digits != [] && AllDigits(p.digits)
  }

  function FractionText(f: Option<Text>): Text {
    match f
    case None => []
    case Some(d) => [0x2E] + d
  }

  function PowerText(p: Option<Power>): Text {
    match p
    case None => []
    case Some(Power(e, sign, digits)) => [e] + (SignText(sign) + digits)
  }

  function SignText(sign: Option<Byte>): Text {
    match sign
    case None => []
    case Some(b) => [b]
  }

  function NumberText(n: Number): Text {
    (if n.minus then [0x2D] else []) + n.whole + FractionText(n.fraction) + PowerText(n.power)
  }

  /** All but the last digit are too much for an integer. */
  predicate TooLong(whole: Text)
    requires AllDigits(whole)
  {
    whole != [] && Decimal(whole[..|whole| - 1]) > 214748355
  }

  function NumberMeans(n: Number): JsonGrammar.JValue
    requires NumberOk(n)
  {
    if n.fraction == None && n.power == None && !TooLong(n.whole) then
      var d: int := Decimal(n.whole);
      JsonGrammar.JInteger(if n.minus then -d else d)
    else JsonGrammar.JDouble(NumberText(n))
  }

  // ---------------------------------------------------------------- values

  /** A key with what comes before its value: white space, a colon, white space. */
  datatype Label = Label(key: seq<Piece>, mid: Text, after: Text)

  /** An element with the white space around it. */
  datatype Item = Item(before: Text, name: Option<Label>, value: Tok, after: Text)

  /** An empty container has white space inside, and an empty object possibly a key without a value. */
  datatype Tok =
    | TNull
    | TFalse
    | TTrue
    | TNumber(n: Number)
    | TString(pieces: seq<Piece>)
    | TContainer(isObject: bool, pad: Text, stub: Option<Label>, items: seq<Item>)

  predicate LabelOk(l: Label) {
    PiecesOk(l.key) && Blank(l.mid) && Blank(l.after)
  }

  predicate ItemsOk(isObject: bool, items: seq<Item>)
    decreases items
  {
    forall i :: 0 <= i < |items| ==> ItemOk(isObject, items[i])
  }

  predicate ItemOk(isObject: bool, x: Item)
    decreases x
  {
    && Blank(x.before) && Blank(x.after) && (x.name.Some? <==> isObject) && (x.name.Some? ==> LabelOk(x.name.value))
    && TokOk(x.value)
  }

  predicate TokOk(t: Tok)
    decreases t
  {
    match t
    case TNull => true
    case TFalse => true
    case TTrue => true
    case TNumber(n) => NumberOk(n)
    case TString(pieces) => PiecesOk(pieces)
    case TContainer(isObject, pad, stub, items) =>
      && Blank(pad) && (items != [] ==> pad == [] && stub == None)
      && (stub.Some? ==> isObject && LabelOk(stub.value))
      && forall i :: 0 <= i < |items| ==> ItemOk(isObject, items[i])
  }

  function LabelText(l: Option<Label>): Text
    requires l.Some? ==> LabelOk(l.value)
  {
    match l
    case None => []
    case Some(Label(key, mid, after)) => [0x22] + Content(key) + [0x22] + mid + [0x3A] + after
  }

  function ItemText(isObject: bool, x: Item): Text
    requires ItemOk(isObject, x)
    decreases x
  {
    x.before + LabelText(x.name) + TokText(x.value) + x.after
  }

  /** Elements up to the closing bracket, with a comma before each but the first. */
  function ItemsText(isObject: bool, items: seq<Item>, first: bool): Text
    requires ItemsOk(isObject, items)
    decreases items
  {
    if items == [] then [if isObject then 0x7D else 0x5D]
    else (if first then [] else [0x2C]) + ItemText(isObject, items[0]) + ItemsText(isObject, items[1..], false)
  }

  function TokText(t: Tok): Text
    requires TokOk(t)
    decreases t
  {
    match t
    case TNull => [0x6E, 0x75, 0x6C, 0x6C]
    case TFalse => [0x66, 0x61, 0x6C, 0x73, 0x65]
    case TTrue => [0x74, 0x72, 0x75, 0x65]
    case TNumber(n) => NumberText(n)
    case TString(pieces) => [0x22] + Content(pieces) + [0x22]
    case TContainer(isObject, pad, stub, items) =>
      [if isObject then 0x7B else 0x5B] + pad + LabelText(stub) + ItemsText(isObject, items, true)
  }

  function KeyMeans(l: Option<Label>): Text
    requires l.Some? ==> LabelOk(l.value)
  {
    match l
    case None => []
    case Some(Label(key, _, _)) => StringMeans(key)
  }

  function ItemsMean(isObject: bool, items: seq<Item>): seq<JsonGrammar.Member>
    requires ItemsOk(isObject, items)
    decreases items
  {
    if items == [] then []
    else
      [JsonGrammar.Member(KeyMeans(items[0].name), Means(items[0].value))] + ItemsMean(isObject, items[1..])
  }

  function Means(t: Tok): JsonGrammar.JValue
    requires TokOk(t)
    decreases t
  {
    match t
    case TNull => JsonGrammar.JNull
    case TFalse => JsonGrammar.JFalse
    case TTrue => JsonGrammar.JTrue
    case TNumber(n) => NumberMeans(n)
    case TString(pieces) => JsonGrammar.JString(StringMeans(pieces))
    case TContainer(isObject, _, _, items) =>
      var members := ItemsMean(isObject, items);
      if isObject then JsonGrammar.JObject(members)
      else JsonGrammar.JArray(seq(|members|, i requires 0 <= i < |members| => members[i].value))
  }
}
