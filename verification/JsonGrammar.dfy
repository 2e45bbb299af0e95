/**
  The language `sajson::parser` accepts and the tree it means, as a plain recursive parser
  over the unmodified input. It is the code's own grammar: a number may be "-" or "1.",
  a NUL byte ends the document, and an object closed right after its first colon is empty.
*/
module JsonGrammar {
  import opened Options
  import opened Bytes

  /**
    What a reader makes of the text at a place: nothing, a value, or it looks past the end of the
    input, which happens only at a number that is a lone 0 in the last byte.
  */
  datatype Reading<+T> = Refused | Overread | Found(value: T)

  datatype JValue =
    | JNull
    | JFalse
    | JTrue
    | JInteger(i: int)
    | JDouble(lexeme: seq<Byte>)
    | JString(bytes: seq<Byte>)
    | JArray(items: seq<JValue>)
    | JObject(members: seq<Member>)

  datatype Member = Member(key: seq<Byte>, value: JValue)

  const QUOTE: Byte := 0x22
  const BACKSLASH: Byte := 0x5C
  const COMMA: Byte := 0x2C
  const COLON: Byte := 0x3A
  const MINUS: Byte := 0x2D
  const PLUS: Byte := 0x2B
  const DOT: Byte := 0x2E
  const ZERO: Byte := 0x30
  const OPEN_ARRAY: Byte := 0x5B
  const CLOSE_ARRAY: Byte := 0x5D
  const OPEN_OBJECT: Byte := 0x7B
  const CLOSE_OBJECT: Byte := 0x7D
  const SPACE: Byte := 0x20

  // ---------------------------------------------------------------- white space

  predicate IsBlank(b: Byte) {
    b == 0x20 || b == 0x09 || b == 0x0A || b == 0x0D
  }

  /** The first position from `p` on that is not white space. */
  function Skip(s: seq<Byte>, p: nat): (q: nat)
    requires p <= |s|
    ensures p <= q <= |s|
    ensures q < |s| ==> !IsBlank(s[q])
    decreases |s| - p
  {
    if p < |s| && IsBlank(s[p]) then Skip(s, p + 1) else p
  }

  /** The byte there, 0 at the end of the input. */
  function Look(s: seq<Byte>, p: nat): Byte {
    if p < |s| then s[p] else 0
  }

  // ---------------------------------------------------------------- strings

  /** The value of the `k` hexadecimal digits at `p`. */
  function HexRun(s: seq<Byte>, p: nat, k: nat): (r: Option<nat>)
    requires k <= 4 && p + k <= |s|
    ensures r.Some? ==> r.value < [1, 0x10, 0x100, 0x1000, 0x10000][k]
  {
    if k == 0 then Some(0)
    else
      match (HexRun(s, p, k - 1), HexDigit(s[p + k - 1]))
      case (Some(v), Some(d)) => assert d < 16; Some(v * 16 + d)
      case (_, _) => None
  }

  /** The UTF-8 octets of a code point (section 3 of RFC 3629). */
  function Utf8(u: nat): (r: seq<Byte>)
    requires u < 0x110000
    ensures 1 <= |r| <= 4 && (u < 0x10000 ==> |r| <= 3)
  {
    if u < 0x80 then [u]
    else if u < 0x800 then [0xC0 + u / 0x40, 0x80 + u % 0x40]
    else if u < 0x10000 then [0xE0 + u / 0x1000, 0x80 + u / 0x40 % 0x40, 0x80 + u % 0x40]
    else [0xF0 + u / 0x40000, 0x80 + u / 0x1000 % 0x40, 0x80 + u / 0x40 % 0x40, 0x80 + u % 0x40]
  }

  predicate IsContinuation(b: Byte) { 0x80 <= b < 0xC0 }

  /** The code point a single well-formed UTF-8 sequence stands for: shortest form, no surrogate. */
  function CodePoint(b: seq<Byte>): Option<nat> {
    if |b| == 1 && b[0] < 0x80 then Some(b[0])
    else if |b| == 2 && 0xC2 <= b[0] < 0xE0 && IsContinuation(b[1]) then
      Some((b[0] as int - 0xC0) * 0x40 + (b[1] as int - 0x80))
    else if |b| == 3 && 0xE0 <= b[0] < 0xF0 && IsContinuation(b[1]) && IsContinuation(b[2]) then
      var u := (b[0] as int - 0xE0) * 0x1000 + (b[1] as int - 0x80) * 0x40 + (b[2] as int - 0x80);
      if u < 0x800 || IsLead(u) || IsTrail(u) then None else Some(u)
    else if |b| == 4 && 0xF0 <= b[0] < 0xF5 && IsContinuation(b[1]) && IsContinuation(b[2]) && IsContinuation(b[3]) then
      var u := (b[0] as int - 0xF0) * 0x40000 + (b[1] as int - 0x80) * 0x1000 + (b[2] as int - 0x80) * 0x40
        + (b[3] as int - 0x80);
      if 0x10000 <= u < 0x110000 then Some(u) else None
    else None
  }

  /** The octets written decode to the code point again, unless it is half of a surrogate pair. */
  lemma Utf8RoundTrip(u: nat)
    requires u < 0x110000
    ensures CodePoint(Utf8(u)) == if IsLead(u) || IsTrail(u) then None else Some(u)
  {
    if 0x800 <= u < 0x10000 {
      SixBits(u);
    } else if 0x10000 <= u {
      SixBits(u / 0x40);
      assert u / 0x40 / 0x40 == u / 0x1000 && u / 0x40 / 0x1000 == u / 0x40000;
    }
  }

  lemma SixBits(u: nat)
    ensures u == u / 0x1000 * 0x1000 + u / 0x40 % 0x40 * 0x40 + u % 0x40
  {
  }

  predicate IsLead(u: nat) { 0xD800 <= u <= 0xDBFF }
  predicate IsTrail(u: nat) { 0xDC00 <= u <= 0xDFFF }

  /** The byte a one-letter escape stands for. */
  function Replacement(b: Byte): Option<Byte> {
    if b == QUOTE || b == BACKSLASH || b == 0x2F then Some(b)
    else if b == 0x62 then Some(0x08)
    else if b == 0x66 then Some(0x0C)
    else if b == 0x6E then Some(0x0A)
    else if b == 0x72 then Some(0x0D)
    else if b == 0x74 then Some(0x09)
    else None
  }

  /** The escape after a backslash: the octets it stands for, never more than it takes, and where it ends. */
  function Escape(s: seq<Byte>, q: nat): (r: Option<(seq<Byte>, nat)>)
    ensures r.Some? ==> q < r.value.1 <= |s| && |r.value.0| <= r.value.1 - q
  {
    if q >= |s| then None
    else if Replacement(s[q]).Some? then Some(([Replacement(s[q]).value], q + 1))
    else if s[q] != 0x75 || |s| < q + 5 then None
    else
      match HexRun(s, q + 1, 4)
      case None => None
      case Some(u) =>
        if !IsLead(u) then Some((Utf8(u), q + 5))
        else if |s| < q + 11 || s[q + 5] != BACKSLASH || s[q + 6] != 0x75 then None
        else
          match HexRun(s, q + 7, 4)
          case None => None
          case Some(v) =>
            if IsTrail(v) then Some((Utf8(0x10000 + (u - 0xD800) * 0x400 + (v - 0xDC00)), q + 11)) else None
  }

  /** A `\\u` escape whose four digits are the second half of a surrogate pair. */
  predicate LoneTrail(s: seq<Byte>, q: nat) {
    q + 5 <= |s| && s[q] == 0x75 && HexRun(s, q + 1, 4).Some? && IsTrail(HexRun(s, q + 1, 4).value)
  }

  /** An escape the parser takes stands for a well-formed UTF-8 sequence exactly when it is no lone trail surrogate. */
  lemma EscapeWellFormed(s: seq<Byte>, q: nat)
    requires Escape(s, q).Some?
    ensures CodePoint(Escape(s, q).value.0).Some? <==> !LoneTrail(s, q)
  {
    if Replacement(s[q]).None? {
      var u := HexRun(s, q + 1, 4).value;
      if IsLead(u) {
        Utf8RoundTrip(0x10000 + (u - 0xD800) * 0x400 + (HexRun(s, q + 7, 4).value - 0xDC00));
      } else {
        Utf8RoundTrip(u);
      }
    }
  }

  /** Four digits DC00 alone are taken, and written as octets that are not UTF-8. */
  lemma LoneTrailExample()
    ensures
      var s: seq<Byte> := [0x75, 0x44, 0x43, 0x30, 0x30];
      LoneTrail(s, 0) && Escape(s, 0).Some? && CodePoint(Escape(s, 0).value.0) == None
  {
    var s: seq<Byte> := [0x75, 0x44, 0x43, 0x30, 0x30];
    assert HexRun(s, 1, 1) == Some(0xD);
    assert HexRun(s, 1, 2) == Some(0xDC);
    assert HexRun(s, 1, 3) == Some(0xDC0);
    assert HexRun(s, 1, 4) == Some(0xDC00);
    EscapeWellFormed(s, 0);
  }

  /** A surrogate pair stands for the code point whose UTF-16 form it is. */
  lemma PairMeaning(s: seq<Byte>, q: nat, c: nat)
    requires 0x10000 <= c < 0x110000
    requires q + 11 <= |s| && s[q] == 0x75 && s[q + 5] == BACKSLASH && s[q + 6] == 0x75
    requires HexRun(s, q + 1, 4) == Some(0xD800 + (c - 0x10000) / 0x400)
    requires HexRun(s, q + 7, 4) == Some(0xDC00 + (c - 0x10000) % 0x400)
    ensures Escape(s, q).Some? && Escape(s, q).value.1 == q + 11 && CodePoint(Escape(s, q).value.0) == Some(c)
  {
    hide Utf8;
    Utf8RoundTrip(c);
  }

  /** Puts decoded bytes before the rest of a decoded string. */
  function Before(b: seq<Byte>, r: Option<(seq<Byte>, nat)>): Option<(seq<Byte>, nat)> {
    match r
    case None => None
    case Some((rest, q)) => Some((b + rest, q))
  }

  /** The string whose content starts at `p`: its decoded bytes and the position after the closing quote. */
  function StringAt(s: seq<Byte>, p: nat): (r: Option<(seq<Byte>, nat)>)
    ensures r.Some? ==> p < r.value.1 <= |s| && |r.value.0| < r.value.1 - p
    decreases |s| - p
  {
    if p >= |s| then None
    else if s[p] == QUOTE then Some(([], p + 1))
    else if s[p] == BACKSLASH then
      match Escape(s, p + 1)
      case None => None
      case Some((b, q)) => Before(b, StringAt(s, q))
    else Before([if s[p] < SPACE then SPACE else s[p]], StringAt(s, p + 1))
  }

  // ---------------------------------------------------------------- numbers

  /** The first position from `p` on that is not a digit. */
  function DigitsEnd(s: seq<Byte>, p: nat): (q: nat)
    requires p <= |s|
    ensures p <= q <= |s|
    ensures forall i :: p <= i < q ==> IsDigit(s[i])
    ensures q < |s| ==> !IsDigit(s[q])
    decreases |s| - p
  {
    if p < |s| && IsDigit(s[p]) then DigitsEnd(s, p + 1) else p
  }

  /** Above this value one more digit makes the number a double. */
  const INT_LIMIT := 0x7FFF_FFFF / 10 - 9

  /** The end of the integer part that starts at `p`; running into the end of the input is an error. */
  function IntegerEnd(s: seq<Byte>, p: nat): (q: nat)
    requires p < |s|
    ensures p <= q <= |s|
    ensures forall i :: p <= i < q ==> IsDigit(s[i])
  {
    if s[p] == ZERO then p + 1 else DigitsEnd(s, p)
  }

  function FractionEnd(s: seq<Byte>, p: nat): (r: Option<nat>)
    requires p < |s|
    ensures r.Some? ==> p <= r.value < |s|
  {
    if s[p] != DOT then Some(p)
    else if p + 1 == |s| || DigitsEnd(s, p + 1) == |s| then None
    else Some(DigitsEnd(s, p + 1))
  }

  function ExponentEnd(s: seq<Byte>, p: nat): (r: Option<nat>)
    requires p < |s|
    ensures r.Some? ==> p <= r.value < |s|
  {
    if s[p] != 0x65 && s[p] != 0x45 then Some(p)
    else if p + 1 == |s| then None
    else
      var q := if s[p + 1] == MINUS || s[p + 1] == PLUS then p + 2 else p + 1;
      if q == |s| || !IsDigit(s[q]) || DigitsEnd(s, q) == |s| then None else Some(DigitsEnd(s, q))
  }

  predicate OverflowsInt(d: seq<Byte>)
    requires forall i :: 0 <= i < |d| ==> IsDigit(d[i])
  {
    d != [] && Decimal(d[..|d| - 1]) > INT_LIMIT
  }

  /** The number that starts at `p`, and where it ends; it must not run into the end of the input. */
  function NumberAt(s: seq<Byte>, p: nat): (r: Reading<(JValue, nat)>)
    requires p < |s| && (s[p] == MINUS || IsDigit(s[p]))
    ensures r.Found? ==> p < r.value.1 < |s|
  {
    var q := if s[p] == MINUS then p + 1 else p;
    if q == |s| then Refused
    else
      var i := IntegerEnd(s, q);
      if i == |s| then if s[q] == ZERO then Overread else Refused
      else
        match FractionEnd(s, i)
        case None => Refused
        case Some(f) =>
          match ExponentEnd(s, f)
          case None => Refused
          case Some(e) =>
            if e != i || OverflowsInt(s[q..i]) then Found((JDouble(s[p..e]), e))
            else
              var d: int := Decimal(s[q..i]);
              Found((JInteger(if q == p then d else -d), e))
  }

  /** A number is a double or an integer that 32 bits hold: the overflow guard is early enough. */
  lemma NumberFits(s: seq<Byte>, p: nat)
    requires p < |s| && (s[p] == MINUS || IsDigit(s[p])) && NumberAt(s, p).Found?
    ensures
      var v := NumberAt(s, p).value.0;
      v.JDouble? || (v.JInteger? && -0x8000_0000 < v.i < 0x8000_0000)
  {
    var q := if s[p] == MINUS then p + 1 else p;
    if NumberAt(s, p).value.0.JInteger? {
      DecimalBound(s[q..IntegerEnd(s, q)]);
    }
  }

  lemma DecimalBound(d: seq<Byte>)
    requires (forall i :: 0 <= i < |d| ==> IsDigit(d[i])) && !OverflowsInt(d)
    ensures Decimal(d) < 0x8000_0000
  {
    if d != [] {
      assert IsDigit(d[|d| - 1]);
    }
  }

  // ---------------------------------------------------------------- values

  predicate Spells(s: seq<Byte>, p: nat, word: seq<Byte>) {
    p + |word| <= |s| && s[p..p + |word|] == word
  }

  const NULL: seq<Byte> := [0x6E, 0x75, 0x6C, 0x6C]
  const FALSE: seq<Byte> := [0x66, 0x61, 0x6C, 0x73, 0x65]
  const TRUE: seq<Byte> := [0x74, 0x72, 0x75, 0x65]

  predicate StartsScalar(b: Byte) {
    b == 0x6E || b == 0x66 || b == 0x74 || b == MINUS || IsDigit(b) || b == QUOTE
  }

  /** The value other than an array or object that starts at `p`. */
  function ScalarAt(s: seq<Byte>, p: nat): (r: Reading<(JValue, nat)>)
    requires p < |s| && StartsScalar(s[p])
    ensures r.Found? ==> p < r.value.1 <= |s|
  {
    if s[p] == 0x6E then if Spells(s, p, NULL) then Found((JNull, p + 4)) else Refused
    else if s[p] == 0x66 then if Spells(s, p, FALSE) then Found((JFalse, p + 5)) else Refused
    else if s[p] == 0x74 then if Spells(s, p, TRUE) then Found((JTrue, p + 4)) else Refused
    else if s[p] == QUOTE then
      match StringAt(s, p + 1)
      case None => Refused
      case Some((b, q)) => Found((JString(b), q))
    else NumberAt(s, p)
  }

  function Closing(isObject: bool): Byte {
    if isObject then CLOSE_OBJECT else CLOSE_ARRAY
  }

  /** A container read so far: its elements in source order (keys are empty in an array). */
  function Built(isObject: bool, acc: seq<Member>): JValue {
    if isObject then JObject(acc) else JArray(seq(|acc|, i requires 0 <= i < |acc| => acc[i].value))
  }

  /** The rest of a container after the elements `acc`, from `p` on. */
  function Rest(s: seq<Byte>, isObject: bool, acc: seq<Member>, p: nat): (r: Reading<(JValue, nat)>)
    requires p <= |s|
    ensures r.Found? ==> p < r.value.1 <= |s|
    decreases |s| - p, 1
  {
    var q := Skip(s, p);
    var c := Look(s, q);
    if acc == [] then
      if c == COMMA then Refused else Element(s, isObject, acc, false, q)
    else if c == COMMA then Element(s, isObject, acc, true, Skip(s, q + 1))
    else if c == Closing(isObject) then Element(s, isObject, acc, false, q)
    else Refused
  }

  /** An element at `q` (after the comma if there was one), with its key in an object, and the rest. */
  function Element(s: seq<Byte>, isObject: bool, acc: seq<Member>, comma: bool, q: nat): (r: Reading<(JValue, nat)>)
    requires q <= |s|
    ensures r.Found? ==> q < r.value.1 <= |s|
    decreases |s| - q, 0
  {
    if isObject && Look(s, q) != CLOSE_OBJECT then
      if Look(s, q) != QUOTE then Refused
      else
        match StringAt(s, q + 1)
        case None => Refused
        case Some((key, k)) =>
          var colon := Skip(s, k);
          if Look(s, colon) != COLON then Refused
          else
            var v := Skip(s, colon + 1);
            Value(s, isObject, acc, comma, key, v)
    else Value(s, isObject, acc, comma, [], q)
  }

  /** A value at `q`, or the closing bracket, and the rest. */
  function Value(s: seq<Byte>, isObject: bool, acc: seq<Member>, comma: bool, key: seq<Byte>, q: nat)
    : (r: Reading<(JValue, nat)>)
    requires q <= |s|
    ensures r.Found? ==> q < r.value.1 <= |s|
    decreases |s| - q, 0, 0
  {
    var c := Look(s, q);
    if c == 0 then Refused
    else if StartsScalar(c) then
      match ScalarAt(s, q)
      case Refused => Refused
      case Overread => Overread
      case Found((v, n)) => Rest(s, isObject, acc + [Member(key, v)], n)
    else if c == OPEN_ARRAY || c == OPEN_OBJECT then
      match Rest(s, c == OPEN_OBJECT, [], q + 1)
      case Refused => Refused
      case Overread => Overread
      case Found((v, n)) => Rest(s, isObject, acc + [Member(key, v)], n)
    else if c == Closing(isObject) && !comma then Found((Built(isObject, acc), q + 1))
    else Refused
  }

  /** The meaning of a whole input: a container, then nothing but white space up to the end or a NUL. */
  function Document(s: seq<Byte>): Reading<JValue> {
    var q := Skip(s, 0);
    var c := Look(s, q);
    if c != OPEN_ARRAY && c != OPEN_OBJECT then Refused
    else
      match Rest(s, c == OPEN_OBJECT, [], q + 1)
      case Refused => Refused
      case Overread => Overread
      case Found((v, n)) => if Look(s, Skip(s, n)) == 0 then Found(v) else Refused
  }

  // ---------------------------------------------------------------- where the grammar is looser than RFC 8259

  /**
    An object closed right after its first colon is empty, whatever the key: the key is dropped. After a
    comma it is refused.
  */
  lemma KeyWithoutValue(s: seq<Byte>, acc: seq<Member>, comma: bool, key: seq<Byte>, q: nat)
    requires q < |s| && s[q] == CLOSE_OBJECT
    ensures Value(s, true, acc, comma, key, q) == if comma then Refused else Found((JObject(acc), q + 1))
  {
  }

  /** So `{"a":}` is an empty object. */
  lemma KeyWithoutValueExample()
    ensures Document([OPEN_OBJECT, QUOTE, 0x61, QUOTE, COLON, CLOSE_OBJECT]) == Found(JObject([]))
  {
    var s: seq<Byte> := [OPEN_OBJECT, QUOTE, 0x61, QUOTE, COLON, CLOSE_OBJECT];
    assert StringAt(s, 3) == Some(([], 4));
    assert [0x61] + [] == [0x61];
    assert StringAt(s, 2) == Before([0x61], StringAt(s, 3));
    KeyWithoutValue(s, [], false, [0x61], 5);
    assert Element(s, true, [], false, 1) == Found((JObject([]), 6));
    assert Rest(s, true, [], 1) == Found((JObject([]), 6));
  }

  /** A minus sign that no digit, point or exponent follows is the integer 0. */
  lemma BareMinus(s: seq<Byte>, p: nat)
    requires p + 1 < |s| && s[p] == MINUS
    requires !IsDigit(s[p + 1]) && s[p + 1] != DOT && s[p + 1] != 0x65 && s[p + 1] != 0x45
    ensures NumberAt(s, p) == Found((JInteger(0), p + 1))
  {
    assert s[p + 1..p + 1] == [];
  }

  /**
    The only texts on which the code reads past the end are those where it meets a number that ends with
    a lone 0 at the last byte.
  */
  lemma OverreadsExactly(s: seq<Byte>, p: nat)
    requires p < |s| && (s[p] == MINUS || IsDigit(s[p]))
    ensures NumberAt(s, p) == Overread <==>
      s[|s| - 1] == ZERO && (p == |s| - 1 || (p == |s| - 2 && s[p] == MINUS))
  {
  }

  lemma OverreadNeedsZero(s: seq<Byte>, q: nat)
    requires q < |s| && StartsScalar(s[q]) && s[|s| - 1] != ZERO
    ensures ScalarAt(s, q) != Overread
  {
    if s[q] == MINUS || IsDigit(s[q]) {
      OverreadsExactly(s, q);
    }
  }

  lemma {:induction false} RestStays(s: seq<Byte>, isObject: bool, acc: seq<Member>, p: nat)
    requires p <= |s| && s != [] && s[|s| - 1] != ZERO
    ensures Rest(s, isObject, acc, p) != Overread
    decreases |s| - p, 1
  {
    var q := Skip(s, p);
    if acc == [] || Look(s, q) == Closing(isObject) {
      ElementStays(s, isObject, acc, false, q);
    }
    if Look(s, q) == COMMA {
      ElementStays(s, isObject, acc, true, Skip(s, q + 1));
    }
  }

  lemma {:induction false} ElementStays(s: seq<Byte>, isObject: bool, acc: seq<Member>, comma: bool, q: nat)
    requires q <= |s| && s != [] && s[|s| - 1] != ZERO
    ensures Element(s, isObject, acc, comma, q) != Overread
    decreases |s| - q, 0
  {
    if isObject && Look(s, q) == QUOTE && StringAt(s, q + 1).Some? {
      var (key, k) := StringAt(s, q + 1).value;
      if Look(s, Skip(s, k)) == COLON {
        ValueStays(s, isObject, acc, comma, key, Skip(s, Skip(s, k) + 1));
      }
    } else if !isObject || Look(s, q) == CLOSE_OBJECT {
      ValueStays(s, isObject, acc, comma, [], q);
    }
  }

  lemma {:induction false} ValueStays(s: seq<Byte>, isObject: bool, acc: seq<Member>, comma: bool, key: seq<Byte>,
      q: nat)
    requires q <= |s| && s != [] && s[|s| - 1] != ZERO
    ensures Value(s, isObject, acc, comma, key, q) != Overread
    decreases |s| - q, 0, 0
  {
    var c := Look(s, q);
    if StartsScalar(c) {
      OverreadNeedsZero(s, q);
      if ScalarAt(s, q).Found? {
        RestStays(s, isObject, acc + [Member(key, ScalarAt(s, q).value.0)], ScalarAt(s, q).value.1);
      }
    } else if c == OPEN_ARRAY || c == OPEN_OBJECT {
      RestStays(s, c == OPEN_OBJECT, [], q + 1);
      var inner := Rest(s, c == OPEN_OBJECT, [], q + 1);
      if inner.Found? {
        RestStays(s, isObject, acc + [Member(key, inner.value.0)], inner.value.1);
      }
    }
  }

  /** A text that does not end with the byte 0 is never read past its end. */
  lemma NeverOverreads(s: seq<Byte>)
    requires s == [] || s[|s| - 1] != ZERO
    ensures Document(s) != Overread
  {
    var q := Skip(s, 0);
    if Look(s, q) == OPEN_ARRAY || Look(s, q) == OPEN_OBJECT {
      RestStays(s, Look(s, q) == OPEN_OBJECT, [], q + 1);
    }
  }

  /** `[0` is. */
  lemma OverreadExample()
    ensures Document([OPEN_ARRAY, ZERO]) == Overread
  {
    var s: seq<Byte> := [OPEN_ARRAY, ZERO];
    OverreadsExactly(s, 1);
    assert Value(s, false, [], false, [], 1) == Overread;
    assert Rest(s, false, [], 1) == Overread;
  }
}
