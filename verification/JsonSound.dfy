/** Whatever the parser accepts is such a text, and it finds what that text means. */
module JsonSound {
  import opened Options
  import opened Bytes
  import opened JsonGrammar
  import opened JsonText
  import opened JsonReads

  // ---------------------------------------------------------------- strings

  /** Four digits that are read were written, each in one of the cases. */
  lemma HexWritten(s: Text, p: nat, u: nat) returns (caps: seq<bool>)
    requires p + 4 <= |s| && HexRun(s, p, 4) == Some(u)
    ensures u < 0x10000 && |caps| == 4 && At(s, p, FourDigits(u, caps))
  {
    hide HexDigit, HexOctet;
    FourApart(s, p, u);
    var a := CaseOf(s[p], u / 0x1000);
    var b := CaseOf(s[p + 1], u / 0x100 % 0x10);
    var c := CaseOf(s[p + 2], u / 0x10 % 0x10);
    var d := CaseOf(s[p + 3], u % 0x10);
    caps := [a, b, c, d];
    assert s[p..p + 4] == [s[p], s[p + 1], s[p + 2], s[p + 3]];
  }

  lemma CaseOf(b: Byte, d: nat) returns (capital: bool)
    requires d < 16 && HexDigit(b) == Some(d)
    ensures b == HexOctet(d, capital)
  {
    HexDigitExactly(b, d);
    capital := b == HexOctet(d, true);
  }

  lemma FourApart(s: Text, p: nat, u: nat)
    requires p + 4 <= |s| && HexRun(s, p, 4) == Some(u)
    ensures u < 0x10000
    ensures HexDigit(s[p]) == Some(u / 0x1000) && HexDigit(s[p + 1]) == Some(u / 0x100 % 0x10)
    ensures HexDigit(s[p + 2]) == Some(u / 0x10 % 0x10) && HexDigit(s[p + 3]) == Some(u % 0x10)
  {
    DigitApart(s, p, 4);
    DigitApart(s, p, 3);
    DigitApart(s, p, 2);
    DigitApart(s, p, 1);
    NoDigits(s, p);
    hide HexDigit, HexRun;
    var a, b, c := u / 0x1000, u / 0x100, u / 0x10;
    assert c / 0x10 == b && b / 0x10 == a;
  }

  lemma NoDigits(s: Text, p: nat)
    requires p <= |s|
    ensures HexRun(s, p, 0) == Some(0)
  {
  }

  lemma DigitApart(s: Text, p: nat, k: nat)
    requires 0 < k <= 4 && p + k <= |s| && HexRun(s, p, k).Some?
    ensures HexRun(s, p, k - 1).Some? && HexRun(s, p, k).value / 0x10 == HexRun(s, p, k - 1).value
    ensures HexDigit(s[p + k - 1]) == Some(HexRun(s, p, k).value % 0x10)
  {
  }

  lemma EscapeWritten(s: Text, p: nat) returns (x: Piece)
    requires p < |s| && s[p] == BACKSLASH && Escape(s, p + 1).Some?
    ensures PieceOk(x) && !x.Plain? && At(s, p, PieceText(x))
    ensures Escape(s, p + 1) == Some((PieceMeans(x), p + |PieceText(x)|))
  {
    hide HexRun, Octets, Utf8, FourDigits;
    if Replacement(s[p + 1]).Some? {
      x := Letter(s[p + 1]);
      assert s[p..p + 2] == [s[p], s[p + 1]];
    } else {
      var u := HexRun(s, p + 2, 4).value;
      var caps := HexWritten(s, p + 2, u);
      FourLong(u, caps);
      assert s[p..p + 2] == [0x5C, 0x75];
      if IsLead(u) {
        x := PairWritten(s, p, u, caps);
      } else {
        x := Unit(u, caps);
        Cut(s, p, [0x5C, 0x75], FourDigits(u, caps));
        OctetsAreUtf8(u);
      }
    }
  }

  lemma PairWritten(s: Text, p: nat, u: nat, caps: seq<bool>) returns (x: Piece)
    requires p < |s| && s[p] == BACKSLASH && Escape(s, p + 1).Some? && Replacement(s[p + 1]).None? && IsLead(u)
    requires |caps| == 4 && At(s, p, [0x5C, 0x75]) && At(s, p + 2, FourDigits(u, caps))
    requires p + 6 <= |s| && s[p + 1] == 0x75 && HexRun(s, p + 2, 4) == Some(u)
    ensures x.Pair? && PieceOk(x) && At(s, p, PieceText(x))
    ensures Escape(s, p + 1) == Some((PieceMeans(x), p + |PieceText(x)|))
  {
    PairShape(s, p, u);
    hide Escape, HexRun, Octets, Utf8, FourDigits, At;
    var v := HexRun(s, p + 8, 4).value;
    var caps' := HexWritten(s, p + 8, v);
    x := Pair(0x10000 + (u - 0xD800) * 0x400 + (v - 0xDC00), caps + caps');
    PairText(u, v, caps, caps');
    FourLong(u, caps);
    hide PieceText;
    Cut(s, p + 6, [0x5C, 0x75], FourDigits(v, caps'));
    Cut(s, p + 2, FourDigits(u, caps), [0x5C, 0x75] + FourDigits(v, caps'));
    Cut(s, p, [0x5C, 0x75], FourDigits(u, caps) + ([0x5C, 0x75] + FourDigits(v, caps')));
    OctetsAreUtf8(0x10000 + (u - 0xD800) * 0x400 + (v - 0xDC00));
  }

  /** What follows the first half of a pair. */
  lemma PairShape(s: Text, p: nat, u: nat)
    requires p + 6 <= |s| && s[p + 1] == 0x75 && HexRun(s, p + 2, 4) == Some(u) && IsLead(u) && Escape(s, p + 1).Some?
    ensures p + 12 <= |s| && At(s, p + 6, [0x5C, 0x75]) && HexRun(s, p + 8, 4).Some?
    ensures
      var v := HexRun(s, p + 8, 4).value;
      IsTrail(v) && Escape(s, p + 1) == Some((Utf8(0x10000 + (u - 0xD800) * 0x400 + (v - 0xDC00)), p + 12))
  {
    hide HexRun, Utf8;
    assert s[p + 6..p + 8] == [s[p + 6], s[p + 7]];
  }

  lemma PairText(u: nat, v: nat, caps: seq<bool>, caps': seq<bool>)
    requires IsLead(u) && IsTrail(v) && |caps| == |caps'| == 4
    ensures
      var x := Pair(0x10000 + (u - 0xD800) * 0x400 + (v - 0xDC00), caps + caps');
      && PieceOk(x)
      && PieceText(x) == [0x5C, 0x75] + (FourDigits(u, caps) + ([0x5C, 0x75] + FourDigits(v, caps')))
      && |PieceText(x)| == 12
  {
    hide FourDigits;
    FourLong(u, caps);
    FourLong(v, caps');
    var c := 0x10000 + (u - 0xD800) * 0x400 + (v - 0xDC00);
    assert (caps + caps')[..4] == caps && (caps + caps')[4..] == caps';
    assert (c - 0x10000) / 0x400 == u - 0xD800 && (c - 0x10000) % 0x400 == v - 0xDC00;
  }

  lemma {:induction false} StringWritten(s: Text, p: nat) returns (pieces: seq<Piece>)
    requires StringAt(s, p).Some?
    ensures PiecesOk(pieces) && At(s, p, Content(pieces) + [0x22])
    ensures StringAt(s, p) == Some((StringMeans(pieces), p + |Content(pieces)| + 1))
    decreases |s| - p
  {
    hide Escape, PieceText, PieceMeans, At;
    if s[p] == QUOTE {
      pieces := [];
      OneOctet(s, p);
      assert Content([]) + [0x22] == [s[p]];
    } else {
      var x;
      if s[p] == BACKSLASH {
        x := EscapeWritten(s, p);
      } else {
        x := Plain(s[p]);
        PlainWritten(s, p);
      }
      var rest := StringWritten(s, p + |PieceText(x)|);
      pieces := [x] + rest;
      assert pieces[1..] == rest;
      Cut(s, p, PieceText(x), Content(rest) + [0x22]);
      assert Content(pieces) + [0x22] == PieceText(x) + (Content(rest) + [0x22]);
    }
  }

  lemma OneOctet(s: Text, p: nat)
    requires p < |s|
    ensures At(s, p, [s[p]])
  {
    assert s[p..p + 1] == [s[p]];
  }

  lemma PlainWritten(s: Text, p: nat)
    requires p < |s| && s[p] != QUOTE && s[p] != BACKSLASH
    ensures PieceOk(Plain(s[p])) && At(s, p, PieceText(Plain(s[p]))) && |PieceText(Plain(s[p]))| == 1
    ensures PieceMeans(Plain(s[p])) == [if s[p] < SPACE then SPACE else s[p]]
  {
    OneOctet(s, p);
  }

  // ---------------------------------------------------------------- numbers

  function Sub(s: Text, a: nat, b: nat): Text
    requires a <= b <= |s|
  {
    s[a..b]
  }

  lemma AtSub(s: Text, a: nat, b: nat)
    requires a <= b <= |s|
    ensures At(s, a, Sub(s, a, b)) && |Sub(s, a, b)| == b - a
  {
  }

  /** The parts of a number, as far as the parser sees them. */
  lemma FractionWritten(s: Text, i: nat) returns (f: Option<Text>)
    requires i < |s| && FractionEnd(s, i).Some?
    ensures (f.Some? ==> AllDigits(f.value)) && At(s, i, FractionText(f))
    ensures FractionEnd(s, i) == Some(i + |FractionText(f)|) && (f == None <==> FractionEnd(s, i) == Some(i))
  {
    if s[i] == DOT {
      var e := DigitsEnd(s, i + 1);
      f := Some(Sub(s, i + 1, e));
      AtSub(s, i + 1, e);
      OneOctet(s, i);
      Cut(s, i, [0x2E], f.value);
    } else {
      f := None;
      Nothing(s, i);
    }
  }

  lemma PowerWritten(s: Text, f: nat) returns (p: Option<Power>)
    requires f < |s| && ExponentEnd(s, f).Some?
    ensures p.Some? ==> PowerOk(p.value)
    ensures At(s, f, PowerText(p))
    ensures ExponentEnd(s, f) == Some(f + |PowerText(p)|) && (p == None <==> ExponentEnd(s, f) == Some(f))
  {
    hide ExponentEnd, At, Sub, AllDigits, PowerText;
    if s[f] == 0x65 || s[f] == 0x45 {
      var q, e := PowerShape(s, f);
      var sign, digits := if q == f + 2 then Some(s[f + 1]) else None, Sub(s, q, e);
      p := Some(Power(s[f], sign, digits));
      PowerParts(p);
      AtSub(s, q, e);
      OneOctet(s, f);
      if sign.Some? {
        OneOctet(s, f + 1);
      } else {
        Nothing(s, f + 1);
      }
      Cut(s, f + 1, SignText(sign), digits);
      Cut(s, f, [s[f]], SignText(sign) + digits);
    } else {
      p := None;
      PowerParts(p);
      Nothing(s, f);
      NoPower(s, f);
    }
  }

  lemma NoPower(s: Text, f: nat)
    requires f < |s| && s[f] != 0x65 && s[f] != 0x45
    ensures ExponentEnd(s, f) == Some(f)
  {
  }

  lemma PowerShape(s: Text, f: nat) returns (q: nat, e: nat)
    requires f < |s| && (s[f] == 0x65 || s[f] == 0x45) && ExponentEnd(s, f).Some?
    ensures f + 1 <= q <= f + 2 && q < e < |s| && ExponentEnd(s, f) == Some(e) && AllDigits(Sub(s, q, e))
    ensures q == f + 2 ==> s[f + 1] == MINUS || s[f + 1] == PLUS
  {
    q := if s[f + 1] == MINUS || s[f + 1] == PLUS then f + 2 else f + 1;
    e := DigitsEnd(s, q);
  }

  lemma NumberWritten(s: Text, p: nat) returns (n: Number)
    requires p < |s| && (s[p] == MINUS || IsDigit(s[p])) && NumberAt(s, p).Found?
    ensures NumberOk(n) && At(s, p, NumberText(n)) && NumberAt(s, p) == Found((NumberMeans(n), p + |NumberText(n)|))
  {
    hide FractionEnd, ExponentEnd, At, NumberAt, NumberMeans, IntegerEnd, FractionText, PowerText, Sub;
    HasParts(s, p);
    var minus := s[p] == MINUS;
    var q := if minus then p + 1 else p;
    var i := IntegerEnd(s, q);
    var whole := Sub(s, q, i);
    AtSub(s, q, i);
    var fraction := FractionWritten(s, i);
    var f := FractionEnd(s, i).value;
    var power := PowerWritten(s, f);
    n := Number(minus, whole, fraction, power);
    var sign: Text := if minus then [0x2D] else [];
    if minus {
      OneOctet(s, p);
    } else {
      Nothing(s, p);
    }
    NumberParts(n);
    Cut(s, i, FractionText(fraction), PowerText(power));
    Cut(s, q, whole, FractionText(fraction) + PowerText(power));
    Cut(s, p, sign, whole + (FractionText(fraction) + PowerText(power)));
    WholeOk(s, p, q);
    NumberAsWritten(s, p, q, n);
  }

  lemma HasParts(s: Text, p: nat)
    requires p < |s| && (s[p] == MINUS || IsDigit(s[p])) && NumberAt(s, p).Found?
    ensures
      var q := if s[p] == MINUS then p + 1 else p;
      && q < |s| && IntegerEnd(s, q) < |s| && FractionEnd(s, IntegerEnd(s, q)).Some?
      && ExponentEnd(s, FractionEnd(s, IntegerEnd(s, q)).value).Some?
  {
  }

  lemma Nothing(s: Text, p: nat)
    requires p <= |s|
    ensures At(s, p, [])
  {
  }

  lemma WholeOk(s: Text, p: nat, q: nat)
    requires p < |s| && (s[p] == MINUS || IsDigit(s[p])) && q == (if s[p] == MINUS then p + 1 else p) && q < |s|
    ensures
      var whole := Sub(s, q, IntegerEnd(s, q));
      && AllDigits(whole) && (whole == [] ==> s[p] == MINUS) && (whole != [] && whole[0] == 0x30 ==> |whole| == 1)
  {
  }

  lemma NumberAsWritten(s: Text, p: nat, q: nat, n: Number)
    requires NumberOk(n) && At(s, p, NumberText(n)) && q == (if n.minus then p + 1 else p) < |s|
    requires (s[p] == MINUS <==> n.minus) && (s[p] == MINUS || IsDigit(s[p])) && NumberAt(s, p).Found?
    requires IntegerEnd(s, q) < |s| && n.whole == Sub(s, q, IntegerEnd(s, q))
    requires
      var i := IntegerEnd(s, q);
      var f := i + |FractionText(n.fraction)|;
      && FractionEnd(s, i) == Some(f) && (n.fraction == None <==> f == i)
      && ExponentEnd(s, f) == Some(p + |NumberText(n)|) && (n.power == None <==> f == p + |NumberText(n)|)
    ensures NumberAt(s, p) == Found((NumberMeans(n), p + |NumberText(n)|))
  {
    hide IntegerEnd, FractionEnd, ExponentEnd, NumberText, Decimal;
    assert s[p..p + |NumberText(n)|] == NumberText(n);
  }

  // ---------------------------------------------------------------- scalars and keys

  lemma {:induction false} GapWritten(s: Text, p: nat)
    requires p <= |s|
    ensures Blank(Sub(s, p, Skip(s, p)))
    decreases |s| - p
  {
    if p < |s| && IsBlank(s[p]) {
      GapWritten(s, p + 1);
      assert Sub(s, p, Skip(s, p)) == [s[p]] + Sub(s, p + 1, Skip(s, p));
    }
  }

  lemma ScalarWritten(s: Text, q: nat) returns (t: Tok)
    requires q < |s| && StartsScalar(s[q]) && ScalarAt(s, q).Found?
    ensures TokOk(t) && !t.TContainer? && At(s, q, TokText(t)) && ScalarAt(s, q) == Found((Means(t), q + |TokText(t)|))
  {
    hide NumberAt, StringAt, NumberText, NumberMeans, Content, StringMeans;
    if s[q] == 0x6E {
      t := TNull;
    } else if s[q] == 0x66 {
      t := TFalse;
    } else if s[q] == 0x74 {
      t := TTrue;
    } else if s[q] == QUOTE {
      var pieces := StringWritten(s, q + 1);
      t := TString(pieces);
      OneOctet(s, q);
      Cut(s, q, [0x22], Content(pieces) + [0x22]);
      assert TokText(t) == [0x22] + (Content(pieces) + [0x22]);
    } else {
      var n := NumberWritten(s, q);
      t := TNumber(n);
    }
  }

  lemma LabelWritten(s: Text, q: nat) returns (l: Label)
    requires q < |s| && s[q] == QUOTE && StringAt(s, q + 1).Some?
    requires
      var colon := Skip(s, StringAt(s, q + 1).value.1);
      colon < |s| && s[colon] == COLON
    ensures LabelOk(l) && At(s, q, LabelText(Some(l))) && StringAt(s, q + 1).value.0 == StringMeans(l.key)
    ensures Skip(s, Skip(s, StringAt(s, q + 1).value.1) + 1) == q + |LabelText(Some(l))|
  {
    hide At, StringAt, Content, StringMeans, Skip, LabelText, Sub;
    var key := StringWritten(s, q + 1);
    var k := StringAt(s, q + 1).value.1;
    var colon := Skip(s, k);
    var v := Skip(s, colon + 1);
    l := Label(key, Sub(s, k, colon), Sub(s, colon + 1, v));
    GapWritten(s, k);
    GapWritten(s, colon + 1);
    AtSub(s, k, colon);
    AtSub(s, colon + 1, v);
    OneOctet(s, q);
    OneOctet(s, colon);
    LabelParts(l);
    Cut(s, colon, [0x3A], l.after);
    Cut(s, k, l.mid, [0x3A] + l.after);
    Cut(s, q + 1, Content(key) + [0x22], l.mid + ([0x3A] + l.after));
    Cut(s, q, [0x22], (Content(key) + [0x22]) + (l.mid + ([0x3A] + l.after)));
  }

  // ---------------------------------------------------------------- containers

  /** What stands at `q` in a container: the bracket that closes it, or a value, then elements up to that bracket. */
  ghost predicate Ends(s: Text, isObject: bool, acc: seq<Member>, q: nat, r: (JValue, nat)) {
    q < |s| && s[q] == Closing(isObject) && r == (Built(isObject, acc), q + 1)
  }

  ghost predicate GoesOn(s: Text, isObject: bool, acc: seq<Member>, n: nat, gap: Text, rest: seq<Item>,
      r: (JValue, nat))
  {
    && Blank(gap) && ItemsOk(isObject, rest) && At(s, n, gap + ItemsText(isObject, rest, false))
    && r == (Built(isObject, acc + ItemsMean(isObject, rest)), n + |gap| + |ItemsText(isObject, rest, false)|)
  }

  /** A value in a container and what follows it, or the bracket. */
  lemma {:induction false} ValueWritten(s: Text, isObject: bool, acc: seq<Member>, comma: bool, key: Text, q: nat)
    returns (v: Option<Tok>, gap: Text, rest: seq<Item>)
    requires q <= |s| && Value(s, isObject, acc, comma, key, q).Found?
    ensures v == None ==> !comma && Ends(s, isObject, acc, q, Value(s, isObject, acc, comma, key, q).value)
    ensures Look(s, q) == Closing(isObject) ==> v == None
    ensures v.Some? ==>
      && TokOk(v.value) && At(s, q, TokText(v.value))
      && GoesOn(s, isObject, acc + [Member(key, Means(v.value))], q + |TokText(v.value)|, gap, rest,
                Value(s, isObject, acc, comma, key, q).value)
    decreases |s| - q, 1
  {
    hide Rest, ScalarAt, Means, TokText, At, ItemsText, ItemsMean;
    v, gap, rest := None, [], [];
    var c := Look(s, q);
    if StartsScalar(c) {
      var t := ScalarWritten(s, q);
      v := Some(t);
      var n := q + |TokText(t)|;
      gap, rest := MoreWritten(s, isObject, acc + [Member(key, Means(t))], n);
    } else if c == OPEN_ARRAY || c == OPEN_OBJECT {
      var t := ContainerWritten(s, q);
      v := Some(t);
      var n := q + |TokText(t)|;
      gap, rest := MoreWritten(s, isObject, acc + [Member(key, Means(t))], n);
    }
  }

  lemma {:induction false} ContainerWritten(s: Text, q: nat) returns (t: Tok)
    requires q < |s| && (s[q] == OPEN_ARRAY || s[q] == OPEN_OBJECT) && Rest(s, s[q] == OPEN_OBJECT, [], q + 1).Found?
    ensures TokOk(t) && t.TContainer? && t.isObject == (s[q] == OPEN_OBJECT) && At(s, q, TokText(t))
    ensures Rest(s, s[q] == OPEN_OBJECT, [], q + 1) == Found((Means(t), q + |TokText(t)|))
    decreases |s| - q, 0
  {
    hide Rest, At, LabelText, ItemsText, ItemsMean;
    var isObject := s[q] == OPEN_OBJECT;
    var pad, stub, items := FirstWritten(s, isObject, q + 1);
    t := TContainer(isObject, pad, stub, items);
    OneOctet(s, q);
    assert TokText(t) == [s[q]] + (pad + (LabelText(stub) + ItemsText(isObject, items, true)));
    Cut(s, q, [s[q]], pad + (LabelText(stub) + ItemsText(isObject, items, true)));
    ContainerMeans(t);
    assert [] + ItemsMean(isObject, items) == ItemsMean(isObject, items);
  }

  /** The key of an element, if it has one, the value and what follows, or the bracket. */
  lemma {:induction false} ElementWritten(s: Text, isObject: bool, acc: seq<Member>, comma: bool, q: nat)
    returns (name: Option<Label>, v: Option<Tok>, gap: Text, rest: seq<Item>)
    requires q <= |s| && Element(s, isObject, acc, comma, q).Found?
    ensures (name.Some? ==> isObject && LabelOk(name.value)) && At(s, q, LabelText(name))
    ensures name == None ==> !isObject || (v == None && Look(s, q) == CLOSE_OBJECT)
    ensures name.Some? ==> Look(s, q) == QUOTE
    ensures v == None ==>
      !comma && Ends(s, isObject, acc, q + |LabelText(name)|, Element(s, isObject, acc, comma, q).value)
    ensures v.Some? ==>
      && TokOk(v.value) && At(s, q + |LabelText(name)|, TokText(v.value))
      && GoesOn(s, isObject, acc + [Member(KeyMeans(name), Means(v.value))], q + |LabelText(name)| + |TokText(v.value)|,
                gap, rest, Element(s, isObject, acc, comma, q).value)
    decreases |s| - q, 2
  {
    hide Value, StringAt, Skip, At, LabelText, Means, TokText, GoesOn, StringMeans;
    NoLabel();
    Nothing(s, q);
    if isObject && Look(s, q) != CLOSE_OBJECT {
      var l := LabelWritten(s, q);
      name := Some(l);
      LabelLong(l);
      v, gap, rest := ValueWritten(s, isObject, acc, comma, StringMeans(l.key), q + |LabelText(name)|);
    } else {
      name := None;
      v, gap, rest := ValueWritten(s, isObject, acc, comma, [], q);
    }
  }

  lemma LabelLong(l: Label)
    requires LabelOk(l)
    ensures |LabelText(Some(l))| > 0
  {
  }

  /** An element and what goes on after it, put together. */
  lemma OneWritten(s: Text, isObject: bool, acc: seq<Member>, c: nat, x: Item, rest: seq<Item>, first: bool,
      r: (JValue, nat))
    requires ItemOk(isObject, x) && ItemsOk(isObject, rest)
    requires
      var q := c + (if first then 0 else 1) + |x.before|;
      && At(s, c, if first then [] else [0x2C]) && At(s, c + (if first then 0 else 1), x.before)
      && At(s, q, LabelText(x.name)) && At(s, q + |LabelText(x.name)|, TokText(x.value))
      && GoesOn(s, isObject, acc + [Member(KeyMeans(x.name), Means(x.value))],
                q + |LabelText(x.name)| + |TokText(x.value)|, x.after, rest, r)
    ensures ItemsOk(isObject, [x] + rest) && At(s, c, ItemsText(isObject, [x] + rest, first))
    ensures r == (Built(isObject, acc + ItemsMean(isObject, [x] + rest)), c + |ItemsText(isObject, [x] + rest, first)|)
  {
    hide At, LabelText, TokText, KeyMeans, Means, ItemsText, ItemsMean, Built;
    ItemsParts(isObject, x, rest, first);
    var tail := x.after + ItemsText(isObject, rest, false);
    FiveParts(s, c, if first then [] else [0x2C], x.before, LabelText(x.name), TokText(x.value), tail);
    var member := Member(KeyMeans(x.name), Means(x.value));
    assert acc + [member] + ItemsMean(isObject, rest) == acc + ([member] + ItemsMean(isObject, rest));
  }

  lemma Closes(s: Text, isObject: bool, acc: seq<Member>, q: nat)
    requires q < |s| && s[q] == Closing(isObject)
    ensures Element(s, isObject, acc, false, q) == Found((Built(isObject, acc), q + 1))
  {
    assert Value(s, isObject, acc, false, [], q) == Found((Built(isObject, acc), q + 1));
  }

  /** What stands in a container after some elements: white space, and further elements up to the bracket. */
  lemma {:induction false} MoreWritten(s: Text, isObject: bool, acc: seq<Member>, p: nat)
    returns (gap: Text, items: seq<Item>)
    requires p <= |s| && acc != [] && Rest(s, isObject, acc, p).Found?
    ensures GoesOn(s, isObject, acc, p, gap, items, Rest(s, isObject, acc, p).value)
    decreases |s| - p, 3
  {
    hide Element, At, LabelText, TokText, ItemsMean, Sub, Built, Skip, Means, KeyMeans;
    var q := Skip(s, p);
    gap := Sub(s, p, q);
    AtSub(s, p, q);
    GapWritten(s, p);
    if Look(s, q) == COMMA {
      var at := Skip(s, q + 1);
      var name, v, after, rest := ElementWritten(s, isObject, acc, true, at);
      AtSub(s, q + 1, at);
      GapWritten(s, q + 1);
      OneOctet(s, q);
      var x := Item(Sub(s, q + 1, at), name, v.value, after);
      OneWritten(s, isObject, acc, q, x, rest, false, Rest(s, isObject, acc, p).value);
      items := [x] + rest;
    } else {
      items := [];
      Closes(s, isObject, acc, q);
      OneOctet(s, q);
      assert ItemsText(isObject, [], false) == [s[q]] && acc + ItemsMean(isObject, []) == acc by {
        NoItems(isObject, acc);
      }
    }
    Cut(s, p, gap, ItemsText(isObject, items, false));
  }

  lemma NoItems(isObject: bool, acc: seq<Member>)
    ensures acc + ItemsMean(isObject, []) == acc
    ensures forall first :: ItemsText(isObject, [], first) == [Closing(isObject)]
  {
  }

  /**
    What stands in a container after its opening bracket: elements up to the closing one, or white space and
    possibly a key without a value.
  */
  lemma {:induction false} FirstWritten(s: Text, isObject: bool, p: nat)
    returns (pad: Text, stub: Option<Label>, items: seq<Item>)
    requires p <= |s| && Rest(s, isObject, [], p).Found?
    ensures Blank(pad) && ItemsOk(isObject, items) && (stub.Some? ==> isObject && LabelOk(stub.value))
    ensures items != [] ==> pad == [] && stub == None
    ensures At(s, p, pad + (LabelText(stub) + ItemsText(isObject, items, true)))
    ensures Rest(s, isObject, [], p) ==
      Found((Built(isObject, ItemsMean(isObject, items)),
             p + |pad + (LabelText(stub) + ItemsText(isObject, items, true))|))
    decreases |s| - p, 3
  {
    hide Element, At, LabelText, TokText, ItemsMean, ItemsText, Sub, Built, Skip, Means, KeyMeans;
    var q := Skip(s, p);
    AtSub(s, p, q);
    GapWritten(s, p);
    NoLabel();
    var name, v, after, rest := ElementWritten(s, isObject, [], false, q);
    if v.Some? {
      var x := Item(Sub(s, p, q), name, v.value, after);
      pad, stub, items := [], None, [x] + rest;
      Nothing(s, p);
      OneWritten(s, isObject, [], p, x, rest, true, Rest(s, isObject, [], p).value);
      assert [] + ItemsMean(isObject, items) == ItemsMean(isObject, items);
      assert [] + ([] + ItemsText(isObject, items, true)) == ItemsText(isObject, items, true);
    } else {
      pad, stub, items := Sub(s, p, q), name, [];
      NoItems(isObject, []);
      OneOctet(s, q + |LabelText(name)|);
      Cut(s, q, LabelText(name), ItemsText(isObject, [], true));
      Cut(s, p, pad, LabelText(name) + ItemsText(isObject, [], true));
    }
  }

  // ---------------------------------------------------------------- whole documents

  /** Whatever is accepted is a text of an array or object with white space around it, and up to a NUL or the end. */
  lemma DocumentWritten(s: Text) returns (lead: Text, t: Tok, tail: Text, rest: Text)
    requires Document(s).Found?
    ensures Blank(lead) && TokOk(t) && t.TContainer? && Trails(tail, rest)
    ensures s == lead + TokText(t) + tail + rest && Document(s) == Found(Means(t))
  {
    hide Rest, At, TokText, Skip, Sub, Means, Blank, TokOk;
    var q := Skip(s, 0);
    lead := Sub(s, 0, q);
    GapWritten(s, 0);
    AtSub(s, 0, q);
    t := ContainerWritten(s, q);
    var n := q + |TokText(t)|;
    var e := Skip(s, n);
    tail, rest := Sub(s, n, e), Sub(s, e, |s|);
    GapWritten(s, n);
    AtSub(s, n, e);
    AtSub(s, e, |s|);
    Cut(s, n, tail, rest);
    Cut(s, q, TokText(t), tail + rest);
    Cut(s, 0, lead, TokText(t) + (tail + rest));
    AllOf(s, lead + (TokText(t) + (tail + rest)));
    FourParts(lead, TokText(t), tail, rest);
    if rest != [] {
      AtOctet(s, e, rest, 0);
    }
  }

  lemma AllOf(s: Text, t: Text)
    requires At(s, 0, t) && |t| == |s|
    ensures s == t
  {
  }

  /** A text of a document, with what it means. */
  ghost predicate Writes(s: Text, v: JValue) {
    exists lead, t, tail, rest ::
      && Blank(lead) && TokOk(t) && t.TContainer? && Trails(tail, rest)
      && s == lead + TokText(t) + tail + rest && Means(t) == v
  }

  /** The parser accepts exactly the texts of documents, and finds exactly what they mean. */
  lemma DocumentExactly(s: Text, v: JValue)
    ensures Document(s) == Found(v) <==> Writes(s, v)
  {
    hide TokText, Means, Document, Blank, TokOk;
    if Document(s) == Found(v) {
      var lead, t, tail, rest := DocumentWritten(s);
    }
    if Writes(s, v) {
      var lead, t, tail, rest :|
        && Blank(lead) && TokOk(t) && t.TContainer? && Trails(tail, rest)
        && s == lead + TokText(t) + tail + rest && Means(t) == v;
      DocumentReads(lead, t, tail, rest);
    }
  }
}
