/** The parser reads every such text, and finds what it means. */
module JsonReads {
  import opened Options
  import opened Bytes
  import opened JsonGrammar
  import opened JsonText

  /** The text stands at this place. */
  predicate At(s: Text, p: nat, t: Text) {
    p + |t| <= |s| && s[p..p + |t|] == t
  }

  lemma Cut(s: Text, p: nat, a: Text, b: Text)
    ensures At(s, p, a + b) <==> At(s, p, a) && At(s, p + |a|, b)
  {
    if At(s, p, a + b) {
      assert s[p..p + |a|] == s[p..p + |a + b|][..|a|];
      assert s[p + |a|..p + |a| + |b|] == s[p..p + |a + b|][|a|..];
    }
    if At(s, p, a) && At(s, p + |a|, b) {
      assert s[p..p + |a + b|] == s[p..p + |a|] + s[p + |a|..p + |a| + |b|];
    }
  }

  lemma AtSlice(s: Text, p: nat, t: Text)
    requires At(s, p, t)
    ensures p + |t| <= |s| && s[p..p + |t|] == t
  {
  }

  lemma AtOctet(s: Text, p: nat, t: Text, i: nat)
    requires At(s, p, t) && i < |t|
    ensures p + i < |s| && s[p + i] == t[i]
  {
    assert s[p..p + |t|][i] == t[i];
  }

  // ---------------------------------------------------------------- strings

  lemma HexRead(s: Text, p: nat, u: nat, caps: seq<bool>)
    requires u < 0x10000 && |caps| == 4 && At(s, p, FourDigits(u, caps))
    ensures HexRun(s, p, 4) == Some(u)
  {
    hide HexDigit, HexOctet, HexRun;
    var t := FourDigits(u, caps);
    AtOctet(s, p, t, 0);
    AtOctet(s, p, t, 1);
    AtOctet(s, p, t, 2);
    AtOctet(s, p, t, 3);
    HexDigitExactly(s[p], u / 0x1000);
    HexDigitExactly(s[p + 1], u / 0x100 % 0x10);
    HexDigitExactly(s[p + 2], u / 0x10 % 0x10);
    HexDigitExactly(s[p + 3], u % 0x10);
    FourTogether(s, p, u);
  }

  lemma FourTogether(s: Text, p: nat, u: nat)
    requires u < 0x10000 && p + 4 <= |s|
    requires HexDigit(s[p]) == Some(u / 0x1000) && HexDigit(s[p + 1]) == Some(u / 0x100 % 0x10)
    requires HexDigit(s[p + 2]) == Some(u / 0x10 % 0x10) && HexDigit(s[p + 3]) == Some(u % 0x10)
    ensures HexRun(s, p, 4) == Some(u)
  {
    hide HexDigit;
    assert HexRun(s, p, 1) == Some(u / 0x1000);
    assert HexRun(s, p, 2) == Some(u / 0x100);
    assert HexRun(s, p, 3) == Some(u / 0x10);
  }

  lemma OctetsAreUtf8(u: nat)
    requires u < 0x110000
    ensures Octets(u) == Utf8(u)
  {
    assert u / 64 / 64 == u / 4096 && u / 64 / 4096 == u / 262144;
  }

  /** An escape, from its backslash on. */
  lemma EscapeRead(s: Text, p: nat, x: Piece)
    requires PieceOk(x) && !x.Plain? && At(s, p, PieceText(x))
    ensures s[p] == BACKSLASH && Escape(s, p + 1) == Some((PieceMeans(x), p + |PieceText(x)|))
  {
    hide HexRun, FourDigits, Octets, Utf8;
    AtOctet(s, p, PieceText(x), 0);
    AtOctet(s, p, PieceText(x), 1);
    match x
    case Letter(b) =>
    case Unit(u, caps) =>
      Cut(s, p, [0x5C, 0x75], FourDigits(u, caps));
      FourLong(u, caps);
      HexRead(s, p + 2, u, caps);
      OctetsAreUtf8(u);
    case Pair(c, caps) =>
      PairRead(s, p, c, caps);
  }

  lemma FourLong(u: nat, caps: seq<bool>)
    requires u < 0x10000 && |caps| == 4
    ensures |FourDigits(u, caps)| == 4
  {
  }

  lemma PairRead(s: Text, p: nat, c: nat, caps: seq<bool>)
    requires PieceOk(Pair(c, caps)) && At(s, p, PieceText(Pair(c, caps)))
    ensures |PieceText(Pair(c, caps))| == 12 && Escape(s, p + 1) == Some((Octets(c), p + 12))
  {
    hide HexRun, FourDigits, Octets, Utf8, At;
    var u, v := 0xD800 + (c - 0x10000) / 0x400, 0xDC00 + (c - 0x10000) % 0x400;
    var a, b := FourDigits(u, caps[..4]), FourDigits(v, caps[4..]);
    FourLong(u, caps[..4]);
    FourLong(v, caps[4..]);
    assert PieceText(Pair(c, caps)) == ([0x5C, 0x75] + a) + ([0x5C, 0x75] + b);
    Cut(s, p, [0x5C, 0x75] + a, [0x5C, 0x75] + b);
    Cut(s, p, [0x5C, 0x75], a);
    Cut(s, p + 6, [0x5C, 0x75], b);
    AtOctet(s, p, [0x5C, 0x75], 1);
    AtOctet(s, p + 6, [0x5C, 0x75], 0);
    AtOctet(s, p + 6, [0x5C, 0x75], 1);
    AtOctet(s, p + 6, [0x5C, 0x75] + b, 5);
    HexRead(s, p + 2, u, caps[..4]);
    HexRead(s, p + 8, v, caps[4..]);
    OctetsAreUtf8(c);
  }

  /** A string, after its opening quote. */
  lemma {:induction false} StringRead(s: Text, p: nat, pieces: seq<Piece>)
    requires PiecesOk(pieces) && At(s, p, Content(pieces) + [0x22])
    ensures StringAt(s, p) == Some((StringMeans(pieces), p + |Content(pieces)| + 1))
    decreases pieces
  {
    hide Escape, PieceText, PieceMeans;
    if pieces == [] {
      AtOctet(s, p, [0x22], 0);
    } else {
      var x, rest := pieces[0], pieces[1..];
      assert Content(pieces) + [0x22] == PieceText(x) + (Content(rest) + [0x22]);
      Cut(s, p, PieceText(x), Content(rest) + [0x22]);
      if x.Plain? {
        PlainRead(s, p, x);
      } else {
        EscapeRead(s, p, x);
      }
      StringRead(s, p + |PieceText(x)|, rest);
    }
  }

  lemma PlainRead(s: Text, p: nat, x: Piece)
    requires x.Plain? && PieceOk(x) && At(s, p, PieceText(x))
    ensures s[p] == x.b && |PieceText(x)| == 1 && PieceMeans(x) == [if s[p] < SPACE then SPACE else s[p]]
  {
    AtOctet(s, p, PieceText(x), 0);
  }

  // ---------------------------------------------------------------- numbers

  lemma {:induction false} DigitsRead(s: Text, p: nat, d: Text)
    requires AllDigits(d) && At(s, p, d) && (p + |d| < |s| ==> !IsDigit(s[p + |d|]))
    ensures DigitsEnd(s, p) == p + |d|
    decreases |d|
  {
    if d != [] {
      assert d == [d[0]] + d[1..];
      Cut(s, p, [d[0]], d[1..]);
      AtOctet(s, p, d, 0);
      DigitsRead(s, p + 1, d[1..]);
    }
  }

  /** A number ends where none of these octets follows. */
  predicate Stops(b: Byte) {
    !IsDigit(b) && b != 0x2E && b != 0x65 && b != 0x45
  }

  lemma WholeRead(s: Text, q: nat, d: Text)
    requires AllDigits(d) && (d != [] && d[0] == 0x30 ==> |d| == 1) && At(s, q, d)
    requires q + |d| < |s| && !IsDigit(s[q + |d|])
    ensures IntegerEnd(s, q) == q + |d|
  {
    if d != [] {
      AtOctet(s, q, d, 0);
    }
    if s[q] != ZERO {
      DigitsRead(s, q, d);
    }
  }

  lemma FractionRead(s: Text, i: nat, f: Option<Text>)
    requires (f.Some? ==> AllDigits(f.value)) && At(s, i, FractionText(f)) && i + |FractionText(f)| < |s|
    requires !IsDigit(s[i + |FractionText(f)|]) && s[i + |FractionText(f)|] != DOT
    ensures FractionEnd(s, i) == Some(i + |FractionText(f)|)
  {
    if f.Some? {
      AtOctet(s, i, FractionText(f), 0);
      Cut(s, i, [0x2E], f.value);
      DigitsRead(s, i + 1, f.value);
    }
  }

  lemma PowerRead(s: Text, f: nat, p: Option<Power>)
    requires (p.Some? ==> PowerOk(p.value)) && At(s, f, PowerText(p)) && f + |PowerText(p)| < |s|
    requires Stops(s[f + |PowerText(p)|])
    ensures ExponentEnd(s, f) == Some(f + |PowerText(p)|)
    ensures !IsDigit(s[f]) && s[f] != DOT
  {
    hide At, DigitsEnd, AllDigits, ExponentEnd, PowerText;
    PowerParts(p);
    match p
    case None =>
      NoExponent(s, f);
    case Some(Power(e, sign, digits)) =>
      var st := SignText(sign);
      Cut(s, f, [e], st + digits);
      AtOctet(s, f, [e], 0);
      Cut(s, f + 1, st, digits);
      if sign.Some? {
        AtOctet(s, f + 1, st, 0);
      }
      AtOctet(s, f + 1 + |st|, digits, 0);
      FirstDigit(digits);
      DigitsRead(s, f + 1 + |st|, digits);
      ExponentFound(s, f, f + 1 + |st|);
  }

  lemma PowerParts(p: Option<Power>)
    ensures p == None ==> PowerText(p) == []
    ensures p.Some? ==>
      var Power(e, sign, digits) := p.value;
      && PowerText(p) == [e] + (SignText(sign) + digits) && |PowerText(p)| == 1 + |SignText(sign)| + |digits|
      && (if sign.Some? then SignText(sign) == [sign.value] else SignText(sign) == [])
  {
  }

  lemma FirstDigit(d: Text)
    requires AllDigits(d) && d != []
    ensures IsDigit(d[0])
  {
  }

  lemma NoExponent(s: Text, f: nat)
    requires f < |s| && Stops(s[f])
    ensures ExponentEnd(s, f) == Some(f)
  {
  }

  lemma ExponentFound(s: Text, f: nat, q: nat)
    requires f + 1 <= q <= f + 2 && q < |s| && (s[f] == 0x65 || s[f] == 0x45) && IsDigit(s[q])
    requires q == f + 2 ==> s[f + 1] == PLUS || s[f + 1] == MINUS
    requires DigitsEnd(s, q) < |s|
    ensures ExponentEnd(s, f) == Some(DigitsEnd(s, q))
  {
  }

  lemma NumberParts(n: Number)
    ensures NumberText(n) ==
      (if n.minus then [0x2D] else []) + (n.whole + (FractionText(n.fraction) + PowerText(n.power)))
  {
  }

  lemma NumberCuts(s: Text, p: nat, n: Number)
    requires At(s, p, NumberText(n))
    ensures
      var sign: Text := if n.minus then [0x2D] else [];
      var q := p + |sign|;
      var i := q + |n.whole|;
      var f := i + |FractionText(n.fraction)|;
      && At(s, p, sign) && At(s, q, n.whole) && At(s, i, FractionText(n.fraction)) && At(s, f, PowerText(n.power))
      && p + |NumberText(n)| == f + |PowerText(n.power)|
  {
    hide At, FractionText, PowerText, NumberText;
    NumberParts(n);
    var sign: Text := if n.minus then [0x2D] else [];
    var f, e := FractionText(n.fraction), PowerText(n.power);
    Cut(s, p, sign, n.whole + (f + e));
    Cut(s, p + |sign|, n.whole, f + e);
    Cut(s, p + |sign| + |n.whole|, f, e);
  }

  lemma NumberRead(s: Text, p: nat, n: Number)
    requires NumberOk(n) && At(s, p, NumberText(n)) && p + |NumberText(n)| < |s| && Stops(s[p + |NumberText(n)|])
    ensures NumberText(n) != [] && (s[p] == MINUS || IsDigit(s[p]))
    ensures NumberAt(s, p) == Found((NumberMeans(n), p + |NumberText(n)|))
  {
    hide At, DigitsEnd, IntegerEnd, FractionEnd, ExponentEnd, NumberAt, NumberMeans, PowerText, NumberText;
    var sign: Text := if n.minus then [0x2D] else [];
    var f, e := FractionText(n.fraction), PowerText(n.power);
    NumberCuts(s, p, n);
    var q := p + |sign|;
    if n.minus {
      AtOctet(s, p, sign, 0);
    } else {
      AtOctet(s, p, n.whole, 0);
    }
    PowerRead(s, q + |n.whole| + |f|, n.power);
    FractionRead(s, q + |n.whole|, n.fraction);
    if f != [] {
      AtOctet(s, q + |n.whole|, f, 0);
    }
    WholeRead(s, q, n.whole);
    NumberFound(s, p, q, n);
  }

  lemma NumberFound(s: Text, p: nat, q: nat, n: Number)
    requires NumberOk(n) && At(s, p, NumberText(n)) && At(s, q, n.whole) && q == p + (if n.minus then 1 else 0)
    requires p < q + |n.whole| + |FractionText(n.fraction)| + |PowerText(n.power)| == p + |NumberText(n)| < |s|
    requires (s[p] == MINUS <==> n.minus) && (s[p] == MINUS || IsDigit(s[p]))
    requires IntegerEnd(s, q) == q + |n.whole|
    requires FractionEnd(s, q + |n.whole|) == Some(q + |n.whole| + |FractionText(n.fraction)|)
    requires ExponentEnd(s, q + |n.whole| + |FractionText(n.fraction)|) == Some(p + |NumberText(n)|)
    ensures NumberAt(s, p) == Found((NumberMeans(n), p + |NumberText(n)|))
  {
    hide *;
    NoParts(n);
    WholeDigits(n);
    NumberMeansValue(n);
    var long := n.fraction.Some? || n.power.Some?;
    assert long <==> |FractionText(n.fraction)| + |PowerText(n.power)| > 0;
    NumberUnfolds(s, p, q, n.minus, n.whole, long, q + |n.whole| + |FractionText(n.fraction)|, NumberText(n));
  }

  lemma NoParts(n: Number)
    ensures |FractionText(n.fraction)| + |PowerText(n.power)| == 0 <==> n.fraction == None && n.power == None
  {
  }

  lemma WholeDigits(n: Number)
    requires NumberOk(n)
    ensures AllDigits(n.whole)
  {
  }

  function NumberValue(minus: bool, long: bool, whole: Text, text: Text): JValue
    requires AllDigits(whole)
  {
    if long || OverflowsInt(whole) then JDouble(text)
    else
      var d: int := Decimal(whole);
      JInteger(if minus then -d else d)
  }

  lemma NumberUnfolds(s: Text, p: nat, q: nat, minus: bool, whole: Text, long: bool, f: nat, text: Text)
    requires p < |s| && (s[p] == MINUS || IsDigit(s[p])) && q == (if minus then p + 1 else p)
    requires (minus <==> s[p] == MINUS) && (long <==> p + |text| != q + |whole|)
    requires AllDigits(whole) && At(s, q, whole) && q + |whole| < |s| && At(s, p, text)
    requires IntegerEnd(s, q) == q + |whole| && FractionEnd(s, q + |whole|) == Some(f)
    requires f < |s| && ExponentEnd(s, f) == Some(p + |text|)
    ensures NumberAt(s, p) == Found((NumberValue(minus, long, whole, text), p + |text|))
  {
    AtSlice(s, q, whole);
    AtSlice(s, p, text);
    hide IntegerEnd, FractionEnd, ExponentEnd, OverflowsInt, Decimal;
  }

  lemma NumberMeansValue(n: Number)
    requires NumberOk(n)
    ensures NumberMeans(n) == NumberValue(n.minus, n.fraction.Some? || n.power.Some?, n.whole, NumberText(n))
  {
    hide NumberText, Decimal;
  }

  // ---------------------------------------------------------------- scalars

  lemma {:induction false} SkipRead(s: Text, p: nat, w: Text)
    requires Blank(w) && At(s, p, w) && (p + |w| < |s| ==> !IsBlank(s[p + |w|]))
    ensures Skip(s, p) == p + |w|
    decreases |w|
  {
    if w != [] {
      assert w == [w[0]] + w[1..];
      Cut(s, p, [w[0]], w[1..]);
      AtOctet(s, p, w, 0);
      SkipRead(s, p + 1, w[1..]);
    }
  }

  lemma ScalarRead(s: Text, q: nat, t: Tok)
    requires TokOk(t) && !t.TContainer? && At(s, q, TokText(t)) && q + |TokText(t)| < |s|
    requires Stops(s[q + |TokText(t)|])
    ensures StartsScalar(s[q]) && ScalarAt(s, q) == Found((Means(t), q + |TokText(t)|))
  {
    hide NumberAt, StringAt, NumberText, Content, NumberMeans, StringMeans;
    if t.TNumber? {
      NumberRead(s, q, t.n);
    } else if t.TString? {
      assert TokText(t) == [0x22] + (Content(t.pieces) + [0x22]);
      Cut(s, q, [0x22], Content(t.pieces) + [0x22]);
      AtOctet(s, q, [0x22], 0);
      StringRead(s, q + 1, t.pieces);
    } else {
      AtOctet(s, q, TokText(t), 0);
      assert Spells(s, q, TokText(t));
    }
  }

  /** How a value starts. */
  lemma TokStarts(t: Tok)
    requires TokOk(t)
    ensures TokText(t) != []
    ensures
      var b := TokText(t)[0];
      StartsScalar(b) || b == (if t.TContainer? && t.isObject then OPEN_OBJECT else OPEN_ARRAY)
    ensures t.TContainer? <==> TokText(t)[0] == OPEN_ARRAY || TokText(t)[0] == OPEN_OBJECT
  {
    hide NumberText;
    if t.TNumber? {
      NumberStarts(t.n);
    }
  }

  lemma NumberStarts(n: Number)
    requires NumberOk(n)
    ensures NumberText(n) != [] && (NumberText(n)[0] == MINUS || IsDigit(NumberText(n)[0]))
  {
    hide FractionText, PowerText;
    var more := n.whole + (FractionText(n.fraction) + PowerText(n.power));
    assert NumberText(n) == (if n.minus then [0x2D] else []) + more;
    if !n.minus {
      assert more[0] == n.whole[0] && IsDigit(n.whole[0]);
    }
  }

  // ---------------------------------------------------------------- keys

  lemma LabelParts(l: Label)
    requires LabelOk(l)
    ensures LabelText(Some(l)) == [0x22] + ((Content(l.key) + [0x22]) + (l.mid + ([0x3A] + l.after)))
  {
    hide Content;
    Grouped([0x22], Content(l.key), [0x22], l.mid, [0x3A], l.after);
  }

  lemma Grouped(a: Text, b: Text, c: Text, d: Text, e: Text, f: Text)
    ensures a + b + c + d + e + f == a + ((b + c) + (d + (e + f)))
  {
  }

  /** The key, the colon and the white space around it. */
  lemma LabelRead(s: Text, q: nat, l: Label)
    requires LabelOk(l) && At(s, q, LabelText(Some(l))) && q + |LabelText(Some(l))| < |s|
    requires !IsBlank(s[q + |LabelText(Some(l))|])
    ensures s[q] == QUOTE && StringAt(s, q + 1).Some?
    ensures
      var (key, k) := StringAt(s, q + 1).value;
      && key == StringMeans(l.key) && Skip(s, k) < |s| && s[Skip(s, k)] == COLON
      && Skip(s, Skip(s, k) + 1) == q + |LabelText(Some(l))|
  {
    hide At, StringAt, Content, StringMeans, Skip, LabelText;
    var content := Content(l.key) + [0x22];
    LabelParts(l);
    Cut(s, q, [0x22], content + (l.mid + ([0x3A] + l.after)));
    AtOctet(s, q, [0x22], 0);
    Cut(s, q + 1, content, l.mid + ([0x3A] + l.after));
    StringRead(s, q + 1, l.key);
    var k := q + 1 + |content|;
    Cut(s, k, l.mid, [0x3A] + l.after);
    Cut(s, k + |l.mid|, [0x3A], l.after);
    AtOctet(s, k + |l.mid|, [0x3A], 0);
    SkipRead(s, k, l.mid);
    SkipRead(s, k + |l.mid| + 1, l.after);
  }

  // ---------------------------------------------------------------- containers

  /** What may follow a value: white space, a comma, or a closing bracket. */
  predicate Follows(b: Byte) {
    IsBlank(b) || b == COMMA || b == CLOSE_ARRAY || b == CLOSE_OBJECT
  }

  /** A value, wherever it stands in a container: the rest goes on after it. */
  lemma {:induction false} TokRead(s: Text, isObject: bool, acc: seq<Member>, comma: bool, key: Text, q: nat, t: Tok)
    requires TokOk(t) && At(s, q, TokText(t)) && q + |TokText(t)| < |s| && Follows(s[q + |TokText(t)|])
    ensures Value(s, isObject, acc, comma, key, q) ==
            Rest(s, isObject, acc + [Member(key, Means(t))], q + |TokText(t)|)
    decreases t, 1
  {
    hide Rest, ScalarAt, Means, TokText, TokOk, At;
    TokStarts(t);
    AtOctet(s, q, TokText(t), 0);
    if t.TContainer? {
      ContainerRead(s, q, t);
    } else {
      ScalarRead(s, q, t);
    }
  }

  /** A container, after its opening bracket. */
  lemma {:induction false} ContainerRead(s: Text, q: nat, t: Tok)
    requires TokOk(t) && t.TContainer? && At(s, q, TokText(t))
    ensures s[q] == if t.isObject then OPEN_OBJECT else OPEN_ARRAY
    ensures Rest(s, t.isObject, [], q + 1) == Found((Means(t), q + |TokText(t)|))
    decreases t, 0
  {
    hide Rest, At, LabelText, ItemsText;
    var open: Text := [if t.isObject then 0x7B else 0x5B];
    var inner := ItemsText(t.isObject, t.items, true);
    assert TokText(t) == open + (t.pad + (LabelText(t.stub) + inner));
    Cut(s, q, open, t.pad + (LabelText(t.stub) + inner));
    AtOctet(s, q, open, 0);
    ContainerMeans(t);
    if t.items == [] {
      Cut(s, q + 1, t.pad, LabelText(t.stub) + inner);
      Cut(s, q + 1 + |t.pad|, LabelText(t.stub), inner);
      EmptyRead(s, q + 1, t);
      OnlyClosing(t.isObject, true);
    } else {
      NoLabel();
      assert [] + inner == inner;
      assert t.pad + (LabelText(t.stub) + inner) == inner;
      ItemsRead(s, t.isObject, [], q + 1, [], t.items);
      assert [] + ItemsMean(t.isObject, t.items) == ItemsMean(t.isObject, t.items);
    }
  }

  lemma NoLabel()
    ensures LabelText(None) == []
  {
  }

  lemma OnlyClosing(isObject: bool, first: bool)
    ensures ItemsText(isObject, [], first) == [if isObject then CLOSE_OBJECT else CLOSE_ARRAY]
  {
  }

  lemma ContainerMeans(t: Tok)
    requires TokOk(t) && t.TContainer?
    ensures Means(t) == Built(t.isObject, ItemsMean(t.isObject, t.items))
  {
  }

  /** An empty container, possibly an object with a key and no value. */
  lemma EmptyRead(s: Text, p: nat, t: Tok)
    requires TokOk(t) && t.TContainer? && t.items == [] && At(s, p, t.pad) && At(s, p + |t.pad|, LabelText(t.stub))
    requires At(s, p + |t.pad| + |LabelText(t.stub)|, ItemsText(t.isObject, [], true))
    ensures
      Rest(s, t.isObject, [], p) == Found((Built(t.isObject, []), p + |t.pad| + |LabelText(t.stub)| + 1))
  {
    hide LabelText, Skip, At, Rest, ItemsText, TokText, StringAt, Value, Element;
    var q := p + |t.pad|;
    OnlyClosing(t.isObject, true);
    AtOctet(s, q + |LabelText(t.stub)|, ItemsText(t.isObject, [], true), 0);
    if t.stub.Some? {
      LabelRead(s, q, t.stub.value);
      SkipRead(s, p, t.pad);
      ToValue(s, [], false, q);
      ToInside(s, true, p, q);
      KeyWithoutValue(s, [], false, StringAt(s, q + 1).value.0, q + |LabelText(t.stub)|);
    } else {
      NoLabel();
      SkipRead(s, p, t.pad);
      ClosesAtOnce(s, t.isObject, p, q);
    }
  }

  lemma ToInside(s: Text, isObject: bool, p: nat, q: nat)
    requires p <= q < |s| && Skip(s, p) == q && s[q] != COMMA
    ensures Rest(s, isObject, [], p) == Element(s, isObject, [], false, q)
  {
  }

  lemma ClosesAtOnce(s: Text, isObject: bool, p: nat, q: nat)
    requires p <= q < |s| && Skip(s, p) == q && s[q] == Closing(isObject)
    ensures Rest(s, isObject, [], p) == Found((Built(isObject, []), q + 1))
  {
    assert Value(s, isObject, [], false, [], q) == Found((Built(isObject, []), q + 1));
  }

  /** One element, with its key in an object. */
  lemma {:induction false} ItemRead(s: Text, isObject: bool, acc: seq<Member>, comma: bool, q: nat, x: Item)
    requires ItemOk(isObject, x) && At(s, q, LabelText(x.name)) && At(s, q + |LabelText(x.name)|, TokText(x.value))
    requires
      var n := q + |LabelText(x.name)| + |TokText(x.value)|;
      n < |s| && Follows(s[n])
    ensures !IsBlank(s[q]) && s[q] != COMMA
    ensures Element(s, isObject, acc, comma, q) ==
            Rest(s, isObject, acc + [Member(KeyMeans(x.name), Means(x.value))],
                 q + |LabelText(x.name)| + |TokText(x.value)|)
    decreases x, 0
  {
    hide Rest, Value, StringAt, Skip, Means, LabelText, TokText, At;
    var v := q + |LabelText(x.name)|;
    TokStarts(x.value);
    AtOctet(s, v, TokText(x.value), 0);
    TokRead(s, isObject, acc, comma, KeyMeans(x.name), v, x.value);
    if isObject {
      LabelRead(s, q, x.name.value);
      ToValue(s, acc, comma, q);
    } else {
      NoLabel();
    }
  }

  /** On from the key of an element to its value. */
  lemma ToValue(s: Text, acc: seq<Member>, comma: bool, q: nat)
    requires q < |s| && s[q] == QUOTE && StringAt(s, q + 1).Some?
    requires
      var colon := Skip(s, StringAt(s, q + 1).value.1);
      colon < |s| && s[colon] == COLON
    ensures
      var (key, k) := StringAt(s, q + 1).value;
      Element(s, true, acc, comma, q) == Value(s, true, acc, comma, key, Skip(s, Skip(s, k) + 1))
  {
  }

  /** The elements of a container from some comma on, or from the first one, up to its end. */
  lemma {:induction false} ItemsRead(s: Text, isObject: bool, acc: seq<Member>, p: nat, gap: Text, items: seq<Item>)
    requires ItemsOk(isObject, items) && Blank(gap) && (acc == [] ==> items != [] && gap == [])
    requires At(s, p, gap + ItemsText(isObject, items, acc == []))
    ensures Rest(s, isObject, acc, p) ==
            Found((Built(isObject, acc + ItemsMean(isObject, items)),
                   p + |gap| + |ItemsText(isObject, items, acc == [])|))
    decreases items
  {
    hide Rest, At, ItemOk, ItemText, ItemsOk, TokText, LabelText, Means, KeyMeans, BeforeAfter;
    if items == [] {
      Cut(s, p, gap, ItemsText(isObject, items, acc == []));
      LastRead(s, isObject, acc, p, gap);
      assert acc + [] == acc;
    } else {
      var x, rest := items[0], items[1..];
      FirstItem(isObject, items);
      var member := Member(KeyMeans(x.name), Means(x.value));
      OneRead(s, isObject, acc, p, gap, x, rest);
      ItemsRead(s, isObject, acc + [member], p + |gap| + BeforeAfter(isObject, x, acc == []), x.after, rest);
      assert acc + [member] + ItemsMean(isObject, rest) == acc + ([member] + ItemsMean(isObject, rest));
      Lengths(isObject, x, rest, acc == []);
    }
  }

  lemma FirstItem(isObject: bool, items: seq<Item>)
    requires ItemsOk(isObject, items) && items != []
    ensures items == [items[0]] + items[1..] && ItemOk(isObject, items[0]) && ItemsOk(isObject, items[1..])
    ensures Blank(items[0].after) && TokOk(items[0].value) && (items[0].name.Some? ==> LabelOk(items[0].name.value))
  {
  }

  /** How much of an element comes before the white space after it, with the comma before it. */
  function BeforeAfter(isObject: bool, x: Item, first: bool): nat
    requires ItemOk(isObject, x)
  {
    (if first then 0 else 1) + |x.before| + |LabelText(x.name)| + |TokText(x.value)|
  }

  lemma Lengths(isObject: bool, x: Item, rest: seq<Item>, first: bool)
    requires ItemOk(isObject, x) && ItemsOk(isObject, rest) && ItemsOk(isObject, [x] + rest)
    ensures |ItemsText(isObject, [x] + rest, first)| ==
            BeforeAfter(isObject, x, first) + |x.after| + |ItemsText(isObject, rest, false)|
  {
    hide LabelText, TokText;
    assert ([x] + rest)[1..] == rest;
  }

  lemma ItemsParts(isObject: bool, x: Item, rest: seq<Item>, first: bool)
    requires ItemOk(isObject, x) && ItemsOk(isObject, rest)
    ensures ItemsOk(isObject, [x] + rest)
    ensures ItemsText(isObject, [x] + rest, first) ==
      (if first then [] else [0x2C])
      + (x.before + (LabelText(x.name) + (TokText(x.value) + (x.after + ItemsText(isObject, rest, false)))))
    ensures ItemsMean(isObject, [x] + rest) == [Member(KeyMeans(x.name), Means(x.value))] + ItemsMean(isObject, rest)
  {
    ConsOk(isObject, x, rest);
    hide LabelText, TokText, KeyMeans, Means, ItemOk;
    assert ([x] + rest)[1..] == rest && ([x] + rest)[0] == x;
    Regrouped(if first then [] else [0x2C], x.before, LabelText(x.name), TokText(x.value), x.after,
              ItemsText(isObject, rest, false));
  }

  lemma Regrouped(a: Text, b: Text, c: Text, d: Text, e: Text, f: Text)
    ensures a + (b + c + d + e) + f == a + (b + (c + (d + (e + f))))
  {
  }

  lemma ConsOk(isObject: bool, x: Item, rest: seq<Item>)
    requires ItemOk(isObject, x) && ItemsOk(isObject, rest)
    ensures ItemsOk(isObject, [x] + rest)
    ensures Blank(x.before) && Blank(x.after) && (x.name.Some? ==> LabelOk(x.name.value)) && TokOk(x.value)
  {
  }

  /** One element of a container, from the end of the one before. */
  lemma {:induction false} OneRead(s: Text, isObject: bool, acc: seq<Member>, p: nat, gap: Text,
      x: Item, rest: seq<Item>)
    requires ItemOk(isObject, x) && ItemsOk(isObject, rest) && Blank(gap) && (acc == [] ==> gap == [])
    requires ItemsOk(isObject, [x] + rest) && At(s, p, gap + ItemsText(isObject, [x] + rest, acc == []))
    ensures
      var n := p + |gap| + BeforeAfter(isObject, x, acc == []);
      && n < |s| && Rest(s, isObject, acc, p) == Rest(s, isObject, acc + [Member(KeyMeans(x.name), Means(x.value))], n)
      && At(s, n, x.after + ItemsText(isObject, rest, false))
    decreases x, 1
  {
    hide Rest, Element, At, TokText, LabelText, Means, KeyMeans;
    var comma: Text := if acc == [] then [] else [0x2C];
    var tail := ItemsText(isObject, rest, false);
    ItemsParts(isObject, x, rest, acc == []);
    hide ItemsText;
    Cut(s, p, gap, ItemsText(isObject, [x] + rest, acc == []));
    var q := p + |gap| + |comma| + |x.before|;
    FiveParts(s, p + |gap|, comma, x.before, LabelText(x.name), TokText(x.value), x.after + tail);
    TailFollows(s, q + |LabelText(x.name)| + |TokText(x.value)|, isObject, x.after, rest);
    ItemRead(s, isObject, acc, acc != [], q, x);
    ToElement(s, isObject, acc, p, gap, x.before);
  }

  lemma FiveParts(s: Text, p: nat, a: Text, b: Text, c: Text, d: Text, e: Text)
    ensures At(s, p, a + (b + (c + (d + e)))) <==>
      && At(s, p, a) && At(s, p + |a|, b) && At(s, p + |a| + |b|, c) && At(s, p + |a| + |b| + |c|, d)
      && At(s, p + |a| + |b| + |c| + |d|, e)
  {
    hide At;
    Cut(s, p, a, b + (c + (d + e)));
    Cut(s, p + |a|, b, c + (d + e));
    Cut(s, p + |a| + |b|, c, d + e);
    Cut(s, p + |a| + |b| + |c|, d, e);
  }

  lemma TailFollows(s: Text, n: nat, isObject: bool, after: Text, rest: seq<Item>)
    requires ItemsOk(isObject, rest) && Blank(after) && At(s, n, after + ItemsText(isObject, rest, false))
    ensures n < |s| && Follows(s[n])
  {
    var t := after + ItemsText(isObject, rest, false);
    assert rest != [] ==> ItemsText(isObject, rest, false)[0] == 0x2C;
    AtOctet(s, n, t, 0);
  }

  lemma LastRead(s: Text, isObject: bool, acc: seq<Member>, p: nat, gap: Text)
    requires acc != [] && Blank(gap) && At(s, p, gap) && At(s, p + |gap|, ItemsText(isObject, [], false))
    ensures Rest(s, isObject, acc, p) == Found((Built(isObject, acc), p + |gap| + 1))
  {
    hide Skip;
    AtOctet(s, p + |gap|, ItemsText(isObject, [], false), 0);
    SkipRead(s, p, gap);
    assert Value(s, isObject, acc, false, [], p + |gap|) == Found((Built(isObject, acc), p + |gap| + 1));
  }

  /** The white space and the comma before an element. */
  lemma ToElement(s: Text, isObject: bool, acc: seq<Member>, p: nat, gap: Text, before: Text)
    requires Blank(gap) && Blank(before) && (acc == [] ==> gap == []) && At(s, p, gap)
    requires acc != [] ==> At(s, p + |gap|, [0x2C]) && At(s, p + |gap| + 1, before)
    requires acc == [] ==> At(s, p, before)
    requires
      var q := p + |gap| + (if acc == [] then 0 else 1) + |before|;
      q < |s| && !IsBlank(s[q]) && s[q] != COMMA
    ensures Rest(s, isObject, acc, p) ==
            Element(s, isObject, acc, acc != [], p + |gap| + (if acc == [] then 0 else 1) + |before|)
  {
    hide Element, Skip, At;
    if acc == [] {
      SkipRead(s, p, before);
    } else {
      AtOctet(s, p + |gap|, [0x2C], 0);
      SkipRead(s, p, gap);
      SkipRead(s, p + |gap| + 1, before);
    }
  }

  // ---------------------------------------------------------------- whole documents

  /** What may follow a document: white space, and after a NUL anything. */
  predicate Trails(tail: Text, rest: Text) {
    Blank(tail) && (rest == [] || rest[0] == 0)
  }

  /** Every such text of an array or object, with white space around it, is read to what it means. */
  lemma DocumentReads(lead: Text, t: Tok, tail: Text, rest: Text)
    requires Blank(lead) && TokOk(t) && t.TContainer? && Trails(tail, rest)
    ensures Document(lead + TokText(t) + tail + rest) == Found(Means(t))
  {
    hide Rest, At, TokText, Skip, Blank, TokOk, Means, Document;
    var s := lead + TokText(t) + tail + rest;
    FourParts(lead, TokText(t), tail, rest);
    WholeText(s);
    Cut(s, 0, lead, TokText(t) + (tail + rest));
    Cut(s, |lead|, TokText(t), tail + rest);
    Cut(s, |lead| + |TokText(t)|, tail, rest);
    ContainerRead(s, |lead|, t);
    SkipRead(s, 0, lead);
    var n := |lead| + |TokText(t)| + |tail|;
    if rest != [] {
      AtOctet(s, n, rest, 0);
    }
    SkipRead(s, |lead| + |TokText(t)|, tail);
    DocumentFound(s, |lead|, Means(t), |lead| + |TokText(t)|);
  }

  lemma DocumentFound(s: Text, q: nat, v: JValue, n: nat)
    requires q == Skip(s, 0) < |s| && (s[q] == OPEN_ARRAY || s[q] == OPEN_OBJECT)
    requires Rest(s, s[q] == OPEN_OBJECT, [], q + 1) == Found((v, n)) && Look(s, Skip(s, n)) == 0
    ensures Document(s) == Found(v)
  {
  }

  lemma FourParts(a: Text, b: Text, c: Text, d: Text)
    ensures a + b + c + d == a + (b + (c + d))
  {
  }

  lemma WholeText(s: Text)
    ensures At(s, 0, s)
  {
  }
}
