/** A printer of trees: what it prints is read back to the same tree. */
module JsonShow {
  import opened Options
  import opened Bytes
  import opened JsonGrammar
  import opened JsonText
  import DecimalText
  import JsonReads

  /** Trees without doubles whose integers stay below the overflow guard. */
  predicate Printable(v: JValue)
    decreases v
  {
    match v
    case JNull => true
    case JFalse => true
    case JTrue => true
    case JInteger(i) => -2147483560 < i < 2147483560
    case JDouble(_) => false
    case JString(_) => true
    case JArray(items) => forall i :: 0 <= i < |items| ==> Printable(items[i])
    case JObject(members) => forall i :: 0 <= i < |members| ==> Printable(members[i].value)
  }

  /** Quotes and backslashes are escaped with a backslash, control octets by number. */
  function Escaped(bytes: Text): (pieces: seq<Piece>)
    ensures PiecesOk(pieces)
  {
    if bytes == [] then [] else [EscapedOctet(bytes[0])] + Escaped(bytes[1..])
  }

  function EscapedOctet(b: Byte): (x: Piece)
    ensures PieceOk(x) && PieceMeans(x) == [b]
  {
    if b == 0x22 || b == 0x5C then Letter(b)
    else if b < 0x20 then Unit(b, [false, false, false, false])
    else Plain(b)
  }

  lemma {:induction false} EscapedMeans(bytes: Text)
    ensures StringMeans(Escaped(bytes)) == bytes
  {
    hide PieceMeans, EscapedOctet, PieceOk;
    if bytes != [] {
      EscapedMeans(bytes[1..]);
      assert Escaped(bytes)[1..] == Escaped(bytes[1..]);
      assert bytes == [bytes[0]] + bytes[1..];
    }
  }

  function Signed(i: int): Number {
    Number(i < 0, DecimalText.Digits(if i < 0 then -i else i), None, None)
  }

  lemma SignedMeans(i: int)
    requires -2147483560 < i < 2147483560
    ensures NumberOk(Signed(i)) && NumberMeans(Signed(i)) == JInteger(i)
    ensures NumberText(Signed(i)) == DecimalText.SignedText(i)
  {
    var n: nat := if i < 0 then -i else i;
    var d := DecimalText.Digits(n);
    DecimalText.DigitsValue(n);
    if n < 10 {
      assert d[..|d| - 1] == [];
    } else {
      DecimalText.DigitsValue(n / 10);
      assert d[..|d| - 1] == DecimalText.Digits(n / 10);
    }
  }

  function Shown(v: JValue): Tok
    requires Printable(v)
    decreases v
  {
    match v
    case JNull => TNull
    case JFalse => TFalse
    case JTrue => TTrue
    case JInteger(i) => TNumber(Signed(i))
    case JString(bytes) => TString(Escaped(bytes))
    case JArray(items) => TContainer(false, [], None, ShownItems(items))
    case JObject(members) => TContainer(true, [], None, ShownMembers(members))
  }

  function ShownItems(items: seq<JValue>): seq<Item>
    requires forall i :: 0 <= i < |items| ==> Printable(items[i])
    decreases items
  {
    if items == [] then [] else [Item([], None, Shown(items[0]), [])] + ShownItems(items[1..])
  }

  function ShownMembers(members: seq<Member>): seq<Item>
    requires forall i :: 0 <= i < |members| ==> Printable(members[i].value)
    decreases members
  {
    if members == [] then []
    else
      [Item([], Some(Label(Escaped(members[0].key), [], [])), Shown(members[0].value), [])] + ShownMembers(members[1..])
  }

  lemma {:induction false} ShownMeans(v: JValue)
    requires Printable(v)
    ensures TokOk(Shown(v)) && Means(Shown(v)) == v
    decreases v
  {
    match v
    case JNull =>
    case JFalse =>
    case JTrue =>
    case JInteger(i) => SignedMeans(i);
    case JString(bytes) => EscapedMeans(bytes);
    case JArray(items) => ItemsShown(items);
    case JObject(members) => MembersShown(members);
  }

  lemma {:induction false} ItemsShown(items: seq<JValue>)
    requires forall i :: 0 <= i < |items| ==> Printable(items[i])
    ensures ItemsOk(false, ShownItems(items)) && |ItemsMean(false, ShownItems(items))| == |items|
    ensures forall i :: 0 <= i < |items| ==> ItemsMean(false, ShownItems(items))[i].value == items[i]
    decreases items
  {
    if items != [] {
      ShownMeans(items[0]);
      ItemsShown(items[1..]);
      var x := Item([], None, Shown(items[0]), []);
      assert ItemOk(false, x);
      assert ShownItems(items)[1..] == ShownItems(items[1..]);
    }
  }

  lemma {:induction false} MembersShown(members: seq<Member>)
    requires forall i :: 0 <= i < |members| ==> Printable(members[i].value)
    ensures ItemsOk(true, ShownMembers(members)) && ItemsMean(true, ShownMembers(members)) == members
    decreases members
  {
    if members != [] {
      var m := members[0];
      ShownMeans(m.value);
      EscapedMeans(m.key);
      MembersShown(members[1..]);
      var x := Item([], Some(Label(Escaped(m.key), [], [])), Shown(m.value), []);
      assert ItemOk(true, x);
      assert ShownMembers(members)[1..] == ShownMembers(members[1..]);
      assert members == [m] + members[1..];
    }
  }

  /** An array or object printed and read is the same array or object. */
  lemma RoundTrip(v: JValue)
    requires Printable(v) && (v.JArray? || v.JObject?)
    ensures TokOk(Shown(v)) && Document(TokText(Shown(v))) == Found(v)
  {
    ShownMeans(v);
    hide TokText, Means, Shown, Document, Printable;
    JsonReads.DocumentReads([], Shown(v), [], []);
    assert [] + TokText(Shown(v)) + [] + [] == TokText(Shown(v));
  }
}
