/** What the grammar finds in a text it finds in every longer text too; so a NUL after the root ends a document. */
module JsonLocality {
  import opened Options
  import opened Bytes
  import opened JsonGrammar

  lemma {:induction false} SkipLocal(r: seq<Byte>, t: seq<Byte>, p: nat)
    requires p <= |r| && (Skip(r, p) < |r| || t == [] || !IsBlank(t[0]))
    ensures Skip(r + t, p) == Skip(r, p)
    decreases |r| - p
  {
    if p < |r| && IsBlank(r[p]) {
      SkipLocal(r, t, p + 1);
    }
  }

  lemma {:induction false} HexLocal(r: seq<Byte>, t: seq<Byte>, p: nat, k: nat)
    requires k <= 4 && p + k <= |r|
    ensures HexRun(r + t, p, k) == HexRun(r, p, k)
  {
    if k > 0 {
      HexLocal(r, t, p, k - 1);
    }
  }

  lemma EscapeLocal(r: seq<Byte>, t: seq<Byte>, q: nat)
    requires Escape(r, q).Some?
    ensures Escape(r + t, q) == Escape(r, q)
  {
    hide Utf8;
    if Replacement(r[q]).None? {
      HexLocal(r, t, q + 1, 4);
      if IsLead(HexRun(r, q + 1, 4).value) {
        HexLocal(r, t, q + 7, 4);
      }
    }
  }

  lemma {:induction false} StringLocal(r: seq<Byte>, t: seq<Byte>, p: nat)
    requires StringAt(r, p).Some?
    ensures StringAt(r + t, p) == StringAt(r, p)
    decreases |r| - p
  {
    hide Escape;
    if r[p] == BACKSLASH {
      EscapeLocal(r, t, p + 1);
      StringLocal(r, t, Escape(r, p + 1).value.1);
    } else if r[p] != QUOTE {
      StringLocal(r, t, p + 1);
    }
  }

  lemma {:induction false} DigitsLocal(r: seq<Byte>, t: seq<Byte>, p: nat)
    requires p <= |r| && DigitsEnd(r, p) < |r|
    ensures DigitsEnd(r + t, p) == DigitsEnd(r, p)
    decreases |r| - p
  {
    if IsDigit(r[p]) {
      DigitsLocal(r, t, p + 1);
    }
  }

  lemma FractionLocal(r: seq<Byte>, t: seq<Byte>, p: nat)
    requires p < |r| && FractionEnd(r, p).Some?
    ensures FractionEnd(r + t, p) == FractionEnd(r, p)
  {
    if r[p] == DOT {
      DigitsLocal(r, t, p + 1);
    }
  }

  lemma ExponentLocal(r: seq<Byte>, t: seq<Byte>, p: nat)
    requires p < |r| && ExponentEnd(r, p).Some?
    ensures ExponentEnd(r + t, p) == ExponentEnd(r, p)
  {
    if r[p] == 0x65 || r[p] == 0x45 {
      DigitsLocal(r, t, if r[p + 1] == MINUS || r[p + 1] == PLUS then p + 2 else p + 1);
    }
  }

  lemma NumberLocal(r: seq<Byte>, t: seq<Byte>, p: nat)
    requires p < |r| && (r[p] == MINUS || IsDigit(r[p])) && NumberAt(r, p).Found?
    ensures NumberAt(r + t, p) == NumberAt(r, p)
  {
    hide FractionEnd, ExponentEnd, Decimal;
    var q := if r[p] == MINUS then p + 1 else p;
    var i := IntegerEnd(r, q);
    if r[q] != ZERO {
      DigitsLocal(r, t, q);
    }
    FractionLocal(r, t, i);
    var f := FractionEnd(r, i).value;
    ExponentLocal(r, t, f);
    var e := ExponentEnd(r, f).value;
    assert (r + t)[q..i] == r[q..i] && (r + t)[p..e] == r[p..e];
  }

  lemma ScalarLocal(r: seq<Byte>, t: seq<Byte>, p: nat)
    requires p < |r| && StartsScalar(r[p]) && ScalarAt(r, p).Found?
    ensures ScalarAt(r + t, p) == ScalarAt(r, p)
  {
    hide NumberAt;
    if r[p] == QUOTE {
      StringLocal(r, t, p + 1);
    } else if r[p] == MINUS || IsDigit(r[p]) {
      NumberLocal(r, t, p);
    } else {
      var n := ScalarAt(r, p).value.1;
      assert (r + t)[p..n] == r[p..n];
    }
  }

  lemma {:induction false} RestLocal(r: seq<Byte>, t: seq<Byte>, isObject: bool, acc: seq<Member>, p: nat)
    requires p <= |r| && Rest(r, isObject, acc, p).Found?
    ensures Rest(r + t, isObject, acc, p) == Rest(r, isObject, acc, p)
    decreases |r| - p, 1
  {
    hide Element;
    var q := Skip(r, p);
    SkipLocal(r, t, p);
    if Look(r, q) == COMMA {
      ElementLocal(r, t, isObject, acc, true, Skip(r, q + 1));
      SkipLocal(r, t, q + 1);
    } else {
      ElementLocal(r, t, isObject, acc, false, q);
    }
  }

  lemma {:induction false} ElementLocal(r: seq<Byte>, t: seq<Byte>, isObject: bool, acc: seq<Member>, comma: bool,
      q: nat)
    requires q <= |r| && Element(r, isObject, acc, comma, q).Found?
    ensures q < |r| && Element(r + t, isObject, acc, comma, q) == Element(r, isObject, acc, comma, q)
    decreases |r| - q, 0
  {
    hide Value;
    if isObject && Look(r, q) != CLOSE_OBJECT {
      StringLocal(r, t, q + 1);
      var (key, k) := StringAt(r, q + 1).value;
      SkipLocal(r, t, k);
      ValueLocal(r, t, isObject, acc, comma, key, Skip(r, Skip(r, k) + 1));
      SkipLocal(r, t, Skip(r, k) + 1);
    } else {
      ValueLocal(r, t, isObject, acc, comma, [], q);
    }
  }

  lemma {:induction false} ValueLocal(r: seq<Byte>, t: seq<Byte>, isObject: bool, acc: seq<Member>, comma: bool,
      key: seq<Byte>, q: nat)
    requires q <= |r| && Value(r, isObject, acc, comma, key, q).Found?
    ensures q < |r| && Value(r + t, isObject, acc, comma, key, q) == Value(r, isObject, acc, comma, key, q)
    decreases |r| - q, 0, 0
  {
    hide Rest, ScalarAt;
    var c := Look(r, q);
    if StartsScalar(c) {
      ScalarLocal(r, t, q);
      RestLocal(r, t, isObject, acc + [Member(key, ScalarAt(r, q).value.0)], ScalarAt(r, q).value.1);
    } else if c == OPEN_ARRAY || c == OPEN_OBJECT {
      RestLocal(r, t, c == OPEN_OBJECT, [], q + 1);
      var inner := Rest(r, c == OPEN_OBJECT, [], q + 1);
      RestLocal(r, t, isObject, acc + [Member(key, inner.value.0)], inner.value.1);
    }
  }

  /** After the root a NUL ends the document, whatever follows it: the tree is the same. */
  lemma NulEnds(r: seq<Byte>, tail: seq<Byte>)
    requires Document(r).Found?
    ensures Document(r + ([0] + tail)) == Document(r)
  {
    hide Rest;
    var t := [0] + tail;
    var q := Skip(r, 0);
    SkipLocal(r, t, 0);
    RestLocal(r, t, r[q] == OPEN_OBJECT, [], q + 1);
    SkipLocal(r, t, Rest(r, r[q] == OPEN_OBJECT, [], q + 1).value.1);
  }
}
