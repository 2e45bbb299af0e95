/**
  The text half of `sajson::parser`: the input buffer, which strings are unescaped into in
  place, and the read pointer. `source` is the input as it was; only what lies behind the
  read pointer ever differs from it.
*/
module JsonCursor {
  import opened Options
  import opened Bytes
  import opened JsonGrammar

  class Cursor {
    const input: array<Byte>
    var p: nat
    ghost const source: seq<Byte>

    /** What is still to be read is the original text. */
    ghost predicate Valid()
      reads this, input
    {
      && input.Length == |source|
      && p <= |source|
      && forall i :: p <= i < |source| ==> input[i] == source[i]
    }

    constructor (text: seq<Byte>)
      ensures Valid() && source == text && p == 0 && fresh(input)
    {
      input := new Byte[|text|](i requires 0 <= i < |text| => text[i]);
      p := 0;
      source := text;
    }

    method PeekStructure() returns (c: Byte)
      requires Valid()
      modifies this
      ensures Valid() && p == Skip(source, old(p)) && c == Look(source, p)
    {
      while p < input.Length && IsBlank(input[p])
        invariant Valid() && Skip(source, p) == Skip(source, old(p))
        decreases input.Length - p
      {
        p := p + 1;
      }
      c := if p == input.Length then 0 else input[p];
    }

    /** The literal `word` at the read pointer. */
    method ParseLiteral(word: seq<Byte>) returns (ok: bool)
      requires Valid()
      modifies this
      ensures Valid() && ok == Spells(source, old(p), word)
      ensures p == old(p) + if ok then |word| else 0
    {
      if input.Length - p < |word| {
        return false;
      }
      var i := 0;
      while i < |word|
        invariant 0 <= i <= |word| && source[p..p + i] == word[..i]
        invariant p == old(p) && Valid()
      {
        if input[p + i] != word[i] {
          assert source[p..p + |word|][i] != word[i];
          return false;
        }
        assert source[p..p + i + 1] == source[p..p + i] + [source[p + i]];
        assert word[..i + 1] == word[..i] + [word[i]];
        i := i + 1;
      }
      assert word[..i] == word;
      p := p + |word|;
      return true;
    }

    // -------------------------------------------------------------- strings

    method ReadHex() returns (u: Option<nat>)
      requires Valid() && p + 4 <= |source|
      modifies this`p
      ensures Valid() && u == HexRun(source, old(p), 4)
      ensures u.Some? ==> p == old(p) + 4
    {
      var v: nat := 0;
      var i := 0;
      while i < 4
        invariant 0 <= i <= 4 && p == old(p) + i && HexRun(source, old(p), i) == Some(v)
        invariant Valid()
      {
        var d := HexDigit(input[p]);
        p := p + 1;
        if d == None {
          NoHex(source, old(p), i + 1);
          return None;
        }
        v := v * 16 + d.value;
        i := i + 1;
      }
      return Some(v);
    }

    static lemma NoHex(s: seq<Byte>, p: nat, k: nat)
      requires k <= 4 && p + 4 <= |s| && HexRun(s, p, k) == None
      ensures HexRun(s, p, 4) == None
      decreases 4 - k
    {
      if k < 4 {
        NoHex(s, p, k + 1);
      }
    }

    /** Writes the octets of `u` at `end`; the bit patterns of each octet do not overlap, so `|` is `+`. */
    method WriteUtf8(u: nat, end: nat) returns (end': nat)
      requires u < 0x110000 && end + |Utf8(u)| <= input.Length
      modifies input
      ensures end' == end + |Utf8(u)| && input[end..end'] == Utf8(u)
      ensures forall i :: 0 <= i < input.Length && !(end <= i < end') ==> input[i] == old(input[i])
    {
      if u < 0x80 {
        input[end] := u;
        end' := end + 1;
      } else if u < 0x800 {
        input[end] := 0xC0 + u / 0x40;
        input[end + 1] := 0x80 + u % 0x40;
        end' := end + 2;
      } else if u < 0x10000 {
        input[end] := 0xE0 + u / 0x1000;
        input[end + 1] := 0x80 + u / 0x40 % 0x40;
        input[end + 2] := 0x80 + u % 0x40;
        end' := end + 3;
      } else {
        input[end] := 0xF0 + u / 0x40000;
        input[end + 1] := 0x80 + u / 0x1000 % 0x40;
        input[end + 2] := 0x80 + u / 0x40 % 0x40;
        input[end + 3] := 0x80 + u % 0x40;
        end' := end + 4;
      }
    }

    /** The `\u` escape: four digits, or a surrogate pair. The pointer is after the `u`. */
    method ReadCodePoint() returns (u: Option<nat>)
      requires Valid() && 1 <= p && source[p - 1] == 0x75
      modifies this`p
      ensures Valid()
      ensures
        match Escape(source, old(p) - 1)
        case None => u == None
        case Some((b, q)) => u.Some? && p == q && u.value < 0x110000 && Utf8(u.value) == b
    {
      if input.Length - p < 4 {
        return None;
      }
      u := ReadHex();
      if u.None? || !IsLead(u.value) {
        return;
      }
      if input.Length - p < 6 || input[p] != BACKSLASH || input[p + 1] != 0x75 {
        return None;
      }
      p := p + 2;
      var v := ReadHex();
      if v.None? || !IsTrail(v.value) {
        return None;
      }
      u := Some(0x10000 + (u.value - 0xD800) * 0x400 + (v.value - 0xDC00));
    }

    /** One escape, read at the pointer after the backslash and written at `end`, never past the pointer. */
    method Unescape(end: nat) returns (ok: bool, end': nat)
      requires Valid() && end < p
      modifies this`p, input
      ensures ok <==> Escape(source, old(p)).Some?
      ensures ok ==>
        var (b, q) := Escape(source, old(p)).value;
        Valid() && p == q && end' == end + |b| && end' <= p && input[end..end'] == b
      ensures forall i :: 0 <= i < end ==> input[i] == old(input[i])
    {
      hide Utf8;
      end' := end;
      if p >= input.Length {
        return false, end;
      }
      var replacement := Replacement(input[p]);
      if replacement.Some? {
        input[end] := replacement.value;
        p := p + 1;
        return true, end + 1;
      }
      if input[p] != 0x75 {
        return false, end;
      }
      p := p + 1;
      var u := ReadCodePoint();
      if u.None? {
        return false, end;
      }
      end' := WriteUtf8(u.value, end);
      ok := true;
    }

    /** What `StringAt` finds from `start` is what was decoded into `start..end`, then what is left to read. */
    ghost predicate Decoded(start: nat, end: nat)
      reads this, input
    {
      && start <= end <= p && p <= input.Length
      && StringAt(source, start) == Before(input[start..end], StringAt(source, p))
    }

    lemma BeforeAssociative(a: seq<Byte>, b: seq<Byte>, r: Option<(seq<Byte>, nat)>)
      ensures Before(a, Before(b, r)) == Before(a + b, r)
    {
      if r.Some? {
        assert a + (b + r.value.0) == a + b + r.value.0;
      }
    }

    lemma BeforeNothing(r: Option<(seq<Byte>, nat)>)
      ensures Before([], r) == r
    {
      if r.Some? {
        assert [] + r.value.0 == r.value.0;
      }
    }

    /** Below the opening of the string nothing changes. */
    twostate predicate KeepsBelow(start: nat)
      reads input
    {
      forall i :: 0 <= i < start && i < input.Length ==> input[i] == old(input[i])
    }

    /** One escape of a string decoded into `start..end` so far. */
    method DecodeEscape(start: nat, end: nat) returns (ok: bool, end': nat)
      requires Valid() && Decoded(start, end) && p < |source| && source[p] == BACKSLASH
      modifies this`p, input
      ensures ok ==> Valid() && Decoded(start, end') && p > old(p)
      ensures !ok ==> StringAt(source, start) == None
      ensures KeepsBelow(start)
    {
      hide Escape;
      ghost var done, at := input[start..end], p;
      p := p + 1;
      ok, end' := Unescape(end);
      if ok {
        ghost var b := Escape(source, at + 1).value.0;
        assert input[start..end] == done;
        assert input[start..end'] == input[start..end] + input[end..end'];
        assert StringAt(source, at) == Before(b, StringAt(source, p));
        BeforeAssociative(done, b, StringAt(source, p));
      }
    }

    /** One plain byte, a control byte as a space. */
    method DecodeByte(start: nat, end: nat) returns (end': nat)
      requires Valid() && Decoded(start, end) && p < |source| && source[p] != BACKSLASH && source[p] != QUOTE
      modifies this`p, input
      ensures Valid() && Decoded(start, end') && p == old(p) + 1 && end' == end + 1
      ensures KeepsBelow(start)
    {
      ghost var done := input[start..end];
      if input[p] < SPACE {
        input[p] := SPACE;
      }
      ghost var c := input[p];
      input[end] := input[p];
      p := p + 1;
      end' := end + 1;
      assert input[start..end'] == done + [c];
      BeforeAssociative(done, [c], StringAt(source, p));
    }

    /** The loop of `parse_string_slow`, entered at the first backslash. */
    method ParseStringSlow(start: nat) returns (ok: bool, end: nat)
      requires Valid() && Decoded(start, p)
      modifies this`p, input
      ensures ok <==> StringAt(source, start).Some?
      ensures ok ==>
        var (b, q) := StringAt(source, start).value;
        Valid() && p == q && start <= end < p && input[start..end] == b
      ensures forall i :: 0 <= i < start ==> input[i] == old(input[i])
    {
      end := p;
      while true
        invariant Valid() && Decoded(start, end)
        invariant forall i :: 0 <= i < start ==> input[i] == old(input[i])
        decreases input.Length - p
      {
        if p >= input.Length {
          return false, end;
        }
        if input[p] == QUOTE {
          assert input[start..end] + [] == input[start..end];
          p := p + 1;
          return true, end;
        } else if input[p] == BACKSLASH {
          var good: bool;
          good, end := DecodeEscape(start, end);
          if !good {
            return false, end;
          }
        } else {
          end := DecodeByte(start, end);
        }
      }
    }

    /** A string at the opening quote: on success its decoded bytes lie in `start..end` of the buffer. */
    method ParseString() returns (ok: bool, start: nat, end: nat)
      requires Valid() && p < |source| && source[p] == QUOTE
      modifies this`p, input
      ensures ok <==> StringAt(source, old(p) + 1).Some?
      ensures ok ==>
        var (b, q) := StringAt(source, old(p) + 1).value;
        Valid() && p == q && start == old(p) + 1 && start <= end < p && input[start..end] == b
      ensures forall i :: 0 <= i <= old(p) ==> input[i] == old(input[i])
    {
      p := p + 1;
      start, end := p, p;
      assert input[start..p] == [];
      BeforeNothing(StringAt(source, p));
      while true
        invariant Valid() && start == old(p) + 1 && Decoded(start, p)
        invariant forall i :: 0 <= i <= old(p) ==> input[i] == old(input[i])
        decreases input.Length - p
      {
        if p >= input.Length {
          return false, start, end;
        }
        if input[p] == QUOTE {
          assert input[start..p] + [] == input[start..p];
          end := p;
          p := p + 1;
          return true, start, end;
        } else if input[p] == BACKSLASH {
          ok, end := ParseStringSlow(start);
          return;
        } else {
          var next := DecodeByte(start, p);
        }
      }
    }

    // -------------------------------------------------------------- numbers

    /** Passes a run of digits; false when it runs into the end of the input. */
    method SkipDigits() returns (ok: bool)
      requires Valid() && p < |source|
      modifies this`p
      ensures Valid() && p == DigitsEnd(source, old(p)) && ok == (p < |source|)
    {
      while IsDigit(input[p])
        invariant Valid() && p < |source| && DigitsEnd(source, p) == DigitsEnd(source, old(p))
        decreases input.Length - p
      {
        p := p + 1;
        if p == input.Length {
          return false;
        }
      }
      return true;
    }

    static lemma DecimalStep(d: seq<Byte>, digit: Byte)
      requires IsDigit(digit) && forall i :: 0 <= i < |d| ==> IsDigit(d[i])
      ensures Decimal(d + [digit]) == 10 * Decimal(d) + (digit - 0x30)
      ensures OverflowsInt(d + [digit]) == (Decimal(d) > INT_LIMIT)
      ensures OverflowsInt(d) ==> Decimal(d) > INT_LIMIT
    {
      assert (d + [digit])[..|d|] == d;
    }

    /** The integer part: its value as long as it is below the limit, else `tryDouble`. */
    method ParseInteger() returns (ok: bool, i: int, tryDouble: bool)
      requires Valid() && p < |source| && !(source[p] == ZERO && p + 1 == |source|)
      modifies this`p
      ensures Valid() && p == IntegerEnd(source, old(p)) && ok == (p < |source|)
      ensures ok ==> tryDouble == OverflowsInt(source[old(p)..p])
      ensures ok && !tryDouble ==> i == Decimal(source[old(p)..p])
    {
      i, tryDouble := 0, false;
      assert Decimal([]) == 0;
      if input[p] == ZERO {
        assert Decimal(source[p..p + 1][..0]) == 0;
        p := p + 1;
        return true, 0, false;
      }
      assert source[old(p)..p] == [];
      while IsDigit(input[p])
        invariant Valid() && old(p) <= p < |source| && DigitsEnd(source, p) == DigitsEnd(source, old(p))
        invariant forall k :: old(p) <= k < p ==> IsDigit(source[k])
        invariant tryDouble == OverflowsInt(source[old(p)..p])
        invariant !tryDouble ==> i == Decimal(source[old(p)..p])
        decreases input.Length - p
      {
        var digit := input[p];
        ghost var d := source[old(p)..p];
        p := p + 1;
        if p == input.Length {
          return false, i, tryDouble;
        }
        ghost var d' := source[old(p)..p];
        assert d' == d + [digit] && d'[..|d'| - 1] == d;
        DecimalStep(d, digit);
        if !tryDouble && i > INT_LIMIT {
          tryDouble := true;
        }
        if !tryDouble {
          i := 10 * i + (digit as int - 0x30);
        }
      }
      return true, i, tryDouble;
    }

    method ParseFraction() returns (ok: bool, found: bool)
      requires Valid() && p < |source|
      modifies this`p
      ensures Valid() && ok == FractionEnd(source, old(p)).Some?
      ensures ok ==> p == FractionEnd(source, old(p)).value && found == (p != old(p))
    {
      found := input[p] == DOT;
      ok := true;
      if found {
        p := p + 1;
        if p == input.Length {
          return false, found;
        }
        ok := SkipDigits();
      }
    }

    method ParseExponent() returns (ok: bool, found: bool)
      requires Valid() && p < |source|
      modifies this`p
      ensures Valid() && ok == ExponentEnd(source, old(p)).Some?
      ensures ok ==> p == ExponentEnd(source, old(p)).value && found == (p != old(p))
    {
      found := input[p] == 0x65 || input[p] == 0x45;
      ok := true;
      if found {
        p := p + 1;
        if p == input.Length {
          return false, found;
        }
        if input[p] == MINUS || input[p] == PLUS {
          p := p + 1;
          if p == input.Length {
            return false, found;
          }
        }
        if !IsDigit(input[p]) {
          return false, found;
        }
        ok := SkipDigits();
      }
    }

    /** A number: an integer, or the lexeme of a double. */
    method ParseNumber() returns (v: Option<JValue>)
      requires Valid() && p < |source| && (source[p] == MINUS || IsDigit(source[p]))
      requires NumberAt(source, p) != Overread
      modifies this`p
      ensures Valid()
      ensures v.Some? <==> NumberAt(source, old(p)).Found?
      ensures v.Some? ==> (v.value, p) == NumberAt(source, old(p)).value
    {
      hide IntegerEnd, FractionEnd, ExponentEnd, OverflowsInt, Decimal;
      OverreadsExactly(source, p);
      var start := p;
      var negative := input[p] == MINUS;
      if negative {
        p := p + 1;
        if p == input.Length {
          return None;
        }
      }
      var ok, i, tryDouble := ParseInteger();
      if !ok {
        return None;
      }
      var fraction, exponent;
      ok, fraction := ParseFraction();
      if !ok {
        return None;
      }
      ok, exponent := ParseExponent();
      if !ok {
        return None;
      }
      if tryDouble || fraction || exponent {
        assert input[start..p] == source[start..p];
        v := Some(JDouble(input[start..p]));
      } else {
        v := Some(JInteger(if negative then -i else i));
      }
    }
  }
}
