/**
  `sajson::parser`: the non-recursive parser over one word array as long as the input. The
  stack of open containers (`temp`) grows up from the bottom, finished values (`out`) grow
  down from the top.
*/
module JsonParser {
  import opened Options
  import opened Bytes
  import opened JsonGrammar
  import opened JsonKeys
  import opened JsonStore
  import opened JsonFrames
  import opened JsonCursor

  class Parser {
    const text: Cursor
    const structure: array<Word>
    /** `strtod`-like conversion of the lexeme of a double to its 64-bit storage. */
    const dbl: seq<Byte> -> Word
    var temp: nat
    var out: nat
    var rootType: int

    ghost predicate Sane()
      reads this, text, text.input
    {
      && text.Valid()
      && structure.Length == |text.source| < ROOT_MARKER
      && temp <= structure.Length && out <= structure.Length
    }

    constructor (input: seq<Byte>, dbl: seq<Byte> -> Word)
      requires |input| < ROOT_MARKER
      ensures Sane() && text.source == input && text.p == 0 && temp == 0 && out == |input| && this.dbl == dbl
      ensures fresh(text) && fresh(text.input) && fresh(structure)
    {
      text := new Cursor(input);
      structure := new Word[|input|];
      this.dbl := dbl;
      temp, out, rootType := 0, |input|, TYPE_NULL;
    }

    // -------------------------------------------------------------- closing a container

    /** Copies the element words up to the finished region, top first, each re-based on the new payload. */
    method InstallArray(base: nat)
      requires 1 <= base <= temp <= out <= structure.Length < ROOT_MARKER
      modifies structure, this`temp, this`out
      ensures temp == base && out == old(out) - (old(temp) - base) - 1
      ensures structure[out] == old(temp) - base
      ensures forall i :: out < i < old(out) ==>
        structure[i] == Add(old(structure[..])[i - old(out) + old(temp)], base - out)
      ensures forall i :: 0 <= i < out || old(out) <= i < structure.Length ==> structure[i] == old(structure[i])
    {
      var length := temp - base;
      var newBase := out - length - 1;
      ghost var shift := out - temp;
      while temp > base
        invariant base <= temp <= old(temp) && out == temp + shift
        invariant forall i :: 0 <= i < out || old(out) <= i < structure.Length ==> structure[i] == old(structure[i])
        invariant forall i :: out <= i < old(out) ==> structure[i] == Add(old(structure[i - shift]), base - newBase)
      {
        out := out - 1;
        temp := temp - 1;
        structure[out] := Add(structure[temp], base - newBase);
      }
      out := out - 1;
      structure[out] := length;
    }

    /** The key words of the `j`-th record on the stack are a span of the text. */
    ghost predicate KeySpan(base: nat, j: nat)
      requires base + 3 * j + 1 < structure.Length
      reads structure
    {
      structure[base + 3 * j] <= structure[base + 3 * j + 1] <= text.input.Length
    }

    /** The key it spans. */
    ghost function SpanText(base: nat, j: nat): seq<Byte>
      requires base + 3 * j + 1 < structure.Length
      reads structure, text.input
    {
      if KeySpan(base, j) then text.input[structure[base + 3 * j]..structure[base + 3 * j + 1]] else []
    }

    /** The keys of the records on the stack. */
    method RecordKeys(base: nat, length: nat) returns (keys: seq<seq<Byte>>)
      requires base + 3 * length <= structure.Length
      requires forall j :: 0 <= j < length ==> KeySpan(base, j)
      ensures |keys| == length && forall j :: 0 <= j < length ==> keys[j] == SpanText(base, j)
    {
      keys := [];
      for j := 0 to length
        invariant |keys| == j && forall i :: 0 <= i < j ==> keys[i] == SpanText(base, i)
      {
        assert KeySpan(base, j);
        keys := keys + [text.input[structure[base + 3 * j]..structure[base + 3 * j + 1]]];
      }
    }

    /** Puts the records in the order found, in place. */
    method Reorder(base: nat, length: nat, order: seq<nat>)
      requires base + 3 * length <= structure.Length && Permutes(order, length)
      modifies structure
      ensures forall i :: 0 <= i < base || base + 3 * length <= i < structure.Length ==>
        structure[i] == old(structure[i])
      ensures forall j :: 0 <= j < length ==>
        RecordMoved(old(structure[..]), structure[..], base + 3 * order[j], base + 3 * j, 0)
    {
      var was := structure[..];
      for j := 0 to length
        invariant forall i :: 0 <= i < base || base + 3 * j <= i < structure.Length ==>
          structure[i] == old(structure[i])
        invariant forall i :: 0 <= i < j ==> RecordMoved(was, structure[..], base + 3 * order[i], base + 3 * i, 0)
      {
        var o := base + 3 * order[j];
        structure[base + 3 * j] := was[o];
        structure[base + 3 * j + 1] := was[o + 1];
        structure[base + 3 * j + 2] := was[o + 2];
      }
    }

    /** Copies sorted records up to the finished region, top first, re-basing the value words. */
    method MoveRecords(base: nat, length: nat)
      requires 1 <= base <= temp <= out <= structure.Length < ROOT_MARKER
      requires base + 3 * length <= temp && (length > 0 ==> temp == base + 3 * length)
      modifies structure, this`temp, this`out
      ensures out == old(out) - 3 * length
      ensures forall j :: 0 <= j < length ==>
        RecordMoved(old(structure[..]), structure[..], base + 3 * j, out + 3 * j, base - out + 1)
      ensures forall i :: 0 <= i < out || old(out) <= i < structure.Length ==> structure[i] == old(structure[i])
    {
      hide RecordMoved;
      var newBase := out - 3 * length - 1;
      ghost var first := structure[..];
      var i := length;
      while i > 0
        invariant 0 <= i <= length && (length > 0 ==> temp == base + 3 * i) && out == newBase + 1 + 3 * i
        invariant forall k :: 0 <= k < out || old(out) <= k < structure.Length ==> structure[k] == first[k]
        invariant forall j :: i <= j < length ==>
          RecordMoved(first, structure[..], base + 3 * j, newBase + 1 + 3 * j, base - newBase)
      {
        i := i - 1;
        ghost var was := structure[..];
        MoveRecord(temp - 3, out - 3, base - newBase);
        out := out - 3;
        temp := temp - 3;
        RecordSame(was, first, structure[..], structure[..], base + 3 * i, out, base - newBase);
        forall j | i < j < length
          ensures RecordMoved(first, structure[..], base + 3 * j, newBase + 1 + 3 * j, base - newBase)
        {
          RecordSame(first, first, was, structure[..], base + 3 * j, newBase + 1 + 3 * j, base - newBase);
        }
      }
    }

    /** Sorts the records by key, then installs them; the order is the one the sort found. */
    method InstallObject(base: nat) returns (keys: seq<seq<Byte>>, ghost order: seq<nat>)
      requires 1 <= base <= temp <= out <= structure.Length < ROOT_MARKER
      requires var length := (temp - base) / 3; length > 0 ==> temp == base + 3 * length
      requires forall j :: 0 <= j < (temp - base) / 3 ==> KeySpan(base, j)
      modifies structure, this`temp, this`out
      ensures
        var length := (old(temp) - base) / 3;
        && out == old(out) - 3 * length - 1 && structure[out] == length
        && |keys| == length && (forall j :: 0 <= j < length ==> keys[j] == old(SpanText(base, j)))
        && Permutes(order, length) && SortedBy(keys, order)
        && forall j :: 0 <= j < length ==>
             RecordMoved(old(structure[..]), structure[..], base + 3 * order[j], out + 1 + 3 * j, base - out)
      ensures forall i :: 0 <= i < base - 1 || old(out) <= i < structure.Length ==> structure[i] == old(structure[i])
    {
      hide RecordMoved, SortedBy, Permutes;
      var length := (temp - base) / 3;
      keys := RecordKeys(base, length);
      var found := SortKeys(keys);
      order := found;
      ghost var w0 := structure[..];
      Reorder(base, length, found);
      ghost var w1 := structure[..];
      MoveRecords(base, length);
      ghost var w2 := structure[..];
      out := out - 1;
      structure[out] := length;
      forall j | 0 <= j < length
        ensures RecordMoved(w0, structure[..], base + 3 * order[j], out + 1 + 3 * j, base - out)
      {
        RecordTwice(w0, w1, w2, base + 3 * order[j], base + 3 * j, out + 1 + 3 * j, base - out);
        RecordSame(w0, w0, w2, structure[..], base + 3 * order[j], out + 1 + 3 * j, base - out);
      }
    }

    static lemma RecordTwice(a: seq<Word>, b: seq<Word>, c: seq<Word>, from: int, via: int, at: int, delta: int)
      requires 0 <= from && from + 3 <= |a| && 0 <= via && via + 3 <= |b| && 0 <= at && at + 3 <= |c|
      requires RecordMoved(a, b, from, via, 0) && RecordMoved(b, c, via, at, delta)
      ensures RecordMoved(a, c, from, at, delta)
    {
    }

    static lemma RecordSame(a: seq<Word>, a': seq<Word>, b: seq<Word>, b': seq<Word>, from: int, at: int, delta: int)
      requires 0 <= from && from + 3 <= |a| == |a'| && 0 <= at && at + 3 <= |b| == |b'|
      requires RecordMoved(a, b, from, at, delta)
      requires forall k :: from <= k < from + 3 ==> a[k] == a'[k]
      requires forall k :: at <= k < at + 3 ==> b[k] == b'[k]
      ensures RecordMoved(a', b', from, at, delta)
    {
    }

    /** One record, top word first, so that it may move up by less than its size. */
    method MoveRecord(from: nat, to: nat, delta: int)
      requires from <= to && to + 3 <= structure.Length
      modifies structure
      ensures RecordMoved(old(structure[..]), structure[..], from, to, delta)
      ensures forall k :: 0 <= k < structure.Length && !(to <= k < to + 3) ==> structure[k] == old(structure[k])
    {
      structure[to + 2] := Add(structure[from + 2], delta);
      structure[to + 1] := structure[from + 1];
      structure[to] := structure[from];
    }

    // -------------------------------------------------------------- the state between steps

    /** Bytes pay for words: what the stack and the finished region take is at most the bytes read, and `extra`. */
    ghost predicate Paid(extra: int)
      reads this, text
    {
      temp + structure.Length - out <= text.p + extra
    }

    /** The containers `frames` are open, the one on top with marker at `base`. */
    ghost predicate Open(base: nat, isObject: bool, frames: seq<Frame>)
      reads this, text, text.input, structure
    {
      && Sane() && frames != []
      && StackStored(dbl, structure[..], text.input[..], out, text.p, frames, temp)
      && frames[|frames| - 1].base == base && frames[|frames| - 1].isObject == isObject
    }

    /**
      The head of the loop. Right after an element that ends the input the stack may have run
      into the finished region by one word; the next look then finds no closing bracket.
    */
    ghost predicate AtHead(base: nat, isObject: bool, frames: seq<Frame>)
      reads this, text, text.input, structure
    {
      && Sane() && frames != [] && base < temp
      && var f := frames[|frames| - 1];
      && f.base == base && f.isObject == isObject && !f.keyed && f.key == []
      && (f.acc == [] <==> temp == base + 1)
      && Paid(if f.acc == [] then 0 else 1)
      && Resume(text.source, frames, text.p) == Document(text.source)
      && (f.acc == [] || text.p < |text.source| ==> Open(base, isObject, frames))
    }

    /** After the comma, before the key of an object's member. */
    ghost predicate AtElement(base: nat, isObject: bool, frames: seq<Frame>, comma: bool)
      reads this, text, text.input, structure
    {
      && Open(base, isObject, frames)
      && var f := frames[|frames| - 1];
      && !f.keyed && f.key == []
      && (f.acc != [] && !comma ==> Look(text.source, text.p) == Closing(isObject))
      && Paid(if f.acc != [] && !comma then 1 else 0)
      && Skip(text.source, text.p) == text.p
      && Continue(text.source, frames[..|frames| - 1], Element(text.source, isObject, f.acc, comma, text.p)) ==
           Document(text.source)
    }

    /** After the comma and the key, before the value or the closing bracket. */
    ghost predicate AtValue(base: nat, isObject: bool, frames: seq<Frame>, comma: bool)
      reads this, text, text.input, structure
    {
      && Open(base, isObject, frames)
      && var f := frames[|frames| - 1];
      && (f.keyed ==> f.acc == [] || comma)
      && (isObject && !f.keyed ==> Look(text.source, text.p) == CLOSE_OBJECT)
      && (f.acc != [] && !comma ==> Look(text.source, text.p) == Closing(isObject))
      && Paid(if f.acc != [] && !comma then 1 else 0)
      && Skip(text.source, text.p) == text.p
      && Continue(text.source, frames[..|frames| - 1], Value(text.source, isObject, f.acc, comma, f.key, text.p)) ==
           Document(text.source)
    }

    // -------------------------------------------------------------- scalars

    /** Stores the payload of a scalar just below the finished region and says its type. */
    method ReadScalar(c: Byte) returns (ok: bool, kind: int, ghost v: JValue)
      requires Sane() && text.p < |text.source| && c == text.source[text.p] && StartsScalar(c)
      requires ScalarAt(text.source, text.p) != Overread
      requires Paid(0) && 1 <= temp <= out
      modifies structure, this`out, text, text.input
      ensures ok <==> ScalarAt(text.source, old(text.p)).Found?
      ensures ok ==>
        && Sane() && 0 <= kind < 8 && (v, text.p) == ScalarAt(text.source, old(text.p)).value
        && temp <= out <= old(out) && temp < structure.Length && Paid(0)
        && Stored(dbl, structure[..], text.input[..], out, text.p, Ref(kind, out), v)
      ensures forall i :: 0 <= i < temp || old(out) <= i < structure.Length ==> structure[i] == old(structure[i])
      ensures forall i :: 0 <= i < old(text.p) ==> text.input[i] == old(text.input[i])
    {
      kind, v := TYPE_NULL, JNull;
      if c == 0x6E {
        ok := text.ParseLiteral(NULL);
      } else if c == 0x66 {
        ok := text.ParseLiteral(FALSE);
        kind, v := TYPE_FALSE, JFalse;
      } else if c == 0x74 {
        ok := text.ParseLiteral(TRUE);
        kind, v := TYPE_TRUE, JTrue;
      } else if c == QUOTE {
        ok, v := ReadString();
        kind := TYPE_STRING;
      } else {
        ok, kind, v := ReadNumber();
      }
    }

    method ReadString() returns (ok: bool, ghost v: JValue)
      requires Sane() && text.p < |text.source| && text.source[text.p] == QUOTE
      requires Paid(0) && 1 <= temp <= out
      modifies structure, this`out, text, text.input
      ensures ok <==> ScalarAt(text.source, old(text.p)).Found?
      ensures ok ==>
        && Sane() && (v, text.p) == ScalarAt(text.source, old(text.p)).value
        && temp <= out <= old(out) && temp < structure.Length && Paid(0)
        && Stored(dbl, structure[..], text.input[..], out, text.p, Ref(TYPE_STRING, out), v)
      ensures forall i :: 0 <= i < temp || old(out) <= i < structure.Length ==> structure[i] == old(structure[i])
      ensures forall i :: 0 <= i < old(text.p) ==> text.input[i] == old(text.input[i])
    {
      hide StringAt;
      v := JNull;
      out := out - 2;
      var start, end;
      ok, start, end := text.ParseString();
      if ok {
        structure[out] := start;
        structure[out + 1] := end;
        v := JString(text.input[start..end]);
        assert text.input[..][start..end] == text.input[start..end];
      }
    }

    /** The words of an integer hold it in their low half only; the rest is whatever was there. */
    method IntegerWord(i: int, upper: int) returns (w: Word)
      requires -0x8000_0000 <= i < 0x8000_0000 && 0 <= upper < 0x1_0000_0000
      ensures LowInt(w) == i
    {
      var low := if i < 0 then i + 0x1_0000_0000 else i;
      w := upper * 0x1_0000_0000 + low;
    }

    method ReadNumber() returns (ok: bool, kind: int, ghost v: JValue)
      requires Sane() && text.p < |text.source|
      requires text.source[text.p] == MINUS || IsDigit(text.source[text.p])
      requires ScalarAt(text.source, text.p) != Overread
      requires Paid(0) && 1 <= temp <= out
      modifies structure, this`out, text
      ensures ok <==> ScalarAt(text.source, old(text.p)).Found?
      ensures 0 <= kind < 8
      ensures ok ==>
        && Sane() && (v, text.p) == ScalarAt(text.source, old(text.p)).value
        && temp <= out <= old(out) && temp < structure.Length && Paid(0)
        && Stored(dbl, structure[..], text.input[..], out, text.p, Ref(kind, out), v)
      ensures forall i :: 0 <= i < temp || old(out) <= i < structure.Length ==> structure[i] == old(structure[i])
    {
      hide NumberAt, Decimal;
      var n := text.ParseNumber();
      v, kind, ok := JNull, TYPE_INTEGER, n.Some?;
      if ok {
        v := n.value;
        ghost var was := out;
        NumberFits(text.source, old(text.p));
        out := out - 1;
        if n.value.JInteger? {
          var upper: int :| 0 <= upper < 0x1_0000_0000;
          structure[out] := IntegerWord(n.value.i, upper);
        } else {
          kind := TYPE_DOUBLE;
          structure[out] := dbl(n.value.lexeme);
        }
      }
    }

    // -------------------------------------------------------------- the loop

    /** `parse_string` into the two words on top of the stack. */
    method PushKeyText(base: nat, ghost frames: seq<Frame>) returns (ok: bool, ghost key: seq<Byte>)
      requires Open(base, true, frames) && !frames[|frames| - 1].keyed && Paid(0)
      requires text.p < |text.source| && text.source[text.p] == QUOTE
      modifies structure, this`temp, text, text.input
      ensures
        match StringAt(text.source, old(text.p) + 1)
        case None => !ok
        case Some((b, q)) => ok && key == b && text.p == q
      ensures ok ==>
        && temp == old(temp) + 2 && Paid(0)
        && Open(base, true, frames[|frames| - 1 := frames[|frames| - 1].(keyed := true, key := key)])
    {
      hide StackStored, StringAt;
      key := [];
      ghost var w, t, hi := structure[..], text.input[..], text.p;
      StackBounds(frames);
      var start, end;
      ok, start, end := text.ParseString();
      if ok {
        key := text.input[start..end];
        structure[temp] := start;
        structure[temp + 1] := end;
        StackFrame(dbl, w, w, t, text.input[..], out, out, hi, text.p, frames, temp);
        assert text.input[..][start..end] == key;
        PushKey(dbl, w, text.input[..], out, text.p, frames, temp, start, end, key, structure[..]);
        temp := temp + 2;
      }
    }

    /** A key and the colon after it. */
    method ReadKey(base: nat, ghost frames: seq<Frame>) returns (ok: bool, ghost key: seq<Byte>, ghost colon: nat)
      requires Open(base, true, frames) && !frames[|frames| - 1].keyed && Paid(0)
      requires text.p < |text.source| && text.source[text.p] == QUOTE
      modifies structure, this`temp, text, text.input
      ensures
        match StringAt(text.source, old(text.p) + 1)
        case None => !ok
        case Some((b, q)) => key == b && colon == Skip(text.source, q) && ok == (Look(text.source, colon) == COLON)
      ensures ok ==>
        && text.p == colon + 1 && Paid(0)
        && Open(base, true, frames[|frames| - 1 := frames[|frames| - 1].(keyed := true, key := key)])
    {
      hide StackStored, StringAt, Skip;
      colon := 0;
      ok, key := PushKeyText(base, frames);
      if !ok {
        return;
      }
      ghost var hi := text.p;
      var c := text.PeekStructure();
      colon := text.p;
      if c != COLON {
        return false, key, colon;
      }
      text.p := text.p + 1;
      ghost var g := frames[|frames| - 1].(keyed := true, key := key);
      StackFrame(dbl, structure[..], structure[..], text.input[..], text.input[..], out, out, hi, text.p,
        frames[|frames| - 1 := g], temp);
    }

    lemma StackBounds(frames: seq<Frame>)
      requires StackStored(dbl, structure[..], text.input[..], out, text.p, frames, temp)
      ensures frames != [] && 0 <= frames[|frames| - 1].base < temp <= out
      ensures frames[|frames| - 1].keyed ==> frames[|frames| - 1].isObject
    {
      assert FrameStored(dbl, structure[..], text.input[..], out, text.p, frames[|frames| - 1]);
    }

    /** The comma, where one is due. */
    method ReadComma(base: nat, isObject: bool, ghost frames: seq<Frame>) returns (ok: bool, comma: bool, c: Byte)
      requires AtHead(base, isObject, frames)
      modifies text
      ensures !ok ==> Document(text.source) == Refused
      ensures ok ==> AtElement(base, isObject, frames, comma) && old(text.p) <= text.p && c == Look(text.source, text.p)
    {
      hide Continue, Element, StackStored, Document;
      comma := false;
      var isFirst := temp == base + 1;
      c := text.PeekStructure();
      ContinueRefused(text.source, frames[..|frames| - 1]);
      if isFirst {
        if c == COMMA {
          return false, comma, c;
        }
      } else if c == COMMA {
        text.p := text.p + 1;
        c := text.PeekStructure();
        comma := true;
      } else if c != Closing(isObject) {
        return false, comma, c;
      }
      StackFrame(dbl, structure[..], structure[..], text.input[..], text.input[..], out, out, old(text.p), text.p,
        frames, temp);
      ok := true;
    }

    /** In an object, the key and the colon. */
    method ReadHead(base: nat, isObject: bool, c: Byte, comma: bool, ghost frames: seq<Frame>)
      returns (ok: bool, ghost frames': seq<Frame>)
      requires AtElement(base, isObject, frames, comma) && c == Look(text.source, text.p)
      modifies structure, this`temp, text, text.input
      ensures !ok ==> Document(text.source) == Refused
      ensures ok ==> AtValue(base, isObject, frames', comma) && old(text.p) <= text.p
    {
      hide Continue, Value, StackStored, StringAt, Document;
      frames' := frames;
      StackBounds(frames);
      ContinueRefused(text.source, frames[..|frames| - 1]);
      if !isObject || c == CLOSE_OBJECT {
        return true, frames;
      }
      if c != QUOTE {
        return false, frames;
      }
      ghost var key, colon;
      ok, key, colon := ReadKey(base, frames);
      if !ok {
        return;
      }
      ghost var k := |frames| - 1;
      frames' := frames[k := frames[k].(keyed := true, key := key)];
      var next := text.PeekStructure();
      assert frames'[..k] == frames[..k];
      StackFrame(dbl, structure[..], structure[..], text.input[..], text.input[..], out, out, colon + 1, text.p,
        frames', temp);
    }

    /** The element word of a finished value, relative to the container on top. */
    method AddElement(base: nat, isObject: bool, kind: int, ghost frames: seq<Frame>, ghost v: JValue)
      requires Open(base, isObject, frames) && frames[|frames| - 1].keyed == isObject
      requires temp < structure.Length && Paid(0)
      requires 0 <= kind < 8 && Stored(dbl, structure[..], text.input[..], out, text.p, Ref(kind, out), v)
      requires Resume(text.source, Extend(frames, v), text.p) == Document(text.source)
      modifies structure, this`temp
      ensures AtHead(base, isObject, Extend(frames, v))
    {
      hide StackStored, Stored, Continue, Resume, Make;
      StackBounds(frames);
      ghost var w := structure[..];
      structure[temp] := Make(kind, out - base - 1);
      if text.p < text.input.Length {
        PushElement(dbl, w, text.input[..], out, text.p, frames, temp, kind, v, structure[..]);
      }
      temp := temp + 1;
    }

    /** A scalar element of the container on top. */
    method ReadElement(base: nat, isObject: bool, c: Byte, ghost frames: seq<Frame>, ghost comma: bool)
      returns (ok: bool, ghost frames': seq<Frame>)
      requires AtValue(base, isObject, frames, comma) && c == Look(text.source, text.p) && StartsScalar(c)
      requires Document(text.source) != Overread
      modifies structure, this`temp, this`out, text, text.input
      ensures !ok ==> Document(text.source) == Refused
      ensures ok ==> AtHead(base, isObject, frames') && old(text.p) < text.p
    {
      hide StackStored, Stored, Continue, ScalarAt, Resume, Document;
      StackBounds(frames);
      ghost var w, t, o, q := structure[..], text.input[..], out, text.p;
      ResumeScalar(text.source, frames, comma, text.p);
      var kind;
      ghost var v;
      ok, kind, v := ReadScalar(c);
      frames' := frames;
      if ok {
        StackFrame(dbl, w, structure[..], t, text.input[..], o, out, q, text.p, frames, temp);
        AddElement(base, isObject, kind, frames, v);
        frames' := Extend(frames, v);
      }
    }

    /** A container opens: its marker remembers the one around it. */
    method OpenContainer(base: nat, isObject: bool, c: Byte, ghost frames: seq<Frame>, ghost comma: bool)
      returns (ghost frames': seq<Frame>)
      requires AtValue(base, isObject, frames, comma) && c == Look(text.source, text.p)
      requires c == OPEN_ARRAY || c == OPEN_OBJECT
      modifies structure, this`temp, text
      ensures AtHead(old(temp), c == OPEN_OBJECT, frames') && old(text.p) < text.p
    {
      hide StackStored, Continue, Resume, Make, Document;
      StackBounds(frames);
      ghost var w := structure[..];
      ghost var child := Frame(temp, c == OPEN_OBJECT, [], false, []);
      ResumeOpen(text.source, frames, comma, text.p, child);
      text.p := text.p + 1;
      structure[temp] := Make(KindOf(isObject), base);
      StackFrame(dbl, w, w, text.input[..], text.input[..], out, out, old(text.p), text.p, frames, temp);
      PushMarker(dbl, w, text.input[..], out, text.p, frames, temp, c == OPEN_OBJECT, structure[..]);
      temp := temp + 1;
      frames' := frames + [child];
    }

    // -------------------------------------------------------------- closing

    /** The marker of the container on top. */
    lemma TopMarker(frames: seq<Frame>)
      requires StackStored(dbl, structure[..], text.input[..], out, text.p, frames, temp)
      ensures
        var k := |frames| - 1;
        var m := structure[frames[k].base];
        && (k == 0 ==> ValueOf(m) == ROOT_MARKER)
        && (k > 0 ==> TypeOf(m) == KindOf(frames[k - 1].isObject) && ValueOf(m) == frames[k - 1].base < ROOT_MARKER)
    {
      var k := |frames| - 1;
      assert structure[..][frames[k].base] == Marker(frames, k);
      if k == 0 {
        MakeParts(KindOf(frames[0].isObject), ROOT_MARKER);
      } else {
        MakeParts(KindOf(frames[k - 1].isObject), frames[k - 1].base);
      }
    }

    method CloseArray(base: nat, ghost f: Frame)
      requires Sane() && FrameStored(dbl, structure[..], text.input[..], out, text.p, f) && f.base == base
      requires !f.isObject && !f.keyed && base < temp == End(f) && temp <= out
      modifies structure, this`temp, this`out
      ensures out == old(out) - (old(temp) - base)
      ensures forall i :: 0 <= i < base || old(out) <= i < structure.Length ==> structure[i] == old(structure[i])
      ensures Stored(dbl, structure[..], text.input[..], out, text.p, Ref(TYPE_ARRAY, out), Built(false, f.acc))
    {
      hide FrameStored, Stored, Add, Built;
      ghost var w := structure[..];
      InstallArray(base + 1);
      InstalledArray(dbl, w, structure[..], text.input[..], old(out), text.p, f, out);
    }

    method CloseObject(first: nat, ghost f: Frame)
      requires Sane() && FrameStored(dbl, structure[..], text.input[..], out, text.p, f) && f.base + 1 == first
      requires f.isObject && (f.keyed ==> f.acc == []) && 1 <= first && temp == End(f) && temp <= out
      modifies structure, this`temp, this`out
      ensures first <= out + 1 <= old(out) && out + 1 >= old(out) - (old(temp) - first)
      ensures forall i :: 0 <= i < first - 1 || old(out) <= i < structure.Length ==> structure[i] == old(structure[i])
      ensures Stored(dbl, structure[..], text.input[..], out, text.p, Ref(TYPE_OBJECT, out), Built(true, f.acc))
    {
      hide FrameStored, Stored, Add, Built, RecordMoved, SortedBy;
      ghost var w := structure[..];
      assert (temp - first) / 3 == |f.acc|;
      forall j | 0 <= j < |f.acc| ensures KeySpan(first, j) && SpanText(first, j) == f.acc[j].key {
        SpanHeld(first, f, j);
      }
      ghost var keys, order := InstallObject(first);
      assert keys == Keys(f.acc);
      InstalledObject(dbl, w, structure[..], text.input[..], old(out), text.p, f, out, order);
    }

    lemma SpanHeld(first: nat, f: Frame, j: nat)
      requires FrameStored(dbl, structure[..], text.input[..], out, text.p, f)
      requires f.base + 1 == first && f.isObject && j < |f.acc|
      ensures KeySpan(first, j) && SpanText(first, j) == f.acc[j].key
    {
      assert ItemStored(dbl, structure[..], text.input[..], out, text.p, f, j);
      assert Slot(f, j) == first + 2 + 3 * j;
    }

    /** The installer of the container's type. */
    method Close(base: nat, isObject: bool, ghost f: Frame) returns (kind: int)
      requires Sane() && FrameStored(dbl, structure[..], text.input[..], out, text.p, f)
      requires f.base == base && f.isObject == isObject && (f.keyed ==> f.acc == [])
      requires base < temp == End(f) && temp <= out
      modifies structure, this`temp, this`out
      ensures base <= out < old(out) && out >= old(out) - (old(temp) - base)
      ensures forall i :: 0 <= i < base || old(out) <= i < structure.Length ==> structure[i] == old(structure[i])
      ensures kind == KindOf(isObject)
      ensures Stored(dbl, structure[..], text.input[..], out, text.p, Ref(kind, out), Built(isObject, f.acc))
    {
      hide Stored, Built;
      if isObject {
        CloseObject(base + 1, f);
      } else {
        CloseArray(base, f);
      }
      kind := KindOf(isObject);
    }

    /** A container closes: it is moved to the finished region and becomes an element of the one around it. */
    method CloseContainer(base: nat, isObject: bool, ghost frames: seq<Frame>)
      returns (root: bool, base': nat, isObject': bool, ghost frames': seq<Frame>)
      requires AtValue(base, isObject, frames, false) && Look(text.source, text.p) == Closing(isObject)
      modifies structure, this`temp, this`out, this`rootType, text
      ensures old(text.p) < text.p
      ensures !root ==> AtHead(base', isObject', frames')
      ensures root ==> Finished()
    {
      hide StackStored, FrameStored, Stored, Continue, Resume, Make, Document, Value, Built, Skip;
      StackBounds(frames);
      base', isObject', frames' := 0, false, frames[..|frames| - 1];
      TopMarker(frames);
      ghost var k := |frames| - 1;
      ghost var v := Built(isObject, frames[k].acc);
      ResumeClose(text.source, frames, text.p);
      text.p := text.p + 1;
      ghost var w := structure[..];
      StackFrame(dbl, w, w, text.input[..], text.input[..], out, out, old(text.p), text.p, frames, temp);
      TopStored(frames);
      var marker := structure[base];
      var kind := Close(base, isObject, frames[k]);
      var parent := ValueOf(marker);
      root := parent == ROOT_MARKER;
      if root {
        rootType := kind;
        StoredFrame(dbl, structure[..], structure[..], text.input[..], text.input[..], out, text.p, out,
          text.input.Length, Ref(kind, out), v);
        return;
      }
      temp := base;
      base' := parent;
      isObject' := TypeOf(marker) == TYPE_OBJECT;
      PopFrames(dbl, w, structure[..], text.input[..], old(out), out, text.p, frames, old(temp));
      AddElement(base', isObject', kind, frames', v);
      frames' := Extend(frames', v);
    }

    /** The root is closed; what follows decides. */
    ghost predicate Finished()
      reads this, text, text.input, structure
    {
      && text.Valid()
      && exists v ::
        && Stored(dbl, structure[..], text.input[..], out, |text.source|, Ref(rootType, out), v)
        && Document(text.source) == if Look(text.source, Skip(text.source, text.p)) == 0 then Found(v) else Refused
    }

    lemma TopStored(frames: seq<Frame>)
      requires StackStored(dbl, structure[..], text.input[..], out, text.p, frames, temp)
      ensures
        var f := frames[|frames| - 1];
        FrameStored(dbl, structure[..], text.input[..], out, text.p, f) && End(f) == temp
      ensures |frames| > 1 ==> var g := frames[|frames| - 2]; g.keyed == g.isObject
    {
    }

    // -------------------------------------------------------------- the whole parse

    /**
      Accepts exactly the documents of the grammar, and then the word array holds the tree:
      walking it from the root through the accessors yields the value the grammar gives.
    */
    method Parse() returns (ok: bool)
      requires Sane() && text.p == 0 && temp == 0 && out == structure.Length
      requires Document(text.source) != Overread
      modifies this, structure, text, text.input
      ensures ok <==> Document(text.source).Found?
      ensures ok ==>
        Stored(dbl, structure[..], text.input[..], out, |text.source|, Ref(rootType, out), Document(text.source).value)
    {
      hide Open, AtElement, AtValue, Stored, Rest;
      var c := text.PeekStructure();
      if c != OPEN_ARRAY && c != OPEN_OBJECT {
        return false;
      }
      var base: nat, isObject := 0, c == OPEN_OBJECT;
      ghost var frames := OpenRoot(isObject);
      while true
        invariant AtHead(base, isObject, frames) && text.p > 0
        decreases |text.source| - text.p
      {
        var comma, root;
        ok, comma, c := ReadComma(base, isObject, frames);
        if !ok {
          return;
        }
        ok, frames := ReadHead(base, isObject, c, comma, frames);
        if !ok {
          return;
        }
        c := PeekValue(base, isObject, frames, comma);
        if StartsScalar(c) {
          ok, frames := ReadElement(base, isObject, c, frames, comma);
          if !ok {
            return;
          }
        } else if c == OPEN_ARRAY || c == OPEN_OBJECT {
          var at := temp;
          frames := OpenContainer(base, isObject, c, frames, comma);
          base, isObject := at, c == OPEN_OBJECT;
        } else if c == Closing(isObject) && !comma {
          root, base, isObject, frames := CloseContainer(base, isObject, frames);
          if root {
            c := text.PeekStructure();
            return c == 0;
          }
        } else {
          NoValue(base, isObject, frames, comma);
          return false;
        }
      }
    }

    /** Anything else at the place of a value is an error of the grammar too. */
    lemma NoValue(base: nat, isObject: bool, frames: seq<Frame>, comma: bool)
      requires AtValue(base, isObject, frames, comma)
      requires
        var c := Look(text.source, text.p);
        && !StartsScalar(c) && c != OPEN_ARRAY && c != OPEN_OBJECT
        && !(c == Closing(isObject) && !comma)
      ensures Document(text.source) == Refused
    {
      hide StackStored;
    }

    /** `peek_structure` once more: the pointer is already on the value. */
    method PeekValue(base: nat, isObject: bool, ghost frames: seq<Frame>, ghost comma: bool) returns (c: Byte)
      requires AtValue(base, isObject, frames, comma)
      modifies text
      ensures AtValue(base, isObject, frames, comma) && c == Look(text.source, text.p) && text.p == old(text.p)
    {
      hide StackStored, Continue, Value;
      c := text.PeekStructure();
    }

    method OpenRoot(isObject: bool) returns (ghost frames: seq<Frame>)
      requires Sane() && text.p < |text.source| && temp == 0 && out == structure.Length
      requires text.p == Skip(text.source, 0) && text.source[text.p] == if isObject then OPEN_OBJECT else OPEN_ARRAY
      modifies structure, this`temp, text
      ensures AtHead(0, isObject, frames)
    {
      hide Rest;
      text.p := text.p + 1;
      structure[temp] := Make(KindOf(isObject), ROOT_MARKER);
      temp := temp + 1;
      frames := [Frame(0, isObject, [], false, [])];
    }
  }
}
