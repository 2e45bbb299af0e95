/**
  The open containers of a parse in progress: what the stack half of the word array holds,
  and how the recursive grammar goes on from there.
*/
module JsonFrames {
  import opened Options
  import opened Bytes
  import opened JsonGrammar
  import opened JsonKeys
  import opened JsonStore

  /**
    An open container: its marker word is at `base` and its elements follow. `keyed` when
    the key of the next member has been pushed too.
  */
  datatype Frame = Frame(base: int, isObject: bool, acc: seq<Member>, keyed: bool, key: seq<Byte>)

  function KindOf(isObject: bool): int {
    if isObject then TYPE_OBJECT else TYPE_ARRAY
  }

  /** The words `n` elements take. */
  function WordsFor(isObject: bool, n: int): int {
    if isObject then 3 * n else n
  }

  /** The first word past the frame. */
  function End(f: Frame): int {
    f.base + 1 + WordsFor(f.isObject, |f.acc|) + if f.keyed then 2 else 0
  }

  /** The element word of the `j`-th element. */
  function Slot(f: Frame, j: int): int {
    f.base + WordsFor(f.isObject, j + 1)
  }

  // ---------------------------------------------------------------- how the grammar goes on

  /** The container on top came out as `r`; its value becomes an element of the one below. */
  function Continue(s: seq<Byte>, frames: seq<Frame>, r: Reading<(JValue, nat)>): Reading<JValue>
    requires r.Found? ==> r.value.1 <= |s|
    decreases |frames|, 0
  {
    match r
    case Refused => Refused
    case Overread => Overread
    case Found((v, n)) =>
      if frames == [] then if Look(s, Skip(s, n)) == 0 then Found(v) else Refused
      else
        var g := Extended(frames[|frames| - 1], v);
        Continue(s, frames[..|frames| - 1], Rest(s, g.isObject, g.acc, n))
  }

  lemma ContinueRefused(s: seq<Byte>, frames: seq<Frame>)
    ensures Continue(s, frames, Refused) == Refused
  {
  }

  /** The outcome of the parse when the containers `frames` are open and reading goes on at `p`. */
  function Resume(s: seq<Byte>, frames: seq<Frame>, p: nat): Reading<JValue>
    requires frames != [] && p <= |s|
  {
    var f := frames[|frames| - 1];
    Continue(s, frames[..|frames| - 1], Rest(s, f.isObject, f.acc, p))
  }

  function Extended(f: Frame, v: JValue): Frame {
    f.(acc := f.acc + [Member(f.key, v)], keyed := false, key := [])
  }

  function Extend(frames: seq<Frame>, v: JValue): seq<Frame>
    requires frames != []
  {
    var k := |frames| - 1;
    frames[k := Extended(frames[k], v)]
  }

  // ---------------------------------------------------------------- what the stack holds

  /** The `j`-th element of `f` is in place: its key, and an element word relative to `f.base + 1`. */
  ghost predicate ItemStored(dbl: seq<Byte> -> Word, w: seq<Word>, text: seq<Byte>, lo: int, hi: int, f: Frame, j: int)
    requires 0 <= f.base && 0 <= j < |f.acc| && End(f) <= |w|
  {
    && Stored(dbl, w, text, lo, hi, Child(f.base + 1, w[Slot(f, j)]), f.acc[j].value)
    && (if f.isObject then Holds(text, (w[Slot(f, j) - 2], w[Slot(f, j) - 1]), f.acc[j].key, hi)
        else f.acc[j].key == [])
  }

  ghost predicate FrameStored(dbl: seq<Byte> -> Word, w: seq<Word>, text: seq<Byte>, lo: int, hi: int, f: Frame) {
    && 0 <= f.base && End(f) <= |w|
    && (forall j :: 0 <= j < |f.acc| ==> ItemStored(dbl, w, text, lo, hi, f, j))
    && (if f.keyed then f.isObject && Holds(text, (w[End(f) - 2], w[End(f) - 1]), f.key, hi) else f.key == [])
  }

  /** What the marker word of the `i`-th open container says: the container around it, or that it is the root. */
  function Marker(frames: seq<Frame>, i: int): Word
    requires 0 <= i < |frames| && (i > 0 ==> 0 <= frames[i - 1].base < TAG)
  {
    if i == 0 then Make(KindOf(frames[0].isObject), ROOT_MARKER)
    else Make(KindOf(frames[i - 1].isObject), frames[i - 1].base)
  }

  /** The frames lie one after the other from the bottom of the array up to `temp`. */
  ghost predicate Stacked(frames: seq<Frame>, temp: int) {
    && frames != [] && frames[0].base == 0
    && (forall i :: 0 <= i < |frames| ==> 0 <= frames[i].base < temp)
    && (forall i {:trigger End(frames[i])} :: 0 <= i < |frames| - 1 ==> frames[i + 1].base == End(frames[i]))
    && (forall i :: 0 <= i < |frames| - 1 ==> frames[i].keyed == frames[i].isObject)
    && End(frames[|frames| - 1]) == temp
  }

  ghost predicate Marked(w: seq<Word>, frames: seq<Frame>)
    requires |w| < ROOT_MARKER && forall i :: 0 <= i < |frames| ==> 0 <= frames[i].base < |w|
  {
    forall i {:trigger Marker(frames, i)} :: 0 <= i < |frames| ==> w[frames[i].base] == Marker(frames, i)
  }

  ghost predicate StackStored(dbl: seq<Byte> -> Word, w: seq<Word>, text: seq<Byte>, out: int, hi: int,
      frames: seq<Frame>, temp: int) {
    && Stacked(frames, temp) && temp <= out <= |w| < ROOT_MARKER
    && Marked(w, frames)
    && (forall i :: 0 <= i < |frames| ==> FrameStored(dbl, w, text, out, hi, frames[i]))
  }

  lemma FrameFrame(dbl: seq<Byte> -> Word, w: seq<Word>, w': seq<Word>, text: seq<Byte>, text': seq<Byte>,
                   lo: int, hi: int, lo': int, hi': int, f: Frame)
    requires FrameStored(dbl, w, text, lo, hi, f)
    requires |w'| == |w| && |text'| == |text| && 0 <= lo' <= lo && hi <= hi' <= |text|
    requires End(f) <= lo
    requires forall i :: f.base < i < End(f) || lo <= i < |w| ==> w'[i] == w[i]
    requires forall i :: 0 <= i < hi && i < |text| ==> text'[i] == text[i]
    ensures FrameStored(dbl, w', text', lo', hi', f)
  {
    forall j | 0 <= j < |f.acc| ensures ItemStored(dbl, w', text', lo', hi', f, j) {
      assert ItemStored(dbl, w, text, lo, hi, f, j);
      assert f.base < Slot(f, j) < End(f);
      StoredFrame(dbl, w, w', text, text', lo, hi, lo', hi', Child(f.base + 1, w[Slot(f, j)]), f.acc[j].value);
      if f.isObject {
        var s, e := w[Slot(f, j) - 2], w[Slot(f, j) - 1];
        assert text'[s..e] == text[s..e];
      }
    }
    if f.keyed {
      var s, e := w[End(f) - 2], w[End(f) - 1];
      assert text'[s..e] == text[s..e];
    }
  }

  /** New payload words between the stack and `out`, or more text read, disturb nothing. */
  lemma StackFrame(dbl: seq<Byte> -> Word, w: seq<Word>, w': seq<Word>, text: seq<Byte>, text': seq<Byte>,
                   out: int, out': int, hi: int, hi': int, frames: seq<Frame>, temp: int)
    requires StackStored(dbl, w, text, out, hi, frames, temp)
    requires |w'| == |w| && |text'| == |text| && temp <= out' <= out && hi <= hi' <= |text|
    requires forall i :: 0 <= i < temp || out <= i < |w| ==> w'[i] == w[i]
    requires forall i :: 0 <= i < hi && i < |text| ==> text'[i] == text[i]
    ensures StackStored(dbl, w', text', out', hi', frames, temp)
  {
    forall i | 0 <= i < |frames| ensures w'[frames[i].base] == Marker(frames, i) {
    }
    forall i | 0 <= i < |frames| ensures FrameStored(dbl, w', text', out', hi', frames[i]) {
      EndBelow(frames, temp, i);
      FrameFrame(dbl, w, w', text, text', out, hi, out', hi', frames[i]);
    }
  }

  lemma EndBelow(frames: seq<Frame>, temp: int, i: int)
    requires Stacked(frames, temp) && 0 <= i < |frames|
    ensures End(frames[i]) <= temp
  {
    if i < |frames| - 1 {
      assert frames[i + 1].base < temp;
    }
  }

  // ---------------------------------------------------------------- pushes

  lemma StackedTop(frames: seq<Frame>, temp: int, g: Frame)
    requires Stacked(frames, temp) && g.base == frames[|frames| - 1].base < End(g)
    ensures Stacked(frames[|frames| - 1 := g], End(g))
  {
    hide End;
    var k := |frames| - 1;
    var frames' := frames[k := g];
    forall i | 0 <= i < k ensures 0 <= frames'[i].base < End(g) {
      BaseBelow(frames, temp, i);
    }
    forall i | 0 <= i < k ensures frames'[i + 1].base == End(frames'[i]) {
      assert frames[i + 1].base == End(frames[i]);
    }
  }

  lemma MarkedTop(w: seq<Word>, frames: seq<Frame>, g: Frame)
    requires |w| < ROOT_MARKER && frames != []
    requires forall i :: 0 <= i < |frames| ==> 0 <= frames[i].base < |w|
    requires var f := frames[|frames| - 1]; g.base == f.base && g.isObject == f.isObject
    requires Marked(w, frames)
    ensures Marked(w, frames[|frames| - 1 := g])
  {
    hide Make;
    var frames' := frames[|frames| - 1 := g];
    forall i | 0 <= i < |frames'| ensures w[frames'[i].base] == Marker(frames', i) {
      assert Marker(frames', i) == Marker(frames, i);
    }
  }

  /** The frame on top may be replaced by any stored frame that starts where it did. */
  lemma ReplaceTop(dbl: seq<Byte> -> Word, w: seq<Word>, text: seq<Byte>, out: int, hi: int, frames: seq<Frame>,
      temp: int, g: Frame)
    requires StackStored(dbl, w, text, out, hi, frames, temp)
    requires var f := frames[|frames| - 1]; g.base == f.base && g.isObject == f.isObject
    requires FrameStored(dbl, w, text, out, hi, g) && g.base < End(g) <= out
    ensures StackStored(dbl, w, text, out, hi, frames[|frames| - 1 := g], End(g))
  {
    hide FrameStored, Marked;
    StackedTop(frames, temp, g);
    MarkedTop(w, frames, g);
  }

  lemma ExtendedStored(dbl: seq<Byte> -> Word, w: seq<Word>, text: seq<Byte>, out: int, hi: int, f: Frame, v: JValue)
    requires FrameStored(dbl, w, text, out, hi, f) && f.keyed == f.isObject && End(f) < |w|
    requires Stored(dbl, w, text, out, hi, Child(f.base + 1, w[End(f)]), v)
    ensures FrameStored(dbl, w, text, out, hi, Extended(f, v)) && End(Extended(f, v)) == End(f) + 1
  {
    var g := Extended(f, v);
    forall j | 0 <= j < |g.acc| ensures ItemStored(dbl, w, text, out, hi, g, j) {
      if j < |f.acc| {
        assert ItemStored(dbl, w, text, out, hi, f, j);
        assert Slot(g, j) == Slot(f, j);
      } else {
        assert Slot(g, j) == End(f);
      }
    }
  }

  /** A finished value at `out` becomes an element of the container on top. */
  lemma PushElement(dbl: seq<Byte> -> Word, w: seq<Word>, text: seq<Byte>, out: int, hi: int, frames: seq<Frame>,
      temp: int, kind: int, v: JValue, w': seq<Word>)
    requires StackStored(dbl, w, text, out, hi, frames, temp) && temp < out && 0 <= hi <= |text|
    requires var f := frames[|frames| - 1]; f.keyed == f.isObject
    requires 0 <= kind < 8 && Stored(dbl, w, text, out, hi, Ref(kind, out), v)
    requires w' == w[temp := Make(kind, out - frames[|frames| - 1].base - 1)]
    ensures StackStored(dbl, w', text, out, hi, Extend(frames, v), temp + 1)
  {
    hide FrameStored;
    var f := frames[|frames| - 1];
    StackFrame(dbl, w, w', text, text, out, out, hi, hi, frames, temp);
    StoredFrame(dbl, w, w', text, text, out, hi, out, hi, Ref(kind, out), v);
    MakeParts(kind, out - f.base - 1);
    ExtendedStored(dbl, w', text, out, hi, f, v);
    ReplaceTop(dbl, w', text, out, hi, frames, temp, Extended(f, v));
  }

  lemma KeyedStored(dbl: seq<Byte> -> Word, w: seq<Word>, text: seq<Byte>, out: int, hi: int, f: Frame, key: seq<Byte>)
    requires FrameStored(dbl, w, text, out, hi, f) && f.isObject && !f.keyed && End(f) + 2 <= |w|
    requires Holds(text, (w[End(f)], w[End(f) + 1]), key, hi)
    ensures FrameStored(dbl, w, text, out, hi, f.(keyed := true, key := key))
  {
    var g := f.(keyed := true, key := key);
    forall j | 0 <= j < |g.acc| ensures ItemStored(dbl, w, text, out, hi, g, j) {
      assert ItemStored(dbl, w, text, out, hi, f, j);
      assert Slot(g, j) == Slot(f, j);
    }
  }

  /** The key of the next member is pushed. */
  lemma PushKey(dbl: seq<Byte> -> Word, w: seq<Word>, text: seq<Byte>, out: int, hi: int, frames: seq<Frame>, temp: int,
                start: Word, end: Word, key: seq<Byte>, w': seq<Word>)
    requires StackStored(dbl, w, text, out, hi, frames, temp) && temp + 2 <= out && 0 <= hi <= |text|
    requires var f := frames[|frames| - 1]; f.isObject && !f.keyed
    requires Holds(text, (start, end), key, hi)
    requires w' == w[temp := start][temp + 1 := end]
    ensures
      var k := |frames| - 1;
      StackStored(dbl, w', text, out, hi, frames[k := frames[k].(keyed := true, key := key)], temp + 2)
  {
    hide FrameStored;
    var f := frames[|frames| - 1];
    StackFrame(dbl, w, w', text, text, out, out, hi, hi, frames, temp);
    KeyedStored(dbl, w', text, out, hi, f, key);
    ReplaceTop(dbl, w', text, out, hi, frames, temp, f.(keyed := true, key := key));
  }

  lemma EmptyFrame(dbl: seq<Byte> -> Word, w: seq<Word>, text: seq<Byte>, out: int, hi: int, f: Frame)
    requires f.acc == [] && !f.keyed && f.key == [] && 0 <= f.base < |w|
    ensures FrameStored(dbl, w, text, out, hi, f) && End(f) == f.base + 1
  {
  }

  /** A container opens inside the one on top. */
  lemma PushMarker(dbl: seq<Byte> -> Word, w: seq<Word>, text: seq<Byte>, out: int, hi: int, frames: seq<Frame>,
      temp: int, isObject: bool, w': seq<Word>)
    requires StackStored(dbl, w, text, out, hi, frames, temp) && temp < out && 0 <= hi <= |text|
    requires var f := frames[|frames| - 1]; f.keyed == f.isObject
    requires w' == w[temp := Make(KindOf(frames[|frames| - 1].isObject), frames[|frames| - 1].base)]
    ensures StackStored(dbl, w', text, out, hi, frames + [Frame(temp, isObject, [], false, [])], temp + 1)
  {
    hide FrameStored, Marked;
    var child := Frame(temp, isObject, [], false, []);
    EmptyFrame(dbl, w', text, out, hi, child);
    StackFrame(dbl, w, w', text, text, out, out, hi, hi, frames, temp);
    StackedPush(frames, temp, child);
    MarkedPush(w', frames, child);
  }

  lemma StackedPush(frames: seq<Frame>, temp: int, child: Frame)
    requires Stacked(frames, temp) && child.base == temp && End(child) == temp + 1
    requires var f := frames[|frames| - 1]; f.keyed == f.isObject
    ensures Stacked(frames + [child], temp + 1)
  {
    hide End;
    var frames' := frames + [child];
    forall i | 0 <= i < |frames| ensures frames'[i + 1].base == End(frames'[i]) {
      if i < |frames| - 1 {
        assert frames[i + 1].base == End(frames[i]);
      }
    }
  }

  lemma MarkedPush(w: seq<Word>, frames: seq<Frame>, child: Frame)
    requires |w| < ROOT_MARKER && frames != [] && 0 <= child.base < |w|
    requires forall i :: 0 <= i < |frames| ==> 0 <= frames[i].base < |w|
    requires Marked(w, frames)
    requires w[child.base] == Make(KindOf(frames[|frames| - 1].isObject), frames[|frames| - 1].base)
    ensures Marked(w, frames + [child])
  {
    hide Make;
    var frames' := frames + [child];
    forall i | 0 <= i < |frames'| ensures w[frames'[i].base] == Marker(frames', i) {
      if i < |frames| {
        assert Marker(frames', i) == Marker(frames, i);
      }
    }
  }

  // ---------------------------------------------------------------- closes

  /** The frames below the one on top, when it is taken off. */
  lemma PopFrames(dbl: seq<Byte> -> Word, w: seq<Word>, w': seq<Word>, text: seq<Byte>, out: int, out': int, hi: int,
                  frames: seq<Frame>, temp: int)
    requires StackStored(dbl, w, text, out, hi, frames, temp) && |frames| > 1 && 0 <= hi <= |text|
    requires |w'| == |w| && frames[|frames| - 1].base <= out' <= out
    requires forall i :: 0 <= i < frames[|frames| - 1].base || out <= i < |w| ==> w'[i] == w[i]
    ensures StackStored(dbl, w', text, out', hi, frames[..|frames| - 1], frames[|frames| - 1].base)
  {
    var k := |frames| - 1;
    var below, base := frames[..k], frames[k].base;
    forall i | 0 <= i < k ensures 0 <= below[i].base < base {
      BaseBelow(frames, temp, i);
    }
    forall i | 0 <= i < k ensures w[below[i].base] == Marker(below, i) {
      assert Marker(below, i) == Marker(frames, i);
    }
    assert StackStored(dbl, w, text, out, hi, below, base);
    StackFrame(dbl, w, w', text, text, out, out', hi, hi, below, base);
  }

  lemma {:induction false} BaseBelow(frames: seq<Frame>, temp: int, i: int)
    requires Stacked(frames, temp) && 0 <= i < |frames| - 1
    ensures frames[i].base < frames[|frames| - 1].base
    decreases |frames| - i
  {
    assert frames[i + 1].base == End(frames[i]);
    if i + 1 < |frames| - 1 {
      BaseBelow(frames, temp, i + 1);
    }
  }

  /** A re-based element word means the same value from the new payload. */
  lemma RebasedElement(dbl: seq<Byte> -> Word, w: seq<Word>, w': seq<Word>, text: seq<Byte>, out: int, hi: int,
                       from: int, at: int, e: Word, v: JValue)
    requires Stored(dbl, w, text, out, hi, Child(from, e), v)
    requires at < out <= |w| < ROOT_MARKER && 0 <= at && 0 <= hi <= |text|
    requires |w'| == |w| && forall i :: out <= i < |w| ==> w'[i] == w[i]
    ensures Stored(dbl, w', text, out, hi, Child(at, Add(e, from - at)), v)
  {
    RebaseKeepsTag(e, from - at);
    StoredFrame(dbl, w, w', text, text, out, hi, out, hi, Child(from, e), v);
  }

  /** `install_array` leaves the array it stands for: every element word is re-based on the new payload. */
  lemma InstalledArray(dbl: seq<Byte> -> Word, w: seq<Word>, w': seq<Word>, text: seq<Byte>, out: int, hi: int,
      f: Frame, at: int)
    requires FrameStored(dbl, w, text, out, hi, f) && !f.isObject && End(f) <= out <= |w| < ROOT_MARKER
    requires 0 <= hi <= |text|
    requires |w'| == |w| && forall i :: out <= i < |w| ==> w'[i] == w[i]
    requires at == out - |f.acc| - 1 && w'[at] == |f.acc|
    requires forall j {:trigger f.acc[j]} :: 0 <= j < |f.acc| ==>
      w'[at + 1 + j] == Add(w[f.base + 1 + j], f.base + 1 - at)
    ensures Stored(dbl, w', text, at, hi, Ref(TYPE_ARRAY, at), Built(false, f.acc))
  {
    var r := Ref(TYPE_ARRAY, at);
    forall j | 0 <= j < |f.acc| ensures Stored(dbl, w', text, out, hi, GetArrayElement(w', r, j), f.acc[j].value) {
      assert ItemStored(dbl, w, text, out, hi, f, j);
      assert Slot(f, j) == f.base + 1 + j;
      RebasedElement(dbl, w, w', text, out, hi, f.base + 1, at, w[f.base + 1 + j], f.acc[j].value);
    }
  }

  /** One record of an installed object is the record of the stack it was sorted from. */
  predicate RecordMoved(w: seq<Word>, w': seq<Word>, from: int, at: int, delta: int)
    requires 0 <= from && from + 3 <= |w| && 0 <= at && at + 3 <= |w'|
  {
    w'[at] == w[from] && w'[at + 1] == w[from + 1] && w'[at + 2] == Add(w[from + 2], delta)
  }

  lemma InstalledRecord(dbl: seq<Byte> -> Word, w: seq<Word>, w': seq<Word>, text: seq<Byte>, out: int, hi: int,
      f: Frame, at: int, o: int, j: int)
    requires FrameStored(dbl, w, text, out, hi, f) && f.isObject && End(f) <= out <= |w| < ROOT_MARKER
    requires 0 <= hi <= |text|
    requires |w'| == |w| && forall i :: out <= i < |w| ==> w'[i] == w[i]
    requires 0 <= at == out - 3 * |f.acc| - 1 && 0 <= j < |f.acc| && 0 <= o < |f.acc|
    requires RecordMoved(w, w', f.base + 1 + 3 * o, at + 1 + 3 * j, f.base + 1 - at)
    ensures
      var r := Ref(TYPE_OBJECT, at);
      && Holds(text, GetObjectKey(w', r, j), f.acc[o].key, hi)
      && Stored(dbl, w', text, out, hi, GetObjectValue(w', r, j), f.acc[o].value)
  {
    assert ItemStored(dbl, w, text, out, hi, f, o);
    assert Slot(f, o) == f.base + 3 + 3 * o;
    RebasedElement(dbl, w, w', text, out, hi, f.base + 1, at, w[f.base + 3 + 3 * o], f.acc[o].value);
  }

  /** `install_object` leaves the object, its records in key order and their values re-based. */
  lemma InstalledObject(dbl: seq<Byte> -> Word, w: seq<Word>, w': seq<Word>, text: seq<Byte>, out: int, hi: int,
      f: Frame, at: int, order: seq<nat>)
    requires FrameStored(dbl, w, text, out, hi, f) && f.isObject && End(f) <= out <= |w| < ROOT_MARKER
    requires 0 <= hi <= |text|
    requires Permutes(order, |f.acc|) && SortedBy(Keys(f.acc), order)
    requires |w'| == |w| && forall i :: out <= i < |w| ==> w'[i] == w[i]
    requires 0 <= at == out - 3 * |f.acc| - 1 && w'[at] == |f.acc|
    requires forall j :: 0 <= j < |f.acc| ==>
      RecordMoved(w, w', f.base + 1 + 3 * order[j], at + 1 + 3 * j, f.base + 1 - at)
    ensures Stored(dbl, w', text, at, hi, Ref(TYPE_OBJECT, at), Built(true, f.acc))
  {
    hide RecordMoved, FrameStored, SortedBy;
    var r := Ref(TYPE_OBJECT, at);
    forall j | 0 <= j < |f.acc|
      ensures Holds(text, GetObjectKey(w', r, j), f.acc[order[j]].key, hi)
      ensures Stored(dbl, w', text, out, hi, GetObjectValue(w', r, j), f.acc[order[j]].value)
    {
      InstalledRecord(dbl, w, w', text, out, hi, f, at, order[j], j);
    }
    assert StoredMembers(dbl, w', text, hi, r, f.acc, order);
  }

  // ---------------------------------------------------------------- the grammar takes the same steps

  lemma ResumeScalar(s: seq<Byte>, frames: seq<Frame>, comma: bool, q: nat)
    requires frames != [] && q < |s| && StartsScalar(s[q])
    ensures
      var f := frames[|frames| - 1];
      Continue(s, frames[..|frames| - 1], Value(s, f.isObject, f.acc, comma, f.key, q)) ==
        match ScalarAt(s, q)
        case Refused => Refused
        case Overread => Overread
        case Found((v, n)) => Resume(s, Extend(frames, v), n)
  {
    if ScalarAt(s, q).Found? {
      var e := Extend(frames, ScalarAt(s, q).value.0);
      assert e[..|e| - 1] == frames[..|frames| - 1];
    }
  }

  lemma ResumeOpen(s: seq<Byte>, frames: seq<Frame>, comma: bool, q: nat, child: Frame)
    requires frames != [] && q < |s| && (s[q] == OPEN_ARRAY || s[q] == OPEN_OBJECT)
    requires child.isObject == (s[q] == OPEN_OBJECT) && child.acc == []
    ensures
      var f := frames[|frames| - 1];
      Continue(s, frames[..|frames| - 1], Value(s, f.isObject, f.acc, comma, f.key, q)) ==
        Resume(s, frames + [child], q + 1)
  {
    assert (frames + [child])[..|frames|] == frames;
  }

  /** A close hands the finished container to the one below, or ends the document. */
  lemma ResumeClose(s: seq<Byte>, frames: seq<Frame>, q: nat)
    requires frames != [] && q < |s| && s[q] == Closing(frames[|frames| - 1].isObject)
    ensures
      var f := frames[|frames| - 1];
      var below := frames[..|frames| - 1];
      var v := Built(f.isObject, f.acc);
      && Continue(s, below, Value(s, f.isObject, f.acc, true, f.key, q)) == Refused
      && Continue(s, below, Value(s, f.isObject, f.acc, false, f.key, q)) ==
           if below == [] then if Look(s, Skip(s, q + 1)) == 0 then Found(v) else Refused
           else Resume(s, Extend(below, v), q + 1)
  {
    var below := frames[..|frames| - 1];
    if below != [] {
      var e := Extend(below, Built(frames[|frames| - 1].isObject, frames[|frames| - 1].acc));
      assert e[..|e| - 1] == below[..|below| - 1];
    }
  }
}
