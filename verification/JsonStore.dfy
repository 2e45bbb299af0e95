/**
  The word array a finished document lives in: tagged words, the `value` accessors, and what
  it means for a region of the array to hold a tree.
*/
module JsonStore {
  import opened Bytes
  import opened JsonGrammar
  import opened JsonKeys

  /** `size_t` on a 64-bit machine. */
  type Word = w: int | 0 <= w < 0x1_0000_0000_0000_0000

  const WORDS := 0x1_0000_0000_0000_0000
  const TAG := 0x2000_0000_0000_0000
  const ROOT_MARKER := TAG - 1

  const TYPE_INTEGER := 0
  const TYPE_DOUBLE := 1
  const TYPE_NULL := 2
  const TYPE_FALSE := 3
  const TYPE_TRUE := 4
  const TYPE_STRING := 5
  const TYPE_ARRAY := 6
  const TYPE_OBJECT := 7

  /** The top three bits. */
  function TypeOf(w: Word): (t: int)
    ensures 0 <= t < 8
  {
    w / TAG
  }

  /** The 61 bits below them. */
  function ValueOf(w: Word): (v: int)
    ensures 0 <= v < TAG
  {
    w % TAG
  }

  function Make(t: int, v: int): (w: Word)
    requires 0 <= t < 8 && 0 <= v < TAG
  {
    v + t * TAG
  }

  lemma MakeParts(t: int, v: int)
    requires 0 <= t < 8 && 0 <= v < TAG
    ensures TypeOf(Make(t, v)) == t && ValueOf(Make(t, v)) == v
  {
  }

  /** `size_t` addition of a pointer difference: it wraps. */
  function Add(w: Word, d: int): Word {
    (w + d) % WORDS
  }

  /** The re-base addition is legal: it keeps the tag and moves the offset, also when `d` is negative. */
  lemma RebaseKeepsTag(w: Word, d: int)
    requires 0 <= ValueOf(w) + d < TAG
    ensures TypeOf(Add(w, d)) == TypeOf(w)
    ensures ValueOf(Add(w, d)) == ValueOf(w) + d
  {
    assert w == Make(TypeOf(w), ValueOf(w));
    assert Add(w, d) == Make(TypeOf(w), ValueOf(w) + d);
    MakeParts(TypeOf(w), ValueOf(w) + d);
  }

  /** The low half of a word read as a 32-bit `int`. */
  function LowInt(w: Word): int {
    var u := w % 0x1_0000_0000;
    if u < 0x8000_0000 then u else u - 0x1_0000_0000
  }

  // ---------------------------------------------------------------- accessors

  /** A `value`: its type and the index its payload pointer stands for. */
  datatype Ref = Ref(kind: int, at: int)

  /** The element word `e` relative to the payload at `base`. */
  function Child(base: int, e: Word): Ref {
    Ref(TypeOf(e), base + ValueOf(e))
  }

  function GetArrayElement(w: seq<Word>, r: Ref, i: nat): Ref
    requires 0 <= r.at && r.at + 1 + i < |w|
  {
    Child(r.at, w[r.at + 1 + i])
  }

  function GetObjectKey(w: seq<Word>, r: Ref, i: nat): (int, int)
    requires 0 <= r.at && r.at + 3 + 3 * i < |w|
  {
    (w[r.at + 1 + 3 * i], w[r.at + 2 + 3 * i])
  }

  function GetObjectValue(w: seq<Word>, r: Ref, i: nat): Ref
    requires 0 <= r.at && r.at + 3 + 3 * i < |w|
  {
    Child(r.at, w[r.at + 3 + 3 * i])
  }

  // ---------------------------------------------------------------- what a region holds

  /** The bytes between two offsets into the text. */
  predicate Holds(text: seq<Byte>, span: (int, int), bytes: seq<Byte>, hi: int)
  {
    0 <= span.0 <= span.1 <= hi <= |text| && text[span.0..span.1] == bytes
  }

  /**
    Walking from `r` through the accessors yields exactly `v`, with the members of an object
    sorted by key, reading words of `w` from `lo` up and text below `hi` only.
  */
  ghost predicate Stored(dbl: seq<Byte> -> Word, w: seq<Word>, text: seq<Byte>, lo: int, hi: int, r: Ref, v: JValue)
    decreases v
  {
    0 <= lo <= r.at <= |w| &&
    match v
    case JNull => r.kind == TYPE_NULL
    case JFalse => r.kind == TYPE_FALSE
    case JTrue => r.kind == TYPE_TRUE
    case JInteger(i) => r.kind == TYPE_INTEGER && r.at < |w| && LowInt(w[r.at]) == i
    case JDouble(lexeme) => r.kind == TYPE_DOUBLE && r.at < |w| && w[r.at] == dbl(lexeme)
    case JString(bytes) =>
      r.kind == TYPE_STRING && r.at + 2 <= |w| && Holds(text, (w[r.at], w[r.at + 1]), bytes, hi)
    case JArray(items) =>
      && r.kind == TYPE_ARRAY && r.at + 1 + |items| <= |w| && w[r.at] == |items|
      && forall i :: 0 <= i < |items| ==>
           Stored(dbl, w, text, r.at + 1 + |items|, hi, GetArrayElement(w, r, i), items[i])
    case JObject(members) =>
      && r.kind == TYPE_OBJECT && r.at + 1 + 3 * |members| <= |w| && w[r.at] == |members|
      && exists order :: StoredMembers(dbl, w, text, hi, r, members, order)
  }

  /** The type numbers of the values, and what the bits of the words mean, for a client of the accessors. */
  lemma StoredWords(dbl: seq<Byte> -> Word, w: seq<Word>, text: seq<Byte>, lo: int, hi: int, r: Ref, v: JValue)
    requires Stored(dbl, w, text, lo, hi, r, v)
    ensures r.kind == match v
      case JInteger(_) => 0 case JDouble(_) => 1 case JNull => 2 case JFalse => 3
      case JTrue => 4 case JString(_) => 5 case JArray(_) => 6 case JObject(_) => 7
    ensures v.JInteger? ==> (w[r.at] - v.i) % 0x1_0000_0000 == 0 && -0x8000_0000 <= v.i < 0x8000_0000
    ensures v.JString? ==> 0 <= w[r.at] <= w[r.at + 1] <= |text| && text[w[r.at]..w[r.at + 1]] == v.bytes
    ensures v.JArray? ==>
      && w[r.at] == |v.items|
      && forall i :: 0 <= i < |v.items| ==>
           var e := w[r.at + 1 + i];
           Stored(dbl, w, text, r.at + 1 + |v.items|, hi,
                  Ref(e / 0x2000_0000_0000_0000, r.at + e % 0x2000_0000_0000_0000), v.items[i])
    ensures v.JObject? ==>
      && w[r.at] == |v.members|
      && exists order :: Permutes(order, |v.members|) && forall i :: 0 <= i < |v.members| ==>
           RecordHolds(dbl, w, text, r.at, hi, v.members, order[i], i)
  {
    if v.JInteger? {
      LowIntBits(w[r.at]);
    }
    if v.JObject? {
      var order :| StoredMembers(dbl, w, text, hi, r, v.members, order);
      forall i | 0 <= i < |v.members| ensures RecordHolds(dbl, w, text, r.at, hi, v.members, order[i], i) {
        assert Holds(text, GetObjectKey(w, r, i), v.members[order[i]].key, hi);
      }
    }
  }

  lemma LowIntBits(w: Word)
    ensures (w - LowInt(w)) % 0x1_0000_0000 == 0 && -0x8000_0000 <= LowInt(w) < 0x8000_0000
  {
  }

  /** The `i`-th record of an object at `at`: where its key starts and ends, and its value. */
  ghost predicate RecordHolds(dbl: seq<Byte> -> Word, w: seq<Word>, text: seq<Byte>, at: int, hi: int,
      members: seq<Member>, k: nat, i: nat)
  {
    && k < |members| && 0 <= at && at + 3 + 3 * i < |w|
    && 0 <= w[at + 1 + 3 * i] <= w[at + 2 + 3 * i] <= |text|
    && text[w[at + 1 + 3 * i]..w[at + 2 + 3 * i]] == members[k].key
    && var e := w[at + 3 + 3 * i];
       Stored(dbl, w, text, at + 1 + 3 * |members|, hi,
              Ref(e / 0x2000_0000_0000_0000, at + e % 0x2000_0000_0000_0000), members[k].value)
  }

  function Keys(members: seq<Member>): (k: seq<seq<Byte>>)
    ensures |k| == |members| && forall i :: 0 <= i < |k| ==> k[i] == members[i].key
  {
    seq(|members|, i requires 0 <= i < |members| => members[i].key)
  }

  ghost predicate StoredMembers(dbl: seq<Byte> -> Word, w: seq<Word>, text: seq<Byte>, hi: int, r: Ref,
      members: seq<Member>, order: seq<nat>)
    requires 0 <= r.at && r.at + 1 + 3 * |members| <= |w|
    decreases members
  {
    && Permutes(order, |members|) && SortedBy(Keys(members), order)
    && forall i :: 0 <= i < |members| ==>
         && Holds(text, GetObjectKey(w, r, i), members[order[i]].key, hi)
         && Stored(dbl, w, text, r.at + 1 + 3 * |members|, hi, GetObjectValue(w, r, i), members[order[i]].value)
  }

  /** Only words from `lo` up and text below `hi` matter. */
  lemma {:induction false} StoredFrame(dbl: seq<Byte> -> Word, w: seq<Word>, w': seq<Word>, text: seq<Byte>,
      text': seq<Byte>, lo: int, hi: int, lo': int, hi': int, r: Ref, v: JValue)
    requires Stored(dbl, w, text, lo, hi, r, v)
    requires |w'| == |w| && |text'| == |text| && 0 <= lo' <= lo && hi <= hi' <= |text|
    requires forall i :: lo <= i < |w| ==> w'[i] == w[i]
    requires forall i :: 0 <= i < hi && i < |text| ==> text'[i] == text[i]
    ensures Stored(dbl, w', text', lo', hi', r, v)
    decreases v
  {
    match v
    case JString(bytes) =>
      assert text'[w[r.at]..w[r.at + 1]] == text[w[r.at]..w[r.at + 1]];
    case JArray(items) =>
      forall i | 0 <= i < |items|
        ensures Stored(dbl, w', text', r.at + 1 + |items|, hi', GetArrayElement(w', r, i), items[i])
      {
        StoredFrame(dbl, w, w', text, text', r.at + 1 + |items|, hi, r.at + 1 + |items|, hi',
          GetArrayElement(w, r, i), items[i]);
      }
    case JObject(members) =>
      var order :| StoredMembers(dbl, w, text, hi, r, members, order);
      MembersFrame(dbl, w, w', text, text', hi, hi', r, members, order);
    case _ =>
  }

  lemma {:induction false} MembersFrame(dbl: seq<Byte> -> Word, w: seq<Word>, w': seq<Word>, text: seq<Byte>,
      text': seq<Byte>, hi: int, hi': int, r: Ref, members: seq<Member>, order: seq<nat>)
    requires 0 <= r.at && r.at + 1 + 3 * |members| <= |w| && StoredMembers(dbl, w, text, hi, r, members, order)
    requires |w'| == |w| && |text'| == |text| && hi <= hi' <= |text|
    requires forall i :: r.at <= i < |w| ==> w'[i] == w[i]
    requires forall i :: 0 <= i < hi && i < |text| ==> text'[i] == text[i]
    ensures StoredMembers(dbl, w', text', hi', r, members, order)
    decreases members
  {
    forall i | 0 <= i < |members|
      ensures Holds(text', GetObjectKey(w', r, i), members[order[i]].key, hi')
      ensures Stored(dbl, w', text', r.at + 1 + 3 * |members|, hi', GetObjectValue(w', r, i), members[order[i]].value)
    {
      var span := GetObjectKey(w, r, i);
      assert text'[span.0..span.1] == text[span.0..span.1];
      StoredFrame(dbl, w, w', text, text', r.at + 1 + 3 * |members|, hi, r.at + 1 + 3 * |members|, hi',
                  GetObjectValue(w, r, i), members[order[i]].value);
    }
  }

  /** The same tree, up to the order of the members of objects and the spelling of doubles. */
  ghost predicate Same(dbl: seq<Byte> -> Word, v: JValue, u: JValue)
    decreases v
  {
    match (v, u)
    case (JDouble(a), JDouble(b)) => dbl(a) == dbl(b)
    case (JArray(a), JArray(b)) => |a| == |b| && forall i :: 0 <= i < |a| ==> Same(dbl, a[i], b[i])
    case (JObject(a), JObject(b)) =>
      && |a| == |b|
      && exists order, order' ::
           Permutes(order, |a|) && Permutes(order', |a|) && SameMembers(dbl, a, b, order, order')
    case (_, _) => v == u
  }

  ghost predicate SameMembers(dbl: seq<Byte> -> Word, a: seq<Member>, b: seq<Member>, order: seq<nat>, order': seq<nat>)
    requires |a| == |b| && Permutes(order, |a|) && Permutes(order', |a|)
    decreases a
  {
    forall i :: 0 <= i < |a| ==>
      a[order[i]].key == b[order'[i]].key && Same(dbl, a[order[i]].value, b[order'[i]].value)
  }

  /** The words determine the tree: a walk yields no two. */
  lemma {:induction false} StoredUnique(dbl: seq<Byte> -> Word, w: seq<Word>, text: seq<Byte>, lo: int, hi: int,
      r: Ref, v: JValue, u: JValue)
    requires Stored(dbl, w, text, lo, hi, r, v) && Stored(dbl, w, text, lo, hi, r, u)
    ensures Same(dbl, v, u)
    decreases v
  {
    match v
    case JArray(a) =>
      forall i | 0 <= i < |a| ensures Same(dbl, a[i], u.items[i]) {
        StoredUnique(dbl, w, text, r.at + 1 + |a|, hi, GetArrayElement(w, r, i), a[i], u.items[i]);
      }
    case JObject(a) =>
      var b := u.members;
      var order :| StoredMembers(dbl, w, text, hi, r, a, order);
      var order' :| StoredMembers(dbl, w, text, hi, r, b, order');
      forall i | 0 <= i < |a|
        ensures a[order[i]].key == b[order'[i]].key && Same(dbl, a[order[i]].value, b[order'[i]].value)
      {
        assert Holds(text, GetObjectKey(w, r, i), a[order[i]].key, hi)
          && Holds(text, GetObjectKey(w, r, i), b[order'[i]].key, hi);
        StoredUnique(dbl, w, text, r.at + 1 + 3 * |a|, hi, GetObjectValue(w, r, i), a[order[i]].value,
          b[order'[i]].value);
      }
      assert SameMembers(dbl, a, b, order, order');
    case _ =>
  }

  /** The keys of a stored object, in stored order. */
  method ReadKeys(dbl: seq<Byte> -> Word, w: seq<Word>, text: seq<Byte>, r: Ref, ghost members: seq<Member>,
      ghost order: seq<nat>)
    returns (keys: seq<seq<Byte>>)
    requires 0 <= r.at && r.at + 1 + 3 * |members| <= |w| && w[r.at] == |members|
    requires StoredMembers(dbl, w, text, |text|, r, members, order)
    ensures |keys| == |members| && forall i :: 0 <= i < |keys| ==> keys[i] == members[order[i]].key
    ensures forall i, j :: 0 <= i < j < |keys| ==> !KeyLess(keys[j], keys[i])
  {
    keys := [];
    for i := 0 to w[r.at]
      invariant |keys| == i && forall j :: 0 <= j < i ==> keys[j] == members[order[j]].key
    {
      var span := GetObjectKey(w, r, i);
      assert Holds(text, span, members[order[i]].key, |text|);
      keys := keys + [text[span.0..span.1]];
    }
    forall i, j | 0 <= i < j < |keys| ensures !KeyLess(keys[j], keys[i]) {
      assert Keys(members)[order[i]] == keys[i] && Keys(members)[order[j]] == keys[j];
    }
  }

  /** A member of an object with this key. */
  ghost predicate HasKey(members: seq<Member>, query: seq<Byte>) {
    exists i :: 0 <= i < |members| && members[i].key == query
  }

  /**
    `find_object_key` on a stored object: the index of a member with that key if there is one,
    the length otherwise.
  */
  method FindObjectKey(dbl: seq<Byte> -> Word, w: seq<Word>, text: seq<Byte>, r: Ref, query: seq<Byte>,
                       ghost members: seq<Member>, ghost order: seq<nat>)
    returns (k: nat)
    requires 0 <= r.at && r.at + 1 + 3 * |members| <= |w| && w[r.at] == |members|
    requires StoredMembers(dbl, w, text, |text|, r, members, order)
    ensures k <= w[r.at]
    ensures k < w[r.at] <==> HasKey(members, query)
    ensures k < w[r.at] ==> Holds(text, GetObjectKey(w, r, k), query, |text|) && members[order[k]].key == query
  {
    var keys := ReadKeys(dbl, w, text, r, members, order);
    k := FindKey(keys, query);
    if k < |keys| {
      assert Holds(text, GetObjectKey(w, r, k), members[order[k]].key, |text|);
    } else {
      forall i | 0 <= i < |members| ensures members[i].key != query {
        assert i in order;
        var j :| 0 <= j < |order| && order[j] == i;
        assert keys[j] == members[i].key;
      }
    }
  }
}
