/** Decimal text of integers, printed and parsed as `builtin.c` does. */
module DecimalText {
  import opened Bytes

  // ---------------------------------------------------------------- printing

  /** The decimal numeral of `n`, without leading zeros. */
  function Digits(n: nat): (d: seq<Byte>)
    ensures d != []
  {
    if n < 10 then [0x30 + n] else Digits(n / 10) + [0x30 + n % 10]
  }

  predicate AllDigits(s: seq<Byte>) {
    forall i :: 0 <= i < |s| ==> IsDigit(s[i])
  }

  lemma {:induction false} DigitsValue(n: nat)
    ensures AllDigits(Digits(n)) && Decimal(Digits(n)) == n
    ensures Digits(n)[0] == 0x30 <==> n == 0
  {
    var d := Digits(n);
    assert Decimal([]) == 0;
    if n < 10 {
      assert d[..0] == [];
    } else {
      DigitsValue(n / 10);
      assert d[..|d| - 1] == Digits(n / 10);
    }
  }

  function Pow10(k: nat): nat {
    if k == 0 then 1 else 10 * Pow10(k - 1)
  }

  lemma {:induction false} DigitsLength(n: nat, k: nat)
    requires k > 0 && n < Pow10(k)
    ensures |Digits(n)| <= k
  {
    if n >= 10 {
      assert k > 1;
      DigitsLength(n / 10, k - 1);
    }
  }

  /** The digits still to be written, lowest first. */
  function Little(n: nat): seq<Byte> {
    if n == 0 then [] else [0x30 + n % 10] + Little(n / 10)
  }

  function Reverse(s: seq<Byte>): (r: seq<Byte>)
    ensures |r| == |s| && forall i :: 0 <= i < |s| ==> r[i] == s[|s| - 1 - i]
  {
    seq(|s|, i requires 0 <= i < |s| => s[|s| - 1 - i])
  }

  lemma {:induction false} LittleIsReverse(n: nat)
    ensures [0x30 + n % 10] + Little(n / 10) == Reverse(Digits(n))
  {
    if n >= 10 {
      LittleIsReverse(n / 10);
      assert Little(n / 10) == Reverse(Digits(n / 10));
    }
  }

  /** What a buffer of `len` bytes shows of `u`: its last `len` digits, filled up with zeros on request. */
  function Shown(u: nat, len: nat, pad: bool): seq<Byte> {
    var d := Digits(u);
    if |d| >= len then d[|d| - len..]
    else if pad then Zeros(len - |d|) + d
    else d
  }

  function Zeros(n: nat): (z: seq<Byte>)
    ensures |z| == n && forall i :: 0 <= i < n ==> z[i] == 0x30
  {
    seq(n, _ => 0x30)
  }

  /** 305 in a wide buffer, in one of two digits, and filled up to five. */
  lemma ShownExample()
    ensures Shown(305, 10, false) == [0x33, 0x30, 0x35] && Shown(305, 2, false) == [0x30, 0x35]
    ensures Shown(305, 5, true) == [0x30, 0x30, 0x33, 0x30, 0x35]
  {
    ThreeDigits();
    hide Digits;
    assert [0x33, 0x30, 0x35][1..] == [0x30, 0x35] && Zeros(2) == [0x30, 0x30];
  }

  lemma ThreeDigits()
    ensures Digits(305) == [0x33, 0x30, 0x35]
  {
    assert Digits(3) == [0x33] && Digits(30) == Digits(3) + [0x30] && Digits(305) == Digits(30) + [0x35];
  }

  /** Digits of `u` from the lowest up, as many as fit. */
  method WriteLittle(u: nat, str: array<Byte>, len: nat) returns (p: nat)
    requires 0 < len <= str.Length
    modifies str
    ensures p <= len && p <= |Digits(u)| && (p < len ==> p == |Digits(u)|)
    ensures str[..p] == Reverse(Digits(u))[..p]
  {
    ghost var all := Reverse(Digits(u));
    LittleIsReverse(u);
    str[0] := 0x30 + u % 10;
    p := 1;
    var n: nat := u / 10;
    while n / 10 > 0 && p < len
      invariant 1 <= p <= len && all == str[..p] + Little(n)
    {
      str[p] := 0x30 + n % 10;
      assert str[..p + 1] == str[..p] + [0x30 + n % 10];
      p := p + 1;
      n := n / 10;
    }
    if p < len && n > 0 {
      assert Little(n) == [0x30 + n];
      str[p] := 0x30 + n;
      assert str[..p + 1] == str[..p] + [0x30 + n];
      p := p + 1;
    }
  }

  /** The swap loop over the first `p` bytes. */
  method ReverseFirst(str: array<Byte>, p: nat)
    requires p <= str.Length
    modifies str
    ensures str[..p] == Reverse(old(str[..p]))
  {
    var i, j := 0, p;
    while i < j
      invariant 0 <= i <= p && i <= j + 1 && i + j == p
      invariant forall k :: 0 <= k < i ==> str[k] == old(str[..])[p - 1 - k] && str[p - 1 - k] == old(str[..])[k]
      invariant forall k :: i <= k < j ==> str[k] == old(str[..])[k]
    {
      j := j - 1;
      str[i], str[j] := str[j], str[i];
      i := i + 1;
    }
  }

  /** Low digits first, then zeros: turned round they are what the buffer should show. */
  lemma ShownReversed(u: nat, len: nat, pad: bool, q: nat, p: nat)
    requires q <= |Digits(u)| && q <= p <= len && (q < len ==> q == |Digits(u)|)
    requires p == if pad then len else q
    ensures Reverse(Reverse(Digits(u))[..q] + Zeros(p - q)) == Shown(u, len, pad)
  {
    hide Digits;
    var d := Digits(u);
    ReversedTwice(d, q, p - q);
    if q < p {
      assert d[|d| - q..] == d;
    }
  }

  lemma ReversedTwice(d: seq<Byte>, q: nat, zeros: nat)
    requires q <= |d|
    ensures Reverse(Reverse(d)[..q] + Zeros(zeros)) == Zeros(zeros) + d[|d| - q..]
  {
  }

  /** `uint_to_strdec`: the numeral, cut to the lowest `len` digits when it is longer. */
  method UintToStrdec(u: nat, str: array<Byte>, len: nat, pad: bool) returns (r: nat)
    requires len <= str.Length
    modifies str
    ensures r <= len && str[..r] == Shown(u, len, pad)
  {
    r := len;
    if len == 0 {
      assert str[..0] == Shown(u, 0, pad);
      return;
    }
    var p := WriteLittle(u, str, len);
    ghost var q, d := p, Digits(u);
    if pad {
      while p < len
        invariant q <= p <= len && (p > q ==> q == |d|)
        invariant str[..q] == Reverse(d)[..q]
        invariant forall k :: q <= k < p ==> str[k] == 0x30
      {
        str[p] := 0x30;
        p := p + 1;
      }
    }
    r := p;
    assert str[..p] == Reverse(d)[..q] + Zeros(p - q);
    ShownReversed(u, len, pad, q, p);
    ReverseFirst(str, p);
  }

  // ---------------------------------------------------------------- parsing

  datatype Parsed = Value(v: int) | Invalid | OutOfRange

  const WRAP := 0x1_0000_0000_0000_0000

  /** `isspace` in the C locale. */
  predicate IsSpace(b: Byte) {
    b == 0x20 || 0x09 <= b <= 0x0D
  }

  /** A text up to its NUL, if it has one. */
  predicate EndsAt(s: seq<Byte>, p: nat) {
    p >= |s| || s[p] == 0
  }

  function SkipSpaces(s: seq<Byte>, p: nat): (q: nat)
    requires p <= |s|
    ensures p <= q <= |s|
    decreases |s| - p
  {
    if p < |s| && IsSpace(s[p]) then SkipSpaces(s, p + 1) else p
  }

  /** The digit loop from `p` on: the accumulator is 64 bits wide and wraps. */
  function Accumulate(s: seq<Byte>, p: nat, val: nat, limit: nat): (r: Parsed)
    requires p <= |s|
    ensures r.Value? ==> r.v >= 0 && (val <= limit ==> r.v <= limit)
    decreases |s| - p
  {
    if EndsAt(s, p) || IsSpace(s[p]) then Value(val)
    else if !IsDigit(s[p]) then Invalid
    else
      var next := (val * 10 + (s[p] as int - 0x30)) % WRAP;
      if next > limit then OutOfRange else Accumulate(s, p + 1, next, limit)
  }

  function ParseUnsigned(s: seq<Byte>, limit: nat): (r: Parsed)
    ensures r.Value? ==> 0 <= r.v <= limit
  {
    Accumulate(s, SkipSpaces(s, 0), 0, limit)
  }

  function ParseSigned(s: seq<Byte>, limit: nat): (r: Parsed)
    ensures r.Value? ==> -(limit as int) <= r.v <= limit
  {
    var p := SkipSpaces(s, 0);
    if p < |s| && s[p] == 0x2D then
      match Accumulate(s, p + 1, 0, limit)
      case Value(v) => Value(-v)
      case e => e
    else Accumulate(s, p, 0, limit)
  }

  /** White space before a number does not matter, and white space or a NUL ends it. */
  lemma BlanksAround(b: Byte, s: seq<Byte>, limit: nat)
    requires b in {0x20, 0x09, 0x0A, 0x0B, 0x0C, 0x0D}
    ensures ParseUnsigned([b] + s, limit) == ParseUnsigned(s, limit)
    ensures limit >= 7 ==> ParseUnsigned([0x37, b] + s, limit) == ParseUnsigned([0x37, 0] + s, limit) == Value(7)
  {
    SkipShifts(b, s, 0);
    AccumulateShifts(b, s, SkipSpaces(s, 0), 0, limit);
    if limit >= 7 {
      OneDigitEnds([0x37, b] + s, limit);
      OneDigitEnds([0x37, 0] + s, limit);
    }
  }

  lemma OneDigitEnds(t: seq<Byte>, limit: nat)
    requires |t| > 1 && t[0] == 0x37 && (IsSpace(t[1]) || t[1] == 0) && limit >= 7
    ensures ParseUnsigned(t, limit) == Value(7)
  {
    assert SkipSpaces(t, 0) == 0 && Accumulate(t, 1, 7, limit) == Value(7);
  }

  lemma {:induction false} SkipShifts(b: Byte, s: seq<Byte>, p: nat)
    requires p <= |s|
    ensures SkipSpaces([b] + s, p + 1) == SkipSpaces(s, p) + 1
    decreases |s| - p
  {
    if p < |s| && IsSpace(s[p]) {
      SkipShifts(b, s, p + 1);
    }
  }

  lemma {:induction false} AccumulateShifts(b: Byte, s: seq<Byte>, p: nat, val: nat, limit: nat)
    requires p <= |s|
    ensures Accumulate([b] + s, p + 1, val, limit) == Accumulate(s, p, val, limit)
    decreases |s| - p
  {
    if p < |s| && IsDigit(s[p]) {
      AccumulateShifts(b, s, p + 1, (val * 10 + (s[p] as int - 0x30)) % WRAP, limit);
    }
  }

  /** `string_to_int16` and the like narrow what the wider parser gave. */
  function Narrow(r: Parsed, lo: int, hi: int): Parsed {
    if r.Value? && !(lo <= r.v <= hi) then OutOfRange else r
  }

  method StringToUnsigned(s: seq<Byte>, limit: nat) returns (r: Parsed)
    ensures r == ParseUnsigned(s, limit)
  {
    var p := 0;
    while p < |s| && IsSpace(s[p])
      invariant p <= |s| && SkipSpaces(s, p) == SkipSpaces(s, 0)
    {
      p := p + 1;
    }
    r := DigitLoop(s, p, limit);
  }

  method StringToSigned(s: seq<Byte>, limit: nat) returns (r: Parsed)
    ensures r == ParseSigned(s, limit)
  {
    var p := 0;
    while p < |s| && IsSpace(s[p])
      invariant p <= |s| && SkipSpaces(s, p) == SkipSpaces(s, 0)
    {
      p := p + 1;
    }
    var negative := p < |s| && s[p] == 0x2D;
    if negative {
      p := p + 1;
    }
    r := DigitLoop(s, p, limit);
    if negative && r.Value? {
      r := Value(-r.v);
    }
  }

  method DigitLoop(s: seq<Byte>, from: nat, limit: nat) returns (r: Parsed)
    requires from <= |s|
    ensures r == Accumulate(s, from, 0, limit)
  {
    var p, val: nat := from, 0;
    while p < |s| && s[p] != 0 && !IsSpace(s[p])
      invariant from <= p <= |s| && Accumulate(s, p, val, limit) == Accumulate(s, from, 0, limit)
    {
      if !IsDigit(s[p]) {
        return Invalid;
      }
      var next := (val * 10 + (s[p] as int - 0x30)) % WRAP;
      if next > limit {
        return OutOfRange;
      }
      val, p := next, p + 1;
    }
    r := Value(val);
  }

  // ---------------------------------------------------------------- what the parser means

  /** The digits read so far stand for `val`. */
  ghost predicate Prefix(d: seq<Byte>, p: nat, val: nat) {
    p <= |d| && AllDigits(d) && AllDigits(d[..p]) && Decimal(d[..p]) == val
  }

  lemma PrefixStep(d: seq<Byte>, p: nat, val: nat)
    requires Prefix(d, p, val) && p < |d|
    ensures Prefix(d, p + 1, val * 10 + (d[p] as int - 0x30))
  {
    assert d[..p + 1][..p] == d[..p];
  }

  lemma {:induction false} PrefixGrows(d: seq<Byte>, p: nat)
    requires p <= |d| && AllDigits(d)
    ensures Decimal(d[..p]) <= Decimal(d)
    decreases |d| - p
  {
    if p < |d| {
      PrefixStep(d, p, Decimal(d[..p]));
      PrefixGrows(d, p + 1);
    } else {
      assert d[..p] == d;
    }
  }

  lemma AccumulateStep(s: seq<Byte>, p: nat, val: nat, limit: nat)
    requires p < |s| && IsDigit(s[p]) && val * 10 + (s[p] as int - 0x30) < WRAP
    ensures
      var next := val * 10 + (s[p] as int - 0x30);
      Accumulate(s, p, val, limit) == if next > limit then OutOfRange else Accumulate(s, p + 1, next, limit)
  {
  }

  lemma AccumulateEnd(s: seq<Byte>, val: nat, limit: nat)
    ensures Accumulate(s, |s|, val, limit) == Value(val)
  {
  }

  /** Text that stands for a number within the limit parses to it, whatever its length. */
  lemma {:induction false} AccumulateValue(s: seq<Byte>, from: nat, p: nat, val: nat, limit: nat)
    requires from + p <= |s| && Prefix(s[from..], p, val)
    requires Decimal(s[from..]) <= limit < WRAP
    ensures Accumulate(s, from + p, val, limit) == Value(Decimal(s[from..]))
    decreases |s| - p
  {
    hide Accumulate, Decimal;
    var d := s[from..];
    if p < |d| {
      assert IsDigit(d[p]) && d[p] == s[from + p];
      PrefixStep(d, p, val);
      PrefixGrows(d, p + 1);
      AccumulateStep(s, from + p, val, limit);
      AccumulateValue(s, from, p + 1, val * 10 + (d[p] as int - 0x30), limit);
    } else {
      assert d[..p] == d;
      AccumulateEnd(s, val, limit);
    }
  }

  /** Fewer than twenty digits cannot wrap the accumulator, nor can any number under a limit well below 64 bits. */
  predicate CannotWrap(digits: nat, limit: nat) {
    limit * 10 + 9 < WRAP || digits <= 19
  }

  lemma {:induction false} DecimalBelow(d: seq<Byte>)
    requires AllDigits(d)
    ensures Decimal(d) < Pow10(|d|)
  {
    if d != [] {
      assert IsDigit(d[|d| - 1]);
      DecimalBelow(d[..|d| - 1]);
    }
  }

  lemma {:induction false} PowMonotone(j: nat, k: nat)
    requires j <= k
    ensures 1 <= Pow10(j) <= Pow10(k)
  {
    if j < k {
      PowMonotone(j, k - 1);
    } else if k > 0 {
      PowMonotone(k - 1, k - 1);
    }
  }

  lemma PowNineteen()
    ensures Pow10(19) == 10_000_000_000_000_000_000
  {
    assert Pow10(4) == 10000;
    assert Pow10(8) == 10000 * Pow10(4);
    assert Pow10(12) == 10000 * Pow10(8);
    assert Pow10(16) == 10000 * Pow10(12);
    assert Pow10(19) == 1000 * Pow10(16);
  }

  /** Each step stays below the wrap. */
  lemma NoWrap(d: seq<Byte>, p: nat, val: nat, limit: nat)
    requires Prefix(d, p, val) && p < |d| && val <= limit && CannotWrap(|d|, limit)
    ensures val * 10 + (d[p] as int - 0x30) < WRAP
  {
    assert IsDigit(d[p]);
    if |d| <= 19 {
      PrefixStep(d, p, val);
      DecimalBelow(d[..p + 1]);
      PowMonotone(p + 1, 19);
      PowNineteen();
    }
  }

  lemma {:induction false} AccumulateTooLarge(s: seq<Byte>, from: nat, p: nat, val: nat, limit: nat)
    requires from + p <= |s| && Prefix(s[from..], p, val) && val <= limit < Decimal(s[from..])
    requires CannotWrap(|s| - from, limit)
    ensures Accumulate(s, from + p, val, limit) == OutOfRange
    decreases |s| - p
  {
    hide Accumulate, Decimal;
    var d := s[from..];
    assert d[..|d|] == d;
    if p < |d| {
      assert IsDigit(d[p]) && d[p] == s[from + p];
      PrefixStep(d, p, val);
      NoWrap(d, p, val, limit);
      AccumulateStep(s, from + p, val, limit);
      var next := val * 10 + (d[p] as int - 0x30);
      if next <= limit {
        AccumulateTooLarge(s, from, p + 1, next, limit);
      }
    }
  }

  lemma NothingSkipped(s: seq<Byte>)
    requires s == [] || !IsSpace(s[0])
    ensures SkipSpaces(s, 0) == 0
  {
  }

  /** A run of digits parses to its value exactly when that is within the limit, wherever wrapping is excluded. */
  lemma ParseMeaning(s: seq<Byte>, limit: nat)
    requires AllDigits(s) && limit < WRAP && CannotWrap(|s|, limit)
    ensures ParseUnsigned(s, limit) == if Decimal(s) <= limit then Value(Decimal(s)) else OutOfRange
    ensures ParseSigned(s, limit) == ParseUnsigned(s, limit)
  {
    assert s[0..] == s && s[..0] == [] && Decimal([]) == 0;
    if s != [] {
      assert IsDigit(s[0]);
    }
    NothingSkipped(s);
    if Decimal(s) <= limit {
      AccumulateValue(s, 0, 0, 0, limit);
    } else {
      AccumulateTooLarge(s, 0, 0, 0, limit);
    }
  }

  /** A word: no space, no NUL. */
  predicate IsWord(s: seq<Byte>) {
    forall i :: 0 <= i < |s| ==> !IsSpace(s[i]) && s[i] != 0
  }

  /** Of words only runs of digits parse as unsigned numbers; the empty word is 0. */
  lemma OnlyDigitsParse(s: seq<Byte>, limit: nat)
    requires IsWord(s) && ParseUnsigned(s, limit).Value?
    ensures AllDigits(s)
  {
    NothingSkipped(s);
    DigitsFrom(s, 0, 0, limit);
  }

  lemma {:induction false} DigitsFrom(s: seq<Byte>, p: nat, val: nat, limit: nat)
    requires IsWord(s) && p <= |s| && Accumulate(s, p, val, limit).Value?
    ensures forall i :: p <= i < |s| ==> IsDigit(s[i])
    decreases |s| - p
  {
    if p < |s| {
      DigitsFrom(s, p + 1, (val * 10 + (s[p] as int - 0x30)) % WRAP, limit);
    }
  }

  /** Reading on is the same from any prefix that stays within the limit. */
  lemma {:induction false} AccumulateUpTo(s: seq<Byte>, k: nat, p: nat, val: nat, limit: nat)
    requires p <= k <= |s| && Prefix(s[..k], p, val) && Decimal(s[..k]) <= limit < WRAP
    ensures Accumulate(s, p, val, limit) == Accumulate(s, k, Decimal(s[..k]), limit)
    decreases k - p
  {
    hide Accumulate, Decimal;
    var d := s[..k];
    if p < k {
      assert IsDigit(d[p]) && d[p] == s[p];
      PrefixStep(d, p, val);
      PrefixGrows(d, p + 1);
      AccumulateStep(s, p, val, limit);
      AccumulateUpTo(s, k, p + 1, val * 10 + (d[p] as int - 0x30), limit);
    } else {
      assert d[..p] == d;
    }
  }

  /** Some prefix of the digits is past the limit modulo 2^64. */
  ghost predicate GoesOver(s: seq<Byte>, limit: nat)
    requires AllDigits(s)
  {
    exists p :: 0 < p <= |s| && PrefixValue(s, p) % WRAP > limit
  }

  /** The value of the first `p` digits. */
  function PrefixValue(s: seq<Byte>, p: nat): nat
    requires p <= |s| && AllDigits(s)
  {
    Decimal(s[..p])
  }

  lemma PrefixValueStep(s: seq<Byte>, p: nat)
    requires p < |s| && AllDigits(s)
    ensures PrefixValue(s, p + 1) == 10 * PrefixValue(s, p) + (s[p] as int - 0x30)
  {
    assert s[..p + 1][..p] == s[..p];
  }

  /** The accumulator is the value so far modulo 2^64. */
  lemma ModStep(v: nat, d: nat)
    ensures (v % WRAP * 10 + d) % WRAP == (10 * v + d) % WRAP
  {
    var k, r := v / WRAP, v % WRAP;
    assert 10 * v + d == WRAP * (10 * k) + (10 * r + d);
    ModPlus(10 * k, 10 * r + d);
  }

  lemma {:induction false} ModPlus(m: nat, x: nat)
    ensures (WRAP * m + x) % WRAP == x % WRAP
  {
    if m > 0 {
      ModPlus(m - 1, x);
      assert WRAP * m + x == (WRAP * (m - 1) + x) + WRAP;
    }
  }

  lemma {:induction false} AccumulateExactly(s: seq<Byte>, p: nat, limit: nat)
    requires p <= |s| && AllDigits(s)
    ensures Accumulate(s, p, PrefixValue(s, p) % WRAP, limit) ==
            if exists q :: p < q <= |s| && PrefixValue(s, q) % WRAP > limit then OutOfRange
            else Value(Decimal(s) % WRAP)
    decreases |s| - p
  {
    hide PrefixValue;
    if p < |s| {
      assert IsDigit(s[p]);
      var d := s[p] as int - 0x30;
      PrefixValueStep(s, p);
      ModStep(PrefixValue(s, p), d);
      var next := PrefixValue(s, p + 1) % WRAP;
      if next <= limit {
        AccumulateExactly(s, p + 1, limit);
        assert forall q :: p < q <= |s| && PrefixValue(s, q) % WRAP > limit ==> q != p + 1;
      }
    } else {
      WholeValue(s);
      AccumulateEnd(s, PrefixValue(s, p) % WRAP, limit);
    }
  }

  lemma WholeValue(s: seq<Byte>)
    requires AllDigits(s)
    ensures PrefixValue(s, |s|) == Decimal(s) && PrefixValue(s, 0) == 0
  {
    assert s[..|s|] == s && s[..0] == [] && Decimal([]) == 0;
  }

  /**
    What the parser makes of digits, of any length and for any limit: a range error if and only if
    some prefix is past the limit modulo 2^64, otherwise the value modulo 2^64.
  */
  lemma ParseExactly(s: seq<Byte>, limit: nat)
    requires AllDigits(s)
    ensures ParseUnsigned(s, limit) == if GoesOver(s, limit) then OutOfRange else Value(Decimal(s) % WRAP)
    ensures ParseSigned(s, limit) == ParseUnsigned(s, limit)
  {
    hide Accumulate;
    if s != [] {
      assert IsDigit(s[0]);
    }
    NothingSkipped(s);
    WholeValue(s);
    AccumulateExactly(s, 0, limit);
  }

  /** The parser's answer is right: the value if it is within the limit, a range error otherwise. */
  predicate Right(s: seq<Byte>, limit: nat)
    requires AllDigits(s)
  {
    ParseSigned(s, limit) == if Decimal(s) <= limit then Value(Decimal(s)) else OutOfRange
  }

  /** It is right if and only if the value is within the limit or some prefix is past it modulo 2^64. */
  lemma RightExactly(s: seq<Byte>, limit: nat)
    requires AllDigits(s) && limit < WRAP
    ensures Right(s, limit) <==> Decimal(s) <= limit || GoesOver(s, limit)
  {
    hide PrefixValue;
    ParseExactly(s, limit);
    if Decimal(s) <= limit {
      forall p | 0 < p <= |s| ensures PrefixValue(s, p) % WRAP <= limit {
        PrefixWithin(s, p);
      }
    }
  }

  lemma PrefixWithin(s: seq<Byte>, p: nat)
    requires p <= |s| && AllDigits(s)
    ensures PrefixValue(s, p) <= Decimal(s)
  {
    PrefixGrows(s, p);
  }

  /**
    `string_to_int64` on up to twenty significant digits: right exactly when the number fits, or already
    does not fit without its last digit, or does not fit modulo 2^64.
  */
  lemma TwentyDigits(s: seq<Byte>)
    requires AllDigits(s) && Decimal(s) < Pow10(20)
    ensures
      var n := Decimal(s);
      Right(s, INT64_MAX) <==> n <= INT64_MAX || n / 10 > INT64_MAX || n % WRAP > INT64_MAX
  {
    hide PrefixValue, Right, Decimal;
    var n := Decimal(s);
    RightExactly(s, INT64_MAX);
    WholeValue(s);
    if s != [] {
      assert IsDigit(s[|s| - 1]);
      PrefixValueStep(s, |s| - 1);
      var tenth := PrefixValue(s, |s| - 1);
      assert tenth == n / 10;
      PowNineteen();
      assert Pow10(20) == 10 * Pow10(19);
      assert tenth % WRAP == tenth;
      assert 0 < |s| - 1 || tenth == 0;
      forall p | 0 < p < |s| - 1 ensures PrefixValue(s, p) % WRAP <= INT64_MAX {
        ShortPrefix(s, p);
      }
    }
  }

  /** All but the last two digits of at most twenty are far below the limit. */
  lemma ShortPrefix(s: seq<Byte>, p: nat)
    requires AllDigits(s) && p + 1 < |s| && Decimal(s) < Pow10(20)
    ensures PrefixValue(s, p) <= INT64_MAX
  {
    hide PrefixValue, Decimal;
    assert IsDigit(s[p]) && IsDigit(s[p + 1]);
    PrefixValueStep(s, p);
    PrefixValueStep(s, p + 1);
    PrefixWithin(s, p + 2);
    PowNineteen();
    assert Pow10(20) == 10 * Pow10(19);
  }

  /** `string_to_int64` takes 2^64 for 0. */
  lemma LongNumeralWraps()
    ensures ParseSigned(Digits(0x1_0000_0000_0000_0000), INT64_MAX) == Value(0)
  {
    hide Digits, Decimal;
    var n := 0x1_0000_0000_0000_0000;
    var s := Digits(n);
    DigitsValue(n);
    ParseExactly(s, INT64_MAX);
    RightExactly(s, INT64_MAX);
    PowNineteen();
    assert Pow10(20) == 10 * Pow10(19);
    TwentyDigits(s);
  }

  // ---------------------------------------------------------------- round trips

  const INT64_MAX := 0x7FFF_FFFF_FFFF_FFFF

  lemma NineteenDigits(n: nat)
    requires n <= INT64_MAX + 1
    ensures |Digits(n)| <= 19
  {
    PowNineteen();
    DigitsLength(n, 19);
  }

  function SignedText(n: int): seq<Byte> {
    if n < 0 then [0x2D] + Digits(-n) else Digits(n)
  }

  lemma UnsignedRoundTrip(n: nat, limit: nat)
    requires n <= limit < WRAP
    ensures ParseUnsigned(Digits(n), limit) == Value(n)
  {
    var s := Digits(n);
    DigitsValue(n);
    assert s[0..] == s && s[..0] == [] && Decimal([]) == 0;
    assert IsDigit(s[0]);
    NothingSkipped(s);
    AccumulateValue(s, 0, 0, 0, limit);
  }

  lemma SignedRoundTrip(n: int, limit: nat)
    requires 0 - limit <= n <= limit < WRAP
    ensures ParseSigned(SignedText(n), limit) == Value(n)
  {
    var s := SignedText(n);
    var m := if n < 0 then -n else n;
    var from := if n < 0 then 1 else 0;
    DigitsValue(m);
    assert s[from..] == Digits(m) && s[from..][..0] == [] && Decimal([]) == 0;
    assert IsDigit(Digits(m)[0]);
    NothingSkipped(s);
    AccumulateValue(s, from, 0, 0, limit);
  }

  /**
    Over the two's complement range of a 32-bit or 64-bit type printing and parsing is the identity exactly
    on what is not the minimum: the limit is checked before the sign is applied.
  */
  lemma SignedRoundTripExactly(n: int, limit: nat)
    requires 0 - limit - 1 <= n <= limit < WRAP - 1 && (limit * 10 + 9 < WRAP || limit == INT64_MAX)
    ensures ParseSigned(SignedText(n), limit) == Value(n) <==> n != 0 - limit - 1
  {
    hide ParseSigned, SignedText;
    if n != 0 - limit - 1 {
      SignedRoundTrip(n, limit);
    } else {
      MinimumRefused(limit);
    }
  }

  /** Where wrapping is excluded, every number outside the limit is refused. */
  lemma SignedMeaning(n: int, limit: nat)
    requires limit * 10 + 9 < WRAP
    ensures ParseSigned(SignedText(n), limit) == if 0 - limit <= n <= limit then Value(n) else OutOfRange
  {
    if 0 - limit <= n <= limit {
      SignedRoundTrip(n, limit);
    } else {
      hide Accumulate, Digits;
      var m := if n < 0 then -n else n;
      var from := if n < 0 then 1 else 0;
      var d, s := Digits(m), SignedText(n);
      DigitsValue(m);
      assert s[from..] == d && d[..0] == [] && Decimal([]) == 0;
      assert IsDigit(d[0]);
      NothingSkipped(s);
      AccumulateTooLarge(s, from, 0, 0, limit);
    }
  }

  lemma MinimumRefused(limit: nat)
    requires limit < WRAP - 1 && (limit * 10 + 9 < WRAP || limit == INT64_MAX)
    ensures ParseSigned(SignedText(0 - limit - 1), limit) == OutOfRange
  {
    hide Accumulate, Digits;
    var d := Digits(limit + 1);
    var s := SignedText(0 - limit - 1);
    DigitsValue(limit + 1);
    if limit == INT64_MAX {
      NineteenDigits(limit + 1);
    }
    assert s[1..] == d && d[..0] == [] && Decimal([]) == 0;
    NothingSkipped(s);
    AccumulateTooLarge(s, 1, 0, 0, limit);
  }
}
