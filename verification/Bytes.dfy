module Options {
  datatype Option<+T> = None | Some(value: T)
}

/** Bytes and digits. */
module Bytes {
  import opened Options

  type Byte = b: int | 0 <= b < 0x100

  predicate IsDigit(b: Byte) { 0x30 <= b <= 0x39 }

  /** The value of a hexadecimal digit. */
  function HexDigit(b: Byte): Option<nat> {
    if 0x30 <= b <= 0x39 then Some(b - 0x30)
    else if 0x61 <= b <= 0x66 then Some(b - 0x61 + 10)
    else if 0x41 <= b <= 0x46 then Some(b - 0x41 + 10)
    else None
  }

  /** The digit a sender writes for a value, in either case. */
  function HexOctet(d: nat, capital: bool): Byte
    requires d < 16
  {
    if d < 10 then 0x30 + d else if capital then 0x41 + (d - 10) else 0x61 + (d - 10)
  }

  /** A byte is a digit of value `d` exactly if it is what a sender writes for it in one of the cases. */
  lemma HexDigitExactly(b: Byte, d: nat)
    requires d < 16
    ensures HexDigit(b) == Some(d) <==> b == HexOctet(d, false) || b == HexOctet(d, true)
  {
  }

  /** The decimal value of a run of digits. */
  function Decimal(d: seq<Byte>): nat
    requires forall i :: 0 <= i < |d| ==> IsDigit(d[i])
  {
    if d == [] then 0 else
      assert IsDigit(d[|d| - 1]);
      10 * Decimal(d[..|d| - 1]) + (d[|d| - 1] as int - 0x30)
  }

  /** The first of several digits counts for most: 2024 is 2 * 1000 + 24. */
  lemma DecimalExample()
    ensures Decimal([0x32, 0x30, 0x32, 0x34]) == 2024
  {
    var d: seq<Byte> := [0x32, 0x30, 0x32, 0x34];
    assert d[..3] == [0x32, 0x30, 0x32] && d[..3][..2] == [0x32, 0x30] && d[..3][..2][..1] == [0x32];
    assert Decimal([0x32]) == 2 && Decimal([0x32, 0x30]) == 20 && Decimal([0x32, 0x30, 0x32]) == 202;
  }
}
