/** Digits as ASCII bytes, shared by the JSON and the digest components. */
module Hexadecimal {
  import opened Utf8

  predicate Digit(b: byte) {
    0x30 <= b <= 0x39
  }

  /** The number that decimal digits spell. */
  function Decimal(digits: seq<byte>): nat
    requires forall k :: 0 <= k < |digits| ==> Digit(digits[k])
  {
    if digits == [] then 0
    else
      assert Digit(digits[|digits| - 1]);
      Decimal(digits[..|digits| - 1]) * 10 + (digits[|digits| - 1] - 0x30)
  }

  predicate HexDigit(b: byte) {
    Digit(b) || 0x61 <= b <= 0x66 || 0x41 <= b <= 0x46
  }

  function HexValue(b: byte): (n: nat)
    requires HexDigit(b)
    ensures n < 16
  {
    if Digit(b) then b - 0x30 else if b >= 0x61 then b - 0x61 + 10 else b - 0x41 + 10
  }

  /** The lowercase digit. */
  function HexLetter(n: nat): byte
    requires n < 16
  {
    if n < 10 then 0x30 + n else 0x61 + n - 10
  }
}
