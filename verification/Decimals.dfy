/** Bytes, and the decimal numerals that frame them. */
module Decimals {

  type byte = b: int | 0 <= b < 256

  type Bytes = seq<byte>

  predicate IsDigit(b: byte) {
    48 <= b <= 57
  }

  function Digit(d: nat): byte
    requires d < 10
  {
    48 + d
  }

  function Decimal(n: nat): (s: Bytes)
    ensures |s| > 0 && forall i :: 0 <= i < |s| ==> IsDigit(s[i])
  {
    if n < 10 then [Digit(n)] else Decimal(n / 10) + [Digit(n % 10)]
  }

  /** Read leading digits onto `value`; what follows them is left. */
  function ReadDigits(s: Bytes, value: nat): (nat, Bytes) {
    if s == [] || !IsDigit(s[0]) then (value, s) else ReadDigits(s[1..], 10 * value + (s[0] - 48))
  }

  lemma {:induction false} DecimalReads(n: nat, rest: Bytes)
    ensures ReadDigits(Decimal(n) + rest, 0) == ReadDigits(rest, n)
  {
    if n < 10 {
      assert (Decimal(n) + rest)[1..] == rest;
    } else {
      var d := Digit(n % 10);
      DecimalReads(n / 10, [d] + rest);
      assert Decimal(n) + rest == Decimal(n / 10) + ([d] + rest);
      assert ([d] + rest)[1..] == rest;
    }
  }
}
