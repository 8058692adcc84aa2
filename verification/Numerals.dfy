/** Decimal numerals in text, and reading them back. */
module Numerals {

  predicate IsDigit(c: char) {
    '0' <= c <= '9'
  }

  function Numeral(n: nat): string {
    if n < 10 then [('0' as int + n) as char] else Numeral(n / 10) + [('0' as int + n % 10) as char]
  }

  /** Read leading digits onto `value`; what follows them is left. */
  function ReadDigits(s: string, value: nat): (r: (nat, string))
    ensures |r.1| <= |s|
  {
    if s == "" || !IsDigit(s[0]) then (value, s)
    else ReadDigits(s[1..], 10 * value + (s[0] as int - '0' as int))
  }

  lemma {:induction false} NumeralReads(n: nat, rest: string)
    ensures Numeral(n) != "" && IsDigit((Numeral(n) + rest)[0])
    ensures ReadDigits(Numeral(n) + rest, 0) == ReadDigits(rest, n)
  {
    if n < 10 {
      assert (Numeral(n) + rest)[1..] == rest;
    } else {
      var d := ('0' as int + n % 10) as char;
      NumeralReads(n / 10, [d] + rest);
      assert Numeral(n) + rest == Numeral(n / 10) + ([d] + rest);
      assert ([d] + rest)[1..] == rest;
    }
  }
}
