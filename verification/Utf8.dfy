/** `Buffer.toString('utf8')`: decoding in which every ill-formed stretch becomes one replacement
    character, the longest stretch that begins a character being taken as one, as in section 3.9 of the
    Unicode Standard. */
module Utf8 {
  import opened Decimals

  const REPLACEMENT: char := '\U{FFFD}'

  function Encode(c: char): (s: Bytes)
    ensures 1 <= |s| <= 4
  {
    var n := c as int;
    if n < 0x80 then [n]
    else if n < 0x800 then [0xC0 + n / 64, 0x80 + n % 64]
    else if n < 0x10000 then [0xE0 + n / 4096, 0x80 + n / 64 % 64, 0x80 + n % 64]
    else [0xF0 + n / 262144, 0x80 + n / 4096 % 64, 0x80 + n / 64 % 64, 0x80 + n % 64]
  }

  function EncodeAll(text: string): Bytes {
    if text == "" then [] else Encode(text[0]) + EncodeAll(text[1..])
  }

  /** How many bytes a character with this first byte has; 0 when none begins with it. */
  function Length(lead: byte): nat {
    if lead < 0x80 then 1 else if 0xC2 <= lead <= 0xDF then 2
    else if 0xE0 <= lead <= 0xEF then 3 else if 0xF0 <= lead <= 0xF4 then 4 else 0
  }

  /** The second byte is limited after some first bytes: no overlong form, no surrogate, no code point
      beyond the last. */
  predicate Second(lead: byte, b: byte) {
    && (if lead == 0xE0 then 0xA0 else if lead == 0xF0 then 0x90 else 0x80) <= b
    && b <= (if lead == 0xED then 0x9F else if lead == 0xF4 then 0x8F else 0xBF)
  }

  predicate Continues(b: byte) {
    0x80 <= b <= 0xBF
  }

  /** The code point that two, three or four bytes stand for. */
  function TwoBytes(a: int, b: int): int { (a - 0xC0) * 64 + (b - 0x80) }

  function ThreeBytes(a: int, b: int, c: int): int { (a - 0xE0) * 4096 + (b - 0x80) * 64 + (c - 0x80) }

  function FourBytes(a: int, b: int, c: int, d: int): int {
    (a - 0xF0) * 262144 + (b - 0x80) * 4096 + (c - 0x80) * 64 + (d - 0x80)
  }

  datatype Taken = Taken(first: char, length: nat)

  /** The first character of a text, and how many bytes it takes. */
  function Take(s: Bytes): (r: Taken)
    requires s != []
    ensures 1 <= r.length <= |s|
  {
    var n := Length(s[0]);
    if n == 0 then Taken(REPLACEMENT, 1)
    else if n == 1 then Taken(s[0] as char, 1)
    else if |s| < 2 || !Second(s[0], s[1]) then Taken(REPLACEMENT, 1)
    else if n == 2 then Taken(TwoBytes(s[0], s[1]) as char, 2)
    else if |s| < 3 || !Continues(s[2]) then Taken(REPLACEMENT, 2)
    else if n == 3 then Taken(ThreeBytes(s[0], s[1], s[2]) as char, 3)
    else if |s| < 4 || !Continues(s[3]) then Taken(REPLACEMENT, 3)
    else Taken(FourBytes(s[0], s[1], s[2], s[3]) as char, 4)
  }

  function Decode(s: Bytes): string {
    if s == [] then "" else [Take(s).first] + Decode(s[Take(s).length..])
  }

  /** Some text is written as these bytes. */
  ghost predicate Valid(s: Bytes) {
    exists text :: EncodeAll(text) == s
  }

  lemma TwoBytesRead(n: int)
    requires 0x80 <= n < 0x800
    ensures 0xC2 <= 0xC0 + n / 64 <= 0xDF && 0x80 <= 0x80 + n % 64 <= 0xBF
    ensures TwoBytes(0xC0 + n / 64, 0x80 + n % 64) == n
  {
  }

  lemma ThreeBytesRead(n: int)
    requires 0x800 <= n < 0x10000 && !(0xD800 <= n < 0xE000)
    ensures 0xE0 <= 0xE0 + n / 4096 <= 0xEF && Second(0xE0 + n / 4096, 0x80 + n / 64 % 64) && Continues(0x80 + n % 64)
    ensures ThreeBytes(0xE0 + n / 4096, 0x80 + n / 64 % 64, 0x80 + n % 64) == n
  {
    assert n / 64 / 64 == n / 4096;
  }

  lemma FourBytesRead(n: int)
    requires 0x10000 <= n < 0x110000
    ensures 0xF0 <= 0xF0 + n / 262144 <= 0xF4 && Second(0xF0 + n / 262144, 0x80 + n / 4096 % 64)
    ensures Continues(0x80 + n / 64 % 64) && Continues(0x80 + n % 64)
    ensures FourBytes(0xF0 + n / 262144, 0x80 + n / 4096 % 64, 0x80 + n / 64 % 64, 0x80 + n % 64) == n
  {
    assert n / 64 / 64 == n / 4096 && n / 4096 / 64 == n / 262144;
  }

  lemma TakeInvertsEncode(c: char, rest: Bytes)
    ensures Take(Encode(c) + rest) == Taken(c, |Encode(c)|)
  {
    var n := c as int;
    if n < 0x80 {
    } else if n < 0x800 {
      TwoBytesRead(n);
    } else if n < 0x10000 {
      ThreeBytesRead(n);
    } else {
      FourBytesRead(n);
    }
  }

  /** Every text is read back. */
  lemma {:induction false} DecodeInvertsEncode(text: string)
    ensures Decode(EncodeAll(text)) == text
  {
    if text != "" {
      var rest := EncodeAll(text[1..]);
      TakeInvertsEncode(text[0], rest);
      DecodeInvertsEncode(text[1..]);
      assert (Encode(text[0]) + rest)[|Encode(text[0])|..] == rest;
      assert [text[0]] + text[1..] == text;
    }
  }

  /** Decoding loses nothing exactly on valid contents. */
  lemma RecoverableIff(s: Bytes)
    ensures EncodeAll(Decode(s)) == s <==> Valid(s)
  {
    if text :| EncodeAll(text) == s {
      DecodeInvertsEncode(text);
    }
  }

  /** Valid contents that decode alike are alike. */
  lemma ValidAreToldApart(s: Bytes, t: Bytes)
    requires Valid(s) && Valid(t) && Decode(s) == Decode(t)
    ensures s == t
  {
    RecoverableIff(s);
    RecoverableIff(t);
  }

  /** A byte that begins no character reads like a replacement character that was written. */
  lemma StrayByte()
    ensures Decode([0xFF]) == [REPLACEMENT] == Decode(EncodeAll([REPLACEMENT]))
    ensures [0xFF] != EncodeAll([REPLACEMENT]) && |EncodeAll([REPLACEMENT])| == 3 && !Valid([0xFF])
  {
    DecodeInvertsEncode([REPLACEMENT]);
    assert EncodeAll([REPLACEMENT]) == Encode(REPLACEMENT) + EncodeAll([]);
    assert |EncodeAll([REPLACEMENT])| == 3;
    assert Decode([0xFF]) == [Take([0xFF]).first] + Decode([]);
    RecoverableIff([0xFF]);
  }

  // ---------- Ill-formed stretches ----------

  /** The bytes are the beginning of a character, or all of it. */
  ghost predicate BeginsCharacter(s: Bytes) {
    exists c :: s <= Encode(c)
  }

  lemma EncodedShape(c: char)
    ensures var e := Encode(c);
      && Length(e[0]) == |e|
      && (|e| > 1 ==> Second(e[0], e[1]))
      && (|e| > 2 ==> Continues(e[2]))
      && (|e| > 3 ==> Continues(e[3]))
  {
    var n := c as int;
    if n < 0x80 {
    } else if n < 0x800 {
      TwoBytesRead(n);
    } else if n < 0x10000 {
      ThreeBytesRead(n);
    } else {
      FourBytesRead(n);
    }
  }

  lemma TwoBytesWritten(a: byte, b: byte)
    requires Length(a) == 2 && Second(a, b)
    ensures Encode(TwoBytes(a, b) as char) == [a, b]
  {
  }

  lemma ThreeBytesWritten(a: byte, b: byte, c: byte)
    requires Length(a) == 3 && Second(a, b) && Continues(c)
    ensures var n := ThreeBytes(a, b, c); 0x800 <= n < 0x10000 && !(0xD800 <= n < 0xE000)
    ensures Encode(ThreeBytes(a, b, c) as char) == [a, b, c]
  {
    var n, high := ThreeBytes(a, b, c), (a - 0xE0) * 64 + (b - 0x80);
    assert n == high * 64 + (c - 0x80);
    assert n / 64 == high && n % 64 == c - 0x80;
    assert n / 4096 == high / 64 == a - 0xE0 && high % 64 == b - 0x80;
  }

  lemma FourBytesWritten(a: byte, b: byte, c: byte, d: byte)
    requires Length(a) == 4 && Second(a, b) && Continues(c) && Continues(d)
    ensures 0x10000 <= FourBytes(a, b, c, d) < 0x110000
    ensures Encode(FourBytes(a, b, c, d) as char) == [a, b, c, d]
  {
    var n, high := FourBytes(a, b, c, d), (a - 0xF0) * 64 + (b - 0x80);
    var middle := high * 64 + (c - 0x80);
    assert n == middle * 64 + (d - 0x80);
    assert n / 64 == middle && n % 64 == d - 0x80;
    assert n / 4096 == middle / 64 == high && middle % 64 == c - 0x80;
    assert n / 262144 == high / 64 == a - 0xF0 && high % 64 == b - 0x80;
  }

  /** How many bytes at the front of a text begin a character by their shape. */
  lemma ShapeBegins(s: Bytes, k: nat)
    requires 1 <= k <= |s| && k <= Length(s[0])
    requires (k > 1 ==> Second(s[0], s[1])) && (k > 2 ==> Continues(s[2])) && (k > 3 ==> Continues(s[3]))
    ensures k < Length(s[0]) ==> BeginsCharacter(s[..k])
    ensures k == Length(s[0]) ==> exists c :: Encode(c) == s[..k]
  {
    var second: byte := if k > 1 then s[1] else if s[0] == 0xE0 then 0xA0 else if s[0] == 0xF0 then 0x90 else 0x80;
    var third: byte := if k > 2 then s[2] else 0x80;
    var fourth: byte := if k > 3 then s[3] else 0x80;
    match Length(s[0])
    case 1 => assert Encode(s[0] as char) == s[..1];
    case 2 =>
      TwoBytesWritten(s[0], second);
      assert s[..k] <= Encode(TwoBytes(s[0], second) as char);
    case 3 =>
      ThreeBytesWritten(s[0], second, third);
      assert s[..k] <= Encode(ThreeBytes(s[0], second, third) as char);
    case 4 =>
      FourBytesWritten(s[0], second, third, fourth);
      assert s[..k] <= Encode(FourBytes(s[0], second, third, fourth) as char);
  }

  /** No byte may stand behind the first `t` of a character that begins with `lead`. */
  predicate Misfits(lead: byte, t: nat, b: byte) {
    Length(lead) == 0 || (t == 1 && !Second(lead, b)) || (t > 1 && !Continues(b))
  }

  lemma FailsThere(s: Bytes)
    requires s != [] && (forall c :: !(Encode(c) <= s)) && Take(s).length < |s|
    ensures Misfits(s[0], Take(s).length, s[Take(s).length])
  {
    var t := Take(s).length;
    if Length(s[0]) == t && (t > 1 ==> Second(s[0], s[1])) && (t > 2 ==> Continues(s[2]))
        && (t > 3 ==> Continues(s[3])) {
      ShapeBegins(s, t);
    }
  }

  lemma SameByte(s: Bytes, k: nat, e: Bytes, i: nat)
    requires i < k <= |s|
    ensures s[..k] <= e ==> i < |e| && e[i] == s[i]
  {
    if s[..k] <= e { assert e[i] == s[..k][i]; }
  }

  lemma NothingLonger(s: Bytes, k: nat)
    requires s != [] && (forall c :: !(Encode(c) <= s)) && Take(s).length < k <= |s|
    ensures !BeginsCharacter(s[..k])
  {
    var t := Take(s).length;
    FailsThere(s);
    forall c ensures !(s[..k] <= Encode(c)) {
      EncodedShape(c);
      SameByte(s, k, Encode(c), 0);
      SameByte(s, k, Encode(c), t);
    }
  }

  /** A character at the front is taken.  Otherwise one replacement character stands for the longest stretch that
      begins a character, or for one byte if there is none. */
  lemma TakeIsMaximal(s: Bytes)
    requires s != []
    ensures forall c :: Encode(c) <= s ==> Take(s) == Taken(c, |Encode(c)|)
    ensures (forall c :: !(Encode(c) <= s)) ==>
      && Take(s).first == '\U{FFFD}'
      && (Take(s).length == 1 || BeginsCharacter(s[..Take(s).length]))
      && forall k :: Take(s).length < k <= |s| ==> !BeginsCharacter(s[..k])
  {
    forall c | Encode(c) <= s ensures Take(s) == Taken(c, |Encode(c)|) {
      assert s == Encode(c) + s[|Encode(c)|..];
      TakeInvertsEncode(c, s[|Encode(c)|..]);
    }
    if forall c :: !(Encode(c) <= s) {
      if Length(s[0]) > 0 { ShapeBegins(s, Take(s).length); }
      forall k | Take(s).length < k <= |s| ensures !BeginsCharacter(s[..k]) { NothingLonger(s, k); }
    }
  }
}
