/** Which header of `git cat-file --batch` output announces which size, and which problem the reader of
    scripts/benchmark-npm-resolution.ts reports otherwise. */
module GitHeaders {
  import opened Decimals
  import opened GitBatch
  import opened Options

  // ---------- Numbers ----------

  function Zeros(k: nat): Bytes {
    if k == 0 then [] else [48] + Zeros(k - 1)
  }

  lemma {:induction false} OneMoreZero(k: nat)
    ensures Zeros(k) + [48] == Zeros(k + 1)
  {
    if k > 0 {
      OneMoreZero(k - 1);
      Regroup([48], Zeros(k - 1), [48]);
    }
  }

  lemma Regroup(a: Bytes, b: Bytes, c: Bytes)
    ensures a + (b + c) == (a + b) + c
  {
  }

  /** Decimal digits, leading zeros allowed. */
  ghost predicate Spells(s: Bytes, n: nat) {
    exists k: nat :: s == Zeros(k) + Decimal(n)
  }

  predicate NoDigitFirst(s: Bytes) {
    s == [] || !IsDigit(s[0])
  }

  lemma ZeroIsSkipped(s: Bytes)
    ensures ReadDigits([48] + s, 0) == ReadDigits(s, 0)
  {
    assert ([48] + s)[1..] == s;
  }

  lemma {:induction false} ZerosAreSkipped(k: nat, rest: Bytes)
    ensures ReadDigits(Zeros(k) + rest, 0) == ReadDigits(rest, 0)
  {
    if k == 0 {
      assert Zeros(k) + rest == rest;
    } else {
      ZerosAreSkipped(k - 1, rest);
      Regroup([48], Zeros(k - 1), rest);
      ZeroIsSkipped(Zeros(k - 1) + rest);
    }
  }

  lemma SpelledBegins(s: Bytes, n: nat)
    requires Spells(s, n)
    ensures s != [] && IsDigit(s[0])
  {
    var k: nat :| s == Zeros(k) + Decimal(n);
    if k > 0 { assert Zeros(k)[0] == 48; }
  }

  lemma DecimalEnds(n: nat, rest: Bytes)
    requires NoDigitFirst(rest)
    ensures ReadDigits(Decimal(n) + rest, 0).0 == n
  {
    DecimalReads(n, rest);
  }

  lemma SpelledIsRead(s: Bytes, n: nat, rest: Bytes)
    requires Spells(s, n) && NoDigitFirst(rest)
    ensures ReadDigits(s + rest, 0).0 == n
  {
    var k: nat :| s == Zeros(k) + Decimal(n);
    Regroup(Zeros(k), Decimal(n), rest);
    ZerosAreSkipped(k, Decimal(n) + rest);
    DecimalEnds(n, rest);
  }

  lemma OneMoreDigit(digits: Bytes, n: nat, c: byte)
    requires Spells(digits, n) && IsDigit(c)
    ensures Spells(digits + [c], 10 * n + (c - 48))
  {
    var k: nat :| digits == Zeros(k) + Decimal(n);
    Regroup(Zeros(k), Decimal(n), [c]);
    if n == 0 {
      OneMoreZero(k);
      assert digits + [c] == Zeros(k + 1) + Decimal(c - 48);
    } else {
      assert Decimal(10 * n + (c - 48)) == Decimal(n) + [c];
    }
  }

  lemma {:induction false} DigitsSpell(digits: Bytes, n: nat, s: Bytes) returns (more: Bytes, rest: Bytes)
    requires Spells(digits, n)
    ensures digits + s == more + rest && Spells(more, ReadDigits(s, n).0) && NoDigitFirst(rest)
    decreases |s|
  {
    if NoDigitFirst(s) {
      more, rest := digits, s;
    } else {
      OneMoreDigit(digits, n, s[0]);
      more, rest := DigitsSpell(digits + [s[0]], 10 * n + (s[0] - 48), s[1..]);
      assert digits + s == (digits + [s[0]]) + s[1..];
    }
  }

  lemma ReadIsSpelled(s: Bytes) returns (digits: Bytes, rest: Bytes)
    requires s != [] && IsDigit(s[0])
    ensures s == digits + rest && Spells(digits, ReadDigits(s, 0).0) && NoDigitFirst(rest)
  {
    assert [s[0]] == Zeros(0) + Decimal(s[0] - 48);
    digits, rest := DigitsSpell([s[0]], s[0] - 48, s[1..]);
    assert s == [s[0]] + s[1..];
  }

  predicate AllBlank(s: Bytes) {
    forall i :: 0 <= i < |s| ==> s[i] == 32 || 9 <= s[i] <= 13
  }

  /** Blanks, a sign if any, digits, and anything that does not go on with a digit. */
  ghost predicate AnnouncesBy(field: Bytes, n: int, blanks: Bytes, sign: Bytes, digits: Bytes, rest: Bytes, m: nat) {
    && field == blanks + (sign + (digits + rest)) && AllBlank(blanks) && Spells(digits, m) && NoDigitFirst(rest)
    && (sign == [] || sign == [43] || sign == [45])
    && if sign == [45] then n + m == 0 else n == m
  }

  ghost predicate Announces(field: Bytes, n: int) {
    exists blanks, sign, digits, rest, m :: AnnouncesBy(field, n, blanks, sign, digits, rest, m)
  }

  lemma {:induction false} BlanksAreSkipped(s: Bytes) returns (blanks: Bytes)
    ensures AllBlank(blanks) && s == blanks + SkipBlanks(s)
  {
    if SkipBlanks(s) == s {
      blanks := [];
    } else {
      blanks := BlanksAreSkipped(s[1..]);
      blanks := [s[0]] + blanks;
      assert s == [s[0]] + s[1..];
    }
  }

  lemma {:induction false} BlanksGo(blanks: Bytes, s: Bytes)
    requires AllBlank(blanks) && s != [] && !(s[0] == 32 || 9 <= s[0] <= 13)
    ensures SkipBlanks(blanks + s) == s
  {
    if blanks == [] {
      assert blanks + s == s;
    } else {
      BlanksGo(blanks[1..], s);
      assert (blanks + s)[1..] == blanks[1..] + s;
    }
  }

  lemma ParsedNumber(field: Bytes, n: int) returns (sign: Bytes, number: Bytes)
    requires ParseInt(field) == Some(n)
    ensures SkipBlanks(field) == sign + number && (sign == [] || sign == [43] || sign == [45])
    ensures number != [] && IsDigit(number[0])
    ensures if sign == [45] then n + ReadDigits(number, 0).0 == 0 else n == ReadDigits(number, 0).0
  {
    var s := SkipBlanks(field);
    sign := if s[0] == MINUS || s[0] == PLUS then [s[0]] else [];
    number := s[|sign|..];
  }

  lemma ParsedIsAnnounced(field: Bytes, n: int)
    requires ParseInt(field) == Some(n)
    ensures Announces(field, n)
  {
    var blanks := BlanksAreSkipped(field);
    var sign, number := ParsedNumber(field, n);
    var digits, rest := ReadIsSpelled(number);
    assert AnnouncesBy(field, n, blanks, sign, digits, rest, ReadDigits(number, 0).0);
  }

  lemma AnnouncedIsParsed(field: Bytes, n: int, blanks: Bytes, sign: Bytes, digits: Bytes, rest: Bytes, m: nat)
    requires AnnouncesBy(field, n, blanks, sign, digits, rest, m)
    ensures ParseInt(field) == Some(n)
  {
    var number, s := digits + rest, sign + (digits + rest);
    SpelledBegins(digits, m);
    SpelledIsRead(digits, m, rest);
    assert s[0] == if sign == [] then digits[0] else sign[0];
    BlanksGo(blanks, s);
    assert s[|sign|..] == number && number[0] == digits[0];
    assert sign == [] ==> s == number;
  }

  /** A size is read exactly from a field that announces it. */
  lemma ParseIntIff(field: Bytes, n: int)
    ensures ParseInt(field) == Some(n) <==> Announces(field, n)
  {
    if ParseInt(field) == Some(n) { ParsedIsAnnounced(field, n); }
    if Announces(field, n) {
      var blanks, sign, digits, rest, m :| AnnouncesBy(field, n, blanks, sign, digits, rest, m);
      AnnouncedIsParsed(field, n, blanks, sign, digits, rest, m);
    }
  }

  // ---------- Headers ----------

  ghost predicate Fields(header: Bytes, first: Bytes, second: Bytes, third: Bytes, rest: Bytes) {
    && header == first + ([32] + (second + ([32] + (third + rest))))
    && 32 !in first && 32 !in second && 32 !in third && (rest == [] || rest[0] == 32)
  }

  /** `third` stands between the second space and the next, or the end. */
  ghost predicate HasThird(header: Bytes, third: Bytes) {
    exists first, second, rest :: Fields(header, first, second, third, rest)
  }

  /** The first two spaces, and the end of what follows them. */
  ghost predicate Cuts(header: Bytes, i: nat, j: nat, end: nat) {
    && i < j < end <= |header| && header[i] == 32 && header[j] == 32 && (end < |header| ==> header[end] == 32)
    && forall k :: 0 <= k < end && k != i && k != j ==> header[k] != 32
  }

  lemma CutsAreFound(header: Bytes, i: nat, j: nat, end: nat)
    requires Cuts(header, i, j, end)
    ensures ThirdField(header) == header[j + 1..end]
  {
    assert IndexOf(header, 32, 0) == i && IndexOf(header, 32, i + 1) == j;
    assert IndexOf(header, 32, j + 1) == if end < |header| then end else -1;
    assert header[j + 1..] == header[j + 1..|header|];
  }

  lemma JoinedCuts(a: Bytes, b: Bytes, c: Bytes, rest: Bytes, header: Bytes)
    requires header == a + [32] + b + [32] + c + rest && 32 !in a && 32 !in b && 32 !in c
    requires rest == [] || rest[0] == 32
    ensures Cuts(header, |a|, |a| + 1 + |b|, |a| + |b| + |c| + 2)
    ensures header[|a| + |b| + 2..|a| + |b| + |c| + 2] == c
  {
    var i, j, end := |a|, |a| + 1 + |b|, |a| + |b| + |c| + 2;
    forall k | 0 <= k < end && k != i && k != j ensures header[k] != 32 {
      if k < i {
        assert header[k] == a[k];
      } else if k < j {
        assert header[k] == b[k - i - 1];
      } else {
        assert header[k] == c[k - j - 1];
      }
    }
  }

  lemma FieldsAreFound(header: Bytes, first: Bytes, second: Bytes, third: Bytes, rest: Bytes)
    requires Fields(header, first, second, third, rest)
    ensures ThirdField(header) == third
  {
    Flatten(first, second, third, rest);
    JoinedCuts(first, second, third, rest, header);
    CutsAreFound(header, |first|, |first| + 1 + |second|, |first| + |second| + |third| + 2);
  }

  lemma Flatten(a: Bytes, b: Bytes, c: Bytes, rest: Bytes)
    ensures a + ([32] + (b + ([32] + (c + rest)))) == a + [32] + b + [32] + c + rest
  {
    Regroup(a, [32], b + ([32] + (c + rest)));
    Regroup(a + [32], b, [32] + (c + rest));
    Regroup(a + [32] + b, [32], c + rest);
    Regroup(a + [32] + b + [32], c, rest);
  }

  lemma CutInThree(header: Bytes, i: nat, j: nat, end: nat)
    requires i < j < end <= |header| && header[i] == 32 && header[j] == 32
    ensures header == header[..i] + ([32] + (header[i + 1..j] + ([32] + (header[j + 1..end] + header[end..]))))
  {
    assert header[j + 1..] == header[j + 1..end] + header[end..];
    assert header[i + 1..] == header[i + 1..j] + ([32] + header[j + 1..]);
    assert header == header[..i] + ([32] + header[i + 1..]);
  }

  lemma CutsAreFields(header: Bytes, i: nat, j: nat, end: nat)
    requires Cuts(header, i, j, end)
    ensures Fields(header, header[..i], header[i + 1..j], header[j + 1..end], header[end..])
  {
    CutInThree(header, i, j, end);
    NoneWithin(header, 0, i);
    assert header[0..i] == header[..i];
    NoneWithin(header, i + 1, j);
    NoneWithin(header, j + 1, end);
  }

  lemma NoneWithin(s: Bytes, from: nat, to: nat)
    requires from <= to <= |s| && forall k :: from <= k < to ==> s[k] != 32
    ensures 32 !in s[from..to]
  {
    forall k | 0 <= k < to - from ensures s[from..to][k] != 32 { assert s[from..to][k] == s[from + k]; }
  }

  lemma FieldsHaveThird(header: Bytes, first: Bytes, second: Bytes, third: Bytes, rest: Bytes)
    requires Fields(header, first, second, third, rest)
    ensures HasThird(header, third)
  {
  }

  lemma ThirdIsCut(header: Bytes) returns (i: nat, j: nat, end: nat)
    requires ThirdField(header) != []
    ensures Cuts(header, i, j, end)
  {
    i := IndexOf(header, 32, 0);
    j := IndexOf(header, 32, i + 1);
    var k := IndexOf(header, 32, j + 1);
    end := if k < 0 then |header| else k;
  }

  lemma ThirdIsThere(header: Bytes)
    requires ThirdField(header) != []
    ensures HasThird(header, ThirdField(header))
  {
    var i, j, end := ThirdIsCut(header);
    CutsAreFields(header, i, j, end);
    CutsAreFound(header, i, j, end);
    FieldsHaveThird(header, header[..i], header[i + 1..j], header[j + 1..end], header[end..]);
  }

  lemma ThirdFieldIff(header: Bytes, third: Bytes)
    requires third != []
    ensures ThirdField(header) == third <==> HasThird(header, third)
  {
    if ThirdField(header) == third { ThirdIsThere(header); }
    if HasThird(header, third) {
      var first, second, rest :| Fields(header, first, second, third, rest);
      FieldsAreFound(header, first, second, third, rest);
    }
  }

  /** The answer for an object that is not there ends in ` missing`. */
  ghost predicate SaysMissing(header: Bytes) {
    exists name: Bytes :: header == name + [32, 109, 105, 115, 115, 105, 110, 103]
  }

  /** The third field announces that size. */
  ghost predicate SaysSize(header: Bytes, n: int) {
    exists third :: HasThird(header, third) && Announces(third, n)
  }

  lemma SaysSizeIff(header: Bytes, n: int)
    ensures SaysSize(header, n) <==> ParseInt(ThirdField(header)) == Some(n)
  {
    if ParseInt(ThirdField(header)) == Some(n) {
      ParseIntIff(ThirdField(header), n);
      ThirdFieldIff(header, ThirdField(header));
    }
    if SaysSize(header, n) {
      var third :| HasThird(header, third) && Announces(third, n);
      ParseIntIff(third, n);
      ThirdFieldIff(header, third);
    }
  }

  lemma MissingIff(header: Bytes)
    ensures EndsWith(header, MISSING) <==> SaysMissing(header)
  {
    if EndsWith(header, MISSING) { assert header == header[..|header| - 8] + MISSING; }
    forall name: Bytes | header == name + [32, 109, 105, 115, 115, 105, 110, 103] ensures EndsWith(header, MISSING) {
      assert header[|header| - 8..] == MISSING;
    }
  }

  /** What a header is taken for: a missing object before anything else, a size between 0 and 2^53 - 1, and an
      invalid size otherwise. */
  lemma HeaderSizeIff(header: Bytes)
    ensures HeaderSize(header) == Unsized(Missing) <==> SaysMissing(header)
    ensures forall n: nat :: HeaderSize(header) == Sized(n) <==>
      !SaysMissing(header) && SaysSize(header, n) && n <= 0x1F_FFFF_FFFF_FFFF
    ensures HeaderSize(header) == Unsized(InvalidSize) <==>
      !SaysMissing(header) && forall n: nat :: SaysSize(header, n) ==> n > 0x1F_FFFF_FFFF_FFFF
  {
    MissingIff(header);
    forall n: int ensures SaysSize(header, n) <==> ParseInt(ThirdField(header)) == Some(n) { SaysSizeIff(header, n); }
  }

  /** What is read behind a header of that length, if it announces that size. */
  function ReadBody(size: Size, header: nat, body: Bytes): Reading {
    match size
    case Unsized(problem) => Failed(problem)
    case Sized(n) => if n < |body| && body[n] == 10 then Object(body[..n], header + 1 + n + 1) else Failed(Truncated)
  }

  /** An object is read off the front of the output exactly as its header says; without a newline behind the announced
      bytes it is truncated. */
  lemma BodyIsRead(s: Bytes, header: Bytes, body: Bytes, sizeOf: Bytes -> Size)
    requires s == header + [10] + body && 10 !in header
    ensures ReadWith(s, sizeOf) == ReadBody(sizeOf(header), |header|, body)
  {
    assert s == [] + header + [10] + body;
    IndexAfter([], header, 10, body, s);
    assert s[..|header|] == header && s[|header| + 1..] == body;
    if sizeOf(header).Sized? {
      var n := sizeOf(header).length;
      if n < |body| { assert s[|header| + 1..|header| + 1 + n] == body[..n]; }
    }
  }

  /** Output without a newline has no header. */
  lemma NoHeaderIff(s: Bytes)
    ensures ReadWith(s, HeaderSize) == Failed(NoHeader) <==> 10 !in s
  {
    if 10 in s {
      var i := IndexOf(s, 10, 0);
      assert s == s[..i] + [10] + s[i + 1..];
      BodyIsRead(s, s[..i], s[i + 1..], HeaderSize);
    }
  }
}
