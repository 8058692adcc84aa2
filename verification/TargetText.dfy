/** The texts that scripts/check-macos-deployment-target.py reads: dotted versions, the tags of wheels, and the lines
    that `otool -l` prints; and that exactly the right texts are read, as what they say. */
module TargetText {
  import opened Numerals
  import opened Options

  type Version = seq<nat>

  /** A number with at least one digit, and what follows it. */
  function ReadNumber(s: string): (r: Option<(nat, string)>)
    ensures r.Some? ==> |r.value.1| < |s|
  {
    if s == "" || !IsDigit(s[0]) then None else Some(ReadDigits(s[1..], s[0] as int - '0' as int))
  }

  /** `parse_version`: numbers joined by dots; `None` is the ValueError. */
  function ParseVersion(s: string): (r: Option<Version>)
    ensures r.Some? ==> |r.value| > 0
    decreases |s|
  {
    match ReadNumber(s)
    case None => None
    case Some((n, rest)) =>
      if rest == "" then Some([n])
      else if rest[0] != '.' then None
      else match ParseVersion(rest[1..]) case None => None case Some(v) => Some([n] + v)
  }

  function Render(v: Version): string
    requires |v| > 0
  {
    if |v| == 1 then Numeral(v[0]) else Numeral(v[0]) + "." + Render(v[1..])
  }

  lemma NumberReads(n: nat, rest: string)
    requires rest == "" || !IsDigit(rest[0])
    ensures ReadNumber(Numeral(n) + rest) == Some((n, rest))
  {
    NumeralReads(n, rest);
  }

  /** A number in front of a dotted version. */
  lemma VersionGoesOn(s: string, n: nat, rest: string, v: Version)
    requires ReadNumber(s) == Some((n, "." + rest)) && ParseVersion(rest) == Some(v)
    ensures ParseVersion(s) == Some([n] + v)
  {
    var dotted := "." + rest;
    assert dotted[1..] == rest;
  }

  lemma OneNumberIsVersion(n: nat)
    ensures ParseVersion(Numeral(n)) == Some([n])
  {
    NumberReads(n, "");
    assert Numeral(n) + "" == Numeral(n);
  }

  /** Every version is read back from its rendering. */
  lemma {:induction false} ParseInvertsRender(v: Version)
    requires |v| > 0
    ensures ParseVersion(Render(v)) == Some(v)
  {
    if |v| == 1 {
      OneNumberIsVersion(v[0]);
      assert v == [v[0]];
    } else {
      var first, rest := Numeral(v[0]), Render(v[1..]);
      ParseInvertsRender(v[1..]);
      NumberReads(v[0], "." + rest);
      assert first + "." + rest == first + ("." + rest);
      VersionGoesOn(Render(v), v[0], rest, v[1..]);
      assert [v[0]] + v[1..] == v;
    }
  }

  predicate StartsWith(s: string, prefix: string) {
    prefix <= s
  }

  /** The two numbers of a tag, after its system name. */
  function TagNumbers(s: string, machines: set<string>): (r: Option<Version>)
    ensures r.Some? ==> |r.value| == 2
  {
    match ReadNumber(s)
    case None => None
    case Some((major, rest)) =>
      if rest == "" || rest[0] != '_' then None else
      match ReadNumber(rest[1..])
      case None => None
      case Some((minor, machine)) => if machine in machines then Some([major, minor]) else None
  }

  /** `claimed_version`; `None` is the ValueError. */
  function ClaimedVersion(tag: string): (r: Option<Version>)
    ensures r.Some? ==> |r.value| == 2
  {
    if StartsWith(tag, "macosx_") then TagNumbers(tag[7..], {"_arm64", "_x86_64"}) else None
  }

  lemma Regroup(a: string, b: string, c: string, d: string)
    ensures a + b + c + d == a + (b + (c + d))
  {
  }

  lemma TagGoesOn(s: string, major: nat, minor: nat, rest: string, machine: string, machines: set<string>)
    requires ReadNumber(s) == Some((major, "_" + rest)) && ReadNumber(rest) == Some((minor, machine))
    requires machine in machines
    ensures TagNumbers(s, machines) == Some([major, minor])
  {
    var joined := "_" + rest;
    assert joined[1..] == rest;
  }

  /** Any machine suffix in the list leaves the two numbers readable. */
  lemma ClaimIsRead(major: nat, minor: nat, machine: string, machines: set<string>)
    requires machine in machines && machine != "" && machine[0] == '_'
    ensures TagNumbers(Numeral(major) + "_" + Numeral(minor) + machine, machines) == Some([major, minor])
  {
    var first, rest := Numeral(major), Numeral(minor) + machine;
    Regroup(first, "_", Numeral(minor), machine);
    NumberReads(major, "_" + rest);
    NumberReads(minor, machine);
    TagGoesOn(first + ("_" + rest), major, minor, rest, machine, machines);
  }

  // ---------- Lines of `otool -l` ----------

  datatype Command = Other | BuildVersion | MinimumVersion

  predicate Blank(c: char) {
    c in " \t\n\r"
  }

  function StripStart(s: string): string {
    if s != "" && Blank(s[0]) then StripStart(s[1..]) else s
  }

  function StripEnd(s: string): string {
    if s != "" && Blank(s[|s| - 1]) then StripEnd(s[..|s| - 1]) else s
  }

  function Strip(s: string): string {
    StripEnd(StripStart(s))
  }

  predicate BeginsCommand(line: string) {
    StartsWith(line, "Load command ") &&
    match ReadNumber(line[13..]) case None => false case Some((_, rest)) => rest == ""
  }

  /** A word, blanks, and a version. */
  function Setting(line: string, word: string): Option<Version> {
    if StartsWith(line, word) && |line| > |word| && Blank(line[|word|]) 
    then ParseVersion(StripStart(line[|word|..])) else None
  }

  /** What a line can mean: it switches to a command, or it may be a setting of either spelling. */
  datatype Line = Switch(to: Command) | Settings(minos: Option<Version>, version: Option<Version>)

  function Classify(text: string): Line {
    var line := Strip(text);
    if BeginsCommand(line) then Switch(Other)
    else if line == "cmd LC_BUILD_VERSION" then Switch(BuildVersion)
    else if line == "cmd LC_VERSION_MIN_MACOSX" then Switch(MinimumVersion)
    else Settings(Setting(line, "minos"), Setting(line, "version"))
  }

  /** The two readings of text that the checks below rest on; `OTOOL` has the original's. */
  datatype Reading = Reading(classify: string -> Line, claim: string -> Option<Version>)

  const OTOOL: Reading := Reading(Classify, ClaimedVersion)

  // ---------- What a text says ----------

  function Zeros(k: nat): string {
    seq(k, _ => '0')
  }

  /** Decimal digits, leading zeros allowed. */
  ghost predicate Spells(s: string, n: nat) {
    exists k: nat :: s == Zeros(k) + Numeral(n)
  }

  /** Numbers with dots between them. */
  ghost predicate SpellsVersion(s: string, v: Version)
    decreases |v|
  {
    v != [] &&
    if |v| == 1 then Spells(s, v[0])
    else exists first, rest :: s == first + "." + rest && Spells(first, v[0]) && SpellsVersion(rest, v[1..])
  }

  predicate NoDigitFirst(s: string) {
    s == "" || !IsDigit(s[0])
  }

  lemma {:induction false} ZerosAreSkipped(k: nat, rest: string)
    ensures ReadDigits(Zeros(k) + rest, 0) == ReadDigits(rest, 0)
  {
    if k == 0 {
      assert Zeros(k) + rest == rest;
    } else {
      ZerosAreSkipped(k - 1, rest);
      assert (Zeros(k) + rest)[1..] == Zeros(k - 1) + rest;
    }
  }

  lemma SpelledIsRead(s: string, n: nat, rest: string)
    requires Spells(s, n) && NoDigitFirst(rest)
    ensures s != "" && IsDigit(s[0]) && ReadNumber(s + rest) == Some((n, rest))
  {
    var k: nat :| s == Zeros(k) + Numeral(n);
    NumeralReads(n, rest);
    assert s + rest == Zeros(k) + (Numeral(n) + rest);
    ZerosAreSkipped(k, Numeral(n) + rest);
    assert Numeral(n)[0] == (Numeral(n) + rest)[0];
    assert (s + rest)[0] == if k == 0 then Numeral(n)[0] else '0';
    assert ReadDigits(s + rest, 0) == ReadDigits((s + rest)[1..], (s + rest)[0] as int - '0' as int);
  }

  /** The digits in front of a text, and what they spell. */
  lemma {:induction false} DigitsSpell(digits: string, n: nat, s: string) returns (more: string)
    requires Spells(digits, n)
    ensures digits + s == more + ReadDigits(s, n).1 && Spells(more, ReadDigits(s, n).0)
    ensures NoDigitFirst(ReadDigits(s, n).1)
    decreases |s|
  {
    if NoDigitFirst(s) {
      more := digits;
    } else {
      OneMoreDigit(digits, n, s[0]);
      more := DigitsSpell(digits + [s[0]], 10 * n + (s[0] as int - '0' as int), s[1..]);
      assert digits + s == (digits + [s[0]]) + s[1..];
    }
  }

  lemma OneMoreDigit(digits: string, n: nat, c: char)
    requires Spells(digits, n) && IsDigit(c)
    ensures Spells(digits + [c], 10 * n + (c as int - '0' as int))
  {
    var k: nat :| digits == Zeros(k) + Numeral(n);
    if n == 0 {
      assert digits + [c] == Zeros(k + 1) + Numeral(c as int - '0' as int);
    } else {
      assert digits + [c] == Zeros(k) + (Numeral(n) + [c]);
      assert Numeral(10 * n + (c as int - '0' as int)) == Numeral(n) + [c];
    }
  }

  lemma ReadIsSpelled(s: string) returns (digits: string)
    requires ReadNumber(s).Some?
    ensures s == digits + ReadNumber(s).value.1 && Spells(digits, ReadNumber(s).value.0)
    ensures NoDigitFirst(ReadNumber(s).value.1)
  {
    var d := s[0] as int - '0' as int;
    assert [s[0]] == Zeros(0) + Numeral(d);
    digits := DigitsSpell([s[0]], d, s[1..]);
    assert s == [s[0]] + s[1..];
  }

  lemma {:induction false} ParsedIsSpelled(s: string)
    requires ParseVersion(s).Some?
    ensures SpellsVersion(s, ParseVersion(s).value)
    decreases |s|
  {
    var first := ReadIsSpelled(s);
    var n, rest := ReadNumber(s).value.0, ReadNumber(s).value.1;
    if rest == "" {
      assert first + "" == s;
    } else {
      ParsedIsSpelled(rest[1..]);
      var v := ParseVersion(rest[1..]).value;
      assert ParseVersion(s).value == [n] + v && ([n] + v)[1..] == v;
      assert s == first + "." + rest[1..] by { assert rest == "." + rest[1..]; }
    }
  }

  lemma FirstGoesOn(s: string, first: string, n: nat, rest: string, v: Version)
    requires s == first + "." + rest && Spells(first, n) && ParseVersion(rest) == Some(v)
    ensures ParseVersion(s) == Some([n] + v)
  {
    SpelledIsRead(first, n, "." + rest);
    assert s == first + ("." + rest);
    VersionGoesOn(s, n, rest, v);
  }

  lemma {:induction false} SpelledIsParsed(s: string, v: Version)
    requires SpellsVersion(s, v)
    ensures ParseVersion(s) == Some(v)
    decreases |v|
  {
    if |v| == 1 {
      SpelledIsRead(s, v[0], "");
      assert s + "" == s && v == [v[0]];
    } else {
      var first, rest :| s == first + "." + rest && Spells(first, v[0]) && SpellsVersion(rest, v[1..]);
      SpelledIsParsed(rest, v[1..]);
      FirstGoesOn(s, first, v[0], rest, v[1..]);
      assert [v[0]] + v[1..] == v;
    }
  }

  /** Exactly the dotted numbers are versions. */
  lemma ParseVersionIff(s: string, v: Version)
    ensures ParseVersion(s) == Some(v) <==> SpellsVersion(s, v)
  {
    if ParseVersion(s) == Some(v) { ParsedIsSpelled(s); }
    if SpellsVersion(s, v) { SpelledIsParsed(s, v); }
  }

  /** The tag of a wheel for one of the two machines. */
  ghost predicate SpellsTag(tag: string, v: Version) {
    |v| == 2 && exists a, b, machine :: TagOf(tag, a, b, machine) && Spells(a, v[0]) && Spells(b, v[1])
  }

  ghost predicate TagOf(tag: string, a: string, b: string, machine: string) {
    tag == "macosx_" + (a + ("_" + (b + machine))) && (machine == "_arm64" || machine == "_x86_64")
  }

  /** Exactly such tags claim a version, and the claimed version is the two numbers. */
  lemma ClaimedVersionIff(tag: string, v: Version)
    ensures ClaimedVersion(tag) == Some(v) <==> SpellsTag(tag, v)
  {
    if ClaimedVersion(tag) == Some(v) {
      var s := tag[7..];
      var a := ReadIsSpelled(s);
      var rest := ReadNumber(s).value.1;
      var b := ReadIsSpelled(rest[1..]);
      var machine := ReadNumber(rest[1..]).value.1;
      assert rest == "_" + rest[1..] && tag == "macosx_" + s;
      assert TagOf(tag, a, b, machine);
    }
    if SpellsTag(tag, v) {
      var a, b, machine :| TagOf(tag, a, b, machine) && Spells(a, v[0]) && Spells(b, v[1]);
      TagIsRead(tag, a, b, machine, v[0], v[1]);
      assert v == [v[0], v[1]];
    }
  }

  lemma TagIsRead(tag: string, a: string, b: string, machine: string, major: nat, minor: nat)
    requires TagOf(tag, a, b, machine) && Spells(a, major) && Spells(b, minor)
    ensures ClaimedVersion(tag) == Some([major, minor])
  {
    var rest := b + machine;
    assert tag[7..] == a + ("_" + rest);
    SpelledIsRead(b, minor, machine);
    SpelledIsRead(a, major, "_" + rest);
    TagGoesOn(tag[7..], major, minor, rest, machine, {"_arm64", "_x86_64"});
  }

  // ---------- What a line says ----------

  predicate AllBlank(s: string) {
    forall i :: 0 <= i < |s| ==> Blank(s[i])
  }

  predicate Bare(s: string) {
    s != "" ==> !Blank(s[0]) && !Blank(s[|s| - 1])
  }

  /** The line but for blanks around it. */
  ghost predicate IsLine(text: string, line: string) {
    Bare(line) && exists a, b :: AllBlank(a) && AllBlank(b) && text == a + line + b
  }

  lemma {:induction false} StartIsBlank(s: string) returns (a: string)
    ensures AllBlank(a) && s == a + StripStart(s) && (StripStart(s) == "" || !Blank(StripStart(s)[0]))
  {
    if s != "" && Blank(s[0]) {
      var more := StartIsBlank(s[1..]);
      a := [s[0]] + more;
      assert s == [s[0]] + (more + StripStart(s)) == a + StripStart(s);
      assert forall i :: 0 < i < |a| ==> a[i] == more[i - 1];
    } else {
      a := "";
    }
  }

  lemma {:induction false} EndIsBlank(s: string) returns (b: string)
    ensures AllBlank(b) && s == StripEnd(s) + b && (StripEnd(s) == "" || !Blank(StripEnd(s)[|StripEnd(s)| - 1]))
    ensures StripEnd(s) != "" ==> StripEnd(s)[0] == s[0]
  {
    if s != "" && Blank(s[|s| - 1]) {
      b := EndIsBlank(s[..|s| - 1]);
      b := b + [s[|s| - 1]];
      assert s == s[..|s| - 1] + [s[|s| - 1]];
    } else {
      b := "";
    }
  }

  lemma {:induction false} BlankStartGoes(a: string, s: string)
    requires AllBlank(a) && (s == "" || !Blank(s[0]))
    ensures StripStart(a + s) == s
  {
    if a == "" {
      assert a + s == s;
    } else {
      BlankStartGoes(a[1..], s);
      assert (a + s)[1..] == a[1..] + s;
    }
  }

  lemma {:induction false} BlankEndGoes(s: string, b: string)
    requires AllBlank(b) && (s == "" || !Blank(s[|s| - 1]))
    ensures StripEnd(s + b) == s
  {
    if b == "" {
      assert s + b == s;
    } else {
      BlankEndGoes(s, b[..|b| - 1]);
      assert (s + b)[..|s + b| - 1] == s + b[..|b| - 1];
    }
  }

  lemma {:induction false} AllBlankGoes(a: string)
    requires AllBlank(a)
    ensures StripStart(a) == ""
  {
    if a != "" { AllBlankGoes(a[1..]); }
  }

  lemma StrippedIsLine(text: string)
    ensures IsLine(text, Strip(text))
  {
    var a := StartIsBlank(text);
    var b := EndIsBlank(StripStart(text));
    assert text == a + Strip(text) + b;
  }

  lemma LineIsStripped(text: string, line: string, a: string, b: string)
    requires Bare(line) && AllBlank(a) && AllBlank(b) && text == a + line + b
    ensures Strip(text) == line
  {
    if line == "" {
      assert AllBlank(text);
      AllBlankGoes(text);
    } else {
      assert text == a + (line + b) && (line + b)[0] == line[0];
      BlankStartGoes(a, line + b);
      BlankEndGoes(line, b);
    }
  }

  /** Stripping leaves the line and nothing else. */
  lemma StripIff(text: string, line: string)
    ensures Strip(text) == line <==> IsLine(text, line)
  {
    StrippedIsLine(text);
    if IsLine(text, line) {
      var a, b :| AllBlank(a) && AllBlank(b) && text == a + line + b;
      LineIsStripped(text, line, a, b);
    }
  }

  /** A word, at least one blank, and a version. */
  ghost predicate SpellsSetting(line: string, word: string, v: Version) {
    exists gap, value :: gap != "" && AllBlank(gap) && line == word + (gap + value) && SpellsVersion(value, v)
  }

  lemma SettingIff(line: string, word: string, v: Version)
    ensures Setting(line, word) == Some(v) <==> SpellsSetting(line, word, v)
  {
    if Setting(line, word) == Some(v) {
      var after := line[|word|..];
      var gap := StartIsBlank(after);
      ParseVersionIff(StripStart(after), v);
      assert line == word + after && after == gap + StripStart(after);
      assert gap == "" ==> after == StripStart(after);
    }
    if SpellsSetting(line, word, v) {
      var gap, value :| gap != "" && AllBlank(gap) && line == word + (gap + value) && SpellsVersion(value, v);
      assert line[|word|..] == gap + value;
      VersionStarts(value, v);
      BlankStartGoes(gap, value);
      ParseVersionIff(value, v);
    }
  }

  lemma VersionStarts(s: string, v: Version)
    requires SpellsVersion(s, v)
    ensures s != "" && !Blank(s[0])
  {
    if |v| == 1 {
      SpelledIsRead(s, v[0], "");
    } else {
      var first, rest :| s == first + "." + rest && Spells(first, v[0]) && SpellsVersion(rest, v[1..]);
      SpelledIsRead(first, v[0], "");
    }
  }

  /** A line that numbers a load command. */
  ghost predicate SpellsCommand(line: string) {
    exists digits, n :: Spells(digits, n) && line == "Load command " + digits
  }

  lemma BeginsCommandIff(line: string)
    ensures BeginsCommand(line) <==> SpellsCommand(line)
  {
    if BeginsCommand(line) {
      var digits := ReadIsSpelled(line[13..]);
      assert line == "Load command " + line[13..] && digits + "" == line[13..];
      assert line == "Load command " + digits;
    }
    if SpellsCommand(line) {
      var digits, n :| Spells(digits, n) && line == "Load command " + digits;
      SpelledIsRead(digits, n, "");
      assert digits + "" == digits == line[13..];
    }
  }

  /** What a line is, told by its text. */
  ghost predicate Says(line: string, said: Line) {
    match said
    case Switch(Other) => SpellsCommand(line)
    case Switch(BuildVersion) => line == "cmd LC_BUILD_VERSION"
    case Switch(MinimumVersion) => line == "cmd LC_VERSION_MIN_MACOSX"
    case Settings(minos, version) =>
      && !SpellsCommand(line) && line != "cmd LC_BUILD_VERSION" && line != "cmd LC_VERSION_MIN_MACOSX"
      && (forall v :: minos == Some(v) <==> SpellsSetting(line, "minos", v))
      && (forall v :: version == Some(v) <==> SpellsSetting(line, "version", v))
  }

  /** A line is classified as its text says, blanks around it apart. */
  lemma ClassifyIff(text: string, line: string, said: Line)
    requires IsLine(text, line)
    ensures Classify(text) == said <==> Says(line, said)
  {
    StripIff(text, line);
    BeginsCommandIff(line);
    forall v ensures Setting(line, "minos") == Some(v) <==> SpellsSetting(line, "minos", v) {
      SettingIff(line, "minos", v);
    }
    forall v ensures Setting(line, "version") == Some(v) <==> SpellsSetting(line, "version", v) {
      SettingIff(line, "version", v);
    }
    if SpellsCommand(line) {
      var digits, n :| Spells(digits, n) && line == "Load command " + digits;
      assert line[0] == 'L';
    }
    if Says(line, said) && said.Settings? {
      SameOption(said.minos, Setting(line, "minos"));
      SameOption(said.version, Setting(line, "version"));
    }
  }

  lemma SameOption(a: Option<Version>, b: Option<Version>)
    requires forall v :: a == Some(v) <==> b == Some(v)
    ensures a == b
  {
  }
}
