/** scripts/gen-tsconfig-paths.ts: one alias per workspace package, written into the marked region of
    the config, and the gate that no package is left without an alias. */
module TsconfigAliases {
  import opened AliasKeys
  import opened JsonStrings
  import opened MarkerRegion
  import opened Options
  import opened Sorting

  datatype WorkspacePackage = WorkspacePackage(group: string, directory: string, name: string)

  datatype Alias = Alias(specifier: string, source: string)

  /** The markers, the package prefix, and the collation of specifiers and of names. */
  datatype Settings = Settings(markers: Markers, prefix: string, le: (Alias, Alias) -> bool,
    leName: (string, string) -> bool)

  const PREFIX := "@qilin-agent/"

  ghost predicate ProperSettings(x: Settings) {
    Proper(x.markers) && ProperPattern(HandWritten(x)) && ProperPattern(Bare(x))
  }

  lemma RealSettingsAreProper(le: (Alias, Alias) -> bool, leName: (string, string) -> bool)
    ensures ProperSettings(Settings(MARKERS, PREFIX, le, leName)) && NoComment(PREFIX) && !EndsInTwo(PREFIX)
  {
    MarkersAreProper();
    assert PREFIX[0] == '@' && PREFIX[|PREFIX| - 2] == 't';
    forall k ensures !CommentAt(PREFIX, k) {
      assert 0 <= k < |PREFIX| - 1 ==> PREFIX[k] != '/';
    }
  }

  function HandWritten(x: Settings): Pattern {
    Pattern(x.prefix, false)
  }

  function Bare(x: Settings): Pattern {
    Pattern(x.prefix, true)
  }

  // ---------- Which aliases ----------

  function AliasOf(p: WorkspacePackage): Alias {
    Alias(p.name, "./packages/" + p.group + "/" + p.directory + "/src")
  }

  /** The packages named after their directory. */
  function Claims(x: Settings, packages: seq<WorkspacePackage>): seq<Alias> {
    if packages == [] then [] else
      var last := packages[|packages| - 1];
      var before := Claims(x, packages[..|packages| - 1]);
      if last.name == x.prefix + last.directory then before + [AliasOf(last)] else before
  }

  predicate Claimed(aliases: seq<Alias>, specifier: string) {
    exists i :: 0 <= i < |aliases| && aliases[i].specifier == specifier
  }

  ghost predicate Distinct(aliases: seq<Alias>) {
    forall i, j :: 0 <= i < j < |aliases| ==> aliases[i].specifier != aliases[j].specifier
  }

  lemma {:induction false} ClaimsAreDistinctSoFar(x: Settings, packages: seq<WorkspacePackage>, n: nat)
    requires n <= |packages| && Distinct(Claims(x, packages))
    ensures Distinct(Claims(x, packages[..n]))
    decreases |packages|
  {
    if n == |packages| {
      assert packages[..n] == packages;
    } else {
      var before := packages[..|packages| - 1];
      assert before[..n] == packages[..n];
      assert forall i :: 0 <= i < |Claims(x, before)| ==> Claims(x, before)[i] == Claims(x, packages)[i];
      ClaimsAreDistinctSoFar(x, before, n);
    }
  }

  /** `None` where the original throws because two directories claim one specifier. */
  method CollectPackageAliases(x: Settings, packages: seq<WorkspacePackage>) returns (r: Option<seq<Alias>>)
    ensures r.Some? <==> Distinct(Claims(x, packages))
    ensures r.Some? ==> r.value == Sort(Claims(x, packages), x.le)
  {
    var bySpecifier: seq<Alias> := [];
    for i := 0 to |packages|
      invariant bySpecifier == Claims(x, packages[..i]) && Distinct(bySpecifier)
    {
      var p := packages[i];
      assert packages[..i + 1][..i] == packages[..i];
      if p.name == x.prefix + p.directory {
        if Claimed(bySpecifier, p.name) {
          ghost var claims := Claims(x, packages[..i + 1]);
          var j :| 0 <= j < |bySpecifier| && bySpecifier[j].specifier == p.name;
          assert claims[j].specifier == claims[|bySpecifier|].specifier;
          if Distinct(Claims(x, packages)) {
            ClaimsAreDistinctSoFar(x, packages, i + 1);
          }
          return None;
        }
        bySpecifier := bySpecifier + [AliasOf(p)];
      }
    }
    assert packages[..|packages|] == packages;
    r := Some(Sort(bySpecifier, x.le));
  }

  function Names(packages: seq<WorkspacePackage>): seq<string> {
    if packages == [] then [] else Names(packages[..|packages| - 1]) + [packages[|packages| - 1].name]
  }

  // ---------- Rendering ----------

  function Line(alias: Alias): string {
    INDENT + Quote(alias.specifier) + ": [" + Quote(alias.source) + "]"
  }

  /** The aliases that are not written by hand. */
  function Generated(aliases: seq<Alias>, handWritten: set<string>): seq<Alias> {
    if aliases == [] then [] else
      var last := aliases[|aliases| - 1];
      var before := Generated(aliases[..|aliases| - 1], handWritten);
      if last.specifier in handWritten then before else before + [last]
  }

  function Lines(aliases: seq<Alias>): (lines: seq<string>)
    ensures |lines| == |aliases|
    ensures forall i :: 0 <= i < |lines| ==> lines[i] == Line(aliases[i])
  {
    if aliases == [] then [] else Lines(aliases[..|aliases| - 1]) + [Line(aliases[|aliases| - 1])]
  }

  function Join(lines: seq<string>): string {
    if lines == [] then "" else if |lines| == 1 then lines[0]
    else Join(lines[..|lines| - 1]) + ",\n" + lines[|lines| - 1]
  }

  function Body(aliases: seq<Alias>, handWritten: set<string>): string {
    Join(Lines(Generated(aliases, handWritten)))
  }

  method RenderAliases(aliases: seq<Alias>, handWritten: set<string>) returns (body: string)
    ensures body == Body(aliases, handWritten)
  {
    var lines: seq<string> := [];
    for i := 0 to |aliases|
      invariant lines == Lines(Generated(aliases[..i], handWritten))
    {
      assert aliases[..i + 1][..i] == aliases[..i];
      if aliases[i].specifier !in handWritten {
        lines := lines + [Line(aliases[i])];
      }
    }
    assert aliases[..|aliases|] == aliases;
    body := Join(lines);
  }

  lemma {:induction false} GeneratedIff(aliases: seq<Alias>, handWritten: set<string>, alias: Alias)
    ensures alias in Generated(aliases, handWritten) <==> alias in aliases && alias.specifier !in handWritten
  {
    if aliases == [] {
    } else {
      GeneratedIff(aliases[..|aliases| - 1], handWritten, alias);
      assert aliases == aliases[..|aliases| - 1] + [aliases[|aliases| - 1]];
    }
  }

  // ---------- Plain names ----------

  /** No blank or control character, no quote and no backslash. */
  predicate Plain(s: string) {
    forall k :: 0 <= k < |s| ==> s[k] > ' ' && s[k] != '"' && s[k] != '\\'
  }

  ghost predicate PlainAliases(aliases: seq<Alias>) {
    forall i :: 0 <= i < |aliases| ==> Plain(aliases[i].specifier) && Plain(aliases[i].source)
  }

  lemma PlainIsNotEscaped(s: string)
    requires Plain(s)
    ensures Quote(s) == "\"" + s + "\""
  {
    NothingEscaped(s, Escape);
  }

  ghost predicate NoComment(s: string) {
    forall k :: !CommentAt(s, k)
  }

  /** No comment begins, and none would with what follows. */
  ghost predicate Tame(s: string) {
    NoComment(s) && (s != "" ==> s[|s| - 1] != '/')
  }

  lemma TameAppend(a: string, b: string)
    requires Tame(a) && Tame(b)
    ensures Tame(a + b)
  {
    forall k ensures !CommentAt(a + b, k) {
      if k < |a| { assert !CommentAt(a, k); } else { assert !CommentAt(b, k - |a|); }
    }
  }

  predicate EndsInSlash(s: string) {
    s != "" && s[|s| - 1] == '/'
  }

  predicate EndsInTwo(s: string) {
    |s| > 1 && s[|s| - 1] == s[|s| - 2] == '/'
  }

  lemma OneEscaped(c: char)
    ensures Escape(c) != "" && if c == '/' || c == ' ' then Escape(c) == [c] else '/' !in Escape(c) && ' ' !in Escape(c)
  {
  }

  /** Escaping keeps slashes and blanks, and makes none. */
  lemma {:induction false} EscapedComments(s: string)
    requires NoComment(s)
    ensures var e := EscapeAll(s, Escape);
      NoComment(e) && (EndsInSlash(e) <==> EndsInSlash(s)) && (EndsInTwo(e) <==> EndsInTwo(s))
  {
    if s != "" {
      var init, last := s[..|s| - 1], s[|s| - 1];
      forall k ensures !CommentAt(init, k) { assert !CommentAt(s, k); }
      EscapedComments(init);
      OneEscaped(last);
      if EndsInTwo(init) { assert !CommentAt(s, |s| - 3); }
      EscapedMore(EscapeAll(init, Escape), Escape(last));
    }
  }

  lemma EscapedMore(e: string, more: string)
    requires NoComment(e) && more != "" && (more == "/" || more == " " || ('/' !in more && ' ' !in more))
    requires more == " " ==> !EndsInTwo(e)
    ensures NoComment(e + more)
    ensures EndsInSlash(e + more) <==> more == "/"
    ensures EndsInTwo(e + more) <==> more == "/" && EndsInSlash(e)
  {
    forall k ensures !CommentAt(e + more, k) {
      assert !CommentAt(e, k);
      assert |e| <= k + 2 < |e + more| ==> (e + more)[k + 2] == more[k + 2 - |e|];
    }
  }

  lemma TameLiterals()
    ensures Tame(INDENT) && Tame(": [") && Tame("]") && Tame(",\n")
  {
  }

  lemma TameQuote(s: string)
    requires NoComment(s)
    ensures Tame(Quote(s))
  {
    EscapedComments(s);
    var e := EscapeAll(s, Escape);
    forall k ensures !CommentAt("\"" + e + "\"", k) {
      assert !CommentAt(e, k - 1);
    }
  }

  /** The names hold no two slashes before a blank, as no name of a package or of a directory can. */
  ghost predicate CommentFree(aliases: seq<Alias>) {
    forall i :: 0 <= i < |aliases| ==> NoComment(aliases[i].specifier) && NoComment(aliases[i].source)
  }

  lemma TameLine(alias: Alias)
    requires NoComment(alias.specifier) && NoComment(alias.source)
    ensures Tame(Line(alias))
  {
    TameLiterals();
    TameQuote(alias.specifier);
    TameQuote(alias.source);
    TameFive(INDENT, Quote(alias.specifier), ": [", Quote(alias.source), "]");
  }

  lemma TameFive(a: string, b: string, c: string, d: string, e: string)
    requires Tame(a) && Tame(b) && Tame(c) && Tame(d) && Tame(e)
    ensures Tame(a + b + c + d + e)
  {
    TameAppend(a, b);
    TameAppend(a + b, c);
    TameAppend(a + b + c, d);
    TameAppend(a + b + c + d, e);
  }

  lemma {:induction false} TameBody(aliases: seq<Alias>)
    requires CommentFree(aliases)
    ensures Tame(Join(Lines(aliases)))
  {
    if aliases == [] {
    } else {
      var before, last := aliases[..|aliases| - 1], aliases[|aliases| - 1];
      TameLine(last);
      TameLiterals();
      if |aliases| > 1 {
        TameBody(before);
        TameAppend(Join(Lines(before)), ",\n");
        TameAppend(Join(Lines(before)) + ",\n", Line(last));
      }
    }
  }

  /** A body of such names has no end marker in it. */
  lemma BodyIsMarkerFree(x: Settings, aliases: seq<Alias>, handWritten: set<string>)
    requires Proper(x.markers) && CommentFree(aliases)
    ensures !Occurs(x.markers.end, Body(aliases, handWritten))
  {
    var generated, body := Generated(aliases, handWritten), Body(aliases, handWritten);
    forall i | 0 <= i < |generated| ensures NoComment(generated[i].specifier) && NoComment(generated[i].source) {
      GeneratedIff(aliases, handWritten, generated[i]);
    }
    TameBody(generated);
    var k :| CommentAt(x.markers.end, k);
    forall i ensures !At(body, i, x.markers.end) {
      if At(body, i, x.markers.end) { assert CommentAt(body, i + k); }
    }
  }

  /** A body of plain names has no end marker in it. */
  lemma PlainBodyIsMarkerFree(x: Settings, aliases: seq<Alias>, handWritten: set<string>)
    requires Proper(x.markers) && PlainAliases(aliases)
    ensures !Occurs(x.markers.end, Body(aliases, handWritten))
  {
    BodyIsMarkerFree(x, aliases, handWritten);
  }

  // ---------- Generating ----------

  function Next(x: Settings, text: string, aliases: seq<Alias>): Option<string> {
    WriteRegion(x.markers, text, Body(aliases, Keys(HandWritten(x), Outside(x.markers, text))))
  }

  /** Writing the body again changes nothing exactly when the end marker does not occur in it.  Then a rewrite
      keeps what is read as written by hand, so generating again changes nothing, and no generated alias
      repeats a key written by hand. */
  lemma GeneratingIsIdempotent(x: Settings, text: string, aliases: seq<Alias>)
    requires Proper(x.markers) && Next(x, text, aliases).Some?
    ensures var handWritten, next := Keys(HandWritten(x), Outside(x.markers, text)), Next(x, text, aliases).value;
      && (WriteRegion(x.markers, next, Body(aliases, handWritten)) == Some(next) <==>
        !Occurs(x.markers.end, Body(aliases, handWritten)))
      && (!Occurs(x.markers.end, Body(aliases, handWritten)) ==>
          && Outside(x.markers, next) == Outside(x.markers, text)
          && Next(x, next, aliases) == Some(next)
          && forall alias :: alias in Generated(aliases, handWritten) ==>
            alias.specifier !in Keys(HandWritten(x), Outside(x.markers, next)))
  {
    var handWritten := Keys(HandWritten(x), Outside(x.markers, text));
    var body := Body(aliases, handWritten);
    RewriteIsIdempotentIff(x.markers, text, body);
    if !Occurs(x.markers.end, body) {
      var begin, end, end' := OutsideIsPreserved(x.markers, text, body);
      forall alias | alias in Generated(aliases, handWritten) ensures alias.specifier !in handWritten {
        GeneratedIff(aliases, handWritten, alias);
      }
    }
  }

  // ---------- Everything generated is mapped ----------

  lemma {:induction false} LineOfJoin(lines: seq<string>, i: nat) returns (o: nat)
    requires i < |lines|
    ensures At(Join(lines), o, lines[i])
    ensures o == 0 || (o <= |Join(lines)| && Join(lines)[o - 1] == '\n')
  {
    var last := |lines| - 1;
    if i < last {
      o := LineOfJoin(lines[..last], i);
    } else if last > 0 {
      o := |Join(lines[..last])| + 2;
    } else {
      o := 0;
    }
  }

  /** Six blanks, then the key. */
  ghost predicate BeginsWithKey(line: string, key: string) {
    At(line, 6, "\"" + key + "\":") && forall k :: 0 <= k < 6 ==> line[k] == ' '
  }

  lemma KeyOfLine(alias: Alias)
    requires Plain(alias.specifier)
    ensures BeginsWithKey(Line(alias), alias.specifier)
  {
    PlainIsNotEscaped(alias.specifier);
  }

  lemma AtWithin(text: string, at: nat, body: string, o: nat, line: string)
    requires At(text, at, body) && At(body, o, line)
    ensures At(text, at + o, line)
  {
    forall k | at + o <= k < at + o + |line| ensures text[k] == line[k - at - o] {
      assert text[k] == body[k - at];
    }
  }

  lemma LineInText(text: string, at: nat, body: string, lines: seq<string>, i: nat) returns (s: nat)
    requires i < |lines| && body == Join(lines)
    requires At(text, at, body) && at > 0 && text[at - 1] == '\n'
    ensures At(text, s, lines[i]) && LineStart(text, s)
  {
    var o := LineOfJoin(lines, i);
    s := at + o;
    AtWithin(text, at, body, o, lines[i]);
    if o > 0 {
      assert text[s - 1] == body[o - 1];
    }
  }

  lemma KeyOnLine(pattern: Pattern, text: string, s: nat, line: string, key: string)
    requires At(text, s, line) && LineStart(text, s) && BeginsWithKey(line, key) && IsKey(pattern, key)
    ensures KeyAt(pattern, text, s, s + 6, key)
  {
    var quoted := "\"" + key + "\":";
    forall k | s + 6 <= k < s + 6 + |quoted| ensures text[k] == quoted[k - s - 6] {
      assert line[k - s] == quoted[k - s - 6];
    }
    forall k | s <= k < s + 6 ensures Blank(text[k]) {
      assert line[k - s] == ' ';
    }
  }

  lemma KeyLineIsRead(pattern: Pattern, text: string, s: nat, line: string, key: string)
    requires ProperPattern(pattern) && At(text, s, line) && LineStart(text, s) && BeginsWithKey(line, key)
    requires IsKey(pattern, key)
    ensures key in Keys(pattern, text)
  {
    KeyOnLine(pattern, text, s, line, key);
    KeysAreFound(pattern, text, 0, s, s + 6, key);
  }

  /** A line of the body is a key of the text around it. */
  lemma LineIsKey(pattern: Pattern, text: string, at: nat, body: string, lines: seq<string>, i: nat, key: string)
    requires ProperPattern(pattern) && body == Join(lines)
    requires i < |lines| && BeginsWithKey(lines[i], key) && IsKey(pattern, key)
    requires At(text, at, body) && at > 0 && text[at - 1] == '\n'
    ensures key in Keys(pattern, text)
  {
    var s := LineInText(text, at, body, lines, i);
    KeyLineIsRead(pattern, text, s, lines[i], key);
  }

  /** A plain key that is read when a stretch is cut out is there when the stretch is put back, if the
      part behind it begins with a blank and the stretch ends a line. */
  lemma KeySurvives(hand: Pattern, bare: Pattern, next: string, begin: nat, end: nat, s: nat, q: nat, key: string)
    requires begin < end < |next| && next[end] == ' ' && next[end - 1] == '\n'
    requires KeyAt(hand, next[..begin] + next[end..], s, q, key) && Plain(key) && IsKey(bare, key)
    ensures exists s', q' :: KeyAt(bare, next, s', q', key)
  {
    var outside, quoted := next[..begin] + next[end..], "\"" + key + "\":";
    assert outside[begin] == ' ';
    assert forall k :: 0 <= k < |quoted| ==> quoted[k] != ' ';
    if q <= begin {
      assert q + |quoted| <= begin;
      assert forall k :: 0 <= k < begin ==> outside[k] == next[k];
      assert KeyAt(bare, next, s, q, key);
    } else {
      var shift := end - begin;
      forall k | q + shift <= k < q + shift + |quoted| ensures next[k] == quoted[k - q - shift] {
        assert outside[k - shift] == next[k];
      }
      var s' := if s > begin then s + shift else end;
      forall k | s' <= k < q + shift ensures Blank(next[k]) {
        assert outside[k - shift] == next[k];
      }
      assert s > begin ==> outside[s - 1] == next[s' - 1];
      assert KeyAt(bare, next, s', q + shift, key);
    }
  }

  lemma HandWrittenStaysMapped(x: Settings, text: string, body: string, key: string)
    requires ProperSettings(x) && WriteRegion(x.markers, text, body).Some? && !Occurs(x.markers.end, body)
    requires key in Keys(HandWritten(x), Outside(x.markers, text)) && Plain(key) && IsKey(Bare(x), key)
    ensures key in Keys(Bare(x), WriteRegion(x.markers, text, body).value)
  {
    var next, outside := WriteRegion(x.markers, text, body).value, Outside(x.markers, text);
    var begin, end, end' := OutsideIsPreserved(x.markers, text, body);
    KeysAreExact(Bare(x), next, key);
    KeysAreExact(HandWritten(x), outside, key);
    var s: nat, q: nat :| KeyAt(HandWritten(x), outside, s, q, key);
    assert next[end'] == x.markers.end[0];
    KeySurvives(HandWritten(x), Bare(x), next, begin, end', s, q, key);
  }

  lemma WrittenLineIsMapped(x: Settings, text: string, body: string, lines: seq<string>, i: nat, key: string)
    requires ProperSettings(x) && WriteRegion(x.markers, text, body).Some? && body == Join(lines)
    requires i < |lines| && BeginsWithKey(lines[i], key) && IsKey(Bare(x), key)
    ensures key in Keys(Bare(x), WriteRegion(x.markers, text, body).value)
  {
    var at := BodyIsWritten(x.markers, text, body);
    LineIsKey(Bare(x), WriteRegion(x.markers, text, body).value, at, body, lines, i, key);
  }

  /** After a rewrite every alias is mapped: by its own generated line, or by hand. */
  lemma EveryAliasIsMapped(x: Settings, text: string, aliases: seq<Alias>, alias: Alias)
    requires ProperSettings(x) && CommentFree(aliases) && Next(x, text, aliases).Some?
    requires alias in aliases && IsKey(Bare(x), alias.specifier) && Plain(alias.specifier)
    ensures alias.specifier in Keys(Bare(x), Next(x, text, aliases).value)
  {
    var handWritten := Keys(HandWritten(x), Outside(x.markers, text));
    if alias.specifier in handWritten {
      BodyIsMarkerFree(x, aliases, handWritten);
      HandWrittenStaysMapped(x, text, Body(aliases, handWritten), alias.specifier);
    } else {
      GeneratedIff(aliases, handWritten, alias);
      var generated := Generated(aliases, handWritten);
      var i :| 0 <= i < |generated| && generated[i] == alias;
      KeyOfLine(alias);
      WrittenLineIsMapped(x, text, Body(aliases, handWritten), Lines(generated), i, alias.specifier);
    }
  }

  // ---------- The command ----------

  function Unmapped(names: seq<string>, mapped: set<string>): seq<string> {
    if names == [] then [] else
      var before := Unmapped(names[..|names| - 1], mapped);
      if names[|names| - 1] in mapped then before else before + [names[|names| - 1]]
  }

  lemma {:induction false} UnmappedIff(names: seq<string>, mapped: set<string>, name: string)
    ensures name in Unmapped(names, mapped) <==> name in names && name !in mapped
  {
    if names == [] {
    } else {
      UnmappedIff(names[..|names| - 1], mapped, name);
      assert names == names[..|names| - 1] + [names[|names| - 1]];
    }
  }

  datatype Outcome = ClaimedTwice | NoMarkers | Uncovered(names: seq<string>) | Current | Stale | Wrote(text: string)

  function Verdict(x: Settings, packages: seq<WorkspacePackage>, text: string, next: string, check: bool): Outcome {
    var unmapped := Unmapped(Sort(Names(packages), x.leName), Keys(Bare(x), next));
    if unmapped != [] then Uncovered(unmapped)
    else if text == next then Current
    else if check then Stale else Wrote(next)
  }

  method Run(x: Settings, packages: seq<WorkspacePackage>, text: string, check: bool) returns (outcome: Outcome)
    ensures outcome.ClaimedTwice? <==> !Distinct(Claims(x, packages))
    ensures var next := Next(x, text, Sort(Claims(x, packages), x.le));
      !outcome.ClaimedTwice? ==> outcome == if next.None? then NoMarkers
        else Verdict(x, packages, text, next.value, check)
    ensures outcome.Stale? ==> check
    ensures outcome.Wrote? ==> !check && outcome.text != text
  {
    var aliases := CollectPackageAliases(x, packages);
    if aliases.None? {
      return ClaimedTwice;
    }
    var handWritten := ReadKeys(HandWritten(x), Outside(x.markers, text));
    var body := RenderAliases(aliases.value, handWritten);
    var next := WriteRegion(x.markers, text, body);
    if next.None? {
      return NoMarkers;
    }
    var mapped := ReadKeys(Bare(x), next.value);
    var unmapped := Unmapped(Sort(Names(packages), x.leName), mapped);
    if unmapped != [] {
      outcome := Uncovered(unmapped);
    } else if text == next.value {
      outcome := Current;
    } else if check {
      outcome := Stale;
    } else {
      outcome := Wrote(next.value);
    }
  }

  /** Directory entries are not empty and have no slash. */
  ghost predicate Entries(x: Settings, packages: seq<WorkspacePackage>) {
    NoComment(x.prefix) && !EndsInTwo(x.prefix) && forall i :: 0 <= i < |packages| ==>
      Entry(packages[i].group) && Entry(packages[i].directory)
  }

  ghost predicate Entry(name: string) {
    name != "" && '/' !in name
  }

  lemma {:induction false} ClaimsIff(x: Settings, packages: seq<WorkspacePackage>, alias: Alias)
    ensures alias in Claims(x, packages) <==>
      exists p :: p in packages && p.name == x.prefix + p.directory && alias == AliasOf(p)
  {
    if packages == [] {
    } else {
      var before, last := packages[..|packages| - 1], packages[|packages| - 1];
      ClaimsIff(x, before, alias);
      assert packages == before + [last];
    }
  }

  lemma SortedClaims(x: Settings, packages: seq<WorkspacePackage>, alias: Alias)
    ensures alias in Sort(Claims(x, packages), x.le) <==> alias in Claims(x, packages)
  {
    SortPermutes(Claims(x, packages), x.le);
    assert alias in multiset(Sort(Claims(x, packages), x.le)) <==> alias in multiset(Claims(x, packages));
  }

  /** No slash stands before another. */
  ghost predicate SingleSlashes(s: string) {
    forall k :: 0 <= k < |s| - 1 && s[k] == '/' ==> s[k + 1] != '/'
  }

  lemma JoinedSlashes(a: string, b: string)
    requires SingleSlashes(a) && SingleSlashes(b) && !(EndsInSlash(a) && b != "" && b[0] == '/')
    ensures SingleSlashes(a + b)
  {
  }

  lemma EntryIsCommentFree(x: Settings, p: WorkspacePackage)
    requires NoComment(x.prefix) && !EndsInTwo(x.prefix) && Entry(p.group) && Entry(p.directory)
    requires p.name == x.prefix + p.directory
    ensures NoComment(AliasOf(p).specifier) && NoComment(AliasOf(p).source)
  {
    forall k ensures !CommentAt(p.name, k) {
      assert !CommentAt(x.prefix, k);
      assert |x.prefix| <= k + 1 < |p.name| ==> p.name[k + 1] == p.directory[k + 1 - |x.prefix|];
    }
    var start := "./packages/";
    assert forall k :: 0 <= k < |start| && start[k] == '/' ==> k == 1 || k == 10;
    JoinedSlashes(start, p.group);
    JoinedSlashes(start + p.group, "/");
    JoinedSlashes(start + p.group + "/", p.directory);
    JoinedSlashes(start + p.group + "/" + p.directory, "/src");
  }

  lemma ClaimsAreCommentFree(x: Settings, packages: seq<WorkspacePackage>)
    requires Entries(x, packages)
    ensures CommentFree(Sort(Claims(x, packages), x.le))
  {
    var aliases := Sort(Claims(x, packages), x.le);
    forall i | 0 <= i < |aliases| ensures NoComment(aliases[i].specifier) && NoComment(aliases[i].source) {
      SortedClaims(x, packages, aliases[i]);
      ClaimsIff(x, packages, aliases[i]);
      var p :| p in packages && p.name == x.prefix + p.directory && aliases[i] == AliasOf(p);
      EntryIsCommentFree(x, p);
    }
  }

  lemma GeneratedAgain(x: Settings, text: string, aliases: seq<Alias>)
    requires Proper(x.markers) && CommentFree(aliases) && Next(x, text, aliases).Some?
    ensures Next(x, Next(x, text, aliases).value, aliases) == Next(x, text, aliases)
  {
    BodyIsMarkerFree(x, aliases, Keys(HandWritten(x), Outside(x.markers, text)));
    GeneratingIsIdempotent(x, text, aliases);
  }

  /** Once written, the config is current: the next run has nothing to do. */
  lemma WrittenIsCurrent(x: Settings, packages: seq<WorkspacePackage>, text: string, check: bool)
    requires Proper(x.markers) && Entries(x, packages)
    requires Next(x, text, Sort(Claims(x, packages), x.le)).Some?
    requires Verdict(x, packages, text, Next(x, text, Sort(Claims(x, packages), x.le)).value, false).Wrote?
    ensures var aliases := Sort(Claims(x, packages), x.le);
      var next := Next(x, text, aliases).value;
      Next(x, next, aliases) == Some(next) && Verdict(x, packages, next, next, check) == Current
  {
    ClaimsAreCommentFree(x, packages);
    GeneratedAgain(x, text, Sort(Claims(x, packages), x.le));
  }

  /** The gate never blames a package that is named after its directory, when that name is plain: only the
      others can be left without an alias. */
  lemma OnlyOthersAreUncovered(x: Settings, packages: seq<WorkspacePackage>, text: string, p: WorkspacePackage)
    requires ProperSettings(x) && Entries(x, packages) && p in packages && p.name == x.prefix + p.directory
    requires Plain(p.name)
    requires Next(x, text, Sort(Claims(x, packages), x.le)).Some?
    ensures var next := Next(x, text, Sort(Claims(x, packages), x.le)).value;
      p.name !in Unmapped(Sort(Names(packages), x.leName), Keys(Bare(x), next))
  {
    var aliases := Sort(Claims(x, packages), x.le);
    ClaimsAreCommentFree(x, packages);
    ClaimsIff(x, packages, AliasOf(p));
    SortedClaims(x, packages, AliasOf(p));
    assert p.name[|x.prefix|..] == p.directory;
    EveryAliasIsMapped(x, text, aliases, AliasOf(p));
    UnmappedIff(Sort(Names(packages), x.leName), Keys(Bare(x), Next(x, text, aliases).value), p.name);
  }

  lemma {:induction false} NamesIff(packages: seq<WorkspacePackage>, name: string)
    ensures name in Names(packages) <==> exists p :: p in packages && p.name == name
  {
    if packages == [] {
    } else {
      NamesIff(packages[..|packages| - 1], name);
      assert packages == packages[..|packages| - 1] + [packages[|packages| - 1]];
    }
  }

  lemma NothingUnmappedIff(packages: seq<WorkspacePackage>, le: (string, string) -> bool, mapped: set<string>)
    ensures Unmapped(Sort(Names(packages), le), mapped) == [] <==> forall p :: p in packages ==> p.name in mapped
  {
    var names := Sort(Names(packages), le);
    SortPermutes(Names(packages), le);
    forall name ensures name in names <==> exists p :: p in packages && p.name == name {
      NamesIff(packages, name);
      assert name in multiset(names) <==> name in multiset(Names(packages));
    }
    if Unmapped(names, mapped) == [] {
      forall p | p in packages ensures p.name in mapped {
        UnmappedIff(names, mapped, p.name);
      }
    } else {
      UnmappedIff(names, mapped, Unmapped(names, mapped)[0]);
    }
  }

  /** The gate passes exactly when every package name stands as a key in the new text. */
  lemma GatePassesIff(x: Settings, packages: seq<WorkspacePackage>, text: string, next: string, check: bool)
    requires ProperSettings(x)
    ensures !Verdict(x, packages, text, next, check).Uncovered? <==>
      forall p :: p in packages ==> exists s, q :: KeyAt(Bare(x), next, s, q, p.name)
  {
    NothingUnmappedIff(packages, x.leName, Keys(Bare(x), next));
    forall p | p in packages
      ensures p.name in Keys(Bare(x), next) <==> exists s, q :: KeyAt(Bare(x), next, s, q, p.name)
    {
      KeysAreExact(Bare(x), next, p.name);
    }
  }

  /** Otherwise exactly the names without a key are reported. */
  lemma UncoveredAreExact(x: Settings, packages: seq<WorkspacePackage>, text: string, next: string, check: bool,
                          name: string)
    requires ProperSettings(x) && Verdict(x, packages, text, next, check).Uncovered?
    ensures name in Verdict(x, packages, text, next, check).names <==>
      (exists p :: p in packages && p.name == name) && !exists s, q :: KeyAt(Bare(x), next, s, q, name)
  {
    var names := Names(packages);
    SortPermutes(names, x.leName);
    NamesIff(packages, name);
    assert name in multiset(Sort(names, x.leName)) <==> name in multiset(names);
    UnmappedIff(Sort(names, x.leName), Keys(Bare(x), next), name);
    KeysAreExact(Bare(x), next, name);
  }
}
