/** The generated region of scripts/gen-tsconfig-paths.ts: replacing what is between two markers of a
    text, and nothing else. */
module MarkerRegion {
  import opened Options

  datatype Markers = Markers(begin: string, end: string)

  const INDENT := "      "
  const WORDS := " generated package aliases"
  const COMMAND := " \U{2014} pnpm run gen-tsconfig-paths"

  const MARKERS: Markers := Markers(INDENT + "// BEGIN" + WORDS + COMMAND, INDENT + "// END" + WORDS)

  predicate At(text: string, i: int, pattern: string) {
    0 <= i && i + |pattern| <= |text| && forall k :: i <= k < i + |pattern| ==> text[k] == pattern[k - i]
  }

  ghost predicate Occurs(pattern: string, text: string) {
    exists i :: At(text, i, pattern)
  }

  /** `indexOf` from a position on: the first occurrence, or -1. */
  function IndexFrom(text: string, pattern: string, i: nat): (r: int)
    requires i <= |text|
    ensures r < 0 ==> r == -1 && forall k :: i <= k ==> !At(text, k, pattern)
    ensures r >= 0 ==> i <= r && At(text, r, pattern) && forall k :: i <= k < r ==> !At(text, k, pattern)
    decreases |text| - i
  {
    if At(text, i, pattern) then i else if i == |text| then -1 else IndexFrom(text, pattern, i + 1)
  }

  function IndexOf(text: string, pattern: string): (r: int)
    ensures r < 0 ==> r == -1 && forall k :: !At(text, k, pattern)
    ensures r >= 0 ==> At(text, r, pattern) && forall k :: k < r ==> !At(text, k, pattern)
  {
    IndexFrom(text, pattern, 0)
  }

  ghost predicate First(text: string, pattern: string, i: int) {
    At(text, i, pattern) && forall k :: k < i ==> !At(text, k, pattern)
  }

  function WriteRegion(m: Markers, text: string, body: string): Option<string> {
    var begin, end := IndexOf(text, m.begin), IndexOf(text, m.end);
    if begin < 0 || end < begin then None
    else Some(text[..begin] + m.begin + "\n" + body + "\n" + m.end + text[end + |m.end|..])
  }

  /** What is read as written by hand: the text without the region, or all of it when there is none. */
  function Outside(m: Markers, text: string): string {
    var begin, end := IndexOf(text, m.begin), IndexOf(text, m.end);
    if begin < 0 || end < begin then text else text[..begin] + text[end..]
  }

  // ---------- The markers ----------

  /** Two slashes and a blank. */
  predicate CommentAt(s: string, k: int) {
    0 <= k < |s| - 2 && s[k] == '/' && s[k + 1] == '/' && s[k + 2] == ' '
  }

  /** The properties of the two markers that the region relies on. */
  ghost predicate Proper(m: Markers) {
    && m.end != "" && m.end[0] == ' '
    && '\n' !in m.begin && '\n' !in m.end
    && !Occurs(m.end, m.begin)
    && exists k :: CommentAt(m.end, k)
  }

  ghost predicate Without(s: string, c: char) {
    forall k :: 0 <= k < |s| ==> s[k] != c
  }

  lemma MarkersAreProper()
    ensures Proper(MARKERS)
  {
    NotNested(INDENT, "// BEGIN", "// END", WORDS, COMMAND);
  }

  /** The end marker is not in the begin marker: it would have to start where the slashes are. */
  lemma NotNested(indent: string, first: string, last: string, words: string, command: string)
    requires |indent| == 6 && |first| == 8 && |last| == 6 && indent[0] == ' '
    requires first[..3] == "// " && last[..3] == "// " && first[3] != last[3]
    requires Without(indent, '\n') && Without(first, '\n') && Without(last, '\n') && Without(words, '\n')
    requires Without(command, '\n')
    requires Without(first[3..], '/') && Without(words, '/') && Without(command, '/')
    ensures Proper(Markers(indent + first + words + command, indent + last + words))
  {
    var b, e := indent + first + words + command, indent + last + words;
    assert last[1] == '/' && last[2] == ' ' && last[0] == '/' && first[0] == '/';
    assert CommentAt(e, 6);
    forall k | 8 <= k < |b| ensures b[k] != '/' {
      assert 8 < k < 14 ==> b[k] == first[3..][k - 9];
    }
    forall i ensures !At(b, i, e) {
      if 0 <= i <= |b| - |e| {
        assert if i == 0 then b[i + 9] != e[9] else b[i + 7] != e[7];
      }
    }
  }

  // ---------- Where the markers are afterwards ----------

  /** A text in the shape a rewrite leaves: the old part up to and with the first marker, a line for
      the body, the second marker, the old rest. */
  function Rewritten(m: Markers, kept: string, body: string, rest: string): string {
    kept + "\n" + body + "\n" + m.end + rest
  }

  lemma Layout(m: Markers, kept: string, body: string, rest: string)
    ensures var next := Rewritten(m, kept, body, rest);
      && next[..|kept|] == kept
      && next[|kept|] == '\n'
      && At(next, |kept| + 1, body)
      && next[|kept| + 1 + |body|] == '\n'
      && At(next, |kept| + |body| + 2, m.end)
      && next[|kept| + |body| + 2 + |m.end|..] == rest
      && next[|kept| + |body| + 2..] == m.end + rest
  {
  }

  ghost predicate SameStretch(text: string, from: nat, other: string, to: nat, n: nat) {
    from + n <= |text| && to + n <= |other| && forall k :: from <= k < from + n ==> text[k] == other[k - from + to]
  }

  /** What occurs inside a stretch occurs wherever that stretch is. */
  lemma Transfer(text: string, from: nat, other: string, to: nat, n: nat, pattern: string, i: nat)
    requires SameStretch(text, from, other, to, n)
    requires At(text, i, pattern) && from <= i && i + |pattern| <= from + n
    ensures At(other, i - from + to, pattern)
  {
    forall k | i - from + to <= k < i - from + to + |pattern| ensures other[k] == pattern[k - (i - from + to)] {
      assert text[k - to + from] == other[k];
    }
  }

  /** The first end marker is not before the first begin marker. */
  ghost predicate Region(m: Markers, text: string, begin: nat, end: nat) {
    First(text, m.begin, begin) && First(text, m.end, end) && begin <= end
  }

  lemma BeginStays(m: Markers, text: string, begin: nat, body: string, rest: string)
    requires Proper(m) && First(text, m.begin, begin)
    ensures First(Rewritten(m, text[..begin + |m.begin|], body, rest), m.begin, begin)
  {
    var kept := text[..begin + |m.begin|];
    var next := Rewritten(m, kept, body, rest);
    Layout(m, kept, body, rest);
    Transfer(text, 0, next, 0, |kept|, m.begin, begin);
    forall q | q < begin ensures !At(next, q, m.begin) {
      if At(next, q, m.begin) {
        Transfer(next, 0, text, 0, |kept|, m.begin, q);
      }
    }
  }

  /** No end marker up to the line of the body. */
  lemma NoneBefore(m: Markers, text: string, begin: nat, end: nat, body: string, rest: string, q: nat)
    requires Proper(m) && Region(m, text, begin, end)
    requires At(Rewritten(m, text[..begin + |m.begin|], body, rest), q, m.end)
    ensures q > begin + |m.begin|
  {
    var kept := text[..begin + |m.begin|];
    var next := Rewritten(m, kept, body, rest);
    Layout(m, kept, body, rest);
    if q <= |kept| {
      Transfer(next, 0, text, 0, |kept|, m.end, q);
      Transfer(text, begin, m.begin, 0, |m.begin|, m.end, q);
    }
  }

  /** No end marker before the second one, unless the body itself has one. */
  lemma OnlyInBody(m: Markers, kept: string, body: string, rest: string, q: nat)
    requires Proper(m) && At(Rewritten(m, kept, body, rest), q, m.end)
    requires |kept| < q < |kept| + |body| + 2
    ensures Occurs(m.end, body)
  {
    var next := Rewritten(m, kept, body, rest);
    Layout(m, kept, body, rest);
    Transfer(next, |kept| + 1, body, 0, |body|, m.end, q);
  }

  /** After a rewrite with a body that has no end marker, both markers are found around that body. */
  lemma RegionIsFound(m: Markers, text: string, begin: nat, end: nat, body: string, rest: string)
    requires Proper(m) && Region(m, text, begin, end) && !Occurs(m.end, body)
    ensures Region(m, Rewritten(m, text[..begin + |m.begin|], body, rest), begin, begin + |m.begin| + |body| + 2)
  {
    var kept := text[..begin + |m.begin|];
    Layout(m, kept, body, rest);
    BeginStays(m, text, begin, body, rest);
    forall q | q < |kept| + |body| + 2 ensures !At(Rewritten(m, kept, body, rest), q, m.end) {
      if At(Rewritten(m, kept, body, rest), q, m.end) {
        NoneBefore(m, text, begin, end, body, rest, q);
        OnlyInBody(m, kept, body, rest, q);
      }
    }
  }

  /** A body with an end marker in it moves the region's end into that body. */
  lemma RegionIsShorter(m: Markers, text: string, begin: nat, end: nat, body: string, rest: string) returns (cut: nat)
    requires Proper(m) && Region(m, text, begin, end) && Occurs(m.end, body)
    ensures Region(m, Rewritten(m, text[..begin + |m.begin|], body, rest), begin, cut)
    ensures cut < begin + |m.begin| + |body| + 2
  {
    var kept := text[..begin + |m.begin|];
    var next := Rewritten(m, kept, body, rest);
    Layout(m, kept, body, rest);
    BeginStays(m, text, begin, body, rest);
    var q :| At(body, q, m.end);
    forall k | 0 <= k < |body| ensures body[k] == next[k + (|kept| + 1)] {}
    Transfer(body, 0, next, |kept| + 1, |body|, m.end, q);
    cut := IndexOf(next, m.end);
    NoneBefore(m, text, begin, end, body, rest, cut);
  }

  // ---------- Main results ----------

  lemma RegionOf(m: Markers, text: string, begin: nat, end: nat, body: string)
    requires Region(m, text, begin, end)
    ensures WriteRegion(m, text, body) == Some(Rewritten(m, text[..begin + |m.begin|], body, text[end + |m.end|..]))
    ensures Outside(m, text) == text[..begin] + text[end..]
  {
    assert text[..begin + |m.begin|] == text[..begin] + m.begin;
  }

  lemma WrittenRegion(m: Markers, text: string, body: string) returns (begin: nat, end: nat)
    requires WriteRegion(m, text, body).Some?
    ensures Region(m, text, begin, end) && begin == IndexOf(text, m.begin) && end == IndexOf(text, m.end)
  {
    begin, end := IndexOf(text, m.begin), IndexOf(text, m.end);
  }

  lemma SameOutside(m: Markers, text: string, begin: nat, end: nat, body: string)
    requires Proper(m) && Region(m, text, begin, end) && !Occurs(m.end, body)
    ensures var next, end' :=
      Rewritten(m, text[..begin + |m.begin|], body, text[end + |m.end|..]), begin + |m.begin| + |body| + 2;
      && Region(m, next, begin, end') && next[..begin] == text[..begin] && next[end'..] == text[end..]
      && At(next, begin + |m.begin| + 1, body) && next[begin + |m.begin|] == '\n' && next[end' - 1] == '\n'
  {
    var kept, rest := text[..begin + |m.begin|], text[end + |m.end|..];
    Layout(m, kept, body, rest);
    RegionIsFound(m, text, begin, end, body, rest);
    assert Rewritten(m, kept, body, rest)[..|kept|][..begin] == kept[..begin];
    assert text[end..] == m.end + rest;
  }

  /** Everything outside the markers is preserved: the text before, the text from the second marker on,
      and with them what is read as written by hand. */
  lemma OutsideIsPreserved(m: Markers, text: string, body: string) returns (begin: nat, end: nat, end': nat)
    requires Proper(m) && WriteRegion(m, text, body).Some? && !Occurs(m.end, body)
    ensures var next := WriteRegion(m, text, body).value;
      && Region(m, text, begin, end) && Region(m, next, begin, end')
      && next[..begin] == text[..begin] && next[end'..] == text[end..]
      && Outside(m, next) == Outside(m, text) == next[..begin] + next[end'..]
      && end' == begin + |m.begin| + |body| + 2 && At(next, begin + |m.begin| + 1, body)
      && next[begin + |m.begin|] == '\n' && next[end' - 1] == '\n'
  {
    begin, end := WrittenRegion(m, text, body);
    end' := begin + |m.begin| + |body| + 2;
    SameOutside(m, text, begin, end, body);
    RegionOf(m, text, begin, end, body);
    RegionOf(m, WriteRegion(m, text, body).value, begin, end', body);
  }

  /** The body is written on a line of its own. */
  lemma BodyIsWritten(m: Markers, text: string, body: string) returns (at: nat)
    requires WriteRegion(m, text, body).Some?
    ensures var next := WriteRegion(m, text, body).value; 0 < at <= |next| && next[at - 1] == '\n' && At(next, at, body)
  {
    var begin, end := WrittenRegion(m, text, body);
    RegionOf(m, text, begin, end, body);
    Layout(m, text[..begin + |m.begin|], body, text[end + |m.end|..]);
    at := begin + |m.begin| + 1;
  }

  /** Rewriting with another body forgets the first one. */
  lemma LastWriteWins(m: Markers, text: string, first: string, second: string)
    requires Proper(m) && WriteRegion(m, text, first).Some? && !Occurs(m.end, first)
    ensures WriteRegion(m, WriteRegion(m, text, first).value, second) == WriteRegion(m, text, second)
  {
    var begin, end := WrittenRegion(m, text, first);
    var kept, rest := text[..begin + |m.begin|], text[end + |m.end|..];
    var next := Rewritten(m, kept, first, rest);
    Layout(m, kept, first, rest);
    RegionIsFound(m, text, begin, end, first, rest);
    RegionOf(m, text, begin, end, first);
    RegionOf(m, text, begin, end, second);
    RegionOf(m, next, begin, begin + |m.begin| + |first| + 2, second);
  }

  lemma LongerAgain(m: Markers, text: string, body: string)
    requires Proper(m) && WriteRegion(m, text, body).Some? && Occurs(m.end, body)
    ensures WriteRegion(m, WriteRegion(m, text, body).value, body) != WriteRegion(m, text, body)
  {
    var begin, end := WrittenRegion(m, text, body);
    var kept, rest := text[..begin + |m.begin|], text[end + |m.end|..];
    var next := Rewritten(m, kept, body, rest);
    var cut := RegionIsShorter(m, text, begin, end, body, rest);
    RegionOf(m, text, begin, end, body);
    RegionOf(m, next, begin, cut, body);
    assert |next[cut + |m.end|..]| > |rest|;
  }

  /** Writing twice equals writing once exactly when the body has no end marker in it. */
  lemma RewriteIsIdempotentIff(m: Markers, text: string, body: string)
    requires Proper(m) && WriteRegion(m, text, body).Some?
    ensures WriteRegion(m, WriteRegion(m, text, body).value, body) == WriteRegion(m, text, body) <==>
      !Occurs(m.end, body)
  {
    if Occurs(m.end, body) {
      LongerAgain(m, text, body);
    } else {
      LastWriteWins(m, text, body, body);
    }
  }
}
