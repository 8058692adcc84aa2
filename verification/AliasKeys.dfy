/** How scripts/gen-tsconfig-paths.ts reads the keys of a config's `paths`: every match of one of its
    two patterns, a quoted name with the package prefix as the first thing on a line, before a colon. */
module AliasKeys {
  import opened MarkerRegion

  /** A pattern: the prefix of a name, and whether the rest may have a slash. */
  datatype Pattern = Pattern(prefix: string, bare: bool)

  predicate Blank(c: char) {
    c == ' ' || '\t' <= c <= '\r'
  }

  predicate LineStart(text: string, i: nat) {
    i == 0 || (i <= |text| && (text[i - 1] == '\n' || text[i - 1] == '\r'))
  }

  predicate IsKey(pattern: Pattern, key: string) {
    && |key| > |pattern.prefix| && pattern.prefix <= key
    && '"' !in key
    && (pattern.bare ==> '/' !in key[|pattern.prefix|..])
  }

  /** `key` stands quoted at `q`, before a colon, with nothing but blanks from the line start `s`. */
  ghost predicate KeyAt(pattern: Pattern, text: string, s: nat, q: nat, key: string) {
    && s <= q < |text| && LineStart(text, s) && (forall k :: s <= k < q ==> Blank(text[k]))
    && At(text, q, "\"" + key + "\":") && IsKey(pattern, key)
  }

  // ---------- Matching ----------

  function SkipBlanks(text: string, i: nat): (r: nat)
    requires i <= |text|
    ensures i <= r <= |text| && (forall k :: i <= k < r ==> Blank(text[k])) && (r < |text| ==> !Blank(text[r]))
    decreases |text| - i
  {
    if i < |text| && Blank(text[i]) then SkipBlanks(text, i + 1) else i
  }

  function NextQuote(text: string, i: nat): (r: nat)
    requires i <= |text|
    ensures i <= r <= |text| && (forall k :: i <= k < r ==> text[k] != '"') && (r < |text| ==> text[r] == '"')
    decreases |text| - i
  {
    if i < |text| && text[i] != '"' then NextQuote(text, i + 1) else i
  }

  datatype Match = NoMatch | Match(key: string, end: nat)

  /** The quoted key at `q`, if the pattern matches there. */
  function KeyFrom(pattern: Pattern, text: string, q: nat): (r: Match)
    requires q <= |text|
    ensures r.Match? ==> q + 1 < r.end <= |text|
  {
    if q == |text| || text[q] != '"' then NoMatch else
      var close := NextQuote(text, q + 1);
      if close + 1 < |text| && text[close + 1] == ':' && IsKey(pattern, text[q + 1..close])
      then Match(text[q + 1..close], close + 2) else NoMatch
  }

  function MatchAt(pattern: Pattern, text: string, i: nat): (r: Match)
    requires i <= |text|
    ensures r.Match? ==> i < r.end <= |text|
  {
    if LineStart(text, i) then KeyFrom(pattern, text, SkipBlanks(text, i)) else NoMatch
  }

  /** All matches from `i` on, each search going on where the last match ended. */
  function KeysFrom(pattern: Pattern, text: string, i: nat): set<string>
    requires i <= |text|
    decreases |text| - i
  {
    match MatchAt(pattern, text, i)
    case Match(key, end) => {key} + KeysFrom(pattern, text, end)
    case NoMatch => if i < |text| then KeysFrom(pattern, text, i + 1) else {}
  }

  function Keys(pattern: Pattern, text: string): set<string> {
    KeysFrom(pattern, text, 0)
  }

  lemma NextKeys(pattern: Pattern, text: string, i: nat, keys: set<string>)
    requires i <= |text| && MatchAt(pattern, text, i).Match?
    ensures var found := MatchAt(pattern, text, i);
      keys + KeysFrom(pattern, text, i) == keys + {found.key} + KeysFrom(pattern, text, found.end)
  {
  }

  method ReadKeys(pattern: Pattern, text: string) returns (keys: set<string>)
    ensures keys == Keys(pattern, text)
  {
    keys := {};
    var i := 0;
    while true
      invariant i <= |text|
      invariant Keys(pattern, text) == keys + KeysFrom(pattern, text, i)
      decreases |text| - i
    {
      var found := MatchAt(pattern, text, i);
      if found.Match? {
        NextKeys(pattern, text, i, keys);
        keys := keys + {found.key};
        i := found.end;
      } else if i < |text| {
        i := i + 1;
      } else {
        break;
      }
    }
  }

  // ---------- Exactness ----------

  ghost predicate ProperPattern(pattern: Pattern) {
    pattern.prefix != "" && pattern.prefix[0] != ':' && '"' !in pattern.prefix
  }

  /** The key at a quote is the one that stands there. */
  lemma KeyFromIff(pattern: Pattern, text: string, q: nat, key: string)
    requires q <= |text|
    ensures KeyFrom(pattern, text, q) == Match(key, q + |key| + 3) <==>
      At(text, q, "\"" + key + "\":") && IsKey(pattern, key)
    ensures KeyFrom(pattern, text, q).Match? && KeyFrom(pattern, text, q).key == key ==>
      KeyFrom(pattern, text, q).end == q + |key| + 3
  {
    var quoted := "\"" + key + "\":";
    if q < |text| && text[q] == '"' {
      var close := NextQuote(text, q + 1);
      if At(text, q, quoted) && IsKey(pattern, key) {
        forall k | q + 1 <= k < q + 1 + |key| ensures text[k] != '"' {
          assert text[k] == quoted[k - q] == key[k - q - 1];
        }
        assert text[q + 1 + |key|] == quoted[|key| + 1] && text[q + 2 + |key|] == quoted[|key| + 2];
        assert close == q + 1 + |key|;
        assert text[q + 1..close] == key;
      }
      if KeyFrom(pattern, text, q).Match? && KeyFrom(pattern, text, q).key == key {
        forall k | q <= k < q + |quoted| ensures text[k] == quoted[k - q] {
          assert q < k < close ==> text[k] == text[q + 1..close][k - q - 1];
        }
      }
    } else {
      assert quoted[0] == '"';
    }
  }

  /** Where blanks from `i` end at the quote of a key, the match at `i` is that key. */
  lemma MatchAtKey(pattern: Pattern, text: string, s: nat, q: nat, key: string)
    requires KeyAt(pattern, text, s, q, key)
    ensures MatchAt(pattern, text, s) == Match(key, q + |key| + 3)
  {
    KeyFromIff(pattern, text, q, key);
    assert text[q] == ("\"" + key + "\":")[0];
    assert SkipBlanks(text, s) == q;
  }

  /** A match found earlier either is this key or ends before its line. */
  lemma NotSwallowed(pattern: Pattern, text: string, i: nat, s: nat, q: nat, key: string)
    requires ProperPattern(pattern) && KeyAt(pattern, text, s, q, key) && i < s
    requires MatchAt(pattern, text, i).Match?
    ensures MatchAt(pattern, text, i).key == key || MatchAt(pattern, text, i).end <= s
  {
    var quoted := "\"" + key + "\":";
    assert text[q] == quoted[0] && text[q + 1] == quoted[1] == key[0] == pattern.prefix[0];
    var open := SkipBlanks(text, i);
    assert !Blank(text[q]);
    if open == q {
      KeyFromIff(pattern, text, q, key);
    } else {
      var close := NextQuote(text, open + 1);
      assert open < q;
      assert close != q;
      assert !Blank(text[close]) && !Blank(text[close + 1]);
    }
  }

  lemma {:induction false} KeysAreFound(pattern: Pattern, text: string, i: nat, s: nat, q: nat, key: string)
    requires ProperPattern(pattern) && KeyAt(pattern, text, s, q, key) && i <= s
    ensures key in KeysFrom(pattern, text, i)
    decreases |text| - i
  {
    if i == s {
      MatchAtKey(pattern, text, s, q, key);
    } else if MatchAt(pattern, text, i).Match? {
      NotSwallowed(pattern, text, i, s, q, key);
      if MatchAt(pattern, text, i).key != key {
        KeysAreFound(pattern, text, MatchAt(pattern, text, i).end, s, q, key);
      }
    } else {
      KeysAreFound(pattern, text, i + 1, s, q, key);
    }
  }

  lemma {:induction false} FoundKeysStand(pattern: Pattern, text: string, i: nat, key: string) returns (s: nat, q: nat)
    requires i <= |text| && key in KeysFrom(pattern, text, i)
    ensures KeyAt(pattern, text, s, q, key)
    decreases |text| - i
  {
    match MatchAt(pattern, text, i)
    case Match(found, end) =>
      if found == key {
        s, q := i, SkipBlanks(text, i);
        KeyFromIff(pattern, text, q, key);
      } else {
        s, q := FoundKeysStand(pattern, text, end, key);
      }
    case NoMatch =>
      s, q := FoundKeysStand(pattern, text, i + 1, key);
  }

  /** Although a search goes on behind the last match, no key is missed and none is made up. */
  lemma KeysAreExact(pattern: Pattern, text: string, key: string)
    requires ProperPattern(pattern)
    ensures key in Keys(pattern, text) <==> exists s, q :: KeyAt(pattern, text, s, q, key)
  {
    if key in Keys(pattern, text) {
      var s, q := FoundKeysStand(pattern, text, 0, key);
    }
    if s: nat, q: nat :| KeyAt(pattern, text, s, q, key) {
      KeysAreFound(pattern, text, 0, s, q, key);
    }
  }

  /** The name stands in quotes at `q`, before a colon, and nothing but blanks stands before it from the beginning
      `s` of a line. */
  ghost predicate QuotedFirst(text: string, s: nat, q: nat, key: string) {
    && s <= q && q + |key| + 3 <= |text| && (s == 0 || text[s - 1] == '\n' || text[s - 1] == '\r')
    && (forall k :: s <= k < q ==> text[k] in {' ', '\t', '\n', '\U{B}', '\U{C}', '\r'})
    && text[q] == '"' && text[q + 1..q + 1 + |key|] == key
    && text[q + 1 + |key|] == '"' && text[q + 2 + |key|] == ':'
  }

  /** The name goes on behind the prefix, without a quote, and for bare names without a slash. */
  ghost predicate NameBehind(prefix: string, bare: bool, key: string) {
    exists rest :: key == prefix + rest && rest != "" && '"' !in rest && (bare ==> '/' !in rest)
  }

  lemma KeyAtIff(pattern: Pattern, text: string, s: nat, q: nat, key: string)
    requires ProperPattern(pattern)
    ensures KeyAt(pattern, text, s, q, key) <==>
      QuotedFirst(text, s, q, key) && NameBehind(pattern.prefix, pattern.bare, key)
  {
    var quoted := "\"" + key + "\":";
    NameIff(pattern, key);
    assert quoted[0] == '"' && quoted[1..1 + |key|] == key && quoted[1 + |key|] == '"' && quoted[2 + |key|] == ':';
    if QuotedFirst(text, s, q, key) {
      assert q + |quoted| <= |text|;
      forall k | q <= k < q + |quoted| ensures text[k] == quoted[k - q] {
        if q < k < q + 1 + |key| { assert text[k] == text[q + 1..q + 1 + |key|][k - q - 1]; }
      }
    }
    if KeyAt(pattern, text, s, q, key) {
      assert text[q..q + |quoted|] == quoted;
      assert text[q + 1..q + 1 + |key|] == quoted[1..1 + |key|];
    }
  }

  lemma NameIff(pattern: Pattern, key: string)
    requires ProperPattern(pattern)
    ensures IsKey(pattern, key) <==> NameBehind(pattern.prefix, pattern.bare, key)
  {
    if IsKey(pattern, key) { assert key == pattern.prefix + key[|pattern.prefix|..]; }
    forall rest | key == pattern.prefix + rest && rest != "" && '"' !in rest && (pattern.bare ==> '/' !in rest)
      ensures IsKey(pattern, key)
    {
      assert key[|pattern.prefix|..] == rest;
    }
  }

  /** The keys of a text, told by its characters. */
  lemma KeysAreQuoted(pattern: Pattern, text: string, key: string)
    requires ProperPattern(pattern)
    ensures key in Keys(pattern, text) <==>
      NameBehind(pattern.prefix, pattern.bare, key) && exists s, q :: QuotedFirst(text, s, q, key)
  {
    KeysAreExact(pattern, text, key);
    forall s, q ensures KeyAt(pattern, text, s, q, key) <==>
        QuotedFirst(text, s, q, key) && NameBehind(pattern.prefix, pattern.bare, key) {
      KeyAtIff(pattern, text, s, q, key);
    }
  }
}
