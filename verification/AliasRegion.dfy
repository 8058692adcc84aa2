/** What scripts/gen-tsconfig-paths.ts writes into the marked region, line by line. */
module AliasRegion {
  import opened JsonStrings
  import opened MarkerRegion
  import opened Sorting
  import opened TsconfigAliases

  /** The line stands there, behind a comma and a line break that follow the line before it. */
  ghost predicate StandsAt(body: string, lines: seq<string>, offsets: seq<nat>, i: nat)
    requires |offsets| == |lines| && i < |lines|
  {
    && At(body, offsets[i], lines[i])
    && if i == 0 then offsets[i] == 0
       else offsets[i] == offsets[i - 1] + |lines[i - 1]| + 2 && At(body, offsets[i] - 2, ",\n")
  }

  /** The body is the lines, with a comma and a line break between. */
  ghost predicate Stacked(body: string, lines: seq<string>, offsets: seq<nat>) {
    && |offsets| == |lines| && (forall i :: 0 <= i < |lines| ==> StandsAt(body, lines, offsets, i))
    && |body| == if lines == [] then 0 else offsets[|lines| - 1] + |lines[|lines| - 1]|
  }

  lemma Longer(a: string, b: string, text: string, i: nat, pattern: string)
    requires At(a, i, pattern) && text == a + b
    ensures At(text, i, pattern)
  {
    forall k | i <= k < i + |pattern| ensures text[k] == pattern[k - i] { assert text[k] == a[k]; }
  }

  lemma StillStands(body: string, lines: seq<string>, offsets: seq<nat>, i: nat, more: string, line: string, at: nat)
    requires |offsets| == |lines| && i < |lines| && StandsAt(body, lines, offsets, i)
    ensures StandsAt(body + more, lines + [line], offsets + [at], i)
  {
    Longer(body, more, body + more, offsets[i], lines[i]);
    if i > 0 { Longer(body, more, body + more, offsets[i] - 2, ",\n"); }
  }

  lemma LastStands(body: string, line: string)
    ensures At(body + (",\n" + line), |body|, ",\n") && At(body + (",\n" + line), |body| + 2, line)
  {
  }

  /** One more line behind the others. */
  lemma StackMore(body: string, lines: seq<string>, offsets: seq<nat>, line: string)
    requires lines != [] && Stacked(body, lines, offsets)
    ensures Stacked(body + (",\n" + line), lines + [line], offsets + [|body| + 2])
  {
    var text, all, at := body + (",\n" + line), lines + [line], offsets + [|body| + 2];
    forall i | 0 <= i < |lines| ensures StandsAt(text, all, at, i) {
      StillStands(body, lines, offsets, i, ",\n" + line, line, |body| + 2);
    }
    LastStands(body, line);
    assert StandsAt(text, all, at, |lines|);
  }

  lemma Regroup(a: string, b: string, c: string)
    ensures a + b + c == a + (b + c)
  {
  }

  lemma {:induction false} JoinStacks(lines: seq<string>) returns (offsets: seq<nat>)
    ensures Stacked(Join(lines), lines, offsets)
  {
    if |lines| <= 1 {
      offsets := seq(|lines|, _ => 0);
      assert forall i :: 0 <= i < |lines| ==> StandsAt(Join(lines), lines, offsets, i);
    } else {
      var init, last := lines[..|lines| - 1], lines[|lines| - 1];
      var before := JoinStacks(init);
      StackMore(Join(init), init, before, last);
      Regroup(Join(init), ",\n", last);
      offsets := before + [|Join(init)| + 2];
      assert lines == init + [last];
    }
  }

  /** A member of a JSON object that maps the key to a list of one text. */
  ghost predicate Maps(line: string, key: string, value: string) {
    exists k, v :: line == "      \"" + k + "\": [\"" + v + "\"]" && Encodes(k, key) && Encodes(v, value)
  }

  lemma LineMaps(alias: Alias)
    ensures Maps(Line(alias), alias.specifier, alias.source)
  {
    var k, v := EscapeAll(alias.specifier, Escape), EscapeAll(alias.source, Escape);
    QuoteEncodes(alias.specifier);
    QuoteEncodes(alias.source);
    assert Line(alias) == "      \"" + k + "\": [\"" + v + "\"]";
  }

  /** The package is named after its directory and its name is not mapped by hand. */
  predicate Generates(x: Settings, p: WorkspacePackage, handWritten: set<string>) {
    p.name == x.prefix + p.directory && p.name !in handWritten
  }

  /** The line maps the name of the package to its source directory. */
  ghost predicate MapsPackage(line: string, p: WorkspacePackage) {
    Maps(line, p.name, "./packages/" + p.group + "/" + p.directory + "/src")
  }

  lemma PackageIsMapped(p: WorkspacePackage, alias: Alias)
    requires AliasOf(p) == alias
    ensures MapsPackage(Line(alias), p)
  {
    LineMaps(alias);
  }

  /** Line by line, the packages of the list are mapped to their source directories, in collation order. */
  ghost predicate ListsPackages(x: Settings, lines: seq<string>, qs: seq<WorkspacePackage>) {
    && |qs| == |lines|
    && (forall i :: 0 <= i < |qs| ==> MapsPackage(lines[i], qs[i]))
    && forall i, j :: 0 <= i < j < |qs| ==> qs[i].name != qs[j].name && x.le(AliasOf(qs[i]), AliasOf(qs[j]))
  }

  lemma {:induction false} GeneratedKeepsOrder(aliases: seq<Alias>, handWritten: set<string>,
                                               le: (Alias, Alias) -> bool)
    requires Ordered(aliases, le) && Distinct(aliases)
    ensures Ordered(Generated(aliases, handWritten), le) && Distinct(Generated(aliases, handWritten))
  {
    if aliases != [] {
      var init, last := aliases[..|aliases| - 1], aliases[|aliases| - 1];
      GeneratedKeepsOrder(init, handWritten, le);
      var kept := Generated(init, handWritten);
      forall i | 0 <= i < |kept| ensures le(kept[i], last) && kept[i].specifier != last.specifier {
        GeneratedIff(init, handWritten, kept[i]);
        var j :| 0 <= j < |init| && init[j] == kept[i];
        assert aliases[j] == kept[i] && aliases[|aliases| - 1] == last;
      }
    }
  }

  lemma TwiceCounts<T>(xs: seq<T>, i: nat, j: nat)
    requires i < j < |xs| && xs[i] == xs[j]
    ensures multiset(xs)[xs[i]] >= 2
  {
    assert xs == xs[..j] + [xs[j]] + xs[j + 1..];
    assert xs[..j][i] in multiset(xs[..j]);
  }

  lemma OnceCounts(claims: seq<Alias>, k: nat)
    requires Distinct(claims) && k < |claims|
    ensures multiset(claims)[claims[k]] == 1
  {
    var before, after := claims[..k], claims[k + 1..];
    assert claims == before + [claims[k]] + after;
    forall i | 0 <= i < |before| ensures before[i] != claims[k] {}
    forall i | 0 <= i < |after| ensures after[i] != claims[k] { assert after[i] == claims[k + 1 + i]; }
    assert claims[k] !in multiset(before) && claims[k] !in multiset(after);
  }

  lemma SortKeepsDistinct(claims: seq<Alias>, le: (Alias, Alias) -> bool)
    requires Distinct(claims)
    ensures Distinct(Sort(claims, le))
  {
    var sorted := Sort(claims, le);
    SortPermutes(claims, le);
    forall i, j | 0 <= i < j < |sorted| ensures sorted[i].specifier != sorted[j].specifier {
      assert sorted[i] in multiset(claims) && sorted[j] in multiset(claims);
      var k :| 0 <= k < |claims| && claims[k] == sorted[i];
      var l :| 0 <= l < |claims| && claims[l] == sorted[j];
      OnceCounts(claims, k);
      if sorted[i] == sorted[j] { TwiceCounts(sorted, i, j); }
    }
  }

  lemma PackagesOf(x: Settings, packages: seq<WorkspacePackage>, aliases: seq<Alias>)
    returns (qs: seq<WorkspacePackage>)
    requires forall alias :: alias in aliases ==> alias in Claims(x, packages)
    ensures |qs| == |aliases| && forall i :: 0 <= i < |qs| ==>
      qs[i] in packages && qs[i].name == x.prefix + qs[i].directory && AliasOf(qs[i]) == aliases[i]
  {
    qs := [];
    for n := 0 to |aliases|
      invariant |qs| == n && forall i :: 0 <= i < n ==>
        qs[i] in packages && qs[i].name == x.prefix + qs[i].directory && AliasOf(qs[i]) == aliases[i]
    {
      ClaimsIff(x, packages, aliases[n]);
      var p :| p in packages && p.name == x.prefix + p.directory && aliases[n] == AliasOf(p);
      qs := qs + [p];
    }
  }

  lemma GeneratedClaims(x: Settings, packages: seq<WorkspacePackage>, handWritten: set<string>)
    returns (generated: seq<Alias>)
    requires TotalPreorder(x.le) && Distinct(Claims(x, packages))
    ensures Body(Sort(Claims(x, packages), x.le), handWritten) == Join(Lines(generated))
    ensures Ordered(generated, x.le) && Distinct(generated)
    ensures forall alias :: alias in generated <==>
      alias in Claims(x, packages) && alias.specifier !in handWritten
  {
    var aliases := Sort(Claims(x, packages), x.le);
    generated := Generated(aliases, handWritten);
    forall alias ensures alias in generated <==> alias in Claims(x, packages) && alias.specifier !in handWritten {
      GeneratedIff(aliases, handWritten, alias);
      SortedClaims(x, packages, alias);
    }
    SortOrders(Claims(x, packages), x.le);
    SortKeepsDistinct(Claims(x, packages), x.le);
    GeneratedKeepsOrder(aliases, handWritten, x.le);
  }

  lemma EachIsMapped(generated: seq<Alias>, qs: seq<WorkspacePackage>)
    requires |qs| == |generated| && forall i :: 0 <= i < |qs| ==> AliasOf(qs[i]) == generated[i]
    ensures forall i :: 0 <= i < |qs| ==> MapsPackage(Line(generated[i]), qs[i])
  {
    forall i | 0 <= i < |qs| ensures MapsPackage(Line(generated[i]), qs[i]) {
      PackageIsMapped(qs[i], generated[i]);
    }
  }

  lemma LinesListPackages(x: Settings, generated: seq<Alias>, qs: seq<WorkspacePackage>)
    requires |qs| == |generated| && forall i :: 0 <= i < |qs| ==> AliasOf(qs[i]) == generated[i]
    requires Ordered(generated, x.le) && Distinct(generated)
    ensures ListsPackages(x, Lines(generated), qs)
  {
    EachIsMapped(generated, qs);
  }

  /** The body is one line for every package that is named after its directory and not mapped by hand. */
  lemma BodyListsPackages(x: Settings, packages: seq<WorkspacePackage>, handWritten: set<string>)
    returns (lines: seq<string>, offsets: seq<nat>, qs: seq<WorkspacePackage>)
    requires TotalPreorder(x.le) && Distinct(Claims(x, packages))
    ensures Stacked(Body(Sort(Claims(x, packages), x.le), handWritten), lines, offsets) && ListsPackages(x, lines, qs)
    ensures forall q :: q in qs ==> q in packages && Generates(x, q, handWritten)
    ensures forall p :: p in packages && Generates(x, p, handWritten) ==>
      exists q :: q in qs && q.name == p.name
  {
    var generated := GeneratedClaims(x, packages, handWritten);
    lines := Lines(generated);
    offsets := JoinStacks(lines);
    qs := PackagesOf(x, packages, generated);
    LinesListPackages(x, generated, qs);
    forall q | q in qs ensures q in packages && Generates(x, q, handWritten) {
      var i :| 0 <= i < |qs| && qs[i] == q;
      assert AliasOf(q) == generated[i] && generated[i] in generated;
    }
    forall p | p in packages && Generates(x, p, handWritten) ensures exists q :: q in qs && q.name == p.name {
      ClaimsIff(x, packages, AliasOf(p));
      var i :| 0 <= i < |generated| && generated[i] == AliasOf(p);
      assert qs[i] in qs && AliasOf(qs[i]) == AliasOf(p);
    }
  }
}
