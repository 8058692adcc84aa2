/** The sealed archive of scripts/archived-agent-notes.ts and its gate, scripts/verify-archived-agent-notes.ts:
    a manifest of content hashes that may only grow. */
module ArchiveSeal {
  import opened Options
  import opened Sorting

  /** A JavaScript object or `Map` with string keys: entries in insertion order. */
  datatype Entry<+V> = Entry(path: string, value: V)

  type Hash = string

  datatype Fault = Missing(path: string) | Changed(path: string)

  datatype Extension = Extension(files: seq<Entry<Hash>>, added: seq<string>, errors: seq<Fault>)

  /** How contents are hashed, and how paths are collated. */
  datatype Archive<!C> = Archive(hash: C -> Hash, le: (Entry<C>, Entry<C>) -> bool)

  ghost predicate Unique<V>(entries: seq<Entry<V>>) {
    forall i, j :: 0 <= i < j < |entries| ==> entries[i].path != entries[j].path
  }

  function Find<V>(entries: seq<Entry<V>>, path: string): Option<V> {
    if entries == [] then None
    else if entries[0].path == path then Some(entries[0].value)
    else Find(entries[1..], path)
  }

  function Hashed<C>(archive: Archive<C>, artifacts: seq<Entry<C>>): (r: seq<Entry<Hash>>)
    ensures |r| == |artifacts|
    ensures forall i :: 0 <= i < |r| ==> r[i] == Entry(artifacts[i].path, archive.hash(artifacts[i].value))
  {
    if artifacts == [] then []
    else
      var last := artifacts[|artifacts| - 1];
      Hashed(archive, artifacts[..|artifacts| - 1]) + [Entry(last.path, archive.hash(last.value))]
  }

  // ---------- Faults against a sealed manifest ----------

  function FaultOf(entry: Entry<Hash>, current: Option<Hash>): seq<Fault> {
    match current
    case None => [Missing(entry.path)]
    case Some(h) => if h != entry.value then [Changed(entry.path)] else []
  }

  function Faults(sealed: seq<Entry<Hash>>, current: seq<Entry<Hash>>): seq<Fault> {
    if sealed == [] then [] else
      var last := sealed[|sealed| - 1];
      Faults(sealed[..|sealed| - 1], current) + FaultOf(last, Find(current, last.path))
  }

  /** Every sealed entry is there, unchanged. */
  ghost predicate Keeps(sealed: seq<Entry<Hash>>, current: seq<Entry<Hash>>) {
    forall p :: Find(sealed, p).Some? ==> Find(current, p) == Find(sealed, p)
  }

  method ValidateArchiveManifestExtension(baseline: seq<Entry<Hash>>, current: seq<Entry<Hash>>)
    returns (errors: seq<Fault>)
    ensures errors == Faults(baseline, current)
  {
    errors := [];
    for i := 0 to |baseline|
      invariant errors == Faults(baseline[..i], current)
    {
      assert baseline[..i + 1][..i] == baseline[..i];
      var actual := Find(current, baseline[i].path);
      if actual == None {
        errors := errors + [Missing(baseline[i].path)];
      } else if actual.value != baseline[i].value {
        errors := errors + [Changed(baseline[i].path)];
      }
    }
    assert baseline[..|baseline|] == baseline;
  }

  lemma {:induction false} FindAppend<V>(a: seq<Entry<V>>, b: seq<Entry<V>>, p: string)
    ensures Find(a + b, p) == if Find(a, p).Some? then Find(a, p) else Find(b, p)
  {
    if a == [] {
      assert a + b == b;
    } else {
      FindAppend(a[1..], b, p);
      assert (a + b)[1..] == a[1..] + b;
    }
  }

  lemma {:induction false} FindAt<V>(entries: seq<Entry<V>>, i: nat)
    requires Unique(entries) && i < |entries|
    ensures Find(entries, entries[i].path) == Some(entries[i].value)
  {
    if i > 0 {
      FindAt(entries[1..], i - 1);
    }
  }

  lemma {:induction false} FoundAt<V>(entries: seq<Entry<V>>, p: string) returns (i: nat)
    requires Find(entries, p).Some?
    ensures i < |entries| && entries[i] == Entry(p, Find(entries, p).value)
  {
    if entries[0].path == p {
      i := 0;
    } else {
      i := FoundAt(entries[1..], p);
      i := i + 1;
    }
  }

  lemma NotFoundBefore<V>(entries: seq<Entry<V>>, n: nat, i: nat)
    requires Unique(entries) && n <= i < |entries|
    ensures Find(entries[..n], entries[i].path) == None
  {
    if Find(entries[..n], entries[i].path).Some? {
      var j := FoundAt(entries[..n], entries[i].path);
      assert false;
    }
  }

  lemma LastEntry(sealed: seq<Entry<Hash>>, p: string)
    requires Unique(sealed) && sealed != []
    ensures var last := sealed[|sealed| - 1];
      Find(sealed, p) == if last.path == p then Some(last.value) else Find(sealed[..|sealed| - 1], p)
    ensures Find(sealed[..|sealed| - 1], sealed[|sealed| - 1].path) == None
  {
    var before, last := sealed[..|sealed| - 1], sealed[|sealed| - 1];
    assert sealed == before + [last];
    FindAppend(before, [last], p);
    NotFoundBefore(sealed, |before|, |before|);
  }

  lemma FaultsOfLast(sealed: seq<Entry<Hash>>, current: seq<Entry<Hash>>, f: Fault)
    requires sealed != []
    ensures var last := sealed[|sealed| - 1];
      f in Faults(sealed, current) <==>
        f in Faults(sealed[..|sealed| - 1], current) || f in FaultOf(last, Find(current, last.path))
  {
  }

  /** A fault names exactly the sealed entries that are gone or differ. */
  lemma {:induction false} FaultsAreExact(sealed: seq<Entry<Hash>>, current: seq<Entry<Hash>>, p: string)
    requires Unique(sealed)
    ensures Missing(p) in Faults(sealed, current) <==> Find(sealed, p).Some? && Find(current, p).None?
    ensures Changed(p) in Faults(sealed, current) <==>
      Find(sealed, p).Some? && Find(current, p).Some? && Find(current, p) != Find(sealed, p)
  {
    if sealed == [] {
    } else {
      LastEntry(sealed, p);
      FaultsOfLast(sealed, current, Missing(p));
      FaultsOfLast(sealed, current, Changed(p));
      FaultsAreExact(sealed[..|sealed| - 1], current, p);
    }
  }

  /** No fault is reported exactly when everything sealed is kept. */
  lemma NoFaultsIff(sealed: seq<Entry<Hash>>, current: seq<Entry<Hash>>)
    requires Unique(sealed)
    ensures Faults(sealed, current) == [] <==> Keeps(sealed, current)
  {
    if Faults(sealed, current) == [] {
      forall p | Find(sealed, p).Some? ensures Find(current, p) == Find(sealed, p) {
        FaultsAreExact(sealed, current, p);
      }
    } else {
      var f := Faults(sealed, current)[0];
      assert f in Faults(sealed, current);
      FaultsAreExact(sealed, current, f.path);
    }
  }

  // ---------- Extending ----------

  /** The entries whose path is not sealed yet. */
  function Fresh(files: seq<Entry<Hash>>, entries: seq<Entry<Hash>>): seq<Entry<Hash>> {
    if entries == [] then [] else
      var last := entries[|entries| - 1];
      var before := Fresh(files, entries[..|entries| - 1]);
      if Find(files, last.path).Some? then before else before + [last]
  }

  function Paths<V>(entries: seq<Entry<V>>): seq<string> {
    if entries == [] then [] else Paths(entries[..|entries| - 1]) + [entries[|entries| - 1].path]
  }

  function Candidates<C>(archive: Archive<C>, artifacts: seq<Entry<C>>): seq<Entry<Hash>> {
    Hashed(archive, Sort(artifacts, archive.le))
  }

  function Extend<C>(archive: Archive<C>, existing: seq<Entry<Hash>>, artifacts: seq<Entry<C>>): Extension {
    var unsealed := Fresh(existing, Candidates(archive, artifacts));
    Extension(existing + unsealed, Paths(unsealed), Faults(existing, Hashed(archive, artifacts)))
  }

  lemma {:induction false} FindFresh(files: seq<Entry<Hash>>, entries: seq<Entry<Hash>>, p: string)
    requires Unique(entries)
    ensures Find(Fresh(files, entries), p) == if Find(files, p).Some? then None else Find(entries, p)
  {
    if entries == [] {
    } else {
      var last := entries[|entries| - 1];
      var before := entries[..|entries| - 1];
      FindFresh(files, before, p);
      LastEntry(entries, p);
      FindAppend(Fresh(files, before), [last], p);
    }
  }

  lemma {:induction false} FreshIsUnique(files: seq<Entry<Hash>>, entries: seq<Entry<Hash>>)
    requires Unique(entries) && Unique(files)
    ensures Unique(files + Fresh(files, entries))
  {
    if entries == [] {
      assert files + Fresh(files, entries) == files;
    } else {
      var last := entries[|entries| - 1];
      var before := entries[..|entries| - 1];
      FreshIsUnique(files, before);
      if Find(files, last.path).None? {
        var all := files + Fresh(files, before);
        assert files + Fresh(files, entries) == all + [last];
        FindAppend(files, Fresh(files, before), last.path);
        FindFresh(files, before, last.path);
        LastEntry(entries, last.path);
        forall i | 0 <= i < |all| ensures all[i].path != last.path {
          FindAt(all, i);
        }
      }
    }
  }

  lemma {:induction false} FindInserted<C>(x: Entry<C>, xs: seq<Entry<C>>, le: (Entry<C>, Entry<C>) -> bool, p: string)
    requires Find(xs, x.path) == None
    ensures Find(Insert(x, xs, le), p) == if p == x.path then Some(x.value) else Find(xs, p)
  {
    if xs == [] || le(x, xs[0]) {
      assert ([x] + xs)[1..] == xs;
    } else {
      FindInserted(x, xs[1..], le, p);
      assert ([xs[0]] + Insert(x, xs[1..], le))[1..] == Insert(x, xs[1..], le);
    }
  }

  /** Uniqueness, said through lookups so that it survives sorting. */
  lemma {:induction false} UniqueIff<V>(entries: seq<Entry<V>>)
    ensures Unique(entries) <==> entries == [] || (Find(entries[1..], entries[0].path) == None && Unique(entries[1..]))
  {
    if entries == [] {
    } else {
      var rest := entries[1..];
      if Find(rest, entries[0].path).Some? {
        var i := FoundAt(rest, entries[0].path);
        assert entries[i + 1].path == entries[0].path;
      } else if Unique(rest) {
        forall j | 0 <= j < |rest| ensures rest[j].path != entries[0].path {
          FindAt(rest, j);
        }
        assert entries == [entries[0]] + rest;
      }
      if Unique(entries) {
        forall i, j | 0 <= i < j < |rest| ensures rest[i].path != rest[j].path {
          assert entries[i + 1].path != entries[j + 1].path;
        }
      }
    }
  }

  lemma {:induction false} InsertedIsUnique<C>(x: Entry<C>, xs: seq<Entry<C>>, le: (Entry<C>, Entry<C>) -> bool)
    requires Unique(xs) && Find(xs, x.path) == None
    ensures Unique(Insert(x, xs, le))
  {
    if xs == [] || le(x, xs[0]) {
      assert ([x] + xs)[1..] == xs;
      UniqueIff([x] + xs);
    } else {
      UniqueIff(xs);
      InsertedIsUnique(x, xs[1..], le);
      var rest := Insert(x, xs[1..], le);
      FindInserted(x, xs[1..], le, xs[0].path);
      assert ([xs[0]] + rest)[1..] == rest;
      UniqueIff([xs[0]] + rest);
    }
  }

  lemma {:induction false} FindSorted<C>(xs: seq<Entry<C>>, le: (Entry<C>, Entry<C>) -> bool)
    requires Unique(xs)
    ensures Unique(Sort(xs, le))
    ensures forall p :: Find(Sort(xs, le), p) == Find(xs, p)
  {
    if xs == [] {
    } else {
      UniqueIff(xs);
      FindSorted(xs[1..], le);
      InsertedIsUnique(xs[0], Sort(xs[1..], le), le);
      forall p ensures Find(Sort(xs, le), p) == Find(xs, p) {
        FindInserted(xs[0], Sort(xs[1..], le), le, p);
      }
    }
  }

  function HashOf<C>(archive: Archive<C>, content: Option<C>): Option<Hash> {
    match content case None => None case Some(c) => Some(archive.hash(c))
  }

  lemma {:induction false} FindHashed<C>(archive: Archive<C>, artifacts: seq<Entry<C>>, p: string)
    requires Unique(artifacts)
    ensures Unique(Hashed(archive, artifacts))
    ensures Find(Hashed(archive, artifacts), p) == HashOf(archive, Find(artifacts, p))
  {
    var hashed := Hashed(archive, artifacts);
    if Find(artifacts, p).Some? {
      var i := FoundAt(artifacts, p);
      FindAt(hashed, i);
    } else if Find(hashed, p).Some? {
      var i := FoundAt(hashed, p);
      FindAt(artifacts, i);
    }
  }

  lemma FindCandidate<C>(archive: Archive<C>, artifacts: seq<Entry<C>>, p: string)
    requires Unique(artifacts)
    ensures Unique(Candidates(archive, artifacts)) && Unique(Hashed(archive, artifacts))
    ensures Find(Candidates(archive, artifacts), p) == HashOf(archive, Find(artifacts, p))
    ensures Find(Hashed(archive, artifacts), p) == HashOf(archive, Find(artifacts, p))
  {
    FindSorted(artifacts, archive.le);
    FindHashed(archive, Sort(artifacts, archive.le), p);
    FindHashed(archive, artifacts, p);
  }

  method CheckArtifacts<C>(archive: Archive<C>, existing: seq<Entry<Hash>>, artifacts: seq<Entry<C>>)
    returns (errors: seq<Fault>)
    requires Unique(artifacts)
    ensures errors == Faults(existing, Hashed(archive, artifacts))
  {
    errors := [];
    ghost var hashed := Hashed(archive, artifacts);
    for i := 0 to |existing|
      invariant errors == Faults(existing[..i], hashed)
    {
      assert existing[..i + 1] == existing[..i] + [existing[i]];
      FindHashed(archive, artifacts, existing[i].path);
      var content := Find(artifacts, existing[i].path);
      if content.None? {
        errors := errors + [Missing(existing[i].path)];
      } else if archive.hash(content.value) != existing[i].value {
        errors := errors + [Changed(existing[i].path)];
      }
    }
    assert existing[..|existing|] == existing;
  }

  /** Preserve what is sealed, append what is new in collation order, and report every fault. */
  method ExtendArchiveManifest<C>(archive: Archive<C>, existing: seq<Entry<Hash>>, artifacts: seq<Entry<C>>)
    returns (r: Extension)
    requires Unique(existing) && Unique(artifacts)
    ensures r == Extend(archive, existing, artifacts)
  {
    var errors := CheckArtifacts(archive, existing, artifacts);
    var files, added: seq<string> := existing, [];
    var sorted := Sort(artifacts, archive.le);
    ghost var candidates := Hashed(archive, sorted);
    FindCandidate(archive, artifacts, "");
    for i := 0 to |sorted|
      invariant files == existing + Fresh(existing, candidates[..i])
      invariant added == Paths(Fresh(existing, candidates[..i]))
    {
      AppendStep(existing, candidates, i);
      var entry := sorted[i];
      if Find(files, entry.path).None? {
        files := files + [Entry(entry.path, archive.hash(entry.value))];
        added := added + [entry.path];
      }
    }
    assert candidates[..|sorted|] == candidates;
    r := Extension(files, added, errors);
  }

  /** Looking a path up in the growing object is looking it up in what was sealed before. */
  lemma NotYetAppended(existing: seq<Entry<Hash>>, candidates: seq<Entry<Hash>>, i: nat)
    requires Unique(candidates) && i < |candidates|
    ensures Find(existing + Fresh(existing, candidates[..i]), candidates[i].path) == Find(existing, candidates[i].path)
  {
    var p := candidates[i].path;
    FindAppend(existing, Fresh(existing, candidates[..i]), p);
    FindFresh(existing, candidates[..i], p);
    var upTo := candidates[..i + 1];
    assert upTo[..i] == candidates[..i];
    LastEntry(upTo, p);
  }

  /** One turn of the loop that appends. */
  lemma AppendStep(existing: seq<Entry<Hash>>, candidates: seq<Entry<Hash>>, i: nat)
    requires Unique(candidates) && i < |candidates|
    ensures var now, next := Fresh(existing, candidates[..i]), Fresh(existing, candidates[..i + 1]);
      var entry := candidates[i];
      if Find(existing + now, entry.path).Some? then next == now
      else existing + next == existing + now + [entry] && Paths(next) == Paths(now) + [entry.path]
  {
    NotYetAppended(existing, candidates, i);
    assert candidates[..i + 1][..i] == candidates[..i];
    var now := Fresh(existing, candidates[..i]);
    assert existing + now + [candidates[i]] == existing + (now + [candidates[i]]);
  }

  /** After an extension a path has its sealed hash, or the hash of its artifact; every earlier seal is
      kept, so the old manifest accepts the new one. */
  lemma ExtensionSeals<C>(archive: Archive<C>, existing: seq<Entry<Hash>>, artifacts: seq<Entry<C>>)
    requires Unique(existing) && Unique(artifacts)
    ensures var files := Extend(archive, existing, artifacts).files;
      && Unique(files)
      && (forall p :: Find(files, p) == if Find(existing, p).Some? then Find(existing, p)
        else HashOf(archive, Find(artifacts, p)))
      && Faults(existing, files) == []
  {
    var candidates := Candidates(archive, artifacts);
    var files := Extend(archive, existing, artifacts).files;
    FindCandidate(archive, artifacts, "");
    FreshIsUnique(existing, candidates);
    forall p
      ensures Find(files, p) == if Find(existing, p).Some? then Find(existing, p)
        else HashOf(archive, Find(artifacts, p))
    {
      FindCandidate(archive, artifacts, p);
      FindFresh(existing, candidates, p);
      FindAppend(existing, Fresh(existing, candidates), p);
    }
    NoFaultsIff(existing, files);
  }

  lemma {:induction false} NothingFresh(files: seq<Entry<Hash>>, entries: seq<Entry<Hash>>)
    ensures Fresh(files, entries) == [] <==> forall i :: 0 <= i < |entries| ==> Find(files, entries[i].path).Some?
  {
    if entries == [] {
    } else {
      NothingFresh(files, entries[..|entries| - 1]);
      assert forall i :: 0 <= i < |entries| - 1 ==> entries[..|entries| - 1][i] == entries[i];
    }
  }

  ghost predicate AllSealed<C>(existing: seq<Entry<Hash>>, artifacts: seq<Entry<C>>) {
    forall p :: Find(artifacts, p).Some? ==> Find(existing, p).Some?
  }

  lemma CandidatesSealedIff<C>(archive: Archive<C>, existing: seq<Entry<Hash>>, artifacts: seq<Entry<C>>)
    requires Unique(artifacts)
    ensures var candidates := Candidates(archive, artifacts);
      AllSealed(existing, artifacts) <==> forall i :: 0 <= i < |candidates| ==> Find(existing, candidates[i].path).Some?
  {
    var candidates := Candidates(archive, artifacts);
    FindCandidate(archive, artifacts, "");
    if forall i :: 0 <= i < |candidates| ==> Find(existing, candidates[i].path).Some? {
      forall p | Find(artifacts, p).Some? ensures Find(existing, p).Some? {
        FindCandidate(archive, artifacts, p);
        var i := FoundAt(candidates, p);
      }
    }
    if AllSealed(existing, artifacts) {
      forall i | 0 <= i < |candidates| ensures Find(existing, candidates[i].path).Some? {
        FindAt(candidates, i);
        FindCandidate(archive, artifacts, candidates[i].path);
      }
    }
  }

  /** Nothing is added exactly when every artifact is sealed. */
  lemma NothingAddedIff<C>(archive: Archive<C>, existing: seq<Entry<Hash>>, artifacts: seq<Entry<C>>)
    requires Unique(artifacts)
    ensures Extend(archive, existing, artifacts).added == [] <==> AllSealed(existing, artifacts)
    ensures Extend(archive, existing, artifacts).added == [] ==> Extend(archive, existing, artifacts).files == existing
  {
    var candidates := Candidates(archive, artifacts);
    CandidatesSealedIff(archive, existing, artifacts);
    NothingFresh(existing, candidates);
    if Fresh(existing, candidates) != [] {
      assert |Paths(Fresh(existing, candidates))| > 0;
    }
  }

  /** Entries that are kept report no fault. */
  lemma {:induction false} KeptTail(sealed: seq<Entry<Hash>>, current: seq<Entry<Hash>>, n: nat)
    requires n <= |sealed|
    requires forall i :: n <= i < |sealed| ==> Find(current, sealed[i].path) == Some(sealed[i].value)
    ensures Faults(sealed, current) == Faults(sealed[..n], current)
    decreases |sealed|
  {
    if n == |sealed| {
      assert sealed[..n] == sealed;
    } else {
      var before := sealed[..|sealed| - 1];
      KeptTail(before, current, n);
      assert before[..n] == sealed[..n];
    }
  }

  /** Extending again with the same artifacts adds nothing and reports the same faults. */
  lemma RepeatAddsNothing<C>(archive: Archive<C>, existing: seq<Entry<Hash>>, artifacts: seq<Entry<C>>)
    requires Unique(existing) && Unique(artifacts)
    ensures var first := Extend(archive, existing, artifacts);
      Extend(archive, first.files, artifacts) == first.(added := [])
  {
    var first := Extend(archive, existing, artifacts);
    var hashed, n := Hashed(archive, artifacts), |existing|;
    ExtensionSeals(archive, existing, artifacts);
    NothingAddedIff(archive, first.files, artifacts);
    forall i | n <= i < |first.files| ensures Find(hashed, first.files[i].path) == Some(first.files[i].value) {
      NewSealIsHash(archive, existing, artifacts, i);
    }
    KeptTail(first.files, hashed, n);
    assert first.files[..n] == existing;
  }

  lemma NewSealIsHash<C>(archive: Archive<C>, existing: seq<Entry<Hash>>, artifacts: seq<Entry<C>>, i: nat)
    requires Unique(existing) && Unique(artifacts)
    requires |existing| <= i < |Extend(archive, existing, artifacts).files|
    ensures var entry := Extend(archive, existing, artifacts).files[i];
      Find(Hashed(archive, artifacts), entry.path) == Some(entry.value)
  {
    var files := Extend(archive, existing, artifacts).files;
    var p := files[i].path;
    ExtensionSeals(archive, existing, artifacts);
    FindAt(files, i);
    FindHashed(archive, artifacts, p);
    NotFoundBefore(files, |existing|, i);
    assert files[..|existing|] == existing;
  }

  // ---------- Whole runs of sealing ----------

  /** One extension, as looked at from outside: every path has its old seal or else the hash of its
      artifact, and a fault is reported unless the artifacts still have every old seal. */
  ghost predicate SealsOnce<C>(archive: Archive<C>, existing: seq<Entry<Hash>>, artifacts: seq<Entry<C>>, r: Extension)
  {
    && Unique(r.files)
    && (forall p :: Find(r.files, p) == if Find(existing, p).Some? then Find(existing, p)
      else HashOf(archive, Find(artifacts, p)))
    && (r.errors == [] <==> forall p :: Find(existing, p).Some? ==>
      HashOf(archive, Find(artifacts, p)) == Find(existing, p))
  }

  ghost predicate Seals<C(!new)>(archive: Archive<C>, seal: (seq<Entry<Hash>>, seq<Entry<C>>) -> Extension) {
    forall existing, artifacts :: Unique(existing) && Unique(artifacts) ==>
      SealsOnce(archive, existing, artifacts, seal(existing, artifacts))
  }

  function Extender<C>(archive: Archive<C>): (seq<Entry<Hash>>, seq<Entry<C>>) -> Extension {
    (existing: seq<Entry<Hash>>, artifacts: seq<Entry<C>>) => Extend(archive, existing, artifacts)
  }

  lemma ExtendSealsOnce<C>(archive: Archive<C>, existing: seq<Entry<Hash>>, artifacts: seq<Entry<C>>)
    requires Unique(existing) && Unique(artifacts)
    ensures SealsOnce(archive, existing, artifacts, Extend(archive, existing, artifacts))
  {
    var hashed := Hashed(archive, artifacts);
    ExtensionSeals(archive, existing, artifacts);
    NoFaultsIff(existing, hashed);
    forall p ensures Find(hashed, p) == HashOf(archive, Find(artifacts, p)) {
      FindHashed(archive, artifacts, p);
    }
    if Keeps(existing, hashed) {
      forall p | Find(existing, p).Some? ensures HashOf(archive, Find(artifacts, p)) == Find(existing, p) {
        assert Find(hashed, p) == Find(existing, p);
      }
    }
  }

  /** The runs below need no more of an extension than this. */
  lemma ExtendSeals<C(!new)>(archive: Archive<C>)
    ensures Seals(archive, Extender(archive))
  {
    forall existing: seq<Entry<Hash>>, artifacts: seq<Entry<C>> | Unique(existing) && Unique(artifacts)
      ensures SealsOnce(archive, existing, artifacts, Extender(archive)(existing, artifacts))
    {
      ExtendSealsOnce(archive, existing, artifacts);
    }
  }

  datatype Run<!C> = Run(
    archive: Archive<C>, seal: (seq<Entry<Hash>>, seq<Entry<C>>) -> Extension, start: seq<Entry<Hash>>,
      days: seq<seq<Entry<C>>>)

  ghost predicate ProperRun<C(!new)>(run: Run<C>) {
    Seals(run.archive, run.seal) && Unique(run.start) && forall d :: 0 <= d < |run.days| ==> Unique(run.days[d])
  }

  /** The manifest after sealing the archive as it stood on the first `n` days in turn. */
  function SealAll<C>(run: Run<C>, n: nat): seq<Entry<Hash>>
    requires n <= |run.days|
  {
    if n == 0 then run.start else run.seal(SealAll(run, n - 1), run.days[n - 1]).files
  }

  /** What a path is sealed with after `n` days: its first known hash. */
  function FirstSeal<C>(run: Run<C>, n: nat, p: string): Option<Hash>
    requires n <= |run.days|
  {
    if n == 0 then Find(run.start, p) else
      var earlier := FirstSeal(run, n - 1, p);
      if earlier.Some? then earlier else HashOf(run.archive, Find(run.days[n - 1], p))
  }

  lemma {:induction false} SealAllKeepsFirst<C(!new)>(run: Run<C>, n: nat)
    requires ProperRun(run) && n <= |run.days|
    ensures Unique(SealAll(run, n))
    ensures forall p :: Find(SealAll(run, n), p) == FirstSeal(run, n, p)
  {
    if n == 0 {
    } else {
      SealAllKeepsFirst(run, n - 1);
      var before, artifacts := SealAll(run, n - 1), run.days[n - 1];
      assert SealsOnce(run.archive, before, artifacts, run.seal(before, artifacts));
    }
  }

  lemma {:induction false} FirstSealStays<C>(run: Run<C>, i: nat, j: nat, p: string)
    requires i <= j <= |run.days| && FirstSeal(run, i, p).Some?
    ensures FirstSeal(run, j, p) == FirstSeal(run, i, p)
    decreases j - i
  {
    if i < j {
      FirstSealStays(run, i, j - 1, p);
    }
  }

  /** Whatever the days bring, the manifest after `j` days is accepted against the manifest after any
      fewer days. */
  lemma EveryEarlierManifestAccepts<C(!new)>(run: Run<C>, i: nat, j: nat)
    requires ProperRun(run) && i <= j <= |run.days|
    ensures Faults(SealAll(run, i), SealAll(run, j)) == []
  {
    var earlier, later := SealAll(run, i), SealAll(run, j);
    SealAllKeepsFirst(run, i);
    SealAllKeepsFirst(run, j);
    forall p | Find(earlier, p).Some? ensures Find(later, p) == Find(earlier, p) {
      FirstSealStays(run, i, j, p);
    }
    NoFaultsIff(earlier, later);
  }

  /** Day `d` reports no fault. */
  ghost predicate CleanDay<C>(run: Run<C>, d: nat)
    requires d < |run.days|
  {
    run.seal(SealAll(run, d), run.days[d]).errors == []
  }

  ghost predicate CleanRun<C>(run: Run<C>) {
    forall d :: 0 <= d < |run.days| ==> CleanDay(run, d)
  }

  /** Path `p` has the content hash on day `d` that it was first sealed with. */
  ghost predicate FrozenOn<C>(run: Run<C>, d: nat, p: string)
    requires d < |run.days|
  {
    FirstSeal(run, d, p).Some? ==> HashOf(run.archive, Find(run.days[d], p)) == FirstSeal(run, d, p)
  }

  /** A day is clean exactly when every path sealed before it is present with its first hash. */
  lemma CleanDayIff<C(!new)>(run: Run<C>, d: nat)
    requires ProperRun(run) && d < |run.days|
    ensures CleanDay(run, d) <==> forall p :: FrozenOn(run, d, p)
  {
    var before, artifacts := SealAll(run, d), run.days[d];
    SealAllKeepsFirst(run, d);
    assert SealsOnce(run.archive, before, artifacts, run.seal(before, artifacts));
    if forall p :: FrozenOn(run, d, p) {
      forall p | Find(before, p).Some? ensures HashOf(run.archive, Find(artifacts, p)) == Find(before, p) {
        assert FrozenOn(run, d, p);
      }
    }
    if CleanDay(run, d) {
      forall p ensures FrozenOn(run, d, p) {
        assert Find(before, p) == FirstSeal(run, d, p);
      }
    }
  }

  lemma CleanDayFreezes<C(!new)>(run: Run<C>, d: nat, p: string)
    requires ProperRun(run) && d < |run.days| && CleanDay(run, d)
    ensures FrozenOn(run, d, p)
  {
    CleanDayIff(run, d);
  }

  /** A path that keeps its seal on day `d` is known by that day's content from then on. */
  lemma SealedOnDay<C>(run: Run<C>, d: nat, p: string)
    requires d < |run.days| && FrozenOn(run, d, p) && Find(run.days[d], p).Some?
    ensures FirstSeal(run, d + 1, p) == HashOf(run.archive, Find(run.days[d], p))
    ensures FirstSeal(run, d + 1, p).Some?
  {
  }

  /** Along a clean run an archived path never disappears and keeps one content hash. */
  lemma CleanRunFreezes<C(!new)>(run: Run<C>, i: nat, j: nat, p: string)
    requires ProperRun(run) && CleanRun(run)
    requires i <= j < |run.days| && Find(run.days[i], p).Some?
    ensures HashOf(run.archive, Find(run.days[j], p)) == HashOf(run.archive, Find(run.days[i], p))
  {
    assert CleanDay(run, i) && CleanDay(run, j);
    CleanDayFreezes(run, i, p);
    CleanDayFreezes(run, j, p);
    SealedOnDay(run, i, p);
    if i < j {
      FirstSealStays(run, i + 1, j, p);
    }
  }

  // ---------- The gate on a history of commits ----------

  datatype Commit<!C> = Commit(manifest: seq<Entry<Hash>>, artifacts: seq<Entry<C>>)

  /** The check without `--write` succeeds: against the previous manifest, and against the artifacts. */
  predicate Accepts<C>(archive: Archive<C>, baseline: seq<Entry<Hash>>, commit: Commit<C>) {
    var extended := Extend(archive, commit.manifest, commit.artifacts);
    Faults(baseline, commit.manifest) == [] && extended.errors == [] && extended.added == []
  }

  /** The manifest lists the artifacts, all of them and nothing else, with their hashes. */
  ghost predicate Records<C>(archive: Archive<C>, commit: Commit<C>) {
    forall p :: Find(commit.manifest, p) == HashOf(archive, Find(commit.artifacts, p))
  }

  /** A commit is accepted exactly when its manifest records its artifacts and keeps the baseline. */
  lemma AcceptsIff<C>(archive: Archive<C>, baseline: seq<Entry<Hash>>, commit: Commit<C>)
    requires Unique(baseline) && Unique(commit.manifest) && Unique(commit.artifacts)
    ensures Accepts(archive, baseline, commit) <==> Records(archive, commit) && Keeps(baseline, commit.manifest)
  {
    var hashed := Hashed(archive, commit.artifacts);
    NoFaultsIff(baseline, commit.manifest);
    NoFaultsIff(commit.manifest, hashed);
    NothingAddedIff(archive, commit.manifest, commit.artifacts);
    forall p ensures Find(hashed, p) == HashOf(archive, Find(commit.artifacts, p)) {
      FindHashed(archive, commit.artifacts, p);
    }
    if Records(archive, commit) {
      assert Keeps(commit.manifest, hashed);
      forall p | Find(commit.artifacts, p).Some? ensures Find(commit.manifest, p).Some? {
        assert Find(commit.manifest, p) == HashOf(archive, Find(commit.artifacts, p));
      }
    }
    if Keeps(commit.manifest, hashed) && AllSealed(commit.manifest, commit.artifacts) {
      forall p ensures Find(commit.manifest, p) == HashOf(archive, Find(commit.artifacts, p)) {
        assert Find(hashed, p) == HashOf(archive, Find(commit.artifacts, p));
      }
    }
  }

  /** What `--write` leaves behind passes the check, against any baseline the old manifest kept. */
  lemma WriteThenCheck<C>(archive: Archive<C>, baseline: seq<Entry<Hash>>, existing: seq<Entry<Hash>>,
                          artifacts: seq<Entry<C>>)
    requires Unique(baseline) && Unique(existing) && Unique(artifacts)
    requires Faults(baseline, existing) == [] && Extend(archive, existing, artifacts).errors == []
    ensures Accepts(archive, baseline, Commit(Extend(archive, existing, artifacts).files, artifacts))
  {
    var files := Extend(archive, existing, artifacts).files;
    RepeatAddsNothing(archive, existing, artifacts);
    ExtensionSeals(archive, existing, artifacts);
    NoFaultsIff(baseline, existing);
    NoFaultsIff(existing, files);
    NoFaultsIff(baseline, files);
  }

  ghost predicate WellFormed<C>(history: seq<Commit<C>>) {
    forall c :: 0 <= c < |history| ==> Unique(history[c].manifest) && Unique(history[c].artifacts)
  }

  function Baseline<C>(history: seq<Commit<C>>, c: nat): seq<Entry<Hash>>
    requires c < |history|
  {
    if c == 0 then [] else history[c - 1].manifest
  }

  /** Every commit passes the check against the manifest of the one before it. */
  ghost predicate AcceptedHistory<C>(archive: Archive<C>, history: seq<Commit<C>>) {
    forall c :: 0 <= c < |history| ==> Accepts(archive, Baseline(history, c), history[c])
  }

  ghost predicate Preserved<C>(archive: Archive<C>, earlier: Commit<C>, later: Commit<C>) {
    forall p :: Find(earlier.artifacts, p).Some? ==>
      HashOf(archive, Find(later.artifacts, p)) == HashOf(archive, Find(earlier.artifacts, p))
  }

  /** Every commit records its artifacts and keeps the manifest before it. */
  ghost predicate KeptHistory<C>(archive: Archive<C>, history: seq<Commit<C>>) {
    && (forall c :: 0 <= c < |history| ==> Records(archive, history[c]))
    && (forall c :: 0 < c < |history| ==> Keeps(history[c - 1].manifest, history[c].manifest))
  }

  lemma AcceptedIffKept<C>(archive: Archive<C>, history: seq<Commit<C>>)
    requires WellFormed(history)
    ensures AcceptedHistory(archive, history) <==> KeptHistory(archive, history)
  {
    forall c | 0 <= c < |history|
      ensures Accepts(archive, Baseline(history, c), history[c]) <==>
        Records(archive, history[c]) && (c > 0 ==> Keeps(history[c - 1].manifest, history[c].manifest))
    {
      AcceptsIff(archive, Baseline(history, c), history[c]);
    }
  }

  lemma {:induction false} KeptIsPreserved<C>(archive: Archive<C>, history: seq<Commit<C>>, i: nat, j: nat)
    requires KeptHistory(archive, history) && i <= j < |history|
    ensures Preserved(archive, history[i], history[j])
    decreases j - i
  {
    if i < j {
      KeptIsPreserved(archive, history, i, j - 1);
    }
  }

  /** Commits may edit manifest and artifacts in any way.  All of them pass exactly when every manifest
      records its artifacts and no archived path is ever lost or changed, not even together with its
      manifest entry. */
  lemma AcceptedHistoryIff<C>(archive: Archive<C>, history: seq<Commit<C>>)
    requires WellFormed(history)
    ensures AcceptedHistory(archive, history) <==>
      && (forall c :: 0 <= c < |history| ==> Records(archive, history[c]))
      && (forall i, j :: 0 <= i <= j < |history| ==> Preserved(archive, history[i], history[j]))
  {
    AcceptedIffKept(archive, history);
    if KeptHistory(archive, history) {
      forall i, j | 0 <= i <= j < |history| ensures Preserved(archive, history[i], history[j]) {
        KeptIsPreserved(archive, history, i, j);
      }
    }
    if && (forall c :: 0 <= c < |history| ==> Records(archive, history[c]))
       && (forall i, j :: 0 <= i <= j < |history| ==> Preserved(archive, history[i], history[j]))
    {
      forall c | 0 < c < |history| ensures Keeps(history[c - 1].manifest, history[c].manifest) {}
    }
  }
}
