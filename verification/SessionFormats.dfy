/** scripts/gen-session-format-catalog.ts: collect the inventory of adjacent session-format
    migrations, and accept it only as one unbroken chain. */
module SessionFormats {
  import opened Numerals
  import opened Options
  import opened Sorting

  // ---------- What is discovered ----------

  /** A JSON value where a version or a name is expected. */
  datatype Raw = Absent | Integer(n: int) | NegativeZero | Text(s: string) | OtherValue

  datatype RawMigration = RawMigration(
    extraKeys: bool,  // some key is not one of the eight below
    from: Raw, to: Raw, exportPath: Raw, migration: Raw,
    sourceCodec: Raw, targetCodec: Raw, targetHeaderValidator: Raw, targetRestorer: Raw)

  /** The version numbers in the name of a directory; `plain` when it is named by them and nothing else, without
      leading zeros, which is the name under which the generator looks up a manifest again. */
  datatype Directory = Directory(from: nat, to: nat, plain: bool)

  /** A migration package: its directory, if the name has versions in it, and its manifest. */
  datatype Package = Package(directory: Option<Directory>, name: Raw, dependencies: set<string>,
    metadata: Option<RawMigration>)

  /** The manifest of the catalog package. */
  datatype CatalogManifest = CatalogManifest(dependencies: set<string>, peerDependencies: set<string>,
    devDependencies: set<string>)

  datatype Migration = Migration(
    packageName: string, importPath: string, from: nat, to: nat, migration: string,
    sourceCodec: string, targetCodec: string, targetHeaderValidator: string, targetRestorer: string,
    plain: bool, dependencies: set<string>)

  const MAX_SAFE_INTEGER: int := 9007199254740991
  const SESSION: string := "@qilin-agent/session"

  // ---------- Validating one declaration ----------

  function SafeVersion(value: Raw): Option<nat> {
    if value.Integer? && 0 <= value.n <= MAX_SAFE_INTEGER then Some(value.n) else None
  }

  predicate Nonempty(value: Raw) {
    value.Text? && value.s != ""
  }

  function PackageName(from: nat, to: nat): string {
    "@qilin-agent/session-format-v" + Numeral(from) + "-to-v" + Numeral(to)
  }

  function ImportPath(packageName: string, exportPath: string): string {
    if exportPath == "." then packageName
    else packageName + "/" + if |exportPath| >= 2 && exportPath[..2] == "./" then exportPath[2..] else exportPath
  }

  /** The declaration of one package; `None` where the original throws. */
  function Declaration(p: Package): (r: Option<Migration>)
    ensures r.Some? ==> r.value.to == r.value.from + 1
  {
    if p.metadata.None? then None else
      var m := p.metadata.value;
      var from, to := SafeVersion(m.from), SafeVersion(m.to);
      if m.extraKeys || !Nonempty(p.name) || from.None? || to.None? then None
      else if to.value != from.value + 1 then None
      else if p.name.s != PackageName(from.value, to.value) then None
      else if p.directory.None? || p.directory.value.from != from.value || p.directory.value.to != to.value then None
      else if !Nonempty(m.exportPath) || !Nonempty(m.migration) || !Nonempty(m.sourceCodec) || !Nonempty(m.targetCodec)
              || !Nonempty(m.targetHeaderValidator) || !Nonempty(m.targetRestorer) then None
      else Some(Migration(p.name.s, ImportPath(p.name.s, m.exportPath.s), from.value, to.value, m.migration.s,
                          m.sourceCodec.s, m.targetCodec.s, m.targetHeaderValidator.s, m.targetRestorer.s,
                          p.directory.value.plain, p.dependencies))
  }

  /** All results of `f`, or none when one is missing. */
  function Collect<A, B>(xs: seq<A>, f: A -> Option<B>): Option<seq<B>> {
    if xs == [] then Some([]) else
      var init, last := Collect(xs[..|xs| - 1], f), f(xs[|xs| - 1]);
      if init.None? || last.None? then None else Some(init.value + [last.value])
  }

  function Declarations(ps: seq<Package>): Option<seq<Migration>> {
    Collect(ps, Declaration)
  }

  // ---------- Declarations, told by the manifests ----------

  /** The package is named after its versions, and so is its directory. */
  ghost predicate NamedFor(p: Package, from: nat, to: nat, plain: bool) {
    && p.name == Text("@qilin-agent/session-format-v" + Numeral(from) + "-to-v" + Numeral(to))
    && p.directory == Some(Directory(from, to, plain))
  }

  ghost predicate IsText(value: Raw, text: string) {
    value == Text(text) && text != ""
  }

  /** Where the package exports its migration: a leading `./` of the export path is dropped, and `.` is the package
      itself. */
  ghost predicate ExportedAt(importPath: string, packageName: string, exportPath: Raw) {
    exists path :: IsText(exportPath, path) && importPath ==
      if path == "." then packageName
      else if "./" <= path then packageName + path[1..]
      else packageName + "/" + path
  }

  /** What the manifest of a package says of its migration, field by field. */
  ghost predicate Says(p: Package, m: Migration) {
    && p.metadata.Some? && !p.metadata.value.extraKeys
    && p.metadata.value.from == Integer(m.from) && p.metadata.value.to == Integer(m.to)
    && m.to == m.from + 1 <= 0x1F_FFFF_FFFF_FFFF
    && p.name == Text(m.packageName) && NamedFor(p, m.from, m.to, m.plain)
    && ExportedAt(m.importPath, m.packageName, p.metadata.value.exportPath)
    && IsText(p.metadata.value.migration, m.migration)
    && IsText(p.metadata.value.sourceCodec, m.sourceCodec)
    && IsText(p.metadata.value.targetCodec, m.targetCodec)
    && IsText(p.metadata.value.targetHeaderValidator, m.targetHeaderValidator)
    && IsText(p.metadata.value.targetRestorer, m.targetRestorer)
    && m.dependencies == p.dependencies
  }

  lemma PathIsRead(packageName: string, path: string)
    requires path != ""
    ensures ImportPath(packageName, path) ==
      if path == "." then packageName
      else if "./" <= path then packageName + path[1..]
      else packageName + "/" + path
  {
    if "./" <= path {
      assert path[..2] == "./";
      assert path[1..] == "/" + path[2..];
    } else if |path| >= 2 {
      assert path[..2] <= path;
    }
  }

  /** A declaration is what the manifest says, and there is none exactly when the manifest does not say it. */
  lemma DeclarationSays(p: Package, m: Migration)
    ensures Declaration(p) == Some(m) <==> Says(p, m)
  {
    if p.metadata.Some? {
      var raw := p.metadata.value;
      if p.name.Text? && raw.exportPath.Text? && raw.exportPath.s != "" {
        PathIsRead(p.name.s, raw.exportPath.s);
        assert IsText(raw.exportPath, raw.exportPath.s);
      }
    }
  }

  // ---------- The chain ----------

  function ByFrom(): (Migration, Migration) -> bool {
    (x: Migration, y: Migration) => x.from <= y.from
  }

  /** One migration i -> i + 1 for each i below the current version, and nothing else. */
  ghost predicate Complete(ms: seq<Migration>, current: nat) {
    |ms| == current && forall i :: 0 <= i < |ms| ==> ms[i].from == i && ms[i].to == i + 1
  }

  /** Each migration reads what the one before it writes, and its manifest, looked up under the plain name of its
      directory, has the one before it among the dependencies. */
  ghost predicate Linked(ms: seq<Migration>) {
    forall i :: 0 < i < |ms| ==> LinkedTo(ms[i - 1], ms[i])
  }

  predicate LinkedTo(previous: Migration, m: Migration) {
    m.sourceCodec == previous.targetCodec && m.plain && previous.packageName in m.dependencies
  }

  ghost predicate Registered(ms: seq<Migration>, catalog: CatalogManifest) {
    && SESSION !in catalog.dependencies && SESSION in catalog.peerDependencies && SESSION in catalog.devDependencies
    && forall i :: 0 <= i < |ms| ==> ms[i].packageName in catalog.dependencies
  }

  function CountFrom(ms: seq<Migration>, version: nat): nat {
    if ms == [] then 0 else CountFrom(ms[..|ms| - 1], version) + if ms[|ms| - 1].from == version then 1 else 0
  }

  /** What the version loop and the check after it establish. */
  ghost predicate Counted(ms: seq<Migration>, current: nat) {
    && |ms| == current && (forall v :: 0 <= v < current ==> CountFrom(ms, v) == 1)
    && forall i :: 0 <= i < |ms| ==> ms[i].from < current
  }

  lemma {:induction false} CountHits(ms: seq<Migration>, i: nat)
    requires i < |ms|
    ensures CountFrom(ms, ms[i].from) >= 1
  {
    if i < |ms| - 1 { CountHits(ms[..|ms| - 1], i); }
  }

  lemma {:induction false} CountTwice(ms: seq<Migration>, i: nat, j: nat)
    requires i < j < |ms| && ms[i].from == ms[j].from
    ensures CountFrom(ms, ms[i].from) >= 2
  {
    if j == |ms| - 1 {
      CountHits(ms[..j], i);
    } else {
      CountTwice(ms[..|ms| - 1], i, j);
    }
  }

  lemma {:induction false} CountNone(ms: seq<Migration>, version: nat)
    requires forall i :: 0 <= i < |ms| ==> ms[i].from != version
    ensures CountFrom(ms, version) == 0
  {
    if ms != [] { CountNone(ms[..|ms| - 1], version); }
  }

  /** An ordered list of `current` distinct versions below `current` is 0, 1, 2, ... */
  lemma {:induction false} OrderedVersions(ms: seq<Migration>, low: nat, i: nat)
    requires Ordered(ms, ByFrom()) && (forall k, l :: 0 <= k < l < |ms| ==> ms[k].from != ms[l].from)
    requires i < |ms| && forall k :: 0 <= k < |ms| ==> ms[k].from < |ms|
    ensures i <= ms[i].from && ms[i].from + (|ms| - 1 - i) <= |ms| - 1
  {
    VersionsClimb(ms, 0, i);
    VersionsClimb(ms, i, |ms| - 1);
  }

  lemma {:induction false} VersionsClimb(ms: seq<Migration>, i: nat, j: nat)
    requires i <= j < |ms| && Ordered(ms, ByFrom()) && forall k, l :: 0 <= k < l < |ms| ==> ms[k].from != ms[l].from
    ensures ms[i].from + (j - i) <= ms[j].from
    decreases j
  {
    if i < j {
      VersionsClimb(ms, i, j - 1);
      assert ByFrom()(ms[j - 1], ms[j]);
    }
  }

  lemma CountedIffComplete(ms: seq<Migration>, current: nat)
    requires Ordered(ms, ByFrom()) && forall i :: 0 <= i < |ms| ==> ms[i].to == ms[i].from + 1
    ensures Counted(ms, current) <==> Complete(ms, current)
  {
    if Counted(ms, current) {
      forall i, j | 0 <= i < j < |ms| ensures ms[i].from != ms[j].from {
        if ms[i].from == ms[j].from { CountTwice(ms, i, j); }
      }
      forall i | 0 <= i < |ms| ensures ms[i].from == i { OrderedVersions(ms, 0, i); }
    }
    if Complete(ms, current) {
      forall v | 0 <= v < current ensures CountFrom(ms, v) == 1 { CountOfChain(ms, |ms|, v); }
    }
  }

  lemma {:induction false} CountOfChain(ms: seq<Migration>, n: nat, v: nat)
    requires n <= |ms| && forall i :: 0 <= i < |ms| ==> ms[i].from == i
    ensures CountFrom(ms[..n], v) == if v < n then 1 else 0
    ensures n == |ms| ==> CountFrom(ms, v) == if v < n then 1 else 0
  {
    if n > 0 {
      CountOfChain(ms, n - 1, v);
      assert ms[..n][..n - 1] == ms[..n - 1];
    }
    assert ms[..|ms|] == ms;
  }

  // ---------- Collecting ----------

  /** What an inventory must be to be accepted, and the chain it then is. */
  ghost predicate Accepted(ps: seq<Package>, current: nat, catalog: CatalogManifest, ms: seq<Migration>) {
    && Declarations(ps).Some? && ms == Sort(Declarations(ps).value, ByFrom())
    && Complete(ms, current) && Linked(ms) && Registered(ms, catalog)
  }

  method ReadDeclarations(ps: seq<Package>) returns (r: Option<seq<Migration>>)
    ensures r == Declarations(ps)
    ensures r.Some? ==> forall i :: 0 <= i < |r.value| ==> r.value[i].to == r.value[i].from + 1
  {
    var ms: seq<Migration> := [];
    for i := 0 to |ps|
      invariant Declarations(ps[..i]) == Some(ms)
      invariant forall k :: 0 <= k < |ms| ==> ms[k].to == ms[k].from + 1
    {
      assert ps[..i + 1][..i] == ps[..i];
      var declaration := Declaration(ps[i]);
      if declaration.None? {
        NoneStays(ps, i + 1);
        return None;
      }
      ms := ms + [declaration.value];
    }
    assert ps[..|ps|] == ps;
    return Some(ms);
  }

  lemma {:induction false} NoneStays(ps: seq<Package>, n: nat)
    requires n <= |ps| && Declarations(ps[..n]).None?
    ensures Declarations(ps).None?
    decreases |ps|
  {
    if n < |ps| {
      assert ps[..|ps| - 1][..n] == ps[..n];
      NoneStays(ps[..|ps| - 1], n);
    } else {
      assert ps[..n] == ps;
    }
  }

  method CheckVersions(ms: seq<Migration>, current: nat) returns (ok: bool)
    ensures ok <==> Counted(ms, current)
  {
    for version := 0 to current
      invariant forall v :: 0 <= v < version ==> CountFrom(ms, v) == 1
    {
      if CountFrom(ms, version) != 1 { return false; }
    }
    for i := 0 to |ms|
      invariant forall k :: 0 <= k < i ==> ms[k].from < current
    {
      if ms[i].from >= current { return false; }
    }
    return |ms| == current;
  }

  method CheckLinks(ms: seq<Migration>, catalog: CatalogManifest) returns (ok: bool)
    ensures ok <==> Linked(ms) && Registered(ms, catalog)
  {
    if SESSION in catalog.dependencies || SESSION !in catalog.peerDependencies || SESSION !in catalog.devDependencies {
      return false;
    }
    for i := 0 to |ms|
      invariant forall k :: 0 <= k < i ==> ms[k].packageName in catalog.dependencies
      invariant forall k :: 0 < k < i ==> LinkedTo(ms[k - 1], ms[k])
    {
      if ms[i].packageName !in catalog.dependencies { return false; }
      if i > 0 {
        if ms[i].sourceCodec != ms[i - 1].targetCodec || !ms[i].plain { return false; }
        if ms[i - 1].packageName !in ms[i].dependencies { return false; }
      }
    }
    return true;
  }

  lemma SortedDeclarations(ds: seq<Migration>)
    requires forall i :: 0 <= i < |ds| ==> ds[i].to == ds[i].from + 1
    ensures var ms := Sort(ds, ByFrom());
      Ordered(ms, ByFrom()) && forall i :: 0 <= i < |ms| ==> ms[i].to == ms[i].from + 1
  {
    var ms := Sort(ds, ByFrom());
    assert TotalPreorder(ByFrom());
    SortOrders(ds, ByFrom());
    SortPermutes(ds, ByFrom());
    forall i | 0 <= i < |ms| ensures ms[i].to == ms[i].from + 1 {
      assert ms[i] in multiset(ds);
    }
  }

  // ---------- Discovery order ----------

  lemma {:induction false} CollectJoin<A, B>(a: seq<A>, b: seq<A>, joined: seq<A>, f: A -> Option<B>)
    requires joined == a + b
    ensures Collect(joined, f).Some? <==> Collect(a, f).Some? && Collect(b, f).Some?
    ensures Collect(joined, f).Some? ==> Collect(joined, f).value == Collect(a, f).value + Collect(b, f).value
  {
    if b == [] {
      assert joined == a;
    } else {
      CollectJoin(a, b[..|b| - 1], joined[..|joined| - 1], f);
    }
  }

  lemma CollectWithout<A, B>(xs: seq<A>, k: nat, rest: seq<A>, f: A -> Option<B>)
    requires k < |xs| && rest == xs[..k] + xs[k + 1..]
    ensures Collect(xs, f).Some? <==> Collect(rest, f).Some? && f(xs[k]).Some?
    ensures Collect(xs, f).Some? ==>
      multiset(Collect(xs, f).value) == multiset(Collect(rest, f).value) + multiset{f(xs[k]).value}
  {
    var one := [xs[k]];
    assert one[..0] == [];
    CollectJoin(xs[..k], one, xs[..k] + one, f);
    CollectJoin(xs[..k] + one, xs[k + 1..], xs, f);
    CollectJoin(xs[..k], xs[k + 1..], rest, f);
  }

  lemma {:induction false} CollectPermutes<A, B>(xs: seq<A>, ys: seq<A>, f: A -> Option<B>)
    requires multiset(xs) == multiset(ys) && Collect(xs, f).Some?
    ensures Collect(ys, f).Some? && multiset(Collect(ys, f).value) == multiset(Collect(xs, f).value)
  {
    assert |multiset(xs)| == |multiset(ys)|;
    if xs != [] {
      assert xs[0] in multiset(ys);
      var k :| 0 <= k < |ys| && ys[k] == xs[0];
      var rest := ys[..k] + ys[k + 1..];
      RestAgrees(xs, ys, k, rest);
      assert xs[1..] == xs[..0] + xs[1..];
      CollectWithout(xs, 0, xs[1..], f);
      CollectWithout(ys, k, rest, f);
      CollectPermutes(xs[1..], rest, f);
    }
  }

  lemma RestAgrees<A>(xs: seq<A>, ys: seq<A>, k: nat, rest: seq<A>)
    requires multiset(xs) == multiset(ys) && xs != [] && k < |ys| && ys[k] == xs[0] && rest == ys[..k] + ys[k + 1..]
    ensures multiset(xs[1..]) == multiset(rest)
  {
    var before, after := ys[..k], ys[k + 1..];
    assert xs == [xs[0]] + xs[1..];
    assert multiset(xs) == multiset{xs[0]} + multiset(xs[1..]);
    assert ys == before + [ys[k]] + after;
    assert multiset(ys) == multiset(before) + multiset{ys[k]} + multiset(after);
    assert multiset(rest) == multiset(before) + multiset(after);
    assert multiset(xs[1..]) == multiset(xs) - multiset{xs[0]} == multiset(ys) - multiset{ys[k]} == multiset(rest);
  }

  /** Whatever order the packages are discovered in, the same inventory is accepted, as the same chain. */
  lemma AcceptanceIgnoresOrder(ps: seq<Package>, qs: seq<Package>, current: nat, catalog: CatalogManifest,
                               ms: seq<Migration>)
    requires multiset(ps) == multiset(qs) && Accepted(ps, current, catalog, ms)
    ensures Accepted(qs, current, catalog, ms)
  {
    var dp, le := Declarations(ps).value, ByFrom();
    CollectPermutes(ps, qs, Declaration);
    var dq := Declarations(qs).value;
    assert TotalPreorder(le);
    SortOrders(dp, le);
    SortOrders(dq, le);
    SortPermutes(dp, le);
    SortPermutes(dq, le);
    OrderedIsUnique(ms, Sort(dq, le), le);
  }

  // ---------- Acceptance, told by the manifests ----------

  /** The inventory in the order `qs`: one package for every version below the current one, which migrates it to the
      next, has the package before it among its dependencies, and reads the codec that one writes; the catalog
      depends on all of them, and has the session package as a peer and for development only. */
  ghost predicate Chained(ps: seq<Package>, current: nat, catalog: CatalogManifest, qs: seq<Package>) {
    && multiset(qs) == multiset(ps) && |qs| == current
    && (forall i :: 0 <= i < current ==> StartsAt(qs[i], i, catalog))
    && (forall i :: 0 < i < current ==> Follows(qs[i - 1], qs[i]))
    && "@qilin-agent/session" !in catalog.dependencies
    && "@qilin-agent/session" in catalog.peerDependencies * catalog.devDependencies
  }

  ghost predicate StartsAt(q: Package, version: nat, catalog: CatalogManifest) {
    && (exists m :: Says(q, m))
    && q.metadata.Some? && q.metadata.value.from == Integer(version)
    && q.name.Text? && q.name.s in catalog.dependencies
  }

  ghost predicate Follows(p: Package, q: Package) {
    && p.metadata.Some? && q.metadata.Some? && q.metadata.value.sourceCodec == p.metadata.value.targetCodec
    && p.name.Text? && p.name.s in q.dependencies && q.directory.Some? && q.directory.value.plain
  }

  ghost predicate AllSay(qs: seq<Package>, ms: seq<Migration>) {
    |ms| == |qs| && forall i :: 0 <= i < |qs| ==> Says(qs[i], ms[i])
  }

  function RawFrom(p: Package): int {
    if p.metadata.Some? && p.metadata.value.from.Integer? then p.metadata.value.from.n else 0
  }

  function ByRawFrom(): (Package, Package) -> bool {
    (p: Package, q: Package) => RawFrom(p) <= RawFrom(q)
  }

  lemma {:induction false} CollectAt<A, B>(xs: seq<A>, f: A -> Option<B>, i: nat)
    requires Collect(xs, f).Some? && i < |xs|
    ensures |Collect(xs, f).value| == |xs| && f(xs[i]) == Some(Collect(xs, f).value[i])
  {
    if i < |xs| - 1 { CollectAt(xs[..|xs| - 1], f, i); }
    CollectLength(xs, f);
  }

  lemma {:induction false} CollectLength<A, B>(xs: seq<A>, f: A -> Option<B>)
    requires Collect(xs, f).Some?
    ensures |Collect(xs, f).value| == |xs|
  {
    if xs != [] { CollectLength(xs[..|xs| - 1], f); }
  }

  lemma {:induction false} CollectAll<A, B>(xs: seq<A>, f: A -> Option<B>)
    requires forall x :: x in xs ==> f(x).Some?
    ensures Collect(xs, f).Some?
  {
    if xs != [] { CollectAll(xs[..|xs| - 1], f); }
  }

  /** Sorted declarations are the declarations of the sorted packages. */
  lemma SortedPackages(ps: seq<Package>, ms: seq<Migration>, current: nat) returns (qs: seq<Package>)
    requires Declarations(ps).Some? && ms == Sort(Declarations(ps).value, ByFrom()) && Complete(ms, current)
    ensures multiset(qs) == multiset(ps) && |qs| == |ms|
    ensures forall i :: 0 <= i < |ms| ==> Declaration(qs[i]) == Some(ms[i])
  {
    qs := Sort(ps, ByRawFrom());
    SortPermutes(ps, ByRawFrom());
    assert TotalPreorder(ByRawFrom()) && TotalPreorder(ByFrom());
    SortOrders(ps, ByRawFrom());
    SortPermutes(Declarations(ps).value, ByFrom());
    SortOrders(Declarations(ps).value, ByFrom());
    CollectPermutes(ps, qs, Declaration);
    SortedDeclareSorted(qs, Declarations(qs).value);
    OrderedIsUnique(ms, Declarations(qs).value, ByFrom());
  }

  lemma SortedDeclareSorted(qs: seq<Package>, ds: seq<Migration>)
    requires Declarations(qs) == Some(ds) && Ordered(qs, ByRawFrom())
    ensures |ds| == |qs| && Ordered(ds, ByFrom()) && forall i :: 0 <= i < |qs| ==> Declaration(qs[i]) == Some(ds[i])
  {
    CollectLength(qs, Declaration);
    forall i | 0 <= i < |qs| ensures Declaration(qs[i]) == Some(ds[i]) && RawFrom(qs[i]) == ds[i].from {
      CollectAt(qs, Declaration, i);
    }
    forall i, j | 0 <= i < j < |ds| ensures ByFrom()(ds[i], ds[j]) { assert ByRawFrom()(qs[i], qs[j]); }
  }

  lemma AcceptedIsChained(ps: seq<Package>, current: nat, catalog: CatalogManifest, ms: seq<Migration>)
    returns (qs: seq<Package>)
    requires Accepted(ps, current, catalog, ms)
    ensures Chained(ps, current, catalog, qs) && AllSay(qs, ms)
  {
    qs := SortedPackages(ps, ms, current);
    forall i | 0 <= i < current ensures Says(qs[i], ms[i]) && StartsAt(qs[i], i, catalog) {
      DeclarationSays(qs[i], ms[i]);
      SayingStarts(qs[i], ms[i], i, catalog);
    }
    forall i | 0 < i < current ensures Follows(qs[i - 1], qs[i]) {
      SayingIsLinked(qs[i - 1], ms[i - 1], qs[i], ms[i]);
      assert LinkedTo(ms[i - 1], ms[i]);
    }
  }

  lemma ChainedDeclares(ps: seq<Package>, current: nat, catalog: CatalogManifest, qs: seq<Package>)
    returns (ms: seq<Migration>)
    requires Chained(ps, current, catalog, qs)
    ensures Declarations(qs) == Some(ms) && AllSay(qs, ms)
  {
    forall q | q in qs ensures Declaration(q).Some? {
      var i :| 0 <= i < |qs| && qs[i] == q;
      assert StartsAt(qs[i], i, catalog);
      var m :| Says(qs[i], m);
      DeclarationSays(q, m);
    }
    CollectAll(qs, Declaration);
    ms := Declarations(qs).value;
    CollectLength(qs, Declaration);
    forall i | 0 <= i < |qs| ensures Says(qs[i], ms[i]) {
      CollectAt(qs, Declaration, i);
      DeclarationSays(qs[i], ms[i]);
    }
  }

  lemma SayingIsLinked(p: Package, m: Migration, q: Package, n: Migration)
    requires Says(p, m) && Says(q, n)
    ensures Follows(p, q) <==> LinkedTo(m, n)
  {
  }

  lemma SayingStarts(q: Package, m: Migration, version: nat, catalog: CatalogManifest)
    requires Says(q, m)
    ensures StartsAt(q, version, catalog) <==> m.from == version && m.packageName in catalog.dependencies
  {
  }

  lemma ChainIsAccepted(qs: seq<Package>, current: nat, catalog: CatalogManifest, ms: seq<Migration>)
    requires Declarations(qs) == Some(ms) && Complete(ms, current) && Linked(ms) && Registered(ms, catalog)
    ensures Accepted(qs, current, catalog, ms)
  {
    assert TotalPreorder(ByFrom());
    SortOrders(ms, ByFrom());
    SortPermutes(ms, ByFrom());
    OrderedIsUnique(ms, Sort(ms, ByFrom()), ByFrom());
  }

  lemma ChainedIsAccepted(ps: seq<Package>, current: nat, catalog: CatalogManifest, qs: seq<Package>)
    returns (ms: seq<Migration>)
    requires Chained(ps, current, catalog, qs)
    ensures Accepted(ps, current, catalog, ms)
  {
    ms := ChainedDeclares(ps, current, catalog, qs);
    forall i | 0 <= i < current
      ensures ms[i].from == i && ms[i].to == i + 1 && ms[i].packageName in catalog.dependencies
    {
      SayingStarts(qs[i], ms[i], i, catalog);
      assert Says(qs[i], ms[i]) && StartsAt(qs[i], i, catalog);
    }
    forall i | 0 < i < current ensures LinkedTo(ms[i - 1], ms[i]) {
      SayingIsLinked(qs[i - 1], ms[i - 1], qs[i], ms[i]);
      assert Follows(qs[i - 1], qs[i]);
    }
    ChainIsAccepted(qs, current, catalog, ms);
    AcceptanceIgnoresOrder(qs, ps, current, catalog, ms);
  }

  /** An inventory is accepted exactly when its packages form such a chain. */
  lemma AcceptedIff(ps: seq<Package>, current: nat, catalog: CatalogManifest)
    ensures (exists ms :: Accepted(ps, current, catalog, ms)) <==> exists qs :: Chained(ps, current, catalog, qs)
    ensures forall ms :: Accepted(ps, current, catalog, ms) ==>
      exists qs :: Chained(ps, current, catalog, qs) && AllSay(qs, ms)
  {
    forall ms | Accepted(ps, current, catalog, ms)
      ensures exists qs :: Chained(ps, current, catalog, qs) && AllSay(qs, ms)
    {
      var qs := AcceptedIsChained(ps, current, catalog, ms);
    }
    forall qs | Chained(ps, current, catalog, qs) ensures exists ms :: Accepted(ps, current, catalog, ms) {
      var ms := ChainedIsAccepted(ps, current, catalog, qs);
    }
  }

  /** Accept the inventory exactly when it is one unbroken chain from version 0 to the current one;
      `None` stands for the errors of the original. */
  method CollectSessionFormatMigrations(ps: seq<Package>, current: nat, catalog: CatalogManifest)
    returns (r: Option<seq<Migration>>)
    ensures r.Some? ==> Accepted(ps, current, catalog, r.value)
    ensures r.None? ==> forall ms :: !Accepted(ps, current, catalog, ms)
    ensures r.Some? <==> exists qs :: Chained(ps, current, catalog, qs)
    ensures r.Some? ==> exists qs :: Chained(ps, current, catalog, qs) && AllSay(qs, r.value)
  {
    AcceptedIff(ps, current, catalog);
    var declarations := ReadDeclarations(ps);
    if declarations.None? { return None; }
    var ms := Sort(declarations.value, ByFrom());
    SortedDeclarations(declarations.value);
    CountedIffComplete(ms, current);
    var versions := CheckVersions(ms, current);
    if !versions { return None; }
    var links := CheckLinks(ms, catalog);
    if !links { return None; }
    assert Accepted(ps, current, catalog, ms);
    return Some(ms);
  }
}
