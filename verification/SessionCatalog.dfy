/** The catalog that scripts/gen-session-format-catalog.ts renders from an accepted chain of migrations, and the
    upgrades along the chain. */
module SessionCatalog {
  import opened Numerals
  import opened Options
  import opened SessionFormats
  import opened Sorting

  // ---------- The rendered catalog ----------

  datatype ImportLine = ImportLine(names: set<string>, path: string)

  /** What the generated source names, in place. */
  datatype Catalog = Catalog(
    imports: seq<ImportLine>, codecs: seq<string>, currentEncoder: string, migrations: seq<string>,
    restorer: string, headerValidator: string)

  function ImportOf(m: Migration, current: nat): ImportLine {
    ImportLine({m.targetCodec, m.migration}
               + (if m.from == 0 then {m.sourceCodec} else {})
               + (if m.to == current then {m.targetRestorer, m.targetHeaderValidator} else {}), m.importPath)
  }

  /** Nothing is rendered, as the original throws, when there is no migration at all. */
  function Render(ms: seq<Migration>, current: nat): (r: Option<Catalog>)
    ensures r.None? <==> ms == []
  {
    if ms == [] then None else
      var last := ms[|ms| - 1];
      Some(Catalog(
        seq(|ms|, i requires 0 <= i < |ms| => ImportOf(ms[i], current)),
        [ms[0].sourceCodec] + seq(|ms|, i requires 0 <= i < |ms| => ms[i].targetCodec),
        last.targetCodec,
        seq(|ms|, i requires 0 <= i < |ms| => ms[i].migration),
        last.targetRestorer, last.targetHeaderValidator))
  }

  ghost predicate Used(c: Catalog, name: string) {
    name in c.codecs || name in c.migrations || name == c.restorer || name == c.headerValidator
  }

  lemma CatalogUses(ms: seq<Migration>, current: nat, c: Catalog, i: nat, name: string)
    requires Complete(ms, current) && i < current && Render(ms, current) == Some(c) && name in c.imports[i].names
    ensures Used(c, name)
  {
    assert c.imports[i] == ImportOf(ms[i], current);
    assert c.codecs[i + 1] in c.codecs && c.migrations[i] in c.migrations && c.codecs[0] in c.codecs;
    assert ms[i].to == current ==> i == current - 1;
  }

  /** A codec per version, from 0 to the current one; migration i reads codec i and writes codec i + 1. */
  ghost predicate CodecsMatch(c: Catalog, ms: seq<Migration>, current: nat)
    requires |ms| == current
  {
    && |c.codecs| == current + 1 && |c.migrations| == current && |c.imports| == current
    && (forall i :: 0 <= i < current ==>
          c.migrations[i] == ms[i].migration && c.codecs[i] == ms[i].sourceCodec &&
            c.codecs[i + 1] == ms[i].targetCodec)
    && c.currentEncoder == c.codecs[current]
  }

  /** Everything the catalog names is imported from the package that declares it, and nothing else is
      imported. */
  ghost predicate ImportsMatch(c: Catalog, ms: seq<Migration>, current: nat)
    requires |ms| == current > 0 && |c.codecs| == current + 1 && |c.migrations| == current && |c.imports| == current
  {
    && (forall i :: 0 <= i < current ==> c.imports[i].path == ms[i].importPath)
    && (forall i :: 0 <= i < current ==> c.codecs[i + 1] in c.imports[i].names && c.migrations[i] in c.imports[i].names)
    && c.codecs[0] in c.imports[0].names
    && c.restorer == ms[current - 1].targetRestorer && c.headerValidator == ms[current - 1].targetHeaderValidator
    && {c.restorer, c.headerValidator} <= c.imports[current - 1].names
    && (forall i, name :: 0 <= i < current && name in c.imports[i].names ==> Used(c, name))
  }

  lemma ChainImports(ms: seq<Migration>, current: nat, c: Catalog)
    requires Complete(ms, current) && Render(ms, current) == Some(c)
    ensures ImportsMatch(c, ms, current)
  {
    forall i | 0 <= i < current ensures c.imports[i] == ImportOf(ms[i], current) {}
    forall i, name | 0 <= i < current && name in c.imports[i].names ensures Used(c, name) {
      CatalogUses(ms, current, c, i, name);
    }
  }

  lemma ChainCodecs(ms: seq<Migration>, current: nat, c: Catalog)
    requires Complete(ms, current) && Linked(ms) && Render(ms, current) == Some(c)
    ensures CodecsMatch(c, ms, current)
  {
    forall i | 0 <= i < current
      ensures c.migrations[i] == ms[i].migration && c.codecs[i] == ms[i].sourceCodec
      ensures c.codecs[i + 1] == ms[i].targetCodec
    {
      if i > 0 { assert c.codecs[i] == ms[i - 1].targetCodec; }
    }
  }

  lemma AcceptedIsChain(ps: seq<Package>, current: nat, manifest: CatalogManifest, ms: seq<Migration>)
    requires Accepted(ps, current, manifest, ms)
    ensures Complete(ms, current) && Linked(ms) && (ms == [] <==> current == 0)
  {
  }

  /** The catalog of a chain is complete and imports exactly what it names. */
  ghost predicate CatalogMatches(ms: seq<Migration>, current: nat)
    requires |ms| == current > 0
  {
    var c := Render(ms, current).value;
    CodecsMatch(c, ms, current) && ImportsMatch(c, ms, current)
  }

  lemma ChainMatches(ms: seq<Migration>, current: nat)
    requires Complete(ms, current) && Linked(ms) && current > 0
    ensures CatalogMatches(ms, current)
  {
    ChainCodecs(ms, current, Render(ms, current).value);
    ChainImports(ms, current, Render(ms, current).value);
  }

  /** The catalog of an accepted inventory is complete and imports exactly what it names; it cannot be
      rendered only when there is no migration, at version 0. */
  lemma CatalogIsComplete(ps: seq<Package>, current: nat, manifest: CatalogManifest, ms: seq<Migration>)
    requires Accepted(ps, current, manifest, ms)
    ensures Render(ms, current).None? <==> current == 0
    ensures current > 0 ==> |ms| == current && CatalogMatches(ms, current)
  {
    AcceptedIsChain(ps, current, manifest, ms);
    if current > 0 { ChainMatches(ms, current); }
  }

  // ---------- Identifiers imported twice ----------

  /** A place of the generated source where an identifier taken from a declaration stands. */
  datatype Place = Codec(version: nat) | Applied(migration: nat) | Restorer | HeaderValidator

  predicate IsPlace(place: Place, current: nat) {
    match place
    case Codec(version) => version <= current
    case Applied(migration) => migration < current
    case Restorer => true
    case HeaderValidator => true
  }

  /** The migration whose package declares the identifier that stands there. */
  function Declarer(place: Place, current: nat): nat
    requires IsPlace(place, current) && current > 0
  {
    match place
    case Codec(version) => if version == 0 then 0 else version - 1
    case Applied(migration) => migration
    case Restorer => current - 1
    case HeaderValidator => current - 1
  }

  function Identifier(place: Place, ms: seq<Migration>): string
    requires IsPlace(place, |ms|) && ms != []
  {
    match place
    case Codec(version) => if version == 0 then ms[0].sourceCodec else ms[version - 1].targetCodec
    case Applied(migration) => ms[migration].migration
    case Restorer => ms[|ms| - 1].targetRestorer
    case HeaderValidator => ms[|ms| - 1].targetHeaderValidator
  }

  /** What the generated source binds besides the imported declarations. */
  const BOUND: set<string> := {
    "KNOWN_SESSION_EVENT_TYPES", "createSessionFormatCatalog", "SessionFormatCatalogOptions",
    "validateInstalledCurrentSessionArtifact", "validateInstalledCurrentSessionHeader",
    "sessionFormatCatalogOptions", "sessionFormatCatalog"}

  /** No identifier is bound twice at the top of the generated source. */
  ghost predicate BindsOnce(c: Catalog, bound: set<string>) {
    && (forall i, j :: 0 <= i < j < |c.imports| ==> c.imports[i].names !! c.imports[j].names)
    && forall i :: 0 <= i < |c.imports| ==> c.imports[i].names !! bound
  }

  /** One identifier in two places is declared by one package, and is none of those bound anyway. */
  ghost predicate OneDeclarer(ms: seq<Migration>, bound: set<string>)
    requires ms != []
  {
    && (forall p, q :: IsPlace(p, |ms|) && IsPlace(q, |ms|) && Identifier(p, ms) == Identifier(q, ms) ==>
          Declarer(p, |ms|) == Declarer(q, |ms|))
    && forall p :: IsPlace(p, |ms|) ==> Identifier(p, ms) !in bound
  }

  lemma PlaceIsImported(ms: seq<Migration>, place: Place)
    requires ms != [] && Complete(ms, |ms|) && IsPlace(place, |ms|)
    ensures Identifier(place, ms) in ImportOf(ms[Declarer(place, |ms|)], |ms|).names
  {
  }

  lemma ImportedHasPlace(ms: seq<Migration>, i: nat, name: string) returns (place: Place)
    requires Complete(ms, |ms|) && i < |ms| && name in ImportOf(ms[i], |ms|).names
    ensures IsPlace(place, |ms|) && Declarer(place, |ms|) == i && Identifier(place, ms) == name
  {
    if name == ms[i].targetCodec {
      place := Codec(i + 1);
    } else if name == ms[i].migration {
      place := Applied(i);
    } else if i == 0 && name == ms[0].sourceCodec {
      place := Codec(0);
    } else if name == ms[i].targetRestorer {
      place := Restorer;
    } else {
      place := HeaderValidator;
    }
  }

  /** The generated source binds every identifier once exactly when no two packages declare one under
      the same name. */
  lemma BindsOnceIff(ms: seq<Migration>, c: Catalog, bound: set<string>)
    requires ms != [] && Complete(ms, |ms|) && Render(ms, |ms|) == Some(c)
    ensures BindsOnce(c, bound) <==> OneDeclarer(ms, bound)
  {
    assert forall i :: 0 <= i < |ms| ==> c.imports[i] == ImportOf(ms[i], |ms|);
    if BindsOnce(c, bound) {
      forall p, q | IsPlace(p, |ms|) && IsPlace(q, |ms|) && Identifier(p, ms) == Identifier(q, ms)
        ensures Declarer(p, |ms|) == Declarer(q, |ms|)
      {
        PlaceIsImported(ms, p);
        PlaceIsImported(ms, q);
      }
      forall p | IsPlace(p, |ms|) ensures Identifier(p, ms) !in bound {
        PlaceIsImported(ms, p);
      }
    }
    if OneDeclarer(ms, bound) {
      forall i, j, name | 0 <= i < j < |ms| && name in c.imports[i].names ensures name !in c.imports[j].names {
        var p := ImportedHasPlace(ms, i, name);
        if name in c.imports[j].names { var q := ImportedHasPlace(ms, j, name); }
      }
      forall i, name | 0 <= i < |ms| && name in c.imports[i].names ensures name !in bound {
        var p := ImportedHasPlace(ms, i, name);
      }
    }
  }

  lemma AcceptedBindsOnceIff(ps: seq<Package>, current: nat, manifest: CatalogManifest, ms: seq<Migration>)
    requires Accepted(ps, current, manifest, ms) && current > 0
    ensures BindsOnce(Render(ms, current).value, BOUND) <==> OneDeclarer(ms, BOUND)
  {
    AcceptedIsChain(ps, current, manifest, ms);
    BindsOnceIff(ms, Render(ms, current).value, BOUND);
  }

  /** A package whose migration reads and writes codecs of one name. */
  function AlikePackage(from: nat, codec: string): Package {
    Package(Some(Directory(from, from + 1, true)), Text(PackageName(from, from + 1)),
            if from == 0 then {} else {PackageName(from - 1, from)},
            Some(RawMigration(false, Integer(from), Integer(from + 1), Text("."), Text("migrate" + Numeral(from)),
                              Text(codec), Text(codec), Text("validate"), Text("restore"))))
  }

  function AlikeMigration(from: nat, codec: string): Migration {
    var name := PackageName(from, from + 1);
    Migration(name, name, from, from + 1, "migrate" + Numeral(from), codec, codec, "validate", "restore", true,
              if from == 0 then {} else {PackageName(from - 1, from)})
  }

  lemma AlikeIsDeclared(from: nat, codec: string)
    requires codec != "" && from < MAX_SAFE_INTEGER
    ensures Declaration(AlikePackage(from, codec)) == Some(AlikeMigration(from, codec))
  {
  }

  lemma CollectOneMore<A, B>(init: seq<A>, last: A, xs: seq<A>, f: A -> Option<B>)
    requires xs == init + [last] && Collect(init, f).Some? && f(last).Some?
    ensures Collect(xs, f) == Some(Collect(init, f).value + [f(last).value])
  {
    assert xs[..|xs| - 1] == init;
  }

  lemma TwoCollected<A, B>(a: A, b: A, f: A -> Option<B>)
    requires f(a).Some? && f(b).Some?
    ensures Collect([a, b], f) == Some([f(a).value, f(b).value])
  {
    CollectOneMore([], a, [a], f);
    CollectOneMore([a], b, [a, b], f);
    assert [] + [f(a).value] == [f(a).value] && [f(a).value] + [f(b).value] == [f(a).value, f(b).value];
  }

  lemma TwoInOrder(a: Migration, b: Migration)
    requires a.from < b.from
    ensures Sort([a, b], ByFrom()) == [a, b]
  {
    assert TotalPreorder(ByFrom());
    SortOrders([a, b], ByFrom());
    SortPermutes([a, b], ByFrom());
    OrderedIsUnique([a, b], Sort([a, b], ByFrom()), ByFrom());
  }

  lemma AlikeIsAccepted(codec: string, manifest: CatalogManifest)
    requires codec != "" && SESSION !in manifest.dependencies
    requires SESSION in manifest.peerDependencies * manifest.devDependencies
    requires {PackageName(0, 1), PackageName(1, 2)} <= manifest.dependencies
    ensures Accepted([AlikePackage(0, codec), AlikePackage(1, codec)], 2, manifest,
      [AlikeMigration(0, codec), AlikeMigration(1, codec)])
  {
    AlikeIsDeclared(0, codec);
    AlikeIsDeclared(1, codec);
    TwoCollected(AlikePackage(0, codec), AlikePackage(1, codec), Declaration);
    TwoInOrder(AlikeMigration(0, codec), AlikeMigration(1, codec));
  }

  /** Codecs of one name after two migrations are imported from two packages. */
  lemma CodecsCollide(ms: seq<Migration>, c: Catalog, bound: set<string>)
    requires Complete(ms, 2) && Render(ms, 2) == Some(c) && ms[0].targetCodec == ms[1].targetCodec
    ensures !BindsOnce(c, bound)
  {
    BindsOnceIff(ms, c, bound);
    assert Identifier(Codec(1), ms) == Identifier(Codec(2), ms) && IsPlace(Codec(1), 2) && IsPlace(Codec(2), 2);
    assert Declarer(Codec(1), 2) != Declarer(Codec(2), 2);
  }

  /** Two migrations that name their codecs alike are accepted, and the generated source imports that
      name from both packages. */
  lemma AlikeCodecsCollide(codec: string, manifest: CatalogManifest)
    requires codec != "" && SESSION !in manifest.dependencies
    requires SESSION in manifest.peerDependencies * manifest.devDependencies
    requires {PackageName(0, 1), PackageName(1, 2)} <= manifest.dependencies
    ensures var ps, ms := [AlikePackage(0, codec), AlikePackage(1, codec)],
      [AlikeMigration(0, codec), AlikeMigration(1, codec)];
      Accepted(ps, 2, manifest, ms) && !BindsOnce(Render(ms, 2).value, BOUND)
  {
    var ms := [AlikeMigration(0, codec), AlikeMigration(1, codec)];
    AlikeIsAccepted(codec, manifest);
    CodecsCollide(ms, Render(ms, 2).value, BOUND);
  }

  // ---------- Upgrading ----------

  /** Versions reached by applying, from `version` on, every migration that starts where the last
      one ended. */
  function Upgrade(ms: seq<Migration>, version: nat): nat {
    if ms == [] then version
    else Upgrade(ms[1..], if ms[0].from == version then ms[0].to else version)
  }

  /** An artifact of any version up to the current one is upgraded to the current one. */
  lemma {:induction false} UpgradeReachesCurrent(ms: seq<Migration>, low: nat, version: nat)
    requires low <= version <= low + |ms|
    requires forall i :: 0 <= i < |ms| ==> ms[i].from == low + i && ms[i].to == low + i + 1
    ensures Upgrade(ms, version) == low + |ms|
  {
    if ms != [] {
      UpgradeReachesCurrent(ms[1..], low + 1, if ms[0].from == version then ms[0].to else version);
    }
  }

  lemma AcceptedUpgrades(ps: seq<Package>, current: nat, manifest: CatalogManifest, ms: seq<Migration>, version: nat)
    requires Accepted(ps, current, manifest, ms)
    ensures Upgrade(ms, version) == if version <= current then current else version
  {
    if version <= current {
      UpgradeReachesCurrent(ms, 0, version);
    } else {
      UnknownVersionStays(ms, version);
    }
  }

  lemma {:induction false} UnknownVersionStays(ms: seq<Migration>, version: nat)
    requires forall i :: 0 <= i < |ms| ==> ms[i].from != version
    ensures Upgrade(ms, version) == version
  {
    if ms != [] { UnknownVersionStays(ms[1..], version); }
  }
}
