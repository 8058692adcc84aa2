/** Whether `findExportedTypeDecl` of scripts/gen-config-catalog.ts finds what is exported.  It takes any
    declaration of the name in a file that it reaches, exported or not; it goes through the statements in
    order, `export *` or not; and it passes over lists without a source and over other packages. */
module ExportHonesty {
  import opened ModuleExports
  import opened Options
  import opened SearchOrder
  import opened TypeGraph

  // ---------- The exact condition ----------

  /** The search finds what is exported exactly when the declaration at the end of the first path is the one
      that the export leads to, and there is none where there is no such path. */
  lemma ExportedIff(w: World, f: FileId, name: string)
    requires Closed(w) && f in w
    ensures FindExportedTypeDecl(w, f, name) == Exported(w, f, name) <==>
      forall d :: FirstDeclared(w, ExportKey(f, name), {}, d) <==> SoleExport(w, ExportKey(f, name), d)
  {
    var k, s, l := ExportKey(f, name), FindExportedTypeDecl(w, f, name), Exported(w, f, name);
    forall d ensures s == Some(d) <==> FirstDeclared(w, k, {}, d) {
      SearchTakesFirst(w, f, name, d);
    }
    if forall d :: FirstDeclared(w, k, {}, d) <==> SoleExport(w, k, d) {
      if s.Some? { assert SoleExport(w, k, s.value); }
      if l.Some? { assert FirstDeclared(w, k, {}, l.value); }
    }
  }

  // ---------- A condition on single files ----------

  /** In this file the search goes the way of the export: what declares the name exports that; an explicit
      export is followed, and no `export *` beside it; otherwise every `export *` is followed. */
  ghost predicate Straight(w: World, k: ExportKey) {
    k.file in w &&
    if DeclaredAt(w, k) then ExplicitOf(w[k.file], k.name) == Here(FindDecl(w[k.file].decls, k.name).value)
    else match ExplicitOf(w[k.file], k.name)
      case Here(_) => false
      case Onward(to) =>
        (exists i: nat :: ForwardsAt(w, k, i, to)) && forall j: nat, t :: ForwardsAt(w, k, j, t) ==> t == to
      case Opaque => forall j: nat, t :: !ForwardsAt(w, k, j, t)
      case Nothing =>
        if k.name == "default" then forall j: nat, t :: !ForwardsAt(w, k, j, t)
        else forall i: nat, g :: StarAt(w[k.file], i, g) ==> w[k.file].reExports[i].origin.RelativeSource?
  }

  /** The program gives the name one meaning there; a compiler refuses two. */
  ghost predicate OneMeaning(w: World, k: ExportKey) {
    forall a, b :: Provides(w, k, a) && Provides(w, k, b) ==> a == b
  }

  lemma {:induction false} NotInLists(file: File, stmts: seq<ReExport>, name: string, i: nat)
    requires InLists(file, stmts, name).Nothing? && i < |stmts| && LookFor(stmts[i], name).Some?
    ensures stmts[i].Star? && LookFor(stmts[i], name) == Some(name)
  {
    if i > 0 { NotInLists(file, stmts[1..], name, i - 1); }
  }

  /** Where nothing is declared, the search goes exactly where the export goes. */
  lemma SameHops(w: World, k: ExportKey, to: ExportKey)
    requires Straight(w, k) && !DeclaredAt(w, k)
    ensures Forwards(w, k, to) <==> PassesOn(w, k, to)
  {
    var file := w[k.file];
    if ExplicitOf(file, k.name).Nothing? && k.name != "default" {
      if Forwards(w, k, to) {
        var i: nat :| ForwardsAt(w, k, i, to);
        NotInLists(file, file.reExports, k.name, i);
        assert StarAt(file, i, to.file);
      }
      if PassesOn(w, k, to) {
        var i: nat :| StarAt(file, i, to.file);
        assert ForwardsAt(w, k, i, to);
      }
    } else if Forwards(w, k, to) {
      var i: nat :| ForwardsAt(w, k, i, to);
    }
  }

  ghost predicate StraightFrom(w: World, k: ExportKey) {
    forall t :: Reaches(w, k, t) ==> Straight(w, t)
  }

  lemma StraightNext(w: World, k: ExportKey, next: ExportKey)
    requires StraightFrom(w, k)
    ensures Straight(w, k) && (Forwards(w, k, next) ==> StraightFrom(w, next))
  {
    assert ReachesBy(w, k, k, [k]);
    if Forwards(w, k, next) {
      forall t | Reaches(w, next, t) ensures Straight(w, t) {
        var path :| ReachesBy(w, next, t, path);
        assert ReachesBy(w, k, t, [k] + path);
      }
    }
  }

  lemma {:induction false} FirstIsPassed(w: World, path: seq<ExportKey>, shut: set<ExportKey>, d: DeclId)
    requires path != [] && ComesFirst(w, path, shut, d) && StraightFrom(w, path[0])
    ensures PassedAlong(w, path) && IsMeant(w, path[|path| - 1], Shown(d))
    decreases |path|
  {
    if |path| == 1 {
      StraightNext(w, path[0], path[0]);
    } else {
      var i: nat :| Picks(w, path[0], path[1], i, shut + {path[0]});
      assert Forwards(w, path[0], path[1]);
      StraightNext(w, path[0], path[1]);
      SameHops(w, path[0], path[1]);
      FirstIsPassed(w, path[1..], shut + {path[0]}, d);
      PassedFirst(w, path);
    }
  }

  lemma PassedFirst(w: World, path: seq<ExportKey>)
    requires |path| > 1 && PassesOn(w, path[0], path[1]) && PassedAlong(w, path[1..])
    ensures PassedAlong(w, path)
  {
    forall i | 0 <= i < |path| - 1 ensures PassesOn(w, path[i], path[i + 1]) {
      if i > 0 { assert PassesOn(w, path[1..][i - 1], path[1..][i]); }
    }
  }

  lemma {:induction false} PassedLeadsOn(w: World, path: seq<ExportKey>, d: DeclId)
    requires path != [] && PassedAlong(w, path) && IsMeant(w, path[|path| - 1], Shown(d)) && StraightFrom(w, path[0])
    ensures LeadsOn(w, path[0], {})
    decreases |path|
  {
    if |path| == 1 {
      StraightNext(w, path[0], path[0]);
      assert OpenPath(w, path, {});
    } else {
      assert PassesOn(w, path[0], path[1]);
      StraightNext(w, path[0], path[1]);
      SameHops(w, path[0], path[1]);
      forall i | 0 <= i < |path[1..]| - 1 ensures PassesOn(w, path[1..][i], path[1..][i + 1]) {
        assert PassesOn(w, path[i + 1], path[i + 2]);
      }
      PassedLeadsOn(w, path[1..], d);
      LeadsOnThrough(w, path[0], path[1]);
    }
  }

  lemma LeadsOnThrough(w: World, k: ExportKey, next: ExportKey)
    requires Forwards(w, k, next) && LeadsOn(w, next, {})
    ensures LeadsOn(w, k, {})
  {
    var path :| OpenPath(w, path, {}) && path[0] == next && DeclaredAt(w, path[|path| - 1]);
    assert OpenPath(w, [k] + path, {});
  }

  /** The search finds what is exported wherever it comes to straight files only and the program gives the name
      one meaning. */
  lemma StraightIsExported(w: World, f: FileId, name: string)
    requires Closed(w) && f in w && StraightFrom(w, ExportKey(f, name)) && OneMeaning(w, ExportKey(f, name))
    ensures FindExportedTypeDecl(w, f, name) == Exported(w, f, name)
  {
    var k, s, l := ExportKey(f, name), FindExportedTypeDecl(w, f, name), Exported(w, f, name);
    NamesAreClosed(w, name);
    HitComesFirst(w, k, {}, {}, SearchNames(w, name));
    if s.Some? {
      var path :| path != [] && path[0] == k && ComesFirst(w, path, {}, s.value);
      FirstIsPassed(w, path, {}, s.value);
      assert Provides(w, k, Shown(s.value));
    } else if l.Some? {
      var path :| PassedAlong(w, path) && path[0] == k && IsMeant(w, path[|path| - 1], Shown(l.value));
      PassedLeadsOn(w, path, l.value);
    }
  }

  // ---------- Where it finds something else ----------

  lemma HereIsSole(w: World, k: ExportKey, i: nat)
    requires k.file in w && ExplicitOf(w[k.file], k.name) == Here(i)
    ensures SoleExport(w, k, DeclId(k.file, i))
  {
    assert PassedAlong(w, [k]) && IsMeant(w, [k][|[k]| - 1], Shown(DeclId(k.file, i)));
    forall e | Provides(w, k, e) ensures e == Shown(DeclId(k.file, i)) {
      var path :| PassedAlong(w, path) && path[0] == k && IsMeant(w, path[|path| - 1], e);
      assert |path| > 1 ==> PassesOn(w, path[0], path[1]);
    }
  }

  lemma OnwardIsSole(w: World, k: ExportKey, next: ExportKey, d: DeclId)
    requires k.file in w && ExplicitOf(w[k.file], k.name) == Onward(next) && SoleExport(w, next, d)
    ensures SoleExport(w, k, d)
  {
    var path :| PassedAlong(w, path) && path[0] == next && IsMeant(w, path[|path| - 1], Shown(d));
    assert ([k] + path)[1..] == path;
    PassedFirst(w, [k] + path);
    assert IsMeant(w, ([k] + path)[|[k] + path| - 1], Shown(d));
    forall e | Provides(w, k, e) ensures e == Shown(d) {
      var longer :| PassedAlong(w, longer) && longer[0] == k && IsMeant(w, longer[|longer| - 1], e);
      if |longer| > 1 {
        assert PassesOn(w, longer[0], longer[1]);
        forall i | 0 <= i < |longer[1..]| - 1 ensures PassesOn(w, longer[1..][i], longer[1..][i + 1]) {
          assert PassesOn(w, longer[i + 1], longer[i + 2]);
        }
        assert PassedAlong(w, longer[1..]) && IsMeant(w, longer[1..][|longer[1..]| - 1], e);
        assert Provides(w, next, e);
      }
    }
  }

  lemma OpaqueIsNone(w: World, k: ExportKey)
    requires k.file in w && ExplicitOf(w[k.file], k.name).Opaque?
    ensures Exported(w, k.file, k.name) == None
  {
    assert PassedAlong(w, [k]) && IsMeant(w, [k][|[k]| - 1], Beyond);
    assert Provides(w, k, Beyond);
  }

  /** `entry.ts` exports a `C` somehow; `a.ts` and `b.ts` both export an interface `C`; `main.ts` imports the `C`
      of `entry.ts`. */
  function Entry(entry: File, xs: seq<Member>, ys: seq<Member>): World {
    map["entry.ts" := entry,
        "a.ts" := File([Interface("C", true, xs, [])], map[], [], map[]),
        "b.ts" := File([Interface("C", true, ys, [])], map[], [], map[]),
        "main.ts" := File([Alias("T", true, Reference("C", false, [], false))],
                          map["C" := Import("C", "./entry.ts", RelativeSource("entry.ts"))], [], map[])]
  }

  const FROM_A: DeclId := DeclId("a.ts", 0)
  const FROM_B: DeclId := DeclId("b.ts", 0)

  const TO_B: ReExport := Named(RelativeSource("b.ts"), [ExportElement("C", "C")])

  /** An interface `C` that is not exported, and `export { C } from './b.ts'`. */
  function Hidden(members: seq<Member>): File {
    File([Interface("C", false, members, [])], map[], [TO_B], map[])
  }

  /** `export * from './a.ts'`, and `export { C } from './b.ts'`. */
  function Listed(): File {
    File([], map[], [Star(RelativeSource("a.ts")), TO_B], map[])
  }

  /** `export * from './a.ts'`, and `C` is imported from `./b.ts` and passed on by `export { C }`. */
  function PassedOn(): File {
    File([], map["C" := Import("C", "./b.ts", RelativeSource("b.ts"))],
         [Star(RelativeSource("a.ts")), Own([ExportElement("C", "C")])], map[])
  }

  /** `export * from './a.ts'`, and `export class C`. */
  function Classy(): File {
    File([], map[], [Star(RelativeSource("a.ts"))], map["C" := true])
  }

  lemma BothExport(entry: File, xs: seq<Member>, ys: seq<Member>)
    ensures var w := Entry(entry, xs, ys);
      SoleExport(w, ExportKey("a.ts", "C"), FROM_A) && SoleExport(w, ExportKey("b.ts", "C"), FROM_B)
  {
    var w := Entry(entry, xs, ys);
    assert w["a.ts"].decls[0].exported && w["b.ts"].decls[0].exported;
    HereIsSole(w, ExportKey("a.ts", "C"), 0);
    HereIsSole(w, ExportKey("b.ts", "C"), 0);
  }

  lemma StarIsTaken(w: World, f: FileId, g: FileId, name: string, i: nat)
    requires Closed(w) && f in w && g in w && FindDecl(w[f].decls, name) == None
    requires FindDecl(w[g].decls, name) == Some(i)
    requires w[f].reExports != [] && w[f].reExports[0] == Star(RelativeSource(g)) && f != g
    ensures FindExportedTypeDecl(w, f, name) == Some(DeclId(g, i))
  {
    var k, next, names := ExportKey(f, name), ExportKey(g, name), SearchNames(w, name);
    NamesAreClosed(w, name);
    assert FindExported(w, next, {} + {k}, names).hit == Some(DeclId(g, i));
    assert ScanReExports(w, k, 0, {} + {k}, names).hit == Some(DeclId(g, i));
  }

  lemma ExplicitlyB(entry: File, xs: seq<Member>, ys: seq<Member>)
    requires ExplicitOf(entry, "C") == Onward(ExportKey("b.ts", "C"))
    ensures Exported(Entry(entry, xs, ys), "entry.ts", "C") == Some(FROM_B)
  {
    BothExport(entry, xs, ys);
    OnwardIsSole(Entry(entry, xs, ys), ExportKey("entry.ts", "C"), ExportKey("b.ts", "C"), FROM_B);
  }

  lemma TakesA(entry: File, xs: seq<Member>, ys: seq<Member>)
    requires Closed(Entry(entry, xs, ys)) && entry.decls == [] && entry.reExports != []
    requires entry.reExports[0] == Star(RelativeSource("a.ts"))
    ensures FindExportedTypeDecl(Entry(entry, xs, ys), "entry.ts", "C") == Some(FROM_A)
  {
    StarIsTaken(Entry(entry, xs, ys), "entry.ts", "a.ts", "C", 0);
  }

  lemma WhatEntriesSay(members: seq<Member>)
    ensures ExplicitOf(Listed(), "C") == ExplicitOf(PassedOn(), "C") == ExplicitOf(Hidden(members), "C") ==
      Onward(ExportKey("b.ts", "C"))
    ensures ExplicitOf(Classy(), "C") == Opaque
  {
    var b := ExportKey("b.ts", "C");
    assert InLists(Listed(), [TO_B], "C") == Onward(b);
    assert InLists(PassedOn(), [Own([ExportElement("C", "C")])], "C") == InScope(PassedOn(), "C") == Onward(b);
    assert InLists(Hidden(members), [TO_B], "C") == Onward(b);
  }

  /** An explicit export wins in the language, and the star that stands before it in the search: for a list with
      a source, */
  lemma StarBeforeList(xs: seq<Member>, ys: seq<Member>)
    ensures var w := Entry(Listed(), xs, ys);
      && Closed(w) && FindExportedTypeDecl(w, "entry.ts", "C") == Some(FROM_A) &&
        Exported(w, "entry.ts", "C") == Some(FROM_B)
  {
    WhatEntriesSay([]);
    TakesA(Listed(), xs, ys);
    ExplicitlyB(Listed(), xs, ys);
  }

  /** for an import that is passed on, */
  lemma StarBeforePassedOn(xs: seq<Member>, ys: seq<Member>)
    ensures var w := Entry(PassedOn(), xs, ys);
      && Closed(w) && FindExportedTypeDecl(w, "entry.ts", "C") == Some(FROM_A) &&
        Exported(w, "entry.ts", "C") == Some(FROM_B)
  {
    WhatEntriesSay([]);
    TakesA(PassedOn(), xs, ys);
    ExplicitlyB(PassedOn(), xs, ys);
  }

  /** and for a class. */
  lemma StarBesideClass(xs: seq<Member>, ys: seq<Member>)
    ensures var w := Entry(Classy(), xs, ys);
      && Closed(w) && FindExportedTypeDecl(w, "entry.ts", "C") == Some(FROM_A) && Exported(w, "entry.ts", "C") == None
  {
    WhatEntriesSay([]);
    TakesA(Classy(), xs, ys);
    OpaqueIsNone(Entry(Classy(), xs, ys), ExportKey("entry.ts", "C"));
  }

  lemma DeclaredIsTaken(w: World, f: FileId, name: string, i: nat)
    requires Closed(w) && f in w && FindDecl(w[f].decls, name) == Some(i)
    ensures FindExportedTypeDecl(w, f, name) == Some(DeclId(f, i))
  {
  }

  /** A declaration that is not exported is found before what is. */
  lemma HiddenDeclarationIsFound(hidden: seq<Member>, xs: seq<Member>, ys: seq<Member>)
    ensures var w := Entry(Hidden(hidden), xs, ys);
      && Closed(w) && FindExportedTypeDecl(w, "entry.ts", "C") == Some(DeclId("entry.ts", 0))
      && Exported(w, "entry.ts", "C") == Some(FROM_B)
  {
    WhatEntriesSay(hidden);
    DeclaredIsTaken(Entry(Hidden(hidden), xs, ys), "entry.ts", "C", 0);
    ExplicitlyB(Hidden(hidden), xs, ys);
  }
}
