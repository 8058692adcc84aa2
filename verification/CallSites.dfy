/** `EventRelationCollector.callSitesFor` of scripts/gen-doc-graphs.ts: the calls of a local helper,
    from an index of one file when the helper provably cannot escape it, and from an index of all
    package sources otherwise. */
module CallSites {
  import opened CallLists
  import opened ExpressionPlaces
  import opened ModuleLanguage
  import opened Options
  import opened Places
  import opened ValueRules

  // ---------- The locality proof ----------

  predicate IsAlias(item: Item) {
    item.Import? || item.ReExport? || item.ExportSpecifier?
  }

  /** The declaration one hop behind an import, a re-export or an export specifier. */
  function Onward(p: Program, d: ItemId): Option<ItemId>
    requires Has(p, d)
  {
    match ItemOf(p, d)
    case Import(_, from, imported) => ExportedItem(p, from, imported)
    case ReExport(_, from, imported) => ExportedItem(p, from, imported)
    case ExportSpecifier(_, local) =>
      if local.Ident? && local.sym.ItemSymbol? then Some(local.sym.item) else None
    case _ => None
  }

  /** The declaration behind an import binding: at most `depth` hops, no values. */
  function AliasedItem(p: Program, d: ItemId, depth: nat): Option<ItemId>
    decreases depth
  {
    if !Has(p, d) then None
    else if !IsAlias(ItemOf(p, d)) then Some(d)
    else if depth == 0 || Onward(p, d).None? then None
    else AliasedItem(p, Onward(p, d).value, depth - 1)
  }

  predicate RefersTo(p: Program, sym: Symbol, owner: ItemId, depth: nat) {
    sym.ItemSymbol? &&
    (sym.item == owner ||
     (Has(p, sym.item) && ItemOf(p, sym.item).Import? && AliasedItem(p, sym.item, depth) == Some(owner)))
  }

  /** An identifier that defeats the locality proof. */
  predicate Defeats(p: Program, o: Occurrence, owner: ItemId, name: string, depth: nat) {
    o.text == name && !DirectCallee(o.ancestors) && RefersTo(p, o.sym, owner, depth)
  }

  predicate ProvenLocal(p: Program, owner: ItemId, depth: nat) {
    && IsFunction(p, owner) && !ItemOf(p, owner).exported && p[owner.file].isModule
    && forall o :: o in FileIdents(p, owner.file) ==> !Defeats(p, o, owner, ItemOf(p, owner).name, depth)
  }

  // ---------- What the locality proof asks of a file ----------

  ghost predicate HopsTo(p: Program, d: ItemId, e: ItemId) {
    Has(p, d) &&
    match ItemOf(p, d)
    case Import(_, from, imported) => GivesExport(p, from, imported, e)
    case ReExport(_, from, imported) => GivesExport(p, from, imported, e)
    case ExportSpecifier(_, local) => exists text :: local == Ident(text, ItemSymbol(e))
    case _ => false
  }

  ghost predicate IsDeclaration(p: Program, d: ItemId) {
    Has(p, d) && (ItemOf(p, d).Function? || ItemOf(p, d).Const? || ItemOf(p, d).Statement?)
  }

  ghost predicate AliasPath(p: Program, path: seq<ItemId>) {
    && path != [] && IsDeclaration(p, path[|path| - 1])
    && forall i :: 0 <= i < |path| - 1 ==> HopsTo(p, path[i], path[i + 1])
  }

  ghost predicate LeadsTo(p: Program, d: ItemId, e: ItemId, hops: nat) {
    exists path :: AliasPath(p, path) && path[0] == d && path[|path| - 1] == e && |path| <= hops + 1
  }

  lemma OneHop(p: Program, d: ItemId, e: ItemId)
    requires Has(p, d)
    ensures HopsTo(p, d, e) <==> Onward(p, d) == Some(e)
  {
    match ItemOf(p, d)
    case Import(_, from, imported) => ExportIsGiven(p, from, imported, e);
    case ReExport(_, from, imported) => ExportIsGiven(p, from, imported, e);
    case ExportSpecifier(_, local) =>
      if local.Ident? { assert local == Ident(local.text, local.sym); }
    case _ =>
  }

  lemma {:induction false} FollowedLeads(p: Program, d: ItemId, e: ItemId, depth: nat)
    requires AliasedItem(p, d, depth) == Some(e)
    ensures LeadsTo(p, d, e, depth)
    decreases depth
  {
    if IsAlias(ItemOf(p, d)) {
      var next := Onward(p, d).value;
      OneHop(p, d, next);
      FollowedLeads(p, next, e, depth - 1);
      var path :| AliasPath(p, path) && path[0] == next && path[|path| - 1] == e && |path| <= depth;
      var longer := [d] + path;
      assert AliasPath(p, longer) && longer[|longer| - 1] == e;
    } else {
      assert AliasPath(p, [d]);
    }
  }

  lemma {:induction false} PathIsFollowed(p: Program, path: seq<ItemId>, depth: nat)
    requires AliasPath(p, path) && |path| <= depth + 1
    ensures AliasedItem(p, path[0], depth) == Some(path[|path| - 1])
    decreases |path|
  {
    if |path| > 1 {
      assert HopsTo(p, path[0], path[1]);
      OneHop(p, path[0], path[1]);
      var rest := path[1..];
      forall i | 0 <= i < |rest| - 1 ensures HopsTo(p, rest[i], rest[i + 1]) {
        assert HopsTo(p, path[i + 1], path[i + 2]);
      }
      PathIsFollowed(p, rest, depth - 1);
    }
  }

  lemma AliasIsFollowed(p: Program, d: ItemId, e: ItemId, depth: nat)
    ensures AliasedItem(p, d, depth) == Some(e) <==> LeadsTo(p, d, e, depth)
  {
    if AliasedItem(p, d, depth) == Some(e) { FollowedLeads(p, d, e, depth); }
    if LeadsTo(p, d, e, depth) {
      var path :| AliasPath(p, path) && path[0] == d && path[|path| - 1] == e && |path| <= depth + 1;
      PathIsFollowed(p, path, depth);
    }
  }

  ghost predicate CalledThrough(ancestors: seq<Frame>, k: nat) {
    k < |ancestors| && ancestors[k].AsCallee? && forall i :: 0 <= i < k ==> ancestors[i].InWrapper?
  }

  /** Wrappers apart, the identifier is the callee of a call. */
  ghost predicate CalledThroughWrappers(ancestors: seq<Frame>) {
    exists k: nat :: CalledThrough(ancestors, k)
  }

  lemma {:induction false} DirectIff(ancestors: seq<Frame>)
    ensures DirectCallee(ancestors) <==> CalledThroughWrappers(ancestors)
  {
    if ancestors != [] {
      var rest := ancestors[1..];
      DirectIff(rest);
      if CalledThroughWrappers(ancestors) {
        var k: nat :| CalledThrough(ancestors, k);
        if k > 0 { assert CalledThrough(rest, k - 1); }
      }
      if DirectCallee(ancestors) {
        if ancestors[0].InWrapper? {
          var k: nat :| CalledThrough(rest, k);
          assert CalledThrough(ancestors, k + 1);
        } else {
          assert CalledThrough(ancestors, 0);
        }
      }
    }
  }

  /** The name is bound to the owner, or to an import that at most `hops` hops lead from to the owner. */
  ghost predicate BoundTo(p: Program, sym: Symbol, owner: ItemId, hops: nat) {
    sym == ItemSymbol(owner) ||
    (sym.ItemSymbol? && Has(p, sym.item) && ItemOf(p, sym.item).Import? && LeadsTo(p, sym.item, owner, hops))
  }

  /** A function of a module, without `export`, of whose name every occurrence in its own file that is bound to
      it is called on the spot. */
  ghost predicate OnlyCalled(p: Program, owner: ItemId, hops: nat) {
    && Has(p, owner) && ItemOf(p, owner).Function? && !ItemOf(p, owner).exported && p[owner.file].isModule
    && forall o :: StandsInFile(p, owner.file, o) && o.text == ItemOf(p, owner).name && BoundTo(p, o.sym, owner, hops)
         ==> CalledThroughWrappers(o.ancestors)
  }

  lemma DefeatsIff(p: Program, o: Occurrence, owner: ItemId, name: string, depth: nat)
    ensures Defeats(p, o, owner, name, depth) <==>
      o.text == name && BoundTo(p, o.sym, owner, depth) && !CalledThroughWrappers(o.ancestors)
  {
    DirectIff(o.ancestors);
    if o.sym.ItemSymbol? { AliasIsFollowed(p, o.sym.item, owner, depth); }
  }

  /** What the locality proof asks, place by place. */
  lemma ProvenLocalIff(p: Program, owner: ItemId, depth: nat)
    ensures ProvenLocal(p, owner, depth) <==> OnlyCalled(p, owner, depth)
  {
    if IsFunction(p, owner) {
      forall o ensures Defeats(p, o, owner, ItemOf(p, owner).name, depth) <==>
          o.text == ItemOf(p, owner).name && BoundTo(p, o.sym, owner, depth) && !CalledThroughWrappers(o.ancestors)
      {
        DefeatsIff(p, o, owner, ItemOf(p, owner).name, depth);
      }
      forall o ensures o in FileIdents(p, owner.file) <==> StandsInFile(p, owner.file, o) {
        FileIdentsAreAll(p, owner.file, o);
      }
    }
  }

  // ---------- The locality proof is sound ----------

  lemma {:induction false} CallSits(e: Expr, ancestors: seq<Frame>, call: Expr) returns (up: seq<Frame>)
    requires call in Calls(e)
    ensures call.Call? && forall o :: o in Idents(call.callee, [AsCallee] + up) ==> o in Idents(e, ancestors)
    decreases e, 1
  {
    match e
    case Wrapper(inner) => up := CallSits(inner, [InWrapper] + ancestors, call);
    case Call(callee, args) =>
      if call == e {
        up := ancestors;
      } else if call in Calls(callee) {
        up := CallSits(callee, [AsCallee] + ancestors, call);
      } else {
        up := CallSitsInAll(args, [Elsewhere] + ancestors, call);
      }
    case ObjectLiteral(fields) => up := CallSitsInFields(fields, [Elsewhere] + ancestors, call);
    case Member(target, _) => up := CallSits(target, [Elsewhere] + ancestors, call);
    case Opaque(children) => up := CallSitsInAll(children, [Elsewhere] + ancestors, call);
  }

  lemma {:induction false} CallSitsInAll(es: seq<Expr>, ancestors: seq<Frame>, call: Expr) returns (up: seq<Frame>)
    requires call in AllCalls(es)
    ensures call.Call? && forall o :: o in Idents(call.callee, [AsCallee] + up) ==> o in AllIdents(es, ancestors)
    decreases es, 0
  {
    if call in Calls(es[0]) {
      up := CallSits(es[0], ancestors, call);
    } else {
      up := CallSitsInAll(es[1..], ancestors, call);
    }
  }

  lemma {:induction false} CallSitsInFields(fields: seq<Field>, ancestors: seq<Frame>, call: Expr)
    returns (up: seq<Frame>)
    requires call in FieldCalls(fields)
    ensures call.Call? && forall o :: o in Idents(call.callee, [AsCallee] + up) ==> o in FieldIdents(fields, ancestors)
    decreases fields, 0
  {
    if call in Calls(fields[0].value) {
      up := CallSits(fields[0].value, ancestors, call);
    } else {
      up := CallSitsInFields(fields[1..], ancestors, call);
    }
  }

  lemma {:induction false} CallSitsInItems(items: seq<Item>, call: Expr) returns (up: seq<Frame>)
    requires call in ItemCalls(items)
    ensures call.Call? && forall o :: o in Idents(call.callee, [AsCallee] + up) ==> o in ItemIdents(items)
  {
    if call in AllCalls(Roots(items[0])) {
      up := CallSitsInAll(Roots(items[0]), [Elsewhere], call);
    } else {
      up := CallSitsInItems(items[1..], call);
    }
  }

  /** Module scoping confines the helper: no call in another file resolves to it, through however
      many constants, objects, results, imports and exports the value could travel. */
  lemma ProvenLocalIsConfined(p: Program, owner: ItemId, g: FileId, call: Expr, hops: nat, depth: nat)
    requires WellScoped(p) && ProvenLocal(p, owner, hops)
    requires g in p && call in FileCalls(p, g) && Declaration(p, g, call, depth) == Some(owner)
    ensures g == owner.file
  {
    var up := CallSitsInItems(p[g].items, call);
    TraceValue(p, owner, g, call.callee, [AsCallee] + up, depth);
    NamedInValuePosition(p, g, call.callee, [AsCallee] + up, owner);
  }

  /** The same by the rules of values, place by place. */
  lemma OnlyCalledIsConfined(p: Program, owner: ItemId, g: FileId, path: Path, hops: nat)
    requires WellScoped(p) && OnlyCalled(p, owner, hops)
    requires AtFile(p, g, path).Some? && AtFile(p, g, path).value.Call?
    requires Evaluates(p, g, AtFile(p, g, path).value.callee, Fn(owner))
    ensures g == owner.file
  {
    var call := AtFile(p, g, path).value;
    ProvenLocalIff(p, owner, hops);
    ValuesAreRules(p, g, call.callee, Fn(owner));
    var depth: nat :| ValueOf(p, g, call.callee, depth) == Fn(owner);
    var places := FileCallsAreAll(p, g);
    assert CallInFile(p, g)(path) == Some(call);
    var k :| 0 <= k < |places| && places[k] == path;
    assert CallInFile(p, g)(places[k]) == Some(FileCalls(p, g)[k]);
    ProvenLocalIsConfined(p, owner, g, call, hops, depth);
  }

  lemma {:induction false} NothingMatches(p: Program, owner: ItemId, g: FileId, calls: seq<Expr>, depth: nat)
    requires forall c :: c in calls ==> Declaration(p, g, c, depth) != Some(owner)
    ensures Matching(p, g, calls, owner, depth) == []
  {
    if calls != [] { NothingMatches(p, owner, g, calls[..|calls| - 1], depth); }
  }

  lemma OtherFilesMatchNothing(p: Program, owner: ItemId, g: FileId, depth: nat)
    requires WellScoped(p) && ProvenLocal(p, owner, depth) && g != owner.file
    ensures Matching(p, g, FileCalls(p, g), owner, depth) == []
  {
    forall c | c in FileCalls(p, g) ensures Declaration(p, g, c, depth) != Some(owner) {
      if Declaration(p, g, c, depth) == Some(owner) { ProvenLocalIsConfined(p, owner, g, c, depth, depth); }
    }
    NothingMatches(p, owner, g, FileCalls(p, g), depth);
  }

  ghost predicate SilentElsewhere(p: Program, owner: ItemId, depth: nat) {
    forall g :: g != owner.file ==> Matching(p, g, FileCalls(p, g), owner, depth) == []
  }

  lemma {:induction false} SilentFilesAddNothing(p: Program, files: seq<FileId>, owner: ItemId, depth: nat)
    requires SilentElsewhere(p, owner, depth)
    requires forall i, j :: 0 <= i < j < |files| ==> files[i] != files[j]
    ensures CallsTo(p, files, owner, depth) ==
      if owner.file in files then Matching(p, owner.file, FileCalls(p, owner.file), owner, depth) else []
  {
    if files != [] {
      var init, g := files[..|files| - 1], files[|files| - 1];
      SilentFilesAddNothing(p, init, owner, depth);
      LastFile(files, owner.file);
      if g != owner.file {
        assert Matching(p, g, FileCalls(p, g), owner, depth) == [];
      }
    }
  }

  lemma LastFile(files: seq<FileId>, f: FileId)
    requires files != [] && forall i, j :: 0 <= i < j < |files| ==> files[i] != files[j]
    ensures f in files <==> f in files[..|files| - 1] || f == files[|files| - 1]
    ensures files[|files| - 1] !in files[..|files| - 1]
  {
    assert files == files[..|files| - 1] + [files[|files| - 1]];
  }

  /** The index of the helper's own file says as much as the index of any set of files with it. */
  lemma OnlyOwnFileMatches(p: Program, files: seq<FileId>, owner: ItemId, depth: nat)
    requires WellScoped(p) && ProvenLocal(p, owner, depth)
    requires forall i, j :: 0 <= i < j < |files| ==> files[i] != files[j]
    ensures CallsTo(p, files, owner, depth) ==
      if owner.file in files then CallsTo(p, [owner.file], owner, depth) else []
  {
    forall g | g != owner.file ensures Matching(p, g, FileCalls(p, g), owner, depth) == [] {
      OtherFilesMatchNothing(p, owner, g, depth);
    }
    SilentFilesAddNothing(p, files, owner, depth);
  }

  // ---------- The index ----------

  type Index = map<ItemId, seq<CallSite>>

  function Indexed(index: Index, fn: ItemId): seq<CallSite> {
    if fn in index then index[fn] else []
  }

  ghost predicate IndexOf(p: Program, files: seq<FileId>, depth: nat, index: Index) {
    forall fn :: Indexed(index, fn) == CallsTo(p, files, fn, depth)
  }

  /** `index` is `before` with some calls of file `f` filed under the declarations they resolve to. */
  ghost predicate Added(p: Program, f: FileId, calls: seq<Expr>, depth: nat, before: Index, index: Index) {
    forall fn :: Indexed(index, fn) == Indexed(before, fn) + Matching(p, f, calls, fn, depth)
  }

  lemma AddedOne(p: Program, f: FileId, calls: seq<Expr>, depth: nat, before: Index, index: Index, index': Index)
    requires calls != [] && Added(p, f, calls[..|calls| - 1], depth, before, index)
    requires var call, d := calls[|calls| - 1], Declaration(p, f, calls[|calls| - 1], depth);
      index' == if d.None? then index else index[d.value := Indexed(index, d.value) + [CallSite(f, call)]]
    ensures Added(p, f, calls, depth, before, index')
  {
    forall fn ensures Indexed(index', fn) == Indexed(before, fn) + Matching(p, f, calls, fn, depth) {
      assert Indexed(index, fn) == Indexed(before, fn) + Matching(p, f, calls[..|calls| - 1], fn, depth);
    }
  }

  method AddFile(p: Program, f: FileId, depth: nat, before: Index) returns (index: Index)
    ensures Added(p, f, FileCalls(p, f), depth, before, index)
  {
    index := before;
    var calls := FileCalls(p, f);
    for i := 0 to |calls|
      invariant Added(p, f, calls[..i], depth, before, index)
    {
      ghost var earlier := index;
      var declaration := Declaration(p, f, calls[i], depth);
      if declaration.Some? {
        index := index[declaration.value := Indexed(index, declaration.value) + [CallSite(f, calls[i])]];
      }
      assert calls[..i + 1][..i] == calls[..i];
      AddedOne(p, f, calls[..i + 1], depth, before, earlier, index);
    }
    assert calls[..|calls|] == calls;
  }

  /** Every call of every function in the files is found in the index, once for each place. */
  method BuildCallSiteIndex(p: Program, files: seq<FileId>, depth: nat) returns (index: Index)
    ensures IndexOf(p, files, depth, index)
    ensures forall fn :: ListsCallsOf(p, files, fn, depth, Indexed(index, fn))
  {
    index := map[];
    for i := 0 to |files|
      invariant IndexOf(p, files[..i], depth, index)
    {
      assert files[..i + 1][..i] == files[..i];
      index := AddFile(p, files[i], depth, index);
    }
    assert files[..|files|] == files;
    forall fn ensures ListsCallsOf(p, files, fn, depth, Indexed(index, fn)) {
      CallsToAreAll(p, files, fn, depth, Indexed(index, fn));
    }
  }

  method IsDirectCallee(ancestors: seq<Frame>) returns (direct: bool)
    ensures direct == DirectCallee(ancestors)
    ensures direct <==> CalledThroughWrappers(ancestors)
  {
    var i := 0;
    while i < |ancestors| && ancestors[i].InWrapper?
      invariant i <= |ancestors| && DirectCallee(ancestors[i..]) == DirectCallee(ancestors)
    {
      i := i + 1;
    }
    DirectIff(ancestors);
    return i < |ancestors| && ancestors[i].AsCallee?;
  }

  /** Look for an identifier that defeats the locality proof, stopping at the first. */
  method FindDefeating(p: Program, idents: seq<Occurrence>, owner: ItemId, name: string, depth: nat)
    returns (found: bool)
    ensures found <==> exists o :: o in idents && Defeats(p, o, owner, name, depth)
  {
    for i := 0 to |idents|
      invariant forall k :: 0 <= k < i ==> !Defeats(p, idents[k], owner, name, depth)
    {
      var direct := IsDirectCallee(idents[i].ancestors);
      if idents[i].text == name && !direct && RefersTo(p, idents[i].sym, owner, depth) {
        assert idents[i] in idents && Defeats(p, idents[i], owner, name, depth);
        return true;
      }
    }
    return false;
  }

  // ---------- The locality proof is needed ----------

  const LEAKED: ItemId := ItemId("a", 0)

  /** A helper that is not exported, but a constant with its value is, and another file calls that. */
  function Leak(): Program {
    map["a" := SourceFile(true, [
          Function("helper", false, [], None),
          Const("alias", true, Ident("helper", ItemSymbol(LEAKED)))]),
        "b" := SourceFile(true, [
          Import("alias", "a", "alias"),
          Statement(Call(Ident("alias", ItemSymbol(ItemId("b", 0))), []))])]
  }

  lemma LeakIsFollowed(depth: nat)
    requires depth >= 3
    ensures ValueOf(Leak(), "b", Ident("alias", ItemSymbol(ItemId("b", 0))), depth) == Fn(LEAKED)
  {
    var p := Leak();
    assert ValueOf(p, "a", Ident("helper", ItemSymbol(LEAKED)), depth - 2) == ItemValue(p, LEAKED, depth - 3) ==
      Fn(LEAKED);
    assert ItemValue(p, ItemId("a", 1), depth - 2) == Fn(LEAKED);
    var items := p["a"].items;
    assert ExportItem(items[1..], "alias") == Some(0) && ExportItem(items, "alias") == Some(1);
    assert ExportValue(p, "a", "alias", depth - 2) == Fn(LEAKED);
    assert ItemValue(p, ItemId("b", 0), depth - 1) == Fn(LEAKED);
  }

  lemma LeakIsNotProven(depth: nat)
    ensures !ProvenLocal(Leak(), LEAKED, depth)
  {
    var p := Leak();
    var a := p["a"].items;
    var helper := Occurrence("helper", ItemSymbol(LEAKED), [Elsewhere]);
    assert a[1..] == [a[1]] && a[1..][1..] == [] && Roots(a[1])[1..] == [];
    assert AllIdents(Roots(a[1]), [Elsewhere]) == [helper] + AllIdents(Roots(a[1])[1..], [Elsewhere]);
    assert ItemIdents(a[1..]) == AllIdents(Roots(a[1]), [Elsewhere]) + ItemIdents([]);
    assert helper in FileIdents(p, "a");
    assert Defeats(p, helper, LEAKED, "helper", depth);
  }

  lemma LeakCalls()
    ensures FileCalls(Leak(), "a") == []
    ensures FileCalls(Leak(), "b") == [Call(Ident("alias", ItemSymbol(ItemId("b", 0))), [])]
  {
    var a, b := Leak()["a"].items, Leak()["b"].items;
    assert a[1..] == [a[1]] && a[1..][1..] == [] && b[1..] == [b[1]] && b[1..][1..] == [];
    assert Roots(a[0]) == [] && Roots(a[1])[1..] == [] && Roots(b[1])[1..] == [];
    assert ItemCalls(a[1..]) == AllCalls(Roots(a[1])) + ItemCalls([]);
    assert ItemCalls(b[1..]) == AllCalls(Roots(b[1])) + ItemCalls([]);
  }

  /** Without the locality proof the index of the helper's own file would miss this call. */
  lemma OwnFileIsNotEnough(depth: nat)
    requires depth >= 3
    ensures IsFunction(Leak(), LEAKED) && !ItemOf(Leak(), LEAKED).exported && !ProvenLocal(Leak(), LEAKED, depth)
    ensures CallsTo(Leak(), ["a"], LEAKED, depth) == []
    ensures |CallsTo(Leak(), ["a", "b"], LEAKED, depth)| == 1
  {
    LeakIsFollowed(depth);
    LeakIsNotProven(depth);
    LeakCalls();
    var call := Call(Ident("alias", ItemSymbol(ItemId("b", 0))), []);
    assert ["a", "b"][..1] == ["a"] && [call][..0] == [];
    assert Declaration(Leak(), "b", call, depth) == Some(LEAKED);
    assert Matching(Leak(), "b", [call], LEAKED, depth) == [] + [CallSite("b", call)];
  }

  // ---------- The collector ----------

  class EventRelationCollector {
    const program: Program
    const sources: seq<FileId>
    /** How many references the resolution of a call follows. */
    const depth: nat
    var fileCallSites: map<FileId, Index>
    var localCalleeProofs: map<ItemId, bool>
    var globalCallSites: Option<Index>

    ghost predicate Valid()
      reads this
    {
      && WellScoped(program)
      && (forall i, j :: 0 <= i < j < |sources| ==> sources[i] != sources[j])
      && (forall f :: f in fileCallSites ==> IndexOf(program, [f], depth, fileCallSites[f]))
      && (forall o :: o in localCalleeProofs ==> localCalleeProofs[o] == ProvenLocal(program, o, depth))
      && (globalCallSites.Some? ==> IndexOf(program, sources, depth, globalCallSites.value))
    }

    constructor (program: Program, sources: seq<FileId>, depth: nat)
      requires WellScoped(program) && forall i, j :: 0 <= i < j < |sources| ==> sources[i] != sources[j]
      ensures Valid() && this.program == program && this.sources == sources && this.depth == depth
    {
      this.program, this.sources, this.depth := program, sources, depth;
      fileCallSites, localCalleeProofs, globalCallSites := map[], map[], None;
    }

    method ProvenLocalCallee(owner: ItemId) returns (proven: bool)
      requires Valid() && IsFunction(program, owner)
      modifies this`localCalleeProofs
      ensures Valid() && proven == ProvenLocal(program, owner, depth)
      ensures proven <==> OnlyCalled(program, owner, depth)
    {
      ProvenLocalIff(program, owner, depth);
      if owner in localCalleeProofs { return localCalleeProofs[owner]; }
      if ItemOf(program, owner).exported || !program[owner.file].isModule {
        localCalleeProofs := localCalleeProofs[owner := false];
        return false;
      }
      var escapes := FindDefeating(program, FileIdents(program, owner.file), owner, ItemOf(program, owner).name, depth);
      proven := !escapes;
      localCalleeProofs := localCalleeProofs[owner := proven];
    }

    /** The answer is a function of the owner and the program alone: neither the earlier queries nor
        which of the two indexes exists can be seen in it. */
    method CallSitesFor(owner: ItemId) returns (calls: seq<CallSite>)
      requires Valid() && IsFunction(program, owner) && owner.file in sources
      modifies this
      ensures Valid() && calls == CallsTo(program, sources, owner, depth)
      ensures ListsCallsOf(program, sources, owner, depth, calls)
    {
      CallsToAreAll(program, sources, owner, depth, CallsTo(program, sources, owner, depth));
      if globalCallSites.None? {
        var proven := ProvenLocalCallee(owner);
        if !proven {
          var index := BuildCallSiteIndex(program, sources, depth);
          globalCallSites := Some(index);
        }
      }
      if globalCallSites.Some? { return Indexed(globalCallSites.value, owner); }
      var file := owner.file;
      if file !in fileCallSites {
        var index := BuildCallSiteIndex(program, [file], depth);
        fileCallSites := fileCallSites[file := index];
      }
      OnlyOwnFileMatches(program, sources, owner, depth);
      return Indexed(fileCallSites[file], owner);
    }
  }
}
