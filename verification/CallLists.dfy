/** The calls of a module program, as the index of scripts/gen-doc-graphs.ts collects them, and that none is
    left out and none is listed twice. */
module CallLists {
  import opened ExpressionPlaces
  import opened ModuleLanguage
  import opened Options
  import opened Places

  datatype CallSite = CallSite(file: FileId, call: Expr)

  /** The calls in an expression, each before the calls inside it. */
  function Calls(e: Expr): seq<Expr>
    decreases e, 1
  {
    match e
    case Ident(_, _) => []
    case Wrapper(inner) => Calls(inner)
    case Call(callee, args) => [e] + Calls(callee) + AllCalls(args)
    case ObjectLiteral(fields) => FieldCalls(fields)
    case Member(target, _) => Calls(target)
    case Opaque(children) => AllCalls(children)
  }

  function AllCalls(es: seq<Expr>): seq<Expr>
    decreases es, 0
  {
    if es == [] then [] else Calls(es[0]) + AllCalls(es[1..])
  }

  function FieldCalls(fields: seq<Field>): seq<Expr>
    decreases fields, 0
  {
    if fields == [] then [] else Calls(fields[0].value) + FieldCalls(fields[1..])
  }

  function ItemCalls(items: seq<Item>): seq<Expr> {
    if items == [] then [] else AllCalls(Roots(items[0])) + ItemCalls(items[1..])
  }

  function FileCalls(p: Program, f: FileId): seq<Expr> {
    if f in p then ItemCalls(p[f].items) else []
  }

  /** The declaration a call resolves to, chasing at most `depth` references. */
  function Declaration(p: Program, g: FileId, call: Expr, depth: nat): Option<ItemId> {
    if !call.Call? then None else
      var v := ValueOf(p, g, call.callee, depth);
      if v.Fn? then Some(v.fn) else None
  }

  function Matching(p: Program, g: FileId, calls: seq<Expr>, fn: ItemId, depth: nat): seq<CallSite> {
    if calls == [] then [] else
      var last := |calls| - 1;
      var earlier := Matching(p, g, calls[..last], fn, depth);
      if Declaration(p, g, calls[last], depth) == Some(fn) then earlier + [CallSite(g, calls[last])] else earlier
  }

  /** The calls of `fn` in some files, in visiting order: what an index of these files must say. */
  function CallsTo(p: Program, files: seq<FileId>, fn: ItemId, depth: nat): seq<CallSite> {
    if files == [] then [] else
      var last := |files| - 1;
      CallsTo(p, files[..last], fn, depth) + Matching(p, files[last], FileCalls(p, files[last]), fn, depth)
  }

  // ---------- The calls of an expression, by place ----------

  function OnlyCall(e: Option<Expr>): Option<Expr> {
    if e.Some? && e.value.Call? then e else None
  }

  function CallIn(e: Expr): Path -> Option<Expr> {
    (path: Path) => OnlyCall(At(e, path))
  }

  function CallInParts(es: seq<Expr>): (nat, Path) -> Option<Expr> {
    (i: nat, path: Path) => if i < |es| then OnlyCall(At(es[i], path)) else None
  }

  lemma Regroup<T>(a: seq<T>, b: seq<T>, c: seq<T>)
    ensures a + (b + c) == (a + b) + c && a + [] == [] + a == a
  {
  }

  lemma {:induction false} AllCallsSnoc(init: seq<Expr>, last: Expr)
    ensures AllCalls(init + [last]) == AllCalls(init) + Calls(last)
  {
    var all := init + [last];
    if init == [] {
      assert all == [last] && all[1..] == [];
      Regroup([], [], Calls(last));
    } else {
      AllCallsSnoc(init[1..], last);
      assert all[0] == init[0] && all[1..] == init[1..] + [last];
      Regroup(Calls(init[0]), AllCalls(init[1..]), Calls(last));
    }
  }

  lemma {:induction false} FieldCallsAreAll(fields: seq<Field>, values: seq<Expr>)
    requires |values| == |fields| && forall i :: 0 <= i < |fields| ==> values[i] == fields[i].value
    ensures FieldCalls(fields) == AllCalls(values)
  {
    if fields != [] { FieldCallsAreAll(fields[1..], values[1..]); }
  }

  lemma CallsByParts(e: Expr)
    ensures Calls(e) == (if e.Call? then [e] else []) + AllCalls(Parts(e))
  {
    match e
    case Ident(_, _) =>
    case Wrapper(inner) => AllCallsSnoc([], inner);
    case Call(callee, args) => assert Parts(e)[1..] == args;
    case ObjectLiteral(fields) => FieldCallsAreAll(fields, Parts(e));
    case Member(target, _) => AllCallsSnoc([], target);
    case Opaque(_) =>
  }

  lemma {:induction false} ListCalls(e: Expr) returns (places: seq<Path>)
    ensures Lists(Calls(e), CallIn(e), places)
    decreases e, 1
  {
    var inner := Below(|Parts(e)|, CallInParts(Parts(e)));
    places := ListAllCalls(e, Parts(e));
    CallsByParts(e);
    if e.Call? {
      ListsWhole(e, AllCalls(Parts(e)), inner, CallIn(e), places);
      places := [[]] + places;
    } else {
      ListsSame(AllCalls(Parts(e)), inner, CallIn(e), places);
    }
  }

  lemma {:induction false} ListAllCalls(whole: Expr, es: seq<Expr>) returns (places: seq<Path>)
    requires forall i :: 0 <= i < |es| ==> es[i] < whole
    ensures Lists(AllCalls(es), Below(|es|, CallInParts(es)), places)
    decreases whole, 0, |es|
  {
    if es == [] {
      ListsNothing(CallInParts(es));
      places := [];
    } else {
      var init, last := es[..|es| - 1], es[|es| - 1];
      assert es == init + [last];
      var before := ListAllCalls(whole, init);
      var inside := ListCalls(last);
      ListsSame(AllCalls(init), Below(|init|, CallInParts(init)), Below(|init|, CallInParts(es)), before);
      ListsNext(AllCalls(init), Calls(last), |init|, CallInParts(es), CallIn(last), before, inside);
      AllCallsSnoc(init, last);
      places := before + InPart(|init|, inside);
    }
  }

  // ---------- The calls of a file ----------

  function CallInItem(item: Item): Path -> Option<Expr> {
    (path: Path) => OnlyCall(AtItem(item, path))
  }

  function CallInItems(items: seq<Item>): (nat, Path) -> Option<Expr> {
    (i: nat, path: Path) => if i < |items| then OnlyCall(AtItem(items[i], path)) else None
  }

  lemma ListItemCalls(item: Item) returns (places: seq<Path>)
    ensures Lists(AllCalls(Roots(item)), CallInItem(item), places)
  {
    var roots := Roots(item);
    places := ListAllCalls(Opaque(roots), roots);
    forall path ensures CallInItem(item)(path) == Below(|roots|, CallInParts(roots))(path) { RootsStand(item, path); }
    ListsSame(AllCalls(roots), Below(|roots|, CallInParts(roots)), CallInItem(item), places);
  }

  lemma {:induction false} ItemCallsSnoc(init: seq<Item>, last: Item)
    ensures ItemCalls(init + [last]) == ItemCalls(init) + AllCalls(Roots(last))
  {
    var all := init + [last];
    if init == [] {
      assert all == [last] && all[1..] == [];
      Regroup([], [], AllCalls(Roots(last)));
    } else {
      ItemCallsSnoc(init[1..], last);
      assert all[0] == init[0] && all[1..] == init[1..] + [last];
      Regroup(AllCalls(Roots(init[0])), ItemCalls(init[1..]), AllCalls(Roots(last)));
    }
  }

  lemma {:induction false} ListItemsCalls(items: seq<Item>) returns (places: seq<Path>)
    ensures Lists(ItemCalls(items), Below(|items|, CallInItems(items)), places)
  {
    if items == [] {
      ListsNothing(CallInItems(items));
      places := [];
    } else {
      var init, last := items[..|items| - 1], items[|items| - 1];
      assert items == init + [last];
      var before := ListItemsCalls(init);
      var inside := ListItemCalls(last);
      ListsSame(ItemCalls(init), Below(|init|, CallInItems(init)), Below(|init|, CallInItems(items)), before);
      ListsNext(ItemCalls(init), AllCalls(Roots(last)), |init|, CallInItems(items), CallInItem(last), before, inside);
      ItemCallsSnoc(init, last);
      places := before + InPart(|init|, inside);
    }
  }

  function CallInFile(p: Program, f: FileId): Path -> Option<Expr> {
    (path: Path) => OnlyCall(AtFile(p, f, path))
  }

  /** Every call that stands in the file is collected, once for each place where it stands. */
  lemma FileCallsAreAll(p: Program, f: FileId) returns (places: seq<Path>)
    ensures Lists(FileCalls(p, f), CallInFile(p, f), places)
  {
    if f in p {
      var items := p[f].items;
      places := ListItemsCalls(items);
      ListsSame(ItemCalls(items), Below(|items|, CallInItems(items)), CallInFile(p, f), places);
    } else {
      places := [];
    }
  }

  // ---------- The calls of a function ----------

  /** The call that stands there, if the value of its callee is that function. */
  function SiteAt(p: Program, f: FileId, fn: ItemId, depth: nat, path: Path): Option<CallSite> {
    var e := AtFile(p, f, path);
    if e.Some? && e.value.Call? && ValueOf(p, f, e.value.callee, depth) == Fn(fn) then Some(CallSite(f, e.value))
    else None
  }

  function SiteIn(p: Program, f: FileId, fn: ItemId, depth: nat): Path -> Option<CallSite> {
    (path: Path) => SiteAt(p, f, fn, depth, path)
  }

  function SiteInFiles(p: Program, files: seq<FileId>, fn: ItemId, depth: nat): (nat, Path) -> Option<CallSite> {
    (i: nat, path: Path) => if i < |files| then SiteAt(p, files[i], fn, depth, path) else None
  }

  /** The sites are the calls, anywhere in these files, whose callee has that function as its value: all of
      them, once for each place, in the order of the files and in source order. */
  ghost predicate ListsCallsOf(p: Program, files: seq<FileId>, fn: ItemId, depth: nat, sites: seq<CallSite>) {
    exists places :: Lists(sites, Below(|files|, SiteInFiles(p, files, fn, depth)), places)
  }

  /** The places of the calls that match, among the first `n`. */
  ghost predicate Matched(p: Program, g: FileId, calls: seq<Expr>, places: seq<Path>, n: nat, fn: ItemId, depth: nat,
                          kept: seq<Path>)
    requires n <= |calls| == |places|
  {
    var sites := Matching(p, g, calls[..n], fn, depth);
    && |kept| == |sites| && InSourceOrder(kept)
    && (forall k :: 0 <= k < |kept| ==> MatchedAt(p, g, calls, places, n, fn, depth, kept[k], sites[k]))
    && forall i :: 0 <= i < n && Declaration(p, g, calls[i], depth) == Some(fn) ==> places[i] in kept
  }

  ghost predicate MatchedAt(p: Program, g: FileId, calls: seq<Expr>, places: seq<Path>, n: nat, fn: ItemId, depth: nat,
                            place: Path, site: CallSite)
    requires n <= |calls| == |places|
  {
    exists i :: 0 <= i < n && places[i] == place && Declaration(p, g, calls[i], depth) == Some(fn) &&
      site == CallSite(g, calls[i])
  }

  lemma {:induction false} KeepMatching(p: Program, g: FileId, calls: seq<Expr>, places: seq<Path>, n: nat, fn: ItemId,
                                        depth: nat) returns (kept: seq<Path>)
    requires n <= |calls| == |places| && InSourceOrder(places)
    ensures Matched(p, g, calls, places, n, fn, depth, kept)
  {
    if n == 0 {
      kept := [];
    } else {
      var before := KeepMatching(p, g, calls, places, n - 1, fn, depth);
      assert calls[..n][..n - 1] == calls[..n - 1];
      kept := if Declaration(p, g, calls[n - 1], depth) == Some(fn) then before + [places[n - 1]] else before;
      var sites, sites' := Matching(p, g, calls[..n - 1], fn, depth), Matching(p, g, calls[..n], fn, depth);
      forall k | 0 <= k < |kept| ensures MatchedAt(p, g, calls, places, n, fn, depth, kept[k], sites'[k]) {
        if k < |before| { assert MatchedAt(p, g, calls, places, n - 1, fn, depth, before[k], sites[k]); }
      }
      forall i, j | 0 <= i < j < |kept| ensures Earlier(kept[i], kept[j]) {
        if j == |before| { assert MatchedAt(p, g, calls, places, n - 1, fn, depth, before[i], sites[i]); }
      }
    }
  }

  lemma ListFileSites(p: Program, f: FileId, fn: ItemId, depth: nat) returns (kept: seq<Path>)
    ensures Lists(Matching(p, f, FileCalls(p, f), fn, depth), SiteIn(p, f, fn, depth), kept)
  {
    var calls, at := FileCalls(p, f), SiteIn(p, f, fn, depth);
    var places := FileCallsAreAll(p, f);
    kept := KeepMatching(p, f, calls, places, |calls|, fn, depth);
    assert calls[..|calls|] == calls;
    var sites := Matching(p, f, calls, fn, depth);
    forall k | 0 <= k < |kept| ensures at(kept[k]) == Some(sites[k]) {
      assert MatchedAt(p, f, calls, places, |calls|, fn, depth, kept[k], sites[k]);
      var i :| 0 <= i < |calls| && places[i] == kept[k] && Declaration(p, f, calls[i], depth) == Some(fn) &&
        sites[k] == CallSite(f, calls[i]);
      assert CallInFile(p, f)(places[i]) == Some(calls[i]);
    }
    forall path | at(path).Some? ensures path in kept {
      assert CallInFile(p, f)(path).Some?;
      var i :| 0 <= i < |places| && places[i] == path;
      assert CallInFile(p, f)(places[i]) == Some(calls[i]);
    }
  }

  lemma {:induction false} ListSites(p: Program, files: seq<FileId>, fn: ItemId, depth: nat) returns (places: seq<Path>)
    ensures Lists(CallsTo(p, files, fn, depth), Below(|files|, SiteInFiles(p, files, fn, depth)), places)
  {
    var at := SiteInFiles(p, files, fn, depth);
    if files == [] {
      ListsNothing(at);
      places := [];
    } else {
      var init, last := files[..|files| - 1], files[|files| - 1];
      var before := ListSites(p, init, fn, depth);
      var inside := ListFileSites(p, last, fn, depth);
      var earlier := CallsTo(p, init, fn, depth);
      ListsSame(earlier, Below(|init|, SiteInFiles(p, init, fn, depth)), Below(|init|, at), before);
      ListsNext(earlier, Matching(p, last, FileCalls(p, last), fn, depth), |init|, at, SiteIn(p, last, fn, depth),
                before, inside);
      places := before + InPart(|init|, inside);
    }
  }

  /** What an index of some files says of a function is every call of it in these files. */
  lemma CallsToAreAll(p: Program, files: seq<FileId>, fn: ItemId, depth: nat, sites: seq<CallSite>)
    ensures ListsCallsOf(p, files, fn, depth, sites) <==> sites == CallsTo(p, files, fn, depth)
  {
    var at := Below(|files|, SiteInFiles(p, files, fn, depth));
    var places := ListSites(p, files, fn, depth);
    if ListsCallsOf(p, files, fn, depth, sites) {
      var others :| Lists(sites, at, others);
      ListIsUnique(sites, CallsTo(p, files, fn, depth), at, others, places);
    }
  }
}
