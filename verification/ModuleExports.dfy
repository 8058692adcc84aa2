/** What a file exports under a name, by the rules of the language: what it exports explicitly, by modifier
    or by list, comes before every `export *`; a list may pass on what the file imports; `export *` leaves out
    `default`; and a name that several `export *` give different meanings is exported by none of them. */
module ModuleExports {
  import opened Options
  import opened TypeGraph

  /** What one file says of an exported name: a declaration of its own, a name of another file, something that
      cannot be looked into, or nothing explicit. */
  datatype Explicit = Here(index: nat) | Onward(key: ExportKey) | Opaque | Nothing

  function SentTo(origin: Origin, name: string): Explicit {
    match origin
    case RelativeSource(g) => if name == "*" then Opaque else Onward(ExportKey(g, name))
    case WorkspaceSource(g) => if name == "*" then Opaque else Onward(ExportKey(g, name))
    case _ => Opaque
  }

  /** What a name stands for inside of a file. */
  function InScope(file: File, name: string): (r: Explicit)
    ensures r.Here? ==> r.index < |file.decls|
  {
    var local := FindDecl(file.decls, name);
    if local.Some? then Here(local.value)
    else if name !in file.others && name in file.imports
      then SentTo(file.imports[name].origin, file.imports[name].imported)
    else Opaque
  }

  function InLists(file: File, stmts: seq<ReExport>, name: string): (r: Explicit)
    ensures r.Here? ==> r.index < |file.decls|
  {
    if stmts == [] then Nothing else
      match stmts[0]
      case Star(_) => InLists(file, stmts[1..], name)
      case Named(origin, elements) =>
        var source := ElementFor(elements, name);
        if source.Some? then SentTo(origin, source.value) else InLists(file, stmts[1..], name)
      case Own(elements) =>
        var source := ElementFor(elements, name);
        if source.Some? then InScope(file, source.value) else InLists(file, stmts[1..], name)
  }

  function ExplicitOf(file: File, name: string): (r: Explicit)
    ensures r.Here? ==> r.index < |file.decls|
  {
    var local := FindDecl(file.decls, name);
    if local.Some? && exists i :: 0 <= i < |file.decls| && file.decls[i].name == name && file.decls[i].exported
      then Here(local.value)
    else if name in file.others && file.others[name] then Opaque
    else InLists(file, file.reExports, name)
  }

  // ---------- The same, told by the statements ----------

  ghost predicate DeclaresFirst(file: File, name: string, index: nat) {
    index < |file.decls| && file.decls[index].name == name &&
    forall i :: 0 <= i < index ==> file.decls[i].name != name
  }

  ghost predicate DeclaresNothing(file: File, name: string) {
    forall i :: 0 <= i < |file.decls| ==> file.decls[i].name != name
  }

  /** Where a name of another module leads: into a source file, unless it is the whole namespace. */
  ghost predicate LeadsTo(origin: Origin, name: string, e: Explicit) {
    if (origin.RelativeSource? || origin.WorkspaceSource?) && name != "*" then e == Onward(ExportKey(origin.file, name))
    else e == Opaque
  }

  /** A name of the file stands for its first declaration, for what it is imported as, or for something that is not
      looked into. */
  ghost predicate StandsFor(file: File, name: string, e: Explicit) {
    || (e.Here? && DeclaresFirst(file, name, e.index))
    || (DeclaresNothing(file, name) && name !in file.others && name in file.imports &&
        LeadsTo(file.imports[name].origin, file.imports[name].imported, e))
    || (DeclaresNothing(file, name) && (name in file.others || name !in file.imports) && e == Opaque)
  }

  /** The first element of that name in the list. */
  ghost predicate Lists(stmt: ReExport, name: string, source: string) {
    !stmt.Star? && exists j :: FirstElement(stmt.elements, name, source, j)
  }

  ghost predicate ListsNot(stmt: ReExport, name: string) {
    stmt.Star? || forall j :: 0 <= j < |stmt.elements| ==> stmt.elements[j].name != name
  }

  /** The first list of the file that has the name says this of it. */
  ghost predicate FirstListSays(file: File, stmts: seq<ReExport>, name: string, e: Explicit) {
    exists i, source :: 0 <= i < |stmts| && (forall j :: 0 <= j < i ==> ListsNot(stmts[j], name)) &&
      ListSays(file, stmts[i], name, source, e)
  }

  ghost predicate ListSays(file: File, stmt: ReExport, name: string, source: string, e: Explicit) {
    Lists(stmt, name, source) &&
    if stmt.Named? then LeadsTo(stmt.origin, source, e) else StandsFor(file, source, e)
  }

  /** An exported declaration of the file comes before its lists, and those before every `export *`. */
  ghost predicate SaysOf(file: File, name: string, e: Explicit) {
    if exists i :: 0 <= i < |file.decls| && file.decls[i].name == name && file.decls[i].exported
      then e.Here? && DeclaresFirst(file, name, e.index)
    else if name in file.others && file.others[name] then e == Opaque
    else if forall i :: 0 <= i < |file.reExports| ==> ListsNot(file.reExports[i], name) then e == Nothing
    else FirstListSays(file, file.reExports, name, e)
  }

  lemma InScopeIff(file: File, name: string, e: Explicit)
    ensures InScope(file, name) == e <==> StandsFor(file, name, e)
  {
  }

  lemma {:induction false} InListsIff(file: File, stmts: seq<ReExport>, name: string, e: Explicit)
    ensures (forall i :: 0 <= i < |stmts| ==> ListsNot(stmts[i], name)) ==> InLists(file, stmts, name) == Nothing
    ensures !(forall i :: 0 <= i < |stmts| ==> ListsNot(stmts[i], name)) ==>
      (InLists(file, stmts, name) == e <==> FirstListSays(file, stmts, name, e))
  {
    if stmts != [] {
      var rest := stmts[1..];
      InListsIff(file, rest, name, e);
      assert forall i :: 0 <= i < |rest| ==> rest[i] == stmts[i + 1];
      OneListIff(file, stmts[0], name, e);
      ListsShift(file, stmts, name, e);
    }
  }

  lemma OneListIff(file: File, stmt: ReExport, name: string, e: Explicit)
    ensures !stmt.Star? && ElementFor(stmt.elements, name).Some? <==> !ListsNot(stmt, name)
    ensures !ListsNot(stmt, name) ==> ((exists source :: ListSays(file, stmt, name, source, e)) <==>
      e == if stmt.Named? then SentTo(stmt.origin, ElementFor(stmt.elements, name).value)
        else InScope(file, ElementFor(stmt.elements, name).value))
    ensures ListsNot(stmt, name) ==> forall source :: !Lists(stmt, name, source)
  {
    if !stmt.Star? {
      forall source
        ensures ElementFor(stmt.elements, name) == Some(source) <==> Lists(stmt, name, source)
        ensures ElementFor(stmt.elements, name).None? <==> ListsNot(stmt, name)
      {
        ElementIff(stmt.elements, name, source);
      }
      ElementIff(stmt.elements, name, name);
      if ElementFor(stmt.elements, name).Some? {
        var source := ElementFor(stmt.elements, name).value;
        InScopeIff(file, source, e);
        assert Lists(stmt, name, source);
        forall other | ListSays(file, stmt, name, other, e) ensures other == source {
          assert Lists(stmt, name, other);
        }
        assert (exists other :: ListSays(file, stmt, name, other, e)) <==> ListSays(file, stmt, name, source, e);
      }
    }
  }

  lemma ListsShift(file: File, stmts: seq<ReExport>, name: string, e: Explicit)
    requires stmts != [] && (ListsNot(stmts[0], name) ==> forall source :: !Lists(stmts[0], name, source))
    ensures FirstListSays(file, stmts, name, e) <==>
      if ListsNot(stmts[0], name) then FirstListSays(file, stmts[1..], name, e)
      else exists source :: ListSays(file, stmts[0], name, source, e)
  {
    var rest := stmts[1..];
    assert forall i :: 0 <= i < |rest| ==> rest[i] == stmts[i + 1];
    if FirstListSays(file, stmts, name, e) {
      var i, source :| 0 <= i < |stmts| && (forall j :: 0 <= j < i ==> ListsNot(stmts[j], name)) &&
        ListSays(file, stmts[i], name, source, e);
      if ListsNot(stmts[0], name) { assert ListSays(file, rest[i - 1], name, source, e); }
    }
    if ListsNot(stmts[0], name) && FirstListSays(file, rest, name, e) {
      var i, source :| 0 <= i < |rest| && (forall j :: 0 <= j < i ==> ListsNot(rest[j], name)) &&
        ListSays(file, rest[i], name, source, e);
      assert ListSays(file, stmts[i + 1], name, source, e);
      forall j | 0 <= j < i + 1 ensures ListsNot(stmts[j], name) { if j > 0 { assert ListsNot(rest[j - 1], name); } }
    }
  }

  /** What a file says of an exported name is what its statements say. */
  lemma ExplicitIff(file: File, name: string, e: Explicit)
    ensures ExplicitOf(file, name) == e <==> SaysOf(file, name, e)
  {
    InListsIff(file, file.reExports, name, e);
  }

  lemma {:induction false} ListedIsFirst(file: File, stmts: seq<ReExport>, name: string)
    requires InLists(file, stmts, name).Here?
    ensures var i := InLists(file, stmts, name).index; FindDecl(file.decls, file.decls[i].name) == Some(i)
  {
    match stmts[0]
    case Star(_) => ListedIsFirst(file, stmts[1..], name);
    case Named(_, elements) => ListedIsFirst(file, stmts[1..], name);
    case Own(elements) => if ElementFor(elements, name).None? { ListedIsFirst(file, stmts[1..], name); }
  }

  /** What is exported of a file's own is the first declaration of its name. */
  lemma HereIsFirst(file: File, name: string)
    requires ExplicitOf(file, name).Here?
    ensures var i := ExplicitOf(file, name).index; FindDecl(file.decls, file.decls[i].name) == Some(i)
  {
    if InLists(file, file.reExports, name).Here? { ListedIsFirst(file, file.reExports, name); }
  }

  ghost predicate StarAt(file: File, i: nat, g: FileId) {
    i < |file.reExports| && match file.reExports[i]
      case Star(RelativeSource(h)) => h == g
      case Star(WorkspaceSource(h)) => h == g
      case _ => false
  }

  /** The export of `from` is the export of `to`, or one of several candidates for it. */
  ghost predicate PassesOn(w: World, from: ExportKey, to: ExportKey) {
    from.file in w &&
    match ExplicitOf(w[from.file], from.name)
    case Onward(k) => to == k
    case Nothing => from.name != "default" && to.name == from.name && exists i: nat :: StarAt(w[from.file], i, to.file)
    case _ => false
  }

  /** What an exported name is in the end; `Beyond` is what the walk cannot look into. */
  datatype Meant = Shown(decl: DeclId) | Beyond

  ghost predicate IsMeant(w: World, k: ExportKey, e: Meant) {
    k.file in w &&
    match ExplicitOf(w[k.file], k.name)
    case Here(i) => e == Shown(DeclId(k.file, i))
    case Opaque => e == Beyond
    case _ => false
  }

  ghost predicate PassedAlong(w: World, path: seq<ExportKey>) {
    path != [] && forall i :: 0 <= i < |path| - 1 ==> PassesOn(w, path[i], path[i + 1])
  }

  ghost predicate Provides(w: World, k: ExportKey, e: Meant) {
    exists path :: PassedAlong(w, path) && path[0] == k && IsMeant(w, path[|path| - 1], e)
  }

  /** `d` is exported there, and nothing else is under that name. */
  ghost predicate SoleExport(w: World, k: ExportKey, d: DeclId) {
    Provides(w, k, Shown(d)) && forall e :: Provides(w, k, e) ==> e == Shown(d)
  }

  /** The declaration that is exported there. */
  ghost function Exported(w: World, f: FileId, name: string): (r: Option<DeclId>)
    ensures forall d :: r == Some(d) <==> SoleExport(w, ExportKey(f, name), d)
  {
    if exists d :: SoleExport(w, ExportKey(f, name), d) then
      var d :| SoleExport(w, ExportKey(f, name), d); Some(d)
    else None
  }
}
