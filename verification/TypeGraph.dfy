/** The declared types that scripts/gen-config-catalog.ts walks: source files with type
    declarations, imports and re-exports, and the resolution of a type name. */
module TypeGraph {
  import opened Collections
  import opened Options

  type FileId = string

  /** A property signature has its name as written, quotes included, and the key it declares.  An index
      signature declares every key, a call or construct signature none. */
  datatype Member =
    | Property(text: string, key: string, ty: Option<TypeNode>)
    | Method(key: string, ty: Option<TypeNode>)
    | Index(ty: Option<TypeNode>)
    | Call(ty: Option<TypeNode>)

  /** An index type is given by its text when it is a string literal.  A reference is given by its leftmost
      identifier; `parameter` says that a type parameter binds it, which the script does not look at. */
  datatype TypeNode =
    | Literal(members: seq<Member>)
    | Parens(inner: TypeNode)
    | Operator(inner: TypeNode, keyOf: bool)
    | Intersection(parts: seq<TypeNode>)
    | Union(parts: seq<TypeNode>)
    | ArrayOf(element: TypeNode)
    | Indexed(target: TypeNode, index: Option<string>, indexType: TypeNode)
    | Reference(name: string, qualified: bool, args: seq<TypeNode>, parameter: bool)
    | Other(children: seq<TypeNode>)

  /** One type of a heritage clause: it names a base by identifier, or by some other expression (`None`). */
  datatype Base = Base(name: Option<string>, args: seq<TypeNode>)

  /** `exported` says that the declaration has the `export` modifier and exports its own name. */
  datatype Decl =
    | Interface(name: string, exported: bool, members: seq<Member>, bases: seq<Base>)
    | Alias(name: string, exported: bool, ty: TypeNode)
    | Enum(name: string, exported: bool)

  /** Where an import comes from, with relative and workspace specifiers already mapped to files. */
  datatype Origin = RelativeSource(file: FileId) | RelativeOther | WorkspaceSource(file: FileId) | External

  datatype Import = Import(imported: string, specifier: string, origin: Origin)

  datatype ExportElement = ExportElement(name: string, source: string)

  /** `export * from`, `export { ... } from`, and an export list without a source.  The list also stands for
      a default export of a name; an export of a whole namespace is one named export of an external. */
  datatype ReExport =
    | Star(origin: Origin)
    | Named(origin: Origin, elements: seq<ExportElement>)
    | Own(elements: seq<ExportElement>)

  /** `others` are the declarations that the script does not look for, such as classes: by name, and whether
      they are exported. */
  datatype File = File(
    decls: seq<Decl>, imports: map<string, Import>, reExports: seq<ReExport>, others: map<string, bool>)

  type World = map<FileId, File>

  datatype DeclId = DeclId(file: FileId, index: nat)

  predicate OriginLies(files: set<FileId>, origin: Origin) {
    match origin case RelativeSource(g) => g in files case WorkspaceSource(g) => g in files case _ => true
  }

  ghost predicate FileLies(files: set<FileId>, file: File) {
    && (forall i :: 0 <= i < |file.reExports| && !file.reExports[i].Own? ==>
      OriginLies(files, file.reExports[i].origin))
    && (forall n :: n in file.imports ==> OriginLies(files, file.imports[n].origin))
  }

  /** Every file that is imported from or exported from is readable. */
  ghost predicate Closed(w: World) {
    forall f :: f in w ==> FileLies(w.Keys, w[f])
  }

  ghost predicate Declares(w: World, d: DeclId) {
    d.file in w && d.index < |w[d.file].decls|
  }

  function DeclOf(w: World, d: DeclId): Decl
    requires Declares(w, d)
  {
    w[d.file].decls[d.index]
  }

  /** `findTypeDecl`: the first declaration of that name. */
  function FindDecl(decls: seq<Decl>, name: string): (r: Option<nat>)
    ensures r.Some? ==> r.value < |decls| && decls[r.value].name == name
    ensures r.Some? ==> forall i :: 0 <= i < r.value ==> decls[i].name != name
    ensures r.None? <==> forall i :: 0 <= i < |decls| ==> decls[i].name != name
  {
    FindFrom(decls, name, 0)
  }

  function FindFrom(decls: seq<Decl>, name: string, i: nat): (r: Option<nat>)
    requires i <= |decls|
    ensures r.Some? ==> i <= r.value < |decls| && decls[r.value].name == name
    ensures r.Some? ==> forall j :: i <= j < r.value ==> decls[j].name != name
    ensures r.None? <==> forall j :: i <= j < |decls| ==> decls[j].name != name
    decreases |decls| - i
  {
    if i == |decls| then None
    else if decls[i].name == name then Some(i)
    else FindFrom(decls, name, i + 1)
  }

  ghost predicate DeclaredFirst(w: World, f: FileId, name: string, d: DeclId) {
    && d.file == f && Declares(w, d) && w[f].decls[d.index].name == name
    && forall i :: 0 <= i < d.index ==> w[f].decls[i].name != name
  }

  ghost predicate Undeclared(w: World, f: FileId, name: string) {
    f in w && forall i :: 0 <= i < |w[f].decls| ==> w[f].decls[i].name != name
  }

  // ---------- Re-export search ----------

  /** A name looked for among the exports of a file. */
  datatype ExportKey = ExportKey(file: FileId, name: string)

  /** The name that the search looks for behind a statement: only relative source files are followed. */
  function LookFor(r: ReExport, name: string): Option<string> {
    match r
    case Star(RelativeSource(_)) => Some(name)
    case Named(RelativeSource(_), elements) => ElementFor(elements, name)
    case _ => None
  }

  function ElementFor(elements: seq<ExportElement>, name: string): Option<string> {
    if elements == [] then None
    else if elements[0].name == name then Some(elements[0].source)
    else ElementFor(elements[1..], name)
  }

  ghost predicate FirstElement(elements: seq<ExportElement>, name: string, source: string, j: int) {
    0 <= j < |elements| && elements[j] == ExportElement(name, source) &&
    forall i :: 0 <= i < j ==> elements[i].name != name
  }

  lemma {:induction false} ElementIff(elements: seq<ExportElement>, name: string, source: string)
    ensures ElementFor(elements, name) == Some(source) <==> exists j :: FirstElement(elements, name, source, j)
    ensures ElementFor(elements, name).None? <==> forall j :: 0 <= j < |elements| ==> elements[j].name != name
  {
    if elements != [] {
      var rest := elements[1..];
      ElementIff(rest, name, source);
      assert forall j :: 0 <= j < |rest| ==> rest[j] == elements[j + 1];
      if j :| FirstElement(elements, name, source, j) {
        if j > 0 { assert FirstElement(rest, name, source, j - 1); }
      }
      if elements[0].name == name {
        assert FirstElement(elements, name, elements[0].source, 0);
      } else if j :| FirstElement(rest, name, source, j) {
        assert FirstElement(elements, name, source, j + 1);
      }
    }
  }

  /** The statement sends a name on to another source file of the package: `export *` under the same name, a list under
      the name that its first element of that name has there. */
  ghost predicate SendsOn(stmt: ReExport, name: string, g: FileId, source: string) {
    || (stmt == Star(RelativeSource(g)) && source == name)
    || (stmt.Named? && stmt.origin == RelativeSource(g) && exists j :: FirstElement(stmt.elements, name, source, j))
  }

  /** The search follows exactly these. */
  lemma ForwardsIff(w: World, from: ExportKey, i: nat, to: ExportKey)
    requires from.file in w
    ensures ForwardsAt(w, from, i, to) <==>
      i < |w[from.file].reExports| && SendsOn(w[from.file].reExports[i], from.name, to.file, to.name)
  {
    if i < |w[from.file].reExports| && w[from.file].reExports[i].Named? {
      ElementIff(w[from.file].reExports[i].elements, from.name, to.name);
    }
  }

  /** One hop along the re-export graph. */
  ghost predicate Forwards(w: World, from: ExportKey, to: ExportKey) {
    from.file in w && exists i :: ForwardsAt(w, from, i, to)
  }

  ghost predicate ForwardsAt(w: World, from: ExportKey, i: nat, to: ExportKey)
    requires from.file in w
  {
    var stmts := w[from.file].reExports;
    i < |stmts| && LookFor(stmts[i], from.name) == Some(to.name) && stmts[i].origin.file == to.file
  }

  ghost predicate DeclaredAt(w: World, k: ExportKey) {
    k.file in w && FindDecl(w[k.file].decls, k.name).Some?
  }

  ghost predicate ForwardPath(w: World, path: seq<ExportKey>) {
    forall i :: 0 <= i < |path| - 1 ==> Forwards(w, path[i], path[i + 1])
  }

  /** `to` can be reached from `from` along re-exports. */
  ghost predicate Reaches(w: World, from: ExportKey, to: ExportKey) {
    exists path: seq<ExportKey> :: ReachesBy(w, from, to, path)
  }

  ghost predicate ReachesBy(w: World, from: ExportKey, to: ExportKey, path: seq<ExportKey>) {
    path != [] && path[0] == from && path[|path| - 1] == to && ForwardPath(w, path)
  }

  ghost predicate IsLocal(w: World, k: ExportKey, d: DeclId) {
    DeclaredAt(w, k) && d == DeclId(k.file, FindDecl(w[k.file].decls, k.name).value)
  }

  /** `d` is declared at the end of some chain of re-exports from `k`. */
  ghost predicate Exports(w: World, k: ExportKey, d: DeclId) {
    exists to :: Reaches(w, k, to) && IsLocal(w, to, d)
  }

  lemma ExportsThrough(w: World, k: ExportKey, next: ExportKey, d: DeclId)
    requires Forwards(w, k, next) && Exports(w, next, d)
    ensures Exports(w, k, d)
  {
    var to :| Reaches(w, next, to) && IsLocal(w, to, d);
    var path :| ReachesBy(w, next, to, path);
    assert ReachesBy(w, k, to, [k] + path);
  }

  /** Every name a search starting from `start` can look for. */
  ghost function SearchNames(w: World, start: string): set<string> {
    {start} + set f, i, j | f in w && 0 <= i < |w[f].reExports| && w[f].reExports[i].Named? &&
      0 <= j < |w[f].reExports[i].elements| :: w[f].reExports[i].elements[j].source
  }

  ghost predicate NamesClosed(w: World, names: set<string>) {
    forall f, i, n :: f in w && 0 <= i < |w[f].reExports| && n in names && LookFor(w[f].reExports[i], n).Some? ==>
      LookFor(w[f].reExports[i], n).value in names
  }

  ghost function AllKeys(w: World, names: set<string>): set<ExportKey> {
    set f, n | f in w && n in names :: ExportKey(f, n)
  }

  datatype Search = Search(hit: Option<DeclId>, seen: set<ExportKey>)

  /** Depth-first search for an exported type declaration, stopping at the first one.  `seen` is
      the set the original shares between all branches. */
  function FindExported(w: World, k: ExportKey, seen: set<ExportKey>, ghost names: set<string>): (r: Search)
    requires Closed(w) && k.file in w && k.name in names && NamesClosed(w, names)
    ensures seen <= r.seen
    ensures r.hit.Some? ==> Declares(w, r.hit.value)
    decreases |AllKeys(w, names) - seen|, 0
  {
    if k in seen then Search(None, seen) else
      var seen' := seen + {k};
      var local := FindDecl(w[k.file].decls, k.name);
      if local.Some? then Search(Some(DeclId(k.file, local.value)), seen') else
        Shrinks(AllKeys(w, names), seen, k);
        ScanReExports(w, k, 0, seen', names)
  }

  function ScanReExports(w: World, k: ExportKey, i: nat, seen: set<ExportKey>, ghost names: set<string>): (r: Search)
    requires Closed(w) && k.file in w && k.name in names && NamesClosed(w, names) && i <= |w[k.file].reExports|
    ensures seen <= r.seen
    ensures r.hit.Some? ==> Declares(w, r.hit.value)
    decreases |AllKeys(w, names) - seen|, 1 + |w[k.file].reExports| - i
  {
    if i == |w[k.file].reExports| then Search(None, seen) else
      var stmt := w[k.file].reExports[i];
      var lookFor := LookFor(stmt, k.name);
      if lookFor.None? then ScanReExports(w, k, i + 1, seen, names) else
        var r := FindExported(w, ExportKey(stmt.origin.file, lookFor.value), seen, names);
        Narrows(AllKeys(w, names), seen, r.seen);
        if r.hit.Some? then r else ScanReExports(w, k, i + 1, r.seen, names)
  }

  /** Whatever was seen before, a hit is a declaration at the end of a chain of re-exports. */
  lemma {:induction false} HitIsReachable(w: World, k: ExportKey, seen: set<ExportKey>, names: set<string>)
    requires Closed(w) && k.file in w && k.name in names && NamesClosed(w, names)
    ensures var r := FindExported(w, k, seen, names);
      r.hit.Some? ==> Exports(w, k, r.hit.value)
    decreases |AllKeys(w, names) - seen|, 0
  {
    if k !in seen {
      if DeclaredAt(w, k) {
        assert ReachesBy(w, k, k, [k]);
        assert Reaches(w, k, k) && IsLocal(w, k, FindExported(w, k, seen, names).hit.value);
      } else {
        Shrinks(AllKeys(w, names), seen, k);
        ScanHitIsReachable(w, k, 0, seen + {k}, names);
      }
    }
  }

  lemma {:induction false} ScanHitIsReachable(w: World, k: ExportKey, i: nat, seen: set<ExportKey>, names: set<string>)
    requires Closed(w) && k.file in w && k.name in names && NamesClosed(w, names) && i <= |w[k.file].reExports|
    ensures var r := ScanReExports(w, k, i, seen, names);
      r.hit.Some? ==> Exports(w, k, r.hit.value)
    decreases |AllKeys(w, names) - seen|, 1 + |w[k.file].reExports| - i
  {
    if i < |w[k.file].reExports| {
      var stmt := w[k.file].reExports[i];
      var lookFor := LookFor(stmt, k.name);
      if lookFor.None? {
        ScanHitIsReachable(w, k, i + 1, seen, names);
      } else {
        var next := ExportKey(stmt.origin.file, lookFor.value);
        var r := FindExported(w, next, seen, names);
        HitIsReachable(w, next, seen, names);
        Narrows(AllKeys(w, names), seen, r.seen);
        if r.hit.Some? {
          assert ForwardsAt(w, k, i, next);
          ExportsThrough(w, k, next, r.hit.value);
        } else {
          ScanHitIsReachable(w, k, i + 1, r.seen, names);
        }
      }
    }
  }

  /** The keys visited between `seen` and `seen'` declare nothing and forward only to visited keys. */
  ghost predicate Exhausted(w: World, seen: set<ExportKey>, seen': set<ExportKey>) {
    forall k :: k in seen' && k !in seen ==> !DeclaredAt(w, k) && forall to :: Forwards(w, k, to) ==> to in seen'
  }

  lemma {:induction false} MissExhausts(w: World, k: ExportKey, seen: set<ExportKey>, names: set<string>)
    requires Closed(w) && k.file in w && k.name in names && NamesClosed(w, names)
    ensures var r := FindExported(w, k, seen, names);
      r.hit.None? ==> k in r.seen && Exhausted(w, seen, r.seen)
    decreases |AllKeys(w, names) - seen|, 0
  {
    if k !in seen && !DeclaredAt(w, k) {
      Shrinks(AllKeys(w, names), seen, k);
      ScanMissExhausts(w, k, 0, seen + {k}, names);
    }
  }

  /** What the statements from position `i` on forward to was visited. */
  ghost predicate ForwardedFrom(w: World, k: ExportKey, i: nat, seen: set<ExportKey>)
    requires k.file in w
  {
    forall j: nat, to :: i <= j && ForwardsAt(w, k, j, to) ==> to in seen
  }

  lemma ForwardedOneMore(w: World, k: ExportKey, i: nat, next: ExportKey, seen: set<ExportKey>)
    requires k.file in w && ForwardedFrom(w, k, i + 1, seen) && next in seen
    requires forall to :: ForwardsAt(w, k, i, to) ==> to == next
    ensures ForwardedFrom(w, k, i, seen)
  {
    forall j: nat, to | i <= j && ForwardsAt(w, k, j, to) ensures to in seen {
      if i < j { assert i + 1 <= j; }
    }
  }

  lemma ExhaustedChains(w: World, a: set<ExportKey>, b: set<ExportKey>, c: set<ExportKey>)
    requires b <= c && Exhausted(w, a, b) && Exhausted(w, b, c)
    ensures Exhausted(w, a, c)
  {
  }

  lemma {:induction false} ScanMissExhausts(w: World, k: ExportKey, i: nat, seen: set<ExportKey>, names: set<string>)
    requires Closed(w) && k.file in w && k.name in names && NamesClosed(w, names) && i <= |w[k.file].reExports|
    ensures var r := ScanReExports(w, k, i, seen, names);
      r.hit.None? ==> Exhausted(w, seen, r.seen) && ForwardedFrom(w, k, i, r.seen)
    decreases |AllKeys(w, names) - seen|, 1 + |w[k.file].reExports| - i
  {
    if i < |w[k.file].reExports| {
      var stmt := w[k.file].reExports[i];
      var lookFor := LookFor(stmt, k.name);
      if lookFor.None? {
        ScanMissExhausts(w, k, i + 1, seen, names);
      } else {
        var next := ExportKey(stmt.origin.file, lookFor.value);
        var r := FindExported(w, next, seen, names);
        MissExhausts(w, next, seen, names);
        Narrows(AllKeys(w, names), seen, r.seen);
        if r.hit.None? {
          ScanMissExhausts(w, k, i + 1, r.seen, names);
          var last := ScanReExports(w, k, i + 1, r.seen, names);
          if last.hit.None? {
            ExhaustedChains(w, seen, r.seen, last.seen);
            ForwardedOneMore(w, k, i, next, last.seen);
          }
        }
      }
    }
  }

  lemma {:induction false} ExhaustedHoldsPath(w: World, seen: set<ExportKey>, path: seq<ExportKey>)
    requires Exhausted(w, {}, seen) && path != [] && path[0] in seen && ForwardPath(w, path)
    ensures path[|path| - 1] in seen
  {
    if |path| > 1 {
      assert Forwards(w, path[0], path[1]);
      forall i | 0 <= i < |path[1..]| - 1 ensures Forwards(w, path[1..][i], path[1..][i + 1]) {
        assert Forwards(w, path[i + 1], path[i + 2]);
      }
      ExhaustedHoldsPath(w, seen, path[1..]);
    }
  }

  lemma NamesAreClosed(w: World, start: string)
    ensures NamesClosed(w, SearchNames(w, start)) && start in SearchNames(w, start)
  {
    forall f, i, n | f in w && 0 <= i < |w[f].reExports| && n in SearchNames(w, start) &&
      LookFor(w[f].reExports[i], n).Some?
      ensures LookFor(w[f].reExports[i], n).value in SearchNames(w, start)
    {
      var r := w[f].reExports[i];
      if r.Named? {
        var j := ElementAt(r.elements, n);
        assert w[f].reExports[i].elements[j].source in SearchNames(w, start);
      }
    }
  }

  lemma {:induction false} ElementAt(elements: seq<ExportElement>, name: string) returns (j: nat)
    requires ElementFor(elements, name).Some?
    ensures j < |elements| && elements[j].source == ElementFor(elements, name).value
  {
    if elements[0].name == name {
      j := 0;
    } else {
      j := ElementAt(elements[1..], name);
      j := j + 1;
    }
  }

  /** `findExportedTypeDecl`. */
  function FindExportedTypeDecl(w: World, f: FileId, name: string): (r: Option<DeclId>)
    requires Closed(w) && f in w
    ensures r.Some? ==> Declares(w, r.value)
  {
    NamesAreClosed(w, name);
    FindExported(w, ExportKey(f, name), {}, SearchNames(w, name)).hit
  }

  /** The search is exact: it finds a declaration if and only if one is reachable along re-exports. */
  lemma SearchIsExact(w: World, f: FileId, name: string)
    requires Closed(w) && f in w
    ensures FindExportedTypeDecl(w, f, name).Some? <==> exists d :: Exports(w, ExportKey(f, name), d)
    ensures FindExportedTypeDecl(w, f, name).Some? ==>
      Exports(w, ExportKey(f, name), FindExportedTypeDecl(w, f, name).value)
  {
    var k, names := ExportKey(f, name), SearchNames(w, name);
    NamesAreClosed(w, name);
    HitIsReachable(w, k, {}, names);
    MissExhausts(w, k, {}, names);
    var r := FindExported(w, k, {}, names);
    if r.hit.None? {
      forall to, d | Reaches(w, k, to) ensures !IsLocal(w, to, d) {
        var path :| ReachesBy(w, k, to, path);
        ExhaustedHoldsPath(w, r.seen, path);
      }
    }
  }

  /** The declaration a type name of file `f` refers to; `None` when it is out of reach. */
  function DeclForTypeName(w: World, f: FileId, name: string): (r: Option<DeclId>)
    requires Closed(w) && f in w
    ensures r.Some? ==> Declares(w, r.value)
  {
    var local := FindDecl(w[f].decls, name);
    if local.Some? then Some(DeclId(f, local.value))
    else if name !in w[f].imports then None
    else
      var imp := w[f].imports[name];
      match imp.origin
      case RelativeSource(g) => FindExportedTypeDecl(w, g, imp.imported)
      case WorkspaceSource(g) => FindExportedTypeDecl(w, g, imp.imported)
      case RelativeOther => None
      case External => None
  }

  ghost predicate ImportsFrom(w: World, f: FileId, name: string, g: FileId, imported: string) {
    f in w && name in w[f].imports && w[f].imports[name].imported == imported && g in w &&
    (w[f].imports[name].origin == RelativeSource(g) || w[f].imports[name].origin == WorkspaceSource(g))
  }

  ghost predicate Denotes(w: World, f: FileId, name: string, d: DeclId)
    requires Closed(w)
  {
    || DeclaredFirst(w, f, name, d)
    || (Undeclared(w, f, name) &&
        exists g, imported :: ImportsFrom(w, f, name, g, imported) && FindExportedTypeDecl(w, g, imported) == Some(d))
  }

  /** A name denotes what the file declares first under it, or else what the file that it is imported from, of the
      same package or another of the workspace, is found to export under the imported name. */
  lemma DenotesIff(w: World, f: FileId, name: string, d: DeclId)
    requires Closed(w) && f in w
    ensures DeclForTypeName(w, f, name) == Some(d) <==> Denotes(w, f, name, d)
  {
    if name in w[f].imports {
      var imp := w[f].imports[name];
      if imp.origin.RelativeSource? || imp.origin.WorkspaceSource? {
        assert ImportsFrom(w, f, name, imp.origin.file, imp.imported);
      }
    }
  }
}
