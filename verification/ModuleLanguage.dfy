/** A small module language in which function values flow through constants, objects, results,
    imports and exports, and a call's declaration is found by chasing them: what
    scripts/gen-doc-graphs.ts asks of the type checker. */
module ModuleLanguage {
  import opened Options

  type FileId = string

  /** A declaration is an item of a file. */
  datatype ItemId = ItemId(file: FileId, index: nat)

  /** What an identifier is bound to in its scope. */
  datatype Symbol = ItemSymbol(item: ItemId) | NoSymbol

  datatype Field = Field(key: string, value: Expr)

  datatype Expr =
    | Ident(text: string, sym: Symbol)
    | Wrapper(inner: Expr)  // parentheses, `as`, a type assertion, `!`, `satisfies`
    | Call(callee: Expr, args: seq<Expr>)
    | ObjectLiteral(fields: seq<Field>)
    | Member(target: Expr, key: string)
    | Opaque(children: seq<Expr>)  // any other expression: its value is not followed

  datatype Item =
    | Function(name: string, exported: bool, body: seq<Expr>, result: Option<Expr>)
    | Const(name: string, exported: bool, init: Expr)
    | Import(name: string, from: FileId, imported: string)
    | ExportSpecifier(name: string, local: Expr)  // `export { local as name }`, `export default local`
    | ReExport(name: string, from: FileId, imported: string)
    | Statement(expr: Expr)

  /** A file without imports and exports is a script: its declarations are in scope everywhere. */
  datatype SourceFile = SourceFile(isModule: bool, items: seq<Item>)

  type Program = map<FileId, SourceFile>

  predicate Has(p: Program, d: ItemId) {
    d.file in p && d.index < |p[d.file].items|
  }

  function ItemOf(p: Program, d: ItemId): Item
    requires Has(p, d)
  {
    p[d.file].items[d.index]
  }

  predicate IsFunction(p: Program, d: ItemId) {
    Has(p, d) && ItemOf(p, d).Function?
  }

  // ---------- Values ----------

  datatype Value = Fn(fn: ItemId) | Obj(file: FileId, fields: seq<Field>) | Unknown

  ghost predicate FirstField(fields: seq<Field>, key: string, i: nat) {
    i < |fields| && fields[i].key == key && forall j :: 0 <= j < i ==> fields[j].key != key
  }

  function FieldOf(fields: seq<Field>, key: string): (r: Option<nat>)
    ensures r.Some? ==> FirstField(fields, key, r.value)
    ensures r.None? ==> forall i :: 0 <= i < |fields| ==> fields[i].key != key
  {
    if fields == [] then None
    else if fields[0].key == key then Some(0)
    else
      var r := FieldOf(fields[1..], key);
      if r.Some? then Some(r.value + 1) else None
  }

  /** The item that gives a file's export its meaning. */
  function ExportItem(items: seq<Item>, name: string): (r: Option<nat>)
    ensures r.Some? ==> r.value < |items| && Exports(items[r.value], name)
    ensures r.Some? ==> forall i :: 0 <= i < r.value ==> !Exports(items[i], name)
    ensures r.None? ==> forall i :: 0 <= i < |items| ==> !Exports(items[i], name)
  {
    if items == [] then None
    else if Exports(items[0], name) then Some(0)
    else
      var r := ExportItem(items[1..], name);
      if r.Some? then Some(r.value + 1) else None
  }

  predicate Exports(item: Item, name: string) {
    match item
    case Function(n, exported, _, _) => exported && n == name
    case Const(n, exported, _) => exported && n == name
    case ExportSpecifier(n, _) => n == name
    case ReExport(n, _, _) => n == name
    case Import(_, _, _) => false
    case Statement(_) => false
  }

  /** The same by the name of the item. */
  ghost predicate ExportsAs(item: Item, name: string) {
    && !item.Statement? && item.name == name
    && (item.ExportSpecifier? || item.ReExport? || ((item.Function? || item.Const?) && item.exported))
  }

  function ExportedItem(p: Program, f: FileId, name: string): (r: Option<ItemId>)
    ensures r.Some? ==> Has(p, r.value)
  {
    if f !in p || ExportItem(p[f].items, name).None? then None
    else Some(ItemId(f, ExportItem(p[f].items, name).value))
  }

  /** `e` is what the file `from` exports under that name. */
  ghost predicate GivesExport(p: Program, from: FileId, name: string, e: ItemId) {
    e.file == from && Has(p, e) && ExportsAs(ItemOf(p, e), name) &&
    forall i :: 0 <= i < e.index ==> !ExportsAs(p[from].items[i], name)
  }

  lemma ExportIsGiven(p: Program, from: FileId, name: string, e: ItemId)
    ensures GivesExport(p, from, name, e) <==> ExportedItem(p, from, name) == Some(e)
  {
    if from in p {
      var items := p[from].items;
      forall i | 0 <= i < |items| ensures ExportsAs(items[i], name) <==> Exports(items[i], name) {}
    }
  }

  /** The value of an expression of file `g`, following at most `depth` references. */
  function ValueOf(p: Program, g: FileId, e: Expr, depth: nat): Value
    decreases depth, 1, e
  {
    match e
    case Ident(_, sym) => if sym.NoSymbol? || depth == 0 then Unknown else ItemValue(p, sym.item, depth - 1)
    case Wrapper(inner) => ValueOf(p, g, inner, depth)
    case Call(callee, _) =>
      var f := ValueOf(p, g, callee, depth);
      if f.Fn? && IsFunction(p, f.fn) && ItemOf(p, f.fn).result.Some? && depth > 0
      then ValueOf(p, f.fn.file, ItemOf(p, f.fn).result.value, depth - 1)
      else Unknown
    case ObjectLiteral(fields) => Obj(g, fields)
    case Member(target, key) =>
      var o := ValueOf(p, g, target, depth);
      if o.Obj? && FieldOf(o.fields, key).Some? && depth > 0
      then ValueOf(p, o.file, o.fields[FieldOf(o.fields, key).value].value, depth - 1)
      else Unknown
    case Opaque(_) => Unknown
  }

  function ItemValue(p: Program, d: ItemId, depth: nat): Value
    decreases depth, 2
  {
    if !Has(p, d) then Unknown else
      match ItemOf(p, d)
      case Function(_, _, _, _) => Fn(d)
      case Const(_, _, init) => ValueOf(p, d.file, init, depth)
      case Import(_, from, imported) => if depth == 0 then Unknown else ExportValue(p, from, imported, depth - 1)
      case ExportSpecifier(_, local) => ValueOf(p, d.file, local, depth)
      case ReExport(_, from, imported) => if depth == 0 then Unknown else ExportValue(p, from, imported, depth - 1)
      case Statement(_) => Unknown
  }

  function ExportValue(p: Program, f: FileId, name: string, depth: nat): Value
    decreases depth, 3
  {
    var item := ExportedItem(p, f, name);
    if item.None? then Unknown else ItemValue(p, item.value, depth)
  }

  // ---------- Positions of identifiers ----------

  /** How a node sits in its parent. */
  datatype Frame = InWrapper | AsCallee | Elsewhere

  /** An identifier and its ancestors, innermost first. */
  datatype Occurrence = Occurrence(text: string, sym: Symbol, ancestors: seq<Frame>)

  function Idents(e: Expr, ancestors: seq<Frame>): seq<Occurrence>
    decreases e, 1
  {
    match e
    case Ident(text, sym) => [Occurrence(text, sym, ancestors)]
    case Wrapper(inner) => Idents(inner, [InWrapper] + ancestors)
    case Call(callee, args) => Idents(callee, [AsCallee] + ancestors) + AllIdents(args, [Elsewhere] + ancestors)
    case ObjectLiteral(fields) => FieldIdents(fields, [Elsewhere] + ancestors)
    case Member(target, _) => Idents(target, [Elsewhere] + ancestors)
    case Opaque(children) => AllIdents(children, [Elsewhere] + ancestors)
  }

  function AllIdents(es: seq<Expr>, ancestors: seq<Frame>): seq<Occurrence>
    decreases es, 0
  {
    if es == [] then [] else Idents(es[0], ancestors) + AllIdents(es[1..], ancestors)
  }

  function FieldIdents(fields: seq<Field>, ancestors: seq<Frame>): seq<Occurrence>
    decreases fields, 0
  {
    if fields == [] then [] else Idents(fields[0].value, ancestors) + FieldIdents(fields[1..], ancestors)
  }

  /** The expressions of an item, none of them the callee of a call. */
  function Roots(item: Item): seq<Expr> {
    match item
    case Function(_, _, body, result) => body + if result.Some? then [result.value] else []
    case Const(_, _, init) => [init]
    case ExportSpecifier(_, local) => [local]
    case Statement(expr) => [expr]
    case Import(_, _, _) => []
    case ReExport(_, _, _) => []
  }

  function ItemIdents(items: seq<Item>): seq<Occurrence> {
    if items == [] then [] else AllIdents(Roots(items[0]), [Elsewhere]) + ItemIdents(items[1..])
  }

  function FileIdents(p: Program, f: FileId): seq<Occurrence> {
    if f in p then ItemIdents(p[f].items) else []
  }

  /** The callee of a call, seen through value-preserving wrappers. */
  function DirectCallee(ancestors: seq<Frame>): bool {
    ancestors != [] && (if ancestors[0].InWrapper? then DirectCallee(ancestors[1..]) else ancestors[0].AsCallee?)
  }

  /** Lexical scoping: an identifier is bound to an item of its own file, or of a script, and to a
      function only by that function's name. */
  ghost predicate WellScoped(p: Program) {
    forall g, o :: g in p && o in FileIdents(p, g) && o.sym.ItemSymbol? && Has(p, o.sym.item) ==>
      && (o.sym.item.file == g || !p[o.sym.item.file].isModule)
      && (IsFunction(p, o.sym.item) ==> ItemOf(p, o.sym.item).name == o.text)
  }

  // ---------- How a function value can leave its file ----------

  /** An occurrence of the function's name, bound to it, that is not the callee of a call. */
  ghost predicate Escapes(p: Program, owner: ItemId) {
    IsFunction(p, owner) &&
    exists o :: o in FileIdents(p, owner.file) && o.sym == ItemSymbol(owner) &&
      o.text == ItemOf(p, owner).name && !DirectCallee(o.ancestors)
  }

  ghost predicate SitsIn(p: Program, g: FileId, e: Expr, ancestors: seq<Frame>) {
    forall o :: o in Idents(e, ancestors) ==> o in FileIdents(p, g)
  }

  function Unwrap(e: Expr): Expr {
    if e.Wrapper? then Unwrap(e.inner) else e
  }

  ghost predicate NamesOwner(e: Expr, owner: ItemId) {
    Unwrap(e).Ident? && Unwrap(e).sym == ItemSymbol(owner)
  }

  lemma {:induction false} UnwrapIdents(e: Expr, ancestors: seq<Frame>) returns (up: seq<Frame>)
    requires Unwrap(e).Ident?
    ensures Idents(e, ancestors) == [Occurrence(Unwrap(e).text, Unwrap(e).sym, up)]
    ensures DirectCallee(up) == DirectCallee(ancestors)
  {
    if e.Wrapper? {
      up := UnwrapIdents(e.inner, [InWrapper] + ancestors);
      assert ([InWrapper] + ancestors)[1..] == ancestors;
    } else {
      up := ancestors;
    }
  }

  /** An initializer, result, field or export specifier that names the function lets it escape. */
  lemma NamedInValuePosition(p: Program, g: FileId, e: Expr, ancestors: seq<Frame>, owner: ItemId)
    requires WellScoped(p) && IsFunction(p, owner) && p[owner.file].isModule
    requires g in p && SitsIn(p, g, e, ancestors) && NamesOwner(e, owner)
    ensures g == owner.file
    ensures !DirectCallee(ancestors) ==> Escapes(p, owner)
  {
    var up := UnwrapIdents(e, ancestors);
    var o := Occurrence(Unwrap(e).text, Unwrap(e).sym, up);
    assert o in Idents(e, ancestors);
    assert o in FileIdents(p, g);
  }

  lemma {:induction false} ItemSits(p: Program, d: ItemId, items: seq<Item>, i: nat, e: Expr)
    requires i < |items| && e in Roots(items[i])
    ensures forall o :: o in Idents(e, [Elsewhere]) ==> o in ItemIdents(items)
  {
    if i == 0 {
      RootSits(Roots(items[0]), e, [Elsewhere]);
    } else {
      ItemSits(p, d, items[1..], i - 1, e);
    }
  }

  lemma {:induction false} RootSits(es: seq<Expr>, e: Expr, ancestors: seq<Frame>)
    requires e in es
    ensures forall o :: o in Idents(e, ancestors) ==> o in AllIdents(es, ancestors)
  {
    if es[0] != e { RootSits(es[1..], e, ancestors); }
  }

  lemma {:induction false} FieldSits(fields: seq<Field>, f: Field, ancestors: seq<Frame>)
    requires f in fields
    ensures forall o :: o in Idents(f.value, ancestors) ==> o in FieldIdents(fields, ancestors)
  {
    if fields[0] != f { FieldSits(fields[1..], f, ancestors); }
  }

  ghost predicate FieldsSit(p: Program, g: FileId, fields: seq<Field>) {
    g in p && exists up: seq<Frame> :: forall f :: f in fields ==> SitsIn(p, g, f.value, [Elsewhere] + up)
  }

  /** Where the value of an expression can have come from. */
  ghost predicate Traced(p: Program, owner: ItemId, e: Expr, v: Value) {
    && (v == Fn(owner) ==> NamesOwner(e, owner) || Escapes(p, owner))
    && (v.Obj? ==> FieldsSit(p, v.file, v.fields))
  }

  lemma {:induction false} TraceValue(p: Program, owner: ItemId, g: FileId, e: Expr, ancestors: seq<Frame>, depth: nat)
    requires WellScoped(p) && IsFunction(p, owner) && p[owner.file].isModule && !ItemOf(p, owner).exported
    requires g in p && SitsIn(p, g, e, ancestors)
    ensures Traced(p, owner, e, ValueOf(p, g, e, depth))
    decreases depth, 1, e
  {
    match e
    case Ident(_, sym) =>
      if sym.ItemSymbol? && depth > 0 { TraceItem(p, owner, sym.item, depth - 1); }
    case Wrapper(inner) =>
      TraceValue(p, owner, g, inner, [InWrapper] + ancestors, depth);
    case Call(callee, args) =>
      var f := ValueOf(p, g, callee, depth);
      if f.Fn? && IsFunction(p, f.fn) && ItemOf(p, f.fn).result.Some? && depth > 0 {
        TraceRoot(p, owner, f.fn, ItemOf(p, f.fn).result.value, depth - 1);
      }
    case ObjectLiteral(fields) =>
      forall f | f in fields ensures SitsIn(p, g, f.value, [Elsewhere] + ancestors) {
        FieldSits(fields, f, [Elsewhere] + ancestors);
      }
    case Member(target, key) =>
      var o := ValueOf(p, g, target, depth);
      if o.Obj? && FieldOf(o.fields, key).Some? && depth > 0 {
        TraceValue(p, owner, g, target, [Elsewhere] + ancestors, depth);
        TraceField(p, owner, o.file, o.fields, o.fields[FieldOf(o.fields, key).value], depth - 1);
      }
    case Opaque(_) =>
  }

  /** A field of an object is no callee, so naming the function there is an escape. */
  lemma {:induction false} TraceField(p: Program, owner: ItemId, g: FileId, fields: seq<Field>, f: Field, depth: nat)
    requires WellScoped(p) && IsFunction(p, owner) && p[owner.file].isModule && !ItemOf(p, owner).exported
    requires FieldsSit(p, g, fields) && f in fields
    ensures ValueOf(p, g, f.value, depth) == Fn(owner) ==> Escapes(p, owner)
    ensures Traced(p, owner, f.value, ValueOf(p, g, f.value, depth))
    decreases depth, 2
  {
    var up: seq<Frame> :| forall h :: h in fields ==> SitsIn(p, g, h.value, [Elsewhere] + up);
    TraceValue(p, owner, g, f.value, [Elsewhere] + up, depth);
    if NamesOwner(f.value, owner) { NamedInValuePosition(p, g, f.value, [Elsewhere] + up, owner); }
  }

  /** Neither is a root expression of an item. */
  lemma {:induction false} TraceRoot(p: Program, owner: ItemId, d: ItemId, e: Expr, depth: nat)
    requires WellScoped(p) && IsFunction(p, owner) && p[owner.file].isModule && !ItemOf(p, owner).exported
    requires Has(p, d) && e in Roots(ItemOf(p, d))
    ensures ValueOf(p, d.file, e, depth) == Fn(owner) ==> Escapes(p, owner)
    ensures Traced(p, owner, e, ValueOf(p, d.file, e, depth))
    decreases depth, 2
  {
    ItemSits(p, d, p[d.file].items, d.index, e);
    TraceValue(p, owner, d.file, e, [Elsewhere], depth);
    if NamesOwner(e, owner) { NamedInValuePosition(p, d.file, e, [Elsewhere], owner); }
  }

  lemma {:induction false} TraceItem(p: Program, owner: ItemId, d: ItemId, depth: nat)
    requires WellScoped(p) && IsFunction(p, owner) && p[owner.file].isModule && !ItemOf(p, owner).exported
    ensures ItemValue(p, d, depth) == Fn(owner) ==> d == owner || Escapes(p, owner)
    ensures ItemValue(p, d, depth).Obj? ==> FieldsSit(p, ItemValue(p, d, depth).file, ItemValue(p, d, depth).fields)
    decreases depth, 3
  {
    if Has(p, d) {
      match ItemOf(p, d)
      case Function(_, _, _, _) =>
      case Const(_, _, init) => TraceRoot(p, owner, d, init, depth);
      case Import(_, from, imported) => if depth > 0 { TraceExport(p, owner, from, imported, depth - 1); }
      case ExportSpecifier(_, local) => TraceRoot(p, owner, d, local, depth);
      case ReExport(_, from, imported) => if depth > 0 { TraceExport(p, owner, from, imported, depth - 1); }
      case Statement(_) =>
    }
  }

  lemma {:induction false} TraceExport(p: Program, owner: ItemId, f: FileId, name: string, depth: nat)
    requires WellScoped(p) && IsFunction(p, owner) && p[owner.file].isModule && !ItemOf(p, owner).exported
    ensures ExportValue(p, f, name, depth) == Fn(owner) ==> Escapes(p, owner)
    ensures ExportValue(p, f, name, depth).Obj? ==>
      FieldsSit(p, ExportValue(p, f, name, depth).file, ExportValue(p, f, name, depth).fields)
    decreases depth, 4
  {
    var item := ExportedItem(p, f, name);
    if item.Some? { TraceItem(p, owner, item.value, depth); }
  }
}
