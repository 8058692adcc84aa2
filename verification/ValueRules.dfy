/** The values of a module program by rules, without a bound on how far references are followed, and the proof
    that following them with such a bound gives these values and no others. */
module ValueRules {
  import opened ModuleLanguage
  import opened Options

  /** `v` is the value of an expression of file `g`. */
  least predicate Evaluates[nat](p: Program, g: FileId, e: Expr, v: Value) {
    match e
    case Ident(_, sym) => sym.ItemSymbol? && Denotes(p, sym.item, v)
    case Wrapper(inner) => Evaluates(p, g, inner, v)
    case Call(callee, _) => exists fn: ItemId :: Evaluates(p, g, callee, Fn(fn)) && Returns(p, fn, v)
    case ObjectLiteral(fields) => v == Obj(g, fields)
    case Member(target, key) =>
      exists h: FileId, fields: seq<Field>, i: nat ::
        Evaluates(p, g, target, Obj(h, fields)) && FirstField(fields, key, i) && Evaluates(p, h, fields[i].value, v)
    case Opaque(_) => false
  }

  /** `v` is what a function returns. */
  least predicate Returns[nat](p: Program, fn: ItemId, v: Value) {
    Has(p, fn) &&
    match ItemOf(p, fn)
    case Function(_, _, _, result) => result.Some? && Evaluates(p, fn.file, result.value, v)
    case _ => false
  }

  /** `v` is what an item stands for. */
  least predicate Denotes[nat](p: Program, d: ItemId, v: Value) {
    Has(p, d) &&
    match ItemOf(p, d)
    case Function(_, _, _, _) => v == Fn(d)
    case Const(_, _, init) => Evaluates(p, d.file, init, v)
    case ExportSpecifier(_, local) => Evaluates(p, d.file, local, v)
    case Import(_, from, imported) => exists e: ItemId :: GivesExport(p, from, imported, e) && Denotes(p, e, v)
    case ReExport(_, from, imported) => exists e: ItemId :: GivesExport(p, from, imported, e) && Denotes(p, e, v)
    case Statement(_) => false
  }

  // ---------- The bounded chase follows the rules ----------

  lemma {:induction false} ValueFollowsRules(p: Program, g: FileId, e: Expr, depth: nat)
    requires ValueOf(p, g, e, depth) != Unknown
    ensures Evaluates(p, g, e, ValueOf(p, g, e, depth))
    decreases depth, 1, e
  {
    match e
    case Ident(_, sym) => ItemFollowsRules(p, sym.item, depth - 1);
    case Wrapper(inner) => ValueFollowsRules(p, g, inner, depth);
    case Call(callee, _) =>
      var f := ValueOf(p, g, callee, depth);
      ValueFollowsRules(p, g, callee, depth);
      ValueFollowsRules(p, f.fn.file, ItemOf(p, f.fn).result.value, depth - 1);
      assert Returns(p, f.fn, ValueOf(p, g, e, depth));
    case ObjectLiteral(_) =>
    case Member(target, key) =>
      var o := ValueOf(p, g, target, depth);
      ValueFollowsRules(p, g, target, depth);
      ValueFollowsRules(p, o.file, o.fields[FieldOf(o.fields, key).value].value, depth - 1);
  }

  lemma {:induction false} ItemFollowsRules(p: Program, d: ItemId, depth: nat)
    requires ItemValue(p, d, depth) != Unknown
    ensures Denotes(p, d, ItemValue(p, d, depth))
    decreases depth, 2
  {
    match ItemOf(p, d)
    case Function(_, _, _, _) =>
    case Const(_, _, init) => ValueFollowsRules(p, d.file, init, depth);
    case ExportSpecifier(_, local) => ValueFollowsRules(p, d.file, local, depth);
    case Import(_, from, imported) => ExportFollowsRules(p, from, imported, depth - 1);
    case ReExport(_, from, imported) => ExportFollowsRules(p, from, imported, depth - 1);
  }

  lemma {:induction false} ExportFollowsRules(p: Program, f: FileId, name: string, depth: nat)
    requires ExportValue(p, f, name, depth) != Unknown
    ensures exists e: ItemId :: GivesExport(p, f, name, e) && Denotes(p, e, ExportValue(p, f, name, depth))
    decreases depth, 3
  {
    var e := ExportedItem(p, f, name).value;
    ExportIsGiven(p, f, name, e);
    ItemFollowsRules(p, e, depth);
  }

  // ---------- A larger bound changes no value ----------

  lemma {:induction false} ValueStays(p: Program, g: FileId, e: Expr, depth: nat, more: nat)
    requires depth <= more && ValueOf(p, g, e, depth) != Unknown
    ensures ValueOf(p, g, e, more) == ValueOf(p, g, e, depth)
    decreases depth, 1, e
  {
    match e
    case Ident(_, sym) => ItemStays(p, sym.item, depth - 1, more - 1);
    case Wrapper(inner) => ValueStays(p, g, inner, depth, more);
    case Call(callee, _) =>
      var f := ValueOf(p, g, callee, depth);
      ValueStays(p, g, callee, depth, more);
      ValueStays(p, f.fn.file, ItemOf(p, f.fn).result.value, depth - 1, more - 1);
    case ObjectLiteral(_) =>
    case Member(target, key) =>
      var o := ValueOf(p, g, target, depth);
      ValueStays(p, g, target, depth, more);
      ValueStays(p, o.file, o.fields[FieldOf(o.fields, key).value].value, depth - 1, more - 1);
  }

  lemma {:induction false} ItemStays(p: Program, d: ItemId, depth: nat, more: nat)
    requires depth <= more && ItemValue(p, d, depth) != Unknown
    ensures ItemValue(p, d, more) == ItemValue(p, d, depth)
    decreases depth, 2
  {
    match ItemOf(p, d)
    case Function(_, _, _, _) =>
    case Const(_, _, init) => ValueStays(p, d.file, init, depth, more);
    case ExportSpecifier(_, local) => ValueStays(p, d.file, local, depth, more);
    case Import(_, from, imported) => ExportStays(p, from, imported, depth - 1, more - 1);
    case ReExport(_, from, imported) => ExportStays(p, from, imported, depth - 1, more - 1);
  }

  lemma {:induction false} ExportStays(p: Program, f: FileId, name: string, depth: nat, more: nat)
    requires depth <= more && ExportValue(p, f, name, depth) != Unknown
    ensures ExportValue(p, f, name, more) == ExportValue(p, f, name, depth)
    decreases depth, 3
  {
    ItemStays(p, ExportedItem(p, f, name).value, depth, more);
  }

  // ---------- Every value is found within some bound ----------

  ghost predicate Found(p: Program, g: FileId, e: Expr, v: Value) {
    v != Unknown && exists depth: nat :: ValueOf(p, g, e, depth) == v
  }

  least lemma RuleIsFollowed[nat](p: Program, g: FileId, e: Expr, v: Value)
    requires Evaluates(p, g, e, v)
    ensures Found(p, g, e, v)
  {
    match e
    case Ident(_, sym) =>
      ItemIsFollowed(p, sym.item, v);
      var depth: nat :| ItemValue(p, sym.item, depth) == v;
      assert ValueOf(p, g, e, depth + 1) == v;
    case Wrapper(inner) =>
      RuleIsFollowed(p, g, inner, v);
      var depth: nat :| ValueOf(p, g, inner, depth) == v;
      assert ValueOf(p, g, e, depth) == v;
    case Call(callee, _) =>
      var fn: ItemId :| Evaluates#[_k - 1](p, g, callee, Fn(fn)) && Returns#[_k - 1](p, fn, v);
      RuleIsFollowed(p, g, callee, Fn(fn));
      ReturnIsFollowed(p, fn, v);
      CallIsFollowed(p, g, e, fn, v);
    case ObjectLiteral(_) =>
      assert ValueOf(p, g, e, 0) == v;
    case Member(target, key) =>
      var h: FileId, fields: seq<Field>, i: nat :| Evaluates#[_k - 1](p, g, target, Obj(h, fields)) &&
        FirstField(fields, key, i) && Evaluates#[_k - 1](p, h, fields[i].value, v);
      RuleIsFollowed(p, g, target, Obj(h, fields));
      RuleIsFollowed(p, h, fields[i].value, v);
      MemberIsFollowed(p, g, e, h, fields, i, v);
  }

  least lemma ReturnIsFollowed[nat](p: Program, fn: ItemId, v: Value)
    requires Returns(p, fn, v)
    ensures IsFunction(p, fn) && ItemOf(p, fn).result.Some? && Found(p, fn.file, ItemOf(p, fn).result.value, v)
  {
    RuleIsFollowed(p, fn.file, ItemOf(p, fn).result.value, v);
  }

  least lemma ItemIsFollowed[nat](p: Program, d: ItemId, v: Value)
    requires Denotes(p, d, v)
    ensures v != Unknown && exists depth: nat :: ItemValue(p, d, depth) == v
  {
    match ItemOf(p, d)
    case Function(_, _, _, _) =>
      assert ItemValue(p, d, 0) == v;
    case Const(_, _, init) =>
      RuleIsFollowed(p, d.file, init, v);
      var depth: nat :| ValueOf(p, d.file, init, depth) == v;
      assert ItemValue(p, d, depth) == v;
    case ExportSpecifier(_, local) =>
      RuleIsFollowed(p, d.file, local, v);
      var depth: nat :| ValueOf(p, d.file, local, depth) == v;
      assert ItemValue(p, d, depth) == v;
    case Import(_, from, imported) =>
      var e: ItemId :| GivesExport(p, from, imported, e) && Denotes#[_k - 1](p, e, v);
      ItemIsFollowed(p, e, v);
      ExportIsGiven(p, from, imported, e);
      var depth: nat :| ItemValue(p, e, depth) == v;
      assert ItemValue(p, d, depth + 1) == v;
    case ReExport(_, from, imported) =>
      var e: ItemId :| GivesExport(p, from, imported, e) && Denotes#[_k - 1](p, e, v);
      ItemIsFollowed(p, e, v);
      ExportIsGiven(p, from, imported, e);
      var depth: nat :| ItemValue(p, e, depth) == v;
      assert ItemValue(p, d, depth + 1) == v;
  }

  lemma CallIsFollowed(p: Program, g: FileId, e: Expr, fn: ItemId, v: Value)
    requires e.Call? && IsFunction(p, fn) && ItemOf(p, fn).result.Some?
    requires Found(p, g, e.callee, Fn(fn)) && Found(p, fn.file, ItemOf(p, fn).result.value, v)
    ensures Found(p, g, e, v)
  {
    var a: nat :| ValueOf(p, g, e.callee, a) == Fn(fn);
    var b: nat :| ValueOf(p, fn.file, ItemOf(p, fn).result.value, b) == v;
    ValueStays(p, g, e.callee, a, a + b + 1);
    ValueStays(p, fn.file, ItemOf(p, fn).result.value, b, a + b);
    assert ValueOf(p, g, e, a + b + 1) == v;
  }

  lemma MemberIsFollowed(p: Program, g: FileId, e: Expr, h: FileId, fields: seq<Field>, i: nat, v: Value)
    requires e.Member? && FirstField(fields, e.key, i)
    requires Found(p, g, e.target, Obj(h, fields)) && Found(p, h, fields[i].value, v)
    ensures Found(p, g, e, v)
  {
    var a: nat :| ValueOf(p, g, e.target, a) == Obj(h, fields);
    var b: nat :| ValueOf(p, h, fields[i].value, b) == v;
    ValueStays(p, g, e.target, a, a + b + 1);
    ValueStays(p, h, fields[i].value, b, a + b);
    assert FieldOf(fields, e.key) == Some(i);
    assert ValueOf(p, g, e, a + b + 1) == v;
  }

  /** The rules give an expression exactly the values that the chase finds when it may follow enough references. */
  lemma ValuesAreRules(p: Program, g: FileId, e: Expr, v: Value)
    ensures Evaluates(p, g, e, v) <==> Found(p, g, e, v)
  {
    if Evaluates(p, g, e, v) { RuleIsFollowed(p, g, e, v); }
    forall depth: nat | v != Unknown && ValueOf(p, g, e, depth) == v ensures Evaluates(p, g, e, v) {
      ValueFollowsRules(p, g, e, depth);
    }
  }

  /** An expression has at most one value. */
  lemma OneValue(p: Program, g: FileId, e: Expr, u: Value, v: Value)
    requires Evaluates(p, g, e, u) && Evaluates(p, g, e, v)
    ensures u == v
  {
    ValuesAreRules(p, g, e, u);
    ValuesAreRules(p, g, e, v);
    var a: nat :| ValueOf(p, g, e, a) == u;
    var b: nat :| ValueOf(p, g, e, b) == v;
    ValueStays(p, g, e, a, a + b);
    ValueStays(p, g, e, b, a + b);
  }
}
