/** Where the expressions of a module program stand: in an expression, in an item, in a file. */
module ExpressionPlaces {
  import opened ModuleLanguage
  import opened Options
  import opened Places

  /** The parts of an expression, in source order. */
  function Parts(e: Expr): seq<Expr> {
    match e
    case Ident(_, _) => []
    case Wrapper(inner) => [inner]
    case Call(callee, args) => [callee] + args
    case ObjectLiteral(fields) => seq(|fields|, i requires 0 <= i < |fields| => fields[i].value)
    case Member(target, _) => [target]
    case Opaque(children) => children
  }

  /** The expression at a place. */
  function At(e: Expr, path: Path): Option<Expr>
    decreases |path|
  {
    if path == [] then Some(e)
    else if path[0] < |Parts(e)| then At(Parts(e)[path[0]], path[1..])
    else None
  }

  function AmongParts(es: seq<Expr>, path: Path): Option<Expr> {
    if path != [] && path[0] < |es| then At(es[path[0]], path[1..]) else None
  }

  /** A function has its statements and, after them, its result; imports and re-exports have nothing. */
  function AtItem(item: Item, path: Path): Option<Expr> {
    match item
    case Function(_, _, body, result) =>
      if path != [] && path[0] == |body| && result.Some? then At(result.value, path[1..]) else AmongParts(body, path)
    case Const(_, _, init) => AmongParts([init], path)
    case ExportSpecifier(_, local) => AmongParts([local], path)
    case Statement(expr) => AmongParts([expr], path)
    case Import(_, _, _) => None
    case ReExport(_, _, _) => None
  }

  function AtFile(p: Program, f: FileId, path: Path): Option<Expr> {
    if f in p && path != [] && path[0] < |p[f].items| then AtItem(p[f].items[path[0]], path[1..]) else None
  }

  lemma RootsStand(item: Item, path: Path)
    ensures AtItem(item, path) == AmongParts(Roots(item), path)
  {
  }

  // ---------- Identifiers ----------

  /** How the part sits in the whole: in a wrapper, as the callee of a call, or otherwise. */
  function Sits(e: Expr, i: nat): Frame {
    if e.Wrapper? then InWrapper else if e.Call? && i == 0 then AsCallee else Elsewhere
  }

  /** The ancestors of what stands at a place, innermost first. */
  function Ancestry(e: Expr, path: Path): seq<Frame>
    requires At(e, path).Some?
    decreases |path|
  {
    if path == [] then [] else Ancestry(Parts(e)[path[0]], path[1..]) + [Sits(e, path[0])]
  }

  ghost predicate IdentStands(e: Expr, path: Path, outside: seq<Frame>, o: Occurrence) {
    At(e, path) == Some(Ident(o.text, o.sym)) && o.ancestors == Ancestry(e, path) + outside
  }

  lemma Deeper(e: Expr, i: nat, path: Path, outside: seq<Frame>, o: Occurrence)
    requires i < |Parts(e)|
    ensures IdentStands(e, [i] + path, outside, o) <==> IdentStands(Parts(e)[i], path, [Sits(e, i)] + outside, o)
  {
    assert ([i] + path)[1..] == path;
    if At(Parts(e)[i], path).Some? {
      var above := Ancestry(Parts(e)[i], path);
      assert above + ([Sits(e, i)] + outside) == (above + [Sits(e, i)]) + outside;
    }
  }

  /** Some place of the expression holds that identifier. */
  ghost predicate StandsIn(e: Expr, outside: seq<Frame>, o: Occurrence) {
    exists path: Path :: IdentStands(e, path, outside, o)
  }

  lemma StandsInPart(e: Expr, outside: seq<Frame>, o: Occurrence)
    ensures StandsIn(e, outside, o) <==>
      (e == Ident(o.text, o.sym) && o.ancestors == outside) ||
      exists i: nat :: i < |Parts(e)| && StandsIn(Parts(e)[i], [Sits(e, i)] + outside, o)
  {
    assert IdentStands(e, [], outside, o) <==> e == Ident(o.text, o.sym) && o.ancestors == outside;
    if StandsIn(e, outside, o) {
      var path: Path :| IdentStands(e, path, outside, o);
      if path != [] {
        assert path == [path[0]] + path[1..];
        Deeper(e, path[0], path[1..], outside, o);
      }
    }
    forall i: nat | i < |Parts(e)| && StandsIn(Parts(e)[i], [Sits(e, i)] + outside, o) ensures StandsIn(e, outside, o) {
      var path: Path :| IdentStands(Parts(e)[i], path, [Sits(e, i)] + outside, o);
      Deeper(e, i, path, outside, o);
    }
  }

  /** The scan of an expression meets exactly the identifiers that stand in it. */
  lemma {:induction false} IdentsAreAll(e: Expr, outside: seq<Frame>, o: Occurrence)
    ensures o in Idents(e, outside) <==> StandsIn(e, outside, o)
    decreases e, 1
  {
    StandsInPart(e, outside, o);
    match e
    case Ident(_, _) =>
    case Wrapper(inner) =>
      IdentsAreAll(inner, [InWrapper] + outside, o);
      assert Parts(e)[0] == inner && Sits(e, 0) == InWrapper;
    case Call(callee, args) =>
      IdentsAreAll(callee, [AsCallee] + outside, o);
      AllIdentsAreAll(args, [Elsewhere] + outside, o);
      assert Parts(e)[0] == callee && forall i :: 0 <= i < |args| ==> Parts(e)[i + 1] == args[i];
    case ObjectLiteral(fields) =>
      FieldIdentsAreAll(fields, [Elsewhere] + outside, o);
      assert forall i :: 0 <= i < |fields| ==> Parts(e)[i] == fields[i].value;
    case Member(target, _) =>
      IdentsAreAll(target, [Elsewhere] + outside, o);
      assert Parts(e)[0] == target;
    case Opaque(children) =>
      AllIdentsAreAll(children, [Elsewhere] + outside, o);
      assert Parts(e) == children && forall i: nat :: Sits(e, i) == Elsewhere;
  }

  lemma {:induction false} AllIdentsAreAll(es: seq<Expr>, outside: seq<Frame>, o: Occurrence)
    ensures o in AllIdents(es, outside) <==> exists i :: 0 <= i < |es| && StandsIn(es[i], outside, o)
    decreases es, 0
  {
    if es != [] {
      IdentsAreAll(es[0], outside, o);
      AllIdentsAreAll(es[1..], outside, o);
      assert forall i :: 0 < i < |es| ==> es[i] == es[1..][i - 1];
    }
  }

  lemma {:induction false} FieldIdentsAreAll(fields: seq<Field>, outside: seq<Frame>, o: Occurrence)
    ensures o in FieldIdents(fields, outside) <==>
      exists i :: 0 <= i < |fields| && StandsIn(fields[i].value, outside, o)
    decreases fields, 0
  {
    if fields != [] {
      IdentsAreAll(fields[0].value, outside, o);
      FieldIdentsAreAll(fields[1..], outside, o);
      assert forall i :: 0 < i < |fields| ==> fields[i] == fields[1..][i - 1];
    }
  }

  /** Some expression of the file holds that identifier; no expression of an item is the callee of a call. */
  ghost predicate StandsInFile(p: Program, f: FileId, o: Occurrence) {
    f in p && exists k: nat, i: nat :: k < |p[f].items| && StandsInItem(p[f].items[k], i, o)
  }

  ghost predicate StandsInItem(item: Item, i: nat, o: Occurrence) {
    AtItem(item, [i]).Some? && StandsIn(AtItem(item, [i]).value, [Elsewhere], o)
  }

  lemma RootAt(item: Item, i: nat)
    ensures AtItem(item, [i]) == if i < |Roots(item)| then Some(Roots(item)[i]) else None
  {
    RootsStand(item, [i]);
    assert [i][1..] == [];
  }

  lemma {:induction false} ItemIdentsAreAll(items: seq<Item>, o: Occurrence)
    ensures o in ItemIdents(items) <==> exists k: nat, i: nat :: k < |items| && StandsInItem(items[k], i, o)
  {
    if items != [] {
      ItemIdentsAreAll(items[1..], o);
      assert forall k :: 0 < k < |items| ==> items[k] == items[1..][k - 1];
      AllIdentsAreAll(Roots(items[0]), [Elsewhere], o);
      forall i: nat ensures StandsInItem(items[0], i, o) <==>
          i < |Roots(items[0])| && StandsIn(Roots(items[0])[i], [Elsewhere], o)
      {
        RootAt(items[0], i);
      }
    }
  }

  /** The scan of a file meets exactly the identifiers that stand in it. */
  lemma FileIdentsAreAll(p: Program, f: FileId, o: Occurrence)
    ensures o in FileIdents(p, f) <==> StandsInFile(p, f, o)
  {
    if f in p { ItemIdentsAreAll(p[f].items, o); }
  }
}
