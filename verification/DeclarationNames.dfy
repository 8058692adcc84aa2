/** `collectTypeNames` of scripts/gen-config-catalog.ts: the names of the references and heritage bases anywhere in
    a declaration. */
module DeclarationNames {
  import opened Options
  import opened TypeGraph

  function AddName(out: seq<string>, name: string): seq<string> {
    if name in out then out else out + [name]
  }

  function NodeNames(node: TypeNode, out: seq<string>): seq<string>
    decreases node, 1
  {
    match node
    case Literal(members) => MemberNames(members, out)
    case Parens(inner) => NodeNames(inner, out)
    case Operator(inner, _) => NodeNames(inner, out)
    case Intersection(parts) => AllNames(parts, out)
    case Union(parts) => AllNames(parts, out)
    case ArrayOf(element) => NodeNames(element, out)
    case Indexed(target, _, indexType) => NodeNames(indexType, NodeNames(target, out))
    case Reference(name, _, args, _) => AllNames(args, AddName(out, name))
    case Other(children) => AllNames(children, out)
  }

  function AllNames(nodes: seq<TypeNode>, out: seq<string>): seq<string>
    decreases nodes, 0
  {
    if nodes == [] then out else AllNames(nodes[1..], NodeNames(nodes[0], out))
  }

  function MemberNames(members: seq<Member>, out: seq<string>): seq<string>
    decreases members, 0
  {
    if members == [] then out
    else MemberNames(members[1..], if members[0].ty.Some? then NodeNames(members[0].ty.value, out) else out)
  }

  /** The types of the heritage clauses, type arguments included. */
  function BaseNames(bases: seq<Base>, out: seq<string>): seq<string> {
    if bases == [] then out else
      var named := if bases[0].name.Some? then AddName(out, bases[0].name.value) else out;
      BaseNames(bases[1..], AllNames(bases[0].args, named))
  }

  function TypeNames(d: Decl): seq<string> {
    match d
    case Interface(_, _, members, bases) => MemberNames(members, BaseNames(bases, []))
    case Alias(_, _, ty) => NodeNames(ty, [])
    case Enum(_, _) => []
  }

  function Without(names: seq<string>, globals: set<string>): (r: seq<string>)
    ensures forall n :: n in r <==> n in names && n !in globals
  {
    if names == [] then [] else (if names[0] in globals then [] else [names[0]]) + Without(names[1..], globals)
  }

  // ---------- The references of a declaration, without collecting them ----------

  /** `part` stands directly in `node`. */
  ghost predicate Directly(node: TypeNode, part: TypeNode) {
    match node
    case Literal(members) => exists m :: m in members && m.ty == Some(part)
    case Parens(inner) => part == inner
    case Operator(inner, _) => part == inner
    case Intersection(parts) => part in parts
    case Union(parts) => part in parts
    case ArrayOf(element) => part == element
    case Indexed(target, _, indexType) => part == target || part == indexType
    case Reference(_, _, args, _) => part in args
    case Other(children) => part in children
  }

  ghost predicate GoesDown(path: seq<TypeNode>) {
    path != [] && forall i :: 0 <= i < |path| - 1 ==> Directly(path[i], path[i + 1])
  }

  /** `node` is a reference to that name, or one stands in it at some depth. */
  ghost predicate Names(node: TypeNode, name: string) {
    exists path :: GoesDown(path) && path[0] == node && IsReferenceTo(path[|path| - 1], name)
  }

  ghost predicate IsReferenceTo(node: TypeNode, name: string) {
    node.Reference? && node.name == name
  }

  ghost predicate BaseNamed(base: Base, name: string) {
    base.name == Some(name) || exists arg :: arg in base.args && Names(arg, name)
  }

  /** A reference or a heritage base anywhere in the declaration has that name. */
  ghost predicate Refers(d: Decl, name: string) {
    match d
    case Interface(_, _, members, bases) =>
      || (exists m :: m in members && m.ty.Some? && Names(m.ty.value, name))
      || exists base :: base in bases && BaseNamed(base, name)
    case Alias(_, _, ty) => Names(ty, name)
    case Enum(_, _) => false
  }

  lemma NamesBelow(node: TypeNode, name: string)
    ensures Names(node, name) <==>
      IsReferenceTo(node, name) || exists part :: Directly(node, part) && Names(part, name)
  {
    if IsReferenceTo(node, name) { assert GoesDown([node]); }
    if Names(node, name) {
      var path :| GoesDown(path) && path[0] == node && IsReferenceTo(path[|path| - 1], name);
      if |path| > 1 {
        assert Directly(path[0], path[1]);
        forall i | 0 <= i < |path[1..]| - 1 ensures Directly(path[1..][i], path[1..][i + 1]) {
          assert Directly(path[i + 1], path[i + 2]);
        }
        assert GoesDown(path[1..]) && path[1..][|path[1..]| - 1] == path[|path| - 1];
      }
    }
    forall part | Directly(node, part) && Names(part, name) ensures Names(node, name) {
      var path :| GoesDown(path) && path[0] == part && IsReferenceTo(path[|path| - 1], name);
      var longer := [node] + path;
      forall i | 0 <= i < |longer| - 1 ensures Directly(longer[i], longer[i + 1]) {
        if i > 0 { assert Directly(path[i - 1], path[i]); }
      }
      assert longer[|longer| - 1] == path[|path| - 1];
    }
  }

  /** The walk of a node adds exactly the names of the references in it. */
  lemma {:induction false} NodeNamesAreAll(node: TypeNode, out: seq<string>, name: string)
    ensures name in NodeNames(node, out) <==> name in out || Names(node, name)
    decreases node, 1
  {
    NamesBelow(node, name);
    match node
    case Literal(members) => MemberNamesAreAll(members, out, name);
    case Parens(inner) =>
      NodeNamesAreAll(inner, out, name);
      assert Directly(node, inner);
    case Operator(inner, _) =>
      NodeNamesAreAll(inner, out, name);
      assert Directly(node, inner);
    case Intersection(parts) => AllNamesAreAll(parts, out, name);
    case Union(parts) => AllNamesAreAll(parts, out, name);
    case ArrayOf(element) =>
      NodeNamesAreAll(element, out, name);
      assert Directly(node, element);
    case Indexed(target, _, indexType) =>
      NodeNamesAreAll(target, out, name);
      NodeNamesAreAll(indexType, NodeNames(target, out), name);
      assert Directly(node, target) && Directly(node, indexType);
    case Reference(n, _, args, _) => AllNamesAreAll(args, AddName(out, n), name);
    case Other(children) => AllNamesAreAll(children, out, name);
  }

  lemma {:induction false} AllNamesAreAll(nodes: seq<TypeNode>, out: seq<string>, name: string)
    ensures name in AllNames(nodes, out) <==> name in out || exists node :: node in nodes && Names(node, name)
    decreases nodes, 0
  {
    if nodes != [] {
      NodeNamesAreAll(nodes[0], out, name);
      AllNamesAreAll(nodes[1..], NodeNames(nodes[0], out), name);
      assert nodes == [nodes[0]] + nodes[1..];
    }
  }

  lemma {:induction false} MemberNamesAreAll(members: seq<Member>, out: seq<string>, name: string)
    ensures name in MemberNames(members, out) <==>
      name in out || exists m :: m in members && m.ty.Some? && Names(m.ty.value, name)
    decreases members, 0
  {
    if members != [] {
      var ty := members[0].ty;
      if ty.Some? { NodeNamesAreAll(ty.value, out, name); }
      MemberNamesAreAll(members[1..], if ty.Some? then NodeNames(ty.value, out) else out, name);
      assert members == [members[0]] + members[1..];
    }
  }

  lemma {:induction false} BaseNamesAreAll(bases: seq<Base>, out: seq<string>, name: string)
    ensures name in BaseNames(bases, out) <==> name in out || exists base :: base in bases && BaseNamed(base, name)
  {
    if bases != [] {
      var named := if bases[0].name.Some? then AddName(out, bases[0].name.value) else out;
      AllNamesAreAll(bases[0].args, named, name);
      BaseNamesAreAll(bases[1..], AllNames(bases[0].args, named), name);
      assert name in AllNames(bases[0].args, named) <==> name in out || BaseNamed(bases[0], name);
      assert bases == [bases[0]] + bases[1..];
    }
  }

  /** The collected names of a declaration are exactly the names of its references and heritage bases. */
  lemma TypeNamesAreAll(d: Decl, name: string)
    ensures name in TypeNames(d) <==> Refers(d, name)
  {
    match d
    case Interface(_, _, members, bases) =>
      MemberNamesAreAll(members, BaseNames(bases, []), name);
      BaseNamesAreAll(bases, [], name);
    case Alias(_, _, ty) => NodeNamesAreAll(ty, [], name);
    case Enum(_, _) =>
  }
}
