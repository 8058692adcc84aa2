/** Presence in the program, as against presence under the script's reading of names.  For the language a
    property is its key, however it is written, and methods and index signatures declare keys too; all
    interface declarations of one name in a file are one, together with a class of that name; a name that a
    file declares or imports comes before a global wrapper, and a type parameter before both; and an import is
    what the other file exports.  `lookupPath` of scripts/gen-config-catalog.ts compares names as written,
    takes the first declaration, knows wrappers by name alone, and follows exports in its own order. */
module ProgramMeaning {
  import opened Collections
  import opened LookupGuarantees
  import opened LookupTermination
  import opened MemberLookup
  import opened ModuleExports
  import opened Options
  import opened PathPresence
  import opened TypeGraph

  // ---------- The program with every name resolved ----------

  /** The names that a file declares or imports. */
  function OwnNames(file: File): (names: set<string>)
    ensures forall n :: n in names <==>
      (exists i :: 0 <= i < |file.decls| && file.decls[i].name == n) || n in file.imports || n in file.others
  {
    (set i | 0 <= i < |file.decls| :: file.decls[i].name) + file.imports.Keys + file.others.Keys
  }

  /** Nothing is known of it: any member may be there. */
  const UNSEEN: TypeNode := Other([])

  predicate HasIndex(members: seq<Member>) {
    exists m :: m in members && m.Index?
  }

  function KeyedMember(own: set<string>, m: Member): Member
    decreases m, 0
  {
    match m
    case Property(_, key, ty) => Property(key, key, if ty.Some? then Some(KeyedType(own, ty.value)) else None)
    case Method(key, _) => Property(key, key, None)
    case Index(_) => Index(None)
    case Call(_) => Call(None)
  }

  function KeyedMembers(own: set<string>, members: seq<Member>): (r: seq<Member>)
    ensures |r| == |members|
    ensures forall i :: 0 <= i < |r| ==> r[i] == KeyedMember(own, members[i])
    decreases members, 0
  {
    if members == [] then [] else [KeyedMember(own, members[0])] + KeyedMembers(own, members[1..])
  }

  /** Type arguments are never substituted, so a reference without them is one to a declaration. */
  function KeyedType(own: set<string>, node: TypeNode): TypeNode
    decreases node, 1
  {
    match node
    case Literal(members) =>
      var keyed := Literal(KeyedMembers(own, members));
      if HasIndex(members) then Intersection([keyed, UNSEEN]) else keyed
    case Parens(inner) => Parens(KeyedType(own, inner))
    case Operator(inner, keyOf) => if keyOf then UNSEEN else Operator(KeyedType(own, inner), false)
    case Intersection(parts) => Intersection(KeyedAll(own, parts))
    case Union(parts) => Union(KeyedAll(own, parts))
    case ArrayOf(element) => ArrayOf(KeyedType(own, element))
    case Indexed(target, index, indexType) => Indexed(KeyedType(own, target), index, indexType)
    case Reference(name, qualified, args, parameter) =>
      if parameter then UNSEEN
      else if qualified || name in own then Reference(name, qualified, [], false)
      else Reference(name, false, KeyedAll(own, args), false)
    case Other(children) => Other(children)
  }

  function KeyedAll(own: set<string>, nodes: seq<TypeNode>): (r: seq<TypeNode>)
    ensures |r| == |nodes|
    ensures forall i :: 0 <= i < |r| ==> r[i] == KeyedType(own, nodes[i])
    decreases nodes, 0
  {
    if nodes == [] then [] else [KeyedType(own, nodes[0])] + KeyedAll(own, nodes[1..])
  }

  /** The members of all interfaces of that name. */
  function GroupMembers(decls: seq<Decl>, name: string): seq<Member> {
    if decls == [] then [] else
      (if decls[0].Interface? && decls[0].name == name then decls[0].members else []) + GroupMembers(decls[1..], name)
  }

  function GroupBases(decls: seq<Decl>, name: string): seq<Base> {
    if decls == [] then []
    else (if decls[0].Interface? && decls[0].name == name then decls[0].bases else []) + GroupBases(decls[1..], name)
  }

  /** The interface has an index signature or a class beside it, so any member may be there. */
  predicate IsOpen(file: File, name: string) {
    HasIndex(GroupMembers(file.decls, name)) || name in file.others
  }

  function MeantDecl(file: File, d: Decl): Decl {
    match d
    case Interface(name, exported, _, _) =>
      Interface(name, exported, KeyedMembers(OwnNames(file), GroupMembers(file.decls, name)),
                GroupBases(file.decls, name) + if IsOpen(file, name) then [Base(None, [])] else [])
    case Alias(name, exported, ty) => Alias(name, exported, KeyedType(OwnNames(file), ty))
    case Enum(_, _) => d
  }

  function MeantDecls(file: File, ds: seq<Decl>): (r: seq<Decl>)
    ensures |r| == |ds|
    ensures forall i :: 0 <= i < |r| ==> r[i] == MeantDecl(file, ds[i]) && r[i].name == ds[i].name
  {
    if ds == [] then [] else [MeantDecl(file, ds[0])] + MeantDecls(file, ds[1..])
  }

  lemma SoleIsDeclared(w: World, k: ExportKey, d: DeclId)
    requires SoleExport(w, k, d)
    ensures Declares(w, d) && FindDecl(w[d.file].decls, DeclOf(w, d).name) == Some(d.index)
  {
    var path: seq<ExportKey> :| PassedAlong(w, path) && path[0] == k && IsMeant(w, path[|path| - 1], Shown(d));
    HereIsFirst(w[d.file], path[|path| - 1].name);
  }

  /** An import of a source file, sent to the file whose exported declaration it is. */
  ghost function MeantImport(w: World, imp: Import): (r: Import)
    requires OriginLies(w.Keys, imp.origin)
    ensures OriginLies(w.Keys, r.origin)
  {
    if !imp.origin.RelativeSource? && !imp.origin.WorkspaceSource? then imp else
      match Exported(w, imp.origin.file, imp.imported)
      case Some(d) =>
        SoleIsDeclared(w, ExportKey(imp.origin.file, imp.imported), d);
        Import(DeclOf(w, d).name, imp.specifier, RelativeSource(d.file))
      case None => imp.(origin := External)
  }

  ghost function MeantFile(w: World, file: File): (r: File)
    requires FileLies(w.Keys, file)
    ensures FileLies(w.Keys, r)
    ensures r.decls == MeantDecls(file, file.decls) && r.imports.Keys == file.imports.Keys
    ensures forall n :: n in r.imports ==> r.imports[n] == MeantImport(w, file.imports[n])
  {
    var imports := map n | n in file.imports :: MeantImport(w, file.imports[n]);
    File(MeantDecls(file, file.decls), imports, file.reExports, file.others)
  }

  ghost function Meaning(w: World): (m: World)
    requires Closed(w)
    ensures m.Keys == w.Keys && forall f :: f in w ==> m[f] == MeantFile(w, w[f])
    ensures Closed(m)
  {
    map f | f in w :: MeantFile(w, w[f])
  }

  // ---------- Where the script reads names as the program does ----------

  /** On the name that is compared, what is written and what is meant are the same. */
  predicate MemberAgrees(m: Member, name: string) {
    match m
    case Property(text, key, _) => text == name <==> key == name
    case Method(key, _) => key != name
    case Index(_) => false
    case Call(_) => true
  }

  ghost predicate ListAgrees(members: seq<Member>, name: string) {
    forall m :: m in members ==> MemberAgrees(m, name)
  }

  /** The name is declared in the file or not imported, or its import is found as it is exported. */
  ghost predicate NameAgrees(w: World, f: FileId, name: string)
    requires Closed(w) && f in w
  {
    FindDecl(w[f].decls, name).None? && name in w[f].imports ==>
      match w[f].imports[name].origin
      case RelativeSource(g) => FindExportedTypeDecl(w, g, w[f].imports[name].imported) ==
        Exported(w, g, w[f].imports[name].imported)
      case WorkspaceSource(g) => FindExportedTypeDecl(w, g, w[f].imports[name].imported) ==
        Exported(w, g, w[f].imports[name].imported)
      case _ => true
  }

  predicate IsWrapper(name: string) {
    name in PASSTHROUGH_WRAPPERS || name in {"Array", "ReadonlyArray"}
  }

  /** A wrapper is the global one, a name agrees, and a type parameter is not taken for something else. */
  ghost predicate ReferenceAgrees(w: World, f: FileId, node: TypeNode)
    requires Closed(w) && f in w && node.Reference?
  {
    if node.parameter then TargetOf(w, f, node) == OutOfReach
    else
      && (IsWrapper(node.name) && node.args != [] ==> !node.qualified && node.name !in OwnNames(w[f]))
      && (!node.qualified ==> NameAgrees(w, f, node.name))
  }

  /** The file declares the name once. */
  ghost predicate OnlyDecl(w: World, d: DeclId)
    requires Declares(w, d)
  {
    && DeclOf(w, d).name !in w[d.file].others
    && forall j :: 0 <= j < |w[d.file].decls| && j != d.index ==> w[d.file].decls[j].name != DeclOf(w, d).name
  }

  /** The comparisons of one call agree. */
  ghost predicate Agrees(w: World, c: Config)
    requires Closed(w)
  {
    Lies(w, c.place) && c.steps != [] ==>
      match c.place
      case AtDecl(d) =>
        DeclOf(w, d).Interface? ==>
          && OnlyDecl(w, d) && !HasIndex(DeclOf(w, d).members)
          && (c.steps[0].Field? ==> ListAgrees(DeclOf(w, d).members, c.steps[0].name))
          && forall b :: b in DeclOf(w, d).bases && b.name.Some? ==> NameAgrees(w, d.file, b.name.value)
      case AtType(f, node) =>
        && (node.Literal? ==> !HasIndex(node.members))
        && (node.Literal? && c.steps[0].Field? ==> ListAgrees(node.members, c.steps[0].name))
        && (node.Operator? ==> !node.keyOf)
        && (node.Reference? ==> ReferenceAgrees(w, f, node))
  }

  /** All comparisons that a walk from `d` can come to agree. */
  ghost predicate ReadAsMeant(w: World, d: DeclId, steps: seq<Step>)
    requires Closed(w)
  {
    forall c :: Reachable(w, Config(AtDecl(d), steps), c) ==> Agrees(w, c)
  }

  lemma {:induction false} SameMember(own: set<string>, members: seq<Member>, name: string)
    requires ListAgrees(members, name)
    ensures FindMember(KeyedMembers(own, members), name) == FindMember(members, name)
  {
    if members != [] {
      assert MemberAgrees(members[0], name);
      SameMember(own, members[1..], name);
      assert KeyedMembers(own, members)[1..] == KeyedMembers(own, members[1..]);
    }
  }

  lemma {:induction false} NoGroup(decls: seq<Decl>, name: string)
    requires forall j :: 0 <= j < |decls| ==> decls[j].name != name
    ensures GroupMembers(decls, name) == [] && GroupBases(decls, name) == []
  {
    if decls != [] {
      NoGroup(decls[1..], name);
    }
  }

  lemma {:induction false} OneInGroup(decls: seq<Decl>, i: nat)
    requires i < |decls| && decls[i].Interface?
    requires forall j :: 0 <= j < |decls| && j != i ==> decls[j].name != decls[i].name
    ensures GroupMembers(decls, decls[i].name) == decls[i].members && GroupBases(decls, decls[i].name) == decls[i].bases
  {
    if i == 0 {
      NoGroup(decls[1..], decls[0].name);
    } else {
      OneInGroup(decls[1..], i - 1);
    }
  }

  lemma SameFirst(decls: seq<Decl>, ds: seq<Decl>, name: string)
    requires |decls| == |ds| && forall j :: 0 <= j < |ds| ==> ds[j].name == decls[j].name
    ensures FindDecl(ds, name) == FindDecl(decls, name)
  {
    var a, b := FindDecl(ds, name), FindDecl(decls, name);
    if a.Some? { assert decls[a.value].name == name; }
    if b.Some? { assert ds[b.value].name == name; }
  }

  lemma SameDecl(w: World, f: FileId, name: string)
    requires Closed(w) && f in w
    ensures FindDecl(Meaning(w)[f].decls, name) == FindDecl(w[f].decls, name)
  {
    SameFirst(w[f].decls, Meaning(w)[f].decls, name);
  }

  /** Where a file declares a name itself, a search that starts there ends there. */
  lemma FoundAtOnce(w: World, f: FileId, name: string)
    requires Closed(w) && f in w && FindDecl(w[f].decls, name).Some?
    ensures FindExportedTypeDecl(w, f, name) == Some(DeclId(f, FindDecl(w[f].decls, name).value))
  {
  }

  /** In the program, an import from a source file leads to what is exported there. */
  lemma ImportLeadsTo(w: World, f: FileId, name: string)
    requires Closed(w) && f in w && FindDecl(w[f].decls, name).None? && name in w[f].imports
    requires w[f].imports[name].origin.RelativeSource? || w[f].imports[name].origin.WorkspaceSource?
    ensures DeclForTypeName(Meaning(w), f, name) ==
      Exported(w, w[f].imports[name].origin.file, w[f].imports[name].imported)
  {
    var imp := w[f].imports[name];
    var hit := Exported(w, imp.origin.file, imp.imported);
    SameDecl(w, f, name);
    assert Meaning(w)[f].imports[name] == MeantImport(w, imp);
    if hit.Some? {
      SoleIsDeclared(w, ExportKey(imp.origin.file, imp.imported), hit.value);
      SameDecl(w, hit.value.file, DeclOf(w, hit.value).name);
      FoundAtOnce(Meaning(w), hit.value.file, DeclOf(w, hit.value).name);
    }
  }

  /** A name that agrees resolves to the same declaration in the program. */
  lemma SameName(w: World, f: FileId, name: string)
    requires Closed(w) && f in w && NameAgrees(w, f, name)
    ensures DeclForTypeName(Meaning(w), f, name) == DeclForTypeName(w, f, name)
  {
    SameDecl(w, f, name);
    if FindDecl(w[f].decls, name).None? && name in w[f].imports {
      if w[f].imports[name].origin.RelativeSource? || w[f].imports[name].origin.WorkspaceSource? {
        ImportLeadsTo(w, f, name);
      }
    }
  }

  // ---------- There the walks are the same ----------

  function KeyedDecl(own: set<string>, d: Decl): Decl {
    match d
    case Interface(name, exported, members, bases) => Interface(name, exported, KeyedMembers(own, members), bases)
    case Alias(name, exported, ty) => Alias(name, exported, KeyedType(own, ty))
    case Enum(_, _) => d
  }

  function KeyedTarget(own: set<string>, t: Target): Target {
    match t
    case Through(ty) => Through(KeyedType(own, ty))
    case Elements(ty) => Elements(KeyedType(own, ty))
    case Declared(_) => t
    case OutOfReach => t
  }

  /** The member that the step leads to is the same, and is a property. */
  ghost predicate SameFind(own: set<string>, members: seq<Member>, steps: seq<Step>)
    requires steps != []
  {
    steps[0].Field? ==> FindMember(KeyedMembers(own, members), steps[0].name) == FindMember(members, steps[0].name)
  }

  ghost predicate SameReference(w: World, m: World, f: FileId, node: TypeNode)
    requires Closed(w) && Closed(m) && f in w && f in m && node.Reference?
  {
    if node.parameter then TargetOf(w, f, node) == OutOfReach
    else TargetOf(m, f, KeyedType(OwnNames(w[f]), node)) == KeyedTarget(OwnNames(w[f]), TargetOf(w, f, node))
  }

  /** What one call looks up in `m` is what it looks up in `w`. */
  ghost predicate Mirrors(w: World, m: World, c: Config)
    requires Closed(w) && Closed(m) && m.Keys == w.Keys
  {
    Lies(w, c.place) && c.steps != [] ==>
      match c.place
      case AtDecl(d) =>
        && Declares(m, d) && DeclOf(m, d) == KeyedDecl(OwnNames(w[d.file]), DeclOf(w, d))
        && (DeclOf(w, d).Interface? ==>
            && SameFind(OwnNames(w[d.file]), DeclOf(w, d).members, c.steps)
            && forall b :: b in DeclOf(w, d).bases ==> BaseOf(m, d.file, b) == BaseOf(w, d.file, b))
      case AtType(f, node) =>
        && (node.Literal? ==> !HasIndex(node.members) && SameFind(OwnNames(w[f]), node.members, c.steps))
        && (node.Operator? ==> !node.keyOf)
        && (node.Reference? ==> SameReference(w, m, f, node))
  }

  /** A property of configurations that moves keep, and under which `m` mirrors `w`. */
  ghost predicate Guarded(w: World, m: World, inv: Config -> bool) {
    && Closed(w) && Closed(m) && m.Keys == w.Keys
    && (forall f :: f in w ==> |m[f].decls| == |w[f].decls|)
    && (forall a, b :: inv(a) && Moves(w, a, b) ==> inv(b))
    && (forall a :: inv(a) ==> Mirrors(w, m, a))
  }

  lemma GuardedStep(w: World, m: World, a: Config, b: Config, inv: Config -> bool)
    requires Guarded(w, m, inv) && inv(a) && Moves(w, a, b)
    ensures inv(b)
  {
  }

  lemma {:induction false} SameDeclWalk(w: World, m: World, d: DeclId, steps: seq<Step>, st: Walk, cap: nat,
                                        inv: Config -> bool)
    requires Guarded(w, m, inv) && Declares(w, d) && |steps| <= cap && inv(Config(AtDecl(d), steps))
    ensures Declares(m, d) && LookupDecl(m, d, steps, st, cap) == LookupDecl(w, d, steps, st, cap)
    decreases Unseen(w, cap, st), 0
  {
    var here, visit := Config(AtDecl(d), steps), Visit(d, |steps|);
    assert Mirrors(w, m, here);
    if steps != [] && !DeclOf(w, d).Enum? && visit !in st.seen {
      Shrinks(Visits(w, cap), st.seen, visit);
      var st' := st.(seen := st.seen + {visit});
      match DeclOf(w, d)
      case Alias(_, _, ty) =>
        GuardedStep(w, m, here, Config(AtType(d.file, ty), steps), inv);
        SameTypeWalk(w, m, d.file, ty, steps, st', cap, inv);
      case Interface(_, _, members, bases) =>
        if steps[0].Field? {
          if FindMember(members, steps[0].name).Some? {
            SameMemberWalk(w, m, d.file, members, here, st', cap, inv);
          } else {
            forall i, b | 0 <= i < |bases| && MovesToBase(w, d.file, bases[i], steps, b) ensures inv(b) {
              GuardedStep(w, m, here, b, inv);
            }
            SameBasesWalk(w, m, d.file, bases, steps, st', cap, inv);
          }
        }
    }
  }

  lemma {:induction false} SameMemberWalk(w: World, m: World, f: FileId, members: seq<Member>, here: Config, st: Walk,
                                          cap: nat, inv: Config -> bool)
    requires Guarded(w, m, inv) && f in w && 0 < |here.steps| <= cap && here.steps[0].Field? && inv(here)
    requires Lies(w, here.place)
    requires FindMember(members, here.steps[0].name).Some? && SameFind(OwnNames(w[f]), members, here.steps)
    requires here.place == AtType(f, Literal(members)) ||
      (here.place.AtDecl? && here.place.decl.file == f && DeclOf(w, here.place.decl).Interface? &&
        DeclOf(w, here.place.decl).members == members)
    ensures LookupMember(m, f, KeyedMembers(OwnNames(w[f]), members), here.steps, st, cap) ==
      LookupMember(w, f, members, here.steps, st, cap)
    decreases Unseen(w, cap, st), 1, members, 2
  {
    var p := members[FindMember(members, here.steps[0].name).value];
    if |here.steps| > 1 && p.ty.Some? {
      GuardedStep(w, m, here, Config(AtType(f, p.ty.value), here.steps[1..]), inv);
      SameTypeWalk(w, m, f, p.ty.value, here.steps[1..], st, cap, inv);
    }
  }

  lemma {:induction false} SameTypeWalk(w: World, m: World, f: FileId, node: TypeNode, steps: seq<Step>, st: Walk,
                                        cap: nat, inv: Config -> bool)
    requires Guarded(w, m, inv) && f in w && |steps| <= cap && inv(Config(AtType(f, node), steps))
    ensures LookupType(m, f, KeyedType(OwnNames(w[f]), node), steps, st, cap) == LookupType(w, f, node, steps, st, cap)
    decreases Unseen(w, cap, st), 1, node, 1
  {
    if steps != [] {
      var here := Config(AtType(f, node), steps);
      assert Mirrors(w, m, here);
      match node
      case Literal(members) =>
        if steps[0].Field? && FindMember(members, steps[0].name).Some? {
          SameMemberWalk(w, m, f, members, here, st, cap, inv);
        }
      case Parens(inner) => SameInner(w, m, here, inner, steps, st, cap, inv);
      case Operator(inner, _) => SameInner(w, m, here, inner, steps, st, cap, inv);
      case Intersection(parts) =>
        GuardedParts(w, m, here, parts, inv);
        SamePartsWalk(w, m, f, parts, steps, st, cap, inv);
      case Union(parts) => GuardedParts(w, m, here, parts, inv); SamePartsWalk(w, m, f, parts, steps, st, cap, inv);
      case ArrayOf(element) => if steps[0].Element? { SameInner(w, m, here, element, steps[1..], st, cap, inv); }
      case Indexed(target, index, _) =>
        if index.Some? && |steps| < cap { SameInner(w, m, here, target, [Field(index.value)] + steps, st, cap, inv); }
      case Reference(_, _, _, _) => SameReferenceWalk(w, m, here, steps, st, cap, inv);
      case Other(_) =>
    }
  }

  lemma {:induction false} SameReferenceWalk(w: World, m: World, here: Config, steps: seq<Step>, st: Walk, cap: nat,
                                             inv: Config -> bool)
    requires Guarded(w, m, inv) && here.place.AtType? && here.place.file in w && here.place.node.Reference?
    requires here.steps == steps
    requires 0 < |steps| <= cap && inv(here) && SameReference(w, m, here.place.file, here.place.node)
    ensures var own := OwnNames(w[here.place.file]);
      LookupType(m, here.place.file, KeyedType(own, here.place.node), steps, st, cap) ==
        LookupType(w, here.place.file, here.place.node, steps, st, cap)
    decreases Unseen(w, cap, st), 1, here.place.node, 0
  {
    match TargetOf(w, here.place.file, here.place.node) {
      case Through(ty) => SameInner(w, m, here, ty, steps, st, cap, inv);
      case Elements(ty) => if steps[0].Element? { SameInner(w, m, here, ty, steps[1..], st, cap, inv); }
      case Declared(d) =>
        GuardedStep(w, m, here, Config(AtDecl(d), steps), inv);
        SameDeclWalk(w, m, d, steps, st, cap, inv);
      case OutOfReach =>
    }
  }

  lemma {:induction false} SameInner(w: World, m: World, here: Config, inner: TypeNode, steps: seq<Step>, st: Walk,
                                     cap: nat, inv: Config -> bool)
    requires Guarded(w, m, inv) && |steps| <= cap && inv(here) && here.place.AtType? && here.place.file in w
    requires inner < here.place.node
    requires Moves(w, here, Config(AtType(here.place.file, inner), steps))
    ensures LookupType(m, here.place.file, KeyedType(OwnNames(w[here.place.file]), inner), steps, st, cap) ==
      LookupType(w, here.place.file, inner, steps, st, cap)
    decreases Unseen(w, cap, st), 1, inner, 2
  {
    GuardedStep(w, m, here, Config(AtType(here.place.file, inner), steps), inv);
    SameTypeWalk(w, m, here.place.file, inner, steps, st, cap, inv);
  }

  lemma GuardedParts(w: World, m: World, a: Config, parts: seq<TypeNode>, inv: Config -> bool)
    requires Guarded(w, m, inv) && inv(a) && a.steps != [] && a.place.AtType? && a.place.file in w
    requires a.place.node == Intersection(parts) || a.place.node == Union(parts)
    ensures forall i :: 0 <= i < |parts| ==> inv(Config(AtType(a.place.file, parts[i]), a.steps))
  {
    forall i | 0 <= i < |parts| ensures inv(Config(AtType(a.place.file, parts[i]), a.steps)) {
      assert Moves(w, a, Config(AtType(a.place.file, parts[i]), a.steps));
    }
  }

  lemma {:induction false} SamePartsWalk(w: World, m: World, f: FileId, parts: seq<TypeNode>, steps: seq<Step>,
                                         st: Walk, cap: nat, inv: Config -> bool)
    requires Guarded(w, m, inv) && f in w && |steps| <= cap
    requires forall i :: 0 <= i < |parts| ==> inv(Config(AtType(f, parts[i]), steps))
    ensures LookupParts(m, f, KeyedAll(OwnNames(w[f]), parts), steps, st, cap) ==
      LookupParts(w, f, parts, steps, st, cap)
    decreases Unseen(w, cap, st), 1, parts, 0
  {
    if parts != [] {
      var first := LookupType(w, f, parts[0], steps, st, cap);
      SameTypeWalk(w, m, f, parts[0], steps, st, cap, inv);
      Narrows(Visits(w, cap), st.seen, first.walk.seen);
      SamePartsWalk(w, m, f, parts[1..], steps, first.walk, cap, inv);
      assert KeyedAll(OwnNames(w[f]), parts)[1..] == KeyedAll(OwnNames(w[f]), parts[1..]);
    }
  }

  lemma {:induction false} SameBasesWalk(w: World, m: World, f: FileId, bases: seq<Base>, steps: seq<Step>, st: Walk,
                                         cap: nat, inv: Config -> bool)
    requires Guarded(w, m, inv) && f in w && |steps| <= cap
    requires forall b :: b in bases ==> BaseOf(m, f, b) == BaseOf(w, f, b)
    requires forall i, b :: 0 <= i < |bases| && MovesToBase(w, f, bases[i], steps, b) ==> inv(b)
    ensures LookupBases(m, f, bases, steps, st, cap) == LookupBases(w, f, bases, steps, st, cap)
    decreases Unseen(w, cap, st), 1, bases, 0
  {
    if bases != [] {
      var d := BaseOf(w, f, bases[0]);
      var first := if d.None? then Answer(Unknown, st) else LookupDecl(w, d.value, steps, st, cap);
      assert bases[0] in bases;
      if d.Some? {
        assert MovesToBase(w, f, bases[0], steps, Config(AtDecl(d.value), steps));
        SameDeclWalk(w, m, d.value, steps, st, cap, inv);
      }
      Narrows(Visits(w, cap), st.seen, first.walk.seen);
      SameBasesWalk(w, m, f, bases[1..], steps, first.walk, cap, inv);
    }
  }

  lemma KeyedFirst(own: set<string>, args: seq<TypeNode>)
    ensures KeyedAll(own, args) == [] <==> args == []
    ensures args != [] ==> KeyedAll(own, args)[0] == KeyedType(own, args[0])
  {
  }

  lemma SameTarget(w: World, f: FileId, node: TypeNode)
    requires Closed(w) && f in w && node.Reference? && ReferenceAgrees(w, f, node)
    ensures SameReference(w, Meaning(w), f, node)
  {
    if !node.parameter && !node.qualified { SameName(w, f, node.name); }
    ReferenceMirrors(w, Meaning(w), f, node);
  }

  lemma ReferenceMirrors(w: World, m: World, f: FileId, node: TypeNode)
    requires Closed(w) && Closed(m) && f in w && f in m && node.Reference? && ReferenceAgrees(w, f, node)
    requires !node.parameter && !node.qualified ==> DeclForTypeName(m, f, node.name) == DeclForTypeName(w, f, node.name)
    ensures SameReference(w, m, f, node)
  {
    var own := OwnNames(w[f]);
    if !node.parameter {
      if node.qualified || node.name in own {
        TargetMirrors(w, m, f, own, node, []);
      } else {
        KeyedFirst(own, node.args);
        TargetMirrors(w, m, f, own, node, KeyedAll(own, node.args));
      }
    }
  }

  lemma TargetMirrors(w: World, m: World, f: FileId, own: set<string>, node: TypeNode, args: seq<TypeNode>)
    requires Closed(w) && Closed(m) && f in w && f in m && node.Reference?
    requires IsWrapper(node.name) && node.args != [] ==> args != [] && args[0] == KeyedType(own, node.args[0])
    requires args != [] ==> node.args != []
    requires node.qualified || DeclForTypeName(m, f, node.name) == DeclForTypeName(w, f, node.name)
    ensures TargetOf(m, f, Reference(node.name, node.qualified, args, false)) == KeyedTarget(own, TargetOf(w, f, node))
  {
  }

  lemma DeclMirrors(w: World, d: DeclId, steps: seq<Step>)
    requires Closed(w) && Declares(w, d) && Agrees(w, Config(AtDecl(d), steps))
    ensures Mirrors(w, Meaning(w), Config(AtDecl(d), steps))
  {
    if steps != [] && DeclOf(w, d).Interface? {
      var members, bases := DeclOf(w, d).members, DeclOf(w, d).bases;
      OneInGroup(w[d.file].decls, d.index);
      assert bases + [] == bases;
      if steps[0].Field? { SameMember(OwnNames(w[d.file]), members, steps[0].name); }
      forall b | b in bases ensures BaseOf(Meaning(w), d.file, b) == BaseOf(w, d.file, b) {
        if b.name.Some? { SameName(w, d.file, b.name.value); }
      }
    }
  }

  lemma AgreesMirrors(w: World, c: Config)
    requires Closed(w) && Agrees(w, c)
    ensures Mirrors(w, Meaning(w), c)
  {
    if Lies(w, c.place) && c.steps != [] {
      match c.place
      case AtDecl(d) => DeclMirrors(w, d, c.steps);
      case AtType(f, node) =>
        if node.Literal? && c.steps[0].Field? { SameMember(OwnNames(w[f]), node.members, c.steps[0].name); }
        if node.Reference? { SameTarget(w, f, node); }
    }
  }

  /** Where every comparison that the walk can come to agrees, definite answers are right about the
      program, whatever was visited before, and exact when nothing was cut. */
  lemma RightAboutProgram(w: World, d: DeclId, steps: seq<Step>, seen: set<Visit>, cap: nat)
    requires Closed(w) && Declares(w, d) && |steps| <= cap && ReadAsMeant(w, d, steps)
    requires !LookupDecl(w, d, steps, Walk(seen, false, false), cap).walk.deep
    ensures Declares(Meaning(w), d)
    ensures var a := LookupDecl(w, d, steps, Walk(seen, false, false), cap);
      && (a.verdict == Found ==> MustDecl(Meaning(w), d, steps))
      && (a.verdict == Missing ==> !MayDecl(Meaning(w), d, steps))
      && (!a.walk.cut ==> (a.verdict == Found <==> MustDecl(Meaning(w), d, steps)))
      && (!a.walk.cut ==> (a.verdict == Missing <==> !MayDecl(Meaning(w), d, steps)))
  {
    var start := Config(AtDecl(d), steps);
    var inv := (c: Config) => Reachable(w, start, c);
    forall a, b | inv(a) && Moves(w, a, b) ensures inv(b) {
      ReachableMoves(w, start, a, b);
    }
    forall c | inv(c) ensures Mirrors(w, Meaning(w), c) {
      AgreesMirrors(w, c);
    }
    StartIsReachable(w, start);
    SameDeclWalk(w, Meaning(w), d, steps, Walk(seen, false, false), cap, inv);
    LookupIsRight(Meaning(w), d, steps, seen, cap);
  }
}
