/** `lookupPath` of scripts/gen-config-catalog.ts: does a declared type have a member at the end of
    a path such as `agents[].id`?  The answer is found, missing or unknown, and a set of visited
    declarations is shared by the whole walk. */
module MemberLookup {
  import opened Collections
  import opened Options
  import opened TypeGraph

  datatype Step = Field(name: string) | Element

  datatype Verdict = Found | Missing | Unknown

  /** A declaration entered with that many steps left. */
  datatype Visit = Visit(decl: DeclId, left: nat)

  /** The shared state of a walk: the visited declarations; whether a visited declaration was ever
      met again (`cut`); whether the path ever grew beyond the cap (`deep`).  The original has no
      cap: its recursion is the walk with `deep` false, for a cap that is large enough. */
  datatype Walk = Walk(seen: set<Visit>, cut: bool, deep: bool)

  datatype Answer = Answer(verdict: Verdict, walk: Walk)

  datatype Answers = Answers(verdicts: seq<Verdict>, walk: Walk)

  ghost predicate Grows(before: Walk, after: Walk) {
    before.seen <= after.seen && (before.cut ==> after.cut) && (before.deep ==> after.deep)
  }

  /** Any found wins, else any unknown taints, else missing. */
  function Combine(verdicts: seq<Verdict>): Verdict {
    if Found in verdicts then Found else if Unknown in verdicts then Unknown else Missing
  }

  /** Presence on a union is definite only when every branch agrees. */
  function Agree(verdicts: seq<Verdict>): Verdict {
    if forall i :: 0 <= i < |verdicts| ==> verdicts[i] == Found then Found
    else if forall i :: 0 <= i < |verdicts| ==> verdicts[i] == Missing then Missing
    else Unknown
  }

  /** The first property whose name, as written, is that one. */
  function FindMember(members: seq<Member>, name: string): (r: Option<nat>)
    ensures r.Some? ==> r.value < |members| && members[r.value].Property? && members[r.value].text == name
    ensures r.Some? ==> forall i :: 0 <= i < r.value && members[i].Property? ==> members[i].text != name
    ensures r.None? ==> forall m :: m in members && m.Property? ==> m.text != name
  {
    if members == [] then None
    else if members[0].Property? && members[0].text == name then Some(0)
    else
      var r := FindMember(members[1..], name);
      if r.Some? then Some(r.value + 1) else None
  }

  const PASSTHROUGH_WRAPPERS: set<string> := {"Partial", "Required", "Readonly", "NonNullable"}

  /** What a type reference stands for. */
  datatype Target = Through(ty: TypeNode) | Elements(ty: TypeNode) | Declared(decl: DeclId) | OutOfReach

  function TargetOf(w: World, f: FileId, node: TypeNode): (t: Target)
    requires Closed(w) && f in w && node.Reference?
    ensures t.Declared? ==> Declares(w, t.decl)
    ensures (t.Through? || t.Elements?) ==> t.ty < node
  {
    if node.name in PASSTHROUGH_WRAPPERS && node.args != [] then Through(node.args[0])
    else if node.name in {"Array", "ReadonlyArray"} && node.args != [] then Elements(node.args[0])
    else if node.qualified then OutOfReach
    else
      var d := DeclForTypeName(w, f, node.name);
      if d.Some? then Declared(d.value) else OutOfReach
  }

  /** The declaration of one heritage base. */
  function BaseOf(w: World, f: FileId, base: Base): (d: Option<DeclId>)
    requires Closed(w) && f in w
    ensures d.Some? ==> Declares(w, d.value)
  {
    if base.name.None? then None else DeclForTypeName(w, f, base.name.value)
  }

  ghost function Visits(w: World, cap: nat): set<Visit> {
    set f, i, n | f in w && 0 <= i < |w[f].decls| && 0 <= n <= cap :: Visit(DeclId(f, i), n)
  }

  ghost function Unseen(w: World, cap: nat, st: Walk): nat {
    |Visits(w, cap) - st.seen|
  }

  // ---------- The walk ----------

  function LookupDecl(w: World, d: DeclId, steps: seq<Step>, st: Walk, cap: nat): (r: Answer)
    requires Closed(w) && Declares(w, d) && |steps| <= cap
    ensures Grows(st, r.walk)
    decreases Unseen(w, cap, st), 0
  {
    if steps == [] then Answer(Found, st) else
      var visit := Visit(d, |steps|);
      match DeclOf(w, d)
      case Enum(_, _) => Answer(Unknown, st)
      case Alias(_, _, ty) =>
        if visit in st.seen then Answer(Unknown, st.(cut := true)) else
          Shrinks(Visits(w, cap), st.seen, visit);
          LookupType(w, d.file, ty, steps, st.(seen := st.seen + {visit}), cap)
      case Interface(_, _, members, bases) =>
        if visit in st.seen then Answer(Unknown, st.(cut := true)) else
          Shrinks(Visits(w, cap), st.seen, visit);
          var st' := st.(seen := st.seen + {visit});
          if steps[0].Element? then Answer(Unknown, st')
          else if FindMember(members, steps[0].name).Some? then LookupMember(w, d.file, members, steps, st', cap)
          else
            var r := LookupBases(w, d.file, bases, steps, st', cap);
            Answer(Combine(r.verdicts), r.walk)
  }

  function LookupMember(w: World, f: FileId, members: seq<Member>, steps: seq<Step>, st: Walk, cap: nat): (r: Answer)
    requires Closed(w) && f in w && 0 < |steps| <= cap
    requires steps[0].Field? && FindMember(members, steps[0].name).Some?
    ensures Grows(st, r.walk)
    decreases Unseen(w, cap, st), 1, members, 0
  {
    var m := members[FindMember(members, steps[0].name).value];
    if |steps| == 1 then Answer(Found, st)
    else if m.ty.None? then Answer(Unknown, st)
    else LookupType(w, f, m.ty.value, steps[1..], st, cap)
  }

  function LookupType(w: World, f: FileId, node: TypeNode, steps: seq<Step>, st: Walk, cap: nat): (r: Answer)
    requires Closed(w) && f in w && |steps| <= cap
    ensures Grows(st, r.walk)
    decreases Unseen(w, cap, st), 1, node, 1
  {
    if steps == [] then Answer(Found, st) else
      match node
      case Literal(members) =>
        if steps[0].Element? then Answer(Unknown, st)
        else if FindMember(members, steps[0].name).None? then Answer(Missing, st)
        else LookupMember(w, f, members, steps, st, cap)
      case Parens(inner) => LookupType(w, f, inner, steps, st, cap)
      case Operator(inner, _) => LookupType(w, f, inner, steps, st, cap)
      case Intersection(parts) =>
        var r := LookupParts(w, f, parts, steps, st, cap);
        Answer(Combine(r.verdicts), r.walk)
      case Union(parts) =>
        var r := LookupParts(w, f, parts, steps, st, cap);
        Answer(Agree(r.verdicts), r.walk)
      case ArrayOf(element) =>
        if steps[0].Element? then LookupType(w, f, element, steps[1..], st, cap) else Answer(Unknown, st)
      case Indexed(target, index, _) =>
        if index.None? then Answer(Unknown, st)
        else if |steps| == cap then Answer(Unknown, st.(deep := true))
        else LookupType(w, f, target, [Field(index.value)] + steps, st, cap)
      case Reference(_, _, _, _) =>
        (match TargetOf(w, f, node)
         case Through(ty) => LookupType(w, f, ty, steps, st, cap)
         case Elements(ty) =>
           if steps[0].Element? then LookupType(w, f, ty, steps[1..], st, cap) else Answer(Unknown, st)
         case Declared(d) => LookupDecl(w, d, steps, st, cap)
         case OutOfReach => Answer(Unknown, st))
      case Other(_) => Answer(Unknown, st)
  }

  function LookupParts(w: World, f: FileId, parts: seq<TypeNode>, steps: seq<Step>, st: Walk, cap: nat): (r: Answers)
    requires Closed(w) && f in w && |steps| <= cap
    ensures Grows(st, r.walk) && |r.verdicts| == |parts|
    decreases Unseen(w, cap, st), 1, parts, 0
  {
    if parts == [] then Answers([], st) else
      var first := LookupType(w, f, parts[0], steps, st, cap);
      Narrows(Visits(w, cap), st.seen, first.walk.seen);
      var rest := LookupParts(w, f, parts[1..], steps, first.walk, cap);
      Answers([first.verdict] + rest.verdicts, rest.walk)
  }

  function LookupBases(w: World, f: FileId, bases: seq<Base>, steps: seq<Step>, st: Walk, cap: nat): (r: Answers)
    requires Closed(w) && f in w && |steps| <= cap
    ensures Grows(st, r.walk) && |r.verdicts| == |bases|
    decreases Unseen(w, cap, st), 1, bases, 0
  {
    if bases == [] then Answers([], st) else
      var d := BaseOf(w, f, bases[0]);
      var first := if d.None? then Answer(Unknown, st) else LookupDecl(w, d.value, steps, st, cap);
      Narrows(Visits(w, cap), st.seen, first.walk.seen);
      var rest := LookupBases(w, f, bases[1..], steps, first.walk, cap);
      Answers([first.verdict] + rest.verdicts, rest.walk)
  }

  // ---------- References ----------

  ghost predicate BaseDenotes(w: World, f: FileId, base: Base, d: DeclId)
    requires Closed(w)
  {
    base.name.Some? && Denotes(w, f, base.name.value, d)
  }

  lemma BaseIff(w: World, f: FileId, base: Base, d: DeclId)
    requires Closed(w) && f in w
    ensures BaseOf(w, f, base) == Some(d) <==> BaseDenotes(w, f, base, d)
  {
    if base.name.Some? { DenotesIff(w, f, base.name.value, d); }
  }

  /** The four utility types are looked through, whatever they are applied to. */
  lemma WrappersAreTransparent(w: World, f: FileId, node: TypeNode, steps: seq<Step>, st: Walk, cap: nat)
    requires Closed(w) && f in w && |steps| <= cap && node.Reference? && node.args != []
    requires node.name in {"Partial", "Required", "Readonly", "NonNullable"}
    ensures LookupType(w, f, node, steps, st, cap) == LookupType(w, f, node.args[0], steps, st, cap)
  {
  }

  /** `Array<T>` and `ReadonlyArray<T>` are looked up as `T[]` is. */
  lemma ArraysAreAlike(w: World, f: FileId, node: TypeNode, steps: seq<Step>, st: Walk, cap: nat)
    requires Closed(w) && f in w && |steps| <= cap && node.Reference? && node.args != []
    requires node.name in {"Array", "ReadonlyArray"}
    ensures LookupType(w, f, node, steps, st, cap) == LookupType(w, f, ArrayOf(node.args[0]), steps, st, cap)
  {
  }

  /** Any other reference is looked up in the declaration that its name denotes, and unknown without one. */
  lemma NamesAreFollowed(w: World, f: FileId, node: TypeNode, steps: seq<Step>, st: Walk, cap: nat)
    requires Closed(w) && f in w && 0 < |steps| <= cap && node.Reference?
    requires node.args == [] ||
      node.name !in {"Partial", "Required", "Readonly", "NonNullable", "Array", "ReadonlyArray"}
    ensures !node.qualified ==> forall d :: Denotes(w, f, node.name, d) ==>
      Declares(w, d) && LookupType(w, f, node, steps, st, cap) == LookupDecl(w, d, steps, st, cap)
    ensures node.qualified || (forall d :: !Denotes(w, f, node.name, d)) ==>
      LookupType(w, f, node, steps, st, cap) == Answer(Unknown, st)
  {
    forall d | Denotes(w, f, node.name, d) ensures DeclForTypeName(w, f, node.name) == Some(d) {
      DenotesIff(w, f, node.name, d);
    }
    if DeclForTypeName(w, f, node.name).Some? {
      DenotesIff(w, f, node.name, DeclForTypeName(w, f, node.name).value);
    }
  }
}
