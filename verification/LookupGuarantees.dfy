/** What a caller of `lookupPath` may rely on, as far as names are resolved the way the script does:
    definite answers are right whatever was visited before, and they never contradict each other. */
module LookupGuarantees {
  import opened Collections
  import opened MemberLookup
  import opened PathPresence
  import opened TypeGraph

  // ---------- Soundness and exactness ----------

  /** Whatever the shared set holds, `Found` means the path is on every branch and `Missing` means
      it is on none.  When no visited declaration was met again, the converse holds too, so that
      `Unknown` then means the type itself leaves the question open. */
  lemma LookupIsRight(w: World, d: DeclId, steps: seq<Step>, seen: set<Visit>, cap: nat)
    requires Closed(w) && Declares(w, d) && |steps| <= cap
    requires !LookupDecl(w, d, steps, Walk(seen, false, false), cap).walk.deep
    ensures var a := LookupDecl(w, d, steps, Walk(seen, false, false), cap);
      && (a.verdict == Found ==> MustDecl(w, d, steps))
      && (a.verdict == Missing ==> !MayDecl(w, d, steps))
      && (!a.walk.cut ==> (a.verdict == Found <==> MustDecl(w, d, steps)))
      && (!a.walk.cut ==> (a.verdict == Missing <==> !MayDecl(w, d, steps)))
  {
    DeclRight(w, d, steps, Walk(seen, false, false), cap);
  }

  least lemma MustIsMay[nat](w: World, f: FileId, node: TypeNode, steps: seq<Step>)
    requires Closed(w) && f in w && Must(w, f, node, steps)
    ensures May(w, f, node, steps)
  {
    if steps != [] {
      match node
      case Literal(members) => MustMemberIsMay(w, f, members, steps);
      case Parens(inner) => MustIsMay(w, f, inner, steps);
      case Operator(inner, _) => MustIsMay(w, f, inner, steps);
      case Intersection(parts) => MustSomeIsMay(w, f, parts, steps);
      case Union(parts) => MustAllIsMay(w, f, parts, steps);
      case ArrayOf(element) => MustIsMay(w, f, element, steps[1..]);
      case Indexed(target, index, _) => MustIsMay(w, f, target, [Field(index.value)] + steps);
      case Reference(_, _, _, _) =>
        match TargetOf(w, f, node) {
          case Through(ty) => MustIsMay(w, f, ty, steps);
          case Elements(ty) => MustIsMay(w, f, ty, steps[1..]);
          case Declared(d) => MustDeclIsMay(w, d, steps);
          case OutOfReach =>
        }
      case Other(_) =>
    }
  }

  least lemma MustMemberIsMay[nat](w: World, f: FileId, members: seq<Member>, steps: seq<Step>)
    requires Closed(w) && f in w && steps != [] && steps[0].Field? && MustMember(w, f, members, steps)
    ensures MayMember(w, f, members, steps)
  {
    var m := members[FindMember(members, steps[0].name).value];
    if |steps| > 1 { MustIsMay(w, f, m.ty.value, steps[1..]); }
  }

  least lemma MustSomeIsMay[nat](w: World, f: FileId, parts: seq<TypeNode>, steps: seq<Step>)
    requires Closed(w) && f in w && MustSome(w, f, parts, steps)
    ensures MaySome(w, f, parts, steps)
  {
    if Must#[_k - 1](w, f, parts[0], steps) {
      MustIsMay(w, f, parts[0], steps);
    } else {
      MustSomeIsMay(w, f, parts[1..], steps);
    }
  }

  least lemma MustAllIsMay[nat](w: World, f: FileId, parts: seq<TypeNode>, steps: seq<Step>)
    requires Closed(w) && f in w && MustAll(w, f, parts, steps)
    ensures parts == [] || MaySome(w, f, parts, steps)
  {
    if parts != [] { MustIsMay(w, f, parts[0], steps); }
  }

  least lemma MustBaseIsMay[nat](w: World, f: FileId, bases: seq<Base>, steps: seq<Step>)
    requires Closed(w) && f in w && MustBase(w, f, bases, steps)
    ensures MayBase(w, f, bases, steps)
  {
    if BaseOf(w, f, bases[0]).Some? && MustDecl#[_k - 1](w, BaseOf(w, f, bases[0]).value, steps) {
      MustDeclIsMay(w, BaseOf(w, f, bases[0]).value, steps);
    } else {
      MustBaseIsMay(w, f, bases[1..], steps);
    }
  }

  least lemma MustDeclIsMay[nat](w: World, d: DeclId, steps: seq<Step>)
    requires Closed(w) && Declares(w, d) && MustDecl(w, d, steps)
    ensures MayDecl(w, d, steps)
  {
    if steps != [] {
      match DeclOf(w, d)
      case Enum(_, _) =>
      case Alias(_, _, ty) => MustIsMay(w, d.file, ty, steps);
      case Interface(_, _, members, bases) =>
        if FindMember(members, steps[0].name).Some? {
          MustMemberIsMay(w, d.file, members, steps);
        } else {
          MustBaseIsMay(w, d.file, bases, steps);
        }
    }
  }

  /** A visited set can only turn an answer into `Unknown`: no two walks over the same declaration,
      whatever each had visited before, answer `Found` and `Missing`. */
  lemma VerdictsNeverConflict(w: World, d: DeclId, steps: seq<Step>, seen: set<Visit>, cap: nat, seen': set<Visit>,
                              cap': nat)
    requires Closed(w) && Declares(w, d) && |steps| <= cap && |steps| <= cap'
    requires !LookupDecl(w, d, steps, Walk(seen, false, false), cap).walk.deep
    requires LookupDecl(w, d, steps, Walk(seen, false, false), cap).verdict == Found
    requires !LookupDecl(w, d, steps, Walk(seen', false, false), cap').walk.deep
    ensures LookupDecl(w, d, steps, Walk(seen', false, false), cap').verdict != Missing
  {
    LookupIsRight(w, d, steps, seen, cap);
    LookupIsRight(w, d, steps, seen', cap');
    MustDeclIsMay(w, d, steps);
  }

  // ---------- The cap is only a way to speak about termination ----------

  lemma {:induction false} DeclCapIrrelevant(w: World, d: DeclId, steps: seq<Step>, st: Walk, cap: nat, cap': nat)
    requires Closed(w) && Declares(w, d) && |steps| <= cap <= cap'
    requires !LookupDecl(w, d, steps, st, cap).walk.deep
    ensures LookupDecl(w, d, steps, st, cap') == LookupDecl(w, d, steps, st, cap)
    decreases Unseen(w, cap, st), 0
  {
    var visit := Visit(d, |steps|);
    if steps != [] && !DeclOf(w, d).Enum? && visit !in st.seen {
      Shrinks(Visits(w, cap), st.seen, visit);
      var st' := st.(seen := st.seen + {visit});
      match DeclOf(w, d)
      case Alias(_, _, ty) =>
        TypeCapIrrelevant(w, d.file, ty, steps, st', cap, cap');
      case Interface(_, _, members, bases) =>
        if steps[0].Field? {
          if FindMember(members, steps[0].name).Some? {
            MemberCapIrrelevant(w, d.file, members, steps, st', cap, cap');
          } else {
            BasesCapIrrelevant(w, d.file, bases, steps, st', cap, cap');
          }
        }
    }
  }

  lemma {:induction false} MemberCapIrrelevant(w: World, f: FileId, members: seq<Member>, steps: seq<Step>, st: Walk,
                                               cap: nat, cap': nat)
    requires Closed(w) && f in w && 0 < |steps| <= cap <= cap'
    requires steps[0].Field? && FindMember(members, steps[0].name).Some?
    requires !LookupMember(w, f, members, steps, st, cap).walk.deep
    ensures LookupMember(w, f, members, steps, st, cap') == LookupMember(w, f, members, steps, st, cap)
    decreases Unseen(w, cap, st), 1, members, 0
  {
    var m := members[FindMember(members, steps[0].name).value];
    if |steps| > 1 && m.ty.Some? { TypeCapIrrelevant(w, f, m.ty.value, steps[1..], st, cap, cap'); }
  }

  lemma {:induction false} TypeCapIrrelevant(w: World, f: FileId, node: TypeNode, steps: seq<Step>, st: Walk, cap: nat,
                                             cap': nat)
    requires Closed(w) && f in w && |steps| <= cap <= cap'
    requires !LookupType(w, f, node, steps, st, cap).walk.deep
    ensures LookupType(w, f, node, steps, st, cap') == LookupType(w, f, node, steps, st, cap)
    decreases Unseen(w, cap, st), 1, node, 1
  {
    if steps != [] {
      match node
      case Literal(members) =>
        if steps[0].Field? && FindMember(members, steps[0].name).Some? {
          MemberCapIrrelevant(w, f, members, steps, st, cap, cap');
        }
      case Parens(inner) => TypeCapIrrelevant(w, f, inner, steps, st, cap, cap');
      case Operator(inner, _) => TypeCapIrrelevant(w, f, inner, steps, st, cap, cap');
      case Intersection(parts) => PartsCapIrrelevant(w, f, parts, steps, st, cap, cap');
      case Union(parts) => PartsCapIrrelevant(w, f, parts, steps, st, cap, cap');
      case ArrayOf(element) =>
        if steps[0].Element? { TypeCapIrrelevant(w, f, element, steps[1..], st, cap, cap'); }
      case Indexed(target, index, _) =>
        if index.Some? { TypeCapIrrelevant(w, f, target, [Field(index.value)] + steps, st, cap, cap'); }
      case Reference(_, _, _, _) =>
        match TargetOf(w, f, node) {
          case Through(ty) => TypeCapIrrelevant(w, f, ty, steps, st, cap, cap');
          case Elements(ty) => if steps[0].Element? { TypeCapIrrelevant(w, f, ty, steps[1..], st, cap, cap'); }
          case Declared(d) => DeclCapIrrelevant(w, d, steps, st, cap, cap');
          case OutOfReach =>
        }
      case Other(_) =>
    }
  }

  lemma {:induction false} PartsCapIrrelevant(w: World, f: FileId, parts: seq<TypeNode>, steps: seq<Step>, st: Walk,
                                              cap: nat, cap': nat)
    requires Closed(w) && f in w && |steps| <= cap <= cap'
    requires !LookupParts(w, f, parts, steps, st, cap).walk.deep
    ensures LookupParts(w, f, parts, steps, st, cap') == LookupParts(w, f, parts, steps, st, cap)
    decreases Unseen(w, cap, st), 1, parts, 0
  {
    if parts != [] {
      var first := LookupType(w, f, parts[0], steps, st, cap);
      TypeCapIrrelevant(w, f, parts[0], steps, st, cap, cap');
      Narrows(Visits(w, cap), st.seen, first.walk.seen);
      PartsCapIrrelevant(w, f, parts[1..], steps, first.walk, cap, cap');
    }
  }

  lemma {:induction false} BasesCapIrrelevant(w: World, f: FileId, bases: seq<Base>, steps: seq<Step>, st: Walk,
                                              cap: nat, cap': nat)
    requires Closed(w) && f in w && |steps| <= cap <= cap'
    requires !LookupBases(w, f, bases, steps, st, cap).walk.deep
    ensures LookupBases(w, f, bases, steps, st, cap') == LookupBases(w, f, bases, steps, st, cap)
    decreases Unseen(w, cap, st), 1, bases, 0
  {
    if bases != [] {
      var d := BaseOf(w, f, bases[0]);
      var first := if d.None? then Answer(Unknown, st) else LookupDecl(w, d.value, steps, st, cap);
      if d.Some? { DeclCapIrrelevant(w, d.value, steps, st, cap, cap'); }
      Narrows(Visits(w, cap), st.seen, first.walk.seen);
      BasesCapIrrelevant(w, f, bases[1..], steps, first.walk, cap, cap');
    }
  }
}
