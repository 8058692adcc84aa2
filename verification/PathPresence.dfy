/** What it means for a declared type to have a member path, independently of any walk, and the
    proof that `lookupPath` answers accordingly. */
module PathPresence {
  import opened Collections
  import opened MemberLookup
  import opened TypeGraph

  // ---------- Presence, as least relations over the declaration graph ----------

  /** The path exists on every branch of the type: every union branch, some intersection part, an
      interface's own member before its bases.  Opaque types promise nothing. */
  least predicate Must[nat](w: World, f: FileId, node: TypeNode, steps: seq<Step>)
    requires Closed(w) && f in w
  {
    steps == [] ||
    match node
    case Literal(members) => steps[0].Field? && MustMember(w, f, members, steps)
    case Parens(inner) => Must(w, f, inner, steps)
    case Operator(inner, _) => Must(w, f, inner, steps)
    case Intersection(parts) => MustSome(w, f, parts, steps)
    case Union(parts) => MustAll(w, f, parts, steps)
    case ArrayOf(element) => steps[0].Element? && Must(w, f, element, steps[1..])
    case Indexed(target, index, _) => index.Some? && Must(w, f, target, [Field(index.value)] + steps)
    case Reference(_, _, _, _) =>
      (match TargetOf(w, f, node)
       case Through(ty) => Must(w, f, ty, steps)
       case Elements(ty) => steps[0].Element? && Must(w, f, ty, steps[1..])
       case Declared(d) => MustDecl(w, d, steps)
       case OutOfReach => false)
    case Other(_) => false
  }

  least predicate MustMember[nat](w: World, f: FileId, members: seq<Member>, steps: seq<Step>)
    requires Closed(w) && f in w && steps != [] && steps[0].Field?
  {
    FindMember(members, steps[0].name).Some? &&
    var m := members[FindMember(members, steps[0].name).value];
    |steps| == 1 || (m.ty.Some? && Must(w, f, m.ty.value, steps[1..]))
  }

  least predicate MustDecl[nat](w: World, d: DeclId, steps: seq<Step>)
    requires Closed(w) && Declares(w, d)
  {
    steps == [] ||
    match DeclOf(w, d)
    case Enum(_, _) => false
    case Alias(_, _, ty) => Must(w, d.file, ty, steps)
    case Interface(_, _, members, bases) =>
      steps[0].Field? &&
      if FindMember(members, steps[0].name).Some? then MustMember(w, d.file, members, steps)
      else MustBase(w, d.file, bases, steps)
  }

  least predicate MustSome[nat](w: World, f: FileId, parts: seq<TypeNode>, steps: seq<Step>)
    requires Closed(w) && f in w
  {
    parts != [] && (Must(w, f, parts[0], steps) || MustSome(w, f, parts[1..], steps))
  }

  least predicate MustAll[nat](w: World, f: FileId, parts: seq<TypeNode>, steps: seq<Step>)
    requires Closed(w) && f in w
  {
    parts == [] || (Must(w, f, parts[0], steps) && MustAll(w, f, parts[1..], steps))
  }

  least predicate MustBase[nat](w: World, f: FileId, bases: seq<Base>, steps: seq<Step>)
    requires Closed(w) && f in w
  {
    bases != [] &&
    ((BaseOf(w, f, bases[0]).Some? && MustDecl(w, BaseOf(w, f, bases[0]).value, steps)) ||
      MustBase(w, f, bases[1..], steps))
  }

  /** Some branch of the type may have the path; whatever cannot be enumerated may have anything. */
  least predicate May[nat](w: World, f: FileId, node: TypeNode, steps: seq<Step>)
    requires Closed(w) && f in w
  {
    steps == [] ||
    match node
    case Literal(members) => steps[0].Element? || MayMember(w, f, members, steps)
    case Parens(inner) => May(w, f, inner, steps)
    case Operator(inner, _) => May(w, f, inner, steps)
    case Intersection(parts) => MaySome(w, f, parts, steps)
    case Union(parts) => parts == [] || MaySome(w, f, parts, steps)
    case ArrayOf(element) => steps[0].Field? || May(w, f, element, steps[1..])
    case Indexed(target, index, _) => index.None? || May(w, f, target, [Field(index.value)] + steps)
    case Reference(_, _, _, _) =>
      (match TargetOf(w, f, node)
       case Through(ty) => May(w, f, ty, steps)
       case Elements(ty) => steps[0].Field? || May(w, f, ty, steps[1..])
       case Declared(d) => MayDecl(w, d, steps)
       case OutOfReach => true)
    case Other(_) => true
  }

  least predicate MayMember[nat](w: World, f: FileId, members: seq<Member>, steps: seq<Step>)
    requires Closed(w) && f in w && steps != [] && steps[0].Field?
  {
    FindMember(members, steps[0].name).Some? &&
    var m := members[FindMember(members, steps[0].name).value];
    |steps| == 1 || m.ty.None? || May(w, f, m.ty.value, steps[1..])
  }

  least predicate MayDecl[nat](w: World, d: DeclId, steps: seq<Step>)
    requires Closed(w) && Declares(w, d)
  {
    steps == [] ||
    match DeclOf(w, d)
    case Enum(_, _) => true
    case Alias(_, _, ty) => May(w, d.file, ty, steps)
    case Interface(_, _, members, bases) =>
      steps[0].Element? ||
      if FindMember(members, steps[0].name).Some? then MayMember(w, d.file, members, steps)
      else MayBase(w, d.file, bases, steps)
  }

  least predicate MaySome[nat](w: World, f: FileId, parts: seq<TypeNode>, steps: seq<Step>)
    requires Closed(w) && f in w
  {
    parts != [] && (May(w, f, parts[0], steps) || MaySome(w, f, parts[1..], steps))
  }

  least predicate MayBase[nat](w: World, f: FileId, bases: seq<Base>, steps: seq<Step>)
    requires Closed(w) && f in w
  {
    bases != [] &&
    (BaseOf(w, f, bases[0]).None? || MayDecl(w, BaseOf(w, f, bases[0]).value, steps) ||
      MayBase(w, f, bases[1..], steps))
  }

  // ---------- The walk answers by presence ----------

  /** Definite answers are right; and when no visited declaration was met again, they are given
      whenever there is one to give. */
  ghost predicate Right(a: Answer, must: bool, may: bool) {
    !a.walk.deep ==>
      && (a.verdict == Found ==> must)
      && (a.verdict == Missing ==> !may)
      && (!a.walk.cut && must ==> a.verdict == Found)
      && (!a.walk.cut && !may ==> a.verdict == Missing)
  }

  ghost predicate Only(verdicts: seq<Verdict>, v: Verdict) {
    forall i :: 0 <= i < |verdicts| ==> verdicts[i] == v
  }

  /** The same for the answers of several branches: does some branch have the path, or may have it? */
  ghost predicate SomeRight(r: Answers, must: bool, may: bool) {
    !r.walk.deep ==>
      && (Found in r.verdicts ==> must)
      && (Only(r.verdicts, Missing) ==> !may)
      && (!r.walk.cut && must ==> Found in r.verdicts)
      && (!r.walk.cut && !may ==> Only(r.verdicts, Missing))
  }

  /** And does every branch have it? */
  ghost predicate EveryRight(r: Answers, must: bool) {
    !r.walk.deep ==> (Only(r.verdicts, Found) ==> must) && (!r.walk.cut && must ==> Only(r.verdicts, Found))
  }

  lemma CombineRight(r: Answers, must: bool, may: bool)
    requires SomeRight(r, must, may)
    ensures Right(Answer(Combine(r.verdicts), r.walk), must, may)
  {
    assert Found !in r.verdicts && Unknown !in r.verdicts ==> Only(r.verdicts, Missing);
  }

  lemma AgreeRight(r: Answers, some: bool, every: bool, may: bool)
    requires SomeRight(r, some, may) && EveryRight(r, every)
    ensures Right(Answer(Agree(r.verdicts), r.walk), every, r.verdicts == [] || may)
  {
    assert r.verdicts != [] ==> r.verdicts[0] in r.verdicts;
  }

  lemma OnlyCons(first: Verdict, rest: seq<Verdict>, v: Verdict)
    ensures Only([first] + rest, v) <==> first == v && Only(rest, v)
  {
    var all := [first] + rest;
    assert all[0] == first && all[1..] == rest;
    if Only(all, v) { forall i | 0 <= i < |rest| ensures rest[i] == v { assert all[i + 1] == v; } }
  }

  lemma SomeCons(first: Answer, rest: Answers, must: bool, may: bool, mustRest: bool, mayRest: bool)
    requires Grows(first.walk, rest.walk)
    requires Right(first, must, may) && SomeRight(rest, mustRest, mayRest)
    ensures SomeRight(Answers([first.verdict] + rest.verdicts, rest.walk), must || mustRest, may || mayRest)
  {
    OnlyCons(first.verdict, rest.verdicts, Missing);
  }

  lemma EveryCons(first: Answer, rest: Answers, must: bool, may: bool, mustRest: bool)
    requires Grows(first.walk, rest.walk)
    requires Right(first, must, may) && EveryRight(rest, mustRest)
    ensures EveryRight(Answers([first.verdict] + rest.verdicts, rest.walk), must && mustRest)
  {
    OnlyCons(first.verdict, rest.verdicts, Found);
  }

  lemma {:induction false} DeclRight(w: World, d: DeclId, steps: seq<Step>, st: Walk, cap: nat)
    requires Closed(w) && Declares(w, d) && |steps| <= cap
    ensures Right(LookupDecl(w, d, steps, st, cap), MustDecl(w, d, steps), MayDecl(w, d, steps))
    decreases Unseen(w, cap, st), 0
  {
    var visit := Visit(d, |steps|);
    if steps != [] && !DeclOf(w, d).Enum? && visit !in st.seen {
      Shrinks(Visits(w, cap), st.seen, visit);
      var st' := st.(seen := st.seen + {visit});
      match DeclOf(w, d)
      case Alias(_, _, ty) =>
        TypeRight(w, d.file, ty, steps, st', cap);
      case Interface(_, _, members, bases) =>
        if steps[0].Field? {
          if FindMember(members, steps[0].name).Some? {
            MemberRight(w, d.file, members, steps, st', cap);
          } else {
            BasesRight(w, d.file, bases, steps, st', cap);
            CombineRight(LookupBases(w, d.file, bases, steps, st', cap), MustBase(w, d.file, bases, steps),
              MayBase(w, d.file, bases, steps));
          }
        }
    }
  }

  lemma {:induction false} MemberRight(w: World, f: FileId, members: seq<Member>, steps: seq<Step>, st: Walk, cap: nat)
    requires Closed(w) && f in w && 0 < |steps| <= cap
    requires steps[0].Field? && FindMember(members, steps[0].name).Some?
    ensures Right(LookupMember(w, f, members, steps, st, cap), MustMember(w, f, members, steps),
      MayMember(w, f, members, steps))
    decreases Unseen(w, cap, st), 1, members, 0
  {
    var m := members[FindMember(members, steps[0].name).value];
    if |steps| > 1 && m.ty.Some? { TypeRight(w, f, m.ty.value, steps[1..], st, cap); }
  }

  lemma {:induction false} TypeRight(w: World, f: FileId, node: TypeNode, steps: seq<Step>, st: Walk, cap: nat)
    requires Closed(w) && f in w && |steps| <= cap
    ensures Right(LookupType(w, f, node, steps, st, cap), Must(w, f, node, steps), May(w, f, node, steps))
    decreases Unseen(w, cap, st), 1, node, 1
  {
    if steps != [] {
      match node
      case Literal(members) =>
        if steps[0].Field? {
          if FindMember(members, steps[0].name).Some? {
            MemberRight(w, f, members, steps, st, cap);
          } else {
            assert !MustMember(w, f, members, steps) && !MayMember(w, f, members, steps);
          }
        }
      case Parens(inner) => TypeRight(w, f, inner, steps, st, cap);
      case Operator(inner, _) => TypeRight(w, f, inner, steps, st, cap);
      case Intersection(parts) =>
        PartsRight(w, f, parts, steps, st, cap);
        CombineRight(LookupParts(w, f, parts, steps, st, cap), MustSome(w, f, parts, steps),
          MaySome(w, f, parts, steps));
      case Union(parts) =>
        PartsRight(w, f, parts, steps, st, cap);
        AgreeRight(LookupParts(w, f, parts, steps, st, cap), MustSome(w, f, parts, steps),
          MustAll(w, f, parts, steps), MaySome(w, f, parts, steps));
      case ArrayOf(element) =>
        if steps[0].Element? { TypeRight(w, f, element, steps[1..], st, cap); }
      case Indexed(target, index, _) =>
        if index.Some? && |steps| < cap { TypeRight(w, f, target, [Field(index.value)] + steps, st, cap); }
      case Reference(_, _, _, _) =>
        match TargetOf(w, f, node) {
          case Through(ty) => TypeRight(w, f, ty, steps, st, cap);
          case Elements(ty) => if steps[0].Element? { TypeRight(w, f, ty, steps[1..], st, cap); }
          case Declared(d) => DeclRight(w, d, steps, st, cap);
          case OutOfReach =>
        }
      case Other(_) =>
    }
  }

  lemma {:induction false} PartsRight(w: World, f: FileId, parts: seq<TypeNode>, steps: seq<Step>, st: Walk, cap: nat)
    requires Closed(w) && f in w && |steps| <= cap
    ensures SomeRight(LookupParts(w, f, parts, steps, st, cap), MustSome(w, f, parts, steps),
      MaySome(w, f, parts, steps))
    ensures EveryRight(LookupParts(w, f, parts, steps, st, cap), MustAll(w, f, parts, steps))
    decreases Unseen(w, cap, st), 1, parts, 0
  {
    if parts != [] {
      var first := LookupType(w, f, parts[0], steps, st, cap);
      TypeRight(w, f, parts[0], steps, st, cap);
      Narrows(Visits(w, cap), st.seen, first.walk.seen);
      PartsRight(w, f, parts[1..], steps, first.walk, cap);
      var rest := LookupParts(w, f, parts[1..], steps, first.walk, cap);
      var must, may := Must(w, f, parts[0], steps), May(w, f, parts[0], steps);
      SomeCons(first, rest, must, may, MustSome(w, f, parts[1..], steps), MaySome(w, f, parts[1..], steps));
      EveryCons(first, rest, must, may, MustAll(w, f, parts[1..], steps));
    }
  }

  lemma {:induction false} BasesRight(w: World, f: FileId, bases: seq<Base>, steps: seq<Step>, st: Walk, cap: nat)
    requires Closed(w) && f in w && |steps| <= cap
    ensures SomeRight(LookupBases(w, f, bases, steps, st, cap), MustBase(w, f, bases, steps),
      MayBase(w, f, bases, steps))
    decreases Unseen(w, cap, st), 1, bases, 0
  {
    if bases != [] {
      var d := BaseOf(w, f, bases[0]);
      var first := if d.None? then Answer(Unknown, st) else LookupDecl(w, d.value, steps, st, cap);
      if d.Some? { DeclRight(w, d.value, steps, st, cap); }
      Narrows(Visits(w, cap), st.seen, first.walk.seen);
      BasesRight(w, f, bases[1..], steps, first.walk, cap);
      var must, may := d.Some? && MustDecl(w, d.value, steps), d.None? || MayDecl(w, d.value, steps);
      SomeCons(first, LookupBases(w, f, bases[1..], steps, first.walk, cap), must, may,
               MustBase(w, f, bases[1..], steps), MayBase(w, f, bases[1..], steps));
    }
  }
}
