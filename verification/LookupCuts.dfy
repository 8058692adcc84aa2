/** When a lookup of scripts/gen-config-catalog.ts never meets a visited declaration again, so that its answer is
    exact and it ends exactly when its paths are bounded: no branches of one type, and no bases of one
    interface, lead into one declaration with equally long paths, and no declaration leads back to itself so. */
module LookupCuts {
  import opened Collections
  import opened LookupGuarantees
  import opened LookupTermination
  import opened MemberLookup
  import opened PathPresence
  import opened TypeGraph

  /** A walk from there can enter that declaration with so many steps left. */
  ghost predicate Enters(w: World, c: Config, v: Visit)
    requires Closed(w)
  {
    exists b :: Reachable(w, c, b) && b.place == AtDecl(v.decl) && |b.steps| == v.left > 0
  }

  /** Nothing is entered from both. */
  ghost predicate Apart(a: Config, b: Config, enters: (Config, Visit) -> bool) {
    forall v :: enters(a, v) ==> !enters(b, v)
  }

  /** The declaration is not entered again, and its bases are apart. */
  ghost predicate DeclBranchesApart(w: World, d: DeclId, steps: seq<Step>, enters: (Config, Visit) -> bool)
    requires Closed(w) && Declares(w, d)
  {
    && (forall b :: Moves(w, Config(AtDecl(d), steps), b) ==> !enters(b, Visit(d, |steps|)))
    && (DeclOf(w, d).Interface? ==> BasesApart(w, d.file, DeclOf(w, d).bases, steps, enters))
  }

  ghost predicate BasesApart(w: World, f: FileId, bases: seq<Base>, steps: seq<Step>, enters: (Config, Visit) -> bool)
    requires Closed(w) && f in w
  {
    forall i, j, a, b ::
      0 <= i < j < |bases| && MovesToBase(w, f, bases[i], steps, a) && MovesToBase(w, f, bases[j], steps, b) ==>
      Apart(a, b, enters)
  }

  ghost predicate PartsApart(f: FileId, parts: seq<TypeNode>, steps: seq<Step>, enters: (Config, Visit) -> bool) {
    forall i, j :: 0 <= i < j < |parts| ==>
      Apart(Config(AtType(f, parts[i]), steps), Config(AtType(f, parts[j]), steps), enters)
  }

  ghost predicate BranchesApart(w: World, c: Config, enters: (Config, Visit) -> bool)
    requires Closed(w)
  {
    Lies(w, c.place) && c.steps != [] ==>
      match c.place
      case AtDecl(d) => DeclBranchesApart(w, d, c.steps, enters)
      case AtType(f, node) =>
        && (node.Intersection? ==> PartsApart(f, node.parts, c.steps, enters))
        && (node.Union? ==> PartsApart(f, node.parts, c.steps, enters))
  }

  ghost function EntersIn(w: World): (Config, Visit) -> bool
    requires Closed(w)
  {
    (c, v) => Enters(w, c, v)
  }

  /** So it is wherever the walk can come. */
  ghost predicate TreeLike(w: World, d: DeclId, steps: seq<Step>)
    requires Closed(w)
  {
    forall c :: Reachable(w, Config(AtDecl(d), steps), c) ==> BranchesApart(w, c, EntersIn(w))
  }

  // ---------- Such walks are never cut ----------

  /** What the proof needs to know of the configurations that can be reached and of what they enter. */
  ghost predicate Rules(w: World, inv: Config -> bool, enters: (Config, Visit) -> bool)
    requires Closed(w)
  {
    && (forall a, b :: inv(a) && Moves(w, a, b) ==> inv(b))
    && (forall a, b, v :: Moves(w, a, b) && enters(b, v) ==> enters(a, v))
    && (forall d, steps :: steps != [] ==> enters(Config(AtDecl(d), steps), Visit(d, |steps|)))
    && (forall a :: inv(a) ==> BranchesApart(w, a, enters))
  }

  ghost predicate Fresh(c: Config, seen: set<Visit>, enters: (Config, Visit) -> bool) {
    forall v :: v in seen ==> !enters(c, v)
  }

  /** Nothing was cut, and only what `c` enters was visited. */
  ghost predicate Uncut(c: Config, before: Walk, after: Walk, enters: (Config, Visit) -> bool) {
    !after.cut && forall v :: v in after.seen && v !in before.seen ==> enters(c, v)
  }

  lemma Step(w: World, a: Config, b: Config, seen: set<Visit>, inv: Config -> bool, enters: (Config, Visit) -> bool)
    requires Closed(w) && Rules(w, inv, enters) && inv(a) && Moves(w, a, b) && Fresh(a, seen, enters)
    ensures inv(b) && Fresh(b, seen, enters)
  {
  }

  lemma StepBack(w: World, a: Config, b: Config, before: Walk, after: Walk, inv: Config -> bool,
                 enters: (Config, Visit) -> bool)
    requires Closed(w) && Rules(w, inv, enters) && Moves(w, a, b) && Uncut(b, before, after, enters)
    ensures Uncut(a, before, after, enters)
  {
  }

  lemma Enter(w: World, d: DeclId, steps: seq<Step>, st: Walk, inv: Config -> bool, enters: (Config, Visit) -> bool)
    requires Closed(w) && Declares(w, d) && Rules(w, inv, enters) && steps != []
    requires inv(Config(AtDecl(d), steps)) && Fresh(Config(AtDecl(d), steps), st.seen, enters)
    ensures Visit(d, |steps|) !in st.seen && DeclBranchesApart(w, d, steps, enters)
    ensures forall b :: Moves(w, Config(AtDecl(d), steps), b) ==>
      inv(b) && Fresh(b, st.seen + {Visit(d, |steps|)}, enters)
  {
    assert BranchesApart(w, Config(AtDecl(d), steps), enters);
  }

  lemma Leave(c: Config, visit: Visit, before: Walk, after: Walk, enters: (Config, Visit) -> bool)
    requires enters(c, visit) && Uncut(c, before.(seen := before.seen + {visit}), after, enters)
    ensures Uncut(c, before, after, enters)
  {
  }

  lemma {:induction false} DeclUncut(w: World, d: DeclId, steps: seq<Step>, st: Walk, cap: nat, inv: Config -> bool,
                                     enters: (Config, Visit) -> bool)
    requires Closed(w) && Declares(w, d) && |steps| <= cap && Rules(w, inv, enters) && !st.cut
    requires inv(Config(AtDecl(d), steps)) && Fresh(Config(AtDecl(d), steps), st.seen, enters)
    ensures Uncut(Config(AtDecl(d), steps), st, LookupDecl(w, d, steps, st, cap).walk, enters)
    decreases Unseen(w, cap, st), 0
  {
    var here, visit := Config(AtDecl(d), steps), Visit(d, |steps|);
    if steps != [] && !DeclOf(w, d).Enum? {
      Enter(w, d, steps, st, inv, enters);
      Shrinks(Visits(w, cap), st.seen, visit);
      var st' := st.(seen := st.seen + {visit});
      var r := LookupDecl(w, d, steps, st, cap);
      match DeclOf(w, d)
      case Alias(_, _, ty) =>
        var next := Config(AtType(d.file, ty), steps);
        assert Moves(w, here, next);
        TypeUncut(w, d.file, ty, steps, st', cap, inv, enters);
        StepBack(w, here, next, st', r.walk, inv, enters);
      case Interface(_, _, members, bases) =>
        if steps[0].Field? { InterfaceUncut(w, d, here, st', cap, inv, enters); }
    }
    if steps != [] && !DeclOf(w, d).Enum? { Leave(here, visit, st, LookupDecl(w, d, steps, st, cap).walk, enters); }
  }

  /** What an interface is asked, once it is entered. */
  function Inside(w: World, d: DeclId, steps: seq<Step>, st: Walk, cap: nat): Walk
    requires Closed(w) && Declares(w, d) && DeclOf(w, d).Interface? && 0 < |steps| <= cap && steps[0].Field?
  {
    if FindMember(DeclOf(w, d).members, steps[0].name).Some?
      then LookupMember(w, d.file, DeclOf(w, d).members, steps, st, cap).walk
    else LookupBases(w, d.file, DeclOf(w, d).bases, steps, st, cap).walk
  }

  lemma {:induction false} InterfaceUncut(w: World, d: DeclId, here: Config, st: Walk, cap: nat, inv: Config -> bool,
                                          enters: (Config, Visit) -> bool)
    requires Closed(w) && Declares(w, d) && DeclOf(w, d).Interface? && Rules(w, inv, enters) && !st.cut
    requires here.place == AtDecl(d) && 0 < |here.steps| <= cap && here.steps[0].Field?
    requires DeclBranchesApart(w, d, here.steps, enters)
    requires forall b :: Moves(w, here, b) ==> inv(b) && Fresh(b, st.seen, enters)
    ensures Uncut(here, st, Inside(w, d, here.steps, st, cap), enters)
    decreases Unseen(w, cap, st), 1, DeclOf(w, d), 3
  {
    var members, bases := DeclOf(w, d).members, DeclOf(w, d).bases;
    if FindMember(members, here.steps[0].name).Some? {
      MemberUncut(w, d.file, members, here, st, cap, inv, enters);
    } else {
      BasesUncut(w, d.file, bases, 0, here, st, cap, inv, enters);
      assert bases[0..] == bases;
    }
  }

  lemma {:induction false} MemberUncut(w: World, f: FileId, members: seq<Member>, here: Config, st: Walk, cap: nat,
                                       inv: Config -> bool, enters: (Config, Visit) -> bool)
    requires Closed(w) && f in w && 0 < |here.steps| <= cap && here.steps[0].Field? && Rules(w, inv, enters) && !st.cut
    requires FindMember(members, here.steps[0].name).Some?
    requires forall b :: MovesToMember(f, members, here.steps, b) ==>
      Moves(w, here, b) && inv(b) && Fresh(b, st.seen, enters)
    ensures Uncut(here, st, LookupMember(w, f, members, here.steps, st, cap).walk, enters)
    decreases Unseen(w, cap, st), 1, members, 2
  {
    var m := members[FindMember(members, here.steps[0].name).value];
    if |here.steps| > 1 && m.ty.Some? {
      var next := Config(AtType(f, m.ty.value), here.steps[1..]);
      assert MovesToMember(f, members, here.steps, next);
      TypeUncut(w, f, m.ty.value, here.steps[1..], st, cap, inv, enters);
      StepBack(w, here, next, st, LookupMember(w, f, members, here.steps, st, cap).walk, inv, enters);
    }
  }

  lemma {:induction false} InnerUncut(w: World, here: Config, inner: TypeNode, steps: seq<Step>, st: Walk, cap: nat,
                                      inv: Config -> bool, enters: (Config, Visit) -> bool)
    requires Closed(w) && |steps| <= cap && Rules(w, inv, enters) && !st.cut
    requires here.place.AtType? && here.place.file in w && inner < here.place.node && inv(here)
    requires Fresh(here, st.seen, enters)
    requires Moves(w, here, Config(AtType(here.place.file, inner), steps))
    ensures Uncut(here, st, LookupType(w, here.place.file, inner, steps, st, cap).walk, enters)
    decreases Unseen(w, cap, st), 1, inner, 2
  {
    var next := Config(AtType(here.place.file, inner), steps);
    Step(w, here, next, st.seen, inv, enters);
    TypeUncut(w, here.place.file, inner, steps, st, cap, inv, enters);
    StepBack(w, here, next, st, LookupType(w, here.place.file, inner, steps, st, cap).walk, inv, enters);
  }

  lemma {:induction false} TypeUncut(w: World, f: FileId, node: TypeNode, steps: seq<Step>, st: Walk, cap: nat,
                                     inv: Config -> bool, enters: (Config, Visit) -> bool)
    requires Closed(w) && f in w && |steps| <= cap && Rules(w, inv, enters) && !st.cut
    requires inv(Config(AtType(f, node), steps)) && Fresh(Config(AtType(f, node), steps), st.seen, enters)
    ensures Uncut(Config(AtType(f, node), steps), st, LookupType(w, f, node, steps, st, cap).walk, enters)
    decreases Unseen(w, cap, st), 1, node, 1
  {
    if steps != [] {
      var here := Config(AtType(f, node), steps);
      match node
      case Literal(members) =>
        if steps[0].Field? && FindMember(members, steps[0].name).Some? {
          forall b | MovesToMember(f, members, steps, b)
            ensures Moves(w, here, b) && inv(b) && Fresh(b, st.seen, enters)
          {
            Step(w, here, b, st.seen, inv, enters);
          }
          MemberUncut(w, f, members, here, st, cap, inv, enters);
        }
      case Parens(inner) => InnerUncut(w, here, inner, steps, st, cap, inv, enters);
      case Operator(inner, _) => InnerUncut(w, here, inner, steps, st, cap, inv, enters);
      case Intersection(parts) =>
        PartsAreBranches(w, here, parts, st, inv, enters);
        PartsUncut(w, f, parts, 0, here, st, cap, inv, enters);
      case Union(parts) =>
        PartsAreBranches(w, here, parts, st, inv, enters);
        PartsUncut(w, f, parts, 0, here, st, cap, inv, enters);
      case ArrayOf(element) => if steps[0].Element? { InnerUncut(w, here, element, steps[1..], st, cap, inv, enters); }
      case Indexed(target, index, _) =>
        if index.Some? && |steps| < cap {
          InnerUncut(w, here, target, [Field(index.value)] + steps, st, cap, inv, enters);
        }
      case Reference(_, _, _, _) =>
        match TargetOf(w, f, node) {
          case Through(ty) => InnerUncut(w, here, ty, steps, st, cap, inv, enters);
          case Elements(ty) => if steps[0].Element? { InnerUncut(w, here, ty, steps[1..], st, cap, inv, enters); }
          case Declared(d) =>
            Step(w, here, Config(AtDecl(d), steps), st.seen, inv, enters);
            DeclUncut(w, d, steps, st, cap, inv, enters);
            StepBack(w, here, Config(AtDecl(d), steps), st, LookupDecl(w, d, steps, st, cap).walk, inv, enters);
          case OutOfReach =>
        }
      case Other(_) =>
    }
  }

  /** What holds of the branches that are still to be walked. */
  ghost predicate PartsAhead(w: World, f: FileId, parts: seq<TypeNode>, i: nat, here: Config, st: Walk,
                             inv: Config -> bool, enters: (Config, Visit) -> bool)
    requires Closed(w)
  {
    && PartsApart(f, parts, here.steps, enters)
    && forall j :: i <= j < |parts| ==>
      var c := Config(AtType(f, parts[j]), here.steps); Moves(w, here, c) && inv(c) && Fresh(c, st.seen, enters)
  }

  lemma PartsAreBranches(w: World, here: Config, parts: seq<TypeNode>, st: Walk, inv: Config -> bool,
                         enters: (Config, Visit) -> bool)
    requires Closed(w) && Rules(w, inv, enters) && inv(here) && Fresh(here, st.seen, enters) && here.steps != []
    requires here.place.AtType? && here.place.file in w
    requires (here.place.node == Intersection(parts) || here.place.node == Union(parts))
    ensures PartsAhead(w, here.place.file, parts, 0, here, st, inv, enters)
  {
    assert BranchesApart(w, here, enters);
    forall j | 0 <= j < |parts|
      ensures var c := Config(AtType(here.place.file, parts[j]), here.steps);
        Moves(w, here, c) && inv(c) && Fresh(c, st.seen, enters)
    {
      assert Moves(w, here, Config(AtType(here.place.file, parts[j]), here.steps));
      Step(w, here, Config(AtType(here.place.file, parts[j]), here.steps), st.seen, inv, enters);
    }
  }

  lemma PartsStillAhead(w: World, f: FileId, parts: seq<TypeNode>, i: nat, here: Config, st: Walk, after: Walk,
                        inv: Config -> bool, enters: (Config, Visit) -> bool)
    requires Closed(w) && i < |parts| && PartsAhead(w, f, parts, i, here, st, inv, enters)
    requires Uncut(Config(AtType(f, parts[i]), here.steps), st, after, enters)
    ensures PartsAhead(w, f, parts, i + 1, here, after, inv, enters)
  {
    forall j | i + 1 <= j < |parts|
      ensures var c := Config(AtType(f, parts[j]), here.steps);
        Moves(w, here, c) && inv(c) && Fresh(c, after.seen, enters)
    {
      assert Apart(Config(AtType(f, parts[i]), here.steps), Config(AtType(f, parts[j]), here.steps), enters);
    }
  }

  lemma {:induction false} PartsUncut(w: World, f: FileId, parts: seq<TypeNode>, i: nat, here: Config, st: Walk,
                                      cap: nat, inv: Config -> bool, enters: (Config, Visit) -> bool)
    requires Closed(w) && f in w && 0 < |here.steps| <= cap && Rules(w, inv, enters) && !st.cut && i <= |parts|
    requires PartsAhead(w, f, parts, i, here, st, inv, enters)
    ensures Uncut(here, st, LookupParts(w, f, parts[i..], here.steps, st, cap).walk, enters)
    decreases Unseen(w, cap, st), 1, parts, 0, |parts| - i
  {
    if i < |parts| {
      var c := Config(AtType(f, parts[i]), here.steps);
      var first := LookupType(w, f, parts[i], here.steps, st, cap).walk;
      TypeUncut(w, f, parts[i], here.steps, st, cap, inv, enters);
      StepBack(w, here, c, st, first, inv, enters);
      PartsStillAhead(w, f, parts, i, here, st, first, inv, enters);
      Narrows(Visits(w, cap), st.seen, first.seen);
      PartsUncut(w, f, parts, i + 1, here, first, cap, inv, enters);
      assert parts[i..][1..] == parts[i + 1..];
    }
  }

  ghost predicate BasesAhead(w: World, f: FileId, bases: seq<Base>, i: nat, here: Config, st: Walk, inv: Config -> bool,
                             enters: (Config, Visit) -> bool)
    requires Closed(w) && f in w
  {
    && BasesApart(w, f, bases, here.steps, enters)
    && forall j, c :: i <= j < |bases| && MovesToBase(w, f, bases[j], here.steps, c) ==>
      Moves(w, here, c) && inv(c) && Fresh(c, st.seen, enters)
  }

  lemma BasesStillAhead(w: World, f: FileId, bases: seq<Base>, i: nat, here: Config, c: Config, st: Walk, after: Walk,
                        inv: Config -> bool, enters: (Config, Visit) -> bool)
    requires Closed(w) && f in w && i < |bases| && BasesAhead(w, f, bases, i, here, st, inv, enters)
    requires MovesToBase(w, f, bases[i], here.steps, c) && Uncut(c, st, after, enters)
    ensures BasesAhead(w, f, bases, i + 1, here, after, inv, enters)
  {
    forall j, b | i + 1 <= j < |bases| && MovesToBase(w, f, bases[j], here.steps, b)
      ensures Moves(w, here, b) && inv(b) && Fresh(b, after.seen, enters)
    {
      assert Apart(c, b, enters);
    }
  }

  lemma BaseIsAhead(w: World, f: FileId, bases: seq<Base>, i: nat, here: Config, c: Config, st: Walk,
                    inv: Config -> bool, enters: (Config, Visit) -> bool)
    requires Closed(w) && f in w && i < |bases| && BasesAhead(w, f, bases, i, here, st, inv, enters)
    requires BaseOf(w, f, bases[i]).Some? && c == Config(AtDecl(BaseOf(w, f, bases[i]).value), here.steps)
    ensures MovesToBase(w, f, bases[i], here.steps, c) && Moves(w, here, c) && inv(c) && Fresh(c, st.seen, enters)
  {
    assert MovesToBase(w, f, bases[i], here.steps, c);
  }

  lemma BaseIsSkipped(w: World, f: FileId, bases: seq<Base>, i: nat, here: Config, st: Walk, inv: Config -> bool,
                      enters: (Config, Visit) -> bool)
    requires Closed(w) && f in w && i < |bases| && BasesAhead(w, f, bases, i, here, st, inv, enters)
    ensures BasesAhead(w, f, bases, i + 1, here, st, inv, enters)
  {
  }

  function AfterBase(w: World, f: FileId, base: Base, steps: seq<Step>, st: Walk, cap: nat): Walk
    requires Closed(w) && f in w && |steps| <= cap
    ensures Grows(st, AfterBase(w, f, base, steps, st, cap))
  {
    if BaseOf(w, f, base).None? then st else LookupDecl(w, BaseOf(w, f, base).value, steps, st, cap).walk
  }

  lemma {:induction false} OneBaseUncut(w: World, f: FileId, bases: seq<Base>, i: nat, here: Config, st: Walk, cap: nat,
                                        inv: Config -> bool, enters: (Config, Visit) -> bool)
    requires Closed(w) && f in w && 0 < |here.steps| <= cap && Rules(w, inv, enters) && !st.cut && i < |bases|
    requires BasesAhead(w, f, bases, i, here, st, inv, enters)
    ensures var after := AfterBase(w, f, bases[i], here.steps, st, cap);
      Uncut(here, st, after, enters) && BasesAhead(w, f, bases, i + 1, here, after, inv, enters)
    decreases Unseen(w, cap, st), 1, bases, 0, |bases| - i, 0
  {
    var d := BaseOf(w, f, bases[i]);
    if d.Some? {
      var c := Config(AtDecl(d.value), here.steps);
      var after := LookupDecl(w, d.value, here.steps, st, cap).walk;
      BaseIsAhead(w, f, bases, i, here, c, st, inv, enters);
      DeclUncut(w, d.value, here.steps, st, cap, inv, enters);
      StepBack(w, here, c, st, after, inv, enters);
      BasesStillAhead(w, f, bases, i, here, c, st, after, inv, enters);
    } else {
      BaseIsSkipped(w, f, bases, i, here, st, inv, enters);
    }
  }

  lemma UncutChains(c: Config, a: Walk, b: Walk, d: Walk, enters: (Config, Visit) -> bool)
    requires Uncut(c, a, b, enters) && Uncut(c, b, d, enters)
    ensures Uncut(c, a, d, enters)
  {
  }

  lemma {:induction false} BasesUncut(w: World, f: FileId, bases: seq<Base>, i: nat, here: Config, st: Walk, cap: nat,
                                      inv: Config -> bool, enters: (Config, Visit) -> bool)
    requires Closed(w) && f in w && 0 < |here.steps| <= cap && Rules(w, inv, enters) && !st.cut && i <= |bases|
    requires BasesAhead(w, f, bases, i, here, st, inv, enters)
    ensures Uncut(here, st, LookupBases(w, f, bases[i..], here.steps, st, cap).walk, enters)
    decreases Unseen(w, cap, st), 1, bases, 0, |bases| - i
  {
    if i < |bases| {
      var first := AfterBase(w, f, bases[i], here.steps, st, cap);
      OneBaseUncut(w, f, bases, i, here, st, cap, inv, enters);
      Narrows(Visits(w, cap), st.seen, first.seen);
      BasesUncut(w, f, bases, i + 1, here, first, cap, inv, enters);
      BasesFrom(w, f, bases, i, here.steps, st, cap);
      UncutChains(here, st, first, LookupBases(w, f, bases[i..], here.steps, st, cap).walk, enters);
    }
  }

  lemma BasesFrom(w: World, f: FileId, bases: seq<Base>, i: nat, steps: seq<Step>, st: Walk, cap: nat)
    requires Closed(w) && f in w && |steps| <= cap && i < |bases|
    ensures LookupBases(w, f, bases[i..], steps, st, cap).walk ==
      LookupBases(w, f, bases[i + 1..], steps, AfterBase(w, f, bases[i], steps, st, cap), cap).walk
  {
    assert bases[i..][1..] == bases[i + 1..];
  }

  // ---------- From the declaration graph ----------

  lemma EntersThrough(w: World, a: Config, b: Config, v: Visit)
    requires Closed(w) && Moves(w, a, b) && Enters(w, b, v)
    ensures Enters(w, a, v)
  {
    var c :| Reachable(w, b, c) && c.place == AtDecl(v.decl) && |c.steps| == v.left > 0;
    var t: seq<Config> :| Trace(w, b, t, c);
    assert Trace(w, a, [a] + t, c);
  }

  lemma EntersItself(w: World, d: DeclId, steps: seq<Step>)
    requires Closed(w) && steps != []
    ensures Enters(w, Config(AtDecl(d), steps), Visit(d, |steps|))
  {
    StartIsReachable(w, Config(AtDecl(d), steps));
  }

  /** A lookup in a tree-like graph is never cut, if it has not been entered before. */
  lemma TreeLikeIsUncut(w: World, d: DeclId, steps: seq<Step>, seen: set<Visit>, cap: nat)
    requires Closed(w) && Declares(w, d) && |steps| <= cap && TreeLike(w, d, steps)
    requires forall v :: v in seen ==> !Enters(w, Config(AtDecl(d), steps), v)
    ensures !LookupDecl(w, d, steps, Walk(seen, false, false), cap).walk.cut
  {
    var start, enters := Config(AtDecl(d), steps), EntersIn(w);
    var inv := (c: Config) => Reachable(w, start, c);
    forall a, b | inv(a) && Moves(w, a, b) ensures inv(b) { ReachableMoves(w, start, a, b); }
    forall a, b, v | Moves(w, a, b) && enters(b, v) ensures enters(a, v) { EntersThrough(w, a, b, v); }
    forall e, left: seq<Step> | left != [] ensures enters(Config(AtDecl(e), left), Visit(e, |left|)) {
      EntersItself(w, e, left);
    }
    assert Rules(w, inv, enters);
    StartIsReachable(w, start);
    DeclUncut(w, d, steps, Walk(seen, false, false), cap, inv, enters);
  }

  /** There a lookup ends exactly when its paths are bounded, */
  lemma TreeLikeTerminatesIff(w: World, d: DeclId, steps: seq<Step>, seen: set<Visit>)
    requires Closed(w) && Declares(w, d) && TreeLike(w, d, steps)
    requires forall v :: v in seen ==> !Enters(w, Config(AtDecl(d), steps), v)
    ensures Terminates(w, d, steps, seen) <==> exists cap: nat :: BoundedPaths(w, d, steps, cap)
  {
    forall cap: nat | |steps| <= cap ensures !LookupDecl(w, d, steps, Walk(seen, false, false), cap).walk.cut {
      TreeLikeIsUncut(w, d, steps, seen, cap);
    }
    TerminatesIff(w, d, steps, seen);
  }

  /** and says exactly whether the path is there. */
  lemma TreeLikeIsExact(w: World, d: DeclId, steps: seq<Step>, seen: set<Visit>, cap: nat)
    requires Closed(w) && Declares(w, d) && |steps| <= cap && TreeLike(w, d, steps)
    requires forall v :: v in seen ==> !Enters(w, Config(AtDecl(d), steps), v)
    requires !LookupDecl(w, d, steps, Walk(seen, false, false), cap).walk.deep
    ensures var verdict := LookupDecl(w, d, steps, Walk(seen, false, false), cap).verdict;
      (verdict == Found <==> MustDecl(w, d, steps)) && (verdict == Missing <==> !MayDecl(w, d, steps))
  {
    TreeLikeIsUncut(w, d, steps, seen, cap);
    LookupIsRight(w, d, steps, seen, cap);
  }
}
