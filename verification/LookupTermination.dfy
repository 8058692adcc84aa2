/** When the recursion of `lookupPath` in scripts/gen-config-catalog.ts ends: an indexed access makes the
    path longer, and visited declarations are told apart by the length of the path that is left. */
module LookupTermination {
  import opened Collections
  import opened MemberLookup
  import opened TypeGraph

  // ---------- Where a walk can get ----------

  datatype Place = AtDecl(decl: DeclId) | AtType(file: FileId, node: TypeNode)

  /** A place and the steps that are left there. */
  datatype Config = Config(place: Place, steps: seq<Step>)

  ghost predicate Lies(w: World, p: Place) {
    match p case AtDecl(d) => Declares(w, d) case AtType(f, _) => f in w
  }

  /** One recursive call, whatever was visited. */
  ghost predicate Moves(w: World, a: Config, b: Config)
    requires Closed(w)
  {
    Lies(w, a.place) && a.steps != [] &&
    match a.place
    case AtDecl(d) => MovesFromDecl(w, d, a.steps, b)
    case AtType(f, node) => MovesFromType(w, f, node, a.steps, b)
  }

  ghost predicate MovesFromDecl(w: World, d: DeclId, steps: seq<Step>, b: Config)
    requires Closed(w) && Declares(w, d) && steps != []
  {
    match DeclOf(w, d)
    case Enum(_, _) => false
    case Alias(_, _, ty) => b == Config(AtType(d.file, ty), steps)
    case Interface(_, _, members, bases) =>
      steps[0].Field? &&
      if FindMember(members, steps[0].name).Some? then MovesToMember(d.file, members, steps, b)
      else exists i :: 0 <= i < |bases| && MovesToBase(w, d.file, bases[i], steps, b)
  }

  ghost predicate MovesToBase(w: World, f: FileId, base: Base, steps: seq<Step>, b: Config)
    requires Closed(w) && f in w
  {
    BaseOf(w, f, base).Some? && b == Config(AtDecl(BaseOf(w, f, base).value), steps)
  }

  ghost predicate MovesToMember(f: FileId, members: seq<Member>, steps: seq<Step>, b: Config)
    requires steps != [] && steps[0].Field?
  {
    FindMember(members, steps[0].name).Some? &&
    var m := members[FindMember(members, steps[0].name).value];
    |steps| > 1 && m.ty.Some? && b == Config(AtType(f, m.ty.value), steps[1..])
  }

  ghost predicate MovesFromType(w: World, f: FileId, node: TypeNode, steps: seq<Step>, b: Config)
    requires Closed(w) && f in w && steps != []
  {
    match node
    case Literal(members) => steps[0].Field? && MovesToMember(f, members, steps, b)
    case Parens(inner) => b == Config(AtType(f, inner), steps)
    case Operator(inner, _) => b == Config(AtType(f, inner), steps)
    case Intersection(parts) => exists i :: 0 <= i < |parts| && b == Config(AtType(f, parts[i]), steps)
    case Union(parts) => exists i :: 0 <= i < |parts| && b == Config(AtType(f, parts[i]), steps)
    case ArrayOf(element) => steps[0].Element? && b == Config(AtType(f, element), steps[1..])
    case Indexed(target, index, _) => index.Some? && b == Config(AtType(f, target), [Field(index.value)] + steps)
    case Reference(_, _, _, _) =>
      (match TargetOf(w, f, node)
       case Through(ty) => b == Config(AtType(f, ty), steps)
       case Elements(ty) => steps[0].Element? && b == Config(AtType(f, ty), steps[1..])
       case Declared(d) => b == Config(AtDecl(d), steps)
       case OutOfReach => false)
    case Other(_) => false
  }

  ghost predicate Trace(w: World, a: Config, t: seq<Config>, b: Config)
    requires Closed(w)
  {
    t != [] && t[0] == a && t[|t| - 1] == b && forall i :: 0 <= i < |t| - 1 ==> Moves(w, t[i], t[i + 1])
  }

  ghost predicate Reachable(w: World, a: Config, b: Config)
    requires Closed(w)
  {
    exists t: seq<Config> :: Trace(w, a, t, b)
  }

  /** No path that a walk from `d` can arrive with is longer than `cap`. */
  ghost predicate BoundedPaths(w: World, d: DeclId, steps: seq<Step>, cap: nat)
    requires Closed(w)
  {
    forall b :: Reachable(w, Config(AtDecl(d), steps), b) ==> |b.steps| <= cap
  }

  /** The recursion of the original ends: some cap is never exceeded. */
  ghost predicate Terminates(w: World, d: DeclId, steps: seq<Step>, seen: set<Visit>)
    requires Closed(w) && Declares(w, d)
  {
    exists cap: nat :: |steps| <= cap && !LookupDecl(w, d, steps, Walk(seen, false, false), cap).walk.deep
  }

  // ---------- Bounded paths suffice ----------

  /** A property of configurations that moves keep and that bounds the path. */
  ghost predicate Confines(w: World, inv: Config -> bool, cap: nat)
    requires Closed(w)
  {
    && (forall a, b :: inv(a) && Moves(w, a, b) ==> inv(b))
    && (forall a :: inv(a) ==> |a.steps| <= cap)
  }

  lemma {:induction false} DeclConfined(w: World, d: DeclId, steps: seq<Step>, st: Walk, cap: nat, inv: Config -> bool)
    requires Closed(w) && Declares(w, d) && Confines(w, inv, cap) && inv(Config(AtDecl(d), steps)) && !st.deep
    ensures |steps| <= cap && !LookupDecl(w, d, steps, st, cap).walk.deep
    decreases Unseen(w, cap, st), 0
  {
    var here, visit := Config(AtDecl(d), steps), Visit(d, |steps|);
    if steps != [] && !DeclOf(w, d).Enum? && visit !in st.seen {
      Shrinks(Visits(w, cap), st.seen, visit);
      var st' := st.(seen := st.seen + {visit});
      match DeclOf(w, d)
      case Alias(_, _, ty) =>
        assert Moves(w, here, Config(AtType(d.file, ty), steps));
        TypeConfined(w, d.file, ty, steps, st', cap, inv);
      case Interface(_, _, members, bases) =>
        if steps[0].Field? {
          if FindMember(members, steps[0].name).Some? {
            var m := members[FindMember(members, steps[0].name).value];
            if |steps| > 1 && m.ty.Some? {
              assert Moves(w, here, Config(AtType(d.file, m.ty.value), steps[1..]));
              TypeConfined(w, d.file, m.ty.value, steps[1..], st', cap, inv);
            }
          } else {
            forall i, b | 0 <= i < |bases| && MovesToBase(w, d.file, bases[i], steps, b) ensures inv(b) {
              assert Moves(w, here, b);
            }
            BasesConfined(w, d.file, bases, steps, st', cap, inv);
          }
        }
    }
  }

  lemma {:induction false} TypeConfined(w: World, f: FileId, node: TypeNode, steps: seq<Step>, st: Walk, cap: nat,
                                        inv: Config -> bool)
    requires Closed(w) && f in w && Confines(w, inv, cap) && inv(Config(AtType(f, node), steps)) && !st.deep
    ensures |steps| <= cap && !LookupType(w, f, node, steps, st, cap).walk.deep
    decreases Unseen(w, cap, st), 1, node, 1
  {
    if steps != [] {
      var here := Config(AtType(f, node), steps);
      match node
      case Literal(members) =>
        if steps[0].Field? && FindMember(members, steps[0].name).Some? {
          var m := members[FindMember(members, steps[0].name).value];
          if |steps| > 1 && m.ty.Some? {
            assert Moves(w, here, Config(AtType(f, m.ty.value), steps[1..]));
            TypeConfined(w, f, m.ty.value, steps[1..], st, cap, inv);
          }
        }
      case Parens(inner) =>
        TypeStep(w, here, Config(AtType(f, inner), steps), inv, cap);
        TypeConfined(w, f, inner, steps, st, cap, inv);
      case Operator(inner, _) =>
        TypeStep(w, here, Config(AtType(f, inner), steps), inv, cap);
        TypeConfined(w, f, inner, steps, st, cap, inv);
      case Intersection(parts) => PartsStep(w, here, parts, inv, cap); PartsConfined(w, f, parts, steps, st, cap, inv);
      case Union(parts) => PartsStep(w, here, parts, inv, cap); PartsConfined(w, f, parts, steps, st, cap, inv);
      case ArrayOf(element) =>
        if steps[0].Element? {
          TypeStep(w, here, Config(AtType(f, element), steps[1..]), inv, cap);
          TypeConfined(w, f, element, steps[1..], st, cap, inv);
        }
      case Indexed(target, index, _) =>
        if index.Some? {
          var longer := [Field(index.value)] + steps;
          TypeStep(w, here, Config(AtType(f, target), longer), inv, cap);
          TypeConfined(w, f, target, longer, st, cap, inv);
        }
      case Reference(_, _, _, _) =>
        match TargetOf(w, f, node) {
          case Through(ty) =>
            TypeStep(w, here, Config(AtType(f, ty), steps), inv, cap);
            TypeConfined(w, f, ty, steps, st, cap, inv);
          case Elements(ty) =>
            if steps[0].Element? {
              TypeStep(w, here, Config(AtType(f, ty), steps[1..]), inv, cap);
              TypeConfined(w, f, ty, steps[1..], st, cap, inv);
            }
          case Declared(d) =>
            TypeStep(w, here, Config(AtDecl(d), steps), inv, cap);
            DeclConfined(w, d, steps, st, cap, inv);
          case OutOfReach =>
        }
      case Other(_) =>
    }
  }

  lemma TypeStep(w: World, a: Config, b: Config, inv: Config -> bool, cap: nat)
    requires Closed(w) && Confines(w, inv, cap) && inv(a) && Moves(w, a, b)
    ensures inv(b)
  {
  }

  lemma PartsStep(w: World, a: Config, parts: seq<TypeNode>, inv: Config -> bool, cap: nat)
    requires Closed(w) && Confines(w, inv, cap) && inv(a) && a.steps != [] && a.place.AtType? && a.place.file in w
    requires a.place.node == Intersection(parts) || a.place.node == Union(parts)
    ensures forall i :: 0 <= i < |parts| ==> inv(Config(AtType(a.place.file, parts[i]), a.steps))
  {
    forall i | 0 <= i < |parts| ensures inv(Config(AtType(a.place.file, parts[i]), a.steps)) {
      assert Moves(w, a, Config(AtType(a.place.file, parts[i]), a.steps));
    }
  }

  lemma {:induction false} PartsConfined(w: World, f: FileId, parts: seq<TypeNode>, steps: seq<Step>, st: Walk,
                                         cap: nat, inv: Config -> bool)
    requires Closed(w) && f in w && Confines(w, inv, cap) && !st.deep && |steps| <= cap
    requires forall i :: 0 <= i < |parts| ==> inv(Config(AtType(f, parts[i]), steps))
    ensures !LookupParts(w, f, parts, steps, st, cap).walk.deep
    decreases Unseen(w, cap, st), 1, parts, 0
  {
    if parts != [] {
      var first := LookupType(w, f, parts[0], steps, st, cap);
      TypeConfined(w, f, parts[0], steps, st, cap, inv);
      Narrows(Visits(w, cap), st.seen, first.walk.seen);
      PartsConfined(w, f, parts[1..], steps, first.walk, cap, inv);
    }
  }

  lemma {:induction false} BasesConfined(w: World, f: FileId, bases: seq<Base>, steps: seq<Step>, st: Walk, cap: nat,
                                         inv: Config -> bool)
    requires Closed(w) && f in w && Confines(w, inv, cap) && !st.deep && |steps| <= cap
    requires forall i, b :: 0 <= i < |bases| && MovesToBase(w, f, bases[i], steps, b) ==> inv(b)
    ensures !LookupBases(w, f, bases, steps, st, cap).walk.deep
    decreases Unseen(w, cap, st), 1, bases, 0
  {
    if bases != [] {
      var d := BaseOf(w, f, bases[0]);
      var first := if d.None? then Answer(Unknown, st) else LookupDecl(w, d.value, steps, st, cap);
      if d.Some? {
        assert MovesToBase(w, f, bases[0], steps, Config(AtDecl(d.value), steps));
        DeclConfined(w, d.value, steps, st, cap, inv);
      }
      Narrows(Visits(w, cap), st.seen, first.walk.seen);
      BasesConfined(w, f, bases[1..], steps, first.walk, cap, inv);
    }
  }

  lemma ReachableMoves(w: World, a: Config, b: Config, c: Config)
    requires Closed(w) && Reachable(w, a, b) && Moves(w, b, c)
    ensures Reachable(w, a, c)
  {
    var t: seq<Config> :| Trace(w, a, t, b);
    assert Trace(w, a, t + [c], c);
  }

  lemma StartIsReachable(w: World, a: Config)
    requires Closed(w)
    ensures Reachable(w, a, a)
  {
    assert Trace(w, a, [a], a);
  }

  /** On every declaration graph, recursive or not, and whatever was visited before: a lookup ends when
      the paths it can arrive with are bounded. */
  lemma BoundedPathsTerminate(w: World, d: DeclId, steps: seq<Step>, seen: set<Visit>, cap: nat)
    requires Closed(w) && Declares(w, d) && BoundedPaths(w, d, steps, cap)
    ensures Terminates(w, d, steps, seen)
  {
    var start := Config(AtDecl(d), steps);
    var inv := (b: Config) => Reachable(w, start, b);
    forall a, b | inv(a) && Moves(w, a, b) ensures inv(b) {
      ReachableMoves(w, start, a, b);
    }
    StartIsReachable(w, start);
    DeclConfined(w, d, steps, Walk(seen, false, false), cap, inv);
  }

  // ---------- And without cuts they are necessary ----------

  ghost predicate Settles(w: World, c: Config, st: Walk, cap: nat)
    requires Closed(w) && Lies(w, c.place) && |c.steps| <= cap
  {
    var r := match c.place
      case AtDecl(d) => LookupDecl(w, d, c.steps, st, cap)
      case AtType(f, node) => LookupType(w, f, node, c.steps, st, cap);
    !r.walk.cut && !r.walk.deep
  }

  /** Some walk from here ends without meeting a visited declaration. */
  ghost predicate Settled(w: World, c: Config, cap: nat)
    requires Closed(w)
  {
    Lies(w, c.place) && |c.steps| <= cap && exists st :: Settles(w, c, st, cap)
  }

  lemma {:induction false} PartSettles(w: World, f: FileId, parts: seq<TypeNode>, i: nat, steps: seq<Step>, st: Walk,
                                       cap: nat)
    requires Closed(w) && f in w && |steps| <= cap && i < |parts|
    requires var r := LookupParts(w, f, parts, steps, st, cap); !r.walk.cut && !r.walk.deep
    ensures Settled(w, Config(AtType(f, parts[i]), steps), cap)
    decreases i
  {
    var first := LookupType(w, f, parts[0], steps, st, cap);
    if i == 0 {
      assert Settles(w, Config(AtType(f, parts[0]), steps), st, cap);
    } else {
      PartSettles(w, f, parts[1..], i - 1, steps, first.walk, cap);
    }
  }

  lemma {:induction false} BaseSettles(w: World, f: FileId, bases: seq<Base>, i: nat, steps: seq<Step>, st: Walk,
                                       cap: nat)
    requires Closed(w) && f in w && |steps| <= cap && i < |bases| && BaseOf(w, f, bases[i]).Some?
    requires var r := LookupBases(w, f, bases, steps, st, cap); !r.walk.cut && !r.walk.deep
    ensures Settled(w, Config(AtDecl(BaseOf(w, f, bases[i]).value), steps), cap)
    decreases i
  {
    var d := BaseOf(w, f, bases[0]);
    var first := if d.None? then Answer(Unknown, st) else LookupDecl(w, d.value, steps, st, cap);
    if i == 0 {
      assert Settles(w, Config(AtDecl(d.value), steps), st, cap);
    } else {
      BaseSettles(w, f, bases[1..], i - 1, steps, first.walk, cap);
    }
  }

  lemma MemberSettles(w: World, f: FileId, members: seq<Member>, steps: seq<Step>, st: Walk, b: Config, cap: nat)
    requires Closed(w) && f in w && 0 < |steps| <= cap && steps[0].Field? && MovesToMember(f, members, steps, b)
    requires var r := LookupMember(w, f, members, steps, st, cap).walk; !r.cut && !r.deep
    ensures Settled(w, b, cap)
  {
    assert Settles(w, b, st, cap);
  }

  lemma DeclSettles(w: World, d: DeclId, steps: seq<Step>, st: Walk, b: Config, cap: nat)
    requires Closed(w) && Declares(w, d) && 0 < |steps| <= cap && Settles(w, Config(AtDecl(d), steps), st, cap)
    requires MovesFromDecl(w, d, steps, b)
    ensures Settled(w, b, cap)
  {
    var st' := st.(seen := st.seen + {Visit(d, |steps|)});
    match DeclOf(w, d)
    case Alias(_, _, ty) => assert Settles(w, b, st', cap);
    case Interface(_, _, members, bases) =>
      if FindMember(members, steps[0].name).Some? {
        assert LookupDecl(w, d, steps, st, cap) == LookupMember(w, d.file, members, steps, st', cap);
        MemberSettles(w, d.file, members, steps, st', b, cap);
      } else {
        var i :| 0 <= i < |bases| && MovesToBase(w, d.file, bases[i], steps, b);
        BaseSettles(w, d.file, bases, i, steps, st', cap);
      }
  }

  lemma TypeSettles(w: World, f: FileId, node: TypeNode, steps: seq<Step>, st: Walk, b: Config, cap: nat)
    requires Closed(w) && f in w && 0 < |steps| <= cap && Settles(w, Config(AtType(f, node), steps), st, cap)
    requires MovesFromType(w, f, node, steps, b)
    ensures Settled(w, b, cap)
  {
    if node.Literal? {
      MemberSettles(w, f, node.members, steps, st, b, cap);
    } else if node.Intersection? || node.Union? {
      var i :| 0 <= i < |node.parts| && b == Config(AtType(f, node.parts[i]), steps);
      PartSettles(w, f, node.parts, i, steps, st, cap);
    } else {
      assert Settles(w, b, st, cap);
    }
  }

  lemma {:induction false} TraceSettles(w: World, a: Config, t: seq<Config>, b: Config, cap: nat)
    requires Closed(w) && Trace(w, a, t, b) && Settled(w, a, cap)
    ensures Settled(w, b, cap)
    decreases |t|
  {
    if |t| > 1 {
      var before := t[|t| - 2];
      assert Trace(w, a, t[..|t| - 1], before);
      TraceSettles(w, a, t[..|t| - 1], before, cap);
      assert Moves(w, t[|t| - 2], t[|t| - 1]);
      var st :| Settles(w, before, st, cap);
      match before.place
      case AtDecl(d) => DeclSettles(w, d, before.steps, st, b, cap);
      case AtType(f, node) => TypeSettles(w, f, node, before.steps, st, b, cap);
    }
  }

  /** A lookup that ends and never meets a visited declaration again has looked down every path, so the
      paths are bounded. */
  lemma UncutIsBounded(w: World, d: DeclId, steps: seq<Step>, seen: set<Visit>, cap: nat)
    requires Closed(w) && Declares(w, d) && |steps| <= cap
    requires var r := LookupDecl(w, d, steps, Walk(seen, false, false), cap).walk; !r.cut && !r.deep
    ensures BoundedPaths(w, d, steps, cap)
  {
    var start := Config(AtDecl(d), steps);
    assert Settles(w, start, Walk(seen, false, false), cap);
    forall b | Reachable(w, start, b) ensures |b.steps| <= cap {
      var t: seq<Config> :| Trace(w, start, t, b);
      TraceSettles(w, start, t, b, cap);
    }
  }

  /** Where no visited declaration is met again, a lookup ends exactly when its paths are bounded. */
  lemma TerminatesIff(w: World, d: DeclId, steps: seq<Step>, seen: set<Visit>)
    requires Closed(w) && Declares(w, d)
    requires forall cap: nat :: |steps| <= cap ==> !LookupDecl(w, d, steps, Walk(seen, false, false), cap).walk.cut
    ensures Terminates(w, d, steps, seen) <==> exists cap: nat :: BoundedPaths(w, d, steps, cap)
  {
    if Terminates(w, d, steps, seen) {
      var cap: nat :| |steps| <= cap && !LookupDecl(w, d, steps, Walk(seen, false, false), cap).walk.deep;
      UncutIsBounded(w, d, steps, seen, cap);
    }
    if cap: nat :| BoundedPaths(w, d, steps, cap) {
      BoundedPathsTerminate(w, d, steps, seen, cap);
    }
  }
}
