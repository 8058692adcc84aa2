/** Ways to see that a lookup of scripts/gen-config-catalog.ts ends, and types for which it does not. */
module TerminationCases {
  import opened LookupTermination
  import opened MemberLookup
  import opened Options
  import opened TypeGraph

  // ---------- A growth bound for each declaration ----------

  /** `growth(d)` bounds how much longer the path can become below declaration `d`: an indexed
      access spends one, a member or element step earns one back, and a referenced declaration
      must fit into what is left. */
  ghost predicate Affords(w: World, f: FileId, node: TypeNode, growth: DeclId -> nat, left: nat)
    requires Closed(w) && f in w
    decreases node
  {
    match node
    case Literal(members) => forall m :: m in members && m.ty.Some? ==> Affords(w, f, m.ty.value, growth, left + 1)
    case Parens(inner) => Affords(w, f, inner, growth, left)
    case Operator(inner, _) => Affords(w, f, inner, growth, left)
    case Intersection(parts) => forall p :: p in parts ==> Affords(w, f, p, growth, left)
    case Union(parts) => forall p :: p in parts ==> Affords(w, f, p, growth, left)
    case ArrayOf(element) => Affords(w, f, element, growth, left + 1)
    case Indexed(target, index, _) => index.Some? ==> left > 0 && Affords(w, f, target, growth, left - 1)
    case Reference(_, _, _, _) =>
      (match TargetOf(w, f, node)
       case Through(ty) => Affords(w, f, ty, growth, left)
       case Elements(ty) => Affords(w, f, ty, growth, left + 1)
       case Declared(d) => growth(d) <= left
       case OutOfReach => true)
    case Other(_) => true
  }

  ghost predicate AffordsDecl(w: World, d: DeclId, growth: DeclId -> nat)
    requires Closed(w) && Declares(w, d)
  {
    match DeclOf(w, d)
    case Enum(_, _) => true
    case Alias(_, _, ty) => Affords(w, d.file, ty, growth, growth(d))
    case Interface(_, _, members, bases) =>
      && (forall m :: m in members && m.ty.Some? ==> Affords(w, d.file, m.ty.value, growth, growth(d) + 1))
      && forall b :: b in bases && BaseOf(w, d.file, b).Some? ==> growth(BaseOf(w, d.file, b).value) <= growth(d)
  }

  /** What is left of the path and what may still be added stay within the cap. */
  ghost predicate Fits(w: World, c: Config, growth: DeclId -> nat, cap: nat)
    requires Closed(w)
  {
    Lies(w, c.place) && |c.steps| <= cap &&
    match c.place
    case AtDecl(d) => |c.steps| + growth(d) <= cap
    case AtType(f, node) => exists left: nat :: Affords(w, f, node, growth, left) && |c.steps| + left <= cap
  }

  lemma DeclFits(w: World, d: DeclId, steps: seq<Step>, b: Config, growth: DeclId -> nat, cap: nat)
    requires Closed(w) && Declares(w, d) && steps != [] && MovesFromDecl(w, d, steps, b)
    requires |steps| + growth(d) <= cap && AffordsDecl(w, d, growth)
    ensures Fits(w, b, growth, cap)
  {
    match DeclOf(w, d)
    case Alias(_, _, ty) => assert Affords(w, d.file, ty, growth, growth(d));
    case Interface(_, _, members, bases) =>
      if FindMember(members, steps[0].name).Some? {
        var m := members[FindMember(members, steps[0].name).value];
        assert m in members && Affords(w, d.file, m.ty.value, growth, growth(d) + 1);
      } else {
        var i :| 0 <= i < |bases| && MovesToBase(w, d.file, bases[i], steps, b);
        assert bases[i] in bases;
      }
  }

  lemma TypeFits(w: World, f: FileId, node: TypeNode, steps: seq<Step>, b: Config, growth: DeclId -> nat, left: nat,
                 cap: nat)
    requires Closed(w) && f in w && steps != [] && MovesFromType(w, f, node, steps, b)
    requires Affords(w, f, node, growth, left) && |steps| + left <= cap
    ensures Fits(w, b, growth, cap)
  {
    match node
    case Literal(members) =>
      var m := members[FindMember(members, steps[0].name).value];
      assert m in members && Affords(w, f, m.ty.value, growth, left + 1);
    case Intersection(parts) => assert Affords(w, f, b.place.node, growth, left);
    case Union(parts) => assert Affords(w, f, b.place.node, growth, left);
    case Parens(inner) => assert Affords(w, f, inner, growth, left);
    case Operator(inner, _) => assert Affords(w, f, inner, growth, left);
    case ArrayOf(element) => assert Affords(w, f, element, growth, left + 1);
    case Indexed(target, _, _) => assert Affords(w, f, target, growth, left - 1);
    case Reference(_, _, _, _) =>
      match TargetOf(w, f, node) {
        case Through(ty) => assert Affords(w, f, ty, growth, left);
        case Elements(ty) => assert Affords(w, f, ty, growth, left + 1);
        case Declared(_) =>
      }
  }

  /** Growth bounds are asked only of the declarations that the walk can reach. */
  lemma BoundedGrowthTerminates(w: World, d: DeclId, steps: seq<Step>, seen: set<Visit>, growth: DeclId -> nat)
    requires Closed(w) && Declares(w, d)
    requires forall c :: Reachable(w, Config(AtDecl(d), steps), c) && c.place.AtDecl? && Lies(w, c.place) ==>
      AffordsDecl(w, c.place.decl, growth)
    ensures BoundedPaths(w, d, steps, |steps| + growth(d))
    ensures Terminates(w, d, steps, seen)
  {
    var start, cap := Config(AtDecl(d), steps), |steps| + growth(d);
    forall c | Reachable(w, start, c) ensures |c.steps| <= cap {
      var t: seq<Config> :| Trace(w, start, t, c);
      TraceFits(w, start, t, c, growth, cap);
    }
    BoundedPathsTerminate(w, d, steps, seen, cap);
  }

  lemma {:induction false} TraceFits(w: World, start: Config, t: seq<Config>, c: Config, growth: DeclId -> nat,
                                     cap: nat)
    requires Closed(w) && Trace(w, start, t, c) && Fits(w, start, growth, cap)
    requires forall b :: Reachable(w, start, b) && b.place.AtDecl? && Lies(w, b.place) ==>
      AffordsDecl(w, b.place.decl, growth)
    ensures Fits(w, c, growth, cap)
    decreases |t|
  {
    if |t| > 1 {
      var b := t[|t| - 2];
      assert Trace(w, start, t[..|t| - 1], b);
      TraceFits(w, start, t[..|t| - 1], b, growth, cap);
      assert Moves(w, t[|t| - 2], t[|t| - 1]) && Reachable(w, start, b);
      match b.place
      case AtDecl(d) => DeclFits(w, d, b.steps, c, growth, cap);
      case AtType(f, node) =>
        var left: nat :| Affords(w, f, node, growth, left) && |b.steps| + left <= cap;
        TypeFits(w, f, node, b.steps, c, growth, left, cap);
    }
  }

  // ---------- No indexed access, no growth ----------

  predicate NoIndexed(node: TypeNode) {
    match node
    case Literal(members) => forall m :: m in members && m.ty.Some? ==> NoIndexed(m.ty.value)
    case Parens(inner) => NoIndexed(inner)
    case Operator(inner, _) => NoIndexed(inner)
    case Intersection(parts) => forall p :: p in parts ==> NoIndexed(p)
    case Union(parts) => forall p :: p in parts ==> NoIndexed(p)
    case ArrayOf(element) => NoIndexed(element)
    case Indexed(_, index, _) => index.None?
    case Reference(_, _, args, _) => forall p :: p in args ==> NoIndexed(p)
    case Other(_) => true
  }

  predicate NoIndexedDecl(d: Decl) {
    match d
    case Enum(_, _) => true
    case Alias(_, _, ty) => NoIndexed(ty)
    case Interface(_, _, members, _) => forall m :: m in members && m.ty.Some? ==> NoIndexed(m.ty.value)
  }

  lemma {:induction false} NoIndexedAffords(w: World, f: FileId, node: TypeNode, left: nat)
    requires Closed(w) && f in w && NoIndexed(node)
    ensures Affords(w, f, node, _ => 0, left)
    decreases node
  {
    match node
    case Literal(members) =>
      forall m | m in members && m.ty.Some? ensures Affords(w, f, m.ty.value, _ => 0, left + 1) {
        NoIndexedAffords(w, f, m.ty.value, left + 1);
      }
    case Parens(inner) => NoIndexedAffords(w, f, inner, left);
    case Operator(inner, _) => NoIndexedAffords(w, f, inner, left);
    case Intersection(parts) =>
      forall p | p in parts ensures Affords(w, f, p, _ => 0, left) { NoIndexedAffords(w, f, p, left); }
    case Union(parts) =>
      forall p | p in parts ensures Affords(w, f, p, _ => 0, left) { NoIndexedAffords(w, f, p, left); }
    case ArrayOf(element) => NoIndexedAffords(w, f, element, left + 1);
    case Indexed(_, _, _) =>
    case Reference(_, _, _, _) =>
      match TargetOf(w, f, node) {
        case Through(ty) => NoIndexedAffords(w, f, ty, left);
        case Elements(ty) => NoIndexedAffords(w, f, ty, left + 1);
        case Declared(_) =>
        case OutOfReach =>
      }
    case Other(_) =>
  }

  /** Without indexed accesses in the declarations that the walk can reach every lookup ends, recursive
      or not, and no path gets longer. */
  lemma NoIndexedTerminates(w: World, d: DeclId, steps: seq<Step>, seen: set<Visit>)
    requires Closed(w) && Declares(w, d)
    requires forall c :: Reachable(w, Config(AtDecl(d), steps), c) && c.place.AtDecl? && Lies(w, c.place) ==>
      NoIndexedDecl(DeclOf(w, c.place.decl))
    ensures BoundedPaths(w, d, steps, |steps|) && Terminates(w, d, steps, seen)
  {
    forall c | Reachable(w, Config(AtDecl(d), steps), c) && c.place.AtDecl? && Lies(w, c.place)
      ensures AffordsDecl(w, c.place.decl, _ => 0)
    {
      match DeclOf(w, c.place.decl)
      case Enum(_, _) =>
      case Alias(_, _, ty) => NoIndexedAffords(w, c.place.decl.file, ty, 0);
      case Interface(_, _, members, _) =>
        forall m | m in members && m.ty.Some? ensures Affords(w, c.place.decl.file, m.ty.value, _ => 0, 1) {
          NoIndexedAffords(w, c.place.decl.file, m.ty.value, 1);
        }
    }
    BoundedGrowthTerminates(w, d, steps, seen, _ => 0);
  }

  // ---------- Types for which it does not end ----------

  const OTHER: TypeNode := Other([])

  /** `type D = E['p'] | E['q']`, or with the branches the other way round, and
      `interface E { q: E['q']['q'] }`. */
  function Branching(first: string, second: string): World {
    var e := Reference("E", false, [], false);
    map["a.ts" := File([
          Alias("D", true, Union([Indexed(e, Some(first), OTHER), Indexed(e, Some(second), OTHER)])),
          Interface("E", true, [Property("q", "q", Some(Indexed(Indexed(e, Some("q"), OTHER), Some("q"), OTHER)))],
            [])], map[], [], map[])]
  }

  const D: DeclId := DeclId("a.ts", 0)
  const E: DeclId := DeclId("a.ts", 1)

  lemma Names(first: string, second: string)
    ensures Closed(Branching(first, second)) && Declares(Branching(first, second), D)
    ensures Declares(Branching(first, second), E)
    ensures TargetOf(Branching(first, second), "a.ts", Reference("E", false, [], false)) == Declared(E)
  {
    var w := Branching(first, second);
    assert w["a.ts"].decls[0].name == "D" && w["a.ts"].decls[1].name == "E";
    assert FindFrom(w["a.ts"].decls, "E", 1) == Some(1);
  }

  /** From `E` with a path that begins with `q` the path grows for ever. */
  lemma {:induction false} EGrows(first: string, second: string, rest: seq<Step>, st: Walk, cap: nat)
    requires rest != [] && |rest| + 1 <= cap
    requires forall n: nat :: n >= |rest| + 1 ==> Visit(E, n) !in st.seen
    ensures Closed(Branching(first, second)) && Declares(Branching(first, second), E)
    ensures LookupDecl(Branching(first, second), E, [Field("q")] + rest, st, cap).walk.deep
    decreases cap - |rest|
  {
    Names(first, second);
    var w, steps, e := Branching(first, second), [Field("q")] + rest, Reference("E", false, [], false);
    var inner := Indexed(e, Some("q"), OTHER);
    var members := [Property("q", "q", Some(Indexed(inner, Some("q"), OTHER)))];
    var st' := st.(seen := st.seen + {Visit(E, |steps|)});
    assert DeclOf(w, E) == Interface("E", true, members, []);
    assert FindMember(members, "q") == Some(0) && steps[1..] == rest;
    assert LookupDecl(w, E, steps, st, cap) == LookupMember(w, "a.ts", members, steps, st', cap);
    assert LookupMember(w, "a.ts", members, steps, st', cap) ==
      LookupType(w, "a.ts", Indexed(inner, Some("q"), OTHER), rest, st', cap);
    assert LookupType(w, "a.ts", Indexed(inner, Some("q"), OTHER), rest, st', cap) ==
      LookupType(w, "a.ts", inner, steps, st', cap);
    if |steps| < cap {
      EGrows(first, second, steps, st', cap);
      assert LookupType(w, "a.ts", e, [Field("q")] + steps, st', cap) ==
        LookupDecl(w, E, [Field("q")] + steps, st', cap);
    }
  }

  /** No condition that ignores the order of branches can be exact.  The paths are unbounded in either
      order; yet `E['p'] | E['q']` has an answer, because looking for `p` first marks the visit that
      would have grown, and `E['q'] | E['p']` has none. */
  lemma BranchOrderDecides(steps: seq<Step>)
    requires steps != []
    ensures Closed(Branching("p", "q")) && Declares(Branching("p", "q"), D)
    ensures Terminates(Branching("p", "q"), D, steps, {})
    ensures Closed(Branching("q", "p")) && Declares(Branching("q", "p"), D)
    ensures !Terminates(Branching("q", "p"), D, steps, {})
    ensures forall cap: nat :: !BoundedPaths(Branching("p", "q"), D, steps, cap)
  {
    Names("p", "q");
    Names("q", "p");
    PFirstEnds(steps);
    forall cap: nat | |steps| <= cap
      ensures LookupDecl(Branching("q", "p"), D, steps, Walk({}, false, false), cap).walk.deep
    {
      QFirstIsDeep(steps, cap);
    }
    forall cap: nat ensures !BoundedPaths(Branching("p", "q"), D, steps, cap) {
      if BoundedPaths(Branching("p", "q"), D, steps, cap) {
        PathsGrow(steps, cap);
      }
    }
  }

  /** A first visit that looks for `p` leaves nothing but its mark; the next one of that length is cut. */
  lemma PThenQ(rest: seq<Step>, st: Walk, cap: nat)
    requires |rest| + 1 <= cap && Visit(E, |rest| + 1) !in st.seen
    ensures Closed(Branching("p", "q")) && Declares(Branching("p", "q"), E)
    ensures var marked := st.(seen := st.seen + {Visit(E, |rest| + 1)});
      && LookupDecl(Branching("p", "q"), E, [Field("p")] + rest, st, cap) == Answer(Missing, marked)
      && LookupDecl(Branching("p", "q"), E, [Field("q")] + rest, marked, cap) == Answer(Unknown, marked.(cut := true))
  {
    Names("p", "q");
    assert FindMember(DeclOf(Branching("p", "q"), E).members, "p") == None;
  }

  /** One branch of `D`. */
  lemma BranchIs(first: string, second: string, name: string, steps: seq<Step>, st: Walk, cap: nat)
    requires 0 < |steps| < cap
    ensures Closed(Branching(first, second)) && Declares(Branching(first, second), E)
    ensures LookupType(Branching(first, second), "a.ts", Indexed(Reference("E", false, [], false), Some(name), OTHER),
      steps, st, cap) ==
      LookupDecl(Branching(first, second), E, [Field(name)] + steps, st, cap)
  {
    Names(first, second);
    var w, e := Branching(first, second), Reference("E", false, [], false);
    assert LookupType(w, "a.ts", e, [Field(name)] + steps, st, cap) == LookupDecl(w, E, [Field(name)] + steps, st, cap);
  }

  lemma DIs(first: string, second: string, steps: seq<Step>, cap: nat)
    requires 0 < |steps| <= cap
    ensures Closed(Branching(first, second)) && Declares(Branching(first, second), D)
    ensures var e := Reference("E", false, [], false);
      var parts := [Indexed(e, Some(first), OTHER), Indexed(e, Some(second), OTHER)];
      LookupDecl(Branching(first, second), D, steps, Walk({}, false, false), cap) ==
        LookupType(Branching(first, second), "a.ts", Union(parts), steps,
          Walk({} + {Visit(D, |steps|)}, false, false), cap)
  {
    Names(first, second);
  }

  lemma TwoParts(w: World, f: FileId, parts: seq<TypeNode>, steps: seq<Step>, st: Walk, cap: nat)
    requires Closed(w) && f in w && 0 < |steps| <= cap && |parts| == 2
    ensures LookupType(w, f, Union(parts), steps, st, cap).walk ==
      LookupType(w, f, parts[1], steps, LookupType(w, f, parts[0], steps, st, cap).walk, cap).walk
  {
    assert parts[1..] == [parts[1]] && parts[1..][1..] == [];
    var first := LookupType(w, f, parts[0], steps, st, cap).walk;
    assert LookupParts(w, f, parts[1..], steps, first, cap).walk == LookupType(w, f, parts[1], steps, first, cap).walk;
  }

  /** Both branches of `D`, one after the other. */
  lemma PBranchThenQ(steps: seq<Step>, st: Walk)
    requires steps != [] && Visit(E, |steps| + 1) !in st.seen
    ensures Closed(Branching("p", "q")) && Declares(Branching("p", "q"), E)
    ensures var w, e, cap := Branching("p", "q"), Reference("E", false, [], false), |steps| + 1;
      var marked := st.(seen := st.seen + {Visit(E, cap)});
      && LookupType(w, "a.ts", Indexed(e, Some("p"), OTHER), steps, st, cap).walk == marked
      && LookupType(w, "a.ts", Indexed(e, Some("q"), OTHER), steps, marked, cap).walk == marked.(cut := true)
  {
    var cap := |steps| + 1;
    BranchIs("p", "q", "p", steps, st, cap);
    BranchIs("p", "q", "q", steps, st.(seen := st.seen + {Visit(E, cap)}), cap);
    PThenQ(steps, st, cap);
  }

  lemma EndsWith(w: World, f: FileId, parts: seq<TypeNode>, steps: seq<Step>, st: Walk, marked: Walk, last: Walk,
                 cap: nat)
    requires Closed(w) && f in w && 0 < |steps| <= cap && |parts| == 2
    requires LookupType(w, f, parts[0], steps, st, cap).walk == marked
    requires LookupType(w, f, parts[1], steps, marked, cap).walk == last
    ensures LookupType(w, f, Union(parts), steps, st, cap).walk == last
  {
    TwoParts(w, f, parts, steps, st, cap);
  }

  lemma PFirstEnds(steps: seq<Step>)
    requires steps != []
    ensures Closed(Branching("p", "q")) && Declares(Branching("p", "q"), D)
    ensures !LookupDecl(Branching("p", "q"), D, steps, Walk({}, false, false), |steps| + 1).walk.deep
  {
    var cap, e := |steps| + 1, Reference("E", false, [], false);
    var st := Walk({} + {Visit(D, |steps|)}, false, false);
    var marked := st.(seen := st.seen + {Visit(E, cap)});
    DIs("p", "q", steps, cap);
    PBranchThenQ(steps, st);
    EndsWith(Branching("p", "q"), "a.ts", [Indexed(e, Some("p"), OTHER), Indexed(e, Some("q"), OTHER)], steps, st,
      marked, marked.(cut := true), cap);
  }

  lemma QFirstIsDeep(steps: seq<Step>, cap: nat)
    requires 0 < |steps| <= cap
    ensures Closed(Branching("q", "p")) && Declares(Branching("q", "p"), D)
    ensures LookupDecl(Branching("q", "p"), D, steps, Walk({}, false, false), cap).walk.deep
  {
    var e := Reference("E", false, [], false);
    var st := Walk({} + {Visit(D, |steps|)}, false, false);
    DIs("q", "p", steps, cap);
    TwoParts(Branching("q", "p"), "a.ts", [Indexed(e, Some("q"), OTHER), Indexed(e, Some("p"), OTHER)], steps, st, cap);
    if |steps| < cap {
      BranchIs("q", "p", "q", steps, st, cap);
      EGrows("q", "p", steps, st, cap);
    }
  }

  function Qs(n: nat): seq<Step> {
    if n == 0 then [] else [Field("q")] + Qs(n - 1)
  }

  lemma ReachesFirst(steps: seq<Step>)
    requires steps != []
    ensures Closed(Branching("p", "q"))
    ensures Reachable(Branching("p", "q"), Config(AtDecl(D), steps), Config(AtDecl(E), [Field("q")] + steps))
  {
    Names("p", "q");
    var w, e, start := Branching("p", "q"), Reference("E", false, [], false), Config(AtDecl(D), steps);
    var parts := [Indexed(e, Some("p"), OTHER), Indexed(e, Some("q"), OTHER)];
    var a, b, c := Config(AtType("a.ts", Union(parts)), steps), Config(AtType("a.ts", parts[1]), steps),
      Config(AtType("a.ts", e), [Field("q")] + steps);
    StartIsReachable(w, start);
    assert DeclOf(w, D) == Alias("D", true, Union(parts));
    ReachableMoves(w, start, start, a);
    ReachableMoves(w, start, a, b);
    ReachableMoves(w, start, b, c);
    ReachableMoves(w, start, c, Config(AtDecl(E), [Field("q")] + steps));
  }

  lemma ReachesLonger(start: Config, rest: seq<Step>)
    requires rest != [] && Closed(Branching("p", "q"))
    requires Reachable(Branching("p", "q"), start, Config(AtDecl(E), [Field("q")] + rest))
    ensures Reachable(Branching("p", "q"), start, Config(AtDecl(E), [Field("q")] + ([Field("q")] + rest)))
  {
    Names("p", "q");
    var w, e, here := Branching("p", "q"), Reference("E", false, [], false), [Field("q")] + rest;
    var inner := Indexed(e, Some("q"), OTHER);
    var members := [Property("q", "q", Some(Indexed(inner, Some("q"), OTHER)))];
    assert DeclOf(w, E) == Interface("E", true, members, []) && FindMember(members, "q") == Some(0) &&
      here[1..] == rest;
    var a, b, c := Config(AtType("a.ts", Indexed(inner, Some("q"), OTHER)), rest),
      Config(AtType("a.ts", inner), here), Config(AtType("a.ts", e), [Field("q")] + here);
    ReachableMoves(w, start, Config(AtDecl(E), here), a);
    ReachableMoves(w, start, a, b);
    ReachableMoves(w, start, b, c);
    ReachableMoves(w, start, c, Config(AtDecl(E), [Field("q")] + here));
  }

  lemma {:induction false} ReachesE(steps: seq<Step>, n: nat)
    requires steps != []
    ensures Closed(Branching("p", "q"))
    ensures Reachable(Branching("p", "q"), Config(AtDecl(D), steps), Config(AtDecl(E), [Field("q")] + (Qs(n) + steps)))
  {
    ReachesFirst(steps);
    if n == 0 {
      assert Qs(0) + steps == steps;
    } else {
      ReachesE(steps, n - 1);
      ReachesLonger(Config(AtDecl(D), steps), Qs(n - 1) + steps);
      assert Qs(n) + steps == [Field("q")] + (Qs(n - 1) + steps);
    }
  }

  lemma {:induction false} QsLength(n: nat)
    ensures |Qs(n)| == n
  {
    if n > 0 { QsLength(n - 1); }
  }

  lemma PathsGrow(steps: seq<Step>, cap: nat)
    requires steps != []
    ensures Closed(Branching("p", "q")) && !BoundedPaths(Branching("p", "q"), D, steps, cap)
  {
    ReachesE(steps, cap);
    QsLength(cap);
  }

  /** One file that says `type A = A['x']`. */
  function SelfIndexed(): World {
    map["a.ts" := File([Alias("A", true, Indexed(Reference("A", false, [], false), Some("x"), OTHER))], map[], [],
      map[])]
  }

  lemma {:induction false} SelfIndexedIsDeep(steps: seq<Step>, st: Walk, cap: nat)
    requires 0 < |steps| <= cap
    requires forall n: nat :: n >= |steps| ==> Visit(DeclId("a.ts", 0), n) !in st.seen
    ensures Closed(SelfIndexed()) && Declares(SelfIndexed(), DeclId("a.ts", 0))
    ensures LookupDecl(SelfIndexed(), DeclId("a.ts", 0), steps, st, cap).walk.deep
    decreases cap - |steps|
  {
    var w, d := SelfIndexed(), DeclId("a.ts", 0);
    var ref := Reference("A", false, [], false);
    assert w["a.ts"].decls[0] == Alias("A", true, Indexed(ref, Some("x"), OTHER));
    assert TargetOf(w, "a.ts", ref) == Declared(d);
    var st' := st.(seen := st.seen + {Visit(d, |steps|)});
    var longer := [Field("x")] + steps;
    if |steps| < cap {
      SelfIndexedIsDeep(longer, st', cap);
      assert LookupType(w, "a.ts", ref, longer, st', cap) == LookupDecl(w, d, longer, st', cap);
    }
    assert LookupDecl(w, d, steps, st, cap) == LookupType(w, "a.ts", Indexed(ref, Some("x"), OTHER), steps, st', cap);
  }

  /** The documentation promises that recursive types bail rather than loop; `type A = A['x']` has
      no answer for any path. */
  lemma IndexedAccessCanDiverge(steps: seq<Step>)
    requires steps != []
    ensures Closed(SelfIndexed()) && Declares(SelfIndexed(), DeclId("a.ts", 0))
    ensures !Terminates(SelfIndexed(), DeclId("a.ts", 0), steps, {})
  {
    assert Closed(SelfIndexed()) && Declares(SelfIndexed(), DeclId("a.ts", 0));
    forall cap: nat | |steps| <= cap
      ensures LookupDecl(SelfIndexed(), DeclId("a.ts", 0), steps, Walk({}, false, false), cap).walk.deep
    {
      SelfIndexedIsDeep(steps, Walk({}, false, false), cap);
    }
  }
}
