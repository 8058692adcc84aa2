/** `foldComposed` of scripts/gen-config-catalog.ts: the schema keys of a package together with those
    of every package its schema composes, directly or not, each package once. */
module ComposeFold {
  import opened Collections

  datatype Entry = Entry(schemaKeys: seq<string>, schemaComposes: seq<string>)

  type Catalog = map<string, Entry>

  /** The keys gathered; the packages visited, in order; the composed names that are no package. */
  datatype Folded = Folded(keys: seq<string>, order: seq<string>, unknown: seq<string>, seen: set<string>)

  function Fold(c: Catalog, pkg: string, seen: set<string>): (r: Folded)
    requires pkg in c
    ensures seen <= r.seen
    decreases |c.Keys - seen|, 0
  {
    if pkg in seen then Folded([], [], [], seen) else
      Shrinks(c.Keys, seen, pkg);
      var rest := FoldAll(c, c[pkg].schemaComposes, seen + {pkg});
      Folded(c[pkg].schemaKeys + rest.keys, [pkg] + rest.order, rest.unknown, rest.seen)
  }

  function FoldAll(c: Catalog, composes: seq<string>, seen: set<string>): (r: Folded)
    ensures seen <= r.seen
    decreases |c.Keys - seen|, 1 + |composes|
  {
    if composes == [] then Folded([], [], [], seen)
    else if composes[0] !in c then
      var rest := FoldAll(c, composes[1..], seen);
      rest.(unknown := [composes[0]] + rest.unknown)
    else
      var first := Fold(c, composes[0], seen);
      Narrows(c.Keys, seen, first.seen);
      var rest := FoldAll(c, composes[1..], first.seen);
      Folded(first.keys + rest.keys, first.order + rest.order, first.unknown + rest.unknown, rest.seen)
  }

  // ---------- The packages that are composed ----------

  ghost predicate Composes(c: Catalog, from: string, to: string) {
    from in c && to in c[from].schemaComposes
  }

  ghost predicate ComposePath(c: Catalog, from: string, to: string, path: seq<string>) {
    path != [] && path[0] == from && path[|path| - 1] == to &&
    forall i :: 0 <= i < |path| - 1 ==> Composes(c, path[i], path[i + 1])
  }

  ghost predicate Reaches(c: Catalog, from: string, to: string) {
    exists path: seq<string> :: ComposePath(c, from, to, path)
  }

  function KeysOf(c: Catalog, order: seq<string>): seq<string>
    requires forall p :: p in order ==> p in c
  {
    if order == [] then [] else c[order[0]].schemaKeys + KeysOf(c, order[1..])
  }

  lemma {:induction false} KeysOfJoin(c: Catalog, a: seq<string>, b: seq<string>)
    requires forall p :: p in a + b ==> p in c
    requires (forall p :: p in a ==> p in c) && (forall p :: p in b ==> p in c)
    ensures KeysOf(c, a + b) == KeysOf(c, a) + KeysOf(c, b)
  {
    if a == [] {
      assert a + b == b;
    } else {
      assert (a + b)[1..] == a[1..] + b;
      KeysOfJoin(c, a[1..], b);
    }
  }

  /** What a visit adds: exactly the packages of `order`, none of them seen before, with their keys;
      and every composed name met on the way is seen by now or reported as unknown. */
  ghost predicate Visited(c: Catalog, seen: set<string>, r: Folded) {
    && (forall p :: p in r.order ==> p in c)
    && (forall p :: p in r.order <==> p in r.seen && p !in seen)
    && NoRepeats(r.order)
    && r.keys == KeysOf(c, r.order)
    && (forall p, q :: p in r.order && Composes(c, p, q) ==> if q in c then q in r.seen else q in r.unknown)
    && (forall q :: q in r.unknown ==> q !in c)
  }

  lemma {:induction false} FoldVisits(c: Catalog, pkg: string, seen: set<string>)
    requires pkg in c
    ensures Visited(c, seen, Fold(c, pkg, seen)) && pkg in Fold(c, pkg, seen).seen
    decreases |c.Keys - seen|, 0
  {
    if pkg !in seen {
      Shrinks(c.Keys, seen, pkg);
      var rest := FoldAll(c, c[pkg].schemaComposes, seen + {pkg});
      FoldAllVisits(c, c[pkg].schemaComposes, seen + {pkg});
      assert ([pkg] + rest.order)[1..] == rest.order;
    }
  }

  lemma {:induction false} FoldAllVisits(c: Catalog, composes: seq<string>, seen: set<string>)
    ensures var r := FoldAll(c, composes, seen);
      Visited(c, seen, r) && forall q :: q in composes ==> if q in c then q in r.seen else q in r.unknown
    decreases |c.Keys - seen|, 1 + |composes|
  {
    if composes != [] {
      if composes[0] !in c {
        FoldAllVisits(c, composes[1..], seen);
      } else {
        var first := Fold(c, composes[0], seen);
        FoldVisits(c, composes[0], seen);
        Narrows(c.Keys, seen, first.seen);
        var rest := FoldAll(c, composes[1..], first.seen);
        FoldAllVisits(c, composes[1..], first.seen);
        JoinVisits(c, seen, first, rest);
      }
    }
  }

  lemma NoRepeatsJoin(a: seq<string>, b: seq<string>)
    requires NoRepeats(a) && NoRepeats(b) && forall p :: p in a ==> p !in b
    ensures NoRepeats(a + b)
  {
    forall i, j | 0 <= i < j < |a + b| ensures (a + b)[i] != (a + b)[j] {
      if i < |a| <= j { assert a[i] in a && b[j - |a|] in b; }
    }
  }

  lemma JoinVisits(c: Catalog, seen: set<string>, first: Folded, rest: Folded)
    requires seen <= first.seen <= rest.seen && Visited(c, seen, first) && Visited(c, first.seen, rest)
    ensures Visited(c, seen, 
      Folded(first.keys + rest.keys, first.order + rest.order, first.unknown + rest.unknown, rest.seen))
  {
    KeysOfJoin(c, first.order, rest.order);
    NoRepeatsJoin(first.order, rest.order);
    forall p, q | p in first.order + rest.order && Composes(c, p, q)
      ensures if q in c then q in rest.seen else q in first.unknown + rest.unknown
    {}
  }

  /** Everything visited or reported is reached along composed schemas. */
  lemma {:induction false} FoldReaches(c: Catalog, root: string, pkg: string, seen: set<string>)
    requires pkg in c && Reaches(c, root, pkg)
    ensures var r := Fold(c, pkg, seen);
      (forall p :: p in r.order ==> Reaches(c, root, p)) && (forall q :: q in r.unknown ==> Reaches(c, root, q))
    decreases |c.Keys - seen|, 0
  {
    if pkg !in seen {
      Shrinks(c.Keys, seen, pkg);
      forall q | q in c[pkg].schemaComposes ensures Reaches(c, root, q) {
        var path: seq<string> :| ComposePath(c, root, pkg, path);
        assert ComposePath(c, root, q, path + [q]);
      }
      FoldAllReaches(c, root, c[pkg].schemaComposes, seen + {pkg});
    }
  }

  lemma {:induction false} FoldAllReaches(c: Catalog, root: string, composes: seq<string>, seen: set<string>)
    requires forall q :: q in composes ==> Reaches(c, root, q)
    ensures var r := FoldAll(c, composes, seen);
      (forall p :: p in r.order ==> Reaches(c, root, p)) && (forall q :: q in r.unknown ==> Reaches(c, root, q))
    decreases |c.Keys - seen|, 1 + |composes|
  {
    if composes != [] {
      if composes[0] in c {
        FoldReaches(c, root, composes[0], seen);
        Narrows(c.Keys, seen, Fold(c, composes[0], seen).seen);
        FoldAllReaches(c, root, composes[1..], Fold(c, composes[0], seen).seen);
      } else {
        FoldAllReaches(c, root, composes[1..], seen);
      }
    }
  }

  lemma {:induction false} PathIsVisited(c: Catalog, r: Folded, from: string, to: string, path: seq<string>)
    requires Visited(c, {}, r) && from in r.order && ComposePath(c, from, to, path)
    ensures to in c ==> to in r.order
    ensures to !in c ==> to in r.unknown
    decreases |path|
  {
    var n := |path| - 1;
    if n > 0 {
      assert ComposePath(c, from, path[n - 1], path[..n]);
      assert Composes(c, path[n - 1], path[n]);
      PathIsVisited(c, r, from, path[n - 1], path[..n]);
    }
  }

  /** The fold is exact: it gathers the keys of exactly the packages reachable along composed
      schemas, every package once however often and however cyclically it is composed; and it
      reports exactly the reachable names that are no package. */
  lemma FoldIsExact(c: Catalog, pkg: string)
    requires pkg in c
    ensures var r := Fold(c, pkg, {});
      && (forall p :: p in r.order <==> p in c && Reaches(c, pkg, p))
      && NoRepeats(r.order) && r.keys == KeysOf(c, r.order)
      && (forall q :: q in r.unknown <==> q !in c && Reaches(c, pkg, q))
  {
    var r := Fold(c, pkg, {});
    FoldVisits(c, pkg, {});
    assert ComposePath(c, pkg, pkg, [pkg]);
    FoldReaches(c, pkg, pkg, {});
    forall p | Reaches(c, pkg, p) ensures if p in c then p in r.order else p in r.unknown {
      var path: seq<string> :| ComposePath(c, pkg, p, path);
      PathIsVisited(c, r, pkg, p, path);
    }
  }
}
