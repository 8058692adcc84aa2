/** Which declaration `findExportedTypeDecl` of scripts/gen-config-catalog.ts finds when several can be
    reached: the one at the end of the first path, where a path never comes back to a key of its own. */
module SearchOrder {
  import opened Collections
  import opened Options
  import opened TypeGraph

  /** A chain of re-exports that stays outside of `shut`. */
  ghost predicate OpenPath(w: World, path: seq<ExportKey>, shut: set<ExportKey>) {
    path != [] && ForwardPath(w, path) && forall k :: k in path ==> k !in shut
  }

  /** Outside of `shut`, `k` leads to a declaration. */
  ghost predicate LeadsOn(w: World, k: ExportKey, shut: set<ExportKey>) {
    exists path :: OpenPath(w, path, shut) && path[0] == k && DeclaredAt(w, path[|path| - 1])
  }

  /** Statement `i` forwards to `next`, and no earlier one leads to a declaration. */
  ghost predicate Picks(w: World, k: ExportKey, next: ExportKey, i: nat, shut: set<ExportKey>)
    requires k.file in w
  {
    ForwardsAt(w, k, i, next) && NoneBefore(w, k, i, shut)
  }

  ghost predicate NoneBefore(w: World, k: ExportKey, i: nat, shut: set<ExportKey>)
    requires k.file in w
  {
    forall j: nat, to :: j < i && ForwardsAt(w, k, j, to) ==> !LeadsOn(w, to, shut)
  }

  /** The path goes by the first statement that leads on, away from where it has been, and ends at the first
      key whose name is declared in its file. */
  ghost predicate ComesFirst(w: World, path: seq<ExportKey>, shut: set<ExportKey>, d: DeclId)
    decreases |path|
  {
    path != [] && path[0].file in w && path[0] !in shut &&
    if |path| == 1 then IsLocal(w, path[0], d)
    else
      && !DeclaredAt(w, path[0])
      && (exists i: nat :: Picks(w, path[0], path[1], i, shut + {path[0]}))
      && ComesFirst(w, path[1..], shut + {path[0]}, d)
  }

  ghost predicate FirstDeclared(w: World, k: ExportKey, shut: set<ExportKey>, d: DeclId) {
    exists path :: path != [] && path[0] == k && ComesFirst(w, path, shut, d)
  }

  // ---------- The search takes the first path ----------

  /** Inside of an exhausted set nothing is declared, and the only way out is through `shut`. */
  lemma {:induction false} ShutOff(w: World, shut: set<ExportKey>, seen: set<ExportKey>, path: seq<ExportKey>)
    requires Exhausted(w, shut, seen) && OpenPath(w, path, shut) && path[0] in seen
    ensures !DeclaredAt(w, path[|path| - 1])
  {
    if |path| > 1 {
      assert Forwards(w, path[0], path[1]) && path[1] in path;
      forall i | 0 <= i < |path[1..]| - 1 ensures Forwards(w, path[1..][i], path[1..][i + 1]) {
        assert Forwards(w, path[i + 1], path[i + 2]);
      }
      ShutOff(w, shut, seen, path[1..]);
    }
  }

  lemma NothingBeyond(w: World, shut: set<ExportKey>, seen: set<ExportKey>, k: ExportKey)
    requires Exhausted(w, shut, seen) && k in seen
    ensures !LeadsOn(w, k, shut)
  {
    forall path | OpenPath(w, path, shut) && path[0] == k ensures !DeclaredAt(w, path[|path| - 1]) {
      ShutOff(w, shut, seen, path);
    }
  }

  lemma OneMoreShut(w: World, shut: set<ExportKey>, seen: set<ExportKey>, k: ExportKey)
    requires Exhausted(w, shut, seen)
    ensures Exhausted(w, shut + {k}, seen + {k})
  {
  }

  /** Some statement is picked, and behind it `d` comes first. */
  ghost predicate PicksTo(w: World, k: ExportKey, shut: set<ExportKey>, d: DeclId)
    requires k.file in w
  {
    exists next, i: nat :: Picks(w, k, next, i, shut) && FirstDeclared(w, next, shut, d)
  }

  lemma FirstThrough(w: World, k: ExportKey, shut: set<ExportKey>, d: DeclId)
    requires k.file in w && k !in shut && !DeclaredAt(w, k) && PicksTo(w, k, shut + {k}, d)
    ensures FirstDeclared(w, k, shut, d)
  {
    var next, i: nat :| Picks(w, k, next, i, shut + {k}) && FirstDeclared(w, next, shut + {k}, d);
    var path :| path != [] && path[0] == next && ComesFirst(w, path, shut + {k}, d);
    var longer := [k] + path;
    assert longer[1..] == path && longer[1] == next;
    assert ComesFirst(w, longer, shut, d);
  }

  lemma {:induction false} HitComesFirst(w: World, k: ExportKey, shut: set<ExportKey>, seen: set<ExportKey>,
                                         names: set<string>)
    requires Closed(w) && k.file in w && k.name in names && NamesClosed(w, names)
    requires shut <= seen && Exhausted(w, shut, seen)
    ensures var r := FindExported(w, k, seen, names);
      if r.hit.Some? then FirstDeclared(w, k, shut, r.hit.value) else !LeadsOn(w, k, shut)
    decreases |AllKeys(w, names) - seen|, 0
  {
    var r := FindExported(w, k, seen, names);
    MissExhausts(w, k, seen, names);
    if r.hit.None? {
      ExhaustedChains(w, shut, seen, r.seen);
      NothingBeyond(w, shut, r.seen, k);
    } else if DeclaredAt(w, k) {
      assert ComesFirst(w, [k], shut, r.hit.value);
    } else {
      Shrinks(AllKeys(w, names), seen, k);
      OneMoreShut(w, shut, seen, k);
      ScanTakesFirst(w, k, 0, shut + {k}, seen + {k}, names);
      FirstThrough(w, k, shut, r.hit.value);
    }
  }

  lemma NoneUpTo(w: World, k: ExportKey, i: nat, shut: set<ExportKey>)
    requires k.file in w && NoneBefore(w, k, i, shut) && forall to :: ForwardsAt(w, k, i, to) ==> !LeadsOn(w, to, shut)
    ensures NoneBefore(w, k, i + 1, shut)
  {
    forall j: nat, to | j < i + 1 && ForwardsAt(w, k, j, to) ensures !LeadsOn(w, to, shut) {
      if j < i { assert NoneBefore(w, k, i, shut); }
    }
  }

  lemma {:induction false} ScanTakesFirst(w: World, k: ExportKey, i: nat, shut: set<ExportKey>, seen: set<ExportKey>,
                                          names: set<string>)
    requires Closed(w) && k.file in w && k.name in names && NamesClosed(w, names) && i <= |w[k.file].reExports|
    requires shut <= seen && Exhausted(w, shut, seen) && NoneBefore(w, k, i, shut)
    ensures var r := ScanReExports(w, k, i, seen, names); r.hit.Some? ==> PicksTo(w, k, shut, r.hit.value)
    decreases |AllKeys(w, names) - seen|, 1 + |w[k.file].reExports| - i
  {
    if i < |w[k.file].reExports| {
      var stmt := w[k.file].reExports[i];
      var lookFor := LookFor(stmt, k.name);
      if lookFor.None? {
        NoneUpTo(w, k, i, shut);
        ScanTakesFirst(w, k, i + 1, shut, seen, names);
      } else {
        var next := ExportKey(stmt.origin.file, lookFor.value);
        var r := FindExported(w, next, seen, names);
        HitComesFirst(w, next, shut, seen, names);
        Narrows(AllKeys(w, names), seen, r.seen);
        if r.hit.Some? {
          assert Picks(w, k, next, i, shut);
        } else {
          MissExhausts(w, next, seen, names);
          ExhaustedChains(w, shut, seen, r.seen);
          NoneUpTo(w, k, i, shut);
          ScanTakesFirst(w, k, i + 1, shut, r.seen, names);
        }
      }
    }
  }

  // ---------- There is only one first path ----------

  lemma {:induction false} FirstLeadsOn(w: World, path: seq<ExportKey>, shut: set<ExportKey>, d: DeclId)
    requires path != [] && ComesFirst(w, path, shut, d)
    ensures OpenPath(w, path, shut) && DeclaredAt(w, path[|path| - 1])
  {
    if |path| > 1 {
      FirstLeadsOn(w, path[1..], shut + {path[0]}, d);
      assert Forwards(w, path[0], path[1]);
      forall i | 0 <= i < |path| - 1 ensures Forwards(w, path[i], path[i + 1]) {
        if i > 0 { assert Forwards(w, path[1..][i - 1], path[1..][i]); }
      }
      forall k | k in path ensures k !in shut {
        if k != path[0] { assert k in path[1..]; }
      }
    }
  }

  lemma NextLeadsOn(w: World, path: seq<ExportKey>, shut: set<ExportKey>, d: DeclId)
    requires |path| > 1 && ComesFirst(w, path, shut, d)
    ensures LeadsOn(w, path[1], shut + {path[0]})
  {
    FirstLeadsOn(w, path[1..], shut + {path[0]}, d);
  }

  lemma {:induction false} FirstIsUnique(w: World, p: seq<ExportKey>, q: seq<ExportKey>, shut: set<ExportKey>,
                                         d: DeclId, e: DeclId)
    requires p != [] && q != [] && p[0] == q[0] && ComesFirst(w, p, shut, d) && ComesFirst(w, q, shut, e)
    ensures d == e
    decreases |p|
  {
    if |p| > 1 && |q| > 1 {
      var k := p[0];
      var i: nat :| Picks(w, k, p[1], i, shut + {k});
      var j: nat :| Picks(w, k, q[1], j, shut + {k});
      NextLeadsOn(w, p, shut, d);
      NextLeadsOn(w, q, shut, e);
      assert i == j;
      FirstIsUnique(w, p[1..], q[1..], shut + {k}, d, e);
    }
  }

  /** The search answers with the declaration at the end of the first path, whatever it visits on the way. */
  lemma SearchTakesFirst(w: World, f: FileId, name: string, d: DeclId)
    requires Closed(w) && f in w
    ensures FindExportedTypeDecl(w, f, name) == Some(d) <==> FirstDeclared(w, ExportKey(f, name), {}, d)
  {
    var k := ExportKey(f, name);
    NamesAreClosed(w, name);
    HitComesFirst(w, k, {}, {}, SearchNames(w, name));
    if FirstDeclared(w, k, {}, d) {
      var path :| path != [] && path[0] == k && ComesFirst(w, path, {}, d);
      FirstLeadsOn(w, path, {}, d);
      var e := FindExportedTypeDecl(w, f, name).value;
      var other :| other != [] && other[0] == k && ComesFirst(w, other, {}, e);
      FirstIsUnique(w, path, other, {}, d, e);
    }
  }
}
