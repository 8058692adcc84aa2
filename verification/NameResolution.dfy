/** `resolveTypeName` of scripts/gen-config-catalog.ts: what a type name of a file means, where imports within
    the package are followed under one name. */
module NameResolution {
  import opened Options
  import opened PasteClosure
  import opened TypeGraph

  // ---------- Resolution ----------

  /** The recursion of the original, cut off after `depth` calls; `None` when it has not returned. */
  function ResolveWithin(w: World, f: FileId, name: string, depth: nat): (r: Option<Meaning>)
    requires Closed(w) && f in w
    decreases depth
  {
    if depth == 0 then None
    else if FindDecl(w[f].decls, name).Some? then Some(Local(DeclId(f, FindDecl(w[f].decls, name).value)))
    else if name !in w[f].imports then Some(Nothing)
    else
      var imp := w[f].imports[name];
      match imp.origin
      case RelativeOther => Some(Nothing)
      case RelativeSource(g) => if imp.imported != name then Some(Nothing) else ResolveWithin(w, g, name, depth - 1)
      case WorkspaceSource(_) => Some(Imported(imp.imported, imp.specifier))
      case External => Some(Imported(imp.imported, imp.specifier))
  }

  /** The file that the recursion goes on to. */
  function NextFile(w: World, f: FileId, name: string): (r: Option<FileId>)
    requires Closed(w) && f in w
    ensures r.Some? ==> r.value in w
  {
    if FindDecl(w[f].decls, name).Some? || name !in w[f].imports then None
    else if w[f].imports[name].origin.RelativeSource? && w[f].imports[name].imported == name
      then Some(w[f].imports[name].origin.file)
    else None
  }

  function Hops(w: World, name: string): FileId -> Option<FileId>
    requires Closed(w)
  {
    (f: FileId) => if f in w then NextFile(w, f, name) else None
  }

  function Iterate(next: FileId -> Option<FileId>, f: FileId, n: nat): Option<FileId> {
    if n == 0 then Some(f) else
      match Iterate(next, f, n - 1) case None => None case Some(g) => next(g)
  }

  /** The file after `n` hops, if there are so many. */
  function FileAfter(w: World, f: FileId, name: string, n: nat): (r: Option<FileId>)
    requires Closed(w) && f in w
  {
    Iterate(Hops(w, name), f, n)
  }

  /** The chain of imports comes back to a file before it meets a declaration. */
  ghost predicate Revisits(w: World, f: FileId, name: string)
    requires Closed(w) && f in w
  {
    exists i, j :: 0 <= i < j && MeetAgain(w, f, name, i, j)
  }

  ghost predicate MeetAgain(w: World, f: FileId, name: string, i: nat, j: nat)
    requires Closed(w) && f in w
  {
    FileAfter(w, f, name, i).Some? && FileAfter(w, f, name, i) == FileAfter(w, f, name, j)
  }

  /** What a name means, with the files on the way remembered: the answer of the recursion, or `Endless`. */
  function ResolveFrom(w: World, f: FileId, name: string, visited: set<FileId>): (r: Meaning)
    requires Closed(w) && f in w
    ensures r.Local? ==> Declares(w, r.decl) && DeclOf(w, r.decl).name == name
    decreases w.Keys - visited
  {
    match NextFile(w, f, name)
    case None => ResolveWithin(w, f, name, 1).value
    case Some(g) => if f in visited then Endless else ResolveFrom(w, g, name, visited + {f})
  }

  function Resolve(w: World, f: FileId, name: string): (r: Meaning)
    requires Closed(w) && f in w
    ensures r.Local? ==> Declares(w, r.decl) && DeclOf(w, r.decl).name == name
  {
    ResolveFrom(w, f, name, {})
  }

  lemma {:induction false} HopFirst(next: FileId -> Option<FileId>, f: FileId, n: nat)
    requires n > 0
    ensures Iterate(next, f, n) == if next(f).Some? then Iterate(next, next(f).value, n - 1) else None
  {
    if n == 1 {
      assert Iterate(next, f, 0) == Some(f);
    } else {
      HopFirst(next, f, n - 1);
    }
  }

  lemma {:induction false} StaysInside(w: World, f: FileId, name: string, n: nat)
    requires Closed(w) && f in w && FileAfter(w, f, name, n).Some?
    ensures FileAfter(w, f, name, n).value in w
  {
    if n > 0 {
      assert Iterate(Hops(w, name), f, n - 1).Some?;
      StaysInside(w, f, name, n - 1);
    }
  }

  /** The recursion has not returned after `depth` calls exactly when there are as many hops. */
  lemma {:induction false} NotReturnedIff(w: World, f: FileId, name: string, depth: nat)
    requires Closed(w) && f in w
    ensures ResolveWithin(w, f, name, depth) == None <==> FileAfter(w, f, name, depth).Some?
    decreases depth
  {
    if depth > 0 {
      HopFirst(Hops(w, name), f, depth);
      if NextFile(w, f, name).Some? {
        NotReturnedIff(w, NextFile(w, f, name).value, name, depth - 1);
      }
    }
  }

  /** When the recursion returns at all, it returns what `ResolveFrom` says. */
  lemma {:induction false} ReturnsSame(w: World, f: FileId, name: string, visited: set<FileId>, depth: nat)
    requires Closed(w) && f in w && ResolveWithin(w, f, name, depth).Some?
    requires ResolveFrom(w, f, name, visited) != Endless
    ensures ResolveWithin(w, f, name, depth) == Some(ResolveFrom(w, f, name, visited))
    decreases depth
  {
    if NextFile(w, f, name).Some? {
      ReturnsSame(w, NextFile(w, f, name).value, name, visited + {f}, depth - 1);
    }
  }

  /** The files of the first `n` hops. */
  ghost function Files(w: World, f: FileId, name: string, n: nat): set<FileId>
    requires Closed(w) && f in w
  {
    set i | 0 <= i < n && FileAfter(w, f, name, i).Some? :: FileAfter(w, f, name, i).value
  }

  /** With the files of the chain so far visited, the answer is `Endless` only if the chain comes back,
      and any other answer is returned within some depth. */
  lemma {:induction false} ChainEnds(w: World, f: FileId, name: string, n: nat, here: FileId)
    requires Closed(w) && f in w && here in w && FileAfter(w, f, name, n) == Some(here)
    ensures ResolveFrom(w, here, name, Files(w, f, name, n)) == Endless ==> Revisits(w, f, name)
    ensures ResolveFrom(w, here, name, Files(w, f, name, n)) != Endless ==>
      exists depth: nat :: ResolveWithin(w, here, name, depth).Some?
    decreases w.Keys - Files(w, f, name, n)
  {
    var visited, next := Files(w, f, name, n), NextFile(w, here, name);
    if next.None? {
      assert ResolveWithin(w, here, name, 1).Some?;
    } else if here in visited {
      var i :| 0 <= i < n && FileAfter(w, f, name, i) == Some(here);
      assert MeetAgain(w, f, name, i, n);
    } else {
      assert FileAfter(w, f, name, n + 1) == next;
      assert Files(w, f, name, n + 1) == visited + {here};
      ChainEnds(w, f, name, n + 1, next.value);
      if ResolveFrom(w, next.value, name, visited + {here}) != Endless {
        var depth: nat :| ResolveWithin(w, next.value, name, depth).Some?;
        assert ResolveWithin(w, here, name, depth + 1) == ResolveWithin(w, next.value, name, depth);
      }
    }
  }

  lemma {:induction false} HopsRepeat(next: FileId -> Option<FileId>, f: FileId, i: nat, j: nat, n: nat)
    requires Iterate(next, f, i) == Iterate(next, f, j)
    ensures Iterate(next, f, i + n) == Iterate(next, f, j + n)
    decreases n
  {
    if n > 0 { HopsRepeat(next, f, i, j, n - 1); }
  }

  lemma {:induction false} EarlierHops(next: FileId -> Option<FileId>, f: FileId, n: nat, j: nat)
    requires n <= j && Iterate(next, f, j).Some?
    ensures Iterate(next, f, n).Some?
    decreases j - n
  {
    if n < j { EarlierHops(next, f, n, j - 1); }
  }

  /** A chain that comes back goes on for ever. */
  lemma {:induction false} NeverOut(next: FileId -> Option<FileId>, f: FileId, i: nat, j: nat, n: nat)
    requires i < j && Iterate(next, f, i).Some? && Iterate(next, f, i) == Iterate(next, f, j)
    ensures Iterate(next, f, n).Some?
    decreases n
  {
    if n > j {
      NeverOut(next, f, i, j, n - (j - i));
      HopsRepeat(next, f, i, j, n - j);
    } else {
      EarlierHops(next, f, n, j);
    }
  }

  /** The recursion of the original never returns exactly when the chain of imports of one name comes
      back to a file before it meets a declaration. */
  lemma EndlessIff(w: World, f: FileId, name: string)
    requires Closed(w) && f in w
    ensures Resolve(w, f, name) == Endless <==> Revisits(w, f, name)
    ensures Resolve(w, f, name) == Endless <==> forall depth: nat :: ResolveWithin(w, f, name, depth) == None
    ensures forall depth: nat :: ResolveWithin(w, f, name, depth).Some? ==>
      ResolveWithin(w, f, name, depth) == Some(Resolve(w, f, name))
  {
    assert Files(w, f, name, 0) == {};
    ChainEnds(w, f, name, 0, f);
    if Revisits(w, f, name) {
      var i, j :| 0 <= i < j && MeetAgain(w, f, name, i, j);
      forall depth: nat ensures ResolveWithin(w, f, name, depth) == None {
        NeverOut(Hops(w, name), f, i, j, depth);
        NotReturnedIff(w, f, name, depth);
      }
    }
    forall depth: nat | ResolveWithin(w, f, name, depth).Some?
      ensures ResolveWithin(w, f, name, depth) == Some(Resolve(w, f, name))
    {
      ReturnsSame(w, f, name, {}, depth);
    }
  }

  /** Two files that import `X` from each other. */
  function Circle(): World {
    map["a.ts" := File([], map["X" := Import("X", "./b.ts", RelativeSource("b.ts"))], [], map[]),
        "b.ts" := File([], map["X" := Import("X", "./a.ts", RelativeSource("a.ts"))], [], map[])]
  }

  lemma CircleHops()
    ensures Closed(Circle())
    ensures NextFile(Circle(), "a.ts", "X") == Some("b.ts") && NextFile(Circle(), "b.ts", "X") == Some("a.ts")
  {
    var w := Circle();
    assert FindDecl(w["a.ts"].decls, "X") == None && FindDecl(w["b.ts"].decls, "X") == None;
  }

  /** Two files that lead to each other are a circle. */
  lemma TwoHopsBack(w: World, f: FileId, g: FileId, name: string)
    requires Closed(w) && f in w && g in w && NextFile(w, f, name) == Some(g) && NextFile(w, g, name) == Some(f)
    ensures Revisits(w, f, name)
  {
    var next := Hops(w, name);
    assert Iterate(next, f, 0) == Some(f) && Iterate(next, f, 1) == next(f) && Iterate(next, f, 2) == next(g);
    assert MeetAgain(w, f, name, 0, 2);
  }

  lemma CircleIsEndless()
    ensures Closed(Circle()) && Resolve(Circle(), "a.ts", "X") == Endless
    ensures forall depth: nat :: ResolveWithin(Circle(), "a.ts", "X", depth) == None
  {
    CircleHops();
    TwoHopsBack(Circle(), "a.ts", "b.ts", "X");
    EndlessIff(Circle(), "a.ts", "X");
  }

  // ---------- What a name means, told by the files ----------

  /** The file imports the name, under that name, from another file of the package. */
  ghost predicate PassesTo(w: World, name: string, f: FileId, g: FileId) {
    Undeclared(w, f, name) && name in w[f].imports &&
    w[f].imports[name].imported == name && w[f].imports[name].origin == RelativeSource(g)
  }

  ghost predicate ImportChain(w: World, name: string, path: seq<FileId>) {
    path != [] && forall i :: 0 <= i < |path| - 1 ==> PassesTo(w, name, path[i], path[i + 1])
  }

  /** The file declares the name, imports it from elsewhere, or knows nothing of it. */
  ghost predicate SaysHere(w: World, f: FileId, name: string, meaning: Meaning) {
    match meaning
    case Local(d) => DeclaredFirst(w, f, name, d)
    case Imported(imported, specifier) =>
      Undeclared(w, f, name) && name in w[f].imports && w[f].imports[name].imported == imported &&
      w[f].imports[name].specifier == specifier &&
      (w[f].imports[name].origin.External? || w[f].imports[name].origin.WorkspaceSource?)
    case Nothing =>
      Undeclared(w, f, name) &&
      (name !in w[f].imports || w[f].imports[name].origin.RelativeOther? ||
       (w[f].imports[name].origin.RelativeSource? && w[f].imports[name].imported != name))
    case Endless => false
  }

  /** At the end of the imports of the name stands a file that gives it this meaning. */
  ghost predicate Means(w: World, f: FileId, name: string, meaning: Meaning) {
    exists path :: ImportChain(w, name, path) && path[0] == f && SaysHere(w, path[|path| - 1], name, meaning)
  }

  lemma OneStep(w: World, f: FileId, name: string)
    requires Closed(w) && f in w
    ensures forall g :: PassesTo(w, name, f, g) <==> NextFile(w, f, name) == Some(g)
    ensures forall m :: SaysHere(w, f, name, m) <==>
      NextFile(w, f, name) == None && ResolveWithin(w, f, name, 1) == Some(m)
  {
    var decls := w[f].decls;
    forall d | DeclaredFirst(w, f, name, d) ensures FindDecl(decls, name) == Some(d.index) {}
  }

  lemma MeansHere(w: World, f: FileId, name: string, meaning: Meaning)
    requires SaysHere(w, f, name, meaning)
    ensures Means(w, f, name, meaning)
  {
    assert ImportChain(w, name, [f]) && [f][0] == f;
  }

  lemma MeansOnward(w: World, f: FileId, g: FileId, name: string, meaning: Meaning)
    requires PassesTo(w, name, f, g) && Means(w, g, name, meaning)
    ensures Means(w, f, name, meaning)
  {
    var path :| ImportChain(w, name, path) && path[0] == g && SaysHere(w, path[|path| - 1], name, meaning);
    var longer := [f] + path;
    forall i | 0 <= i < |longer| - 1 ensures PassesTo(w, name, longer[i], longer[i + 1]) {
      if i > 0 { assert PassesTo(w, name, path[i - 1], path[i]); }
    }
    assert longer[|longer| - 1] == path[|path| - 1];
  }

  lemma {:induction false} ResolvedMeans(w: World, f: FileId, name: string, visited: set<FileId>)
    requires Closed(w) && f in w && ResolveFrom(w, f, name, visited) != Endless
    ensures Means(w, f, name, ResolveFrom(w, f, name, visited))
    decreases w.Keys - visited
  {
    OneStep(w, f, name);
    match NextFile(w, f, name)
    case None => MeansHere(w, f, name, ResolveFrom(w, f, name, visited));
    case Some(g) =>
      ResolvedMeans(w, g, name, visited + {f});
      MeansOnward(w, f, g, name, ResolveFrom(w, f, name, visited));
  }

  lemma {:induction false} MeantReturns(w: World, name: string, path: seq<FileId>, meaning: Meaning)
    requires Closed(w) && ImportChain(w, name, path) && SaysHere(w, path[|path| - 1], name, meaning)
    ensures path[0] in w && ResolveWithin(w, path[0], name, |path|) == Some(meaning)
    decreases |path|
  {
    if |path| > 1 {
      assert PassesTo(w, name, path[0], path[1]);
      var rest := path[1..];
      forall i | 0 <= i < |rest| - 1 ensures PassesTo(w, name, rest[i], rest[i + 1]) {
        assert PassesTo(w, name, path[i + 1], path[i + 2]);
      }
      MeantReturns(w, name, rest, meaning);
    }
    assert path[0] in w by {
      if |path| == 1 { assert SaysHere(w, path[0], name, meaning); }
    }
    OneStep(w, path[0], name);
  }

  /** The resolution returns exactly what the files say. */
  lemma ResolveMeans(w: World, f: FileId, name: string, meaning: Meaning)
    requires Closed(w) && f in w && meaning != Endless
    ensures Resolve(w, f, name) == meaning <==> Means(w, f, name, meaning)
  {
    if Resolve(w, f, name) == meaning { ResolvedMeans(w, f, name, {}); }
    if Means(w, f, name, meaning) {
      var path :| ImportChain(w, name, path) && path[0] == f && SaysHere(w, path[|path| - 1], name, meaning);
      MeantReturns(w, name, path, meaning);
      EndlessIff(w, f, name);
    }
  }
}
