/** Pasting a config type of a source tree, scripts/gen-config-catalog.ts: what the fence then holds, told by the
    declarations and imports of the files. */
module ConfigPaste {
  import opened DeclarationNames
  import opened NameResolution
  import opened PasteClosure
  import opened TypeGraph

  function NamesOf(w: World, globals: set<string>): Names
    requires Closed(w)
  {
    Names((j: Job) => if j.from in w then Resolve(w, j.from, j.name) else Nothing,
          (d: DeclId) => if d.file in w && d.index < |w[d.file].decls|
            then Without(TypeNames(w[d.file].decls[d.index]), globals) else [])
  }

  ghost function DeclNames(w: World): set<string> {
    set f, i | f in w && 0 <= i < |w[f].decls| :: w[f].decls[i].name
  }

  // ---------- What is to be pasted, told by the files ----------

  /** The declaration mentions the name somewhere, and the name is not a global one. */
  ghost predicate Mentioned(w: World, globals: set<string>, d: DeclId, name: string) {
    Declares(w, d) && Refers(DeclOf(w, d), name) && name !in globals
  }

  /** A name in `d` means the declaration `e`. */
  ghost predicate Draws(w: World, globals: set<string>, d: DeclId, e: DeclId) {
    exists name :: Mentioned(w, globals, d, name) && Means(w, d.file, name, Local(e))
  }

  ghost predicate DrawPath(w: World, globals: set<string>, root: Job, path: seq<DeclId>) {
    path != [] && Means(w, root.from, root.name, Local(path[0])) &&
    forall i :: 0 <= i < |path| - 1 ==> Draws(w, globals, path[i], path[i + 1])
  }

  /** The declaration is the config type, or a declaration drawn in after it. */
  ghost predicate Drawn(w: World, globals: set<string>, root: Job, d: DeclId) {
    exists path :: DrawPath(w, globals, root, path) && path[|path| - 1] == d
  }

  /** The name stands in a file that is drawn in. */
  ghost predicate StandsIn(w: World, globals: set<string>, root: Job, j: Job) {
    j == root || exists d :: Drawn(w, globals, root, d) && d.file == j.from && Mentioned(w, globals, d, j.name)
  }

  /** Every name that stands somewhere is declared or imported, the name of the config type is declared, and no two
      occurrences of a name differ in what they mean. */
  ghost predicate ClearlyNamed(rootName: string, stands: Job -> bool, means: (Job, Meaning) -> bool) {
    && (forall j :: stands(j) ==> exists m: Meaning :: means(j, m) && (m.Imported? || m.Local?))
    && (forall j, m :: stands(j) && j.name == rootName && means(j, m) ==> m.Local?)
    && (forall j, k, l, m :: stands(j) && stands(k) && j.name == k.name && means(j, l) && means(k, m) ==> l == m)
  }

  ghost function Standing(w: World, globals: set<string>, root: Job): Job -> bool {
    (j: Job) => StandsIn(w, globals, root, j)
  }

  ghost function FilesSay(w: World): (Job, Meaning) -> bool {
    (j: Job, m: Meaning) => Means(w, j.from, j.name, m)
  }

  /** The names in what is drawn in are clear, by what the files say. */
  ghost predicate Pasteable(w: World, globals: set<string>, root: Job) {
    ClearlyNamed(root.name, Standing(w, globals, root), FilesSay(w))
  }

  /** The fence of a pasteable config type starts with its declaration, holds every declaration drawn in and no
      other, and renders every name in them as the file of the declaration means it. */
  ghost predicate Renders(w: World, globals: set<string>, root: Job, s: Fence) {
    && s.pastes != [] && Means(w, root.from, root.name, Local(s.pastes[0]))
    && (forall d :: d in s.pastes <==> Drawn(w, globals, root, d))
    && (forall d, name :: d in s.pastes && Mentioned(w, globals, d, name) ==>
          exists m :: Means(w, d.file, name, m) && RenderedAs(s, name, m))
    && forall name :: name in s.refs ==>
         exists d :: d in s.pastes && Mentioned(w, globals, d, name) && Means(w, d.file, name, s.refs[name])
  }

  // ---------- The worklist sees the same ----------

  lemma MentionsAre(w: World, globals: set<string>, d: DeclId, name: string)
    requires Closed(w)
    ensures name in NamesOf(w, globals).mentioned(d) <==> Mentioned(w, globals, d, name)
  {
    if Declares(w, d) { TypeNamesAreAll(DeclOf(w, d), name); }
  }

  lemma MeaningIs(w: World, globals: set<string>, j: Job, meaning: Meaning)
    requires Closed(w) && j.from in w && meaning != Endless
    ensures NamesOf(w, globals).meaning(j) == meaning <==> Means(w, j.from, j.name, meaning)
  {
    ResolveMeans(w, j.from, j.name, meaning);
  }

  lemma DrawnFurther(w: World, globals: set<string>, root: Job, d: DeclId, e: DeclId)
    requires Drawn(w, globals, root, d) && Draws(w, globals, d, e)
    ensures Drawn(w, globals, root, e)
  {
    var path :| DrawPath(w, globals, root, path) && path[|path| - 1] == d;
    var longer := path + [e];
    forall i | 0 <= i < |longer| - 1 ensures Draws(w, globals, longer[i], longer[i + 1]) {
      if i < |path| - 1 { assert Draws(w, globals, path[i], path[i + 1]); }
    }
    assert DrawPath(w, globals, root, longer) && longer[|longer| - 1] == e;
  }

  lemma StandingIsDrawn(w: World, globals: set<string>, root: Job, j: Job, d: DeclId)
    requires StandsIn(w, globals, root, j) && Means(w, j.from, j.name, Local(d))
    ensures Drawn(w, globals, root, d)
  {
    if j == root {
      assert DrawPath(w, globals, root, [d]);
    } else {
      var from :| Drawn(w, globals, root, from) && from.file == j.from && Mentioned(w, globals, from, j.name);
      assert Draws(w, globals, from, d);
      DrawnFurther(w, globals, root, from, d);
    }
  }

  lemma {:induction false} MetStands(w: World, globals: set<string>, root: Job, path: seq<Job>, j: Job)
    requires Closed(w) && root.from in w && Chain(NamesOf(w, globals), root, path, j)
    ensures j.from in w && StandsIn(w, globals, root, j)
    decreases |path|
  {
    var ns, n := NamesOf(w, globals), |path| - 1;
    if n > 0 {
      var before := path[n - 1];
      assert Chain(ns, root, path[..n], before);
      MetStands(w, globals, root, path[..n], before);
      assert Mentions(ns, path[n - 1], path[n]);
      var d := ns.meaning(before).decl;
      MeaningIs(w, globals, before, Local(d));
      StandingIsDrawn(w, globals, root, before, d);
      MentionsAre(w, globals, d, j.name);
    }
  }

  lemma {:induction false} DrawnIsMet(w: World, globals: set<string>, root: Job, path: seq<DeclId>) returns (j: Job)
    requires Closed(w) && root.from in w && DrawPath(w, globals, root, path)
    ensures Met(NamesOf(w, globals), root, j) && NamesOf(w, globals).meaning(j) == Local(path[|path| - 1])
    decreases |path|
  {
    var ns, n := NamesOf(w, globals), |path| - 1;
    if n == 0 {
      j := root;
      RootIsMet(ns, root);
      MeaningIs(w, globals, root, Local(path[0]));
    } else {
      var before := DrawnIsMet(w, globals, root, path[..n]);
      var d := path[n - 1];
      assert Draws(w, globals, path[n - 1], path[n]);
      var name :| Mentioned(w, globals, d, name) && Means(w, d.file, name, Local(path[n]));
      j := Job(name, d.file);
      MentionsAre(w, globals, d, name);
      MeaningIs(w, globals, j, Local(path[n]));
      MentionedIsMet(ns, root, before, j);
    }
  }

  /** A name is met exactly when it stands in what is drawn in. */
  lemma MetIff(w: World, globals: set<string>, root: Job, j: Job)
    requires Closed(w) && root.from in w
    ensures Met(NamesOf(w, globals), root, j) <==> StandsIn(w, globals, root, j)
    ensures StandsIn(w, globals, root, j) ==> j.from in w
  {
    var ns := NamesOf(w, globals);
    if Met(ns, root, j) {
      var path: seq<Job> :| Chain(ns, root, path, j);
      MetStands(w, globals, root, path, j);
    }
    if StandsIn(w, globals, root, j) {
      if j == root {
        RootIsMet(ns, root);
      } else {
        var d :| Drawn(w, globals, root, d) && d.file == j.from && Mentioned(w, globals, d, j.name);
        var path :| DrawPath(w, globals, root, path) && path[|path| - 1] == d;
        var before := DrawnIsMet(w, globals, root, path);
        MentionsAre(w, globals, d, j.name);
        MentionedIsMet(ns, root, before, j);
      }
    }
  }

  lemma DrawnIff(w: World, globals: set<string>, root: Job, d: DeclId)
    requires Closed(w) && root.from in w
    ensures Drawn(w, globals, root, d) <==>
      exists j :: Met(NamesOf(w, globals), root, j) && NamesOf(w, globals).meaning(j) == Local(d)
  {
    if Drawn(w, globals, root, d) {
      var path :| DrawPath(w, globals, root, path) && path[|path| - 1] == d;
      var j := DrawnIsMet(w, globals, root, path);
    }
    forall j | Met(NamesOf(w, globals), root, j) && NamesOf(w, globals).meaning(j) == Local(d)
      ensures Drawn(w, globals, root, d)
    {
      MetIff(w, globals, root, j);
      MeaningIs(w, globals, j, Local(d));
      StandingIsDrawn(w, globals, root, j, d);
    }
  }

  lemma MeaningSome(w: World, globals: set<string>, j: Job)
    requires Closed(w) && j.from in w
    ensures NamesOf(w, globals).meaning(j) != Endless ==> Means(w, j.from, j.name, NamesOf(w, globals).meaning(j))
    ensures forall m: Meaning :: Means(w, j.from, j.name, m) ==> NamesOf(w, globals).meaning(j) == m
  {
    if NamesOf(w, globals).meaning(j) != Endless { MeaningIs(w, globals, j, NamesOf(w, globals).meaning(j)); }
    forall m: Meaning | Means(w, j.from, j.name, m) ensures NamesOf(w, globals).meaning(j) == m {
      MeaningIs(w, globals, j, m);
    }
  }

  ghost predicate Agrees(meaning: Job -> Meaning, stands: Job -> bool, means: (Job, Meaning) -> bool) {
    && (forall j :: stands(j) && meaning(j) != Endless ==> means(j, meaning(j)))
    && (forall j, m :: stands(j) && means(j, m) ==> meaning(j) == m)
  }

  lemma UnambiguousBy(rootName: string, meaning: Job -> Meaning, stands: Job -> bool, means: (Job, Meaning) -> bool)
    requires Agrees(meaning, stands, means)
    ensures ClearlyNamed(rootName, stands, means) <==>
      (forall j :: stands(j) ==> meaning(j).Local? || meaning(j).Imported?) &&
      (forall j :: stands(j) && j.name == rootName ==> meaning(j).Local?) &&
      (forall j, k :: stands(j) && stands(k) && j.name == k.name ==> meaning(j) == meaning(k))
  {
    if forall j :: stands(j) ==> meaning(j).Local? || meaning(j).Imported? {
      forall j | stands(j) ensures exists m: Meaning :: means(j, m) && (m.Imported? || m.Local?) {
        assert means(j, meaning(j));
      }
    }
  }

  lemma PasteableIff(w: World, globals: set<string>, root: Job)
    requires Closed(w) && root.from in w
    ensures Unambiguous(NamesOf(w, globals), root) <==> Pasteable(w, globals, root)
  {
    var meaning, stands, means := NamesOf(w, globals).meaning, Standing(w, globals, root), FilesSay(w);
    forall j ensures Met(NamesOf(w, globals), root, j) <==> stands(j) { MetIff(w, globals, root, j); }
    forall j | stands(j)
      ensures meaning(j) != Endless ==> means(j, meaning(j))
      ensures forall m: Meaning :: means(j, m) ==> meaning(j) == m
    {
      MetIff(w, globals, root, j);
      MeaningSome(w, globals, j);
    }
    UnambiguousBy(root.name, meaning, stands, means);
  }

  lemma PastedIsMet(ns: Names, root: Job, s: Fence, d: DeclId)
    requires Faithful(ns, root, s) && s.violations == []
    ensures d in s.pastes <==> exists j :: Met(ns, root, j) && ns.meaning(j) == Local(d)
  {
    if d in s.pastes {
      var n :| n in s.pasted && s.pasted[n] == d;
      assert MetAs(ns, root, n, Local(d));
    }
    forall j | Met(ns, root, j) && ns.meaning(j) == Local(d) ensures d in s.pastes { assert Rendered(ns, s, j); }
  }

  lemma ReferenceIsMet(ns: Names, root: Job, s: Fence, name: string) returns (j: Job)
    requires Faithful(ns, root, s) && s.violations == [] && name in s.refs
    ensures j.name == name && j != root && Met(ns, root, j) && ns.meaning(j) == s.refs[name]
    ensures s.refs[name] != Endless
  {
    var f: FileId :| Met(ns, root, Job(name, f)) && ns.meaning(Job(name, f)) == s.refs[name];
    j := Job(name, f);
    RootIsMet(ns, root);
    assert Rendered(ns, s, j) && Rendered(ns, s, root);
  }

  lemma PastesAreDrawn(w: World, globals: set<string>, root: Job, s: Fence, d: DeclId)
    requires Closed(w) && root.from in w && Faithful(NamesOf(w, globals), root, s) && s.violations == []
    ensures d in s.pastes <==> Drawn(w, globals, root, d)
  {
    DrawnIff(w, globals, root, d);
    PastedIsMet(NamesOf(w, globals), root, s, d);
  }

  lemma MentionIsRendered(w: World, globals: set<string>, root: Job, s: Fence, d: DeclId, name: string)
    requires Closed(w) && root.from in w && Faithful(NamesOf(w, globals), root, s) && s.violations == []
    requires Drawn(w, globals, root, d) && Mentioned(w, globals, d, name)
    ensures exists m :: Means(w, d.file, name, m) && RenderedAs(s, name, m)
  {
    var ns, j := NamesOf(w, globals), Job(name, d.file);
    assert StandsIn(w, globals, root, j);
    MetIff(w, globals, root, j);
    MeaningSome(w, globals, j);
    assert Rendered(ns, s, j);
  }

  lemma ReferenceIsMentioned(w: World, globals: set<string>, root: Job, s: Fence, name: string)
    requires Closed(w) && root.from in w && Faithful(NamesOf(w, globals), root, s) && s.violations == []
    requires name in s.refs
    ensures exists d :: d in s.pastes && Mentioned(w, globals, d, name) && Means(w, d.file, name, s.refs[name])
  {
    var j := ReferenceIsMet(NamesOf(w, globals), root, s, name);
    MetIff(w, globals, root, j);
    MeaningIs(w, globals, j, s.refs[name]);
    var d :| Drawn(w, globals, root, d) && d.file == j.from && Mentioned(w, globals, d, j.name);
    PastesAreDrawn(w, globals, root, s, d);
  }

  /** A fence that is faithful to the closure of the worklist renders what the files say. */
  lemma FaithfulRenders(w: World, globals: set<string>, root: Job, s: Fence)
    requires Closed(w) && root.from in w && Faithful(NamesOf(w, globals), root, s)
    ensures s.violations == [] <==> Pasteable(w, globals, root)
    ensures s.violations == [] ==> Renders(w, globals, root, s)
  {
    var ns := NamesOf(w, globals);
    PasteableIff(w, globals, root);
    if s.violations == [] {
      RootIsMet(ns, root);
      assert Rendered(ns, s, root);
      MeaningIs(w, globals, root, Local(s.pastes[0]));
      forall d ensures d in s.pastes <==> Drawn(w, globals, root, d) { PastesAreDrawn(w, globals, root, s, d); }
      forall d, name | d in s.pastes && Mentioned(w, globals, d, name)
        ensures exists m :: Means(w, d.file, name, m) && RenderedAs(s, name, m)
      {
        MentionIsRendered(w, globals, root, s, d, name);
      }
      forall name | name in s.refs
        ensures exists d :: d in s.pastes && Mentioned(w, globals, d, name) && Means(w, d.file, name, s.refs[name])
      {
        ReferenceIsMentioned(w, globals, root, s, name);
      }
    }
  }

  /** Paste a config type of a source tree: it ends exactly when no name that is processed has imports that go
      round in a circle; and where no name is met with two meanings, exactly when no name that stands in what is
      drawn in has such imports.  It is then refused exactly when it is not pasteable, and rendered otherwise. */
  method PasteConfigType(w: World, entry: FileId, name: string, globals: set<string>) returns (s: Fence, ended: bool)
    requires Closed(w) && entry in w
    ensures var ns, root := NamesOf(w, globals), Job(name, entry);
      && (ended <==> forall j :: Processed(ns, root, s, j) && j.from in w ==> !Revisits(w, j.from, j.name))
      && (OneMeaningEach(ns, root) ==> (ended <==>
        forall j :: StandsIn(w, globals, root, j) ==> !Revisits(w, j.from, j.name)))
      && (ended ==> Faithful(ns, root, s))
    ensures ended ==> (s.violations == [] <==> Pasteable(w, globals, Job(name, entry)))
    ensures ended && s.violations == [] ==> Renders(w, globals, Job(name, entry), s)
  {
    var ns, root := NamesOf(w, globals), Job(name, entry);
    forall j | ns.meaning(j).Local? ensures j.name in DeclNames(w) {
      var d := Resolve(w, j.from, j.name).decl;
      assert w[d.file].decls[d.index].name == j.name;
    }
    s, ended := Paste(ns, root, DeclNames(w));
    forall j: Job | j.from in w ensures ns.meaning(j).Endless? <==> Revisits(w, j.from, j.name) {
      EndlessIff(w, j.from, j.name);
    }
    forall j: Job ensures Met(ns, root, j) <==> StandsIn(w, globals, root, j) { MetIff(w, globals, root, j); }
    forall j: Job | StandsIn(w, globals, root, j) ensures j.from in w { MetIff(w, globals, root, j); }
    if ended { FaithfulRenders(w, globals, root, s); }
  }
}
