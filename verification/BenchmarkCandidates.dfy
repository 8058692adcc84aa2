/** `discoverBenchmarkCandidates` of scripts/benchmark-next-package-dependency.ts: a breadth-first search
    with a cursor over the packages that an installation reaches. */
module BenchmarkCandidates {
  import opened Collections
  import opened Options
  import opened Sorting

  /** The keys of each dependency section, and the peers whose metadata say optional. */
  datatype Manifest = Manifest(
    dependencies: seq<string>, optionalDependencies: seq<string>, peerDependencies: seq<string>,
      optionalPeers: set<string>)

  datatype World = World(
    index: map<string, map<string, Manifest>>, workspaceVersions: map<string, string>,
    release: set<string>, policy: set<string>, le: (string, string) -> bool)

  const TARGET_PACKAGE := "@qilin-agent/cli"
  const CORDIS := "@qilin-agent/kylin"

  /** The manifest in the registry of a package at its workspace version. */
  function Published(w: World, name: string): Option<Manifest> {
    if name in w.workspaceVersions && name in w.index && w.workspaceVersions[name] in w.index[name]
    then Some(w.index[name][w.workspaceVersions[name]]) else None
  }

  /** Object keys: each once. */
  function Once(names: seq<string>): seq<string> {
    if names == [] then [] else
      var before, last := Once(names[..|names| - 1]), names[|names| - 1];
      if last in before then before else before + [last]
  }

  function Without(names: seq<string>, dropped: set<string>): seq<string> {
    if names == [] then [] else
      var before, last := Without(names[..|names| - 1], dropped), names[|names| - 1];
      if last in dropped then before else before + [last]
  }

  function Installed(m: Manifest): seq<string> {
    Once(m.dependencies + m.optionalDependencies + Without(m.peerDependencies, m.optionalPeers))
  }

  /** An installation of `name` brings `dependency` along. */
  predicate Needs(w: World, name: string, dependency: string) {
    var m := Published(w, name);
    m.Some? && (
      || dependency in m.value.dependencies
      || dependency in m.value.optionalDependencies
      || (dependency in m.value.peerDependencies && dependency !in m.value.optionalPeers))
  }

  /** A chain of published packages, each needing the next. */
  ghost predicate Chain(w: World, root: string, path: seq<string>) {
    && path != [] && path[0] == root
    && (forall i :: 0 <= i < |path| ==> Published(w, path[i]).Some?)
    && (forall i :: 0 <= i < |path| - 1 ==> Needs(w, path[i], path[i + 1]))
  }

  ghost predicate Reached(w: World, root: string, name: string) {
    exists path :: Chain(w, root, path) && path[|path| - 1] == name
  }

  predicate IsCandidate(w: World, name: string) {
    && name !in w.policy && name in w.release
    && Published(w, name).Some?
    && exists peer :: peer in Published(w, name).value.peerDependencies && peer != CORDIS
  }

  // ---------- The same, told by the registry ----------

  /** The registry has the package at its workspace version, with that manifest. */
  ghost predicate HasManifest(w: World, name: string, m: Manifest) {
    name in w.workspaceVersions && name in w.index && w.workspaceVersions[name] in w.index[name] &&
    w.index[name][w.workspaceVersions[name]] == m
  }

  ghost predicate InRegistry(w: World, name: string) {
    exists m :: HasManifest(w, name, m)
  }

  /** A dependency, an optional dependency, or a peer that is not optional. */
  ghost predicate Brings(w: World, name: string, dependency: string) {
    exists m :: HasManifest(w, name, m) && (
      dependency in m.dependencies + m.optionalDependencies ||
      (dependency in m.peerDependencies && dependency !in m.optionalPeers))
  }

  ghost predicate InstallPath(w: World, path: seq<string>) {
    && path != [] && (forall i :: 0 <= i < |path| ==> InRegistry(w, path[i]))
    && forall i :: 0 <= i < |path| - 1 ==> Brings(w, path[i], path[i + 1])
  }

  /** An installation of `root` brings `name` along, through packages of the registry. */
  ghost predicate InstalledWith(w: World, root: string, name: string) {
    exists path :: InstallPath(w, path) && path[0] == root && path[|path| - 1] == name
  }

  /** Some peer of the package is not the framework. */
  ghost predicate HasForeignPeer(w: World, name: string) {
    exists m, peer :: HasManifest(w, name, m) && peer in m.peerDependencies && peer != "@qilin-agent/kylin"
  }

  lemma PublishedIff(w: World, name: string)
    ensures forall m :: Published(w, name) == Some(m) <==> HasManifest(w, name, m)
    ensures Published(w, name).Some? <==> InRegistry(w, name)
  {
    if Published(w, name).Some? { assert HasManifest(w, name, Published(w, name).value); }
  }

  lemma NeedsIff(w: World, name: string, dependency: string)
    ensures Needs(w, name, dependency) <==> Brings(w, name, dependency)
  {
    PublishedIff(w, name);
  }

  lemma ReachedIff(w: World, root: string, name: string)
    ensures Reached(w, root, name) <==> InstalledWith(w, root, name)
  {
    forall path | path != [] && path[0] == root ensures Chain(w, root, path) <==> InstallPath(w, path) {
      ChainIff(w, root, path);
    }
  }

  lemma ChainIff(w: World, root: string, path: seq<string>)
    requires path != [] && path[0] == root
    ensures Chain(w, root, path) <==> InstallPath(w, path)
  {
    forall i | 0 <= i < |path| ensures Published(w, path[i]).Some? <==> InRegistry(w, path[i]) {
      PublishedIff(w, path[i]);
    }
    forall i | 0 <= i < |path| - 1 ensures Needs(w, path[i], path[i + 1]) <==> Brings(w, path[i], path[i + 1]) {
      NeedsIff(w, path[i], path[i + 1]);
    }
    if Chain(w, root, path) {
      forall i | 0 <= i < |path| - 1 ensures Brings(w, path[i], path[i + 1]) {
        assert Needs(w, path[i], path[i + 1]);
      }
    }
    if InstallPath(w, path) {
      forall i | 0 <= i < |path| - 1 ensures Needs(w, path[i], path[i + 1]) {
        assert Brings(w, path[i], path[i + 1]);
      }
    }
  }

  // ---------- The sections ----------

  lemma {:induction false} OnceIsSame(names: seq<string>, name: string)
    ensures name in Once(names) <==> name in names
  {
    if names == [] {
    } else {
      OnceIsSame(names[..|names| - 1], name);
      assert names == names[..|names| - 1] + [names[|names| - 1]];
    }
  }

  lemma {:induction false} WithoutIff(names: seq<string>, dropped: set<string>, name: string)
    ensures name in Without(names, dropped) <==> name in names && name !in dropped
  {
    if names == [] {
    } else {
      WithoutIff(names[..|names| - 1], dropped, name);
      assert names == names[..|names| - 1] + [names[|names| - 1]];
    }
  }

  lemma InstalledIff(w: World, name: string, dependency: string)
    requires Published(w, name).Some?
    ensures dependency in Sort(Installed(Published(w, name).value), w.le) <==> Needs(w, name, dependency)
  {
    var m := Published(w, name).value;
    var sections := m.dependencies + m.optionalDependencies + Without(m.peerDependencies, m.optionalPeers);
    SortPermutes(Installed(m), w.le);
    assert dependency in multiset(Sort(Installed(m), w.le)) <==> dependency in multiset(Installed(m));
    OnceIsSame(sections, dependency);
    WithoutIff(m.peerDependencies, m.optionalPeers, dependency);
  }

  // ---------- The search ----------

  lemma OneStepFurther(w: World, root: string, name: string, dependency: string)
    requires Reached(w, root, name) && Needs(w, name, dependency) && Published(w, dependency).Some?
    ensures Reached(w, root, dependency)
  {
    var path :| Chain(w, root, path) && path[|path| - 1] == name;
    var longer := path + [dependency];
    assert Chain(w, root, longer);
    assert longer[|longer| - 1] == dependency;
  }

  /** Holds the root if it is published, and every published package that one of its members needs. */
  ghost predicate Closed(w: World, root: string, names: seq<string>) {
    && (Published(w, root).Some? ==> root in names)
    && (forall n, d :: n in names && Needs(w, n, d) && Published(w, d).Some? ==> d in names)
  }

  lemma {:induction false} ClosedHoldsChains(w: World, root: string, names: seq<string>, path: seq<string>)
    requires Closed(w, root, names) && Chain(w, root, path)
    ensures path[|path| - 1] in names
    decreases |path|
  {
    if |path| > 1 {
      var shorter := path[..|path| - 1];
      assert forall i :: 0 <= i < |shorter| ==> shorter[i] == path[i];
      ClosedHoldsChains(w, root, names, shorter);
      assert Needs(w, path[|path| - 2], path[|path| - 1]);
    }
  }

  lemma NoMoreThan(names: seq<string>, pool: set<string>)
    requires NoRepeats(names) && forall n :: n in names ==> n in pool
    ensures |names| <= |pool|
    decreases |names|
  {
    if names != [] {
      var last := names[|names| - 1];
      var rest := names[..|names| - 1];
      assert forall n :: n in rest ==> n in pool - {last};
      NoMoreThan(rest, pool - {last});
    }
  }

  /** Packages that one of `names` needs are among them or wait in the queue. */
  ghost predicate Accounted(w: World, names: seq<string>, queue: seq<string>) {
    forall n, d :: n in names && Needs(w, n, d) ==> d in names || d in queue
  }

  ghost predicate Sound(w: World, root: string, names: seq<string>) {
    forall n :: n in names ==> Published(w, n).Some? && Reached(w, root, n)
  }

  /** Whoever waits in the queue is the root or is needed by a reached package. */
  ghost predicate Justified(w: World, root: string, queue: seq<string>) {
    forall d :: d in queue ==> d == root || exists n :: Reached(w, root, n) && Needs(w, n, d)
  }

  ghost predicate Handled(w: World, names: seq<string>, queue: seq<string>, cursor: nat) {
    cursor <= |queue| && forall i :: 0 <= i < cursor ==> queue[i] in names || Published(w, queue[i]).None?
  }

  method Enqueue(w: World, name: string, reached: seq<string>, queue: seq<string>) returns (longer: seq<string>)
    requires Published(w, name).Some?
    ensures queue <= longer
    ensures forall d :: d in longer <==> d in queue || (Needs(w, name, d) && d !in reached)
  {
    longer := queue;
    var installed := Sort(Installed(Published(w, name).value), w.le);
    for i := 0 to |installed|
      invariant queue <= longer
      invariant forall d :: d in longer <==> d in queue || (d in installed[..i] && d !in reached)
    {
      assert installed[..i + 1] == installed[..i] + [installed[i]];
      if installed[i] !in reached {
        longer := longer + [installed[i]];
      }
    }
    assert installed[..|installed|] == installed;
    forall d ensures d in installed <==> Needs(w, name, d) {
      InstalledIff(w, name, d);
    }
  }

  /** Exactly the packages that an installation of the root reaches, each once. */
  method Search(w: World, root: string) returns (reached: seq<string>)
    ensures NoRepeats(reached)
    ensures forall n :: n in reached <==> Reached(w, root, n)
  {
    reached := [];
    var queue, cursor := [root], 0;
    while cursor < |queue|
      invariant NoRepeats(reached) && Sound(w, root, reached) && Justified(w, root, queue)
      invariant Accounted(w, reached, queue) && Handled(w, reached, queue, cursor) && root in queue
      decreases |w.workspaceVersions.Keys| - |reached|, |queue| - cursor
    {
      var name := queue[cursor];
      if name !in reached && Published(w, name).Some? {
        NewlyReached(w, root, queue, name);
        var longer := Enqueue(w, name, reached + [name], queue);
        NoMoreThan(reached + [name], w.workspaceVersions.Keys);
        reached, queue := reached + [name], longer;
      }
      cursor := cursor + 1;
    }
    AllHandled(w, root, reached, queue);
  }

  lemma AllHandled(w: World, root: string, reached: seq<string>, queue: seq<string>)
    requires Sound(w, root, reached) && Accounted(w, reached, queue) && Handled(w, reached, queue, |queue|)
    requires root in queue
    ensures forall n :: n in reached <==> Reached(w, root, n)
  {
    assert Closed(w, root, reached);
    forall n | Reached(w, root, n) ensures n in reached {
      var path :| Chain(w, root, path) && path[|path| - 1] == n;
      ClosedHoldsChains(w, root, reached, path);
    }
  }

  lemma NewlyReached(w: World, root: string, queue: seq<string>, name: string)
    requires Justified(w, root, queue) && name in queue && Published(w, name).Some?
    ensures Reached(w, root, name)
  {
    if name == root {
      assert Chain(w, root, [root]);
      assert [root][|[root]| - 1] == root;
    } else {
      var n :| Reached(w, root, n) && Needs(w, n, name);
      OneStepFurther(w, root, n, name);
    }
  }

  // ---------- The candidates ----------

  function Filtered(w: World, names: seq<string>): seq<string> {
    if names == [] then [] else
      var before, last := Filtered(w, names[..|names| - 1]), names[|names| - 1];
      if IsCandidate(w, last) then before + [last] else before
  }

  lemma {:induction false} FilteredIff(w: World, names: seq<string>, name: string)
    ensures name in Filtered(w, names) <==> name in names && IsCandidate(w, name)
  {
    if names == [] {
    } else {
      FilteredIff(w, names[..|names| - 1], name);
      assert names == names[..|names| - 1] + [names[|names| - 1]];
    }
  }

  lemma {:induction false} FilteredRepeatsNone(w: World, names: seq<string>)
    requires NoRepeats(names)
    ensures NoRepeats(Filtered(w, names))
  {
    if names != [] {
      var init, last := names[..|names| - 1], names[|names| - 1];
      FilteredRepeatsNone(w, init);
      FilteredIff(w, init, last);
    }
  }

  /** A rearrangement repeats nothing that was not repeated. */
  lemma {:induction false} RearrangedRepeatsNone(names: seq<string>, rearranged: seq<string>)
    requires NoRepeats(names) && multiset(rearranged) == multiset(names)
    ensures NoRepeats(rearranged)
  {
    forall i, j | 0 <= i < j < |rearranged| ensures rearranged[i] != rearranged[j] {
      if rearranged[i] == rearranged[j] {
        CountedTwice(rearranged, i, j);
        CountedOnce(names, rearranged[i]);
      }
    }
  }

  lemma CountedTwice(names: seq<string>, i: nat, j: nat)
    requires i < j < |names| && names[i] == names[j]
    ensures multiset(names)[names[i]] >= 2
  {
    assert names == names[..j] + names[j..];
    assert names[i] == names[..j][i] && names[j] == names[j..][0];
    assert names[i] in multiset(names[..j]) && names[i] in multiset(names[j..]);
  }

  lemma {:induction false} CountedOnce(names: seq<string>, name: string)
    requires NoRepeats(names)
    ensures multiset(names)[name] <= 1
  {
    if names != [] {
      var init, last := names[..|names| - 1], names[|names| - 1];
      CountedOnce(init, name);
      assert names == init + [last];
      if name == last { assert name !in multiset(init); }
    }
  }

  /** Reachable, released, outside the policy, and with a peer other than kylin; each once, in order. */
  method DiscoverBenchmarkCandidates(w: World) returns (candidates: seq<string>)
    requires TotalPreorder(w.le)
    ensures forall n :: n in candidates <==> Reached(w, TARGET_PACKAGE, n) && IsCandidate(w, n)
    ensures forall n :: n in candidates <==>
      InstalledWith(w, "@qilin-agent/cli", n) && n in w.release && n !in w.policy && HasForeignPeer(w, n)
    ensures NoRepeats(candidates) && Ordered(candidates, w.le)
  {
    var reached := Search(w, TARGET_PACKAGE);
    var filtered := Filtered(w, reached);
    candidates := Sort(filtered, w.le);
    SortOrders(filtered, w.le);
    SortPermutes(filtered, w.le);
    FilteredRepeatsNone(w, reached);
    RearrangedRepeatsNone(filtered, candidates);
    forall n
      ensures InstalledWith(w, "@qilin-agent/cli", n) <==> Reached(w, TARGET_PACKAGE, n)
      ensures Reached(w, TARGET_PACKAGE, n) ==>
        (n in w.release && n !in w.policy && HasForeignPeer(w, n) <==> IsCandidate(w, n))
    {
      ReachedIff(w, TARGET_PACKAGE, n);
      PublishedIff(w, n);
    }
    forall n ensures n in candidates <==> Reached(w, TARGET_PACKAGE, n) && IsCandidate(w, n) {
      assert n in multiset(candidates) <==> n in multiset(filtered);
      FilteredIff(w, reached, n);
    }
  }
}
