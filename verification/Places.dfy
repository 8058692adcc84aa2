/** Places in a tree of expressions, and what it means that a list holds what stands at certain places: each
    of them once, in source order. */
module Places {
  import opened Options
  import opened Sorting

  /** The way down from the top: which part is taken at each step. */
  type Path = seq<nat>

  /** Source order: a whole stands before its parts, and a part before the parts after it. */
  ghost predicate Earlier(a: Path, b: Path) {
    b != [] && (a == [] || a[0] < b[0] || (a[0] == b[0] && Earlier(a[1..], b[1..])))
  }

  ghost predicate InSourceOrder(places: seq<Path>) {
    forall i, j :: 0 <= i < j < |places| ==> Earlier(places[i], places[j])
  }

  /** `xs` is everything that `at` has somewhere, one by one. */
  ghost predicate Lists<T(!new)>(xs: seq<T>, at: Path -> Option<T>, places: seq<Path>) {
    && |places| == |xs| && InSourceOrder(places)
    && (forall k :: 0 <= k < |xs| ==> at(places[k]) == Some(xs[k]))
    && forall path :: at(path).Some? ==> path in places
  }

  function Below<T>(n: nat, parts: (nat, Path) -> Option<T>): Path -> Option<T> {
    (path: Path) => if path != [] && path[0] < n then parts(path[0], path[1..]) else None
  }

  function InPart(n: nat, places: seq<Path>): (r: seq<Path>)
    ensures |r| == |places| && forall k :: 0 <= k < |places| ==> r[k] == [n] + places[k]
  {
    seq(|places|, k requires 0 <= k < |places| => [n] + places[k])
  }

  lemma EarlierPart(a: Path, b: Path)
    requires a != [] && b != [] && (a[0] < b[0] || (a[0] == b[0] && Earlier(a[1..], b[1..])))
    ensures Earlier(a, b)
  {
  }

  lemma OrderOfParts(before: seq<Path>, n: nat, inside: seq<Path>)
    requires InSourceOrder(before) && InSourceOrder(inside)
    requires forall k :: 0 <= k < |before| ==> before[k] != [] && before[k][0] < n
    ensures InSourceOrder(before + InPart(n, inside))
  {
    var all := before + InPart(n, inside);
    forall i, j | 0 <= i < j < |all| ensures Earlier(all[i], all[j]) {
      if i >= |before| {
        assert all[i][1..] == inside[i - |before|] && all[j][1..] == inside[j - |before|];
        EarlierPart(all[i], all[j]);
      } else if j >= |before| {
        assert all[i] == before[i] && all[j][0] == n;
        EarlierPart(all[i], all[j]);
      }
    }
  }

  /** What stands in the first parts, then what stands in the next one. */
  lemma ListsNext<T(!new)>(xs: seq<T>, ys: seq<T>, n: nat, parts: (nat, Path) -> Option<T>, at: Path -> Option<T>,
                           before: seq<Path>, inside: seq<Path>)
    requires Lists(xs, Below(n, parts), before) && Lists(ys, at, inside)
    requires forall path :: at(path) == parts(n, path)
    ensures Lists(xs + ys, Below(n + 1, parts), before + InPart(n, inside))
  {
    var all, within := before + InPart(n, inside), Below(n + 1, parts);
    forall k | 0 <= k < |before| ensures before[k] != [] && before[k][0] < n && within(before[k]) == Some(xs[k]) {
      assert Below(n, parts)(before[k]) == Some(xs[k]);
    }
    OrderOfParts(before, n, inside);
    forall k | 0 <= k < |xs + ys| ensures within(all[k]) == Some((xs + ys)[k]) {
      if k >= |xs| { assert all[k][1..] == inside[k - |xs|] && at(inside[k - |xs|]) == Some(ys[k - |xs|]); }
    }
    forall path | within(path).Some? ensures path in all {
      if path[0] < n {
        assert Below(n, parts)(path).Some?;
      } else {
        assert at(path[1..]).Some?;
        var k :| 0 <= k < |inside| && inside[k] == path[1..];
        assert all[|before| + k] == [n] + path[1..] == path;
      }
    }
  }

  lemma ListsNothing<T(!new)>(parts: (nat, Path) -> Option<T>)
    ensures Lists([], Below(0, parts), [])
  {
  }

  /** The whole stands before its parts. */
  lemma ListsWhole<T(!new)>(x: T, xs: seq<T>, inner: Path -> Option<T>, at: Path -> Option<T>, places: seq<Path>)
    requires Lists(xs, inner, places) && inner([]) == None
    requires at([]) == Some(x) && forall path :: path != [] ==> at(path) == inner(path)
    ensures Lists([x] + xs, at, [[]] + places)
  {
    var all := [[]] + places;
    forall k | 0 <= k < |places| ensures places[k] != [] { assert inner(places[k]) == Some(xs[k]); }
    forall i, j | 0 <= i < j < |all| ensures Earlier(all[i], all[j]) {
      assert all[j] == places[j - 1];
      if i > 0 { assert all[i] == places[i - 1]; }
    }
    forall path | at(path).Some? ensures path in all {
      if path != [] {
        var k :| 0 <= k < |places| && places[k] == path;
        assert all[k + 1] == path;
      } else {
        assert all[0] == path;
      }
    }
  }

  lemma ListsSame<T(!new)>(xs: seq<T>, inner: Path -> Option<T>, at: Path -> Option<T>, places: seq<Path>)
    requires Lists(xs, inner, places) && forall path :: at(path) == inner(path)
    ensures Lists(xs, at, places)
  {
  }

  /** Source order tells places apart. */
  lemma {:induction false} NeverEarlierThanItself(a: Path)
    ensures !Earlier(a, a)
  {
    if a != [] { NeverEarlierThanItself(a[1..]); }
  }

  /** So nothing is listed twice. */
  lemma ListedOnce<T(!new)>(xs: seq<T>, at: Path -> Option<T>, places: seq<Path>, i: nat, j: nat)
    requires Lists(xs, at, places) && i < j < |xs|
    ensures places[i] != places[j]
  {
    assert Earlier(places[i], places[j]);
    NeverEarlierThanItself(places[i]);
  }

  lemma {:induction false} EarlierIsTotal(a: Path, b: Path)
    ensures a == b || Earlier(a, b) || Earlier(b, a)
  {
    if a != [] && b != [] && a[0] == b[0] {
      EarlierIsTotal(a[1..], b[1..]);
      assert a == [a[0]] + a[1..] && b == [b[0]] + b[1..];
    }
  }

  lemma {:induction false} EarlierChains(a: Path, b: Path, c: Path)
    requires Earlier(a, b) && Earlier(b, c)
    ensures Earlier(a, c)
  {
    if a != [] && a[0] == b[0] == c[0] { EarlierChains(a[1..], b[1..], c[1..]); }
  }

  ghost function NotLater(): (Path, Path) -> bool {
    (a, b) => a == b || Earlier(a, b)
  }

  lemma NotLaterIsOrder()
    ensures TotalPreorder(NotLater())
  {
    forall a, b ensures NotLater()(a, b) || NotLater()(b, a) { EarlierIsTotal(a, b); }
    forall a, b, c | NotLater()(a, b) && NotLater()(b, c) ensures NotLater()(a, c) {
      if Earlier(a, b) && Earlier(b, c) { EarlierChains(a, b, c); }
    }
  }

  lemma {:induction false} CountedOnce(places: seq<Path>, path: Path)
    requires InSourceOrder(places)
    ensures multiset(places)[path] == if path in places then 1 else 0
  {
    if places != [] {
      var init, last := places[..|places| - 1], places[|places| - 1];
      assert places == init + [last];
      CountedOnce(init, path);
      if last in init {
        var k :| 0 <= k < |init| && init[k] == last;
        assert Earlier(places[k], places[|places| - 1]);
        NeverEarlierThanItself(last);
      }
    }
  }

  /** There is only one such list. */
  lemma ListIsUnique<T(!new)>(xs: seq<T>, ys: seq<T>, at: Path -> Option<T>, places: seq<Path>, others: seq<Path>)
    requires Lists(xs, at, places) && Lists(ys, at, others)
    ensures xs == ys && places == others
  {
    forall path ensures multiset(places)[path] == multiset(others)[path] {
      CountedOnce(places, path);
      CountedOnce(others, path);
      if path in places {
        var k :| 0 <= k < |places| && places[k] == path;
        assert at(places[k]) == Some(xs[k]);
      }
      if path in others {
        var k :| 0 <= k < |others| && others[k] == path;
        assert at(others[k]) == Some(ys[k]);
      }
    }
    NotLaterIsOrder();
    forall i, j | 0 <= i < |places| && 0 <= j < |places| && NotLater()(places[i], places[j]) &&
      NotLater()(places[j], places[i]) ensures places[i] == places[j]
    {
      if Earlier(places[i], places[j]) && Earlier(places[j], places[i]) {
        EarlierChains(places[i], places[j], places[i]);
        NeverEarlierThanItself(places[i]);
      }
    }
    OrderedIsUnique(places, others, NotLater());
    forall k | 0 <= k < |xs| ensures xs[k] == ys[k] { assert at(places[k]) == Some(xs[k]) == Some(ys[k]); }
  }
}
