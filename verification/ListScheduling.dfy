/** Greedy placement of weighted items into `m` buckets and what it guarantees.

    A placement `a` sends item `i` to bucket `a[i]`; `Load(w, a, b, n)` is what bucket `b` weighs
    after the first `n` items.  `Greedy` is the rule of scripts/coverage-partitions.ts: every item
    goes to a bucket that is least by (weight, file count) at that moment. */
module ListScheduling {

  datatype Key = Key(sum: real, count: nat)

  predicate KeyLess(left: Key, right: Key) {
    if left.sum != right.sum then left.sum < right.sum else left.count < right.count
  }

  ghost predicate Placement(a: seq<nat>, m: nat) {
    forall i :: 0 <= i < |a| ==> a[i] < m
  }

  ghost predicate NonNegative(w: seq<real>) {
    forall i :: 0 <= i < |w| ==> w[i] >= 0.0
  }

  ghost predicate HeaviestFirst(w: seq<real>) {
    forall i, j :: 0 <= i < j < |w| ==> w[i] >= w[j]
  }

  function Total(w: seq<real>, n: nat): real
    requires n <= |w|
  {
    if n == 0 then 0.0 else Total(w, n - 1) + w[n - 1]
  }

  function Load(w: seq<real>, a: seq<nat>, b: nat, n: nat): real
    requires n <= |w| && n <= |a|
  {
    if n == 0 then 0.0 else Load(w, a, b, n - 1) + if a[n - 1] == b then w[n - 1] else 0.0
  }

  function Count(a: seq<nat>, b: nat, n: nat): nat
    requires n <= |a|
  {
    if n == 0 then 0 else Count(a, b, n - 1) + if a[n - 1] == b then 1 else 0
  }

  function KeyAt(w: seq<real>, a: seq<nat>, b: nat, n: nat): Key
    requires n <= |w| && n <= |a|
  {
    Key(Load(w, a, b, n), Count(a, b, n))
  }

  /** Bucket `c` is one that a linear scan for the least key could return. */
  ghost predicate Lightest(w: seq<real>, a: seq<nat>, m: nat, n: nat, c: nat)
    requires n <= |w| && n <= |a|
  {
    forall b :: 0 <= b < m ==> !KeyLess(KeyAt(w, a, b, n), KeyAt(w, a, c, n))
  }

  ghost predicate Greedy(w: seq<real>, a: seq<nat>, m: nat)
    requires |a| <= |w|
  {
    Placement(a, m) && forall i :: 0 <= i < |a| ==> Lightest(w, a, m, i, a[i])
  }

  function SumLoads(w: seq<real>, a: seq<nat>, m: nat, n: nat): real
    requires n <= |w| == |a|
  {
    if m == 0 then 0.0 else SumLoads(w, a, m - 1, n) + Load(w, a, m - 1, n)
  }

  /** The heaviest load over the `m` buckets. */
  function Makespan(w: seq<real>, a: seq<nat>, m: nat): real
    requires |w| == |a| && m > 0
  {
    var last := Load(w, a, m - 1, |w|);
    if m == 1 then last else
      var rest := Makespan(w, a, m - 1);
      if last > rest then last else rest
  }

  lemma {:induction false} MakespanIsMax(w: seq<real>, a: seq<nat>, m: nat) returns (heaviest: nat)
    requires |w| == |a| && m > 0
    ensures heaviest < m && Load(w, a, heaviest, |w|) == Makespan(w, a, m)
    ensures forall b :: 0 <= b < m ==> Load(w, a, b, |w|) <= Makespan(w, a, m)
  {
    heaviest := m - 1;
    if m > 1 {
      var h := MakespanIsMax(w, a, m - 1);
      if Load(w, a, m - 1, |w|) <= Makespan(w, a, m - 1) { heaviest := h; }
    }
  }

  // ---------- Placing one more item ----------

  /** The first `n` items decide the load after `n` items. */
  lemma {:induction false} PrefixDecides(w: seq<real>, a: seq<nat>, w': seq<real>, a': seq<nat>, b: nat, n: nat)
    requires n <= |w| && n <= |a| && w <= w' && a <= a'
    ensures KeyAt(w', a', b, n) == KeyAt(w, a, b, n)
  {
    if n > 0 { PrefixDecides(w, a, w', a', b, n - 1); }
  }

  lemma GreedyStep(w: seq<real>, a: seq<nat>, m: nat, c: nat)
    requires |a| < |w| && c < m && Greedy(w, a, m) && Lightest(w, a, m, |a|, c)
    ensures Greedy(w, a + [c], m)
    ensures KeyAt(w, a + [c], c, |a| + 1) == Key(Load(w, a, c, |a|) + w[|a|], Count(a, c, |a|) + 1)
    ensures forall b: nat {:trigger Count(a + [c], b, |a| + 1)} {:trigger KeyAt(w, a, b, |a|)} ::
      b != c ==> KeyAt(w, a + [c], b, |a| + 1) == KeyAt(w, a, b, |a|)
  {
    var a' := a + [c];
    forall i, b: nat | 0 <= i <= |a| ensures KeyAt(w, a', b, i) == KeyAt(w, a, b, i) {
      PrefixDecides(w, a, w, a', b, i);
    }
    forall i | 0 <= i < |a'| ensures Lightest(w, a', m, i, a'[i]) {
      assert i < |a| ==> Lightest(w, a, m, i, a[i]);
    }
    forall b: nat | b != c ensures KeyAt(w, a', b, |a| + 1) == KeyAt(w, a, b, |a|) {
      assert KeyAt(w, a', b, |a|) == KeyAt(w, a, b, |a|);
    }
    assert KeyAt(w, a', c, |a|) == KeyAt(w, a, c, |a|);
  }

  // ---------- Conservation ----------

  lemma {:induction false} SumLoadsStep(w: seq<real>, a: seq<nat>, m: nat, n: nat)
    requires n < |w| == |a|
    ensures SumLoads(w, a, m, n + 1) == SumLoads(w, a, m, n) + if a[n] < m then w[n] else 0.0
  {
    if m > 0 { SumLoadsStep(w, a, m - 1, n); }
  }

  /** Nothing is lost or placed twice: the bucket loads add up to the weight placed so far. */
  lemma {:induction false} LoadsConserve(w: seq<real>, a: seq<nat>, m: nat, n: nat)
    requires n <= |w| == |a| && Placement(a, m)
    ensures SumLoads(w, a, m, n) == Total(w, n)
  {
    if n == 0 {
      EmptyLoads(w, a, m);
    } else {
      LoadsConserve(w, a, m, n - 1);
      SumLoadsStep(w, a, m, n - 1);
    }
  }

  lemma {:induction false} EmptyLoads(w: seq<real>, a: seq<nat>, m: nat)
    requires |w| == |a|
    ensures SumLoads(w, a, m, 0) == 0.0
  {
    if m > 0 { EmptyLoads(w, a, m - 1); }
  }

  lemma {:induction false} SumLoadsAtLeast(w: seq<real>, a: seq<nat>, m: nat, n: nat, low: real)
    requires n <= |w| == |a|
    requires forall b :: 0 <= b < m ==> Load(w, a, b, n) >= low
    ensures SumLoads(w, a, m, n) >= m as real * low
  {
    if m > 0 {
      SumLoadsAtLeast(w, a, m - 1, n, low);
      assert m as real * low == (m - 1) as real * low + low;
    }
  }

  lemma {:induction false} SumLoadsAtMost(w: seq<real>, a: seq<nat>, m: nat, n: nat, high: real)
    requires n <= |w| == |a|
    requires forall b :: 0 <= b < m ==> Load(w, a, b, n) <= high
    ensures SumLoads(w, a, m, n) <= m as real * high
  {
    if m > 0 {
      SumLoadsAtMost(w, a, m - 1, n, high);
      assert m as real * high == (m - 1) as real * high + high;
    }
  }

  // ---------- Facts about one bucket ----------

  lemma {:induction false} LoadGrows(w: seq<real>, a: seq<nat>, b: nat, i: nat, n: nat)
    requires i <= n <= |w| == |a| && NonNegative(w)
    ensures Load(w, a, b, i) <= Load(w, a, b, n)
    ensures Total(w, i) <= Total(w, n)
    decreases n
  {
    if i < n { LoadGrows(w, a, b, i, n - 1); }
  }

  lemma {:induction false} LoadNonNegative(w: seq<real>, a: seq<nat>, b: nat, n: nat)
    requires n <= |w| == |a| && NonNegative(w)
    ensures 0.0 <= Load(w, a, b, n)
  {
    LoadGrows(w, a, b, 0, n);
  }

  lemma {:induction false} LastItem(a: seq<nat>, b: nat, n: nat) returns (k: nat)
    requires n <= |a|
    ensures Count(a, b, n) == 0 ==> forall i :: 0 <= i < n ==> a[i] != b
    ensures Count(a, b, n) > 0 ==> k < n && a[k] == b && Count(a, b, n) == Count(a, b, k) + 1
    ensures Count(a, b, n) > 0 ==> forall i :: k < i < n ==> a[i] != b
  {
    if n == 0 {
      k := 0;
    } else if a[n - 1] == b {
      k := n - 1;
    } else {
      k := LastItem(a, b, n - 1);
    }
  }

  lemma {:induction false} LoadUnchanged(w: seq<real>, a: seq<nat>, b: nat, i: nat, n: nat)
    requires i <= n <= |w| == |a|
    requires forall k :: i <= k < n ==> a[k] != b
    ensures Load(w, a, b, n) == Load(w, a, b, i)
    ensures Count(a, b, n) == Count(a, b, i)
    decreases n
  {
    if i < n { LoadUnchanged(w, a, b, i, n - 1); }
  }

  /** The load of a bucket, split at the last item it received. */
  lemma SplitAtLast(w: seq<real>, a: seq<nat>, b: nat, n: nat) returns (k: nat)
    requires n <= |w| == |a|
    ensures Count(a, b, n) == 0 ==> Load(w, a, b, n) == 0.0
    ensures Count(a, b, n) > 0 ==> k < n && a[k] == b && Load(w, a, b, n) == Load(w, a, b, k) + w[k]
    ensures Count(a, b, n) > 0 ==> Count(a, b, n) == Count(a, b, k) + 1
    ensures Count(a, b, n) > 0 ==> forall i :: k < i < n ==> a[i] != b
  {
    k := LastItem(a, b, n);
    if Count(a, b, n) > 0 {
      LoadUnchanged(w, a, b, k + 1, n);
    } else {
      LoadUnchanged(w, a, b, 0, n);
    }
  }

  /** Two items of one bucket weigh no more than the bucket. */
  lemma PairFits(w: seq<real>, a: seq<nat>, i: nat, k: nat)
    requires i < k < |w| == |a| && a[i] == a[k] && NonNegative(w)
    ensures w[i] + w[k] <= Load(w, a, a[k], k + 1) <= Load(w, a, a[k], |w|)
  {
    LoadNonNegative(w, a, a[i], i);
    LoadGrows(w, a, a[i], i + 1, k);
    LoadGrows(w, a, a[i], k + 1, |w|);
  }

  lemma TripleFits(w: seq<real>, a: seq<nat>, h: nat, i: nat, k: nat)
    requires h < i < k < |w| == |a| && a[h] == a[i] == a[k] && NonNegative(w)
    ensures w[h] + w[i] + w[k] <= Load(w, a, a[k], |w|)
  {
    LoadNonNegative(w, a, a[k], h);
    LoadGrows(w, a, a[k], h + 1, i);
    LoadGrows(w, a, a[k], i + 1, k);
    LoadGrows(w, a, a[k], k + 1, |w|);
  }

  lemma ItemFits(w: seq<real>, a: seq<nat>, i: nat)
    requires i < |w| == |a| && NonNegative(w)
    ensures w[i] <= Load(w, a, a[i], |w|)
  {
    LoadNonNegative(w, a, a[i], i);
    LoadGrows(w, a, a[i], i + 1, |w|);
  }

  // ---------- Graham's bound for greedy placement in any order ----------

  lemma ChosenIsLightest(w: seq<real>, a: seq<nat>, m: nat, k: nat, b: nat)
    requires |w| == |a| && k < |w| && Greedy(w, a, m) && b < m
    ensures Load(w, a, b, k) >= Load(w, a, a[k], k)
  {
    assert Lightest(w, a, m, k, a[k]);
    assert !KeyLess(KeyAt(w, a, b, k), KeyAt(w, a, a[k], k));
  }

  /** When the item that completes bucket `b` arrives, the bucket is no heavier than the average. */
  lemma GreedyBelowAverage(w: seq<real>, a: seq<nat>, m: nat, k: nat)
    requires |w| == |a| && k < |w| && Greedy(w, a, m)
    ensures m as real * Load(w, a, a[k], k) <= Total(w, k)
  {
    forall b | 0 <= b < m ensures Load(w, a, b, k) >= Load(w, a, a[k], k) {
      ChosenIsLightest(w, a, m, k, b);
    }
    SumLoadsAtLeast(w, a, m, k, Load(w, a, a[k], k));
    LoadsConserve(w, a, m, k);
  }

  lemma OneMoreItem(r: real, low: real, x: real)
    ensures r * (low + x) == r * low + (r - 1.0) * x + x
  {
  }

  /** m * L <= total + (m - 1) * (last item of the bucket), for every bucket of a greedy placement. */
  lemma GrahamTotal(w: seq<real>, a: seq<nat>, m: nat, b: nat, k: nat)
    requires |w| == |a| && m > 0 && b < m && Greedy(w, a, m) && NonNegative(w)
    requires k < |w| && a[k] == b && forall i :: k < i < |w| ==> a[i] != b
    ensures m as real * Load(w, a, b, |w|) <= Total(w, k + 1) + (m - 1) as real * w[k]
    ensures m as real * Load(w, a, b, |w|) <= Total(w, |w|) + (m - 1) as real * w[k]
  {
    LoadUnchanged(w, a, b, k + 1, |w|);
    GreedyBelowAverage(w, a, m, k);
    OneMoreItem(m as real, Load(w, a, b, k), w[k]);
    assert (m - 1) as real == m as real - 1.0;
    LoadGrows(w, a, b, k + 1, |w|);
  }

  /** No placement of the same items can have every bucket below the average or below one item. */
  lemma RivalLowerBounds(w: seq<real>, opt: seq<nat>, m: nat, best: real)
    requires |w| == |opt| && m > 0 && Placement(opt, m) && NonNegative(w)
    requires forall b :: 0 <= b < m ==> Load(w, opt, b, |w|) <= best
    ensures best >= 0.0
    ensures Total(w, |w|) <= m as real * best
    ensures forall i :: 0 <= i < |w| ==> w[i] <= best
  {
    LoadNonNegative(w, opt, 0, |w|);
    SumLoadsAtMost(w, opt, m, |w|, best);
    LoadsConserve(w, opt, m, |w|);
    forall i | 0 <= i < |w| ensures w[i] <= best { ItemFits(w, opt, i); }
  }

  /** long <= (2 - 1/r) * best, cleared of division. */
  ghost predicate WithinGraham(r: real, long: real, best: real) {
    r * long <= (2.0 * r - 1.0) * best
  }

  /** long <= (4/3 - 1/(3r)) * best, cleared of division. */
  ghost predicate WithinLpt(r: real, long: real, best: real) {
    3.0 * r * long <= (4.0 * r - 1.0) * best
  }

  ghost predicate GrahamFacts(r: real, long: real, total: real, last: real, best: real) {
    && r >= 1.0 && last <= best
    && r * long <= total + (r - 1.0) * last && total <= r * best
  }

  lemma GrahamArithmetic(r: real, long: real, total: real, last: real, best: real)
    requires GrahamFacts(r, long, total, last, best)
    ensures WithinGraham(r, long, best)
    ensures 3.0 * last <= best ==> WithinLpt(r, long, best)
  {
    assert (r - 1.0) * last <= (r - 1.0) * best;
    assert (2.0 * r - 1.0) * best == r * best + (r - 1.0) * best;
    if 3.0 * last <= best {
      assert (r - 1.0) * (3.0 * last) <= (r - 1.0) * best;
      assert (r - 1.0) * (3.0 * last) == 3.0 * ((r - 1.0) * last);
      assert 3.0 * r * long == 3.0 * (r * long);
      assert (4.0 * r - 1.0) * best == 3.0 * (r * best) + (r - 1.0) * best;
    }
  }

  lemma ScaleUp(r: real, long: real, best: real)
    requires r >= 1.0 && long <= best && best >= 0.0
    ensures WithinGraham(r, long, best) && WithinLpt(r, long, best)
  {
    assert r * long <= r * best;
    assert (r - 1.0) * best >= 0.0;
    assert (2.0 * r - 1.0) * best == r * best + (r - 1.0) * best;
    assert 3.0 * r * long == 3.0 * (r * long);
    assert (4.0 * r - 1.0) * best == 3.0 * (r * best) + (r - 1.0) * best;
  }

  /** The facts the ratio bounds need, for the bucket `b` whose last item is `k`. */
  lemma BucketFacts(w: seq<real>, a: seq<nat>, m: nat, opt: seq<nat>, b: nat, k: nat, best: real)
    requires |w| == |a| == |opt| && m > 0 && b < m && NonNegative(w)
    requires Greedy(w, a, m) && Placement(opt, m)
    requires forall c :: 0 <= c < m ==> Load(w, opt, c, |w|) <= best
    requires k < |w| && a[k] == b && forall i :: k < i < |w| ==> a[i] != b
    ensures GrahamFacts(m as real, Load(w, a, b, |w|), Total(w, |w|), w[k], best)
  {
    GrahamTotal(w, a, m, b, k);
    RivalLowerBounds(w, opt, m, best);
    assert m as real - 1.0 == (m - 1) as real;
  }

  lemma BucketRatio(w: seq<real>, a: seq<nat>, m: nat, opt: seq<nat>, b: nat, best: real)
    requires |w| == |a| == |opt| && m > 0 && b < m && NonNegative(w)
    requires Greedy(w, a, m) && Placement(opt, m) && best >= 0.0
    requires forall c :: 0 <= c < m ==> Load(w, opt, c, |w|) <= best
    ensures WithinGraham(m as real, Load(w, a, b, |w|), best)
    ensures HeaviestFirst(w) ==> WithinLpt(m as real, Load(w, a, b, |w|), best)
  {
    var long := Load(w, a, b, |w|);
    var k := SplitAtLast(w, a, b, |w|);
    if Count(a, b, |w|) > 0 {
      BucketFacts(w, a, m, opt, b, k, best);
      GrahamArithmetic(m as real, long, Total(w, |w|), w[k], best);
      if HeaviestFirst(w) && 3.0 * w[k] > best {
        LargeLastItem(w, a, m, opt, k, best);
        ScaleUp(m as real, long, best);
      }
    } else {
      ScaleUp(m as real, long, best);
    }
  }

  /** Graham: any greedy order is within 2 - 1/m of every rival placement, and heaviest-first
      order within 4/3 - 1/(3m). */
  lemma GreedyRatio(w: seq<real>, a: seq<nat>, m: nat, opt: seq<nat>)
    requires |w| == |a| == |opt| && m > 0 && NonNegative(w)
    requires Greedy(w, a, m) && Placement(opt, m)
    ensures WithinGraham(m as real, Makespan(w, a, m), Makespan(w, opt, m))
    ensures HeaviestFirst(w) ==> WithinLpt(m as real, Makespan(w, a, m), Makespan(w, opt, m))
  {
    var b := MakespanIsMax(w, a, m);
    var _ := MakespanIsMax(w, opt, m);
    LoadNonNegative(w, opt, 0, |w|);
    BucketRatio(w, a, m, opt, b, Makespan(w, opt, m));
  }

  // ---------- The longest-processing-time bound ----------

  /** Item sizes for the counting argument: two when the item cannot share a bucket with item `j`. */
  function Bulk(w: seq<real>, j: nat, best: real): (v: seq<real>)
    requires j < |w|
    ensures |v| == |w| && NonNegative(v)
  {
    seq(|w|, i requires 0 <= i < |w| => if w[i] + w[j] > best then 2.0 else 1.0)
  }

  /** A rival bucket holds at most two of the first `j + 1` items when each exceeds a third of it,
      and a bulky item is alone: its bulk is at most two. */
  lemma RivalBulk(w: seq<real>, opt: seq<nat>, b: nat, j: nat, best: real)
    requires |w| == |opt| && j < |w| && NonNegative(w) && HeaviestFirst(w)
    requires Load(w, opt, b, |w|) <= best < 3.0 * w[j]
    ensures Load(Bulk(w, j, best), opt, b, j + 1) <= 2.0
  {
    var v := Bulk(w, j, best);
    var k := SplitAtLast(v, opt, b, j + 1);
    if Count(opt, b, j + 1) > 0 {
      var i := SplitAtLast(v, opt, b, k);
      if Count(opt, b, k) > 0 {
        PairFits(w, opt, i, k);
        assert w[j] <= w[k] && w[j] <= w[i];
        var h := SplitAtLast(v, opt, b, i);
        if Count(opt, b, i) > 0 {
          TripleFits(w, opt, h, i, k);
          assert false;
        }
      }
    }
  }

  /** A greedy bucket that item `j` would push past `best` already holds a bulk of two. */
  lemma GreedyBulk(w: seq<real>, a: seq<nat>, b: nat, j: nat, best: real)
    requires |w| == |a| && j < |w| && w[j] <= best
    requires Load(w, a, b, j) + w[j] > best
    ensures Load(Bulk(w, j, best), a, b, j) >= 2.0
  {
    var v := Bulk(w, j, best);
    var k := SplitAtLast(w, a, b, j);
    var k' := SplitAtLast(v, a, b, j);
    assert Count(a, b, j) > 0;
    assert k == k';
    var i := SplitAtLast(w, a, b, k);
    var i' := SplitAtLast(v, a, b, k);
    if Count(a, b, k) > 0 {
      LoadNonNegative(v, a, b, i');
    }
  }

  /** Bulk needs one more bucket than the rival has. */
  lemma BulkOverflow(v: seq<real>, a: seq<nat>, opt: seq<nat>, m: nat, j: nat, n: nat)
    requires |v| == |a| == |opt| && n == j + 1 <= |v| && Placement(a, m) && Placement(opt, m)
    requires v[j] >= 1.0
    requires forall b :: 0 <= b < m ==> Load(v, opt, b, n) <= 2.0
    ensures exists b :: 0 <= b < m && Load(v, a, b, j) < 2.0
  {
    if forall b :: 0 <= b < m ==> Load(v, a, b, j) >= 2.0 {
      SumLoadsAtMost(v, opt, m, n, 2.0);
      SumLoadsAtLeast(v, a, m, j, 2.0);
      LoadsConserve(v, opt, m, n);
      LoadsConserve(v, a, m, j);
    }
  }

  /** When the completing item is more than a third of the rival's heaviest bucket, greedy
      heaviest-first is optimal. */
  lemma LargeLastItem(w: seq<real>, a: seq<nat>, m: nat, opt: seq<nat>, j: nat, best: real)
    requires |w| == |a| == |opt| && m > 0 && NonNegative(w) && HeaviestFirst(w)
    requires Greedy(w, a, m) && Placement(opt, m) && j < |w|
    requires forall b :: 0 <= b < m ==> Load(w, opt, b, |w|) <= best
    requires w[j] <= best < 3.0 * w[j]
    ensures Load(w, a, a[j], j) + w[j] <= best
  {
    var v, n := Bulk(w, j, best), j + 1;
    forall b | 0 <= b < m ensures Load(v, opt, b, n) <= 2.0 {
      RivalBulk(w, opt, b, j, best);
    }
    BulkOverflow(v, a, opt, m, j, n);
    var b :| 0 <= b < m && Load(v, a, b, j) < 2.0;
    if Load(w, a, b, j) + w[j] > best { GreedyBulk(w, a, b, j, best); }
    assert !KeyLess(KeyAt(w, a, b, j), KeyAt(w, a, a[j], j)) by { assert Lightest(w, a, m, j, a[j]); }
  }

  // ---------- Balance ----------

  /** The heaviest bucket exceeds any bucket by at most the last item it received. */
  lemma SpreadBound(w: seq<real>, a: seq<nat>, m: nat, b: nat, c: nat, k: nat)
    requires |w| == |a| && b < m && c < m && Greedy(w, a, m) && NonNegative(w)
    requires k < |w| && a[k] == b && forall i :: k < i < |w| ==> a[i] != b
    ensures Load(w, a, b, |w|) - Load(w, a, c, |w|) <= w[k]
  {
    LoadUnchanged(w, a, b, k + 1, |w|);
    assert !KeyLess(KeyAt(w, a, c, k), KeyAt(w, a, b, k)) by { assert Lightest(w, a, m, k, b); }
    LoadGrows(w, a, c, k, |w|);
  }

  /** `count` times `each`, by repeated addition. */
  function Times(each: real, count: nat): real {
    if count == 0 then 0.0 else Times(each, count - 1) + each
  }

  lemma {:induction false} TimesGrows(each: real, x: nat, y: nat)
    requires each >= 0.0 && x <= y
    ensures Times(each, x) <= Times(each, y)
    decreases y
  {
    if x < y { TimesGrows(each, x, y - 1); }
  }

  lemma {:induction false} TimesOne(count: nat)
    ensures Times(1.0, count) == count as real
  {
    if count > 0 { TimesOne(count - 1); }
  }

  lemma {:induction false} EvenLoad(w: seq<real>, a: seq<nat>, b: nat, n: nat, each: real)
    requires n <= |w| == |a|
    requires forall i :: 0 <= i < |w| ==> w[i] == each
    ensures Load(w, a, b, n) == Times(each, Count(a, b, n))
  {
    if n > 0 { EvenLoad(w, a, b, n - 1, each); }
  }

  /** Among equal weights the bucket with fewer files is the lesser key. */
  lemma FewerIsLess(w: seq<real>, a: seq<nat>, b: nat, c: nat, n: nat, each: real)
    requires n <= |w| == |a| && each >= 0.0 && forall i :: 0 <= i < |w| ==> w[i] == each
    requires Count(a, c, n) < Count(a, b, n)
    ensures KeyLess(KeyAt(w, a, c, n), KeyAt(w, a, b, n))
  {
    EvenLoad(w, a, b, n, each);
    EvenLoad(w, a, c, n, each);
    TimesGrows(each, Count(a, c, n), Count(a, b, n));
  }

  /** With equal weights, zero included, file counts never differ by more than one. */
  lemma {:induction false} EvenCounts(w: seq<real>, a: seq<nat>, m: nat, b: nat, c: nat, n: nat, each: real)
    requires n <= |w| == |a| && b < m && c < m && Greedy(w, a, m)
    requires each >= 0.0 && forall i :: 0 <= i < |w| ==> w[i] == each
    ensures Count(a, b, n) <= Count(a, c, n) + 1
  {
    if n > 0 {
      EvenCounts(w, a, m, b, c, n - 1, each);
      assert Lightest(w, a, m, n - 1, a[n - 1]);
      assert !KeyLess(KeyAt(w, a, c, n - 1), KeyAt(w, a, a[n - 1], n - 1));
      if Count(a, c, n - 1) < Count(a, b, n - 1) { FewerIsLess(w, a, b, c, n - 1, each); }
    }
  }

  // ---------- When every bucket receives a file ----------

  function Ones(n: nat): seq<real> {
    seq(n, _ => 1.0)
  }

  lemma LoadOfOnes(a: seq<nat>, b: nat, n: nat)
    requires n <= |a|
    ensures Load(Ones(|a|), a, b, n) == Count(a, b, n) as real
  {
    EvenLoad(Ones(|a|), a, b, n, 1.0);
    TimesOne(Count(a, b, n));
  }

  lemma {:induction false} TotalOfOnes(size: nat, n: nat)
    requires n <= size
    ensures Total(Ones(size), n) == n as real
  {
    if n > 0 { TotalOfOnes(size, n - 1); }
  }

  /** Fewer files than buckets leave a bucket empty. */
  lemma FewLeaveOneEmpty(a: seq<nat>, m: nat, n: nat) returns (e: nat)
    requires n <= |a| && n < m && Placement(a, m)
    ensures e < m && Count(a, e, n) == 0
  {
    if forall b :: 0 <= b < m ==> Count(a, b, n) > 0 {
      var v := Ones(|a|);
      forall b | 0 <= b < m ensures Load(v, a, b, n) >= 1.0 { LoadOfOnes(a, b, n); }
      SumLoadsAtLeast(v, a, m, n, 1.0);
      LoadsConserve(v, a, m, n);
      TotalOfOnes(|a|, n);
    }
    e :| 0 <= e < m && Count(a, e, n) == 0;
  }

  /** When no bucket holds two, `m` files fill all `m` buckets. */
  lemma SinglesFill(a: seq<nat>, m: nat, e: nat)
    requires m <= |a| && e < m && Placement(a, m)
    requires forall b :: 0 <= b < m ==> Count(a, b, m) <= 1
    ensures Count(a, e, m) == 1
  {
    if Count(a, e, m) == 0 {
      var v := Ones(|a|);
      forall b | 0 <= b < m ensures Load(v, a, b, m) <= 1.0 { LoadOfOnes(a, b, m); }
      LoadOfOnes(a, e, m);
      SumLoadsBelow(v, a, m, m, e);
      LoadsConserve(v, a, m, m);
      TotalOfOnes(|a|, m);
    }
  }

  lemma {:induction false} SumLoadsBelow(w: seq<real>, a: seq<nat>, m: nat, n: nat, e: nat)
    requires n <= |w| == |a| && e < m
    requires forall b :: 0 <= b < m ==> Load(w, a, b, n) <= 1.0
    requires Load(w, a, e, n) < 1.0
    ensures SumLoads(w, a, m, n) < m as real
  {
    if e == m - 1 {
      SumLoadsAtMost(w, a, m - 1, n, 1.0);
    } else {
      SumLoadsBelow(w, a, m - 1, n, e);
    }
  }

  lemma {:induction false} CountGrows(a: seq<nat>, b: nat, i: nat, n: nat)
    requires i <= n <= |a|
    ensures Count(a, b, i) <= Count(a, b, n)
    decreases n
  {
    if i < n { CountGrows(a, b, i, n - 1); }
  }

  /** While a bucket is empty and no weight so far is negative, an empty bucket is chosen. */
  lemma {:induction false} FirstFilesSpread(w: seq<real>, a: seq<nat>, m: nat, n: nat)
    requires n <= |w| == |a| && n <= m && Greedy(w, a, m)
    requires forall i :: 0 <= i < n - 1 ==> w[i] >= 0.0
    ensures forall b :: 0 <= b < m ==> Count(a, b, n) <= 1
    ensures n > 0 ==> Count(a, a[n - 1], n - 1) == 0
  {
    if n > 0 {
      FirstFilesSpread(w, a, m, n - 1);
      var c := a[n - 1];
      var e := FewLeaveOneEmpty(a, m, n - 1);
      var _ := SplitAtLast(w, a, e, n - 1);
      var k := SplitAtLast(w, a, c, n - 1);
      assert !KeyLess(KeyAt(w, a, e, n - 1), KeyAt(w, a, c, n - 1)) by { assert Lightest(w, a, m, n - 1, c); }
      if Count(a, c, n - 1) > 0 {
        var _ := SplitAtLast(w, a, c, k);
      }
    }
  }

  /** The first file of negative weight attracts every later file. */
  lemma {:induction false} NegativeBucketAttracts(w: seq<real>, a: seq<nat>, m: nat, p: nat, n: nat)
    requires p < n <= |w| == |a| && p < m && Greedy(w, a, m) && HeaviestFirst(w)
    requires w[p] < 0.0 && forall i :: 0 <= i < p ==> w[i] >= 0.0
    ensures Load(w, a, a[p], n) < 0.0
    ensures forall b :: b != a[p] ==> Load(w, a, b, n) >= 0.0
    ensures forall i :: p <= i < n ==> a[i] == a[p]
  {
    if n == p + 1 {
      FirstFilesSpread(w, a, m, n);
      var _ := SplitAtLast(w, a, a[p], p);
      forall b | b != a[p] ensures Load(w, a, b, n) >= 0.0 { NonNegativePrefix(w, a, b, p); }
    } else {
      NegativeBucketAttracts(w, a, m, p, n - 1);
      var c := a[n - 1];
      assert !KeyLess(KeyAt(w, a, a[p], n - 1), KeyAt(w, a, c, n - 1)) by { assert Lightest(w, a, m, n - 1, c); }
    }
  }

  lemma {:induction false} NonNegativePrefix(w: seq<real>, a: seq<nat>, b: nat, n: nat)
    requires n <= |w| == |a| && forall i :: 0 <= i < n ==> w[i] >= 0.0
    ensures Load(w, a, b, n) >= 0.0
  {
    if n > 0 { NonNegativePrefix(w, a, b, n - 1); }
  }

  function NonNegatives(w: seq<real>, n: nat): nat
    requires n <= |w|
  {
    if n == 0 then 0 else NonNegatives(w, n - 1) + if w[n - 1] >= 0.0 then 1 else 0
  }

  /** In heaviest-first order the non-negative weights are a prefix. */
  lemma {:induction false} NonNegativesLead(w: seq<real>, n: nat)
    requires n <= |w| && HeaviestFirst(w)
    ensures NonNegatives(w, n) <= n
    ensures forall i :: 0 <= i < n ==> (w[i] >= 0.0 <==> i < NonNegatives(w, n))
  {
    if n > 0 { NonNegativesLead(w, n - 1); }
  }

  /** Whatever the weights: heaviest-first greedy leaves no bucket empty exactly when there are at
      least `m` files and at most one bucket would have to be filled by files of negative weight. */
  lemma NoBucketEmptyIff(w: seq<real>, a: seq<nat>, m: nat)
    requires |w| == |a| && m > 0 && Greedy(w, a, m) && HeaviestFirst(w)
    ensures (forall b :: 0 <= b < m ==> Count(a, b, |w|) > 0)
       <==> |w| >= m && NonNegatives(w, |w|) >= m - 1
  {
    var p := NonNegatives(w, |w|);
    NonNegativesLead(w, |w|);
    if |w| < m {
      var _ := FewLeaveOneEmpty(a, m, |w|);
    } else if p >= m - 1 {
      FirstFilesSpread(w, a, m, m);
      forall b | 0 <= b < m ensures Count(a, b, |w|) > 0 {
        SinglesFill(a, m, b);
        CountGrows(a, b, m, |w|);
      }
    } else {
      NegativeBucketAttracts(w, a, m, p, |w|);
      var e := FewLeaveOneEmpty(a, m, p + 1);
      assert a[p] != e by { CountGrows(a, a[p], p + 1, p + 1); }
      LoadUnchanged(w, a, e, p + 1, |w|);
    }
  }
}
