/** What the partitions of scripts/coverage-partitions.ts guarantee, and the coordinator that
    hands them out heaviest first. */
module PartitionGuarantees {
  import opened CoveragePartitions
  import opened ListScheduling
  import opened Options
  import opened Sorting

  /** All the files of some partitions, with multiplicity. */
  function Pieces(parts: seq<seq<string>>): multiset<string> {
    if parts == [] then multiset{} else multiset(parts[0]) + Pieces(parts[1..])
  }

  // ---------- Conservation ----------

  /** x + q == y + g can be read under any p, and g cancels. */
  lemma Balance<T>(p: multiset<T>, x: multiset<T>, q: multiset<T>, y: multiset<T>, g: multiset<T>)
    requires x + q == y + g
    ensures (p + x) + q == (p + y) + g
    ensures q == g ==> x == y
  {
    forall e ensures ((p + x) + q)[e] == ((p + y) + g)[e] { assert (x + q)[e] == (y + g)[e]; }
    if q == g { forall e ensures x[e] == y[e] { assert (x + q)[e] == (y + g)[e]; } }
  }

  lemma {:induction false} PiecesOfUpdate(parts: seq<seq<string>>, b: nat, files: seq<string>)
    requires b < |parts|
    ensures Pieces(parts[b := files]) + multiset(parts[b]) == Pieces(parts) + multiset(files)
  {
    var parts' := parts[b := files];
    if b > 0 {
      PiecesOfUpdate(parts[1..], b - 1, files);
      assert parts'[1..] == parts[1..][b - 1 := files];
      assert parts'[0] == parts[0] && parts[1..][b - 1] == parts[b];
      Balance(multiset(parts[0]), Pieces(parts'[1..]), multiset(parts[b]), Pieces(parts[1..]), multiset(files));
    } else {
      assert parts'[1..] == parts[1..];
      assert parts'[0] == files;
    }
  }

  /** Taking one file out of a list. */
  lemma RemoveAt(xs: seq<string>, k: nat)
    requires k < |xs|
    ensures multiset(xs) == multiset(xs[..k] + xs[k + 1..]) + multiset{xs[k]}
  {
    assert xs == xs[..k] + [xs[k]] + xs[k + 1..];
  }

  lemma {:induction false} PiecesOfEmpty(parts: seq<seq<string>>)
    requires forall b :: 0 <= b < |parts| ==> parts[b] == []
    ensures Pieces(parts) == multiset{}
  {
    if parts != [] { PiecesOfEmpty(parts[1..]); }
  }

  lemma AddToPart(before: seq<seq<string>>, c: nat, full: seq<string>, f: string, after: seq<seq<string>>)
    requires c < |before| && after == before[c := full] && multiset(full) == multiset(before[c]) + multiset{f}
    ensures Pieces(after) == Pieces(before) + multiset{f}
  {
    PiecesOfUpdate(before, c, full);
    var held, one := multiset(before[c]), multiset{f};
    assert Pieces(before) + (held + one) == (Pieces(before) + one) + held;
    Balance(multiset{}, Pieces(after), held, Pieces(before) + one, held);
  }

  function PartsAt(order: seq<string>, place: seq<nat>, m: nat, n: nat): (parts: seq<seq<string>>)
    requires n <= |order| && n <= |place|
    ensures |parts| == m && forall b :: 0 <= b < m ==> parts[b] == FilesIn(order, place, b, n)
  {
    seq(m, b requires 0 <= b => FilesIn(order, place, b, n))
  }

  lemma PiecesStep(before: seq<seq<string>>, c: nat, f: string, after: seq<seq<string>>, placed: seq<string>,
                   placed': seq<string>)
    requires c < |before| && after == before[c := before[c] + [f]] && Pieces(before) == multiset(placed)
    requires placed' == placed + [f]
    ensures Pieces(after) == multiset(placed')
  {
    AddToPart(before, c, before[c] + [f], f, after);
  }

  lemma {:induction false} PlacedPieces(order: seq<string>, place: seq<nat>, m: nat, n: nat, parts: seq<seq<string>>)
    requires n <= |order| && n <= |place| && Placement(place, m) && parts == PartsAt(order, place, m, n)
    ensures Pieces(parts) == multiset(order[..n])
    decreases n
  {
    if n == 0 {
      PiecesOfEmpty(parts);
    } else {
      var before := PartsAt(order, place, m, n - 1);
      PlacedPieces(order, place, m, n - 1, before);
      PiecesStep(before, place[n - 1], order[n - 1], parts, order[..n - 1], order[..n]);
    }
  }

  lemma {:induction false} PlacedWeight(order: seq<string>, weights: Weights, place: seq<nat>, b: nat, n: nat)
    requires n <= |order| && n <= |place|
    ensures PartitionWeight(FilesIn(order, place, b, n), weights) == Load(WeightsOf(order, weights), place, b, n)
    ensures |FilesIn(order, place, b, n)| == Count(place, b, n)
  {
    if n > 0 {
      PlacedWeight(order, weights, place, b, n - 1);
      WeightOfSum(FilesIn(order, place, b, n - 1), [order[n - 1]], weights);
    }
  }

  /** No file is lost, duplicated or invented, and the sum a bucket was ranked by is the weight of
      the files it holds. */
  lemma PartitionsConserve(files: seq<string>, weights: Weights, m: nat, order: seq<string>, place: seq<nat>,
                           parts: seq<seq<string>>)
    requires IsLpt(files, weights, m, order, place, parts)
    ensures Pieces(parts) == multiset(files)
    ensures forall b :: 0 <= b < m ==>
      PartitionWeight(parts[b], weights) == Load(WeightsOf(order, weights), place, b, |order|) &&
      |parts[b]| == Count(place, b, |order|)
  {
    assert parts == PartsAt(order, place, m, |order|);
    PlacedPieces(order, place, m, |order|, parts);
    assert order[..|order|] == order;
    forall b | 0 <= b < m
      ensures PartitionWeight(parts[b], weights) == Load(WeightsOf(order, weights), place, b, |order|)
      ensures |parts[b]| == Count(place, b, |order|)
    {
      PlacedWeight(order, weights, place, b, |order|);
    }
  }

  // ---------- Any other partitioning as a placement ----------

  ghost predicate NonNegativeFiles(files: seq<string>, weights: Weights) {
    forall f :: f in files ==> WeightOf(f, weights) >= 0.0
  }

  lemma NonNegativeOrder(files: seq<string>, order: seq<string>, weights: Weights)
    requires multiset(order) == multiset(files) && NonNegativeFiles(files, weights)
    ensures NonNegative(WeightsOf(order, weights))
  {
    forall i | 0 <= i < |order| ensures WeightOf(order[i], weights) >= 0.0 {
      assert order[i] in multiset(order);
      assert order[i] in files;
    }
  }

  lemma {:induction false} WeightOfSum(xs: seq<string>, ys: seq<string>, weights: Weights)
    ensures PartitionWeight(xs + ys, weights) == PartitionWeight(xs, weights) + PartitionWeight(ys, weights)
  {
    if ys == [] {
      assert xs + ys == xs;
    } else {
      WeightOfSum(xs, ys[..|ys| - 1], weights);
      assert (xs + ys)[..|xs + ys| - 1] == xs + ys[..|ys| - 1];
    }
  }

  lemma {:induction false} FindPiece(parts: seq<seq<string>>, f: string) returns (b: nat, k: nat)
    requires f in Pieces(parts)
    ensures b < |parts| && k < |parts[b]| && parts[b][k] == f
  {
    if f in parts[0] {
      b := 0;
      k :| 0 <= k < |parts[0]| && parts[0][k] == f;
    } else {
      b, k := FindPiece(parts[1..], f);
      b := b + 1;
    }
  }

  /** Every partitioning of the same files arises from some placement of them. */
  lemma {:induction false} RivalPlacement(order: seq<string>, weights: Weights, rival: seq<seq<string>>)
    returns (opt: seq<nat>)
    requires Pieces(rival) == multiset(order)
    ensures |opt| == |order| && Placement(opt, |rival|)
    ensures forall b :: 0 <= b < |rival| ==>
      Load(WeightsOf(order, weights), opt, b, |order|) == PartitionWeight(rival[b], weights)
  {
    var n := |order|;
    if n == 0 {
      opt := [];
      NothingHeld(rival);
    } else {
      var init, f := order[..n - 1], order[n - 1];
      assert order == init + [f];
      assert f in multiset(order);
      var c, k := FindPiece(rival, f);
      var rest := rival[c][..k] + rival[c][k + 1..];
      PiecesWithout(rival, c, k, init, f);
      var opt' := RivalPlacement(init, weights, rival[c := rest]);
      opt := opt' + [c];
      WeightWithout(rival[c], k, weights);
      PlaceLast(init, f, weights, opt', rival[c := rest], c, rival);
    }
  }

  lemma PlaceLast(init: seq<string>, f: string, weights: Weights, opt: seq<nat>, before: seq<seq<string>>, c: nat,
                  after: seq<seq<string>>)
    requires |opt| == |init| && c < |before| == |after|
    requires forall b :: 0 <= b < |before| ==>
      Load(WeightsOf(init, weights), opt, b, |init|) == PartitionWeight(before[b], weights)
    requires forall b :: 0 <= b < |after| ==>
      PartitionWeight(after[b], weights) ==
        PartitionWeight(before[b], weights) + if b == c then WeightOf(f, weights) else 0.0
    ensures forall b :: 0 <= b < |after| ==>
      Load(WeightsOf(init + [f], weights), opt + [c], b, |init| + 1) == PartitionWeight(after[b], weights)
  {
    var w, w', a' := WeightsOf(init, weights), WeightsOf(init + [f], weights), opt + [c];
    assert w' == w + [WeightOf(f, weights)];
    forall b | 0 <= b < |after| ensures Load(w', a', b, |init| + 1) == PartitionWeight(after[b], weights) {
      PrefixDecides(w, opt, w', a', b, |init|);
      assert KeyAt(w', a', b, |init|) == KeyAt(w, opt, b, |init|);
    }
  }

  lemma PiecesWithout(parts: seq<seq<string>>, c: nat, k: nat, init: seq<string>, f: string)
    requires c < |parts| && k < |parts[c]| && parts[c][k] == f && Pieces(parts) == multiset(init + [f])
    ensures Pieces(parts[c := parts[c][..k] + parts[c][k + 1..]]) == multiset(init)
  {
    var rest := parts[c][..k] + parts[c][k + 1..];
    RemoveAt(parts[c], k);
    AddToPart(parts[c := rest], c, parts[c], f, parts);
    assert multiset(init + [f]) == multiset(init) + multiset{f};
    Balance(multiset{}, Pieces(parts[c := rest]), multiset{f}, multiset(init), multiset{f});
  }

  lemma WeightWithout(xs: seq<string>, k: nat, weights: Weights)
    requires k < |xs|
    ensures PartitionWeight(xs, weights) == PartitionWeight(xs[..k] + xs[k + 1..], weights) + WeightOf(xs[k], weights)
  {
    assert xs == xs[..k] + [xs[k]] + xs[k + 1..];
    WeightOfSum(xs[..k], xs[k + 1..], weights);
    WeightOfSum(xs[..k] + [xs[k]], xs[k + 1..], weights);
    WeightOfSum(xs[..k], [xs[k]], weights);
  }

  lemma {:induction false} NothingHeld(parts: seq<seq<string>>)
    requires Pieces(parts) == multiset{}
    ensures forall b :: 0 <= b < |parts| ==> parts[b] == []
  {
    if parts != [] {
      assert parts[0] != [] ==> parts[0][0] in multiset(parts[0]);
      NothingHeld(parts[1..]);
      forall b | 0 < b < |parts| ensures parts[b] == [] { assert parts[b] == parts[1..][b - 1]; }
    }
  }

  // ---------- The guarantees ----------

  ghost predicate NoneHeavier(parts: seq<seq<string>>, weights: Weights, best: real) {
    forall b :: 0 <= b < |parts| ==> PartitionWeight(parts[b], weights) <= best
  }

  /** Graham's LPT bound against every partitioning `rival` of the same files into as many
      partitions: L <= (4/3 - 1/(3m)) * M for every partition weight L, whenever M bounds the rival's
      partitions. */
  lemma WithinLptOfAnyRival(files: seq<string>, weights: Weights, m: nat, order: seq<string>, place: seq<nat>,
                            parts: seq<seq<string>>, rival: seq<seq<string>>, best: real, b: nat)
    requires IsLpt(files, weights, m, order, place, parts) && NonNegativeFiles(files, weights) && b < m
    requires |rival| == m && Pieces(rival) == multiset(files) && NoneHeavier(rival, weights, best)
    ensures WithinLpt(m as real, PartitionWeight(parts[b], weights), best)
  {
    var w := WeightsOf(order, weights);
    var opt := RivalPlacement(order, weights, rival);
    NonNegativeOrder(files, order, weights);
    PartitionsConserve(files, weights, m, order, place, parts);
    LoadNonNegative(w, opt, 0, |w|);
    assert PartitionWeight(rival[0], weights) <= best;
    forall c | 0 <= c < m ensures Load(w, opt, c, |w|) <= best {
      assert PartitionWeight(rival[c], weights) <= best;
    }
    BucketRatio(w, place, m, opt, b, best);
  }

  /** The heaviest partition exceeds any other by at most the weight of the last file it received. */
  lemma SpreadWithinLastFile(files: seq<string>, weights: Weights, m: nat, order: seq<string>, place: seq<nat>,
                             parts: seq<seq<string>>, b: nat, c: nat)
    requires IsLpt(files, weights, m, order, place, parts) && NonNegativeFiles(files, weights)
    requires b < m && c < m && parts[b] != []
    ensures PartitionWeight(parts[b], weights) - PartitionWeight(parts[c], weights) <=
      WeightOf(parts[b][|parts[b]| - 1], weights)
  {
    var w := WeightsOf(order, weights);
    PartitionsConserve(files, weights, m, order, place, parts);
    NonNegativeOrder(files, order, weights);
    var k := SplitAtLast(w, place, b, |w|);
    SpreadBound(w, place, m, b, c, k);
    LastFile(order, place, b, k, |order|);
  }

  lemma {:induction false} LastFile(order: seq<string>, place: seq<nat>, b: nat, k: nat, n: nat)
    requires k < n <= |order| && n <= |place| && place[k] == b && forall i :: k < i < n ==> place[i] != b
    ensures FilesIn(order, place, b, n) == FilesIn(order, place, b, k) + [order[k]]
    decreases n
  {
    if n > k + 1 { LastFile(order, place, b, k, n - 1); }
  }

  /** With no recorded durations, or any equal ones, file counts differ by at most one. */
  lemma EqualWeightsSplitEvenly(files: seq<string>, weights: Weights, m: nat, order: seq<string>, place: seq<nat>,
                                parts: seq<seq<string>>, each: real)
    requires IsLpt(files, weights, m, order, place, parts)
    requires each >= 0.0 && forall f :: f in files ==> WeightOf(f, weights) == each
    ensures forall b, c :: 0 <= b < m && 0 <= c < m ==> |parts[b]| <= |parts[c]| + 1
  {
    var w := WeightsOf(order, weights);
    PartitionsConserve(files, weights, m, order, place, parts);
    forall i | 0 <= i < |order| ensures w[i] == each {
      assert order[i] in multiset(order);
      assert order[i] in files;
    }
    forall b: nat, c: nat | b < m && c < m ensures |parts[b]| <= |parts[c]| + 1 {
      EvenCounts(w, place, m, b, c, |w|, each);
    }
  }

  // ---------- Empty partitions ----------

  /** How many of the files weigh at least zero. */
  function NonNegativeCount(files: seq<string>, weights: Weights): nat {
    if files == [] then 0 else
      var here := if WeightOf(files[|files| - 1], weights) >= 0.0 then 1 else 0;
      NonNegativeCount(files[..|files| - 1], weights) + here
  }

  /** The documentation promises that every partition is non-empty.  That holds exactly when there
      are at least `m` files of which at least `m - 1` have a non-negative weight. */
  lemma NoPartitionEmptyIff(files: seq<string>, weights: Weights, m: nat, order: seq<string>, place: seq<nat>,
                            parts: seq<seq<string>>)
    requires IsLpt(files, weights, m, order, place, parts) && m > 0
    ensures [] !in parts <==> |files| >= m && NonNegativeCount(files, weights) >= m - 1
  {
    var w := WeightsOf(order, weights);
    NoBucketEmptyIff(w, place, m);
    EmptyMeansUncounted(files, weights, m, order, place, parts);
    CountsAgree(order, weights, |order|);
    assert order[..|order|] == order;
    CountPermutes(order, files, weights);
    assert |multiset(order)| == |multiset(files)|;
  }

  lemma EmptyMeansUncounted(files: seq<string>, weights: Weights, m: nat, order: seq<string>, place: seq<nat>,
                            parts: seq<seq<string>>)
    requires IsLpt(files, weights, m, order, place, parts)
    ensures [] !in parts <==> forall b :: 0 <= b < m ==> Count(place, b, |order|) > 0
  {
    PartitionsConserve(files, weights, m, order, place, parts);
    if [] in parts {
      var b :| 0 <= b < m && parts[b] == [];
      assert Count(place, b, |order|) == 0;
    } else {
      forall b | 0 <= b < m ensures Count(place, b, |order|) > 0 { assert parts[b] in parts; }
    }
  }

  lemma {:induction false} CountsAgree(order: seq<string>, weights: Weights, n: nat)
    requires n <= |order|
    ensures NonNegatives(WeightsOf(order, weights), n) == NonNegativeCount(order[..n], weights)
  {
    if n > 0 {
      CountsAgree(order, weights, n - 1);
      assert order[..n][..n - 1] == order[..n - 1];
    }
  }

  lemma {:induction false} CountOfSum(xs: seq<string>, ys: seq<string>, weights: Weights)
    ensures NonNegativeCount(xs + ys, weights) == NonNegativeCount(xs, weights) + NonNegativeCount(ys, weights)
  {
    if ys == [] {
      assert xs + ys == xs;
    } else {
      CountOfSum(xs, ys[..|ys| - 1], weights);
      assert (xs + ys)[..|xs + ys| - 1] == xs + ys[..|ys| - 1];
    }
  }

  lemma {:induction false} CountPermutes(xs: seq<string>, ys: seq<string>, weights: Weights)
    requires multiset(xs) == multiset(ys)
    ensures NonNegativeCount(xs, weights) == NonNegativeCount(ys, weights)
  {
    if xs == [] {
      assert |multiset(xs)| == |multiset(ys)|;
    } else {
      var init, f := xs[..|xs| - 1], xs[|xs| - 1];
      assert xs == init + [f];
      assert f in multiset(ys);
      var k :| 0 <= k < |ys| && ys[k] == f;
      RemoveAt(ys, k);
      Balance(multiset{}, multiset(init), multiset{f}, multiset(ys[..k] + ys[k + 1..]), multiset{f});
      CountPermutes(init, ys[..k] + ys[k + 1..], weights);
      CountWithout(ys, k, weights);
    }
  }

  lemma CountWithout(ys: seq<string>, k: nat, weights: Weights)
    requires k < |ys|
    ensures NonNegativeCount(ys, weights) ==
      NonNegativeCount(ys[..k] + ys[k + 1..], weights) + if WeightOf(ys[k], weights) >= 0.0 then 1 else 0
  {
    assert ys == ys[..k] + [ys[k]] + ys[k + 1..] && [ys[k]][..0] == [];
    CountOfSum(ys[..k] + [ys[k]], ys[k + 1..], weights);
    CountOfSum(ys[..k], [ys[k]], weights);
    CountOfSum(ys[..k], ys[k + 1..], weights);
  }

  // ---------- The coordinator ----------

  datatype Inventory = Inventory(files: seq<string>, projectOf: map<string, string>)

  function HeavierPart(weights: Weights): (seq<string>, seq<string>) -> bool {
    (left, right) => PartitionWeight(left, weights) >= PartitionWeight(right, weights)
  }

  lemma {:induction false} PiecesOfInsert(x: seq<string>, xs: seq<seq<string>>, le: (seq<string>, seq<string>) -> bool)
    ensures Pieces(Insert(x, xs, le)) == multiset(x) + Pieces(xs)
  {
    if xs == [] || le(x, xs[0]) {
    } else {
      PiecesOfInsert(x, xs[1..], le);
    }
  }

  lemma {:induction false} PiecesOfSort(xs: seq<seq<string>>, le: (seq<string>, seq<string>) -> bool)
    ensures Pieces(Sort(xs, le)) == Pieces(xs)
  {
    if xs != [] {
      PiecesOfSort(xs[1..], le);
      PiecesOfInsert(xs[0], Sort(xs[1..], le), le);
    }
  }

  /** Which partition comes first changes nothing the guarantees speak of. */
  lemma SortedPartsKeepGuarantees(parts: seq<seq<string>>, assignments: seq<seq<string>>)
    requires multiset(assignments) == multiset(parts)
    ensures |assignments| == |parts|
    ensures forall part :: part in assignments <==> part in parts
  {
    assert |multiset(assignments)| == |multiset(parts)|;
    assert forall part :: part in assignments <==> part in multiset(assignments);
    assert forall part :: part in parts <==> part in multiset(parts);
  }

  /** Parts in the order in which they are started. */
  ghost predicate HeaviestPartFirst(parts: seq<seq<string>>, weights: Weights) {
    forall i, j :: 0 <= i < j < |parts| ==> PartitionWeight(parts[i], weights) >= PartitionWeight(parts[j], weights)
  }

  /** No partitioning of the files into as many parts is much better than this one: were all of its
      parts to weigh at most M, no part here weighs more than (4/3 - 1/(3m)) * M. */
  ghost predicate NearlyOptimal(files: seq<string>, weights: Weights, m: nat, assignments: seq<seq<string>>) {
    forall rival: seq<seq<string>>, best: real, b: nat ::
      |rival| == m && Pieces(rival) == multiset(files) && NoneHeavier(rival, weights, best) && b < |assignments| ==>
        WithinLpt(m as real, PartitionWeight(assignments[b], weights), best)
  }

  lemma NearOptimal(files: seq<string>, weights: Weights, m: nat, order: seq<string>, place: seq<nat>,
                    parts: seq<seq<string>>, assignments: seq<seq<string>>)
    requires IsLpt(files, weights, m, order, place, parts) && multiset(assignments) == multiset(parts)
    ensures NonNegativeFiles(files, weights) ==> NearlyOptimal(files, weights, m, assignments)
  {
    if NonNegativeFiles(files, weights) {
      SortedPartsKeepGuarantees(parts, assignments);
      forall rival: seq<seq<string>>, best: real, b: nat
        | |rival| == m && Pieces(rival) == multiset(files) && NoneHeavier(rival, weights, best) && b < |assignments|
        ensures WithinLpt(m as real, PartitionWeight(assignments[b], weights), best)
      {
        assert assignments[b] in assignments;
        var c :| 0 <= c < |parts| && parts[c] == assignments[b];
        WithinLptOfAnyRival(files, weights, m, order, place, parts, rival, best, c);
      }
    }
  }

  /** `assignments` are the parts of a longest-processing-time assignment that places files of one
      weight in collation order, heaviest part first. */
  ghost predicate Distributes(files: seq<string>, weights: Weights, m: nat, collate: (string, string) -> bool,
                              order: seq<string>, place: seq<nat>, parts: seq<seq<string>>,
                              assignments: seq<seq<string>>) {
    && IsLpt(files, weights, m, order, place, parts) && TiesCollate(order, weights, collate)
    && multiset(assignments) == multiset(parts) && |assignments| == m
    && Pieces(assignments) == multiset(files) && HeaviestPartFirst(assignments, weights)
    && (NonNegativeFiles(files, weights) ==> NearlyOptimal(files, weights, m, assignments))
  }

  /** What a run plans for the files it was given, or that it refuses to run. */
  ghost predicate PlansFor(files: seq<string>, weights: Weights, m: nat, plan: Option<seq<seq<string>>>) {
    && (plan.Some? <==> |files| >= m && NonNegativeCount(files, weights) >= m - 1)
    && (plan.Some? ==> [] !in plan.value && |plan.value| == m && Pieces(plan.value) == multiset(files))
    && (plan.Some? ==> HeaviestPartFirst(plan.value, weights))
    && (plan.Some? && NonNegativeFiles(files, weights) ==> NearlyOptimal(files, weights, m, plan.value))
  }

  /** Files without a recorded duration weigh one each. */
  lemma {:induction false} UnrecordedCountEvenly(files: seq<string>, weights: Weights)
    requires forall f :: f in files ==> f !in weights
    ensures PartitionWeight(files, weights) == |files| as real
    ensures NonNegativeCount(files, weights) == |files|
  {
    if files != [] { UnrecordedCountEvenly(files[..|files| - 1], weights); }
  }

  /** A recorded duration is what a file adds to its partition. */
  lemma RecordedDurationCounts(part: seq<string>, f: string, weights: Weights)
    requires f in weights
    ensures PartitionWeight(part + [f], weights) == PartitionWeight(part, weights) + weights[f]
  {
    WeightOfSum(part, [f], weights);
    assert [f][..0] == [];
  }

  class CoveragePartitionCoordinator {
    const partitions: nat
    /** Injected inventory; an empty list means the workspace is scanned. */
    const files: seq<string>
    const weights: Option<Weights>
    var projectOf: map<string, string>

    constructor (partitions: nat, files: seq<string>, weights: Option<Weights>, projectOf: map<string, string>)
      requires partitions >= 2
      ensures this.partitions == partitions && this.files == files && this.weights == weights
      ensures this.projectOf == projectOf
    {
      this.partitions, this.files, this.weights, this.projectOf := partitions, files, weights, projectOf;
    }

    /** Refuses a partition count below two, as the construction of the original throws. */
    static method Create(partitions: int, files: seq<string>, weights: Option<Weights>, projectOf: map<string, string>)
      returns (coordinator: Option<CoveragePartitionCoordinator>)
      ensures coordinator.None? <==> partitions < 2
      ensures coordinator.Some? ==> var c := coordinator.value;
        fresh(c) && c.partitions == partitions && c.files == files && c.weights == weights && c.projectOf == projectOf
    {
      if partitions < 2 { return None; }
      var c := new CoveragePartitionCoordinator(partitions, files, weights, projectOf);
      return Some(c);
    }

    /** Distribute the inventory, heaviest partition first.  A workspace scan is weighed by the
        recorded durations; an injected list by the injected weights, or evenly without any. */
    method AssignFiles(scanned: Inventory, recorded: Weights, collate: (string, string) -> bool)
      returns (assignments: seq<seq<string>>, ghost order: seq<string>, ghost place: seq<nat>,
        ghost parts: seq<seq<string>>)
      requires TotalPreorder(collate) && partitions >= 2
      modifies this`projectOf
      ensures files == [] ==> projectOf == scanned.projectOf
      ensures files == [] ==>
        Distributes(scanned.files, recorded, partitions, collate, order, place, parts, assignments)
      ensures files != [] ==> projectOf == old(projectOf)
      ensures files != [] && weights.Some? ==>
        Distributes(files, weights.value, partitions, collate, order, place, parts, assignments)
      ensures files != [] && weights.None? ==>
        Distributes(files, map[], partitions, collate, order, place, parts, assignments)
    {
      var chosen, durations;
      if files != [] {
        chosen := files;
        durations := if weights.Some? then weights.value else map[];
      } else {
        chosen, projectOf := scanned.files, scanned.projectOf;
        durations := recorded;
      }
      var result;
      result, order, place := AssignWeightedPartitions(chosen, durations, partitions, collate);
      parts := result.value;
      assignments := Sort(result.value, HeavierPart(durations));
      SortPermutes(parts, HeavierPart(durations));
      SortOrders(parts, HeavierPart(durations));
      PiecesOfSort(parts, HeavierPart(durations));
      PartitionsConserve(chosen, durations, partitions, order, place, parts);
      NearOptimal(chosen, durations, partitions, order, place, parts, assignments);
    }

    /** The first partition without files, if any: the run is refused then. */
    method FirstEmpty(assignments: seq<seq<string>>) returns (empty: Option<nat>)
      ensures empty.None? <==> [] !in assignments
      ensures empty.Some? ==> empty.value < |assignments| && assignments[empty.value] == []
      ensures empty.Some? ==> [] !in assignments[..empty.value]
    {
      for i := 0 to |assignments|
        invariant [] !in assignments[..i]
      {
        if |assignments[i]| == 0 { return Some(i); }
      }
      return None;
    }

    /** The head of a run: distribute the files, refuse an empty partition.  The run goes ahead
        exactly when there are enough files and no more than one partition depends on files of
        negative weight. */
    method Plan(scanned: Inventory, recorded: Weights, collate: (string, string) -> bool)
      returns (plan: Option<seq<seq<string>>>)
      requires TotalPreorder(collate) && partitions >= 2
      modifies this`projectOf
      ensures files == [] ==> PlansFor(scanned.files, recorded, partitions, plan)
      ensures files == [] ==> projectOf == scanned.projectOf
      ensures files != [] && weights.Some? ==> PlansFor(files, weights.value, partitions, plan)
      ensures files != [] && weights.None? ==> PlansFor(files, map[], partitions, plan)
      ensures files != [] && weights.None? ==> (plan.Some? <==> |files| >= partitions)
      ensures files != [] ==> projectOf == old(projectOf)
    {
      var assignments; ghost var order, place, parts;
      assignments, order, place, parts := AssignFiles(scanned, recorded, collate);
      var empty := FirstEmpty(assignments);
      SortedPartsKeepGuarantees(parts, assignments);
      ghost var chosen := if files != [] then files else scanned.files;
      ghost var durations := if files == [] then recorded else if weights.Some? then weights.value else map[];
      assert Distributes(chosen, durations, partitions, collate, order, place, parts, assignments);
      NoPartitionEmptyIff(chosen, durations, partitions, order, place, parts);
      UnrecordedCountEvenly(files, map[]);
      return if empty.Some? then None else Some(assignments);
    }
  }

  /** A negative duration can starve a partition although there are enough files. */
  lemma NegativeWeightsStarve()
    ensures var files, weights := ["a", "b"], map["a" := -1.0, "b" := -1.0];
      forall order, place, parts :: IsLpt(files, weights, 2, order, place, parts) ==> [] in parts
  {
    var files, weights := ["a", "b"], map["a" := -1.0, "b" := -1.0];
    assert files[..1] == ["a"] && files[..1][..0] == [];
    assert NonNegativeCount(files, weights) == 0;
    forall order, place, parts | IsLpt(files, weights, 2, order, place, parts) ensures [] in parts {
      NoPartitionEmptyIff(files, weights, 2, order, place, parts);
    }
  }
}
