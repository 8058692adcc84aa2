/** scripts/coverage-partitions.ts: test files go to partitions by longest processing time,
    with an in-place binary heap of bucket indices that finds the lightest partition. */
module CoveragePartitions {
  import opened Collections
  import opened ListScheduling
  import opened Options
  import opened Sorting

  /** Recorded durations by file.  Nothing in the reader of the recorded durations rejects a negative number. */
  type Weights = map<string, real>

  const UNKNOWN_FILE_WEIGHT := 1.0

  function WeightOf(file: string, weights: Weights): real {
    if file in weights then weights[file] else UNKNOWN_FILE_WEIGHT
  }

  function WeightsOf(files: seq<string>, weights: Weights): (w: seq<real>)
    ensures |w| == |files|
  {
    seq(|files|, i requires 0 <= i < |files| => WeightOf(files[i], weights))
  }

  function PartitionWeight(files: seq<string>, weights: Weights): real {
    if files == [] then 0.0
    else PartitionWeight(files[..|files| - 1], weights) + WeightOf(files[|files| - 1], weights)
  }

  /** Heavier first, then the collation order of the file names. */
  function Precedes(weights: Weights, collate: (string, string) -> bool): (string, string) -> bool {
    (x, y) =>
      if WeightOf(x, weights) != WeightOf(y, weights) then WeightOf(x, weights) > WeightOf(y, weights)
      else collate(x, y)
  }

  // ---------- The heap ----------

  class Bucket {
    var sum: real
    var files: seq<string>

    constructor ()
      ensures sum == 0.0 && files == []
    {
      sum, files := 0.0, [];
    }

    function Key(): ListScheduling.Key
      reads this
    {
      ListScheduling.Key(sum, |files|)
    }
  }

  ghost function Keys(buckets: seq<Bucket>): (keys: seq<Key>)
    reads buckets
    ensures |keys| == |buckets|
    ensures forall b :: 0 <= b < |buckets| ==> keys[b] == buckets[b].Key()
  {
    seq(|buckets|, b requires 0 <= b < |buckets| reads buckets => buckets[b].Key())
  }

  /** The heap lists every bucket index once. */
  ghost predicate IndexHeap(h: seq<nat>, m: nat) {
    |h| == m && NoRepeats(h) && forall i :: 0 <= i < m ==> h[i] < m
  }

  function Parent(i: nat): nat
    requires i > 0
  {
    (i - 1) / 2
  }

  ghost predicate InOrder(keys: seq<Key>, h: seq<nat>, p: nat, i: nat)
    requires IndexHeap(h, |keys|) && p < |h| && i < |h|
  {
    !KeyLess(keys[h[i]], keys[h[p]])
  }

  ghost predicate MinHeap(keys: seq<Key>, h: seq<nat>)
    requires IndexHeap(h, |keys|)
  {
    forall i :: 0 < i < |h| ==> InOrder(keys, h, Parent(i), i)
  }

  /** A min-heap but for the position `hole`, which may be heavier than its children; those are
      still no lighter than the parent of the hole. */
  ghost predicate HeapBut(keys: seq<Key>, h: seq<nat>, hole: nat)
    requires IndexHeap(h, |keys|)
  {
    && (forall i :: 0 < i < |h| && Parent(i) != hole ==> InOrder(keys, h, Parent(i), i))
    && (forall i :: 0 < i < |h| && 0 < Parent(i) == hole < |h| ==> InOrder(keys, h, Parent(hole), i))
  }

  lemma {:induction false} RootIsLeast(keys: seq<Key>, h: seq<nat>, i: nat)
    requires IndexHeap(h, |keys|) && MinHeap(keys, h) && i < |h|
    ensures InOrder(keys, h, 0, i)
  {
    if i > 0 {
      RootIsLeast(keys, h, Parent(i));
      assert InOrder(keys, h, Parent(i), i);
    }
  }

  function Below(m: nat): (r: set<nat>)
    ensures |r| == m && forall k: nat :: k in r <==> k < m
  {
    if m == 0 then {} else Below(m - 1) + {m - 1}
  }

  lemma {:induction false} DistinctCount(h: seq<nat>, members: set<nat>)
    requires NoRepeats(h) && members == set x | x in h
    ensures |members| == |h|
  {
    if h != [] {
      var n := |h| - 1;
      assert h == h[..n] + [h[n]];
      DistinctCount(h[..n], members - {h[n]});
    }
  }

  /** `m` distinct indices below `m` leave none out. */
  lemma HeapHasAll(h: seq<nat>, m: nat, b: nat)
    requires IndexHeap(h, m) && b < m
    ensures b in h
  {
    var members := set x | x in h;
    DistinctCount(h, members);
    assert members <= Below(m);
    SubsetOfSameSize(members, Below(m));
    assert b in Below(m);
  }

  lemma SubsetOfSameSize(a: set<nat>, b: set<nat>)
    requires a <= b && |a| == |b|
    ensures a == b
  {
    assert |b - a| == |b| - |a|;
  }

  lemma SwapKeepsIndices(h: seq<nat>, m: nat, i: nat, j: nat)
    requires IndexHeap(h, m) && i < |h| && j < |h|
    ensures IndexHeap(h[i := h[j]][j := h[i]], m)
  {
  }

  /** Exchanging the hole with its lesser child moves the hole down one level. */
  lemma SiftStep(keys: seq<Key>, h: seq<nat>, hole: nat, child: nat, h': seq<nat>)
    requires IndexHeap(h, |keys|) && HeapBut(keys, h, hole)
    requires hole < child < |h| && Parent(child) == hole
    requires KeyLess(keys[h[child]], keys[h[hole]])
    requires forall i :: 0 < i < |h| && Parent(i) == hole ==> InOrder(keys, h, child, i)
    requires h' == h[hole := h[child]][child := h[hole]]
    ensures IndexHeap(h', |keys|) && HeapBut(keys, h', child)
  {
    SwapKeepsIndices(h, |keys|, hole, child);
    forall i | 0 < i < |h'| && Parent(i) != child ensures InOrder(keys, h', Parent(i), i) {
      OrderAwayFromChild(keys, h, hole, child, h', i);
    }
    forall i | 0 < i < |h'| && 0 < Parent(i) == child ensures InOrder(keys, h', hole, i) {
      assert InOrder(keys, h, Parent(i), i);
    }
  }

  lemma OrderAwayFromChild(keys: seq<Key>, h: seq<nat>, hole: nat, child: nat, h': seq<nat>, i: nat)
    requires IndexHeap(h, |keys|) && HeapBut(keys, h, hole)
    requires hole < child < |h| && Parent(child) == hole
    requires KeyLess(keys[h[child]], keys[h[hole]])
    requires forall i :: 0 < i < |h| && Parent(i) == hole ==> InOrder(keys, h, child, i)
    requires h' == h[hole := h[child]][child := h[hole]] && IndexHeap(h', |keys|)
    requires 0 < i < |h'| && Parent(i) != child
    ensures InOrder(keys, h', Parent(i), i)
  {
    if Parent(i) == hole {
      assert InOrder(keys, h, child, i);
    } else {
      assert InOrder(keys, h, Parent(i), i);
      if i == hole { assert InOrder(keys, h, Parent(hole), child); }
    }
  }

  /** Neither child is lighter than the lesser of the three. */
  lemma LesserChild(keys: seq<Key>, h: seq<nat>, index: nat, smallest: nat)
    requires IndexHeap(h, |keys|) && index < |h| && smallest < |h|
    requires 2 * index + 1 < |h| ==> InOrder(keys, h, smallest, 2 * index + 1)
    requires 2 * index + 2 < |h| ==> InOrder(keys, h, smallest, 2 * index + 2)
    ensures forall i :: 0 < i < |h| && Parent(i) == index ==> InOrder(keys, h, smallest, i)
  {
    forall i | 0 < i < |h| && Parent(i) == index ensures InOrder(keys, h, smallest, i) {
      assert i == 2 * index + 1 || i == 2 * index + 2;
    }
  }

  /** Restore the heap after the bucket at `start` grew: an in-place walk toward the leaves. */
  method SiftDown(buckets: seq<Bucket>, heap: array<nat>, start: nat)
    requires IndexHeap(heap[..], |buckets|) && start < heap.Length
    requires HeapBut(Keys(buckets), heap[..], start)
    modifies heap
    ensures IndexHeap(heap[..], |buckets|) && MinHeap(Keys(buckets), heap[..])
  {
    ghost var keys := Keys(buckets);
    var index := start;
    while true
      invariant index < heap.Length
      invariant IndexHeap(heap[..], |buckets|) && keys == Keys(buckets)
      invariant HeapBut(keys, heap[..], index)
      decreases heap.Length - index
    {
      ghost var h := heap[..];
      var left, right := 2 * index + 1, 2 * index + 2;
      var smallest := index;
      if left < heap.Length && KeyLess(buckets[heap[left]].Key(), buckets[heap[smallest]].Key()) {
        smallest := left;
      }
      if right < heap.Length && KeyLess(buckets[heap[right]].Key(), buckets[heap[smallest]].Key()) {
        smallest := right;
      }
      LesserChild(keys, h, index, smallest);
      if smallest == index { return; }
      assert KeyLess(keys[h[smallest]], keys[h[index]]);
      heap[index], heap[smallest] := heap[smallest], heap[index];
      assert heap[..] == h[index := h[smallest]][smallest := h[index]];
      SiftStep(keys, h, index, smallest, heap[..]);
      index := smallest;
    }
  }

  // ---------- The assignment ----------

  /** The files placed into bucket `b`, in placement order. */
  function FilesIn(order: seq<string>, place: seq<nat>, b: nat, n: nat): seq<string>
    requires n <= |order| && n <= |place|
  {
    if n == 0 then []
    else if place[n - 1] == b then FilesIn(order, place, b, n - 1) + [order[n - 1]]
    else FilesIn(order, place, b, n - 1)
  }

  /** `parts` is a longest-processing-time assignment of `files`: placing the files of `order`,
      heaviest first, each into a partition a linear scan could have chosen. */
  ghost predicate IsLpt(files: seq<string>, weights: Weights, m: nat, order: seq<string>, place: seq<nat>,
                        parts: seq<seq<string>>) {
    && multiset(order) == multiset(files)
    && HeaviestFirst(WeightsOf(order, weights))
    && |place| == |order| && |parts| == m
    && Greedy(WeightsOf(order, weights), place, m)
    && forall b :: 0 <= b < m ==> parts[b] == FilesIn(order, place, b, |order|)
  }

  /** Files of one weight are placed in collation order. */
  ghost predicate TiesCollate(order: seq<string>, weights: Weights, collate: (string, string) -> bool) {
    forall i, j :: 0 <= i < j < |order| && WeightOf(order[i], weights) == WeightOf(order[j], weights) ==>
      collate(order[i], order[j])
  }

  lemma PrecedesIsTotal(weights: Weights, collate: (string, string) -> bool)
    requires TotalPreorder(collate)
    ensures TotalPreorder(Precedes(weights, collate))
  {
  }

  lemma SortedHeaviestFirst(files: seq<string>, weights: Weights, collate: (string, string) -> bool, order: seq<string>)
    requires TotalPreorder(collate) && order == Sort(files, Precedes(weights, collate))
    ensures multiset(order) == multiset(files) && |order| == |files|
    ensures HeaviestFirst(WeightsOf(order, weights)) && TiesCollate(order, weights, collate)
  {
    PrecedesIsTotal(weights, collate);
    SortPermutes(files, Precedes(weights, collate));
    SortOrders(files, Precedes(weights, collate));
  }

  lemma {:induction false} FilesInPrefix(order: seq<string>, place: seq<nat>, place': seq<nat>, b: nat, n: nat)
    requires n <= |order| && n <= |place| && place <= place'
    ensures FilesIn(order, place', b, n) == FilesIn(order, place, b, n)
  {
    if n > 0 { FilesInPrefix(order, place, place', b, n - 1); }
  }

  /** What the buckets hold after the files placed so far. */
  ghost predicate Holds(buckets: seq<Bucket>, order: seq<string>, w: seq<real>, place: seq<nat>)
    requires |place| <= |order| == |w|
    reads buckets
  {
    forall b :: 0 <= b < |buckets| ==>
      && buckets[b].files == FilesIn(order, place, b, |place|)
      && buckets[b].Key() == KeyAt(w, place, b, |place|)
  }

  /** The scheduler between two placements. */
  ghost predicate Scheduling(buckets: seq<Bucket>, h: seq<nat>, order: seq<string>, w: seq<real>, place: seq<nat>)
    requires |place| <= |order| == |w|
    reads buckets
  {
    && NoRepeats(buckets) && Holds(buckets, order, w, place) && Greedy(w, place, |buckets|)
    && IndexHeap(h, |buckets|) && MinHeap(Keys(buckets), h)
  }

  /** Empty buckets, and a heap that lists their indices in order. */
  method StartScheduling(m: nat, ghost order: seq<string>, ghost w: seq<real>)
    returns (buckets: seq<Bucket>, heap: array<nat>)
    requires |order| == |w|
    ensures |buckets| == heap.Length == m && Scheduling(buckets, heap[..], order, w, [])
    ensures fresh(heap) && fresh(buckets)
  {
    buckets := [];
    for i := 0 to m
      invariant |buckets| == i && NoRepeats(buckets) && fresh(buckets)
      invariant forall b :: 0 <= b < i ==> buckets[b].sum == 0.0 && buckets[b].files == []
    {
      var bucket := new Bucket();
      buckets := buckets + [bucket];
    }
    heap := new nat[m](i => i);
    assert IndexHeap(heap[..], m) && MinHeap(Keys(buckets), heap[..]);
  }

  /** Put one file into the bucket at the root of the heap and repair the heap. */
  method PlaceFile(buckets: seq<Bucket>, heap: array<nat>, ghost order: seq<string>, ghost w: seq<real>,
                   ghost place: seq<nat>, file: string, weight: real)
    requires |place| < |order| == |w| && order[|place|] == file && w[|place|] == weight
    requires heap.Length > 0 && Scheduling(buckets, heap[..], order, w, place)
    modifies heap, buckets
    ensures Scheduling(buckets, heap[..], order, w, place + [old(heap[0])])
  {
    ghost var keys, h := Keys(buckets), heap[..];
    var top := heap[0];
    forall b | 0 <= b < |buckets| ensures !KeyLess(KeyAt(w, place, b, |place|), KeyAt(w, place, top, |place|)) {
      HeapHasAll(h, |buckets|, b);
      var i :| 0 <= i < |h| && h[i] == b;
      RootIsLeast(keys, h, i);
    }
    assert Lightest(w, place, |buckets|, |place|, top);
    GreedyStep(w, place, |buckets|, top);
    ghost var place' := place + [top];
    forall b | 0 <= b < |buckets|
      ensures FilesIn(order, place', b, |place|) == FilesIn(order, place, b, |place|)
    {
      FilesInPrefix(order, place, place', b, |place|);
    }
    var bucket := buckets[top];
    bucket.sum := bucket.sum + weight;
    bucket.files := bucket.files + [file];
    assert Holds(buckets, order, w, place');
    assert Keys(buckets) == keys[top := bucket.Key()];
    SiftDown(buckets, heap, 0);
  }

  method PlaceAll(weighted: seq<string>, weights: Weights, partitions: nat)
    returns (buckets: seq<Bucket>, ghost place: seq<nat>)
    requires partitions > 0
    ensures |buckets| == partitions && |place| == |weighted|
    ensures Greedy(WeightsOf(weighted, weights), place, partitions)
    ensures Holds(buckets, weighted, WeightsOf(weighted, weights), place)
  {
    ghost var w := WeightsOf(weighted, weights);
    place := [];
    var heap;
    buckets, heap := StartScheduling(partitions, weighted, w);
    for i := 0 to |weighted|
      invariant |place| == i && |buckets| == partitions && heap.Length == partitions
      invariant fresh(heap) && fresh(buckets)
      invariant Scheduling(buckets, heap[..], weighted, w, place)
    {
      ghost var top := heap[0];
      PlaceFile(buckets, heap, weighted, w, place, weighted[i], WeightOf(weighted[i], weights));
      place := place + [top];
    }
  }

  method FileLists(buckets: seq<Bucket>) returns (parts: seq<seq<string>>)
    ensures |parts| == |buckets| && forall b :: 0 <= b < |parts| ==> parts[b] == buckets[b].files
  {
    parts := [];
    for b := 0 to |buckets|
      invariant |parts| == b && forall c :: 0 <= c < b ==> parts[c] == buckets[c].files
    {
      parts := parts + [buckets[b].files];
    }
  }

  /** Fails, as the code throws, exactly when there are files and no partition to put them in. */
  method AssignWeightedPartitions(files: seq<string>, weights: Weights, partitions: nat,
                                  collate: (string, string) -> bool)
    returns (result: Option<seq<seq<string>>>, ghost order: seq<string>, ghost place: seq<nat>)
    requires TotalPreorder(collate)
    ensures result.None? <==> files != [] && partitions == 0
    ensures result.Some? ==> IsLpt(files, weights, partitions, order, place, result.value)
    ensures result.Some? ==> TiesCollate(order, weights, collate)
  {
    order, place := [], [];
    if files == [] {
      return Some(seq(partitions, _ => [])), order, place;
    }
    var weighted := Sort(files, Precedes(weights, collate));
    SortedHeaviestFirst(files, weights, collate, weighted);
    order := weighted;
    if partitions == 0 { return None, order, place; }
    var buckets;
    buckets, place := PlaceAll(weighted, weights, partitions);
    var parts := FileLists(buckets);
    result := Some(parts);
  }
}
