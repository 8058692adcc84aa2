/** `mapConcurrent` of scripts/benchmark-next-package-dependency.ts: workers that share one cursor,
    as a transition system over every interleaving of their steps. */
module WorkerPool {
  import opened Options

  /** At the head of its loop, waiting for the operation on an index, or returned. */
  datatype Worker = Ready | Busy(index: nat) | Done

  datatype Pool<R> = Pool(next: nat, workers: seq<Worker>, results: seq<Option<R>>)

  /** What one worker can do between two points where it can be interrupted. */
  datatype Step = Claim(worker: nat) | Finish(worker: nat) | Retire(worker: nat)

  function Min(a: nat, b: nat): (r: nat)
    ensures r <= a && r <= b && (r == a || r == b)
  {
    if a < b then a else b
  }

  function Start<R>(n: nat, jobs: nat): Pool<R> {
    Pool(0, seq(Min(jobs, n), _ => Ready), seq(n, _ => None))
  }

  predicate Enabled<R>(n: nat, s: Pool<R>, step: Step) {
    && step.worker < |s.workers|
    && match step
       case Claim(w) => s.workers[w].Ready? && s.next < n
       case Finish(w) => s.workers[w].Busy? && s.workers[w].index < |s.results|
       case Retire(w) => s.workers[w].Ready? && s.next >= n
  }

  /** The claim reads the cursor and advances it without an interruption; the result is written at
      the claimed index. */
  function Next<T, R>(values: seq<T>, operation: T -> R, s: Pool<R>, step: Step): Pool<R>
    requires |s.results| == |values| && Enabled(|values|, s, step)
  {
    match step
    case Claim(w) => s.(next := s.next + 1, workers := s.workers[w := Busy(s.next)])
    case Finish(w) =>
      var i := s.workers[w].index;
      s.(results := s.results[i := Some(operation(values[i]))], workers := s.workers[w := Ready])
    case Retire(w) => s.(workers := s.workers[w := Done])
  }

  /** A schedule is any list of enabled steps. */
  ghost predicate Runs<T, R>(values: seq<T>, operation: T -> R, s: Pool<R>, steps: seq<Step>, end: Pool<R>)
    decreases steps
  {
    if steps == [] then end == s
    else
      && |s.results| == |values| && Enabled(|values|, s, steps[0])
      && Runs(values, operation, Next(values, operation, s, steps[0]), steps[1..], end)
  }

  ghost predicate Finished<R>(s: Pool<R>) {
    forall w :: 0 <= w < |s.workers| ==> s.workers[w].Done?
  }

  // ---------- The invariant ----------

  /** Indices below the cursor are in flight at exactly one worker or have their result; indices
      from the cursor on are untouched; a worker returns only when the cursor is at the end. */
  ghost predicate Invariant<T, R>(values: seq<T>, operation: T -> R, jobs: nat, s: Pool<R>) {
    && |s.workers| == Min(jobs, |values|) && |s.results| == |values| && s.next <= |values|
    && (forall w :: 0 <= w < |s.workers| && s.workers[w].Busy? ==> s.workers[w].index < s.next)
    && (forall v, w :: 0 <= v < w < |s.workers| && s.workers[v].Busy? && s.workers[w].Busy? ==>
          s.workers[v].index != s.workers[w].index)
    && (forall w :: 0 <= w < |s.workers| && s.workers[w].Busy? ==> s.results[s.workers[w].index].None?)
    && (forall w :: 0 <= w < |s.workers| && s.workers[w].Done? ==> s.next == |values|)
    && (forall i :: 0 <= i < |values| && s.results[i].Some? ==>
      i < s.next && s.results[i].value == operation(values[i]))
    && (forall i :: 0 <= i < s.next && s.results[i].None? ==> InFlight(s, i))
  }

  ghost predicate InFlight<R>(s: Pool<R>, i: nat) {
    exists w :: 0 <= w < |s.workers| && s.workers[w] == Busy(i)
  }

  lemma StepKeepsInvariant<T, R>(values: seq<T>, operation: T -> R, jobs: nat, s: Pool<R>, step: Step)
    requires Invariant(values, operation, jobs, s) && Enabled(|values|, s, step)
    ensures Invariant(values, operation, jobs, Next(values, operation, s, step))
  {
    var s' := Next(values, operation, s, step);
    forall i | 0 <= i < s'.next && s'.results[i].None? ensures InFlight(s', i) {
      if step.Claim? && i == s.next {
        assert s'.workers[step.worker] == Busy(i);
      } else {
        assert InFlight(s, i);
        var w :| 0 <= w < |s.workers| && s.workers[w] == Busy(i);
        assert s'.workers[w] == Busy(i);
      }
    }
  }

  lemma {:induction false} RunKeepsInvariant<T, R>(values: seq<T>, operation: T -> R, jobs: nat, s: Pool<R>,
                                                   steps: seq<Step>, end: Pool<R>)
    requires Invariant(values, operation, jobs, s) && Runs(values, operation, s, steps, end)
    ensures Invariant(values, operation, jobs, end)
    decreases steps
  {
    if steps != [] {
      StepKeepsInvariant(values, operation, jobs, s, steps[0]);
      RunKeepsInvariant(values, operation, jobs, Next(values, operation, s, steps[0]), steps[1..], end);
    }
  }

  // ---------- Every index is claimed once ----------

  /** The indices claimed along a schedule, in order. */
  ghost function Claimed<T, R>(values: seq<T>, operation: T -> R, s: Pool<R>, steps: seq<Step>, end: Pool<R>): seq<nat>
    requires Runs(values, operation, s, steps, end)
    decreases steps
  {
    if steps == [] then [] else
      (if steps[0].Claim? then [s.next] else []) +
      Claimed(values, operation, Next(values, operation, s, steps[0]), steps[1..], end)
  }

  /** Whatever the interleaving, the claims are consecutive: no index twice, none skipped. */
  lemma {:induction false} ClaimsAreConsecutive<T, R>(values: seq<T>, operation: T -> R, s: Pool<R>, steps: seq<Step>,
                                                      end: Pool<R>)
    requires Runs(values, operation, s, steps, end)
    ensures s.next <= end.next
    ensures Claimed(values, operation, s, steps, end) == seq(end.next - s.next, k requires 0 <= k => s.next + k)
    decreases steps
  {
    if steps != [] {
      ClaimsAreConsecutive(values, operation, Next(values, operation, s, steps[0]), steps[1..], end);
    }
  }

  // ---------- Progress ----------

  function BusyCount(workers: seq<Worker>): nat {
    if workers == [] then 0 else BusyCount(workers[1..]) + if workers[0].Busy? then 1 else 0
  }

  function LiveCount(workers: seq<Worker>): nat {
    if workers == [] then 0 else LiveCount(workers[1..]) + if workers[0].Done? then 0 else 1
  }

  /** How many steps are left: two for an unclaimed index, one for an index in flight, one for the
      return of a worker. */
  function Remaining<R>(n: int, s: Pool<R>): int {
    2 * (n - s.next) + BusyCount(s.workers) + LiveCount(s.workers)
  }

  lemma {:induction false} CountsAfter(workers: seq<Worker>, w: nat, state: Worker)
    requires w < |workers|
    ensures BusyCount(workers[w := state]) ==
      BusyCount(workers) - (if workers[w].Busy? then 1 else 0) + if state.Busy? then 1 else 0
    ensures LiveCount(workers[w := state]) ==
      LiveCount(workers) - (if workers[w].Done? then 0 else 1) + if state.Done? then 0 else 1
  {
    if w == 0 {
      assert workers[w := state][1..] == workers[1..];
    } else {
      CountsAfter(workers[1..], w - 1, state);
      assert workers[w := state][1..] == workers[1..][w - 1 := state];
    }
  }

  lemma {:induction false} CountBounds(workers: seq<Worker>)
    ensures BusyCount(workers) <= LiveCount(workers) <= |workers|
    ensures (forall w :: 0 <= w < |workers| ==> workers[w].Ready?) ==>
      BusyCount(workers) == 0 && LiveCount(workers) == |workers|
    ensures LiveCount(workers) == 0 <==> forall w :: 0 <= w < |workers| ==> workers[w].Done?
  {
    if workers != [] {
      CountBounds(workers[1..]);
      assert forall w :: 1 <= w < |workers| ==> workers[w] == workers[1..][w - 1];
    }
  }

  /** Every step of every schedule uses up exactly one of the steps left, so no schedule is endless
      and all complete schedules have the same length. */
  lemma {:induction false} StepsAreUsedUp<T, R>(values: seq<T>, operation: T -> R, s: Pool<R>, steps: seq<Step>,
                                                end: Pool<R>)
    requires Runs(values, operation, s, steps, end)
    ensures Remaining(|values|, end) == Remaining(|values|, s) - |steps|
    decreases steps
  {
    if steps != [] {
      var s' := Next(values, operation, s, steps[0]);
      CountsAfter(s.workers, steps[0].worker, s'.workers[steps[0].worker]);
      StepsAreUsedUp(values, operation, s', steps[1..], end);
    }
  }

  /** A pool whose workers have not all returned can take a step. */
  lemma NeverStuck<T, R>(values: seq<T>, operation: T -> R, jobs: nat, s: Pool<R>) returns (step: Step)
    requires Invariant(values, operation, jobs, s) && !Finished(s)
    ensures Enabled(|values|, s, step)
  {
    var w :| 0 <= w < |s.workers| && !s.workers[w].Done?;
    step := if s.workers[w].Busy? then Finish(w) else if s.next < |values| then Claim(w) else Retire(w);
  }

  // ---------- What a caller relies on ----------

  lemma ClaimsFromStart<T, R>(values: seq<T>, operation: T -> R, jobs: nat, steps: seq<Step>, s: Pool<R>)
    requires Runs(values, operation, Start<R>(|values|, jobs), steps, s)
    ensures Claimed(values, operation, Start<R>(|values|, jobs), steps, s) == seq(s.next, k => k)
  {
    ClaimsAreConsecutive(values, operation, Start<R>(|values|, jobs), steps, s);
    assert seq(s.next - 0, k requires 0 <= k => 0 + k) == seq(s.next, k => k);
  }

  /** At every moment of every interleaving: at most min(jobs, n) operations are in flight, indices
      were claimed once each from the front, no worker has returned while an index is unclaimed, and
      every result written so far is the operation's result for its own value. */
  lemma EveryMoment<T, R>(values: seq<T>, operation: T -> R, jobs: nat, steps: seq<Step>, s: Pool<R>)
    requires Runs(values, operation, Start<R>(|values|, jobs), steps, s)
    ensures BusyCount(s.workers) <= Min(jobs, |values|)
    ensures Claimed(values, operation, Start<R>(|values|, jobs), steps, s) == seq(s.next, k => k)
    ensures forall w :: 0 <= w < |s.workers| && s.workers[w].Done? ==> s.next == |values|
    ensures forall v, w :: 0 <= v < w < |s.workers| && s.workers[v].Busy? ==> s.workers[v] != s.workers[w]
    ensures |s.results| == |values|
    ensures forall i :: 0 <= i < |values| && s.results[i].Some? ==> s.results[i].value == operation(values[i])
  {
    var s0 := Start<R>(|values|, jobs);
    RunKeepsInvariant(values, operation, jobs, s0, steps, s);
    ClaimsFromStart(values, operation, jobs, steps, s);
    CountBounds(s.workers);
  }

  lemma NothingRemainsIffFinished<T, R>(values: seq<T>, operation: T -> R, jobs: nat, s: Pool<R>)
    requires Invariant(values, operation, jobs, s)
    ensures Remaining(|values|, s) >= 0
    ensures jobs > 0 || values == [] ==> (Remaining(|values|, s) == 0 <==> Finished(s))
  {
    CountBounds(s.workers);
    if Finished(s) && s.workers != [] { assert s.workers[0].Done?; }
  }

  lemma StartRemaining<R>(n: nat, jobs: nat)
    ensures Remaining(n, Start<R>(n, jobs)) == 2 * n + Min(jobs, n)
  {
    CountBounds(Start<R>(n, jobs).workers);
  }

  /** Every schedule ends: no schedule is longer than 2n + min(jobs, n) steps, exactly the complete
      ones are that long, and one that is not complete can be continued. */
  lemma SchedulesEnd<T, R>(values: seq<T>, operation: T -> R, jobs: nat, steps: seq<Step>, s: Pool<R>)
    requires Runs(values, operation, Start<R>(|values|, jobs), steps, s)
    ensures |steps| <= 2 * |values| + Min(jobs, |values|)
    ensures jobs > 0 || values == [] ==> (Finished(s) <==> |steps| == 2 * |values| + Min(jobs, |values|))
    ensures !Finished(s) ==> exists step :: Enabled(|values|, s, step)
  {
    RunKeepsInvariant(values, operation, jobs, Start<R>(|values|, jobs), steps, s);
    StartRemaining<R>(|values|, jobs);
    StepsAreUsedUp(values, operation, Start<R>(|values|, jobs), steps, s);
    NothingRemainsIffFinished(values, operation, jobs, s);
    if !Finished(s) { var step := NeverStuck(values, operation, jobs, s); }
  }

  ghost predicate Complete<T, R>(values: seq<T>, operation: T -> R, results: seq<Option<R>>) {
    |results| == |values| && forall i :: 0 <= i < |values| ==> results[i] == Some(operation(values[i]))
  }

  /** When all workers have returned, every value has its result, in order; this needs at least one
      worker, which only an empty list or a positive number of jobs provides. */
  lemma FinishedIsComplete<T, R>(values: seq<T>, operation: T -> R, jobs: nat, steps: seq<Step>, s: Pool<R>)
    requires Runs(values, operation, Start<R>(|values|, jobs), steps, s) && Finished(s)
    ensures Complete(values, operation, s.results) <==> jobs > 0 || values == []
  {
    RunKeepsInvariant(values, operation, jobs, Start<R>(|values|, jobs), steps, s);
    if values != [] {
      if jobs > 0 {
        assert s.workers[0].Done?;
        forall i | 0 <= i < |values| ensures s.results[i].Some? { assert !InFlight(s, i); }
      } else {
        assert steps == [];
        assert s.results[0].None?;
      }
    }
  }
}
