/** scripts/check-macos-deployment-target.py: the newest deployment target that `otool` reports for an
    executable, and the gate that compares it with the version a wheel tag claims. */
module DeploymentTarget {
  import opened Options
  import opened TargetText

  // ---------- Version order ----------

  /** A version goes on with zeros for ever. */
  function Component(v: Version, i: nat): nat {
    if i < |v| then v[i] else 0
  }

  ghost predicate AgreeBelow(a: Version, b: Version, i: nat) {
    forall j: nat :: j < i ==> Component(a, j) == Component(b, j)
  }

  /** `a` is not newer than `b`: at the first component where they differ, if any, `a` is smaller. */
  ghost predicate NotNewer(a: Version, b: Version) {
    forall i: nat :: AgreeBelow(a, b, i) ==> Component(a, i) <= Component(b, i)
  }

  /** Tuple order: the first difference decides, and a proper prefix is smaller. */
  predicate TupleLess(a: Version, b: Version) {
    b != [] && (a == [] || a[0] < b[0] || (a[0] == b[0] && TupleLess(a[1..], b[1..])))
  }

  function Pad(v: Version, width: nat): (r: Version)
    requires |v| <= width
    ensures |r| == width
    decreases width - |v|
  {
    if |v| == width then v else Pad(v + [0], width)
  }

  lemma {:induction false} PaddingKeepsComponents(v: Version, width: nat, i: nat)
    requires |v| <= width
    ensures Component(Pad(v, width), i) == Component(v, i)
    decreases width - |v|
  {
    if |v| == width {
    } else {
      PaddingKeepsComponents(v + [0], width, i);
    }
  }

  lemma TailOrder(a: Version, b: Version)
    requires a != [] && b != []
    ensures NotNewer(a, b) <==> a[0] < b[0] || (a[0] == b[0] && NotNewer(a[1..], b[1..]))
  {
    var s, t := a[1..], b[1..];
    assert forall i: nat :: Component(s, i) == Component(a, i + 1) && Component(t, i) == Component(b, i + 1);
    assert AgreeBelow(a, b, 0);
    if a[0] == b[0] && NotNewer(a, b) {
      forall i: nat | AgreeBelow(s, t, i) ensures Component(s, i) <= Component(t, i) {
        forall j: nat | j < i + 1 ensures Component(a, j) == Component(b, j) {
          assert j > 0 ==> Component(s, j - 1) == Component(t, j - 1);
        }
        assert AgreeBelow(a, b, i + 1);
      }
    }
    if a[0] == b[0] && NotNewer(s, t) {
      forall i: nat | AgreeBelow(a, b, i) ensures Component(a, i) <= Component(b, i) {
        if i > 0 {
          assert AgreeBelow(s, t, i - 1);
          assert Component(s, i - 1) <= Component(t, i - 1);
        }
      }
    }
    if a[0] < b[0] {
      forall i: nat | AgreeBelow(a, b, i) ensures i == 0 {
        assert i > 0 ==> Component(a, 0) == Component(b, 0);
      }
    }
  }

  /** Tuple order refines version order, whatever the lengths. */
  lemma {:induction false} TupleOrderRefines(a: Version, b: Version)
    requires !TupleLess(b, a)
    ensures NotNewer(a, b)
  {
    if a == [] {
    } else {
      TailOrder(a, b);
      if a[0] == b[0] {
        TupleOrderRefines(a[1..], b[1..]);
      }
    }
  }

  lemma {:induction false} EqualWidthOrder(a: Version, b: Version)
    requires |a| == |b|
    ensures NotNewer(a, b) <==> !TupleLess(b, a)
  {
    if a == [] {
    } else {
      TailOrder(a, b);
      EqualWidthOrder(a[1..], b[1..]);
    }
  }

  lemma AgreeingVersions(a: Version, b: Version, p: Version, q: Version)
    requires forall i: nat :: Component(a, i) == Component(p, i) && Component(b, i) == Component(q, i)
    requires NotNewer(a, b)
    ensures NotNewer(p, q)
  {
    forall i: nat | AgreeBelow(p, q, i) ensures Component(p, i) <= Component(q, i) {
      assert AgreeBelow(a, b, i) by {
        forall j: nat | j < i ensures Component(a, j) == Component(b, j) {
          assert Component(p, j) == Component(q, j);
        }
      }
      assert Component(a, i) == Component(p, i);
    }
  }

  /** Padding both to any common width that holds them compares the versions; the width does not matter. */
  lemma PaddedOrderIsVersionOrder(a: Version, b: Version, width: nat)
    requires |a| <= width && |b| <= width
    ensures !TupleLess(Pad(b, width), Pad(a, width)) <==> NotNewer(a, b)
  {
    var p, q := Pad(a, width), Pad(b, width);
    EqualWidthOrder(p, q);
    forall i: nat ensures Component(a, i) == Component(p, i) && Component(b, i) == Component(q, i) {
      PaddingKeepsComponents(a, width, i);
      PaddingKeepsComponents(b, width, i);
    }
    if NotNewer(a, b) {
      AgreeingVersions(a, b, p, q);
    }
    if NotNewer(p, q) {
      AgreeingVersions(p, q, a, b);
    }
  }

  lemma {:induction false} AgreeThroughout(a: Version, b: Version, c: Version, i: nat)
    requires NotNewer(a, b) && NotNewer(b, c) && AgreeBelow(a, c, i)
    ensures AgreeBelow(a, b, i) && AgreeBelow(b, c, i)
  {
    if i > 0 {
      AgreeThroughout(a, b, c, i - 1);
      assert Component(a, i - 1) <= Component(b, i - 1) <= Component(c, i - 1);
    }
  }

  lemma NotNewerChains(a: Version, b: Version, c: Version)
    requires NotNewer(a, b) && NotNewer(b, c)
    ensures NotNewer(a, c)
  {
    forall i: nat | AgreeBelow(a, c, i) ensures Component(a, i) <= Component(c, i) {
      AgreeThroughout(a, b, c, i);
      assert Component(a, i) <= Component(b, i) && Component(b, i) <= Component(c, i);
    }
  }

  // ---------- Reading `otool -l` ----------

  function Classified(reading: Reading, texts: seq<string>): (lines: seq<Line>)
    ensures |lines| == |texts|
    ensures forall i :: 0 <= i < |texts| ==> lines[i] == reading.classify(texts[i])
  {
    if texts == [] then [] else Classified(reading, texts[..|texts| - 1]) + [reading.classify(texts[|texts| - 1])]
  }

  /** The deployment target a line declares under a command. */
  function Declared(command: Command, line: Line): Option<Version> {
    match line
    case Switch(_) => None
    case Settings(minos, version) =>
      match command case Other => None case BuildVersion => minos case MinimumVersion => version
  }

  function CommandAfter(lines: seq<Line>): Command {
    if lines == [] then Other else
      match lines[|lines| - 1]
      case Switch(to) => to
      case Settings(_, _) => CommandAfter(lines[..|lines| - 1])
  }

  /** The deployment targets of all slices, in the order of the output. */
  function Targets(lines: seq<Line>): seq<Version> {
    if lines == [] then [] else
      var before := lines[..|lines| - 1];
      match Declared(CommandAfter(before), lines[|lines| - 1])
      case Some(v) => Targets(before) + [v]
      case None => Targets(before)
  }

  /** Line `i` declares `v`, and line `k` is the nearest earlier one that switches command. */
  ghost predicate Declares(lines: seq<Line>, k: nat, i: nat, v: Version) {
    && k < i < |lines|
    && lines[k].Switch?
    && (forall j :: k < j <= i ==> lines[j].Settings?)
    && Declared(lines[k].to, lines[i]) == Some(v)
  }

  lemma {:induction false} NearestSwitch(lines: seq<Line>) returns (k: int)
    ensures -1 <= k < |lines|
    ensures forall j :: k < j < |lines| ==> lines[j].Settings?
    ensures if k < 0 then CommandAfter(lines) == Other else lines[k] == Switch(CommandAfter(lines))
  {
    if lines == [] {
      k := -1;
    } else if lines[|lines| - 1].Switch? {
      k := |lines| - 1;
    } else {
      k := NearestSwitch(lines[..|lines| - 1]);
    }
  }

  lemma {:induction false} TargetIsDeclared(lines: seq<Line>, v: Version) returns (k: nat, i: nat)
    requires v in Targets(lines)
    ensures Declares(lines, k, i, v)
  {
    var last := |lines| - 1;
    var before := lines[..last];
    if v in Targets(before) {
      k, i := TargetIsDeclared(before, v);
    } else {
      var near := NearestSwitch(before);
      k, i := near, last;
    }
  }

  lemma {:induction false} DeclaredIsTarget(lines: seq<Line>, k: nat, i: nat, v: Version)
    requires Declares(lines, k, i, v)
    ensures v in Targets(lines)
  {
    var last := |lines| - 1;
    var before := lines[..last];
    if i < last {
      DeclaredIsTarget(before, k, i, v);
    } else {
      var near := NearestSwitch(before);
      assert before[k] == lines[k];
    }
  }

  /** Exactly the versions declared under their own load command are targets. */
  lemma TargetsAreDeclared(lines: seq<Line>, v: Version)
    ensures v in Targets(lines) <==> exists k, i :: Declares(lines, k, i, v)
  {
    if v in Targets(lines) {
      var k, i := TargetIsDeclared(lines, v);
    }
    if k: nat, i: nat :| Declares(lines, k, i, v) {
      DeclaredIsTarget(lines, k, i, v);
    }
  }

  function TargetsOf(reading: Reading, output: seq<string>): seq<Version> {
    Targets(Classified(reading, output))
  }

  function Newest(versions: seq<Version>): Version
    requires versions != []
  {
    if |versions| == 1 then versions[0] else
      var best := Newest(versions[..|versions| - 1]);
      if TupleLess(best, versions[|versions| - 1]) then versions[|versions| - 1] else best
  }

  /** `parse_otool_deployment_target`; `None` is the ValueError for output without a target. */
  method ParseOtoolDeploymentTarget(reading: Reading, texts: seq<string>) returns (newest: Option<Version>)
    ensures newest == if TargetsOf(reading, texts) == [] then None else Some(Newest(TargetsOf(reading, texts)))
  {
    ghost var lines := Classified(reading, texts);
    var versions, command := [], Other;
    for i := 0 to |texts|
      invariant command == CommandAfter(lines[..i]) && versions == Targets(lines[..i])
    {
      assert lines[..i + 1][..i] == lines[..i];
      match reading.classify(texts[i]) {
        case Switch(to) => command := to;
        case Settings(minos, version) =>
          if command == BuildVersion && minos.Some? {
            versions := versions + [minos.value];
          } else if command == MinimumVersion && version.Some? {
            versions := versions + [version.value];
          }
      }
    }
    assert lines[..|lines|] == lines;
    if versions == [] {
      return None;
    }
    var best := versions[0];
    for i := 1 to |versions|
      invariant best == Newest(versions[..i])
    {
      assert versions[..i + 1][..i] == versions[..i];
      if TupleLess(best, versions[i]) {
        best := versions[i];
      }
    }
    assert versions[..|versions|] == versions;
    newest := Some(best);
  }

  /** A slice's target, and none of the others is newer. */
  lemma {:induction false} NewestIsNewest(versions: seq<Version>)
    requires versions != []
    ensures Newest(versions) in versions
    ensures forall v :: v in versions ==> NotNewer(v, Newest(versions))
  {
    var last := |versions| - 1;
    var before, next := versions[..last], versions[last];
    assert versions == before + [next];
    if last > 0 {
      NewestIsNewest(before);
      NewestOfMore(before, next, Newest(before), Newest(versions));
    }
  }

  lemma NewestOfMore(before: seq<Version>, next: Version, best: Version, newest: Version)
    requires forall v :: v in before ==> NotNewer(v, best)
    requires newest == if TupleLess(best, next) then next else best
    ensures forall v :: v in before + [next] ==> NotNewer(v, newest)
  {
    NewerOfTwo(best, next);
    forall v | v in before ensures NotNewer(v, newest) { NotNewerChains(v, best, newest); }
  }

  lemma NewerOfTwo(best: Version, next: Version)
    ensures var newer := if TupleLess(best, next) then next else best;
      NotNewer(best, newer) && NotNewer(next, newer)
  {
    if TupleLess(best, next) {
      SmallerIsNotGreater(best, next);
      TupleOrderRefines(best, next);
    } else {
      TupleOrderRefines(next, best);
    }
  }

  lemma {:induction false} SmallerIsNotGreater(a: Version, b: Version)
    requires TupleLess(a, b)
    ensures !TupleLess(b, a)
  {
    if a == [] || a[0] != b[0] {
    } else {
      SmallerIsNotGreater(a[1..], b[1..]);
    }
  }

  // ---------- The gate ----------

  datatype Outcome = Measured(versions: seq<Version>) | NoTarget | BadTag | TooNew

  function Width(a: Version, b: Version): nat {
    if |a| < |b| then |b| else |a|
  }

  /** `ensure_compatible`. */
  function Compatible(actual: Version, claimed: Version): (ok: bool)
    ensures ok <==> NotNewer(actual, claimed)
  {
    var width := Width(actual, claimed);
    PaddedOrderIsVersionOrder(actual, claimed, width);
    !TupleLess(Pad(claimed, width), Pad(actual, width))
  }

  /** The gate on one executable looks at every slice, though it compares only the tuple maximum. */
  lemma GateChecksEverySlice(versions: seq<Version>, claimed: Version)
    requires versions != []
    ensures Compatible(Newest(versions), claimed) <==> forall v :: v in versions ==> NotNewer(v, claimed)
  {
    NewestIsNewest(versions);
    if Compatible(Newest(versions), claimed) {
      forall v | v in versions ensures NotNewer(v, claimed) {
        NotNewerChains(v, Newest(versions), claimed);
      }
    }
  }

  ghost predicate Admissible(lines: seq<Line>, claimed: Version) {
    forall k, i, v :: Declares(lines, k, i, v) ==> NotNewer(v, claimed)
  }

  lemma AdmissibleIff(lines: seq<Line>, claimed: Version)
    requires Targets(lines) != []
    ensures Compatible(Newest(Targets(lines)), claimed) <==> Admissible(lines, claimed)
  {
    GateChecksEverySlice(Targets(lines), claimed);
    forall v ensures v in Targets(lines) <==> exists k, i :: Declares(lines, k, i, v) {
      TargetsAreDeclared(lines, v);
    }
  }

  /** The output declares a target, and none that is newer than the claim. */
  ghost predicate PassesGate(reading: Reading, output: seq<string>, claimed: Version) {
    TargetsOf(reading, output) != [] && Admissible(Classified(reading, output), claimed)
  }

  lemma GateReads(reading: Reading, output: seq<string>, newest: Version, claimed: Version)
    requires IsMeasured(reading, output, newest)
    ensures Compatible(newest, claimed) <==> PassesGate(reading, output, claimed)
  {
    AdmissibleIff(Classified(reading, output), claimed);
  }

  ghost predicate AllPass(reading: Reading, outputs: seq<seq<string>>, claim: Option<Version>) {
    claim.Some? && forall e :: 0 <= e < |outputs| ==> PassesGate(reading, outputs[e], claim.value)
  }

  ghost predicate AllDeclare(reading: Reading, outputs: seq<seq<string>>) {
    forall e :: 0 <= e < |outputs| ==> TargetsOf(reading, outputs[e]) != []
  }

  /** The first outputs declare targets, and these are the newest of each. */
  ghost predicate MeasuredUpTo(reading: Reading, outputs: seq<seq<string>>, measured: seq<Version>) {
    |measured| <= |outputs| && forall d :: 0 <= d < |measured| ==> IsMeasured(reading, outputs[d], measured[d])
  }

  ghost predicate IsMeasured(reading: Reading, output: seq<string>, newest: Version) {
    TargetsOf(reading, output) != [] && newest == Newest(TargetsOf(reading, output))
  }

  /** `validate_deployment_targets` on the `otool` output of each executable: measure all, then compare
      all.  The tag is read only when there is something to compare. */
  method ValidateDeploymentTargets(reading: Reading, outputs: seq<seq<string>>, tag: string) returns (outcome: Outcome)
    ensures outcome.NoTarget? <==> !AllDeclare(reading, outputs)
    ensures outcome.BadTag? <==> AllDeclare(reading, outputs) && outputs != [] && reading.claim(tag) == None
    ensures outcome.Measured? <==> outputs == [] || AllPass(reading, outputs, reading.claim(tag))
    ensures outcome.Measured? ==> |outcome.versions| == |outputs|
    ensures outcome.Measured? ==> forall e :: 0 <= e < |outputs| ==>
      outcome.versions[e] == Newest(TargetsOf(reading, outputs[e]))
  {
    var measured: seq<Version> := [];
    for e := 0 to |outputs|
      invariant |measured| == e && MeasuredUpTo(reading, outputs, measured)
    {
      var target := ParseOtoolDeploymentTarget(reading, outputs[e]);
      if target.None? {
        return NoTarget;
      }
      measured := measured + [target.value];
    }
    var claimed := reading.claim(tag);
    for e := 0 to |measured|
      invariant e > 0 ==> claimed.Some?
      invariant forall d :: 0 <= d < e ==> PassesGate(reading, outputs[d], claimed.value)
    {
      if claimed.None? {
        return BadTag;
      }
      GateReads(reading, outputs[e], measured[e], claimed.value);
      if !Compatible(measured[e], claimed.value) {
        return TooNew;
      }
    }
    outcome := Measured(measured);
  }

  /** The gate on real output: an accepted set of executables has a readable tag, and every version that
      any of them declares under its own load command is at most the claimed one. */
  method ValidateRuntimes(outputs: seq<seq<string>>, tag: string) returns (outcome: Outcome)
    requires outputs != []
    ensures outcome.Measured? <==> AllPass(OTOOL, outputs, ClaimedVersion(tag))
  {
    outcome := ValidateDeploymentTargets(OTOOL, outputs, tag);
  }
}
