/** Exactly when the answers of scripts/gen-config-catalog.ts about one name on an interface are right about the
    program, heritage clauses included. */
module HeritageCases {
  import opened LookupCuts
  import opened LookupGuarantees
  import opened LookupTermination
  import opened MemberLookup
  import opened ModuleExports
  import opened Options
  import opened PathPresence
  import opened ProgramMeaning
  import opened ReadingCases
  import opened TypeGraph

  // ---------- Heritage ----------

  /** Some heritage clause of the interface names `e`. */
  ghost predicate Extends(w: World, d: DeclId, e: DeclId)
    requires Closed(w)
  {
    Declares(w, d) && DeclOf(w, d).Interface? &&
    exists i :: 0 <= i < |DeclOf(w, d).bases| && BaseDenotes(w, d.file, DeclOf(w, d).bases[i], e)
  }

  /** The walk takes the bases that the clauses name. */
  lemma ExtendsIff(w: World, d: DeclId, e: DeclId)
    requires Closed(w) && Declares(w, d) && DeclOf(w, d).Interface?
    ensures Extends(w, d, e) <==>
      exists i :: 0 <= i < |DeclOf(w, d).bases| && BaseOf(w, d.file, DeclOf(w, d).bases[i]) == Some(e)
  {
    forall i | 0 <= i < |DeclOf(w, d).bases|
      ensures BaseOf(w, d.file, DeclOf(w, d).bases[i]) == Some(e) <==> BaseDenotes(w, d.file, DeclOf(w, d).bases[i], e)
    {
      BaseIff(w, d.file, DeclOf(w, d).bases[i], e);
    }
  }

  lemma BaseIsNamed(w: World, f: FileId, base: Base)
    requires Closed(w) && f in w
    ensures BaseOf(w, f, base).Some? <==> exists d :: BaseDenotes(w, f, base, d)
  {
    forall d ensures BaseOf(w, f, base) == Some(d) <==> BaseDenotes(w, f, base, d) { BaseIff(w, f, base, d); }
    if BaseOf(w, f, base).Some? { assert BaseDenotes(w, f, base, BaseOf(w, f, base).value); }
  }

  ghost predicate HeritagePath(w: World, path: seq<DeclId>)
    requires Closed(w)
  {
    path != [] && forall i :: 0 <= i < |path| - 1 ==> Extends(w, path[i], path[i + 1])
  }

  ghost predicate Inherits(w: World, d: DeclId, e: DeclId)
    requires Closed(w)
  {
    exists path :: HeritagePath(w, path) && path[0] == d && path[|path| - 1] == e
  }

  /** All that is inherited are interfaces whose bases can be resolved. */
  ghost predicate Resolved(w: World, d: DeclId)
    requires Closed(w)
  {
    forall e :: Inherits(w, d, e) ==> ResolvedHere(w, e)
  }

  ghost predicate ResolvedHere(w: World, e: DeclId)
    requires Closed(w)
  {
    Declares(w, e) && DeclOf(w, e).Interface? &&
    forall i :: 0 <= i < |DeclOf(w, e).bases| ==> exists base :: BaseDenotes(w, e.file, DeclOf(w, e).bases[i], base)
  }

  /** The name is written in some interface that is inherited. */
  ghost predicate WrittenAbove(w: World, d: DeclId, name: string)
    requires Closed(w)
  {
    exists e :: Inherits(w, d, e) && Declares(w, e) && DeclOf(w, e).Interface? && Written(DeclOf(w, e).members, name)
  }

  lemma InheritsItself(w: World, d: DeclId)
    requires Closed(w)
    ensures Inherits(w, d, d)
  {
    assert HeritagePath(w, [d]);
  }

  lemma InheritsThrough(w: World, d: DeclId, base: DeclId, e: DeclId)
    requires Closed(w) && Extends(w, d, base) && Inherits(w, base, e)
    ensures Inherits(w, d, e)
  {
    var path :| HeritagePath(w, path) && path[0] == base && path[|path| - 1] == e;
    var longer := [d] + path;
    forall i | 0 <= i < |longer| - 1 ensures Extends(w, longer[i], longer[i + 1]) {
      if i > 0 { assert longer[i] == path[i - 1] && longer[i + 1] == path[i]; }
    }
    assert longer[|longer| - 1] == e;
  }

  lemma BaseIsResolved(w: World, d: DeclId, base: DeclId)
    requires Closed(w) && Resolved(w, d) && Extends(w, d, base)
    ensures Resolved(w, base)
  {
    forall e | Inherits(w, base, e) ensures ResolvedHere(w, e) { InheritsThrough(w, d, base, e); }
  }

  lemma WrittenThrough(w: World, d: DeclId, base: DeclId, name: string)
    requires Closed(w) && Extends(w, d, base) && WrittenAbove(w, base, name)
    ensures WrittenAbove(w, d, name)
  {
    var e :| Inherits(w, base, e) && Declares(w, e) && DeclOf(w, e).Interface? && Written(DeclOf(w, e).members, name);
    InheritsThrough(w, d, base, e);
  }

  // ---------- Presence is being written above ----------

  least lemma MayIsWritten[nat](w: World, d: DeclId, name: string)
    requires Closed(w) && Declares(w, d) && Resolved(w, d) && MayDecl(w, d, [Field(name)])
    ensures WrittenAbove(w, d, name)
  {
    InheritsItself(w, d);
    assert ResolvedHere(w, d);
    MemberFinds(DeclOf(w, d).members, name);
    if !Written(DeclOf(w, d).members, name) { MayBaseIsWritten(w, d, DeclOf(w, d).bases, 0, name); }
  }

  least lemma MayBaseIsWritten[nat](w: World, d: DeclId, bases: seq<Base>, i: nat, name: string)
    requires Closed(w) && Resolved(w, d) && ResolvedHere(w, d)
    requires i + |bases| == |DeclOf(w, d).bases| && bases == DeclOf(w, d).bases[i..]
    requires MayBase(w, d.file, bases, [Field(name)])
    ensures WrittenAbove(w, d, name)
  {
    assert bases[0] == DeclOf(w, d).bases[i];
    BaseIsNamed(w, d.file, bases[0]);
    var base := BaseOf(w, d.file, bases[0]).value;
    if MayDecl#[_k - 1](w, base, [Field(name)]) {
      ExtendsIff(w, d, base);
      BaseIsResolved(w, d, base);
      MayIsWritten(w, base, name);
      WrittenThrough(w, d, base, name);
    } else {
      MayBaseIsWritten(w, d, bases[1..], i + 1, name);
    }
  }

  lemma {:induction false} BaseHas(w: World, f: FileId, bases: seq<Base>, i: nat, steps: seq<Step>)
    requires Closed(w) && f in w && i < |bases| && BaseOf(w, f, bases[i]).Some?
    requires MustDecl(w, BaseOf(w, f, bases[i]).value, steps)
    ensures MustBase(w, f, bases, steps)
  {
    if i > 0 { BaseHas(w, f, bases[1..], i - 1, steps); }
  }

  lemma OwnIsPresent(w: World, d: DeclId, name: string)
    requires Closed(w) && Declares(w, d) && DeclOf(w, d).Interface? && Written(DeclOf(w, d).members, name)
    ensures MustDecl(w, d, [Field(name)])
  {
    MemberFinds(DeclOf(w, d).members, name);
    assert MustMember(w, d.file, DeclOf(w, d).members, [Field(name)]);
  }

  lemma {:induction false} WrittenIsPresent(w: World, path: seq<DeclId>, name: string)
    requires Closed(w) && HeritagePath(w, path) && Declares(w, path[|path| - 1])
    requires DeclOf(w, path[|path| - 1]).Interface?
    requires Written(DeclOf(w, path[|path| - 1]).members, name)
    ensures Declares(w, path[0]) && MustDecl(w, path[0], [Field(name)])
    decreases |path|
  {
    var d := path[0];
    if |path| == 1 {
      OwnIsPresent(w, d, name);
    } else {
      assert Extends(w, path[0], path[1]);
      forall i | 0 <= i < |path[1..]| - 1 ensures Extends(w, path[1..][i], path[1..][i + 1]) {
        assert Extends(w, path[i + 1], path[i + 2]);
      }
      WrittenIsPresent(w, path[1..], name);
      if Written(DeclOf(w, d).members, name) {
        OwnIsPresent(w, d, name);
      } else {
        MemberFinds(DeclOf(w, d).members, name);
        ExtendsIff(w, d, path[1]);
        var i :| 0 <= i < |DeclOf(w, d).bases| && BaseOf(w, d.file, DeclOf(w, d).bases[i]) == Some(path[1]);
        BaseHas(w, d.file, DeclOf(w, d).bases, i, [Field(name)]);
      }
    }
  }

  /** On such an interface a name is present for certain, or absent for certain. */
  lemma PresenceIsWritten(w: World, d: DeclId, name: string)
    requires Closed(w) && Declares(w, d) && Resolved(w, d)
    ensures MustDecl(w, d, [Field(name)]) <==> WrittenAbove(w, d, name)
    ensures MayDecl(w, d, [Field(name)]) <==> WrittenAbove(w, d, name)
  {
    if WrittenAbove(w, d, name) {
      var e :| Inherits(w, d, e) && Declares(w, e) && DeclOf(w, e).Interface? && Written(DeclOf(w, e).members, name);
      var path :| HeritagePath(w, path) && path[0] == d && path[|path| - 1] == e;
      WrittenIsPresent(w, path, name);
    }
    if MustDecl(w, d, [Field(name)]) { MustDeclIsMay(w, d, [Field(name)]); }
    if MayDecl(w, d, [Field(name)]) { MayIsWritten(w, d, name); }
  }

  // ---------- The answers ----------

  ghost predicate Above(w: World, d: DeclId, name: string, c: Config)
    requires Closed(w)
  {
    c.place.AtDecl? && Inherits(w, d, c.place.decl) && c.steps == [Field(name)]
  }

  lemma InheritsFurther(w: World, d: DeclId, e: DeclId, base: DeclId)
    requires Closed(w) && Inherits(w, d, e) && Extends(w, e, base)
    ensures Inherits(w, d, base)
  {
    var path :| HeritagePath(w, path) && path[0] == d && path[|path| - 1] == e;
    var longer := path + [base];
    forall i | 0 <= i < |longer| - 1 ensures Extends(w, longer[i], longer[i + 1]) {
      if i < |path| - 1 { assert longer[i] == path[i] && longer[i + 1] == path[i + 1]; }
    }
    assert longer[|longer| - 1] == base;
  }

  lemma StaysAbove(w: World, d: DeclId, name: string, a: Config, b: Config)
    requires Closed(w) && Resolved(w, d) && Above(w, d, name, a) && Moves(w, a, b)
    ensures Above(w, d, name, b)
  {
    var e := a.place.decl;
    assert ResolvedHere(w, e);
    var i :| 0 <= i < |DeclOf(w, e).bases| && MovesToBase(w, e.file, DeclOf(w, e).bases[i], a.steps, b);
    ExtendsIff(w, e, b.place.decl);
    InheritsFurther(w, d, e, b.place.decl);
  }

  lemma NeverDeep(w: World, d: DeclId, name: string)
    requires Closed(w) && Declares(w, d) && Resolved(w, d)
    ensures !LookupDecl(w, d, [Field(name)], FRESH, 1).walk.deep
  {
    var inv := (c: Config) => Above(w, d, name, c);
    forall a, b | inv(a) && Moves(w, a, b) ensures inv(b) { StaysAbove(w, d, name, a, b); }
    InheritsItself(w, d);
    DeclConfined(w, d, [Field(name)], FRESH, 1, inv);
  }

  /** The script finds what is written above, and misses everything else. */
  lemma VerdictIsWritten(w: World, d: DeclId, name: string)
    requires Closed(w) && Declares(w, d) && Resolved(w, d) && TreeLike(w, d, [Field(name)])
    ensures ReadingCases.Verdict(w, d, name) == if WrittenAbove(w, d, name) then Found else Missing
  {
    NeverDeep(w, d, name);
    TreeLikeIsExact(w, d, [Field(name)], {}, 1);
    PresenceIsWritten(w, d, name);
  }

  lemma OneBaseAnswers(w: World, f: FileId, base: Base, e: DeclId, steps: seq<Step>, st: Walk)
    requires Closed(w) && f in w && BaseOf(w, f, base) == Some(e) && |steps| == 1
    ensures LookupBases(w, f, [base], steps, st, 1).verdicts == [LookupDecl(w, e, steps, st, 1).verdict]
  {
    var first := LookupDecl(w, e, steps, st, 1);
    assert [base][1..] == [];
    assert LookupBases(w, f, [], steps, first.walk, 1) == MemberLookup.Answers([], first.walk);
  }

  lemma OneBaseVerdict(w: World, d: DeclId, e: DeclId, name: string)
    requires Closed(w) && Declares(w, d) && DeclOf(w, d).Interface? && |DeclOf(w, d).bases| == 1
    requires BaseOf(w, d.file, DeclOf(w, d).bases[0]) == Some(e) && e != d
    requires DeclOf(w, e).Interface? && DeclOf(w, e).bases == []
    ensures ReadingCases.Verdict(w, d, name) ==
      if FindMember(DeclOf(w, d).members, name).Some? || FindMember(DeclOf(w, e).members, name).Some? then Found
      else Missing
  {
    var st := FRESH.(seen := FRESH.seen + {Visit(d, 1)});
    assert DeclOf(w, d).bases == [DeclOf(w, d).bases[0]];
    OneLookup(w, e, name, st);
    OneBaseAnswers(w, d.file, DeclOf(w, d).bases[0], e, [Field(name)], st);
    var verdict, answers := LookupDecl(w, e, [Field(name)], st, 1).verdict,
      LookupBases(w, d.file, DeclOf(w, d).bases, [Field(name)], st, 1);
    assert answers.verdicts == [verdict] && verdict in [verdict];
    if FindMember(DeclOf(w, d).members, name).None? {
      assert LookupDecl(w, d, [Field(name)], FRESH, 1) == Answer(Combine(answers.verdicts), answers.walk);
    } else {
      assert LookupMember(w, d.file, DeclOf(w, d).members, [Field(name)], st, 1) == Answer(Found, st);
    }
  }

  /** The members of a base that is imported from another file, as that file exports it, are found; every name that
      neither interface has is missed. */
  lemma ImportedBaseIsSeen(w: World, d: DeclId, base: string, g: FileId, imported: string, e: DeclId, name: string)
    requires Closed(w) && Declares(w, d) && DeclOf(w, d).Interface? && |DeclOf(w, d).bases| == 1
    requires DeclOf(w, d).bases[0].name == Some(base) && Undeclared(w, d.file, base)
    requires ImportsFrom(w, d.file, base, g, imported) && NameAgrees(w, d.file, base)
    requires SoleExport(w, ExportKey(g, imported), e) && e != d
    requires Declares(w, e) && DeclOf(w, e).Interface? && DeclOf(w, e).bases == []
    ensures ReadingCases.Verdict(w, d, name) ==
      if Written(DeclOf(w, d).members, name) || Written(DeclOf(w, e).members, name) then Found else Missing
  {
    MemberFinds(DeclOf(w, d).members, name);
    MemberFinds(DeclOf(w, e).members, name);
    assert Exported(w, g, imported) == Some(e);
    BaseIff(w, d.file, DeclOf(w, d).bases[0], e);
    OneBaseVerdict(w, d, e, name);
  }

  /** An interface whose heritage is a tree of interfaces, for the script and in the program. */
  ghost predicate Heir(w: World, d: DeclId)
    requires Closed(w)
  {
    Declares(w, d) && Resolved(w, d) && Declares(Meaning(w), d) && Resolved(Meaning(w), d) &&
    forall name :: TreeLike(w, d, [Field(name)])
  }

  ghost predicate PropertyAt(w: World, e: DeclId, i: nat) {
    Declares(w, e) && DeclOf(w, e).Interface? && i < |DeclOf(w, e).members| && DeclOf(w, e).members[i].Property?
  }

  /** Every text of a property that `v` inherits is one that `w` inherits. */
  ghost predicate TextsAreIn(v: World, w: World, d: DeclId)
    requires Closed(v) && Closed(w)
  {
    forall e, i: nat :: Inherits(v, d, e) && PropertyAt(v, e, i) ==> WrittenAbove(w, d, DeclOf(v, e).members[i].text)
  }

  lemma WrittenAt(w: World, d: DeclId, e: DeclId, i: nat)
    requires Closed(w) && Inherits(w, d, e) && PropertyAt(w, e, i)
    ensures WrittenAbove(w, d, DeclOf(w, e).members[i].text)
  {
    assert DeclOf(w, e).members[i] in DeclOf(w, e).members;
    assert Written(DeclOf(w, e).members, DeclOf(w, e).members[i].text);
  }

  lemma AtSome(w: World, d: DeclId, name: string) returns (e: DeclId, i: nat)
    requires Closed(w) && WrittenAbove(w, d, name)
    ensures Inherits(w, d, e) && PropertyAt(w, e, i) && DeclOf(w, e).members[i].text == name
  {
    e :| Inherits(w, d, e) && Declares(w, e) && DeclOf(w, e).Interface? && Written(DeclOf(w, e).members, name);
    var m :| m in DeclOf(w, e).members && m.Property? && m.text == name;
    i :| 0 <= i < |DeclOf(w, e).members| && DeclOf(w, e).members[i] == m;
  }

  lemma AllWrittenIff(v: World, w: World, d: DeclId)
    requires Closed(v) && Closed(w)
    ensures (forall n :: WrittenAbove(v, d, n) ==> WrittenAbove(w, d, n)) <==> TextsAreIn(v, w, d)
  {
    if forall n :: WrittenAbove(v, d, n) ==> WrittenAbove(w, d, n) {
      forall e, i: nat | Inherits(v, d, e) && PropertyAt(v, e, i)
        ensures WrittenAbove(w, d, DeclOf(v, e).members[i].text)
      {
        WrittenAt(v, d, e, i);
      }
    }
    if TextsAreIn(v, w, d) {
      forall n | WrittenAbove(v, d, n) ensures WrittenAbove(w, d, n) {
        var e, i := AtSome(v, d, n);
      }
    }
  }

  lemma OneVerdict(w: World, d: DeclId, n: string)
    requires Closed(w) && Heir(w, d)
    ensures ReadingCases.Verdict(w, d, n) == Missing <==> !WrittenAbove(w, d, n)
    ensures ReadingCases.Verdict(w, d, n) == Found <==> WrittenAbove(w, d, n)
    ensures Absent(w, d, n) <==> !WrittenAbove(Meaning(w), d, n)
    ensures Present(w, d, n) <==> WrittenAbove(Meaning(w), d, n)
  {
    VerdictIsWritten(w, d, n);
    PresenceIsWritten(Meaning(w), d, n);
  }

  /** `missing` is right for every name exactly when every key that the program's interface has or inherits is
      written, as it is, where the script looks.  In the program a property is written as its key. */
  lemma MissingIsRightAboveIff(w: World, d: DeclId)
    requires Closed(w) && Heir(w, d)
    ensures (forall n :: ReadingCases.Verdict(w, d, n) == Missing ==> Absent(w, d, n)) <==> TextsAreIn(Meaning(w), w, d)
  {
    forall n ensures ReadingCases.Verdict(w, d, n) == Missing ==> Absent(w, d, n) <==>
        (WrittenAbove(Meaning(w), d, n) ==> WrittenAbove(w, d, n))
    {
      OneVerdict(w, d, n);
    }
    AllWrittenIff(Meaning(w), w, d);
  }

  /** `found` is right for every name exactly when everything that is written where the script looks is such a
      key. */
  lemma FoundIsRightAboveIff(w: World, d: DeclId)
    requires Closed(w) && Heir(w, d)
    ensures (forall n :: ReadingCases.Verdict(w, d, n) == Found ==> Present(w, d, n)) <==> TextsAreIn(w, Meaning(w), d)
  {
    forall n ensures ReadingCases.Verdict(w, d, n) == Found ==> Present(w, d, n) <==>
        (WrittenAbove(w, d, n) ==> WrittenAbove(Meaning(w), d, n))
    {
      OneVerdict(w, d, n);
    }
    AllWrittenIff(w, Meaning(w), d);
  }

  /** In the program a property is written as its key. */
  lemma MeantTextIsKey(w: World, e: DeclId, i: nat)
    requires Closed(w) && PropertyAt(Meaning(w), e, i)
    ensures DeclOf(Meaning(w), e).members[i].text == DeclOf(Meaning(w), e).members[i].key
  {
    var file, own := w[e.file], OwnNames(w[e.file]);
    assert DeclOf(Meaning(w), e) == MeantDecl(file, file.decls[e.index]);
    var members := GroupMembers(file.decls, file.decls[e.index].name);
    assert KeyedMembers(own, members)[i] == KeyedMember(own, members[i]);
  }
}
