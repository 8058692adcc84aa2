/** Where the reading of names in scripts/gen-config-catalog.ts makes a definite answer wrong, and the
    exact condition for one name on an interface. */
module ReadingCases {
  import opened ExportHonesty
  import opened LookupTermination
  import opened MemberLookup
  import opened ModuleExports
  import opened Options
  import opened PathPresence
  import opened ProgramMeaning
  import opened TypeGraph

  const FIRST: DeclId := DeclId("a.ts", 0)
  const FRESH: Walk := Walk({}, false, false)

  function OneFile(decls: seq<Decl>): World {
    map["a.ts" := File(decls, map[], [], map[])]
  }

  /** What the script answers, from a fresh visited set, about one name on the first declaration. */
  function Verdict(w: World, d: DeclId, name: string): MemberLookup.Verdict
    requires Closed(w) && Declares(w, d)
  {
    LookupDecl(w, d, [Field(name)], FRESH, 1).verdict
  }

  /** Whether the program has that member for certain, and whether it may have it. */
  ghost predicate Present(w: World, d: DeclId, name: string)
    requires Closed(w) && Declares(w, d)
  {
    MustDecl(Meaning(w), d, [Field(name)])
  }

  ghost predicate Absent(w: World, d: DeclId, name: string)
    requires Closed(w) && Declares(w, d)
  {
    !MayDecl(Meaning(w), d, [Field(name)])
  }

  // ---------- One name on an interface without heritage ----------

  ghost predicate Written(members: seq<Member>, name: string) {
    exists m :: m in members && m.Property? && m.text == name
  }

  predicate HasKey(m: Member, key: string) {
    (m.Property? || m.Method?) && m.key == key
  }

  ghost predicate Keyed(members: seq<Member>, key: string) {
    exists m :: m in members && HasKey(m, key)
  }

  lemma KeyedFinds(own: set<string>, members: seq<Member>, name: string)
    ensures FindMember(KeyedMembers(own, members), name).Some? <==> Keyed(members, name)
  {
    var keyed := KeyedMembers(own, members);
    var found := FindMember(keyed, name);
    if found.Some? {
      assert keyed[found.value] == KeyedMember(own, members[found.value]);
      assert members[found.value] in members && HasKey(members[found.value], name);
    } else {
      forall i | 0 <= i < |members| ensures !HasKey(members[i], name) {
        assert keyed[i] in keyed && keyed[i] == KeyedMember(own, members[i]);
      }
    }
  }

  lemma MemberFinds(members: seq<Member>, name: string)
    ensures FindMember(members, name).Some? <==> Written(members, name)
  {
    var found := FindMember(members, name);
    if found.Some? { assert members[found.value] in members; }
  }

  /** No declaration of the interface has a heritage clause. */
  ghost predicate Plain(w: World, d: DeclId) {
    Declares(w, d) && DeclOf(w, d).Interface? && DeclOf(w, d).bases == [] &&
      GroupBases(w[d.file].decls, DeclOf(w, d).name) == []
  }

  function Members(w: World, d: DeclId): seq<Member>
    requires Declares(w, d) && DeclOf(w, d).Interface?
  {
    DeclOf(w, d).members
  }

  function Group(w: World, d: DeclId): seq<Member>
    requires Declares(w, d)
  {
    GroupMembers(w[d.file].decls, DeclOf(w, d).name)
  }

  predicate Open(w: World, d: DeclId)
    requires Declares(w, d)
  {
    IsOpen(w[d.file], DeclOf(w, d).name)
  }

  lemma OneStep(m: World, d: DeclId, members: seq<Member>, open: bool, name: string)
    requires Closed(m) && Declares(m, d) && DeclOf(m, d).Interface? && DeclOf(m, d).members == members
    requires DeclOf(m, d).bases == if open then [Base(None, [])] else []
    ensures MustDecl(m, d, [Field(name)]) <==> FindMember(members, name).Some?
    ensures MayDecl(m, d, [Field(name)]) <==> FindMember(members, name).Some? || open
  {
    var steps, bases := [Field(name)], DeclOf(m, d).bases;
    if FindMember(members, name).Some? {
      assert MustMember(m, d.file, members, steps) && MayMember(m, d.file, members, steps);
    } else if open {
      assert bases[1..] == [] && !MustBase(m, d.file, [], steps) && !MustBase(m, d.file, bases, steps);
      assert MayBase(m, d.file, bases, steps);
    } else {
      assert !MustBase(m, d.file, [], steps) && !MayBase(m, d.file, [], steps);
    }
  }

  lemma OneLookup(w: World, d: DeclId, name: string, st: Walk)
    requires Closed(w) && Declares(w, d) && DeclOf(w, d).Interface? && DeclOf(w, d).bases == []
    requires Visit(d, 1) !in st.seen
    ensures LookupDecl(w, d, [Field(name)], st, 1).verdict == if FindMember(DeclOf(w, d).members, name).Some?
      then Found else Missing
  {
    var st' := st.(seen := st.seen + {Visit(d, 1)});
    assert LookupBases(w, d.file, [], [Field(name)], st', 1) == MemberLookup.Answers([], st');
  }

  /** The script finds a name that is written in this declaration. */
  lemma ScriptOneName(w: World, d: DeclId, name: string)
    requires Closed(w) && Plain(w, d)
    ensures Verdict(w, d, name) == if Written(Members(w, d), name) then Found else Missing
  {
    OneLookup(w, d, name, FRESH);
    MemberFinds(Members(w, d), name);
  }

  lemma MeantPlain(w: World, d: DeclId)
    requires Closed(w) && Plain(w, d)
    ensures Declares(Meaning(w), d) && DeclOf(Meaning(w), d).Interface?
    ensures DeclOf(Meaning(w), d).members == KeyedMembers(OwnNames(w[d.file]), Group(w, d))
    ensures DeclOf(Meaning(w), d).bases == if Open(w, d) then [Base(None, [])] else []
  {
    assert DeclOf(Meaning(w), d) == MeantDecl(w[d.file], DeclOf(w, d));
  }

  /** The program has it if it is a key of any declaration of the interface, and may have it if that is open. */
  lemma MeantOneName(w: World, d: DeclId, name: string)
    requires Closed(w) && Plain(w, d)
    ensures Present(w, d, name) <==> Keyed(Group(w, d), name)
    ensures Absent(w, d, name) <==> !Keyed(Group(w, d), name) && !Open(w, d)
  {
    KeyedFinds(OwnNames(w[d.file]), Group(w, d), name);
    MeantPlain(w, d);
    OneStep(Meaning(w), d, KeyedMembers(OwnNames(w[d.file]), Group(w, d)), Open(w, d), name);
  }

  /** `missing` is right for every name exactly when the interface has no index signature and no class beside it
      and every key of every declaration of it is written, as it is, in the first. */
  lemma MissingIsRightIff(w: World, d: DeclId)
    requires Closed(w) && Plain(w, d)
    ensures (forall n :: Verdict(w, d, n) == Missing ==> Absent(w, d, n)) <==>
      !Open(w, d) && forall m :: m in Group(w, d) && (m.Property? || m.Method?) ==> Written(Members(w, d), m.key)
  {
    forall n ensures Verdict(w, d, n) == Missing ==> Absent(w, d, n) <==>
        (!Written(Members(w, d), n) ==> !Keyed(Group(w, d), n) && !Open(w, d))
    {
      ScriptOneName(w, d, n);
      MeantOneName(w, d, n);
    }
    KeysIff(Members(w, d), Group(w, d), Open(w, d));
  }

  /** A name longer than any that is written. */
  function LongName(members: seq<Member>): (r: string)
    ensures |r| > 0 && forall m :: m in members && m.Property? ==> |m.text| < |r|
  {
    if members == [] then "x"
    else LongName(members[1..]) + (if members[0].Property? then members[0].text else "")
  }

  lemma KeysIff(own: seq<Member>, group: seq<Member>, open: bool)
    ensures (forall n :: !Written(own, n) ==> !Keyed(group, n) && !open) <==>
      !open && forall m :: m in group && (m.Property? || m.Method?) ==> Written(own, m.key)
  {
    if forall n :: !Written(own, n) ==> !Keyed(group, n) && !open {
      assert !Written(own, LongName(own));
      forall m | m in group && (m.Property? || m.Method?) ensures Written(own, m.key) {
        assert HasKey(m, m.key) && Keyed(group, m.key);
      }
    }
  }

  /** `found` is right for every name exactly when everything written there is a key. */
  lemma FoundIsRightIff(w: World, d: DeclId)
    requires Closed(w) && Plain(w, d)
    ensures (forall n :: Verdict(w, d, n) == Found ==> Present(w, d, n)) <==>
      forall o :: o in Members(w, d) && o.Property? ==> Keyed(Group(w, d), o.text)
  {
    forall n
      ensures Verdict(w, d, n) == Found ==> Present(w, d, n) <==> (Written(Members(w, d), n) ==> Keyed(Group(w, d), n))
    {
      ScriptOneName(w, d, n);
      MeantOneName(w, d, n);
    }
    TextsIff(Members(w, d), Group(w, d));
  }

  lemma TextsIff(own: seq<Member>, group: seq<Member>)
    ensures (forall n :: Written(own, n) ==> Keyed(group, n)) <==>
      forall o :: o in own && o.Property? ==> Keyed(group, o.text)
  {
    if forall n :: Written(own, n) ==> Keyed(group, n) {
      forall o | o in own && o.Property? ensures Keyed(group, o.text) {
        assert Written(own, o.text);
      }
    }
  }

  // ---------- Inputs on which the answer is wrong ----------

  /** `interface Config { 'a-b': string }` */
  function Quoted(): World {
    OneFile([Interface("Config", true, [Property("'a-b'", "a-b", None)], [])])
  }

  lemma OneInterface(name: string, members: seq<Member>)
    ensures var w := OneFile([Interface(name, true, members, [])]);
      && Closed(w) && Plain(w, FIRST) && Members(w, FIRST) == members && Group(w, FIRST) == members
      && (Open(w, FIRST) <==> HasIndex(members))
  {
    OneInGroup([Interface(name, true, members, [])], 0);
  }

  lemma QuotedKeyIsMissed()
    ensures Closed(Quoted()) && Declares(Quoted(), FIRST)
    ensures Verdict(Quoted(), FIRST, "a-b") == Missing && Present(Quoted(), FIRST, "a-b")
    ensures Verdict(Quoted(), FIRST, "'a-b'") == Found && Absent(Quoted(), FIRST, "'a-b'")
  {
    var m := Property("'a-b'", "a-b", None);
    OneInterface("Config", [m]);
    QuotedMember(m);
    ScriptOneName(Quoted(), FIRST, "a-b");
    ScriptOneName(Quoted(), FIRST, "'a-b'");
    MeantOneName(Quoted(), FIRST, "a-b");
    MeantOneName(Quoted(), FIRST, "'a-b'");
  }

  lemma QuotedMember(m: Member)
    requires m.Property? && m.text != m.key
    ensures Written([m], m.text) && !Written([m], m.key) && Keyed([m], m.key) && !Keyed([m], m.text) && !HasIndex([m])
  {
    assert m in [m] && HasKey(m, m.key);
  }

  /** `interface Config { run(): void }` */
  function Methodical(): World {
    OneFile([Interface("Config", true, [Method("run", None)], [])])
  }

  lemma MethodIsMissed()
    ensures Closed(Methodical()) && Declares(Methodical(), FIRST)
    ensures Verdict(Methodical(), FIRST, "run") == Missing && Present(Methodical(), FIRST, "run")
  {
    var m := Method("run", None);
    OneInterface("Config", [m]);
    assert m in [m] && HasKey(m, "run");
    ScriptOneName(Methodical(), FIRST, "run");
    MeantOneName(Methodical(), FIRST, "run");
  }

  /** `interface Config { [key: string]: string }` */
  function Indexing(): World {
    OneFile([Interface("Config", true, [Index(None)], [])])
  }

  lemma IndexSignatureIsPassedOver(name: string)
    ensures Closed(Indexing()) && Declares(Indexing(), FIRST)
    ensures Verdict(Indexing(), FIRST, name) == Missing && !Absent(Indexing(), FIRST, name)
  {
    OneInterface("Config", [Index(None)]);
    assert Index(None) in [Index(None)];
    ScriptOneName(Indexing(), FIRST, name);
    MeantOneName(Indexing(), FIRST, name);
  }

  /** A class of its name beside an interface may have any member, and a name that the interface does not write is
      answered missing. */
  lemma ClassIsPassedOver(w: World, d: DeclId, name: string)
    requires Closed(w) && Plain(w, d) && DeclOf(w, d).name in w[d.file].others && !Written(Members(w, d), name)
    ensures Verdict(w, d, name) == Missing && Declares(Meaning(w), d) && !Absent(w, d, name)
  {
    ScriptOneName(w, d, name);
    MeantOneName(w, d, name);
  }

  /** `interface C { x: string }  interface C { y: string }` */
  function Merged(): World {
    OneFile([Interface("C", true, [Property("x", "x", None)], []),
      Interface("C", true, [Property("y", "y", None)], [])])
  }

  lemma GroupOfTwo(name: string, xs: seq<Member>, ys: seq<Member>)
    ensures var decls := [Interface(name, true, xs, []), Interface(name, true, ys, [])];
      GroupMembers(decls, name) == xs + ys && GroupBases(decls, name) == []
  {
    var second := [Interface(name, true, ys, [])];
    var decls := [Interface(name, true, xs, [])] + second;
    OneInGroup(second, 0);
    assert decls[1..] == second && decls == [Interface(name, true, xs, []), Interface(name, true, ys, [])];
  }

  lemma MergedMemberIsMissed()
    ensures Closed(Merged()) && Declares(Merged(), FIRST)
    ensures Verdict(Merged(), FIRST, "y") == Missing && Present(Merged(), FIRST, "y")
  {
    var w, x, y := Merged(), Property("x", "x", None), Property("y", "y", None);
    GroupOfTwo("C", [x], [y]);
    assert Members(w, FIRST) == [x] && Group(w, FIRST) == [x] + [y];
    assert y in [x] + [y] && HasKey(y, "y") && x.text != "y";
    ScriptOneName(w, FIRST, "y");
    MeantOneName(w, FIRST, "y");
  }

  /** `type A = { 'k': string } & { k: string }` */
  function TwiceWritten(): World {
    OneFile([Alias("A", true, Intersection([Literal([Property("'k'", "k", None)]),
      Literal([Property("k", "k", None)])]))])
  }

  const QUOTED: Member := Property("'k'", "k", None)
  const PLAIN: Member := Property("k", "k", None)

  lemma HarmlessVerdict()
    ensures Closed(TwiceWritten()) && Declares(TwiceWritten(), FIRST) && Verdict(TwiceWritten(), FIRST, "k") == Found
  {
    var w, steps := TwiceWritten(), [Field("k")];
    var st := FRESH.(seen := {} + {Visit(FIRST, 1)});
    TwoLiterals(w, "a.ts", QUOTED, PLAIN, "k", st);
    assert LookupDecl(w, FIRST, steps, FRESH, 1) ==
      LookupType(w, "a.ts", Intersection([Literal([QUOTED]), Literal([PLAIN])]), steps, st, 1);
  }

  lemma TwiceKeyed()
    ensures KeyedType({"A"}, Intersection([Literal([QUOTED]), Literal([PLAIN])])) ==
      Intersection([Literal([PLAIN]), Literal([PLAIN])])
  {
    assert KeyedMembers({"A"}, [QUOTED]) == [PLAIN] && KeyedMembers({"A"}, [PLAIN]) == [PLAIN];
    assert KeyedAll({"A"}, [Literal([QUOTED]), Literal([PLAIN])]) == [Literal([PLAIN]), Literal([PLAIN])];
  }

  lemma MeantTwice()
    ensures Closed(TwiceWritten()) && Declares(TwiceWritten(), FIRST)
    ensures DeclOf(Meaning(TwiceWritten()), FIRST) ==
      Alias("A", true, Intersection([Literal([PLAIN]), Literal([PLAIN])]))
  {
    var file := TwiceWritten()["a.ts"];
    assert file.decls[0].name == "A" && OwnNames(file) == {"A"};
    TwiceKeyed();
  }

  lemma HarmlessPresence()
    ensures Closed(TwiceWritten()) && Declares(TwiceWritten(), FIRST) && Present(TwiceWritten(), FIRST, "k")
  {
    var m, steps, same := Meaning(TwiceWritten()), [Field("k")], Literal([PLAIN]);
    MeantTwice();
    assert FindMember([PLAIN], "k") == Some(0);
    assert MustMember(m, "a.ts", [PLAIN], steps) && Must(m, "a.ts", same, steps);
    assert MustSome(m, "a.ts", [same, same], steps) && Must(m, "a.ts", Intersection([same, same]), steps);
  }

  lemma HarmlessDisagreement()
    ensures Closed(TwiceWritten()) && !ReadAsMeant(TwiceWritten(), FIRST, [Field("k")])
  {
    var w, steps, parts := TwiceWritten(), [Field("k")], [Literal([QUOTED]), Literal([PLAIN])];
    var start, both, part := Config(AtDecl(FIRST), steps), Config(AtType("a.ts", Intersection(parts)), steps),
      Config(AtType("a.ts", parts[0]), steps);
    assert DeclOf(w, FIRST) == Alias("A", true, Intersection(parts));
    StartIsReachable(w, start);
    ReachableMoves(w, start, start, both);
    ReachableMoves(w, start, both, part);
    assert QUOTED in [QUOTED] && !MemberAgrees(QUOTED, "k") && !ListAgrees([QUOTED], "k") && !Agrees(w, part);
  }

  /** One comparison that disagrees need not make an answer wrong: here another part has the name too.
      So agreement everywhere is not necessary for a single answer. */
  lemma DisagreementCanBeHarmless()
    ensures Closed(TwiceWritten()) && Declares(TwiceWritten(), FIRST)
    ensures Verdict(TwiceWritten(), FIRST, "k") == Found && Present(TwiceWritten(), FIRST, "k")
    ensures !ReadAsMeant(TwiceWritten(), FIRST, [Field("k")])
  {
    HarmlessVerdict();
    HarmlessPresence();
    HarmlessDisagreement();
  }

  lemma TwoLiterals(w: World, f: FileId, a: Member, b: Member, name: string, st: Walk)
    requires Closed(w) && f in w && a.Property? && a.text != name && b.Property? && b.text == name
    ensures LookupType(w, f, Intersection([Literal([a]), Literal([b])]), [Field(name)], st, 1).verdict == Found
  {
    var parts, steps := [Literal([a]), Literal([b])], [Field(name)];
    assert FindMember([a], name) == None && FindMember([b], name) == Some(0);
    assert LookupType(w, f, parts[0], steps, st, 1) == MemberLookup.Answer(Missing, st);
    assert LookupType(w, f, parts[1], steps, st, 1) == MemberLookup.Answer(Found, st);
    assert LookupParts(w, f, parts[1..], steps, st, 1).verdicts ==
      [Found] + LookupParts(w, f, parts[1..][1..], steps, st, 1).verdicts;
    var all := LookupParts(w, f, parts, steps, st, 1).verdicts;
    assert all[1] == Found && Found in all;
  }

  // ---------- References to something else ----------

  /** The interface is the only thing of its name in its file, and has nothing but its members. */
  ghost predicate Bare(w: World, d: DeclId, members: seq<Member>) {
    && Plain(w, d) && Members(w, d) == members && Group(w, d) == members && !Open(w, d)
  }

  /** `type A = ...` and, beside it, an interface. */
  function Beside(node: TypeNode, name: string, members: seq<Member>): World {
    OneFile([Alias("A", true, node), Interface(name, true, members, [])])
  }

  const SECOND: DeclId := DeclId("a.ts", 1)

  const AT_A: Walk := FRESH.(seen := {} + {Visit(FIRST, 1)})

  lemma AliasIsLookedUp(w: World, d: DeclId, node: TypeNode, name: string)
    requires Closed(w) && Declares(w, d) && DeclOf(w, d).Alias? && DeclOf(w, d).ty == node
    ensures Verdict(w, d, name) ==
      LookupType(w, d.file, node, [Field(name)], FRESH.(seen := {} + {Visit(d, 1)}), 1).verdict
    ensures MustDecl(w, d, [Field(name)]) <==> Must(w, d.file, node, [Field(name)])
    ensures MayDecl(w, d, [Field(name)]) <==> May(w, d.file, node, [Field(name)])
  {
  }

  lemma AliasIsMeant(node: TypeNode, beside: string, members: seq<Member>)
    ensures Closed(Beside(node, beside, members)) && Declares(Meaning(Beside(node, beside, members)), FIRST)
    ensures DeclOf(Meaning(Beside(node, beside, members)), FIRST) == Alias("A", true, KeyedType({"A", beside}, node))
  {
    var file := Beside(node, beside, members)["a.ts"];
    assert file.decls[0].name == "A" && file.decls[1].name == beside;
    assert OwnNames(file) == {"A", beside};
  }

  lemma AliasOneName(node: TypeNode, beside: string, members: seq<Member>, name: string)
    ensures var w := Beside(node, beside, members);
      && Closed(w) && Declares(w, FIRST)
      && Verdict(w, FIRST, name) == LookupType(w, "a.ts", node, [Field(name)], AT_A, 1).verdict
    ensures var w := Beside(node, beside, members);
      var keyed := KeyedType({"A", beside}, node);
      && (Present(w, FIRST, name) <==> Must(Meaning(w), "a.ts", keyed, [Field(name)]))
      && (Absent(w, FIRST, name) <==> !May(Meaning(w), "a.ts", keyed, [Field(name)]))
  {
    AliasIsLookedUp(Beside(node, beside, members), FIRST, node, name);
    AliasIsMeant(node, beside, members);
    AliasIsLookedUp(Meaning(Beside(node, beside, members)), FIRST, KeyedType({"A", beside}, node), name);
  }

  lemma BesideIsBare(node: TypeNode, beside: string, members: seq<Member>)
    requires beside != "A" && !HasIndex(members)
    ensures Closed(Beside(node, beside, members)) && Bare(Beside(node, beside, members), SECOND, members)
  {
    OneInGroup(Beside(node, beside, members)["a.ts"].decls, 1);
  }

  lemma SecondIsFound(decls: seq<Decl>, name: string)
    requires |decls| == 2 && decls[0].name != name && decls[1].name == name
    ensures FindDecl(decls, name) == Some(1)
  {
    assert FindFrom(decls, name, 1) == Some(1);
  }

  lemma BesideResolves(node: TypeNode, beside: string, members: seq<Member>)
    requires beside != "A"
    ensures var w := Beside(node, beside, members);
      && Closed(w) && DeclForTypeName(w, "a.ts", beside) == Some(SECOND) &&
        DeclForTypeName(Meaning(w), "a.ts", beside) == Some(SECOND)
  {
    SecondIsFound(Beside(node, beside, members)["a.ts"].decls, beside);
    SameDecl(Beside(node, beside, members), "a.ts", beside);
  }

  /** A reference without arguments is looked up in the declaration that its name resolves to. */
  lemma ReferenceIs(w: World, f: FileId, node: TypeNode, d: DeclId, steps: seq<Step>, st: Walk)
    requires Closed(w) && f in w && node.Reference? && !node.qualified && node.args == [] && steps != [] && |steps| <= 1
    requires DeclForTypeName(w, f, node.name) == Some(d)
    ensures LookupType(w, f, node, steps, st, 1) == LookupDecl(w, d, steps, st, 1)
    ensures Must(w, f, node, steps) <==> MustDecl(w, d, steps)
  {
    assert TargetOf(w, f, node) == Target.Declared(d);
  }

  /** `interface Partial<T> { extra: string }  type A = Partial<{ a: string }>` */
  function OwnWrapper(): TypeNode {
    Reference("Partial", false, [Literal([Property("a", "a", None)])], false)
  }

  const EXTRA: Member := Property("extra", "extra", None)

  lemma OwnWrapperVerdict()
    ensures var w := Beside(OwnWrapper(), "Partial", [EXTRA]);
      && Closed(w) && LookupType(w, "a.ts", OwnWrapper(), [Field("extra")], AT_A, 1).verdict == Missing
  {
    var w, a := Beside(OwnWrapper(), "Partial", [EXTRA]), Property("a", "a", None);
    assert TargetOf(w, "a.ts", OwnWrapper()) == Through(Literal([a]));
    assert FindMember([a], "extra") == None;
  }

  /** What is meant by a reference to the interface beside the alias has its members. */
  lemma SecondIsPresent(node: TypeNode, beside: string, members: seq<Member>, name: string)
    requires KeyedType({"A", beside}, node) == Reference(beside, false, [], false)
    requires beside != "A" && !HasIndex(members) && Keyed(members, name)
    ensures Closed(Beside(node, beside, members)) && Declares(Beside(node, beside, members), FIRST)
    ensures Present(Beside(node, beside, members), FIRST, name)
  {
    var w := Beside(node, beside, members);
    AliasOneName(node, beside, members, name);
    BesideResolves(node, beside, members);
    BesideIsBare(node, beside, members);
    MeantOneName(w, SECOND, name);
    ReferenceIs(Meaning(w), "a.ts", Reference(beside, false, [], false), SECOND, [Field(name)], AT_A);
  }

  /** The wrapper of that name is the file's own, and has the member. */
  lemma OwnWrapperIsMistaken()
    ensures var w := Beside(OwnWrapper(), "Partial", [EXTRA]);
      && Closed(w) && Declares(w, FIRST) && Verdict(w, FIRST, "extra") == Missing && Present(w, FIRST, "extra")
  {
    AliasOneName(OwnWrapper(), "Partial", [EXTRA], "extra");
    OwnWrapperVerdict();
    assert EXTRA in [EXTRA] && HasKey(EXTRA, "extra");
    SecondIsPresent(OwnWrapper(), "Partial", [EXTRA], "extra");
  }

  const PARAMETER: TypeNode := Reference("T", false, [], true)

  const X: Member := Property("x", "x", None)

  lemma ParameterVerdict(name: string)
    requires name != "x"
    ensures var w := Beside(PARAMETER, "T", [X]);
      && Closed(w) && LookupType(w, "a.ts", PARAMETER, [Field(name)], AT_A, 1).verdict == Missing
  {
    var w := Beside(PARAMETER, "T", [X]);
    BesideResolves(PARAMETER, "T", [X]);
    ReferenceIs(w, "a.ts", PARAMETER, SECOND, [Field(name)], AT_A);
    BesideIsBare(PARAMETER, "T", [X]);
    assert FindMember([X], name) == None;
    OneLookup(w, SECOND, name, AT_A);
  }

  /** `interface T { x: string }  type A<T> = T`: the parameter is taken for the interface. */
  lemma ParameterIsMistaken(name: string)
    requires name != "x"
    ensures var w := Beside(PARAMETER, "T", [X]);
      && Closed(w) && Declares(w, FIRST) && Verdict(w, FIRST, name) == Missing && !Absent(w, FIRST, name)
  {
    AliasOneName(PARAMETER, "T", [X], name);
    ParameterVerdict(name);
  }

  /** `type A = keyof { a: string }`: the members of the operand are found on its keys. */
  lemma KeyOfIsLookedThrough(beside: string, members: seq<Member>)
    ensures var w := Beside(Operator(Literal([Property("a", "a", None)]), true), beside, members);
      && Closed(w) && Declares(w, FIRST) && Verdict(w, FIRST, "a") == Found && !Present(w, FIRST, "a")
  {
    var inner, steps := Literal([Property("a", "a", None)]), [Field("a")];
    var w := Beside(Operator(inner, true), beside, members);
    AliasOneName(Operator(inner, true), beside, members, "a");
    assert FindMember([Property("a", "a", None)], "a") == Some(0);
    assert LookupType(w, "a.ts", inner, steps, AT_A, 1) == MemberLookup.Answer(Found, AT_A);
  }

  // ---------- Imports of something else ----------

  const MAIN: DeclId := DeclId("main.ts", 0)

  const C: TypeNode := Reference("C", false, [], false)

  /** What the alias `type T = C` says of one name is what the declaration that `C` stands for says. */
  lemma ThroughAlias(w: World, d: DeclId, members: seq<Member>, name: string)
    requires Closed(w) && Declares(w, MAIN) && DeclOf(w, MAIN) == Alias("T", true, C)
    requires DeclForTypeName(w, "main.ts", "C") == Some(d) && d != MAIN
    requires DeclOf(w, d).Interface? && DeclOf(w, d).members == members && DeclOf(w, d).bases == []
    ensures LookupDecl(w, MAIN, [Field(name)], FRESH, 1).verdict == if FindMember(members, name).Some? then Found
      else Missing
    ensures MustDecl(w, MAIN, [Field(name)]) <==> FindMember(members, name).Some?
    ensures MayDecl(w, MAIN, [Field(name)]) <==> FindMember(members, name).Some?
  {
    var steps := [Field(name)];
    assert TargetOf(w, "main.ts", C) == Target.Declared(d);
    OneStep(w, d, members, false, name);
    OneLookup(w, d, name, FRESH.(seen := {} + {Visit(MAIN, 1)}));
    assert LookupDecl(w, MAIN, steps, FRESH, 1) == LookupDecl(w, d, steps, FRESH.(seen := {} + {Visit(MAIN, 1)}), 1);
    assert MustDecl(w, MAIN, steps) <==> Must(w, "main.ts", C, steps);
    assert MayDecl(w, MAIN, steps) <==> May(w, "main.ts", C, steps);
  }

  lemma MeantMain(entry: File, xs: seq<Member>, ys: seq<Member>)
    requires Closed(Entry(entry, xs, ys)) && Exported(Entry(entry, xs, ys), "entry.ts", "C") == Some(FROM_B)
    ensures var m := Meaning(Entry(entry, xs, ys));
      && Declares(m, MAIN) && DeclOf(m, MAIN) == Alias("T", true, C) &&
        DeclForTypeName(m, "main.ts", "C") == Some(FROM_B)
  {
    var w := Entry(entry, xs, ys);
    assert KeyedType(OwnNames(w["main.ts"]), C) == C;
    ImportLeadsTo(w, "main.ts", "C");
  }

  lemma FromBIsBare(entry: File, xs: seq<Member>, ys: seq<Member>)
    requires Closed(Entry(entry, xs, ys)) && !HasIndex(ys)
    ensures Bare(Entry(entry, xs, ys), FROM_B, ys)
  {
    OneInGroup(Entry(entry, xs, ys)["b.ts"].decls, 0);
  }

  lemma ScriptTakes(entry: File, xs: seq<Member>, ys: seq<Member>, taken: DeclId, members: seq<Member>, name: string)
    requires Closed(Entry(entry, xs, ys)) && taken != MAIN
    requires FindExportedTypeDecl(Entry(entry, xs, ys), "entry.ts", "C") == Some(taken)
    requires var d := DeclOf(Entry(entry, xs, ys), taken); d.Interface? && d.members == members && d.bases == []
    ensures Declares(Entry(entry, xs, ys), MAIN)
    ensures Verdict(Entry(entry, xs, ys), MAIN, name) == if Written(members, name) then Found else Missing
  {
    assert Entry(entry, xs, ys)["main.ts"].decls[0].name == "T";
    ThroughAlias(Entry(entry, xs, ys), taken, members, name);
    MemberFinds(members, name);
  }

  lemma ProgramTakesB(entry: File, xs: seq<Member>, ys: seq<Member>, name: string)
    requires Closed(Entry(entry, xs, ys)) && !HasIndex(ys)
    requires Exported(Entry(entry, xs, ys), "entry.ts", "C") == Some(FROM_B)
    ensures Declares(Entry(entry, xs, ys), MAIN)
    ensures Present(Entry(entry, xs, ys), MAIN, name) <==> Keyed(ys, name)
    ensures Absent(Entry(entry, xs, ys), MAIN, name) <==> !Keyed(ys, name)
  {
    var w := Entry(entry, xs, ys);
    MeantMain(entry, xs, ys);
    FromBIsBare(entry, xs, ys);
    MeantPlain(w, FROM_B);
    ThroughAlias(Meaning(w), FROM_B, KeyedMembers(OwnNames(w["b.ts"]), ys), name);
    KeyedFinds(OwnNames(w["b.ts"]), ys, name);
  }

  /** An interface `C` beside `export { C } from './b.ts'`, and not exported itself: `main.ts` says `type T = C`
      and means the `C` of `b.ts`, but the answer is about the hidden one, in either direction. */
  lemma HiddenDeclarationMisleads(hidden: seq<Member>, xs: seq<Member>, ys: seq<Member>, name: string)
    requires !HasIndex(ys)
    ensures var w := Entry(Hidden(hidden), xs, ys);
      && Closed(w) && Declares(w, MAIN) && (Verdict(w, MAIN, name) == if Written(hidden, name) then Found else Missing)
      && (Present(w, MAIN, name) <==> Keyed(ys, name)) && (Absent(w, MAIN, name) <==> !Keyed(ys, name))
  {
    HiddenDeclarationIsFound(hidden, xs, ys);
    ScriptTakes(Hidden(hidden), xs, ys, DeclId("entry.ts", 0), hidden, name);
    ProgramTakesB(Hidden(hidden), xs, ys, name);
  }

  /** `export * from './a.ts'` before `export { C } from './b.ts'`: the answer is about the `C` of `a.ts`. */
  lemma StarMisleads(xs: seq<Member>, ys: seq<Member>, name: string)
    requires !HasIndex(ys)
    ensures var w := Entry(Listed(), xs, ys);
      && Closed(w) && Declares(w, MAIN) && (Verdict(w, MAIN, name) == if Written(xs, name) then Found else Missing)
      && (Present(w, MAIN, name) <==> Keyed(ys, name)) && (Absent(w, MAIN, name) <==> !Keyed(ys, name))
  {
    StarBeforeList(xs, ys);
    ScriptTakes(Listed(), xs, ys, FROM_A, xs, name);
    ProgramTakesB(Listed(), xs, ys, name);
  }
}
