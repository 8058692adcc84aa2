/** A schema key that the path check of scripts/gen-config-catalog.ts reports although the config type has it:
    emitted paths are joined with dots, so a key with a dot of its own is looked up as two members. */
module SchemaCases {
  import opened LookupTermination
  import opened MemberLookup
  import opened Options
  import opened ProgramMeaning
  import opened ReadingCases
  import opened SchemaPaths
  import opened TypeGraph

  const DOTTED: Member := Property("'a.b'", "a.b", None)

  /** `interface Config { 'a.b': string }` */
  function DottedConfig(): World {
    OneFile([Interface("Config", true, [DOTTED], [])])
  }

  /** `z.object({ 'a.b': z.string() })` */
  function DottedSchema(): Schema {
    Object([Prop("a.b", Some(ValueSchema))])
  }

  const A: seq<Step> := [Field("a")]
  const A_THEN_B: seq<Step> := [Field("a"), Field("b")]

  lemma DottedIsEmitted()
    ensures SchemaKeys(DottedSchema()) == ["a.b"] && SchemaSteps(DottedSchema()) == [[Field("a.b")]]
  {
  }

  lemma DottedIsParsed()
    ensures Parse("a.b") == A_THEN_B
  {
    StepReadsBack(Field("a"));
    StepReadsBack(Field("b"));
    ParseJoin("a", "b", "a.b");
  }

  /** A member that an interface without heritage clauses does not have ends every walk at once. */
  lemma NowhereToGo(w: World, d: DeclId, steps: seq<Step>, c: Config)
    requires Closed(w) && Plain(w, d) && steps != [] && steps[0].Field?
    requires FindMember(Members(w, d), steps[0].name).None?
    requires Reachable(w, Config(AtDecl(d), steps), c)
    ensures c == Config(AtDecl(d), steps)
  {
    var start := Config(AtDecl(d), steps);
    var t: seq<Config> :| Trace(w, start, t, c);
    assert |t| > 1 ==> Moves(w, t[0], t[1]);
  }

  lemma NothingThere(w: World, d: DeclId, steps: seq<Step>, cap: nat)
    requires Closed(w) && Plain(w, d) && 0 < |steps| <= cap && steps[0].Field?
    requires FindMember(Members(w, d), steps[0].name).None?
    ensures LookupDecl(w, d, steps, FRESH, cap).verdict == Missing
  {
    var st := FRESH.(seen := FRESH.seen + {Visit(d, |steps|)});
    assert LookupBases(w, d.file, [], steps, st, cap) == MemberLookup.Answers([], st);
  }

  lemma DottedAgrees()
    ensures Closed(DottedConfig()) && Plain(DottedConfig(), FIRST) && ReadAsMeant(DottedConfig(), FIRST, A_THEN_B)
  {
    var w := DottedConfig();
    OneInterface("Config", [DOTTED]);
    assert ListAgrees([DOTTED], "a");
    forall c | Reachable(w, Config(AtDecl(FIRST), A_THEN_B), c) ensures Agrees(w, c) {
      NowhereToGo(w, FIRST, A_THEN_B, c);
    }
  }

  /** The steps that are looked up are read as they are meant, and are absent; the key is present. */
  lemma DottedKeyIsReported()
    ensures SchemaKeys(DottedSchema()) == ["a.b"] && SchemaSteps(DottedSchema()) == [[Field("a.b")]]
    ensures Parse("a.b") == A_THEN_B
    ensures Closed(DottedConfig()) && Declares(DottedConfig(), FIRST)
    ensures ReadAsMeant(DottedConfig(), FIRST, Parse("a.b"))
    ensures LookupDecl(DottedConfig(), FIRST, Parse("a.b"), FRESH, 2).verdict == Missing
    ensures Present(DottedConfig(), FIRST, "a.b")
  {
    DottedIsEmitted();
    DottedIsParsed();
    DottedAgrees();
    OneInterface("Config", [DOTTED]);
    NothingThere(DottedConfig(), FIRST, A_THEN_B, 2);
    assert DOTTED in [DOTTED] && HasKey(DOTTED, "a.b");
    MeantOneName(DottedConfig(), FIRST, "a.b");
  }
}
