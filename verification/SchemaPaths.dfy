/** Schema key paths of scripts/gen-config-catalog.ts: how a schema walk prints them, how `parsePath`
    reads them back, and the check of every path against the declared config type. */
module SchemaPaths {
  import opened LookupGuarantees
  import opened MemberLookup
  import opened Options
  import opened PathPresence
  import opened ProgramMeaning
  import opened TypeGraph

  // ---------- Reading a path ----------

  /** The parts between the dots. */
  function Split(s: string): (parts: seq<string>)
    ensures |parts| > 0
  {
    if s == "" then [""]
    else if s[0] == '.' then [""] + Split(s[1..])
    else Prepend(s[0], Split(s[1..]))
  }

  function Prepend(c: char, parts: seq<string>): (r: seq<string>)
    requires |parts| > 0
    ensures |r| == |parts|
  {
    [[c] + parts[0]] + parts[1..]
  }

  function ExtendLast(parts: seq<string>, tail: string): (r: seq<string>)
    requires |parts| > 0
    ensures |r| == |parts|
  {
    parts[..|parts| - 1] + [parts[|parts| - 1] + tail]
  }

  predicate EndsWithBrackets(s: string) {
    |s| >= 2 && s[|s| - 2..] == "[]"
  }

  function Elements(n: nat): seq<Step> {
    if n == 0 then [] else Elements(n - 1) + [Element]
  }

  /** One part: a member, then an element step for each trailing pair of brackets. */
  function PartSteps(part: string): (steps: seq<Step>)
    ensures |steps| > 0 && steps[0].Field?
  {
    if EndsWithBrackets(part) then PartSteps(part[..|part| - 2]) + [Element] else [Field(part)]
  }

  function AllSteps(parts: seq<string>): seq<Step> {
    if parts == [] then [] else AllSteps(parts[..|parts| - 1]) + PartSteps(parts[|parts| - 1])
  }

  function Parse(path: string): seq<Step> {
    AllSteps(Split(path))
  }

  function Brackets(n: nat): string {
    if n == 0 then "" else Brackets(n - 1) + "[]"
  }

  lemma Regroup<T>(a: seq<T>, b: seq<T>, c: seq<T>)
    ensures a + (b + c) == (a + b) + c
  {
  }

  lemma PartBrackets(part: string, longer: string)
    requires longer == part + "[]"
    ensures PartSteps(longer) == PartSteps(part) + [Element]
  {
    assert longer[..|longer| - 2] == part && longer[|longer| - 2..] == "[]";
  }

  lemma {:induction false} MorePartSteps(name: string, arrays: nat, part: string)
    requires part == name + Brackets(arrays)
    ensures PartSteps(part) == PartSteps(name) + Elements(arrays)
  {
    if arrays == 0 {
      assert part == name;
    } else {
      var shorter := name + Brackets(arrays - 1);
      MorePartSteps(name, arrays - 1, shorter);
      Regroup(name, Brackets(arrays - 1), "[]");
      PartBrackets(shorter, part);
      Regroup(PartSteps(name), Elements(arrays - 1), [Element]);
    }
  }

  lemma {:induction false} BracketsCommute(n: nat)
    ensures "[]" + Brackets(n) == Brackets(n) + "[]"
  {
    if n > 0 {
      BracketsCommute(n - 1);
      assert "[]" + (Brackets(n - 1) + "[]") == ("[]" + Brackets(n - 1)) + "[]";
    }
  }

  /** Read a path into member and element steps. */
  method ParsePath(path: string) returns (steps: seq<Step>)
    ensures steps == Parse(path)
  {
    steps := [];
    var parts := Split(path);
    for p := 0 to |parts|
      invariant steps == AllSteps(parts[..p])
    {
      var name, arrays := parts[p], 0;
      while EndsWithBrackets(name)
        invariant parts[p] == name + Brackets(arrays)
        decreases |name|
      {
        BracketsCommute(arrays);
        assert name == name[..|name| - 2] + "[]";
        assert (name[..|name| - 2] + "[]") + Brackets(arrays) == name[..|name| - 2] + ("[]" + Brackets(arrays));
        name := name[..|name| - 2];
        arrays := arrays + 1;
      }
      MorePartSteps(name, arrays, parts[p]);
      ghost var before := steps;
      steps := steps + [Field(name)];
      for i := 0 to arrays
        invariant steps == before + ([Field(name)] + Elements(i))
      {
        steps := steps + [Element];
      }
      assert parts[..p + 1][..p] == parts[..p];
    }
    assert parts[..|parts|] == parts;
  }

  // ---------- Printing and reading back ----------

  /** The string a walk builds: keys joined by dots, brackets appended. */
  function Print(steps: seq<Step>): string {
    if steps == [] then "" else
      var init := steps[..|steps| - 1];
      match steps[|steps| - 1]
      case Element => Print(init) + "[]"
      case Field(key) => if init == [] then key else Print(init) + "." + key
  }

  predicate Clean(key: string) {
    '.' !in key && !EndsWithBrackets(key)
  }

  ghost predicate CleanSteps(steps: seq<Step>) {
    forall i :: 0 <= i < |steps| && steps[i].Field? ==> Clean(steps[i].name)
  }

  lemma PrependOne(c: char, s: string, longer: string)
    requires longer == [c] + s
    ensures Prepend(c, [s]) == [longer]
  {
  }

  lemma PrependJoin(c: char, a: seq<string>, b: seq<string>)
    requires |a| > 0
    ensures Prepend(c, a + b) == Prepend(c, a) + b
  {
  }

  lemma PrependExtend(c: char, parts: seq<string>, tail: string)
    requires |parts| > 0
    ensures Prepend(c, ExtendLast(parts, tail)) == ExtendLast(Prepend(c, parts), tail)
  {
    if |parts| == 1 { assert [c] + (parts[0] + tail) == ([c] + parts[0]) + tail; }
  }

  lemma {:induction false} SplitJoin(s: string, t: string, joined: string)
    requires joined == s + "." + t
    ensures Split(joined) == Split(s) + Split(t)
  {
    if s == "" {
      assert joined[1..] == t;
    } else {
      SplitJoin(s[1..], t, joined[1..]);
      if s[0] == '.' {
        assert ([""] + Split(s[1..])) + Split(t) == [""] + (Split(s[1..]) + Split(t));
      } else {
        PrependJoin(s[0], Split(s[1..]), Split(t));
      }
    }
  }

  lemma {:induction false} SplitBrackets(s: string, longer: string)
    requires longer == s + "[]"
    ensures Split(longer) == ExtendLast(Split(s), "[]")
  {
    if s == "" {
      assert longer[1..] == "]" && longer[1..][1..] == "";
      PrependOne(']', "", "]");
      PrependOne('[', "]", "[]");
      assert "" + "[]" == "[]";
      assert ExtendLast([""], "[]") == ["[]"];
    } else {
      SplitBrackets(s[1..], longer[1..]);
      if s[0] != '.' { PrependExtend(s[0], Split(s[1..]), "[]"); }
    }
  }

  lemma {:induction false} AllStepsJoin(a: seq<string>, b: seq<string>, joined: seq<string>)
    requires joined == a + b
    ensures AllSteps(joined) == AllSteps(a) + AllSteps(b)
  {
    if b == [] {
      assert joined == a;
    } else {
      var init, last := b[..|b| - 1], PartSteps(b[|b| - 1]);
      AllStepsJoin(a, init, joined[..|joined| - 1]);
      assert (AllSteps(a) + AllSteps(init)) + last == AllSteps(a) + (AllSteps(init) + last);
    }
  }

  lemma {:induction false} SplitClean(key: string)
    ensures '.' !in key ==> Split(key) == [key]
    ensures forall i :: 0 <= i < |Split(key)| ==> '.' !in Split(key)[i]
  {
    if key != "" {
      SplitClean(key[1..]);
      if '.' !in key { assert [key[0]] + key[1..] == key; }
    }
  }

  /** Reading what was printed reads each key by itself. */
  function Reread(steps: seq<Step>): seq<Step> {
    if steps == [] then [] else
      Reread(steps[..|steps| - 1]) + RereadStep(steps[|steps| - 1])
  }

  function RereadStep(step: Step): seq<Step> {
    match step
    case Element => [Element]
    case Field(key) => Parse(key)
  }

  lemma AllStepsSnoc(front: seq<string>, last: string, parts: seq<string>)
    requires parts == front + [last]
    ensures AllSteps(parts) == AllSteps(front) + PartSteps(last)
  {
    assert parts[..|parts| - 1] == front;
  }

  lemma AllStepsExtend(front: seq<string>, last: string, longer: string)
    requires longer == last + "[]"
    ensures AllSteps(front + [longer]) == AllSteps(front + [last]) + [Element]
  {
    AllStepsSnoc(front, last, front + [last]);
    AllStepsSnoc(front, longer, front + [longer]);
    PartBrackets(last, longer);
    Regroup(AllSteps(front), PartSteps(last), [Element]);
  }

  lemma Snoc<T>(s: seq<T>, init: seq<T>, last: T)
    requires |s| > 0 && init == s[..|s| - 1] && last == s[|s| - 1]
    ensures init + [last] == s
  {
  }

  lemma AllStepsExtendLast(parts: seq<string>, longer: seq<string>)
    requires |parts| > 0 && longer == ExtendLast(parts, "[]")
    ensures AllSteps(longer) == AllSteps(parts) + [Element]
  {
    var front, last := parts[..|parts| - 1], parts[|parts| - 1];
    AllStepsExtend(front, last, last + "[]");
    Snoc(parts, front, last);
  }

  lemma ParseBrackets(s: string, longer: string)
    requires longer == s + "[]"
    ensures Parse(longer) == Parse(s) + [Element]
  {
    SplitBrackets(s, longer);
    AllStepsExtendLast(Split(s), Split(longer));
  }

  lemma ParseJoin(s: string, key: string, joined: string)
    requires joined == s + "." + key
    ensures Parse(joined) == Parse(s) + Parse(key)
  {
    SplitJoin(s, key, joined);
    AllStepsJoin(Split(s), Split(key), Split(joined));
  }

  lemma {:induction false} ParsePrint(steps: seq<Step>)
    requires steps != [] && steps[0].Field?
    ensures Parse(Print(steps)) == Reread(steps)
  {
    var n := |steps| - 1;
    if n == 0 {
      assert Reread(steps[..0]) == [] && steps[..0] == [];
    } else {
      ParsePrint(steps[..n]);
      match steps[n]
      case Element => ParseBrackets(Print(steps[..n]), Print(steps));
      case Field(key) => ParseJoin(Print(steps[..n]), key, Print(steps));
    }
  }

  lemma AllStepsOne(part: string)
    ensures AllSteps([part]) == PartSteps(part)
  {
    assert [part][..0] == [];
  }

  lemma {:induction false} PartStepsClean(part: string)
    requires '.' !in part
    ensures CleanSteps(PartSteps(part))
  {
    if EndsWithBrackets(part) { PartStepsClean(part[..|part| - 2]); }
  }

  lemma {:induction false} AllStepsClean(parts: seq<string>)
    requires forall i :: 0 <= i < |parts| ==> '.' !in parts[i]
    ensures CleanSteps(AllSteps(parts))
  {
    if parts != [] {
      AllStepsClean(parts[..|parts| - 1]);
      PartStepsClean(parts[|parts| - 1]);
    }
  }

  lemma StepReadsBack(step: Step)
    requires step.Field? ==> Clean(step.name)
    ensures RereadStep(step) == [step]
  {
    if step.Field? {
      SplitClean(step.name);
      AllStepsOne(step.name);
    }
  }

  lemma {:induction false} RereadClean(steps: seq<Step>)
    requires CleanSteps(steps)
    ensures Reread(steps) == steps
  {
    if steps != [] {
      var init, last := steps[..|steps| - 1], steps[|steps| - 1];
      RereadClean(init);
      StepReadsBack(last);
      Snoc(steps, init, last);
    }
  }

  /** A printed path reads back as the steps it was printed from exactly when no key contains a dot
      or ends in brackets. */
  lemma ParseInvertsPrintIff(steps: seq<Step>)
    requires steps != [] && steps[0].Field?
    ensures Parse(Print(steps)) == steps <==> CleanSteps(steps)
  {
    ParsePrint(steps);
    if CleanSteps(steps) {
      RereadClean(steps);
    } else {
      SplitClean(Print(steps));
      AllStepsClean(Split(Print(steps)));
    }
  }

  // ---------- The schema walk ----------

  /** A schema call as the walk sees it: an object, an array, an intersection or union of schemas,
      a refinement chained onto another call, or a value without keys. */
  datatype Schema =
    | Object(props: seq<Prop>)
    | ArraySchema(element: Schema)
    | Parts(parts: seq<Schema>)
    | Refined(base: Schema)
    | ValueSchema

  /** A property; a shorthand has no value to walk. */
  datatype Prop = Prop(key: string, value: Option<Schema>)

  /** The keys below one property's value, for the path `base`. */
  function ValuePaths(value: Schema, base: string): seq<string>
    decreases value, 1
  {
    match value
    case Object(props) => NestedPaths(props, base)
    case ArraySchema(element) => ValuePaths(element, base + "[]")
    case Refined(inner) => ValuePaths(inner, base)
    case Parts(_) => []
    case ValueSchema => []
  }

  function NestedPaths(props: seq<Prop>, base: string): seq<string>
    decreases props, 0
  {
    if props == [] then [] else
      var key := base + "." + props[0].key;
      (if props[0].value.Some? then [key] + ValuePaths(props[0].value.value, key) else []) +
        NestedPaths(props[1..], base)
  }

  function SchemaKeys(schema: Schema): seq<string>
    decreases schema, 1
  {
    match schema
    case Object(props) => TopPaths(props)
    case Parts(parts) => PartKeys(parts)
    case Refined(base) => SchemaKeys(base)
    case ArraySchema(_) => []
    case ValueSchema => []
  }

  function TopPaths(props: seq<Prop>): seq<string>
    decreases props, 0
  {
    if props == [] then [] else
      [props[0].key] +
      (if props[0].value.Some? then ValuePaths(props[0].value.value, props[0].key) else []) + TopPaths(props[1..])
  }

  function PartKeys(parts: seq<Schema>): seq<string>
    decreases parts, 0
  {
    if parts == [] then [] else SchemaKeys(parts[0]) + PartKeys(parts[1..])
  }

  /** The steps the same walk takes. */
  function ValueSteps(value: Schema, base: seq<Step>): seq<seq<Step>>
    decreases value, 1
  {
    match value
    case Object(props) => NestedSteps(props, base)
    case ArraySchema(element) => ValueSteps(element, base + [Element])
    case Refined(inner) => ValueSteps(inner, base)
    case Parts(_) => []
    case ValueSchema => []
  }

  function NestedSteps(props: seq<Prop>, base: seq<Step>): seq<seq<Step>>
    decreases props, 0
  {
    if props == [] then [] else
      var here := base + [Field(props[0].key)];
      (if props[0].value.Some? then [here] + ValueSteps(props[0].value.value, here) else []) +
        NestedSteps(props[1..], base)
  }

  function SchemaSteps(schema: Schema): seq<seq<Step>>
    decreases schema, 1
  {
    match schema
    case Object(props) => TopSteps(props)
    case Parts(parts) => PartSchemaSteps(parts)
    case Refined(base) => SchemaSteps(base)
    case ArraySchema(_) => []
    case ValueSchema => []
  }

  function TopSteps(props: seq<Prop>): seq<seq<Step>>
    decreases props, 0
  {
    if props == [] then [] else
      var here := [Field(props[0].key)];
      [here] + (if props[0].value.Some? then ValueSteps(props[0].value.value, here) else []) + TopSteps(props[1..])
  }

  function PartSchemaSteps(parts: seq<Schema>): seq<seq<Step>>
    decreases parts, 0
  {
    if parts == [] then [] else SchemaSteps(parts[0]) + PartSchemaSteps(parts[1..])
  }

  ghost predicate Related<A, B>(xs: seq<A>, ys: seq<B>, r: (A, B) -> bool) {
    |xs| == |ys| && forall i :: 0 <= i < |xs| ==> r(xs[i], ys[i])
  }

  lemma RelatedJoin<A, B>(p: seq<A>, q: seq<A>, x: seq<B>, y: seq<B>, r: (A, B) -> bool)
    requires Related(p, x, r) && Related(q, y, r)
    ensures Related(p + q, x + y, r)
  {
    forall i | 0 <= i < |p + q| ensures r((p + q)[i], (x + y)[i]) {
      if i < |p| { assert r(p[i], x[i]); } else { assert r(q[i - |p|], y[i - |p|]); }
    }
  }

  predicate IsPrint(path: string, steps: seq<Step>) {
    steps != [] && steps[0].Field? && path == Print(steps)
  }

  /** Each path is the print of the steps at the same place. */
  ghost predicate Prints(paths: seq<string>, walked: seq<seq<Step>>) {
    Related(paths, walked, IsPrint)
  }

  lemma PrintsJoin(p: seq<string>, q: seq<string>, x: seq<seq<Step>>, y: seq<seq<Step>>)
    requires Prints(p, x) && Prints(q, y)
    ensures Prints(p + q, x + y)
  {
    RelatedJoin(p, q, x, y, IsPrint);
  }

  lemma PrintOne(steps: seq<Step>, step: Step)
    ensures Print(steps + [step]) == match step
      case Element => Print(steps) + "[]"
      case Field(key) => if steps == [] then key else Print(steps) + "." + key
  {
    assert (steps + [step])[..|steps|] == steps;
  }

  lemma {:induction false} ValuesPrint(value: Schema, base: seq<Step>)
    requires base != [] && base[0].Field?
    ensures Prints(ValuePaths(value, Print(base)), ValueSteps(value, base))
    decreases value, 1
  {
    match value
    case Object(props) => NestedPrint(props, base);
    case ArraySchema(element) =>
      PrintOne(base, Element);
      ValuesPrint(element, base + [Element]);
    case Refined(inner) => ValuesPrint(inner, base);
    case Parts(_) =>
    case ValueSchema =>
  }

  lemma {:induction false} NestedPrint(props: seq<Prop>, base: seq<Step>)
    requires base != [] && base[0].Field?
    ensures Prints(NestedPaths(props, Print(base)), NestedSteps(props, base))
    decreases props, 0
  {
    if props != [] {
      var here, key := base + [Field(props[0].key)], Print(base) + "." + props[0].key;
      PrintOne(base, Field(props[0].key));
      NestedPrint(props[1..], base);
      if props[0].value.Some? {
        ValuesPrint(props[0].value.value, here);
        PrintsJoin([key], ValuePaths(props[0].value.value, key), [here], ValueSteps(props[0].value.value, here));
        PrintsJoin([key] + ValuePaths(props[0].value.value, key), NestedPaths(props[1..], Print(base)),
                   [here] + ValueSteps(props[0].value.value, here), NestedSteps(props[1..], base));
      }
    }
  }

  lemma {:induction false} SchemaPrints(schema: Schema)
    ensures Prints(SchemaKeys(schema), SchemaSteps(schema))
    decreases schema, 1
  {
    match schema
    case Object(props) => TopPrints(props);
    case Parts(parts) => PartsPrint(parts);
    case Refined(base) => SchemaPrints(base);
    case ArraySchema(_) =>
    case ValueSchema =>
  }

  lemma {:induction false} TopPrints(props: seq<Prop>)
    ensures Prints(TopPaths(props), TopSteps(props))
    decreases props, 0
  {
    if props != [] {
      var here, key := [Field(props[0].key)], props[0].key;
      PrintOne([], Field(key));
      assert [] + here == here;
      TopPrints(props[1..]);
      var below, belowSteps: seq<seq<Step>> := [], [];
      if props[0].value.Some? {
        below, belowSteps := ValuePaths(props[0].value.value, key), ValueSteps(props[0].value.value, here);
        ValuesPrint(props[0].value.value, here);
      }
      PrintsJoin([key], below, [here], belowSteps);
      PrintsJoin([key] + below, TopPaths(props[1..]), [here] + belowSteps, TopSteps(props[1..]));
    }
  }

  lemma {:induction false} PartsPrint(parts: seq<Schema>)
    ensures Prints(PartKeys(parts), PartSchemaSteps(parts))
    decreases parts, 0
  {
    if parts != [] {
      SchemaPrints(parts[0]);
      PartsPrint(parts[1..]);
      PrintsJoin(SchemaKeys(parts[0]), PartKeys(parts[1..]), SchemaSteps(parts[0]), PartSchemaSteps(parts[1..]));
    }
  }

  /** Every key path a schema walk emits, however deeply objects and arrays nest, parses back to the
      member and element steps walked, exactly when the keys walked through are clean. */
  lemma EmittedPathsReadBack(schema: Schema)
    ensures |SchemaKeys(schema)| == |SchemaSteps(schema)|
    ensures forall i :: 0 <= i < |SchemaKeys(schema)| ==>
      (Parse(SchemaKeys(schema)[i]) == SchemaSteps(schema)[i] <==> CleanSteps(SchemaSteps(schema)[i]))
  {
    SchemaPrints(schema);
    forall i | 0 <= i < |SchemaKeys(schema)|
      ensures Parse(SchemaKeys(schema)[i]) == SchemaSteps(schema)[i] <==> CleanSteps(SchemaSteps(schema)[i])
    {
      ParseInvertsPrintIff(SchemaSteps(schema)[i]);
    }
  }

  // ---------- The schema-path check ----------

  ghost predicate Answered(w: World, d: DeclId, keys: seq<string>, cap: nat)
    requires Closed(w) && Declares(w, d)
  {
    forall k :: k in keys ==>
      |Parse(k)| <= cap && !LookupDecl(w, d, Parse(k), Walk({}, false, false), cap).walk.deep
  }

  /** A reported path, and one that a schema emits for keys that it validates: such keys are absent. */
  ghost predicate ReportsAbsent(w: World, d: DeclId, missing: seq<string>, schema: Schema)
    requires Closed(w) && Declares(w, d) && Declares(Meaning(w), d) && |SchemaSteps(schema)| == |SchemaKeys(schema)|
  {
    forall i :: 0 <= i < |SchemaKeys(schema)| && SchemaKeys(schema)[i] in missing ==>
      CleanSteps(SchemaSteps(schema)[i]) && ReadAsMeant(w, d, SchemaSteps(schema)[i]) ==>
        !MayDecl(Meaning(w), d, SchemaSteps(schema)[i])
  }

  lemma ReportedIsAbsent(w: World, d: DeclId, missing: seq<string>, schema: Schema)
    requires Closed(w) && Declares(w, d) && Declares(Meaning(w), d)
    requires forall k :: k in missing && ReadAsMeant(w, d, Parse(k)) ==> !MayDecl(Meaning(w), d, Parse(k))
    ensures |SchemaSteps(schema)| == |SchemaKeys(schema)| && ReportsAbsent(w, d, missing, schema)
  {
    EmittedPathsReadBack(schema);
    forall i | 0 <= i < |SchemaKeys(schema)| && SchemaKeys(schema)[i] in missing && CleanSteps(SchemaSteps(schema)[i])
        && ReadAsMeant(w, d, SchemaSteps(schema)[i])
      ensures !MayDecl(Meaning(w), d, SchemaSteps(schema)[i])
    {
      assert Parse(SchemaKeys(schema)[i]) == SchemaSteps(schema)[i];
    }
  }

  /** Check each key path, with a fresh visited set, against the config type.  `cap` bounds the
      paths met on the way; it exists when the lookups end.  A reported key is on no branch of the
      type as the script resolves names, and on no branch of the type in the program where all
      comparisons on the way read names as they are meant.  If a schema has emitted it for keys without dots
      and final brackets, the keys that the schema validates are absent. */
  method CheckSchemaKeys(w: World, d: DeclId, keys: seq<string>, cap: nat) returns (missing: seq<string>)
    requires Closed(w) && Declares(w, d) && Answered(w, d, keys, cap)
    ensures forall k :: k in missing <==>
      k in keys && LookupDecl(w, d, Parse(k), Walk({}, false, false), cap).verdict == Missing
    ensures forall k :: k in missing ==> !MayDecl(w, d, Parse(k)) && !MustDecl(w, d, Parse(k))
    ensures Declares(Meaning(w), d)
    ensures forall k :: k in missing && ReadAsMeant(w, d, Parse(k)) ==> !MayDecl(Meaning(w), d, Parse(k))
    ensures forall schema :: |SchemaSteps(schema)| == |SchemaKeys(schema)| && ReportsAbsent(w, d, missing, schema)
  {
    missing := [];
    for i := 0 to |keys|
      invariant forall k :: k in missing ==> k in keys
      invariant forall k :: k in missing <==>
        k in keys[..i] && LookupDecl(w, d, Parse(k), Walk({}, false, false), cap).verdict == Missing
    {
      assert keys[i] in keys && keys[..i + 1] == keys[..i] + [keys[i]];
      var steps := ParsePath(keys[i]);
      if LookupDecl(w, d, steps, Walk({}, false, false), cap).verdict == Missing { missing := missing + [keys[i]]; }
    }
    assert keys[..|keys|] == keys;
    forall k | k in missing ensures !MayDecl(w, d, Parse(k)) && !MustDecl(w, d, Parse(k)) {
      LookupIsRight(w, d, Parse(k), {}, cap);
      if MustDecl(w, d, Parse(k)) { MustDeclIsMay(w, d, Parse(k)); }
    }
    forall k | k in missing && ReadAsMeant(w, d, Parse(k)) ensures !MayDecl(Meaning(w), d, Parse(k)) {
      RightAboutProgram(w, d, Parse(k), {}, cap);
    }
    forall schema ensures |SchemaSteps(schema)| == |SchemaKeys(schema)| && ReportsAbsent(w, d, missing, schema) {
      ReportedIsAbsent(w, d, missing, schema);
    }
  }
}
