/** Which members of a schema the walk of scripts/gen-config-catalog.ts visits, told by the shape of the schema. */
module SchemaMembers {
  import opened MemberLookup
  import opened SchemaPaths

  /** The value that a schema validates has a member there: a property of an object, a member of a property's value,
      or a member of the elements of an array; refinements change nothing, and other schemas are not looked into. */
  ghost predicate HasMember(value: Schema, steps: seq<Step>)
    decreases value
  {
    match value
    case Object(props) => exists prop :: prop in props && prop.value.Some? && IsMember(prop, steps)
    case ArraySchema(element) => steps != [] && steps[0] == Element && HasMember(element, steps[1..])
    case Refined(base) => HasMember(base, steps)
    case Parts(_) => false
    case ValueSchema => false
  }

  ghost predicate IsMember(prop: Prop, steps: seq<Step>)
    decreases prop
  {
    steps != [] && steps[0] == Field(prop.key) &&
    (|steps| == 1 || (prop.value.Some? && HasMember(prop.value.value, steps[1..])))
  }

  /** The same for the schema of a whole config, which may be put together from parts, and whose properties may be
      shorthands. */
  ghost predicate Validates(schema: Schema, steps: seq<Step>)
    decreases schema
  {
    match schema
    case Object(props) => exists prop :: prop in props && IsMember(prop, steps)
    case Parts(parts) => exists part :: part in parts && Validates(part, steps)
    case Refined(base) => Validates(base, steps)
    case ArraySchema(_) => false
    case ValueSchema => false
  }

  lemma Beyond(base: seq<Step>, step: Step, steps: seq<Step>)
    ensures base + [step] <= steps <==> base <= steps && |steps| > |base| && steps[|base|] == step
    ensures base + [step] <= steps ==> steps[|base|..][1..] == steps[|base| + 1..]
  {
    if base <= steps && |steps| > |base| && steps[|base|] == step {
      assert steps[..|base| + 1] == base + [step];
      assert base + [step] <= steps;
    }
    if base + [step] <= steps {
      assert (base + [step])[|base|] == step;
      assert base == (base + [step])[..|base|] == steps[..|base|];
    }
  }

  /** The walk of a value visits the members of the value. */
  lemma {:induction false} ValueWalkIsAll(value: Schema, base: seq<Step>, steps: seq<Step>)
    ensures steps in ValueSteps(value, base) <==> base <= steps && HasMember(value, steps[|base|..])
    decreases value, 1
  {
    match value
    case Object(props) => NestedWalkIsAll(props, base, steps);
    case ArraySchema(element) =>
      ValueWalkIsAll(element, base + [Element], steps);
      Beyond(base, Element, steps);
    case Refined(inner) => ValueWalkIsAll(inner, base, steps);
    case Parts(_) =>
    case ValueSchema =>
  }

  lemma {:induction false} NestedWalkIsAll(props: seq<Prop>, base: seq<Step>, steps: seq<Step>)
    ensures steps in NestedSteps(props, base) <==>
      base <= steps && exists prop :: prop in props && prop.value.Some? && IsMember(prop, steps[|base|..])
    decreases props, 0
  {
    if props != [] {
      NestedWalkIsAll(props[1..], base, steps);
      assert props == [props[0]] + props[1..];
      if props[0].value.Some? { OneWalkIsAll(props[0], base, steps); }
    }
  }

  lemma {:induction false} OneWalkIsAll(prop: Prop, base: seq<Step>, steps: seq<Step>)
    requires prop.value.Some?
    ensures var here := base + [Field(prop.key)];
      steps == here || steps in ValueSteps(prop.value.value, here) <==> base <= steps && IsMember(prop, steps[|base|..])
    decreases prop, 2
  {
    var here := base + [Field(prop.key)];
    ValueWalkIsAll(prop.value.value, here, steps);
    Beyond(base, Field(prop.key), steps);
    if base <= steps && |steps| == |here| && steps[|base|] == Field(prop.key) { assert steps == here; }
    NoEmptyMember(prop.value.value);
  }

  /** A value is no member of itself. */
  lemma {:induction false} NoEmptyMember(value: Schema)
    ensures !HasMember(value, [])
  {
    match value
    case Object(_) =>
    case ArraySchema(_) =>
    case Refined(base) => NoEmptyMember(base);
    case Parts(_) =>
    case ValueSchema =>
  }

  lemma {:induction false} TopWalkIsAll(props: seq<Prop>, steps: seq<Step>)
    ensures steps in TopSteps(props) <==> exists prop :: prop in props && IsMember(prop, steps)
  {
    if props != [] {
      var here := [Field(props[0].key)];
      TopWalkIsAll(props[1..], steps);
      assert props == [props[0]] + props[1..];
      assert [] + here == here && steps[0..] == steps;
      if props[0].value.Some? { OneWalkIsAll(props[0], [], steps); }
      assert |steps| == 1 && steps[0] == Field(props[0].key) ==> steps == here;
      var below := if props[0].value.Some? then ValueSteps(props[0].value.value, here) else [];
      assert steps == here || steps in below <==> IsMember(props[0], steps);
      assert TopSteps(props) == [here] + below + TopSteps(props[1..]);
    }
  }

  /** The walk of a schema visits exactly the members that the schema validates. */
  lemma {:induction false} WalkIsAll(schema: Schema, steps: seq<Step>)
    ensures steps in SchemaSteps(schema) <==> Validates(schema, steps)
    decreases schema, 1
  {
    match schema
    case Object(props) => TopWalkIsAll(props, steps);
    case Parts(parts) => PartsWalkIsAll(parts, steps);
    case Refined(base) => WalkIsAll(base, steps);
    case ArraySchema(_) =>
    case ValueSchema =>
  }

  lemma {:induction false} PartsWalkIsAll(parts: seq<Schema>, steps: seq<Step>)
    ensures steps in PartSchemaSteps(parts) <==> exists part :: part in parts && Validates(part, steps)
    decreases parts, 0
  {
    if parts != [] {
      WalkIsAll(parts[0], steps);
      PartsWalkIsAll(parts[1..], steps);
      assert parts == [parts[0]] + parts[1..];
    }
  }

  /** The key paths of a schema are exactly the prints of the members that it validates. */
  lemma KeysAreAll(schema: Schema, key: string)
    ensures key in SchemaKeys(schema) <==> exists steps :: Validates(schema, steps) && key == Print(steps)
  {
    SchemaPrints(schema);
    var keys, walked := SchemaKeys(schema), SchemaSteps(schema);
    if key in keys {
      var i :| 0 <= i < |keys| && keys[i] == key;
      assert IsPrint(keys[i], walked[i]);
      WalkIsAll(schema, walked[i]);
    }
    forall steps | Validates(schema, steps) && key == Print(steps) ensures key in keys {
      WalkIsAll(schema, steps);
      var i :| 0 <= i < |walked| && walked[i] == steps;
      assert IsPrint(keys[i], walked[i]);
    }
  }
}
