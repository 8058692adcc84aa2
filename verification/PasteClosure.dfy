/** The worklist of scripts/gen-config-catalog.ts that pastes a config type together with every
    package-local declaration it mentions, and refuses names with two meanings. */
module PasteClosure {
  import opened Collections
  import opened TypeGraph

  /** What a name of a file means; `Endless` where resolving it does not return. */
  datatype Meaning = Local(decl: DeclId) | Imported(imported: string, specifier: string) | Nothing | Endless

  /** A name to resolve from a file. */
  datatype Job = Job(name: string, from: FileId)

  /** The type names of a package: what a name means in a file, and which names a declaration
      mentions besides the global ones. */
  datatype Names = Names(meaning: Job -> Meaning, mentioned: DeclId -> seq<string>)

  // ---------- The closure, without a worklist ----------

  /** `to` is a name in the declaration that `from` means. */
  ghost predicate Mentions(ns: Names, from: Job, to: Job) {
    ns.meaning(from).Local? &&
    to.from == ns.meaning(from).decl.file && to.name in ns.mentioned(ns.meaning(from).decl)
  }

  ghost predicate Chain(ns: Names, root: Job, path: seq<Job>, j: Job) {
    path != [] && path[0] == root && path[|path| - 1] == j &&
    forall i :: 0 <= i < |path| - 1 ==> Mentions(ns, path[i], path[i + 1])
  }

  /** The name is met when everything the config type mentions is followed. */
  ghost predicate Met(ns: Names, root: Job, j: Job) {
    exists path: seq<Job> :: Chain(ns, root, path, j)
  }

  /** Some file in which the name is met gives it this meaning. */
  ghost predicate MetAs(ns: Names, root: Job, name: string, meaning: Meaning) {
    exists f: FileId :: Met(ns, root, Job(name, f)) && ns.meaning(Job(name, f)) == meaning
  }

  /** No name is met with two meanings. */
  ghost predicate OneMeaningEach(ns: Names, root: Job) {
    forall j, k :: Met(ns, root, j) && Met(ns, root, k) && j.name == k.name ==> ns.meaning(j) == ns.meaning(k)
  }

  /** Every name that is met means something, the config type is local, and no name is met with
      two meanings. */
  ghost predicate Unambiguous(ns: Names, root: Job) {
    && (forall j :: Met(ns, root, j) ==> ns.meaning(j).Local? || ns.meaning(j).Imported?)
    && (forall j :: Met(ns, root, j) && j.name == root.name ==> ns.meaning(j).Local?)
    && OneMeaningEach(ns, root)
  }

  lemma RootIsMet(ns: Names, root: Job)
    ensures Met(ns, root, root)
  {
    assert Chain(ns, root, [root], root);
  }

  lemma MentionedIsMet(ns: Names, root: Job, j: Job, k: Job)
    requires Met(ns, root, j) && Mentions(ns, j, k)
    ensures Met(ns, root, k)
  {
    var path: seq<Job> :| Chain(ns, root, path, j);
    assert Chain(ns, root, path + [k], k);
  }

  // ---------- The fence under construction ----------

  datatype Violation =
    | Unresolved(job: Job)
    | ImportedConfigType(job: Job)
    | TwoMeanings(job: Job, other: Meaning)

  /** Pasted declarations and imports by bare name. */
  datatype Fence = Fence(pasted: map<string, DeclId>, refs: map<string, Meaning>, pastes: seq<DeclId>,
    violations: seq<Violation>)

  const EMPTY: Fence := Fence(map[], map[], [], [])

  /** The fence renders this name with exactly this meaning, as one declaration or one import. */
  ghost predicate RenderedAs(s: Fence, name: string, meaning: Meaning) {
    match meaning
    case Local(d) => name in s.pasted && s.pasted[name] == d && name !in s.refs
    case Imported(_, _) => name in s.refs && s.refs[name] == meaning && name !in s.pasted
    case _ => false
  }

  ghost predicate Rendered(ns: Names, s: Fence, j: Job) {
    RenderedAs(s, j.name, ns.meaning(j))
  }

  /** What one turn of the loop does to the fence, once the name is resolved. */
  function Absorb(rootName: string, s: Fence, j: Job, meaning: Meaning): Fence
    requires !meaning.Endless?
  {
    match meaning
    case Nothing => s.(violations := s.violations + [Unresolved(j)])
    case Imported(_, _) =>
      if j.name == rootName then s.(violations := s.violations + [ImportedConfigType(j)])
      else if j.name in s.pasted then s.(violations := s.violations + [TwoMeanings(j, Local(s.pasted[j.name]))])
      else if j.name in s.refs && s.refs[j.name] != meaning then
        s.(violations := s.violations + [TwoMeanings(j, s.refs[j.name])])
      else s.(refs := s.refs[j.name := meaning])
    case Local(d) =>
      if j.name in s.pasted then
        if s.pasted[j.name] == d then s else s.(violations := s.violations + [TwoMeanings(j, Local(s.pasted[j.name]))])
      else if j.name in s.refs then s.(violations := s.violations + [TwoMeanings(j, s.refs[j.name])])
      else s.(pasted := s.pasted[j.name := d], pastes := s.pastes + [d])
  }

  predicate Pastes(s: Fence, j: Job, meaning: Meaning) {
    meaning.Local? && j.name !in s.pasted && j.name !in s.refs
  }

  /** A turn pastes at most its own name, and takes no violation back. */
  lemma AbsorbAdds(rootName: string, s: Fence, j: Job, meaning: Meaning)
    requires !meaning.Endless?
    ensures Absorb(rootName, s, j, meaning).pasted == if Pastes(s, j, meaning) then s.pasted[j.name := meaning.decl]
      else s.pasted
    ensures Absorb(rootName, s, j, meaning).violations == [] ==> s.violations == []
  {
  }

  function JobsFor(names: seq<string>, f: FileId): (jobs: seq<Job>)
    ensures forall j :: j in jobs <==> j.from == f && j.name in names
  {
    if names == [] then [] else [Job(names[0], f)] + JobsFor(names[1..], f)
  }

  /** The jobs a turn appends. */
  function Appended(ns: Names, s: Fence, j: Job, meaning: Meaning): seq<Job> {
    if Pastes(s, j, meaning) then JobsFor(ns.mentioned(meaning.decl), meaning.decl.file) else []
  }

  // ---------- What the loop maintains ----------

  /** The violation reports something that is so. */
  ghost predicate Justified(ns: Names, root: Job, v: Violation) {
    && Met(ns, root, v.job)
    && match v
       case Unresolved(j) => ns.meaning(j).Nothing?
       case ImportedConfigType(j) => j.name == root.name && ns.meaning(j).Imported?
       case TwoMeanings(j, other) => ns.meaning(j) != other && MetAs(ns, root, j.name, other)
  }

  /** The three relations, as values: the loop needs of them no more than the rules below. */
  datatype Truth = Truth(met: Job -> bool, metAs: (string, Meaning) -> bool, justified: Violation -> bool)

  ghost function TruthOf(ns: Names, root: Job): Truth {
    Truth(j => Met(ns, root, j), (n, m) => MetAs(ns, root, n, m), v => Justified(ns, root, v))
  }

  ghost predicate Rules(ns: Names, rootName: string, t: Truth) {
    && (forall j :: t.met(j) ==> t.metAs(j.name, ns.meaning(j)))
    && (forall j, k :: t.met(j) && Mentions(ns, j, k) ==> t.met(k))
    && (forall j :: t.met(j) && ns.meaning(j).Nothing? ==> t.justified(Unresolved(j)))
    && (forall j :: t.met(j) && j.name == rootName && ns.meaning(j).Imported? ==> t.justified(ImportedConfigType(j)))
    && (forall j, other :: t.met(j) && t.metAs(j.name, other) && other != ns.meaning(j) ==>
      t.justified(TwoMeanings(j, other)))
  }

  lemma RulesHold(ns: Names, root: Job)
    ensures Rules(ns, root.name, TruthOf(ns, root))
  {
    var t := TruthOf(ns, root);
    forall j, k | t.met(j) && Mentions(ns, j, k) ensures t.met(k) { MentionedIsMet(ns, root, j, k); }
    forall j | t.met(j) ensures t.metAs(j.name, ns.meaning(j)) { assert j == Job(j.name, j.from); }
  }

  /** Every entry of the fence comes from a name that is met, and every violation is justified. */
  ghost predicate Grounded(s: Fence, t: Truth) {
    && (forall n :: n in s.pasted ==> t.metAs(n, Local(s.pasted[n])))
    && (forall n :: n in s.refs ==> s.refs[n].Imported? && t.metAs(n, s.refs[n]))
    && (forall n :: n in s.pasted ==> n !in s.refs)
    && (forall v :: v in s.violations ==> t.justified(v))
    && |s.pastes| == |s.pasted| && (forall n :: n in s.pasted ==> s.pasted[n] in s.pastes)
    && (forall d :: d in s.pastes ==> IsPasted(s, d))
  }

  ghost predicate IsPasted(s: Fence, d: DeclId) {
    exists n :: n in s.pasted && s.pasted[n] == d
  }

  lemma PastesStep(rootName: string, s: Fence, j: Job, meaning: Meaning)
    requires !meaning.Endless? && forall d :: d in s.pastes ==> IsPasted(s, d)
    ensures forall d :: d in Absorb(rootName, s, j, meaning).pastes ==> IsPasted(Absorb(rootName, s, j, meaning), d)
  {
    var s' := Absorb(rootName, s, j, meaning);
    forall d | d in s'.pastes ensures IsPasted(s', d) {
      if d in s.pastes {
        var n :| n in s.pasted && s.pasted[n] == d;
        assert n in s'.pasted && s'.pasted[n] == d;
      } else {
        assert s'.pasted[j.name] == d;
      }
    }
  }

  lemma EntriesStep(ns: Names, rootName: string, s: Fence, j: Job, t: Truth)
    requires Grounded(s, t) && t.metAs(j.name, ns.meaning(j)) && !ns.meaning(j).Endless?
    ensures var s' := Absorb(rootName, s, j, ns.meaning(j));
      && (forall n :: n in s'.pasted ==> t.metAs(n, Local(s'.pasted[n])))
      && (forall n :: n in s'.refs ==> s'.refs[n].Imported? && t.metAs(n, s'.refs[n]))
      && (forall n :: n in s'.pasted ==> n !in s'.refs)
  {
  }

  lemma ViolationsStep(ns: Names, rootName: string, s: Fence, j: Job, t: Truth)
    requires Rules(ns, rootName, t) && Grounded(s, t) && t.met(j) && !ns.meaning(j).Endless?
    ensures forall v :: v in Absorb(rootName, s, j, ns.meaning(j)).violations ==> t.justified(v)
  {
    assert j.name in s.pasted ==> t.metAs(j.name, Local(s.pasted[j.name]));
  }

  lemma PastesCount(rootName: string, s: Fence, j: Job, meaning: Meaning)
    requires !meaning.Endless? && |s.pastes| == |s.pasted|
    requires forall n :: n in s.pasted ==> s.pasted[n] in s.pastes
    ensures var s' := Absorb(rootName, s, j, meaning);
      |s'.pastes| == |s'.pasted| && forall n :: n in s'.pasted ==> s'.pasted[n] in s'.pastes
  {
  }

  lemma GroundedStep(ns: Names, rootName: string, s: Fence, j: Job, t: Truth)
    requires Rules(ns, rootName, t) && Grounded(s, t) && t.met(j) && !ns.meaning(j).Endless?
    ensures Grounded(Absorb(rootName, s, j, ns.meaning(j)), t)
  {
    assert t.metAs(j.name, ns.meaning(j));
    EntriesStep(ns, rootName, s, j, t);
    ViolationsStep(ns, rootName, s, j, t);
    PastesCount(rootName, s, j, ns.meaning(j));
    PastesStep(rootName, s, j, ns.meaning(j));
  }

  /** The name at this place of the closure is rendered or still on the queue. */
  ghost predicate Accounted(ns: Names, s: Fence, queue: seq<Job>, j: Job) {
    Rendered(ns, s, j) || j in queue
  }

  ghost predicate Covered(ns: Names, root: Job, s: Fence, queue: seq<Job>) {
    && Accounted(ns, s, queue, root)
    && forall n, m :: n in s.pasted && m in ns.mentioned(s.pasted[n]) ==>
      Accounted(ns, s, queue, Job(m, s.pasted[n].file))
  }

  lemma CoveredStep(ns: Names, root: Job, s: Fence, j: Job, rest: seq<Job>, s': Fence)
    requires (forall n :: n in s.pasted ==> n !in s.refs) && Covered(ns, root, s, [j] + rest)
    requires !ns.meaning(j).Endless? && s' == Absorb(root.name, s, j, ns.meaning(j)) && s'.violations == []
    ensures Covered(ns, root, s', rest + Appended(ns, s, j, ns.meaning(j)))
  {
    var queue' := rest + Appended(ns, s, j, ns.meaning(j));
    forall k | Accounted(ns, s, [j] + rest, k) ensures Accounted(ns, s', queue', k) {}
    forall n, m | n in s'.pasted && m in ns.mentioned(s'.pasted[n])
      ensures Accounted(ns, s', queue', Job(m, s'.pasted[n].file))
    {
      if n in s.pasted {
        assert Accounted(ns, s, [j] + rest, Job(m, s.pasted[n].file));
      } else {
        assert Job(m, s'.pasted[n].file) in Appended(ns, s, j, ns.meaning(j));
      }
    }
  }

  /** With nothing left on the queue and no violation, everything that is met is rendered. */
  lemma {:induction false} ChainIsRendered(ns: Names, root: Job, s: Fence, path: seq<Job>, j: Job)
    requires Covered(ns, root, s, []) && Chain(ns, root, path, j)
    ensures Rendered(ns, s, j)
    decreases |path|
  {
    var n := |path| - 1;
    if n > 0 {
      var before := path[n - 1];
      assert Chain(ns, root, path[..n], before);
      ChainIsRendered(ns, root, s, path[..n], before);
      assert Mentions(ns, path[n - 1], path[n]);
      assert Accounted(ns, s, [], Job(j.name, s.pasted[before.name].file));
      assert j == Job(j.name, j.from);
    } else {
      assert Accounted(ns, s, [], root);
    }
  }

  lemma CoveredIsUnambiguous(ns: Names, root: Job, s: Fence)
    requires Covered(ns, root, s, []) && root.name in s.pasted && forall n :: n in s.pasted ==> n !in s.refs
    ensures Unambiguous(ns, root)
    ensures forall j :: Met(ns, root, j) ==> Rendered(ns, s, j)
  {
    forall j | Met(ns, root, j) ensures Rendered(ns, s, j) {
      var path: seq<Job> :| Chain(ns, root, path, j);
      ChainIsRendered(ns, root, s, path, j);
    }
  }

  ghost predicate AllMet(queue: seq<Job>, t: Truth) {
    forall j :: j in queue ==> t.met(j)
  }

  /** The config type is the first to be pasted, or nothing was done yet. */
  ghost predicate RootComes(root: Job, s: Fence, queue: seq<Job>) {
    (s == EMPTY && queue == [root]) || RootIsFirst(root, s)
  }

  ghost predicate RootIsFirst(root: Job, s: Fence) {
    root.name in s.pasted && s.pastes != [] && s.pastes[0] == s.pasted[root.name]
  }

  /** The loop invariant. */
  ghost predicate Going(ns: Names, root: Job, s: Fence, queue: seq<Job>, t: Truth) {
    && Grounded(s, t) && AllMet(queue, t)
    && (s.violations == [] ==> Covered(ns, root, s, queue) && RootComes(root, s, queue))
  }

  lemma AppendedAreMet(ns: Names, rootName: string, s: Fence, j: Job, rest: seq<Job>, t: Truth)
    requires Rules(ns, rootName, t) && AllMet([j] + rest, t)
    ensures t.met(j) && AllMet(rest + Appended(ns, s, j, ns.meaning(j)), t)
  {
    assert j in [j] + rest && forall k :: k in rest ==> k in [j] + rest;
    forall k | k in Appended(ns, s, j, ns.meaning(j)) ensures t.met(k) {
      assert Mentions(ns, j, k);
    }
  }

  lemma RootStillComes(root: Job, s: Fence, j: Job, rest: seq<Job>, meaning: Meaning, more: seq<Job>)
    requires !meaning.Endless? && RootComes(root, s, [j] + rest) && Absorb(root.name, s, j, meaning).violations == []
    ensures RootComes(root, Absorb(root.name, s, j, meaning), rest + more)
  {
    if s == EMPTY && [j] + rest == [root] { assert ([j] + rest)[0] == root; }
  }

  lemma Turn(ns: Names, root: Job, s: Fence, j: Job, rest: seq<Job>, s': Fence, t: Truth)
    requires Rules(ns, root.name, t) && Going(ns, root, s, [j] + rest, t) && !ns.meaning(j).Endless?
    requires s' == Absorb(root.name, s, j, ns.meaning(j))
    ensures Going(ns, root, s', rest + Appended(ns, s, j, ns.meaning(j)), t)
  {
    AppendedAreMet(ns, root.name, s, j, rest, t);
    GroundedStep(ns, root.name, s, j, t);
    AbsorbAdds(root.name, s, j, ns.meaning(j));
    if s'.violations == [] {
      NotBoth(s, t);
      CoveredStep(ns, root, s, j, rest, s');
      RootStillComes(root, s, j, rest, ns.meaning(j), Appended(ns, s, j, ns.meaning(j)));
    }
  }

  lemma NotBoth(s: Fence, t: Truth)
    requires Grounded(s, t)
    ensures forall n :: n in s.pasted ==> n !in s.refs
  {
  }

  /** The fence and the closure agree: it is refused exactly when the closure is ambiguous; otherwise
      it renders every name that is met, as the file that mentions it means it, and nothing else. */
  ghost predicate Faithful(ns: Names, root: Job, s: Fence) {
    && (s.violations == [] <==> Unambiguous(ns, root))
    && (s.violations == [] ==> RootIsFirst(root, s) && forall j :: Met(ns, root, j) ==> Rendered(ns, s, j))
    && (forall n :: n in s.pasted ==> MetAs(ns, root, n, Local(s.pasted[n])) && s.pasted[n] in s.pastes)
    && (forall d :: d in s.pastes ==> IsPasted(s, d))
    && (forall n :: n in s.refs ==> MetAs(ns, root, n, s.refs[n]))
    && |s.pastes| == |s.pasted|
  }

  lemma DoneIsFaithful(ns: Names, root: Job, s: Fence)
    requires Going(ns, root, s, [], TruthOf(ns, root))
    ensures Faithful(ns, root, s)
  {
    forall n | n in s.pasted ensures MetAs(ns, root, n, Local(s.pasted[n])) {
      assert TruthOf(ns, root).metAs(n, Local(s.pasted[n]));
    }
    if s.violations == [] {
      CoveredIsUnambiguous(ns, root, s);
    } else {
      assert TruthOf(ns, root).justified(s.violations[0]);
    }
  }

  lemma OneMoreKey(m: map<string, DeclId>, name: string, d: DeclId)
    ensures m[name := d].Keys == m.Keys + {name}
  {
  }

  /** A turn pastes a new name or shortens the queue. */
  lemma TurnProgress(declared: set<string>, rootName: string, s: Fence, j: Job, meaning: Meaning)
    requires !meaning.Endless? && (meaning.Local? ==> j.name in declared)
    ensures var s' := Absorb(rootName, s, j, meaning);
      if Pastes(s, j, meaning) then |declared - s'.pasted.Keys| < |declared - s.pasted.Keys| else s'.pasted == s.pasted
  {
    AbsorbAdds(rootName, s, j, meaning);
    if Pastes(s, j, meaning) {
      Shrinks(declared, s.pasted.Keys, j.name);
      OneMoreKey(s.pasted, j.name, meaning.decl);
    }
  }

  /** One name off the queue. */
  method TakeTurn(ns: Names, rootName: string, before: Fence, j: Job) returns (s: Fence, jobs: seq<Job>)
    requires !ns.meaning(j).Endless?
    ensures s == Absorb(rootName, before, j, ns.meaning(j)) && jobs == Appended(ns, before, j, ns.meaning(j))
  {
    s, jobs := before, [];
    var meaning := ns.meaning(j);
    match meaning {
      case Nothing => s := s.(violations := s.violations + [Unresolved(j)]);
      case Imported(_, _) =>
        if j.name == rootName {
          s := s.(violations := s.violations + [ImportedConfigType(j)]);
        } else if j.name in s.pasted {
          s := s.(violations := s.violations + [TwoMeanings(j, Local(s.pasted[j.name]))]);
        } else if j.name in s.refs && s.refs[j.name] != meaning {
          s := s.(violations := s.violations + [TwoMeanings(j, s.refs[j.name])]);
        } else {
          s := s.(refs := s.refs[j.name := meaning]);
        }
      case Local(d) =>
        if j.name in s.pasted {
          if s.pasted[j.name] != d { s := s.(violations := s.violations + [TwoMeanings(j, Local(s.pasted[j.name]))]); }
        } else if j.name in s.refs {
          s := s.(violations := s.violations + [TwoMeanings(j, s.refs[j.name])]);
        } else {
          s := s.(pasted := s.pasted[j.name := d], pastes := s.pastes + [d]);
          jobs := JobsFor(ns.mentioned(d), d.file);
        }
    }
  }

  // ---------- Does the loop end? ----------

  /** The loop has the name on its queue at some time: it is the config type, or a name in a pasted
      declaration. */
  ghost predicate Processed(ns: Names, root: Job, s: Fence, j: Job) {
    j == root || exists n :: n in s.pasted && j.from == s.pasted[n].file && j.name in ns.mentioned(s.pasted[n])
  }

  ghost predicate NoneEndless(ns: Names, root: Job, s: Fence) {
    forall j :: Processed(ns, root, s, j) ==> !ns.meaning(j).Endless?
  }

  ghost predicate HasClash(s: Fence) {
    exists v :: v in s.violations && v.TwoMeanings?
  }

  /** A declaration that the name means is pasted, unless some name was found to have two meanings. */
  ghost predicate Settled(ns: Names, s: Fence, j: Job) {
    && !ns.meaning(j).Endless?
    && (ns.meaning(j).Local? ==> HasClash(s) || (j.name in s.pasted && s.pasted[j.name] == ns.meaning(j).decl))
  }

  /** What is processed is on the queue or is settled. */
  ghost predicate Resolved(ns: Names, root: Job, s: Fence, queue: seq<Job>) {
    && (forall j :: j in queue ==> Processed(ns, root, s, j))
    && (forall j :: Processed(ns, root, s, j) ==> j in queue || Settled(ns, s, j))
  }

  lemma TurnSettles(ns: Names, rootName: string, s: Fence, j: Job)
    requires !ns.meaning(j).Endless?
    ensures Settled(ns, Absorb(rootName, s, j, ns.meaning(j)), j)
  {
    var s' := Absorb(rootName, s, j, ns.meaning(j));
    if |s'.violations| > |s.violations| { assert s'.violations[|s.violations|] in s'.violations; }
  }

  lemma StaysSettled(ns: Names, rootName: string, s: Fence, j: Job, k: Job)
    requires !ns.meaning(j).Endless? && Settled(ns, s, k)
    ensures Settled(ns, Absorb(rootName, s, j, ns.meaning(j)), k)
  {
    var s' := Absorb(rootName, s, j, ns.meaning(j));
    if HasClash(s) {
      var v :| v in s.violations && v.TwoMeanings?;
      assert v in s'.violations;
    }
  }

  lemma StaysProcessed(ns: Names, root: Job, s: Fence, j: Job, k: Job)
    requires !ns.meaning(j).Endless? && Processed(ns, root, s, k)
    ensures Processed(ns, root, Absorb(root.name, s, j, ns.meaning(j)), k)
  {
    if k != root {
      var n :| n in s.pasted && k.from == s.pasted[n].file && k.name in ns.mentioned(s.pasted[n]);
      assert n in Absorb(root.name, s, j, ns.meaning(j)).pasted;
    }
  }

  /** A turn processes no more than it appends. */
  lemma NewlyProcessed(ns: Names, root: Job, s: Fence, j: Job, k: Job)
    requires !ns.meaning(j).Endless? && Processed(ns, root, Absorb(root.name, s, j, ns.meaning(j)), k)
    ensures Processed(ns, root, s, k) || k in Appended(ns, s, j, ns.meaning(j))
  {
    var s' := Absorb(root.name, s, j, ns.meaning(j));
    if k != root {
      var n :| n in s'.pasted && k.from == s'.pasted[n].file && k.name in ns.mentioned(s'.pasted[n]);
    }
  }

  lemma ResolvedStep(ns: Names, root: Job, s: Fence, j: Job, rest: seq<Job>, s': Fence)
    requires Resolved(ns, root, s, [j] + rest) && !ns.meaning(j).Endless?
    requires s' == Absorb(root.name, s, j, ns.meaning(j))
    ensures Resolved(ns, root, s', rest + Appended(ns, s, j, ns.meaning(j)))
  {
    var added := Appended(ns, s, j, ns.meaning(j));
    forall k | k in rest ensures Processed(ns, root, s', k) {
      assert k in [j] + rest;
      StaysProcessed(ns, root, s, j, k);
    }
    forall k | k in added ensures Processed(ns, root, s', k) {
      assert j.name in s'.pasted && s'.pasted[j.name] == ns.meaning(j).decl;
    }
    forall k | Processed(ns, root, s', k) && k !in rest + added ensures Settled(ns, s', k) {
      NewlyProcessed(ns, root, s, j, k);
      if k == j {
        TurnSettles(ns, root.name, s, j);
      } else {
        assert k in [j] + rest ==> k in rest;
        StaysSettled(ns, root.name, s, j, k);
      }
    }
  }

  /** Everything processed is met. */
  lemma ProcessedIsMet(ns: Names, root: Job, s: Fence, j: Job)
    requires Processed(ns, root, s, j) && forall n :: n in s.pasted ==> MetAs(ns, root, n, Local(s.pasted[n]))
    ensures Met(ns, root, j)
  {
    RootIsMet(ns, root);
    if j != root {
      var n :| n in s.pasted && j.from == s.pasted[n].file && j.name in ns.mentioned(s.pasted[n]);
      var f :| Met(ns, root, Job(n, f)) && ns.meaning(Job(n, f)) == Local(s.pasted[n]);
      MentionedIsMet(ns, root, Job(n, f), j);
    }
  }

  /** What the loop maintains. */
  ghost predicate Loop(ns: Names, root: Job, s: Fence, queue: seq<Job>, t: Truth) {
    Going(ns, root, s, queue, t) && Resolved(ns, root, s, queue)
  }

  lemma TurnKeeps(ns: Names, root: Job, s: Fence, j: Job, rest: seq<Job>, t: Truth)
    requires Rules(ns, root.name, t) && Loop(ns, root, s, [j] + rest, t) && !ns.meaning(j).Endless?
    ensures var s' := Absorb(root.name, s, j, ns.meaning(j));
      Loop(ns, root, s', rest + Appended(ns, s, j, ns.meaning(j)), t)
  {
    var s' := Absorb(root.name, s, j, ns.meaning(j));
    Turn(ns, root, s, j, rest, s', t);
    ResolvedStep(ns, root, s, j, rest, s');
  }

  lemma LoopBegins(ns: Names, root: Job, t: Truth)
    requires t.met(root)
    ensures Loop(ns, root, EMPTY, [root], t)
  {
  }

  /** Every turn keeps `loop`. */
  ghost predicate Kept(ns: Names, rootName: string, loop: (Fence, seq<Job>) -> bool) {
    forall s, j, rest :: loop(s, [j] + rest) && !ns.meaning(j).Endless? ==>
      loop(Absorb(rootName, s, j, ns.meaning(j)), rest + Appended(ns, s, j, ns.meaning(j)))
  }

  lemma OneTurn(ns: Names, rootName: string, s: Fence, j: Job, rest: seq<Job>, declared: set<string>,
                loop: (Fence, seq<Job>) -> bool)
    requires Kept(ns, rootName, loop) && loop(s, [j] + rest) && !ns.meaning(j).Endless?
    requires ns.meaning(j).Local? ==> j.name in declared
    ensures var s', more := Absorb(rootName, s, j, ns.meaning(j)), Appended(ns, s, j, ns.meaning(j));
      && loop(s', rest + more)
      && (|declared - s'.pasted.Keys| < |declared - s.pasted.Keys| || (s'.pasted == s.pasted && more == []))
  {
    TurnProgress(declared, rootName, s, j, ns.meaning(j));
  }

  /** The worklist loop.  It ends unless it comes to a name whose resolution does not return; `s` is then
      the fence up to there.  Whatever its turns keep holds in the end. */
  method WorkOff(ns: Names, root: Job, ghost declared: set<string>, ghost loop: (Fence, seq<Job>) -> bool)
    returns (s: Fence, ended: bool)
    requires forall j :: ns.meaning(j).Local? ==> j.name in declared
    requires loop(EMPTY, [root]) && Kept(ns, root.name, loop)
    ensures ended ==> loop(s, [])
    ensures !ended ==> exists queue :: queue != [] && loop(s, queue) && ns.meaning(queue[0]).Endless?
  {
    var queue := [root];
    s := EMPTY;
    while queue != []
      invariant loop(s, queue)
      decreases |declared - s.pasted.Keys|, |queue|
    {
      var j, rest := queue[0], queue[1..];
      assert queue == [j] + rest;
      if ns.meaning(j).Endless? {
        return s, false;
      }
      OneTurn(ns, root.name, s, j, rest, declared, loop);
      var jobs;
      s, jobs := TakeTurn(ns, root.name, s, j);
      queue := rest + jobs;
    }
    return s, true;
  }

  ghost predicate NoneMetEndless(ns: Names, root: Job) {
    forall j :: Met(ns, root, j) ==> !ns.meaning(j).Endless?
  }

  /** When the queue is empty and no name had two meanings, all that is met has been processed. */
  lemma {:induction false} ChainIsProcessed(ns: Names, root: Job, s: Fence, path: seq<Job>, j: Job)
    requires Resolved(ns, root, s, []) && !HasClash(s) && Chain(ns, root, path, j)
    ensures Processed(ns, root, s, j)
    decreases |path|
  {
    var n := |path| - 1;
    if n > 0 {
      var before := path[n - 1];
      assert Chain(ns, root, path[..n], before);
      ChainIsProcessed(ns, root, s, path[..n], before);
      assert Mentions(ns, path[n - 1], path[n]);
      assert Settled(ns, s, before);
      assert before.name in s.pasted && s.pasted[before.name] == ns.meaning(before).decl;
    }
  }

  lemma EndedMeetsNone(ns: Names, root: Job, s: Fence)
    requires OneMeaningEach(ns, root) && Grounded(s, TruthOf(ns, root)) && Resolved(ns, root, s, [])
    ensures NoneMetEndless(ns, root)
  {
    forall v | v in s.violations ensures !v.TwoMeanings? {
      assert TruthOf(ns, root).justified(v) && Justified(ns, root, v);
    }
    forall j | Met(ns, root, j) ensures !ns.meaning(j).Endless? {
      var path: seq<Job> :| Chain(ns, root, path, j);
      ChainIsProcessed(ns, root, s, path, j);
      assert Settled(ns, s, j);
    }
  }

  lemma EndlessIsMet(ns: Names, root: Job, s: Fence)
    requires Grounded(s, TruthOf(ns, root)) && !NoneEndless(ns, root, s)
    ensures !NoneMetEndless(ns, root)
  {
    var j :| Processed(ns, root, s, j) && ns.meaning(j).Endless?;
    forall n | n in s.pasted ensures MetAs(ns, root, n, Local(s.pasted[n])) {
      assert TruthOf(ns, root).metAs(n, Local(s.pasted[n]));
    }
    ProcessedIsMet(ns, root, s, j);
  }

  lemma LoopIsKept(ns: Names, root: Job, loop: (Fence, seq<Job>) -> bool)
    requires forall s, queue :: loop(s, queue) <==> Loop(ns, root, s, queue, TruthOf(ns, root))
    ensures loop(EMPTY, [root]) && Kept(ns, root.name, loop)
  {
    var t := TruthOf(ns, root);
    RootIsMet(ns, root);
    RulesHold(ns, root);
    LoopBegins(ns, root, t);
    forall s, j, rest | loop(s, [j] + rest) && !ns.meaning(j).Endless?
      ensures loop(Absorb(root.name, s, j, ns.meaning(j)), rest + Appended(ns, s, j, ns.meaning(j)))
    {
      TurnKeeps(ns, root, s, j, rest, t);
    }
  }

  lemma EndedWell(ns: Names, root: Job, s: Fence)
    requires Loop(ns, root, s, [], TruthOf(ns, root))
    ensures NoneEndless(ns, root, s) && Faithful(ns, root, s)
    ensures OneMeaningEach(ns, root) ==> NoneMetEndless(ns, root)
  {
    DoneIsFaithful(ns, root, s);
    forall j | Processed(ns, root, s, j) ensures !ns.meaning(j).Endless? {
      assert Settled(ns, s, j);
    }
    if OneMeaningEach(ns, root) { EndedMeetsNone(ns, root, s); }
  }

  lemma StopsAtEndless(ns: Names, root: Job, s: Fence, queue: seq<Job>)
    requires Loop(ns, root, s, queue, TruthOf(ns, root)) && queue != [] && ns.meaning(queue[0]).Endless?
    ensures !NoneEndless(ns, root, s) && !NoneMetEndless(ns, root)
  {
    assert Processed(ns, root, s, queue[0]);
    EndlessIsMet(ns, root, s);
  }

  /** Paste the config type and everything it mentions.  The original ends exactly when no name that it
      processes is endless, always when no name that is met is, and only then when no name is met with two
      meanings.  `declared` holds the names that can be declared somewhere; it only bounds the number of
      turns. */
  method Paste(ns: Names, root: Job, ghost declared: set<string>) returns (s: Fence, ended: bool)
    requires forall j :: ns.meaning(j).Local? ==> j.name in declared
    ensures ended <==> NoneEndless(ns, root, s)
    ensures NoneMetEndless(ns, root) ==> ended
    ensures OneMeaningEach(ns, root) ==> (ended <==> NoneMetEndless(ns, root))
    ensures ended ==> Faithful(ns, root, s)
  {
    ghost var t := TruthOf(ns, root);
    ghost var loop := (s: Fence, queue: seq<Job>) => Loop(ns, root, s, queue, t);
    LoopIsKept(ns, root, loop);
    s, ended := WorkOff(ns, root, declared, loop);
    if ended {
      EndedWell(ns, root, s);
    } else {
      ghost var queue: seq<Job> :| queue != [] && loop(s, queue) && ns.meaning(queue[0]).Endless?;
      StopsAtEndless(ns, root, s, queue);
    }
  }
}
