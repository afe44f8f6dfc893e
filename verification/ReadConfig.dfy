/**
  readConfig and resolveSecrets (secretref.go) as a whole: from a decoded document to the tree that
  the configuration is read from. The decoder's answer, the cache's answer and the order in which
  the workers of the pool move are the environment's choice.
 */
module ReadConfig {
  import opened Wrappers
  import opened Grammar
  import opened Secrets
  import opened Document
  import opened Acceptance
  import opened Fields
  import Pool
  import Cache
  import Cancellation

  /** `resolver` says that one is configured, `unresolved` that references stay names, `merges` which
      trees Viper takes. */
  datatype Settings = Settings(seal: Seal, types: Types, targets: seq<Target>, unresolved: bool, resolver: bool,
                               merges: Tree -> bool)

  datatype Failure =
    | ParseFailed(why: Option<WalkError>)
    | SecretRef(refused: seq<SecretUse>)
    | NoResolver(use: SecretUse)
    | ResolveFailed(use: SecretUse, fault: Pool.Fault)
    | MergeFailed   // reported as a parse failure too

  datatype Result = Failed(failure: Failure) | Read(tree: Tree)

  /** `calls` are the names the resolver was called with. */
  datatype Reading = Reading(result: Result, calls: seq<string>)

  ghost function NamesOf(uses: seq<SecretUse>): seq<string> { seq(|uses|, i requires 0 <= i < |uses| => uses[i].name) }

  // ----- resolveSecrets -----

  datatype Resolution = Values(values: map<string, Secret>) | Unresolvable(failure: Failure)

  /** The values fit the names: a Secret of its own name for exactly these. */
  ghost predicate Fits(m: Settings, values: map<string, Secret>, names: set<string>) {
    if m.unresolved then values == map name | name in names :: Unresolved(name)
    else Pool.ExactlyResolved(m.seal, values, names)
  }

  ghost function ResolveSecrets(m: Settings, uses: seq<SecretUse>, steps: seq<Pool.Step>): (Resolution, seq<string>) {
    var first := Pool.First(uses);
    if first == [] then (Values(map[]), [])
    else if m.unresolved then (Values(map name | name in Names(first) :: Unresolved(name)), [])
    else if !m.resolver then (Unresolvable(NoResolver(first[0])), [])
    else
      var s := Pool.After(m.seal, NamesOf(first), steps);
      (if s.failure.Some? then Unresolvable(ResolveFailed(first[s.failure.value.worker], s.failure.value.fault))
       else Values(Pool.Values(s, |first|)),
       seq(|s.begun|, i requires 0 <= i < |s.begun| => s.names[s.begun[i]]))
  }

  /** The pool has been waited for. */
  ghost predicate Waited(m: Settings, uses: seq<SecretUse>, steps: seq<Pool.Step>) {
    Pool.Done(Pool.After(m.seal, NamesOf(Pool.First(uses)), steps))
  }

  lemma NamesOfIsNames(uses: seq<SecretUse>)
    ensures (set i | 0 <= i < |uses| :: NamesOf(uses)[i]) == Names(uses)
  {
    var these := set i | 0 <= i < |uses| :: NamesOf(uses)[i];
    forall u | u in uses ensures u.name in these {
      var i :| 0 <= i < |uses| && uses[i] == u;
      assert NamesOf(uses)[i] == u.name;
    }
  }

  lemma NoNamesIffNoUses(uses: seq<SecretUse>)
    ensures uses == [] <==> Names(uses) == {}
  {
    if uses != [] {
      assert uses[0].name in Names(uses);
    }
  }

  /** Resolution succeeds with values that fit the names of the uses, or fails: for want of a
      resolver, or with the fault of one worker. */
  lemma ResolutionFits(m: Settings, uses: seq<SecretUse>, steps: seq<Pool.Step>)
    requires Waited(m, uses, steps)
    ensures var (r, calls) := ResolveSecrets(m, uses, steps);
      && (r.Values? ==> Fits(m, r.values, Names(uses)))
      && (r.Unresolvable? ==> r.failure.NoResolver? || r.failure.ResolveFailed?)
      && (r.Unresolvable? && r.failure.NoResolver? <==> Names(uses) != {} && !m.unresolved && !m.resolver)
  {
    hide Pool.After, Pool.Values, Pool.Done, Pool.First, Pool.ExactlyResolved, Pool.Inv, Names;
    var first := Pool.First(uses);
    NoNamesIffNoUses(first);
    if first == [] {
      NothingFitsNothing(m);
    } else {
      NamesOfIsNames(first);
      Pool.PoolResult(m.seal, NamesOf(first), steps);
    }
  }

  lemma NothingFitsNothing(m: Settings)
    ensures Fits(m, map[], {})
  {
  }

  /** No name is asked for twice, and only names of the document are asked for. */
  lemma CallsAreDistinct(m: Settings, uses: seq<SecretUse>, steps: seq<Pool.Step>)
    ensures var calls := ResolveSecrets(m, uses, steps).1;
      && (forall a, b :: 0 <= a < b < |calls| ==> calls[a] != calls[b])
      && (forall name :: name in calls ==> name in Names(uses))
  {
    hide Pool.After, Pool.Values, Pool.Done, Pool.Count, Pool.LateBounded, Pool.OnceInv, Pool.SecretsInv;
    var first := Pool.First(uses);
    var s := Pool.After(m.seal, NamesOf(first), steps);
    Pool.PoolIsBounded(m.seal, NamesOf(first), steps);
    forall a | 0 <= a < |s.begun| ensures s.begun[a] < |first| && s.names[s.begun[a]] in Names(uses) {
      assert first[s.begun[a]] in first;
    }
  }

  /** The calls reported are those that begin in the run, in order; and if it resolves, one for every name. */
  lemma CallsAreThoseOfTheRun(m: Settings, uses: seq<SecretUse>, steps: seq<Pool.Step>)
    ensures var calls := ResolveSecrets(m, uses, steps).1;
      var names := NamesOf(Pool.First(uses));
      var begun := Cancellation.BegunIn(m.seal, names, steps);
      if uses == [] || m.unresolved || !m.resolver then calls == []
      else |calls| == |begun| && forall a :: 0 <= a < |calls| ==> begun[a] < |names| && calls[a] == names[begun[a]]
    ensures Waited(m, uses, steps) && ResolveSecrets(m, uses, steps).0.Values? && !m.unresolved ==>
      forall name :: name in Names(uses) ==> name in ResolveSecrets(m, uses, steps).1
  {
    hide Pool.After, Pool.Values, Pool.Done, Pool.First, Pool.LateBounded, Pool.OnceInv, Pool.SecretsInv;
    hide Cancellation.BegunIn;
    var first := Pool.First(uses);
    var (r, calls) := ResolveSecrets(m, uses, steps);
    NoNamesIffNoUses(first);
    NoNamesIffNoUses(uses);
    Cancellation.HistoryIsHonest(m.seal, NamesOf(first), steps);
    if Waited(m, uses, steps) && r.Values? && !m.unresolved {
      forall name | name in Names(uses) ensures name in calls {
        var u :| u in first && u.name == name;
        var i :| 0 <= i < |first| && first[i] == u;
        Cancellation.SuccessCallsForAll(m.seal, NamesOf(first), steps, i);
        var begun := Cancellation.BegunIn(m.seal, NamesOf(first), steps);
        var a :| 0 <= a < |begun| && begun[a] == i;
        assert calls[a] == NamesOf(first)[i] == name;
      }
    }
  }

  // ----- readConfig -----

  ghost function ReadConfig(m: Settings, decoded: Option<Tree>, cached: Option<map<string, Secret>>,
                            steps: seq<Pool.Step>): Reading
    requires decoded.Some? ==> WellKeyed(decoded.value)
  {
    if decoded.None? then Reading(Failed(ParseFailed(None)), [])
    else
      var doc := decoded.value;
      var found := Collect(doc, []);
      if found.error.Some? then Reading(Failed(ParseFailed(found.error)), [])
      else
        var bad := RefusedUses(m.types, m.targets, found.uses);
        if bad != [] then Reading(Failed(SecretRef(bad)), [])
        else if cached.Some? then Reading(Merge(m, FillTree(doc, cached.value)), [])
        else
          var (resolution, calls) := ResolveSecrets(m, found.uses, steps);
          Reading(match resolution
                  case Values(values) => Merge(m, FillTree(doc, values))
                  case Unresolvable(failure) => Failed(failure),
                  calls)
  }

  ghost function Merge(m: Settings, filled: Tree): Result {
    if m.merges(filled) then Read(filled) else Failed(MergeFailed)
  }

  ghost predicate Parses(decoded: Option<Tree>)
    requires decoded.Some? ==> WellKeyed(decoded.value)
  {
    decoded.Some? && Collect(decoded.value, []).error.None?
  }

  /** A document is acceptable when every reference in it lands on a Secret field, and on nothing
      else, of the registered roots. */
  ghost predicate AllOnSecrets(m: Settings, doc: Tree) {
    forall path, s :: LeadsTo(doc, path, Str(s)) && SecretRefName(s).Some? ==> Acceptable(m.types, m.targets, path)
  }

  lemma AcceptedIffAllOnSecrets(m: Settings, doc: Tree)
    requires WellKeyed(doc) && Collect(doc, []).error.None?
    ensures RefusedUses(m.types, m.targets, Collect(doc, []).uses) == [] <==> AllOnSecrets(m, doc)
  {
    hide Acceptable, Collect, LeadsTo, RefusedUses;
    var uses := Collect(doc, []).uses;
    NoneRefusedIffAllAcceptable(m.types, m.targets, uses);
    forall path, s | LeadsTo(doc, path, Str(s)) && SecretRefName(s).Some?
      ensures SecretUse(path, SecretRefName(s).value) in uses
    {
      EveryReferenceIsRecorded(doc, [], path, s);
      assert [] + path == path;
    }
    UsesAreGenuine(doc, []);
    forall u | u in uses ensures exists s :: SecretRefName(s).Some? && LeadsTo(doc, u.path, Str(s)) {
      assert Genuine(doc, [], u);
      assert u.path[0..] == u.path;
    }
  }

  /** Which inputs the cache and the pool can give: values that fit the document, or else a pool that
      has been waited for. */
  ghost predicate Answers(m: Settings, decoded: Option<Tree>, cached: Option<map<string, Secret>>,
                          steps: seq<Pool.Step>)
    requires decoded.Some? ==> WellKeyed(decoded.value)
  {
    Parses(decoded) ==>
      var uses := Collect(decoded.value, []).uses;
      if cached.Some? then Fits(m, cached.value, Names(uses)) else Waited(m, uses, steps)
  }

  /** The failures come in this order and no other, and nothing is resolved unless the document
      parses, every reference lands on a Secret field, and no cached values serve. */
  lemma FailuresInOrder(m: Settings, decoded: Option<Tree>, cached: Option<map<string, Secret>>, steps: seq<Pool.Step>)
    requires decoded.Some? ==> WellKeyed(decoded.value)
    requires Answers(m, decoded, cached, steps)
    ensures var r := ReadConfig(m, decoded, cached, steps);
      && (r.result.Failed? && r.result.failure.ParseFailed? <==> !Parses(decoded))
      && (r.result.Failed? && r.result.failure.SecretRef? <==> Parses(decoded) && !AllOnSecrets(m, decoded.value))
      && (r.result.Failed? && r.result.failure.MergeFailed? ==> Parses(decoded) && AllOnSecrets(m, decoded.value))
      && (r.calls != [] ==>
            Parses(decoded) && AllOnSecrets(m, decoded.value) && cached.None? && !m.unresolved && m.resolver)
  {
    hide AllOnSecrets, Collect, Fits, RefusedUses;
    if Parses(decoded) {
      AcceptedIffAllOnSecrets(m, decoded.value);
      if cached.None? {
        ResolutionFits(m, Collect(decoded.value, []).uses, steps);
      }
    }
  }

  // ----- When a document is read -----

  /** While it reads, every resolver call for a name is answered the same way. */
  ghost predicate Answering(uses: seq<SecretUse>, steps: seq<Pool.Step>, answers: string -> Pool.Answer) {
    forall n :: 0 <= n < |steps| ==> Pool.AnswersAs(NamesOf(Pool.First(uses)), answers, steps[n])
  }

  /** The caller's own context does not end before the last worker has passed its check. */
  ghost predicate ContextHolds(m: Settings, uses: seq<SecretUse>, steps: seq<Pool.Step>) {
    forall n :: 0 <= n < |steps| && steps[n].CallerDone? ==>
      Cancellation.AllChecked(Pool.After(m.seal, NamesOf(Pool.First(uses)), steps[..n]))
  }

  /** What resolving needs: nothing, or a resolver, a usable value for every name, and time. */
  ghost predicate Resolvable(m: Settings, uses: seq<SecretUse>, steps: seq<Pool.Step>, answers: string -> Pool.Answer) {
    || m.unresolved || Names(uses) == {}
    || (m.resolver && ContextHolds(m, uses, steps) && forall name :: name in Names(uses) ==> Pool.Usable(answers(name)))
  }

  /** The cached values, or else those that resolving gives. */
  ghost function ValuesUsed(m: Settings, uses: seq<SecretUse>, cached: Option<map<string, Secret>>,
                            steps: seq<Pool.Step>): map<string, Secret> {
    if cached.Some? then cached.value
    else match ResolveSecrets(m, uses, steps).0
      case Values(values) => values
      case Unresolvable(_) => map[]
  }

  lemma AllNamesUsable(uses: seq<SecretUse>, answers: string -> Pool.Answer)
    ensures (forall i :: 0 <= i < |uses| ==> Pool.Usable(answers(NamesOf(uses)[i]))) <==>
      forall name :: name in Names(uses) ==> Pool.Usable(answers(name))
  {
    hide Pool.Usable;
    NamesOfIsNames(uses);
    forall i | 0 <= i < |uses| ensures NamesOf(uses)[i] in Names(uses) {
      assert uses[i] in uses;
    }
  }

  lemma ResolvesIff(m: Settings, uses: seq<SecretUse>, steps: seq<Pool.Step>, answers: string -> Pool.Answer)
    requires Waited(m, uses, steps) && Answering(uses, steps, answers)
    ensures ResolveSecrets(m, uses, steps).0.Values? <==> Resolvable(m, uses, steps, answers)
  {
    hide Pool.After, Pool.Values, Pool.Done, Pool.First, Pool.AnswersAs, Pool.Usable, Pool.Inv, Names;
    hide Cancellation.AllChecked;
    var first := Pool.First(uses);
    NoNamesIffNoUses(first);
    if first != [] {
      AllNamesUsable(first, answers);
      Cancellation.PoolSucceedsIffWell(m.seal, NamesOf(first), steps, answers);
    }
  }

  /** A failed resolution blames the first use of a name: for want of a resolver the first use of all,
      and otherwise one whose answer the fault fits. */
  lemma FailureBlames(m: Settings, uses: seq<SecretUse>, steps: seq<Pool.Step>, answers: string -> Pool.Answer)
    requires Waited(m, uses, steps) && Answering(uses, steps, answers)
    requires ResolveSecrets(m, uses, steps).0.Unresolvable?
    ensures uses != []
    ensures var failure := ResolveSecrets(m, uses, steps).0.failure;
      && (failure.NoResolver? ==> failure.use == uses[0])
      && (failure.ResolveFailed? ==>
            && Pool.FaultFits(answers(failure.use.name), failure.fault)
            && exists i :: 0 <= i < |uses| && uses[i] == failure.use
                 && forall j :: 0 <= j < i ==> uses[j].name != failure.use.name)
  {
    var first := Pool.First(uses);
    if !m.resolver {
      FirstOfAll(uses);
    } else {
      var s := Pool.After(m.seal, NamesOf(first), steps);
      Pool.RunKeepsAnswers(m.seal, NamesOf(first), steps, answers);
      hide Pool.After, Pool.Next;
      Pool.FirstIsFirst(uses, first[s.failure.value.worker]);
    }
  }

  lemma {:induction false} FirstOfAll(uses: seq<SecretUse>)
    requires Pool.First(uses) != []
    ensures uses != [] && Pool.First(uses)[0] == uses[0]
  {
    var init := uses[..|uses| - 1];
    NoNamesIffNoUses(init);
    NoNamesIffNoUses(Pool.First(init));
    if init != [] {
      FirstOfAll(init);
    }
  }

  /** A document is read if and only if it decodes and parses, every reference in it lands on a
      Secret field, its names are cached, or need no resolving, or all have usable values, and Viper
      takes the filled tree. */
  lemma ReadSucceedsIff(m: Settings, decoded: Option<Tree>, cached: Option<map<string, Secret>>, steps: seq<Pool.Step>,
                        answers: string -> Pool.Answer)
    requires decoded.Some? ==> WellKeyed(decoded.value)
    requires Answers(m, decoded, cached, steps)
    requires Parses(decoded) && cached.None? ==> Answering(Collect(decoded.value, []).uses, steps, answers)
    ensures ReadConfig(m, decoded, cached, steps).result.Read? <==>
      && Parses(decoded) && AllOnSecrets(m, decoded.value)
      && (cached.Some? || Resolvable(m, Collect(decoded.value, []).uses, steps, answers))
      && m.merges(FillTree(decoded.value, ValuesUsed(m, Collect(decoded.value, []).uses, cached, steps)))
  {
    hide AllOnSecrets, Collect, Fits, RefusedUses, Answering, Resolvable, ResolveSecrets, Waited, FillTree;
    if Parses(decoded) {
      AcceptedIffAllOnSecrets(m, decoded.value);
      if cached.None? {
        ResolvesIff(m, Collect(decoded.value, []).uses, steps, answers);
      }
    }
  }

  /** What a reference to `name` may become. */
  ghost predicate StandsFor(m: Settings, name: string, secret: Secret) {
    if m.unresolved then secret == Unresolved(name) else Pool.Resolves(m.seal, name, Some(secret))
  }

  lemma FittingValuesStandForTheirNames(m: Settings, values: map<string, Secret>, names: set<string>)
    requires Fits(m, values, names)
    ensures values.Keys == names
    ensures forall name :: name in values ==> StandsFor(m, name, values[name]) && values[name].ref == name
  {
  }

  lemma ReadMeansFilled(m: Settings, decoded: Option<Tree>, cached: Option<map<string, Secret>>, steps: seq<Pool.Step>)
    returns (values: map<string, Secret>)
    requires decoded.Some? ==> WellKeyed(decoded.value)
    requires Answers(m, decoded, cached, steps) && ReadConfig(m, decoded, cached, steps).result.Read?
    ensures Parses(decoded) && RefusedUses(m.types, m.targets, Collect(decoded.value, []).uses) == []
    ensures Fits(m, values, Names(Collect(decoded.value, []).uses))
    ensures ReadConfig(m, decoded, cached, steps).result.tree == FillTree(decoded.value, values)
  {
    hide Collect, Fits, RefusedUses, FillTree;
    var uses := Collect(decoded.value, []).uses;
    if cached.None? {
      ResolutionFits(m, uses, steps);
    }
    values := if cached.Some? then cached.value else ResolveSecrets(m, uses, steps).0.values;
  }

  /** When readConfig succeeds, every reference has become the Secret of its own name, on a path
      that ends on a Secret field, and every other string the literal it stands for: no reference
      is left, and none is filled with the secret of another name or an empty stand-in. */
  lemma SuccessfulReadIsFilled(m: Settings, decoded: Option<Tree>, cached: Option<map<string, Secret>>,
                               steps: seq<Pool.Step>,
                               path: seq<PathSeg>, s: string)
    requires decoded.Some? ==> WellKeyed(decoded.value)
    requires Answers(m, decoded, cached, steps) && ReadConfig(m, decoded, cached, steps).result.Read?
    requires LeadsTo(decoded.value, path, Str(s))
    ensures var tree := ReadConfig(m, decoded, cached, steps).result.tree;
      if ReadLeaf(s).Reference? then
        Acceptable(m.types, m.targets, path)
        && exists secret :: StandsFor(m, ReadLeaf(s).name, secret) && LeadsTo(tree, path, Filled(secret))
      else LeadsTo(tree, path, Str(ReadLeaf(s).text))
  {
    hide Acceptable, Collect, RefusedUses, Fits, StandsFor, LeadsTo, FillTree, ReadConfig, Answers;
    var values := ReadMeansFilled(m, decoded, cached, steps);
    var doc := decoded.value;
    AcceptedIffAllOnSecrets(m, doc);
    FittingValuesStandForTheirNames(m, values, Names(Collect(doc, []).uses));
    FilledReferences(doc, values, path, s);
  }

  // ----- What a field that was read decodes to -----

  /** What mapstructure hands to the decode hook for a leaf. */
  function LeafData(leaf: Tree): Data {
    match leaf
    case Str(s) => Text(s)
    case Filled(secret) => Sealed(secret)
    case _ => NotText
  }

  /** A leaf decodes into a Secret field exactly when it is a Secret, which stays itself, or a string
      other than the redaction marker and references, which is sealed. */
  lemma DecodesIff(m: Settings, leaf: Tree, secret: Secret)
    ensures DecodeHook(m.seal, LeafData(leaf)) == Ok(secret) <==>
      || leaf == Filled(secret)
      || (leaf.Str? && leaf.text != "[REDACTED]" && SecretRefName(leaf.text).None?
          && secret == NewSecret(m.seal, leaf.text))
  {
  }

  /** A reference that a read has resolved decodes to a Secret that reveals the resolver's answer. */
  lemma ResolvedReferenceReveals(m: Settings, doc: Tree, steps: seq<Pool.Step>, answers: string -> Pool.Answer,
                                 path: seq<PathSeg>, s: string)
    requires WellKeyed(doc) && !m.unresolved && Answers(m, Some(doc), None, steps)
    requires Parses(Some(doc)) ==> Answering(Collect(doc, []).uses, steps, answers)
    requires ReadConfig(m, Some(doc), None, steps).result.Read?
    requires LeadsTo(doc, path, Str(s)) && SecretRefName(s).Some?
    ensures var name := SecretRefName(s).value;
      var tree := ReadConfig(m, Some(doc), None, steps).result.tree;
      exists secret ::
        && LeadsTo(tree, path, Filled(secret)) && DecodeHook(m.seal, LeafData(Filled(secret))) == Ok(secret)
        && Pool.Usable(answers(name)) && Reveal(m.seal, secret) == answers(name).text
  {
    var name := SecretRefName(s).value;
    var uses := Collect(doc, []).uses;
    hide LeadsTo, FillTree, Collect, RefusedUses, Pool.After, Pool.Done, Pool.Values, Pool.First, Pool.Usable, Names;
    hide Cancellation.GoesWell, Pool.AnswersAs;
    ResolutionFits(m, uses, steps);
    var values := ResolveSecrets(m, uses, steps).0.values;
    FittingValuesStandForTheirNames(m, values, Names(uses));
    FilledReferences(doc, values, path, s);
    AnswersAreTheValues(m, uses, steps, answers, name);
    RevealUndoesSeal(m.seal, name, answers(name).text);
    assert LeadsTo(FillTree(doc, values), path, Filled(values[name]));
  }

  lemma AnswersAreTheValues(m: Settings, uses: seq<SecretUse>, steps: seq<Pool.Step>, answers: string -> Pool.Answer,
                            name: string)
    requires Waited(m, uses, steps) && Answering(uses, steps, answers) && !m.unresolved && name in Names(uses)
    requires ResolveSecrets(m, uses, steps).0.Values?
    ensures var values := ResolveSecrets(m, uses, steps).0.values;
      Pool.Usable(answers(name)) && name in values && values[name] == Resolved(m.seal, name, answers(name).text)
  {
    hide Pool.After, Pool.Values, Pool.Done, Pool.First, Pool.AnswersAs, Pool.Usable, Pool.Inv, Cancellation.GoesWell;
    var first := Pool.First(uses);
    NoNamesIffNoUses(first);
    Cancellation.PoolSucceedsIffWell(m.seal, NamesOf(first), steps, answers);
    var u :| u in first && u.name == name;
    var i :| 0 <= i < |first| && first[i] == u;
    assert NamesOf(first)[i] == name;
  }

  // ----- With the cache -----

  /** What resolving gives is what the cache takes: a resolution that succeeded may be stored by a
      caller that holds this document. */
  lemma ResolutionMayBeStored(m: Settings, p: Cache.Params, w: Cache.World, i: nat, uses: seq<SecretUse>,
                              steps: seq<Pool.Step>)
    requires p.seal == m.seal && !m.unresolved && Waited(m, uses, steps) && ResolveSecrets(m, uses, steps).0.Values?
    requires i < |w.callers| && w.callers[i].phase.Resolving? && p.names(w.callers[i].data) == Names(uses)
    ensures Cache.Enabled(p, w, Cache.Resolve(i, Some(ResolveSecrets(m, uses, steps).0.values)))
  {
    ResolutionFits(m, uses, steps);
  }

  /** What the cache gives is what reading needs: whichever callers interleave, on whichever documents,
      the values returned to a caller are right for the document that caller holds. */
  lemma CacheAnswers(m: Settings, p: Cache.Params, run: seq<Cache.Step>, i: nat, doc: Tree, steps: seq<Pool.Step>)
    requires p.seal == m.seal && !m.unresolved && WellKeyed(doc)
    requires var w := Cache.After(p, Cache.NewWorld(p), run);
      && i < |w.callers| && w.callers[i].phase.Returned?
      && p.names(w.callers[i].data) == Names(Collect(doc, []).uses)
    ensures Answers(m, Some(doc), Some(Cache.After(p, Cache.NewWorld(p), run).callers[i].phase.values), steps)
  {
    Cache.ValuesFitTheDocument(p, run, i);
  }

  /** So a document read with values from the shared cache, in any interleaving, has each reference
      replaced by the Secret of its own name, on a Secret field, and each literal in its place. */
  lemma CachedReadIsFilled(m: Settings, p: Cache.Params, run: seq<Cache.Step>, i: nat, doc: Tree, steps: seq<Pool.Step>,
                           path: seq<PathSeg>, s: string)
    requires p.seal == m.seal && !m.unresolved && WellKeyed(doc)
    requires var w := Cache.After(p, Cache.NewWorld(p), run);
      && i < |w.callers| && w.callers[i].phase.Returned?
      && p.names(w.callers[i].data) == Names(Collect(doc, []).uses)
    requires LeadsTo(doc, path, Str(s))
    ensures var values := Cache.After(p, Cache.NewWorld(p), run).callers[i].phase.values;
      var r := ReadConfig(m, Some(doc), Some(values), steps).result;
      && (r.Read? <==> Parses(Some(doc)) && AllOnSecrets(m, doc) && m.merges(FillTree(doc, values)))
      && (r.Read? ==>
            if ReadLeaf(s).Reference? then
              Acceptable(m.types, m.targets, path)
              && exists secret :: StandsFor(m, ReadLeaf(s).name, secret) && LeadsTo(r.tree, path, Filled(secret))
            else LeadsTo(r.tree, path, Str(ReadLeaf(s).text)))
  {
    hide LeadsTo, Acceptable, StandsFor, RefusedUses, AllOnSecrets, Collect, FillTree, Waited, Cache.After;
    CacheAnswers(m, p, run, i, doc, steps);
    var values := Cache.After(p, Cache.NewWorld(p), run).callers[i].phase.values;
    if Parses(Some(doc)) {
      AcceptedIffAllOnSecrets(m, doc);
    }
    if ReadConfig(m, Some(doc), Some(values), steps).result.Read? {
      SuccessfulReadIsFilled(m, Some(doc), Some(values), steps, path, s);
    }
  }
}
