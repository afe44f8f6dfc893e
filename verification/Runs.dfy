/** What holds of every run of a manager: the main results about reloads and resources. */
module Runs {
  import opened Wrappers
  import opened Dag
  import opened Rebuild
  import opened Lifecycle
  import opened Invariants
  import opened Propagation

  // ----- The simple manager: no old values, no dirtiness, every reload runs everything -----

  datatype Snapshot = Snapshot(config: Config, width: nat, version: int)

  datatype Simple = Simple(nodes: seq<Node>, frozen: bool, started: bool, accepted: Option<Snapshot>,
                           notified: seq<(Config, Config)>)

  function SimpleReload(s: Simple, input: Input): (Simple, Reply)
    requires Ordered(s.nodes, 0)
  {
    match input
    case Rejected(why) => (s, NotAccepted(why))
    case Accepted(cfg) =>
      match Scratch(s.nodes, 0, map[], cfg, 0, |s.nodes|)
      case FailsAt(id) => (s, TransformFailed(id))
      case Done(_) =>
        var version := if s.accepted.Some? then s.accepted.value.version + 1 else 0;
        var notified := if s.accepted.Some? then s.notified + [(s.accepted.value.config, cfg)] else s.notified;
        (s.(accepted := Some(Snapshot(cfg, |s.nodes|, version)), notified := notified), Fine)
  }

  function SimpleNext(s: Simple, e: Event): (r: (Simple, Reply))
    requires Ordered(s.nodes, 0)
    ensures Ordered(r.0.nodes, 0)
  {
    match e
    case Register(n) =>
      if s.frozen then (s, PanicFrozen)
      else if n.id == |s.nodes| && forall j :: 0 <= j < |n.Parents()| ==> n.Parents()[j] < |s.nodes|
      then (s.(nodes := s.nodes + [n]), Fine)
      else (s, Ignored)
    case Reload(input) => SimpleReload(s, input)
    case Start(input) =>
      if s.started then (s, AlreadyStarted)
      else
        var (t, reply) := SimpleReload(s.(frozen := true), input);
        (t.(started := reply.Fine?), reply)
    case Stop => if s.started then (s.(started := false), Fine) else (s, NotStarted)
    case CleanUp(_) => (s, Fine)
  }

  function SimpleAfter(events: seq<Event>): (s: Simple)
    ensures Ordered(s.nodes, 0)
  {
    if events == [] then Simple([], false, false, None, [])
    else SimpleNext(SimpleAfter(events[..|events| - 1]), events[|events| - 1]).0
  }

  function View(s: State): Simple {
    Simple(s.nodes, s.frozen, s.started,
           if s.current.None? then None
           else Some(Snapshot(s.current.value.config, |s.current.value.values|, s.current.value.version)),
           s.notified)
  }

  /** One event of the incremental manager is the same event of the simple one. */
  lemma NextRefines(eq: DeepEqual, s: State, e: Event)
    requires Inv(s)
    ensures View(Next(eq, s, e).0) == SimpleNext(View(s), e).0
    ensures !e.CleanUp? ==> Next(eq, s, e).1 == SimpleNext(View(s), e).1
  {
    match e
    case Reload(input) => ReloadRefines(eq, s, input);
    case Start(input) =>
      FlagsKeepInv(s, true, s.started);
      ReloadRefines(eq, s.(frozen := true), input);
    case _ =>
  }

  /** What a reload needs of a walk: it stops where the from-scratch program stops, or covers every node. */
  lemma WalkOutcome(eq: DeepEqual, s: State, cfg: Config)
    requires Inv(s)
    ensures var w := Walk(eq, s, cfg);
      var e := Scratch(s.nodes, 0, map[], cfg, 0, |s.nodes|);
      && (w.FailedAt? <==> e.FailsAt?)
      && (w.FailedAt? ==> w.id == e.id)
      && (w.Filled? ==> |w.build.values| == |s.nodes|)
  {
    WalkKeepsInv(eq, s.nodes, cfg, s.current, s.calls, |s.nodes|);
    WalkFailsWithScratch(eq, s.nodes, cfg, s.current, s.calls, 0, |s.nodes|);
    hide Logged, SoundPrior, Conserved, ItemsFromCalls, BatchesDescend;
    hide CleanKept, OncePerNode, DirtyIsNew, ChangeContained, RestKept, RootsMarked, Scratch, WalkTo;
  }

  lemma PublishedView(s: State, cfg: Config, b: Build)
    ensures var v := View(s);
      View(Publish(s, cfg, b)) == v.(
        accepted := Some(Snapshot(cfg, |b.values|, if v.accepted.Some? then v.accepted.value.version + 1 else 0)),
        notified := if v.accepted.Some? then v.notified + [(v.accepted.value.config, cfg)] else v.notified)
  {
    hide BatchFrom;
  }

  lemma ReloadRefines(eq: DeepEqual, s: State, input: Input)
    requires Inv(s)
    ensures View(ReloadLocked(eq, s, input).0) == SimpleReload(View(s), input).0
    ensures ReloadLocked(eq, s, input).1 == SimpleReload(View(s), input).1
  {
    assert WellFormed(s);
    hide Inv, Walk, Scratch, Publish;
    if input.Accepted? {
      WalkOutcome(eq, s, input.config);
      var w := Walk(eq, s, input.config);
      if w.Filled? {
        PublishedView(s, input.config, w.build);
      }
    }
  }

  /** Incremental equals from-scratch, over every history of registrations, successful and failed
      reloads, starts, stops and releases: same acceptance, same version, same failing node... */
  lemma {:induction false} IncrementalRefinesSimple(eq: DeepEqual, events: seq<Event>)
    ensures View(After(eq, events)) == SimpleAfter(events)
    ensures forall e: Event {:trigger Next(eq, After(eq, events), e)} :: !e.CleanUp? ==>
              Next(eq, After(eq, events), e).1 == SimpleNext(SimpleAfter(events), e).1
  {
    hide Next, SimpleNext;
    var s := After(eq, events);
    if events != [] {
      var before := events[..|events| - 1];
      IncrementalRefinesSimple(eq, before);
      ReachableInv(eq, before);
      NextRefines(eq, After(eq, before), events[|events| - 1]);
    }
    ReachableInv(eq, events);
    forall e: Event {:trigger Next(eq, s, e)} | !e.CleanUp?
      ensures Next(eq, s, e).1 == SimpleNext(SimpleAfter(events), e).1
    {
      NextRefines(eq, s, e);
    }
  }

  /** ... and every live value means what evaluating the DAG afresh on the last accepted config,
      at any moment, gives for that node. */
  lemma LiveMeansScratch(eq: DeepEqual, events: seq<Event>, moment: nat)
    requires SimpleAfter(events).accepted.Some?
    ensures var s := After(eq, events);
      var last := SimpleAfter(events).accepted.value;
      && s.current.Some? && last.width <= |s.nodes|
      && var e := Scratch(s.nodes, 0, map[], last.config, moment, last.width);
         && e.Done?
         && s.current.value.values.Keys == e.values.Keys
         && forall id :: id in e.values ==> s.current.value.values[id].meaning == e.values[id].meaning
  {
    var s := After(eq, events);
    IncrementalRefinesSimple(eq, events);
    ReachableInv(eq, events);
    var gen := s.current.value;
    SoundMeansScratch(s.nodes, gen.config, gen.values, s.calls, |gen.values|, moment, |gen.values|);
  }

  // ----- OnReload -----

  ghost predicate Chained(s: State) {
    && (s.current.None? ==> s.notified == [])
    && (s.current.Some? ==> |s.notified| == s.current.value.version)
    && (s.notified != [] ==> s.current.Some? && s.notified[|s.notified| - 1].1 == s.current.value.config)
    && forall i :: 0 <= i < |s.notified| - 1 ==> s.notified[i].1 == s.notified[i + 1].0
  }

  lemma NextKeepsChained(eq: DeepEqual, s: State, e: Event)
    requires Ordered(s.nodes, 0) && Chained(s)
    ensures Chained(Next(eq, s, e).0)
  {
    hide WalkTo, BatchFrom, Scratch;
  }

  /** Every successful reload but the first calls back once, with the config it replaced and the one
      it made live: the pairs form a chain that ends at the live config, one for each version step. */
  lemma {:induction false} CallbacksSeeEveryReload(eq: DeepEqual, events: seq<Event>)
    ensures Chained(After(eq, events))
  {
    if events != [] {
      CallbacksSeeEveryReload(eq, events[..|events| - 1]);
      NextKeepsChained(eq, After(eq, events[..|events| - 1]), events[|events| - 1]);
    }
  }

  // ----- Resources -----

  /** Every instance a cleanup node's transform ever returned is in exactly one place. */
  lemma ResourcesConserved(eq: DeepEqual, events: seq<Event>, i: nat)
    requires Resource(After(eq, events), i)
    ensures exists p :: At(After(eq, events), i, p)
    ensures forall p, q :: At(After(eq, events), i, p) && At(After(eq, events), i, q) ==> p == q
  {
    ReachableInv(eq, events);
    var p :| OnlyAt(After(eq, events), i, p);
  }

  /** A cleanup goroutine never releases a live resource, nor one released before. */
  lemma ReleaseIsSafe(eq: DeepEqual, events: seq<Event>, k: nat)
    requires k < |After(eq, events).pending| && After(eq, events).pending[k] != []
    ensures var s := After(eq, events);
      var it := s.pending[k][0];
      && it.id < |s.nodes|
      && (s.nodes[it.id].HasCleanup() ==> OldValue(s.current, it.id) != Some(it.value) && it !in s.released)
  {
    var s := After(eq, events);
    var it := s.pending[k][0];
    ReachableInv(eq, events);
    assert FromCall(s, it);
    if s.nodes[it.id].HasCleanup() {
      var i := it.value.instance;
      assert SomewhereOnce(s, i) && At(s, i, Pending(k, 0));
      assert !At(s, i, Live);
      if it in s.released {
        var j :| 0 <= j < |s.released| && s.released[j] == it;
        assert At(s, i, Released(j));
      }
    }
  }

  /** Once every batch is done, a resource is live, released, or was dropped by an aborted reload. */
  lemma QuiescentResources(eq: DeepEqual, events: seq<Event>, i: nat)
    requires var s := After(eq, events);
      Resource(s, i) && forall k :: 0 <= k < |s.pending| ==> s.pending[k] == []
    ensures var s := After(eq, events);
      || OldValue(s.current, s.calls[i].id) == Some(s.calls[i].result.value)
      || Item(s.calls[i].id, s.calls[i].result.value) in s.released
      || i in s.abandoned
  {
    var s := After(eq, events);
    ResourcesConserved(eq, events, i);
    var p :| At(s, i, p);
  }

  function Continue(eq: DeepEqual, s: State, more: seq<Event>): (t: State)
    requires WellFormed(s)
    ensures WellFormed(t)
    decreases |more|
  {
    if more == [] then s else Continue(eq, Next(eq, s, more[0]).0, more[1..])
  }

  lemma NextOnlyAdds(eq: DeepEqual, s: State, e: Event)
    requires Inv(s)
    ensures var t := Next(eq, s, e).0;
      s.nodes <= t.nodes && s.calls <= t.calls && s.abandoned <= t.abandoned
  {
    match e
    case Reload(input) => ReloadOnlyAdds(eq, s, input);
    case Start(input) =>
      FlagsKeepInv(s, true, s.started);
      ReloadOnlyAdds(eq, s.(frozen := true), input);
    case _ =>
  }

  lemma ReloadOnlyAdds(eq: DeepEqual, s: State, input: Input)
    requires Inv(s)
    ensures var t := ReloadLocked(eq, s, input).0;
      s.nodes == t.nodes && s.calls <= t.calls && s.abandoned <= t.abandoned
  {
    if input.Accepted? {
      WalkKeepsInv(eq, s.nodes, input.config, s.current, s.calls, |s.nodes|);
    }
  }

  /** The reload that builds a resource makes it live if it succeeds, and drops it if it fails. */
  lemma ReloadPlacesResource(eq: DeepEqual, s: State, input: Input, i: nat)
    requires Inv(s) && |s.calls| <= i && Resource(ReloadLocked(eq, s, input).0, i)
    ensures var (t, reply) := ReloadLocked(eq, s, input);
      && (reply.Fine? || reply.TransformFailed?)
      && (reply.Fine? <==> At(t, i, Live))
      && (reply.TransformFailed? <==> At(t, i, Abandoned))
  {
    WalkKeepsInv(eq, s.nodes, input.config, s.current, s.calls, |s.nodes|);
    var t := ReloadLocked(eq, s, input).0;
    NewIsNowhere(s, t, i);
    hide WalkTo, Inv, BatchFrom;
    match Walk(eq, s, input.config)
    case Filled(b) => assert t.calls[i].result == Ok(b.values[t.calls[i].id]);
    case FailedAt(_, _) =>
  }

  lemma NextPlacesResource(eq: DeepEqual, s: State, e: Event, i: nat)
    requires Inv(s) && |s.calls| <= i && Resource(Next(eq, s, e).0, i)
    ensures var (t, reply) := Next(eq, s, e);
      && (reply.Fine? || reply.TransformFailed?)
      && (reply.Fine? <==> At(t, i, Live))
      && (reply.TransformFailed? <==> At(t, i, Abandoned))
  {
    match e
    case Reload(input) => ReloadPlacesResource(eq, s, input, i);
    case Start(input) =>
      FlagsKeepInv(s, true, s.started);
      ReloadPlacesResource(eq, s.(frozen := true), input, i);
    case _ =>
  }

  lemma {:induction false} HistoryStays(eq: DeepEqual, s: State, more: seq<Event>, i: nat)
    requires Inv(s) && Resource(s, i)
    ensures var t := Continue(eq, s, more);
      Inv(t) && Resource(t, i) && t.calls[i] == s.calls[i] && (i in t.abandoned <==> i in s.abandoned)
    decreases |more|
  {
    if more != [] {
      var t := Next(eq, s, more[0]).0;
      NextKeepsInv(eq, s, more[0]);
      NextOnlyAdds(eq, s, more[0]);
      NextAbandonsOnlyNew(eq, s, more[0], i);
      hide Inv, Next;
      HistoryStays(eq, t, more[1..], i);
    }
  }

  lemma NextAbandonsOnlyNew(eq: DeepEqual, s: State, e: Event, i: nat)
    requires Inv(s) && i < |s.calls|
    ensures i in Next(eq, s, e).0.abandoned ==> i in s.abandoned
  {
  }

  /** A resource is dropped if and only if the reload that built it failed at a later node: that
      resource is never live, scheduled or released, in any future; any other one was made live. */
  lemma AbandonedIffReloadFailed(eq: DeepEqual, events: seq<Event>, e: Event, more: seq<Event>, i: nat)
    requires |After(eq, events).calls| <= i && Resource(Next(eq, After(eq, events), e).0, i)
    ensures var (s, reply) := Next(eq, After(eq, events), e);
      var t := Continue(eq, s, more);
      && Resource(t, i) && Built(t, i) == Built(s, i)
      && (i in t.abandoned <==> reply.TransformFailed?)
      && (reply.TransformFailed? ==> forall p :: At(t, i, p) ==> p == Abandoned)
      && (!reply.TransformFailed? ==> reply.Fine? && At(s, i, Live))
  {
    ReachableInv(eq, events);
    NextPlacesResource(eq, After(eq, events), e, i);
    NextKeepsInv(eq, After(eq, events), e);
    var s := Next(eq, After(eq, events), e).0;
    HistoryStays(eq, s, more, i);
    var t := Continue(eq, s, more);
    hide Next, Continue, ReloadLocked;
    if i in t.abandoned {
      var p :| OnlyAt(t, i, p);
      assert At(t, i, Abandoned);
    }
  }

  /** Said of the input alone: the from-scratch walk of `cfg` fails, behind `n`, and `n` has no old
      value or a parent that the walk has marked by the time it gets there. */
  ghost predicate Drops(eq: DeepEqual, s: State, cfg: Config, n: Id, moment: nat)
    requires Ordered(s.nodes, 0) && n < |s.nodes|
  {
    var e := Scratch(s.nodes, 0, map[], cfg, moment, |s.nodes|);
    e.FailsAt? && n < e.id && RunsAt(eq, s.nodes, cfg, s.current, s.calls, n)
  }

  /** The load at `s` that led to `t` built resource `i`, an instance of node `n`. */
  ghost predicate BuiltBy(s: State, t: State, i: nat, n: Id) {
    |s.calls| <= i && Resource(t, i) && t.calls[i].id == n
  }

  lemma DropsInWalk(eq: DeepEqual, s: State, e: Event, cfg: Config, n: Id, moment: nat)
    requires Inv(s) && Loads(s, e, cfg) && n < |s.nodes| && s.nodes[n].HasCleanup()
    ensures var t := Next(eq, s, e).0;
      (exists i: nat :: BuiltBy(s, t, i, n) && i in t.abandoned) <==> Drops(eq, s, cfg, n, moment)
  {
    var t := Next(eq, s, e).0;
    var w := Walk(eq, s, cfg);
    LoadIsReload(eq, s, e, cfg);
    LoadKeepsLog(eq, s, e, cfg);
    WalkRunsIff(eq, s.nodes, cfg, s.current, s.calls, n, |s.nodes|);
    WalkFailsWithScratch(eq, s.nodes, cfg, s.current, s.calls, moment, |s.nodes|);
    FailedWalkLog(eq, s.nodes, cfg, s.current, s.calls, |s.nodes|);
    LoadAbandons(eq, s, e, cfg);
    hide WalkTo, Scratch, BatchFrom, Next, ReloadLocked, RunsAt;
    if i: nat :| BuiltBy(s, t, i, n) && i in t.abandoned {
      assert CalledIn(|s.calls|, w.Log(), n);
    }
    if Drops(eq, s, cfg, n, moment) {
      var i :| |s.calls| <= i < |w.calls| && w.calls[i].id == n;
      assert BuiltBy(s, t, i, n) && i in t.abandoned;
    }
  }

  /** A load abandons exactly the calls of a failed walk. */
  lemma LoadAbandons(eq: DeepEqual, s: State, e: Event, cfg: Config)
    requires Inv(s) && Loads(s, e, cfg)
    ensures var t := Next(eq, s, e).0;
      && t.nodes == s.nodes
      && forall i: nat :: |s.calls| <= i < |t.calls| ==> (i in t.abandoned <==> Walk(eq, s, cfg).FailedAt?)
  {
    LoadIsReload(eq, s, e, cfg);
    hide WalkTo, BatchFrom, Next;
  }

  /** A load drops, for good, an instance of the cleanup node `n` if and only if the from-scratch walk
      of its config fails behind `n`, and `n` is new or change has spread to it by then. */
  lemma DroppedIff(eq: DeepEqual, events: seq<Event>, e: Event, cfg: Config, more: seq<Event>, n: Id, moment: nat)
    requires var s := After(eq, events);
      Loads(s, e, cfg) && n < |s.nodes| && s.nodes[n].HasCleanup()
    ensures var s := After(eq, events);
      var t := Next(eq, s, e).0;
      (exists i: nat :: BuiltBy(s, t, i, n) && i in Continue(eq, t, more).abandoned) <==> Drops(eq, s, cfg, n, moment)
  {
    var s := After(eq, events);
    var t := Next(eq, s, e).0;
    ReachableInv(eq, events);
    NextKeepsInv(eq, s, e);
    DropsInWalk(eq, s, e, cfg, n, moment);
    forall i: nat | BuiltBy(s, t, i, n) ensures i in Continue(eq, t, more).abandoned <==> i in t.abandoned {
      HistoryStays(eq, t, more, i);
    }
    hide Inv, Next, Continue, Drops, BuiltBy;
  }

  /** Of one resource: it is dropped if and only if the from-scratch walk of the config fails. */
  lemma AbandonedIffConfigFails(eq: DeepEqual, events: seq<Event>, e: Event, cfg: Config, more: seq<Event>, i: nat,
                                moment: nat)
    requires var s := After(eq, events);
      Loads(s, e, cfg) && |s.calls| <= i && Resource(Next(eq, s, e).0, i)
    ensures var s := After(eq, events);
      i in Continue(eq, Next(eq, s, e).0, more).abandoned <==>
        Scratch(s.nodes, 0, map[], cfg, moment, |s.nodes|).FailsAt?
  {
    var s := After(eq, events);
    ReachableInv(eq, events);
    NextKeepsInv(eq, s, e);
    LoadAbandons(eq, s, e, cfg);
    WalkFailsWithScratch(eq, s.nodes, cfg, s.current, s.calls, moment, |s.nodes|);
    HistoryStays(eq, Next(eq, s, e).0, more, i);
    hide Inv, Next, Continue, WalkTo, Scratch;
  }

  /** A resource built before a later node fails the reload is never released, in any future. */
  lemma AbandonedIsNeverReleased(eq: DeepEqual, events: seq<Event>, e: Event, more: seq<Event>, i: nat)
    requires |After(eq, events).calls| <= i && Resource(Next(eq, After(eq, events), e).0, i)
    requires Next(eq, After(eq, events), e).1.TransformFailed?
    ensures var s := Next(eq, After(eq, events), e).0;
      Built(s, i) !in Continue(eq, s, more).released
  {
    AbandonedIffReloadFailed(eq, events, e, more, i);
    var s := Next(eq, After(eq, events), e).0;
    var t := Continue(eq, s, more);
    if Built(s, i) in t.released {
      var j :| 0 <= j < |t.released| && t.released[j] == Built(t, i);
      assert At(t, i, Released(j));
    }
  }

  predicate NoReload(more: seq<Event>) {
    forall n :: 0 <= n < |more| ==> !more[n].Reload? && !more[n].Start?
  }

  lemma {:induction false} IdleKeepsCurrent(eq: DeepEqual, s: State, more: seq<Event>)
    requires Inv(s) && NoReload(more)
    ensures Inv(Continue(eq, s, more)) && Continue(eq, s, more).current == s.current
    ensures s.nodes <= Continue(eq, s, more).nodes
    decreases |more|
  {
    if more != [] {
      NextKeepsInv(eq, s, more[0]);
      hide Inv;
      IdleKeepsCurrent(eq, Next(eq, s, more[0]).0, more[1..]);
    }
  }

  /** Stop runs no final cleanup: a resource that is live at Stop is never released, however long
      the cleanup goroutines run on, unless the manager loads again. */
  lemma StopReleasesNothing(eq: DeepEqual, events: seq<Event>, more: seq<Event>, id: Id)
    requires var s := After(eq, events);
      id < |s.nodes| && s.nodes[id].HasCleanup() && OldValue(s.current, id).Some?
    requires NoReload(more)
    ensures var s := After(eq, events);
      var t := Continue(eq, Next(eq, s, Stop).0, more);
      t.current == s.current && Item(id, OldValue(s.current, id).value) !in t.released
  {
    var s := After(eq, events);
    ReachableInv(eq, events);
    NextKeepsInv(eq, s, Stop);
    IdleKeepsCurrent(eq, Next(eq, s, Stop).0, more);
    LiveIsNotReleased(Continue(eq, Next(eq, s, Stop).0, more), id);
  }

  lemma LiveIsNotReleased(t: State, id: Id)
    requires Inv(t) && id < |t.nodes| && t.nodes[id].HasCleanup() && OldValue(t.current, id).Some?
    ensures Item(id, OldValue(t.current, id).value) !in t.released
  {
    var gen := t.current.value;
    HeldFromCall(t.nodes, gen.config, gen.values, t.calls, |gen.values|, id);
    var i := gen.values[id].instance;
    assert SomewhereOnce(t, i) && At(t, i, Live);
    forall j | 0 <= j < |t.released| ensures t.released[j] != Built(t, i) {
      assert !At(t, i, Released(j));
    }
  }

  // ----- Dependents of a resource -----

  /** The value of a derived node was computed by one call, from arguments that mean what the
      generation holds for the parents, and for each parent with a cleanup function from the very
      instance it holds. */
  lemma DirectDependentsAreFresh(eq: DeepEqual, events: seq<Event>, id: Id)
    requires var s := After(eq, events);
      s.current.Some? && id in s.current.value.values && id < |s.nodes| && !s.nodes[id].IsRoot()
    ensures var s := After(eq, events);
      exists i :: 0 <= i < |s.calls| && MadeBy(s.nodes, s.current.value.values, s.calls[i], id)
  {
    var s := After(eq, events);
    ReachableInv(eq, events);
    var gen := s.current.value;
    assert Explained(s.nodes, gen.config, gen.values, s.calls, id);
  }

  // ----- Batches -----

  /** In every batch of every run, a node comes before each of its ancestors. */
  lemma DescendantsReleasedFirst(eq: DeepEqual, events: seq<Event>, k: nat, i: nat, j: nat)
    requires var s := After(eq, events);
      k < |s.pending| && i < |s.pending[k]| && j < |s.pending[k]|
    ensures var s := After(eq, events);
      var above, below := s.pending[k][i].id, s.pending[k][j].id;
      below < |s.nodes| && (Ancestor(s.nodes, 0, above, below) ==> j < i)
  {
    var s := After(eq, events);
    ReachableInv(eq, events);
    assert Descending(s.pending[k]);
    assert FromCall(s, s.pending[k][j]);
    if Ancestor(s.nodes, 0, s.pending[k][i].id, s.pending[k][j].id) {
      AncestorIsEarlier(s.nodes, 0, s.pending[k][i].id, s.pending[k][j].id);
    }
  }

  /** A successful load puts exactly the resources it replaced in its batch, each once. */
  lemma BatchHasReplaced(eq: DeepEqual, events: seq<Event>, e: Event, cfg: Config, id: Id)
    requires var s := After(eq, events);
      && s.current.Some? && id < |s.nodes| && s.nodes[id].HasCleanup() && id in s.current.value.values
      && Loads(s, e, cfg) && Next(eq, s, e).1.Fine?
    ensures var s := After(eq, events);
      var t := Next(eq, s, e).0;
      var it := Item(id, s.current.value.values[id]);
      var batch := if |t.pending| > |s.pending| then t.pending[|s.pending|] else [];
      && t.pending == Schedule(s.pending, batch)
      && (it in batch <==> OldValue(t.current, id) != Some(it.value))
      && (forall j, k :: 0 <= j < |batch| && 0 <= k < |batch| && batch[j].id == batch[k].id ==> j == k)
  {
    var s := After(eq, events);
    ReachableInv(eq, events);
    LoadIsReload(eq, s, e, cfg);
    WalkKeepsInv(eq, s.nodes, cfg, s.current, s.calls, |s.nodes|);
    ReplacedIffDirty(s, cfg, Walk(eq, s, cfg).build, id);
    hide WalkTo, BatchFrom, Inv, Next;
  }

  lemma ReplacedIffDirty(s: State, cfg: Config, b: Build, id: Id)
    requires Inv(s) && s.current.Some? && id < |s.nodes| && s.nodes[id].HasCleanup() && id in s.current.value.values
    requires CleanKept(s.nodes, s.current, b, |s.nodes|) && DirtyIsNew(s.nodes, |s.calls|, b, |s.nodes|)
    ensures var was := s.current.value.values;
      var batch := BatchFrom(s.nodes, b, was, |s.nodes|);
      && id in b.values
      && (Item(id, was[id]) in batch <==> b.values[id] != was[id])
      && (forall j, k :: 0 <= j < |batch| && 0 <= k < |batch| && batch[j].id == batch[k].id ==> j == k)
  {
    var was := s.current.value.values;
    BatchIsExact(s.nodes, b, was, |s.nodes|);
    HeldFromCall(s.nodes, s.current.value.config, was, s.calls, |was|, id);
    if b.Dirty(id) {
      assert b.values[id].instance >= |s.calls|;
    } else {
      assert b.values[id] == was[id];
    }
  }

  // ----- Change containment -----

  /** The root's reading of `cfg` does not compare equal to the value it holds. */
  predicate RootChanges(eq: DeepEqual, s: State, cfg: Config, r: Id)
    requires r < |s.nodes| && s.nodes[r].IsRoot()
  {
    s.nodes[r].Decode(cfg).Ok? && !Unchanged(eq, s.nodes[r].Decode(cfg).value, OldValue(s.current, r))
  }

  ghost predicate ChangeReaches(eq: DeepEqual, s: State, cfg: Config, id: Id)
    requires Ordered(s.nodes, 0) && id < |s.nodes|
  {
    exists r: Id :: r < |s.nodes| && s.nodes[r].IsRoot() && RootChanges(eq, s, cfg, r)
                    && (r == id || Ancestor(s.nodes, 0, r, id))
  }

  lemma ReachedMeansChange(eq: DeepEqual, s: State, cfg: Config, b: Build, k: nat, id: Id)
    requires Ordered(s.nodes, 0) && id < |s.nodes|
    requires Sound(s.nodes, cfg, b.values, b.calls, k) && b.dirty.Keys == b.values.Keys
    requires RootsMarked(eq, s.nodes, s.current, b, k)
    requires ReachedByChange(s.nodes, b, id)
    ensures ChangeReaches(eq, s, cfg, id)
  {
    var r: Id :| r < |s.nodes| && s.nodes[r].IsRoot() && b.Dirty(r) && (r == id || Ancestor(s.nodes, 0, r, id));
    assert r in b.values;
    assert Explained(s.nodes, cfg, b.values, b.calls, r);
    assert RootChanges(eq, s, cfg, r);
  }

  /** A transform that runs although there is an old value runs below a root that changed. */
  lemma RunningMeansChange(eq: DeepEqual, s: State, cfg: Config, id: Id)
    requires Inv(s) && id < |s.nodes| && OldValue(s.current, id).Some?
    requires RunsAt(eq, s.nodes, cfg, s.current, s.calls, id)
    ensures ChangeReaches(eq, s, cfg, id)
  {
    WalkKeepsInv(eq, s.nodes, cfg, s.current, s.calls, id);
    var b := WalkTo(eq, s.nodes, 0, cfg, s.current, NewBuild(s.calls), id).build;
    ParentsBefore(s.nodes, id);
    var p :| p in s.nodes[id].Parents() && b.Dirty(p);
    assert OldValue(s.current, p).Some?;
    assert ReachedByChange(s.nodes, b, p);
    ReachedThroughParent(s.nodes, b, p, id);
    ReachedMeansChange(eq, s, cfg, b, id, id);
  }

  /** Every load of an accepted config, successful or not, runs a transform only for a node without an
      old value or below a root that changed. A derived node whose transform did not run keeps the
      identical instance, and every node does if the load fails. */
  lemma ChangeIsContained(eq: DeepEqual, events: seq<Event>, e: Event, cfg: Config, id: Id)
    requires var s := After(eq, events);
      Loads(s, e, cfg) && id < |s.nodes| && !s.nodes[id].IsRoot()
    ensures var s := After(eq, events);
      var (t, reply) := Next(eq, s, e);
      && (CalledIn(|s.calls|, t.calls, id) ==> OldValue(s.current, id).None? || ChangeReaches(eq, s, cfg, id))
      && (reply.Fine? && !CalledIn(|s.calls|, t.calls, id) ==> OldValue(s.current, id).Some?)
      && (!reply.Fine? || !CalledIn(|s.calls|, t.calls, id) ==> OldValue(t.current, id) == OldValue(s.current, id))
  {
    var s := After(eq, events);
    ReachableInv(eq, events);
    LoadIsReload(eq, s, e, cfg);
    LoadKeepsLog(eq, s, e, cfg);
    WalkRunsIff(eq, s.nodes, cfg, s.current, s.calls, id, |s.nodes|);
    WalkKeepsInv(eq, s.nodes, cfg, s.current, s.calls, |s.nodes|);
    if RunsAt(eq, s.nodes, cfg, s.current, s.calls, id) && OldValue(s.current, id).Some? {
      RunningMeansChange(eq, s, cfg, id);
    }
    hide WalkTo, BatchFrom, Inv, Next, RunsAt, ChangeReaches, CalledIn;
  }

  /** Every node has a value, and every root decodes to one that compares equal. */
  ghost predicate NothingChanges(eq: DeepEqual, s: State, cfg: Config) {
    && (forall id: Id :: id < |s.nodes| ==> OldValue(s.current, id).Some?)
    && forall r: Id :: r < |s.nodes| && s.nodes[r].IsRoot() ==>
         s.nodes[r].Decode(cfg).Ok? && !RootChanges(eq, s, cfg, r)
  }

  lemma QuietMeansNoRun(eq: DeepEqual, s: State, cfg: Config, id: Id)
    requires Inv(s) && NothingChanges(eq, s, cfg) && id < |s.nodes|
    ensures !RunsAt(eq, s.nodes, cfg, s.current, s.calls, id)
  {
    assert OldValue(s.current, id).Some?;
    if RunsAt(eq, s.nodes, cfg, s.current, s.calls, id) {
      RunningMeansChange(eq, s, cfg, id);
    }
  }

  /** A walk that made no call and whose roots all decode has nothing to fail at. */
  lemma NothingToFailAt(nodes: seq<Node>, cfg: Config, n0: nat, w: Walked, log: seq<Call>)
    requires w.FailedAt? ==> w.id < |nodes|
    requires w.FailedAt? ==> if nodes[w.id].IsRoot() then nodes[w.id].Decode(cfg).Err? else CalledIn(n0, w.calls, w.id)
    requires log == w.Log() && forall id: Id :: id < |nodes| ==> !CalledIn(n0, log, id)
    requires forall r: Id :: r < |nodes| && nodes[r].IsRoot() ==> nodes[r].Decode(cfg).Ok?
    ensures w.Filled? && forall id: Id :: id < |nodes| ==> !CalledIn(n0, w.build.calls, id)
  {
    hide CalledIn;
  }

  lemma QuietWalkFills(eq: DeepEqual, s: State, cfg: Config)
    requires Inv(s) && NothingChanges(eq, s, cfg)
    ensures Walk(eq, s, cfg).Filled?
    ensures forall id: Id :: id < |s.nodes| ==> !CalledIn(|s.calls|, Walk(eq, s, cfg).build.calls, id)
  {
    assert WellFormed(s) && Logged(s.nodes, s.calls) && SoundPrior(s.nodes, s.current, s.calls);
    FailedWalkLog(eq, s.nodes, cfg, s.current, s.calls, |s.nodes|);
    hide WalkTo, RunsAt, CalledIn, Logged, SoundPrior, Inv;
    forall id: Id | id < |s.nodes| ensures !CalledIn(|s.calls|, Walk(eq, s, cfg).Log(), id) {
      WalkRunsIff(eq, s.nodes, cfg, s.current, s.calls, id, |s.nodes|);
      QuietMeansNoRun(eq, s, cfg, id);
    }
    NothingToFailAt(s.nodes, cfg, |s.calls|, Walk(eq, s, cfg), Walk(eq, s, cfg).Log());
  }

  lemma QuietLoad(eq: DeepEqual, s: State, cfg: Config)
    requires Inv(s) && NothingChanges(eq, s, cfg)
    ensures var (t, reply) := ReloadLocked(eq, s, Accepted(cfg));
      && reply.Fine? && t.calls == s.calls && t.pending == s.pending
      && forall id: Id :: id < |s.nodes| && !s.nodes[id].IsRoot() ==>
           OldValue(t.current, id) == OldValue(s.current, id)
  {
    assert WellFormed(s) && Ordered(s.nodes, 0);
    hide *;
    FillsUnderInv(eq, s, cfg);
    var b := Walk(eq, s, cfg).build;
    QuietWalk(eq, s, cfg, b);
    QuietPublish(s, cfg, b);
    FilledLoad(eq, s, cfg, b);
  }

  lemma FilledLoad(eq: DeepEqual, s: State, cfg: Config, b: Build)
    requires Ordered(s.nodes, 0) && Walk(eq, s, cfg) == Filled(b)
    ensures ReloadLocked(eq, s, Accepted(cfg)) == (Publish(s, cfg, b), Fine)
  {
  }

  lemma FillsUnderInv(eq: DeepEqual, s: State, cfg: Config)
    requires Inv(s) && NothingChanges(eq, s, cfg)
    ensures Walk(eq, s, cfg).Filled?
    ensures WalkInv(eq, s.nodes, cfg, s.current, s.calls, Walk(eq, s, cfg).build, |s.nodes|)
    ensures forall id: Id :: id < |s.nodes| ==> !CalledIn(|s.calls|, Walk(eq, s, cfg).build.calls, id)
  {
    assert WellFormed(s) && Logged(s.nodes, s.calls) && SoundPrior(s.nodes, s.current, s.calls);
    QuietWalkFills(eq, s, cfg);
    WalkKeepsInv(eq, s.nodes, cfg, s.current, s.calls, |s.nodes|);
    hide Inv, Logged, SoundPrior, WalkInv, NothingChanges, CalledIn, WalkTo;
  }

  lemma QuietPublish(s: State, cfg: Config, b: Build)
    requires b.calls == s.calls
    requires forall was :: BatchFrom(s.nodes, b, was, |s.nodes|) == []
    requires forall id: Id :: id < |s.nodes| && !s.nodes[id].IsRoot() ==>
      id in b.values && Some(b.values[id]) == OldValue(s.current, id)
    ensures var t := Publish(s, cfg, b);
      && t.calls == s.calls && t.pending == s.pending
      && forall id: Id :: id < |s.nodes| && !s.nodes[id].IsRoot() ==>
           OldValue(t.current, id) == OldValue(s.current, id)
  {
    hide BatchFrom;
  }

  /** When nothing changes a load succeeds, runs no transform, schedules no release, and leaves every
      derived value as it was. */
  lemma QuietReload(eq: DeepEqual, events: seq<Event>, e: Event, cfg: Config)
    requires var s := After(eq, events); Loads(s, e, cfg) && NothingChanges(eq, s, cfg)
    ensures var s := After(eq, events);
      var (t, reply) := Next(eq, s, e);
      && reply.Fine? && t.calls == s.calls && t.pending == s.pending
      && forall id: Id :: id < |s.nodes| && !s.nodes[id].IsRoot() ==>
           OldValue(t.current, id) == OldValue(s.current, id)
  {
    var s := After(eq, events);
    ReachableInv(eq, events);
    LoadIsReload(eq, s, e, cfg);
    QuietLoad(eq, s, cfg);
    hide ReloadLocked, Inv, Next, NothingChanges, After;
  }

  lemma QuietWalk(eq: DeepEqual, s: State, cfg: Config, b: Build)
    requires WellFormed(s) && WalkInv(eq, s.nodes, cfg, s.current, s.calls, b, |s.nodes|)
    requires NothingChanges(eq, s, cfg)
    requires forall id: Id :: id < |s.nodes| ==> !CalledIn(|s.calls|, b.calls, id)
    ensures b.calls == s.calls
    ensures forall was :: BatchFrom(s.nodes, b, was, |s.nodes|) == []
    ensures forall id: Id :: id < |s.nodes| && !s.nodes[id].IsRoot() ==>
      id in b.values && Some(b.values[id]) == OldValue(s.current, id)
  {
    forall id: Id | id < |s.nodes| ensures !b.Dirty(id) {
      assert OldValue(s.current, id).Some?;
      if b.Dirty(id) {
        ReachedMeansChange(eq, s, cfg, b, |s.nodes|, id);
      }
    }
    NoCallsNoBatch(s, b);
  }

  lemma SomeDirty(batch: seq<Item>, b: Build, was: map<Id, Value>, k: nat)
    requires HoldsOld(batch, b, was, k) && batch != []
    ensures exists id: Id :: id < k && b.Dirty(id)
  {
    assert b.Dirty(batch[0].id);
  }

  lemma NoCallsNoBatch(s: State, b: Build)
    requires WellFormed(s) && s.calls <= b.calls && OncePerNode(|s.calls|, b, |s.nodes|)
    requires forall id: Id :: id < |s.nodes| ==> !b.Dirty(id) && !CalledIn(|s.calls|, b.calls, id)
    ensures b.calls == s.calls
    ensures forall was :: BatchFrom(s.nodes, b, was, |s.nodes|) == []
  {
    if |b.calls| > |s.calls| {
      assert CalledIn(|s.calls|, b.calls, b.calls[|s.calls|].id);
    }
    forall was ensures BatchFrom(s.nodes, b, was, |s.nodes|) == [] {
      BatchIsExact(s.nodes, b, was, |s.nodes|);
      if BatchFrom(s.nodes, b, was, |s.nodes|) != [] {
        SomeDirty(BatchFrom(s.nodes, b, was, |s.nodes|), b, was, |s.nodes|);
      }
    }
  }

  // ----- After the first successful Start -----

  ghost predicate Complete(s: State) {
    s.frozen && s.current.Some? && Covers(s.current.value.values, |s.nodes|)
  }

  lemma NextKeepsComplete(eq: DeepEqual, s: State, e: Event)
    requires Inv(s) && (Complete(s) || (e.Start? && !s.started && Next(eq, s, e).1.Fine?))
    ensures Complete(Next(eq, s, e).0)
  {
    match e
    case Reload(Accepted(cfg)) =>
      WalkKeepsInv(eq, s.nodes, cfg, s.current, s.calls, |s.nodes|);
    case Start(Accepted(cfg)) =>
      WalkKeepsInv(eq, s.nodes, cfg, s.current, s.calls, |s.nodes|);
    case _ =>
  }

  lemma {:induction false} CompleteForever(eq: DeepEqual, s: State, more: seq<Event>)
    requires Inv(s) && Complete(s)
    ensures Complete(Continue(eq, s, more))
    decreases |more|
  {
    if more != [] {
      NextKeepsComplete(eq, s, more[0]);
      NextKeepsInv(eq, s, more[0]);
      CompleteForever(eq, Next(eq, s, more[0]).0, more[1..]);
    }
  }

  /** After a successful Start every registered node has a value, whatever happens next. */
  lemma EveryNodePresentAfterStart(eq: DeepEqual, events: seq<Event>, input: Input, more: seq<Event>, id: Id)
    requires var s := After(eq, events); !s.started && Next(eq, s, Start(input)).1.Fine?
    ensures var t := Continue(eq, Next(eq, After(eq, events), Start(input)).0, more);
      t.current.Some? && (id < |t.nodes| <==> id in t.current.value.values)
  {
    var s := After(eq, events);
    ReachableInv(eq, events);
    NextKeepsComplete(eq, s, Start(input));
    NextKeepsInv(eq, s, Start(input));
    CompleteForever(eq, Next(eq, s, Start(input)).0, more);
  }
}
