/**
  Readers against reloads: `Val.Get` takes no lock. Here a reload is many steps (one per node, then
  one pointer store) and a Get is two (load the pointer, look the id up), in any interleaving.
 */
module Snapshots {
  import opened Wrappers
  import opened Dag
  import opened Rebuild
  import opened Lifecycle
  import opened Invariants
  import opened Runs

  /** A reload, or the load of a Start, that holds the lock: the walk so far, over the first `k` nodes. */
  datatype Flight = Flight(config: Config, starting: bool, walked: Walked, k: nat)

  /** A Get that has loaded the pointer, the version its goroutine last loaded, and whether a Start
      had succeeded by then. */
  datatype Reader = Reader(holding: Option<Generation>, seen: int, served: bool)

  datatype Read = Read(reader: nat, id: Id, version: int, served: bool, value: Option<Value>)

  /** `published`, `served` and `got` are history: every generation stored, how many had been stored
      when the first successful Start began, and every completed Get. */
  datatype World = World(mgr: State, flight: Option<Flight>, readers: map<nat, Reader>,
                         published: seq<Generation>, served: Option<nat>, got: seq<Read>)

  datatype Step =
    | Begin(config: Config, starting: bool)   // a Reload or a Start whose document is accepted
    | VisitNode
    | Finish
    | Atomic(event: Event)   // anything else the manager does
    | Load(reader: nat)
    | LookUp(reader: nat, id: Id)

  const NEW_WORLD := World(INITIAL, None, map[], [], None, [])

  function ReaderOf(w: World, r: nat): Reader {
    if r in w.readers then w.readers[r] else Reader(None, -1, false)
  }

  /** Cleanup goroutines take no lock; the rest waits for a reload to end. A Reload or Start whose
      document is rejected is one event, any other a flight. */
  predicate MayHappen(w: World, e: Event) {
    match e
    case CleanUp(_) => true
    case Register(_) => w.flight.None?
    case Stop => w.flight.None?
    case Reload(input) => w.flight.None? && input.Rejected?
    case Start(input) => w.flight.None? && input.Rejected?
  }

  ghost predicate Steppable(w: World) {
    && Ordered(w.mgr.nodes, 0)
    && (w.flight.Some? && w.flight.value.walked.Filled? && w.flight.value.k < |w.mgr.nodes| ==>
          Ready(w.mgr.nodes[w.flight.value.k], w.flight.value.walked.build))
  }

  function Publishing(w: World, cfg: Config, b: Build, starting: bool): World {
    var mgr := Publish(w.mgr, cfg, b);
    w.(flight := None,
       mgr := mgr.(started := mgr.started || starting),
       published := w.published + [mgr.current.value],
       served := if starting && w.served.None? then Some(|w.published|) else w.served)
  }

  function Advance(eq: DeepEqual, w: World, s: Step): World
    requires Steppable(w)
  {
    match s
    case Begin(cfg, starting) =>
      if w.flight.Some? || (starting && w.mgr.started) then w
      else
        w.(mgr := w.mgr.(frozen := w.mgr.frozen || starting),
           flight := Some(Flight(cfg, starting, Filled(NewBuild(w.mgr.calls)), 0)))
    case VisitNode =>
      if w.flight.None? || w.flight.value.walked.FailedAt? || w.flight.value.k >= |w.mgr.nodes| then w
      else
        var f := w.flight.value;
        var walked := Visit(eq, w.mgr.nodes[f.k], f.config, w.mgr.current, f.walked.build);
        w.(flight := Some(Flight(f.config, f.starting, walked, f.k + 1)))
    case Finish =>
      if w.flight.None? then w
      else if w.flight.value.walked.FailedAt? then
        w.(flight := None, mgr := Abort(w.mgr, w.flight.value.walked.calls))
      else if w.flight.value.k < |w.mgr.nodes| then w
      else
        Publishing(w, w.flight.value.config, w.flight.value.walked.build, w.flight.value.starting)
    case Atomic(e) => if MayHappen(w, e) then w.(mgr := Next(eq, w.mgr, e).0) else w
    case Load(r) =>
      if w.mgr.current.None? then w   // Get panics: nothing loaded yet
      else w.(readers := w.readers[r := Reader(w.mgr.current, w.mgr.current.value.version, w.served.Some?)])
    case LookUp(r, id) =>
      var reader := ReaderOf(w, r);
      if reader.holding.None? then w
      else
        var read := Read(r, id, reader.holding.value.version, reader.served, OldValue(reader.holding, id));
        w.(readers := w.readers[r := reader.(holding := None)], got := w.got + [read])
  }

  // ----- What every interleaving keeps -----

  ghost predicate FlightInv(eq: DeepEqual, w: World) {
    Ordered(w.mgr.nodes, 0) &&
    match w.flight
    case None => true
    case Some(f) =>
      && f.k <= |w.mgr.nodes|
      && f.walked == WalkTo(eq, w.mgr.nodes, 0, f.config, w.mgr.current, NewBuild(w.mgr.calls), f.k)
      && (f.starting ==> w.mgr.frozen && !w.mgr.started)
  }

  ghost predicate PublishedInv(w: World) {
    && (forall i :: 0 <= i < |w.published| ==>
          w.published[i].version == i
          && Sound(w.mgr.nodes, w.published[i].config, w.published[i].values, w.mgr.calls, |w.published[i].values|))
    && w.mgr.current == (if w.published == [] then None else Some(w.published[|w.published| - 1]))
  }

  /** What a reader holds was published, and is at least as new as anything it read before. */
  ghost predicate ReadersInv(w: World) {
    && (forall r :: r in w.readers ==>
          && w.readers[r].seen < |w.published|
          && (w.readers[r].holding.Some? ==>
                0 <= w.readers[r].seen && w.readers[r].holding.value == w.published[w.readers[r].seen]))
    && (forall i :: 0 <= i < |w.got| ==>
          && w.got[i].reader in w.readers
          && 0 <= w.got[i].version <= w.readers[w.got[i].reader].seen
          && w.got[i].version < |w.published|
          && w.got[i].value == OldValue(Some(w.published[w.got[i].version]), w.got[i].id))
    && (forall i, j :: 0 <= i < j < |w.got| && w.got[i].reader == w.got[j].reader ==>
          w.got[i].version <= w.got[j].version)
  }

  /** Since the first successful Start no node is added, and every generation covers all nodes. */
  ghost predicate ServedInv(w: World) {
    && (w.served.Some? ==>
          && w.mgr.frozen && w.served.value < |w.published|
          && forall i :: w.served.value <= i < |w.published| ==> Covers(w.published[i].values, |w.mgr.nodes|))
    && (forall r :: r in w.readers && w.readers[r].served ==> w.served.Some? && w.served.value <= w.readers[r].seen)
    && (forall i :: 0 <= i < |w.got| && w.got[i].served ==>
          w.served.Some? && w.served.value <= w.got[i].version < |w.published|
          && w.got[i].value == OldValue(Some(w.published[w.got[i].version]), w.got[i].id))
  }

  ghost predicate WorldInv(eq: DeepEqual, w: World) {
    Inv(w.mgr) && FlightInv(eq, w) && PublishedInv(w) && ReadersInv(w) && ServedInv(w)
  }

  lemma WorldSteppable(eq: DeepEqual, w: World)
    requires FlightInv(eq, w)
    ensures Steppable(w)
  {
    if w.flight.Some? && w.flight.value.k < |w.mgr.nodes| {
      assert w.mgr.nodes[w.flight.value.k].id == w.flight.value.k;
    }
  }

  /** Published generations stay sound as nodes and calls are added. */
  lemma PublishedStaysSound(s: State, t: State, gen: Generation)
    requires Ordered(s.nodes, 0) && s.nodes <= t.nodes && s.calls <= t.calls
    requires Sound(s.nodes, gen.config, gen.values, s.calls, |gen.values|)
    ensures Sound(t.nodes, gen.config, gen.values, t.calls, |gen.values|)
  {
    forall id: Id | id < |gen.values| ensures Explained(t.nodes, gen.config, gen.values, t.calls, id) {
      assert Explained(s.nodes, gen.config, gen.values, s.calls, id);
      if !t.nodes[id].IsRoot() {
        var i :| 0 <= i < |s.calls| && MadeBy(s.nodes, gen.values, s.calls[i], id);
        ParentsComeFirst(s.nodes, id);
        assert MadeBy(t.nodes, gen.values, t.calls[i], id);
      }
    }
  }

  lemma AllStaySound(w: World, t: State)
    requires Ordered(w.mgr.nodes, 0) && PublishedInv(w) && w.mgr.nodes <= t.nodes && w.mgr.calls <= t.calls
    ensures forall i :: 0 <= i < |w.published| ==>
      Sound(t.nodes, w.published[i].config, w.published[i].values, t.calls, |w.published[i].values|)
  {
    forall i | 0 <= i < |w.published|
      ensures Sound(t.nodes, w.published[i].config, w.published[i].values, t.calls, |w.published[i].values|)
    {
      PublishedStaysSound(w.mgr, t, w.published[i]);
    }
  }

  lemma VisitKeepsWorld(eq: DeepEqual, w: World)
    requires WorldInv(eq, w) && Steppable(w)
    ensures WorldInv(eq, Advance(eq, w, VisitNode))
  {
    hide Inv, Sound, Visit;
  }

  lemma AbortKeepsWorld(eq: DeepEqual, w: World, calls: seq<Call>)
    requires WorldInv(eq, w) && w.mgr.calls <= calls && Logged(w.mgr.nodes, calls)
    ensures WorldInv(eq, w.(flight := None, mgr := Abort(w.mgr, calls)))
  {
    AbortKeepsInv(w.mgr, calls);
    AllStaySound(w, Abort(w.mgr, calls));
    hide Inv, Sound;
  }

  lemma PublishKeepsWorld(eq: DeepEqual, w: World, cfg: Config, b: Build, starting: bool)
    requires WorldInv(eq, w) && (starting ==> w.mgr.frozen)
    requires WalkInv(eq, w.mgr.nodes, cfg, w.mgr.current, w.mgr.calls, b, |w.mgr.nodes|)
    ensures WorldInv(eq, Publishing(w, cfg, b, starting))
  {
    var t := Publish(w.mgr, cfg, b);
    PublishKeepsInv(eq, w.mgr, cfg, b);
    FlagsKeepInv(t, t.frozen, t.started || starting);
    PublishedGrows(w, cfg, b, starting);
    ServedGrows(w, Publishing(w, cfg, b, starting), t.current.value);
    assert WellFormed(t);
    ReadersSeeMore(w, Publishing(w, cfg, b, starting));
    hide Inv, WalkInv, PublishedInv, ReadersInv, ServedInv, Ordered, Publish;
  }

  lemma PublishedGrows(w: World, cfg: Config, b: Build, starting: bool)
    requires Ordered(w.mgr.nodes, 0) && PublishedInv(w)
    requires w.mgr.calls <= b.calls && Sound(w.mgr.nodes, cfg, b.values, b.calls, |w.mgr.nodes|)
    ensures PublishedInv(Publishing(w, cfg, b, starting))
  {
    var t := Publish(w.mgr, cfg, b);
    assert b.calls == t.calls && w.mgr.calls <= t.calls && |b.values| == |w.mgr.nodes|;
    AllStaySound(w, t);
    OneMorePublished(w, Publishing(w, cfg, b, starting), t.current.value);
  }

  lemma OneMorePublished(w: World, t: World, gen: Generation)
    requires PublishedInv(w) && t.published == w.published + [gen] && t.mgr.current == Some(gen)
    requires gen.version == |w.published| && Sound(t.mgr.nodes, gen.config, gen.values, t.mgr.calls, |gen.values|)
    requires forall i :: 0 <= i < |w.published| ==>
      Sound(t.mgr.nodes, w.published[i].config, w.published[i].values, t.mgr.calls, |w.published[i].values|)
    ensures PublishedInv(t)
  {
    hide Sound;
  }

  lemma ServedGrows(w: World, t: World, gen: Generation)
    requires ServedInv(w) && t.readers == w.readers && t.got == w.got && t.published == w.published + [gen]
    requires t.mgr.nodes == w.mgr.nodes && t.mgr.frozen == w.mgr.frozen && Covers(gen.values, |w.mgr.nodes|)
    requires t.served == w.served || (w.served == None && t.served == Some(|w.published|) && w.mgr.frozen)
    ensures ServedInv(t)
  {
    hide Covers;
  }

  lemma ReadersSeeMore(w: World, t: World)
    requires ReadersInv(w) && t.readers == w.readers && t.got == w.got && w.published <= t.published
    ensures ReadersInv(t)
  {
  }

  /** What the walk of a flight has kept so far. */
  lemma FlightWalked(eq: DeepEqual, w: World)
    requires WorldInv(eq, w) && w.flight.Some?
    ensures var f := w.flight.value;
      && Ordered(w.mgr.nodes, 0) && (f.starting ==> w.mgr.frozen) && f.k <= |w.mgr.nodes|
      && (f.walked.FailedAt? ==> w.mgr.calls <= f.walked.calls && Logged(w.mgr.nodes, f.walked.calls))
      && (f.walked.Filled? ==>
            WalkInv(eq, w.mgr.nodes, f.config, w.mgr.current, w.mgr.calls, f.walked.build, f.k))
  {
    var f := w.flight.value;
    assert Inv(w.mgr);
    WalkKeepsInv(eq, w.mgr.nodes, f.config, w.mgr.current, w.mgr.calls, f.k);
    hide Inv, WalkInv, PublishedInv, ReadersInv, ServedInv, Logged;
  }

  lemma FinishKeepsWorld(eq: DeepEqual, w: World)
    requires WorldInv(eq, w) && Steppable(w)
    ensures WorldInv(eq, Advance(eq, w, Finish))
  {
    if w.flight.Some? {
      FlightWalked(eq, w);
      var f := w.flight.value;
      FinishCases(eq, w);
      hide *;
      match f.walked
      case FailedAt(_, calls) => AbortKeepsWorld(eq, w, calls);
      case Filled(b) =>
        if f.k >= |w.mgr.nodes| {
          PublishKeepsWorld(eq, w, f.config, b, f.starting);
        }
    } else {
      NoFlightNoFinish(eq, w);
      hide *;
    }
  }

  lemma NoFlightNoFinish(eq: DeepEqual, w: World)
    requires Steppable(w) && w.flight.None?
    ensures Advance(eq, w, Finish) == w
  {
  }

  lemma FinishCases(eq: DeepEqual, w: World)
    requires Steppable(w) && w.flight.Some?
    ensures var f, t := w.flight.value, Advance(eq, w, Finish);
      if f.walked.FailedAt? then t == w.(flight := None, mgr := Abort(w.mgr, f.walked.calls))
      else if f.k < |w.mgr.nodes| then t == w
      else t == Publishing(w, f.config, f.walked.build, f.starting)
  {
    hide Abort, Publishing, Visit, Next;
  }

  lemma AtomicKeepsWorld(eq: DeepEqual, w: World, e: Event)
    requires WorldInv(eq, w) && Steppable(w)
    ensures WorldInv(eq, Advance(eq, w, Atomic(e)))
  {
    if MayHappen(w, e) {
      NextKeepsInv(eq, w.mgr, e);
      NextOnlyAdds(eq, w.mgr, e);
      AllStaySound(w, Next(eq, w.mgr, e).0);
      hide Inv, Sound;
    }
  }

  lemma BeginKeepsWorld(eq: DeepEqual, w: World, cfg: Config, starting: bool)
    requires WorldInv(eq, w) && Steppable(w)
    ensures WorldInv(eq, Advance(eq, w, Begin(cfg, starting)))
  {
    FlagsKeepInv(w.mgr, w.mgr.frozen || starting, w.mgr.started);
    hide Inv, Sound, ReadersInv;
  }

  lemma ReaderKeepsWorld(eq: DeepEqual, w: World, s: Step)
    requires WorldInv(eq, w) && Steppable(w) && (s.Load? || s.LookUp?)
    ensures WorldInv(eq, Advance(eq, w, s))
  {
    if s.Load? {
      LoadKeepsWorld(eq, w, s.reader);
    } else {
      LookUpKeepsWorld(eq, w, s.reader, s.id);
    }
    hide WorldInv, Advance;
  }

  lemma LoadKeepsWorld(eq: DeepEqual, w: World, r: nat)
    requires WorldInv(eq, w) && Steppable(w)
    ensures WorldInv(eq, Advance(eq, w, Load(r)))
  {
    hide Inv, Sound, Covers, Visit, WalkTo, Next, Publish, Abort;
  }

  lemma LookUpKeepsWorld(eq: DeepEqual, w: World, r: nat, id: Id)
    requires WorldInv(eq, w) && Steppable(w)
    ensures WorldInv(eq, Advance(eq, w, LookUp(r, id)))
  {
    hide Inv, Sound, Covers, Visit, WalkTo, Next, Publish, Abort;
  }

  lemma AdvanceKeepsWorld(eq: DeepEqual, w: World, s: Step)
    requires WorldInv(eq, w) && Steppable(w)
    ensures WorldInv(eq, Advance(eq, w, s))
  {
    hide WorldInv, Advance;
    match s
    case VisitNode => VisitKeepsWorld(eq, w);
    case Finish => FinishKeepsWorld(eq, w);
    case Atomic(e) => AtomicKeepsWorld(eq, w, e);
    case Begin(cfg, starting) => BeginKeepsWorld(eq, w, cfg, starting);
    case _ => ReaderKeepsWorld(eq, w, s);
  }

  ghost function Interleave(eq: DeepEqual, steps: seq<Step>): (w: World)
    ensures WorldInv(eq, w)
  {
    if steps == [] then NewWorldInv(eq); NEW_WORLD
    else
      var w := Interleave(eq, steps[..|steps| - 1]);
      WorldSteppable(eq, w);
      AdvanceKeepsWorld(eq, w, steps[|steps| - 1]);
      Advance(eq, w, steps[|steps| - 1])
  }

  lemma NewWorldInv(eq: DeepEqual)
    ensures WorldInv(eq, NEW_WORLD)
  {
  }

  /** Each Get reads one fully built generation: its very value, if any, which means what evaluating the DAG
      afresh on that generation's config gives, and a node it covers is never missing. */
  lemma GetReadsOneSnapshot(eq: DeepEqual, steps: seq<Step>, i: nat, moment: nat)
    requires i < |Interleave(eq, steps).got|
    ensures var w := Interleave(eq, steps);
      var read := w.got[i];
      && 0 <= read.version < |w.published|
      && var gen := w.published[read.version];
         && gen.version == read.version && |gen.values| <= |w.mgr.nodes|
         && var e := Scratch(w.mgr.nodes, 0, map[], gen.config, moment, |gen.values|);
            && e.Done?
            && read.value == OldValue(Some(gen), read.id)
            && (read.value.Some? <==> read.id < |gen.values|)
            && (read.value.Some? ==> read.value.value.meaning == e.values[read.id].meaning)
  {
    var w := Interleave(eq, steps);
    var gen := w.published[w.got[i].version];
    SoundMeansScratch(w.mgr.nodes, gen.config, gen.values, w.mgr.calls, |gen.values|, moment, |gen.values|);
  }

  /** A Get, once some generation is live, loads that generation and reads its value for the node. */
  lemma GetReadsTheLiveGeneration(eq: DeepEqual, steps: seq<Step>, r: nat, id: Id)
    requires Interleave(eq, steps).mgr.current.Some?
    ensures var w, t := Interleave(eq, steps), Interleave(eq, steps + [Load(r)] + [LookUp(r, id)]);
      && |t.got| == |w.got| + 1 && t.got[..|w.got|] == w.got && t.mgr == w.mgr
      && t.got[|w.got|].reader == r && t.got[|w.got|].id == id
      && t.got[|w.got|].version == w.mgr.current.value.version
      && t.got[|w.got|].value ==
           if id in w.mgr.current.value.values then Some(w.mgr.current.value.values[id]) else None
  {
    OneStepOn(eq, steps, Load(r));
    OneStepOn(eq, steps + [Load(r)], LookUp(r, id));
    hide WorldInv, Interleave, Visit, Next, Publish, Abort;
  }

  /** The versions one goroutine reads never go down. */
  lemma VersionsNeverGoDown(eq: DeepEqual, steps: seq<Step>)
    ensures var got := Interleave(eq, steps).got;
      forall i, j :: 0 <= i < j < |got| && got[i].reader == got[j].reader ==> got[i].version <= got[j].version
  {
    assert WorldInv(eq, Interleave(eq, steps));
  }

  /** The event that a flight amounts to. */
  function FlightEvent(f: Flight): Event {
    if f.starting then Start(Accepted(f.config)) else Reload(Accepted(f.config))
  }

  predicate Landed(w: World) {
    w.flight.Some? && (w.flight.value.k == |w.mgr.nodes| || w.flight.value.walked.FailedAt?)
  }

  lemma FlightIsWalk(eq: DeepEqual, w: World)
    requires FlightInv(eq, w) && Landed(w)
    ensures w.flight.value.walked == Walk(eq, w.mgr, w.flight.value.config)
  {
    var f := w.flight.value;
    if f.walked.FailedAt? {
      FailedStays(eq, w.mgr, f.config, f.k);
    }
  }

  lemma LandingIsEvent(eq: DeepEqual, w: World)
    requires FlightInv(eq, w) && PublishedInv(w) && Steppable(w) && Landed(w)
    ensures var t := Advance(eq, w, Finish);
      var (mgr, reply) := Next(eq, w.mgr, FlightEvent(w.flight.value));
      && t.mgr == mgr
      && (reply.Fine? ==>
            t.published == w.published + [mgr.current.value] && mgr.current.value.version == |w.published|)
      && (!reply.Fine? ==> t.published == w.published && mgr.current == w.mgr.current)
  {
    FlightIsWalk(eq, w);
    assert w.flight.value.starting ==> w.mgr.(frozen := true) == w.mgr;
    hide WalkTo, BatchFrom, Visit, Ready, Sound;
  }

  /** A reload, or the load of a Start, that runs node by node ends, whatever its readers do meanwhile,
      as the one-step event: a success stores one generation, one version up; a failure leaves the
      pointer alone. */
  lemma FinishIsReload(eq: DeepEqual, steps: seq<Step>)
    ensures var w := Interleave(eq, steps);
      Landed(w) ==>
        var t := Interleave(eq, steps + [Finish]);
        var (mgr, reply) := Next(eq, w.mgr, FlightEvent(w.flight.value));
        && t.mgr == mgr
        && (reply.Fine? ==>
              t.published == w.published + [mgr.current.value] && mgr.current.value.version == |w.published|)
        && (!reply.Fine? ==> t.published == w.published && mgr.current == w.mgr.current)
  {
    hide Advance, Next, Inv, Sound;
    var w := Interleave(eq, steps);
    assert (steps + [Finish])[..|steps|] == steps;
    WorldSteppable(eq, w);
    if Landed(w) {
      LandingIsEvent(eq, w);
    }
  }

  // ----- What the lock allows -----

  /** While a reload holds the lock, whatever else needs it does not happen; cleanup goroutines go on. */
  lemma LockIsHeld(eq: DeepEqual, steps: seq<Step>, e: Event, cfg: Config, starting: bool)
    requires Interleave(eq, steps).flight.Some?
    ensures var w := Interleave(eq, steps);
      && Interleave(eq, steps + [Begin(cfg, starting)]) == w
      && Interleave(eq, steps + [Atomic(e)]) == if e.CleanUp? then w.(mgr := Next(eq, w.mgr, e).0) else w
  {
    OneStepOn(eq, steps, Begin(cfg, starting));
    OneStepOn(eq, steps, Atomic(e));
    hide WorldInv, Interleave, Visit, Next, Publish, Abort;
  }

  /** How many nodes a flight has yet to visit. */
  function Ahead(w: World): nat {
    if w.flight.Some? && w.flight.value.k <= |w.mgr.nodes| then |w.mgr.nodes| - w.flight.value.k else 0
  }

  lemma FlightInNodes(eq: DeepEqual, w: World)
    requires WorldInv(eq, w) && w.flight.Some?
    ensures w.flight.value.k <= |w.mgr.nodes|
  {
    assert FlightInv(eq, w);
  }

  lemma VisitOneMore(eq: DeepEqual, w: World)
    requires Steppable(w) && w.flight.Some? && !Landed(w) && w.flight.value.k <= |w.mgr.nodes|
    ensures var t := Advance(eq, w, VisitNode);
      && t.flight.Some? && t.mgr == w.mgr && Ahead(t) < Ahead(w)
      && FlightEvent(t.flight.value) == FlightEvent(w.flight.value)
  {
    hide Visit;
  }

  /** A reload that holds the lock gets to its end. */
  lemma {:induction false} FlightLands(eq: DeepEqual, steps: seq<Step>) returns (more: seq<Step>)
    requires Interleave(eq, steps).flight.Some?
    ensures var w, t := Interleave(eq, steps), Interleave(eq, steps + more);
      Landed(t) && t.mgr == w.mgr && FlightEvent(t.flight.value) == FlightEvent(w.flight.value)
    decreases Ahead(Interleave(eq, steps))
  {
    hide *;
    var w := Interleave(eq, steps);
    FlightInNodes(eq, w);
    if Landed(w) {
      more := [];
      assert steps + more == steps;
    } else {
      OneStepOn(eq, steps, VisitNode);
      VisitOneMore(eq, w);
      var rest := FlightLands(eq, steps + [VisitNode]);
      more := [VisitNode] + rest;
      assert steps + more == (steps + [VisitNode]) + rest;
    }
  }

  lemma BeginStarts(eq: DeepEqual, w: World, cfg: Config, starting: bool)
    requires Steppable(w) && w.flight.None? && !(starting && w.mgr.started)
    ensures var t := Advance(eq, w, Begin(cfg, starting));
      && t.flight.Some?
      && FlightEvent(t.flight.value) == (if starting then Start(Accepted(cfg)) else Reload(Accepted(cfg)))
      && Next(eq, t.mgr, FlightEvent(t.flight.value)) == Next(eq, w.mgr, FlightEvent(t.flight.value))
  {
    hide WalkTo, BatchFrom;
    assert !starting ==> w.mgr.(frozen := w.mgr.frozen) == w.mgr;
  }

  /** Every event of the machine happens among the readers, once the lock is free: the stepwise system
      can do all that the one-step machine does. */
  lemma EveryEventHappens(eq: DeepEqual, steps: seq<Step>, e: Event) returns (more: seq<Step>)
    requires Interleave(eq, steps).flight.None?
    ensures Interleave(eq, steps + more).mgr == Next(eq, Interleave(eq, steps).mgr, e).0
  {
    var w := Interleave(eq, steps);
    hide Interleave, WorldInv;
    OneStepOn(eq, steps, Atomic(e));
    if (e.Start? || e.Reload?) && e.input.Accepted? {
      if e.Start? && w.mgr.started {
        more := [];
        assert steps + more == steps;
      } else {
        var begin := Begin(e.input.config, e.Start?);
        OneStepOn(eq, steps, begin);
        BeginStarts(eq, w, e.input.config, e.Start?);
        hide Advance, Next;
        var visits := FlightLands(eq, steps + [begin]);
        more := [begin] + visits + [Finish];
        FinishIsReload(eq, steps + [begin] + visits);
        assert steps + more == (steps + [begin] + visits) + [Finish];
      }
    } else {
      more := [Atomic(e)];
      hide Next;
    }
  }

  // ----- After the first successful Start -----

  lemma OneStepOn(eq: DeepEqual, steps: seq<Step>, s: Step)
    ensures Steppable(Interleave(eq, steps))
    ensures Interleave(eq, steps + [s]) == Advance(eq, Interleave(eq, steps), s)
  {
    hide Advance;
    WorldSteppable(eq, Interleave(eq, steps));
    assert (steps + [s])[..|steps|] == steps;
    hide WorldInv;
  }

  lemma AdvanceKeepsServed(eq: DeepEqual, w: World, s: Step)
    requires Steppable(w) && w.served.Some?
    ensures Advance(eq, w, s).served.Some?
  {
    hide Visit, Next, Publish, Abort;
  }

  lemma {:induction false} ServedStays(eq: DeepEqual, steps: seq<Step>, more: seq<Step>)
    requires Interleave(eq, steps).served.Some?
    ensures Interleave(eq, steps + more).served.Some?
  {
    hide *;
    if more == [] {
      assert steps + more == steps;
    } else {
      var init, last := more[..|more| - 1], more[|more| - 1];
      ServedStays(eq, steps, init);
      assert steps + more == (steps + init) + [last];
      OneStepOn(eq, steps + init, last);
      AdvanceKeepsServed(eq, Interleave(eq, steps + init), last);
    }
  }

  /** The load of a Start is about to succeed. */
  predicate StartLands(w: World) {
    w.flight.Some? && w.flight.value.starting && w.flight.value.k == |w.mgr.nodes| && w.flight.value.walked.Filled?
  }

  lemma LandedStartServes(eq: DeepEqual, w: World)
    requires Steppable(w) && StartLands(w)
    ensures Advance(eq, w, Finish).served.Some?
  {
    hide Visit, Next, Publish, Abort;
  }

  lemma LoadIsServed(eq: DeepEqual, w: World, r: nat)
    requires Steppable(w) && PublishedInv(w) && ServedInv(w) && w.served.Some?
    ensures var t := Advance(eq, w, Load(r)); r in t.readers && t.readers[r].served
  {
    hide Visit, Next, Publish, Abort, Sound, Covers;
  }

  /** A Get that loads the pointer after a successful Start, however much later, counts as served... */
  lemma LoadsAfterStartAreServed(eq: DeepEqual, steps: seq<Step>, more: seq<Step>, r: nat)
    requires StartLands(Interleave(eq, steps))
    ensures var t := Interleave(eq, steps + [Finish] + more + [Load(r)]); r in t.readers && t.readers[r].served
  {
    var before := steps + [Finish] + more;
    assert PublishedInv(Interleave(eq, before)) && ServedInv(Interleave(eq, before)) by {
      assert WorldInv(eq, Interleave(eq, before));
      hide PublishedInv, ServedInv, Inv, FlightInv, ReadersInv;
    }
    hide *;
    OneStepOn(eq, steps, Finish);
    LandedStartServes(eq, Interleave(eq, steps));
    ServedStays(eq, steps + [Finish], more);
    OneStepOn(eq, before, Load(r));
    LoadIsServed(eq, Interleave(eq, before), r);
  }

  /** ... and finds a value for every registered id, and for no other, in every interleaving. */
  lemma ServedGetsMissNothing(eq: DeepEqual, steps: seq<Step>)
    ensures var w := Interleave(eq, steps);
      forall i :: 0 <= i < |w.got| && w.got[i].served ==> (w.got[i].value.Some? <==> w.got[i].id < |w.mgr.nodes|)
  {
    var w := Interleave(eq, steps);
    assert ServedInv(w);
    hide Inv, FlightInv, ReadersInv, PublishedInv;
    forall i | 0 <= i < |w.got| && w.got[i].served ensures w.got[i].value.Some? <==> w.got[i].id < |w.mgr.nodes| {
      assert Covers(w.published[w.got[i].version].values, |w.mgr.nodes|);
    }
  }

  lemma {:induction false} FailedStays(eq: DeepEqual, s: State, cfg: Config, k: nat)
    requires Ordered(s.nodes, 0) && k <= |s.nodes|
    requires WalkTo(eq, s.nodes, 0, cfg, s.current, NewBuild(s.calls), k).FailedAt?
    ensures Walk(eq, s, cfg) == WalkTo(eq, s.nodes, 0, cfg, s.current, NewBuild(s.calls), k)
    decreases |s.nodes| - k
  {
    if k < |s.nodes| {
      FailedStays(eq, s, cfg, k + 1);
    }
  }
}
