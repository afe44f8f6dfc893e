/**
  resolveSecretsCached (secretref.go): the cache that the watch goroutine and reloads share. The
  check and the store are critical sections; between them a caller resolves without the lock, so
  any number of callers interleave.
 */
module Cache {
  import opened Wrappers
  import opened ByteStrings
  import opened Secrets
  import Pool

  /** `every` is the refresh interval, `names` the distinct names in a document (the config type is
      fixed), `limit` a bound on the time from the start of a resolution to its store. */
  datatype Params = Params(seal: Seal, every: int, names: Bytes -> set<string>, limit: nat)

  datatype Entry = Entry(data: Bytes, values: map<string, Secret>, at: int, begun: int)

  datatype Phase =
    | Resolving(begun: int)
    | Resolved(values: map<string, Secret>, begun: int)
    | Returned(values: map<string, Secret>, begun: int, time: int)
    | Failed

  datatype Caller = Caller(data: Bytes, phase: Phase)

  /** `stores` is history: when each successful resolution was stored. */
  datatype World = World(clock: int, entry: Entry, callers: seq<Caller>, stores: seq<int>)

  datatype Step =
    | Tick(dt: nat)
    | Enter(data: Bytes)
    | Resolve(i: nat, values: Option<map<string, Secret>>)
    | Store(i: nat)

  /** Nothing cached: the zero time is further back than any interval. */
  function NewWorld(p: Params): World {
    var longAgo := if p.every > 0 then -p.every else 0;
    World(0, Entry([], map[], longAgo, longAgo), [], [])
  }

  predicate Hit(p: Params, w: World, data: Bytes) {
    p.every > 0 && data == w.entry.data && w.clock - w.entry.at < p.every
  }

  function SetPhase(w: World, i: nat, phase: Phase): World
    requires i < |w.callers|
  {
    w.(callers := w.callers[i := w.callers[i].(phase := phase)])
  }

  /** A resolution gives what the pool gives: a Secret of its own name for exactly the names. */
  ghost predicate Enabled(p: Params, w: World, step: Step) {
    match step
    case Tick(_) => true
    case Enter(_) => true
    case Resolve(i, answer) =>
      && i < |w.callers| && w.callers[i].phase.Resolving?
      && (answer.Some? ==> Pool.ExactlyResolved(p.seal, answer.value, p.names(w.callers[i].data)))
    case Store(i) =>
      && i < |w.callers| && w.callers[i].phase.Resolved?
      && w.clock - w.callers[i].phase.begun <= p.limit
  }

  ghost function Next(p: Params, w: World, step: Step): World
    requires Enabled(p, w, step)
  {
    match step
    case Tick(dt) => w.(clock := w.clock + dt)
    case Enter(data) =>
      var phase := if Hit(p, w, data) then Returned(w.entry.values, w.entry.begun, w.clock) else Resolving(w.clock);
      w.(callers := w.callers + [Caller(data, phase)])
    case Resolve(i, None) => SetPhase(w, i, Failed)
    case Resolve(i, Some(values)) => SetPhase(w, i, Resolved(values, w.callers[i].phase.begun))
    case Store(i) =>
      var c := w.callers[i];
      var done := SetPhase(w, i, Returned(c.phase.values, c.phase.begun, w.clock));
      if p.every <= 0 then done   // returned without touching the cache
      else done.(entry := Entry(c.data, c.phase.values, w.clock, c.phase.begun), stores := w.stores + [w.clock])
  }

  // ----- What every interleaving keeps -----

  ghost predicate CallerInv(p: Params, w: World, c: Caller) {
    match c.phase
    case Resolving(begun) => begun <= w.clock
    case Resolved(values, begun) => begun <= w.clock && Pool.ExactlyResolved(p.seal, values, p.names(c.data))
    case Returned(values, begun, time) =>
      time <= w.clock && Pool.ExactlyResolved(p.seal, values, p.names(c.data))
      && time - begun < p.limit + (if p.every > 0 then p.every else 1)
    case Failed => true
  }

  ghost predicate Inv(p: Params, w: World) {
    && w.clock >= 0 && w.entry.at <= w.clock
    && (w.stores == [] ==> p.every > 0 ==> w.entry.at == -p.every)
    && (w.stores != [] ==>
          w.entry.at - w.entry.begun <= p.limit && Pool.ExactlyResolved(p.seal, w.entry.values, p.names(w.entry.data)))
    && forall i :: 0 <= i < |w.callers| ==> CallerInv(p, w, w.callers[i])
  }

  lemma StepKeepsInv(p: Params, w: World, step: Step)
    requires Inv(p, w) && Enabled(p, w, step)
    ensures Inv(p, Next(p, w, step))
  {
    var t := Next(p, w, step);
    forall i | 0 <= i < |t.callers| ensures CallerInv(p, t, t.callers[i]) {
      if i < |w.callers| {
        assert CallerInv(p, w, w.callers[i]);
      }
    }
  }

  /** The world after the steps of a run; a step that is not enabled does not happen. */
  ghost function After(p: Params, w: World, steps: seq<Step>): World {
    if steps == [] then w
    else
      var before := After(p, w, steps[..|steps| - 1]);
      var step := steps[|steps| - 1];
      if Enabled(p, before, step) then Next(p, before, step) else before
  }

  lemma {:induction false} ReachableInv(p: Params, steps: seq<Step>)
    ensures Inv(p, After(p, NewWorld(p), steps))
  {
    if steps != [] {
      var init, last := steps[..|steps| - 1], steps[|steps| - 1];
      ReachableInv(p, init);
      if Enabled(p, After(p, NewWorld(p), init), last) {
        StepKeepsInv(p, After(p, NewWorld(p), init), last);
      }
    }
  }

  /** Cache coherence: whatever the interleaving, and whichever documents the callers hold, the
      values a caller gets have exactly the distinct names of its own document, each Secret
      resolved for its own name. */
  lemma ValuesFitTheDocument(p: Params, steps: seq<Step>, i: nat)
    requires var w := After(p, NewWorld(p), steps); i < |w.callers| && w.callers[i].phase.Returned?
    ensures var c := After(p, NewWorld(p), steps).callers[i];
      Pool.ExactlyResolved(p.seal, c.phase.values, p.names(c.data))
  {
    ReachableInv(p, steps);
    assert CallerInv(p, After(p, NewWorld(p), steps), After(p, NewWorld(p), steps).callers[i]);
  }

  /** Values returned at time t come from a resolution begun after t - every - limit, even when
      callers overlap. */
  lemma ValuesAreRecent(p: Params, steps: seq<Step>, i: nat)
    requires p.every > 0
    requires var w := After(p, NewWorld(p), steps); i < |w.callers| && w.callers[i].phase.Returned?
    ensures var ret := After(p, NewWorld(p), steps).callers[i].phase; ret.begun > ret.time - p.every - p.limit
  {
    ReachableInv(p, steps);
    assert CallerInv(p, After(p, NewWorld(p), steps), After(p, NewWorld(p), steps).callers[i]);
  }

  /** A miss stays a miss until some caller stores: a failed resolution leaves the cache as it was,
      so an expired entry stays expired and the next call tries again. */
  lemma {:induction false} MissesUntilStored(p: Params, w: World, data: Bytes, steps: seq<Step>)
    requires !Hit(p, w, data) && forall n :: 0 <= n < |steps| ==> !steps[n].Store?
    ensures var t := After(p, w, steps);
      && t.entry == w.entry && w.clock <= t.clock
      && Next(p, t, Enter(data)).callers[|t.callers|].phase == Resolving(t.clock)
  {
    if steps != [] {
      MissesUntilStored(p, w, data, steps[..|steps| - 1]);
    }
  }

  /** A failed resolution leaves the cache, and every other caller, as it was. */
  lemma FailureLeavesCache(p: Params, w: World, i: nat)
    requires i < |w.callers| && w.callers[i].phase.Resolving?
    ensures Enabled(p, w, Resolve(i, None))
    ensures Next(p, w, Resolve(i, None)) ==
      World(w.clock, w.entry, w.callers[..i] + [Caller(w.callers[i].data, Failed)] + w.callers[i + 1..], w.stores)
  {
  }

  /** After a store, and until the next, a call gets cached values if and only if it has the same bytes
      and comes within the interval; they are then exactly the stored ones. Other bytes resolve at once. */
  lemma {:induction false} StoredValuesServe(p: Params, w: World, i: nat, steps: seq<Step>, bytes: Bytes)
    requires p.every > 0 && Enabled(p, w, Store(i)) && forall n :: 0 <= n < |steps| ==> !steps[n].Store?
    ensures var data, values := w.callers[i].data, w.callers[i].phase.values;
      var t := After(p, Next(p, w, Store(i)), steps);
      && w.clock <= t.clock && t.entry == Next(p, w, Store(i)).entry
      && Next(p, t, Enter(bytes)).callers[|t.callers|] == Caller(bytes,
           if bytes == data && t.clock - w.clock < p.every then Returned(values, w.callers[i].phase.begun, t.clock)
           else Resolving(t.clock))
  {
    if steps != [] {
      StoredValuesServe(p, w, i, steps[..|steps| - 1], bytes);
    }
  }

  // ----- The rate bound -----

  predicate Busy(c: Caller) { c.phase.Resolving? || c.phase.Resolved? }

  /** Calls that do not overlap, all on the bytes `data`. */
  ghost predicate Alone(p: Params, w: World, data: Bytes, step: Step) {
    && Enabled(p, w, step)
    && (step.Enter? ==> step.data == data && forall i :: 0 <= i < |w.callers| ==> !Busy(w.callers[i]))
  }

  ghost predicate RateInv(p: Params, w: World, data: Bytes) {
    && Inv(p, w)
    && (forall a :: 0 <= a < |w.stores| - 1 ==> w.stores[a + 1] - w.stores[a] >= p.every)
    && (w.stores != [] ==> w.entry.data == data && w.entry.at == w.stores[|w.stores| - 1])
    && (forall i :: 0 <= i < |w.callers| ==> w.callers[i].data == data)
    && (forall i, j :: 0 <= i < |w.callers| && 0 <= j < |w.callers| && Busy(w.callers[i]) && Busy(w.callers[j]) ==>
          i == j)
    && (forall i :: 0 <= i < |w.callers| && Busy(w.callers[i]) && w.stores != [] ==>
          w.callers[i].phase.begun - w.entry.at >= p.every)
  }

  lemma StepKeepsRate(p: Params, w: World, data: Bytes, step: Step)
    requires p.every > 0 && RateInv(p, w, data) && Alone(p, w, data, step)
    ensures RateInv(p, Next(p, w, step), data)
  {
    StepKeepsInv(p, w, step);
    hide Pool.ExactlyResolved;
    if step.Store? {
      assert CallerInv(p, w, w.callers[step.i]);
    }
  }

  ghost function AfterAlone(p: Params, data: Bytes, steps: seq<Step>): World {
    if steps == [] then NewWorld(p)
    else
      var w := AfterAlone(p, data, steps[..|steps| - 1]);
      var step := steps[|steps| - 1];
      if Alone(p, w, data, step) then Next(p, w, step) else w
  }

  lemma {:induction false} ReachableRate(p: Params, data: Bytes, steps: seq<Step>)
    requires p.every > 0
    ensures RateInv(p, AfterAlone(p, data, steps), data)
  {
    if steps != [] {
      var init, last := steps[..|steps| - 1], steps[|steps| - 1];
      ReachableRate(p, data, init);
      if Alone(p, AfterAlone(p, data, init), data, last) {
        StepKeepsRate(p, AfterAlone(p, data, init), data, last);
      }
    }
  }

  /** The times of the stores that happen in such a run. */
  ghost function StoreTimes(p: Params, data: Bytes, steps: seq<Step>): seq<int> {
    if steps == [] then []
    else
      var init, last := steps[..|steps| - 1], steps[|steps| - 1];
      var w := AfterAlone(p, data, init);
      StoreTimes(p, data, init) + (if last.Store? && Alone(p, w, data, last) then [w.clock] else [])
  }

  lemma {:induction false} StoresAreTimed(p: Params, data: Bytes, steps: seq<Step>)
    requires p.every > 0
    ensures AfterAlone(p, data, steps).stores == StoreTimes(p, data, steps)
  {
    if steps != [] {
      StoresAreTimed(p, data, steps[..|steps| - 1]);
    }
  }

  lemma {:induction false} GapsAdd(stores: seq<int>, every: int, k: nat)
    requires k < |stores| && forall a :: 0 <= a < |stores| - 1 ==> stores[a + 1] - stores[a] >= every
    ensures stores[k] - stores[0] >= k * every
  {
    if k > 0 {
      GapsAdd(stores, every, k - 1);
      assert stores[k - 1 + 1] - stores[k - 1] >= every;
      assert k * every == (k - 1) * every + every;
    }
  }

  /** At most one resolution per interval: k successful resolutions of unchanged bytes by calls
      that do not overlap span at least (k - 1) intervals. */
  lemma RefreshRateIsBounded(p: Params, data: Bytes, steps: seq<Step>)
    requires p.every > 0 && StoreTimes(p, data, steps) != []
    ensures var stores := StoreTimes(p, data, steps);
      (|stores| - 1) * p.every <= stores[|stores| - 1] - stores[0]
  {
    ReachableRate(p, data, steps);
    StoresAreTimed(p, data, steps);
    var stores := AfterAlone(p, data, steps).stores;
    GapsAdd(stores, p.every, |stores| - 1);
  }

  // ----- The two critical sections -----

  class SecretCache {
    var data: Bytes
    var values: map<string, Secret>
    var at: int
    ghost var begun: int

    ghost function Contents(): Entry
      reads this
    {
      Entry(data, values, at, begun)
    }

    constructor (p: Params)
      ensures Contents() == NewWorld(p).entry
    {
      data, values := [], map[];
      at := if p.every > 0 then -p.every else 0;
      begun := if p.every > 0 then -p.every else 0;
    }

    /** What a caller that enters now goes on with: the cached values, or None to resolve. */
    method Check(p: Params, ghost w: World, clock: int, document: Bytes) returns (hit: Option<map<string, Secret>>)
      requires w.entry == Contents() && w.clock == clock
      ensures Next(p, w, Enter(document)).callers[|w.callers|].phase ==
        if hit.Some? then Returned(hit.value, begun, clock) else Resolving(clock)
    {
      if p.every <= 0 {
        return None;
      }
      hit := if document == data && clock - at < p.every then Some(values) else None;
    }

    method Save(p: Params, ghost w: World, i: nat, clock: int, document: Bytes, resolved: map<string, Secret>)
      requires p.every > 0 && w.entry == Contents() && w.clock == clock && Enabled(p, w, Store(i))
      requires document == w.callers[i].data && resolved == w.callers[i].phase.values
      modifies this
      ensures Contents() == Next(p, w, Store(i)).entry
    {
      data, values, at := document, resolved, clock;
      begun := w.callers[i].phase.begun;
    }
  }
}
