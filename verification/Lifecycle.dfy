/**
  The manager as a state machine (manager.go): registration, Start, Reload, Stop and the cleanup
  goroutines. One event is one critical section; a cleanup event releases one item of one batch,
  so batches interleave with each other and with everything else.
 */
module Lifecycle {
  import opened Wrappers
  import opened Dag

  /** A node and the value it held before a reload replaced it. */
  datatype Item = Item(id: Id, value: Value)

  /** `calls`, `released`, `abandoned` and `notified` are history: every transform call, every item
      whose cleanup has run, the calls whose results an aborted reload dropped, and the pairs of
      configs that the OnReload callbacks were given. */
  datatype State = State(
    nodes: seq<Node>,
    nextId: nat,
    frozen: bool,
    started: bool,
    current: Option<Generation>,
    calls: seq<Call>,
    pending: seq<seq<Item>>,
    released: seq<Item>,
    abandoned: set<nat>,
    notified: seq<(Config, Config)>)

  const INITIAL := State([], 0, false, false, None, [], [], [], {}, [])

  datatype Why = FetchFailed | ParseFailed | SecretRef | SecretResolveFailed | ValidationFailed

  /** What fetching, reading and validating the document came to. */
  datatype Input = Rejected(why: Why) | Accepted(config: Config)

  datatype Reply =
    | Fine
    | NotAccepted(why: Why)
    | TransformFailed(id: Id)
    | AlreadyStarted
    | NotStarted
    | PanicFrozen
    | Ignored   // an event that cannot happen in this state

  datatype Event =
    | Register(node: Node)
    | Reload(input: Input)
    | Start(input: Input)
    | Stop
    | CleanUp(batch: nat)

  // ----- scheduleCleanup -----

  /** The batch after visiting nodes k - 1, k - 2, ..., 0. */
  function BatchFrom(nodes: seq<Node>, b: Build, was: map<Id, Value>, k: nat): (batch: seq<Item>)
    requires k <= |nodes|
  {
    if k == 0 then []
    else
      var id := nodes[k - 1].id;
      (if b.Dirty(id) && id in was then [Item(id, was[id])] else []) + BatchFrom(nodes, b, was, k - 1)
  }

  function Schedule(pending: seq<seq<Item>>, batch: seq<Item>): seq<seq<Item>> {
    if batch == [] then pending else pending + [batch]
  }

  // ----- reloadLocked -----

  function Range(lo: nat, hi: nat): (r: set<nat>)
    ensures forall i :: i in r <==> lo <= i < hi
    decreases hi
  {
    if hi <= lo then {} else Range(lo, hi - 1) + {hi - 1}
  }

  function Publish(s: State, cfg: Config, b: Build): State {
    var version := if s.current.Some? then s.current.value.version + 1 else 0;
    var batch := if s.current.Some? then BatchFrom(s.nodes, b, s.current.value.values, |s.nodes|) else [];
    s.(current := Some(Generation(version, cfg, b.values)), calls := b.calls, pending := Schedule(s.pending, batch),
       notified := if s.current.Some? then s.notified + [(s.current.value.config, cfg)] else s.notified)
  }

  function Abort(s: State, calls: seq<Call>): State {
    s.(calls := calls, abandoned := s.abandoned + Range(|s.calls|, |calls|))
  }

  function Walk(eq: DeepEqual, s: State, cfg: Config): Walked
    requires Ordered(s.nodes, 0)
  {
    WalkTo(eq, s.nodes, 0, cfg, s.current, NewBuild(s.calls), |s.nodes|)
  }

  function ReloadLocked(eq: DeepEqual, s: State, input: Input): (State, Reply)
    requires Ordered(s.nodes, 0)
  {
    match input
    case Rejected(why) => (s, NotAccepted(why))
    case Accepted(cfg) =>
      match Walk(eq, s, cfg)
      case FailedAt(id, calls) => (Abort(s, calls), TransformFailed(id))
      case Filled(b) => (Publish(s, cfg, b), Fine)
  }

  // ----- The machine -----

  predicate CanRegister(s: State, n: Node) {
    n.id == s.nextId && forall j :: 0 <= j < |n.Parents()| ==> n.Parents()[j] < s.nextId
  }

  function AddNode(s: State, n: Node): State {
    s.(nodes := s.nodes + [n], nextId := s.nextId + 1)
  }

  function StartWith(eq: DeepEqual, s: State, input: Input): (State, Reply)
    requires Ordered(s.nodes, 0)
  {
    if s.started then (s, AlreadyStarted)
    else
      var (t, reply) := ReloadLocked(eq, s.(frozen := true), input);
      (t.(started := reply.Fine?), reply)
  }

  /** A goroutine runs the cleanup of the next item of its batch. */
  function ReleaseNext(s: State, k: nat): State
    requires k < |s.pending| && s.pending[k] != []
  {
    s.(pending := s.pending[k := s.pending[k][1..]], released := s.released + [s.pending[k][0]])
  }

  ghost predicate WellFormed(s: State) {
    Ordered(s.nodes, 0) && s.nextId == |s.nodes|
  }

  function Next(eq: DeepEqual, s: State, e: Event): (r: (State, Reply))
    requires Ordered(s.nodes, 0)
    ensures WellFormed(s) ==> WellFormed(r.0)
  {
    match e
    case Register(n) =>
      if s.frozen then (s, PanicFrozen)
      else if CanRegister(s, n) then (AddNode(s, n), Fine)
      else (s, Ignored)
    case Reload(input) => ReloadLocked(eq, s, input)
    case Start(input) => StartWith(eq, s, input)
    case Stop => if s.started then (s.(started := false), Fine) else (s, NotStarted)
    case CleanUp(k) => if k < |s.pending| && s.pending[k] != [] then (ReleaseNext(s, k), Fine) else (s, Ignored)
  }

  /** `e` loads the accepted config: a Reload, or a Start of a manager that is not started. */
  predicate Loads(s: State, e: Event, cfg: Config) {
    || (e.Reload? && e.input == Accepted(cfg))
    || (e.Start? && e.input == Accepted(cfg) && !s.started)
  }

  /** A load by Start is the load of a Reload, but for the flags. */
  lemma LoadIsReload(eq: DeepEqual, s: State, e: Event, cfg: Config)
    requires Ordered(s.nodes, 0) && Loads(s, e, cfg)
    ensures var (t, reply) := Next(eq, s, e);
      var (u, same) := ReloadLocked(eq, s, Accepted(cfg));
      reply == same && t == u.(frozen := t.frozen, started := t.started)
  {
    hide WalkTo, BatchFrom;
    if e.Start? {
      assert Walk(eq, s.(frozen := true), cfg) == Walk(eq, s, cfg);
    }
  }

  /** The state after a run of events from a new manager. */
  function After(eq: DeepEqual, events: seq<Event>): (s: State)
    ensures WellFormed(s)
  {
    if events == [] then INITIAL
    else Next(eq, After(eq, events[..|events| - 1]), events[|events| - 1]).0
  }
}
