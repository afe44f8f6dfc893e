/** What every event keeps: each live value is accounted for, and each resource is in one place. */
module Invariants {
  import opened Wrappers
  import opened Dag
  import opened Rebuild
  import opened Lifecycle

  // ----- Batches -----

  ghost predicate Descending(batch: seq<Item>) {
    forall i, j :: 0 <= i < j < |batch| ==> batch[i].id > batch[j].id
  }

  ghost predicate HoldsOld(batch: seq<Item>, b: Build, was: map<Id, Value>, k: nat) {
    && (forall i :: 0 <= i < |batch| ==>
          batch[i].id < k && b.Dirty(batch[i].id) && batch[i].id in was && batch[i].value == was[batch[i].id])
    && (forall id: Id :: id < k && b.Dirty(id) && id in was ==> Item(id, was[id]) in batch)
  }

  /** A batch has every replaced old value, once, later nodes first. */
  lemma {:induction false} BatchIsExact(nodes: seq<Node>, b: Build, was: map<Id, Value>, k: nat)
    requires Ordered(nodes, 0) && k <= |nodes|
    ensures Descending(BatchFrom(nodes, b, was, k))
    ensures HoldsOld(BatchFrom(nodes, b, was, k), b, was, k)
  {
    if k > 0 {
      BatchIsExact(nodes, b, was, k - 1);
      assert nodes[k - 1].id == k - 1;
    }
  }

  // ----- Resources -----

  /** Call `i` built a resource. */
  ghost predicate Resource(s: State, i: nat) {
    && i < |s.calls| && s.calls[i].id < |s.nodes|
    && s.nodes[s.calls[i].id].HasCleanup() && s.calls[i].result.Ok?
  }

  datatype Place = Live | Pending(batch: nat, pos: nat) | Released(pos: nat) | Abandoned

  ghost function Built(s: State, i: nat): Item
    requires Resource(s, i)
  {
    Item(s.calls[i].id, s.calls[i].result.value)
  }

  ghost predicate At(s: State, i: nat, p: Place)
    requires Resource(s, i)
  {
    match p
    case Live => OldValue(s.current, Built(s, i).id) == Some(Built(s, i).value)
    case Pending(k, j) => k < |s.pending| && j < |s.pending[k]| && s.pending[k][j] == Built(s, i)
    case Released(j) => j < |s.released| && s.released[j] == Built(s, i)
    case Abandoned => i in s.abandoned
  }

  ghost predicate OnlyAt(s: State, i: nat, p: Place)
    requires Resource(s, i)
  {
    At(s, i, p) && forall q :: At(s, i, q) ==> q == p
  }

  ghost predicate SomewhereOnce(s: State, i: nat)
    requires Resource(s, i)
  {
    exists p :: OnlyAt(s, i, p)
  }

  ghost predicate Conserved(s: State) {
    forall i: nat :: Resource(s, i) ==> SomewhereOnce(s, i)
  }

  /** A resource value names the call that built it. */
  ghost predicate FromCall(s: State, it: Item) {
    it.id < |s.nodes| && s.nodes[it.id].HasCleanup() ==>
      Resource(s, it.value.instance) && Built(s, it.value.instance) == it
  }

  ghost predicate ItemsFromCalls(s: State) {
    && (forall k, j :: 0 <= k < |s.pending| && 0 <= j < |s.pending[k]| ==>
          s.pending[k][j].id < |s.nodes| && FromCall(s, s.pending[k][j]))
    && (forall j :: 0 <= j < |s.released| ==> s.released[j].id < |s.nodes| && FromCall(s, s.released[j]))
    && (forall i :: i in s.abandoned ==> i < |s.calls|)
  }

  ghost predicate BatchesDescend(s: State) {
    forall k :: 0 <= k < |s.pending| ==> Descending(s.pending[k])
  }

  ghost predicate Inv(s: State) {
    && WellFormed(s)
    && Logged(s.nodes, s.calls)
    && SoundPrior(s.nodes, s.current, s.calls)
    && Conserved(s)
    && ItemsFromCalls(s)
    && BatchesDescend(s)
  }

  // ----- Registration -----

  lemma RegisterKeepsInv(s: State, n: Node)
    requires Inv(s) && CanRegister(s, n)
    ensures Inv(AddNode(s, n))
  {
    var t := AddNode(s, n);
    forall i | 0 <= i < |t.calls| ensures Honest(t.nodes, t.calls[i], i) {
      assert Honest(s.nodes, s.calls[i], i);
    }
    if s.current.Some? {
      RegisterKeepsSound(s, n);
    }
    forall i: nat | Resource(t, i) ensures SomewhereOnce(t, i) {
      assert Honest(s.nodes, s.calls[i], i);
      SamePlaces(s, t, i);
    }
    assert forall it: Item {:trigger FromCall(t, it)} :: it.id < |s.nodes| && FromCall(s, it) ==> FromCall(t, it);
  }

  lemma RegisterKeepsSound(s: State, n: Node)
    requires Inv(s) && CanRegister(s, n) && s.current.Some?
    ensures SoundPrior(AddNode(s, n).nodes, s.current, s.calls)
  {
    var gen := s.current.value;
    var nodes := AddNode(s, n).nodes;
    forall id: Id | id < |gen.values| ensures Explained(nodes, gen.config, gen.values, s.calls, id) {
      assert Explained(s.nodes, gen.config, gen.values, s.calls, id);
      if !nodes[id].IsRoot() {
        var i :| 0 <= i < |s.calls| && MadeBy(s.nodes, gen.values, s.calls[i], id);
        assert MadeBy(nodes, gen.values, s.calls[i], id);
      }
    }
  }

  /** An event that moves nothing. */
  lemma SamePlaces(s: State, t: State, i: nat)
    requires Resource(s, i) && Resource(t, i) && SomewhereOnce(s, i)
    requires s.calls[i] == t.calls[i] && s.current == t.current
    requires s.pending == t.pending && s.released == t.released
    requires i in s.abandoned <==> i in t.abandoned
    ensures SomewhereOnce(t, i)
  {
    assert forall q :: At(t, i, q) <==> At(s, i, q);
    var p :| OnlyAt(s, i, p);
    assert OnlyAt(t, i, p);
  }

  // ----- Release -----

  /** Where an item was before `ReleaseNext(s, k)`. */
  ghost function Before(s: State, k: nat, p: Place): Place {
    match p
    case Pending(b, j) => if b == k then Pending(b, j + 1) else p
    case Released(j) => if j == |s.released| then Pending(k, 0) else p
    case _ => p
  }

  ghost function Afterwards(s: State, k: nat, p: Place): Place {
    match p
    case Pending(b, j) => if b == k then (if j == 0 then Released(|s.released|) else Pending(b, j - 1)) else p
    case _ => p
  }

  lemma ReleaseMoves(s: State, k: nat, i: nat, p: Place)
    requires k < |s.pending| && s.pending[k] != [] && Resource(s, i)
    requires OnlyAt(s, i, p)
    ensures OnlyAt(ReleaseNext(s, k), i, Afterwards(s, k, p))
  {
    var t := ReleaseNext(s, k);
    forall q | At(t, i, q) ensures q == Afterwards(s, k, p) {
      assert At(s, i, Before(s, k, q));
    }
  }

  lemma ReleaseKeepsInv(s: State, k: nat)
    requires Inv(s) && k < |s.pending| && s.pending[k] != []
    ensures Inv(ReleaseNext(s, k))
  {
    var t := ReleaseNext(s, k);
    forall i: nat | Resource(t, i) ensures SomewhereOnce(t, i) {
      assert Resource(s, i);
      var p :| OnlyAt(s, i, p);
      ReleaseMoves(s, k, i, p);
    }
    assert forall it: Item {:trigger FromCall(t, it)} :: FromCall(s, it) ==> FromCall(t, it);
  }

  // ----- Reload -----

  /** The resource a sound generation holds is the one its call built. */
  lemma HeldFromCall(nodes: seq<Node>, cfg: Config, values: map<Id, Value>, calls: seq<Call>, k: nat, id: Id)
    requires Logged(nodes, calls) && Sound(nodes, cfg, values, calls, k)
    requires id < k && nodes[id].HasCleanup()
    ensures values[id].instance < |calls| && calls[values[id].instance].id == id
    ensures calls[values[id].instance].result == Ok(values[id])
  {
    assert Explained(nodes, cfg, values, calls, id);
    var i :| 0 <= i < |calls| && MadeBy(nodes, values, calls[i], id);
    assert Honest(nodes, calls[i], i);
    assert Fresh(nodes[id]);
  }

  lemma AbortKeepsInv(s: State, calls: seq<Call>)
    requires Inv(s) && s.calls <= calls && Logged(s.nodes, calls)
    ensures Inv(Abort(s, calls))
  {
    var t := Abort(s, calls);
    forall i: nat | Resource(t, i) ensures SomewhereOnce(t, i) {
      if i < |s.calls| {
        assert s.calls[i] == calls[i];
        SamePlaces(s, t, i);
      } else {
        NewIsNowhere(s, t, i);
        assert OnlyAt(t, i, Abandoned);
      }
    }
    OldItemsFromCalls(s, t);
    if s.current.Some? {
      SoundStays(s.nodes, s.current.value.config, s.current.value.values, s.calls, calls);
    }
  }

  lemma SoundStays(nodes: seq<Node>, cfg: Config, values: map<Id, Value>, calls: seq<Call>, more: seq<Call>)
    requires calls <= more && Sound(nodes, cfg, values, calls, |values|)
    ensures Sound(nodes, cfg, values, more, |values|)
  {
    forall id: Id | id < |values| ensures Explained(nodes, cfg, values, more, id) {
      assert Explained(nodes, cfg, values, calls, id);
      if !nodes[id].IsRoot() {
        var i :| 0 <= i < |calls| && MadeBy(nodes, values, calls[i], id);
        assert MadeBy(nodes, values, more[i], id);
      }
    }
  }

  lemma OldItemsFromCalls(s: State, t: State)
    requires s.calls <= t.calls && s.nodes == t.nodes
    ensures forall it: Item {:trigger FromCall(t, it)} :: FromCall(s, it) ==> FromCall(t, it)
  {
  }

  /** A call later than the log of `s` is in no place that `s` already had. */
  lemma NewIsNowhere(s: State, t: State, i: nat)
    requires Inv(s) && s.calls <= t.calls && s.nodes == t.nodes && Logged(t.nodes, t.calls)
    requires Resource(t, i) && i >= |s.calls|
    ensures var it := Built(t, i);
      && it.value.instance == i
      && OldValue(s.current, it.id) != Some(it.value)
      && (forall k, j :: 0 <= k < |s.pending| && 0 <= j < |s.pending[k]| ==> s.pending[k][j] != it)
      && (forall j :: 0 <= j < |s.released| ==> s.released[j] != it)
      && i !in s.abandoned
  {
    var it := Built(t, i);
    assert Honest(t.nodes, t.calls[i], i);
    assert Fresh(t.nodes[it.id]);
    if s.current.Some? && it.id in s.current.value.values {
      HeldFromCall(s.nodes, s.current.value.config, s.current.value.values, s.calls, |s.current.value.values|, it.id);
    }
    forall k, j | 0 <= k < |s.pending| && 0 <= j < |s.pending[k]| ensures s.pending[k][j] != it {
      assert FromCall(s, s.pending[k][j]);
    }
    forall j | 0 <= j < |s.released| ensures s.released[j] != it {
      assert FromCall(s, s.released[j]);
    }
  }

  lemma OnceInBatch(batch: seq<Item>, it: Item) returns (j: nat)
    requires Descending(batch) && it in batch
    ensures j < |batch| && batch[j] == it
    ensures forall k :: 0 <= k < |batch| && batch[k] == it ==> k == j
  {
    j :| 0 <= j < |batch| && batch[j] == it;
  }

  ghost predicate Elsewhere(s: State, it: Item, i: nat) {
    || (exists k, j :: 0 <= k < |s.pending| && 0 <= j < |s.pending[k]| && s.pending[k][j] == it)
    || (exists j :: 0 <= j < |s.released| && s.released[j] == it)
    || i in s.abandoned
  }

  lemma LiveIsNowhereElse(s: State, i: nat)
    requires Resource(s, i) && OnlyAt(s, i, Live)
    ensures !Elsewhere(s, Built(s, i), i)
  {
    var it := Built(s, i);
    assert !At(s, i, Abandoned);
    forall k, j | 0 <= k < |s.pending| && 0 <= j < |s.pending[k]| ensures s.pending[k][j] != it {
      assert !At(s, i, Pending(k, j));
    }
    forall j | 0 <= j < |s.released| ensures s.released[j] != it {
      assert !At(s, i, Released(j));
    }
  }

  /** A resource that was nowhere else is, after the swap, exactly where the swap put it. */
  lemma PlacedBySwap(s: State, t: State, batch: seq<Item>, i: nat, p: Place)
    requires Resource(t, i) && !Elsewhere(s, Built(t, i), i) && Descending(batch)
    requires t.pending == Schedule(s.pending, batch) && t.released == s.released && t.abandoned == s.abandoned
    requires OldValue(t.current, Built(t, i).id) == Some(Built(t, i).value) <==> p == Live
    requires Built(t, i) in batch <==> p != Live
    requires p != Live ==> p.Pending? && p.batch == |s.pending| && p.pos < |batch| && batch[p.pos] == Built(t, i)
    ensures OnlyAt(t, i, p)
  {
    forall q | At(t, i, q) ensures q == p {
      match q
      case Pending(k, j) => assert k == |s.pending|;
      case _ =>
    }
  }

  /** A live resource that the reload replaces moves into the new batch... */
  lemma ReplacedMoves(s: State, cfg: Config, b: Build, i: nat)
    requires WellFormed(s) && s.calls <= b.calls
    requires Resource(s, i) && OnlyAt(s, i, Live)
    requires s.calls[i].result.value.instance == i
    requires DirtyIsNew(s.nodes, |s.calls|, b, |s.nodes|) && b.Dirty(s.calls[i].id)
    ensures SomewhereOnce(Publish(s, cfg, b), i)
  {
    LiveIsNowhereElse(s, i);
    hide OnlyAt, Descending, Elsewhere;
    var t := Publish(s, cfg, b);
    var it := Built(s, i);
    var was := s.current.value.values;
    var batch := BatchFrom(s.nodes, b, was, |s.nodes|);
    BatchIsExact(s.nodes, b, was, |s.nodes|);
    var j := OnceInBatch(batch, it);
    PlacedBySwap(s, t, batch, i, Pending(|s.pending|, j));
  }

  /** ... and one that it does not replace stays live. */
  lemma KeptStays(s: State, cfg: Config, b: Build, i: nat)
    requires WellFormed(s) && s.calls <= b.calls
    requires Resource(s, i) && OnlyAt(s, i, Live)
    requires CleanKept(s.nodes, s.current, b, |s.nodes|) && !b.Dirty(s.calls[i].id)
    ensures SomewhereOnce(Publish(s, cfg, b), i)
  {
    LiveIsNowhereElse(s, i);
    hide OnlyAt, Descending, Elsewhere;
    var t := Publish(s, cfg, b);
    var it := Built(s, i);
    var was := s.current.value.values;
    BatchIsExact(s.nodes, b, was, |s.nodes|);
    assert b.values[it.id] == it.value;
    PlacedBySwap(s, t, BatchFrom(s.nodes, b, was, |s.nodes|), i, Live);
  }

  lemma DeadOldStays(s: State, cfg: Config, b: Build, i: nat, p: Place)
    requires WellFormed(s) && s.calls <= b.calls
    requires Resource(s, i) && OnlyAt(s, i, p) && p != Live
    requires s.calls[i].result.value.instance == i
    requires CleanKept(s.nodes, s.current, b, |s.nodes|) && DirtyIsNew(s.nodes, |s.calls|, b, |s.nodes|)
    ensures SomewhereOnce(Publish(s, cfg, b), i)
  {
    var t := Publish(s, cfg, b);
    var it := Built(s, i);
    assert !At(s, i, Live);
    if s.current.Some? {
      BatchIsExact(s.nodes, b, s.current.value.values, |s.nodes|);
    }
    assert !At(t, i, Live) by {
      if !b.Dirty(it.id) {
        assert OldValue(s.current, it.id).Some?;
      }
    }
    forall q | At(t, i, q) ensures At(s, i, q) {
    }
    assert OnlyAt(t, i, p);
  }

  lemma PublishPlacesNew(s: State, cfg: Config, b: Build, i: nat)
    requires Inv(s) && s.calls <= b.calls && Logged(s.nodes, b.calls) && OncePerNode(|s.calls|, b, |s.nodes|)
    requires Resource(Publish(s, cfg, b), i) && i >= |s.calls|
    ensures SomewhereOnce(Publish(s, cfg, b), i)
  {
    var t := Publish(s, cfg, b);
    var it := Built(t, i);
    NewIsNowhere(s, t, i);
    hide OnlyAt, Descending, Inv;
    var batch := if s.current.Some? then BatchFrom(s.nodes, b, s.current.value.values, |s.nodes|) else [];
    if s.current.Some? {
      BatchIsExact(s.nodes, b, s.current.value.values, |s.nodes|);
    } else {
      EmptyDescends();
    }
    PlacedBySwap(s, t, batch, i, Live);
  }

  lemma EmptyDescends()
    ensures Descending([])
  {
  }

  lemma PublishKeepsItems(s: State, cfg: Config, b: Build)
    requires Inv(s) && s.calls <= b.calls
    ensures ItemsFromCalls(Publish(s, cfg, b)) && BatchesDescend(Publish(s, cfg, b))
  {
    var t := Publish(s, cfg, b);
    OldItemsFromCalls(s, t);
    if s.current.Some? {
      var was := s.current.value.values;
      var batch := BatchFrom(s.nodes, b, was, |s.nodes|);
      BatchIsExact(s.nodes, b, was, |s.nodes|);
      forall j | 0 <= j < |batch| ensures batch[j].id < |t.nodes| && FromCall(t, batch[j]) {
        if s.nodes[batch[j].id].HasCleanup() {
          HeldFromCall(s.nodes, s.current.value.config, was, s.calls, |was|, batch[j].id);
        }
      }
    }
  }

  lemma PublishKeepsInv(eq: DeepEqual, s: State, cfg: Config, b: Build)
    requires Inv(s) && WalkInv(eq, s.nodes, cfg, s.current, s.calls, b, |s.nodes|)
    ensures Inv(Publish(s, cfg, b))
  {
    var t := Publish(s, cfg, b);
    forall i: nat | Resource(t, i) ensures SomewhereOnce(t, i) {
      if i < |s.calls| {
        assert Resource(s, i) && Honest(s.nodes, s.calls[i], i);
        assert Fresh(s.nodes[s.calls[i].id]);
        var p :| OnlyAt(s, i, p);
        if p != Live {
          DeadOldStays(s, cfg, b, i, p);
        } else if b.Dirty(s.calls[i].id) {
          ReplacedMoves(s, cfg, b, i);
        } else {
          KeptStays(s, cfg, b, i);
        }
      } else {
        PublishPlacesNew(s, cfg, b, i);
      }
    }
    PublishKeepsItems(s, cfg, b);
  }

  lemma ReloadKeepsInv(eq: DeepEqual, s: State, input: Input)
    requires Inv(s)
    ensures Inv(ReloadLocked(eq, s, input).0)
  {
    if input.Accepted? {
      WalkKeepsInv(eq, s.nodes, input.config, s.current, s.calls, |s.nodes|);
      match Walk(eq, s, input.config)
      case FailedAt(id, calls) => AbortKeepsInv(s, calls);
      case Filled(b) => PublishKeepsInv(eq, s, input.config, b);
    }
  }

  lemma FlagsKeepInv(s: State, frozen: bool, started: bool)
    requires Inv(s)
    ensures Inv(s.(frozen := frozen, started := started))
  {
    var t := s.(frozen := frozen, started := started);
    forall i: nat | Resource(t, i) ensures SomewhereOnce(t, i) {
      assert Resource(s, i);
      SamePlaces(s, t, i);
    }
    assert forall it: Item {:trigger FromCall(t, it)} :: FromCall(s, it) ==> FromCall(t, it);
  }

  lemma NextKeepsInv(eq: DeepEqual, s: State, e: Event)
    requires Inv(s)
    ensures Inv(Next(eq, s, e).0)
  {
    assert WellFormed(s);
    hide Inv;
    match e
    case Register(n) => if !s.frozen && CanRegister(s, n) { RegisterKeepsInv(s, n); }
    case Reload(input) => ReloadKeepsInv(eq, s, input);
    case Start(input) =>
      FlagsKeepInv(s, true, s.started);
      ReloadKeepsInv(eq, s.(frozen := true), input);
      var (t, reply) := ReloadLocked(eq, s.(frozen := true), input);
      FlagsKeepInv(t, t.frozen, reply.Fine?);
    case Stop => FlagsKeepInv(s, s.frozen, false);
    case CleanUp(k) => if k < |s.pending| && s.pending[k] != [] { ReleaseKeepsInv(s, k); }
  }

  lemma {:induction false} ReachableInv(eq: DeepEqual, events: seq<Event>)
    ensures Inv(After(eq, events))
  {
    if events != [] {
      ReachableInv(eq, events[..|events| - 1]);
      NextKeepsInv(eq, After(eq, events[..|events| - 1]), events[|events| - 1]);
    }
  }
}
