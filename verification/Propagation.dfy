/**
  Which transforms a reload runs, exactly: change spreads from node to node, and stops where a
  recomputed value compares equal to the one it replaces.
 */
module Propagation {
  import opened Wrappers
  import opened Dag
  import opened Rebuild
  import opened Lifecycle
  import opened Invariants

  /** A walk that started with `n0` calls in the log marks `id` changed: a root that does not compare
      equal, a resource that was rebuilt, another node whose recomputed value does not compare equal. */
  ghost predicate Spreads(eq: DeepEqual, n: Node, prev: Option<Generation>, n0: nat, calls: seq<Call>, values: map<Id,
                          Value>, id: Id) {
    id in values &&
    if n.IsRoot() then !Unchanged(eq, values[id], OldValue(prev, id))
    else CalledIn(n0, calls, id) && (n.HasCleanup() || !Unchanged(eq, values[id], OldValue(prev, id)))
  }

  ghost predicate MarkedExactly(eq: DeepEqual, nodes: seq<Node>, prev: Option<Generation>, n0: nat, b: Build, k: nat) {
    k <= |nodes| && forall id: Id :: id < k ==>
      (b.Dirty(id) <==> Spreads(eq, nodes[id], prev, n0, b.calls, b.values, id))
  }

  ghost predicate RunsExactly(nodes: seq<Node>, prev: Option<Generation>, n0: nat, b: Build, k: nat) {
    k <= |nodes| && forall id: Id :: id < k && !nodes[id].IsRoot() ==>
      (CalledIn(n0, b.calls, id) <==> OldValue(prev, id).None? || !AllClean(nodes[id].Parents(), b))
  }

  /** Each call of this walk was given the new values of the parents, the very instances. */
  ghost predicate SeesNewValues(nodes: seq<Node>, calls: seq<Call>, values: map<Id, Value>, i: nat)
    requires i < |calls|
  {
    var c := calls[i];
    && c.id < |nodes| && c.id in values && c.result == Ok(values[c.id])
    && |c.args| == |nodes[c.id].Parents()|
    && forall j :: 0 <= j < |c.args| ==> ValueIn(values, nodes[c.id].Parents()[j]) == Some(c.args[j])
  }

  function ValueIn(values: map<Id, Value>, id: Id): Option<Value> { if id in values then Some(values[id]) else None }

  ghost predicate ArgsAreNew(nodes: seq<Node>, n0: nat, b: Build, k: nat) {
    k <= |nodes| && forall i :: n0 <= i < |b.calls| ==> SeesNewValues(nodes, b.calls, b.values, i)
  }

  lemma VisitSeesNew(eq: DeepEqual, nodes: seq<Node>, cfg: Config, prev: Option<Generation>, n0: nat, b: Build, k: nat)
    requires Ordered(nodes, 0) && k < |nodes| && Ready(nodes[k], b) && Covers(b.values, k)
    requires OncePerNode(n0, b, k) && ArgsAreNew(nodes, n0, b, k)
    requires Visit(eq, nodes[k], cfg, prev, b).Filled?
    ensures ArgsAreNew(nodes, n0, Visit(eq, nodes[k], cfg, prev, b).build, k + 1)
  {
    var c := Visit(eq, nodes[k], cfg, prev, b).build;
    assert nodes[k].id == k;
    forall i | n0 <= i < |c.calls| ensures SeesNewValues(nodes, c.calls, c.values, i) {
      if i < |b.calls| {
        assert SeesNewValues(nodes, b.calls, b.values, i);
        ParentsComeFirst(nodes, b.calls[i].id);
      } else {
        ParentsComeFirst(nodes, k);
      }
    }
  }

  lemma VisitMarks(eq: DeepEqual, nodes: seq<Node>, cfg: Config, prev: Option<Generation>, n0: nat, b: Build, k: nat)
    requires Ordered(nodes, 0) && k < |nodes| && Ready(nodes[k], b)
    requires Covers(b.values, k) && b.dirty.Keys == b.values.Keys
    requires OncePerNode(n0, b, k) && MarkedExactly(eq, nodes, prev, n0, b, k)
    requires Visit(eq, nodes[k], cfg, prev, b).Filled?
    ensures MarkedExactly(eq, nodes, prev, n0, Visit(eq, nodes[k], cfg, prev, b).build, k + 1)
  {
    var r := Recompute(eq, nodes[k], cfg, prev, b);
    var c := Visit(eq, nodes[k], cfg, prev, b).build;
    assert nodes[k].id == k;
    forall id: Id | id < k + 1 ensures c.Dirty(id) <==> Spreads(eq, nodes[id], prev, n0, c.calls, c.values, id) {
      if id < k {
        CalledStays(n0, b.calls, r.calls, id);
        assert c.Dirty(id) == b.Dirty(id);
      } else {
        LatestCalled(n0, b, r.calls, k);
      }
    }
  }

  /** The node being visited is called in this walk exactly when its visit makes a call. */
  lemma LatestCalled(n0: nat, b: Build, more: seq<Call>, k: nat)
    requires OncePerNode(n0, b, k) && forall c :: c in more ==> c.id == k
    ensures CalledIn(n0, b.calls + more, k) <==> more != []
  {
    var calls := b.calls + more;
    if more != [] {
      assert more[0] in more && calls[|b.calls|] == more[0];
    } else {
      assert calls == b.calls;
    }
  }

  lemma VisitRuns(eq: DeepEqual, nodes: seq<Node>, cfg: Config, prev: Option<Generation>, n0: nat, b: Build, k: nat)
    requires Ordered(nodes, 0) && k < |nodes| && Ready(nodes[k], b)
    requires Covers(b.values, k) && b.dirty.Keys == b.values.Keys
    requires OncePerNode(n0, b, k) && RunsExactly(nodes, prev, n0, b, k)
    requires Visit(eq, nodes[k], cfg, prev, b).Filled?
    ensures RunsExactly(nodes, prev, n0, Visit(eq, nodes[k], cfg, prev, b).build, k + 1)
  {
    var r := Recompute(eq, nodes[k], cfg, prev, b);
    var c := Visit(eq, nodes[k], cfg, prev, b).build;
    assert nodes[k].id == k;
    forall id: Id | id < k + 1 && !nodes[id].IsRoot()
      ensures CalledIn(n0, c.calls, id) <==> OldValue(prev, id).None? || !AllClean(nodes[id].Parents(), c)
    {
      ParentsComeFirst(nodes, id);
      assert AllClean(nodes[id].Parents(), c) == AllClean(nodes[id].Parents(), b);
      if id < k {
        CalledStays(n0, b.calls, r.calls, id);
      } else {
        LatestCalled(n0, b, r.calls, k);
      }
    }
  }

  lemma {:induction false} WalkIsExact(eq: DeepEqual, nodes: seq<Node>, cfg: Config, prev: Option<Generation>,
                                       log0: seq<Call>, k: nat)
    requires Ordered(nodes, 0) && k <= |nodes|
    requires Logged(nodes, log0) && SoundPrior(nodes, prev, log0)
    ensures var w := WalkTo(eq, nodes, 0, cfg, prev, NewBuild(log0), k);
      w.Filled? ==>
        && MarkedExactly(eq, nodes, prev, |log0|, w.build, k)
        && RunsExactly(nodes, prev, |log0|, w.build, k)
        && ArgsAreNew(nodes, |log0|, w.build, k)
  {
    hide MarkedExactly, RunsExactly, ArgsAreNew, Visit, Logged, SoundPrior;
    if k == 0 {
      NothingMarked(eq, nodes, prev, log0);
    } else {
      WalkIsExact(eq, nodes, cfg, prev, log0, k - 1);
      WalkKeepsInv(eq, nodes, cfg, prev, log0, k - 1);
      var w := WalkTo(eq, nodes, 0, cfg, prev, NewBuild(log0), k - 1);
      if w.Filled? && Visit(eq, nodes[k - 1], cfg, prev, w.build).Filled? {
        VisitMarks(eq, nodes, cfg, prev, |log0|, w.build, k - 1);
        VisitRuns(eq, nodes, cfg, prev, |log0|, w.build, k - 1);
        VisitSeesNew(eq, nodes, cfg, prev, |log0|, w.build, k - 1);
      }
    }
  }

  lemma NothingMarked(eq: DeepEqual, nodes: seq<Node>, prev: Option<Generation>, log0: seq<Call>)
    ensures MarkedExactly(eq, nodes, prev, |log0|, NewBuild(log0), 0)
    ensures RunsExactly(nodes, prev, |log0|, NewBuild(log0), 0)
    ensures ArgsAreNew(nodes, |log0|, NewBuild(log0), 0)
  {
  }

  // ----- Every walk, also one that fails -----

  /** The walk gets to `id`, finds it without an old value or below a parent marked by then, and so
      runs its transform. */
  ghost predicate RunsAt(eq: DeepEqual, nodes: seq<Node>, cfg: Config, prev: Option<Generation>, log0: seq<Call>,
                         id: Id)
    requires Ordered(nodes, 0) && id < |nodes|
  {
    var w := WalkTo(eq, nodes, 0, cfg, prev, NewBuild(log0), id);
    && !nodes[id].IsRoot() && w.Filled?
    && (OldValue(prev, id).None? || !AllClean(nodes[id].Parents(), w.build))
  }

  lemma VisitCalls(eq: DeepEqual, nodes: seq<Node>, cfg: Config, prev: Option<Generation>, n0: nat, b: Build, k: nat,
                   id: Id)
    requires Ordered(nodes, 0) && k < |nodes| && Ready(nodes[k], b) && OncePerNode(n0, b, k)
    ensures var log := Visit(eq, nodes[k], cfg, prev, b).Log();
      CalledIn(n0, log, id) <==>
        if id == k then !nodes[k].IsRoot() && (OldValue(prev, k).None? || !AllClean(nodes[k].Parents(), b))
        else CalledIn(n0, b.calls, id)
  {
    assert nodes[k].id == k;
    var r := Recompute(eq, nodes[k], cfg, prev, b);
    if id == k {
      LatestCalled(n0, b, r.calls, k);
    } else {
      CalledStays(n0, b.calls, r.calls, id);
    }
  }

  lemma {:induction false} WalkRunsIff(eq: DeepEqual, nodes: seq<Node>, cfg: Config, prev: Option<Generation>,
                                       log0: seq<Call>, id: Id, k: nat)
    requires Ordered(nodes, 0) && k <= |nodes| && id < |nodes|
    requires Logged(nodes, log0) && SoundPrior(nodes, prev, log0)
    ensures var w := WalkTo(eq, nodes, 0, cfg, prev, NewBuild(log0), k);
      CalledIn(|log0|, w.Log(), id) <==> id < k && RunsAt(eq, nodes, cfg, prev, log0, id)
  {
    hide Visit, Logged, SoundPrior, AllClean, Ready, OncePerNode;
    if k > 0 {
      WalkRunsIff(eq, nodes, cfg, prev, log0, id, k - 1);
      WalkKeepsInv(eq, nodes, cfg, prev, log0, k - 1);
      var w := WalkTo(eq, nodes, 0, cfg, prev, NewBuild(log0), k - 1);
      if w.Filled? {
        ReadyAt(nodes, w.build, k - 1);
        VisitCalls(eq, nodes, cfg, prev, |log0|, w.build, k - 1, id);
      }
    }
  }

  lemma ReadyAt(nodes: seq<Node>, b: Build, k: nat)
    requires Ordered(nodes, 0) && k < |nodes| && forall id: Id :: id < k ==> id in b.values
    ensures Ready(nodes[k], b)
  {
    assert nodes[k].id == k;
  }

  ghost predicate StoppedAt(nodes: seq<Node>, cfg: Config, n0: nat, f: Id, calls: seq<Call>) {
    && f < |nodes|
    && (forall i :: n0 <= i < |calls| ==> calls[i].id <= f)
    && (forall i :: n0 <= i < |calls| ==> (calls[i].result.Ok? <==> calls[i].id < f))
    && (if nodes[f].IsRoot() then nodes[f].Decode(cfg).Err? else CalledIn(n0, calls, f))
  }

  /** The log of a walk that failed: nodes before the failing one were called to build values, the
      failing one is a root that does not decode or a node whose own call failed. */
  lemma {:induction false} FailedWalkLog(eq: DeepEqual, nodes: seq<Node>, cfg: Config, prev: Option<Generation>,
                                         log0: seq<Call>, k: nat)
    requires Ordered(nodes, 0) && k <= |nodes|
    requires Logged(nodes, log0) && SoundPrior(nodes, prev, log0)
    ensures var w := WalkTo(eq, nodes, 0, cfg, prev, NewBuild(log0), k);
      w.FailedAt? ==> w.id < k && StoppedAt(nodes, cfg, |log0|, w.id, w.calls)
  {
    hide Logged, SoundPrior, Visit, StoppedAt, CleanKept, DirtyIsNew, ChangeContained, RestKept, RootsMarked, Sound;
    if k > 0 {
      FailedWalkLog(eq, nodes, cfg, prev, log0, k - 1);
      WalkKeepsInv(eq, nodes, cfg, prev, log0, k - 1);
      var w := WalkTo(eq, nodes, 0, cfg, prev, NewBuild(log0), k - 1);
      if w.Filled? && Visit(eq, nodes[k - 1], cfg, prev, w.build).FailedAt? {
        FailingVisit(eq, nodes, cfg, prev, |log0|, w.build, k - 1);
      }
    }
  }

  lemma FailingVisit(eq: DeepEqual, nodes: seq<Node>, cfg: Config, prev: Option<Generation>, n0: nat, b: Build, k: nat)
    requires Ordered(nodes, 0) && k < |nodes| && Ready(nodes[k], b) && OncePerNode(n0, b, k)
    requires Visit(eq, nodes[k], cfg, prev, b).FailedAt?
    ensures var w := Visit(eq, nodes[k], cfg, prev, b);
      w.id == k && StoppedAt(nodes, cfg, n0, k, w.calls)
  {
    assert nodes[k].id == k;
    var r := Recompute(eq, nodes[k], cfg, prev, b);
    if !nodes[k].IsRoot() {
      assert (b.calls + r.calls)[|b.calls|].id == k;
    }
  }

  /** Every load of an accepted config, successful or not, runs the transform of a node if and only if
      the from-scratch walk gets to the node and there is no old value or change spreads to it from a
      parent, as far as the walk has come. */
  lemma LoadRunsIff(eq: DeepEqual, events: seq<Event>, e: Event, cfg: Config, id: Id, moment: nat)
    requires var s := After(eq, events);
      Loads(s, e, cfg) && id < |s.nodes| && !s.nodes[id].IsRoot()
    ensures var s := After(eq, events);
      var t := Next(eq, s, e).0;
      var w := WalkTo(eq, s.nodes, 0, cfg, s.current, NewBuild(s.calls), id);
      && (w.Filled? <==> Scratch(s.nodes, 0, map[], cfg, moment, id).Done?)
      && (CalledIn(|s.calls|, t.calls, id) <==>
            && w.Filled?
            && (OldValue(s.current, id).None?
                || exists p :: p in s.nodes[id].Parents() && p < |s.nodes|
                     && Spreads(eq, s.nodes[p], s.current, |s.calls|, w.build.calls, w.build.values, p)))
  {
    var s := After(eq, events);
    ReachableInv(eq, events);
    LoadIsReload(eq, s, e, cfg);
    WalkRunsIff(eq, s.nodes, cfg, s.current, s.calls, id, |s.nodes|);
    WalkIsExact(eq, s.nodes, cfg, s.current, s.calls, id);
    WalkFailsWithScratch(eq, s.nodes, cfg, s.current, s.calls, moment, id);
    LoadKeepsLog(eq, s, e, cfg);
    ParentsBefore(s.nodes, id);
    hide WalkTo, BatchFrom, Inv, Spreads, CalledIn, Scratch, Next, ReloadLocked;
  }

  lemma ParentsBefore(nodes: seq<Node>, id: Id)
    requires Ordered(nodes, 0) && id < |nodes|
    ensures forall p :: p in nodes[id].Parents() ==> p < id
  {
    ParentsComeFirst(nodes, id);
  }

  /** A load adds the calls of its walk to the log, whatever comes of it. */
  lemma LoadKeepsLog(eq: DeepEqual, s: State, e: Event, cfg: Config)
    requires Ordered(s.nodes, 0) && Loads(s, e, cfg)
    ensures Next(eq, s, e).0.calls == Walk(eq, s, cfg).Log()
  {
    LoadIsReload(eq, s, e, cfg);
    hide WalkTo, BatchFrom;
  }

  // ----- A load that succeeds -----

  /** A successful load runs the transform of a node if and only if the node has no old value or
      change spreads from one of its parents. */
  lemma TransformsRunIff(eq: DeepEqual, events: seq<Event>, e: Event, cfg: Config, id: Id)
    requires var s := After(eq, events);
      Loads(s, e, cfg) && id < |s.nodes| && !s.nodes[id].IsRoot() && Next(eq, s, e).1.Fine?
    ensures var s := After(eq, events);
      var t := Next(eq, s, e).0;
      CalledIn(|s.calls|, t.calls, id) <==>
        OldValue(s.current, id).None?
        || exists p :: p in s.nodes[id].Parents() && p < |s.nodes|
             && Spreads(eq, s.nodes[p], s.current, |s.calls|, t.calls, t.current.value.values, p)
  {
    var s := After(eq, events);
    ReachableInv(eq, events);
    LoadIsReload(eq, s, e, cfg);
    WalkIsExact(eq, s.nodes, cfg, s.current, s.calls, |s.nodes|);
    ParentsBefore(s.nodes, id);
    hide WalkTo, BatchFrom, Inv, Spreads, CalledIn, Next;
  }

  /** Every transform that a successful load runs is given exactly the instances that the new
      generation holds for its parents, and its result is what the new generation holds for it. */
  lemma TransformsSeeNewValues(eq: DeepEqual, events: seq<Event>, e: Event, cfg: Config, i: nat)
    requires var s := After(eq, events);
      var (t, reply) := Next(eq, s, e);
      Loads(s, e, cfg) && reply.Fine? && |s.calls| <= i < |t.calls|
    ensures var s := After(eq, events);
      var t := Next(eq, s, e).0;
      SeesNewValues(s.nodes, t.calls, t.current.value.values, i)
  {
    var s := After(eq, events);
    ReachableInv(eq, events);
    LoadIsReload(eq, s, e, cfg);
    WalkIsExact(eq, s.nodes, cfg, s.current, s.calls, |s.nodes|);
    hide WalkTo, BatchFrom, Inv, SeesNewValues, MarkedExactly, RunsExactly, Next;
  }
}
