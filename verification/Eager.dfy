/**
  TestVal (testing.go): a manager without a source, whose every registration reruns all nodes
  against the values it already has.
 */
module Eager {
  import opened Wrappers
  import opened Dag
  import opened Lifecycle

  function EagerInitial(value: Value): State {
    INITIAL.(nextId := 1, current := Some(Generation(0, "", map[0 := value])))
  }

  /** Ids below 1 + |nodes| are taken: 0 is the value TestVal was given. */
  ghost predicate EagerReady(s: State) {
    && Ordered(s.nodes, 1)
    && s.current.Some? && 0 in s.current.value.values
    && forall n :: n in s.nodes ==> !n.IsRoot()
  }

  ghost predicate EagerInv(s: State) {
    EagerReady(s) && s.nextId == 1 + |s.nodes| && !s.frozen
  }

  function Preloaded(s: State): Build
    requires s.current.Some?
  {
    Build(s.current.value.values, map id | id in s.current.value.values :: true, s.calls)
  }

  /** recomputeTestNodes: the boolean is the panic of a failing transform. */
  ghost function Rerun(eq: DeepEqual, s: State): (State, bool)
    requires EagerReady(s)
  {
    match WalkTo(eq, s.nodes, 1, "", None, Preloaded(s), |s.nodes|)
    case FailedAt(_, calls) => (s.(calls := calls), true)
    case Filled(b) => (s.(calls := b.calls, current := Some(Generation(0, "", b.values))), false)
  }

  lemma EagerAddReady(s: State, n: Node)
    requires EagerInv(s) && CanRegister(s, n) && !n.IsRoot()
    ensures EagerInv(AddNode(s, n))
  {
  }

  lemma RerunKeepsInv(eq: DeepEqual, s: State)
    requires EagerInv(s)
    ensures EagerInv(Rerun(eq, s).0)
  {
  }

  ghost function EagerRegister(eq: DeepEqual, s: State, n: Node): (r: (State, bool))
    requires EagerInv(s) && CanRegister(s, n) && !n.IsRoot()
    ensures EagerInv(r.0)
  {
    EagerAddReady(s, n);
    RerunKeepsInv(eq, AddNode(s, n));
    Rerun(eq, AddNode(s, n))
  }

  // ----- Eager equals batch -----

  /** The transform ignores the moment: equal arguments, equal results. */
  ghost predicate Pure(n: Node) {
    n.IsRoot() || forall t, u, xs {:trigger n.Run(t, xs), n.Run(u, xs)} ::
      |xs| == |n.Parents()| ==> n.Run(t, xs) == n.Run(u, xs)
  }

  ghost predicate AllPure(nodes: seq<Node>) {
    forall i :: 0 <= i < |nodes| ==> Pure(nodes[i])
  }

  /** Two sets of values agree on the first ids: in meaning, and outright if the nodes are pure. */
  ghost predicate SameValues(pure: bool, x: map<Id, Value>, y: map<Id, Value>, ids: nat) {
    forall id: Id :: id < ids ==>
      id in x && id in y && x[id].meaning == y[id].meaning && (pure ==> x[id] == y[id])
  }

  lemma RerunVisit(eq: DeepEqual, nodes: seq<Node>, b: Build, vs: map<Id, Value>, moment: nat, k: nat)
    requires Ordered(nodes, 1) && k < |nodes| && !nodes[k].IsRoot()
    requires SameValues(AllPure(nodes), b.values, vs, 1 + k)
    ensures Ready(nodes[k], b) && (forall p :: p in nodes[k].Parents() ==> p in vs)
    ensures var r := nodes[k].Run(moment, Args(nodes[k].Parents(), vs));
      match Visit(eq, nodes[k], "", None, b)
      case FailedAt(id, _) => id == 1 + k && r.Err?
      case Filled(c) => r.Ok? && c.values.Keys == b.values.Keys + {1 + k}
                        && SameValues(AllPure(nodes), c.values, vs[1 + k := r.value], 2 + k)
  {
    var n := nodes[k];
    assert forall j :: 0 <= j < |n.Parents()| ==> n.Parents()[j] < 1 + k;
    var xs, ys := Args(n.Parents(), b.values), Args(n.Parents(), vs);
    assert SameMeaning(xs, ys);
    assert Respectful(n);
    assert Agree(n.Run(|b.calls|, xs), n.Run(moment, ys));
    if AllPure(nodes) {
      assert xs == ys;
      assert Pure(n);
    }
  }

  lemma SameBase(pure: bool, values: map<Id, Value>)
    requires 0 in values
    ensures SameValues(pure, values, map[0 := values[0]], 1)
  {
  }

  /** Rerunning every node over stale values ends where the from-scratch program ends. */
  lemma {:induction false} RerunMeansScratch(eq: DeepEqual, nodes: seq<Node>, b0: Build, moment: nat, k: nat)
    requires Ordered(nodes, 1) && k <= |nodes| && 0 in b0.values
    requires forall n :: n in nodes ==> !n.IsRoot()
    ensures var e := Scratch(nodes, 1, map[0 := b0.values[0]], "", moment, k);
      match WalkTo(eq, nodes, 1, "", None, b0, k)
      case FailedAt(id, _) => e == FailsAt(id)
      case Filled(b) => e.Done? && SameValues(AllPure(nodes), b.values, e.values, 1 + k)
                        && forall id: Id :: id in b.values <==> id in b0.values || id < 1 + k
  {
    hide Visit, SameValues, AllPure;
    if k == 0 {
      SameBase(AllPure(nodes), b0.values);
    } else {
      RerunMeansScratch(eq, nodes, b0, moment, k - 1);
      assert nodes[k - 1].id == k;
      var w := WalkTo(eq, nodes, 1, "", None, b0, k - 1);
      if w.Filled? {
        var e := Scratch(nodes, 1, map[0 := b0.values[0]], "", moment, k - 1);
        RerunVisit(eq, nodes, w.build, e.values, moment, k - 1);
      }
    }
  }

  /** A TestVal and the registrations made on it; the boolean is the panic of the last one. */
  ghost function EagerAfter(eq: DeepEqual, value: Value, regs: seq<Node>): (r: (State, bool))
    ensures EagerInv(r.0)
  {
    if regs == [] then (EagerInitial(value), false)
    else
      var s := EagerAfter(eq, value, regs[..|regs| - 1]).0;
      var n := regs[|regs| - 1];
      if CanRegister(s, n) && !n.IsRoot() then EagerRegister(eq, s, n) else (s, false)
  }

  ghost predicate EagerShape(s: State, value: Value) {
    && EagerInv(s)
    && s.current.value.values[0] == value
    && forall id :: id in s.current.value.values ==> id < s.nextId
  }

  lemma RegisterKeepsShape(eq: DeepEqual, s: State, n: Node, value: Value, moment: nat)
    requires EagerShape(s, value) && CanRegister(s, n) && !n.IsRoot()
    ensures EagerShape(EagerRegister(eq, s, n).0, value)
    ensures var (t, panicked) := EagerRegister(eq, s, n);
      var e := Scratch(t.nodes, 1, map[0 := value], "", moment, |t.nodes|);
      && t.nodes == s.nodes + [n]
      && (panicked <==> e.FailsAt?)
      && (panicked ==> t.current == s.current)
      && (!panicked ==> SameValues(AllPure(t.nodes), t.current.value.values, e.values, 1 + |t.nodes|))
  {
    var t := AddNode(s, n);
    EagerAddReady(s, n);
    RerunMeansScratch(eq, t.nodes, Preloaded(t), moment, |t.nodes|);
    BaseIsKept(eq, t.nodes, Preloaded(t), |t.nodes|);
    hide Ordered, CanRegister, SameValues, AllPure, WalkTo, Scratch;
  }

  lemma {:induction false} BaseIsKept(eq: DeepEqual, nodes: seq<Node>, b0: Build, k: nat)
    requires Ordered(nodes, 1) && k <= |nodes| && 0 in b0.values
    ensures var w := WalkTo(eq, nodes, 1, "", None, b0, k); w.Filled? ==> w.build.values[0] == b0.values[0]
  {
    if k > 0 {
      BaseIsKept(eq, nodes, b0, k - 1);
      assert nodes[k - 1].id == k;
    }
  }

  lemma {:induction false} EagerShapeAlways(eq: DeepEqual, value: Value, regs: seq<Node>)
    ensures EagerShape(EagerAfter(eq, value, regs).0, value)
  {
    if regs != [] {
      var before := regs[..|regs| - 1];
      EagerShapeAlways(eq, value, before);
      var s := EagerAfter(eq, value, before).0;
      var n := regs[|regs| - 1];
      if CanRegister(s, n) && !n.IsRoot() {
        RegisterKeepsShape(eq, s, n, value, 0);
      }
    }
  }

  /** Eager equals batch: after any registrations on a TestVal, one more panics exactly when
      one from-scratch walk of the whole DAG fails, and otherwise every value is what that walk
      gives: in meaning for any transforms, outright for pure ones. */
  lemma EagerEqualsBatch(eq: DeepEqual, value: Value, regs: seq<Node>, n: Node, moment: nat)
    requires CanRegister(EagerAfter(eq, value, regs).0, n) && !n.IsRoot()
    ensures var s := EagerAfter(eq, value, regs).0;
      var (t, panicked) := EagerAfter(eq, value, regs + [n]);
      var e := Scratch(t.nodes, 1, map[0 := value], "", moment, |t.nodes|);
      && t.nodes == s.nodes + [n]
      && (panicked <==> e.FailsAt?)
      && (panicked ==> t.current == s.current)
      && (!panicked ==> SameValues(AllPure(t.nodes), t.current.value.values, e.values, 1 + |t.nodes|))
  {
    EagerShapeAlways(eq, value, regs);
    assert (regs + [n])[..|regs|] == regs;
    RegisterKeepsShape(eq, EagerAfter(eq, value, regs).0, n, value, moment);
  }
}
