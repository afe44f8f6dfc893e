/**
  Two runs that mark limits. A direct child of a resource always holds a value computed from the live
  instance, a grandchild need not; and a resource whose reload fails further on is dropped.
 */
module Staleness {
  import opened Wrappers
  import opened Dag
  import opened Lifecycle
  import opened Invariants

  const EQ: DeepEqual := (x: Value, y: Value) => x.meaning == y.meaning

  /** A setting, a resource built from it, a wrapper of the resource that always compares equal, and
      a node that takes the resource out of the wrapper. */
  const SETTING: Node := Key(0, (cfg: Config) => Value(|cfg|, 0))

  function ResourceNode(): (n: Node)
    ensures n.Map? && n.id == 1 && n.Parents() == [0] && n.cleanup
    ensures forall t, x :: n.transform(t, x) == Ok(Value(x.meaning, t))
  {
    var n := Map(1, 0, (t: nat, x: Value) => Ok(Value(x.meaning, t)), true);
    assert Respectful(n) && Fresh(n);
    n
  }

  function Passing(id: Id, parent: Id): (n: Node)
    ensures n.Map? && n.id == id && n.Parents() == [parent] && !n.cleanup
    ensures forall t, x :: n.transform(t, x) == Ok(Value(0, x.instance))
  {
    var n := Map(id, parent, (t: nat, x: Value) => Ok(Value(0, x.instance)), false);
    assert Respectful(n);
    n
  }

  ghost const CHAIN := [SETTING, ResourceNode(), Passing(2, 1), Passing(3, 2)]

  const FIRST: map<Id, Value> := map[0 := Value(1, 0), 1 := Value(1, 0), 2 := Value(0, 0), 3 := Value(0, 0)]

  const SECOND: map<Id, Value> := map[0 := Value(2, 0), 1 := Value(2, 3), 2 := Value(0, 3), 3 := Value(0, 0)]

  lemma VisitDirty(n: Node, cfg: Config, prev: Option<Generation>, b: Build)
    requires n.Map? && Ready(n, b) && n.parent in b.values
    requires b.Dirty(n.parent) || OldValue(prev, n.id).None?
    requires n.transform(|b.calls|, b.values[n.parent]).Ok?
    ensures var v := n.transform(|b.calls|, b.values[n.parent]).value;
      var w := Visit(EQ, n, cfg, prev, b);
      && w.Filled? && |w.build.calls| == |b.calls| + 1
      && w.build.values == b.values[n.id := v]
      && w.build.dirty == b.dirty[n.id := n.cleanup || !Unchanged(EQ, v, OldValue(prev, n.id))]
  {
    assert n.parent in n.Parents();
    assert Args(n.Parents(), b.values) == [b.values[n.parent]];
  }

  lemma VisitClean(n: Node, cfg: Config, prev: Option<Generation>, b: Build)
    requires n.Map? && Ready(n, b) && !b.Dirty(n.parent) && OldValue(prev, n.id).Some?
    ensures Visit(EQ, n, cfg, prev, b) == Filled(b.Set(n.id, OldValue(prev, n.id).value, false, b.calls + []))
  {
  }

  lemma ChainIsOrdered()
    ensures Ordered(CHAIN, 0) && |CHAIN| == 4
  {
  }

  lemma OneMore(nodes: seq<Node>, cfg: Config, prev: Option<Generation>, b0: Build, k: nat, b: Build)
    requires k < |nodes| && Ordered(nodes, 0) && WalkTo(EQ, nodes, 0, cfg, prev, b0, k) == Filled(b)
    ensures Ready(nodes[k], b) && WalkTo(EQ, nodes, 0, cfg, prev, b0, k + 1) == Visit(EQ, nodes[k], cfg, prev, b)
  {
    assert nodes[k].id == k;
  }

  lemma VisitSetting(cfg: Config, prev: Option<Generation>, calls: seq<Call>)
    requires prev.Some? ==> !Unchanged(EQ, Value(|cfg|, 0), OldValue(prev, 0))
    ensures Visit(EQ, SETTING, cfg, prev, NewBuild(calls)) ==
      Filled(Build(map[0 := Value(|cfg|, 0)], map[0 := true], calls + []))
  {
  }

  lemma {:induction false} FirstWalk()
    ensures Ordered(CHAIN, 0) && |CHAIN| == 4
    ensures var w := WalkTo(EQ, CHAIN, 0, "a", None, NewBuild([]), 4);
      w.Filled? && w.build.values == FIRST && |w.build.calls| == 3
  {
    ChainIsOrdered();
    var b0 := NewBuild([]);
    hide Visit, Ordered, Ready;
    VisitSetting("a", None, []);
    OneMore(CHAIN, "a", None, b0, 0, b0);
    hide WalkTo;
    var b1 := Visit(EQ, CHAIN[0], "a", None, b0).build;
    OneMore(CHAIN, "a", None, b0, 1, b1);
    VisitDirty(CHAIN[1], "a", None, b1);
    var b2 := Visit(EQ, CHAIN[1], "a", None, b1).build;
    OneMore(CHAIN, "a", None, b0, 2, b2);
    VisitDirty(CHAIN[2], "a", None, b2);
    var b3 := Visit(EQ, CHAIN[2], "a", None, b2).build;
    OneMore(CHAIN, "a", None, b0, 3, b3);
    VisitDirty(CHAIN[3], "a", None, b3);
  }

  lemma {:induction false} SecondWalk(prev: Generation, calls: seq<Call>)
    requires prev.values == FIRST && |calls| == 3
    ensures Ordered(CHAIN, 0) && |CHAIN| == 4
    ensures var w := WalkTo(EQ, CHAIN, 0, "bb", Some(prev), NewBuild(calls), 4);
      w.Filled? && w.build.values == SECOND && w.build.Dirty(1)
  {
    ChainIsOrdered();
    var was := Some(prev);
    var b0 := NewBuild(calls);
    hide Visit, Ordered, Ready;
    VisitSetting("bb", was, calls);
    OneMore(CHAIN, "bb", was, b0, 0, b0);
    hide WalkTo;
    var b1 := Visit(EQ, CHAIN[0], "bb", was, b0).build;
    OneMore(CHAIN, "bb", was, b0, 1, b1);
    VisitDirty(CHAIN[1], "bb", was, b1);
    var b2 := Visit(EQ, CHAIN[1], "bb", was, b1).build;
    OneMore(CHAIN, "bb", was, b0, 2, b2);
    VisitDirty(CHAIN[2], "bb", was, b2);
    var b3 := Visit(EQ, CHAIN[2], "bb", was, b2).build;
    OneMore(CHAIN, "bb", was, b0, 3, b3);
    VisitClean(CHAIN[3], "bb", was, b3);
  }

  ghost const LOADED: seq<Event> := Registering(CHAIN, 4) + [Start(Accepted("a"))]

  ghost const RUN: seq<Event> := LOADED + [Reload(Accepted("bb"))]

  function Registering(nodes: seq<Node>, k: nat): (events: seq<Event>)
    requires k <= |nodes|
    ensures |events| == k
  {
    if k == 0 then [] else Registering(nodes, k - 1) + [Register(nodes[k - 1])]
  }

  lemma {:induction false} Registered(nodes: seq<Node>, k: nat)
    requires k <= |nodes| && Ordered(nodes, 0)
    ensures After(EQ, Registering(nodes, k)) == INITIAL.(nodes := nodes[..k], nextId := k)
  {
    hide Next;
    if k > 0 {
      Registered(nodes, k - 1);
      assert Registering(nodes, k)[..k - 1] == Registering(nodes, k - 1);
      RegisterOne(nodes, k - 1);
    }
  }

  lemma RegisterOne(nodes: seq<Node>, k: nat)
    requires k < |nodes| && Ordered(nodes, 0)
    ensures Next(EQ, INITIAL.(nodes := nodes[..k], nextId := k), Register(nodes[k])).0 ==
      INITIAL.(nodes := nodes[..k + 1], nextId := k + 1)
  {
    assert CanRegister(INITIAL.(nodes := nodes[..k], nextId := k), nodes[k]);
    assert nodes[..k] + [nodes[k]] == nodes[..k + 1];
    hide ReloadLocked, StartWith;
  }

  lemma Started()
    ensures var s := After(EQ, LOADED);
      && s.nodes == CHAIN && s.pending == [] && |s.calls| == 3
      && s.current.Some? && s.current.value.values == FIRST
  {
    ChainIsOrdered();
    Registered(CHAIN, 4);
    assert CHAIN[..4] == CHAIN && LOADED[..|LOADED| - 1] == Registering(CHAIN, 4);
    FirstWalk();
    hide WalkTo, BatchFrom, Registering;
  }

  /** After one reload the resource has been replaced, its child follows, and its grandchild still
      holds what it took from the replaced one, which waits to be released. */
  lemma GrandchildMayBeStale()
    ensures var s := After(EQ, RUN);
      && s.current.Some? && s.current.value.values == SECOND
      && SECOND[2].instance == SECOND[1].instance != SECOND[3].instance
      && s.pending != [] && exists it :: it in s.pending[0] && it.id == 1 && it.value.instance == SECOND[3].instance
  {
    Started();
    assert RUN[..|RUN| - 1] == LOADED;
    var s := After(EQ, LOADED);
    hide WalkTo, BatchFrom, Registering;
    SecondWalk(s.current.value, s.calls);
    ReplacedIsPending(s.current.value.values, Walk(EQ, s, "bb").build);
  }

  lemma ReplacedIsPending(was: map<Id, Value>, b: Build)
    requires was == FIRST && b.Dirty(1)
    ensures Item(1, Value(1, 0)) in BatchFrom(CHAIN, b, was, 4)
  {
    assert CHAIN[1].id == 1;
    assert Item(1, Value(1, 0)) in BatchFrom(CHAIN, b, was, 2);
    assert Item(1, Value(1, 0)) in BatchFrom(CHAIN, b, was, 3);
  }

  // ----- A resource that no generation ever holds -----

  function RefusingNode(): (n: Node)
    ensures n.Map? && n.id == 2 && n.Parents() == [1] && !n.cleanup
    ensures forall t, x :: n.transform(t, x) == Err
  {
    var n := Map(2, 1, (t: nat, x: Value) => Err, false);
    assert Respectful(n);
    n
  }

  ghost const SHORT := [SETTING, ResourceNode(), RefusingNode()]

  lemma {:induction false} RefusedWalk()
    ensures Ordered(SHORT, 0) && |SHORT| == 3
    ensures var w := WalkTo(EQ, SHORT, 0, "a", None, NewBuild([]), 3);
      && w.FailedAt? && w.id == 2 && |w.calls| == 2
      && w.calls[0].id == 1 && w.calls[0].result == Ok(Value(1, 0))
  {
    var b0 := NewBuild([]);
    assert Ordered(SHORT, 0);
    VisitSetting("a", None, []);
    hide Ordered, Ready;
    OneMore(SHORT, "a", None, b0, 0, b0);
    hide WalkTo;
    var b1 := Visit(EQ, SHORT[0], "a", None, b0).build;
    OneMore(SHORT, "a", None, b0, 1, b1);
    VisitDirty(SHORT[1], "a", None, b1);
    var b2 := Visit(EQ, SHORT[1], "a", None, b1).build;
    OneMore(SHORT, "a", None, b0, 2, b2);
    VisitRefused(b2);
  }

  lemma VisitRefused(b: Build)
    requires Ready(SHORT[2], b)
    ensures var w := Visit(EQ, SHORT[2], "a", None, b);
      w.FailedAt? && w.id == 2 && |w.calls| == |b.calls| + 1 && b.calls <= w.calls
  {
  }

  /** One Start builds the resource, fails at the node behind it, and drops what it built: nothing is
      live, nothing is scheduled, and the resource is where no release will find it. */
  lemma FailedStartDropsResource()
    ensures var s := After(EQ, Registering(SHORT, 3));
      var (t, reply) := Next(EQ, s, Start(Accepted("a")));
      && reply == TransformFailed(2)
      && Resource(t, 0) && At(t, 0, Abandoned)
      && t.current.None? && t.pending == [] && t.released == []
  {
    RefusedWalk();
    Registered(SHORT, 3);
    assert SHORT[..3] == SHORT;
    hide WalkTo, Registering, After;
  }
}
