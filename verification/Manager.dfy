/**
  The objects that change in place: generationBuilder (generation.go) and Manager (manager.go,
  derived.go, testing.go), proved against the specification functions of Dag, Lifecycle and Eager.
 */
module ManagerObjects {
  import opened Wrappers
  import opened Dag
  import opened Lifecycle
  import opened Eager

  /** The nodes that read the config, in registration order. */
  function RootsOf(nodes: seq<Node>): seq<Node> {
    if nodes == [] then []
    else
      var last := nodes[|nodes| - 1];
      RootsOf(nodes[..|nodes| - 1]) + (if last.IsRoot() then [last] else [])
  }

  lemma RootsOfAppend(nodes: seq<Node>, n: Node)
    ensures RootsOf(nodes + [n]) == RootsOf(nodes) + (if n.IsRoot() then [n] else [])
  {
    assert (nodes + [n])[..|nodes|] == nodes;
  }

  lemma AddNodeWellFormed(s: State, n: Node)
    requires WellFormed(s) && CanRegister(s, n)
    ensures WellFormed(Lifecycle.AddNode(s, n))
  {
  }

  lemma PublishSetsCalls(s: State, cfg: Config, b: Build)
    ensures Publish(s.(calls := b.calls), cfg, b) == Publish(s, cfg, b)
  {
  }

  class GenerationBuilder {
    const config: Config
    var values: map<Id, Value>
    var dirty: map<Id, bool>

    constructor (config: Config)
      ensures this.config == config && values == map[] && dirty == map[]
    {
      this.config := config;
      values := map[];
      dirty := map[];
    }

    ghost function Contents(log: seq<Call>): Build
      reads this
    {
      Build(values, dirty, log)
    }

    method Set(id: Id, val: Value, changed: bool)
      modifies this
      ensures values == old(values)[id := val] && dirty == old(dirty)[id := changed]
    {
      values := values[id := val];
      dirty := dirty[id := changed];
    }

    method IsDirty(id: Id) returns (d: bool)
      ensures d == (id in dirty && dirty[id])
    {
      d := id in dirty && dirty[id];
    }

    method Freeze(version: int) returns (gen: Generation)
      ensures gen == Generation(version, config, values)
    {
      gen := Generation(version, config, values);
    }
  }

  class Manager {
    const deepEqual: DeepEqual
    const eagerRecompute: bool

    var current: Option<Generation>
    var roots: seq<Node>
    var allNodes: seq<Node>
    var nextId: nat
    var frozen: bool
    var started: bool

    var calls: seq<Call>            // every transform call so far
    var pending: seq<seq<Item>>     // what each cleanup goroutine still has to do
    var released: seq<Item>         // the items whose cleanup has run
    ghost var abandoned: set<nat>
    var notified: seq<(Config, Config)>   // what the OnReload callbacks were given

    ghost function Abs(): State
      reads this
    {
      State(allNodes, nextId, frozen, started, current, calls, pending, released, abandoned, notified)
    }

    ghost predicate Valid()
      reads this
    {
      && (if eagerRecompute then EagerInv(Abs()) else WellFormed(Abs()))
      && roots == RootsOf(allNodes)
    }

    constructor (deepEqual: DeepEqual)
      ensures Valid() && Abs() == INITIAL && this.deepEqual == deepEqual && !eagerRecompute
    {
      this.deepEqual := deepEqual;
      eagerRecompute := false;
      current, roots, allNodes, nextId, frozen, started := None, [], [], 0, false, false;
      calls, pending, released, abandoned, notified := [], [], [], {}, [];
    }

    /** TestVal: one value, no node behind it. */
    constructor TestVal(deepEqual: DeepEqual, value: Value)
      ensures Valid() && Abs() == EagerInitial(value) && this.deepEqual == deepEqual && eagerRecompute
    {
      this.deepEqual := deepEqual;
      eagerRecompute := true;
      current := Some(Generation(0, "", map[0 := value]));
      roots, allNodes, nextId, frozen, started := [], [], 1, false, false;
      calls, pending, released, abandoned, notified := [], [], [], {}, [];
    }

    // ----- Registration -----

    method NextId() returns (id: Id)
      modifies this`nextId
      ensures id == old(nextId) && nextId == old(nextId) + 1
    {
      id := nextId;
      nextId := nextId + 1;
    }

    /** Appends the node; a TestVal manager then reruns every node, and panics if one fails. */
    method AddNode(n: Node, isRoot: bool) returns (panicked: bool)
      requires nextId > 0 && isRoot == n.IsRoot() && roots == RootsOf(allNodes)
      requires CanRegister(Abs().(nextId := nextId - 1), n)
      requires if eagerRecompute then EagerInv(Abs().(nextId := nextId - 1)) && !isRoot
        else WellFormed(Abs().(nextId := nextId - 1))
      modifies this
      ensures Valid()
      ensures !eagerRecompute ==> !panicked && Abs() == Lifecycle.AddNode(old(Abs()).(nextId := n.id), n)
      ensures eagerRecompute ==> (Abs(), panicked) == EagerRegister(deepEqual, old(Abs()).(nextId := n.id), n)
    {
      if isRoot {
        roots := roots + [n];
      }
      allNodes := allNodes + [n];
      panicked := false;
      RootsOfAppend(old(allNodes), n);
      hide RootsOf, Rerun, Ordered, EagerReady, CanRegister;
      ghost var s := old(Abs()).(nextId := n.id);
      assert s == old(Abs()).(nextId := nextId - 1) && Abs() == Lifecycle.AddNode(s, n);
      if eagerRecompute {
        EagerAddReady(s, n);
        panicked := RecomputeTestNodes();
        RerunKeepsInv(deepEqual, Lifecycle.AddNode(s, n));
      } else {
        AddNodeWellFormed(s, n);
      }
    }

    /** Key and Struct, Map and MapWithCleanup, Combine and Combine3: `make` builds the node from its id. */
    method Register(make: Id -> Node, isRoot: bool) returns (id: Id, panicked: bool)
      requires Valid()
      requires make(nextId).id == nextId && make(nextId).IsRoot() == isRoot
      requires forall j :: 0 <= j < |make(nextId).Parents()| ==> make(nextId).Parents()[j] < nextId
      requires eagerRecompute ==> !isRoot
      modifies this
      ensures Valid() && id == old(nextId)
      ensures !eagerRecompute ==>
        Abs() == Next(deepEqual, old(Abs()), Event.Register(make(old(nextId)))).0 && panicked == old(frozen)
      ensures eagerRecompute ==> (Abs(), panicked) == EagerRegister(deepEqual, old(Abs()), make(old(nextId)))
    {
      if frozen {
        return nextId, true;
      }
      id := NextId();
      panicked := AddNode(make(id), isRoot);
    }

    // ----- recompute -----

    method OldVal(prev: Option<Generation>, id: Id) returns (v: Option<Value>)
      ensures v == OldValue(prev, id)
    {
      v := if prev.Some? && id in prev.value.values then Some(prev.value.values[id]) else None;
    }

    method CompareWithOld(prev: Option<Generation>, id: Id, val: Value) returns (changed: bool)
      ensures changed == !Unchanged(deepEqual, val, OldValue(prev, id))
    {
      changed := true;
      var oldVal := OldVal(prev, id);
      if oldVal.Some? {
        changed := !deepEqual(val, oldVal.value);
      }
    }

    /** Runs a transform and records the call. */
    method CallTransform(n: Node, args: seq<Value>) returns (result: Outcome<Value>)
      requires !n.IsRoot() && |args| == |n.Parents()|
      modifies this`calls
      ensures result == n.Run(|old(calls)|, args)
      ensures calls == old(calls) + [Call(n.id, args, result)]
    {
      result := n.Run(|calls|, args);
      calls := calls + [Call(n.id, args, result)];
    }

    method RecomputeKey(n: Node, b: GenerationBuilder, prev: Option<Generation>)
      returns (result: Outcome<Value>, changed: bool)
      requires n.Key?
      ensures result == Ok(n.get(b.config))
      ensures Recomputed(result, changed, []) == Recompute(deepEqual, n, b.config, prev, b.Contents(calls))
    {
      var val := n.get(b.config);
      changed := CompareWithOld(prev, n.id, val);
      result := Ok(val);
    }

    method RecomputeStruct(n: Node, b: GenerationBuilder, prev: Option<Generation>)
      returns (result: Outcome<Value>, changed: bool)
      requires n.Struct?
      ensures result ==
        if n.whole then n.unmarshal(b.config)
        else if n.sub(b.config).None? then Ok(n.zero)
        else n.unmarshal(n.sub(b.config).value)
      ensures Recomputed(result, changed, []) == Recompute(deepEqual, n, b.config, prev, b.Contents(calls))
    {
      var sub := b.config;
      if !n.whole {
        var found := n.sub(b.config);
        if found.None? {
          changed := CompareWithOld(prev, n.id, n.zero);
          return Ok(n.zero), changed;
        }
        sub := found.value;
      }
      result := n.unmarshal(sub);
      if result.Err? {
        return result, false;
      }
      changed := CompareWithOld(prev, n.id, result.value);
    }

    method RecomputeMap(n: Node, b: GenerationBuilder, prev: Option<Generation>)
      returns (result: Outcome<Value>, changed: bool)
      requires n.Map? && Ready(n, b.Contents(calls))
      modifies this`calls
      ensures n.parent in b.values
      ensures result ==
        if prev.Some? && n.id in prev.value.values && !(n.parent in b.dirty && b.dirty[n.parent])
        then Ok(prev.value.values[n.id])
        else n.transform(|old(calls)|, b.values[n.parent])
      ensures var r := Recompute(deepEqual, n, b.config, prev, b.Contents(old(calls)));
        result == r.result && changed == r.changed && calls == old(calls) + r.calls
    {
      assert n.Parents() == [n.parent];
      assert n.parent in n.Parents();
      var dirty := b.IsDirty(n.parent);
      var oldVal := OldVal(prev, n.id);
      if !dirty && oldVal.Some? {
        return Ok(oldVal.value), false;
      }
      assert Args(n.Parents(), b.values) == [b.values[n.parent]];
      result := CallTransform(n, [b.values[n.parent]]);
      if result.Err? {
        return result, false;
      }
      if n.cleanup {
        return result, true;
      }
      changed := CompareWithOld(prev, n.id, result.value);
    }

    method RecomputeCombine(n: Node, b: GenerationBuilder, prev: Option<Generation>)
      returns (result: Outcome<Value>, changed: bool)
      requires n.Combine? && Ready(n, b.Contents(calls))
      modifies this`calls
      ensures n.parentA in b.values && n.parentB in b.values
      ensures result ==
        if prev.Some? && n.id in prev.value.values
           && forall p :: p in {n.parentA, n.parentB} ==> !(p in b.dirty && b.dirty[p])
        then Ok(prev.value.values[n.id])
        else n.combine(|old(calls)|, b.values[n.parentA], b.values[n.parentB])
      ensures var r := Recompute(deepEqual, n, b.config, prev, b.Contents(old(calls)));
        result == r.result && changed == r.changed && calls == old(calls) + r.calls
    {
      assert n.Parents() == [n.parentA, n.parentB];
      var dirtyA := b.IsDirty(n.parentA);
      var dirtyB := b.IsDirty(n.parentB);
      assert n.parentA in n.Parents() && n.parentB in n.Parents();
      var oldVal := OldVal(prev, n.id);
      if !dirtyA && !dirtyB && oldVal.Some? {
        return Ok(oldVal.value), false;
      }
      assert Args(n.Parents(), b.values) == [b.values[n.parentA], b.values[n.parentB]];
      result := CallTransform(n, [b.values[n.parentA], b.values[n.parentB]]);
      if result.Err? {
        return result, false;
      }
      changed := CompareWithOld(prev, n.id, result.value);
    }

    method RecomputeCombine3(n: Node, b: GenerationBuilder, prev: Option<Generation>)
      returns (result: Outcome<Value>, changed: bool)
      requires n.Combine3? && Ready(n, b.Contents(calls))
      modifies this`calls
      ensures n.parentA in b.values && n.parentB in b.values && n.parentC in b.values
      ensures result ==
        if prev.Some? && n.id in prev.value.values
           && forall p :: p in {n.parentA, n.parentB, n.parentC} ==> !(p in b.dirty && b.dirty[p])
        then Ok(prev.value.values[n.id])
        else n.combine3(|old(calls)|, b.values[n.parentA], b.values[n.parentB], b.values[n.parentC])
      ensures var r := Recompute(deepEqual, n, b.config, prev, b.Contents(old(calls)));
        result == r.result && changed == r.changed && calls == old(calls) + r.calls
    {
      assert n.Parents() == [n.parentA, n.parentB, n.parentC];
      var dirtyA := b.IsDirty(n.parentA);
      var dirtyB := b.IsDirty(n.parentB);
      var dirtyC := b.IsDirty(n.parentC);
      assert n.parentA in n.Parents() && n.parentB in n.Parents() && n.parentC in n.Parents();
      var oldVal := OldVal(prev, n.id);
      if !dirtyA && !dirtyB && !dirtyC && oldVal.Some? {
        return Ok(oldVal.value), false;
      }
      assert Args(n.Parents(), b.values) == [b.values[n.parentA], b.values[n.parentB], b.values[n.parentC]];
      result := CallTransform(n, [b.values[n.parentA], b.values[n.parentB], b.values[n.parentC]]);
      if result.Err? {
        return result, false;
      }
      changed := CompareWithOld(prev, n.id, result.value);
    }

    method RecomputeNode(n: Node, b: GenerationBuilder, prev: Option<Generation>)
      returns (result: Outcome<Value>, changed: bool)
      requires Ready(n, b.Contents(calls))
      modifies this`calls
      ensures var r := Recompute(deepEqual, n, b.config, prev, b.Contents(old(calls)));
        result == r.result && changed == r.changed && calls == old(calls) + r.calls
    {
      match n
      case Key(_, _) => result, changed := RecomputeKey(n, b, prev);
      case Struct(_, _, _, _, _) => result, changed := RecomputeStruct(n, b, prev);
      case Map(_, _, _, _) => result, changed := RecomputeMap(n, b, prev);
      case Combine(_, _, _, _) => result, changed := RecomputeCombine(n, b, prev);
      case Combine3(_, _, _, _, _) => result, changed := RecomputeCombine3(n, b, prev);
    }

    /** The loop over allNodes: fills the builder, or stops at the first node that fails. */
    method WalkNodes(b: GenerationBuilder, prev: Option<Generation>, ghost first: nat) returns (failed: Option<Id>)
      requires Ordered(allNodes, first) && forall id: Id :: id < first ==> id in b.values
      modifies b, this`calls
      ensures var w := WalkTo(deepEqual, allNodes, first, b.config, prev, old(b.Contents(calls)), |allNodes|);
        match failed
        case None => w == Filled(b.Contents(calls))
        case Some(id) => w == FailedAt(id, calls)
    {
      hide Recompute;
      ghost var b0 := b.Contents(calls);
      failed := None;
      for i := 0 to |allNodes|
        invariant WalkTo(deepEqual, allNodes, first, b.config, prev, b0, i) == Filled(b.Contents(calls))
      {
        var n := allNodes[i];
        assert Ready(n, b.Contents(calls)) by {
          assert allNodes[i].id == first + i;
        }
        var result, changed := RecomputeNode(n, b, prev);
        if result.Err? {
          assert WalkTo(deepEqual, allNodes, first, b.config, prev, b0, i + 1) == FailedAt(n.id, calls);
          FailureIsFinal(deepEqual, allNodes, first, b.config, prev, b0, i + 1, |allNodes|);
          return Some(n.id);
        }
        b.Set(n.id, result.value, changed);
      }
    }

    // ----- testing.go -----

    method RecomputeTestNodes() returns (panicked: bool)
      requires eagerRecompute && EagerReady(Abs())
      modifies this`current, this`calls
      ensures (Abs(), panicked) == Rerun(deepEqual, old(Abs()))
      ensures if panicked then current == old(current) else current.Some? && current.value.version == 0
    {
      var b := new GenerationBuilder("");
      if current.Some? {
        b.values := current.value.values;
        b.dirty := map id | id in current.value.values :: true;
      }
      var failed := WalkNodes(b, None, 1);
      if failed.Some? {
        return true;
      }
      var gen := b.Freeze(0);
      current := Some(gen);
      panicked := false;
    }

    // ----- Reload, Start, Stop -----

    method ScheduleCleanup(oldGen: Generation, b: GenerationBuilder)
      requires Ordered(allNodes, 0)
      modifies this`pending
      ensures pending == Schedule(old(pending), BatchFrom(allNodes, b.Contents(calls), oldGen.values, |allNodes|))
    {
      hide Ordered;
      var items: seq<Item> := [];
      ghost var built := b.Contents(calls);
      ghost var batch := BatchFrom(allNodes, built, oldGen.values, |allNodes|);
      var i := |allNodes|;
      while i > 0
        invariant 0 <= i <= |allNodes|
        invariant pending == old(pending)
        invariant batch == items + BatchFrom(allNodes, built, oldGen.values, i)
      {
        i := i - 1;
        var nid := allNodes[i].id;
        var dirty := b.IsDirty(nid);
        ghost var rest := BatchFrom(allNodes, built, oldGen.values, i);
        if dirty && nid in oldGen.values {
          var item := Item(nid, oldGen.values[nid]);
          assert items + ([item] + rest) == (items + [item]) + rest;
          items := items + [item];
        } else {
          assert [] + rest == rest;
        }
      }
      assert items + [] == items == batch;
      if |items| == 0 {
        return;
      }
      pending := pending + [items];
    }

    /** The swap: version, freeze, store the pointer, call back, schedule the cleanup of what was replaced. */
    method Swap(oldGen: Option<Generation>, b: GenerationBuilder)
      requires Ordered(allNodes, 0) && oldGen == current
      modifies this`current, this`pending, this`notified
      ensures Abs() == Publish(old(Abs()), b.config, b.Contents(calls))
    {
      var version := 0;
      if oldGen.Some? {
        version := oldGen.value.version + 1;
      }
      var newGen := b.Freeze(version);
      current := Some(newGen);
      if oldGen.Some? {
        notified := notified + [(oldGen.value.config, newGen.config)];
        ScheduleCleanup(oldGen.value, b);
      }
    }

    method ReloadLocked(input: Input) returns (reply: Reply)
      requires Valid() && !eagerRecompute
      modifies this`current, this`pending, this`calls, this`abandoned, this`notified
      ensures Valid()
      ensures (Abs(), reply) == Lifecycle.ReloadLocked(deepEqual, old(Abs()), input)
    {
      hide BatchFrom, WalkTo, RootsOf, Ordered, Publish;
      if input.Rejected? {
        return NotAccepted(input.why);
      }
      var oldGen := current;
      var b := new GenerationBuilder(input.config);
      var failed := WalkNodes(b, oldGen, 0);
      if failed.Some? {
        abandoned := abandoned + Range(|old(calls)|, |calls|);
        return TransformFailed(failed.value);
      }
      PublishSetsCalls(old(Abs()), input.config, b.Contents(calls));
      Swap(oldGen, b);
      reply := Fine;
    }

    method Reload(input: Input) returns (reply: Reply)
      requires Valid() && !eagerRecompute
      modifies this
      ensures Valid() && (Abs(), reply) == Next(deepEqual, old(Abs()), Event.Reload(input))
    {
      reply := ReloadLocked(input);
    }

    method Start(input: Input) returns (reply: Reply)
      requires Valid() && !eagerRecompute
      modifies this
      ensures Valid() && (Abs(), reply) == Next(deepEqual, old(Abs()), Event.Start(input))
    {
      if started {
        return AlreadyStarted;
      }
      frozen := true;
      reply := ReloadLocked(input);
      if !reply.Fine? {
        return;
      }
      started := true;
    }

    method Stop() returns (reply: Reply)
      requires Valid() && !eagerRecompute
      modifies this`started
      ensures Valid() && (Abs(), reply) == Next(deepEqual, old(Abs()), Event.Stop)
    {
      if !started {
        return NotStarted;
      }
      started := false;
      reply := Fine;
    }

    /** One step of the goroutine that works on batch `k`. */
    method CleanUpNext(k: nat) returns (reply: Reply)
      requires Valid() && !eagerRecompute
      requires k < |pending| && pending[k] != []
      modifies this`pending, this`released
      ensures Valid() && (Abs(), reply) == Next(deepEqual, old(Abs()), Event.CleanUp(k))
    {
      var item := pending[k][0];
      pending := pending[k := pending[k][1..]];
      released := released + [item];
      reply := Fine;
    }

    // ----- Val.Get -----

    /** None is the panic: no generation yet, or no value for the node in it. */
    method Get(id: Id) returns (v: Option<Value>)
      ensures v == OldValue(current, id)
    {
      var gen := current;
      if gen.None? {
        return None;
      }
      v := if id in gen.value.values then Some(gen.value.values[id]) else None;
    }
  }

  lemma {:induction false} FailureIsFinal(eq: DeepEqual, nodes: seq<Node>, first: nat, cfg: Config,
                                          prev: Option<Generation>,
                                          b0: Build, i: nat, k: nat)
    requires Ordered(nodes, first) && i <= k <= |nodes|
    requires forall id: Id :: id < first ==> id in b0.values
    requires WalkTo(eq, nodes, first, cfg, prev, b0, i).FailedAt?
    ensures WalkTo(eq, nodes, first, cfg, prev, b0, k) == WalkTo(eq, nodes, first, cfg, prev, b0, i)
    decreases k
  {
    if i < k {
      FailureIsFinal(eq, nodes, first, cfg, prev, b0, i, k - 1);
    }
  }
}
