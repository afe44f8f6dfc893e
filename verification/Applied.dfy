/**
  What the functions given to Key, Struct, Map, Combine and Combine3 are applied to, said on the
  fields of each node: which parent is which argument, and which part of the config a root reads.
 */
module Applied {
  import opened Wrappers
  import opened Dag
  import opened Rebuild
  import opened Lifecycle
  import opened Invariants
  import opened Propagation

  /** `x` stands for the value of `p`: it means the same, and for a resource it is the instance. */
  ghost predicate StandsFor(nodes: seq<Node>, values: map<Id, Value>, p: Id, x: Value) {
    && p < |nodes| && p in values && x.meaning == values[p].meaning
    && (nodes[p].Map? && nodes[p].cleanup ==> x == values[p])
  }

  /** The value of `n` is what its own function gives for the config, or for values of its parents,
      each in its own place. */
  ghost predicate Computed(nodes: seq<Node>, cfg: Config, values: map<Id, Value>, n: Node, v: Value) {
    match n
    case Key(_, get) => v == get(cfg)
    case Struct(_, whole, zero, sub, unmarshal) =>
      if whole then unmarshal(cfg) == Ok(v)
      else if sub(cfg).None? then v == zero
      else unmarshal(sub(cfg).value) == Ok(v)
    case Map(_, parent, transform, _) =>
      exists t, x :: StandsFor(nodes, values, parent, x) && transform(t, x) == Ok(v)
    case Combine(_, parentA, parentB, combine) =>
      exists t, x, y :: StandsFor(nodes, values, parentA, x) && StandsFor(nodes, values, parentB, y)
        && combine(t, x, y) == Ok(v)
    case Combine3(_, parentA, parentB, parentC, combine3) =>
      exists t, x, y, z :: StandsFor(nodes, values, parentA, x) && StandsFor(nodes, values, parentB, y)
        && StandsFor(nodes, values, parentC, z) && combine3(t, x, y, z) == Ok(v)
  }

  lemma MadeByItsFunction(nodes: seq<Node>, cfg: Config, values: map<Id, Value>, c: Call, t: nat, id: Id)
    requires id < |nodes| && !nodes[id].IsRoot() && Honest(nodes, c, t) && MadeBy(nodes, values, c, id)
    ensures Computed(nodes, cfg, values, nodes[id], values[id])
  {
    forall j | 0 <= j < |c.args| ensures StandsFor(nodes, values, nodes[id].Parents()[j], c.args[j]) {
    }
    var ps := nodes[id].Parents();
    match nodes[id]
    case Map(_, parent, transform, _) =>
      assert StandsFor(nodes, values, parent, c.args[0]) by {
        assert ps[0] == parent;
      }
      assert transform(t, c.args[0]) == Ok(values[id]);
    case Combine(_, parentA, parentB, combine) =>
      assert StandsFor(nodes, values, parentA, c.args[0]) && StandsFor(nodes, values, parentB, c.args[1]) by {
        assert ps[0] == parentA && ps[1] == parentB;
      }
      assert combine(t, c.args[0], c.args[1]) == Ok(values[id]);
    case Combine3(_, parentA, parentB, parentC, combine3) =>
      assert StandsFor(nodes, values, parentA, c.args[0]) && StandsFor(nodes, values, parentB, c.args[1])
        && StandsFor(nodes, values, parentC, c.args[2]) by {
        assert ps[0] == parentA && ps[1] == parentB && ps[2] == parentC;
      }
      assert combine3(t, c.args[0], c.args[1], c.args[2]) == Ok(values[id]);
  }

  /** In every reachable state each live value is what its node's own function gives: a root's for the
      live config, a derived node's for values that stand for those of its own parents, in order. */
  lemma LiveValuesAreComputed(eq: DeepEqual, events: seq<Event>, id: Id)
    requires var s := After(eq, events); s.current.Some? && id in s.current.value.values
    ensures var s := After(eq, events);
      var gen := s.current.value;
      id < |s.nodes| && Computed(s.nodes, gen.config, gen.values, s.nodes[id], gen.values[id])
  {
    var s := After(eq, events);
    var gen := s.current.value;
    ReachableInv(eq, events);
    assert Explained(s.nodes, gen.config, gen.values, s.calls, id);
    if !s.nodes[id].IsRoot() {
      var i :| 0 <= i < |s.calls| && MadeBy(s.nodes, gen.values, s.calls[i], id);
      MadeByItsFunction(s.nodes, gen.config, gen.values, s.calls[i], i, id);
    }
  }

  /** `x` means what the from-scratch walk gave for `p`. */
  ghost predicate Means(vs: map<Id, Value>, p: Id, x: Value) { p in vs && x.meaning == vs[p].meaning }

  /** The own function of `n` fails for the config, or for values that mean what the from-scratch walk
      gave for its parents. */
  ghost predicate Fails(cfg: Config, vs: map<Id, Value>, n: Node) {
    match n
    case Key(_, _) => false
    case Struct(_, whole, _, sub, unmarshal) =>
      if whole then unmarshal(cfg).Err? else sub(cfg).Some? && unmarshal(sub(cfg).value).Err?
    case Map(_, parent, transform, _) => exists t, x :: Means(vs, parent, x) && transform(t, x).Err?
    case Combine(_, parentA, parentB, combine) =>
      exists t, x, y :: Means(vs, parentA, x) && Means(vs, parentB, y) && combine(t, x, y).Err?
    case Combine3(_, parentA, parentB, parentC, combine3) =>
      exists t, x, y, z :: Means(vs, parentA, x) && Means(vs, parentB, y) && Means(vs, parentC, z)
        && combine3(t, x, y, z).Err?
  }

  lemma FailsByItsFunction(cfg: Config, vs: map<Id, Value>, n: Node, moment: nat)
    requires forall p :: p in n.Parents() ==> p in vs
    requires (if n.IsRoot() then n.Decode(cfg) else n.Run(moment, Args(n.Parents(), vs))).Err?
    ensures Fails(cfg, vs, n)
  {
    match n
    case Key(_, _) =>
    case Struct(_, _, _, _, _) =>
    case Map(_, parent, transform, _) =>
      assert parent in n.Parents();
      assert Means(vs, parent, vs[parent]) && transform(moment, vs[parent]).Err?;
    case Combine(_, parentA, parentB, combine) =>
      assert parentA in n.Parents() && parentB in n.Parents();
      assert Means(vs, parentA, vs[parentA]) && Means(vs, parentB, vs[parentB]);
      assert combine(moment, vs[parentA], vs[parentB]).Err?;
    case Combine3(_, parentA, parentB, parentC, combine3) =>
      assert parentA in n.Parents() && parentB in n.Parents() && parentC in n.Parents();
      assert Means(vs, parentA, vs[parentA]) && Means(vs, parentB, vs[parentB]) && Means(vs, parentC, vs[parentC]);
      assert combine3(moment, vs[parentA], vs[parentB], vs[parentC]).Err?;
  }

  lemma FailureSaysRunFails(cfg: Config, vs: map<Id, Value>, n: Node, moment: nat)
    requires (forall p :: p in n.Parents() ==> p in vs) && Fails(cfg, vs, n)
    ensures (if n.IsRoot() then n.Decode(cfg) else n.Run(moment, Args(n.Parents(), vs))).Err?
  {
    match n
    case Key(_, _) =>
    case Struct(_, _, _, _, _) =>
    case Map(_, parent, transform, _) =>
      var t, x :| Means(vs, parent, x) && transform(t, x).Err?;
      SameForMeanings(n, vs, t, [x], moment);
    case Combine(_, parentA, parentB, combine) =>
      var t, x, y :| Means(vs, parentA, x) && Means(vs, parentB, y) && combine(t, x, y).Err?;
      SameForMeanings(n, vs, t, [x, y], moment);
    case Combine3(_, parentA, parentB, parentC, combine3) =>
      var t, x, y, z :| Means(vs, parentA, x) && Means(vs, parentB, y) && Means(vs, parentC, z)
                        && combine3(t, x, y, z).Err?;
      SameForMeanings(n, vs, t, [x, y, z], moment);
  }

  lemma SameForMeanings(n: Node, vs: map<Id, Value>, t: nat, xs: seq<Value>, moment: nat)
    requires !n.IsRoot() && |xs| == |n.Parents()| && forall j :: 0 <= j < |xs| ==> Means(vs, n.Parents()[j], xs[j])
    ensures forall p :: p in n.Parents() ==> p in vs
    ensures n.Run(t, xs).Err? <==> n.Run(moment, Args(n.Parents(), vs)).Err?
  {
    var ps := n.Parents();
    forall p | p in ps ensures p in vs {
      var j :| 0 <= j < |ps| && ps[j] == p;
      assert Means(vs, ps[j], xs[j]);
    }
    assert SameMeaning(xs, Args(ps, vs));
    assert Respectful(n) && Agree(n.Run(t, xs), n.Run(moment, Args(ps, vs)));
  }

  lemma {:induction false} ScratchStops(nodes: seq<Node>, cfg: Config, moment: nat, id: Id, k: nat)
    requires Ordered(nodes, 0) && id < k <= |nodes|
    ensures Scratch(nodes, 0, map[], cfg, moment, k) == FailsAt(id) <==>
      && Scratch(nodes, 0, map[], cfg, moment, id).Done?
      && Fails(cfg, Scratch(nodes, 0, map[], cfg, moment, id).values, nodes[id])
    decreases k
  {
    assert nodes[k - 1].id == k - 1;
    if id < k - 1 {
      ScratchStops(nodes, cfg, moment, id, k - 1);
    } else {
      ScratchStopsBefore(nodes, cfg, moment, id);
      var e := Scratch(nodes, 0, map[], cfg, moment, id);
      if e.Done? {
        ParentsBefore(nodes, id);
        if Fails(cfg, e.values, nodes[id]) {
          FailureSaysRunFails(cfg, e.values, nodes[id], moment);
        }
        if Scratch(nodes, 0, map[], cfg, moment, k) == FailsAt(id) {
          FailsByItsFunction(cfg, e.values, nodes[id], moment);
        }
      }
    }
  }

  lemma {:induction false} ScratchStopsBefore(nodes: seq<Node>, cfg: Config, moment: nat, k: nat)
    requires Ordered(nodes, 0) && k <= |nodes|
    ensures var e := Scratch(nodes, 0, map[], cfg, moment, k); e.FailsAt? ==> e.id < k
  {
    if k > 0 {
      assert nodes[k - 1].id == k - 1;
      ScratchStopsBefore(nodes, cfg, moment, k - 1);
    }
  }

  /** A load fails at a node if and only if the from-scratch walk gets there, and the node's own
      function fails: on the part of the config it reads, or on what its own parents mean, in order. */
  lemma LoadFailsIff(eq: DeepEqual, events: seq<Event>, e: Event, cfg: Config, id: Id, moment: nat)
    requires var s := After(eq, events); Loads(s, e, cfg) && id < |s.nodes|
    ensures var s := After(eq, events);
      var scratch := Scratch(s.nodes, 0, map[], cfg, moment, id);
      Next(eq, s, e).1 == TransformFailed(id) <==> scratch.Done? && Fails(cfg, scratch.values, s.nodes[id])
  {
    var s := After(eq, events);
    ReachableInv(eq, events);
    LoadIsReload(eq, s, e, cfg);
    WalkFailsWithScratch(eq, s.nodes, cfg, s.current, s.calls, moment, |s.nodes|);
    ScratchStops(s.nodes, cfg, moment, id, |s.nodes|);
    hide Inv, Scratch, WalkTo, Fails, Next, BatchFrom;
  }
}
