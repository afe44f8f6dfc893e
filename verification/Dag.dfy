/**
  The DAG of derived values (derived.go) and the walk that rebuilds it (manager.go).

  A value is a pair: its `meaning` numbers the class of values that behave alike, its `instance`
  says which object it is. `reflect.DeepEqual` may only identify values of one meaning, and may
  refuse to (NaN, functions). A transform may answer differently on every call, so it is given
  the moment of the call: its position in the log of all calls ever made.
 */
module Dag {
  import opened Wrappers

  type Id = nat

  type Config = string

  datatype Value = Value(meaning: int, instance: nat)

  /** reflect.DeepEqual: sound for meaning, not assumed reflexive. */
  type DeepEqual = eq: (Value, Value) -> bool | forall x, y :: eq(x, y) ==> x.meaning == y.meaning
    witness (x: Value, y: Value) => x.meaning == y.meaning

  /** One transform call and its result; the log of calls is the history every claim is about. */
  datatype Call = Call(id: Id, args: seq<Value>, result: Outcome<Value>)

  datatype RawNode =
    | Key(id: Id, get: Config -> Value)
    | Struct(id: Id, whole: bool, zero: Value, sub: Config -> Option<Config>, unmarshal: Config -> Outcome<Value>)
    | Map(id: Id, parent: Id, transform: (nat, Value) -> Outcome<Value>, cleanup: bool)
    | Combine(id: Id, parentA: Id, parentB: Id, combine: (nat, Value, Value) -> Outcome<Value>)
    | Combine3(id: Id, parentA: Id, parentB: Id, parentC: Id,
               combine3: (nat, Value, Value, Value) -> Outcome<Value>)
  {
    predicate IsRoot() { Key? || Struct? }

    predicate HasCleanup() { Map? && cleanup }

    function Parents(): (ps: seq<Id>) {
      match this
      case Key(_, _) => []
      case Struct(_, _, _, _, _) => []
      case Map(_, p, _, _) => [p]
      case Combine(_, a, b, _) => [a, b]
      case Combine3(_, a, b, c, _) => [a, b, c]
    }

    /** What a root reads from a config: a missing sub-tree of a Struct is the zero value. */
    function Decode(cfg: Config): Outcome<Value>
      requires IsRoot()
    {
      match this
      case Key(_, get) => Ok(get(cfg))
      case Struct(_, whole, zero, sub, unmarshal) =>
        if whole then unmarshal(cfg)
        else match sub(cfg)
          case None => Ok(zero)
          case Some(c) => unmarshal(c)
    }

    function Run(moment: nat, args: seq<Value>): Outcome<Value>
      requires !IsRoot() && |args| == |Parents()|
    {
      match this
      case Map(_, _, f, _) => f(moment, args[0])
      case Combine(_, _, _, f) => f(moment, args[0], args[1])
      case Combine3(_, _, _, _, f) => f(moment, args[0], args[1], args[2])
    }
  }

  ghost predicate SameMeaning(xs: seq<Value>, ys: seq<Value>) {
    |xs| == |ys| && forall i :: 0 <= i < |xs| ==> xs[i].meaning == ys[i].meaning
  }

  ghost predicate Agree(x: Outcome<Value>, y: Outcome<Value>) {
    match (x, y)
    case (Ok(v), Ok(w)) => v.meaning == w.meaning
    case (Err, Err) => true
    case _ => false
  }

  /** A transform's answer is determined, up to meaning, by the meaning of its arguments. */
  ghost predicate Respectful(n: RawNode)
    requires !n.IsRoot()
  {
    forall t, u, xs, ys {:trigger n.Run(t, xs), n.Run(u, ys)} ::
      |xs| == |n.Parents()| && SameMeaning(xs, ys) ==> Agree(n.Run(t, xs), n.Run(u, ys))
  }

  /** A resource constructor returns an instance of its own on every call. */
  ghost predicate Fresh(n: RawNode)
    requires !n.IsRoot()
  {
    forall t, xs {:trigger n.Run(t, xs)} ::
      |xs| == |n.Parents()| && n.Run(t, xs).Ok? ==> n.Run(t, xs).value.instance == t
  }

  ghost predicate Lawful(n: RawNode) {
    n.IsRoot() || (Respectful(n) && (n.HasCleanup() ==> Fresh(n)))
  }

  type Node = n: RawNode | Lawful(n) witness Key(0, cfg => Value(0, 0))

  /** nextID and addNode grow together, so a node's id is its position plus the number of
      values that were there before any node (one for TestVal, none otherwise). */
  predicate Ordered(nodes: seq<Node>, first: nat) {
    forall i :: 0 <= i < |nodes| ==>
      nodes[i].id == first + i && forall j :: 0 <= j < |nodes[i].Parents()| ==> nodes[i].Parents()[j] < first + i
  }

  // ----- generation.go -----

  datatype Generation = Generation(version: int, config: Config, values: map<Id, Value>)

  /** generationBuilder, with the call log as it stands. */
  datatype Build = Build(values: map<Id, Value>, dirty: map<Id, bool>, calls: seq<Call>) {
    predicate Dirty(id: Id) { id in dirty && dirty[id] }

    function Set(id: Id, v: Value, changed: bool, log: seq<Call>): Build {
      Build(values[id := v], dirty[id := changed], log)
    }
  }

  function NewBuild(calls: seq<Call>): Build { Build(map[], map[], calls) }

  // ----- recompute -----

  function OldValue(prev: Option<Generation>, id: Id): Option<Value> {
    if prev.Some? && id in prev.value.values then Some(prev.value.values[id]) else None
  }

  function Args(ps: seq<Id>, values: map<Id, Value>): (args: seq<Value>)
    requires forall p :: p in ps ==> p in values
    ensures |args| == |ps| && forall i :: 0 <= i < |ps| ==> args[i] == values[ps[i]]
  {
    seq(|ps|, i requires 0 <= i < |ps| => values[ps[i]])
  }

  predicate Unchanged(eq: DeepEqual, v: Value, prior: Option<Value>) {
    prior.Some? && eq(v, prior.value)
  }

  /** (value, changed) or an error, and the transform calls it took. */
  datatype Recomputed = Recomputed(result: Outcome<Value>, changed: bool, calls: seq<Call>)

  predicate AllClean(ps: seq<Id>, b: Build) {
    forall p :: p in ps ==> !b.Dirty(p)
  }

  predicate Ready(n: Node, b: Build) {
    forall p :: p in n.Parents() ==> p in b.values
  }

  function Recompute(eq: DeepEqual, n: Node, cfg: Config, prev: Option<Generation>, b: Build): Recomputed
    requires Ready(n, b)
  {
    var prior := OldValue(prev, n.id);
    if n.IsRoot() then
      match n.Decode(cfg)
      case Err => Recomputed(Err, false, [])
      case Ok(v) => Recomputed(Ok(v), !Unchanged(eq, v, prior), [])
    else if AllClean(n.Parents(), b) && prior.Some? then
      Recomputed(Ok(prior.value), false, [])
    else
      var args := Args(n.Parents(), b.values);
      var result := n.Run(|b.calls|, args);
      var calls := [Call(n.id, args, result)];
      match result
      case Err => Recomputed(Err, false, calls)
      case Ok(v) => Recomputed(Ok(v), n.HasCleanup() || !Unchanged(eq, v, prior), calls)
  }

  datatype Walked = Filled(build: Build) | FailedAt(id: Id, calls: seq<Call>) {
    function Log(): seq<Call> { if Filled? then build.calls else calls }
  }

  function Visit(eq: DeepEqual, n: Node, cfg: Config, prev: Option<Generation>, b: Build): Walked
    requires Ready(n, b)
  {
    var r := Recompute(eq, n, cfg, prev, b);
    match r.result
    case Err => FailedAt(n.id, b.calls + r.calls)
    case Ok(v) => Filled(b.Set(n.id, v, r.changed, b.calls + r.calls))
  }

  /** The builder after the first `k` nodes, or the node at which the walk stopped. */
  function WalkTo(eq: DeepEqual, nodes: seq<Node>, first: nat, cfg: Config, prev: Option<Generation>, b0: Build, k: nat)
    : (w: Walked)
    requires Ordered(nodes, first) && k <= |nodes|
    requires forall id: Id :: id < first ==> id in b0.values
    ensures w.Filled? ==> forall id: Id :: id < first + k ==> id in w.build.values
  {
    if k == 0 then Filled(b0)
    else
      match WalkTo(eq, nodes, first, cfg, prev, b0, k - 1)
      case FailedAt(id, calls) => FailedAt(id, calls)
      case Filled(b) => Visit(eq, nodes[k - 1], cfg, prev, b)
  }

  // ----- The simple program the walk must agree with: run everything, once, in order -----

  datatype Evaluated = Done(values: map<Id, Value>) | FailsAt(id: Id)

  function Scratch(nodes: seq<Node>, first: nat, base: map<Id, Value>, cfg: Config, moment: nat, k: nat): (e: Evaluated)
    requires Ordered(nodes, first) && k <= |nodes|
    requires forall id: Id :: id < first ==> id in base
    ensures e.Done? ==> forall id: Id :: id < first + k ==> id in e.values
  {
    if k == 0 then Done(base)
    else
      match Scratch(nodes, first, base, cfg, moment, k - 1)
      case FailsAt(id) => FailsAt(id)
      case Done(vs) =>
        var n := nodes[k - 1];
        match (if n.IsRoot() then n.Decode(cfg) else n.Run(moment, Args(n.Parents(), vs)))
        case Err => FailsAt(n.id)
        case Ok(v) => Done(vs[n.id := v])
  }

  // ----- Ancestry -----

  ghost predicate Ancestor(nodes: seq<Node>, first: nat, a: Id, d: Id)
    requires Ordered(nodes, first) && first <= d < first + |nodes|
    decreases d
  {
    var ps := nodes[d - first].Parents();
    exists j :: 0 <= j < |ps| && (ps[j] == a || (first <= ps[j] && Ancestor(nodes, first, a, ps[j])))
  }

  lemma {:induction false} AncestorIsEarlier(nodes: seq<Node>, first: nat, a: Id, d: Id)
    requires Ordered(nodes, first) && first <= d < first + |nodes|
    requires Ancestor(nodes, first, a, d)
    ensures a < d
    decreases d
  {
    var ps := nodes[d - first].Parents();
    forall j | 0 <= j < |ps| && first <= ps[j] && Ancestor(nodes, first, a, ps[j])
      ensures a < ps[j]
    {
      AncestorIsEarlier(nodes, first, a, ps[j]);
    }
  }
}
