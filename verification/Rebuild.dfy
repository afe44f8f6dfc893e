/**
  What one walk of the DAG does (manager.go's loop over allNodes), for an ordinary manager, whose
  node ids are positions. The incremental walk is related to the from-scratch program `Scratch`
  and to the generation it starts from.
 */
module Rebuild {
  import opened Wrappers
  import opened Dag

  // ----- What holds of a generation -----

  /** Every entry of the log is what that node's transform answered at that moment. */
  ghost predicate Logged(nodes: seq<Node>, calls: seq<Call>) {
    forall i :: 0 <= i < |calls| ==> Honest(nodes, calls[i], i)
  }

  ghost predicate Honest(nodes: seq<Node>, c: Call, moment: nat) {
    && c.id < |nodes|
    && var n := nodes[c.id];
    && !n.IsRoot() && |c.args| == |n.Parents()|
    && c.result == n.Run(moment, c.args)
  }

  /** The call that produced the value of `id`: its arguments mean what the generation holds for
      the parents, and for a parent with a cleanup function they are that very instance. */
  ghost predicate MadeBy(nodes: seq<Node>, values: map<Id, Value>, c: Call, id: Id)
    requires id < |nodes|
  {
    var ps := nodes[id].Parents();
    && id in values && c.id == id && c.result == Ok(values[id])
    && |c.args| == |ps|
    && forall j :: 0 <= j < |ps| ==>
         && ps[j] < |nodes| && ps[j] in values
         && c.args[j].meaning == values[ps[j]].meaning
         && (nodes[ps[j]].HasCleanup() ==> c.args[j] == values[ps[j]])
  }

  ghost predicate Explained(nodes: seq<Node>, cfg: Config, values: map<Id, Value>, calls: seq<Call>, id: Id)
    requires id < |nodes|
  {
    if nodes[id].IsRoot() then
      id in values && nodes[id].Decode(cfg) == Ok(values[id])
    else
      exists i :: 0 <= i < |calls| && MadeBy(nodes, values, calls[i], id)
  }

  ghost predicate Covers(values: map<Id, Value>, k: nat) {
    |values| == k && forall id: Id :: id in values <==> id < k
  }

  /** `values` are the values of the first `k` nodes, each accounted for. */
  ghost predicate Sound(nodes: seq<Node>, cfg: Config, values: map<Id, Value>, calls: seq<Call>, k: nat) {
    && k <= |nodes|
    && Covers(values, k)
    && forall id: Id :: id < k ==> Explained(nodes, cfg, values, calls, id)
  }

  ghost predicate SoundPrior(nodes: seq<Node>, prev: Option<Generation>, calls: seq<Call>) {
    prev.Some? ==> Sound(nodes, prev.value.config, prev.value.values, calls, |prev.value.values|)
  }

  // ----- What a walk keeps -----

  /** A node that is not dirty still means what it meant, and a resource is still the same one. */
  ghost predicate CleanKept(nodes: seq<Node>, prev: Option<Generation>, b: Build, k: nat) {
    k <= |nodes| && forall id: Id :: id < k ==>
      && id in b.dirty && id in b.values
      && (!b.dirty[id] ==>
            && OldValue(prev, id).Some?
            && b.values[id].meaning == OldValue(prev, id).value.meaning
            && (nodes[id].HasCleanup() ==> b.values[id] == OldValue(prev, id).value))
  }

  /** Each call of this walk (from `n0` on) belongs to one visited node and gave its value. */
  ghost predicate OncePerNode(n0: nat, b: Build, k: nat) {
    && n0 <= |b.calls|
    && (forall i :: n0 <= i < |b.calls| ==>
          b.calls[i].id < k && b.calls[i].id in b.values && b.calls[i].result == Ok(b.values[b.calls[i].id]))
    && forall i, j :: n0 <= i < j < |b.calls| ==> b.calls[i].id < b.calls[j].id
  }

  /** A dirty resource was built by this walk. */
  ghost predicate DirtyIsNew(nodes: seq<Node>, n0: nat, b: Build, k: nat) {
    k <= |nodes| && forall id: Id :: id < k && nodes[id].HasCleanup() && b.Dirty(id) ==>
      && id in b.values
      && n0 <= b.values[id].instance < |b.calls|
      && b.calls[b.values[id].instance].id == id
  }

  /** A root that compares changed reaches `id`. */
  ghost predicate ReachedByChange(nodes: seq<Node>, b: Build, id: Id)
    requires Ordered(nodes, 0) && id < |nodes|
  {
    exists r: Id :: r < |nodes| && nodes[r].IsRoot() && b.Dirty(r) && (r == id || Ancestor(nodes, 0, r, id))
  }

  ghost predicate CalledIn(n0: nat, calls: seq<Call>, id: Id) {
    exists i :: n0 <= i < |calls| && calls[i].id == id
  }

  /** Change stays inside what the changed roots reach... */
  ghost predicate ChangeContained(nodes: seq<Node>, prev: Option<Generation>, n0: nat, b: Build, k: nat)
    requires Ordered(nodes, 0)
  {
    k <= |nodes| && forall id: Id :: id < k && (b.Dirty(id) || CalledIn(n0, b.calls, id)) ==>
      OldValue(prev, id).None? || ReachedByChange(nodes, b, id)
  }

  /** ... and a derived node whose transform did not run keeps the identical instance. */
  ghost predicate RestKept(nodes: seq<Node>, prev: Option<Generation>, n0: nat, b: Build, k: nat) {
    k <= |nodes| && forall id: Id :: id < k && !nodes[id].IsRoot() && !CalledIn(n0, b.calls, id) ==>
      id in b.values && Some(b.values[id]) == OldValue(prev, id)
  }

  /** A root is marked changed unless what it reads compares equal to what it read before. */
  ghost predicate RootsMarked(eq: DeepEqual, nodes: seq<Node>, prev: Option<Generation>, b: Build, k: nat) {
    k <= |nodes| && forall id: Id :: id < k && nodes[id].IsRoot() ==>
      id in b.values && b.Dirty(id) == !Unchanged(eq, b.values[id], OldValue(prev, id))
  }

  ghost predicate WalkInv(eq: DeepEqual, nodes: seq<Node>, cfg: Config, prev: Option<Generation>, log0: seq<Call>,
                          b: Build, k: nat)
    requires Ordered(nodes, 0)
  {
    && k <= |nodes|
    && log0 <= b.calls
    && Logged(nodes, b.calls)
    && Sound(nodes, cfg, b.values, b.calls, k)
    && b.dirty.Keys == b.values.Keys
    && CleanKept(nodes, prev, b, k)
    && OncePerNode(|log0|, b, k)
    && DirtyIsNew(nodes, |log0|, b, k)
    && ChangeContained(nodes, prev, |log0|, b, k)
    && RestKept(nodes, prev, |log0|, b, k)
    && RootsMarked(eq, nodes, prev, b, k)
  }

  // ----- One visit keeps each part -----

  lemma VisitLogged(eq: DeepEqual, nodes: seq<Node>, cfg: Config, prev: Option<Generation>, b: Build, k: nat)
    requires Ordered(nodes, 0) && k < |nodes|
    requires Ready(nodes[k], b) && Logged(nodes, b.calls)
    ensures Logged(nodes, Visit(eq, nodes[k], cfg, prev, b).Log())
    ensures b.calls <= Visit(eq, nodes[k], cfg, prev, b).Log()
  {
  }

  lemma ParentsComeFirst(nodes: seq<Node>, id: Id)
    requires Ordered(nodes, 0) && id < |nodes|
    ensures var ps := nodes[id].Parents(); forall j :: 0 <= j < |ps| ==> ps[j] in ps && ps[j] < id
  {
    var ps := nodes[id].Parents();
    forall j | 0 <= j < |ps| ensures ps[j] in ps && ps[j] < id {
      assert nodes[id].id == id && ps[j] in ps;
    }
  }

  /** An explanation survives more calls and the value of a later node. */
  lemma ExplainedStays(nodes: seq<Node>, cfg: Config, values: map<Id, Value>, calls: seq<Call>, id: Id,
                       k: Id, v: Value, more: seq<Call>)
    requires Ordered(nodes, 0) && id < k < |nodes|
    requires Explained(nodes, cfg, values, calls, id)
    ensures Explained(nodes, cfg, values[k := v], calls + more, id)
  {
    if !nodes[id].IsRoot() {
      var i :| 0 <= i < |calls| && MadeBy(nodes, values, calls[i], id);
      ParentsComeFirst(nodes, id);
      assert (calls + more)[i] == calls[i];
      assert MadeBy(nodes, values[k := v], (calls + more)[i], id);
    }
  }

  /** The node that keeps its old value is explained by the call that explained it before. */
  lemma KeptIsExplained(nodes: seq<Node>, cfg: Config, prev: Option<Generation>, b: Build, k: nat, calls0: seq<Call>)
    requires Ordered(nodes, 0) && k < |nodes| && !nodes[k].IsRoot()
    requires calls0 <= b.calls
    requires SoundPrior(nodes, prev, calls0)
    requires CleanKept(nodes, prev, b, k)
    requires OldValue(prev, k).Some?
    requires AllClean(nodes[k].Parents(), b)
    ensures Explained(nodes, cfg, b.values[k := OldValue(prev, k).value], b.calls, k)
  {
    var was := prev.value.values;
    assert Explained(nodes, prev.value.config, was, calls0, k);
    var i :| 0 <= i < |calls0| && MadeBy(nodes, was, calls0[i], k);
    var ps := nodes[k].Parents();
    var now := b.values[k := was[k]];
    assert b.calls[i] == calls0[i];
    forall j | 0 <= j < |ps|
      ensures && ps[j] in now
              && calls0[i].args[j].meaning == now[ps[j]].meaning
              && (nodes[ps[j]].HasCleanup() ==> calls0[i].args[j] == now[ps[j]])
    {
      assert ps[j] in ps && ps[j] < k;
      assert !b.Dirty(ps[j]);
    }
    assert MadeBy(nodes, now, b.calls[i], k);
  }

  lemma NewCallExplains(nodes: seq<Node>, cfg: Config, b: Build, k: nat, v: Value)
    requires Ordered(nodes, 0) && k < |nodes| && !nodes[k].IsRoot() && Ready(nodes[k], b)
    ensures var call := Call(k, Args(nodes[k].Parents(), b.values), Ok(v));
      Explained(nodes, cfg, b.values[k := v], b.calls + [call], k)
  {
    var call := Call(k, Args(nodes[k].Parents(), b.values), Ok(v));
    ParentsComeFirst(nodes, k);
    assert (b.calls + [call])[|b.calls|] == call;
    assert MadeBy(nodes, b.values[k := v], (b.calls + [call])[|b.calls|], k);
  }

  lemma VisitSound(eq: DeepEqual, nodes: seq<Node>, cfg: Config, prev: Option<Generation>, calls0: seq<Call>,
                   b: Build, k: nat)
    requires Ordered(nodes, 0) && k < |nodes| && calls0 <= b.calls
    requires SoundPrior(nodes, prev, calls0)
    requires Sound(nodes, cfg, b.values, b.calls, k) && b.dirty.Keys == b.values.Keys && Ready(nodes[k], b)
    requires CleanKept(nodes, prev, b, k)
    requires Visit(eq, nodes[k], cfg, prev, b).Filled?
    ensures var c := Visit(eq, nodes[k], cfg, prev, b).build;
      Sound(nodes, cfg, c.values, c.calls, k + 1) && c.dirty.Keys == c.values.Keys
  {
    var r := Recompute(eq, nodes[k], cfg, prev, b);
    var c := Visit(eq, nodes[k], cfg, prev, b).build;
    forall id: Id | id < k ensures Explained(nodes, cfg, c.values, c.calls, id) {
      ExplainedStays(nodes, cfg, b.values, b.calls, id, k, r.result.value, r.calls);
    }
    assert Explained(nodes, cfg, c.values, c.calls, k) by {
      VisitExplains(eq, nodes, cfg, prev, calls0, b, k);
    }
  }

  lemma VisitExplains(eq: DeepEqual, nodes: seq<Node>, cfg: Config, prev: Option<Generation>, calls0: seq<Call>,
                      b: Build, k: nat)
    requires Ordered(nodes, 0) && k < |nodes| && calls0 <= b.calls
    requires SoundPrior(nodes, prev, calls0)
    requires Ready(nodes[k], b) && CleanKept(nodes, prev, b, k)
    requires Visit(eq, nodes[k], cfg, prev, b).Filled?
    ensures var c := Visit(eq, nodes[k], cfg, prev, b).build; Explained(nodes, cfg, c.values, c.calls, k)
  {
    var n := nodes[k];
    if !n.IsRoot() {
      if AllClean(n.Parents(), b) && OldValue(prev, k).Some? {
        KeptIsExplained(nodes, cfg, prev, b, k, calls0);
        assert b.calls + [] == b.calls;
      } else {
        NewCallExplains(nodes, cfg, b, k, Recompute(eq, n, cfg, prev, b).result.value);
      }
    }
  }

  /** Clean parents mean the same as before, so a transform that runs anyway and compares equal does too. */
  lemma VisitCleanKept(eq: DeepEqual, nodes: seq<Node>, cfg: Config, prev: Option<Generation>, b: Build, k: nat)
    requires Ordered(nodes, 0) && k < |nodes|
    requires Ready(nodes[k], b) && CleanKept(nodes, prev, b, k)
    requires Visit(eq, nodes[k], cfg, prev, b).Filled?
    ensures CleanKept(nodes, prev, Visit(eq, nodes[k], cfg, prev, b).build, k + 1)
  {
  }

  lemma VisitOncePerNode(eq: DeepEqual, nodes: seq<Node>, cfg: Config, prev: Option<Generation>, n0: nat, b: Build,
                         k: nat)
    requires Ordered(nodes, 0) && k < |nodes|
    requires Ready(nodes[k], b) && OncePerNode(n0, b, k)
    requires Visit(eq, nodes[k], cfg, prev, b).Filled?
    ensures OncePerNode(n0, Visit(eq, nodes[k], cfg, prev, b).build, k + 1)
  {
    assert nodes[k].id == k;
  }

  lemma VisitDirtyIsNew(eq: DeepEqual, nodes: seq<Node>, cfg: Config, prev: Option<Generation>, n0: nat, b: Build,
                        k: nat)
    requires Ordered(nodes, 0) && k < |nodes|
    requires Ready(nodes[k], b) && n0 <= |b.calls| && DirtyIsNew(nodes, n0, b, k)
    requires Visit(eq, nodes[k], cfg, prev, b).Filled?
    ensures DirtyIsNew(nodes, n0, Visit(eq, nodes[k], cfg, prev, b).build, k + 1)
  {
    assert nodes[k].id == k;
    var c := Visit(eq, nodes[k], cfg, prev, b).build;
    forall id: Id | id < k + 1 && nodes[id].HasCleanup() && c.Dirty(id)
      ensures n0 <= c.values[id].instance < |c.calls| && c.calls[c.values[id].instance].id == id
    {
      if id < k {
        assert b.Dirty(id);
      } else {
        assert Fresh(nodes[k]);
      }
    }
  }

  lemma ReachedStays(nodes: seq<Node>, b: Build, id: Id, k: nat, v: Value, changed: bool, log: seq<Call>)
    requires Ordered(nodes, 0) && id < k < |nodes|
    requires b.dirty.Keys == b.values.Keys && forall i: Id :: i in b.values <==> i < k
    requires ReachedByChange(nodes, b, id)
    ensures ReachedByChange(nodes, b.Set(k, v, changed, log), id)
  {
    var r: Id :| r < |nodes| && nodes[r].IsRoot() && b.Dirty(r) && (r == id || Ancestor(nodes, 0, r, id));
    if r != id {
      AncestorIsEarlier(nodes, 0, r, id);
    }
    assert b.Set(k, v, changed, log).Dirty(r);
  }

  lemma ReachedThroughParent(nodes: seq<Node>, b: Build, p: Id, id: Id)
    requires Ordered(nodes, 0) && id < |nodes| && p in nodes[id].Parents()
    requires p < id && ReachedByChange(nodes, b, p)
    ensures ReachedByChange(nodes, b, id)
  {
    var r: Id :| r < |nodes| && nodes[r].IsRoot() && b.Dirty(r) && (r == p || Ancestor(nodes, 0, r, p));
    var ps := nodes[id].Parents();
    var j :| 0 <= j < |ps| && ps[j] == p;
    assert nodes[id - 0] == nodes[id];
    assert Ancestor(nodes, 0, r, id);
  }

  /** A derived node runs only when it is new or a parent is dirty, and a dirty parent is reached. */
  lemma VisitReached(eq: DeepEqual, nodes: seq<Node>, cfg: Config, prev: Option<Generation>, n0: nat, b: Build, k: nat)
    requires Ordered(nodes, 0) && k < |nodes|
    requires prev.Some? ==> Covers(prev.value.values, |prev.value.values|)
    requires Covers(b.values, k) && b.dirty.Keys == b.values.Keys && Ready(nodes[k], b)
    requires ChangeContained(nodes, prev, n0, b, k)
    requires Visit(eq, nodes[k], cfg, prev, b).Filled?
    requires OldValue(prev, k).Some?
    requires if nodes[k].IsRoot() then Visit(eq, nodes[k], cfg, prev, b).build.Dirty(k)
      else !AllClean(nodes[k].Parents(), b)
    ensures ReachedByChange(nodes, Visit(eq, nodes[k], cfg, prev, b).build, k)
  {
    var c := Visit(eq, nodes[k], cfg, prev, b).build;
    if nodes[k].IsRoot() {
      assert c.Dirty(k);
    } else {
      var r := Recompute(eq, nodes[k], cfg, prev, b);
      var p :| p in nodes[k].Parents() && b.Dirty(p);
      assert nodes[k].id == k;
      assert OldValue(prev, p).Some?;
      ReachedStays(nodes, b, p, k, r.result.value, r.changed, c.calls);
      ReachedThroughParent(nodes, c, p, k);
    }
  }

  lemma CalledStays(n0: nat, calls: seq<Call>, more: seq<Call>, id: Id)
    requires n0 <= |calls| && forall c :: c in more ==> c.id != id
    ensures CalledIn(n0, calls + more, id) <==> CalledIn(n0, calls, id)
  {
    if CalledIn(n0, calls + more, id) {
      var i :| n0 <= i < |calls + more| && (calls + more)[i].id == id;
      assert i < |calls|;
      assert (calls + more)[i] == calls[i];
    }
    if CalledIn(n0, calls, id) {
      var i :| n0 <= i < |calls| && calls[i].id == id;
      assert (calls + more)[i] == calls[i];
    }
  }

  lemma LastIsCalled(n0: nat, calls: seq<Call>, more: seq<Call>, id: Id)
    requires n0 <= |calls| && |more| <= 1 && forall c :: c in more ==> c.id == id
    ensures more != [] ==> CalledIn(n0, calls + more, id)
  {
    if more != [] {
      assert (calls + more)[|calls|] == more[0] && more[0] in more;
    }
  }

  lemma NotYetCalled(n0: nat, b: Build, k: nat)
    requires OncePerNode(n0, b, k)
    ensures !CalledIn(n0, b.calls, k)
  {
  }

  lemma VisitContained(eq: DeepEqual, nodes: seq<Node>, cfg: Config, prev: Option<Generation>, n0: nat, b: Build,
                       k: nat)
    requires Ordered(nodes, 0) && k < |nodes|
    requires prev.Some? ==> Covers(prev.value.values, |prev.value.values|)
    requires Covers(b.values, k) && b.dirty.Keys == b.values.Keys && Ready(nodes[k], b)
    requires OncePerNode(n0, b, k) && ChangeContained(nodes, prev, n0, b, k)
    requires Visit(eq, nodes[k], cfg, prev, b).Filled?
    ensures ChangeContained(nodes, prev, n0, Visit(eq, nodes[k], cfg, prev, b).build, k + 1)
  {
    var r := Recompute(eq, nodes[k], cfg, prev, b);
    var c := Visit(eq, nodes[k], cfg, prev, b).build;
    forall id: Id | id < k + 1 && (c.Dirty(id) || CalledIn(n0, c.calls, id)) && OldValue(prev, id).Some?
      ensures ReachedByChange(nodes, c, id)
    {
      assert nodes[k].id == k;
      if id < k {
        CalledStays(n0, b.calls, r.calls, id);
        ReachedStays(nodes, b, id, k, r.result.value, r.changed, c.calls);
      } else {
        NotYetCalled(n0, b, k);
        if r.calls == [] {
          assert c.calls == b.calls;
        }
        VisitReached(eq, nodes, cfg, prev, n0, b, k);
      }
    }
  }

  lemma VisitRestKept(eq: DeepEqual, nodes: seq<Node>, cfg: Config, prev: Option<Generation>, n0: nat, b: Build, k: nat)
    requires Ordered(nodes, 0) && k < |nodes|
    requires Covers(b.values, k) && Ready(nodes[k], b) && n0 <= |b.calls|
    requires RestKept(nodes, prev, n0, b, k)
    requires Visit(eq, nodes[k], cfg, prev, b).Filled?
    ensures RestKept(nodes, prev, n0, Visit(eq, nodes[k], cfg, prev, b).build, k + 1)
  {
    var r := Recompute(eq, nodes[k], cfg, prev, b);
    var c := Visit(eq, nodes[k], cfg, prev, b).build;
    forall id: Id | id < k + 1 && !nodes[id].IsRoot() && !CalledIn(n0, c.calls, id)
      ensures Some(c.values[id]) == OldValue(prev, id)
    {
      assert nodes[k].id == k;
      if id < k {
        CalledStays(n0, b.calls, r.calls, id);
      } else {
        LastIsCalled(n0, b.calls, r.calls, k);
      }
    }
  }

  lemma VisitRootsMarked(eq: DeepEqual, nodes: seq<Node>, cfg: Config, prev: Option<Generation>, b: Build, k: nat)
    requires Ordered(nodes, 0) && k < |nodes|
    requires Ready(nodes[k], b) && RootsMarked(eq, nodes, prev, b, k)
    requires Visit(eq, nodes[k], cfg, prev, b).Filled?
    ensures RootsMarked(eq, nodes, prev, Visit(eq, nodes[k], cfg, prev, b).build, k + 1)
  {
    assert nodes[k].id == k;
  }

  lemma VisitKeepsInv(eq: DeepEqual, nodes: seq<Node>, cfg: Config, prev: Option<Generation>, log0: seq<Call>,
                      b: Build, k: nat)
    requires Ordered(nodes, 0) && k < |nodes|
    requires SoundPrior(nodes, prev, log0)
    requires WalkInv(eq, nodes, cfg, prev, log0, b, k) && Ready(nodes[k], b)
    requires Visit(eq, nodes[k], cfg, prev, b).Filled?
    ensures WalkInv(eq, nodes, cfg, prev, log0, Visit(eq, nodes[k], cfg, prev, b).build, k + 1)
  {
    VisitLogged(eq, nodes, cfg, prev, b, k);
    VisitSound(eq, nodes, cfg, prev, log0, b, k);
    VisitCleanKept(eq, nodes, cfg, prev, b, k);
    VisitOncePerNode(eq, nodes, cfg, prev, |log0|, b, k);
    VisitDirtyIsNew(eq, nodes, cfg, prev, |log0|, b, k);
    VisitContained(eq, nodes, cfg, prev, |log0|, b, k);
    VisitRestKept(eq, nodes, cfg, prev, |log0|, b, k);
    VisitRootsMarked(eq, nodes, cfg, prev, b, k);
  }

  // ----- The whole walk -----

  ghost predicate WalkedInv(eq: DeepEqual, nodes: seq<Node>, cfg: Config, prev: Option<Generation>, log0: seq<Call>,
                            w: Walked, k: nat)
    requires Ordered(nodes, 0)
  {
    match w
    case Filled(b) => WalkInv(eq, nodes, cfg, prev, log0, b, k)
    case FailedAt(id, calls) => id < k && log0 <= calls && Logged(nodes, calls)
  }

  lemma EmptyWalkInv(eq: DeepEqual, nodes: seq<Node>, cfg: Config, prev: Option<Generation>, log0: seq<Call>)
    requires Ordered(nodes, 0) && Logged(nodes, log0)
    ensures WalkedInv(eq, nodes, cfg, prev, log0, Filled(NewBuild(log0)), 0)
  {
  }

  lemma VisitKeepsWalked(eq: DeepEqual, nodes: seq<Node>, cfg: Config, prev: Option<Generation>, log0: seq<Call>,
                         b: Build, k: nat)
    requires Ordered(nodes, 0) && k < |nodes|
    requires SoundPrior(nodes, prev, log0) && Ready(nodes[k], b)
    requires WalkedInv(eq, nodes, cfg, prev, log0, Filled(b), k)
    ensures WalkedInv(eq, nodes, cfg, prev, log0, Visit(eq, nodes[k], cfg, prev, b), k + 1)
  {
    if Visit(eq, nodes[k], cfg, prev, b).Filled? {
      VisitKeepsInv(eq, nodes, cfg, prev, log0, b, k);
    } else {
      VisitLogged(eq, nodes, cfg, prev, b, k);
      assert nodes[k].id == k;
    }
  }

  lemma FailureStays(eq: DeepEqual, nodes: seq<Node>, cfg: Config, prev: Option<Generation>, log0: seq<Call>,
                     w: Walked, k: nat)
    requires Ordered(nodes, 0) && k < |nodes| && w.FailedAt?
    requires WalkedInv(eq, nodes, cfg, prev, log0, w, k)
    ensures WalkedInv(eq, nodes, cfg, prev, log0, w, k + 1)
  {
  }

  lemma {:induction false} WalkKeepsInv(eq: DeepEqual, nodes: seq<Node>, cfg: Config, prev: Option<Generation>,
                                        log0: seq<Call>, k: nat)
    requires Ordered(nodes, 0) && k <= |nodes|
    requires Logged(nodes, log0) && SoundPrior(nodes, prev, log0)
    ensures WalkedInv(eq, nodes, cfg, prev, log0, WalkTo(eq, nodes, 0, cfg, prev, NewBuild(log0), k), k)
  {
    hide WalkedInv, Logged, SoundPrior, Visit;
    if k == 0 {
      EmptyWalkInv(eq, nodes, cfg, prev, log0);
    } else {
      WalkKeepsInv(eq, nodes, cfg, prev, log0, k - 1);
      var w := WalkTo(eq, nodes, 0, cfg, prev, NewBuild(log0), k - 1);
      if w.Filled? {
        VisitKeepsWalked(eq, nodes, cfg, prev, log0, w.build, k - 1);
      } else {
        FailureStays(eq, nodes, cfg, prev, log0, w, k - 1);
      }
    }
  }

  /** What a sound generation holds is what running the whole DAG afresh gives, at any moment. */
  lemma {:induction false} SoundMeansScratch(nodes: seq<Node>, cfg: Config, values: map<Id, Value>, calls: seq<Call>,
                                             k: nat,
                                             moment: nat, j: nat)
    requires Ordered(nodes, 0) && Logged(nodes, calls)
    requires Sound(nodes, cfg, values, calls, k) && j <= k
    ensures var e := Scratch(nodes, 0, map[], cfg, moment, j);
      && e.Done?
      && (forall id: Id :: id in e.values <==> id < j)
      && forall id: Id :: id < j ==> e.values[id].meaning == values[id].meaning
  {
    if j == 0 {
    } else {
      SoundMeansScratch(nodes, cfg, values, calls, k, moment, j - 1);
      var vs := Scratch(nodes, 0, map[], cfg, moment, j - 1).values;
      ExplainedMeansScratch(nodes, cfg, values, calls, moment, j - 1, vs);
      assert nodes[j - 1].id == j - 1;
    }
  }

  lemma ExplainedMeansScratch(nodes: seq<Node>, cfg: Config, values: map<Id, Value>, calls: seq<Call>, moment: nat,
                              id: Id, vs: map<Id, Value>)
    requires Ordered(nodes, 0) && Logged(nodes, calls) && id < |nodes|
    requires Explained(nodes, cfg, values, calls, id)
    requires forall p: Id :: p < id ==> p in vs && p in values && vs[p].meaning == values[p].meaning
    ensures var n := nodes[id];
      && (forall p :: p in n.Parents() ==> p in vs)
      && Agree(if n.IsRoot() then n.Decode(cfg) else n.Run(moment, Args(n.Parents(), vs)), Ok(values[id]))
  {
    var n := nodes[id];
    ParentsComeFirst(nodes, id);
    if !n.IsRoot() {
      var i :| 0 <= i < |calls| && MadeBy(nodes, values, calls[i], id);
      assert Honest(nodes, calls[i], i);
      AgreesWithCall(nodes, calls[i], i, Args(n.Parents(), vs), moment);
    }
  }

  lemma AgreesWithCall(nodes: seq<Node>, c: Call, i: nat, args: seq<Value>, moment: nat)
    requires Honest(nodes, c, i)
    requires SameMeaning(c.args, args)
    ensures Agree(c.result, nodes[c.id].Run(moment, args))
  {
    assert Respectful(nodes[c.id]);
  }

  /** The incremental walk stops exactly where the from-scratch program stops. */
  lemma {:induction false} WalkFailsWithScratch(eq: DeepEqual, nodes: seq<Node>, cfg: Config,
                                                prev: Option<Generation>, log0: seq<Call>,
                                                moment: nat, k: nat)
    requires Ordered(nodes, 0) && k <= |nodes|
    requires Logged(nodes, log0) && SoundPrior(nodes, prev, log0)
    ensures var w := WalkTo(eq, nodes, 0, cfg, prev, NewBuild(log0), k);
      var e := Scratch(nodes, 0, map[], cfg, moment, k);
      && (w.FailedAt? <==> e.FailsAt?)
      && (w.FailedAt? ==> w.id == e.id)
      && (w.Filled? ==> forall id: Id :: id < k ==>
            id in w.build.values && e.values[id].meaning == w.build.values[id].meaning)
  {
    hide Visit, Logged, SoundPrior, CleanKept, OncePerNode, DirtyIsNew, ChangeContained, RestKept, RootsMarked;
    if k == 0 {
    } else {
      assert nodes[k - 1].id == k - 1;
      WalkFailsWithScratch(eq, nodes, cfg, prev, log0, moment, k - 1);
      WalkKeepsInv(eq, nodes, cfg, prev, log0, k);
      var w := WalkTo(eq, nodes, 0, cfg, prev, NewBuild(log0), k - 1);
      var after := WalkTo(eq, nodes, 0, cfg, prev, NewBuild(log0), k);
      if after.Filled? {
        SoundMeansScratch(nodes, cfg, after.build.values, after.build.calls, k, moment, k);
      } else if w.Filled? {
        WalkKeepsInv(eq, nodes, cfg, prev, log0, k - 1);
        var vs := Scratch(nodes, 0, map[], cfg, moment, k - 1).values;
        VisitFailsWithScratch(eq, nodes, cfg, prev, w.build, k - 1, moment, vs);
      }
    }
  }

  lemma VisitFailsWithScratch(eq: DeepEqual, nodes: seq<Node>, cfg: Config, prev: Option<Generation>, b: Build, k: nat,
                              moment: nat, vs: map<Id, Value>)
    requires Ordered(nodes, 0) && k < |nodes| && Ready(nodes[k], b)
    requires forall id: Id :: id < k ==> id in vs && id in b.values && vs[id].meaning == b.values[id].meaning
    requires Visit(eq, nodes[k], cfg, prev, b).FailedAt?
    ensures Visit(eq, nodes[k], cfg, prev, b).id == k
    ensures var n := nodes[k];
      (if n.IsRoot() then n.Decode(cfg) else n.Run(moment, Args(n.Parents(), vs))).Err?
  {
    var n := nodes[k];
    assert n.id == k;
    if !n.IsRoot() {
      ParentsComeFirst(nodes, k);
      var xs, ys := Args(n.Parents(), b.values), Args(n.Parents(), vs);
      assert SameMeaning(xs, ys);
      assert Respectful(n);
      assert Agree(n.Run(|b.calls|, xs), n.Run(moment, ys));
    }
  }
}
