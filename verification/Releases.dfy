/** The order in which the resources of one batch are released, over whole runs. */
module Releases {
  import opened Wrappers
  import opened Dag
  import opened Rebuild
  import opened Lifecycle
  import opened Invariants
  import opened Runs

  /** Of `batch`, the first |pos| items have been released, at these positions, and the rest is what
      batch `k` still has to do. */
  ghost predicate Released(t: State, k: nat, batch: seq<Item>, pos: seq<nat>) {
    && k < |t.pending| && |pos| <= |batch| && t.pending[k] == batch[|pos|..]
    && InOrder(t.released, batch, pos)
  }

  ghost predicate InOrder(released: seq<Item>, batch: seq<Item>, pos: seq<nat>) {
    && |pos| <= |batch|
    && (forall m :: 0 <= m < |pos| ==> pos[m] < |released| && released[pos[m]] == batch[m])
    && forall m, n :: 0 <= m < n < |pos| ==> pos[m] < pos[n]
  }

  lemma InOrderGrows(released: seq<Item>, more: seq<Item>, batch: seq<Item>, pos: seq<nat>)
    requires InOrder(released, batch, pos) && released <= more
    ensures InOrder(more, batch, pos)
    ensures |pos| < |batch| && more == released + [batch[|pos|]] ==> InOrder(more, batch, pos + [|released|])
  {
  }

  lemma StepReleases(t: State, u: State, k: nat, batch: seq<Item>, pos: seq<nat>, took: bool)
    requires Released(t, k, batch, pos) && k < |u.pending| && t.released <= u.released
    requires took ==> t.pending[k] != []
    requires if took then u.pending[k] == t.pending[k][1..] && u.released == t.released + [t.pending[k][0]]
      else u.pending[k] == t.pending[k]
    ensures Released(u, k, batch, if took then pos + [|t.released|] else pos)
  {
    InOrderGrows(t.released, u.released, batch, pos);
    hide InOrder;
    if took {
      assert batch[|pos|..][1..] == batch[|pos| + 1..] && t.pending[k][0] == batch[|pos|];
    }
  }

  lemma NextReleases(eq: DeepEqual, t: State, e: Event, k: nat, batch: seq<Item>, pos: seq<nat>)
    returns (later: seq<nat>)
    requires Inv(t) && Released(t, k, batch, pos)
    ensures Released(Next(eq, t, e).0, k, batch, later)
  {
    NextOnlyReleases(eq, t, e);
    var took := e.CleanUp? && e.batch == k && t.pending[k] != [];
    later := if took then pos + [|t.released|] else pos;
    var u := Next(eq, t, e).0;
    assert k < |t.pending|;
    hide *;
    StepReleases(t, u, k, batch, pos, took);
  }

  /** Only a cleanup step takes from a batch, and it takes the head. */
  lemma NextOnlyReleases(eq: DeepEqual, t: State, e: Event)
    requires Inv(t)
    ensures var u := Next(eq, t, e).0;
      && |t.pending| <= |u.pending| && t.released <= u.released
      && forall k :: 0 <= k < |t.pending| ==>
           if e.CleanUp? && e.batch == k && t.pending[k] != []
           then u.pending[k] == t.pending[k][1..] && u.released == t.released + [t.pending[k][0]]
           else u.pending[k] == t.pending[k]
  {
    hide WalkTo, BatchFrom, Inv;
  }

  lemma {:induction false} ContinueReleases(eq: DeepEqual, t: State, more: seq<Event>, k: nat, batch: seq<Item>,
                                            pos: seq<nat>)
    returns (later: seq<nat>)
    requires Inv(t) && Released(t, k, batch, pos)
    ensures Inv(Continue(eq, t, more)) && Released(Continue(eq, t, more), k, batch, later)
    ensures t.nodes <= Continue(eq, t, more).nodes
    decreases |more|
  {
    if more == [] {
      later := pos;
    } else {
      var u := Next(eq, t, more[0]).0;
      later := NextReleases(eq, t, more[0], k, batch, pos);
      NextKeepsInv(eq, t, more[0]);
      NextOnlyAdds(eq, t, more[0]);
      hide Inv, Next, Released;
      later := ContinueReleases(eq, u, more[1..], k, batch, later);
    }
  }

  lemma ReleasedWhere(t: State, k: nat, batch: seq<Item>, pos: seq<nat>, i: nat, q: nat)
    requires Inv(t) && Released(t, k, batch, pos) && i < |batch| && q < |t.released| && t.released[q] == batch[i]
    requires batch[i].id < |t.nodes| && t.nodes[batch[i].id].HasCleanup()
    ensures i < |pos| && q == pos[i]
  {
    assert FromCall(t, t.released[q]);
    var r := batch[i].value.instance;
    assert SomewhereOnce(t, r);
    var p :| OnlyAt(t, r, p);
    assert At(t, r, Place.Released(q));
    if i < |pos| {
      assert At(t, r, Place.Released(pos[i]));
    } else {
      assert t.pending[k][i - |pos|] == batch[i];
      assert At(t, r, Place.Pending(k, i - |pos|));
    }
  }

  /** Of the resources in one batch, each is released before every one of its ancestors, in every
      continuation of every run. */
  lemma DescendantReleasedBefore(eq: DeepEqual, events: seq<Event>, more: seq<Event>, k: nat, i: nat, j: nat, q: nat)
    requires var s := After(eq, events);
      && k < |s.pending| && i < |s.pending[k]| && j < |s.pending[k]|
      && s.pending[k][i].id < |s.nodes| && s.pending[k][j].id < |s.nodes|
      && s.nodes[s.pending[k][i].id].HasCleanup()
      && Ancestor(s.nodes, 0, s.pending[k][i].id, s.pending[k][j].id)
    requires var t := Continue(eq, After(eq, events), more);
      q < |t.released| && t.released[q] == After(eq, events).pending[k][i]
    ensures var t := Continue(eq, After(eq, events), more);
      exists p :: 0 <= p < q && t.released[p] == After(eq, events).pending[k][j]
  {
    var s := After(eq, events);
    ReachableInv(eq, events);
    DescendantsReleasedFirst(eq, events, k, i, j);
    hide Inv, After, Continue, Ancestor;
    var pos := ContinueReleases(eq, s, more, k, s.pending[k], []);
    var t := Continue(eq, s, more);
    ReleasedWhere(t, k, s.pending[k], pos, i, q);
    assert t.released[pos[j]] == s.pending[k][j];
  }
}
