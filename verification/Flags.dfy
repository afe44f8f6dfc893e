/** The flags of a manager over whole runs: freezing, starting and stopping, and failed loads. */
module Flags {
  import opened Wrappers
  import opened Dag
  import opened Lifecycle
  import opened Runs

  lemma {:induction false} FrozenStays(eq: DeepEqual, s: State, more: seq<Event>)
    requires WellFormed(s) && s.frozen
    ensures Continue(eq, s, more).frozen && Continue(eq, s, more).nodes == s.nodes
    decreases |more|
  {
    if more != [] {
      FrozenNext(eq, s, more[0]);
      FrozenStays(eq, Next(eq, s, more[0]).0, more[1..]);
    }
  }

  lemma FrozenNext(eq: DeepEqual, s: State, e: Event)
    requires WellFormed(s) && s.frozen
    ensures Next(eq, s, e).0.frozen && Next(eq, s, e).0.nodes == s.nodes
  {
    hide WalkTo, BatchFrom;
  }

  /** The first Start freezes the DAG for good, whether its load succeeds or not: from then on every
      registration panics and changes nothing. */
  lemma StartFreezes(eq: DeepEqual, events: seq<Event>, input: Input, more: seq<Event>, n: Node)
    requires !After(eq, events).started
    ensures var t := Continue(eq, Next(eq, After(eq, events), Start(input)).0, more);
      && t.nodes == After(eq, events).nodes
      && Next(eq, t, Register(n)) == (t, PanicFrozen)
  {
    var s := After(eq, events);
    StartSetsFrozen(eq, s, input);
    FrozenStays(eq, Next(eq, s, Start(input)).0, more);
    hide WalkTo, BatchFrom, After, Continue;
  }

  lemma StartSetsFrozen(eq: DeepEqual, s: State, input: Input)
    requires WellFormed(s) && !s.started
    ensures Next(eq, s, Start(input)).0.frozen && Next(eq, s, Start(input)).0.nodes == s.nodes
  {
    hide WalkTo, BatchFrom;
  }

  /** Before the first Start any number of values can be registered, in between reloads too. */
  lemma {:induction false} OpenUntilStart(eq: DeepEqual, events: seq<Event>)
    requires forall n :: 0 <= n < |events| ==> !events[n].Start?
    ensures !After(eq, events).frozen && !After(eq, events).started
  {
    hide WalkTo, BatchFrom;
    if events != [] {
      OpenUntilStart(eq, events[..|events| - 1]);
    }
  }

  /** The `k`-th event of a run is a Start that succeeded. */
  ghost predicate StartsAt(eq: DeepEqual, events: seq<Event>, k: nat) {
    k < |events| && events[k].Start? && Next(eq, After(eq, events[..k]), events[k]).1.Fine?
  }

  /** Some Start succeeded and no Stop came after it. */
  ghost predicate Running(eq: DeepEqual, events: seq<Event>) {
    exists k: nat :: StartsAt(eq, events, k) && forall n :: k < n < |events| ==> !events[n].Stop?
  }

  lemma {:induction false} StartedMeansRunning(eq: DeepEqual, events: seq<Event>)
    ensures After(eq, events).started <==> Running(eq, events)
  {
    if events != [] {
      var m := |events| - 1;
      StartedMeansRunning(eq, events[..m]);
      StartedNext(eq, After(eq, events[..m]), events[m]);
      RunningGrows(eq, events);
      hide Next, Running;
    }
  }

  lemma RunningGrows(eq: DeepEqual, events: seq<Event>)
    requires events != []
    ensures var m := |events| - 1;
      Running(eq, events) <==> StartsAt(eq, events, m) || (Running(eq, events[..m]) && !events[m].Stop?)
  {
    hide After, Next;
    var m := |events| - 1;
    var init := events[..m];
    forall k: nat | k < m ensures StartsAt(eq, events, k) <==> StartsAt(eq, init, k) {
      assert init[..k] == events[..k];
    }
    hide StartsAt;
    if Running(eq, init) && !events[m].Stop? {
      var k: nat :| StartsAt(eq, init, k) && forall n :: k < n < |init| ==> !init[n].Stop?;
      StartsInside(eq, init, k);
      assert StartsAt(eq, events, k) && forall n :: k < n < |events| ==> n == m || events[n] == init[n];
    }
    if Running(eq, events) {
      var k: nat :| StartsAt(eq, events, k) && forall n :: k < n < |events| ==> !events[n].Stop?;
      StartsInside(eq, events, k);
      if k < m {
        assert StartsAt(eq, init, k) && forall n :: k < n < m ==> init[n] == events[n];
      }
    }
  }

  lemma StartsInside(eq: DeepEqual, events: seq<Event>, k: nat)
    requires StartsAt(eq, events, k)
    ensures k < |events|
  {
    hide After, Next;
  }

  lemma StartedNext(eq: DeepEqual, s: State, e: Event)
    requires WellFormed(s)
    ensures var (t, reply) := Next(eq, s, e);
      t.started <==> (e.Start? && reply.Fine?) || (s.started && !e.Stop?)
  {
    hide WalkTo, BatchFrom;
  }

  /** Start is refused as already started exactly while the manager runs, and Stop as not started
      exactly while it does not. */
  lemma StartAndStopAlternate(eq: DeepEqual, events: seq<Event>, input: Input)
    ensures Next(eq, After(eq, events), Start(input)).1.AlreadyStarted? <==> Running(eq, events)
    ensures Next(eq, After(eq, events), Stop).1.NotStarted? <==> !Running(eq, events)
  {
    StartedMeansRunning(eq, events);
    hide WalkTo, BatchFrom, Running, After;
  }

  /** Whatever is not accepted leaves the generation, the resources and the callbacks as they were. */
  lemma RefusedChangesNothing(eq: DeepEqual, events: seq<Event>, e: Event)
    requires !Next(eq, After(eq, events), e).1.Fine?
    ensures var s, t := After(eq, events), Next(eq, After(eq, events), e).0;
      && t.current == s.current && t.pending == s.pending && t.released == s.released && t.notified == s.notified
      && t.nodes == s.nodes && t.started == s.started
      && (!Next(eq, s, e).1.TransformFailed? ==> t.calls == s.calls && t.abandoned == s.abandoned)
  {
    hide WalkTo, BatchFrom, After;
  }
}
