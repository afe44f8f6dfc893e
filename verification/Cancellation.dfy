/**
  What the bounds of the pool and the end of the caller's own context mean, said on the steps of a
  run: which resolver calls begin, and when the pool must fail.
 */
module Cancellation {
  import opened Wrappers
  import opened Grammar
  import opened Secrets
  import opened Pool

  /** `step` happens at `s` and begins a resolver call. */
  predicate Begins(s: State, step: Step) { step.Begin? && Enabled(s, step) }

  predicate IsCalling(p: Phase) { p == Calling }

  /** The workers whose calls begin in a run, in order. */
  ghost function BegunIn(k: Seal, names: seq<string>, steps: seq<Step>): seq<nat> {
    if steps == [] then []
    else
      var init, last := steps[..|steps| - 1], steps[|steps| - 1];
      BegunIn(k, names, init) + (if Begins(After(k, names, init), last) then [last.i] else [])
  }

  /** How many calls begin after the first failure has cancelled the context. */
  ghost function LateIn(k: Seal, names: seq<string>, steps: seq<Step>): nat {
    if steps == [] then 0
    else
      var init, last := steps[..|steps| - 1], steps[|steps| - 1];
      var s := After(k, names, init);
      LateIn(k, names, init) + (if Begins(s, last) && s.once.Finished? then 1 else 0)
  }

  lemma NextLogs(k: Seal, s: State, step: Step)
    requires |s.secrets| == |s.phases| == |s.names| && OnceInv(s) && Enabled(s, step)
    ensures var t := Next(k, s, step);
      && t.begun == s.begun + (if Begins(s, step) then [step.i] else [])
      && t.late == s.late + (if Begins(s, step) && s.once.Finished? then 1 else 0)
  {
  }

  lemma {:induction false} HistoryIsHonest(k: Seal, names: seq<string>, steps: seq<Step>)
    ensures After(k, names, steps).begun == BegunIn(k, names, steps)
    ensures After(k, names, steps).late == LateIn(k, names, steps)
  {
    hide Next, Enabled, LateBounded, CallsInv, SecretsInv, OnceInv;
    if steps != [] {
      var init, last := steps[..|steps| - 1], steps[|steps| - 1];
      HistoryIsHonest(k, names, init);
      if Enabled(After(k, names, init), last) {
        NextLogs(k, After(k, names, init), last);
      }
    }
  }

  /** In every run at most eight calls are in flight, no worker's call begins twice, and at most seven
      calls begin after the first failure has cancelled the context. */
  lemma EightAndSeven(k: Seal, names: seq<string>, steps: seq<Step>)
    ensures Count(After(k, names, steps).phases, IsCalling) <= 8
    ensures var begun := BegunIn(k, names, steps); forall a, b :: 0 <= a < b < |begun| ==> begun[a] != begun[b]
    ensures LateIn(k, names, steps) <= 7
  {
    PoolIsBounded(k, names, steps);
    HistoryIsHonest(k, names, steps);
    CountIsMonotone(After(k, names, steps).phases, IsCalling, InCall);
  }

  // ----- Eight calls do run at once -----

  function OneByOne(n: nat): seq<Step> {
    if n == 0 then [] else OneByOne(n - 1) + [Acquire(n - 1)] + [CheckContext(n - 1)] + [Begin(n - 1)]
  }

  lemma StartOne(k: Seal, s: State, i: nat)
    requires |s.secrets| == |s.phases| == |s.names| && i < |s.phases| && s.phases[i].Queued?
    requires s.slots < 8 && !s.cancelled && !s.callerDone
    ensures Enabled(s, Acquire(i))
    ensures var s1 := Next(k, s, Acquire(i));
      && |s1.secrets| == |s1.phases| == |s1.names| && Enabled(s1, CheckContext(i))
      && var s2 := Next(k, s1, CheckContext(i));
         && |s2.secrets| == |s2.phases| == |s2.names| && Enabled(s2, Begin(i))
         && Next(k, s2, Begin(i)) ==
            s.(phases := s.phases[i := Calling], slots := s.slots + 1, begun := s.begun + [i])
  {
  }

  lemma StartNext(k: Seal, names: seq<string>, before: seq<Step>, i: nat)
    requires var s := After(k, names, before);
      i < |s.phases| && s.phases[i].Queued? && s.slots < 8 && !s.cancelled && !s.callerDone
    ensures var s := After(k, names, before);
      After(k, names, before + [Acquire(i)] + [CheckContext(i)] + [Begin(i)]) ==
        s.(phases := s.phases[i := Calling], slots := s.slots + 1, begun := s.begun + [i])
  {
    StartOne(k, After(k, names, before), i);
    hide Next, Enabled, LateBounded, CallsInv, SecretsInv, OnceInv;
    AfterOneMore(k, names, before, Acquire(i));
    AfterOneMore(k, names, before + [Acquire(i)], CheckContext(i));
    AfterOneMore(k, names, before + [Acquire(i)] + [CheckContext(i)], Begin(i));
  }

  /** Up to eight names, that many calls do run at once. */
  lemma {:induction false} CallsInFlight(k: Seal, names: seq<string>, n: nat)
    requires n <= |names| && n <= 8
    ensures var s := After(k, names, OneByOne(n));
      && !s.cancelled && !s.callerDone && s.slots == n && |s.phases| == |names|
      && (forall i :: 0 <= i < |names| ==> s.phases[i] == if i < n then Calling else Queued)
      && Count(s.phases, IsCalling) == n
  {
    hide Next, Enabled, LateBounded, CallsInv, SecretsInv, OnceInv;
    if n == 0 {
      CountOfQueued(|names|, IsCalling);
    } else {
      CallsInFlight(k, names, n - 1);
      StartNext(k, names, OneByOne(n - 1), n - 1);
      CountAfterMove(After(k, names, OneByOne(n - 1)).phases, n - 1, Calling, IsCalling);
    }
  }

  // ----- A context that has ended -----

  predicate Unchecked(p: Phase) { p.Queued? || p.Holding? }

  /** Since the context ended, calls begin only for workers that had passed their check. */
  ghost predicate OnlyCleared(s: State, t: State) {
    && |t.phases| == |s.phases| && (t.callerDone || t.cancelled) && s.begun <= t.begun
    && (forall a :: |s.begun| <= a < |t.begun| ==> t.begun[a] < |s.phases| && s.phases[t.begun[a]].Cleared?)
    && forall i :: 0 <= i < |t.phases| && t.phases[i].Cleared? ==> s.phases[i].Cleared?
  }

  lemma StepKeepsOnlyCleared(k: Seal, s: State, t: State, step: Step)
    requires |t.secrets| == |t.phases| == |t.names| && Enabled(t, step) && OnlyCleared(s, t)
    ensures OnlyCleared(s, Next(k, t, step))
  {
  }

  lemma {:induction false} OnlyClearedBegin(k: Seal, names: seq<string>, steps: seq<Step>, more: seq<Step>)
    requires var s := After(k, names, steps); s.callerDone || s.cancelled
    ensures OnlyCleared(After(k, names, steps), After(k, names, steps + more))
  {
    hide Next, Enabled, LateBounded, CallsInv, SecretsInv, OnceInv;
    if more == [] {
      assert steps + more == steps;
    } else {
      var init, last := more[..|more| - 1], more[|more| - 1];
      OnlyClearedBegin(k, names, steps, init);
      assert (steps + more)[..|steps + more| - 1] == steps + init && (steps + more)[|steps + more| - 1] == last;
      if Enabled(After(k, names, steps + init), last) {
        StepKeepsOnlyCleared(k, After(k, names, steps), After(k, names, steps + init), last);
      }
    }
  }

  /** Once the caller's context has ended the only calls that begin, in any continuation, are those of
      workers that had already passed their check. */
  lemma CallerDoneStopsCalls(k: Seal, names: seq<string>, steps: seq<Step>, more: seq<Step>, a: nat)
    requires After(k, names, steps).callerDone
    requires |BegunIn(k, names, steps)| <= a < |BegunIn(k, names, steps + more)|
    ensures var i := BegunIn(k, names, steps + more)[a]; i < |names| && After(k, names, steps).phases[i].Cleared?
  {
    OnlyClearedBegin(k, names, steps, more);
    HistoryIsHonest(k, names, steps);
    HistoryIsHonest(k, names, steps + more);
    hide After, BegunIn;
  }

  /** Whoever has left without a secret has seen the context cancelled. */
  ghost predicate LeaversCancelled(s: State) {
    |s.secrets| == |s.phases| && forall i :: 0 <= i < |s.phases| && LeftWithout(s, i) ==> s.cancelled
  }

  /** Worker `i` is about to give its slot back, or has, and has no secret. */
  predicate LeftWithout(s: State, i: nat) {
    i < |s.phases| && i < |s.secrets| && (s.phases[i].Exiting? || s.phases[i].Gone?) && s.secrets[i].None?
  }

  lemma StepKeepsLeavers(k: Seal, s: State, step: Step)
    requires |s.secrets| == |s.phases| == |s.names| && OnceInv(s) && Enabled(s, step) && LeaversCancelled(s)
    ensures LeaversCancelled(Next(k, s, step))
  {
    var t := Next(k, s, step);
    forall i | 0 <= i < |t.phases| && LeftWithout(t, i) ensures t.cancelled {
      if step.CallerDone? || step.i != i || step.Release? {
        assert LeftWithout(s, i);
      }
    }
  }

  lemma {:induction false} ReachableLeavers(k: Seal, names: seq<string>, steps: seq<Step>)
    ensures LeaversCancelled(After(k, names, steps))
  {
    hide Next, Enabled, LateBounded, CallsInv, SecretsInv, OnceInv;
    if steps != [] {
      var init, last := steps[..|steps| - 1], steps[|steps| - 1];
      ReachableLeavers(k, names, init);
      if Enabled(After(k, names, init), last) {
        StepKeepsLeavers(k, After(k, names, init), last);
      }
    }
  }

  /** A failed worker gives its slot back only once the context is cancelled: from then on the only calls
      that begin are those of workers that had passed their check, whoever gets the slot. */
  lemma FailedWorkerStopsCalls(k: Seal, names: seq<string>, steps: seq<Step>, more: seq<Step>, i: nat, a: nat)
    requires LeftWithout(After(k, names, steps), i)
    requires |BegunIn(k, names, steps)| <= a < |BegunIn(k, names, steps + more)|
    ensures After(k, names, steps).cancelled && After(k, names, steps).failure.Some?
    ensures var j := BegunIn(k, names, steps + more)[a]; j < |names| && After(k, names, steps).phases[j].Cleared?
  {
    ReachableLeavers(k, names, steps);
    OnlyClearedBegin(k, names, steps, more);
    HistoryIsHonest(k, names, steps);
    HistoryIsHonest(k, names, steps + more);
    hide After, BegunIn;
  }

  // ----- Who is called -----

  ghost predicate CalledFirst(s: State) {
    |s.secrets| == |s.phases| && forall i :: 0 <= i < |s.phases| && (s.phases[i].Calling? || s.secrets[i].Some?) ==>
      i in s.begun
  }

  lemma StepKeepsCalledFirst(k: Seal, s: State, step: Step)
    requires |s.secrets| == |s.phases| == |s.names| && Enabled(s, step) && CalledFirst(s)
    ensures CalledFirst(Next(k, s, step))
  {
  }

  lemma {:induction false} ReachableCalledFirst(k: Seal, names: seq<string>, steps: seq<Step>)
    ensures CalledFirst(After(k, names, steps))
  {
    hide Next, Enabled, LateBounded, CallsInv, SecretsInv, OnceInv;
    if steps != [] {
      var init, last := steps[..|steps| - 1], steps[|steps| - 1];
      ReachableCalledFirst(k, names, init);
      if Enabled(After(k, names, init), last) {
        StepKeepsCalledFirst(k, After(k, names, init), last);
      }
    }
  }

  /** A pool that succeeds has called the resolver for every name. */
  lemma SuccessCallsForAll(k: Seal, names: seq<string>, steps: seq<Step>, i: nat)
    requires Done(After(k, names, steps)) && After(k, names, steps).failure.None? && i < |names|
    ensures i in BegunIn(k, names, steps)
  {
    ReachableCalledFirst(k, names, steps);
    HistoryIsHonest(k, names, steps);
    assert Resolves(k, names[i], After(k, names, steps).secrets[i]);
  }

  /** A worker waits only for one of eight slots, or for the first failure to be recorded; a call may
      answer anything at any time. */
  lemma WorkersWaitFor(k: Seal, names: seq<string>, steps: seq<Step>, i: nat, answer: Answer)
    requires i < |names|
    ensures var s := After(k, names, steps);
      && (s.phases[i].Calling? ==> Enabled(s, Return(i, answer)))
      && ((exists step: Step :: !step.CallerDone? && step.i == i && Enabled(s, step)) <==>
            && !s.phases[i].Gone?
            && (s.phases[i].Queued? ==> Count(s.phases, HasSlot) < 8)
            && (s.phases[i].Failing? ==> forall j :: 0 <= j < |names| ==> !s.phases[j].Cancelling?))
  {
    var s := After(k, names, steps);
    hide After, LateBounded, CallsInv, SecretsInv;
    if s.phases[i].Exiting? && s.slots == 0 {
      CountOfNone(s.phases, HasSlot);
    }
    if !s.phases[i].Gone? {
      var step := StepOf(s, i);
      assert !step.CallerDone? && step.i == i;
      assert s.once.Running? ==> s.phases[s.failure.value.worker].Cancelling?;
    }
  }

  // ----- When the pool fails -----

  /** Worker `i` will find the context done, or has, or something else has failed already. */
  ghost predicate Doomed(t: State, i: nat) {
    && i < |t.phases| && t.callerDone
    && (t.failure.Some? || t.phases[i].Queued? || t.phases[i].Holding? || t.phases[i].Failing?)
  }

  lemma StepKeepsDoomed(k: Seal, t: State, step: Step, i: nat)
    requires |t.secrets| == |t.phases| == |t.names| && OnceInv(t) && Enabled(t, step) && Doomed(t, i)
    ensures Doomed(Next(k, t, step), i)
  {
  }

  lemma {:induction false} DoomedStays(k: Seal, names: seq<string>, steps: seq<Step>, more: seq<Step>, i: nat)
    requires Doomed(After(k, names, steps), i)
    ensures Doomed(After(k, names, steps + more), i)
  {
    hide Next, Enabled, LateBounded, CallsInv, SecretsInv, OnceInv, Doomed;
    if more == [] {
      assert steps + more == steps;
    } else {
      var init, last := more[..|more| - 1], more[|more| - 1];
      DoomedStays(k, names, steps, init, i);
      assert (steps + more)[..|steps + more| - 1] == steps + init && (steps + more)[|steps + more| - 1] == last;
      if Enabled(After(k, names, steps + init), last) {
        StepKeepsDoomed(k, After(k, names, steps + init), last, i);
      }
    }
  }

  /** If the caller's context ends while some worker has not passed its check, the pool fails. */
  lemma UncheckedWorkerFailsPool(k: Seal, names: seq<string>, steps: seq<Step>, more: seq<Step>, i: nat)
    requires var s := After(k, names, steps); s.callerDone && i < |names| && Unchecked(s.phases[i])
    requires Done(After(k, names, steps + more))
    ensures After(k, names, steps + more).failure.Some?
  {
    assert Doomed(After(k, names, steps), i);
    DoomedStays(k, names, steps, more, i);
    hide After;
  }

  /** Nothing has failed or is about to. */
  ghost predicate Clean(s: State) {
    && s.failure.None? && !s.cancelled
    && forall i :: 0 <= i < |s.phases| ==> !s.phases[i].Failing? && !s.phases[i].Cancelling?
  }

  ghost predicate AllChecked(s: State) { forall i :: 0 <= i < |s.phases| ==> !Unchecked(s.phases[i]) }

  lemma StepKeepsClean(k: Seal, s: State, step: Step)
    requires |s.secrets| == |s.phases| == |s.names| && Enabled(s, step)
    requires Clean(s) && (s.callerDone || step.CallerDone? ==> AllChecked(s))
    requires step.Return? ==> Usable(step.answer)
    ensures Clean(Next(k, s, step)) && (Next(k, s, step).callerDone ==> AllChecked(Next(k, s, step)))
  {
  }

  /** All names have usable values, and the caller's context does not end before every check. */
  ghost predicate GoesWell(k: Seal, names: seq<string>, steps: seq<Step>, answers: string -> Answer) {
    && (forall i :: 0 <= i < |names| ==> Usable(answers(names[i])))
    && forall n :: 0 <= n < |steps| && steps[n].CallerDone? ==> AllChecked(After(k, names, steps[..n]))
  }

  lemma {:induction false} WellMeansClean(k: Seal, names: seq<string>, steps: seq<Step>, answers: string -> Answer)
    requires forall n :: 0 <= n < |steps| ==> AnswersAs(names, answers, steps[n])
    requires GoesWell(k, names, steps, answers)
    ensures var s := After(k, names, steps); Clean(s) && (s.callerDone ==> AllChecked(s))
  {
    hide Next, LateBounded, CallsInv, SecretsInv, OnceInv, Usable;
    if steps != [] {
      var m := |steps| - 1;
      var init, last := steps[..m], steps[m];
      forall n | 0 <= n < m && init[n].CallerDone? ensures AllChecked(After(k, names, init[..n])) {
        assert init[..n] == steps[..n] && steps[n].CallerDone?;
      }
      WellMeansClean(k, names, init, answers);
      var s := After(k, names, init);
      if Enabled(s, last) {
        assert AnswersAs(names, answers, last);
        StepKeepsClean(k, s, last);
      }
    }
  }

  lemma UnwellFails(k: Seal, names: seq<string>, steps: seq<Step>, n: nat)
    requires n < |steps| && steps[n].CallerDone? && !AllChecked(After(k, names, steps[..n]))
    requires Done(After(k, names, steps))
    ensures After(k, names, steps).failure.Some?
  {
    hide Next, Enabled, LateBounded, CallsInv, SecretsInv, OnceInv, Done, Unchecked;
    DoneAfterCallerDone(k, names, steps, n);
    hide After;
    var i :| 0 <= i < |After(k, names, steps[..n]).phases| && Unchecked(After(k, names, steps[..n]).phases[i]);
    assert steps == steps[..n + 1] + steps[n + 1..];
    UncheckedWorkerFailsPool(k, names, steps[..n + 1], steps[n + 1..], i);
  }

  /** Whether or not the caller's context ends, the finished pool has succeeded if and only if every
      name has a usable value and the context did not end before the last check; each Secret is then
      the answer for its own name. */
  lemma PoolSucceedsIffWell(k: Seal, names: seq<string>, steps: seq<Step>, answers: string -> Answer)
    requires forall n :: 0 <= n < |steps| ==> AnswersAs(names, answers, steps[n])
    requires Done(After(k, names, steps))
    ensures After(k, names, steps).failure.None? <==> GoesWell(k, names, steps, answers)
    ensures After(k, names, steps).failure.None? ==> forall i :: 0 <= i < |names| ==>
      var values := Values(After(k, names, steps), |names|);
      && Usable(answers(names[i])) && names[i] in values
      && values[names[i]] == Resolved(k, names[i], answers(names[i]).text)
  {
    hide Next, Enabled, LateBounded, CallsInv, SecretsInv, OnceInv, Usable, AllChecked, AnswersAs;
    if After(k, names, steps).failure.None? {
      RunKeepsAnswers(k, names, steps, answers);
      ValuesAreAnswers(k, After(k, names, steps), answers, |names|);
    }
    if GoesWell(k, names, steps, answers) {
      WellMeansClean(k, names, steps, answers);
    }
    RunKeepsAnswers(k, names, steps, answers);
    forall n | 0 <= n < |steps| && steps[n].CallerDone? && !AllChecked(After(k, names, steps[..n]))
      ensures After(k, names, steps).failure.Some?
    {
      UnwellFails(k, names, steps, n);
    }
  }

  lemma DoneAfterCallerDone(k: Seal, names: seq<string>, steps: seq<Step>, n: nat)
    requires n < |steps| && steps[n].CallerDone?
    ensures var s, t := After(k, names, steps[..n]), After(k, names, steps[..n + 1]);
      t.callerDone && t.phases == s.phases
  {
    assert steps[..n + 1][..n] == steps[..n];
  }
}
