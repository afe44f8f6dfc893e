/**
  The worker pool of resolveSecrets (secretref.go): one goroutine per distinct name, eight slots,
  and a first failure that cancels the rest. A step is one goroutine passing one point of its
  code; the environment chooses the order, what the resolver answers, and when the caller's own
  context ends.
 */
module Pool {
  import opened Wrappers
  import opened Grammar
  import opened Secrets
  import opened Document

  const MAX_CONCURRENT_RESOLVES := 8

  datatype Fault = ContextDone | ResolverFailed | ValueIsReference

  datatype Phase =
    | Queued                 // waiting for a slot
    | Holding                // has a slot, has not looked at the context
    | Cleared                // saw a live context
    | Calling                // inside the resolver
    | Failing(fault: Fault)  // about to call fail
    | Cancelling             // recorded its failure inside the Once, about to cancel
    | Exiting                // about to give its slot back
    | Gone

  datatype Once = NotRun | Running | Finished

  datatype Failure = Failure(worker: nat, fault: Fault)

  /** `begun` lists the resolver calls in the order they began; `late` counts those begun after a
      worker's failure cancelled the context. */
  datatype State = State(
    names: seq<string>,
    phases: seq<Phase>,
    secrets: seq<Option<Secret>>,
    slots: nat,
    once: Once,
    failure: Option<Failure>,
    cancelled: bool,
    callerDone: bool,
    begun: seq<nat>,
    late: nat)

  datatype Answer = Value(text: string) | Error

  datatype Step =
    | Acquire(i: nat)
    | CheckContext(i: nat)
    | Begin(i: nat)
    | Return(i: nat, answer: Answer)
    | EnterOnce(i: nat)
    | Cancel(i: nat)
    | PassOnce(i: nat)
    | Release(i: nat)
    | CallerDone

  function Start(names: seq<string>): State {
    State(names, seq(|names|, _ => Queued), seq(|names|, _ => None), 0, NotRun, None, false, false, [], 0)
  }

  predicate Enabled(s: State, step: Step) {
    match step
    case Acquire(i) => i < |s.phases| && s.phases[i].Queued? && s.slots < MAX_CONCURRENT_RESOLVES
    case CheckContext(i) => i < |s.phases| && s.phases[i].Holding?
    case Begin(i) => i < |s.phases| && s.phases[i].Cleared?
    case Return(i, _) => i < |s.phases| && s.phases[i].Calling?
    case EnterOnce(i) => i < |s.phases| && s.phases[i].Failing? && s.once.NotRun?
    case Cancel(i) => i < |s.phases| && s.phases[i].Cancelling?
    case PassOnce(i) => i < |s.phases| && s.phases[i].Failing? && s.once.Finished?
    case Release(i) => i < |s.phases| && s.phases[i].Exiting? && s.slots > 0
    case CallerDone => !s.callerDone
  }

  function Move(s: State, i: nat, p: Phase): State
    requires i < |s.phases|
  {
    s.(phases := s.phases[i := p])
  }

  function Next(k: Seal, s: State, step: Step): State
    requires Enabled(s, step) && |s.secrets| == |s.phases| == |s.names|
  {
    match step
    case Acquire(i) => Move(s, i, Holding).(slots := s.slots + 1)
    case CheckContext(i) => Move(s, i, if s.cancelled || s.callerDone then Failing(ContextDone) else Cleared)
    case Begin(i) => Move(s, i, Calling).(begun := s.begun + [i], late := s.late + if s.cancelled then 1 else 0)
    case Return(i, Error) => Move(s, i, Failing(ResolverFailed))
    case Return(i, Value(v)) =>
      if SecretRefName(v).Some? then Move(s, i, Failing(ValueIsReference))
      else Move(s, i, Exiting).(secrets := s.secrets[i := Some(Resolved(k, s.names[i], v))])
    case EnterOnce(i) => Move(s, i, Cancelling).(once := Running, failure := Some(Failure(i, s.phases[i].fault)))
    case Cancel(i) => Move(s, i, Exiting).(once := Finished, cancelled := true)
    case PassOnce(i) => Move(s, i, Exiting)
    case Release(i) => Move(s, i, Gone).(slots := s.slots - 1)
    case CallerDone => s.(callerDone := true)
  }

  // ----- What every step keeps -----

  predicate HasSlot(p: Phase) { !p.Queued? && !p.Gone? }

  predicate InCall(p: Phase) { p.Calling? }

  predicate MayBegin(p: Phase) { p.Cleared? }

  function Count(ps: seq<Phase>, which: Phase -> bool): nat {
    if ps == [] then 0
    else Count(ps[..|ps| - 1], which) + if which(ps[|ps| - 1]) then 1 else 0
  }

  /** The slots channel holds one token for each goroutine between its send and its receive. */
  ghost predicate Counted(s: State) {
    && |s.secrets| == |s.phases| == |s.names|
    && s.slots == Count(s.phases, HasSlot) <= MAX_CONCURRENT_RESOLVES
  }

  ghost predicate LateBounded(s: State) {
    && (s.cancelled ==> s.late + Count(s.phases, MayBegin) <= MAX_CONCURRENT_RESOLVES - 1)
    && (!s.cancelled ==> s.late == 0)
  }

  ghost predicate OnceInv(s: State) {
    && (s.once.NotRun? <==> s.failure.None?)
    && (s.once.Finished? <==> s.cancelled)
    && (forall i :: 0 <= i < |s.phases| && s.phases[i].Cancelling? ==> s.once.Running? && s.failure.value.worker == i)
    && (s.once.Running? ==> s.failure.value.worker < |s.phases| && s.phases[s.failure.value.worker].Cancelling?)
    && (s.failure.Some? ==> s.failure.value.worker < |s.phases|)
    && BlameInv(s)
  }

  /** Only the caller's context can end before a failure is recorded. */
  ghost predicate BlameInv(s: State) {
    && (forall i :: 0 <= i < |s.phases| && s.phases[i] == Failing(ContextDone) && s.failure.None? ==> s.callerDone)
    && (s.failure.Some? && s.failure.value.fault.ContextDone? ==> s.callerDone)
  }

  ghost predicate CallsInv(s: State) {
    && (forall a, b :: 0 <= a < b < |s.begun| ==> s.begun[a] != s.begun[b])
    && (forall a :: 0 <= a < |s.begun| ==>
          && s.begun[a] < |s.phases|
          && !s.phases[s.begun[a]].Queued? && !s.phases[s.begun[a]].Holding? && !s.phases[s.begun[a]].Cleared?)
  }

  ghost predicate Resolves(k: Seal, name: string, secret: Option<Secret>) {
    exists v :: secret == Some(Resolved(k, name, v)) && SecretRefName(v).None?
  }

  ghost predicate SecretsInv(k: Seal, s: State) {
    && |s.secrets| == |s.phases| == |s.names|
    && forall i :: 0 <= i < |s.phases| && (s.phases[i].Exiting? || s.phases[i].Gone?) && s.failure.None? ==>
         Resolves(k, s.names[i], s.secrets[i])
  }

  ghost predicate Inv(k: Seal, s: State) {
    Counted(s) && LateBounded(s) && OnceInv(s) && CallsInv(s) && SecretsInv(k, s)
  }

  lemma {:induction false} CountOfQueued(n: nat, which: Phase -> bool)
    requires !which(Queued)
    ensures Count(seq(n, _ => Queued), which) == 0
  {
    if n > 0 {
      var ps: seq<Phase> := seq(n, _ => Queued);
      assert ps[..n - 1] == seq(n - 1, _ => Queued);
      CountOfQueued(n - 1, which);
    }
  }

  lemma StartInv(k: Seal, names: seq<string>)
    ensures Inv(k, Start(names))
  {
    CountOfQueued(|names|, HasSlot);
  }

  lemma {:induction false} CountAfterMove(ps: seq<Phase>, i: nat, p: Phase, which: Phase -> bool)
    requires i < |ps|
    ensures Count(ps[i := p], which) + (if which(ps[i]) then 1 else 0) == Count(ps, which) + (if which(p) then 1 else 0)
    decreases |ps|
  {
    var n := |ps| - 1;
    if i < n {
      CountAfterMove(ps[..n], i, p, which);
      assert ps[i := p][..n] == ps[..n][i := p];
    } else {
      assert ps[i := p][..n] == ps[..n];
    }
  }

  /** If some are also others, and one other is not among them, there are fewer of them. */
  lemma {:induction false} CountIsMonotone(ps: seq<Phase>, some: Phase -> bool, others: Phase -> bool)
    requires forall p :: some(p) ==> others(p)
    ensures Count(ps, some) <= Count(ps, others)
    ensures forall i :: 0 <= i < |ps| && others(ps[i]) && !some(ps[i]) ==> Count(ps, some) < Count(ps, others)
  {
    if ps != [] {
      CountIsMonotone(ps[..|ps| - 1], some, others);
      forall i | 0 <= i < |ps| && others(ps[i]) && !some(ps[i]) ensures Count(ps, some) < Count(ps, others) {
        if i < |ps| - 1 {
          assert ps[..|ps| - 1][i] == ps[i];
        }
      }
    }
  }

  lemma {:induction false} CountOfNone(ps: seq<Phase>, which: Phase -> bool)
    ensures Count(ps, which) == 0 <==> forall i :: 0 <= i < |ps| ==> !which(ps[i])
  {
    if ps != [] {
      CountOfNone(ps[..|ps| - 1], which);
      if Count(ps, which) == 0 {
        forall i | 0 <= i < |ps| ensures !which(ps[i]) {
          assert i < |ps| - 1 ==> ps[..|ps| - 1][i] == ps[i];
        }
      }
    }
  }

  lemma StepKeepsCount(k: Seal, s: State, step: Step)
    requires Counted(s) && Enabled(s, step)
    ensures Counted(Next(k, s, step))
  {
    if !step.CallerDone? {
      CountAfterMove(s.phases, step.i, Next(k, s, step).phases[step.i], HasSlot);
    }
  }

  /** At the cancel nobody has begun late, and the canceller is in a slot but will not begin. */
  lemma StepKeepsLate(k: Seal, s: State, step: Step)
    requires Counted(s) && LateBounded(s) && OnceInv(s) && Enabled(s, step)
    ensures LateBounded(Next(k, s, step))
  {
    if !step.CallerDone? {
      CountAfterMove(s.phases, step.i, Next(k, s, step).phases[step.i], MayBegin);
    }
    if step.Cancel? {
      CountIsMonotone(s.phases, MayBegin, HasSlot);
      assert HasSlot(s.phases[step.i]) && !MayBegin(s.phases[step.i]);
    }
  }

  lemma StepKeepsOnce(k: Seal, s: State, step: Step)
    requires |s.secrets| == |s.phases| == |s.names| && OnceInv(s) && Enabled(s, step)
    ensures OnceInv(Next(k, s, step))
  {
    StepKeepsBlame(k, s, step);
    hide BlameInv;
  }

  lemma StepKeepsBlame(k: Seal, s: State, step: Step)
    requires |s.secrets| == |s.phases| == |s.names| && OnceInv(s) && Enabled(s, step)
    ensures BlameInv(Next(k, s, step))
  {
  }

  lemma StepKeepsCalls(k: Seal, s: State, step: Step)
    requires |s.secrets| == |s.phases| == |s.names| && CallsInv(s) && Enabled(s, step)
    ensures CallsInv(Next(k, s, step))
  {
  }

  lemma StepKeepsSecrets(k: Seal, s: State, step: Step)
    requires OnceInv(s) && SecretsInv(k, s) && Enabled(s, step)
    ensures SecretsInv(k, Next(k, s, step))
  {
    match step
    case Return(i, Value(v)) =>
      if SecretRefName(v).None? {
        assert Resolves(k, s.names[i], Some(Resolved(k, s.names[i], v)));
      }
    case _ =>
  }

  lemma StepKeepsInv(k: Seal, s: State, step: Step)
    requires Inv(k, s) && Enabled(s, step)
    ensures Inv(k, Next(k, s, step))
  {
    StepKeepsCount(k, s, step);
    StepKeepsLate(k, s, step);
    StepKeepsOnce(k, s, step);
    StepKeepsCalls(k, s, step);
    StepKeepsSecrets(k, s, step);
  }

  // ----- Runs -----

  /** The state after the steps of a run; a step that is not enabled does not happen. */
  ghost function After(k: Seal, names: seq<string>, steps: seq<Step>): (s: State)
    ensures Inv(k, s) && s.names == names
  {
    if steps == [] then StartInv(k, names); Start(names)
    else
      var s := After(k, names, steps[..|steps| - 1]);
      var step := steps[|steps| - 1];
      if Enabled(s, step) then
        StepKeepsInv(k, s, step);
        Next(k, s, step)
      else s
  }

  /** In every reachable state at most eight calls are in flight, no name was called twice, and at
      most seven calls have begun since a worker's failure cancelled the context. */
  lemma PoolIsBounded(k: Seal, names: seq<string>, steps: seq<Step>)
    ensures var s := After(k, names, steps);
      && Count(s.phases, InCall) <= MAX_CONCURRENT_RESOLVES
      && (forall a, b :: 0 <= a < b < |s.begun| ==> s.begun[a] != s.begun[b])
      && s.late <= MAX_CONCURRENT_RESOLVES - 1
  {
    var s := After(k, names, steps);
    CountIsMonotone(s.phases, InCall, HasSlot);
  }

  predicate Done(s: State) { forall i :: 0 <= i < |s.phases| ==> s.phases[i].Gone? }

  /** While work remains some goroutine can move. */
  lemma NeverStuck(k: Seal, names: seq<string>, steps: seq<Step>)
    requires !Done(After(k, names, steps))
    ensures exists step: Step :: !step.CallerDone? && Enabled(After(k, names, steps), step)
  {
    var s := After(k, names, steps);
    var i :| 0 <= i < |s.phases| && !s.phases[i].Gone?;
    CountOfNone(s.phases, HasSlot);
    if s.once.Running? {
      assert Enabled(s, Cancel(s.failure.value.worker));
    } else if s.slots == 0 {
      assert !HasSlot(s.phases[i]);
      assert Enabled(s, Acquire(i));
    } else {
      var j :| 0 <= j < |s.phases| && HasSlot(s.phases[j]);
      assert Enabled(s, StepOf(s, j));
    }
  }

  function StepOf(s: State, i: nat): Step
    requires i < |s.phases|
  {
    match s.phases[i]
    case Queued => Acquire(i)
    case Holding => CheckContext(i)
    case Cleared => Begin(i)
    case Calling => Return(i, Error)
    case Failing(_) => if s.once.NotRun? then EnterOnce(i) else PassOnce(i)
    case Cancelling => Cancel(i)
    case Exiting => Release(i)
    case Gone => CallerDone
  }

  function Rank(p: Phase): nat {
    match p
    case Queued => 7
    case Holding => 6
    case Cleared => 5
    case Calling => 4
    case Failing(_) => 3
    case Cancelling => 2
    case Exiting => 1
    case Gone => 0
  }

  function Ranks(ps: seq<Phase>): nat {
    if ps == [] then 0 else Ranks(ps[..|ps| - 1]) + Rank(ps[|ps| - 1])
  }

  /** What is left to do, whatever the order. */
  function Remaining(s: State): nat { Ranks(s.phases) + if s.callerDone then 0 else 1 }

  lemma {:induction false} RanksAfterMove(ps: seq<Phase>, i: nat, p: Phase)
    requires i < |ps|
    ensures Ranks(ps[i := p]) == Ranks(ps) - Rank(ps[i]) + Rank(p)
    decreases |ps|
  {
    var n := |ps| - 1;
    if i < n {
      RanksAfterMove(ps[..n], i, p);
      assert ps[i := p][..n] == ps[..n][i := p];
    } else {
      assert ps[i := p][..n] == ps[..n];
    }
  }

  /** Every step brings the end closer, so if calls return the pool finishes. */
  lemma StepsRunOut(k: Seal, s: State, step: Step)
    requires |s.secrets| == |s.phases| == |s.names| && Enabled(s, step)
    ensures Remaining(Next(k, s, step)) < Remaining(s)
  {
    if !step.CallerDone? {
      RanksAfterMove(s.phases, step.i, Next(k, s, step).phases[step.i]);
    }
  }

  lemma AfterOneMore(k: Seal, names: seq<string>, steps: seq<Step>, step: Step)
    requires Enabled(After(k, names, steps), step)
    ensures After(k, names, steps + [step]) == Next(k, After(k, names, steps), step)
  {
    assert (steps + [step])[..|steps|] == steps;
  }

  /** Every run, wherever it stands, can be finished. */
  lemma {:induction false} PoolFinishes(k: Seal, names: seq<string>, steps: seq<Step>) returns (more: seq<Step>)
    ensures Done(After(k, names, steps + more))
    decreases Remaining(After(k, names, steps))
  {
    hide Next, OnceInv, CallsInv, LateBounded, Enabled;
    var s := After(k, names, steps);
    if Done(s) {
      more := [];
      assert steps + more == steps;
    } else {
      NeverStuck(k, names, steps);
      var step: Step :| !step.CallerDone? && Enabled(s, step);
      StepsRunOut(k, s, step);
      AfterOneMore(k, names, steps, step);
      var rest := PoolFinishes(k, names, steps + [step]);
      more := [step] + rest;
      assert steps + more == (steps + [step]) + rest;
    }
  }

  // ----- The result, after wg.Wait -----

  function Values(s: State, n: nat): map<string, Secret>
    requires n <= |s.names| == |s.secrets|
  {
    if n == 0 then map[]
    else
      var secret := if s.secrets[n - 1].Some? then s.secrets[n - 1].value else Secret("", "", false);
      Values(s, n - 1)[s.names[n - 1] := secret]
  }

  ghost predicate ExactlyResolved(k: Seal, values: map<string, Secret>, names: set<string>) {
    && values.Keys == names
    && forall name :: name in values ==> Resolves(k, name, Some(values[name]))
  }

  lemma {:induction false} ValuesAreExact(k: Seal, s: State, n: nat)
    requires n <= |s.names| == |s.secrets|
    requires forall i :: 0 <= i < |s.names| ==> Resolves(k, s.names[i], s.secrets[i])
    ensures ExactlyResolved(k, Values(s, n), set i | 0 <= i < n :: s.names[i])
  {
    if n > 0 {
      ValuesAreExact(k, s, n - 1);
      assert (set i | 0 <= i < n :: s.names[i]) == (set i | 0 <= i < n - 1 :: s.names[i]) + {s.names[n - 1]};
    }
  }

  /** When all goroutines are gone, the result is the first recorded failure, which is a
      consequence of cancellation only if the caller's own context ended; or, without one, a map
      on exactly the names, each Secret resolved for its own name. */
  lemma PoolResult(k: Seal, names: seq<string>, steps: seq<Step>)
    requires Done(After(k, names, steps))
    ensures var s := After(k, names, steps);
      if s.failure.Some? then s.failure.value.worker < |names| && (s.failure.value.fault.ContextDone? ==> s.callerDone)
      else ExactlyResolved(k, Values(s, |names|), set i | 0 <= i < |names| :: names[i])
  {
    var s := After(k, names, steps);
    if s.failure.None? {
      ValuesAreExact(k, s, |names|);
    }
  }

  lemma StepKeepsFailure(k: Seal, s: State, step: Step)
    requires |s.secrets| == |s.phases| == |s.names| && OnceInv(s) && Enabled(s, step) && s.failure.Some?
    ensures Next(k, s, step).failure == s.failure
  {
  }

  /** The first failure is final, whatever the workers it cancels come to. */
  lemma {:induction false} FirstFailureStays(k: Seal, names: seq<string>, steps: seq<Step>, more: seq<Step>)
    requires After(k, names, steps).failure.Some?
    ensures After(k, names, steps + more).failure == After(k, names, steps).failure
  {
    hide Next, Enabled, OnceInv, CallsInv, LateBounded, SecretsInv;
    if more == [] {
      assert steps + more == steps;
    } else {
      var init, last := more[..|more| - 1], more[|more| - 1];
      FirstFailureStays(k, names, steps, init);
      var s := After(k, names, steps + init);
      assert (steps + more)[..|steps + more| - 1] == steps + init && (steps + more)[|steps + more| - 1] == last;
      if Enabled(s, last) {
        StepKeepsFailure(k, s, last);
      }
    }
  }

  // ----- The result, against what the resolver answers -----

  predicate Usable(a: Answer) { a.Value? && SecretRefName(a.text).None? }

  /** Every call for a name is answered the same way. */
  ghost predicate AnswersAs(names: seq<string>, answers: string -> Answer, step: Step) {
    step.Return? && step.i < |names| ==> step.answer == answers(names[step.i])
  }

  ghost predicate FaultFits(answer: Answer, fault: Fault) {
    match fault
    case ContextDone => true
    case ResolverFailed => answer.Error?
    case ValueIsReference => answer.Value? && !Usable(answer)
  }

  /** A secret is what the resolver answered, and a fault is the resolver's, or the context's. */
  ghost predicate AnswersInv(k: Seal, s: State, answers: string -> Answer) {
    && |s.secrets| == |s.phases| == |s.names|
    && (s.failure.Some? ==>
          var f := s.failure.value; f.worker < |s.names| && FaultFits(answers(s.names[f.worker]), f.fault))
    && forall i :: 0 <= i < |s.phases| ==>
         && (s.phases[i].Failing? ==> FaultFits(answers(s.names[i]), s.phases[i].fault))
         && ((s.phases[i].Exiting? || s.phases[i].Gone?) && s.failure.None? ==>
               Usable(answers(s.names[i])) && s.secrets[i] == Some(Resolved(k, s.names[i], answers(s.names[i]).text)))
  }

  lemma StepKeepsAnswers(k: Seal, s: State, step: Step, answers: string -> Answer)
    requires AnswersInv(k, s, answers) && Enabled(s, step) && AnswersAs(s.names, answers, step)
    requires forall i :: 0 <= i < |s.phases| && s.phases[i].Cancelling? ==> s.failure.Some?
    requires s.failure.None? ==> s.once.NotRun?
    ensures AnswersInv(k, Next(k, s, step), answers)
  {
  }

  lemma {:induction false} RunKeepsAnswers(k: Seal, names: seq<string>, steps: seq<Step>, answers: string -> Answer)
    requires forall n :: 0 <= n < |steps| ==> AnswersAs(names, answers, steps[n])
    ensures AnswersInv(k, After(k, names, steps), answers)
  {
    hide Next, Enabled, AnswersAs, CallsInv, LateBounded, SecretsInv;
    if steps != [] {
      var init, last := steps[..|steps| - 1], steps[|steps| - 1];
      RunKeepsAnswers(k, names, init, answers);
      var s := After(k, names, init);
      if Enabled(s, last) {
        StepKeepsAnswers(k, s, last, answers);
      }
    }
  }

  /** While the caller's own context lives, the pool succeeds if and only if the resolver has a
      usable value for every name, and then each Secret holds the value of its own name. */
  lemma PoolSucceedsIff(k: Seal, names: seq<string>, steps: seq<Step>, answers: string -> Answer)
    requires forall n :: 0 <= n < |steps| ==> AnswersAs(names, answers, steps[n])
    requires Done(After(k, names, steps)) && !After(k, names, steps).callerDone
    ensures var s := After(k, names, steps);
      && (s.failure.None? <==> forall i :: 0 <= i < |names| ==> Usable(answers(names[i])))
      && (s.failure.None? ==> forall i :: 0 <= i < |names| ==>
            && names[i] in Values(s, |names|)
            && Values(s, |names|)[names[i]] == Resolved(k, names[i], answers(names[i]).text))
  {
    hide Next, Enabled, CallsInv, LateBounded, SecretsInv;
    var s := After(k, names, steps);
    RunKeepsAnswers(k, names, steps, answers);
    if s.failure.None? {
      ValuesAreAnswers(k, s, answers, |names|);
    }
  }

  lemma {:induction false} ValuesAreAnswers(k: Seal, s: State, answers: string -> Answer, n: nat)
    requires n <= |s.names| == |s.secrets|
    requires forall i :: 0 <= i < |s.names| ==>
      Usable(answers(s.names[i])) && s.secrets[i] == Some(Resolved(k, s.names[i], answers(s.names[i]).text))
    ensures forall i :: 0 <= i < n ==>
      && Usable(answers(s.names[i])) && s.names[i] in Values(s, n)
      && Values(s, n)[s.names[i]] == Resolved(k, s.names[i], answers(s.names[i]).text)
  {
    if n > 0 {
      ValuesAreAnswers(k, s, answers, n - 1);
    }
  }

  // ----- The distinct names -----

  /** The first use of each distinct name, in order. */
  ghost function First(uses: seq<SecretUse>): (first: seq<SecretUse>)
    ensures Names(first) == Names(uses)
    ensures forall a, b :: 0 <= a < b < |first| ==> first[a].name != first[b].name
  {
    if uses == [] then []
    else
      var init, last := uses[..|uses| - 1], uses[|uses| - 1];
      var before := First(init);
      assert uses == init + [last];
      NamesGrow(init, last);
      NamesGrow(before, last);
      if last.name in Names(init) then before
      else
        assert forall a :: 0 <= a < |before| ==> before[a] in before;
        before + [last]
  }

  method FirstUses(uses: seq<SecretUse>) returns (first: seq<SecretUse>)
    ensures first == First(uses)
  {
    first := [];
    var seen: set<string> := {};
    for i := 0 to |uses|
      invariant first == First(uses[..i]) && seen == Names(uses[..i])
    {
      assert uses[..i + 1][..i] == uses[..i] && uses[..i + 1] == uses[..i] + [uses[i]];
      NamesGrow(uses[..i], uses[i]);
      if uses[i].name !in seen {
        seen := seen + {uses[i].name};
        first := first + [uses[i]];
      }
    }
    assert uses[..|uses|] == uses;
  }

  /** What is kept of a name is its first use. */
  lemma {:induction false} FirstIsFirst(uses: seq<SecretUse>, u: SecretUse)
    requires u in First(uses)
    ensures exists i :: 0 <= i < |uses| && uses[i] == u && forall j :: 0 <= j < i ==> uses[j].name != u.name
  {
    var n := |uses| - 1;
    var init := uses[..n];
    if u in First(init) {
      FirstIsFirst(init, u);
      var i :| 0 <= i < n && init[i] == u && forall j :: 0 <= j < i ==> init[j].name != u.name;
      assert forall j :: 0 <= j < i ==> uses[j] == init[j];
    } else {
      forall j | 0 <= j < n ensures uses[j].name != u.name {
        assert init[j] in init;
      }
    }
  }

  /** What is kept is in the order of the document. */
  lemma {:induction false} FirstIsInOrder(uses: seq<SecretUse>, a: nat, b: nat)
    requires a < b < |First(uses)|
    ensures exists i, j :: 0 <= i < j < |uses| && uses[i] == First(uses)[a] && uses[j] == First(uses)[b]
  {
    var n := |uses| - 1;
    var init := uses[..n];
    if b < |First(init)| {
      FirstIsInOrder(init, a, b);
      var i, j :| 0 <= i < j < n && init[i] == First(init)[a] && init[j] == First(init)[b];
      assert uses[i] == First(uses)[a] && uses[j] == First(uses)[b];
    } else {
      assert First(init)[a] in First(init);
      FirstIsFirst(init, First(init)[a]);
      var i :| 0 <= i < n && init[i] == First(init)[a];
      assert uses[i] == First(uses)[a] && uses[n] == First(uses)[b];
    }
  }

  lemma NamesGrow(uses: seq<SecretUse>, u: SecretUse)
    ensures Names(uses + [u]) == Names(uses) + {u.name}
  {
    assert forall x :: x in uses + [u] <==> x in uses || x == u;
    assert u in uses + [u];
    assert forall x :: x in uses ==> x in uses + [u];
  }
}
