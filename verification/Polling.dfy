/**
  Change detection by polling (source/polling.go). The watch goroutine keys what it fetched, has the
  manager apply what the manager fetches for itself, and then records the key; manual reloads land
  anywhere in between, and the manager may be stopped and started again. What each of them reads, and
  whether it fails, is the environment's choice.
 */
module Polling {
  import opened Wrappers
  import opened ByteStrings
  import opened ChangeKey

  /** The bytes of a document and the values of the secrets it names; a document that the reload
      would reject names none. */
  datatype Content = Content(data: Text, secrets: map<Text, Text>)

  type Key = Content -> Bytes

  ghost predicate Faithful(key: Key) {
    forall c, d :: key(c) == key(d) ==> c == d
  }

  datatype Phase =
    | Waiting
    | Keyed(key: Bytes)     // about to call onChange
    | Applied(key: Bytes)   // onChange returned nil, lastKey not yet set

  /** A nil `lastKey` and an empty one are the same to bytes.Equal. `attempts` counts the calls of
      onChange, `baseline` says that Watch has not keyed anything yet. */
  datatype State = State(baseline: bool, phase: Phase, lastKey: Bytes, live: Option<Content>, attempts: nat)

  datatype Step =
    | KeyStep(saw: Option<Content>)        // None: the fetch or the key function failed
    | ApplyStep(applied: Option<Content>)  // None: the reload failed
    | RecordStep
    | ManualReload(applied: Option<Content>)
    | Restart(loaded: Content)             // Stop, then a Start that loads this and watches again

  predicate Enabled(s: State, step: Step) {
    match step
    case KeyStep(_) => s.phase.Waiting?
    case ApplyStep(_) => s.phase.Keyed?
    case RecordStep => s.phase.Applied?
    case ManualReload(_) => true
    case Restart(_) => s.phase.Waiting? && !s.baseline   // Stop waits for the loop to end
  }

  function Next(key: Key, s: State, step: Step): State
    requires Enabled(s, step)
  {
    match step
    case KeyStep(None) => s.(baseline := false)
    case KeyStep(Some(c)) =>
      if s.baseline || key(c) != s.lastKey then s.(baseline := false, phase := Keyed(key(c))) else s
    case ApplyStep(None) => s.(phase := Waiting, attempts := s.attempts + 1)
    case ApplyStep(Some(c)) => s.(phase := Applied(s.phase.key), live := Some(c), attempts := s.attempts + 1)
    case RecordStep => s.(phase := Waiting, lastKey := s.phase.key)
    case ManualReload(None) => s
    case ManualReload(Some(c)) => s.(live := Some(c))
    case Restart(c) => s.(baseline := true, live := Some(c))   // lastKey is kept
  }

  function Move(key: Key, s: State, step: Step): State {
    if Enabled(s, step) then Next(key, s, step) else s
  }

  /** The state after the steps of a run; a step that is not enabled does not happen. */
  function After(key: Key, s: State, steps: seq<Step>): State {
    if steps == [] then s else Move(key, After(key, s, steps[..|steps| - 1]), steps[|steps| - 1])
  }

  /** Start has made `live` current, and Watch begins; `lastKey` is nil unless the source has been
      watched before. */
  function Begin(lastKey: Bytes, live: Content): State { State(true, Waiting, lastKey, Some(live), 0) }

  // ----- lastKey says what is live -----

  /** The recorded key is nil or the key of the live content; once an apply succeeded and until its
      key is recorded, that key takes its place. */
  ghost predicate Truthful(key: Key, s: State) {
    match s.phase
    case Applied(k) => s.live.Some? && key(s.live.value) == k
    case _ => s.lastKey == [] || (s.live.Some? && key(s.live.value) == s.lastKey)
  }

  /** The apply reads content with the key its tick saw, and a manual reload or a restart content
      with the key that stands for the live content. */
  ghost predicate Steady(key: Key, s: State, step: Step) {
    match step
    case ApplyStep(Some(c)) => s.phase.Keyed? ==> key(c) == s.phase.key
    case ManualReload(Some(c)) =>
      if s.phase.Applied? then key(c) == s.phase.key else s.lastKey == [] || key(c) == s.lastKey
    case Restart(c) => Enabled(s, step) ==> s.lastKey == [] || key(c) == s.lastKey
    case _ => true
  }

  lemma StepKeepsTruthfulIff(key: Key, s: State, step: Step)
    requires Truthful(key, s) && Enabled(s, step)
    ensures Truthful(key, Next(key, s, step)) <==> Steady(key, s, step)
  {
  }

  ghost predicate SteadyRun(key: Key, s: State, steps: seq<Step>) {
    forall n :: 0 <= n < |steps| ==> Steady(key, After(key, s, steps[..n]), steps[n])
  }

  ghost predicate TruthfulThroughout(key: Key, s: State, steps: seq<Step>) {
    forall n :: 0 <= n <= |steps| ==> Truthful(key, After(key, s, steps[..n]))
  }

  lemma OneStepOn(key: Key, s: State, steps: seq<Step>, n: nat)
    requires n < |steps|
    ensures After(key, s, steps[..n + 1]) == Move(key, After(key, s, steps[..n]), steps[n])
  {
    assert steps[..n + 1][..n] == steps[..n];
  }

  /** The recorded key is truthful in every state of a run if and only if it is at the start and
      every step of the run is steady. */
  lemma TruthfulIffSteady(key: Key, start: State, steps: seq<Step>)
    ensures TruthfulThroughout(key, start, steps) <==> Truthful(key, start) && SteadyRun(key, start, steps)
  {
    assert steps[..0] == [];
    if TruthfulThroughout(key, start, steps) {
      forall n | 0 <= n < |steps| ensures Steady(key, After(key, start, steps[..n]), steps[n]) {
        OneStepOn(key, start, steps, n);
        assert Truthful(key, After(key, start, steps[..n])) && Truthful(key, After(key, start, steps[..n + 1]));
        if Enabled(After(key, start, steps[..n]), steps[n]) {
          StepKeepsTruthfulIff(key, After(key, start, steps[..n]), steps[n]);
        }
      }
    }
    if Truthful(key, start) && SteadyRun(key, start, steps) {
      forall n | 0 <= n <= |steps| ensures Truthful(key, After(key, start, steps[..n])) {
        SteadyKeepsTruthful(key, start, steps, 0, n);
      }
    }
  }

  lemma {:induction false} SteadyKeepsTruthful(key: Key, start: State, steps: seq<Step>, m: nat, n: nat)
    requires SteadyRun(key, start, steps) && m <= n <= |steps| && Truthful(key, After(key, start, steps[..m]))
    ensures Truthful(key, After(key, start, steps[..n]))
    decreases n
  {
    if m < n {
      SteadyKeepsTruthful(key, start, steps, m, n - 1);
      OneStepOn(key, start, steps, n - 1);
      if Enabled(After(key, start, steps[..n - 1]), steps[n - 1]) {
        StepKeepsTruthfulIff(key, After(key, start, steps[..n - 1]), steps[n - 1]);
      }
    }
  }

  /** Step `n` of the run is an apply that succeeds. */
  predicate AppliesAt(key: Key, start: State, steps: seq<Step>, n: nat) {
    n < |steps| && After(key, start, steps[..n]).phase.Keyed? && steps[n].ApplyStep? && steps[n].applied.Some?
  }

  /** Whatever was live and recorded at the start, a steady run in which one apply succeeded leaves
      the recorded key truthful from there on. */
  lemma SteadyApplyRestoresTruth(key: Key, start: State, steps: seq<Step>, n: nat)
    requires SteadyRun(key, start, steps) && AppliesAt(key, start, steps, n)
    ensures forall m :: n < m <= |steps| ==> Truthful(key, After(key, start, steps[..m]))
  {
    OneStepOn(key, start, steps, n);
    assert Steady(key, After(key, start, steps[..n]), steps[n]);
    forall m | n < m <= |steps| ensures Truthful(key, After(key, start, steps[..m])) {
      SteadyKeepsTruthful(key, start, steps, n + 1, m);
    }
  }

  // ----- Content that has stopped changing -----

  /** Whatever succeeds reads `c`; anything may fail. */
  predicate Quiet(c: Content, step: Step) {
    match step
    case KeyStep(saw) => saw.None? || saw.value == c
    case ApplyStep(applied) => applied.None? || applied.value == c
    case RecordStep => true
    case ManualReload(applied) => applied.None? || applied.value == c
    case Restart(loaded) => loaded == c
  }

  predicate AllQuiet(c: Content, steps: seq<Step>) {
    forall n :: 0 <= n < |steps| ==> Quiet(c, steps[n])
  }

  predicate NoRestart(steps: seq<Step>) {
    forall n :: 0 <= n < |steps| ==> !steps[n].Restart?
  }

  /** The key of `c` is not held, or about to be, while something else is live. */
  ghost predicate Aligned(key: Key, s: State, c: Content) {
    (if s.phase.Applied? then s.phase.key else s.lastKey) == key(c) ==> s.live == Some(c)
  }

  /** `c` is live and recorded. */
  ghost predicate Settled(key: Key, s: State, c: Content) {
    !s.baseline && s.phase.Waiting? && s.lastKey == key(c) && s.live == Some(c)
  }

  lemma TruthfulMeansAligned(key: Key, s: State, c: Content)
    requires Faithful(key) && Truthful(key, s) && key(c) != []
    ensures Aligned(key, s, c)
  {
  }

  lemma {:induction false} QuietKeepsAligned(key: Key, s: State, c: Content, steps: seq<Step>)
    requires Aligned(key, s, c) && AllQuiet(c, steps)
    ensures Aligned(key, After(key, s, steps), c)
  {
    if steps != [] {
      QuietKeepsAligned(key, s, c, steps[..|steps| - 1]);
    }
  }

  lemma {:induction false} QuietKeepsSettled(key: Key, s: State, c: Content, steps: seq<Step>)
    requires Settled(key, s, c) && AllQuiet(c, steps) && NoRestart(steps)
    ensures Settled(key, After(key, s, steps), c)
    ensures After(key, s, steps).attempts == s.attempts
  {
    if steps != [] {
      QuietKeepsSettled(key, s, c, steps[..|steps| - 1]);
    }
  }

  /** One tick on which the fetch, the key and the apply succeed. */
  function GoodTick(c: Content): seq<Step> { [KeyStep(Some(c)), ApplyStep(Some(c)), RecordStep] }

  lemma AfterThree(key: Key, s: State, a: Step, b: Step, c: Step)
    ensures After(key, s, [a, b, c]) == Move(key, Move(key, Move(key, s, a), b), c)
  {
    assert [a, b, c][..2] == [a, b] && [a, b][..1] == [a] && [a][..0] == [];
    assert After(key, s, [a]) == Move(key, s, a);
  }

  /** A good tick settles on `c` if and only if the watcher is at its baseline, or does not hold the
      key of `c` over other content. */
  lemma GoodTickSettlesIff(key: Key, s: State, c: Content)
    requires s.phase.Waiting?
    ensures Settled(key, After(key, s, GoodTick(c)), c) <==> s.baseline || Aligned(key, s, c)
  {
    AfterThree(key, s, KeyStep(Some(c)), ApplyStep(Some(c)), RecordStep);
  }

  lemma {:induction false} AfterSplit(key: Key, s: State, xs: seq<Step>, ys: seq<Step>)
    ensures After(key, s, xs + ys) == After(key, After(key, s, xs), ys)
  {
    if ys == [] {
      assert xs + ys == xs;
    } else {
      var n := |ys| - 1;
      assert (xs + ys)[..|xs| + n] == xs + ys[..n];
      AfterSplit(key, s, xs, ys[..n]);
    }
  }

  /** Poll convergence: from any start, after a steady history that began truthful or in which an
      apply succeeded, and any number of failures and restarts once the content has stopped changing
      at `c`, one good tick makes `c` live, and until the next restart no later tick calls onChange. */
  lemma Convergence(key: Key, start: State, history: seq<Step>, c: Content, failures: seq<Step>, rest: seq<Step>)
    requires Faithful(key) && key(c) != [] && SteadyRun(key, start, history)
    requires Truthful(key, start) || exists n :: AppliesAt(key, start, history, n)
    requires AllQuiet(c, failures) && AllQuiet(c, rest) && NoRestart(rest)
    requires After(key, start, history + failures).phase.Waiting?
    ensures var good := After(key, start, history + failures + GoodTick(c));
      var end := After(key, start, history + failures + GoodTick(c) + rest);
      Settled(key, good, c) && Settled(key, end, c) && end.attempts == good.attempts
  {
    var h := After(key, start, history);
    assert Truthful(key, h) by {
      assert history[..|history|] == history;
      if Truthful(key, start) {
        TruthfulIffSteady(key, start, history);
      } else {
        var n :| AppliesAt(key, start, history, n);
        SteadyApplyRestoresTruth(key, start, history, n);
      }
    }
    TruthfulMeansAligned(key, h, c);
    AfterSplit(key, start, history, failures);
    QuietKeepsAligned(key, h, c, failures);
    AfterSplit(key, start, history + failures, GoodTick(c));
    GoodTickSettlesIff(key, After(key, start, history + failures), c);
    AfterSplit(key, start, history + failures + GoodTick(c), rest);
    QuietKeepsSettled(key, After(key, start, history + failures + GoodTick(c)), c, rest);
  }

  // ----- Retry after a failed apply -----

  /** No apply succeeds, and nothing restarts the watch. */
  predicate Unapplied(steps: seq<Step>) {
    forall n :: 0 <= n < |steps| ==> !steps[n].Restart? && (steps[n].ApplyStep? ==> steps[n].applied.None?)
  }

  lemma {:induction false} UnappliedKeepsKey(key: Key, s: State, steps: seq<Step>)
    requires Unapplied(steps) && !s.baseline && !s.phase.Applied?
    ensures var t := After(key, s, steps); !t.baseline && !t.phase.Applied? && t.lastKey == s.lastKey
  {
    if steps != [] {
      UnappliedKeepsKey(key, s, steps[..|steps| - 1]);
    }
  }

  /** Content that was keyed and failed to apply is offered again by every later tick that sees it,
      for as long as nothing applies, if and only if its key differs from the recorded one: from nil
      in the first watch, from what an earlier watch recorded after a restart. */
  lemma OfferedAgainIff(key: Key, s: State, c: Content, fails: seq<Step>)
    requires s.phase.Waiting? && (s.baseline || key(c) != s.lastKey) && Unapplied(fails)
    requires After(key, s, [KeyStep(Some(c)), ApplyStep(None)] + fails).phase.Waiting?
    ensures After(key, s, [KeyStep(Some(c)), ApplyStep(None)] + fails + [KeyStep(Some(c))]).phase.Keyed? <==>
      key(c) != s.lastKey
  {
    var failed := [KeyStep(Some(c)), ApplyStep(None)];
    assert failed[..1] == [KeyStep(Some(c))] && failed[..1][..0] == [];
    assert After(key, s, failed[..1]) == s.(baseline := false, phase := Keyed(key(c)));
    var t := After(key, s, failed);
    assert !t.baseline && t.phase.Waiting? && t.lastKey == s.lastKey;
    AfterSplit(key, s, failed, fails);
    UnappliedKeepsKey(key, t, fails);
    assert (failed + fails + [KeyStep(Some(c))])[..|failed + fails|] == failed + fails;
  }

  // ----- What strands a watcher -----

  ghost predicate OnlyTicks(steps: seq<Step>) {
    forall n :: 0 <= n < |steps| ==> !steps[n].ManualReload? && !steps[n].Restart?
  }

  /** A watcher that holds the key of `c` over other content never applies `c` by itself, however
      often it polls. */
  lemma {:induction false} StrandedForever(key: Key, s: State, c: Content, steps: seq<Step>)
    requires !s.baseline && s.phase.Waiting? && !Aligned(key, s, c)
    requires AllQuiet(c, steps) && OnlyTicks(steps)
    ensures After(key, s, steps) == s
  {
    if steps != [] {
      StrandedForever(key, s, c, steps[..|steps| - 1]);
    }
  }

  /** The document goes from `a` to `b` between the key and the apply, and back: `b` stays live
      while every poll finds `a` and takes it for applied. */
  lemma ThereAndBackStrands(key: Key, a: Content, b: Content, polls: seq<Step>)
    requires a != b && AllQuiet(a, polls) && OnlyTicks(polls)
    ensures var s := After(key, Begin([], a), [KeyStep(Some(a)), ApplyStep(Some(b)), RecordStep] + polls);
      s.live == Some(b) && s.lastKey == key(a) && s.attempts == 1
  {
    var around := [KeyStep(Some(a)), ApplyStep(Some(b)), RecordStep];
    AfterThree(key, Begin([], a), around[0], around[1], around[2]);
    AfterSplit(key, Begin([], a), around, polls);
    StrandedForever(key, After(key, Begin([], a), around), a, polls);
  }

  /** A manual reload strands the watcher in the same way. */
  lemma ManualReloadStrands(key: Key, a: Content, b: Content, polls: seq<Step>)
    requires a != b && AllQuiet(a, polls) && OnlyTicks(polls)
    ensures var s := After(key, Begin([], a), GoodTick(a) + [ManualReload(Some(b))] + polls);
      s.live == Some(b) && s.lastKey == key(a) && s.attempts == 1
  {
    AfterThree(key, Begin([], a), KeyStep(Some(a)), ApplyStep(Some(a)), RecordStep);
    AfterSplit(key, Begin([], a), GoodTick(a), [ManualReload(Some(b))]);
    var s := After(key, Begin([], a), GoodTick(a));
    assert [ManualReload(Some(b))][..0] == [];
    assert After(key, s, [ManualReload(Some(b))]) == s.(live := Some(b));
    AfterSplit(key, Begin([], a), GoodTick(a) + [ManualReload(Some(b))], polls);
    StrandedForever(key, s.(live := Some(b)), a, polls);
  }

  /** Content whose key is empty is not offered again after its first apply failed, because a nil
      lastKey looks like it. */
  lemma EmptyKeyIsNotRetried(key: Key, live: Content, c: Content, polls: seq<Step>)
    requires key(c) == [] && live != c && AllQuiet(c, polls) && OnlyTicks(polls)
    ensures var s := After(key, Begin([], live), [KeyStep(Some(c)), ApplyStep(None), RecordStep] + polls);
      s.live == Some(live) && s.attempts == 1
  {
    var failed := [KeyStep(Some(c)), ApplyStep(None), RecordStep];
    AfterThree(key, Begin([], live), failed[0], failed[1], failed[2]);
    AfterSplit(key, Begin([], live), failed, polls);
    StrandedForever(key, After(key, Begin([], live), failed), c, polls);
  }

  /** Whatever the key: `a` was applied and recorded, the manager was stopped and started on `b`, and
      the document is `a` again. If the apply of the new baseline fails, `a` is never offered again,
      because lastKey still has its key from the earlier watch. */
  lemma RestartStrands(key: Key, a: Content, b: Content, polls: seq<Step>)
    requires a != b && AllQuiet(a, polls) && OnlyTicks(polls)
    ensures var s := After(key, Begin([], a), GoodTick(a) + [Restart(b), KeyStep(Some(a)), ApplyStep(None)] + polls);
      s.live == Some(b) && s.lastKey == key(a) && s.attempts == 2
  {
    var begun := Begin([], a);
    var again := [Restart(b), KeyStep(Some(a)), ApplyStep(None)];
    AfterThree(key, begun, KeyStep(Some(a)), ApplyStep(Some(a)), RecordStep);
    AfterSplit(key, begun, GoodTick(a), again);
    AfterThree(key, After(key, begun, GoodTick(a)), again[0], again[1], again[2]);
    AfterSplit(key, begun, GoodTick(a) + again, polls);
    StrandedForever(key, After(key, begun, GoodTick(a) + again), a, polls);
  }

  // ----- The two keys -----

  /** The key a Manager installs, before hashing. */
  ghost function SecretChangeKey(): Key {
    (c: Content) => Stream(c.data, c.secrets)
  }

  /** Without a change key, Watch compares the bytes. */
  function BareKey(): Key { (c: Content) => c.data[..] }

  /** The key a Manager installs tells all contents apart and never looks like a nil lastKey; the bare
      bytes miss a rotated secret, and are empty for an empty document. */
  lemma TheTwoKeys(c: Content, d: Content)
    ensures Faithful(SecretChangeKey()) && SecretChangeKey()(c) != []
    ensures BareKey()(c) == BareKey()(d) <==> c.data == d.data
    ensures BareKey()(c) == [] <==> c.data == []
  {
    forall x, y | SecretChangeKey()(x) == SecretChangeKey()(y) ensures x == y {
      StreamIsFaithful(x.data, x.secrets, y.data, y.secrets);
    }
  }

  // ----- The source object -----

  /** What one round of the loop meets: what the fetch returned, whether the key function could
      resolve the secrets, what onChange, if called, made live; and what manual reloads made live
      before the key is taken, before the apply, and before the key is recorded. */
  datatype Tick = Tick(fetched: Option<Content>, keyable: bool, applied: Option<Content>,
                       before: Option<Content>, between: Option<Content>, after: Option<Content>)

  function Observed(changeKey: Option<Key>, tick: Tick): Option<Content> {
    if changeKey.Some? && !tick.keyable then None else tick.fetched
  }

  function TickSteps(changeKey: Option<Key>, tick: Tick): seq<Step> {
    Keying(changeKey, tick) + Applying(tick)
  }

  function Keying(changeKey: Option<Key>, tick: Tick): seq<Step> {
    [ManualReload(tick.before), KeyStep(Observed(changeKey, tick)), ManualReload(tick.between)]
  }

  function Applying(tick: Tick): seq<Step> { [ApplyStep(tick.applied), ManualReload(tick.after), RecordStep] }

  function StepsOf(changeKey: Option<Key>, ticks: seq<Tick>): seq<Step> {
    if ticks == [] then []
    else StepsOf(changeKey, ticks[..|ticks| - 1]) + TickSteps(changeKey, ticks[|ticks| - 1])
  }

  function KeyInUse(changeKey: Option<Key>): Key {
    if changeKey.Some? then changeKey.value else BareKey()
  }

  /** What is live once a reload that may have failed has run. */
  function Later(live: Content, applied: Option<Content>): Content {
    if applied.Some? then applied.value else live
  }

  function LiveAfter(live: Content, tick: Tick, applies: bool): Content {
    Later(Later(Later(Later(live, tick.before), tick.between), if applies then tick.applied else None), tick.after)
  }

  lemma AfterKeying(changeKey: Option<Key>, s: State, tick: Tick)
    requires s.phase.Waiting? && s.live.Some?
    ensures var key := KeyInUse(changeKey);
      var saw := Observed(changeKey, tick);
      After(key, s, Keying(changeKey, tick)) ==
        State(false,
              if saw.Some? && (s.baseline || key(saw.value) != s.lastKey) then Keyed(key(saw.value)) else Waiting,
              s.lastKey, Some(Later(Later(s.live.value, tick.before), tick.between)), s.attempts)
  {
    var steps := Keying(changeKey, tick);
    AfterThree(KeyInUse(changeKey), s, steps[0], steps[1], steps[2]);
  }

  lemma AfterApplying(key: Key, s: State, tick: Tick)
    requires !s.phase.Applied? && s.live.Some?
    ensures After(key, s, Applying(tick)) ==
      if s.phase.Waiting? then s.(live := Some(Later(s.live.value, tick.after)))
      else State(s.baseline, Waiting, if tick.applied.Some? then s.phase.key else s.lastKey,
                 Some(Later(Later(s.live.value, tick.applied), tick.after)), s.attempts + 1)
  {
    var steps := Applying(tick);
    AfterThree(key, s, steps[0], steps[1], steps[2]);
  }

  /** What one more tick does to a waiting watcher. */
  lemma AfterTick(changeKey: Option<Key>, s: State, ticks: seq<Tick>, n: nat)
    requires n < |ticks|
    requires var was := After(KeyInUse(changeKey), s, StepsOf(changeKey, ticks[..n]));
      was.phase.Waiting? && was.live.Some?
    ensures var key := KeyInUse(changeKey);
      var was := After(key, s, StepsOf(changeKey, ticks[..n]));
      var saw := Observed(changeKey, ticks[n]);
      var offered := saw.Some? && (was.baseline || key(saw.value) != was.lastKey);
      After(key, s, StepsOf(changeKey, ticks[..n + 1])) ==
        State(false, Waiting,
              if offered && ticks[n].applied.Some? then key(saw.value) else was.lastKey,
              Some(LiveAfter(was.live.value, ticks[n], offered)),
              was.attempts + if offered then 1 else 0)
  {
    var key := KeyInUse(changeKey);
    var tick := ticks[n];
    var was := After(key, s, StepsOf(changeKey, ticks[..n]));
    assert ticks[..n + 1][..n] == ticks[..n];
    AfterSplit(key, s, StepsOf(changeKey, ticks[..n]), TickSteps(changeKey, tick));
    AfterSplit(key, was, Keying(changeKey, tick), Applying(tick));
    AfterKeying(changeKey, was, tick);
    AfterApplying(key, After(key, was, Keying(changeKey, tick)), tick);
    hide After, Next;
  }

  /** No manual reload lands in this round. */
  predicate Undisturbed(tick: Tick) { tick.before.None? && tick.between.None? && tick.after.None? }

  /** A rotated secret is noticed: with the key that a Manager installs, a round that applied `c` or
      found it applied, and then one that finds the same bytes with other secrets, calls onChange once
      more; if it finds the same secrets too, it does not. */
  lemma RotationIsNoticed(s: State, ticks: seq<Tick>, n: nat, c: Content, d: Content)
    requires n + 1 < |ticks| && s.live.Some? && Undisturbed(ticks[n]) && Undisturbed(ticks[n + 1])
    requires ticks[n].keyable && ticks[n].fetched == Some(c) && ticks[n].applied == Some(c)
    requires ticks[n + 1].keyable && ticks[n + 1].fetched == Some(d) && d.data == c.data
    requires var t := After(SecretChangeKey(), s, StepsOf(Some(SecretChangeKey()), ticks[..n]));
      t.phase.Waiting? && t.live.Some?
    ensures var t := After(SecretChangeKey(), s, StepsOf(Some(SecretChangeKey()), ticks[..n + 1]));
      var u := After(SecretChangeKey(), s, StepsOf(Some(SecretChangeKey()), ticks[..n + 2]));
      u.attempts == t.attempts + if d.secrets == c.secrets then 0 else 1
  {
    hide After, StepsOf;
    AfterTick(Some(SecretChangeKey()), s, ticks, n);
    AfterTick(Some(SecretChangeKey()), s, ticks, n + 1);
    StreamIsFaithful(c.data, c.secrets, d.data, d.secrets);
  }

  /** The bare bytes do not notice it. */
  lemma BareBytesMissRotation(s: State, ticks: seq<Tick>, n: nat, c: Content, d: Content)
    requires n + 1 < |ticks| && s.live.Some? && Undisturbed(ticks[n]) && Undisturbed(ticks[n + 1])
    requires ticks[n].fetched == Some(c) && ticks[n].applied == Some(c)
    requires ticks[n + 1].fetched == Some(d) && d.data == c.data
    requires var t := After(BareKey(), s, StepsOf(None, ticks[..n])); t.phase.Waiting? && t.live.Some?
    ensures After(BareKey(), s, StepsOf(None, ticks[..n + 2])).attempts ==
      After(BareKey(), s, StepsOf(None, ticks[..n + 1])).attempts
  {
    hide After, StepsOf;
    AfterTick(None, s, ticks, n);
    AfterTick(None, s, ticks, n + 1);
  }

  class PollingSource {
    var changeKey: Option<Key>
    var lastKey: Bytes

    constructor ()
      ensures changeKey == None && lastKey == []
    {
      changeKey, lastKey := None, [];
    }

    method SetChangeKey(key: Key)
      modifies this`changeKey
      ensures changeKey == Some(key)
    {
      changeKey := Some(key);
    }

    /** fetchKey: None stands for an error. */
    method FetchKey(fetched: Option<Content>, keyable: bool) returns (key: Option<Bytes>)
      ensures key.Some? <==> fetched.Some? && (changeKey.None? || keyable)
      ensures key.Some? ==> key.value == KeyInUse(changeKey)(fetched.value)
      ensures key.Some? && changeKey.Some? ==> key.value == changeKey.value(fetched.value)
      ensures key.Some? && changeKey.None? ==> key.value == fetched.value.data
    {
      if fetched.None? || changeKey.None? {
        return match fetched case None => None case Some(c) => Some(c.data);
      }
      key := if keyable then Some(changeKey.value(fetched.value)) else None;
    }

    /** Watch, until its context ends: the baseline is the first of `ticks`. */
    method Watch(live: Content, ticks: seq<Tick>) returns (nowLive: Content, attempts: nat)
      requires ticks != []
      modifies this`lastKey
      ensures var key := if changeKey.Some? then changeKey.value else BareKey();
        After(key, Begin(old(lastKey), live), StepsOf(changeKey, ticks)) ==
          State(false, Waiting, lastKey, Some(nowLive), attempts)
    {
      hide After, StepsOf;
      nowLive, attempts := live, 0;
      ghost var start := Begin(lastKey, live);
      NothingYet(changeKey, start, ticks);
      AfterTick(changeKey, start, ticks, 0);
      var key := FetchKey(ticks[0].fetched, ticks[0].keyable);
      if key.Some? {
        attempts := attempts + 1;
        if ticks[0].applied.Some? {
          lastKey := key.value;
        }
      }
      nowLive := LiveAfter(nowLive, ticks[0], key.Some?);
      for i := 1 to |ticks|
        invariant After(KeyInUse(changeKey), start, StepsOf(changeKey, ticks[..i])) ==
          State(false, Waiting, lastKey, Some(nowLive), attempts)
      {
        AfterTick(changeKey, start, ticks, i);
        key := FetchKey(ticks[i].fetched, ticks[i].keyable);
        nowLive := LiveAfter(nowLive, ticks[i], key.Some? && key.value != lastKey);
        if key.None? {
          continue;
        }
        if key.value != lastKey {
          attempts := attempts + 1;
          if ticks[i].applied.None? {
            continue;
          }
          lastKey := key.value;
        }
      }
      assert ticks[..|ticks|] == ticks;
    }
  }

  lemma NothingYet(changeKey: Option<Key>, s: State, ticks: seq<Tick>)
    ensures After(KeyInUse(changeKey), s, StepsOf(changeKey, ticks[..0])) == s
  {
  }
}
