/** The type-directed check that every reference lands on a Secret (secretref.go). */
module Acceptance {
  import opened Wrappers
  import opened Document
  import opened Fields

  // ----- secretFieldReason -----

  datatype Reason = Accepted | NoTarget | NotSecret | ListForMapping | MappingForList | NoField | CannotHold

  /** Whether `path`, followed through `t`, ends on a Secret; terminates on recursive types because
      each step uses up a segment. */
  function FieldReason(types: Types, t: TypeId, path: seq<PathSeg>): (r: Reason)
    ensures r != NoTarget
    decreases |path|
  {
    var d := Deref(types, t);
    if types.def(d) == SecretType && path == [] then Accepted
    else if path == [] then NotSecret
    else
      match types.def(d)
      case Struct(_) =>
        if path[0].Index? then ListForMapping
        else
          (match FirstMatch(types, Flatten(types, d), path[0].key)
           case None => NoField
           case Some(f) => FieldReason(types, f, path[1..]))
      case SecretType => if path[0].Index? then ListForMapping else NoField
      case MapOf(elem) => if path[0].Index? then ListForMapping else FieldReason(types, elem, path[1..])
      case ListOf(elem) => if path[0].Key? then MappingForList else FieldReason(types, elem, path[1..])
      case _ => CannotHold
  }

  // ----- What acceptance means, without the code -----

  /** Decoding the value under `seg` goes from type `t` into type `u`. */
  ghost predicate Enters(types: Types, t: TypeId, seg: PathSeg, u: TypeId) {
    exists d :: PointsTo(types, t, d) && EntersFrom(types, d, seg, u)
  }

  ghost predicate EntersFrom(types: Types, d: TypeId, seg: PathSeg, u: TypeId) {
    match types.def(d)
    case Struct(_) => seg.Key? && KeyField(types, d, seg.key, u)
    case MapOf(elem) => seg.Key? && u == elem
    case ListOf(elem) => seg.Index? && u == elem
    case _ => false
  }

  lemma EntersIff(types: Types, t: TypeId, seg: PathSeg, u: TypeId)
    ensures Enters(types, t, seg, u) <==> EntersFrom(types, Deref(types, t), seg, u)
  {
    PointsToIsDeref(types, t, Deref(types, t));
    forall d ensures PointsTo(types, t, d) <==> d == Deref(types, t) {
      PointsToIsDeref(types, t, d);
    }
  }

  /** The types a decoder passes through along `path`, the last of them a Secret. */
  ghost predicate Trace(types: Types, t: TypeId, path: seq<PathSeg>, trace: seq<TypeId>) {
    && |trace| == |path| + 1
    && trace[0] == t
    && (forall k :: 0 <= k < |path| ==> Enters(types, trace[k], path[k], trace[k + 1]))
    && exists d :: PointsTo(types, trace[|path|], d) && types.def(d) == SecretType
  }

  ghost predicate EndsOnSecret(types: Types, t: TypeId, path: seq<PathSeg>) {
    exists trace :: Trace(types, t, path, trace)
  }

  lemma EndsAfterStep(types: Types, t: TypeId, path: seq<PathSeg>, u: TypeId)
    requires path != [] && Enters(types, t, path[0], u) && EndsOnSecret(types, u, path[1..])
    ensures EndsOnSecret(types, t, path)
  {
    var rest :| Trace(types, u, path[1..], rest);
    var trace := [t] + rest;
    forall k | 0 <= k < |path| ensures Enters(types, trace[k], path[k], trace[k + 1]) {
      if k > 0 {
        assert Enters(types, rest[k - 1], path[1..][k - 1], rest[k]);
      }
    }
    assert Trace(types, t, path, trace);
  }

  lemma EndsBeforeStep(types: Types, t: TypeId, path: seq<PathSeg>) returns (u: TypeId)
    requires path != [] && EndsOnSecret(types, t, path)
    ensures Enters(types, t, path[0], u) && EndsOnSecret(types, u, path[1..])
  {
    var trace :| Trace(types, t, path, trace);
    u := trace[1];
    assert Trace(types, u, path[1..], trace[1..]);
  }

  /** Why a path stops at the type `d`, with `rest` still to go. */
  ghost predicate Stops(types: Types, d: TypeId, rest: seq<PathSeg>, reason: Reason) {
    var def := types.def(d);
    match reason
    case Accepted => rest == [] && def.SecretType?
    case NotSecret => rest == [] && !def.SecretType?
    case ListForMapping => rest != [] && rest[0].Index? && (def.Struct? || def.SecretType? || def.MapOf?)
    case MappingForList => rest != [] && rest[0].Key? && def.ListOf?
    case NoField =>
      && rest != [] && rest[0].Key?
      && (def.SecretType? || (def.Struct? && forall u :: !KeyField(types, d, rest[0].key, u)))
    case CannotHold => rest != [] && def.Other?
    case NoTarget => false
  }

  /** One step of a path: into the next type, with the same reason; or the reason is why it stops. */
  lemma ReasonStep(types: Types, t: TypeId, path: seq<PathSeg>) returns (next: Option<TypeId>)
    requires path != []
    ensures next.Some? ==>
      Enters(types, t, path[0], next.value) && FieldReason(types, t, path) == FieldReason(types, next.value, path[1..])
    ensures next.None? ==> Stops(types, Deref(types, t), path, FieldReason(types, t, path))
  {
    var d := Deref(types, t);
    next := match types.def(d)
      case Struct(_) => if path[0].Key? then FirstMatch(types, Flatten(types, d), path[0].key) else None
      case MapOf(elem) => if path[0].Key? then Some(elem) else None
      case ListOf(elem) => if path[0].Index? then Some(elem) else None
      case _ => None;
    if types.def(d).Struct? && path[0].Key? {
      forall u: TypeId
        ensures FirstMatch(types, Flatten(types, d), path[0].key) == Some(u) <==> KeyField(types, d, path[0].key, u)
      {
        FirstMatchIsField(types, d, path[0].key, u);
      }
    }
    hide KeyField, PointsTo;
    if next.Some? {
      EntersIff(types, t, path[0], next.value);
    }
  }

  /** The reason is "accepted" exactly when the path ends on a Secret. */
  lemma {:induction false} ReasonIsExact(types: Types, t: TypeId, path: seq<PathSeg>)
    ensures FieldReason(types, t, path) == Accepted <==> EndsOnSecret(types, t, path)
    decreases |path|
  {
    if path == [] {
      PointsToIsDeref(types, t, Deref(types, t));
      if FieldReason(types, t, path) == Accepted {
        assert Trace(types, t, path, [t]);
      }
      if EndsOnSecret(types, t, path) {
        var trace :| Trace(types, t, path, trace);
        var d :| PointsTo(types, trace[0], d) && types.def(d) == SecretType;
        PointsToIsDeref(types, t, d);
      }
    } else {
      if FieldReason(types, t, path) == Accepted {
        var next := ReasonStep(types, t, path);
        ReasonIsExact(types, next.value, path[1..]);
        EndsAfterStep(types, t, path, next.value);
      }
      if EndsOnSecret(types, t, path) {
        var u := EndsBeforeStep(types, t, path);
        ReasonIsExact(types, u, path[1..]);
        EntersIff(types, t, path[0], u);
        if types.def(Deref(types, t)).Struct? {
          FirstMatchIsField(types, Deref(types, t), path[0].key, u);
        }
      }
    }
  }

  /** The types entered along the first steps of `path`, up to `d`. */
  ghost predicate Partway(types: Types, t: TypeId, path: seq<PathSeg>, trace: seq<TypeId>, d: TypeId) {
    && 0 < |trace| <= |path| + 1 && trace[0] == t && PointsTo(types, trace[|trace| - 1], d)
    && forall k :: 0 <= k < |trace| - 1 ==> Enters(types, trace[k], path[k], trace[k + 1])
  }

  lemma PartwayAfterStep(types: Types, t: TypeId, path: seq<PathSeg>, u: TypeId, rest: seq<TypeId>, d: TypeId)
    requires path != [] && Enters(types, t, path[0], u) && Partway(types, u, path[1..], rest, d)
    ensures Partway(types, t, path, [t] + rest, d)
  {
    hide Enters, PointsTo;
    var trace := [t] + rest;
    forall k | 0 <= k < |trace| - 1 ensures Enters(types, trace[k], path[k], trace[k + 1]) {
      if k > 0 {
        assert Enters(types, rest[k - 1], path[1..][k - 1], rest[k]);
      }
    }
  }

  /** The reason given is why the path stops where it does. */
  lemma {:induction false} ReasonIsWhereItStops(types: Types, t: TypeId, path: seq<PathSeg>)
    returns (trace: seq<TypeId>, d: TypeId)
    ensures Partway(types, t, path, trace, d)
    ensures Stops(types, d, path[|trace| - 1..], FieldReason(types, t, path))
    decreases |path|
  {
    trace, d := [t], Deref(types, t);
    PointsToIsDeref(types, t, d);
    if path != [] {
      var next := ReasonStep(types, t, path);
      hide FieldReason, Stops, PointsTo, Enters;
      if next.Some? {
        var rest, end := ReasonIsWhereItStops(types, next.value, path[1..]);
        PartwayAfterStep(types, t, path, next.value, rest, end);
        trace, d := [t] + rest, end;
        assert path[1..][|rest| - 1..] == path[|trace| - 1..];
      }
    }
  }

  // ----- covers and violations -----

  datatype Target = Target(path: seq<string>, typ: TypeId)

  ghost predicate CoversPath(types: Types, target: Target, path: seq<PathSeg>) {
    && |target.path| <= |path|
    && forall i :: 0 <= i < |target.path| ==> path[i].Key? && EqualFold(types, path[i].key, target.path[i])
  }

  /** covers: the rest of the path inside the target's type. */
  method Covers(types: Types, target: Target, path: seq<PathSeg>) returns (rest: Option<seq<PathSeg>>)
    ensures rest == if CoversPath(types, target, path) then Some(path[|target.path|..]) else None
    ensures rest.Some? <==>
      && |target.path| <= |path|
      && forall i :: 0 <= i < |target.path| ==>
           path[i].Key? && types.fold(path[i].key) == types.fold(target.path[i])
  {
    if |target.path| > |path| {
      return None;
    }
    for i := 0 to |target.path|
      invariant forall j :: 0 <= j < i ==> path[j].Key? && EqualFold(types, path[j].key, target.path[j])
    {
      if path[i].Index? || !EqualFold(types, path[i].key, target.path[i]) {
        return None;
      }
    }
    rest := Some(path[|target.path|..]);
  }

  ghost predicate Acceptable(types: Types, targets: seq<Target>, path: seq<PathSeg>) {
    && (exists k :: 0 <= k < |targets| && CoversPath(types, targets[k], path))
    && forall k :: 0 <= k < |targets| && CoversPath(types, targets[k], path) ==>
         EndsOnSecret(types, targets[k].typ, path[|targets[k].path|..])
  }

  /** The same steps, but for the case of keys. */
  ghost predicate SameButCase(types: Types, p: seq<PathSeg>, q: seq<PathSeg>) {
    |p| == |q| && forall i :: 0 <= i < |p| ==>
      p[i] == q[i] || (p[i].Key? && q[i].Key? && types.fold(p[i].key) == types.fold(q[i].key))
  }

  lemma {:induction false} MatchIgnoresCase(types: Types, list: seq<Named>, a: string, b: string)
    requires types.fold(a) == types.fold(b)
    ensures FirstMatch(types, list, a) == FirstMatch(types, list, b)
  {
    if list != [] {
      MatchIgnoresCase(types, list[1..], a, b);
    }
  }

  lemma {:induction false} ReasonIgnoresCase(types: Types, t: TypeId, p: seq<PathSeg>, q: seq<PathSeg>)
    requires SameButCase(types, p, q)
    ensures FieldReason(types, t, p) == FieldReason(types, t, q)
    decreases |p|
  {
    if p != [] {
      var d := Deref(types, t);
      if types.def(d).Struct? && p[0].Key? {
        MatchIgnoresCase(types, Flatten(types, d), p[0].key, q[0].key);
      }
      forall u ensures FieldReason(types, u, p[1..]) == FieldReason(types, u, q[1..]) {
        ReasonIgnoresCase(types, u, p[1..], q[1..]);
      }
    }
  }

  /** Whether a use is accepted does not depend on the case of the keys on its path. */
  lemma CaseDoesNotMatter(types: Types, targets: seq<Target>, p: seq<PathSeg>, q: seq<PathSeg>)
    requires SameButCase(types, p, q)
    ensures Acceptable(types, targets, p) <==> Acceptable(types, targets, q)
  {
    forall k | 0 <= k < |targets|
      ensures CoversPath(types, targets[k], p) <==> CoversPath(types, targets[k], q)
      ensures CoversPath(types, targets[k], p) ==>
        (EndsOnSecret(types, targets[k].typ, p[|targets[k].path|..]) <==>
         EndsOnSecret(types, targets[k].typ, q[|targets[k].path|..]))
    {
      if CoversPath(types, targets[k], p) {
        var n := |targets[k].path|;
        ReasonIgnoresCase(types, targets[k].typ, p[n..], q[n..]);
        ReasonIsExact(types, targets[k].typ, p[n..]);
        ReasonIsExact(types, targets[k].typ, q[n..]);
      }
    }
    hide EndsOnSecret, CoversPath, SameButCase;
  }

  /** Why a use is refused: no target reads it, or the first target that does refuses it. */
  ghost predicate Blames(types: Types, targets: seq<Target>, path: seq<PathSeg>, reason: Reason) {
    if forall k :: 0 <= k < |targets| ==> !CoversPath(types, targets[k], path) then reason == NoTarget
    else
      exists k :: 0 <= k < |targets| && CoversPath(types, targets[k], path)
        && reason == FieldReason(types, targets[k].typ, path[|targets[k].path|..])
        && forall j :: 0 <= j < k && CoversPath(types, targets[j], path) ==>
             FieldReason(types, targets[j].typ, path[|targets[j].path|..]) == Accepted
  }

  /** The inner loop over the targets. */
  method Judge(types: Types, targets: seq<Target>, path: seq<PathSeg>) returns (reason: Reason)
    ensures reason == Accepted <==> Acceptable(types, targets, path)
    ensures Blames(types, targets, path, reason)
  {
    hide FieldReason, EndsOnSecret;
    reason := NoTarget;
    ghost var last := 0;
    for i := 0 to |targets|
      invariant reason == NoTarget || reason == Accepted
      invariant reason == NoTarget <==> forall k :: 0 <= k < i ==> !CoversPath(types, targets[k], path)
      invariant forall k :: 0 <= k < i && CoversPath(types, targets[k], path) ==>
        FieldReason(types, targets[k].typ, path[|targets[k].path|..]) == Accepted
      invariant reason == Accepted ==> last < i && CoversPath(types, targets[last], path)
    {
      var rest := Covers(types, targets[i], path);
      if rest.None? {
        continue;
      }
      reason := FieldReason(types, targets[i].typ, rest.value);
      ReasonIsExact(types, targets[i].typ, rest.value);
      last := i;
      if reason != Accepted {
        return;
      }
    }
    forall k | 0 <= k < |targets| && CoversPath(types, targets[k], path)
      ensures EndsOnSecret(types, targets[k].typ, path[|targets[k].path|..])
    {
      ReasonIsExact(types, targets[k].typ, path[|targets[k].path|..]);
    }
  }

  datatype SecretRefError = SecretRefError(path: seq<PathSeg>, name: string, reason: Reason)

  /** The uses that are not acceptable, in order. */
  ghost function RefusedUses(types: Types, targets: seq<Target>, uses: seq<SecretUse>): seq<SecretUse> {
    if uses == [] then []
    else
      var init, last := uses[..|uses| - 1], uses[|uses| - 1];
      RefusedUses(types, targets, init) + (if Acceptable(types, targets, last.path) then [] else [last])
  }

  /** The refused uses are those that are not acceptable, in the order of the document. */
  lemma {:induction false} RefusedAreThose(types: Types, targets: seq<Target>, uses: seq<SecretUse>)
    returns (at: seq<nat>)
    ensures var bad := RefusedUses(types, targets, uses);
      |at| == |bad| && forall k :: 0 <= k < |at| ==> at[k] < |uses| && bad[k] == uses[at[k]]
    ensures forall a, b :: 0 <= a < b < |at| ==> at[a] < at[b]
    ensures forall i :: 0 <= i < |uses| ==> (i in at <==> !Acceptable(types, targets, uses[i].path))
  {
    hide Acceptable;
    at := [];
    if uses != [] {
      var n := |uses| - 1;
      at := RefusedAreThose(types, targets, uses[..n]);
      assert forall i :: 0 <= i < n ==> uses[..n][i] == uses[i];
      if !Acceptable(types, targets, uses[n].path) {
        at := at + [n];
      }
    }
  }

  /** One error per refused use, in document order, each blaming what refuses it. */
  method Violations(types: Types, uses: seq<SecretUse>, targets: seq<Target>) returns (out: seq<SecretRefError>)
    ensures var bad := RefusedUses(types, targets, uses);
      |out| == |bad| && forall i :: 0 <= i < |out| ==>
        out[i].path == bad[i].path && out[i].name == bad[i].name
        && out[i].reason != Accepted && Blames(types, targets, bad[i].path, out[i].reason)
  {
    out := [];
    for i := 0 to |uses|
      invariant |out| == |RefusedUses(types, targets, uses[..i])|
      invariant forall k :: 0 <= k < |out| ==>
        && out[k].path == RefusedUses(types, targets, uses[..i])[k].path
        && out[k].name == RefusedUses(types, targets, uses[..i])[k].name
        && out[k].reason != Accepted && Blames(types, targets, out[k].path, out[k].reason)
    {
      assert uses[..i + 1][..i] == uses[..i];
      var reason := Judge(types, targets, uses[i].path);
      if reason != Accepted {
        out := out + [SecretRefError(uses[i].path, uses[i].name, reason)];
      }
    }
    assert uses[..|uses|] == uses;
  }

  /** A document is accepted exactly when every use is read by some target, and ends on a Secret in
      every target that reads it. */
  lemma {:induction false} NoneRefusedIffAllAcceptable(types: Types, targets: seq<Target>, uses: seq<SecretUse>)
    ensures RefusedUses(types, targets, uses) == [] <==> forall u :: u in uses ==> Acceptable(types, targets, u.path)
  {
    if uses != [] {
      var init, last := uses[..|uses| - 1], uses[|uses| - 1];
      NoneRefusedIffAllAcceptable(types, targets, init);
      assert uses == init + [last];
    }
  }
}
