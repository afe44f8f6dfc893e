/**
  Decoded documents and what walking them means (secretref.go). A mapping or sequence is a Branch:
  its steps (keys in sorted order, or indexes) beside its children.
 */
module Document {
  import opened Wrappers
  import opened Grammar
  import opened Secrets

  datatype PathSeg = Key(key: string) | Index(index: nat)

  datatype Tree =
    | Str(text: string)
    | Filled(secret: Secret)
    | Scalar(n: int)
    | Branch(segs: seq<PathSeg>, kids: seq<Tree>)

  datatype SecretUse = SecretUse(path: seq<PathSeg>, name: string)

  datatype WalkError = NeedsName(at: seq<PathSeg>) | KeyIsReference(at: seq<PathSeg>, key: string)

  /** One step per child, and no two children under the same step. */
  ghost predicate WellKeyed(t: Tree) {
    t.Branch? ==>
      && |t.segs| == |t.kids|
      && (forall i, j :: 0 <= i < j < |t.segs| ==> t.segs[i] != t.segs[j])
      && forall i :: 0 <= i < |t.kids| ==> WellKeyed(t.kids[i])
  }

  predicate RefKey(seg: PathSeg) {
    seg.Key? && SecretRefName(seg.key).Some?
  }

  // ----- Collecting the uses (parseSecretDoc) -----

  datatype Collected = Collected(uses: seq<SecretUse>, error: Option<WalkError>)

  function CollectLeaf(path: seq<PathSeg>, s: string): Collected {
    match SecretRefName(s)
    case None => Collected([], None)
    case Some(name) =>
      if name == "" then Collected([], Some(NeedsName(path))) else Collected([SecretUse(path, name)], None)
  }

  function Collect(t: Tree, path: seq<PathSeg>): Collected
    requires WellKeyed(t)
    decreases t
  {
    match t
    case Str(s) => CollectLeaf(path, s)
    case Branch(_, _) => CollectKids(t, path, 0)
    case _ => Collected([], None)
  }

  function CollectKids(t: Tree, path: seq<PathSeg>, i: nat): Collected
    requires WellKeyed(t) && t.Branch? && i <= |t.kids|
    decreases t, |t.kids| - i + 1
  {
    if i == |t.kids| then Collected([], None)
    else if RefKey(t.segs[i]) then Collected([], Some(KeyIsReference(path, t.segs[i].key)))
    else
      var first := Collect(t.kids[i], path + [t.segs[i]]);
      if first.error.Some? then first
      else
        var rest := CollectKids(t, path, i + 1);
        Collected(first.uses + rest.uses, rest.error)
  }

  // ----- Filling -----

  /** Go's map lookup: the zero Secret for a name without a value. */
  function ValueOf(values: map<string, Secret>, name: string): Secret {
    if name in values then values[name] else Secret("", "", false)
  }

  function FillLeaf(s: string, values: map<string, Secret>): Tree {
    match ReadLeaf(s)
    case Reference(name) => Filled(ValueOf(values, name))
    case Literal(text) => Str(text)
  }

  /** Leaf by leaf; the rest stays. */
  function FillTree(t: Tree, values: map<string, Secret>): Tree {
    match t
    case Str(s) => FillLeaf(s, values)
    case Branch(segs, kids) => Branch(segs, seq(|kids|, i requires 0 <= i < |kids| => FillTree(kids[i], values)))
    case _ => t
  }

  ghost predicate NoRefKeys(t: Tree) {
    t.Branch? ==>
      && (forall i :: 0 <= i < |t.segs| ==> !RefKey(t.segs[i]))
      && forall i :: 0 <= i < |t.kids| ==> NoRefKeys(t.kids[i])
  }

  // ----- Where paths lead -----

  ghost predicate LeadsTo(t: Tree, path: seq<PathSeg>, target: Tree) {
    if path == [] then t == target
    else
      && t.Branch?
      && exists i :: 0 <= i < |t.kids| && i < |t.segs| && t.segs[i] == path[0] && LeadsTo(t.kids[i], path[1..], target)
  }

  /** `use` was found under `base` and its path leads, inside `t`, to that very reference. */
  ghost predicate Genuine(t: Tree, base: seq<PathSeg>, use: SecretUse) {
    && base <= use.path && use.name != ""
    && exists s :: SecretRefName(s) == Some(use.name) && LeadsTo(t, use.path[|base|..], Str(s))
  }

  lemma LeadsThroughKid(t: Tree, i: nat, path: seq<PathSeg>, target: Tree)
    requires t.Branch? && i < |t.kids| && i < |t.segs| && LeadsTo(t.kids[i], path, target)
    ensures LeadsTo(t, [t.segs[i]] + path, target)
  {
    var p := [t.segs[i]] + path;
    assert p[1..] == path;
  }

  lemma GenuineThroughKid(t: Tree, base: seq<PathSeg>, i: nat, use: SecretUse)
    requires t.Branch? && i < |t.kids| && i < |t.segs|
    requires Genuine(t.kids[i], base + [t.segs[i]], use)
    ensures Genuine(t, base, use)
  {
    var inner := base + [t.segs[i]];
    var s :| SecretRefName(s) == Some(use.name) && LeadsTo(t.kids[i], use.path[|inner|..], Str(s));
    LeadsThroughKid(t, i, use.path[|inner|..], Str(s));
    assert inner == use.path[..|inner|];
    assert use.path[|base|] == inner[|base|];
    assert use.path[|base|..] == [t.segs[i]] + use.path[|inner|..];
    assert base == use.path[..|base|];
  }

  /** Every recorded use is genuine. */
  lemma {:induction false} UsesAreGenuine(t: Tree, base: seq<PathSeg>)
    requires WellKeyed(t)
    ensures forall u :: u in Collect(t, base).uses ==> Genuine(t, base, u)
    decreases t
  {
    match t
    case Str(s) =>
      forall u | u in Collect(t, base).uses ensures Genuine(t, base, u) {
        assert LeadsTo(t, u.path[|base|..], Str(s));
      }
    case Branch(_, _) => KidsUsesAreGenuine(t, base, 0);
    case _ =>
  }

  lemma {:induction false} KidsUsesAreGenuine(t: Tree, base: seq<PathSeg>, i: nat)
    requires WellKeyed(t) && t.Branch? && i <= |t.kids|
    ensures forall u :: u in CollectKids(t, base, i).uses ==> Genuine(t, base, u)
    decreases t, |t.kids| - i + 1
  {
    if i < |t.kids| && !RefKey(t.segs[i]) {
      UsesAreGenuine(t.kids[i], base + [t.segs[i]]);
      KidsUsesAreGenuine(t, base, i + 1);
      forall u | u in Collect(t.kids[i], base + [t.segs[i]]).uses ensures Genuine(t, base, u) {
        GenuineThroughKid(t, base, i, u);
      }
    }
  }

  /** Without an error, every reference in the tree is recorded under the path that leads to it. */
  lemma {:induction false} EveryReferenceIsRecorded(t: Tree, base: seq<PathSeg>, path: seq<PathSeg>, s: string)
    requires WellKeyed(t) && Collect(t, base).error.None?
    requires LeadsTo(t, path, Str(s)) && SecretRefName(s).Some?
    ensures SecretUse(base + path, SecretRefName(s).value) in Collect(t, base).uses
    decreases t
  {
    if path == [] {
      assert base + path == base;
    } else {
      var i :| 0 <= i < |t.kids| && i < |t.segs| && t.segs[i] == path[0] && LeadsTo(t.kids[i], path[1..], Str(s));
      KidIsRecorded(t, base, path, s, i, 0);
    }
  }

  lemma {:induction false} KidIsRecorded(t: Tree, base: seq<PathSeg>, path: seq<PathSeg>, s: string, i: nat, from: nat)
    requires WellKeyed(t) && t.Branch? && from <= i < |t.kids| && CollectKids(t, base, from).error.None?
    requires path != [] && t.segs[i] == path[0] && LeadsTo(t.kids[i], path[1..], Str(s)) && SecretRefName(s).Some?
    ensures SecretUse(base + path, SecretRefName(s).value) in CollectKids(t, base, from).uses
    decreases t, |t.kids| - from + 1
  {
    if from < i {
      KidIsRecorded(t, base, path, s, i, from + 1);
    } else {
      EveryReferenceIsRecorded(t.kids[i], base + [t.segs[i]], path[1..], s);
      assert base + path == base + [t.segs[i]] + path[1..];
    }
  }

  ghost predicate DistinctPaths(uses: seq<SecretUse>) {
    forall i, j :: 0 <= i < j < |uses| ==> uses[i].path != uses[j].path
  }

  /** Uses found under the `i`-th and later children start with one of their steps. */
  ghost predicate StartsFrom(t: Tree, base: seq<PathSeg>, i: nat, u: SecretUse)
    requires t.Branch?
  {
    |base| < |u.path| && base <= u.path && exists k :: i <= k < |t.segs| && t.segs[k] == u.path[|base|]
  }

  /** No two recorded uses have the same path, even when the walk stops at an error. */
  lemma {:induction false} PathsAreDistinct(t: Tree, base: seq<PathSeg>)
    requires WellKeyed(t)
    ensures DistinctPaths(Collect(t, base).uses)
    decreases t
  {
    if t.Branch? {
      KidsPathsAreDistinct(t, base, 0);
    }
  }

  lemma {:induction false} KidsPathsAreDistinct(t: Tree, base: seq<PathSeg>, i: nat)
    requires WellKeyed(t) && t.Branch? && i <= |t.kids|
    ensures DistinctPaths(CollectKids(t, base, i).uses)
    ensures forall u :: u in CollectKids(t, base, i).uses ==> StartsFrom(t, base, i, u)
    decreases t, |t.kids| - i + 1
  {
    if i < |t.kids| && !RefKey(t.segs[i]) {
      var inner := base + [t.segs[i]];
      PathsAreDistinct(t.kids[i], inner);
      KidsPathsAreDistinct(t, base, i + 1);
      UsesAreGenuine(t.kids[i], inner);
      forall u | u in Collect(t.kids[i], inner).uses
        ensures StartsFrom(t, base, i, u) && u.path[|base|] == t.segs[i]
      {
        assert Genuine(t.kids[i], inner, u);
        assert inner == u.path[..|inner|];
        assert u.path[|base|] == inner[|base|];
        assert base == u.path[..|base|];
      }
      forall u | u in CollectKids(t, base, i + 1).uses
        ensures StartsFrom(t, base, i, u) && u.path[|base|] != t.segs[i]
      {
        assert StartsFrom(t, base, i + 1, u);
      }
    }
  }

  // ----- The string leaves, in the order of the walk -----

  datatype StringLeaf = StringLeaf(path: seq<PathSeg>, text: string)

  function Leaves(t: Tree, base: seq<PathSeg>): seq<StringLeaf>
    requires WellKeyed(t)
    decreases t
  {
    match t
    case Str(s) => [StringLeaf(base, s)]
    case Branch(_, _) => KidsLeaves(t, base, 0)
    case _ => []
  }

  function KidsLeaves(t: Tree, base: seq<PathSeg>, i: nat): seq<StringLeaf>
    requires WellKeyed(t) && t.Branch? && i <= |t.kids|
    decreases t, |t.kids| - i + 1
  {
    if i == |t.kids| then [] else Leaves(t.kids[i], base + [t.segs[i]]) + KidsLeaves(t, base, i + 1)
  }

  /** `leaf` hangs below `base`, under the `i`-th child of `t` or a later one. */
  ghost predicate Below(t: Tree, base: seq<PathSeg>, i: nat, leaf: StringLeaf)
    requires t.Branch?
  {
    && |base| < |leaf.path| && base <= leaf.path
    && exists k :: i <= k < |t.segs| && k < |t.kids| && t.segs[k] == leaf.path[|base|]
         && LeadsTo(t.kids[k], leaf.path[|base| + 1..], Str(leaf.text))
  }

  ghost predicate DistinctLeaves(ls: seq<StringLeaf>) {
    forall i, j :: 0 <= i < j < |ls| ==> ls[i].path != ls[j].path
  }

  /** Every leaf of the list is where its path leads, and no path is listed twice. */
  lemma {:induction false} LeavesAreDistinct(t: Tree, base: seq<PathSeg>)
    requires WellKeyed(t)
    ensures var ls := Leaves(t, base);
      && (forall x :: x in ls ==> base <= x.path && LeadsTo(t, x.path[|base|..], Str(x.text)))
      && DistinctLeaves(ls)
    decreases t
  {
    match t
    case Str(s) =>
      forall x | x in Leaves(t, base) ensures base <= x.path && LeadsTo(t, x.path[|base|..], Str(x.text)) {
        assert x.path[|base|..] == [];
      }
    case Branch(_, _) =>
      KidsLeavesAreDistinct(t, base, 0);
      assert Leaves(t, base) == KidsLeaves(t, base, 0);
      forall x | x in KidsLeaves(t, base, 0) ensures base <= x.path && LeadsTo(t, x.path[|base|..], Str(x.text)) {
        assert Below(t, base, 0, x);
        assert x.path[|base|..][1..] == x.path[|base| + 1..];
      }
    case _ =>
  }

  lemma {:induction false} KidsLeavesAreDistinct(t: Tree, base: seq<PathSeg>, i: nat)
    requires WellKeyed(t) && t.Branch? && i <= |t.kids|
    ensures var ls := KidsLeaves(t, base, i);
      && (forall x :: x in ls ==> Below(t, base, i, x))
      && DistinctLeaves(ls)
    decreases t, |t.kids| - i + 1
  {
    if i < |t.kids| {
      var inner := base + [t.segs[i]];
      LeavesAreDistinct(t.kids[i], inner);
      KidsLeavesAreDistinct(t, base, i + 1);
      forall x | x in Leaves(t.kids[i], inner) ensures Below(t, base, i, x) && x.path[|base|] == t.segs[i] {
        assert inner == x.path[..|inner|];
        assert x.path[|base|] == inner[|base|];
        assert base == x.path[..|base|];
      }
      forall x | x in KidsLeaves(t, base, i + 1) ensures Below(t, base, i, x) && x.path[|base|] != t.segs[i] {
        assert Below(t, base, i + 1, x);
      }
      DisjointListsAreDistinct(Leaves(t.kids[i], inner), KidsLeaves(t, base, i + 1), |base|, t.segs[i]);
    }
  }

  lemma DisjointListsAreDistinct(xs: seq<StringLeaf>, ys: seq<StringLeaf>, n: nat, seg: PathSeg)
    requires DistinctLeaves(xs) && DistinctLeaves(ys)
    requires forall x :: x in xs ==> n < |x.path| && x.path[n] == seg
    requires forall y :: y in ys ==> n < |y.path| && y.path[n] != seg
    ensures DistinctLeaves(xs + ys)
  {
    var ls := xs + ys;
    forall a, b | 0 <= a < b < |ls| ensures ls[a].path != ls[b].path {
      if a < |xs| <= b {
        assert ls[a] in xs && ls[b] in ys;
      } else if b < |xs| {
        assert ls[a] == xs[a] && ls[b] == xs[b];
      } else {
        assert ls[a] == ys[a - |xs|] && ls[b] == ys[b - |xs|];
      }
    }
  }

  /** Every string of the tree is in the list. */
  lemma {:induction false} EveryStringIsLeaf(t: Tree, base: seq<PathSeg>, path: seq<PathSeg>, s: string)
    requires WellKeyed(t) && LeadsTo(t, path, Str(s))
    ensures StringLeaf(base + path, s) in Leaves(t, base)
    decreases t
  {
    if path == [] {
      assert base + path == base;
    } else {
      var i :| 0 <= i < |t.kids| && i < |t.segs| && t.segs[i] == path[0] && LeadsTo(t.kids[i], path[1..], Str(s));
      EveryStringIsLeaf(t.kids[i], base + [t.segs[i]], path[1..], s);
      assert base + path == base + [t.segs[i]] + path[1..];
      KidLeavesListed(t, base, 0, i);
    }
  }

  lemma {:induction false} KidLeavesListed(t: Tree, base: seq<PathSeg>, from: nat, i: nat)
    requires WellKeyed(t) && t.Branch? && from <= i < |t.kids|
    ensures forall x :: x in Leaves(t.kids[i], base + [t.segs[i]]) ==> x in KidsLeaves(t, base, from)
    decreases i - from
  {
    if from < i {
      KidLeavesListed(t, base, from + 1, i);
    }
  }

  function ReferencesAmong(leaves: seq<StringLeaf>): seq<SecretUse> {
    if leaves == [] then []
    else
      var rest := ReferencesAmong(leaves[1..]);
      match SecretRefName(leaves[0].text)
      case None => rest
      case Some(name) => [SecretUse(leaves[0].path, name)] + rest
  }

  lemma {:induction false} ReferencesOfSum(xs: seq<StringLeaf>, ys: seq<StringLeaf>)
    ensures ReferencesAmong(xs + ys) == ReferencesAmong(xs) + ReferencesAmong(ys)
  {
    if xs == [] {
      assert xs + ys == ys;
    } else {
      ReferencesOfSum(xs[1..], ys);
      assert (xs + ys)[1..] == xs[1..] + ys;
    }
  }

  /** Each string leaf is visited once: without an error, the uses are the references among the
      string leaves, each listed once, in the same order. */
  lemma {:induction false} UsesAreReferencesAmongLeaves(t: Tree, base: seq<PathSeg>)
    requires WellKeyed(t) && Collect(t, base).error.None?
    ensures Collect(t, base).uses == ReferencesAmong(Leaves(t, base))
    decreases t
  {
    match t
    case Str(s) => assert [StringLeaf(base, s)][1..] == [];
    case Branch(_, _) => KidsUsesAreReferences(t, base, 0);
    case _ =>
  }

  lemma {:induction false} KidsUsesAreReferences(t: Tree, base: seq<PathSeg>, i: nat)
    requires WellKeyed(t) && t.Branch? && i <= |t.kids| && CollectKids(t, base, i).error.None?
    ensures CollectKids(t, base, i).uses == ReferencesAmong(KidsLeaves(t, base, i))
    decreases t, |t.kids| - i + 1
  {
    if i < |t.kids| {
      UsesAreReferencesAmongLeaves(t.kids[i], base + [t.segs[i]]);
      KidsUsesAreReferences(t, base, i + 1);
      ReferencesOfSum(Leaves(t.kids[i], base + [t.segs[i]]), KidsLeaves(t, base, i + 1));
    }
  }

  // ----- What fill does -----

  predicate IsLeaf(t: Tree) { !t.Branch? }

  /** Fill changes what stands at each leaf and nothing else: a path leads to a leaf of the filled
      tree exactly when it leads to a leaf of the tree that fills to it. */
  lemma {:induction false} FillIsLeafwise(t: Tree, values: map<string, Secret>, path: seq<PathSeg>, leaf: Tree)
    requires IsLeaf(leaf)
    ensures LeadsTo(FillTree(t, values), path, leaf) <==>
            exists was :: IsLeaf(was) && FillTree(was, values) == leaf && LeadsTo(t, path, was)
    decreases t
  {
    var filled := FillTree(t, values);
    if path == [] {
      assert LeadsTo(t, path, t);
    } else if t.Branch? {
      forall i | 0 <= i < |t.kids|
        ensures LeadsTo(filled.kids[i], path[1..], leaf) <==>
                exists was :: IsLeaf(was) && FillTree(was, values) == leaf && LeadsTo(t.kids[i], path[1..], was)
      {
        FillIsLeafwise(t.kids[i], values, path[1..], leaf);
      }
      if LeadsTo(filled, path, leaf) {
        var i :| 0 <= i < |filled.kids| && i < |filled.segs| && filled.segs[i] == path[0]
                 && LeadsTo(filled.kids[i], path[1..], leaf);
        var was :| IsLeaf(was) && FillTree(was, values) == leaf && LeadsTo(t.kids[i], path[1..], was);
        assert LeadsTo(t, path, was);
      }
      forall was | IsLeaf(was) && FillTree(was, values) == leaf && LeadsTo(t, path, was)
        ensures LeadsTo(filled, path, leaf)
      {
        var i :| 0 <= i < |t.kids| && i < |t.segs| && t.segs[i] == path[0] && LeadsTo(t.kids[i], path[1..], was);
        assert LeadsTo(filled.kids[i], path[1..], leaf);
      }
    }
  }

  /** Fill looks up only the names recorded in `uses`. */
  lemma {:induction false} FillNeedsOnlyUsedNames(t: Tree, base: seq<PathSeg>, v: map<string, Secret>, w: map<string,
                                                  Secret>)
    requires WellKeyed(t) && Collect(t, base).error.None?
    requires forall u :: u in Collect(t, base).uses ==> ValueOf(v, u.name) == ValueOf(w, u.name)
    ensures FillTree(t, v) == FillTree(t, w)
    decreases t
  {
    if t.Branch? {
      KidsNeedOnlyUsedNames(t, base, v, w, 0);
    }
  }

  lemma {:induction false} KidsNeedOnlyUsedNames(t: Tree, base: seq<PathSeg>, v: map<string, Secret>, w: map<string,
                                                 Secret>, i: nat)
    requires WellKeyed(t) && t.Branch? && i <= |t.kids| && CollectKids(t, base, i).error.None?
    requires forall u :: u in CollectKids(t, base, i).uses ==> ValueOf(v, u.name) == ValueOf(w, u.name)
    ensures forall k :: i <= k < |t.kids| ==> FillTree(t.kids[k], v) == FillTree(t.kids[k], w)
    decreases t, |t.kids| - i + 1
  {
    if i < |t.kids| {
      var first, rest := Collect(t.kids[i], base + [t.segs[i]]), CollectKids(t, base, i + 1);
      assert forall u :: u in first.uses || u in rest.uses ==> u in CollectKids(t, base, i).uses;
      FillNeedsOnlyUsedNames(t.kids[i], base + [t.segs[i]], v, w);
      KidsNeedOnlyUsedNames(t, base, v, w, i + 1);
    }
  }

  /** A tree that parsed has no reference among its keys. */
  lemma {:induction false} ParsedHasNoRefKeys(t: Tree, base: seq<PathSeg>)
    requires WellKeyed(t) && Collect(t, base).error.None?
    ensures NoRefKeys(t)
    decreases t
  {
    if t.Branch? {
      ParsedKidsHaveNoRefKeys(t, base, 0);
    }
  }

  lemma {:induction false} ParsedKidsHaveNoRefKeys(t: Tree, base: seq<PathSeg>, i: nat)
    requires WellKeyed(t) && t.Branch? && i <= |t.kids| && CollectKids(t, base, i).error.None?
    ensures forall k :: i <= k < |t.kids| ==> !RefKey(t.segs[k]) && NoRefKeys(t.kids[k])
    decreases t, |t.kids| - i + 1
  {
    if i < |t.kids| {
      ParsedHasNoRefKeys(t.kids[i], base + [t.segs[i]]);
      ParsedKidsHaveNoRefKeys(t, base, i + 1);
    }
  }

  ghost function Names(uses: seq<SecretUse>): set<string> {
    set u | u in uses :: u.name
  }

  /** With a value of its own name for every recorded name, each reference becomes the Secret of
      the name it gives, and every escaped literal the string it stands for. */
  lemma FilledReferences(t: Tree, values: map<string, Secret>, path: seq<PathSeg>, s: string)
    requires WellKeyed(t) && Collect(t, []).error.None?
    requires values.Keys == Names(Collect(t, []).uses)
    requires forall name :: name in values ==> values[name].ref == name
    requires LeadsTo(t, path, Str(s))
    ensures ReadLeaf(s).Reference? ==>
      var name := ReadLeaf(s).name;
      name in values && values[name].ref == name && LeadsTo(FillTree(t, values), path, Filled(values[name]))
    ensures ReadLeaf(s).Literal? ==> LeadsTo(FillTree(t, values), path, Str(ReadLeaf(s).text))
  {
    var filled := FillLeaf(s, values);
    FillIsLeafwise(t, values, path, filled);
    assert FillTree(Str(s), values) == filled && IsLeaf(Str(s));
    assert LeadsTo(FillTree(t, values), path, filled);
    if SecretRefName(s).Some? {
      EveryReferenceIsRecorded(t, [], path, s);
    }
  }

  // ----- The text of a document and the trees it can be written as -----

  /** The document in which every string of `t` is written so that it reads as itself. */
  function Written(t: Tree): Tree {
    match t
    case Str(s) => Str(Escape(s))
    case Branch(segs, kids) => Branch(segs, seq(|kids|, i requires 0 <= i < |kids| => Written(kids[i])))
    case _ => t
  }

  /** Writing a tree of literals and filling it back gives the same tree, whatever the secrets. */
  lemma {:induction false} WrittenReadsBack(t: Tree, values: map<string, Secret>)
    ensures FillTree(Written(t), values) == t
    decreases t
  {
    match t
    case Str(s) => EscapeRoundTrip(s);
    case Branch(segs, kids) =>
      forall i | 0 <= i < |kids| ensures FillTree(Written(kids[i]), values) == kids[i] {
        WrittenReadsBack(kids[i], values);
      }
    case _ =>
  }
}
