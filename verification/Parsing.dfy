/**
  Which documents parse (secretref.go), said on the places of a document: the keys of its mappings and
  its string leaves, listed flat in the order of the walk.
 */
module Parsing {
  import opened Wrappers
  import opened Grammar
  import opened Document

  /** A key of the mapping at `at`, or a string leaf. */
  datatype Mark = KeyMark(at: seq<PathSeg>, key: string) | LeafMark(at: seq<PathSeg>, text: string)

  function Marks(t: Tree, base: seq<PathSeg>): seq<Mark>
    requires WellKeyed(t)
    decreases t
  {
    match t
    case Str(s) => [LeafMark(base, s)]
    case Branch(_, _) => KidsMarks(t, base, 0)
    case _ => []
  }

  /** Each child's key comes before what is below it. */
  function KidsMarks(t: Tree, base: seq<PathSeg>, i: nat): seq<Mark>
    requires WellKeyed(t) && t.Branch? && i <= |t.kids|
    decreases t, |t.kids| - i + 1
  {
    if i == |t.kids| then []
    else
      KeyMarks(base, t.segs[i]) + (Marks(t.kids[i], base + [t.segs[i]]) + KidsMarks(t, base, i + 1))
  }

  function KeyMarks(at: seq<PathSeg>, seg: PathSeg): seq<Mark> {
    match seg
    case Key(key) => [KeyMark(at, key)]
    case Index(_) => []
  }

  /** What is wrong with a mark: a reference for a key, or a reference without a name. */
  function Problem(m: Mark): Option<WalkError> {
    match m
    case KeyMark(at, key) => if SecretRefName(key).Some? then Some(KeyIsReference(at, key)) else None
    case LeafMark(at, text) => if SecretRefName(text) == Some("") then Some(NeedsName(at)) else None
  }

  function UseOf(m: Mark): seq<SecretUse> {
    match m
    case KeyMark(_, _) => []
    case LeafMark(at, text) => if SecretRefName(text).Some? then [SecretUse(at, SecretRefName(text).value)] else []
  }

  /** The references among the marks before the first that is wrong, and what is wrong with it. */
  function ReadMarks(ms: seq<Mark>): Collected {
    if ms == [] then Collected([], None)
    else if Problem(ms[0]).Some? then Collected([], Problem(ms[0]))
    else
      var rest := ReadMarks(ms[1..]);
      Collected(UseOf(ms[0]) + rest.uses, rest.error)
  }

  lemma {:induction false} ReadSum(xs: seq<Mark>, ys: seq<Mark>)
    ensures var first, rest := ReadMarks(xs), ReadMarks(ys);
      ReadMarks(xs + ys) == if first.error.Some? then first else Collected(first.uses + rest.uses, rest.error)
  {
    hide Problem, UseOf;
    if xs == [] {
      assert xs + ys == ys;
    } else {
      ReadSum(xs[1..], ys);
      assert (xs + ys)[1..] == xs[1..] + ys && (xs + ys)[0] == xs[0];
      var here, a, b := UseOf(xs[0]), ReadMarks(xs[1..]).uses, ReadMarks(ys).uses;
      assert here + (a + b) == (here + a) + b;
    }
  }

  /** The recursive walk reads the marks from first to last, and stops at the first that is wrong. */
  lemma {:induction false} CollectReadsMarks(t: Tree, base: seq<PathSeg>)
    requires WellKeyed(t)
    ensures Collect(t, base) == ReadMarks(Marks(t, base))
    decreases t
  {
    match t
    case Str(s) => assert [LeafMark(base, s)][1..] == [];
    case Branch(_, _) => KidsReadMarks(t, base, 0);
    case _ =>
  }

  lemma {:induction false} KidsReadMarks(t: Tree, base: seq<PathSeg>, i: nat)
    requires WellKeyed(t) && t.Branch? && i <= |t.kids|
    ensures CollectKids(t, base, i) == ReadMarks(KidsMarks(t, base, i))
    decreases t, |t.kids| - i + 1
  {
    if i < |t.kids| {
      var here, rest := Marks(t.kids[i], base + [t.segs[i]]), KidsMarks(t, base, i + 1);
      CollectReadsMarks(t.kids[i], base + [t.segs[i]]);
      KidsReadMarks(t, base, i + 1);
      ReadSum(here, rest);
      ReadSum(KeyMarks(base, t.segs[i]), here + rest);
      KeyMarksRead(base, t.segs[i]);
    }
  }

  lemma KeyMarksRead(at: seq<PathSeg>, seg: PathSeg)
    ensures ReadMarks(KeyMarks(at, seg)) ==
      Collected([], if seg.Key? && SecretRefName(seg.key).Some? then Some(KeyIsReference(at, seg.key)) else None)
  {
    if seg.Key? {
      assert [KeyMark(at, seg.key)][1..] == [];
    }
  }

  // ----- The marks are the places of the document -----

  /** The document has the mapping key `key` at `at`, or the string `text` there. */
  ghost predicate Place(t: Tree, base: seq<PathSeg>, m: Mark) {
    && base <= m.at
    && match m
       case KeyMark(at, key) => exists target :: LeadsTo(t, at[|base|..] + [Key(key)], target)
       case LeafMark(at, text) => LeadsTo(t, at[|base|..], Str(text))
  }

  lemma {:induction false} MarksArePlaces(t: Tree, base: seq<PathSeg>)
    requires WellKeyed(t)
    ensures forall m :: m in Marks(t, base) ==> Place(t, base, m)
    decreases t
  {
    match t
    case Str(s) =>
      forall m | m in Marks(t, base) ensures Place(t, base, m) {
        assert m.at[|base|..] == [];
      }
    case Branch(_, _) => KidsMarksArePlaces(t, base, 0);
    case _ =>
  }

  lemma {:induction false} KidsMarksArePlaces(t: Tree, base: seq<PathSeg>, i: nat)
    requires WellKeyed(t) && t.Branch? && i <= |t.kids|
    ensures forall m :: m in KidsMarks(t, base, i) ==> Place(t, base, m)
    decreases t, |t.kids| - i + 1
  {
    if i < |t.kids| {
      var inner := base + [t.segs[i]];
      MarksArePlaces(t.kids[i], inner);
      KidsMarksArePlaces(t, base, i + 1);
      forall m | m in KeyMarks(base, t.segs[i]) ensures Place(t, base, m) {
        assert LeadsTo(t.kids[i], [], t.kids[i]);
        LeadsThroughKid(t, i, [], t.kids[i]);
        assert m.at[|base|..] + [Key(m.key)] == [t.segs[i]] + [];
      }
      forall m | m in Marks(t.kids[i], inner) ensures Place(t, base, m) {
        PlaceThroughKid(t, base, i, m);
      }
    }
  }

  lemma PlaceThroughKid(t: Tree, base: seq<PathSeg>, i: nat, m: Mark)
    requires t.Branch? && i < |t.kids| && i < |t.segs| && Place(t.kids[i], base + [t.segs[i]], m)
    ensures Place(t, base, m)
  {
    var inner := base + [t.segs[i]];
    assert inner == m.at[..|inner|];
    assert m.at[|base|] == inner[|base|] && base == m.at[..|base|];
    assert m.at[|base|..] == [t.segs[i]] + m.at[|inner|..];
    match m
    case KeyMark(at, key) =>
      var target :| LeadsTo(t.kids[i], at[|inner|..] + [Key(key)], target);
      LeadsThroughKid(t, i, at[|inner|..] + [Key(key)], target);
      assert at[|base|..] + [Key(key)] == [t.segs[i]] + (at[|inner|..] + [Key(key)]);
    case LeafMark(at, text) => LeadsThroughKid(t, i, at[|inner|..], Str(text));
  }

  lemma {:induction false} StringsAreMarked(t: Tree, base: seq<PathSeg>, path: seq<PathSeg>, s: string)
    requires WellKeyed(t) && LeadsTo(t, path, Str(s))
    ensures LeafMark(base + path, s) in Marks(t, base)
    decreases t
  {
    if path == [] {
      assert base + path == base;
    } else {
      var i :| 0 <= i < |t.kids| && i < |t.segs| && t.segs[i] == path[0] && LeadsTo(t.kids[i], path[1..], Str(s));
      StringsAreMarked(t.kids[i], base + [t.segs[i]], path[1..], s);
      assert base + path == base + [t.segs[i]] + path[1..];
      KidIsMarked(t, base, 0, i);
    }
  }

  lemma {:induction false} KeysAreMarked(t: Tree, base: seq<PathSeg>, path: seq<PathSeg>, key: string, target: Tree)
    requires WellKeyed(t) && LeadsTo(t, path + [Key(key)], target)
    ensures KeyMark(base + path, key) in Marks(t, base)
    decreases t
  {
    var whole := path + [Key(key)];
    var i :| 0 <= i < |t.kids| && i < |t.segs| && t.segs[i] == whole[0] && LeadsTo(t.kids[i], whole[1..], target);
    KidIsMarked(t, base, 0, i);
    if path == [] {
      assert base + path == base && KeyMark(base, key) in KeyMarks(base, t.segs[i]);
    } else {
      assert whole[1..] == path[1..] + [Key(key)];
      KeysAreMarked(t.kids[i], base + [t.segs[i]], path[1..], key, target);
      assert base + path == base + [t.segs[i]] + path[1..];
    }
  }

  lemma {:induction false} KidIsMarked(t: Tree, base: seq<PathSeg>, from: nat, i: nat)
    requires WellKeyed(t) && t.Branch? && from <= i < |t.kids|
    ensures forall m :: m in KeyMarks(base, t.segs[i]) ==> m in KidsMarks(t, base, from)
    ensures forall m :: m in Marks(t.kids[i], base + [t.segs[i]]) ==> m in KidsMarks(t, base, from)
    decreases i - from
  {
    if from < i {
      KidIsMarked(t, base, from + 1, i);
    }
  }

  lemma {:induction false} ErrorIsProblem(ms: seq<Mark>)
    ensures ReadMarks(ms).error.None? <==> forall m :: m in ms ==> Problem(m).None?
    ensures ReadMarks(ms).error.Some? ==> exists i ::
      0 <= i < |ms| && Problem(ms[i]) == ReadMarks(ms).error && forall j :: 0 <= j < i ==> Problem(ms[j]).None?
  {
    if ms != [] {
      ErrorIsProblem(ms[1..]);
      assert ms == [ms[0]] + ms[1..];
      if Problem(ms[0]).None? && ReadMarks(ms[1..]).error.Some? {
        var i :| 0 <= i < |ms| - 1 && Problem(ms[1..][i]) == ReadMarks(ms[1..]).error
                 && forall j :: 0 <= j < i ==> Problem(ms[1..][j]).None?;
        assert Problem(ms[i + 1]) == ReadMarks(ms).error;
        assert forall j :: 0 <= j < i + 1 ==> j == 0 || ms[j] == ms[1..][j - 1];
      }
    }
  }

  // ----- Which documents parse -----

  /** The document has a mapping key that is a reference. */
  ghost predicate ReferenceOnKey(t: Tree, at: seq<PathSeg>, key: string) {
    SecretRefName(key).Some? && exists target :: LeadsTo(t, at + [Key(key)], target)
  }

  /** The document has a reference without a name. */
  ghost predicate NameMissing(t: Tree, at: seq<PathSeg>) {
    exists s :: SecretRefName(s) == Some("") && LeadsTo(t, at, Str(s))
  }

  /** A document parses if and only if none of its mapping keys is a reference and none of its
      references lacks a name. */
  lemma ParsesIff(t: Tree)
    requires WellKeyed(t)
    ensures Collect(t, []).error.None? <==>
      && (forall at, key :: !ReferenceOnKey(t, at, key))
      && (forall at :: !NameMissing(t, at))
  {
    hide LeadsTo, Collect, Marks, ReadMarks, WellKeyed;
    CollectReadsMarks(t, []);
    ErrorIsProblem(Marks(t, []));
    if Collect(t, []).error.None? {
      forall at, key ensures !ReferenceOnKey(t, at, key) {
        if target :| LeadsTo(t, at + [Key(key)], target) {
          KeysAreMarked(t, [], at, key, target);
          assert [] + at == at && Problem(KeyMark(at, key)).None?;
        }
      }
      forall at ensures !NameMissing(t, at) {
        forall s | LeadsTo(t, at, Str(s)) ensures SecretRefName(s) != Some("") {
          StringsAreMarked(t, [], at, s);
          assert [] + at == at && Problem(LeafMark(at, s)).None?;
        }
      }
    } else {
      ErrorsAreJustified(t);
    }
  }

  /** A reported error names a place of the document where that is wrong, by its path, and its key. */
  lemma ErrorsAreJustified(t: Tree)
    requires WellKeyed(t)
    ensures var error := Collect(t, []).error;
      && (error.Some? && error.value.KeyIsReference? ==> ReferenceOnKey(t, error.value.at, error.value.key))
      && (error.Some? && error.value.NeedsName? ==> NameMissing(t, error.value.at))
  {
    hide LeadsTo, Collect, Marks, ReadMarks, WellKeyed;
    CollectReadsMarks(t, []);
    MarksArePlaces(t, []);
    ErrorIsProblem(Marks(t, []));
    if Collect(t, []).error.Some? {
      var ms := Marks(t, []);
      var i :| 0 <= i < |ms| && Problem(ms[i]) == Collect(t, []).error;
      assert ms[i] in ms && Place(t, [], ms[i]);
      assert ms[i].at[0..] == ms[i].at;
    }
  }

  /** The error reported is the first in the order of the walk. */
  lemma FirstErrorIsReported(t: Tree)
    requires WellKeyed(t) && Collect(t, []).error.Some?
    ensures var ms := Marks(t, []);
      exists i :: 0 <= i < |ms| && Problem(ms[i]) == Collect(t, []).error
        && forall j :: 0 <= j < i ==> Problem(ms[j]).None?
  {
    CollectReadsMarks(t, []);
    ErrorIsProblem(Marks(t, []));
  }
}
