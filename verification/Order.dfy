/**
  The order in which the walk visits (secretref.go): sorted keys of a mapping, ascending indexes of a
  list. It is determined by the document, not by the order a Go map gives its keys.
 */
module Order {
  import opened Document
  import Lexicographic

  function CodePoint(c: char): int { c as int }

  predicate Before(a: PathSeg, b: PathSeg) {
    (a.Key? && b.Key? && Lexicographic.Less(CodePoint, a.key, b.key)) || (a.Index? && b.Index? && a.index < b.index)
  }

  /** A key comes before those it is a proper prefix of, and those with a higher letter where they first
      differ. */
  lemma KeysBefore(a: string, b: string)
    ensures Before(Key(a), Key(b)) <==>
      a < b || exists i :: 0 <= i < |a| && i < |b| && a[..i] == b[..i] && a[i] < b[i]
  {
    Lexicographic.LessIff(CodePoint, a, b);
    if i: nat :| i < |a| && i < |b| && a[..i] == b[..i] && a[i] < b[i] {
      assert Lexicographic.LowerAt(CodePoint, a, b, i);
    }
    if i: nat :| Lexicographic.LowerAt(CodePoint, a, b, i) {
      assert a[i] < b[i];
    }
  }

  ghost predicate Ascending(segs: seq<PathSeg>) {
    forall i, j :: 0 <= i < j < |segs| ==> Before(segs[i], segs[j])
  }

  /** A mapping's keys have one ascending order, whatever order the program meets them in. */
  lemma {:induction false} OrderIsDetermined(xs: seq<PathSeg>, ys: seq<PathSeg>)
    requires Ascending(xs) && Ascending(ys) && forall x :: x in xs <==> x in ys
    ensures xs == ys
  {
    EmptyTogether(xs, ys);
    if xs != [] {
      assert ys[0] in ys && xs[0] in xs;
      var i :| 0 <= i < |xs| && xs[i] == ys[0];
      var j :| 0 <= j < |ys| && ys[j] == xs[0];
      NotBothWays(xs[0], ys[0]);
      forall x ensures x in xs[1..] <==> x in ys[1..] {
        NotBothWays(x, x);
        assert x in xs <==> x == xs[0] || x in xs[1..];
        assert x in ys <==> x == ys[0] || x in ys[1..];
        NotInTail(xs);
        NotInTail(ys);
      }
      OrderIsDetermined(xs[1..], ys[1..]);
      assert xs == [xs[0]] + xs[1..] && ys == [ys[0]] + ys[1..];
    }
  }

  lemma EmptyTogether(xs: seq<PathSeg>, ys: seq<PathSeg>)
    requires forall x :: x in xs <==> x in ys
    ensures xs == [] <==> ys == []
  {
    if xs != [] {
      assert xs[0] in xs;
    }
    if ys != [] {
      assert ys[0] in ys;
    }
  }

  lemma NotBothWays(a: PathSeg, b: PathSeg)
    ensures !(Before(a, b) && Before(b, a))
  {
    if a.Key? && b.Key? {
      Lexicographic.LessIsStrict(CodePoint, a.key, b.key);
    }
  }

  lemma NotInTail(xs: seq<PathSeg>)
    requires xs != [] && Ascending(xs)
    ensures xs[0] !in xs[1..]
  {
    NotBothWays(xs[0], xs[0]);
  }

  /** `u` has the same children as `t` under the same steps. */
  ghost predicate SameEntries(t: Tree, u: Tree)
    requires WellKeyed(t) && WellKeyed(u) && t.Branch? && u.Branch?
  {
    && (forall x :: x in t.segs <==> x in u.segs)
    && (forall i, j :: 0 <= i < |t.segs| && 0 <= j < |u.segs| && t.segs[i] == u.segs[j] ==> t.kids[i] == u.kids[j])
  }

  /** A stable order: the walk of a mapping depends on its entries alone. */
  lemma WalkOrderIsStable(t: Tree, u: Tree, base: seq<PathSeg>)
    requires WellKeyed(t) && WellKeyed(u) && t.Branch? && u.Branch?
    requires Ascending(t.segs) && Ascending(u.segs) && SameEntries(t, u)
    ensures Collect(t, base) == Collect(u, base)
  {
    OrderIsDetermined(t.segs, u.segs);
    hide Collect, Ascending;
    assert t.kids == u.kids;
  }
}
