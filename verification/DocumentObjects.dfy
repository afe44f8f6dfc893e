/**
  The walk as the program runs it (secretref.go): containers rewritten in place, and one path
  buffer shared by all siblings, proved against the pure walk and fill of Document.
 */
module DocumentObjects {
  import opened Wrappers
  import opened Grammar
  import opened Secrets
  import opened Document

  /** A map[string]any, map[any]any or []any: its steps never change, its values do. */
  class Container {
    const segs: seq<PathSeg>
    var kids: seq<Slot>

    constructor (segs: seq<PathSeg>, kids: seq<Slot>)
      ensures this.segs == segs && this.kids == kids
    {
      this.segs := segs;
      this.kids := kids;
    }
  }

  /** A value of type any. */
  datatype Slot = StrSlot(text: string) | SecretSlot(secret: Secret) | ScalarSlot(n: int) | Sub(c: Container)

  // ----- The tree a slot stands for -----

  /** Which containers hang where below a slot. */
  datatype Shape = Leaf | Node(self: Container, subs: seq<Shape>)

  ghost function Foot(sh: Shape): set<Container> {
    match sh
    case Leaf => {}
    case Node(c, subs) => {c} + (set i, d | 0 <= i < |subs| && d in Foot(subs[i]) :: d)
  }

  lemma {:induction false} FootIsAllocated(sh: Shape)
    ensures forall d: Container :: d in Foot(sh) ==> allocated(d)
  {
    if sh.Node? {
      forall i | 0 <= i < |sh.subs| ensures forall d: Container :: d in Foot(sh.subs[i]) ==> allocated(d) {
        FootIsAllocated(sh.subs[i]);
      }
    }
  }

  ghost predicate Holds(slot: Slot, sh: Shape)
    reads Foot(sh)
    decreases sh
  {
    match sh
    case Leaf => !slot.Sub?
    case Node(c, subs) =>
      && slot == Sub(c)
      && |subs| == |c.kids| == |c.segs|
      && (forall i :: 0 <= i < |subs| ==> c !in Foot(subs[i]))
      && (forall i, j :: 0 <= i < j < |subs| ==> Foot(subs[i]) !! Foot(subs[j]))
      && forall i :: 0 <= i < |subs| ==> Holds(c.kids[i], subs[i])
  }

  ghost function TreeOf(slot: Slot, sh: Shape): (t: Tree)
    requires Holds(slot, sh)
    reads Foot(sh)
    decreases sh
  {
    match sh
    case Leaf =>
      (match slot
       case StrSlot(s) => Str(s)
       case SecretSlot(x) => Filled(x)
       case ScalarSlot(n) => Scalar(n))
    case Node(c, subs) =>
      var kids := c.kids;
      Branch(c.segs, seq(|subs|, i
        requires 0 <= i < |subs| && Holds(kids[i], subs[i])
        reads if 0 <= i < |subs| then Foot(subs[i]) else {}
        => TreeOf(kids[i], subs[i])))
  }

  // ----- []pathSeg: a length into a backing array that others may share -----

  datatype Path = Path(buf: array<PathSeg>, len: nat) {
    ghost predicate Valid() { len <= buf.Length }

    ghost function Segs(): seq<PathSeg>
      requires Valid()
      reads buf
    {
      buf[..len]
    }
  }

  /** append(path, seg): writes into the backing array while it has room, and moves otherwise. */
  method Append(p: Path, seg: PathSeg) returns (q: Path)
    requires p.Valid()
    modifies p.buf
    ensures q.Valid() && (q.buf == p.buf || fresh(q.buf))
    ensures q.len == p.len + 1 && q.Segs() == old(p.Segs()) + [seg]
    ensures p.Segs() == old(p.Segs())
  {
    if p.len < p.buf.Length {
      p.buf[p.len] := seg;
      return Path(p.buf, p.len + 1);
    }
    var bigger := new PathSeg[2 * p.len + 1];
    for i := 0 to p.len
      invariant p.Segs() == old(p.Segs())
      invariant forall k :: 0 <= k < i ==> bigger[k] == p.buf[k]
    {
      bigger[i] := p.buf[i];
    }
    bigger[p.len] := seg;
    q := Path(bigger, p.len + 1);
  }

  // ----- secretDoc -----

  /** The two visit functions: parseSecretDoc's, and fill's. */
  datatype Visit = CollectUses | Fill(values: map<string, Secret>)

  ghost function Visited(visit: Visit, t: Tree): Tree {
    match visit
    case CollectUses => t
    case Fill(values) => FillTree(t, values)
  }

  class SecretDoc {
    var tree: Slot
    var uses: seq<SecretUse>

    constructor (tree: Slot)
      ensures this.tree == tree && uses == []
    {
      this.tree := tree;
      uses := [];
    }

    method VisitLeaf(path: Path, s: string, visit: Visit) returns (repl: Slot, replace: bool, err: Option<WalkError>)
      requires path.Valid()
      modifies this`uses
      ensures visit.CollectUses? ==> var r := CollectLeaf(path.Segs(), s);
        !replace && uses == old(uses) + r.uses && err == r.error
      ensures visit.Fill? ==>
        && uses == old(uses) && err.None? && !repl.Sub?
        && TreeOf(if replace then repl else StrSlot(s), Leaf) == FillLeaf(s, visit.values)
        && (SecretRefName(s).Some? ==>
              var name := SecretRefName(s).value;
              replace && repl == SecretSlot(if name in visit.values then visit.values[name] else Secret("", "", false)))
    {
      repl, replace, err := StrSlot(s), false, None;
      var name := SecretRefName(s);
      match visit {
        case CollectUses =>
          if name.None? {
            return;
          }
          var at := path.buf[..path.len];   // slices.Clone
          if name.value == "" {
            err := Some(NeedsName(at));
            return;
          }
          uses := uses + [SecretUse(at, name.value)];
        case Fill(values) =>
          if name.Some? {
            repl, replace := SecretSlot(ValueOf(values, name.value)), true;
            return;
          }
          var lit := UnescapeSecretRef(s);
          if lit.Some? {
            repl, replace := StrSlot(lit.value), true;
          }
      }
    }

    /** One element: a string is visited, anything else is walked. */
    method Child(seg: PathSeg, v: Slot, path: Path, visit: Visit, ghost sh: Shape, ghost t: Tree)
      returns (repl: Slot, replace: bool, err: Option<WalkError>)
      requires path.Valid()
      requires Holds(v, sh) && TreeOf(v, sh) == t && WellKeyed(t)
      requires visit.Fill? ==> NoRefKeys(t)
      modifies this`uses, Foot(sh), path.buf
      ensures path.Segs() == old(path.Segs())
      ensures Holds(if replace then repl else v, sh) && TreeOf(if replace then repl else v, sh) == Visited(visit, t)
      ensures visit.CollectUses? ==> var r := Collect(t, old(path.Segs()) + [seg]);
        uses == old(uses) + r.uses && err == r.error
      ensures visit.Fill? ==> uses == old(uses) && err.None?
      decreases sh, 1
    {
      FootIsAllocated(sh);
      var p := Append(path, seg);
      assert Holds(v, sh) && TreeOf(v, sh) == t;
      if v.StrSlot? {
        repl, replace, err := VisitLeaf(p, v.text, visit);
      } else {
        err := Walk(v, p, visit, sh, t);
        repl, replace := v, false;
      }
    }

    /** Visits every string below `v`. Whatever is appended below, the caller's own steps survive
        in the shared buffer. */
    method Walk(v: Slot, path: Path, visit: Visit, ghost sh: Shape, ghost t: Tree) returns (err: Option<WalkError>)
      requires path.Valid() && !v.StrSlot?
      requires Holds(v, sh) && TreeOf(v, sh) == t && WellKeyed(t)
      requires visit.Fill? ==> NoRefKeys(t)
      modifies this`uses, Foot(sh), path.buf
      ensures path.Segs() == old(path.Segs())
      ensures Holds(v, sh) && TreeOf(v, sh) == Visited(visit, t)
      ensures visit.CollectUses? ==> var r := Collect(t, old(path.Segs())); uses == old(uses) + r.uses && err == r.error
      ensures visit.Fill? ==> uses == old(uses) && err.None?
      decreases sh, 0, 3
    {
      if v.Sub? {
        err := WalkKids(v.c, path, visit, sh, t);
      } else {
        err := None;
      }
    }

    /** Child at position `i`: what hangs below the siblings stays as it was. */
    method ChildAt(c: Container, i: nat, path: Path, visit: Visit, ghost sh: Shape, ghost t: Tree)
      returns (repl: Slot, replace: bool, err: Option<WalkError>)
      requires path.Valid() && sh.Node? && Holds(Sub(c), sh) && i < |c.kids|
      requires TreeOf(c.kids[i], sh.subs[i]) == t && WellKeyed(t)
      requires visit.Fill? ==> NoRefKeys(t)
      modifies this`uses, Foot(sh.subs[i]), path.buf
      ensures path.Segs() == old(path.Segs())
      ensures Holds(if replace then repl else c.kids[i], sh.subs[i])
      ensures TreeOf(if replace then repl else c.kids[i], sh.subs[i]) == Visited(visit, t)
      ensures c.kids == old(c.kids)
      ensures forall j :: 0 <= j < |sh.subs| && j != i ==>
        Holds(c.kids[j], sh.subs[j]) && TreeOf(c.kids[j], sh.subs[j]) == old(TreeOf(c.kids[j], sh.subs[j]))
      ensures visit.CollectUses? ==> var r := Collect(t, old(path.Segs()) + [c.segs[i]]);
        uses == old(uses) + r.uses && err == r.error
      ensures visit.Fill? ==> uses == old(uses) && err.None?
      decreases sh, 0, 0
    {
      hide WellKeyed, NoRefKeys, Collect, FillTree;
      FootIsAllocated(sh);
      forall j | 0 <= j < |sh.subs| && j != i
        ensures Foot(sh.subs[i]) !! Foot(sh.subs[j]) && c !in Foot(sh.subs[i]) && Foot(sh.subs[j]) <= Foot(sh)
      {
        SiblingsApart(c, sh, i, j);
      }
      repl, replace, err := Child(c.segs[i], c.kids[i], path, visit, sh.subs[i], t);
      forall j | 0 <= j < |sh.subs| && j != i
        ensures Holds(c.kids[j], sh.subs[j]) && TreeOf(c.kids[j], sh.subs[j]) == old(TreeOf(c.kids[j], sh.subs[j]))
      {
        assert Foot(sh.subs[i]) !! Foot(sh.subs[j]);
      }
    }

    /** One turn of the loop: the element is replaced in place when the visit asks for it. */
    method VisitKid(c: Container, i: nat, path: Path, visit: Visit, ghost sh: Shape, ghost t: Tree)
      returns (err: Option<WalkError>)
      requires path.Valid() && KidsAre(c, sh, visit, t, i) && WellKeyed(t) && i < |c.kids|
      requires visit.Fill? ==> NoRefKeys(t)
      modifies this`uses, Foot(sh), path.buf
      ensures path.Segs() == old(path.Segs())
      ensures KidsAre(c, sh, visit, t, i + 1) && |c.kids| == |sh.subs|
      ensures visit.CollectUses? ==> var r := CollectKid(t, old(path.Segs()), i);
        uses == old(uses) + r.uses && err == r.error
      ensures visit.Fill? ==> uses == old(uses) && err.None?
      decreases sh, 0, 1
    {
      KidInherits(t, i);
      if RefKey(c.segs[i]) {
        return Some(KeyIsReference(path.buf[..path.len], c.segs[i].key));
      }
      hide WellKeyed, NoRefKeys, Collect, FillTree;
      var repl, replace;
      repl, replace, err := ChildAt(c, i, path, visit, sh, t.kids[i]);
      if replace {
        Replace(c, i, repl, visit, sh, t);
      }
    }

    /** The element is overwritten in place; its siblings stay. */
    static method Replace(c: Container, i: nat, repl: Slot, ghost visit: Visit, ghost sh: Shape, ghost t: Tree)
      requires sh.Node? && t.Branch? && Holds(Sub(c), Node(c, sh.subs)) && sh.self == c
      requires i < |c.kids| && |t.kids| == |sh.subs| && t.segs == c.segs
      requires Holds(repl, sh.subs[i]) && TreeOf(repl, sh.subs[i]) == Visited(visit, t.kids[i])
      requires forall j :: 0 <= j < i ==> TreeOf(c.kids[j], sh.subs[j]) == Visited(visit, t.kids[j])
      requires forall j :: i < j < |sh.subs| ==> TreeOf(c.kids[j], sh.subs[j]) == t.kids[j]
      modifies c
      ensures KidsAre(c, sh, visit, t, i + 1) && |c.kids| == |sh.subs|
    {
      c.kids := c.kids[i := repl];
    }

    method WalkKids(c: Container, path: Path, visit: Visit, ghost sh: Shape, ghost t: Tree)
      returns (err: Option<WalkError>)
      requires path.Valid() && sh.Node?
      requires Holds(Sub(c), sh) && TreeOf(Sub(c), sh) == t && WellKeyed(t)
      requires visit.Fill? ==> NoRefKeys(t)
      modifies this`uses, Foot(sh), path.buf
      ensures path.Segs() == old(path.Segs())
      ensures Holds(Sub(c), sh) && TreeOf(Sub(c), sh) == Visited(visit, t)
      ensures visit.CollectUses? ==> var r := CollectKids(t, old(path.Segs()), 0);
        uses == old(uses) + r.uses && err == r.error
      ensures visit.Fill? ==> uses == old(uses) && err.None?
      decreases sh, 0, 2
    {
      KidsBegin(c, sh, visit, t);
      ghost var base, uses0 := path.Segs(), uses;
      CollectBegins(t, base, uses0);
      hide *;
      var i := 0;
      while i < |c.kids|
        invariant 0 <= i <= |c.kids| == |sh.subs| == |t.kids|
        invariant path.Segs() == base
        invariant KidsAre(c, sh, visit, t, i)
        invariant visit.Fill? ==> uses == uses0
        invariant visit.CollectUses? ==> CollectedSoFar(t, base, i, uses0, uses)
        decreases |t.kids| - i
      {
        ghost var before := uses;
        err := VisitKid(c, i, path, visit, sh, t);
        if visit.CollectUses? {
          CollectSteps(t, base, i, uses0, before);
        }
        i := i + 1;
        if err.Some? {
          KidsMakeTree(c, sh, visit, t, i);
          return;
        }
      }
      err := None;
      if visit.CollectUses? {
        CollectEnds(t, base, uses0, uses);
      }
      KidsMakeTree(c, sh, visit, t, i);
    }

    /** parseSecretDoc, after decoding: locates every reference. */
    method Parse(ghost sh: Shape, ghost t: Tree) returns (err: Option<WalkError>)
      requires !tree.StrSlot? && Holds(tree, sh) && TreeOf(tree, sh) == t && WellKeyed(t)
      requires uses == []
      modifies this`uses, Foot(sh)
      ensures Holds(tree, sh) && TreeOf(tree, sh) == t
      ensures Collected(uses, err) == Collect(t, [])
    {
      FootIsAllocated(sh);
      var nil := new PathSeg[0];
      err := Walk(tree, Path(nil, 0), CollectUses, sh, t);
    }

    /** fill, on a document that parsed. */
    method FillIn(values: map<string, Secret>, ghost sh: Shape, ghost t: Tree)
      requires !tree.StrSlot? && Holds(tree, sh) && TreeOf(tree, sh) == t && WellKeyed(t)
      requires Collect(t, []).error.None?
      modifies this`uses, Foot(sh)
      ensures Holds(tree, sh) && TreeOf(tree, sh) == FillTree(t, values) && uses == old(uses)
    {
      ParsedHasNoRefKeys(t, []);
      FootIsAllocated(sh);
      var nil := new PathSeg[0];
      var err := Walk(tree, Path(nil, 0), Fill(values), sh, t);
    }
  }

  // ----- The pure walk over the children, seen from the loop -----

  lemma KidInherits(t: Tree, i: nat)
    requires WellKeyed(t) && t.Branch? && i < |t.kids|
    ensures WellKeyed(t.kids[i]) && |t.segs| == |t.kids|
    ensures NoRefKeys(t) ==> NoRefKeys(t.kids[i]) && !RefKey(t.segs[i])
  {
  }

  ghost function CollectKid(t: Tree, base: seq<PathSeg>, i: nat): Collected
    requires WellKeyed(t) && t.Branch? && i < |t.kids|
  {
    if RefKey(t.segs[i]) then Collected([], Some(KeyIsReference(base, t.segs[i].key)))
    else Collect(t.kids[i], base + [t.segs[i]])
  }

  /** After `i` children: what is recorded and what is still to come make up the whole. */
  ghost predicate CollectedSoFar(t: Tree, base: seq<PathSeg>, i: nat, uses0: seq<SecretUse>, uses: seq<SecretUse>)
    requires WellKeyed(t) && t.Branch? && i <= |t.kids|
  {
    var all, rest := CollectKids(t, base, 0), CollectKids(t, base, i);
    uses0 + all.uses == uses + rest.uses && all.error == rest.error
  }

  lemma CollectBegins(t: Tree, base: seq<PathSeg>, uses0: seq<SecretUse>)
    requires WellKeyed(t) && t.Branch?
    ensures CollectedSoFar(t, base, 0, uses0, uses0)
  {
  }

  lemma CollectSteps(t: Tree, base: seq<PathSeg>, i: nat, uses0: seq<SecretUse>, uses: seq<SecretUse>)
    requires WellKeyed(t) && t.Branch? && i < |t.kids|
    requires CollectedSoFar(t, base, i, uses0, uses)
    ensures var r := CollectKid(t, base, i);
      if r.error.Some? then
        uses0 + CollectKids(t, base, 0).uses == uses + r.uses && CollectKids(t, base, 0).error == r.error
      else CollectedSoFar(t, base, i + 1, uses0, uses + r.uses)
  {
    var here, rest := CollectKid(t, base, i).uses, CollectKids(t, base, i + 1).uses;
    assert uses + (here + rest) == (uses + here) + rest;
  }

  lemma CollectEnds(t: Tree, base: seq<PathSeg>, uses0: seq<SecretUse>, uses: seq<SecretUse>)
    requires WellKeyed(t) && t.Branch? && CollectedSoFar(t, base, |t.kids|, uses0, uses)
    ensures uses0 + CollectKids(t, base, 0).uses == uses && CollectKids(t, base, 0).error.None?
  {
    assert uses + [] == uses;
  }

  lemma KidsBegin(c: Container, sh: Shape, visit: Visit, t: Tree)
    requires sh.Node? && Holds(Sub(c), sh) && TreeOf(Sub(c), sh) == t
    ensures KidsAre(c, sh, visit, t, 0) && t.Branch? && |c.kids| == |sh.subs| == |t.kids|
  {
  }

  /** The first `i` children have been visited, the others not yet. */
  ghost predicate KidsAre(c: Container, sh: Shape, visit: Visit, t: Tree, i: nat)
    reads Foot(sh)
  {
    && sh.Node? && t.Branch? && Holds(Sub(c), sh) && t.segs == c.segs && |t.kids| == |sh.subs|
    && (forall j :: 0 <= j < i && j < |sh.subs| ==> TreeOf(c.kids[j], sh.subs[j]) == Visited(visit, t.kids[j]))
    && forall j :: i <= j < |sh.subs| ==> TreeOf(c.kids[j], sh.subs[j]) == t.kids[j]
  }

  /** Siblings share no container. */
  lemma SiblingsApart(c: Container, sh: Shape, i: nat, j: nat)
    requires Holds(Sub(c), sh) && sh.Node? && i < |sh.subs| && j < |sh.subs| && i != j
    ensures Foot(sh.subs[i]) !! Foot(sh.subs[j]) && c !in Foot(sh.subs[i]) && c !in Foot(sh.subs[j])
    ensures Foot(sh.subs[j]) <= Foot(sh)
  {
  }

  lemma KidsMakeTree(c: Container, sh: Shape, visit: Visit, t: Tree, i: nat)
    requires KidsAre(c, sh, visit, t, i)
    requires visit.CollectUses? || i == |sh.subs|
    ensures Holds(Sub(c), sh) && TreeOf(Sub(c), sh) == Visited(visit, t)
  {
    var got, want := TreeOf(Sub(c), sh), Visited(visit, t);
    assert forall j :: 0 <= j < |sh.subs| ==> got.kids[j] == want.kids[j];
    assert got.kids == want.kids;
  }
}
