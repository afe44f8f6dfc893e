/**
  Go types as mapstructure decodes into them, and the search for the field of a key (secretref.go).
  Types are a graph of ids, because a config type may contain itself; only pointer chains and squashed
  embedding are assumed well founded, which `rank` witnesses.
 */
module Fields {
  import opened Wrappers
  import Lexicographic

  type TypeId = nat

  /** A struct field: its mapstructure tag is a name and the squash option. */
  datatype Field = Field(name: string, tag: string, squash: bool, exported: bool, anonymous: bool, typ: TypeId)

  /** SecretType is a struct too, but none of its fields can be decoded into. */
  datatype TypeDef =
    | Pointer(elem: TypeId)
    | Struct(fields: seq<Field>)
    | MapOf(elem: TypeId)
    | ListOf(elem: TypeId)   // slice or array
    | SecretType
    | Other

  /** `fold` maps a string to its case-folding class: strings.EqualFold compares these. */
  datatype RawTypes = RawTypes(def: TypeId -> TypeDef, fold: string -> string, rank: TypeId -> nat)

  ghost predicate Grounded(types: RawTypes) {
    forall t: TypeId {:trigger types.def(t)} ::
      match types.def(t)
      case Pointer(elem) => types.rank(elem) < types.rank(t)
      case Struct(fields) =>
        forall i :: 0 <= i < |fields| && fields[i].squash ==> types.rank(fields[i].typ) < types.rank(t)
      case _ => true
  }

  type Types = types: RawTypes | Grounded(types)
    ghost witness RawTypes(t => Other, s => s, t => 0)

  predicate EqualFold(types: Types, a: string, b: string) { types.fold(a) == types.fold(b) }

  /** Through all pointers. */
  function Deref(types: Types, t: TypeId): (u: TypeId)
    ensures !types.def(u).Pointer? && types.rank(u) <= types.rank(t)
    decreases types.rank(t)
  {
    match types.def(t)
    case Pointer(elem) => Deref(types, elem)
    case _ => t
  }

  // ----- Which field a key decodes into, said on the type definitions alone -----

  ghost predicate PointerChain(types: Types, chain: seq<TypeId>, t: TypeId, u: TypeId) {
    && chain != [] && chain[0] == t && chain[|chain| - 1] == u
    && forall i :: 0 <= i < |chain| - 1 ==> types.def(chain[i]) == Pointer(chain[i + 1])
  }

  /** `u` is what is left of `t` when all pointers are gone. */
  ghost predicate PointsTo(types: Types, t: TypeId, u: TypeId) {
    !types.def(u).Pointer? && exists chain :: PointerChain(types, chain, t, u)
  }

  lemma {:induction false} DerefPoints(types: Types, t: TypeId) returns (chain: seq<TypeId>)
    ensures PointerChain(types, chain, t, Deref(types, t))
    decreases types.rank(t)
  {
    if types.def(t).Pointer? {
      var rest := DerefPoints(types, types.def(t).elem);
      chain := [t] + rest;
    } else {
      chain := [t];
    }
  }

  lemma {:induction false} ChainMeansDeref(types: Types, chain: seq<TypeId>, t: TypeId, u: TypeId)
    requires PointerChain(types, chain, t, u) && !types.def(u).Pointer?
    ensures u == Deref(types, t)
    decreases |chain|
  {
    if |chain| > 1 {
      assert PointerChain(types, chain[1..], chain[1], u);
      ChainMeansDeref(types, chain[1..], chain[1], u);
    }
  }

  lemma PointsToIsDeref(types: Types, t: TypeId, u: TypeId)
    ensures PointsTo(types, t, u) <==> u == Deref(types, t)
  {
    var chain := DerefPoints(types, t);
    if PointsTo(types, t, u) {
      var c :| PointerChain(types, c, t, u);
      ChainMeansDeref(types, c, t, u);
    }
  }

  /** The indexes in `trail` lead through squashed fields, exported or embedded and not tagged "-", to
      the exported field `f`. */
  ghost predicate FieldTrail(types: Types, t: TypeId, trail: seq<nat>, f: Field)
    decreases |trail|
  {
    && trail != [] && types.def(t).Struct? && trail[0] < |types.def(t).fields|
    && var g := types.def(t).fields[trail[0]];
       && (g.exported || g.anonymous) && g.tag != "-"
       && if |trail| == 1 then !g.squash && g.exported && f == g
          else g.squash && exists v :: PointsTo(types, g.typ, v) && FieldTrail(types, v, trail[1..], f)
  }

  /** Its tag, or its name when it has none, folds to the key. */
  ghost predicate Answers(types: Types, f: Field, key: string) {
    types.fold(if f.tag == "" then f.name else f.tag) == types.fold(key)
  }

  function Position(i: nat): int { i }

  /** `trail` is the first of the trails that start between `lo` and `hi` and lead to a field that
      answers to the key. */
  ghost predicate First(types: Types, t: TypeId, key: string, trail: seq<nat>, f: Field, lo: nat, hi: nat) {
    && FieldTrail(types, t, trail, f) && Answers(types, f, key) && lo <= trail[0] < hi
    && forall other, g :: FieldTrail(types, t, other, g) && Answers(types, g, key) && lo <= other[0] < hi ==>
         other == trail || Lexicographic.Less(Position, trail, other)
  }

  ghost predicate FoundBetween(types: Types, t: TypeId, key: string, u: TypeId, lo: nat, hi: nat) {
    exists trail, f: Field :: f.typ == u && First(types, t, key, trail, f, lo, hi)
  }

  ghost predicate NoneBetween(types: Types, t: TypeId, key: string, lo: nat, hi: nat) {
    forall trail, f :: FieldTrail(types, t, trail, f) && Answers(types, f, key) ==> !(lo <= trail[0] < hi)
  }

  /** The key decodes into a field of type `u`: the first that answers to it, in declaration order, each
      squashed struct standing where its field stands. */
  ghost predicate KeyField(types: Types, t: TypeId, key: string, u: TypeId) {
    exists trail, f: Field :: f.typ == u
      && FieldTrail(types, t, trail, f) && Answers(types, f, key)
      && forall other, g :: FieldTrail(types, t, other, g) && Answers(types, g, key) ==>
           other == trail || Lexicographic.Less(Position, trail, other)
  }

  // ----- The same fields, squashed structs laid flat -----

  datatype Named = Named(name: string, typ: TypeId)

  function FieldName(f: Field): string { if f.tag == "" then f.name else f.tag }

  function Flatten(types: Types, t: TypeId): seq<Named>
    decreases types.rank(t)
  {
    match types.def(t)
    case Struct(fields) => FlattenTo(types, t, fields, |fields|)
    case _ => []
  }

  /** The first `k` fields of the struct `t`. */
  function FlattenTo(types: Types, t: TypeId, fields: seq<Field>, k: nat): seq<Named>
    requires types.def(t) == Struct(fields) && k <= |fields|
    decreases types.rank(t), k
  {
    if k == 0 then [] else FlattenTo(types, t, fields, k - 1) + FlattenField(types, t, fields, k - 1)
  }

  function FlattenField(types: Types, t: TypeId, fields: seq<Field>, i: nat): seq<Named>
    requires types.def(t) == Struct(fields) && i < |fields|
    decreases types.rank(t), i
  {
    var f := fields[i];
    if (!f.exported && !f.anonymous) || f.tag == "-" then []
    else if f.squash then Flatten(types, Deref(types, f.typ))
    else if !f.exported then []
    else [Named(FieldName(f), f.typ)]
  }

  function FirstMatch(types: Types, list: seq<Named>, key: string): Option<TypeId> {
    if list == [] then None
    else if EqualFold(types, list[0].name, key) then Some(list[0].typ)
    else FirstMatch(types, list[1..], key)
  }

  lemma {:induction false} FirstMatchOfSum(types: Types, a: seq<Named>, b: seq<Named>, key: string)
    ensures FirstMatch(types, a + b, key) ==
      if FirstMatch(types, a, key).Some? then FirstMatch(types, a, key) else FirstMatch(types, b, key)
  {
    if a == [] {
      assert a + b == b;
    } else {
      FirstMatchOfSum(types, a[1..], b, key);
      assert (a + b)[1..] == a[1..] + b;
    }
  }

  /** fieldByKey: the search through fields and squashed structs finds the first fold-equal name of
      the flattened list. */
  method FieldByKey(types: Types, t: TypeId, key: string) returns (found: Option<TypeId>)
    ensures found == FirstMatch(types, Flatten(types, t), key)
    ensures forall u: TypeId :: found == Some(u) <==> KeyField(types, t, key, u)
    decreases types.rank(t)
  {
    forall u: TypeId ensures FirstMatch(types, Flatten(types, t), key) == Some(u) <==> KeyField(types, t, key, u) {
      FirstMatchIsField(types, t, key, u);
    }
    hide KeyField;
    if !types.def(t).Struct? {
      return None;
    }
    var fields := types.def(t).fields;
    for i := 0 to |fields|
      invariant FirstMatch(types, FlattenTo(types, t, fields, i), key) == None
    {
      var f := fields[i];
      ghost var here := FlattenField(types, t, fields, i);
      FirstMatchOfSum(types, FlattenTo(types, t, fields, i), here, key);
      FlattenPrefix(types, t, fields, i + 1, key);
      if !f.exported && !f.anonymous {
        assert here == [];
        continue;
      }
      if f.tag == "-" {
        assert here == [];
        continue;
      }
      if f.squash {
        var ft := Deref(types, f.typ);
        assert here == Flatten(types, ft);
        if types.def(ft).Struct? {
          found := FieldByKey(types, ft, key);
          if found.Some? {
            return;
          }
        }
        continue;
      }
      if !f.exported {
        assert here == [];
        continue;
      }
      assert here == [Named(FieldName(f), f.typ)] && here[1..] == [];
      if EqualFold(types, FieldName(f), key) {
        return Some(f.typ);
      }
    }
    found := None;
  }

  /** A match among the first `k` fields is the match. */
  lemma {:induction false} FlattenPrefix(types: Types, t: TypeId, fields: seq<Field>, k: nat, key: string)
    requires types.def(t) == Struct(fields) && k <= |fields|
    ensures FirstMatch(types, FlattenTo(types, t, fields, k), key).Some? ==>
      FirstMatch(types, Flatten(types, t), key) == FirstMatch(types, FlattenTo(types, t, fields, k), key)
    decreases |fields| - k
  {
    if k < |fields| {
      FirstMatchOfSum(types, FlattenTo(types, t, fields, k), FlattenField(types, t, fields, k), key);
      FlattenPrefix(types, t, fields, k + 1, key);
    }
  }

  // ----- The flat list has these fields in this order -----

  lemma {:induction false} TrailDetermines(types: Types, t: TypeId, trail: seq<nat>, f: Field, g: Field)
    requires FieldTrail(types, t, trail, f) && FieldTrail(types, t, trail, g)
    ensures f == g
    decreases |trail|
  {
    if |trail| > 1 {
      var h := types.def(t).fields[trail[0]];
      var v :| PointsTo(types, h.typ, v) && FieldTrail(types, v, trail[1..], f);
      var w :| PointsTo(types, h.typ, w) && FieldTrail(types, w, trail[1..], g);
      PointsToIsDeref(types, h.typ, v);
      PointsToIsDeref(types, h.typ, w);
      TrailDetermines(types, v, trail[1..], f, g);
    }
  }

  lemma SquashedTrail(types: Types, t: TypeId, i: nat, trail: seq<nat>, f: Field)
    requires types.def(t).Struct? && i < |types.def(t).fields| && trail != []
    ensures var g := types.def(t).fields[i];
      FieldTrail(types, t, [i] + trail, f) <==>
        && (g.exported || g.anonymous) && g.tag != "-" && g.squash
        && FieldTrail(types, Deref(types, g.typ), trail, f)
  {
    var g := types.def(t).fields[i];
    assert ([i] + trail)[1..] == trail;
    forall v ensures PointsTo(types, g.typ, v) <==> v == Deref(types, g.typ) {
      PointsToIsDeref(types, g.typ, v);
    }
  }

  lemma {:induction false} FlattenFieldFinds(types: Types, t: TypeId, fields: seq<Field>, i: nat, key: string)
    requires types.def(t) == Struct(fields) && i < |fields|
    ensures var found := FirstMatch(types, FlattenField(types, t, fields, i), key);
      && (found.None? ==> NoneBetween(types, t, key, i, i + 1))
      && (found.Some? ==> FoundBetween(types, t, key, found.value, i, i + 1))
    decreases types.rank(t), i
  {
    var g := fields[i];
    if (g.exported || g.anonymous) && g.tag != "-" && g.squash {
      var d := Deref(types, g.typ);
      if types.def(d).Struct? {
        FlattenToFinds(types, d, types.def(d).fields, |types.def(d).fields|, key);
      }
      SquashedFinds(types, t, i, d, key);
    } else if (g.exported || g.anonymous) && g.tag != "-" && g.exported {
      assert [Named(FieldName(g), g.typ)][1..] == [];
      if EqualFold(types, FieldName(g), key) {
        assert First(types, t, key, [i], g, i, i + 1);
      }
    }
  }

  lemma SquashedFinds(types: Types, t: TypeId, i: nat, d: TypeId, key: string)
    requires types.def(t).Struct? && i < |types.def(t).fields|
    requires var g := types.def(t).fields[i];
      (g.exported || g.anonymous) && g.tag != "-" && g.squash && d == Deref(types, g.typ)
    requires var n := if types.def(d).Struct? then |types.def(d).fields| else 0;
      var found := FirstMatch(types, Flatten(types, d), key);
      && (types.def(d).Struct? && found.None? ==> NoneBetween(types, d, key, 0, n))
      && (found.Some? ==> FoundBetween(types, d, key, found.value, 0, n))
    ensures var found := FirstMatch(types, Flatten(types, d), key);
      && (found.None? ==> NoneBetween(types, t, key, i, i + 1))
      && (found.Some? ==> FoundBetween(types, t, key, found.value, i, i + 1))
  {
    var n := if types.def(d).Struct? then |types.def(d).fields| else 0;
    var found := FirstMatch(types, Flatten(types, d), key);
    forall trail, f | FieldTrail(types, t, trail, f) && i <= trail[0] < i + 1
      ensures |trail| > 1 && trail == [i] + trail[1..] && FieldTrail(types, d, trail[1..], f) && trail[1] < n
    {
      assert trail == [i] + trail[1..];
      SquashedTrail(types, t, i, trail[1..], f);
    }
    if found.Some? {
      var rest, f: Field :| f.typ == found.value && First(types, d, key, rest, f, 0, n);
      var trail := [i] + rest;
      SquashedTrail(types, t, i, rest, f);
      forall other, g | FieldTrail(types, t, other, g) && Answers(types, g, key) && i <= other[0] < i + 1
        ensures other == trail || Lexicographic.Less(Position, trail, other)
      {
        assert other[1..] == rest || Lexicographic.Less(Position, rest, other[1..]);
        assert trail[1..] == rest;
      }
      assert First(types, t, key, trail, f, i, i + 1);
    }
  }

  lemma {:induction false} FlattenToFinds(types: Types, t: TypeId, fields: seq<Field>, k: nat, key: string)
    requires types.def(t) == Struct(fields) && k <= |fields|
    ensures var found := FirstMatch(types, FlattenTo(types, t, fields, k), key);
      && (found.None? ==> NoneBetween(types, t, key, 0, k))
      && (found.Some? ==> FoundBetween(types, t, key, found.value, 0, k))
    decreases types.rank(t), k
  {
    if k > 0 {
      var before, here := FlattenTo(types, t, fields, k - 1), FlattenField(types, t, fields, k - 1);
      FlattenToFinds(types, t, fields, k - 1, key);
      FlattenFieldFinds(types, t, fields, k - 1, key);
      FirstMatchOfSum(types, before, here, key);
      hide FieldTrail, Answers;
      if FirstMatch(types, before, key).Some? {
        var u := FirstMatch(types, before, key).value;
        var trail, f: Field :| f.typ == u && First(types, t, key, trail, f, 0, k - 1);
        EarlierStaysFirst(types, t, key, trail, f, k);
      } else if FirstMatch(types, here, key).Some? {
        var u := FirstMatch(types, here, key).value;
        var trail, f: Field :| f.typ == u && First(types, t, key, trail, f, k - 1, k);
        assert First(types, t, key, trail, f, 0, k);
      }
    }
  }

  lemma EarlierStaysFirst(types: Types, t: TypeId, key: string, trail: seq<nat>, f: Field, k: nat)
    requires k > 0 && First(types, t, key, trail, f, 0, k - 1)
    ensures First(types, t, key, trail, f, 0, k)
  {
    forall other, g | FieldTrail(types, t, other, g) && Answers(types, g, key) && 0 <= other[0] < k
      ensures other == trail || Lexicographic.Less(Position, trail, other)
    {
      assert trail[0] < k - 1;
    }
  }

  /** The first match in the flat list is the field that the key decodes into. */
  lemma FirstMatchIsField(types: Types, t: TypeId, key: string, u: TypeId)
    ensures FirstMatch(types, Flatten(types, t), key) == Some(u) <==> KeyField(types, t, key, u)
  {
    var found := FirstMatch(types, Flatten(types, t), key);
    if types.def(t).Struct? {
      var n := |types.def(t).fields|;
      FlattenToFinds(types, t, types.def(t).fields, n, key);
      assert forall trail, f :: FieldTrail(types, t, trail, f) ==> trail != [] && 0 <= trail[0] < n;
      hide FieldTrail, Answers;
      if found.Some? {
        var trail, f: Field :| f.typ == found.value && First(types, t, key, trail, f, 0, n);
        assert KeyField(types, t, key, found.value);
        if KeyField(types, t, key, u) {
          var other, g: Field :| g.typ == u && FieldTrail(types, t, other, g) && Answers(types, g, key)
            && forall o, h :: FieldTrail(types, t, o, h) && Answers(types, h, key) ==>
                 o == other || Lexicographic.Less(Position, other, o);
          Lexicographic.LessIsStrict(Position, trail, other);
          assert other == trail;
          TrailDetermines(types, t, trail, f, g);
        }
      }
    }
  }
}
