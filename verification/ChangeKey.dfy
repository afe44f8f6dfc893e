/**
  secretChangeKey (secretref.go): the byte stream fed to the hash, which is a digest of the document
  and of every secret it references. Strings are byte strings here, as Go has them.
 */
module ChangeKey {
  import opened Wrappers
  import opened ByteStrings
  import Lexicographic

  const TWO_TO_THE_64: nat := 0x1_0000_0000_0000_0000

  type Text = s: Bytes | |s| < TWO_TO_THE_64

  // ----- binary.BigEndian.AppendUint64 -----

  function BigEndian(n: nat, k: nat): (bs: Bytes)
    ensures |bs| == k
  {
    if k == 0 then [] else BigEndian(n / 256, k - 1) + [(n % 256) as byte]
  }

  function Power256(k: nat): (p: nat)
    ensures p > 0
  {
    if k == 0 then 1 else 256 * Power256(k - 1)
  }

  /** k bytes tell apart all numbers below 256^k. */
  lemma {:induction false} BigEndianInjective(m: nat, n: nat, k: nat)
    requires m < Power256(k) && n < Power256(k) && BigEndian(m, k) == BigEndian(n, k)
    ensures m == n
  {
    if k > 0 {
      var a, b := BigEndian(m, k), BigEndian(n, k);
      assert a[k - 1] == (m % 256) as byte && b[k - 1] == (n % 256) as byte;
      assert a[..k - 1] == BigEndian(m / 256, k - 1) && b[..k - 1] == BigEndian(n / 256, k - 1);
      BigEndianInjective(m / 256, n / 256, k - 1);
      assert m == 256 * (m / 256) + m % 256 && n == 256 * (n / 256) + n % 256;
    }
  }

  /** The most significant byte comes first: byte i counts the powers 256^(k - 1 - i). */
  lemma {:induction false} BigEndianBytes(n: nat, k: nat, i: nat)
    requires i < k
    ensures BigEndian(n, k)[i] as int == n / Power256(k - 1 - i) % 256
  {
    if i < k - 1 {
      BigEndianBytes(n / 256, k - 1, i);
      DivideTwice(n, Power256(k - 2 - i));
      assert Power256(k - 1 - i) == 256 * Power256(k - 2 - i);
    } else {
      assert Power256(0) == 1;
    }
  }

  lemma DivideTwice(n: nat, b: nat)
    requires b > 0
    ensures n / 256 / b == n / (256 * b)
  {
    var q, r := n / 256, n % 256;
    var u, v := q / b, q % b;
    assert (256 * b) * u == 256 * (b * u);
    QuotientIs(n, 256 * b, u, 256 * v + r);
  }

  lemma QuotientIs(n: nat, d: nat, q: nat, r: nat)
    requires d > 0 && n == d * q + r && r < d
    ensures n / d == q
  {
    var p := n / d;
    assert n == d * p + n % d;
    ProductsApart(d, p, q);
    ProductsApart(d, q, p);
  }

  lemma {:induction false} ProductsApart(d: nat, x: nat, y: nat)
    ensures x < y ==> d * x + d <= d * y
    decreases y
  {
    if x < y {
      assert d * y == d * (y - 1) + d;
      ProductsApart(d, x, y - 1);
    }
  }

  lemma EightBytesHoldAnyLength()
    ensures Power256(8) == TWO_TO_THE_64
  {
    assert Power256(4) == 0x1_0000_0000 by {
      assert Power256(2) == 0x1_0000;
    }
    assert Power256(6) == 0x1_0000_0000_0000 by {
      assert Power256(5) == 0x100_0000_0000;
    }
    assert Power256(7) == 0x100_0000_0000_0000;
  }

  function FieldBytes(s: Text): Bytes { BigEndian(|s|, 8) + s }

  /** A field can be cut off the front of a stream in one way only. */
  lemma FieldIsPrefixFree(s: Text, x: Bytes, t: Text, y: Bytes)
    requires FieldBytes(s) + x == FieldBytes(t) + y
    ensures s == t && x == y
  {
    var a, b := FieldBytes(s) + x, FieldBytes(t) + y;
    assert a[..8] == BigEndian(|s|, 8) && b[..8] == BigEndian(|t|, 8);
    EightBytesHoldAnyLength();
    BigEndianInjective(|s|, |t|, 8);
    assert a[8..8 + |s|] == s && b[8..8 + |t|] == t;
    assert a[8 + |s|..] == x && b[8 + |t|..] == y;
  }

  // ----- slices.Sorted(maps.Keys(values)) -----

  function ByteRank(b: byte): int { b as int }

  predicate Less(a: Bytes, b: Bytes) { Lexicographic.Less(ByteRank, a, b) }

  /** The order of byte strings that Go's sort uses. */
  lemma BytesLess(a: Bytes, b: Bytes)
    ensures Less(a, b) <==>
      a < b || exists i :: 0 <= i < |a| && i < |b| && a[..i] == b[..i] && a[i] < b[i]
  {
    Lexicographic.LessIff(ByteRank, a, b);
    if i: nat :| i < |a| && i < |b| && a[..i] == b[..i] && a[i] < b[i] {
      assert Lexicographic.LowerAt(ByteRank, a, b, i);
    }
    if i: nat :| Lexicographic.LowerAt(ByteRank, a, b, i) {
      assert a[i] < b[i];
    }
  }

  ghost predicate IsLeast(m: Text, s: set<Text>) {
    m in s && forall x :: x in s && x != m ==> Less(m, x)
  }

  lemma {:induction false} LeastExists(s: set<Text>) returns (m: Text)
    requires s != {}
    ensures IsLeast(m, s)
    decreases |s|
  {
    var x :| x in s;
    if s == {x} {
      m := x;
    } else {
      var n := LeastExists(s - {x});
      Lexicographic.LessIsTotal(ByteRank, x, n);
      if Less(x, n) {
        m := x;
        forall y | y in s && y != x ensures Less(x, y) {
          if y != n {
            assert y in s - {x} && Less(n, y);
            Lexicographic.LessIsTransitive(ByteRank, x, n, y);
          }
        }
      } else {
        m := n;
      }
    }
  }

  ghost function Least(s: set<Text>): (m: Text)
    requires s != {}
    ensures IsLeast(m, s)
  {
    assert exists m :: IsLeast(m, s) by {
      var m := LeastExists(s);
    }
    var m :| IsLeast(m, s);
    m
  }

  ghost function Sorted(s: set<Text>): (keys: seq<Text>)
    ensures forall x :: x in keys <==> x in s
    ensures forall i, j :: 0 <= i < j < |keys| ==> Less(keys[i], keys[j])
    decreases |s|
  {
    if s == {} then []
    else
      var m := Least(s);
      var rest := Sorted(s - {m});
      assert forall j :: 0 <= j < |rest| ==> rest[j] in rest;
      [m] + rest
  }

  // ----- The stream -----

  function Pairs(keys: seq<Text>, values: map<Text, Text>): Bytes
    requires forall x :: x in keys ==> x in values
  {
    if keys == [] then []
    else FieldBytes(keys[0]) + (FieldBytes(values[keys[0]]) + Pairs(keys[1..], values))
  }

  ghost function Stream(data: Text, values: map<Text, Text>): Bytes {
    FieldBytes(data) + Pairs(Sorted(values.Keys), values)
  }

  lemma {:induction false} PairsDecode(keys: seq<Text>, v: map<Text, Text>, names: seq<Text>, w: map<Text, Text>)
    requires (forall x :: x in keys ==> x in v) && (forall x :: x in names ==> x in w)
    requires Pairs(keys, v) == Pairs(names, w)
    ensures keys == names && forall x :: x in keys ==> v[x] == w[x]
  {
    if keys != [] && names != [] {
      var x, y := FieldBytes(v[keys[0]]) + Pairs(keys[1..], v), FieldBytes(w[names[0]]) + Pairs(names[1..], w);
      FieldIsPrefixFree(keys[0], x, names[0], y);
      FieldIsPrefixFree(v[keys[0]], Pairs(keys[1..], v), w[names[0]], Pairs(names[1..], w));
      PairsDecode(keys[1..], v, names[1..], w);
      assert keys == [keys[0]] + keys[1..] && names == [names[0]] + names[1..];
    }
  }

  /** The stream is uniquely decodable: two observations give the same stream exactly when the
      document bytes and the whole map of resolved secrets are the same. */
  lemma StreamIsFaithful(d: Text, v: map<Text, Text>, e: Text, w: map<Text, Text>)
    ensures Stream(d, v) == Stream(e, w) <==> d == e && v == w
  {
    if Stream(d, v) == Stream(e, w) {
      FieldIsPrefixFree(d, Pairs(Sorted(v.Keys), v), e, Pairs(Sorted(w.Keys), w));
      PairsDecode(Sorted(v.Keys), v, Sorted(w.Keys), w);
      assert forall x :: x in v.Keys <==> x in w.Keys;
      assert v.Keys == w.Keys;
    }
  }

  lemma Regroup(h: Bytes, a: Bytes, b: Bytes, c: Bytes)
    ensures h + (a + (b + c)) == ((h + a) + b) + c
  {
  }

  /** The loop that feeds the hash, over the names in sorted order. */
  method Feed(data: Text, names: seq<Text>, values: map<Text, Text>) returns (h: Bytes)
    requires names == Sorted(values.Keys)
    ensures h == Stream(data, values)
  {
    hide FieldBytes;
    h := FieldBytes(data);
    assert names[0..] == names;
    for i := 0 to |names|
      invariant Stream(data, values) == h + Pairs(names[i..], values)
    {
      assert names[i..][1..] == names[i + 1..] && names[i] in names;
      Regroup(h, FieldBytes(names[i]), FieldBytes(values[names[i]]), Pairs(names[i + 1..], values));
      h := h + FieldBytes(names[i]);
      h := h + FieldBytes(values[names[i]]);
    }
    assert names[|names|..] == [] && h + [] == h;
  }

  // ----- The whole key -----

  /** What keying a fetched document met: a document the reload would reject, a resolution that
      failed, or all its secrets. */
  datatype Observation = RejectedDoc(data: Text) | Unresolvable(data: Text) | Seen(data: Text, values: map<Text, Text>)

  ghost function KeyStream(o: Observation): Option<Bytes> {
    match o
    case RejectedDoc(data) => Some(FieldBytes(data))
    case Unresolvable(_) => None
    case Seen(data, values) => Some(Stream(data, values))
  }

  function SecretsOf(o: Observation): map<Text, Text> { if o.Seen? then o.values else map[] }

  /** A key is missing exactly when resolution failed; otherwise it tells apart all observations
      that differ in bytes or secrets, a rejected document counting as one without secrets. */
  lemma KeysTellObservationsApart(o: Observation, q: Observation)
    ensures KeyStream(o).None? <==> o.Unresolvable?
    ensures !o.Unresolvable? && !q.Unresolvable? ==>
      (KeyStream(o) == KeyStream(q) <==> o.data == q.data && SecretsOf(o) == SecretsOf(q))
  {
    assert Stream(o.data, map[]) == FieldBytes(o.data);
    assert Stream(q.data, map[]) == FieldBytes(q.data);
    StreamIsFaithful(o.data, SecretsOf(o), q.data, SecretsOf(q));
  }
}
