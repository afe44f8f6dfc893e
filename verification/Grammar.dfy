/** The grammar of string leaves (secretref.go): "!secret NAME" is a reference, "!!secret ..." an
    escaped literal, anything else itself. */
module Grammar {
  import opened Wrappers

  const SECRET_TAG := "!secret"

  /** unicode.IsSpace */
  predicate IsSpace(c: char) {
    || '\U{0009}' <= c <= '\U{000D}' || c == ' ' || c == '\U{0085}' || c == '\U{00A0}' || c == '\U{1680}'
    || '\U{2000}' <= c <= '\U{200A}' || c == '\U{2028}' || c == '\U{2029}' || c == '\U{202F}' || c == '\U{205F}'
    || c == '\U{3000}'
  }

  /** The 25 code points with the Unicode property White_Space. */
  lemma SpacesAre(c: char)
    ensures IsSpace(c) <==> c as int in {
      0x9, 0xA, 0xB, 0xC, 0xD, 0x20, 0x85, 0xA0, 0x1680, 0x2000, 0x2001, 0x2002, 0x2003, 0x2004, 0x2005, 0x2006,
      0x2007, 0x2008, 0x2009, 0x200A, 0x2028, 0x2029, 0x202F, 0x205F, 0x3000}
  {
  }

  function TrimLeftSpace(s: string): string {
    if s != "" && IsSpace(s[0]) then TrimLeftSpace(s[1..]) else s
  }

  function TrimRightSpace(s: string): string {
    if s != "" && IsSpace(s[|s| - 1]) then TrimRightSpace(s[..|s| - 1]) else s
  }

  /** strings.TrimSpace */
  function TrimSpace(s: string): string { TrimRightSpace(TrimLeftSpace(s)) }

  function TrimLeftBangs(s: string): string {
    if s != "" && s[0] == '!' then TrimLeftBangs(s[1..]) else s
  }

  /** secretRefName: the name, "" when it is missing, or None when `s` is not a reference. */
  function SecretRefName(s: string): Option<string> {
    if s == SECRET_TAG then Some("")
    else if SECRET_TAG + " " <= s then Some(TrimSpace(s[|SECRET_TAG| + 1..]))
    else None
  }

  /** unescapeSecretRef: the literal, or None when `s` is not an escaped reference. */
  function UnescapeSecretRef(s: string): Option<string> {
    if !("!!" <= s) then None
    else if SecretRefName("!" + TrimLeftBangs(s)).None? then None
    else Some(s[1..])
  }

  datatype Reading = Reference(name: string) | Literal(text: string)

  /** The leaf rule of `fill`. */
  function ReadLeaf(s: string): Reading {
    match SecretRefName(s)
    case Some(name) => Reference(name)
    case None =>
      match UnescapeSecretRef(s)
      case Some(lit) => Literal(lit)
      case None => Literal(s)
  }

  // ----- The grammar said without the code: k bangs, then "secret", then end or space -----

  predicate Shape(s: string, k: nat) {
    && k + 6 <= |s|
    && (forall i :: 0 <= i < k ==> s[i] == '!')
    && s[k..k + 6] == "secret"
    && (|s| == k + 6 || s[k + 6] == ' ')
  }

  lemma ReferenceShape(s: string)
    ensures SecretRefName(s).Some? <==> Shape(s, 1)
  {
    if Shape(s, 1) {
      assert s[..7] == [s[0]] + s[1..7] == SECRET_TAG;
      if |s| > 7 {
        assert s[..8] == s[..7] + [s[7]] == SECRET_TAG + " ";
      }
    }
    if SECRET_TAG + " " <= s {
      assert s[..8] == SECRET_TAG + " ";
      assert s[1..7] == s[..8][1..7] == "secret";
      assert s[0] == s[..8][0] && s[7] == s[..8][7];
    }
  }

  lemma {:induction false} TrimmedShape(s: string, k: nat)
    requires k <= |s| && (forall i :: 0 <= i < k ==> s[i] == '!') && (k == |s| || s[k] != '!')
    ensures TrimLeftBangs(s) == s[k..]
  {
    if k > 0 {
      TrimmedShape(s[1..], k - 1);
      assert s[1..][k - 1..] == s[k..];
    }
  }

  /** How many bangs a string starts with. */
  function Bangs(s: string): (k: nat)
    ensures k <= |s| && (forall i :: 0 <= i < k ==> s[i] == '!') && (k == |s| || s[k] != '!')
  {
    if s != "" && s[0] == '!' then 1 + Bangs(s[1..]) else 0
  }

  lemma ShapeCountsBangs(s: string, k: nat)
    ensures Shape(s, k) ==> k == Bangs(s)
  {
    if Shape(s, k) {
      assert s[k] == s[k..k + 6][0];
    }
  }

  lemma ShapeOfTail(s: string, k: nat)
    requires k <= |s|
    ensures Shape("!" + s[k..], 1) <==> k + 6 <= |s| && s[k..k + 6] == "secret" && (|s| == k + 6 || s[k + 6] == ' ')
  {
    var t := "!" + s[k..];
    if k + 6 <= |s| {
      assert t[1..7] == s[k..k + 6];
    }
  }

  lemma EscapedShape(s: string)
    ensures UnescapeSecretRef(s).Some? <==> Bangs(s) >= 2 && Shape(s, Bangs(s))
  {
    var k := Bangs(s);
    TrimmedShape(s, k);
    ShapeOfTail(s, k);
    ReferenceShape("!" + TrimLeftBangs(s));
    if "!!" <= s {
      assert s[0] == s[..2][0] && s[1] == s[..2][1];
      assert k >= 2;
    }
    if k >= 2 {
      assert s[..2] == "!!";
    }
  }

  /** Every string is exactly one of reference, escaped literal and plain, told apart by its shape. */
  lemma ExactlyOneKind(s: string)
    ensures SecretRefName(s).Some? <==> Shape(s, 1)
    ensures UnescapeSecretRef(s).Some? <==> exists k :: k >= 2 && Shape(s, k)
    ensures !(SecretRefName(s).Some? && UnescapeSecretRef(s).Some?)
    ensures SecretRefName(s).None? && UnescapeSecretRef(s).None? ==> forall k :: k >= 1 ==> !Shape(s, k)
  {
    ReferenceShape(s);
    EscapedShape(s);
    forall k: nat ensures Shape(s, k) ==> k == Bangs(s) {
      ShapeCountsBangs(s, k);
    }
  }

  /** One bang more, for exactly the strings that would otherwise not be read as themselves. */
  function Escape(s: string): string {
    if Bangs(s) >= 1 && Shape(s, Bangs(s)) then "!" + s else s
  }

  lemma ShapeGrows(s: string, k: nat)
    ensures Shape("!" + s, k + 1) <==> Shape(s, k)
  {
    var t := "!" + s;
    if k + 6 <= |s| {
      assert t[k + 1..k + 7] == s[k..k + 6];
      assert forall i :: 0 <= i < k ==> t[i + 1] == s[i];
    }
  }

  lemma BangsGrow(s: string)
    ensures Bangs("!" + s) == Bangs(s) + 1
  {
    assert ("!" + s)[1..] == s;
  }

  /** The leaf rule undoes Escape, so every literal can be written... */
  lemma EscapeRoundTrip(s: string)
    ensures ReadLeaf(Escape(s)) == Literal(s)
  {
    var k := Bangs(s);
    var t := Escape(s);
    ExactlyOneKind(t);
    EscapedShape(t);
    if k >= 1 && Shape(s, k) {
      ShapeGrows(s, k);
      BangsGrow(s);
      ShapeCountsBangs(t, 1);
      assert t[1..] == s;
    } else {
      ShapeCountsBangs(s, 1);
    }
  }

  /** ... in exactly one way: a leaf reads as the literal `s` if and only if it is Escape(s). */
  lemma OnlyEscapeReadsAs(t: string, s: string)
    ensures ReadLeaf(t) == Literal(s) <==> t == Escape(s)
  {
    EscapeRoundTrip(s);
    if ReadLeaf(t) == Literal(s) {
      ExactlyOneKind(t);
      EscapedShape(t);
      if UnescapeSecretRef(t).Some? {
        assert t == "!" + s;
        ShapeGrows(s, Bangs(t) - 1);
        BangsGrow(s);
      } else if Bangs(t) >= 1 {
        assert !Shape(t, Bangs(t));
      }
    }
  }

  // ----- Names -----

  lemma {:induction false} TrimLeftEnds(s: string)
    ensures TrimLeftSpace(s) == "" || !IsSpace(TrimLeftSpace(s)[0])
  {
    if s != "" && IsSpace(s[0]) {
      TrimLeftEnds(s[1..]);
    }
  }

  lemma {:induction false} TrimRightEnds(s: string)
    ensures TrimRightSpace(s) <= s
    ensures var t := TrimRightSpace(s); t == "" || !IsSpace(t[|t| - 1])
  {
    if s != "" && IsSpace(s[|s| - 1]) {
      TrimRightEnds(s[..|s| - 1]);
    }
  }

  predicate AllSpace(s: string) { forall i :: 0 <= i < |s| ==> IsSpace(s[i]) }

  /** No white space at either end. */
  predicate Tight(s: string) { s == "" || (!IsSpace(s[0]) && !IsSpace(s[|s| - 1])) }

  lemma {:induction false} TrimLeftOfPadded(a: string, t: string)
    requires AllSpace(a) && (t == "" || !IsSpace(t[0]))
    ensures TrimLeftSpace(a + t) == t
  {
    if a == "" {
      assert a + t == t;
    } else {
      TrimLeftOfPadded(a[1..], t);
      assert (a + t)[1..] == a[1..] + t;
    }
  }

  lemma {:induction false} TrimRightOfPadded(t: string, b: string)
    requires AllSpace(b) && (t == "" || !IsSpace(t[|t| - 1]))
    ensures TrimRightSpace(t + b) == t
  {
    if b == "" {
      assert t + b == t;
    } else {
      var n := |b| - 1;
      TrimRightOfPadded(t, b[..n]);
      assert (t + b)[..|t + b| - 1] == t + b[..n];
    }
  }

  lemma {:induction false} TrimLeftCutsSpace(s: string) returns (a: string)
    ensures AllSpace(a) && s == a + TrimLeftSpace(s)
  {
    if s != "" && IsSpace(s[0]) {
      var rest := TrimLeftCutsSpace(s[1..]);
      a := [s[0]] + rest;
      assert s == [s[0]] + s[1..];
    } else {
      a := "";
      assert s == "" + s;
    }
  }

  lemma {:induction false} TrimRightCutsSpace(s: string) returns (b: string)
    ensures AllSpace(b) && s == TrimRightSpace(s) + b
  {
    if s != "" && IsSpace(s[|s| - 1]) {
      var rest := TrimRightCutsSpace(s[..|s| - 1]);
      b := rest + [s[|s| - 1]];
      assert s == s[..|s| - 1] + [s[|s| - 1]];
    } else {
      b := "";
      assert s == s + "";
    }
  }

  /** `s` is `name` between white space. */
  ghost predicate Padded(s: string, name: string) {
    Tight(name) && exists a, b :: AllSpace(a) && AllSpace(b) && s == a + (name + b)
  }

  lemma TrimIsExact(s: string, name: string)
    ensures TrimSpace(s) == name <==> Padded(s, name)
  {
    if Padded(s, name) {
      var a, b :| AllSpace(a) && AllSpace(b) && s == a + (name + b);
      PaddedTrims(s, name, a, b);
    }
    if TrimSpace(s) == name {
      var a := TrimLeftCutsSpace(s);
      var b := TrimRightCutsSpace(TrimLeftSpace(s));
      TrimLeftEnds(s);
      TrimRightEnds(TrimLeftSpace(s));
      assert name != "" ==> name[0] == TrimLeftSpace(s)[0];
      assert s == a + (name + b);
    }
  }

  lemma PaddedTrims(s: string, name: string, a: string, b: string)
    requires Tight(name) && AllSpace(a) && AllSpace(b) && s == a + (name + b)
    ensures TrimSpace(s) == name
  {
    if name == "" {
      assert s == (a + b) + "";
      TrimLeftOfPadded(a + b, "");
      assert TrimRightSpace("") == "";
    } else {
      TrimLeftOfPadded(a, name + b);
      TrimRightOfPadded(name, b);
    }
  }

  /** A string refers to `name` exactly when it is the tag, a space, and the name with any white
      space around it; the bare tag refers to no name. */
  lemma ReferencesExactly(s: string, name: string)
    ensures SecretRefName(s) == Some(name) <==>
      (s == SECRET_TAG && name == "") || exists rest :: s == SECRET_TAG + " " + rest && Padded(rest, name)
  {
    if SECRET_TAG + " " <= s {
      var rest := s[|SECRET_TAG| + 1..];
      assert s == SECRET_TAG + " " + rest;
      TrimIsExact(rest, name);
    }
    forall rest | s == SECRET_TAG + " " + rest ensures rest == s[|SECRET_TAG| + 1..] {
    }
  }

  /** A name read from a reference reads as itself when written back. */
  lemma NameRoundTrip(s: string)
    requires SecretRefName(s).Some? && SecretRefName(s).value != ""
    ensures SecretRefName(SECRET_TAG + " " + SecretRefName(s).value) == SecretRefName(s)
  {
    var name := SecretRefName(s).value;
    TrimLeftEnds(s[|SECRET_TAG| + 1..]);
    TrimRightEnds(TrimLeftSpace(s[|SECRET_TAG| + 1..]));
    assert (SECRET_TAG + " " + name)[|SECRET_TAG| + 1..] == name;
    assert TrimLeftSpace(name) == name && TrimRightSpace(name) == name;
  }
}
