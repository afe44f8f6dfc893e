/** Secret values (secret.go) over an abstract deterministic seal. */
module Secrets {
  import opened Wrappers
  import opened Grammar

  /** AES-GCM under the process key: what was sealed opens to itself, and a sealed string has room
      for its nonce. */
  datatype RawSeal = RawSeal(nonceSize: nat, seal: string -> string, open: string -> Option<string>)

  ghost predicate Seals(k: RawSeal) {
    k.nonceSize > 0 && forall v :: k.open(k.seal(v)) == Some(v) && |k.seal(v)| >= k.nonceSize
  }

  type Seal = k: RawSeal | Seals(k) ghost witness RawSeal(1, v => "#" + v, s => if s == "" then None else Some(s[1..]))

  const REDACTED := "[REDACTED]"

  datatype Secret = Secret(sealed: string, ref: string, unresolved: bool) {
    predicate IsEmpty() { sealed == "" && !unresolved }

    predicate IsUnresolved() { unresolved }

    /** What every printer and marshaller shows. */
    function String(): string {
      if ref != "" then SECRET_TAG + " " + ref
      else if IsEmpty() then ""
      else REDACTED
    }
  }

  function NewSecret(k: Seal, value: string): Secret {
    if value == "" then Secret("", "", false) else Secret(k.seal(value), "", false)
  }

  function Reveal(k: Seal, s: Secret): string {
    if |s.sealed| < k.nonceSize then ""
    else match k.open(s.sealed)
      case None => ""
      case Some(plain) => plain
  }

  /** What resolveSecrets stores for a name... */
  function Resolved(k: Seal, name: string, value: string): Secret {
    NewSecret(k, value).(ref := name)
  }

  /** ... and what DecodeUnresolved stores. */
  function Unresolved(name: string): Secret { Secret("", name, true) }

  lemma RevealUndoesSeal(k: Seal, name: string, value: string)
    ensures Reveal(k, Resolved(k, name, value)) == value && Reveal(k, NewSecret(k, value)) == value
    ensures NewSecret(k, value).IsEmpty() <==> value == ""
    ensures var u := Unresolved(name); Reveal(k, u) == "" && u.IsUnresolved() && !u.IsEmpty()
  {
    assert Seals(k);
  }

  /** Equality, which drives dirtiness, is equality of name and plaintext; an unresolved secret
      equals no resolved one. */
  lemma EqualIffSamePlaintext(k: Seal, m: string, v: string, n: string, w: string)
    ensures Resolved(k, m, v) == Resolved(k, n, w) <==> m == n && v == w
    ensures NewSecret(k, v) == NewSecret(k, w) <==> v == w
    ensures Resolved(k, m, v) == NewSecret(k, w) <==> m == "" && v == w
    ensures Unresolved(m) != Resolved(k, n, w) && Unresolved(m) != NewSecret(k, w)
  {
    RevealUndoesSeal(k, m, v);
    RevealUndoesSeal(k, n, w);
  }

  // ----- SecretDecodeHook, for the target type Secret -----

  datatype Data = Sealed(secret: Secret) | Text(text: string) | NotText

  function DecodeHook(k: Seal, data: Data): Outcome<Secret> {
    match data
    case Sealed(s) => Ok(s)
    case Text(t) =>
      if t == REDACTED then Err
      else if SecretRefName(t).Some? then Err
      else Ok(NewSecret(k, t))
    case NotText => Err
  }

  // ----- A dump written back -----

  /** What a string leaf on a Secret field comes to. */
  datatype FedBack = IsReference(name: string) | NameMissing | Refused | Decoded(secret: Secret)

  function FeedBack(k: Seal, leaf: string): FedBack {
    match ReadLeaf(leaf)
    case Reference(name) => if name == "" then NameMissing else IsReference(name)
    case Literal(text) =>
      match DecodeHook(k, Text(text))
      case Ok(s) => Decoded(s)
      case Err => Refused
  }

  /** The names references carry. */
  ghost predicate IsName(name: string) {
    name != "" && exists s :: SecretRefName(s) == Some(name)
  }

  /** The secrets a program can come to hold. */
  ghost predicate Produced(k: Seal, s: Secret) {
    || (exists v :: s == NewSecret(k, v))
    || (exists name, v :: IsName(name) && s == Resolved(k, name, v))
    || (exists name :: IsName(name) && s == Unresolved(name))
  }

  lemma TagReadsAsReference(name: string)
    requires IsName(name)
    ensures ReadLeaf(SECRET_TAG + " " + name) == Reference(name)
  {
    var s :| SecretRefName(s) == Some(name);
    NameRoundTrip(s);
  }

  lemma PlainReadings()
    ensures ReadLeaf(REDACTED) == Literal(REDACTED)
    ensures ReadLeaf("") == Literal("")
  {
    assert REDACTED[0] == '[';
    assert Bangs(REDACTED) == 0 && Bangs("") == 0;
    OnlyEscapeReadsAs(REDACTED, REDACTED);
    OnlyEscapeReadsAs("", "");
  }

  /** Dumps never become secrets: the printed form of a secret, put back on a Secret field, is a
      reference to the same name, or is refused, or is the empty secret it was printed from. */
  lemma DumpsNeverBecomeSecrets(k: Seal, s: Secret)
    requires Produced(k, s)
    ensures FeedBack(k, s.String()) ==
      if s.ref != "" then IsReference(s.ref)
      else if s.IsEmpty() then Decoded(s)
      else Refused
  {
    PlainReadings();
    if s.ref != "" {
      assert IsName(s.ref);
      TagReadsAsReference(s.ref);
    } else if s.IsEmpty() {
      assert s == NewSecret(k, "");
    }
  }

  /** The printed form tells nothing of the plaintext except, for a nameless secret, emptiness. */
  lemma PrintHidesPlaintext(k: Seal, name: string, v: string, w: string)
    requires IsName(name)
    ensures Resolved(k, name, v).String() == Resolved(k, name, w).String() == Unresolved(name).String()
    ensures NewSecret(k, v).String() == NewSecret(k, w).String() <==> (v == "" <==> w == "")
  {
    RevealUndoesSeal(k, name, v);
    RevealUndoesSeal(k, name, w);
  }

  /** Which plaintexts a document can give a Secret field as a literal: all but the redaction marker
      and the strings that are references themselves, which no escape makes acceptable. */
  lemma SecretLiteralsWritable(k: Seal, v: string)
    ensures FeedBack(k, Escape(v)) ==
      if v == "[REDACTED]" || SecretRefName(v).Some? then Refused else Decoded(NewSecret(k, v))
  {
    EscapeRoundTrip(v);
  }
}
