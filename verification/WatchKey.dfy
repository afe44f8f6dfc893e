/**
  The change key that a Manager installs (secretref.go), from the document to the bytes that are
  hashed: it parses, checks and resolves as a reload would, and keys what it found.
 */
module WatchKey {
  import opened Wrappers
  import opened ByteStrings
  import opened Grammar
  import opened Secrets
  import opened Document
  import opened Acceptance
  import opened ReadConfig
  import ChangeKey
  import Polling
  import Pool

  type Text = ChangeKey.Text

  /** The bytes of these strings are all different. */
  ghost predicate TellsApart(encode: string -> Text, texts: set<string>) {
    forall s, t :: s in texts && t in texts && encode(s) == encode(t) ==> s == t
  }

  /** The plaintext bytes of each secret under the bytes of its name. */
  ghost function Revealed(k: Seal, encode: string -> Text, values: map<string, Secret>): map<Text, Text>
    requires TellsApart(encode, values.Keys)
  {
    map name | name in values :: encode(name) := encode(Reveal(k, values[name]))
  }

  /** secretChangeKey before hashing: None is an error. */
  ghost function KeyOf(m: Settings, encode: string -> Text, data: Text, decoded: Option<Tree>,
                       cached: Option<map<string, Secret>>, steps: seq<Pool.Step>): Option<Bytes>
    requires decoded.Some? ==> WellKeyed(decoded.value)
    requires Answers(m, decoded, cached, steps)
    requires Parses(decoded) ==> TellsApart(encode, Names(Collect(decoded.value, []).uses))
  {
    if !Parses(decoded) then Some(ChangeKey.FieldBytes(data))
    else
      var uses := Collect(decoded.value, []).uses;
      if RefusedUses(m.types, m.targets, uses) != [] then Some(ChangeKey.FieldBytes(data))
      else if cached.Some? then Some(ChangeKey.Stream(data, Revealed(m.seal, encode, cached.value)))
      else
        ResolutionFits(m, uses, steps);
        match ResolveSecrets(m, uses, steps).0
        case Values(values) => Some(ChangeKey.Stream(data, Revealed(m.seal, encode, values)))
        case Unresolvable(_) => None
  }

  /** A key is missing if and only if the document would be accepted, nothing is cached for it, and its
      secrets cannot be resolved; a document that a reload would reject is keyed on its bytes alone. */
  lemma KeyMissingIff(m: Settings, encode: string -> Text, data: Text, decoded: Option<Tree>,
                      cached: Option<map<string, Secret>>, steps: seq<Pool.Step>, answers: string -> Pool.Answer)
    requires decoded.Some? ==> WellKeyed(decoded.value)
    requires Answers(m, decoded, cached, steps)
    requires Parses(decoded) ==> TellsApart(encode, Names(Collect(decoded.value, []).uses))
    requires Parses(decoded) && cached.None? ==> Answering(Collect(decoded.value, []).uses, steps, answers)
    ensures KeyOf(m, encode, data, decoded, cached, steps).None? <==>
      && Parses(decoded) && AllOnSecrets(m, decoded.value) && cached.None?
      && !Resolvable(m, Collect(decoded.value, []).uses, steps, answers)
    ensures !Parses(decoded) || !AllOnSecrets(m, decoded.value) ==>
      KeyOf(m, encode, data, decoded, cached, steps) == Some(ChangeKey.FieldBytes(data))
  {
    hide AllOnSecrets, Collect, Fits, RefusedUses, Answering, Resolvable, ResolveSecrets, Waited, TellsApart;
    hide ChangeKey.Stream, ChangeKey.FieldBytes;
    if Parses(decoded) {
      AcceptedIffAllOnSecrets(m, decoded.value);
      if cached.None? {
        ResolvesIff(m, Collect(decoded.value, []).uses, steps, answers);
      }
    }
  }

  /** A key is that of some content, as polling models it: the bytes, with the plaintexts of the secrets
      if the document would be accepted. */
  lemma KeyIsOfContent(m: Settings, encode: string -> Text, data: Text, decoded: Option<Tree>,
                       cached: Option<map<string, Secret>>, steps: seq<Pool.Step>) returns (seen: Polling.Content)
    requires decoded.Some? ==> WellKeyed(decoded.value)
    requires Answers(m, decoded, cached, steps)
    requires Parses(decoded) ==> TellsApart(encode, Names(Collect(decoded.value, []).uses))
    requires KeyOf(m, encode, data, decoded, cached, steps).Some?
    ensures seen.data == data
    ensures KeyOf(m, encode, data, decoded, cached, steps) == Some(Polling.SecretChangeKey()(seen))
  {
    hide Collect, Fits, RefusedUses, ResolveSecrets, Waited, TellsApart, Revealed;
    seen := Polling.Content(data, map[]);
    assert ChangeKey.Stream(data, map[]) == ChangeKey.FieldBytes(data);
    if Parses(decoded) {
      var uses := Collect(decoded.value, []).uses;
      if RefusedUses(m.types, m.targets, uses) == [] {
        if cached.None? {
          ResolutionFits(m, uses, steps);
        }
        FittingValuesStandForTheirNames(m, ValuesUsed(m, uses, cached, steps), Names(uses));
        hide ChangeKey.Stream;
        seen := Polling.Content(data, Revealed(m.seal, encode, ValuesUsed(m, uses, cached, steps)));
      }
    }
  }

  /** Keys of different bytes differ, whatever the documents and their secrets. */
  lemma OtherBytesOtherKey(m: Settings, encode: string -> Text, data: Text, decoded: Option<Tree>,
                           cached: Option<map<string, Secret>>, steps: seq<Pool.Step>,
                           other: Text, reread: Option<Tree>, again: Option<map<string, Secret>>, rerun: seq<Pool.Step>)
    requires (decoded.Some? ==> WellKeyed(decoded.value)) && (reread.Some? ==> WellKeyed(reread.value))
    requires Answers(m, decoded, cached, steps) && Answers(m, reread, again, rerun)
    requires Parses(decoded) ==> TellsApart(encode, Names(Collect(decoded.value, []).uses))
    requires Parses(reread) ==> TellsApart(encode, Names(Collect(reread.value, []).uses))
    requires KeyOf(m, encode, data, decoded, cached, steps).Some?
    requires KeyOf(m, encode, data, decoded, cached, steps) == KeyOf(m, encode, other, reread, again, rerun)
    ensures data == other
  {
    hide *;
    var c := KeyIsOfContent(m, encode, data, decoded, cached, steps);
    var d := KeyIsOfContent(m, encode, other, reread, again, rerun);
    Polling.TheTwoKeys(c, d);
    FaithfulOn(c, d);
  }

  lemma FaithfulOn(c: Polling.Content, d: Polling.Content)
    requires Polling.Faithful(Polling.SecretChangeKey())
    ensures Polling.SecretChangeKey()(c) == Polling.SecretChangeKey()(d) ==> c == d
  {
  }

  /** Rotation reads as a change, and nothing else does: two polls of an accepted document that resolve
      its secrets have the same key if and only if the resolver gave both the same values. */
  lemma KeyChangesIffRotated(m: Settings, encode: string -> Text, data: Text, doc: Tree, texts: set<string>,
                             steps: seq<Pool.Step>, answers: string -> Pool.Answer,
                             later: seq<Pool.Step>, rotated: string -> Pool.Answer)
    requires WellKeyed(doc) && Parses(Some(doc)) && AllOnSecrets(m, doc) && !m.unresolved && TellsApart(encode, texts)
    requires var uses := Collect(doc, []).uses;
      && Names(uses) <= texts
      && Waited(m, uses, steps) && Answering(uses, steps, answers) && Resolvable(m, uses, steps, answers)
      && Waited(m, uses, later) && Answering(uses, later, rotated) && Resolvable(m, uses, later, rotated)
      && forall name :: name in Names(uses) && Pool.Usable(answers(name)) && Pool.Usable(rotated(name)) ==>
           answers(name).text in texts && rotated(name).text in texts
    ensures KeyOf(m, encode, data, Some(doc), None, steps) == KeyOf(m, encode, data, Some(doc), None, later) <==>
      forall name :: name in Names(Collect(doc, []).uses) ==> answers(name) == rotated(name)
  {
    var uses := Collect(doc, []).uses;
    AcceptedIffAllOnSecrets(m, doc);
    var v := RevealedAre(m, encode, uses, steps, answers);
    var w := RevealedAre(m, encode, uses, later, rotated);
    hide AllOnSecrets, Collect, Resolvable, Answering, ChangeKey.Stream, Waited, ResolveSecrets, Revealed, RefusedUses;
    ChangeKey.StreamIsFaithful(data, v, data, w);
    SameRevealed(encode, Names(uses), texts, answers, rotated, v, w);
  }

  lemma RevealedAre(m: Settings, encode: string -> Text, uses: seq<SecretUse>, steps: seq<Pool.Step>,
                    answers: string -> Pool.Answer) returns (v: map<Text, Text>)
    requires Waited(m, uses, steps) && Answering(uses, steps, answers) && Resolvable(m, uses, steps, answers)
    requires !m.unresolved && TellsApart(encode, Names(uses))
    ensures ResolveSecrets(m, uses, steps).0.Values? && ResolveSecrets(m, uses, steps).0.values.Keys == Names(uses)
    ensures v == Revealed(m.seal, encode, ResolveSecrets(m, uses, steps).0.values)
    ensures v.Keys == set name | name in Names(uses) :: encode(name)
    ensures forall name :: name in Names(uses) ==>
      Pool.Usable(answers(name)) && v[encode(name)] == encode(answers(name).text)
  {
    ResolvesIff(m, uses, steps, answers);
    ResolutionFits(m, uses, steps);
    var values := ResolveSecrets(m, uses, steps).0.values;
    forall name | name in Names(uses)
      ensures Pool.Usable(answers(name)) && Reveal(m.seal, values[name]) == answers(name).text
    {
      AnswersAreTheValues(m, uses, steps, answers, name);
      RevealUndoesSeal(m.seal, name, answers(name).text);
    }
    hide Waited, Answering, Resolvable, ResolveSecrets, Names, Reveal;
    v := Revealed(m.seal, encode, values);
  }

  lemma SameRevealed(encode: string -> Text, names: set<string>, texts: set<string>,
                     answers: string -> Pool.Answer, rotated: string -> Pool.Answer,
                     v: map<Text, Text>, w: map<Text, Text>)
    requires TellsApart(encode, texts) && names <= texts
    requires v.Keys == w.Keys == set name | name in names :: encode(name)
    requires forall name :: name in names ==>
      && Pool.Usable(answers(name)) && Pool.Usable(rotated(name))
      && v[encode(name)] == encode(answers(name).text) && w[encode(name)] == encode(rotated(name).text)
      && answers(name).text in texts && rotated(name).text in texts
    ensures v == w <==> forall name :: name in names ==> answers(name) == rotated(name)
  {
    if v == w {
      forall name | name in names ensures answers(name) == rotated(name) {
        assert encode(answers(name).text) == encode(rotated(name).text);
      }
    }
    if forall name :: name in names ==> answers(name) == rotated(name) {
      forall key | key in v ensures v[key] == w[key] {
        var name :| name in names && encode(name) == key;
      }
    }
  }
}
