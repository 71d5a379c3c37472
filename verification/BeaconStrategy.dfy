/** What each member of a cohort checks of the aggregated data, for the two kinds of beacon. */
module BeaconStrategy {
  import opened Bits
  import opened Hashing
  import opened ZeroHash
  import opened ZeroHashProof
  import opened Btcr2Proof

  /** A signed update, as the JSON document it is. */
  datatype Doc = Doc(json: string)

  type Announcement = map<string, string>

  /** Adds JSON canonicalization (RFC 8785) to the library functions. */
  datatype AggEnv = AggEnv(smt: Env, canonicalize: Doc -> string, canonicalizeMap: Announcement -> string) {

    /** Different announcements have different canonical bytes. */
    ghost predicate Canonical() {
      forall a: Announcement, b: Announcement :: AnnouncementBytes(a) == AnnouncementBytes(b) ==> a == b
    }

    function AnnouncementBytes(a: Announcement): Bytes {
      smt.utf8(canonicalizeMap(a))
    }

    function CanonicalBytes(doc: Doc): Bytes {
      smt.utf8(canonicalize(doc))
    }

    /** `canonicalHash`: base64url of the hash of the canonical form. */
    function CanonicalHash(doc: Doc): string {
      smt.encode(smt.H(CanonicalBytes(doc)))
    }
  }

  /** Documents have one hash exactly if they have one canonical form, or its encodings are one or collide. */
  lemma CanonicalHashBinds(env: AggEnv, a: Doc, b: Doc)
    requires env.smt.Lawful()
    ensures env.canonicalize(a) == env.canonicalize(b) ==> env.CanonicalHash(a) == env.CanonicalHash(b)
    ensures env.CanonicalHash(a) == env.CanonicalHash(b) ==>
              var x, y := env.smt.utf8(env.canonicalize(a)), env.smt.utf8(env.canonicalize(b));
              x == y || Collides(env.smt.H, x, y)
    ensures env.smt.TextToHash(env.CanonicalHash(a)) == Ok(env.smt.H(env.smt.utf8(env.canonicalize(a))))
  {
    var x, y := env.smt.H(env.CanonicalBytes(a)), env.smt.H(env.CanonicalBytes(b));
    assert env.smt.decode(env.smt.encode(x)) == Some(x) && env.smt.decode(env.smt.encode(y)) == Some(y);
  }

  /** CAS `validateParticipantView`: `None` where no announcement came with the message. */
  function CasMatches(env: AggEnv, did: string, submitted: Option<Doc>, announcement: Option<Announcement>): bool {
    match announcement
    case None => false
    case Some(a) =>
      match submitted
      case None => did !in a
      case Some(doc) => did in a && a[did] == env.CanonicalHash(doc)
  }

  /** `validateParticipantView` of the strategy for a beacon type; `None` for a decliner's update. */
  function ViewMatches(env: AggEnv, did: string, submitted: Option<Doc>, beaconType: string,
                       announcement: Option<Announcement>, smtProof: Option<SerializedProof>): Result<bool> {
    if beaconType == "CASBeacon" then Ok(CasMatches(env, did, submitted, announcement))
    else SmtMatches(env, did, submitted, smtProof)
  }

  predicate Truthy(s: Option<string>) { s.Some? && s.value != "" }

  /** SMT `validateParticipantView`; `Err` where a field does not parse. `submitted` is `None` for a decliner. */
  function SmtMatches(env: AggEnv, did: string, submitted: Option<Doc>, proof: Option<SerializedProof>): Result<bool> {
    var index := env.smt.DidToIndex(did);
    if proof.None? || !Truthy(proof.value.nonce) then Ok(false)
    else if submitted.None? then
      if Truthy(proof.value.updateId) then Ok(false) else
      var nonce :- env.smt.TextToHash(proof.value.nonce.value);
      VerifySerialized(env.smt, proof.value, index, env.smt.NonInclusionLeaf(nonce))
    else
      if !Truthy(proof.value.updateId) then Ok(false) else
      if proof.value.updateId.value != env.CanonicalHash(submitted.value) then Ok(false) else
      var nonce :- env.smt.TextToHash(proof.value.nonce.value);
      var updateId :- env.smt.TextToHash(proof.value.updateId.value);
      VerifySerialized(env.smt, proof.value, index, Hash2(env.smt.H, env.smt.H(nonce), updateId))
  }

  /**
   * Only a proof with the member's own update id matches for one that submitted, and only one with none for a
   * decliner.
   */
  lemma SmtMatchTellsSlot(env: AggEnv, did: string, submitted: Option<Doc>, s: SerializedProof)
    requires SmtMatches(env, did, submitted, Some(s)) == Ok(true)
    ensures s.nonce.Some? && s.nonce.value != ""
    ensures submitted.None? ==> s.updateId.None? || s.updateId.value == ""
    ensures submitted.Some? ==>
              s.updateId == Some(env.smt.encode(env.smt.H(env.smt.utf8(env.canonicalize(submitted.value)))))
  {
    hide VerifySerialized;
  }

  /** The leaf a member expects at its index. */
  function ExpectedLeaf(env: AggEnv, nonce: Bytes, submitted: Option<Doc>): Digest {
    match submitted
    case None => env.smt.NonInclusionLeaf(nonce)
    case Some(doc) => env.smt.InclusionLeaf(nonce, env.CanonicalBytes(doc))
  }

  function UpdateIdOf(env: AggEnv, submitted: Option<Doc>): Option<Bytes> {
    match submitted
    case None => None
    case Some(doc) => Some(env.smt.H(env.CanonicalBytes(doc)))
  }

  /** A serialized proof matches exactly when it verifies the expected leaf. */
  lemma SmtMatchesSerialized(env: AggEnv, did: string, submitted: Option<Doc>, root: Digest, proof: Proof,
                             nonce: Digest)
    requires env.smt.Lawful() && Serializable(root, proof, Some(nonce), UpdateIdOf(env, submitted))
    ensures var s := Serialize(env.smt, root, proof, Some(nonce), UpdateIdOf(env, submitted));
            s.Ok? && SmtMatches(env, did, submitted, Some(s.value))
                  == Ok(Verifies(env.smt.H, proof, env.smt.DidToIndex(did), ExpectedLeaf(env, nonce, submitted), root))
  {
    hide Verifies, Pow2;
    SerializeRoundTrip(env.smt, root, proof, Some(nonce), UpdateIdOf(env, submitted));
    assert env.smt.decode(env.smt.encode(nonce)) == Some(nonce);
    if submitted.Some? {
      var u := env.smt.H(env.CanonicalBytes(submitted.value));
      assert env.smt.decode(env.smt.encode(u)) == Some(u);
    }
  }

  /**
   * What a match is worth: if the proof names the root of a tree whose path to the member has
   * no second preimages, the tree holds the member's own leaf there, its update included or,
   * for a decliner, left out.
   */
  lemma SmtMatchBinds(env: AggEnv, did: string, submitted: Option<Doc>, s: SerializedProof, leaves: seq<Entry>)
    requires SmtMatches(env, did, submitted, Some(s)) == Ok(true)
    requires env.smt.TextToHash(s.id) == Ok(ZeroHashRoot(env.smt.H, leaves))
    requires PathResists(env.smt.H, leaves, env.smt.DidToIndex(did))
    requires env.smt.Lawful()
    ensures exists nonce: Digest ::
              LeafAt(env.smt.H, leaves, PathOf(env.smt.DidToIndex(did))) == ExpectedLeaf(env, nonce, submitted)
  {
    hide PathResists, ZeroHashRoot, Verifies;
    var index := env.smt.DidToIndex(did);
    var nonce := env.smt.TextToHash(s.nonce.value).value;
    var d := Deserialize(env.smt, s).value;
    if submitted.Some? {
      var u := env.smt.H(env.CanonicalBytes(submitted.value));
      assert env.smt.decode(env.smt.encode(u)) == Some(u);
    }
    var leaf := ExpectedLeaf(env, nonce, submitted);
    assert Verifies(env.smt.H, d.proof, index, leaf, ZeroHashRoot(env.smt.H, leaves));
    VerifiesIffLeaf(env.smt.H, leaves, index, leaf);
  }

  // ----- The signal

  /** The signal is the one the announcement was published under. */
  predicate CasNames(env: AggEnv, signal: Bytes, a: Announcement) {
    signal == env.smt.H(env.AnnouncementBytes(a))
  }

  /** The signal is the root the proof was checked against. */
  predicate SmtNames(env: AggEnv, signal: Bytes, s: SerializedProof) {
    env.smt.TextToHash(s.id).Ok? && signal == env.smt.TextToHash(s.id).value
  }

  /**
   * After a match, the proof that was checked verifies the member's leaf against the signal exactly when the signal
   * is named.
   */
  lemma SmtSignalIff(env: AggEnv, did: string, submitted: Option<Doc>, s: SerializedProof, signal: Bytes)
    requires SmtMatches(env, did, submitted, Some(s)) == Ok(true) && env.smt.Lawful()
    ensures Deserialize(env.smt, s).Ok? && s.nonce.Some? && env.smt.TextToHash(s.nonce.value).Ok?
    ensures var leaf := ExpectedLeaf(env, env.smt.TextToHash(s.nonce.value).value, submitted);
            Verifies(env.smt.H, Deserialize(env.smt, s).value.proof, env.smt.DidToIndex(did), leaf, signal)
            <==> SmtNames(env, signal, s)
  {
    hide Walk;
    if submitted.Some? {
      var u := env.smt.H(env.CanonicalBytes(submitted.value));
      assert env.smt.decode(env.smt.encode(u)) == Some(u);
    }
  }

  /** A signal is that of the announcement that was checked, and of no other, exactly when it is named. */
  lemma CasSignalIff(env: AggEnv, signal: Bytes, a: Announcement)
    requires env.Canonical() && NoSecondPreimage(env.smt.H, env.AnnouncementBytes(a))
    ensures (forall b: Announcement :: CasNames(env, signal, b) <==> b == a) <==> CasNames(env, signal, a)
  {
    if CasNames(env, signal, a) {
      forall b: Announcement ensures CasNames(env, signal, b) <==> b == a {
        if CasNames(env, signal, b) { assert env.AnnouncementBytes(b) == env.AnnouncementBytes(a); }
      }
    }
  }

  /** What a named signal is worth to the member: every announcement published under it has the member's own slot. */
  ghost predicate CasCommits(env: AggEnv, did: string, own: Option<Doc>, signal: Bytes) {
    forall b: Announcement :: CasNames(env, signal, b) ==> CasMatches(env, did, own, Some(b))
  }

  /** ... every tree with this root, and no second preimages on the member's path, holds the member's own leaf. */
  ghost predicate SmtCommits(env: AggEnv, did: string, own: Option<Doc>, signal: Bytes) {
    forall leaves: seq<Entry> ::
      signal == ZeroHashRoot(env.smt.H, leaves) && PathResists(env.smt.H, leaves, env.smt.DidToIndex(did)) ==>
        HoldsOwnLeaf(env, did, own, leaves)
  }

  ghost predicate HoldsOwnLeaf(env: AggEnv, did: string, own: Option<Doc>, leaves: seq<Entry>) {
    exists nonce: Digest ::
      LeafAt(env.smt.H, leaves, PathOf(env.smt.DidToIndex(did))) == ExpectedLeaf(env, nonce, own)
  }

  /**
   * A signal that names the announcement the member matched commits to the member's slot, unless the hash collides
   * there.
   */
  lemma NamedCasCommits(env: AggEnv, did: string, own: Option<Doc>, a: Announcement, signal: Bytes)
    requires env.Canonical() && CasMatches(env, did, own, Some(a)) && CasNames(env, signal, a)
    ensures CasCommits(env, did, own, signal) || !NoSecondPreimage(env.smt.H, env.AnnouncementBytes(a))
  {
    if NoSecondPreimage(env.smt.H, env.AnnouncementBytes(a)) {
      forall b: Announcement | CasNames(env, signal, b) ensures CasMatches(env, did, own, Some(b)) {
        assert env.AnnouncementBytes(b) == env.AnnouncementBytes(a);
      }
    }
  }

  lemma NamedSmtCommits(env: AggEnv, did: string, own: Option<Doc>, s: SerializedProof, signal: Bytes)
    requires env.smt.Lawful() && SmtMatches(env, did, own, Some(s)) == Ok(true) && SmtNames(env, signal, s)
    ensures SmtCommits(env, did, own, signal)
  {
    hide ZeroHashRoot, PathResists, SmtMatches, LeafAt;
    forall leaves: seq<Entry>
      | signal == ZeroHashRoot(env.smt.H, leaves) && PathResists(env.smt.H, leaves, env.smt.DidToIndex(did))
      ensures HoldsOwnLeaf(env, did, own, leaves)
    {
      SmtMatchBinds(env, did, own, s, leaves);
    }
  }
}
