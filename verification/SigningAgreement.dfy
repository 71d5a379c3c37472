/** The two sides of a signing session: what the members sign with is what the service verifies with. */
module SigningAgreement {
  import opened Hashing
  import opened Recovery
  import opened Cohort
  import opened Participant
  import opened ParticipantSafety
  import opened ParticipantSigning
  import FallbackSpend
  import S = SigningSession

  /** Nonce, keys, digest and tweak are the same, one by one. */
  predicate SameValues(ctx: SigningContext, key: S.SessionKey) {
    && ctx.aggregatedNonce == key.aggregatedNonce && ctx.keys == key.keys
    && ctx.sigHash == key.sigHash && ctx.tweak == key.tweak
  }

  /** The service's cohort has the member's terms and sorted keys, and has computed its beacon from them. */
  ghost predicate SameCohort(lib: Libraries, c: AggregationCohort, m: Member)
    reads c
  {
    && c.lib == lib.bitcoin && c.params == m.params && c.cohortKeys == m.state.keys
    && ComputeBeacon(c.lib, c.params, c.cohortKeys) == Ok(c.beacon)
  }

  /** The service signs the transaction of the request it sent, with the script and amount it sent. */
  ghost predicate SameDigest(lib: Libraries, r: Request, sigHash: Option<Bytes>) {
    forall tx: Tx, script: Bytes, amount: int ::
      Asks(lib, r, tx, script, amount) ==> lib.sigHash(tx, script, amount) == sigHash
  }

  /**
   * Over every run of a member: where the service holds the same cohort, has sent the request and the aggregated nonce,
   * the member's partial signature is under the very values the service verifies it with.
   */
  lemma SidesAgree(lib: Libraries, events: seq<Event>, k: nat, session: S.BeaconSigningSession)
    requires k < |Run(lib, events).log| && Run(lib, events).log[k].PartialGiven?
    requires var s := Run(lib, events);
             var f := s.log[k];
             f.cohortId in s.states ==>
               var st := s.states[f.cohortId];
               && (st.cohort.Some? ==> SameCohort(lib, session.cohort, st.cohort.value))
               && (st.signing.Some? ==> SameDigest(lib, st.signing.value, session.sigHash))
    requires session.aggregatedNonce == Some(Run(lib, events).log[k].context.aggregatedNonce)
    ensures session.sigHash.Some? && SameValues(Run(lib, events).log[k].context, session.Key())
  {
    hide Run, ComputeBeacon, ReceivedIn;
    SignsWhatWasAuthorized(lib, events, k);
  }

  /**
   * The fallback spend is rebuilt with the leaf the members sign for, whatever the order of the keys on either side:
   * where the service spends under the terms the members accepted.
   */
  lemma SameFallbackLeaf(env: FallbackSpend.Env, t: FallbackSpend.Terms, m: Member)
    requires FallbackSpend.Rebuild(env, t).Ok?
    requires multiset(t.keys) == multiset(m.state.keys) && t.threshold == m.params.fallbackThreshold
    ensures FallbackLeaf(env.bitcoin, m.state.keys, EffectiveThreshold(m.params, m.state.keys))
            == Ok(FallbackSpend.Rebuild(env, t).value.leaf)
  {
    assert |t.keys| == |multiset(t.keys)| == |multiset(m.state.keys)| == |m.state.keys|;
    RebuiltThreshold(env, t);
    var k := FallbackSpend.Rebuild(env, t).value.k;
    hide FallbackSpend.Rebuild;
    FallbackLeafCanonical(env.bitcoin, t.keys, m.state.keys, k);
  }

  lemma RebuiltThreshold(env: FallbackSpend.Env, t: FallbackSpend.Terms)
    requires FallbackSpend.Rebuild(env, t).Ok?
    ensures FallbackSpend.Rebuild(env, t).value.k == ResolveThreshold(t.threshold, |t.keys|)
  {
    hide SortKeys, FallbackLeaf, RecoveryLeaves;
  }

  // ----- Honest signatures

  ghost predicate Total(nonces: seq<Option<Bytes>>) {
    forall i :: 0 <= i < |nonces| ==> nonces[i].Some?
  }

  /**
   * The law of MuSig2 used here: what a member signs under the values of the session verifies against all nonces, at
   * the slot of the member's key, where the member's own nonce stands.
   */
  ghost predicate VerifiesHonest(session: S.BeaconSigningSession, sign: (SigningContext, string) -> Bytes)
    requires session.aggregatedNonce.Some? && session.sigHash.Some?
    reads session, session.cohort
  {
    forall ctx: SigningContext, did: string, nonces: seq<Option<Bytes>>, j: nat ::
      && SameValues(ctx, session.Key()) && Total(nonces) && |nonces| == |session.cohort.cohortKeys|
      && j < |session.nonceContributions| && session.nonceContributions[j].0 == did
      && session.Slot(did) >= 0 && nonces[session.Slot(did)] == Some(session.nonceContributions[j].1)
      ==> session.lib.partialVerify(session.Key(), sign(ctx, did), nonces, session.Slot(did))
  }

  /** Every partial signature collected is one its sender made under the values of the session. */
  ghost predicate SignedHonestly(session: S.BeaconSigningSession, sign: (SigningContext, string) -> Bytes,
                                 contexts: map<string, SigningContext>)
    requires session.aggregatedNonce.Some? && session.sigHash.Some?
    reads session, session.cohort
  {
    forall j :: 0 <= j < |session.partialSignatures| ==>
      var (did, sig) := session.partialSignatures[j];
      did in contexts && SameValues(contexts[did], session.Key()) && sig == sign(contexts[did], did)
  }

  /** Everyone who is a member now was one when the nonces were collected, and all keys are different. */
  ghost predicate Settled(session: S.BeaconSigningSession)
    reads session, session.cohort
  {
    var c := session.cohort;
    && session.Valid() && session.SignaturesIn() && session.nonceMembers == |c.participants|
    && KeysAligned(c.participants, c.participantKeys, c.cohortKeys) && Distinct(c.cohortKeys)
  }

  lemma HonestVerify(session: S.BeaconSigningSession, sign: (SigningContext, string) -> Bytes,
                     contexts: map<string, SigningContext>, nonces: seq<Option<Bytes>>)
    requires Settled(session) && session.aggregatedNonce.Some? && session.sigHash.Some?
    requires VerifiesHonest(session, sign) && SignedHonestly(session, sign, contexts) && session.IsNonceArray(nonces)
    ensures session.SignaturesVerify(nonces)
  {
    S.NoHoles(session, nonces);
    forall j | 0 <= j < |session.partialSignatures|
      ensures session.Slot(session.partialSignatures[j].0) >= 0
      ensures session.lib.partialVerify(session.Key(), session.partialSignatures[j].1, nonces,
                                        session.Slot(session.partialSignatures[j].0))
    {
      var did := session.partialSignatures[j].0;
      var i := NonceOf(session, did, j);
      S.MemberHasSlot(session, did);
      S.NoncesInPlace(session, nonces, i);
    }
  }

  /** The sender of a partial signature has contributed a nonce. */
  lemma NonceOf(session: S.BeaconSigningSession, did: string, j: nat) returns (i: nat)
    requires Settled(session) && j < |session.partialSignatures| && session.partialSignatures[j].0 == did
    ensures did in session.cohort.participants
    ensures i < |session.nonceContributions| && session.nonceContributions[i].0 == did
  {
    session.NoncesComplete();
    assert S.Dids(session.partialSignatures)[j] in Elements(S.Dids(session.partialSignatures));
    assert did in Elements(S.Dids(session.nonceContributions));
    i :| 0 <= i < |session.nonceContributions| && S.Dids(session.nonceContributions)[i] == did;
  }

  lemma NoncesHaveSlots(session: S.BeaconSigningSession, j: nat)
    requires Settled(session) && j < |session.nonceContributions|
    ensures session.Slot(session.nonceContributions[j].0) >= 0
  {
    var dids := S.Dids(session.nonceContributions);
    assert dids[j] in Elements(dids);
    S.MemberHasSlot(session, dids[j]);
  }

  /**
   * A session whose members all signed under its values completes, with what the library aggregates from their
   * signatures.
   */
  method CompleteHonestly(session: S.BeaconSigningSession, ghost sign: (SigningContext, string) -> Bytes,
                          ghost contexts: map<string, SigningContext>) returns (r: Result<Bytes>)
    requires Settled(session) && session.phase == S.PartialSignaturesReceived
    requires session.aggregatedNonce.Some? && session.sigHash.Some? && session.lib.sessionValid(session.Key())
    requires VerifiesHonest(session, sign) && SignedHonestly(session, sign, contexts)
    requires session.lib.partialAggregate(session.Key(), S.Values(session.partialSignatures)).Some?
    modifies session`signature, session`phase
    ensures r.Ok? && session.phase == S.Phase.Complete && session.signature == Some(r.value)
    ensures session.signature == session.lib.partialAggregate(session.Key(), S.Values(session.partialSignatures))
  {
    ghost var nonces;
    forall ns: seq<Option<Bytes>> | session.IsNonceArray(ns) ensures session.SignaturesVerify(ns) {
      HonestVerify(session, sign, contexts, ns);
    }
    forall j: nat | j < |session.nonceContributions| ensures session.Slot(session.nonceContributions[j].0) >= 0 {
      NoncesHaveSlots(session, j);
    }
    hide Settled, VerifiesHonest, SignedHonestly;
    r, nonces := session.GenerateFinalSignature();
  }
}
