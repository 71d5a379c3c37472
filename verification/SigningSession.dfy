/** The MuSig2 signing session of a cohort, on the collecting side and on the signing side. */
module SigningSession {
  import opened Hashing
  import opened Cohort

  /** What the transaction and MuSig2 libraries compute; `None` where they throw. */
  datatype MuSigLib = MuSigLib(
    nonceAggregate: seq<Bytes> -> Option<Bytes>,
    partialVerify: (SessionKey, Bytes, seq<Option<Bytes>>, int) -> bool,
    partialAggregate: (SessionKey, seq<Bytes>) -> Option<Bytes>,
    sessionValid: SessionKey -> bool)

  /** The values a MuSig2 session object is made of. */
  datatype SessionKey = SessionKey(aggregatedNonce: Bytes, keys: seq<Bytes>, sigHash: Bytes, tweak: Bytes)

  datatype Phase =
    | AwaitingNonceContributions | NonceContributionsReceived
    | AwaitingPartialSignatures | PartialSignaturesReceived | Complete | Failed

  /** A JavaScript `Map` from DID to bytes, in insertion order. */
  type Table = seq<(string, Bytes)>

  predicate Has(t: Table, did: string) {
    exists k :: 0 <= k < |t| && t[k].0 == did
  }

  function Dids(t: Table): (r: seq<string>)
    ensures |r| == |t| && forall k :: 0 <= k < |t| ==> r[k] == t[k].0
  {
    seq(|t|, k requires 0 <= k < |t| => t[k].0)
  }

  function Values(t: Table): (r: seq<Bytes>)
    ensures |r| == |t| && forall k :: 0 <= k < |t| ==> r[k] == t[k].1
  {
    seq(|t|, k requires 0 <= k < |t| => t[k].1)
  }

  /** Entries of distinct members only. */
  ghost predicate TableOk(t: Table, participants: seq<string>) {
    Distinct(Dids(t)) && Elements(Dids(t)) <= Elements(participants)
  }

  lemma TableOkAdd(t: Table, participants: seq<string>, did: string, value: Bytes)
    requires TableOk(t, participants) && did in participants && !Has(t, did)
    ensures TableOk(t + [(did, value)], participants)
  {
    var t' := t + [(did, value)];
    forall i, j | 0 <= i < j < |t'| ensures t'[i].0 != t'[j].0 {
      assert i < |t| && t'[i] == t[i];
      if j < |t| { assert Dids(t)[i] != Dids(t)[j]; }
    }
    forall d | d in Elements(Dids(t')) ensures d in Elements(participants) {
      var k :| 0 <= k < |t'| && t'[k].0 == d;
      if k < |t| { assert Dids(t)[k] == d; }
    }
  }

  /** A full table has one entry for every member. */
  lemma FullTable(t: Table, participants: seq<string>)
    requires TableOk(t, participants) && Distinct(participants)
    ensures |t| <= |participants|
    ensures |t| == |participants| <==> Elements(Dids(t)) == Elements(participants)
  {
    DistinctCount(Dids(t));
    DistinctCount(participants);
    var a, b := Elements(Dids(t)), Elements(participants);
    if a != b { SubsetSize(a, b); }
  }

  /** The table filled up when the cohort had its first `n` members. */
  ghost predicate FilledAt(t: Table, participants: seq<string>, n: nat) {
    n <= |participants| && TableOk(t, participants[..n]) && |t| == n
  }

  /** Members that join later leave a table as good as it was. */
  lemma TablesOutliveGrowth(t: Table, participants: seq<string>, more: seq<string>, n: nat)
    ensures TableOk(t, participants) ==> TableOk(t, participants + more)
    ensures FilledAt(t, participants, n) ==> FilledAt(t, participants + more, n)
  {
    if n <= |participants| { assert (participants + more)[..n] == participants[..n]; }
    forall d | d in Elements(participants) ensures d in Elements(participants + more) {
      var k :| 0 <= k < |participants| && participants[k] == d;
      assert (participants + more)[k] == d;
    }
  }

  /** Exactly the first `n` members have an entry. */
  lemma EntryIffEarly(t: Table, participants: seq<string>, n: nat, m: nat)
    requires FilledAt(t, participants, n) && Distinct(participants) && m < |participants|
    ensures Has(t, participants[m]) <==> m < n
  {
    FullTable(t, participants[..n]);
    if m < n {
      assert participants[..n][m] in Elements(Dids(t));
    } else {
      forall k | 0 <= k < |t| ensures t[k].0 != participants[m] {
        assert Dids(t)[k] in Elements(participants[..n]);
        var i :| 0 <= i < n && participants[..n][i] == t[k].0;
        assert participants[i] != participants[m];
      }
    }
  }

  /** ... which is everyone exactly when nobody joined since. */
  lemma EveryoneIffNoneJoined(t: Table, participants: seq<string>, n: nat)
    requires FilledAt(t, participants, n) && Distinct(participants)
    ensures Elements(Dids(t)) == Elements(participants) <==> n == |participants|
  {
    FullTable(t, participants[..n]);
    if n == |participants| {
      assert participants[..n] == participants;
    } else {
      EntryIffEarly(t, participants, n, n);
      assert participants[n] in Elements(participants);
    }
  }

  lemma TableComplete(t: Table, participants: seq<string>, n: nat)
    requires FilledAt(t, participants, n) && Distinct(participants)
    ensures Distinct(Dids(t)) && forall m :: 0 <= m < |participants| ==> (Has(t, participants[m]) <==> m < n)
    ensures Elements(Dids(t)) == Elements(participants) <==> n == |participants|
  {
    forall m | 0 <= m < |participants| ensures Has(t, participants[m]) <==> m < n {
      EntryIffEarly(t, participants, n, m);
    }
    EveryoneIffNoneJoined(t, participants, n);
  }

  class BeaconSigningSession {
    const lib: MuSigLib
    const cohort: AggregationCohort
    const sigHash: Option<Bytes>
    var nonceContributions: Table
    var aggregatedNonce: Option<Bytes>
    var partialSignatures: Table
    var signature: Option<Bytes>
    var phase: Phase
    /** How many members the cohort had when the nonces were in, and when the partial signatures were. */
    ghost var nonceMembers: nat
    ghost var signatureMembers: nat

    /** `sigHash` is the transaction's sighash, `None` when the spent output is missing. */
    constructor (lib: MuSigLib, cohort: AggregationCohort, sigHash: Option<Bytes>)
      ensures this.lib == lib && this.cohort == cohort && this.sigHash == sigHash
      ensures phase == AwaitingNonceContributions && nonceContributions == [] && partialSignatures == []
      ensures Valid()
    {
      this.lib, this.cohort, this.sigHash := lib, cohort, sigHash;
      nonceContributions, aggregatedNonce, partialSignatures, signature := [], None, [], None;
      phase, nonceMembers, signatureMembers := AwaitingNonceContributions, 0, 0;
    }

    predicate NoncesIn()
      reads this
    {
      phase != AwaitingNonceContributions && phase != Failed
    }

    predicate SignaturesIn()
      reads this
    {
      phase == PartialSignaturesReceived || phase == Complete
    }

    /**
     * Only members contribute, each at most once; the phase has left the collection of nonces, or of partial
     * signatures, only with an entry for each member of that moment.
     */
    ghost predicate Fits(participants: seq<string>)
      reads this
    {
      && TableOk(nonceContributions, participants) && TableOk(partialSignatures, participants)
      && (NoncesIn() ==> FilledAt(nonceContributions, participants, nonceMembers))
      && (SignaturesIn() ==>
            FilledAt(partialSignatures, participants, signatureMembers) && nonceMembers <= signatureMembers)
      && (phase == AwaitingNonceContributions ==> partialSignatures == [])
      && (phase == Complete ==> signature.Some?)
    }

    ghost predicate Valid()
      reads this, cohort
    {
      Fits(cohort.participants)
    }

    /** The service may accept a late participant at any time: the session stays valid, whatever its phase. */
    method AdmitLate(did: string, pk: Bytes)
      requires Valid() && cohort.Valid() && did !in cohort.participants
      modifies cohort`participants, cohort`participantKeys, cohort`cohortKeys
      ensures Valid() && cohort.Valid() && cohort.participants == old(cohort.participants) + [did]
      ensures NoncesIn() ==> nonceMembers < |cohort.participants|
      ensures SignaturesIn() ==> signatureMembers < |cohort.participants|
    {
      TablesOutliveGrowth(nonceContributions, cohort.participants, [did], nonceMembers);
      TablesOutliveGrowth(partialSignatures, cohort.participants, [did], signatureMembers);
      cohort.Admit(did, pk);
    }

    /**
     * Past the collection, the nonces are one for each of the first members; for everyone only if nobody joined
     * since.
     */
    lemma NoncesComplete()
      requires Valid() && Distinct(cohort.participants) && NoncesIn()
      ensures nonceMembers <= |cohort.participants| && Distinct(Dids(nonceContributions))
      ensures forall m :: 0 <= m < |cohort.participants| ==>
                (Has(nonceContributions, cohort.participants[m]) <==> m < nonceMembers)
      ensures Elements(Dids(nonceContributions)) == Elements(cohort.participants)
              <==> nonceMembers == |cohort.participants|
    {
      TableComplete(nonceContributions, cohort.participants, nonceMembers);
    }

    /** ... and likewise the partial signatures, which are never from fewer members. */
    lemma SignaturesComplete()
      requires Valid() && Distinct(cohort.participants) && SignaturesIn()
      ensures nonceMembers <= signatureMembers <= |cohort.participants| && Distinct(Dids(partialSignatures))
      ensures forall m :: 0 <= m < |cohort.participants| ==>
                (Has(partialSignatures, cohort.participants[m]) <==> m < signatureMembers)
      ensures Elements(Dids(partialSignatures)) == Elements(cohort.participants)
              <==> signatureMembers == |cohort.participants|
    {
      TableComplete(partialSignatures, cohort.participants, signatureMembers);
    }

    /** `addNonceContribution` */
    method AddNonceContribution(did: string, nonce: Bytes) returns (r: Result<()>)
      requires Valid()
      modifies this`nonceContributions, this`phase, this`nonceMembers
      ensures Valid()
      ensures r.Ok? <==> old(phase) == AwaitingNonceContributions && did in cohort.participants
                         && |nonce| == 66 && !Has(old(nonceContributions), did)
      ensures nonceContributions == if r.Ok? then old(nonceContributions) + [(did, nonce)] else old(nonceContributions)
      ensures phase == if r.Ok? && |nonceContributions| == |cohort.participants|
                       then NonceContributionsReceived else old(phase)
      ensures nonceMembers == if phase == old(phase) then old(nonceMembers) else |cohort.participants|
    {
      hide TableOk;
      if phase != AwaitingNonceContributions { return Err("INVALID_PHASE"); }
      if did !in cohort.participants { return Err("UNKNOWN_PARTICIPANT"); }
      if |nonce| != 66 { return Err("INVALID_NONCE_LENGTH"); }
      if Has(nonceContributions, did) { return Err("DUPLICATE_NONCE"); }
      TableOkAdd(nonceContributions, cohort.participants, did, nonce);
      nonceContributions := nonceContributions + [(did, nonce)];
      if |nonceContributions| == |cohort.participants| {
        phase, nonceMembers := NonceContributionsReceived, |cohort.participants|;
        assert cohort.participants[..nonceMembers] == cohort.participants;
      }
      r := Ok(());
    }

    /** `generateAggregatedNonce` */
    method GenerateAggregatedNonce() returns (r: Result<Bytes>)
      requires Valid()
      modifies this`aggregatedNonce, this`phase
      ensures Valid()
      ensures r.Ok? <==> old(phase) == NonceContributionsReceived
                         && lib.nonceAggregate(Values(nonceContributions)).Some?
      ensures r.Ok? ==> phase == AwaitingPartialSignatures && aggregatedNonce == Some(r.value)
                        && aggregatedNonce == lib.nonceAggregate(Values(nonceContributions))
      ensures r.Err? ==> phase == old(phase) && aggregatedNonce == old(aggregatedNonce)
    {
      if phase != NonceContributionsReceived { return Err("INVALID_PHASE"); }
      var a := lib.nonceAggregate(Values(nonceContributions));
      if a.None? { return Err("nonceAggregate"); }
      aggregatedNonce, phase := a, AwaitingPartialSignatures;
      r := Ok(a.value);
    }

    /** `addPartialSignature` */
    method AddPartialSignature(did: string, sig: Bytes) returns (r: Result<()>)
      requires Valid()
      modifies this`partialSignatures, this`phase, this`signatureMembers
      ensures Valid()
      ensures r.Ok? <==> old(phase) == AwaitingPartialSignatures && did in cohort.participants
                         && !Has(old(partialSignatures), did)
      ensures partialSignatures == if r.Ok? then old(partialSignatures) + [(did, sig)] else old(partialSignatures)
      ensures phase == if r.Ok? && |partialSignatures| == |cohort.participants|
                       then PartialSignaturesReceived else old(phase)
      ensures signatureMembers == if phase == old(phase) then old(signatureMembers) else |cohort.participants|
    {
      hide TableOk;
      if phase != AwaitingPartialSignatures { return Err("INVALID_PHASE"); }
      if did !in cohort.participants { return Err("UNKNOWN_PARTICIPANT"); }
      if Has(partialSignatures, did) { return Err("DUPLICATE_PARTIAL_SIG"); }
      TableOkAdd(partialSignatures, cohort.participants, did, sig);
      partialSignatures := partialSignatures + [(did, sig)];
      if |partialSignatures| == |cohort.participants| {
        phase, signatureMembers := PartialSignaturesReceived, |cohort.participants|;
        assert cohort.participants[..signatureMembers] == cohort.participants;
      }
      r := Ok(());
    }

    ghost function Key(): SessionKey
      requires aggregatedNonce.Some? && sigHash.Some?
      reads this, cohort
    {
      SessionKey(aggregatedNonce.value, cohort.cohortKeys, sigHash.value, cohort.beacon.tapTweak)
    }

    function Slot(did: string): (i: int)
      reads cohort
      ensures -1 <= i < |cohort.cohortKeys|
    {
      cohort.IndexOfParticipant(did)
    }

    /** Each contribution with the slot of its sender. */
    ghost function Placed(t: Table): (r: seq<(int, Bytes)>)
      reads cohort
      ensures |r| == |t| && forall k :: 0 <= k < |t| ==> r[k] == (Slot(t[k].0), t[k].1)
    {
      seq(|t|, k requires 0 <= k < |t| reads cohort => (Slot(t[k].0), t[k].1))
    }

    /** Every partial signature verifies against the nonce array, at the slot of the member that sent it. */
    ghost predicate SignaturesVerify(nonces: seq<Option<Bytes>>)
      requires aggregatedNonce.Some? && sigHash.Some?
      reads this, cohort
    {
      forall j :: 0 <= j < |partialSignatures| ==>
        Slot(partialSignatures[j].0) >= 0
        && lib.partialVerify(Key(), partialSignatures[j].1, nonces, Slot(partialSignatures[j].0))
    }

    /** The array is the one the contributions fill. */
    ghost predicate IsNonceArray(nonces: seq<Option<Bytes>>)
      reads this, cohort
    {
      |nonces| == |cohort.cohortKeys| && Filled(Placed(nonceContributions), nonces)
    }

    /**
     * `generateFinalSignature`. It completes only if every partial signature verified against
     * the nonce array, at the slot of the member that sent it; and it fails only for a reason.
     */
    method GenerateFinalSignature() returns (r: Result<Bytes>, ghost nonces: seq<Option<Bytes>>)
      requires Valid()
      modifies this`signature, this`phase
      ensures Valid()
      ensures r.Err? ==> phase == old(phase) && signature == old(signature)
      ensures r.Err? ==>
                || old(phase) != PartialSignaturesReceived || aggregatedNonce.None? || sigHash.None?
                || !lib.sessionValid(Key())
                || (exists j :: 0 <= j < |nonceContributions| && Slot(nonceContributions[j].0) < 0)
                || (IsNonceArray(nonces) && !SignaturesVerify(nonces))
                || lib.partialAggregate(Key(), Values(partialSignatures)).None?
      ensures r.Ok? ==>
                && old(phase) == PartialSignaturesReceived && phase == Complete && signature == Some(r.value)
                && aggregatedNonce.Some? && sigHash.Some? && lib.sessionValid(Key())
                && IsNonceArray(nonces) && SignaturesVerify(nonces)
                && lib.partialAggregate(Key(), Values(partialSignatures)) == signature
    {
      hide TableOk;
      nonces := [];
      if phase != PartialSignaturesReceived { return Err("INVALID_PHASE"), nonces; }
      if aggregatedNonce.None? { return Err("MISSING_AGGREGATED_NONCE"), nonces; }
      if sigHash.None? { return Err("SIGHASH_ERROR"), nonces; }
      var key := SessionKey(aggregatedNonce.value, cohort.cohortKeys, sigHash.value, cohort.beacon.tapTweak);
      if !lib.sessionValid(key) { return Err("musig2.Session"), nonces; }
      var byIndex := NoncesByIndex();
      if byIndex.Err? { return Err(byIndex.error), nonces; }
      nonces := byIndex.value;
      for j := 0 to |partialSignatures|
        invariant phase == old(phase) && signature == old(signature) && Valid()
        invariant forall i :: 0 <= i < j ==>
                    Slot(partialSignatures[i].0) >= 0
                    && lib.partialVerify(Key(), partialSignatures[i].1, nonces, Slot(partialSignatures[i].0))
      {
        var idx := Slot(partialSignatures[j].0);
        if idx < 0 { return Err("UNKNOWN_PARTICIPANT_KEY"), nonces; }
        var ok := lib.partialVerify(key, partialSignatures[j].1, byIndex.value, idx);
        if !ok { return Err("BAD_PARTIAL_SIG"), nonces; }
      }
      var sig := lib.partialAggregate(key, Values(partialSignatures));
      if sig.None? { return Err("partialSigAgg"), nonces; }
      signature, phase := sig, Complete;
      r := Ok(sig.value);
    }

    /** The first loop of `generateFinalSignature`. */
    method NoncesByIndex() returns (r: Result<seq<Option<Bytes>>>)
      ensures r.Ok? ==> |r.value| == |cohort.cohortKeys| && Filled(Placed(nonceContributions), r.value)
      ensures r.Err? ==> exists j :: 0 <= j < |nonceContributions| && Slot(nonceContributions[j].0) < 0
    {
      hide Filled;
      var arr := new Option<Bytes>[|cohort.cohortKeys|](_ => None);
      FilledNone(arr[..]);
      for j := 0 to |nonceContributions|
        invariant Filled(Placed(nonceContributions)[..j], arr[..])
      {
        var idx := Slot(nonceContributions[j].0);
        if idx < 0 { return Err("UNKNOWN_PARTICIPANT_KEY"); }
        FilledAdd(Placed(nonceContributions)[..j], arr[..], idx, nonceContributions[j].1);
        ghost var before := arr[..];
        arr[idx] := Some(nonceContributions[j].1);
        assert arr[..] == before[idx := Some(nonceContributions[j].1)];
        assert Placed(nonceContributions)[..j + 1]
            == Placed(nonceContributions)[..j] + [(idx, nonceContributions[j].1)];
      }
      assert Placed(nonceContributions)[..|nonceContributions|] == Placed(nonceContributions);
      r := Ok(arr[..]);
    }
  }

  // ----- The nonce array is a permutation

  /** The array holds what the placed entries wrote, and nothing else. */
  ghost predicate Filled(entries: seq<(int, Bytes)>, nonces: seq<Option<Bytes>>) {
    && (forall j :: 0 <= j < |entries| ==> 0 <= entries[j].0 < |nonces| && nonces[entries[j].0].Some?)
    && (forall i :: 0 <= i < |nonces| && nonces[i].Some? ==> (i, nonces[i].value) in entries)
  }

  lemma FilledNone(nonces: seq<Option<Bytes>>)
    requires forall i :: 0 <= i < |nonces| ==> nonces[i] == None
    ensures Filled([], nonces)
  {
  }

  lemma FilledAdd(entries: seq<(int, Bytes)>, nonces: seq<Option<Bytes>>, slot: nat, nonce: Bytes)
    requires Filled(entries, nonces) && slot < |nonces|
    ensures Filled(entries + [(slot, nonce)], nonces[slot := Some(nonce)])
  {
    var es, ns := entries + [(slot, nonce)], nonces[slot := Some(nonce)];
    assert es[|entries|] == (slot, nonce);
    forall i | 0 <= i < |ns| && ns[i].Some? ensures (i, ns[i].value) in es {
      if i != slot { assert (i, nonces[i].value) in entries; }
    }
  }

  lemma {:induction false} DistinctMultiplicity(keys: seq<Bytes>)
    requires Distinct(keys)
    ensures forall k :: multiset(keys)[k] <= 1
  {
    if keys != [] {
      DistinctMultiplicity(keys[1..]);
      assert keys == [keys[0]] + keys[1..];
      assert keys[0] !in keys[1..];
    }
  }

  lemma {:induction false} RepeatedMultiplicity(keys: seq<Bytes>, i: nat, j: nat)
    requires i < j < |keys| && keys[i] == keys[j]
    ensures multiset(keys)[keys[i]] >= 2
  {
    assert keys == keys[..j] + [keys[j]] + keys[j + 1..];
    assert keys[..j][i] == keys[i];
    assert keys[i] in multiset(keys[..j]);
  }

  /** Members whose sorted keys are all different have different keys. */
  lemma MemberKeysDistinct(participants: seq<string>, keys: map<string, Bytes>, cohortKeys: seq<Bytes>,
                           a: string, b: string)
    requires KeysAligned(participants, keys, cohortKeys) && Distinct(cohortKeys)
    requires a in participants && b in participants && keys[a] == keys[b]
    ensures a == b
  {
    var all := KeysOf(participants, keys);
    DistinctMultiplicity(cohortKeys);
    var i :| 0 <= i < |participants| && participants[i] == a;
    var j :| 0 <= j < |participants| && participants[j] == b;
    if i < j { RepeatedMultiplicity(all, i, j); }
    if j < i { RepeatedMultiplicity(all, j, i); }
  }

  /** Every key of the sorted list is some member's. */
  lemma KeyHasMember(participants: seq<string>, keys: map<string, Bytes>, cohortKeys: seq<Bytes>, i: nat)
    returns (did: string)
    requires KeysAligned(participants, keys, cohortKeys) && i < |cohortKeys|
    ensures did in participants && did in keys && keys[did] == cohortKeys[i]
  {
    assert cohortKeys[i] in multiset(cohortKeys);
    assert cohortKeys[i] in KeysOf(participants, keys);
    var k :| 0 <= k < |participants| && KeysOf(participants, keys)[k] == cohortKeys[i];
    did := participants[k];
  }

  /**
   * With the nonces placed and all keys different, a member's slot is filled exactly if it was in the cohort when
   * the nonces were collected.
   */
  lemma SlotFilledIffEarly(session: BeaconSigningSession, nonces: seq<Option<Bytes>>, m: nat)
    requires session.Valid() && session.NoncesIn() && session.IsNonceArray(nonces)
    requires KeysAligned(session.cohort.participants, session.cohort.participantKeys, session.cohort.cohortKeys)
    requires Distinct(session.cohort.cohortKeys) && m < |session.cohort.participants|
    ensures 0 <= session.Slot(session.cohort.participants[m]) < |nonces|
    ensures nonces[session.Slot(session.cohort.participants[m])].Some? <==> m < session.nonceMembers
  {
    var c, t := session.cohort, session.nonceContributions;
    var did := c.participants[m];
    session.NoncesComplete();
    MemberHasSlot(session, did);
    var i := session.Slot(did);
    if m < session.nonceMembers {
      assert Has(t, did);
      var j :| 0 <= j < |t| && t[j].0 == did;
      assert session.Placed(t)[j].0 == i;
    } else {
      forall k | 0 <= k < |t| ensures session.Placed(t)[k].0 != i {
        assert Dids(t)[k] in Elements(Dids(t)) && t[k].0 != did;
        if c.participantKeys[t[k].0] == c.participantKeys[did] {
          MemberKeysDistinct(c.participants, c.participantKeys, c.cohortKeys, did, t[k].0);
        }
      }
    }
  }

  lemma MemberHasSlot(session: BeaconSigningSession, did: string)
    requires KeysAligned(session.cohort.participants, session.cohort.participantKeys, session.cohort.cohortKeys)
    requires did in session.cohort.participants
    ensures 0 <= session.Slot(did) < |session.cohort.cohortKeys|
  {
    var c := session.cohort;
    var k :| 0 <= k < |c.participants| && c.participants[k] == did;
    assert KeysOf(c.participants, c.participantKeys)[k] in multiset(KeysOf(c.participants, c.participantKeys));
  }

  /**
   * The nonce array has no hole exactly when the members' keys are pairwise different and nobody joined after the
   * nonces were collected.
   */
  lemma NoHoles(session: BeaconSigningSession, nonces: seq<Option<Bytes>>)
    requires session.Valid() && session.NoncesIn() && session.IsNonceArray(nonces)
    requires KeysAligned(session.cohort.participants, session.cohort.participantKeys, session.cohort.cohortKeys)
    ensures (forall i :: 0 <= i < |nonces| ==> nonces[i].Some?)
            <==> Distinct(session.cohort.cohortKeys) && session.nonceMembers == |session.cohort.participants|
  {
    var c, t := session.cohort, session.nonceContributions;
    if Distinct(c.cohortKeys) {
      session.NoncesComplete();
      if session.nonceMembers == |c.participants| {
        forall i | 0 <= i < |nonces| ensures nonces[i].Some? {
          var did := KeyHasMember(c.participants, c.participantKeys, c.cohortKeys, i);
          var m :| 0 <= m < |c.participants| && c.participants[m] == did;
          SlotFilledIffEarly(session, nonces, m);
        }
      } else {
        SlotFilledIffEarly(session, nonces, session.nonceMembers);
      }
    } else {
      var i, j :| 0 <= i < j < |c.cohortKeys| && c.cohortKeys[i] == c.cohortKeys[j];
      assert forall k :: 0 <= k < |t| ==> session.Placed(t)[k].0 != j;
      assert nonces[j].None?;
    }
  }

  /** Then every member's nonce stands in that member's own slot. */
  lemma NoncesInPlace(session: BeaconSigningSession, nonces: seq<Option<Bytes>>, j: nat)
    requires session.Valid() && session.IsNonceArray(nonces)
    requires KeysAligned(session.cohort.participants, session.cohort.participantKeys, session.cohort.cohortKeys)
    requires Distinct(session.cohort.cohortKeys) && j < |session.nonceContributions|
    ensures nonces[session.Slot(session.nonceContributions[j].0)] == Some(session.nonceContributions[j].1)
  {
    var c, t := session.cohort, session.nonceContributions;
    var i := session.Placed(t)[j].0;
    var k :| 0 <= k < |t| && session.Placed(t)[k] == (i, nonces[i].value);
    assert Dids(t)[j] in Elements(Dids(t)) && Dids(t)[k] in Elements(Dids(t));
    MemberKeysDistinct(c.participants, c.participantKeys, c.cohortKeys, t[j].0, t[k].0);
    assert Dids(t)[j] == Dids(t)[k];
  }
}
