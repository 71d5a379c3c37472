/** A cohort: its members, their responses, and the aggregated data built from them. */
module Cohort {
  import opened Bits
  import opened Hashing
  import opened ZeroHash
  import opened ZeroHashProof
  import opened Btcr2Proof
  import opened Btcr2Tree
  import opened BeaconStrategy
  import opened Recovery

  ghost function Elements(xs: seq<string>): set<string> {
    set x | x in xs
  }

  lemma {:induction false} DistinctCount(xs: seq<string>)
    ensures |Elements(xs)| <= |xs|
    ensures Distinct(xs) <==> |Elements(xs)| == |xs|
  {
    if xs != [] {
      var last, init := xs[|xs| - 1], xs[..|xs| - 1];
      DistinctCount(init);
      assert xs == init + [last];
      assert Elements(xs) == Elements(init) + {last};
      if last in init {
        assert Elements(xs) == Elements(init);
      } else {
        assert |Elements(xs)| == |Elements(init)| + 1;
        if Distinct(init) {
          forall i, j | 0 <= i < j < |xs| ensures xs[i] != xs[j] {
            if j == |xs| - 1 { assert xs[i] in init; }
          }
        }
      }
    }
  }

  /**
   * The response gate counts. It is met exactly when everyone responded, provided the two kinds
   * of response do not overlap; given a full count, they cover everyone exactly when they do not.
   */
  lemma GateMeansEveryone(participants: seq<string>, a: set<string>, b: set<string>)
    requires Distinct(participants) && a <= Elements(participants) && b <= Elements(participants)
    ensures a !! b ==> (|a| + |b| == |participants| <==> a + b == Elements(participants))
    ensures |a| + |b| == |participants| ==> (a + b == Elements(participants) <==> a !! b)
  {
    DistinctCount(participants);
    var all := Elements(participants);
    assert |a + b| == |a| + |b| - |a * b|;
    if a !! b {
      assert a * b == {};
    } else {
      var x :| x in a && x in b;
      assert x in a * b;
    }
    if a + b != all { SubsetSize(a + b, all); }
  }

  // ----- Answers to the aggregated data

  datatype Answer = Answer(did: string, approved: bool)

  datatype Tallied = Tallied(acks: set<string>, rejections: set<string>)

  /** Who approved and who rejected, after answers in this order, as `addValidation` adds them up. */
  function Tally(answers: seq<Answer>): Tallied {
    if answers == [] then Tallied({}, {})
    else
      var t, last := Tally(answers[..|answers| - 1]), answers[|answers| - 1];
      if last.approved then t.(acks := t.acks + {last.did}) else t.(rejections := t.rejections + {last.did})
  }

  lemma {:induction false} TallyHolds(answers: seq<Answer>, did: string)
    ensures did in Tally(answers).acks <==> Answer(did, true) in answers
    ensures did in Tally(answers).rejections <==> Answer(did, false) in answers
  {
    if answers != [] {
      var init, last := answers[..|answers| - 1], answers[|answers| - 1];
      TallyHolds(init, did);
      assert answers == init + [last];
    }
  }

  /** The two sets stay apart exactly when nobody answers both ways. */
  lemma TallyDisjointIff(answers: seq<Answer>)
    ensures Tally(answers).acks !! Tally(answers).rejections
       <==> forall did :: !(Answer(did, true) in answers && Answer(did, false) in answers)
  {
    forall did ensures did in Tally(answers).acks <==> Answer(did, true) in answers { TallyHolds(answers, did); }
    forall did ensures did in Tally(answers).rejections <==> Answer(did, false) in answers { TallyHolds(answers, did); }
  }

  /** Of two members one approves and then rejects: the count is full, and the other has not answered. */
  lemma AnswerTwiceFillsTheCount(a: string, b: string)
    requires a != b
    ensures var t := Tally([Answer(a, true), Answer(a, false)]);
            && |t.acks| + |t.rejections| == |[a, b]|
            && b !in t.acks + t.rejections
            && !(|t.rejections| == 0 && |t.acks| == |[a, b]|)
  {
    var one, both := [Answer(a, true)], [Answer(a, true), Answer(a, false)];
    assert both[..1] == one && one[..0] == [];
    assert Tally(one) == Tallied({a}, {});
    assert Tally(both) == Tallied({a}, {a});
  }

  lemma SubsetSize(s: set<string>, t: set<string>)
    requires s < t
    ensures |s| < |t|
  {
    assert t == s + (t - s);
  }

  // ----- Keys and the beacon output

  /** The advertised parameters the beacon address depends on. */
  datatype BeaconParams = BeaconParams(
    network: string, recoveryKey: Option<Bytes>, recoverySequence: Option<int>,
    fundingModel: FundingModel, fallbackThreshold: Option<int>)

  datatype Beacon = Beacon(internalKey: Bytes, merkleRoot: Bytes, tapTweak: Bytes, address: string)

  const NO_BEACON := Beacon([], [], [], "")

  /** Sorted cohort keys, and what was computed from them last. */
  datatype KeyState = KeyState(keys: seq<Bytes>, beacon: Beacon)

  /** `effectiveFallbackThreshold` */
  function EffectiveThreshold(params: BeaconParams, keys: seq<Bytes>): int {
    if keys == [] then 0 else ResolveThreshold(params.fallbackThreshold, |keys|)
  }

  /** The output that `computeBeaconAddress` derives; `Err` where it throws before writing anything. */
  function ComputeBeacon(lib: BitcoinLib, params: BeaconParams, keys: seq<Bytes>): Result<Beacon> {
    if keys == [] then Err("NO_COHORT_KEYS")
    else if params.recoveryKey.None? || params.recoveryKey.value == [] || params.recoverySequence.None? then
      Err("NO_RECOVERY_PARAMS")
    else
      match lib.keyAggregate(keys)
      case None => Err("keyAggregate")
      case Some(agg) =>
        var leaves :- RecoveryLeaves(lib, params.fundingModel, keys, EffectiveThreshold(params, keys),
                                     params.recoveryKey.value, params.recoverySequence.value);
        match lib.payTo(agg, leaves, params.network)
        case None => Err("p2tr")
        case Some(p) => Ok(Beacon(agg, p.merkleRoot, lib.taggedHash("TapTweak", agg + p.merkleRoot), p.address))
  }

  /** What there must be for a beacon to come out, piece by piece. */
  lemma BeaconOkIff(lib: BitcoinLib, params: BeaconParams, keys: seq<Bytes>)
    ensures ComputeBeacon(lib, params, keys).Ok? <==>
              && keys != [] && (forall key :: key in keys ==> |key| == 33)
              && params.fundingModel == OperatorFunded
              && params.recoveryKey.Some? && |params.recoveryKey.value| == 32
              && params.recoverySequence.Some? && 0 < params.recoverySequence.value < 0x1_0000
              && 1 <= ResolveThreshold(params.fallbackThreshold, |keys|) <= |keys|
              && lib.keyAggregate(keys).Some?
              && FallbackLeaf(lib, keys, ResolveThreshold(params.fallbackThreshold, |keys|)).Ok?
              && lib.payTo(lib.keyAggregate(keys).value,
                           [FallbackLeaf(lib, keys, ResolveThreshold(params.fallbackThreshold, |keys|)).value,
                            lib.csvScript(params.recoverySequence.value, params.recoveryKey.value)],
                           params.network).Some?
  {
    hide SortKeys;
  }

  /** State after `computeBeaconAddress`, and whether it returned; an empty address throws late. */
  function AfterCompute(lib: BitcoinLib, params: BeaconParams, st: KeyState): (KeyState, Result<string>) {
    match ComputeBeacon(lib, params, st.keys)
    case Err(e) => (st, Err(e))
    case Ok(b) =>
      if b.address == "" then (st.(beacon := b.(address := st.beacon.address)), Err("BEACON_ADDRESS_ERROR"))
      else (st.(beacon := b), Ok(b.address))
  }

  /** State after `validateMembership`: the keys are written before the address is compared. */
  function AfterValidate(lib: BitcoinLib, params: BeaconParams, st: KeyState, pk: Bytes, keys: seq<Bytes>,
                         expected: string)
    : (KeyState, Result<()>)
  {
    if pk !in keys then (st, Err("COHORT_VALIDATION_ERROR")) else
    match AfterCompute(lib, params, st.(keys := SortKeys(keys)))
    case (st', Err(e)) => (st', Err(e))
    case (st', Ok(address)) => (st', if address == expected then Ok(()) else Err("BEACON_ADDRESS_MISMATCH"))
  }

  /** The script tree a beacon is derived from: its first leaf is the fallback leaf of these very keys. */
  lemma BeaconCommitsToLeaf(lib: BitcoinLib, params: BeaconParams, keys: seq<Bytes>)
    requires ComputeBeacon(lib, params, keys).Ok?
    ensures var b := ComputeBeacon(lib, params, keys).value;
            var leaf := FallbackLeaf(lib, keys, EffectiveThreshold(params, keys));
            var recovery := RecoveryScript(lib, params.recoveryKey.value, params.recoverySequence.value);
            && leaf.Ok? && recovery.Ok?
            && lib.payTo(b.internalKey, [leaf.value, recovery.value], params.network).Some?
            && lib.payTo(b.internalKey, [leaf.value, recovery.value], params.network).value.address == b.address
  {
  }

  /**
   * Under the law of Taproot (BIP 341), that an output pays to the internal key tweaked by the tagged hash of the key
   * and the script root, the aggregate of the members' keys with the tweak kept is the key the output pays to.
   */
  lemma BeaconKeySpends(lib: BitcoinLib, params: BeaconParams, keys: seq<Bytes>, tweaked: (Bytes, Bytes) -> Bytes,
                        scriptOf: Bytes -> Bytes)
    requires ComputeBeacon(lib, params, keys).Ok?
    requires forall key: Bytes, leaves: seq<Bytes>, network: string :: lib.payTo(key, leaves, network).Some? ==>
               var p := lib.payTo(key, leaves, network).value;
               p.script == scriptOf(tweaked(key, lib.taggedHash("TapTweak", key + p.merkleRoot)))
    ensures var b := ComputeBeacon(lib, params, keys).value;
            && lib.keyAggregate(keys) == Some(b.internalKey)
            && exists leaves: seq<Bytes> ::
                 && lib.payTo(b.internalKey, leaves, params.network).Some?
                 && var p := lib.payTo(b.internalKey, leaves, params.network).value;
                    p.address == b.address && p.script == scriptOf(tweaked(b.internalKey, b.tapTweak))
  {
    var leaves := RecoveryLeaves(lib, params.fundingModel, keys, EffectiveThreshold(params, keys),
                                 params.recoveryKey.value, params.recoverySequence.value).value;
    assert lib.payTo(lib.keyAggregate(keys).value, leaves, params.network).Some?;
  }

  /** The address computed from a key list. */
  predicate HasAddress(lib: BitcoinLib, params: BeaconParams, keys: seq<Bytes>, address: string) {
    ComputeBeacon(lib, params, keys).Ok? && ComputeBeacon(lib, params, keys).value.address == address != ""
  }

  /** A membership is accepted exactly when the member's key is listed and the address is the one computed. */
  lemma AcceptedMembership(lib: BitcoinLib, params: BeaconParams, st: KeyState, pk: Bytes, keys: seq<Bytes>,
                           expected: string)
    ensures var after := AfterValidate(lib, params, st, pk, keys, expected);
            && (after.1.Ok? <==> pk in keys && HasAddress(lib, params, SortKeys(keys), expected))
            && (after.1.Ok? ==> after.0.keys == SortKeys(keys) && after.0.beacon.address == expected
                                && ComputeBeacon(lib, params, SortKeys(keys)) == Ok(after.0.beacon))
  {
    hide ComputeBeacon, SortKeys;
  }

  /** First position of a key, or -1. */
  function IndexOfKey(keys: seq<Bytes>, key: Bytes): (i: int)
    ensures -1 <= i < |keys|
    ensures i >= 0 ==> keys[i] == key && forall j :: 0 <= j < i ==> keys[j] != key
    ensures i == -1 <==> key !in keys
  {
    if keys == [] then -1
    else if keys[0] == key then 0
    else var i := IndexOfKey(keys[1..], key);
         assert keys == [keys[0]] + keys[1..];
         if i == -1 then -1 else i + 1
  }

  class AggregationCohort {
    const env: AggEnv
    const lib: BitcoinLib
    const params: BeaconParams

    var participants: seq<string>
    var participantKeys: map<string, Bytes>
    var cohortKeys: seq<Bytes>
    var beacon: Beacon
    var pendingUpdates: map<string, Doc>
    var nonIncluded: set<string>
    var casAnnouncement: Option<Announcement>
    var smtProofs: Option<map<string, SerializedProof>>
    var signalBytes: Option<Digest>
    var validationAcks: set<string>
    var validationRejections: set<string>

    /** Only members respond. */
    ghost predicate Valid()
      reads this
    {
      && pendingUpdates.Keys <= Elements(participants) && nonIncluded <= Elements(participants)
      && validationAcks <= Elements(participants) && validationRejections <= Elements(participants)
    }

    constructor (env: AggEnv, lib: BitcoinLib, params: BeaconParams)
      ensures Valid() && this.env == env && this.lib == lib && this.params == params
      ensures participants == [] && participantKeys == map[] && cohortKeys == [] && beacon == NO_BEACON
      ensures pendingUpdates == map[] && nonIncluded == {} && validationAcks == {} && validationRejections == {}
    {
      this.env, this.lib, this.params := env, lib, params;
      participants, participantKeys, cohortKeys, beacon := [], map[], [], NO_BEACON;
      pendingUpdates, nonIncluded := map[], {};
      casAnnouncement, smtProofs, signalBytes := None, None, None;
      validationAcks, validationRejections := {}, {};
    }

    // ----- Members and keys

    /** What `acceptParticipant` writes: the member, its key, and the key list in sorted order. */
    method Admit(did: string, pk: Bytes)
      requires Valid() && did !in participants
      modifies this`participants, this`participantKeys, this`cohortKeys
      ensures Valid()
      ensures participants == old(participants) + [did] && participantKeys == old(participantKeys)[did := pk]
      ensures cohortKeys == SortKeys(old(cohortKeys) + [pk])
      ensures old(KeysAligned(participants, participantKeys, cohortKeys)) ==>
                KeysAligned(participants, participantKeys, cohortKeys)
    {
      hide KeysAligned, SortKeys;
      if KeysAligned(participants, participantKeys, cohortKeys) {
        AlignedAdd(participants, participantKeys, cohortKeys, did, pk);
      }
      participants := participants + [did];
      participantKeys := participantKeys[did := pk];
      cohortKeys := SortKeys(cohortKeys + [pk]);
    }

    /** `computeBeaconAddress` */
    method ComputeBeaconAddress() returns (r: Result<string>)
      modifies this`beacon
      ensures (KeyState(cohortKeys, beacon), r) == AfterCompute(lib, params, KeyState(cohortKeys, old(beacon)))
    {
      var b := ComputeBeacon(lib, params, cohortKeys);
      if b.Err? { return Err(b.error); }
      beacon := b.value.(address := beacon.address);
      if b.value.address == "" { return Err("BEACON_ADDRESS_ERROR"); }
      beacon := b.value;
      r := Ok(b.value.address);
    }

    /** `validateMembership` */
    method ValidateMembership(pk: Bytes, keys: seq<Bytes>, expected: string) returns (r: Result<()>)
      modifies this`cohortKeys, this`beacon
      ensures (KeyState(cohortKeys, beacon), r)
           == AfterValidate(lib, params, old(KeyState(cohortKeys, beacon)), pk, keys, expected)
    {
      if pk !in keys { return Err("COHORT_VALIDATION_ERROR"); }
      cohortKeys := SortKeys(keys);
      var computed := ComputeBeaconAddress();
      if computed.Err? { return Err(computed.error); }
      if computed.value != expected { return Err("BEACON_ADDRESS_MISMATCH"); }
      r := Ok(());
    }

    /** `indexOfParticipant` */
    function IndexOfParticipant(did: string): (i: int)
      reads this`participantKeys, this`cohortKeys
      ensures -1 <= i < |cohortKeys|
      ensures i >= 0 ==> did in participantKeys && cohortKeys[i] == participantKeys[did]
      ensures i == -1 <==> did !in participantKeys || participantKeys[did] !in cohortKeys
    {
      if did in participantKeys then IndexOfKey(cohortKeys, participantKeys[did]) else -1
    }

    // ----- Responses

    /** `addUpdate`: does not look at `nonIncluded`. */
    method AddUpdate(did: string, doc: Doc) returns (r: Result<()>)
      requires Valid()
      modifies this`pendingUpdates
      ensures Valid()
      ensures r.Ok? <==> did in participants
      ensures pendingUpdates == if r.Ok? then old(pendingUpdates)[did := doc] else old(pendingUpdates)
      ensures old(pendingUpdates).Keys !! nonIncluded && r.Ok? ==>
                (pendingUpdates.Keys !! nonIncluded <==> did !in nonIncluded)
    {
      if did !in participants { return Err("UNKNOWN_PARTICIPANT"); }
      pendingUpdates := pendingUpdates[did := doc];
      r := Ok(());
    }

    /** `addNonInclusion`: refuses a DID that has submitted. */
    method AddNonInclusion(did: string) returns (r: Result<()>)
      requires Valid()
      modifies this`nonIncluded
      ensures Valid()
      ensures r.Ok? <==> did in participants && did !in pendingUpdates
      ensures nonIncluded == if r.Ok? then old(nonIncluded) + {did} else old(nonIncluded)
      ensures pendingUpdates.Keys !! old(nonIncluded) ==> pendingUpdates.Keys !! nonIncluded
    {
      if did !in participants { return Err("UNKNOWN_PARTICIPANT"); }
      if did in pendingUpdates { return Err("CONFLICTING_RESPONSE"); }
      nonIncluded := nonIncluded + {did};
      r := Ok(());
    }

    predicate HasAllResponses()
      reads this
    {
      |pendingUpdates| + |nonIncluded| == |participants|
    }

    /** `addValidation`: a DID may end up in both sets. */
    method AddValidation(did: string, approved: bool) returns (r: Result<()>)
      requires Valid()
      modifies this`validationAcks, this`validationRejections
      ensures Valid()
      ensures r.Ok? <==> did in participants
      ensures validationAcks == old(validationAcks) + if r.Ok? && approved then {did} else {}
      ensures validationRejections == old(validationRejections) + if r.Ok? && !approved then {did} else {}
      ensures old(validationAcks) !! old(validationRejections) && r.Ok? ==>
                (validationAcks !! validationRejections
                 <==> did !in if approved then old(validationRejections) else old(validationAcks))
    {
      if did !in participants { return Err("UNKNOWN_PARTICIPANT"); }
      if approved {
        validationAcks := validationAcks + {did};
      } else {
        validationRejections := validationRejections + {did};
      }
      r := Ok(());
    }

    /** `hasAllValidationResponses`: the service fails the cohort when this holds and full validation does not. */
    predicate HasAllValidationResponses()
      reads this
    {
      |validationAcks| + |validationRejections| == |participants|
    }

    /** A full count of answers means that everyone answered exactly when nobody answered both ways. */
    lemma AllAnsweredIff()
      requires Valid() && Distinct(participants) && HasAllValidationResponses()
      ensures validationAcks + validationRejections == Elements(participants)
              <==> validationAcks !! validationRejections
    {
      GateMeansEveryone(participants, validationAcks, validationRejections);
    }

    /** ... and likewise a full count of responses: everyone responded exactly when no submitter also declined. */
    lemma AllRespondedIff()
      requires Valid() && Distinct(participants) && HasAllResponses()
      ensures pendingUpdates.Keys + nonIncluded == Elements(participants) <==> pendingUpdates.Keys !! nonIncluded
    {
      assert |pendingUpdates| == |pendingUpdates.Keys|;
      GateMeansEveryone(participants, pendingUpdates.Keys, nonIncluded);
    }

    predicate IsFullyValidated()
      reads this
    {
      |validationRejections| == 0 && |validationAcks| == |participants|
    }

    /** Counting is enough here: full validation is everyone's approval and nobody's rejection. */
    lemma FullyValidatedMeans()
      requires Valid() && Distinct(participants)
      ensures IsFullyValidated() <==> validationAcks == Elements(participants) && validationRejections == {}
    {
      DistinctCount(participants);
      if IsFullyValidated() && validationAcks != Elements(participants) {
        SubsetSize(validationAcks, Elements(participants));
      }
    }

    // ----- Aggregated data

    /** `buildCASAnnouncement` */
    method BuildCASAnnouncement() returns (r: Result<Announcement>)
      requires Valid()
      modifies this`casAnnouncement, this`signalBytes
      ensures r.Ok? <==> HasAllResponses()
      ensures r.Ok? ==> casAnnouncement == Some(r.value)
      ensures r.Ok? ==> r.value == map did | did in pendingUpdates :: env.CanonicalHash(pendingUpdates[did])
      ensures r.Ok? ==> forall did :: CasMatches(env, did, Submitted(pendingUpdates, did), Some(r.value))
      ensures r.Ok? ==> signalBytes == Some(env.smt.H(env.smt.utf8(env.canonicalizeMap(r.value))))
    {
      if |pendingUpdates| + |nonIncluded| != |participants| { return Err("INCOMPLETE_RESPONSES"); }
      var announcement := Announce(env, pendingUpdates);
      casAnnouncement := Some(announcement);
      signalBytes := Some(env.smt.H(env.smt.utf8(env.canonicalizeMap(announcement))));
      r := Ok(announcement);
    }
    /**
     * `buildSMTTree`, with the random nonces as a parameter. It succeeds exactly when the count
     * of responses is full and no two members share a tree index, which they do only if their
     * encodings are one or collide; the signal is the root, and every member's proof makes that
     * member's own check succeed.
     */
    method BuildSMTTree(nonces: seq<Digest>) returns (r: Result<map<string, SerializedProof>>)
      requires Valid() && env.smt.Lawful() && |nonces| == |participants|
      modifies this`smtProofs, this`signalBytes
      ensures r.Ok? <==> HasAllResponses() && DistinctDids(env.smt, Slots(env, pendingUpdates, participants, nonces))
      ensures HasAllResponses() && r.Err? ==> IndexClash(env.smt, participants)
      ensures r.Ok? ==> smtProofs == Some(r.value) && r.value.Keys == Elements(participants)
      ensures r.Ok? ==>
                var es := Slots(env, pendingUpdates, participants, nonces);
                signalBytes == Some(ZeroHashRoot(env.smt.H, LeavesOf(env.smt, es)))
      ensures r.Ok? ==> forall did :: did in participants ==>
                GoodProof(env, pendingUpdates, did, signalBytes.value, r.value[did])
    {
      hide DistinctDids, GoodProof, ZeroHashRoot, IsZeroTable, IndexOk, SnapshotOk, Pow2;
      if |pendingUpdates| + |nonIncluded| != |participants| { return Err("INCOMPLETE_RESPONSES"); }
      var entries := MakeSlots(env, pendingUpdates, participants, nonces);
      var tree := new BTCR2MerkleTree(env.smt);
      var added := tree.AddEntries(entries);
      WholeBatch(env.smt, entries);
      if added.Err? {
        ClashOrDistinct(env, pendingUpdates, participants, nonces);
        return Err(added.error);
      }
      tree.Finalize();
      var proofs := AllProofs(env, pendingUpdates, participants, nonces, tree);
      signalBytes, smtProofs := Some(tree.root.value), Some(proofs);
      r := Ok(proofs);
    }
  }

  // ----- Members and slots

  function KeysOf(participants: seq<string>, keys: map<string, Bytes>): (r: seq<Bytes>)
    requires forall did :: did in participants ==> did in keys
    ensures |r| == |participants| && forall k :: 0 <= k < |r| ==> r[k] == keys[participants[k]]
  {
    seq(|participants|, k requires 0 <= k < |participants| => keys[participants[k]])
  }

  /** Every member has a key on record, and the sorted list is a rearrangement of those keys. */
  ghost predicate KeysAligned(participants: seq<string>, keys: map<string, Bytes>, cohortKeys: seq<Bytes>) {
    && Distinct(participants)
    && (forall did :: did in participants ==> did in keys)
    && Sorted(cohortKeys) && multiset(cohortKeys) == multiset(KeysOf(participants, keys))
  }

  lemma AlignedAdd(participants: seq<string>, keys: map<string, Bytes>, cohortKeys: seq<Bytes>, did: string, pk: Bytes)
    requires did !in participants && KeysAligned(participants, keys, cohortKeys)
    ensures KeysAligned(participants + [did], keys[did := pk], SortKeys(cohortKeys + [pk]))
  {
    hide SortKeys, Sorted;
    var ps, ks := participants + [did], keys[did := pk];
    SortKeysSorts(cohortKeys + [pk]);
    assert KeysOf(ps, ks) == KeysOf(participants, keys) + [pk];
    forall i, j | 0 <= i < j < |ps| ensures ps[i] != ps[j] { assert i < |participants| && ps[i] in participants; }
  }

  // ----- The CAS round

  /** The loop of `buildCASAnnouncement`. */
  method Announce(env: AggEnv, updates: map<string, Doc>) returns (a: Announcement)
    ensures a == map did | did in updates :: env.CanonicalHash(updates[did])
  {
    a := map[];
    var todo := updates.Keys;
    while todo != {}
      invariant todo <= updates.Keys && a.Keys == updates.Keys - todo
      invariant forall did :: did in a ==> a[did] == env.CanonicalHash(updates[did])
      decreases todo
    {
      var did :| did in todo;
      a := a[did := env.CanonicalHash(updates[did])];
      todo := todo - {did};
    }
  }

  /** Every member's own check of the announcement succeeds; and only for what it submitted. */
  lemma CasRound(env: AggEnv, updates: map<string, Doc>, did: string, submitted: Option<Doc>)
    ensures CasMatches(env, did, submitted, Some(map d | d in updates :: env.CanonicalHash(updates[d])))
       <==> (submitted.Some? <==> did in updates)
            && (submitted.Some? ==> env.CanonicalHash(submitted.value) == env.CanonicalHash(updates[did]))
  {
  }

  // ----- The SMT round

  /** What a member submitted this round. */
  function Submitted(updates: map<string, Doc>, did: string): Option<Doc> {
    if did in updates then Some(updates[did]) else None
  }

  /** A member's tree entry: an inclusion leaf if it submitted, a non-inclusion leaf if not. */
  function Slot(env: AggEnv, updates: map<string, Doc>, did: string, nonce: Digest): TreeEntry {
    match Submitted(updates, did)
    case Some(doc) => TreeEntry(did, nonce, Some(env.CanonicalBytes(doc)))
    case None => TreeEntry(did, nonce, None)
  }

  function Slots(env: AggEnv, updates: map<string, Doc>, participants: seq<string>, nonces: seq<Digest>)
    : (es: EntryList)
    requires |nonces| == |participants|
    ensures |es| == |participants|
    ensures forall k :: 0 <= k < |es| ==> es[k] == Slot(env, updates, participants[k], nonces[k])
  {
    seq(|participants|, k requires 0 <= k < |participants| => Slot(env, updates, participants[k], nonces[k]))
  }

  /** The loop that fills the slots. */
  method MakeSlots(env: AggEnv, updates: map<string, Doc>, participants: seq<string>, nonces: seq<Digest>)
    returns (entries: EntryList)
    requires |nonces| == |participants|
    ensures entries == Slots(env, updates, participants, nonces)
  {
    entries := [];
    for k := 0 to |participants|
      invariant |entries| == k
      invariant forall j :: 0 <= j < k ==> entries[j] == Slot(env, updates, participants[j], nonces[j])
    {
      entries := entries + [Slot(env, updates, participants[k], nonces[k])];
    }
  }

  /** A proof that satisfies its member's own check, and names the root. */
  ghost predicate GoodProof(env: AggEnv, updates: map<string, Doc>, did: string, root: Digest, s: SerializedProof) {
    && SmtMatches(env, did, Submitted(updates, did), Some(s)) == Ok(true)
    && env.smt.TextToHash(s.id) == Ok(root)
  }

  lemma WholeBatch(env: Env, entries: EntryList)
    ensures Accepted(env, [], entries) == |entries| <==> DistinctDids(env, entries)
    ensures [] + entries[..|entries|] == entries
    ensures DistinctDids(env, [])
  {
    AcceptedAll(env, [], entries);
    assert [] + entries == entries;
  }

  /** Two members, two encodings that are one or share a digest. */
  ghost predicate IndexClash(env: Env, dids: seq<string>) {
    exists i, j :: 0 <= i < j < |dids|
                   && (env.utf8(dids[i]) == env.utf8(dids[j])
                       || Collides(env.H, env.utf8(dids[i]), env.utf8(dids[j])))
  }

  lemma ClashOrDistinct(env: AggEnv, updates: map<string, Doc>, dids: seq<string>, nonces: seq<Digest>)
    requires |nonces| == |dids| && !DistinctDids(env.smt, Slots(env, updates, dids, nonces))
    ensures IndexClash(env.smt, dids)
  {
    var es := Slots(env, updates, dids, nonces);
    var i, j :| 0 <= i < j < |es| && env.smt.DidToIndex(es[i].did) == env.smt.DidToIndex(es[j].did);
    env.smt.DidIndexBinds(dids[i], dids[j]);
  }

  /** The proof the tree makes for a slot, serialized and read back, satisfies the member. */
  lemma SlotProofGood(env: AggEnv, updates: map<string, Doc>, es: EntryList, k: nat, did: string, nonce: Digest,
                      proof: Proof)
    requires env.smt.Lawful() && DistinctDids(env.smt, es) && k < |es| && es[k] == Slot(env, updates, did, nonce)
    requires IsProofFor(env.smt.H, LeavesOf(env.smt, es), env.smt.DidToIndex(did), proof)
    ensures var root := ZeroHashRoot(env.smt.H, LeavesOf(env.smt, es));
            var s := Serialize(env.smt, root, proof, Some(es[k].nonce), UpdateId(env.smt, es[k]));
            s.Ok? && GoodProof(env, updates, did, root, s.value)
  {
    hide Pow2, Verifies, ZeroHashRoot;
    var ls := LeavesOf(env.smt, es);
    var root := ZeroHashRoot(env.smt.H, ls);
    LeavesDistinct(env.smt, es);
    LeafAtIs(env.smt.H, ls, k);
    Completeness(env.smt.H, ls, env.smt.DidToIndex(did), proof);
    SmtMatchesSerialized(env, did, Submitted(updates, did), root, proof, nonce);
    SerializeRoundTrip(env.smt, root, proof, Some(nonce), UpdateId(env.smt, es[k]));
  }

  method ProofFor(env: AggEnv, updates: map<string, Doc>, participants: seq<string>, nonces: seq<Digest>,
                  tree: BTCR2MerkleTree, k: nat) returns (p: SerializedProof)
    requires tree.Valid() && tree.env == env.smt && env.smt.Lawful() && |nonces| == |participants|
    requires tree.entries == Slots(env, updates, participants, nonces) && k < |participants|
    requires tree.leaves == Some(LeavesOf(env.smt, tree.entries))
    requires tree.root == Some(ZeroHashRoot(env.smt.H, LeavesOf(env.smt, tree.entries)))
    ensures GoodProof(env, updates, participants[k], tree.root.value, p)
  {
    hide GoodProof, IsZeroTable, SnapshotOk, Pow2, IsProofFor, Serialize;
    var did := participants[k];
    var r := tree.GetProof(did);
    assert tree.entries[k].did == did;
    ghost var proof :| IsProofFor(env.smt.H, tree.leaves.value, env.smt.DidToIndex(did), proof)
      && r == Serialize(env.smt, tree.root.value, proof, Some(tree.entries[k].nonce),
                        UpdateId(env.smt, tree.entries[k]));
    SlotProofGood(env, updates, tree.entries, k, did, nonces[k], proof);
    p := r.value;
  }

  /** The loop that collects the proofs. */
  method AllProofs(env: AggEnv, updates: map<string, Doc>, participants: seq<string>, nonces: seq<Digest>,
                   tree: BTCR2MerkleTree) returns (proofs: map<string, SerializedProof>)
    requires tree.Valid() && tree.env == env.smt && env.smt.Lawful() && |nonces| == |participants|
    requires tree.entries == Slots(env, updates, participants, nonces)
    requires tree.leaves == Some(LeavesOf(env.smt, tree.entries))
    requires tree.root == Some(ZeroHashRoot(env.smt.H, LeavesOf(env.smt, tree.entries)))
    ensures proofs.Keys == Elements(participants)
    ensures forall did :: did in participants ==> GoodProof(env, updates, did, tree.root.value, proofs[did])
  {
    hide GoodProof, IsZeroTable, SnapshotOk, IndexOk, Pow2, ZeroHashRoot;
    proofs := map[];
    for k := 0 to |participants|
      invariant proofs.Keys == Elements(participants[..k])
      invariant forall did :: did in participants[..k] ==> GoodProof(env, updates, did, tree.root.value, proofs[did])
    {
      var p := ProofFor(env, updates, participants, nonces, tree, k);
      proofs := proofs[participants[k] := p];
      assert participants[..k + 1] == participants[..k] + [participants[k]];
    }
    assert participants[..|participants|] == participants;
  }
}
