/**
 * The participant as an object: a map of records that handlers and decisions update in place.
 * Every call is one event of a run, so what `ParticipantSafety` proves of runs holds of the object.
 */
module AggregationParticipant {
  import opened Hashing
  import opened Btcr2Proof
  import opened BeaconStrategy
  import opened Recovery
  import opened Cohort
  import opened Participant
  import opened ParticipantSafety
  import opened ParticipantSigning
  import opened SignalCommitment

  lemma RunSnoc(lib: Libraries, events: seq<Event>, e: Event)
    ensures Run(lib, events + [e]) == Step(lib, Run(lib, events), e).0
  {
    assert (events + [e])[..|events|] == events;
  }

  class AggregationParticipant {
    const lib: Libraries
    var states: map<string, CohortState>
    /** Stands for the random source: the number of the next secret nonce. */
    var nextSecret: nat
    ghost var log: seq<Fact>
    ghost var history: seq<Event>

    ghost function State(): Sys
      reads this`states, this`nextSecret, this`log
    {
      Sys(states, nextSecret, log)
    }

    /** The object is where the run of its calls so far leads. */
    ghost predicate Valid()
      reads this
    {
      State() == Run(lib, history)
    }

    constructor (lib: Libraries)
      ensures Valid() && history == [] && this.lib == lib
    {
      this.lib := lib;
      states, nextSecret, log, history := map[], 0, [], [];
    }

    // ----- What holds of the object

    /** Whatever it gave away is for a transaction that carries the signal stored for the cohort, approved before. */
    lemma GaveOnlyAnchored(k: nat)
      requires Valid() && k < |log| && Gives(log[k])
      ensures var id := log[k].cohortId;
              && id in states && states[id].validation.Some?
              && Embeds(lib, log[k].tx, states[id].validation.value.signalHex)
              && Approved(id, states[id].validation.value.signalHex) in log[..k]
    {
      GiftsAreAnchored(lib, history, k);
    }

    /** It signed with each secret once, for the transaction the secret was drawn for, and once for each cohort. */
    lemma SignedOnce(j: nat, k: nat)
      requires Valid() && j < k < |log|
      ensures !(log[j].NonceGiven? && log[k].NonceGiven? && log[j].cohortId == log[k].cohortId)
      ensures !(log[j].PartialGiven? && log[k].PartialGiven? && log[j].cohortId == log[k].cohortId)
      ensures !(log[j].SecretUsed? && log[k].SecretUsed? && log[j].secret == log[k].secret)
      ensures log[k].PartialGiven? ==> SignedWith(log[..k], log[k].cohortId, log[k].tx)
    {
      SecretsAreUsedOnce(lib, history, j, k);
    }

    /** Its partial signatures are for what the authorization request and the accepted beacon say. */
    lemma GaveOnlyAuthorized(k: nat)
      requires Valid() && k < |log| && log[k].PartialGiven?
      ensures log[k].cohortId in states && SignsFor(lib, states[log[k].cohortId], log[k].tx, log[k].context)
    {
      SignsWhatWasAuthorized(lib, history, k);
    }

    /** The secrets it holds are unspent, and none is held in any phase but the two that need it. */
    lemma HoldsOnlyNeeded(id: string)
      requires Valid() && id in states && Held(states[id]).Some?
      ensures states[id].phase in {NonceSent, AwaitingPartialSig} && Unspent(log, Held(states[id]).value)
    {
      SecretsAreWiped(lib, history, id);
    }

    /** A fallback signature it gave is for a leaf the accepted address commits to. */
    lemma GaveOnlyCommitted(k: nat)
      requires Valid() && k < |log| && log[k].FallbackGiven?
      ensures var id := log[k].cohortId;
              id in states && states[id].cohort.Some?
              && ParticipantSafety.Commits(lib.bitcoin, states[id].cohort.value, log[k].leaf)
    {
      FallbackLeafIsCommitted(lib, history, k);
    }

    /** ... and where the data it validated named its signal, that signal commits to its own slot. */
    lemma GaveOnlyCommitting(k: nat)
      requires Valid() && k < |log| && Gives(log[k]) && lib.agg.smt.Lawful() && lib.agg.Canonical()
      ensures var id := log[k].cohortId;
              && id in states && states[id].validation.Some?
              && var v := states[id].validation.value;
                 v.matches && Named(lib, v) && Resists(lib, v) ==> CommitsToOwn(lib, v, Own(states[id]))
    {
      GiftsCommitWhenNamed(lib, history, k);
    }

    function OwnLeaf(m: Member): Result<Bytes> {
      FallbackLeaf(lib.bitcoin, m.state.keys, EffectiveThreshold(m.params, m.state.keys))
    }

    // ----- One call

    /** The record went from one phase to another, and no other record changed. */
    predicate Moved(before: map<string, CohortState>, id: string, p: Phase, q: Phase)
      reads this`states
    {
      && id in before && before[id].phase == p
      && id in states && states[id].phase == q && states == before[id := states[id]]
    }

    /** Puts the event on the history; the caller then owes the state that `Step` gives. */
    ghost method Begin(id: string, a: Action)
      requires Valid()
      modifies this`history
      ensures history == old(history) + [At(id, a)]
      ensures Run(lib, history) == Step(lib, State(), At(id, a)).0
      ensures id in states && (a.Receive? ==> id != "") ==>
                var e := Do(lib, id, nextSecret, states[id], a);
                Step(lib, State(), At(id, a))
                == (Sys(states[id := e.st], if a.ApproveNonce? then nextSecret + 1 else nextSecret, log + e.facts),
                    e.outcome)
      ensures id !in states && !a.Receive? ==> Step(lib, State(), At(id, a)) == (State(), Err("INVALID_PHASE"))
      ensures id in states ==> states[id := states[id]] == states
      ensures log + [] == log
    {
      hide Run, Do;
      RunSnoc(lib, history, At(id, a));
      history := history + [At(id, a)];
    }

    /** `joinCohort` */
    method JoinCohort(id: string) returns (r: Result<()>)
      requires Valid()
      modifies this
      ensures Valid() && history == old(history) + [At(id, Join)]
      ensures r == Step(lib, old(State()), At(id, Join)).1
      ensures r.Ok? ==> Moved(old(states), id, Discovered, OptedIn) && log == old(log)
      ensures r.Err? ==> states == old(states) && log == old(log)
    {
      hide Run, OnMessage, DoApproveNonce, DoGeneratePartial, DoApproveFallback;
      Begin(id, Join);
      if id !in states { return Err("INVALID_PHASE"); }
      var state := states[id];
      if state.phase != Discovered || state.advert.None? { return Err("INVALID_PHASE"); }
      var advert := state.advert.value;
      var recoveryKey: Option<Bytes> := None;
      if advert.recoveryKeyHex != "" {
        recoveryKey := lib.hexToBytes(advert.recoveryKeyHex);
        if recoveryKey.None? { return Err("hexToBytes"); }
      }
      var params := BeaconParams(advert.network, recoveryKey, advert.recoverySequence, advert.fundingModel,
                                 advert.fallbackThreshold);
      state := state.(cohort := Some(Member(params, KeyState([], NO_BEACON))));
      state := state.(phase := OptedIn);
      states := states[id := state];
      return Ok(());
    }

    /** `submitUpdate` */
    method SubmitUpdate(id: string, signedUpdate: Doc) returns (r: Result<()>)
      requires Valid()
      modifies this
      ensures Valid() && history == old(history) + [At(id, Submit(signedUpdate))]
      ensures r == Step(lib, old(State()), At(id, Submit(signedUpdate))).1
      ensures r.Ok? ==> Moved(old(states), id, CohortReady, UpdateSubmitted) && log == old(log)
      ensures r.Ok? ==> states[id].submitted == Some(signedUpdate) && states[id].included == Some(true)
      ensures r.Err? ==> states == old(states) && log == old(log)
    {
      hide Run, OnMessage, DoJoin, DoApproveNonce, DoGeneratePartial, DoApproveFallback;
      Begin(id, Submit(signedUpdate));
      if id !in states || states[id].phase != CohortReady { return Err("INVALID_PHASE"); }
      var state := states[id];
      state := state.(submitted := Some(signedUpdate));
      state := state.(included := Some(true));
      state := state.(phase := UpdateSubmitted);
      states := states[id := state];
      return Ok(());
    }

    /** `declineUpdate` */
    method DeclineUpdate(id: string) returns (r: Result<()>)
      requires Valid()
      modifies this
      ensures Valid() && history == old(history) + [At(id, Decline)]
      ensures r == Step(lib, old(State()), At(id, Decline)).1
      ensures r.Ok? ==> Moved(old(states), id, CohortReady, NonIncluded) && log == old(log)
      ensures r.Ok? ==> states[id].included == Some(false)
      ensures r.Err? ==> states == old(states) && log == old(log)
    {
      hide Run, OnMessage, DoJoin, DoApproveNonce, DoGeneratePartial, DoApproveFallback;
      Begin(id, Decline);
      if id !in states || states[id].phase != CohortReady { return Err("INVALID_PHASE"); }
      var state := states[id].(included := Some(false));
      state := state.(phase := NonIncluded);
      states := states[id := state];
      return Ok(());
    }

    /** `approveValidation`: from here on the stored signal binds every signature. */
    method ApproveTheValidation(id: string) returns (r: Result<()>)
      requires Valid()
      modifies this
      ensures Valid() && history == old(history) + [At(id, ApproveValidation)]
      ensures r == Step(lib, old(State()), At(id, ApproveValidation)).1
      ensures r.Ok? ==> Moved(old(states), id, AwaitingValidation, ValidationSent)
      ensures r.Ok? && states[id].validation.Some? ==>
                log == old(log) + [Approved(id, states[id].validation.value.signalHex)]
      ensures r.Err? ==> states == old(states) && log == old(log)
    {
      hide Run, OnMessage, DoJoin, DoApproveNonce, DoGeneratePartial, DoApproveFallback;
      Begin(id, ApproveValidation);
      if id !in states || states[id].phase != AwaitingValidation { return Err("INVALID_PHASE"); }
      var state := states[id];
      if state.validation.Some? { log := log + [Approved(id, state.validation.value.signalHex)]; }
      states := states[id := state.(phase := ValidationSent)];
      return Ok(());
    }

    /** `rejectValidation` */
    method RejectTheValidation(id: string) returns (r: Result<()>)
      requires Valid()
      modifies this
      ensures Valid() && history == old(history) + [At(id, RejectValidation)]
      ensures r == Step(lib, old(State()), At(id, RejectValidation)).1
      ensures r.Ok? ==> Moved(old(states), id, AwaitingValidation, Failed) && log == old(log)
      ensures r.Err? ==> states == old(states) && log == old(log)
    {
      hide Run, OnMessage, DoJoin, DoApproveNonce, DoGeneratePartial, DoApproveFallback;
      Begin(id, RejectValidation);
      if id !in states || states[id].phase != AwaitingValidation { return Err("INVALID_PHASE"); }
      states := states[id := states[id].(phase := Failed)];
      return Ok(());
    }

    /** `#assertTxAnchorsValidatedSignal`: the code it throws, if any. */
    method AssertTxAnchorsValidatedSignal(state: CohortState, tx: Tx) returns (e: Option<string>)
      ensures e == AnchorError(lib, state, tx)
    {
      if state.validation.None? || state.validation.value.signalHex == "" { return Some("MISSING_STATE"); }
      var embeds := TxEmbedsSignal(lib, tx, state.validation.value.signalHex);
      if !embeds { return Some("SIGNAL_MISMATCH"); }
      return None;
    }

    /** `approveNonce` with `generateNonceContribution` of the session it opens. */
    method ApproveTheNonce(id: string) returns (r: Result<()>)
      requires Valid()
      modifies this
      ensures Valid() && history == old(history) + [At(id, ApproveNonce)]
      ensures r == Step(lib, old(State()), At(id, ApproveNonce)).1
      ensures r.Ok? ==> Moved(old(states), id, AwaitingSigning, NonceSent) && Held(states[id]) == Some(old(nextSecret))
      ensures r.Ok? ==> states[id].session.Some?
                        && AnchorError(lib, old(states)[id], states[id].session.value.tx) == None
                        && log == old(log) + [NonceGiven(id, states[id].session.value.tx, old(nextSecret))]
      ensures r.Err? ==> log == old(log)
                         && (states == old(states) || Moved(old(states), id, AwaitingSigning, AwaitingSigning))
    {
      hide AnchorError, StepAt, Run, OnMessage, DoJoin, DoGeneratePartial, DoApproveFallback;
      Begin(id, ApproveNonce);
      if id !in states { return Err("INVALID_PHASE"); }
      var secret := nextSecret;
      nextSecret := nextSecret + 1;
      var state := states[id];
      if state.phase != AwaitingSigning { return Err("INVALID_PHASE"); }
      if state.signing.None? || state.cohort.None? { return Err("MISSING_STATE"); }
      var request := state.signing.value;
      var tx := lib.parseTx(request.txHex);
      if tx.None? { return Err("fromRaw"); }
      var bad := AssertTxAnchorsValidatedSignal(state, tx.value);
      if bad.Some? { return Err(bad.value); }
      var script := lib.hexToBytes(request.prevOutScriptHex);
      if script.None? { return Err("hexToBytes"); }
      var value := lib.parseAmount(request.prevOutValue);
      if value.None? { return Err("BigInt"); }
      var session := Session(request.sessionId, tx.value, script.value, value.value, None, None);
      state := state.(session := Some(session));
      states := states[id := state];
      if lib.bitcoin.keyAggregate(state.cohort.value.state.keys).None? { return Err("keyAggregate"); }
      state := state.(session := Some(session.(secretNonce := Some(secret))));
      log := log + [NonceGiven(id, tx.value, secret)];
      states := states[id := state.(phase := NonceSent)];
      return Ok(());
    }

    /** The session's own `generatePartialSignature`, up to the signing. */
    method SessionContext(session: Session, member: Member) returns (r: Result<SigningContext>)
      ensures r == ContextOf(lib, session, member)
    {
      if session.aggregatedNonce.None? { return Err("MISSING_AGGREGATED_NONCE"); }
      if session.secretNonce.None? { return Err("MISSING_SECRET_NONCE"); }
      var sigHash := lib.sigHash(session.tx, session.prevOutScript, session.prevOutValue);
      if sigHash.None? { return Err("SIGHASH_ERROR"); }
      var context := SigningContext(session.aggregatedNonce.value, member.state.keys, sigHash.value,
                                    member.state.beacon.tapTweak);
      if !lib.sessionValid(context) { return Err("musig2.Session"); }
      r := Ok(context);
    }

    /** `generatePartialSignature`: the secret is dropped before signing is tried. */
    method GeneratePartialSignature(id: string) returns (r: Result<()>)
      requires Valid()
      modifies this
      ensures Valid() && history == old(history) + [At(id, GeneratePartial)]
      ensures r == Step(lib, old(State()), At(id, GeneratePartial)).1
      ensures r.Ok? ==> Moved(old(states), id, AwaitingPartialSig, Complete) && Held(states[id]) == None
      ensures r.Ok? ==> states[id].session.Some? && Held(old(states)[id]).Some?
                        && exists ctx: SigningContext ::
                             log == old(log) + [SecretUsed(id, Held(old(states)[id]).value),
                                                PartialGiven(id, states[id].session.value.tx, ctx)]
      ensures r.Err? ==>
                || (states == old(states) && log == old(log))
                || (Moved(old(states), id, AwaitingPartialSig, AwaitingPartialSig) && Held(states[id]) == None
                    && Held(old(states)[id]).Some?
                    && log == old(log) + [SecretUsed(id, Held(old(states)[id]).value)])
    {
      hide StepAt, Run, OnMessage, DoJoin, DoApproveNonce, DoApproveFallback, ContextOf;
      Begin(id, GeneratePartial);
      if id !in states || states[id].phase != AwaitingPartialSig { return Err("INVALID_PHASE"); }
      var state := states[id];
      if state.session.None? || state.cohort.None? { return Err("MISSING_STATE"); }
      var session := state.session.value;
      var context := SessionContext(session, state.cohort.value);
      if context.Err? { return Err(context.error); }
      var secret := session.secretNonce.value;
      state := state.(session := Some(session.(secretNonce := None)));
      states := states[id := state];
      log := log + [SecretUsed(id, secret)];
      if !lib.signs(context.value) { return Err("sign"); }
      log := log + [PartialGiven(id, session.tx, context.value)];
      assert log == old(log) + [SecretUsed(id, secret), PartialGiven(id, session.tx, context.value)];
      states := states[id := state.(phase := Complete)];
      return Ok(());
    }

    /** `approveFallback`: the leaf is rebuilt from the member's own keys. */
    method ApproveTheFallback(id: string) returns (r: Result<()>)
      requires Valid()
      modifies this
      ensures Valid() && history == old(history) + [At(id, ApproveFallback)]
      ensures r == Step(lib, old(State()), At(id, ApproveFallback)).1
      ensures r.Ok? ==> Moved(old(states), id, AwaitingFallbackSig, Complete) && states[id].cohort.Some?
      ensures r.Ok? ==> |log| == |old(log)| + 1 && old(log) <= log && log[|old(log)|].FallbackGiven?
                        && OwnLeaf(states[id].cohort.value) == Ok(log[|old(log)|].leaf)
                        && AnchorError(lib, old(states)[id], log[|old(log)|].tx) == None
      ensures r.Err? ==> states == old(states) && log == old(log)
    {
      hide AnchorError, FallbackLeaf, StepAt, Run, OnMessage, DoJoin, DoApproveNonce, DoGeneratePartial;
      Begin(id, ApproveFallback);
      if id !in states || states[id].phase != AwaitingFallbackSig { return Err("INVALID_PHASE"); }
      var state := states[id];
      if state.fallback.None? || state.cohort.None? { return Err("MISSING_STATE"); }
      var request, member := state.fallback.value, state.cohort.value;
      var tx := lib.parseTx(request.txHex);
      if tx.None? { return Err("fromRaw"); }
      var script := lib.hexToBytes(request.prevOutScriptHex);
      if script.None? { return Err("hexToBytes"); }
      var value := lib.parseAmount(request.prevOutValue);
      if value.None? { return Err("BigInt"); }
      var bad := AssertTxAnchorsValidatedSignal(state, tx.value);
      if bad.Some? { return Err(bad.value); }
      var leaf := FallbackLeaf(lib.bitcoin, member.state.keys, EffectiveThreshold(member.params, member.state.keys));
      if leaf.Err? { return Err(leaf.error); }
      var sigHash := lib.fallbackSighash(tx.value, script.value, value.value, leaf.value);
      if sigHash.None? { return Err("preimage"); }
      log := log + [FallbackGiven(id, tx.value, leaf.value, sigHash.value)];
      states := states[id := state.(phase := Complete)];
      return Ok(());
    }

    // ----- Messages

    method HandleCohortAdvert(id: string, advert: Option<Advert>)
      modifies this`states
      ensures states == if advert.None? || id in old(states) then old(states)
                        else old(states)[id := FirstRecord(advert.value)]
    {
      if advert.None? { return; }
      if id in states { return; }
      var record := CohortState(Discovered, advert.value.serviceDid, advert, None, None, None, None, None, None, None);
      states := states[id := record];
    }

    method HandleCohortReady(id: string, address: string, keys: Option<seq<Bytes>>) returns (r: Result<()>)
      requires id in states
      modifies this`states, this`log
      ensures var e := OnCohortReady(lib, id, old(states[id]), address, keys);
              states == old(states)[id := e.st] && log == old(log) + e.facts && r == e.outcome
      ensures r.Ok? && states[id].phase != old(states)[id].phase ==>
                Moved(old(states), id, OptedIn, CohortReady) && states[id].cohort.Some?
                && log == old(log) + [AcceptedBy(id, states[id].cohort.value)]
      ensures r.Err? || states[id].phase == old(states)[id].phase ==> log == old(log)
    {
      hide AfterValidate, SortKeys, ComputeBeacon, HasAddress;
      assert states[id := states[id]] == states && log + [] == log;
      var state := states[id];
      if state.cohort.None? || state.phase != OptedIn { return Ok(()); }
      if address == "" || keys.None? { return Ok(()); }
      var member := state.cohort.value;
      var after := AfterValidate(lib.bitcoin, member.params, member.state, lib.publicKey, keys.value, address);
      state := state.(cohort := Some(member.(state := after.0)));
      states := states[id := state];
      if after.1.Err? { return Err(after.1.error); }
      AcceptedMembership(lib.bitcoin, member.params, member.state, lib.publicKey, keys.value, address);
      log := log + [Accepted(id, member.params, after.0.keys, address)];
      states := states[id := state.(phase := CohortReady)];
      return Ok(());
    }

    method HandleDistributeAggregatedData(id: string, beaconType: string, signalHex: string,
                                          announcement: Option<Announcement>, smtProof: Option<SerializedProof>)
      returns (r: Result<()>)
      requires id in states
      modifies this`states
      ensures var e := OnDistribute(lib, old(states[id]), beaconType, signalHex, announcement, smtProof);
              states == old(states)[id := e.st] && e.facts == [] && r == e.outcome
      ensures states == old(states)
              || (Moved(old(states), id, old(states[id]).phase, AwaitingValidation)
                  && old(states[id]).phase in {UpdateSubmitted, NonIncluded}
                  && states[id].validation.Some? && states[id].validation.value.signalHex == signalHex)
    {
      hide ViewMatches;
      assert states[id := states[id]] == states;
      var state := states[id];
      if state.phase != UpdateSubmitted && state.phase != NonIncluded { return Ok(()); }
      var declined := state.included == Some(false);
      if !declined && state.submitted.None? { return Ok(()); }
      if beaconType != "CASBeacon" && beaconType != "SMTBeacon" { return Ok(()); }
      var expectedHash, submitted := "", None;
      if !declined { expectedHash, submitted := lib.agg.CanonicalHash(state.submitted.value), state.submitted; }
      var matches := ViewMatches(lib.agg, lib.did, submitted, beaconType, announcement, smtProof);
      if matches.Err? { return Err(matches.error); }
      state := state.(validation := Some(Validation(beaconType, signalHex, expectedHash, matches.value, !declined,
        if beaconType == "CASBeacon" then announcement else None,
        if beaconType == "SMTBeacon" then smtProof else None)));
      states := states[id := state.(phase := AwaitingValidation)];
      return Ok(());
    }

    method HandleAuthorizationRequest(id: string, request: Request)
      requires id in states
      modifies this`states
      ensures states == old(states)[id := OnAuthorization(old(states[id]), request).st]
      ensures states == old(states)
              || (Moved(old(states), id, ValidationSent, AwaitingSigning) && Complete4(request)
                  && states[id].signing == Some(request))
    {
      assert states[id := states[id]] == states;
      var state := states[id];
      if state.cohort.None? { return; }
      if state.phase != ValidationSent { return; }
      if request.sessionId == "" || request.txHex == "" { return; }
      if request.prevOutScriptHex == "" || request.prevOutValue == "" { return; }
      state := state.(signing := Some(request));
      states := states[id := state.(phase := AwaitingSigning)];
    }

    method HandleAggregatedNonce(id: string, nonce: Option<Bytes>)
      requires id in states
      modifies this`states
      ensures states == old(states)[id := OnAggregatedNonce(old(states[id]), nonce).st]
      ensures states == old(states)
              || (Moved(old(states), id, NonceSent, AwaitingPartialSig)
                  && states[id].session.Some? && states[id].session.value.aggregatedNonce == nonce)
    {
      assert states[id := states[id]] == states;
      var state := states[id];
      if state.session.None? { return; }
      if state.phase != NonceSent { return; }
      if nonce.None? { return; }
      state := state.(session := Some(state.session.value.(aggregatedNonce := nonce)));
      states := states[id := state.(phase := AwaitingPartialSig)];
    }

    method HandleFallbackAuthorizationRequest(id: string, request: Request, leafHex: string)
      requires id in states
      modifies this`states
      ensures states == old(states)[id := OnFallbackAuthorization(old(states[id]), request, leafHex).st]
      ensures states == old(states)
              || (Moved(old(states), id, old(states[id]).phase, AwaitingFallbackSig)
                  && AcceptsFallback(old(states[id]).phase)
                  && states[id].fallback == Some(request) && Held(states[id]) == None)
    {
      assert states[id := states[id]] == states;
      var state := states[id];
      if state.cohort.None? { return; }
      if state.phase !in [ValidationSent, AwaitingSigning, NonceSent, AwaitingPartialSig, Complete] { return; }
      if request.sessionId == "" || request.txHex == "" || request.prevOutScriptHex == "" || request.prevOutValue == ""
         || leafHex == "" { return; }
      state := state.(fallback := Some(request));
      if state.session.Some? { state := state.(session := Some(state.session.value.(secretNonce := None))); }
      states := states[id := state.(phase := AwaitingFallbackSig)];
    }

    /** `receive` */
    method Receive(versionOk: bool, m: Message) returns (r: Result<()>)
      requires Valid()
      modifies this
      ensures Valid() && history == old(history) + [At(m.cohortId, Action.Receive(versionOk, m))]
      ensures r == Step(lib, old(State()), At(m.cohortId, Action.Receive(versionOk, m))).1
      ensures old(log) <= log && forall k :: |old(log)| <= k < |log| ==> log[k].Accepted? && About(log[k], m.cohortId)
      ensures forall id :: id != m.cohortId ==>
                (id in states <==> id in old(states)) && (id in states ==> states[id] == old(states)[id])
    {
      hide OnCohortReady, OnDistribute, Moved, Held, Run, DoJoin, DoApproveNonce, DoGeneratePartial, DoApproveFallback;
      var id := m.cohortId;
      Begin(id, Action.Receive(versionOk, m));
      r := Ok(());
      if !versionOk { return; }
      if m.CohortAdvert? {
        HandleCohortAdvert(id, m.advert);
      } else if m.Other? || id == "" || id !in states {
        return;
      } else if m.CohortReadyMsg? {
        r := HandleCohortReady(id, m.address, m.keys);
      } else if m.Distribute? {
        r := HandleDistributeAggregatedData(id, m.beaconType, m.signalHex, m.announcement, m.smtProof);
      } else if m.Authorization? {
        HandleAuthorizationRequest(id, m.request);
      } else if m.AggregatedNonce? {
        HandleAggregatedNonce(id, m.nonce);
      } else {
        HandleFallbackAuthorizationRequest(id, m.request, m.leafHex);
      }
    }

    /** `clearSecrets` */
    method ClearAllSecrets()
      requires Valid()
      modifies this
      ensures Valid() && history == old(history) + [ClearSecrets]
      ensures forall id :: id in states ==> Held(states[id]).None?
    {
      hide Run;
      RunSnoc(lib, history, ClearSecrets);
      history := history + [ClearSecrets];
      states := map id | id in states :: states[id].(session := Wiped(states[id].session));
    }
  }
}
