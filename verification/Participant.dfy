/**
 * The participant's state machine: one record for each cohort, driven by messages from anyone
 * and by the user's decisions. The functions below say what one event does to one record; the
 * class does it in place; `ParticipantSafety` says what holds over every run.
 */
module Participant {
  import opened Hashing
  import opened Btcr2Proof
  import opened BeaconStrategy
  import opened Recovery
  import opened Cohort

  // ----- Transactions and libraries

  datatype ScriptItem = Op(name: string) | Data(bytes: Bytes)

  /** A decoded output script; `None` where there is no script or it does not decode. */
  datatype Tx = Tx(raw: Bytes, outputs: seq<Option<seq<ScriptItem>>>)

  /** What MuSig2 signs with, beside the secret nonce. */
  datatype SigningContext = SigningContext(aggregatedNonce: Bytes, keys: seq<Bytes>, sigHash: Bytes, tweak: Bytes)

  /** The libraries and the member's own signer; `None` or false where they throw. */
  datatype Libraries = Libraries(
    agg: AggEnv, bitcoin: BitcoinLib, did: string, publicKey: Bytes,
    hexToBytes: string -> Option<Bytes>, parseTx: string -> Option<Tx>, parseAmount: string -> Option<int>,
    sigHash: (Tx, Bytes, int) -> Option<Bytes>, sessionValid: SigningContext -> bool, signs: SigningContext -> bool,
    fallbackSighash: (Tx, Bytes, int, Bytes) -> Option<Bytes>)

  /** An output `RETURN <payload>`. */
  predicate Returns(output: Option<seq<ScriptItem>>, payload: Bytes) {
    output.Some? && |output.value| == 2 && output.value[0] == Op("RETURN") && output.value[1] == Data(payload)
  }

  /** Some output carries exactly the signal, which must be non-empty hex. */
  predicate Embeds(lib: Libraries, tx: Tx, signalHex: string) {
    var expected := lib.hexToBytes(signalHex);
    expected.Some? && expected.value != []
    && exists k :: 0 <= k < |tx.outputs| && Returns(tx.outputs[k], expected.value)
  }

  /** Exactly: an output `RETURN <bytes of the signal>` and nothing more, and the bytes are not none. */
  lemma EmbedsIff(lib: Libraries, tx: Tx, signalHex: string)
    ensures Embeds(lib, tx, signalHex) <==>
              exists payload: Bytes :: payload != [] && lib.hexToBytes(signalHex) == Some(payload)
                                       && Some([Op("RETURN"), Data(payload)]) in tx.outputs
  {
    if Embeds(lib, tx, signalHex) {
      var payload := lib.hexToBytes(signalHex).value;
      var k :| 0 <= k < |tx.outputs| && Returns(tx.outputs[k], payload);
      assert tx.outputs[k].value == [Op("RETURN"), Data(payload)];
    }
  }

  /** `txEmbedsSignal` */
  method TxEmbedsSignal(lib: Libraries, tx: Tx, signalHex: string) returns (found: bool)
    ensures found == Embeds(lib, tx, signalHex)
  {
    var expected := lib.hexToBytes(signalHex);
    if expected.None? { return false; }
    if |expected.value| == 0 { return false; }
    for i := 0 to |tx.outputs|
      invariant forall k :: 0 <= k < i ==> !Returns(tx.outputs[k], expected.value)
    {
      var decoded := tx.outputs[i];
      if decoded.None? { continue; }
      if |decoded.value| == 2 && decoded.value[0] == Op("RETURN") && decoded.value[1] == Data(expected.value) {
        return true;
      }
    }
    found := false;
  }

  // ----- State of one cohort

  datatype Phase =
    | Discovered | OptedIn | CohortReady | UpdateSubmitted | NonIncluded | AwaitingValidation | ValidationSent
    | AwaitingSigning | NonceSent | AwaitingPartialSig | AwaitingFallbackSig | Complete | Failed

  datatype Advert = Advert(serviceDid: string, network: string, recoveryKeyHex: string, recoverySequence: Option<int>,
                           fundingModel: FundingModel, fallbackThreshold: Option<int>)

  /** The local cohort: its parameters, and the keys and address it holds. */
  datatype Member = Member(params: BeaconParams, state: KeyState)

  datatype Validation = Validation(beaconType: string, signalHex: string, expectedHash: string, matches: bool,
                                   included: bool, announcement: Option<Announcement>,
                                   smtProof: Option<SerializedProof>)

  datatype Request = Request(sessionId: string, txHex: string, prevOutScriptHex: string, prevOutValue: string)

  /** A secret nonce is known by a number; no two draws share one. */
  datatype Session = Session(id: string, tx: Tx, prevOutScript: Bytes, prevOutValue: int,
                             aggregatedNonce: Option<Bytes>, secretNonce: Option<nat>)

  datatype CohortState = CohortState(
    phase: Phase, serviceDid: string, advert: Option<Advert>, cohort: Option<Member>, submitted: Option<Doc>,
    included: Option<bool>, validation: Option<Validation>, signing: Option<Request>, fallback: Option<Request>,
    session: Option<Session>)

  // ----- Events

  datatype Message =
    | CohortAdvert(cohortId: string, advert: Option<Advert>)
    | CohortReadyMsg(cohortId: string, address: string, keys: Option<seq<Bytes>>)
    | Distribute(cohortId: string, beaconType: string, signalHex: string, announcement: Option<Announcement>,
                 smtProof: Option<SerializedProof>)
    | Authorization(cohortId: string, request: Request)
    | AggregatedNonce(cohortId: string, nonce: Option<Bytes>)
    | FallbackAuthorization(cohortId: string, request: Request, leafHex: string)
    | Other(cohortId: string)

  datatype Action =
    | Receive(versionOk: bool, message: Message)
    | Join | Submit(doc: Doc) | Decline | ApproveValidation | RejectValidation
    | ApproveNonce | GeneratePartial | ApproveFallback

  /** What a run leaves on record, in order. */
  datatype Fact =
    | Accepted(cohortId: string, params: BeaconParams, keys: seq<Bytes>, address: string)
    | Approved(cohortId: string, signalHex: string)
    | NonceGiven(cohortId: string, tx: Tx, secret: nat)
    | SecretUsed(cohortId: string, secret: nat)
    | PartialGiven(cohortId: string, tx: Tx, context: SigningContext)
    | FallbackGiven(cohortId: string, tx: Tx, leaf: Bytes, sigHash: Bytes)

  /** The record afterwards, what goes on record, and whether the call returned or threw. */
  datatype Effect = Effect(st: CohortState, facts: seq<Fact>, outcome: Result<()>)

  function Ignored(st: CohortState): Effect { Effect(st, [], Ok(())) }

  function Throws(st: CohortState, code: string): Effect { Effect(st, [], Err(code)) }

  function FirstRecord(advert: Advert): CohortState {
    CohortState(Discovered, advert.serviceDid, Some(advert), None, None, None, None, None, None, None)
  }

  predicate Complete4(r: Request) {
    r.sessionId != "" && r.txHex != "" && r.prevOutScriptHex != "" && r.prevOutValue != ""
  }

  // ----- Handlers

  function OnCohortReady(lib: Libraries, id: string, st: CohortState, address: string, keys: Option<seq<Bytes>>)
    : Effect
  {
    if st.cohort.None? || st.phase != OptedIn || address == "" || keys.None? then Ignored(st) else
    var m := st.cohort.value;
    var after := AfterValidate(lib.bitcoin, m.params, m.state, lib.publicKey, keys.value, address);
    var st' := st.(cohort := Some(m.(state := after.0)));
    match after.1
    case Err(e) => Throws(st', e)
    case Ok(_) => Effect(st'.(phase := CohortReady), [Accepted(id, m.params, after.0.keys, address)], Ok(()))
  }

  function OnDistribute(lib: Libraries, st: CohortState, beaconType: string, signalHex: string,
                        announcement: Option<Announcement>, smtProof: Option<SerializedProof>): Effect
  {
    if st.phase != UpdateSubmitted && st.phase != NonIncluded then Ignored(st) else
    var declined := st.included == Some(false);
    if !declined && st.submitted.None? then Ignored(st)
    else if beaconType != "CASBeacon" && beaconType != "SMTBeacon" then Ignored(st) else
    var submitted := if declined then None else st.submitted;
    var expectedHash := if declined then "" else lib.agg.CanonicalHash(st.submitted.value);
    match ViewMatches(lib.agg, lib.did, submitted, beaconType, announcement, smtProof)
    case Err(e) => Throws(st, e)
    case Ok(ok) =>
      var v := Validation(beaconType, signalHex, expectedHash, ok, !declined,
                          if beaconType == "CASBeacon" then announcement else None,
                          if beaconType == "SMTBeacon" then smtProof else None);
      Ignored(st.(validation := Some(v), phase := AwaitingValidation))
  }

  function OnAuthorization(st: CohortState, r: Request): Effect {
    if st.cohort.None? || st.phase != ValidationSent || !Complete4(r) then Ignored(st)
    else Ignored(st.(signing := Some(r), phase := AwaitingSigning))
  }

  function OnAggregatedNonce(st: CohortState, nonce: Option<Bytes>): Effect {
    if st.session.None? || st.phase != NonceSent || nonce.None? then Ignored(st)
    else Ignored(st.(session := Some(st.session.value.(aggregatedNonce := nonce)), phase := AwaitingPartialSig))
  }

  /** `clearSecrets` of a session, if there is one. */
  function Wiped(session: Option<Session>): Option<Session> {
    match session
    case None => None
    case Some(s) => Some(s.(secretNonce := None))
  }

  predicate AcceptsFallback(p: Phase) {
    p == ValidationSent || p == AwaitingSigning || p == NonceSent || p == AwaitingPartialSig || p == Complete
  }

  function OnFallbackAuthorization(st: CohortState, r: Request, leafHex: string): Effect {
    if st.cohort.None? || !AcceptsFallback(st.phase) || !Complete4(r) || leafHex == "" then Ignored(st)
    else Ignored(st.(fallback := Some(r), session := Wiped(st.session), phase := AwaitingFallbackSig))
  }

  function OnMessage(lib: Libraries, id: string, st: CohortState, m: Message): Effect {
    match m
    case CohortReadyMsg(_, address, keys) => OnCohortReady(lib, id, st, address, keys)
    case Distribute(_, t, s, a, p) => OnDistribute(lib, st, t, s, a, p)
    case Authorization(_, r) => OnAuthorization(st, r)
    case AggregatedNonce(_, n) => OnAggregatedNonce(st, n)
    case FallbackAuthorization(_, r, l) => OnFallbackAuthorization(st, r, l)
    case CohortAdvert(_, _) => Ignored(st)
    case Other(_) => Ignored(st)
  }

  // ----- Actions

  function ParamsOf(lib: Libraries, a: Advert): Option<BeaconParams> {
    if a.recoveryKeyHex == "" then
      Some(BeaconParams(a.network, None, a.recoverySequence, a.fundingModel, a.fallbackThreshold))
    else
      match lib.hexToBytes(a.recoveryKeyHex)
      case None => None
      case Some(k) => Some(BeaconParams(a.network, Some(k), a.recoverySequence, a.fundingModel, a.fallbackThreshold))
  }

  function DoJoin(lib: Libraries, st: CohortState): Effect {
    if st.phase != Discovered || st.advert.None? then Throws(st, "INVALID_PHASE") else
    match ParamsOf(lib, st.advert.value)
    case None => Throws(st, "hexToBytes")
    case Some(p) => Ignored(st.(cohort := Some(Member(p, KeyState([], NO_BEACON))), phase := OptedIn))
  }

  /** `#assertTxAnchorsValidatedSignal`: the code of the error it throws, if any. */
  function AnchorError(lib: Libraries, st: CohortState, tx: Tx): Option<string> {
    if st.validation.None? || st.validation.value.signalHex == "" then Some("MISSING_STATE")
    else if !Embeds(lib, tx, st.validation.value.signalHex) then Some("SIGNAL_MISMATCH")
    else None
  }

  function DoApproveNonce(lib: Libraries, id: string, secret: nat, st: CohortState): Effect {
    if st.phase != AwaitingSigning then Throws(st, "INVALID_PHASE")
    else if st.signing.None? || st.cohort.None? then Throws(st, "MISSING_STATE") else
    var r := st.signing.value;
    match lib.parseTx(r.txHex)
    case None => Throws(st, "fromRaw")
    case Some(tx) =>
      var bad := AnchorError(lib, st, tx);
      if bad.Some? then Throws(st, bad.value) else
      var script, value := lib.hexToBytes(r.prevOutScriptHex), lib.parseAmount(r.prevOutValue);
      if script.None? then Throws(st, "hexToBytes")
      else if value.None? then Throws(st, "BigInt") else
      var session := Session(r.sessionId, tx, script.value, value.value, None, None);
      if lib.bitcoin.keyAggregate(st.cohort.value.state.keys).None? then
        Throws(st.(session := Some(session)), "keyAggregate")
      else
        Effect(st.(session := Some(session.(secretNonce := Some(secret))), phase := NonceSent),
               [NonceGiven(id, tx, secret)], Ok(()))
  }

  /** The values a partial signature is made under; `Err` where the session throws before it signs. */
  function ContextOf(lib: Libraries, s: Session, m: Member): (r: Result<SigningContext>)
    ensures r.Ok? ==> s.secretNonce.Some? && lib.sessionValid(r.value)
  {
    if s.aggregatedNonce.None? then Err("MISSING_AGGREGATED_NONCE")
    else if s.secretNonce.None? then Err("MISSING_SECRET_NONCE") else
    match lib.sigHash(s.tx, s.prevOutScript, s.prevOutValue)
    case None => Err("SIGHASH_ERROR")
    case Some(h) =>
      var ctx := SigningContext(s.aggregatedNonce.value, m.state.keys, h, m.state.beacon.tapTweak);
      if lib.sessionValid(ctx) then Ok(ctx) else Err("musig2.Session")
  }

  function DoGeneratePartial(lib: Libraries, id: string, st: CohortState): Effect {
    if st.phase != AwaitingPartialSig then Throws(st, "INVALID_PHASE")
    else if st.session.None? || st.cohort.None? then Throws(st, "MISSING_STATE") else
    var s := st.session.value;
    match ContextOf(lib, s, st.cohort.value)
    case Err(e) => Throws(st, e)
    case Ok(ctx) =>
      var st' := st.(session := Wiped(st.session));
      if !lib.signs(ctx) then Effect(st', [SecretUsed(id, s.secretNonce.value)], Err("sign"))
      else
        Effect(st'.(phase := Complete), [SecretUsed(id, s.secretNonce.value), PartialGiven(id, s.tx, ctx)], Ok(()))
  }

  function DoApproveFallback(lib: Libraries, id: string, st: CohortState): Effect {
    if st.phase != AwaitingFallbackSig then Throws(st, "INVALID_PHASE")
    else if st.fallback.None? || st.cohort.None? then Throws(st, "MISSING_STATE") else
    var r, m := st.fallback.value, st.cohort.value;
    var tx, script, value := lib.parseTx(r.txHex), lib.hexToBytes(r.prevOutScriptHex), lib.parseAmount(r.prevOutValue);
    if tx.None? then Throws(st, "fromRaw")
    else if script.None? then Throws(st, "hexToBytes")
    else if value.None? then Throws(st, "BigInt") else
    var bad := AnchorError(lib, st, tx.value);
    if bad.Some? then Throws(st, bad.value) else
    match FallbackLeaf(lib.bitcoin, m.state.keys, EffectiveThreshold(m.params, m.state.keys))
    case Err(e) => Throws(st, e)
    case Ok(leaf) =>
      match lib.fallbackSighash(tx.value, script.value, value.value, leaf)
      case None => Throws(st, "preimage")
      case Some(h) => Effect(st.(phase := Complete), [FallbackGiven(id, tx.value, leaf, h)], Ok(()))
  }

  function Do(lib: Libraries, id: string, secret: nat, st: CohortState, a: Action): Effect {
    match a
    case Receive(versionOk, m) => if versionOk then OnMessage(lib, id, st, m) else Ignored(st)
    case Join => DoJoin(lib, st)
    case Submit(doc) =>
      if st.phase != CohortReady then Throws(st, "INVALID_PHASE")
      else Ignored(st.(submitted := Some(doc), included := Some(true), phase := UpdateSubmitted))
    case Decline =>
      if st.phase != CohortReady then Throws(st, "INVALID_PHASE")
      else Ignored(st.(included := Some(false), phase := NonIncluded))
    case ApproveValidation =>
      if st.phase != AwaitingValidation then Throws(st, "INVALID_PHASE")
      else Effect(st.(phase := ValidationSent),
                  if st.validation.Some? then [Approved(id, st.validation.value.signalHex)] else [], Ok(()))
    case RejectValidation =>
      if st.phase != AwaitingValidation then Throws(st, "INVALID_PHASE")
      else Ignored(st.(phase := Failed))
    case ApproveNonce => DoApproveNonce(lib, id, secret, st)
    case GeneratePartial => DoGeneratePartial(lib, id, st)
    case ApproveFallback => DoApproveFallback(lib, id, st)
  }

  // ----- The whole participant

  /** All records, the next secret nonce to be drawn, and the record of what was given away. */
  datatype Sys = Sys(states: map<string, CohortState>, nextSecret: nat, log: seq<Fact>)

  datatype Event = At(cohortId: string, action: Action) | ClearSecrets

  function StepAt(lib: Libraries, s: Sys, id: string, a: Action): (Sys, Result<()>) {
    if id !in s.states then
      if !a.Receive? then (s, Err("INVALID_PHASE"))
      else if a.versionOk && a.message.CohortAdvert? && a.message.advert.Some? then
        (s.(states := s.states[id := FirstRecord(a.message.advert.value)]), Ok(()))
      else (s, Ok(()))
    else if a.Receive? && id == "" then (s, Ok(()))
    else
      var e := Do(lib, id, s.nextSecret, s.states[id], a);
      (Sys(s.states[id := e.st], if a.ApproveNonce? then s.nextSecret + 1 else s.nextSecret, s.log + e.facts),
       e.outcome)
  }

  function Step(lib: Libraries, s: Sys, e: Event): (Sys, Result<()>) {
    match e
    case ClearSecrets =>
      (s.(states := map id | id in s.states :: s.states[id].(session := Wiped(s.states[id].session))), Ok(()))
    case At(id, a) => StepAt(lib, s, id, a)
  }

  const START := Sys(map[], 0, [])

  function Run(lib: Libraries, events: seq<Event>): Sys {
    if events == [] then START
    else Step(lib, Run(lib, events[..|events| - 1]), events[|events| - 1]).0
  }
}
