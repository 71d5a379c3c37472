/** The round a participant goes through when everyone keeps to the protocol: it ends in a signature, and in which. */
module ParticipantRound {
  import opened Hashing
  import opened Btcr2Proof
  import opened BeaconStrategy
  import opened Recovery
  import opened Cohort
  import opened Participant
  import opened ParticipantSafety
  import opened ParticipantSigning

  /** What the service sends in one round, and what it decodes to; `doc` is `None` for a member that declines. */
  datatype Round = Round(
    advert: Advert, params: BeaconParams, keys: seq<Bytes>, beacon: Beacon, doc: Option<Doc>, beaconType: string,
    signalHex: string, announcement: Option<Announcement>, smtProof: Option<SerializedProof>, request: Request,
    tx: Tx, script: Bytes, amount: int, nonce: Bytes, sigHash: Bytes)

  /** The beacon is the one computed from the advertised terms and keys that include the member's own. */
  predicate HonestBeacon(lib: Libraries, r: Round) {
    && Terms(lib, r.advert, r.params) && lib.publicKey in r.keys
    && ComputeBeacon(lib.bitcoin, r.params, SortKeys(r.keys)) == Ok(r.beacon) && r.beacon.address != ""
  }

  /** The data has the member's own slot. */
  predicate HonestData(lib: Libraries, r: Round) {
    && (r.beaconType == "CASBeacon" || r.beaconType == "SMTBeacon")
    && ViewMatches(lib.agg, lib.did, r.doc, r.beaconType, r.announcement, r.smtProof) == Ok(true)
  }

  /** The request is complete, decodes, and its transaction carries the signal. */
  predicate HonestRequest(lib: Libraries, r: Round) {
    && Complete4(r.request) && Asks(lib, r.request, r.tx, r.script, r.amount)
    && r.signalHex != "" && Embeds(lib, r.tx, r.signalHex)
    && lib.sigHash(r.tx, r.script, r.amount) == Some(r.sigHash)
  }

  /** What the member signs with. */
  function Context(r: Round): SigningContext {
    SigningContext(r.nonce, SortKeys(r.keys), r.sigHash, r.beacon.tapTweak)
  }

  predicate Honest(lib: Libraries, r: Round) {
    && HonestBeacon(lib, r) && HonestData(lib, r) && HonestRequest(lib, r)
    && lib.sessionValid(Context(r)) && lib.signs(Context(r))
  }

  function JoinEvents(id: string, r: Round): seq<Event> {
    [At(id, Receive(true, CohortAdvert(id, Some(r.advert)))), At(id, Join),
     At(id, Receive(true, CohortReadyMsg(id, r.beacon.address, Some(r.keys))))]
  }

  function AnswerEvents(id: string, r: Round): seq<Event> {
    [At(id, if r.doc.Some? then Submit(r.doc.value) else Decline),
     At(id, Receive(true, Distribute(id, r.beaconType, r.signalHex, r.announcement, r.smtProof))),
     At(id, ApproveValidation)]
  }

  function NonceEvents(id: string, r: Round): seq<Event> {
    [At(id, Receive(true, Authorization(id, r.request))), At(id, ApproveNonce)]
  }

  function PartialEvents(id: string, r: Round): seq<Event> {
    [At(id, Receive(true, AggregatedNonce(id, Some(r.nonce)))), At(id, GeneratePartial)]
  }

  function RoundEvents(id: string, r: Round): seq<Event> {
    JoinEvents(id, r) + AnswerEvents(id, r) + NonceEvents(id, r) + PartialEvents(id, r)
  }

  /** Where events lead from any state. */
  function After(lib: Libraries, s: Sys, events: seq<Event>): Sys
    decreases |events|
  {
    if events == [] then s else After(lib, Step(lib, s, events[0]).0, events[1..])
  }

  lemma {:induction false} RunAppend(lib: Libraries, a: seq<Event>, b: seq<Event>)
    ensures Run(lib, a + b) == After(lib, Run(lib, a), b)
    decreases |b|
  {
    hide Step;
    if b == [] {
      assert a + b == a;
    } else {
      assert a + b == (a + [b[0]]) + b[1..];
      assert (a + [b[0]])[..|a|] == a;
      RunAppend(lib, a + [b[0]], b[1..]);
    }
  }

  lemma {:induction false} AfterAppend(lib: Libraries, s: Sys, a: seq<Event>, b: seq<Event>)
    ensures After(lib, s, a + b) == After(lib, After(lib, s, a), b)
    decreases |a|
  {
    hide Step;
    if a == [] {
      assert a + b == b;
    } else {
      assert (a + b)[0] == a[0] && (a + b)[1..] == a[1..] + b;
      AfterAppend(lib, Step(lib, s, a[0]).0, a[1..], b);
    }
  }

  /** One event about a known cohort. */
  lemma AfterDo(lib: Libraries, s: Sys, id: string, a: Action)
    requires id in s.states && id != ""
    ensures var e := Do(lib, id, s.nextSecret, s.states[id], a);
            Step(lib, s, At(id, a)).0
            == Sys(s.states[id := e.st], if a.ApproveNonce? then s.nextSecret + 1 else s.nextSecret, s.log + e.facts)
  {
    hide Do;
  }

  lemma AfterOne(lib: Libraries, s: Sys, a: Event)
    ensures After(lib, s, [a]) == Step(lib, s, a).0
  {
    hide Step;
    assert [a][1..] == [];
  }

  lemma AfterTwo(lib: Libraries, s: Sys, a: Event, b: Event)
    ensures After(lib, s, [a, b]) == Step(lib, Step(lib, s, a).0, b).0
  {
    hide Step;
    assert [a, b][1..] == [b];
    AfterOne(lib, Step(lib, s, a).0, b);
  }

  lemma AfterThree(lib: Libraries, s: Sys, a: Event, b: Event, c: Event)
    ensures After(lib, s, [a, b, c]) == Step(lib, Step(lib, Step(lib, s, a).0, b).0, c).0
  {
    hide Step;
    assert [a, b, c][1..] == [b, c];
    AfterTwo(lib, Step(lib, s, a).0, b, c);
  }

  /** The member accepts the beacon of the cohort it joined. */
  predicate Joined(st: CohortState, r: Round) {
    && st.phase == CohortReady && st.cohort == Some(Member(r.params, KeyState(SortKeys(r.keys), r.beacon)))
    && st.session.None?
  }

  lemma Joins(lib: Libraries, s: Sys, id: string, r: Round)
    requires id !in s.states && id != "" && HonestBeacon(lib, r)
    ensures var t := After(lib, s, JoinEvents(id, r));
            && id in t.states && Joined(t.states[id], r) && t.nextSecret == s.nextSecret
            && t.log == s.log + [Accepted(id, r.params, SortKeys(r.keys), r.beacon.address)]
  {
    hide Do, Step, After, HonestBeacon;
    var es := JoinEvents(id, r);
    AfterThree(lib, s, es[0], es[1], es[2]);
    Discovers(lib, s, id, r.advert);
    var s1 := Step(lib, s, es[0]).0;
    AfterDo(lib, s1, id, Join);
    OptsIn(lib, id, s.nextSecret, r);
    AfterDo(lib, Step(lib, s1, es[1]).0, id, es[2].action);
    AcceptsBeacon(lib, id, s.nextSecret, Opted(r), r);
    assert s.log + [] == s.log;
  }

  lemma Discovers(lib: Libraries, s: Sys, id: string, advert: Advert)
    requires id !in s.states
    ensures Step(lib, s, At(id, Receive(true, CohortAdvert(id, Some(advert))))).0
            == s.(states := s.states[id := FirstRecord(advert)])
  {
    hide Do;
  }

  /** The record once the member has opted in. */
  function Opted(r: Round): CohortState {
    FirstRecord(r.advert).(cohort := Some(Member(r.params, KeyState([], NO_BEACON))), phase := OptedIn)
  }

  lemma OptsIn(lib: Libraries, id: string, secret: nat, r: Round)
    requires HonestBeacon(lib, r)
    ensures Do(lib, id, secret, FirstRecord(r.advert), Join) == Effect(Opted(r), [], Ok(()))
  {
    TermsAreParams(lib, r.advert, r.params);
    hide ParamsOf, OnMessage, DoApproveNonce, DoGeneratePartial, DoApproveFallback, ComputeBeacon, Terms;
  }

  lemma AcceptsBeacon(lib: Libraries, id: string, secret: nat, st: CohortState, r: Round)
    requires HonestBeacon(lib, r) && st.phase == OptedIn && st.session.None?
    requires st.cohort == Some(Member(r.params, KeyState([], NO_BEACON)))
    ensures var e := Do(lib, id, secret, st, Receive(true, CohortReadyMsg(id, r.beacon.address, Some(r.keys))));
            Joined(e.st, r) && e.facts == [Accepted(id, r.params, SortKeys(r.keys), r.beacon.address)]
  {
    hide ComputeBeacon, SortKeys, DoApproveNonce, DoGeneratePartial, DoApproveFallback;
    AcceptedMembership(lib.bitcoin, r.params, KeyState([], NO_BEACON), lib.publicKey, r.keys, r.beacon.address);
  }

  /** The member has approved the signal. */
  predicate Answered(st: CohortState, r: Round) {
    && st.phase == ValidationSent && st.cohort == Some(Member(r.params, KeyState(SortKeys(r.keys), r.beacon)))
    && st.session.None? && st.validation.Some? && st.validation.value.signalHex == r.signalHex
    && st.validation.value.matches
  }

  lemma Answers(lib: Libraries, s: Sys, id: string, r: Round)
    requires id in s.states && id != "" && Joined(s.states[id], r) && HonestData(lib, r)
    ensures var t := After(lib, s, AnswerEvents(id, r));
            && id in t.states && Answered(t.states[id], r) && t.nextSecret == s.nextSecret
            && t.log == s.log + [Approved(id, r.signalHex)]
  {
    var es := AnswerEvents(id, r);
    AfterThree(lib, s, es[0], es[1], es[2]);
    var e1 := Do(lib, id, s.nextSecret, s.states[id], es[0].action);
    AfterDo(lib, s, id, es[0].action);
    var s1 := Step(lib, s, es[0]).0;
    AfterDo(lib, s1, id, es[1].action);
    var s2 := Step(lib, s1, es[1]).0;
    AfterDo(lib, s2, id, es[2].action);
    AnswerSteps(lib, id, s.nextSecret, s.states[id], r);
    hide Do, Step, After;
    assert s.log + [] == s.log;
  }

  lemma AnswerSteps(lib: Libraries, id: string, secret: nat, st: CohortState, r: Round)
    requires Joined(st, r) && HonestData(lib, r)
    ensures var e1 := Do(lib, id, secret, st, if r.doc.Some? then Submit(r.doc.value) else Decline);
            var e2 := Do(lib, id, secret, e1.st,
                         Receive(true, Distribute(id, r.beaconType, r.signalHex, r.announcement, r.smtProof)));
            var e3 := Do(lib, id, secret, e2.st, ApproveValidation);
            && e1.facts == [] && e2.facts == [] && e3.facts == [Approved(id, r.signalHex)] && Answered(e3.st, r)
  {
    hide ViewMatches, DoApproveNonce, DoGeneratePartial, DoApproveFallback, OnCohortReady;
  }

  /** A session for the request, with the secret still unused. */
  predicate InSession(st: CohortState, r: Round, secret: nat) {
    && st.phase == NonceSent && st.cohort == Some(Member(r.params, KeyState(SortKeys(r.keys), r.beacon)))
    && st.session == Some(Session(r.request.sessionId, r.tx, r.script, r.amount, None, Some(secret)))
  }

  lemma OpensSession(lib: Libraries, s: Sys, id: string, r: Round)
    requires id in s.states && id != "" && Answered(s.states[id], r) && HonestBeacon(lib, r) && HonestRequest(lib, r)
    ensures var t := After(lib, s, NonceEvents(id, r));
            && id in t.states && InSession(t.states[id], r, s.nextSecret)
            && t.log == s.log + [NonceGiven(id, r.tx, s.nextSecret)]
  {
    hide Do, DoApproveNonce, Step, After, HonestBeacon, HonestRequest;
    var es := NonceEvents(id, r);
    AfterTwo(lib, s, es[0], es[1]);
    AfterDo(lib, s, id, es[0].action);
    var s1 := Step(lib, s, es[0]).0;
    AfterDo(lib, s1, id, ApproveNonce);
    StoresRequest(lib, id, s.nextSecret, s.states[id], r);
    ApprovesNonce(lib, id, s.nextSecret, s1.states[id]);
    NonceStep(lib, id, s.nextSecret, s1.states[id], r);
    assert s.log + [] == s.log;
  }

  /** As `Answered`, with the request stored. */
  predicate Requested(st: CohortState, r: Round) {
    Answered(st.(phase := ValidationSent), r) && st.phase == AwaitingSigning && st.signing == Some(r.request)
  }

  lemma StoresRequest(lib: Libraries, id: string, secret: nat, st: CohortState, r: Round)
    requires Answered(st, r) && HonestRequest(lib, r)
    ensures var e := Do(lib, id, secret, st, Receive(true, Authorization(id, r.request)));
            e.facts == [] && Requested(e.st, r)
  {
    hide SortKeys, OnCohortReady, OnDistribute, DoApproveNonce, DoGeneratePartial, DoApproveFallback, Asks, Embeds;
  }

  lemma ApprovesNonce(lib: Libraries, id: string, secret: nat, st: CohortState)
    ensures Do(lib, id, secret, st, ApproveNonce) == DoApproveNonce(lib, id, secret, st)
  {
    hide DoApproveNonce;
  }

  lemma AnchorHolds(lib: Libraries, st: CohortState, r: Round)
    requires Requested(st, r) && HonestRequest(lib, r)
    ensures AnchorError(lib, st, r.tx) == None
  {
  }

  lemma NonceStep(lib: Libraries, id: string, secret: nat, st: CohortState, r: Round)
    requires Requested(st, r) && HonestBeacon(lib, r) && HonestRequest(lib, r)
    ensures var e := DoApproveNonce(lib, id, secret, st);
            e.facts == [NonceGiven(id, r.tx, secret)] && InSession(e.st, r, secret)
  {
    KeysAggregate(lib.bitcoin, r.params, SortKeys(r.keys));
    AnchorHolds(lib, st, r);
    hide AnchorError, HonestBeacon, SortKeys, Embeds, Complete4;
  }

  lemma GivesPartial(lib: Libraries, s: Sys, id: string, r: Round, secret: nat)
    requires id in s.states && id != "" && InSession(s.states[id], r, secret) && Honest(lib, r)
    ensures var t := After(lib, s, PartialEvents(id, r));
            && id in t.states && t.states[id].phase == Complete && Held(t.states[id]) == None
            && t.log == s.log + [SecretUsed(id, secret), PartialGiven(id, r.tx, Context(r))]
  {
    var es := PartialEvents(id, r);
    AfterTwo(lib, s, es[0], es[1]);
    AfterDo(lib, s, id, es[0].action);
    AfterDo(lib, Step(lib, s, es[0]).0, id, es[1].action);
    PartialSteps(lib, id, s.nextSecret, secret, s.states[id], r);
    hide Do, Step, After, Honest;
    assert s.log + [] == s.log;
  }

  lemma KeysAggregate(lib: BitcoinLib, params: BeaconParams, keys: seq<Bytes>)
    requires ComputeBeacon(lib, params, keys).Ok?
    ensures lib.keyAggregate(keys).Some?
  {
  }

  lemma PartialSteps(lib: Libraries, id: string, next: nat, secret: nat, st: CohortState, r: Round)
    requires InSession(st, r, secret) && Honest(lib, r)
    ensures var e1 := Do(lib, id, next, st, Receive(true, AggregatedNonce(id, Some(r.nonce))));
            var e2 := Do(lib, id, next, e1.st, GeneratePartial);
            && e1.facts == [] && e2.st.phase == Complete && Held(e2.st) == None
            && e2.facts == [SecretUsed(id, secret), PartialGiven(id, r.tx, Context(r))]
  {
    hide HonestBeacon, HonestData, SortKeys, DoApproveNonce, DoApproveFallback, OnCohortReady, OnDistribute, Embeds;
  }

  /**
   * A member that joins, answers and approves in a round in which everyone keeps to the protocol ends with its
   * partial signature given, for the transaction and the context of that round, and with the secret gone. It is the
   * first round of a new participant or a later one.
   */
  lemma HonestRoundSigns(lib: Libraries, before: seq<Event>, id: string, r: Round)
    requires id !in Run(lib, before).states && id != "" && Honest(lib, r)
    ensures var s := Run(lib, before);
            var t := Run(lib, before + RoundEvents(id, r));
            && id in t.states && t.states[id].phase == Complete && Held(t.states[id]) == None
            && t.log == s.log + RoundFacts(id, r, s.nextSecret)
  {
    var a, b, c, d := JoinEvents(id, r), AnswerEvents(id, r), NonceEvents(id, r), PartialEvents(id, r);
    var s := Run(lib, before);
    RunAppend(lib, before, a + b + c + d);
    AfterAppend(lib, s, a + b + c, d);
    AfterAppend(lib, s, a + b, c);
    AfterAppend(lib, s, a, b);
    hide Run, After, JoinEvents, AnswerEvents, NonceEvents, PartialEvents, HonestBeacon, HonestData, HonestRequest;
    Joins(lib, s, id, r);
    var s1 := After(lib, s, a);
    Answers(lib, s1, id, r);
    var s2 := After(lib, s1, b);
    OpensSession(lib, s2, id, r);
    GivesPartial(lib, After(lib, s2, c), id, r, s.nextSecret);
  }

  /** What the round puts on record. */
  function RoundFacts(id: string, r: Round, secret: nat): seq<Fact> {
    [Fact.Accepted(id, r.params, SortKeys(r.keys), r.beacon.address), Approved(id, r.signalHex),
     NonceGiven(id, r.tx, secret), SecretUsed(id, secret), PartialGiven(id, r.tx, Context(r))]
  }

  // ----- Out of turn

  /** The phase a decision needs. */
  function NeededBy(a: Action): Phase
    requires !a.Receive?
  {
    match a
    case Join => Discovered
    case Submit(_) => CohortReady
    case Decline => CohortReady
    case ApproveValidation => AwaitingValidation
    case RejectValidation => AwaitingValidation
    case ApproveNonce => AwaitingSigning
    case GeneratePartial => AwaitingPartialSig
    case ApproveFallback => AwaitingFallbackSig
  }

  /** A decision in any other phase throws, and changes nothing. */
  lemma WrongPhaseThrows(lib: Libraries, id: string, secret: nat, st: CohortState, a: Action)
    requires !a.Receive? && st.phase != NeededBy(a)
    ensures Do(lib, id, secret, st, a) == Effect(st, [], Err("INVALID_PHASE"))
  {
    hide OnMessage, FallbackLeaf, AnchorError, ParamsOf, ContextOf;
  }

  /** Phases in which a message is taken; a repeated advert and an unknown message are taken in none. */
  function TakenIn(m: Message): set<Phase> {
    match m
    case CohortReadyMsg(_, _, _) => {OptedIn}
    case Distribute(_, _, _, _, _) => {UpdateSubmitted, NonIncluded}
    case Authorization(_, _) => {ValidationSent}
    case AggregatedNonce(_, _) => {NonceSent}
    case FallbackAuthorization(_, _, _) => {ValidationSent, AwaitingSigning, NonceSent, AwaitingPartialSig, Complete}
    case _ => {}
  }

  /** In any other phase a message changes nothing, without an error. */
  lemma OutOfTurnIgnored(lib: Libraries, id: string, st: CohortState, m: Message)
    requires st.phase !in TakenIn(m)
    ensures OnMessage(lib, id, st, m) == Effect(st, [], Ok(()))
  {
    hide AfterValidate, ViewMatches;
  }

  // ----- The fallback

  /** A member that holds a validated signal signs the fallback spend it is asked for, from every accepting phase. */
  lemma FallbackRoundSigns(lib: Libraries, id: string, secret: nat, st: CohortState, r: Request, leafHex: string,
                           tx: Tx, script: Bytes, amount: int, leaf: Bytes, sigHash: Bytes)
    requires st.phase in {ValidationSent, AwaitingSigning, NonceSent, AwaitingPartialSig, Complete}
    requires st.cohort.Some? && st.validation.Some? && st.validation.value.signalHex != ""
    requires Complete4(r) && leafHex != "" && Asks(lib, r, tx, script, amount)
    requires Embeds(lib, tx, st.validation.value.signalHex)
    requires var m := st.cohort.value;
             FallbackLeaf(lib.bitcoin, m.state.keys, EffectiveThreshold(m.params, m.state.keys)) == Ok(leaf)
    requires lib.fallbackSighash(tx, script, amount, leaf) == Some(sigHash)
    ensures var e1 := Do(lib, id, secret, st, Receive(true, FallbackAuthorization(id, r, leafHex)));
            var e2 := Do(lib, id, secret, e1.st, ApproveFallback);
            && e1.facts == [] && e1.st.phase == AwaitingFallbackSig && Held(e1.st) == None
            && e2.st.phase == Complete && e2.facts == [FallbackGiven(id, tx, leaf, sigHash)]
  {
    hide FallbackLeaf, EffectiveThreshold, Embeds, OnCohortReady, OnDistribute, DoApproveNonce, DoGeneratePartial;
  }
}
