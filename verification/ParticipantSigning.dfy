/** What a participant's signatures are for, over every run: the digest, the keys, the tweak and the nonce. */
module ParticipantSigning {
  import opened Hashing
  import opened BeaconStrategy
  import opened Recovery
  import opened Cohort
  import opened Participant
  import opened ParticipantSafety

  /** The transaction, and the script and amount of the output it spends, as a request has them. */
  predicate Asks(lib: Libraries, r: Request, tx: Tx, script: Bytes, amount: int) {
    && lib.parseTx(r.txHex) == Some(tx)
    && lib.hexToBytes(r.prevOutScriptHex) == Some(script)
    && lib.parseAmount(r.prevOutValue) == Some(amount)
  }

  /** A session is that of the authorization request stored for the cohort. */
  predicate SessionMatches(lib: Libraries, st: CohortState) {
    st.session.Some? ==>
      && st.signing.Some?
      && var s := st.session.value;
         Asks(lib, st.signing.value, s.tx, s.prevOutScript, s.prevOutValue) && s.id == st.signing.value.sessionId
  }

  /** From acceptance on, the beacon held is the one computed from the parameters and the keys held. */
  predicate BeaconHeld(lib: Libraries, st: CohortState) {
    Rank(st.phase) >= 2 ==>
      && st.cohort.Some?
      && var m := st.cohort.value;
         ComputeBeacon(lib.bitcoin, m.params, m.state.keys) == Ok(m.state.beacon)
  }

  /**
   * What is signed: the sighash of the transaction of the authorization request, with the script and the amount it
   * names, under the keys and the tweak of the cohort held, with the aggregated nonce received.
   */
  ghost predicate SignsFor(lib: Libraries, st: CohortState, tx: Tx, ctx: SigningContext) {
    && st.signing.Some? && st.cohort.Some? && st.session.Some?
    && (exists script: Bytes, amount: int ::
          Asks(lib, st.signing.value, tx, script, amount) && lib.sigHash(tx, script, amount) == Some(ctx.sigHash))
    && ctx.keys == st.cohort.value.state.keys && ctx.tweak == st.cohort.value.state.beacon.tapTweak
    && st.session.value.aggregatedNonce == Some(ctx.aggregatedNonce)
  }

  ghost predicate PartialsOk(lib: Libraries, id: string, st: CohortState, log: seq<Fact>) {
    forall k :: 0 <= k < |log| && log[k].PartialGiven? && log[k].cohortId == id ==>
      SignsFor(lib, st, log[k].tx, log[k].context)
  }

  ghost predicate SigningOk(lib: Libraries, id: string, st: CohortState, log: seq<Fact>) {
    SessionMatches(lib, st) && BeaconHeld(lib, st) && PartialsOk(lib, id, st, log)
  }

  // ----- One event

  /** Before its first partial signature there is none on record. */
  lemma NoPartialYet(lib: Libraries, id: string, st: CohortState, log: seq<Fact>, k: nat)
    requires RecordOk(lib, id, st, log) && k < |log| && log[k].PartialGiven? && log[k].cohortId == id
    ensures 9 <= Rank(st.phase) <= 10
  {
    hide MemberOk, ValidationOk, SessionOk;
    CountOnce(log, id, KPartial, k);
  }

  /** Nothing that a signature on record is for has changed. */
  predicate SameSigning(st: CohortState, st': CohortState) {
    && st'.signing == st.signing && st'.cohort == st.cohort
    && (st.session.Some? ==>
          st'.session.Some? && st'.session.value.aggregatedNonce == st.session.value.aggregatedNonce)
  }

  lemma PartialsStay(lib: Libraries, id: string, st: CohortState, st': CohortState, log: seq<Fact>, facts: seq<Fact>)
    requires PartialsOk(lib, id, st, log) && RecordOk(lib, id, st, log)
    requires Rank(st.phase) >= 9 ==> SameSigning(st, st')
    requires forall k :: 0 <= k < |facts| ==> !facts[k].PartialGiven?
    ensures PartialsOk(lib, id, st', log + facts)
  {
    hide RecordOk;
    var all := log + facts;
    forall k | 0 <= k < |all| && all[k].PartialGiven? && all[k].cohortId == id
      ensures SignsFor(lib, st', all[k].tx, all[k].context)
    {
      assert k < |log| && all[k] == log[k];
      NoPartialYet(lib, id, st, log, k);
    }
  }

  lemma ReadyKeepsSigning(lib: Libraries, id: string, st: CohortState, address: string, keys: Option<seq<Bytes>>,
                          log: seq<Fact>)
    requires SigningOk(lib, id, st, log) && RecordOk(lib, id, st, log)
    ensures var e := OnCohortReady(lib, id, st, address, keys); SigningOk(lib, id, e.st, log + e.facts)
  {
    var e := OnCohortReady(lib, id, st, address, keys);
    hide PartialsOk, ComputeBeacon, AfterValidate, RecordOk;
    if !(st.cohort.None? || st.phase != OptedIn || address == "" || keys.None?) {
      var m := st.cohort.value;
      AcceptedMembership(lib.bitcoin, m.params, m.state, lib.publicKey, keys.value, address);
    }
    PartialsStay(lib, id, st, e.st, log, e.facts);
  }

  lemma MessagesKeepSigning(lib: Libraries, id: string, st: CohortState, m: Message, log: seq<Fact>)
    requires SigningOk(lib, id, st, log) && RecordOk(lib, id, st, log) && !m.CohortReadyMsg?
    ensures var e := OnMessage(lib, id, st, m); SigningOk(lib, id, e.st, log + e.facts)
  {
    SessionIsLate(lib, id, st, log);
    MessageEffect(lib, id, st, m);
    hide PartialsOk, ComputeBeacon, Asks, RecordOk, OnMessage;
    var e := OnMessage(lib, id, st, m);
    PartialsStay(lib, id, st, e.st, log, e.facts);
  }

  /** What a message other than the one with the beacon address can change. */
  lemma MessageEffect(lib: Libraries, id: string, st: CohortState, m: Message)
    requires !m.CohortReadyMsg? && (st.session.Some? ==> Rank(st.phase) >= 6)
    ensures var e := OnMessage(lib, id, st, m);
            && e.facts == [] && e.st.cohort == st.cohort
            && (Rank(e.st.phase) >= 2 ==> Rank(st.phase) >= 2)
            && (SessionMatches(lib, st) ==> SessionMatches(lib, e.st))
            && (Rank(st.phase) >= 9 ==> SameSigning(st, e.st))
  {
    hide Asks, OnCohortReady, ViewMatches;
  }

  lemma SessionIsLate(lib: Libraries, id: string, st: CohortState, log: seq<Fact>)
    requires RecordOk(lib, id, st, log)
    ensures st.session.Some? ==> Rank(st.phase) >= 6
  {
  }

  lemma NonceKeepsSigning(lib: Libraries, id: string, secret: nat, st: CohortState, log: seq<Fact>)
    requires SigningOk(lib, id, st, log) && RecordOk(lib, id, st, log)
    ensures var e := DoApproveNonce(lib, id, secret, st); SigningOk(lib, id, e.st, log + e.facts)
  {
    hide PartialsOk, ComputeBeacon, RecordOk, AnchorError;
    var e := DoApproveNonce(lib, id, secret, st);
    PartialsStay(lib, id, st, e.st, log, e.facts);
  }

  /** The partial signature is for what the session, and so the request, says. */
  lemma PartialKeepsSigning(lib: Libraries, id: string, st: CohortState, log: seq<Fact>)
    requires SigningOk(lib, id, st, log) && RecordOk(lib, id, st, log)
    ensures var e := DoGeneratePartial(lib, id, st); SigningOk(lib, id, e.st, log + e.facts)
  {
    var e := DoGeneratePartial(lib, id, st);
    hide ComputeBeacon, RecordOk;
    if |e.facts| == 2 {
      assert SignsFor(lib, e.st, e.facts[1].tx, e.facts[1].context);
      PartialsStay(lib, id, st, e.st, log, [e.facts[0]]);
      assert log + e.facts == log + [e.facts[0]] + [e.facts[1]];
      PartialAdded(lib, id, e.st, log + [e.facts[0]], e.facts[1]);
    } else {
      hide SignsFor;
      PartialsStay(lib, id, st, e.st, log, e.facts);
    }
  }

  lemma PartialAdded(lib: Libraries, id: string, st: CohortState, log: seq<Fact>, f: Fact)
    requires PartialsOk(lib, id, st, log) && f.PartialGiven? && SignsFor(lib, st, f.tx, f.context)
    ensures PartialsOk(lib, id, st, log + [f])
  {
    hide SignsFor;
  }

  lemma OtherActionsKeepSigning(lib: Libraries, id: string, secret: nat, st: CohortState, a: Action, log: seq<Fact>)
    requires SigningOk(lib, id, st, log) && RecordOk(lib, id, st, log)
    requires !a.Receive? && !a.ApproveNonce? && !a.GeneratePartial?
    ensures var e := Do(lib, id, secret, st, a); SigningOk(lib, id, e.st, log + e.facts)
  {
    hide PartialsOk, ComputeBeacon, RecordOk, AnchorError, FallbackLeaf, ParamsOf, Asks;
    var e := Do(lib, id, secret, st, a);
    PartialsStay(lib, id, st, e.st, log, e.facts);
  }

  lemma DoKeepsSigning(lib: Libraries, id: string, secret: nat, st: CohortState, a: Action, log: seq<Fact>)
    requires SigningOk(lib, id, st, log) && RecordOk(lib, id, st, log)
    ensures var e := Do(lib, id, secret, st, a); SigningOk(lib, id, e.st, log + e.facts)
  {
    hide SigningOk, RecordOk;
    match a
    case Receive(versionOk, m) =>
      if !versionOk {
        assert log + [] == log;
      } else if m.CohortReadyMsg? {
        ReadyKeepsSigning(lib, id, st, m.address, m.keys, log);
      } else {
        MessagesKeepSigning(lib, id, st, m, log);
      }
    case ApproveNonce => NonceKeepsSigning(lib, id, secret, st, log);
    case GeneratePartial => PartialKeepsSigning(lib, id, st, log);
    case _ => OtherActionsKeepSigning(lib, id, secret, st, a, log);
  }

  // ----- Every run

  ghost predicate AllSigningOk(lib: Libraries, s: Sys) {
    forall id :: id in s.states ==> SigningOk(lib, id, s.states[id], s.log)
  }

  lemma OthersKeepSigning(lib: Libraries, id: string, st: CohortState, log: seq<Fact>, facts: seq<Fact>)
    requires SigningOk(lib, id, st, log) && forall k :: 0 <= k < |facts| ==> facts[k].cohortId != id
    ensures SigningOk(lib, id, st, log + facts)
  {
    hide SignsFor, ComputeBeacon;
  }

  lemma FirstRecordSigns(lib: Libraries, s: Sys, id: string, advert: Advert)
    requires SysOk(lib, s) && id !in s.states
    ensures SigningOk(lib, id, FirstRecord(advert), s.log)
  {
    hide RecordsOk, LogOk, SecretsOk;
  }

  lemma ClearedSigns(lib: Libraries, id: string, st: CohortState, log: seq<Fact>)
    requires SigningOk(lib, id, st, log)
    ensures SigningOk(lib, id, Cleared(st), log)
  {
    hide ComputeBeacon;
    forall k | 0 <= k < |log| && log[k].PartialGiven? && log[k].cohortId == id
      ensures SignsFor(lib, Cleared(st), log[k].tx, log[k].context)
    {
      assert SignsFor(lib, st, log[k].tx, log[k].context);
    }
  }

  lemma StepKeepsSigning(lib: Libraries, s: Sys, e: Event)
    requires SysOk(lib, s) && AllSigningOk(lib, s)
    ensures AllSigningOk(lib, Step(lib, s, e).0)
  {
    hide SigningOk, Do, SysOk;
    match e
    case ClearSecrets =>
      forall id | id in s.states ensures SigningOk(lib, id, Cleared(s.states[id]), s.log) {
        ClearedSigns(lib, id, s.states[id], s.log);
      }
    case At(id, a) =>
      if id !in s.states {
        if a.Receive? && a.versionOk && a.message.CohortAdvert? && a.message.advert.Some? {
          FirstRecordSigns(lib, s, id, a.message.advert.value);
        }
      } else if !(a.Receive? && id == "") {
        RecordIsOk(lib, s, id);
        DoKeepsSigning(lib, id, s.nextSecret, s.states[id], a, s.log);
        DoIsAbout(lib, id, s.nextSecret, s.states[id], a);
        var facts := Do(lib, id, s.nextSecret, s.states[id], a).facts;
        forall other | other in s.states && other != id ensures SigningOk(lib, other, s.states[other], s.log + facts) {
          OthersKeepSigning(lib, other, s.states[other], s.log, facts);
        }
      }
  }

  lemma {:induction false} RunKeepsSigning(lib: Libraries, events: seq<Event>)
    ensures AllSigningOk(lib, Run(lib, events))
  {
    hide Step, SigningOk;
    if events != [] {
      var init := events[..|events| - 1];
      RunKeepsSigning(lib, init);
      RunKeeps(lib, init);
      StepKeepsSigning(lib, Run(lib, init), events[|events| - 1]);
    }
  }

  // ----- What was received

  ghost predicate ReceivedIn(events: seq<Event>, id: string, m: Message) {
    At(id, Receive(true, m)) in events
  }

  /** Nothing is missing. */
  predicate Whole(r: Request) {
    r.sessionId != "" && r.txHex != "" && r.prevOutScriptHex != "" && r.prevOutValue != ""
  }

  /** The stored data are those of one message; of the announcement and the proof, what the beacon's kind calls for. */
  ghost predicate DataReceived(events: seq<Event>, id: string, v: Validation) {
    exists c, a, p ::
      && ReceivedIn(events, id, Distribute(c, v.beaconType, v.signalHex, a, p))
      && ((v.beaconType == "CASBeacon" && v.announcement == a && v.smtProof == None)
          || (v.beaconType == "SMTBeacon" && v.smtProof == p && v.announcement == None))
  }

  /** The data, the requests and the nonce a record holds came with messages for its cohort; the requests are whole. */
  ghost predicate HoldsReceived(events: seq<Event>, id: string, st: CohortState) {
    && (st.validation.Some? ==> DataReceived(events, id, st.validation.value))
    && (st.signing.Some? ==> Whole(st.signing.value)
                             && exists c :: ReceivedIn(events, id, Authorization(c, st.signing.value)))
    && (st.fallback.Some? ==>
          Whole(st.fallback.value)
          && exists c, l :: l != "" && ReceivedIn(events, id, FallbackAuthorization(c, st.fallback.value, l)))
    && (st.session.Some? && st.session.value.aggregatedNonce.Some? ==>
          exists c :: ReceivedIn(events, id, AggregatedNonce(c, st.session.value.aggregatedNonce)))
  }

  /** Nothing received is held now that was not held before. */
  predicate NothingNew(st: CohortState, st': CohortState) {
    && st'.signing == st.signing && st'.fallback == st.fallback && st'.validation == st.validation
    && (st'.session.Some? && st'.session.value.aggregatedNonce.Some? ==>
          st.session.Some? && st.session.value.aggregatedNonce == st'.session.value.aggregatedNonce)
  }

  lemma HeldStays(events: seq<Event>, id: string, st: CohortState, st': CohortState, e: Event)
    requires HoldsReceived(events, id, st) && NothingNew(st, st')
    ensures HoldsReceived(events + [e], id, st')
  {
    forall m | ReceivedIn(events, id, m) ensures ReceivedIn(events + [e], id, m) {}
    hide ReceivedIn;
  }

  lemma ActionsReceiveNothing(lib: Libraries, id: string, secret: nat, st: CohortState, a: Action)
    requires !a.Receive?
    ensures NothingNew(st, Do(lib, id, secret, st, a).st)
  {
    hide OnMessage, FallbackLeaf, AnchorError, ParamsOf;
  }

  lemma MessagesReceive(lib: Libraries, id: string, st: CohortState, m: Message)
    requires !m.Authorization? && !m.FallbackAuthorization? && !m.AggregatedNonce? && !m.Distribute?
    ensures NothingNew(st, OnMessage(lib, id, st, m).st)
  {
    hide AfterValidate, ViewMatches;
  }

  lemma DataStored(lib: Libraries, id: string, st: CohortState, m: Message, events: seq<Event>)
    requires m.Distribute? && ReceivedIn(events, id, m)
    ensures var st' := OnMessage(lib, id, st, m).st;
            && NothingNew(st, st'.(validation := st.validation))
            && (st'.validation == st.validation
                || (st'.validation.Some? && DataReceived(events, id, st'.validation.value)))
  {
    hide ViewMatches, ReceivedIn;
    var v := OnMessage(lib, id, st, m).st.validation;
    if v != st.validation {
      assert m == Distribute(m.cohortId, v.value.beaconType, v.value.signalHex, m.announcement, m.smtProof);
    }
  }

  lemma DoHoldsReceived(lib: Libraries, id: string, secret: nat, st: CohortState, a: Action, events: seq<Event>)
    requires HoldsReceived(events, id, st)
    ensures HoldsReceived(events + [At(id, a)], id, Do(lib, id, secret, st, a).st)
  {
    HeldStays(events, id, st, st, At(id, a));
    var st' := Do(lib, id, secret, st, a).st;
    if !a.Receive? {
      ActionsReceiveNothing(lib, id, secret, st, a);
      HeldStays(events, id, st, st', At(id, a));
    } else if a.versionOk {
      var m := a.message;
      assert (events + [At(id, a)])[|events|] == At(id, a);
      assert ReceivedIn(events + [At(id, a)], id, m);
      hide ReceivedIn, OnCohortReady;
      if m.Distribute? {
        DataStored(lib, id, st, m, events + [At(id, a)]);
      } else if !m.Authorization? && !m.FallbackAuthorization? && !m.AggregatedNonce? {
        hide OnDistribute;
        MessagesReceive(lib, id, st, m);
        HeldStays(events, id, st, st', At(id, a));
      }
    }
  }

  lemma {:induction false} RunHoldsReceived(lib: Libraries, events: seq<Event>, id: string)
    requires id in Run(lib, events).states
    ensures HoldsReceived(events, id, Run(lib, events).states[id])
  {
    hide Do, HoldsReceived;
    if events != [] {
      var init, e := events[..|events| - 1], events[|events| - 1];
      assert events == init + [e];
      var s := Run(lib, init);
      if id in s.states {
        RunHoldsReceived(lib, init, id);
        HeldStays(init, id, s.states[id], s.states[id], e);
        HeldStays(init, id, s.states[id], Cleared(s.states[id]), e);
        if e.At? && e.cohortId == id { DoHoldsReceived(lib, id, s.nextSecret, s.states[id], e.action, init); }
      } else {
        FirstHoldsNothing(events, id, e.action.message.advert.value);
      }
    }
  }

  lemma FirstHoldsNothing(events: seq<Event>, id: string, advert: Advert)
    ensures HoldsReceived(events, id, FirstRecord(advert))
  {
  }

  // ----- What is signed

  /**
   * Over every run, a partial signature is for the sighash of the transaction of an authorization request that was
   * received, with the script and amount of that request, under the keys and the tweak of the beacon computed from the
   * keys and parameters held, with an aggregated nonce that was received.
   */
  lemma SignsWhatWasAuthorized(lib: Libraries, events: seq<Event>, k: nat)
    requires k < |Run(lib, events).log| && Run(lib, events).log[k].PartialGiven?
    ensures var s := Run(lib, events);
            var f := s.log[k];
            && f.cohortId in s.states && SignsFor(lib, s.states[f.cohortId], f.tx, f.context)
            && var st := s.states[f.cohortId];
               && (exists c :: ReceivedIn(events, f.cohortId, Authorization(c, st.signing.value)))
               && (exists c :: ReceivedIn(events, f.cohortId, AggregatedNonce(c, Some(f.context.aggregatedNonce))))
               && ComputeBeacon(lib.bitcoin, st.cohort.value.params, f.context.keys).Ok?
               && ComputeBeacon(lib.bitcoin, st.cohort.value.params, f.context.keys).value.tapTweak == f.context.tweak
  {
    hide Run, ComputeBeacon, RecordOk, ReceivedIn;
    RunKeeps(lib, events);
    RunKeepsSigning(lib, events);
    var s := Run(lib, events);
    var id := s.log[k].cohortId;
    RecordIsOk(lib, s, id);
    NoPartialYet(lib, id, s.states[id], s.log, k);
    assert SigningOk(lib, id, s.states[id], s.log);
    RunHoldsReceived(lib, events, id);
  }

  /** What a fallback signature is for: the transaction, script and amount of a request, and the leaf. */
  ghost predicate FallbackFor(lib: Libraries, r: Request, f: Fact)
    requires f.FallbackGiven?
  {
    exists script: Bytes, amount: int ::
      Asks(lib, r, f.tx, script, amount) && lib.fallbackSighash(f.tx, script, amount, f.leaf) == Some(f.sigHash)
  }

  lemma DoFallbackFor(lib: Libraries, id: string, secret: nat, st: CohortState, a: Action, k: nat)
    requires k < |Do(lib, id, secret, st, a).facts| && Do(lib, id, secret, st, a).facts[k].FallbackGiven?
    ensures st.fallback.Some? && FallbackFor(lib, st.fallback.value, Do(lib, id, secret, st, a).facts[k])
  {
    hide AfterValidate, FallbackLeaf, ViewMatches, AnchorError, ParamsOf;
    if a.ApproveFallback? {
      var r := st.fallback.value;
      assert Asks(lib, r, lib.parseTx(r.txHex).value, lib.hexToBytes(r.prevOutScriptHex).value,
                  lib.parseAmount(r.prevOutValue).value);
    }
  }

  /** Where an entry of the record comes from. */
  lemma StepAdds(lib: Libraries, s: Sys, e: Event, k: nat)
    requires k < |Step(lib, s, e).0.log|
    ensures var log := Step(lib, s, e).0.log;
            if k < |s.log| then log[k] == s.log[k]
            else
              && e.At? && e.cohortId in s.states
              && k - |s.log| < |Do(lib, e.cohortId, s.nextSecret, s.states[e.cohortId], e.action).facts|
              && log[k] == Do(lib, e.cohortId, s.nextSecret, s.states[e.cohortId], e.action).facts[k - |s.log|]
  {
    hide Do;
  }

  /**
   * Over every run, a fallback signature is for the script-path sighash of the transaction of a fallback request that
   * was received, with the script and amount of that request.
   */
  lemma {:induction false} FallbackSignsWhatWasAsked(lib: Libraries, events: seq<Event>, k: nat)
    returns (c: string, r: Request, l: string)
    requires k < |Run(lib, events).log| && Run(lib, events).log[k].FallbackGiven?
    ensures ReceivedIn(events, Run(lib, events).log[k].cohortId, FallbackAuthorization(c, r, l))
    ensures FallbackFor(lib, r, Run(lib, events).log[k])
  {
    hide Do, FallbackFor, Step;
    var init, e := events[..|events| - 1], events[|events| - 1];
    assert events == init + [e];
    var s := Run(lib, init);
    StepAdds(lib, s, e, k);
    if k < |s.log| {
      c, r, l := FallbackSignsWhatWasAsked(lib, init, k);
    } else {
      hide Run;
      var id := e.cohortId;
      DoFallbackFor(lib, id, s.nextSecret, s.states[id], e.action, k - |s.log|);
      DoIsAbout(lib, id, s.nextSecret, s.states[id], e.action);
      RunHoldsReceived(lib, init, id);
      r := s.states[id].fallback.value;
      c, l :| l != "" && ReceivedIn(init, id, FallbackAuthorization(c, r, l));
      assert ReceivedIn(events, id, FallbackAuthorization(c, r, l));
    }
  }

  // ----- The terms

  /** The parameters an advert advertises, one by one; a recovery key only if there is one. */
  predicate Terms(lib: Libraries, a: Advert, p: BeaconParams) {
    && p.network == a.network && p.recoverySequence == a.recoverySequence && p.fundingModel == a.fundingModel
    && p.fallbackThreshold == a.fallbackThreshold
    && (if a.recoveryKeyHex == "" then p.recoveryKey == None
        else p.recoveryKey.Some? && p.recoveryKey == lib.hexToBytes(a.recoveryKeyHex))
  }

  lemma TermsAreParams(lib: Libraries, a: Advert, p: BeaconParams)
    ensures Terms(lib, a, p) <==> ParamsOf(lib, a) == Some(p)
  {
  }

  predicate TermsHeld(lib: Libraries, st: CohortState) {
    st.cohort.Some? ==> st.advert.Some? && Terms(lib, st.advert.value, st.cohort.value.params)
  }

  predicate SameTerms(st: CohortState, st': CohortState) {
    && st'.advert == st.advert && st'.cohort.Some? == st.cohort.Some?
    && (st.cohort.Some? ==> st'.cohort.value.params == st.cohort.value.params)
  }

  lemma MessagesKeepTerms(lib: Libraries, id: string, st: CohortState, m: Message)
    ensures SameTerms(st, OnMessage(lib, id, st, m).st)
  {
    hide AfterValidate, ViewMatches;
  }

  lemma DoKeepsTerms(lib: Libraries, id: string, secret: nat, st: CohortState, a: Action)
    ensures var e := Do(lib, id, secret, st, a);
            e.st.advert == st.advert && (TermsHeld(lib, st) ==> TermsHeld(lib, e.st))
  {
    hide Terms, OnMessage;
    match a
    case Receive(_, m) => MessagesKeepTerms(lib, id, st, m);
    case Join =>
      if st.advert.Some? && ParamsOf(lib, st.advert.value).Some? {
        TermsAreParams(lib, st.advert.value, ParamsOf(lib, st.advert.value).value);
      }
      hide ParamsOf;
    case _ =>
      hide DoJoin, FallbackLeaf, AnchorError;
      assert SameTerms(st, Do(lib, id, secret, st, a).st);
  }

  /** Over every run, a cohort is held under the terms of an advert that was received. */
  lemma {:induction false} HoldsAdvertisedTerms(lib: Libraries, events: seq<Event>, id: string)
    requires id in Run(lib, events).states
    ensures TermsHeld(lib, Run(lib, events).states[id])
    ensures Run(lib, events).states[id].advert.Some?
    ensures exists c :: ReceivedIn(events, id, CohortAdvert(c, Run(lib, events).states[id].advert))
  {
    hide Do, Terms;
    if events != [] {
      var init, e := events[..|events| - 1], events[|events| - 1];
      assert events == init + [e];
      var s := Run(lib, init);
      if id in s.states {
        HoldsAdvertisedTerms(lib, init, id);
        if e.At? && e.cohortId == id { DoKeepsTerms(lib, id, s.nextSecret, s.states[id], e.action); }
        var c :| ReceivedIn(init, id, CohortAdvert(c, s.states[id].advert));
        assert ReceivedIn(events, id, CohortAdvert(c, s.states[id].advert));
      } else {
        assert events[|init|] == At(id, Receive(true, e.action.message));
        assert ReceivedIn(events, id, CohortAdvert(e.action.message.cohortId, e.action.message.advert));
      }
    }
  }
}
