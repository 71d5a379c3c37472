/**
 * What the signal a participant signs for has to do with what it validated. Its check never looks
 * at the signal; the signal commits to the member's own slot exactly when it names what was checked.
 */
module SignalCommitment {
  import opened Bits
  import opened Hashing
  import opened ZeroHash
  import opened Btcr2Proof
  import opened BeaconStrategy
  import opened Recovery
  import opened Cohort
  import opened Participant
  import opened ParticipantSafety

  // ----- The check does not look at the signal

  function WithSignal(st: CohortState, signalHex: string): CohortState
    requires st.validation.Some?
  {
    st.(validation := Some(st.validation.value.(signalHex := signalHex)))
  }

  /** Whatever signal comes with the data, the handler does the same and stores the same verdict. */
  lemma SignalIsUnchecked(lib: Libraries, st: CohortState, beaconType: string, signal: string, other: string,
                          announcement: Option<Announcement>, smtProof: Option<SerializedProof>)
    ensures var e := OnDistribute(lib, st, beaconType, signal, announcement, smtProof);
            var f := OnDistribute(lib, st, beaconType, other, announcement, smtProof);
            && (e.st != st ==> e.st.validation.Some? && e.st.validation.value.signalHex == signal
                               && f == e.(st := WithSignal(e.st, other)))
            && (e.st == st ==> f == e)
  {
    hide ViewMatches;
  }

  /** The announcement or the proof in the message names the signal: a check that could be made when it arrives. */
  predicate Named(lib: Libraries, v: Validation) {
    var signal := lib.hexToBytes(v.signalHex);
    signal.Some?
    && if v.beaconType == "CASBeacon" then v.announcement.Some? && CasNames(lib.agg, signal.value, v.announcement.value)
       else v.smtProof.Some? && SmtNames(lib.agg, signal.value, v.smtProof.value)
  }

  /** Of two signals with different bytes at most one is named, and the handler stores the same verdict for both. */
  lemma UnnamedSignalsPass(lib: Libraries, st: CohortState, beaconType: string, signal: string, other: string,
                           announcement: Option<Announcement>, smtProof: Option<SerializedProof>)
    requires lib.hexToBytes(signal) != lib.hexToBytes(other)
    requires st.phase == UpdateSubmitted || st.phase == NonIncluded
    ensures var e := OnDistribute(lib, st, beaconType, signal, announcement, smtProof);
            var f := OnDistribute(lib, st, beaconType, other, announcement, smtProof);
            e.st.phase == AwaitingValidation ==>
              && f.st.phase == AwaitingValidation
              && e.st.validation.Some? && f.st.validation.Some?
              && e.st.validation.value.matches == f.st.validation.value.matches
              && !(Named(lib, e.st.validation.value) && Named(lib, f.st.validation.value))
  {
    hide ViewMatches;
  }

  // ----- Over every run

  /** The member's update of this round, `None` for a decliner. */
  function Own(st: CohortState): Option<Doc> {
    if st.included == Some(false) then None else st.submitted
  }

  /** From distribution on, the stored verdict is that of the stored data on the member's own slot. */
  predicate ViewOk(lib: Libraries, st: CohortState) {
    Rank(st.phase) >= 4 ==>
      && st.validation.Some?
      && var v := st.validation.value;
         && ViewMatches(lib.agg, lib.did, Own(st), v.beaconType, v.announcement, v.smtProof) == Ok(v.matches)
         && v.included == Own(st).Some?
         && v.expectedHash == if Own(st).Some? then lib.agg.CanonicalHash(Own(st).value) else ""
  }

  lemma DistributeKeepsView(lib: Libraries, st: CohortState, beaconType: string, signalHex: string,
                            announcement: Option<Announcement>, smtProof: Option<SerializedProof>)
    requires ViewOk(lib, st)
    ensures ViewOk(lib, OnDistribute(lib, st, beaconType, signalHex, announcement, smtProof).st)
  {
    hide CasMatches, SmtMatches;
  }

  lemma MessagesKeepView(lib: Libraries, id: string, st: CohortState, m: Message)
    requires ViewOk(lib, st)
    ensures ViewOk(lib, OnMessage(lib, id, st, m).st)
  {
    hide ViewMatches, AfterValidate;
    if m.Distribute? {
      DistributeKeepsView(lib, st, m.beaconType, m.signalHex, m.announcement, m.smtProof);
      hide OnDistribute;
    }
  }

  lemma SigningKeepsView(lib: Libraries, id: string, secret: nat, st: CohortState)
    requires ViewOk(lib, st)
    ensures ViewOk(lib, DoApproveNonce(lib, id, secret, st).st)
    ensures ViewOk(lib, DoGeneratePartial(lib, id, st).st)
    ensures ViewOk(lib, DoApproveFallback(lib, id, st).st)
  {
    hide ViewMatches, AnchorError, FallbackLeaf, ContextOf;
  }

  lemma DoKeepsView(lib: Libraries, id: string, secret: nat, st: CohortState, a: Action)
    requires ViewOk(lib, st)
    ensures ViewOk(lib, Do(lib, id, secret, st, a).st)
  {
    hide ViewMatches, OnMessage, DoApproveNonce, DoGeneratePartial, DoApproveFallback, ParamsOf;
    match a
    case Receive(_, m) => MessagesKeepView(lib, id, st, m);
    case ApproveNonce => SigningKeepsView(lib, id, secret, st);
    case GeneratePartial => SigningKeepsView(lib, id, secret, st);
    case ApproveFallback => SigningKeepsView(lib, id, secret, st);
    case _ =>
  }

  predicate ViewsOk(lib: Libraries, s: Sys) {
    forall id :: id in s.states ==> ViewOk(lib, s.states[id])
  }

  lemma StepKeepsViews(lib: Libraries, s: Sys, e: Event)
    requires ViewsOk(lib, s)
    ensures ViewsOk(lib, Step(lib, s, e).0)
  {
    hide ViewMatches, Do;
    if e.At? && e.cohortId in s.states { DoKeepsView(lib, e.cohortId, s.nextSecret, s.states[e.cohortId], e.action); }
  }

  lemma {:induction false} RunKeepsViews(lib: Libraries, events: seq<Event>)
    ensures ViewsOk(lib, Run(lib, events))
  {
    hide Step, ViewOk;
    if events != [] {
      RunKeepsViews(lib, events[..|events| - 1]);
      StepKeepsViews(lib, Run(lib, events[..|events| - 1]), events[|events| - 1]);
    }
  }

  /** The signal commits to the member's own update, or to its absence. */
  ghost predicate CommitsToOwn(lib: Libraries, v: Validation, own: Option<Doc>) {
    var signal := lib.hexToBytes(v.signalHex);
    signal.Some?
    && if v.beaconType == "CASBeacon" then CasCommits(lib.agg, lib.did, own, signal.value)
       else SmtCommits(lib.agg, lib.did, own, signal.value)
  }

  /** The bytes of the announcement that was checked have no second preimage; a tree has its own such condition. */
  ghost predicate Resists(lib: Libraries, v: Validation) {
    v.beaconType == "CASBeacon" && v.announcement.Some? ==>
      NoSecondPreimage(lib.agg.smt.H, lib.agg.AnnouncementBytes(v.announcement.value))
  }

  lemma NamedCommits(lib: Libraries, st: CohortState)
    requires ViewOk(lib, st) && Rank(st.phase) >= 4 && st.validation.value.matches && Named(lib, st.validation.value)
    requires lib.agg.smt.Lawful() && lib.agg.Canonical() && Resists(lib, st.validation.value)
    ensures CommitsToOwn(lib, st.validation.value, Own(st))
  {
    hide CasMatches, SmtMatches, CasNames, SmtNames, CasCommits, SmtCommits;
    var v := st.validation.value;
    var signal := lib.hexToBytes(v.signalHex).value;
    if v.beaconType == "CASBeacon" {
      MatchedAnnouncement(lib.agg, lib.did, Own(st), v.announcement);
      NamedCasCommits(lib.agg, lib.did, Own(st), v.announcement.value, signal);
    } else {
      NamedSmtCommits(lib.agg, lib.did, Own(st), v.smtProof.value, signal);
    }
  }

  lemma MatchedAnnouncement(env: AggEnv, did: string, own: Option<Doc>, a: Option<Announcement>)
    requires CasMatches(env, did, own, a)
    ensures a.Some?
  {
  }

  /**
   * Over every run: what is given away is for a transaction that carries the stored signal, and where the data
   * matched and named that signal when it was distributed, the signal commits to the member's own slot.
   */
  lemma GiftsCommitWhenNamed(lib: Libraries, events: seq<Event>, k: nat)
    requires k < |Run(lib, events).log| && Gives(Run(lib, events).log[k])
    requires lib.agg.smt.Lawful() && lib.agg.Canonical()
    ensures var s := Run(lib, events);
            var f := s.log[k];
            && f.cohortId in s.states && s.states[f.cohortId].validation.Some?
            && var st := s.states[f.cohortId];
               var v := st.validation.value;
               && Embeds(lib, f.tx, v.signalHex)
               && (v.matches && Named(lib, v) && Resists(lib, v) ==> CommitsToOwn(lib, v, Own(st)))
  {
    hide Run, Embeds, ViewOk, Named, Resists, CommitsToOwn, Rank;
    GiftsAreAnchored(lib, events, k);
    RunKeepsViews(lib, events);
    var s := Run(lib, events);
    var id := s.log[k].cohortId;
    var st := s.states[id];
    ApprovedRank(lib, events, id, st.validation.value.signalHex);
    if st.validation.value.matches && Named(lib, st.validation.value) && Resists(lib, st.validation.value) {
      NamedCommits(lib, st);
    }
  }

  lemma ApprovedRank(lib: Libraries, events: seq<Event>, id: string, signal: string)
    requires Approved(id, signal) in Run(lib, events).log
    ensures id in Run(lib, events).states && Rank(Run(lib, events).states[id].phase) >= 4
  {
    hide Run, SysOk;
    RunKeeps(lib, events);
    ApprovedIsStored(lib, Run(lib, events), id, signal);
  }
}
