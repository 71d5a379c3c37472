/** What a participant gives away, over every run of messages and decisions. */
module ParticipantSafety {
  import opened Hashing
  import opened BeaconStrategy
  import opened Recovery
  import opened Cohort
  import opened Participant

  // ----- Phases

  /** The only phase changes there are. */
  predicate Edge(p: Phase, q: Phase) {
    || p == q
    || (p == Discovered && q == OptedIn) || (p == OptedIn && q == CohortReady)
    || (p == CohortReady && (q == UpdateSubmitted || q == NonIncluded))
    || ((p == UpdateSubmitted || p == NonIncluded) && q == AwaitingValidation)
    || (p == AwaitingValidation && (q == ValidationSent || q == Failed))
    || (p == ValidationSent && q == AwaitingSigning)
    || (p == AwaitingSigning && q == NonceSent) || (p == NonceSent && q == AwaitingPartialSig)
    || (p == AwaitingPartialSig && q == Complete)
    || (AcceptsFallback(p) && q == AwaitingFallbackSig) || (p == AwaitingFallbackSig && q == Complete)
  }

  /** Position of a phase on the way through the protocol. */
  function Rank(p: Phase): nat {
    match p
    case Discovered => 0 case OptedIn => 1 case CohortReady => 2 case UpdateSubmitted => 3 case NonIncluded => 3
    case AwaitingValidation => 4 case ValidationSent => 5 case AwaitingSigning => 6 case NonceSent => 7
    case AwaitingPartialSig => 8 case AwaitingFallbackSig => 9 case Complete => 10 case Failed => 11
  }

  /** The only edge that goes back is from `Complete` to `AwaitingFallbackSig`; `Failed` has none out. */
  lemma EdgesGoForward(p: Phase, q: Phase)
    requires Edge(p, q)
    ensures Rank(p) <= Rank(q) || (p == Complete && q == AwaitingFallbackSig)
    ensures p == Failed ==> q == Failed
  {
  }

  predicate Validated(p: Phase) { 5 <= Rank(p) <= 10 }

  /** One event moves one record along an edge, and never touches a stored validation once it was approved. */
  lemma DoMoves(lib: Libraries, id: string, secret: nat, st: CohortState, a: Action)
    ensures var e := Do(lib, id, secret, st, a);
            && Edge(st.phase, e.st.phase)
            && (Rank(st.phase) >= 4 ==> e.st.validation == st.validation)
            && (Rank(st.phase) >= 2 ==> e.st.cohort == st.cohort)
  {
    hide AfterValidate, FallbackLeaf, CasMatches, SmtMatches, Embeds, ParamsOf;
  }

  lemma StepMoves(lib: Libraries, s: Sys, e: Event, id: string)
    requires id in s.states
    ensures var s' := Step(lib, s, e).0;
            && id in s'.states && Edge(s.states[id].phase, s'.states[id].phase)
            && (Rank(s.states[id].phase) >= 4 ==> s'.states[id].validation == s.states[id].validation)
  {
    hide Do;
    if e.At? && e.cohortId == id { DoMoves(lib, id, s.nextSecret, s.states[id], e.action); }
  }

  lemma DoIsAbout(lib: Libraries, id: string, secret: nat, st: CohortState, a: Action)
    ensures var e := Do(lib, id, secret, st, a);
            forall k :: 0 <= k < |e.facts| ==> About(e.facts[k], id)
  {
    hide AfterValidate, FallbackLeaf, CasMatches, SmtMatches, Embeds, ParamsOf;
  }

  predicate About(f: Fact, id: string) { f.cohortId == id }

  /** A message for one cohort, or a decision about it, leaves every other record as it was. */
  lemma CohortsAreIsolated(lib: Libraries, s: Sys, id: string, a: Action, other: string)
    requires other != id
    ensures var s' := Step(lib, s, At(id, a)).0;
            && (other in s'.states <==> other in s.states)
            && (other in s.states ==> s'.states[other] == s.states[other])
            && s.log <= s'.log && forall k :: |s.log| <= k < |s'.log| ==> About(s'.log[k], id)
  {
    hide Do;
    if id in s.states { DoIsAbout(lib, id, s.nextSecret, s.states[id], a); }
  }

  // ----- Counting facts

  datatype Kind = KApproved | KNonce | KPartial | KAccepted

  predicate Is(f: Fact, id: string, kind: Kind) {
    f.cohortId == id
    && match kind
       case KApproved => f.Approved?
       case KNonce => f.NonceGiven?
       case KPartial => f.PartialGiven?
       case KAccepted => f.Accepted?
  }

  function Count(log: seq<Fact>, id: string, kind: Kind): nat {
    if log == [] then 0 else (if Is(log[0], id, kind) then 1 else 0) + Count(log[1..], id, kind)
  }

  lemma {:induction false} CountAppend(a: seq<Fact>, b: seq<Fact>, id: string, kind: Kind)
    ensures Count(a + b, id, kind) == Count(a, id, kind) + Count(b, id, kind)
  {
    if a == [] {
      assert a + b == b;
    } else {
      assert (a + b)[1..] == a[1..] + b;
      CountAppend(a[1..], b, id, kind);
    }
  }

  lemma {:induction false} CountTwice(log: seq<Fact>, id: string, kind: Kind, j: nat, k: nat)
    requires j < k < |log| && Is(log[j], id, kind) && Is(log[k], id, kind)
    ensures Count(log, id, kind) >= 2
  {
    if j == 0 { CountOnce(log[1..], id, kind, k - 1); } else { CountTwice(log[1..], id, kind, j - 1, k - 1); }
  }

  lemma {:induction false} CountOnce(log: seq<Fact>, id: string, kind: Kind, k: nat)
    requires k < |log| && Is(log[k], id, kind)
    ensures Count(log, id, kind) >= 1
  {
    if k > 0 { CountOnce(log[1..], id, kind, k - 1); }
  }

  // ----- What each record keeps

  /** How many approvals, nonces, partial signatures and acceptances a cohort in this phase has behind it. */
  predicate Budget(p: Phase, approvals: nat, nonces: nat, partials: nat, acceptances: nat) {
    && approvals == (if Validated(p) then 1 else 0)
    && acceptances == (if Rank(p) >= 2 then 1 else 0)
    && nonces <= (if Rank(p) < 7 || p == Failed then 0 else 1)
    && partials <= (if Rank(p) < 9 || p == Failed then 0 else 1)
  }

  predicate WithinBudget(p: Phase, log: seq<Fact>, id: string) {
    Budget(p, Count(log, id, KApproved), Count(log, id, KNonce), Count(log, id, KPartial), Count(log, id, KAccepted))
  }

  /** From `CohortReady` on, the address held has been checked and is on record as accepted. */
  predicate MemberOk(lib: Libraries, id: string, st: CohortState, log: seq<Fact>) {
    && (st.phase != Discovered ==> st.cohort.Some?)
    && (Rank(st.phase) >= 2 ==>
          && HasAddress(lib.bitcoin, st.cohort.value.params, st.cohort.value.state.keys,
                        st.cohort.value.state.beacon.address)
          && AcceptedBy(id, st.cohort.value) in log)
  }

  function AcceptedBy(id: string, m: Member): Fact {
    Fact.Accepted(id, m.params, m.state.keys, m.state.beacon.address)
  }

  /** The signal stored is the one that was approved. */
  predicate ValidationOk(id: string, st: CohortState, log: seq<Fact>) {
    && (Rank(st.phase) >= 4 ==> st.validation.Some?)
    && (Validated(st.phase) ==> Approved(id, st.validation.value.signalHex) in log)
  }

  /** A session is for a transaction that carries the stored signal; its secret is there only while it is needed. */
  predicate SessionOk(lib: Libraries, id: string, st: CohortState, log: seq<Fact>) {
    && (7 <= Rank(st.phase) <= 8 ==> st.session.Some?)
    && (st.session.Some? ==>
          && 6 <= Rank(st.phase) <= 10 && st.validation.Some?
          && st.validation.value.signalHex != "" && Embeds(lib, st.session.value.tx, st.validation.value.signalHex))
    && (st.session.Some? && st.session.value.secretNonce.Some? ==>
          && 7 <= Rank(st.phase) <= 8
          && NonceGiven(id, st.session.value.tx, st.session.value.secretNonce.value) in log)
  }

  predicate RecordOk(lib: Libraries, id: string, st: CohortState, log: seq<Fact>) {
    && WithinBudget(st.phase, log, id) && MemberOk(lib, id, st, log)
    && ValidationOk(id, st, log) && SessionOk(lib, id, st, log)
  }

  // ----- What each fact rests on

  /** Some approved signal of the cohort is embedded in the transaction. */
  ghost predicate AnchoredIn(lib: Libraries, log: seq<Fact>, id: string, tx: Tx) {
    exists signal :: signal != "" && Approved(id, signal) in log && Embeds(lib, tx, signal)
  }

  /** The leaf is the fallback leaf of the keys and parameters of an accepted address. */
  ghost predicate CommittedIn(lib: Libraries, log: seq<Fact>, id: string, leaf: Bytes) {
    exists m: Member ::
      AcceptedBy(id, m) in log
      && FallbackLeaf(lib.bitcoin, m.state.keys, EffectiveThreshold(m.params, m.state.keys)) == Ok(leaf)
  }

  /** The secret was drawn for this transaction, and has been passed to signing. */
  ghost predicate SignedWith(log: seq<Fact>, id: string, tx: Tx) {
    exists secret :: NonceGiven(id, tx, secret) in log && SecretUsed(id, secret) in log
  }

  /** What must already be on record when a fact is added. */
  ghost predicate FactOk(lib: Libraries, before: seq<Fact>, f: Fact) {
    match f
    case NonceGiven(id, tx, _) => AnchoredIn(lib, before, id, tx)
    case SecretUsed(id, secret) => exists tx :: NonceGiven(id, tx, secret) in before
    case PartialGiven(id, tx, _) => AnchoredIn(lib, before, id, tx) && SignedWith(before, id, tx)
    case FallbackGiven(id, tx, leaf, _) => AnchoredIn(lib, before, id, tx) && CommittedIn(lib, before, id, leaf)
    case Accepted(_, params, keys, address) => HasAddress(lib.bitcoin, params, keys, address)
    case Approved(_, _) => true
  }

  ghost predicate LogOk(lib: Libraries, log: seq<Fact>) {
    forall k :: 0 <= k < |log| ==> FactOk(lib, log[..k], log[k])
  }

  ghost predicate FactsOk(lib: Libraries, log: seq<Fact>, facts: seq<Fact>) {
    forall k :: 0 <= k < |facts| ==> FactOk(lib, log + facts[..k], facts[k])
  }

  ghost predicate Keeps(lib: Libraries, id: string, e: Effect, log: seq<Fact>) {
    RecordOk(lib, id, e.st, log + e.facts) && FactsOk(lib, log, e.facts)
  }

  // ----- One event on one record

  lemma NoFacts(log: seq<Fact>)
    ensures log + [] == log
  {
  }

  lemma OneFact(lib: Libraries, log: seq<Fact>, f: Fact, id: string)
    requires FactOk(lib, log, f)
    ensures FactsOk(lib, log, [f])
    ensures forall kind :: Count(log + [f], id, kind) == Count(log, id, kind) + if Is(f, id, kind) then 1 else 0
    ensures f in log + [f] && forall g :: g in log ==> g in log + [f]
  {
    hide FactOk, Is;
    assert log + [f][..0] == log;
    forall kind ensures Count(log + [f], id, kind) == Count(log, id, kind) + if Is(f, id, kind) then 1 else 0 {
      CountAppend(log, [f], id, kind);
      assert [f][1..] == [];
    }
  }

  lemma TwoFacts(lib: Libraries, log: seq<Fact>, f: Fact, g: Fact, id: string)
    requires FactOk(lib, log, f) && FactOk(lib, log + [f], g)
    ensures FactsOk(lib, log, [f, g]) && log + [f, g] == log + [f] + [g]
    ensures forall kind :: Count(log + [f, g], id, kind)
                           == Count(log, id, kind) + (if Is(f, id, kind) then 1 else 0)
                              + (if Is(g, id, kind) then 1 else 0)
    ensures f in log + [f, g] && forall h :: h in log ==> h in log + [f, g]
  {
    OneFact(lib, log, f, id);
    OneFact(lib, log + [f], g, id);
    hide FactOk, Is, Count;
    assert [f, g][..0] == [] && [f, g][..1] == [f] && log + [] == log;
    assert log + [f, g] == log + [f] + [g];
  }

  lemma CohortReadyKeeps(lib: Libraries, id: string, st: CohortState, address: string, keys: Option<seq<Bytes>>,
                         log: seq<Fact>)
    requires RecordOk(lib, id, st, log)
    ensures Keeps(lib, id, OnCohortReady(lib, id, st, address, keys), log)
  {
    hide HasAddress, AfterValidate, Count, Embeds, FactsOk;
    NoFacts(log);
    var e := OnCohortReady(lib, id, st, address, keys);
    if st.cohort.None? || st.phase != OptedIn || address == "" || keys.None? {
      assert FactsOk(lib, log, []) by { NothingAdded(lib, log); }
    } else {
      NothingAdded(lib, log);
      var m := st.cohort.value;
      var after := AfterValidate(lib.bitcoin, m.params, m.state, lib.publicKey, keys.value, address);
      if after.1.Ok? {
        AcceptedMembership(lib.bitcoin, m.params, m.state, lib.publicKey, keys.value, address);
        OneFact(lib, log, e.facts[0], id);
      }
    }
  }

  lemma NothingAdded(lib: Libraries, log: seq<Fact>)
    ensures FactsOk(lib, log, [])
  {
  }

  lemma DistributeKeeps(lib: Libraries, id: string, st: CohortState, m: Message, log: seq<Fact>)
    requires RecordOk(lib, id, st, log) && m.Distribute?
    ensures Keeps(lib, id, OnMessage(lib, id, st, m), log)
  {
    hide CasMatches, SmtMatches, HasAddress, Count, Embeds, FactsOk;
    NoFacts(log);
    NothingAdded(lib, log);
  }

  lemma SigningMessagesKeep(lib: Libraries, id: string, st: CohortState, m: Message, log: seq<Fact>)
    requires RecordOk(lib, id, st, log)
    requires m.Authorization? || m.AggregatedNonce? || m.FallbackAuthorization? || m.CohortAdvert? || m.Other?
    ensures Keeps(lib, id, OnMessage(lib, id, st, m), log)
  {
    hide HasAddress, Count, Embeds, FactsOk;
    NoFacts(log);
    NothingAdded(lib, log);
  }

  lemma NonceKeeps(lib: Libraries, id: string, st: CohortState, log: seq<Fact>, secret: nat)
    requires RecordOk(lib, id, st, log)
    ensures Keeps(lib, id, DoApproveNonce(lib, id, secret, st), log)
  {
    hide HasAddress, Count, Embeds, FactsOk;
    NoFacts(log);
    NothingAdded(lib, log);
    var e := DoApproveNonce(lib, id, secret, st);
    if e.facts != [] {
      assert Embeds(lib, e.facts[0].tx, st.validation.value.signalHex);
      assert Approved(id, st.validation.value.signalHex) in log;
      OneFact(lib, log, e.facts[0], id);
    }
  }

  lemma PartialKeeps(lib: Libraries, id: string, st: CohortState, log: seq<Fact>)
    requires RecordOk(lib, id, st, log)
    ensures Keeps(lib, id, DoGeneratePartial(lib, id, st), log)
  {
    hide HasAddress, Count, Embeds, FactsOk, ContextOf;
    NoFacts(log);
    NothingAdded(lib, log);
    var e := DoGeneratePartial(lib, id, st);
    if e.facts != [] {
      var s := st.session.value;
      assert NonceGiven(id, s.tx, s.secretNonce.value) in log;
      OneFact(lib, log, e.facts[0], id);
      if |e.facts| > 1 {
        assert Approved(id, st.validation.value.signalHex) in log + [e.facts[0]];
        TwoFacts(lib, log, e.facts[0], e.facts[1], id);
      }
    }
  }

  lemma FallbackKeeps(lib: Libraries, id: string, st: CohortState, log: seq<Fact>)
    requires RecordOk(lib, id, st, log)
    ensures Keeps(lib, id, DoApproveFallback(lib, id, st), log)
  {
    hide HasAddress, Count, Embeds, FactsOk, FallbackLeaf;
    NoFacts(log);
    NothingAdded(lib, log);
    var e := DoApproveFallback(lib, id, st);
    if e.facts != [] {
      assert Approved(id, st.validation.value.signalHex) in log;
      assert AcceptedBy(id, st.cohort.value) in log;
      OneFact(lib, log, e.facts[0], id);
    }
  }

  lemma DecisionsKeep(lib: Libraries, id: string, st: CohortState, a: Action, log: seq<Fact>, secret: nat)
    requires RecordOk(lib, id, st, log)
    requires a.Join? || a.Submit? || a.Decline? || a.ApproveValidation? || a.RejectValidation?
    ensures Keeps(lib, id, Do(lib, id, secret, st, a), log)
  {
    hide HasAddress, Count, Embeds, FactsOk, ParamsOf;
    NoFacts(log);
    NothingAdded(lib, log);
    if a.ApproveValidation? && st.phase == AwaitingValidation {
      OneFact(lib, log, Approved(id, st.validation.value.signalHex), id);
    }
  }

  /** What one event adds to the record of facts is in order, and the record of the cohort stays in order. */
  lemma DoKeeps(lib: Libraries, id: string, st: CohortState, a: Action, log: seq<Fact>, secret: nat)
    requires RecordOk(lib, id, st, log)
    ensures Keeps(lib, id, Do(lib, id, secret, st, a), log)
  {
    hide Keeps, RecordOk;
    match a
    case Receive(versionOk, m) =>
      if !versionOk {
        SigningMessagesKeep(lib, id, st, Other(""), log);
      } else {
        match m
        case CohortReadyMsg(_, address, keys) => CohortReadyKeeps(lib, id, st, address, keys, log);
        case Distribute(_, _, _, _, _) => DistributeKeeps(lib, id, st, m, log);
        case _ => SigningMessagesKeep(lib, id, st, m, log);
      }
    case ApproveNonce => NonceKeeps(lib, id, st, log, secret);
    case GeneratePartial => PartialKeeps(lib, id, st, log);
    case ApproveFallback => FallbackKeeps(lib, id, st, log);
    case _ => DecisionsKeep(lib, id, st, a, log, secret);
  }

  // ----- Secrets

  function Held(st: CohortState): Option<nat> {
    if st.session.None? then None else st.session.value.secretNonce
  }

  /** No secret is drawn twice, none is used twice, and all were drawn already. */
  predicate SecretsDistinct(log: seq<Fact>, next: nat) {
    && (forall k :: 0 <= k < |log| && (log[k].NonceGiven? || log[k].SecretUsed?) ==> log[k].secret < next)
    && (forall j, k :: 0 <= j < k < |log| && log[j].NonceGiven? && log[k].NonceGiven? ==>
          log[j].secret != log[k].secret)
    && (forall j, k :: 0 <= j < k < |log| && log[j].SecretUsed? && log[k].SecretUsed? ==>
          log[j].secret != log[k].secret)
  }

  predicate Unspent(log: seq<Fact>, secret: nat) {
    forall k :: 0 <= k < |log| && log[k].SecretUsed? ==> log[k].secret != secret
  }

  /** What one event does with secrets: nothing new, one drawn and kept, or the held one used and dropped. */
  predicate SecretMove(id: string, st: CohortState, e: Effect, secret: nat) {
    || (Held(e.st) in {Held(st), None}
        && forall k :: 0 <= k < |e.facts| ==> !e.facts[k].NonceGiven? && !e.facts[k].SecretUsed?)
    || (Held(e.st) == Some(secret) && |e.facts| == 1 && e.facts[0].NonceGiven? && e.facts[0].secret == secret)
    || (Held(st).Some? && Held(e.st) == None && |e.facts| >= 1 && e.facts[0] == SecretUsed(id, Held(st).value)
        && (|e.facts| == 1 || (|e.facts| == 2 && e.facts[1].PartialGiven?)))
  }

  predicate Draws(e: Effect) { exists k :: 0 <= k < |e.facts| && e.facts[k].NonceGiven? }

  lemma MessagesMoveNoSecrets(lib: Libraries, id: string, secret: nat, st: CohortState, m: Message)
    ensures SecretMove(id, st, OnMessage(lib, id, st, m), secret) && !Draws(OnMessage(lib, id, st, m))
  {
    hide AfterValidate, CasMatches, SmtMatches;
  }

  lemma NonceMovesSecret(lib: Libraries, id: string, secret: nat, st: CohortState)
    ensures SecretMove(id, st, DoApproveNonce(lib, id, secret, st), secret)
  {
    hide AnchorError;
  }

  lemma PartialMovesSecret(lib: Libraries, id: string, secret: nat, st: CohortState)
    ensures SecretMove(id, st, DoGeneratePartial(lib, id, st), secret) && !Draws(DoGeneratePartial(lib, id, st))
  {
  }

  lemma DoMovesSecrets(lib: Libraries, id: string, secret: nat, st: CohortState, a: Action)
    ensures SecretMove(id, st, Do(lib, id, secret, st, a), secret)
    ensures Draws(Do(lib, id, secret, st, a)) ==> a.ApproveNonce?
  {
    hide OnMessage, DoApproveNonce, DoGeneratePartial, AnchorError, FallbackLeaf, ParamsOf;
    match a
    case Receive(_, m) => MessagesMoveNoSecrets(lib, id, secret, st, m);
    case ApproveNonce => NonceMovesSecret(lib, id, secret, st);
    case GeneratePartial => PartialMovesSecret(lib, id, secret, st);
    case _ =>
  }

  /** The log stays distinct, and what the record now holds is unspent. */
  lemma MoveKeepsDistinct(id: string, st: CohortState, e: Effect, secret: nat, next: nat, log: seq<Fact>)
    requires SecretMove(id, st, e, secret) && SecretsDistinct(log, secret)
    requires next >= if Draws(e) then secret + 1 else secret
    requires Held(st).Some? ==> Unspent(log, Held(st).value)
    requires Held(st).Some? ==> Held(st).value < secret
    ensures SecretsDistinct(log + e.facts, next)
    ensures Held(e.st).Some? ==> Unspent(log + e.facts, Held(e.st).value)
  {
  }

  // ----- Every reachable state

  predicate RecordsOk(lib: Libraries, s: Sys) {
    forall id :: id in s.states ==> RecordOk(lib, id, s.states[id], s.log)
  }

  predicate SecretsOk(s: Sys) {
    && SecretsDistinct(s.log, s.nextSecret)
    && forall id :: id in s.states && Held(s.states[id]).Some? ==> Unspent(s.log, Held(s.states[id]).value)
  }

  ghost predicate SysOk(lib: Libraries, s: Sys) {
    && RecordsOk(lib, s)
    && (forall k :: 0 <= k < |s.log| ==> s.log[k].cohortId in s.states)
    && LogOk(lib, s.log)
    && SecretsOk(s)
  }

  lemma {:induction false} CountNone(log: seq<Fact>, id: string, kind: Kind)
    requires forall k :: 0 <= k < |log| ==> log[k].cohortId != id
    ensures Count(log, id, kind) == 0
  {
    if log != [] { CountNone(log[1..], id, kind); }
  }

  /** Facts about one cohort do not disturb the record of another. */
  lemma OthersKeep(lib: Libraries, id: string, st: CohortState, log: seq<Fact>, facts: seq<Fact>)
    requires RecordOk(lib, id, st, log)
    requires forall k :: 0 <= k < |facts| ==> facts[k].cohortId != id
    ensures RecordOk(lib, id, st, log + facts)
  {
    hide HasAddress, Embeds, Count, Budget;
    forall kind ensures Count(log + facts, id, kind) == Count(log, id, kind) {
      CountAppend(log, facts, id, kind);
      CountNone(facts, id, kind);
    }
  }

  lemma LogExtends(lib: Libraries, log: seq<Fact>, facts: seq<Fact>)
    requires LogOk(lib, log) && FactsOk(lib, log, facts)
    ensures LogOk(lib, log + facts)
  {
    hide FactOk;
    forall k | 0 <= k < |log + facts| ensures FactOk(lib, (log + facts)[..k], (log + facts)[k]) {
      if k < |log| {
        assert (log + facts)[..k] == log[..k];
      } else {
        assert (log + facts)[..k] == log + facts[..k - |log|];
      }
    }
  }

  /** Two cohorts never hold the same secret. */
  lemma HeldApart(lib: Libraries, s: Sys, id: string, other: string)
    requires RecordsOk(lib, s) && SecretsOk(s)
    requires id in s.states && other in s.states && id != other
    requires Held(s.states[id]).Some? && Held(s.states[other]).Some?
    ensures Held(s.states[id]).value != Held(s.states[other]).value
  {
    hide WithinBudget, MemberOk, ValidationOk, Embeds;
    var a, b := s.states[id].session.value, s.states[other].session.value;
    assert RecordOk(lib, id, s.states[id], s.log) && RecordOk(lib, other, s.states[other], s.log);
    assert NonceGiven(id, a.tx, a.secretNonce.value) in s.log;
    assert NonceGiven(other, b.tx, b.secretNonce.value) in s.log;
  }

  lemma HeldIsDrawn(lib: Libraries, s: Sys, id: string)
    requires RecordsOk(lib, s) && SecretsOk(s) && id in s.states && Held(s.states[id]).Some?
    ensures Held(s.states[id]).value < s.nextSecret
  {
    hide WithinBudget, MemberOk, ValidationOk, Embeds;
    assert RecordOk(lib, id, s.states[id], s.log);
  }

  /** What `StepAt` does when the cohort is known. */
  function Stepped(s: Sys, id: string, e: Effect, next: nat): Sys {
    Sys(s.states[id := e.st], next, s.log + e.facts)
  }

  lemma SteppedSecrets(lib: Libraries, s: Sys, id: string, e: Effect, next: nat)
    requires RecordsOk(lib, s) && SecretsOk(s) && id in s.states && SecretMove(id, s.states[id], e, s.nextSecret)
    requires next >= if Draws(e) then s.nextSecret + 1 else s.nextSecret
    ensures SecretsOk(Stepped(s, id, e, next))
  {
    hide RecordsOk, SecretsDistinct;
    if Held(s.states[id]).Some? { HeldIsDrawn(lib, s, id); }
    MoveKeepsDistinct(id, s.states[id], e, s.nextSecret, next, s.log);
    forall other | other in s.states && other != id && Held(s.states[other]).Some?
      ensures Unspent(s.log + e.facts, Held(s.states[other]).value)
    {
      if Held(s.states[id]).Some? { HeldApart(lib, s, id, other); }
    }
  }

  lemma SteppedKeeps(lib: Libraries, s: Sys, id: string, e: Effect, next: nat)
    requires SysOk(lib, s) && id in s.states && SecretMove(id, s.states[id], e, s.nextSecret)
    requires next >= if Draws(e) then s.nextSecret + 1 else s.nextSecret
    requires Keeps(lib, id, e, s.log) && forall k :: 0 <= k < |e.facts| ==> e.facts[k].cohortId == id
    ensures SysOk(lib, Stepped(s, id, e, next))
  {
    hide SecretMove, Draws, RecordOk, LogOk, FactsOk, SecretsDistinct, Unspent;
    SteppedSecrets(lib, s, id, e, next);
    LogExtends(lib, s.log, e.facts);
    forall other | other in s.states && other != id ensures RecordOk(lib, other, s.states[other], s.log + e.facts) {
      OthersKeep(lib, other, s.states[other], s.log, e.facts);
    }
  }

  lemma FirstRecordKeeps(lib: Libraries, s: Sys, id: string, advert: Advert)
    requires SysOk(lib, s) && id !in s.states
    ensures SysOk(lib, s.(states := s.states[id := FirstRecord(advert)]))
  {
    hide LogOk, SecretsDistinct, Count, HasAddress, Embeds;
    forall kind ensures Count(s.log, id, kind) == 0 { CountNone(s.log, id, kind); }
    assert RecordOk(lib, id, FirstRecord(advert), s.log);
  }

  function Cleared(st: CohortState): CohortState { st.(session := Wiped(st.session)) }

  lemma ClearKeeps(lib: Libraries, s: Sys)
    requires SysOk(lib, s)
    ensures SysOk(lib, Step(lib, s, ClearSecrets).0)
  {
    hide LogOk, SecretsDistinct, RecordOk;
    forall id | id in s.states ensures RecordOk(lib, id, Cleared(s.states[id]), s.log) {
      ClearedKeeps(lib, id, s.states[id], s.log);
    }
  }

  lemma ClearedKeeps(lib: Libraries, id: string, st: CohortState, log: seq<Fact>)
    requires RecordOk(lib, id, st, log)
    ensures RecordOk(lib, id, Cleared(st), log)
  {
    hide WithinBudget, HasAddress, Embeds;
  }

  lemma StepKeeps(lib: Libraries, s: Sys, e: Event)
    requires SysOk(lib, s)
    ensures SysOk(lib, Step(lib, s, e).0)
  {
    hide SysOk, Do, Keeps, SecretMove, Draws;
    match e
    case ClearSecrets => ClearKeeps(lib, s);
    case At(id, a) =>
      if id !in s.states {
        if a.Receive? && a.versionOk && a.message.CohortAdvert? && a.message.advert.Some? {
          FirstRecordKeeps(lib, s, id, a.message.advert.value);
        }
      } else if a.Receive? && id == "" {
      } else {
        assert RecordOk(lib, id, s.states[id], s.log) by { RecordIsOk(lib, s, id); }
        DoKeeps(lib, id, s.states[id], a, s.log, s.nextSecret);
        DoMovesSecrets(lib, id, s.nextSecret, s.states[id], a);
        DoIsAbout(lib, id, s.nextSecret, s.states[id], a);
        SteppedKeeps(lib, s, id, Do(lib, id, s.nextSecret, s.states[id], a), Step(lib, s, e).0.nextSecret);
      }
  }

  lemma RecordIsOk(lib: Libraries, s: Sys, id: string)
    requires SysOk(lib, s) && id in s.states
    ensures RecordOk(lib, id, s.states[id], s.log)
  {
  }

  /** The invariant of every run. */
  lemma {:induction false} RunKeeps(lib: Libraries, events: seq<Event>)
    ensures SysOk(lib, Run(lib, events))
  {
    hide SysOk, Step;
    if events == [] {
      StartIsOk(lib);
    } else {
      RunKeeps(lib, events[..|events| - 1]);
      StepKeeps(lib, Run(lib, events[..|events| - 1]), events[|events| - 1]);
    }
  }

  lemma StartIsOk(lib: Libraries)
    ensures SysOk(lib, START)
  {
  }

  // ----- Over every run

  predicate Gives(f: Fact) { f.NonceGiven? || f.PartialGiven? || f.FallbackGiven? }

  /** An approval on record is for the signal the cohort's record still holds. */
  lemma ApprovedIsStored(lib: Libraries, s: Sys, id: string, signal: string)
    requires SysOk(lib, s) && Approved(id, signal) in s.log
    ensures id in s.states && s.states[id].validation.Some? && s.states[id].validation.value.signalHex == signal
    ensures Validated(s.states[id].phase)
  {
    hide MemberOk, SessionOk, LogOk, SecretsOk;
    var k :| 0 <= k < |s.log| && s.log[k] == Approved(id, signal);
    assert s.log[k].cohortId == id;
    var st := s.states[id];
    assert RecordOk(lib, id, st, s.log);
    CountOnce(s.log, id, KApproved, k);
    var stored := Approved(id, st.validation.value.signalHex);
    var j :| 0 <= j < |s.log| && s.log[j] == stored;
    if j < k { CountTwice(s.log, id, KApproved, j, k); }
    if k < j { CountTwice(s.log, id, KApproved, k, j); }
  }

  /**
   * Every nonce, partial signature and fallback signature is for a transaction that carries the very
   * signal the record holds, and that signal had been approved before.
   */
  lemma GiftsAreAnchored(lib: Libraries, events: seq<Event>, k: nat)
    requires k < |Run(lib, events).log| && Gives(Run(lib, events).log[k])
    ensures var s := Run(lib, events);
            var f := s.log[k];
            && f.cohortId in s.states && s.states[f.cohortId].validation.Some?
            && s.states[f.cohortId].validation.value.signalHex != ""
            && Embeds(lib, f.tx, s.states[f.cohortId].validation.value.signalHex)
            && Approved(f.cohortId, s.states[f.cohortId].validation.value.signalHex) in s.log[..k]
  {
    hide Run, SysOk, Embeds, CommittedIn, SignedWith;
    RunKeeps(lib, events);
    var s := Run(lib, events);
    var f := s.log[k];
    assert FactOk(lib, s.log[..k], f) by { LogIsOk(lib, s, k); }
    var signal :| signal != "" && Approved(f.cohortId, signal) in s.log[..k] && Embeds(lib, f.tx, signal);
    assert Approved(f.cohortId, signal) in s.log;
    ApprovedIsStored(lib, s, f.cohortId, signal);
  }

  lemma LogIsOk(lib: Libraries, s: Sys, k: nat)
    requires SysOk(lib, s) && k < |s.log|
    ensures FactOk(lib, s.log[..k], s.log[k])
  {
  }

  /** Once data has been distributed the stored validation never changes, and phases only follow edges forward. */
  lemma {:induction false} RunMoves(lib: Libraries, events: seq<Event>, n: nat, id: string)
    requires n <= |events| && id in Run(lib, events[..n]).states
    ensures var before := Run(lib, events[..n]).states[id];
            var after := Run(lib, events).states;
            && id in after
            && (Rank(before.phase) >= 4 ==> after[id].validation == before.validation)
            && (before.phase == Failed ==> after[id].phase == Failed)
            && (Rank(before.phase) <= Rank(after[id].phase) || Rank(before.phase) == 10)
            && (Rank(before.phase) >= 9 ==> Rank(after[id].phase) >= 9)
    decreases |events|
  {
    hide Step, Edge;
    if n == |events| {
      assert events[..n] == events;
    } else {
      var init := events[..|events| - 1];
      assert init[..n] == events[..n];
      RunMoves(lib, init, n, id);
      StepMoves(lib, Run(lib, init), events[|events| - 1], id);
      EdgesGoForward(Run(lib, init).states[id].phase, Run(lib, events).states[id].phase);
    }
  }

  /**
   * For each cohort at most one nonce and one partial signature; a partial signature uses the secret that was
   * drawn for the same transaction; and no secret is used for signing twice, in any cohorts.
   */
  lemma SecretsAreUsedOnce(lib: Libraries, events: seq<Event>, j: nat, k: nat)
    requires j < k < |Run(lib, events).log|
    ensures var log := Run(lib, events).log;
            && !(log[j].NonceGiven? && log[k].NonceGiven? && log[j].cohortId == log[k].cohortId)
            && !(log[j].PartialGiven? && log[k].PartialGiven? && log[j].cohortId == log[k].cohortId)
            && !(log[j].SecretUsed? && log[k].SecretUsed? && log[j].secret == log[k].secret)
            && (log[k].PartialGiven? ==> SignedWith(log[..k], log[k].cohortId, log[k].tx))
  {
    hide Run, MemberOk, ValidationOk, SessionOk, AnchoredIn, CommittedIn;
    RunKeeps(lib, events);
    var s := Run(lib, events);
    var id := s.log[k].cohortId;
    assert RecordOk(lib, id, s.states[id], s.log);
    if Is(s.log[j], id, KNonce) && Is(s.log[k], id, KNonce) { CountTwice(s.log, id, KNonce, j, k); }
    if Is(s.log[j], id, KPartial) && Is(s.log[k], id, KPartial) { CountTwice(s.log, id, KPartial, j, k); }
    assert FactOk(lib, s.log[..k], s.log[k]);
  }

  /**
   * A secret nonce is held only between its contribution and the partial signature: never once a fallback was asked
   * for.
   */
  lemma SecretsAreWiped(lib: Libraries, events: seq<Event>, id: string)
    requires id in Run(lib, events).states && Held(Run(lib, events).states[id]).Some?
    ensures var s := Run(lib, events);
            && s.states[id].phase in {NonceSent, AwaitingPartialSig}
            && Unspent(s.log, Held(s.states[id]).value)
            && NonceGiven(id, s.states[id].session.value.tx, Held(s.states[id]).value) in s.log
  {
    hide Run, WithinBudget, MemberOk, ValidationOk, LogOk, SecretsDistinct;
    RunKeeps(lib, events);
    assert RecordOk(lib, id, Run(lib, events).states[id], Run(lib, events).log);
  }

  /** A fallback signature is for a leaf that the accepted beacon address commits to. */
  lemma FallbackLeafIsCommitted(lib: Libraries, events: seq<Event>, k: nat)
    requires k < |Run(lib, events).log| && Run(lib, events).log[k].FallbackGiven?
    ensures var s := Run(lib, events);
            var f := s.log[k];
            f.cohortId in s.states && s.states[f.cohortId].cohort.Some?
            && Commits(lib.bitcoin, s.states[f.cohortId].cohort.value, f.leaf)
            && CommitsToNoOther(lib.bitcoin, s.states[f.cohortId].cohort.value, f.leaf)
  {
    hide Run, SysOk, AnchoredIn, FallbackLeaf, ComputeBeacon, WithinBudget, ValidationOk, SessionOk, Count, HasAddress;
    RunKeeps(lib, events);
    var s := Run(lib, events);
    var f := s.log[k];
    LogIsOk(lib, s, k);
    var m: Member :|
      AcceptedBy(f.cohortId, m) in s.log[..k]
      && FallbackLeaf(lib.bitcoin, m.state.keys, EffectiveThreshold(m.params, m.state.keys)) == Ok(f.leaf);
    AcceptedIsHeld(lib, s, f.cohortId, m);
    AddressCommits(lib.bitcoin, s.states[f.cohortId].cohort.value, f.leaf);
    CommitsExclusively(lib.bitcoin, s.states[f.cohortId].cohort.value, f.leaf);
  }

  /** The held address is the one of the script tree with this leaf and the recovery leaf. */
  ghost predicate Commits(lib: BitcoinLib, m: Member, leaf: Bytes) {
    m.params.recoveryKey.Some? && m.params.recoverySequence.Some?
    && exists internalKey: Bytes, recovery: Bytes ::
      && RecoveryScript(lib, m.params.recoveryKey.value, m.params.recoverySequence.value) == Ok(recovery)
      && HasHeldAddress(lib, m, internalKey, [leaf, recovery])
  }

  /** Any other script tree with the held address shares it with one that has this leaf: a collision of `payTo`. */
  ghost predicate CommitsToNoOther(lib: BitcoinLib, m: Member, leaf: Bytes) {
    forall key: Bytes, leaves: seq<Bytes> :: HasHeldAddress(lib, m, key, leaves) ==>
      (leaves != [] && leaves[0] == leaf)
      || exists key': Bytes, leaves': seq<Bytes> ::
           HasHeldAddress(lib, m, key', leaves') && (key', leaves') != (key, leaves)
  }

  predicate HasHeldAddress(lib: BitcoinLib, m: Member, key: Bytes, leaves: seq<Bytes>) {
    var payment := lib.payTo(key, leaves, m.params.network);
    payment.Some? && payment.value.address == m.state.beacon.address
  }

  lemma CommitsExclusively(lib: BitcoinLib, m: Member, leaf: Bytes)
    requires Commits(lib, m, leaf)
    ensures CommitsToNoOther(lib, m, leaf)
  {
    var key: Bytes, recovery: Bytes :| HasHeldAddress(lib, m, key, [leaf, recovery]);
    forall other: Bytes, leaves: seq<Bytes>
      | HasHeldAddress(lib, m, other, leaves) && !(leaves != [] && leaves[0] == leaf)
      ensures exists key': Bytes, leaves': seq<Bytes> ::
                HasHeldAddress(lib, m, key', leaves') && (key', leaves') != (other, leaves)
    {
      assert [leaf, recovery] != leaves;
    }
  }

  /** The one acceptance on record is of the address held. */
  lemma AcceptedIsHeld(lib: Libraries, s: Sys, id: string, m: Member)
    requires SysOk(lib, s) && AcceptedBy(id, m) in s.log
    ensures id in s.states && s.states[id].cohort.Some?
    ensures AcceptedBy(id, s.states[id].cohort.value) == AcceptedBy(id, m)
    ensures HasAddress(lib.bitcoin, m.params, m.state.keys, m.state.beacon.address)
  {
    hide ValidationOk, SessionOk, LogOk, SecretsOk, HasAddress;
    var k :| 0 <= k < |s.log| && s.log[k] == AcceptedBy(id, m);
    assert s.log[k].cohortId == id;
    var st := s.states[id];
    assert RecordOk(lib, id, st, s.log);
    CountOnce(s.log, id, KAccepted, k);
    var j :| 0 <= j < |s.log| && s.log[j] == AcceptedBy(id, st.cohort.value);
    if j < k { CountTwice(s.log, id, KAccepted, j, k); }
    if k < j { CountTwice(s.log, id, KAccepted, k, j); }
  }

  lemma AddressCommits(lib: BitcoinLib, m: Member, leaf: Bytes)
    requires HasAddress(lib, m.params, m.state.keys, m.state.beacon.address)
    requires FallbackLeaf(lib, m.state.keys, EffectiveThreshold(m.params, m.state.keys)) == Ok(leaf)
    ensures Commits(lib, m, leaf)
  {
    HeldBeacon(lib, m);
    BeaconCommitsToLeaf(lib, m.params, m.state.keys);
    hide ComputeBeacon, FallbackLeaf, HasAddress;
    var recovery := RecoveryScript(lib, m.params.recoveryKey.value, m.params.recoverySequence.value).value;
    assert HasHeldAddress(lib, m, ComputeBeacon(lib, m.params, m.state.keys).value.internalKey, [leaf, recovery]);
  }

  lemma HeldBeacon(lib: BitcoinLib, m: Member)
    requires HasAddress(lib, m.params, m.state.keys, m.state.beacon.address)
    ensures ComputeBeacon(lib, m.params, m.state.keys).Ok?
    ensures ComputeBeacon(lib, m.params, m.state.keys).value.address == m.state.beacon.address
    ensures m.params.recoveryKey.Some? && m.params.recoverySequence.Some?
  {
  }
}
