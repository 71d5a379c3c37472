/**
 * The service runner across its await points. A handler runs without interruption up to its next
 * await; what is left of it is then a task that may be resumed at any later time, in any order,
 * even when the cohort has long been settled. Answers of callbacks, the transport and the
 * cryptography arrive with the events.
 */
module ServiceRunner {
  import opened Hashing

  // ----- The service's state of one cohort

  datatype Phase =
    | Advertised | CohortSet | CollectingUpdates | UpdatesCollected | DataDistributed | Validated | SigningStarted
    | NoncesCollected | AwaitingPartialSigs | FallbackRequested | Complete | Failed

  datatype SpendPath = KeyPath | ScriptPath

  datatype Config = Config(minParticipants: int, maxParticipants: Option<int>)

  datatype Session = Session(phase: Phase, pending: set<string>, accepted: set<string>, result: Option<SpendPath>)

  datatype Kind = OptIn(from: string) | Submit | Ack | Nonce | PartialSig | FallbackSig

  /**
   * What a message does where its phase admits it: nothing, one more, the last one, one too few approvals, or it
   * throws.
   */
  datatype Effect = Dropped | Taken | Last | LastRejected | Thrown

  /** `receive`; `None` where it throws. */
  function Receive(s: Session, kind: Kind, effect: Effect): Option<Session> {
    match kind
    case OptIn(from) =>
      if s.phase != Advertised || effect.Dropped? || from in s.accepted then Some(s)
      else Some(s.(pending := s.pending + {from}))
    case Submit =>
      if s.phase != CohortSet && s.phase != CollectingUpdates then Some(s)
      else if effect.Dropped? then Some(s)
      else if effect.Thrown? then None
      else Some(s.(phase := if effect.Last? then UpdatesCollected else CollectingUpdates))
    case Ack =>
      if s.phase != DataDistributed then Some(s)
      else if effect.Thrown? then None
      else if effect.Last? then Some(s.(phase := Validated))
      else if effect.LastRejected? then Some(s.(phase := Failed))
      else Some(s)
    case Nonce => Gather(s, SigningStarted, effect, s.(phase := NoncesCollected))
    case PartialSig => Gather(s, AwaitingPartialSigs, effect, s.(phase := Complete, result := Some(KeyPath)))
    case FallbackSig => Gather(s, FallbackRequested, effect, s.(phase := Complete, result := Some(ScriptPath)))
  }

  function Gather(s: Session, needed: Phase, effect: Effect, done: Session): Option<Session> {
    if s.phase != needed then Some(s) else
    match effect
    case Thrown => None case Last => Some(done) case _ => Some(s)
  }

  /** `acceptParticipant`: it does not look at the phase. */
  function AcceptParticipant(s: Session, c: Config, from: string): Option<Session> {
    if from !in s.pending || from in s.accepted || Full(s, c) then None
    else Some(s.(accepted := s.accepted + {from}))
  }

  predicate Full(s: Session, c: Config) { c.maxParticipants.Some? && |s.accepted| >= c.maxParticipants.value }

  function FinalizeKeygen(s: Session, c: Config, computes: bool): Option<Session> {
    if s.phase != Advertised || |s.accepted| < c.minParticipants
       || (c.maxParticipants.Some? && |s.accepted| > c.maxParticipants.value) || !computes then None
    else Some(s.(phase := CohortSet))
  }

  /** A step the service takes from one phase to the next if nothing throws. */
  function Advance(s: Session, from: Phase, to: Phase, ok: bool): Option<Session> {
    if s.phase != from || !ok then None else Some(s.(phase := to))
  }

  predicate InSigning(p: Phase) { p == SigningStarted || p == NoncesCollected || p == AwaitingPartialSigs }

  function StartFallback(s: Session, ok: bool): Option<Session> {
    if !InSigning(s.phase) || !ok then None else Some(s.(phase := FallbackRequested))
  }

  // ----- The runner's state of one cohort

  datatype Commitment = Optimistic | Fallback

  /** How the completion promise was settled. */
  datatype Settlement = Completed(path: SpendPath) | Rejected | Stopped

  /** A `RunContext`; `live` while it is in the runner's map. The last two fields record what was called. */
  datatype Context = Context(
    config: Config, live: bool, settled: bool, finalizing: bool, committed: Option<Commitment>,
    settlements: seq<Settlement>, finalizeCalls: nat)

  /** What a suspended handler is waiting for. */
  datatype Task =
    | OptInDecision(from: string) | AcceptSent | FinalizeDecision | TxData | Sending | FallbackSending(byTimer: bool)

  datatype Reply = Yes | No | Throws | YesThenThrows

  /** One cohort: its context, the service's state unless removed, and the handlers suspended for it. */
  datatype Cohort = Cohort(ctx: Context, session: Option<Session>, tasks: multiset<Task>)

  function Waiting(c: Cohort, t: Task): Cohort { c.(tasks := c.tasks + multiset{t}) }

  /** `#failCohort`, and with `Stopped` the body of `stopCohort`. */
  function Fail(c: Cohort, how: Settlement): Cohort {
    if c.ctx.settled then c
    else c.(ctx := c.ctx.(settled := true, live := false, settlements := c.ctx.settlements + [how]), session := None)
  }

  /** `#completeCohort`: the service keeps its state. */
  function Finish(c: Cohort, path: SpendPath): Cohort {
    if c.ctx.settled then c
    else c.(ctx := c.ctx.(settled := true, live := false, settlements := c.ctx.settlements + [Completed(path)]))
  }

  /** The continuation, or the handler's catch clause. */
  function OrFail(c: Cohort, s: Option<Session>, next: Task): Cohort {
    if s.None? then Fail(c, Rejected) else Waiting(c.(session := s), next)
  }

  /** A handler up to its first await; `peerOk` and `sends` answer calls that may throw. */
  function Handle(c: Cohort, kind: Kind, effect: Effect, ok: bool): Cohort {
    if !c.ctx.live || c.session.None? then c else
    match Receive(c.session.value, kind, effect)
    case None => Fail(c, Rejected)
    case Some(s) => AfterReceive(c.(session := Some(s)), s, kind, ok)
  }

  function AfterReceive(c: Cohort, s: Session, kind: Kind, ok: bool): Cohort {
    match kind
    case OptIn(from) =>
      if from !in s.pending || from in s.accepted then c
      else if !ok then Fail(c, Rejected)
      else Waiting(c, OptInDecision(from))
    case Submit =>
      if s.phase == UpdatesCollected then OrFail(c, Advance(s, UpdatesCollected, DataDistributed, ok), Sending) else c
    case Ack =>
      if s.phase == Failed then Fail(c, Rejected)
      else if s.phase == Validated then Waiting(c, TxData)
      else c
    case Nonce =>
      if s.phase == NoncesCollected then OrFail(c, Advance(s, NoncesCollected, AwaitingPartialSigs, ok), Sending) else c
    case PartialSig =>
      if c.ctx.committed == Some(Fallback) then c
      else if s.result.Some? then Finish(c.(ctx := c.ctx.(committed := Some(Optimistic))), s.result.value)
      else c
    case FallbackSig => if s.result.Some? then Finish(c, s.result.value) else c
  }

  /** The operator said yes; the cohort may be full or gone by now. */
  function Decided(c: Cohort, from: string): Cohort {
    if c.session.None? then Fail(c, Rejected)
    else if Full(c.session.value, c.ctx.config) then c
    else OrFail(c, AcceptParticipant(c.session.value, c.ctx.config, from), AcceptSent)
  }

  /** The acceptance is sent: the first handler to see enough participants asks whether to finalize. */
  function Accepted(c: Cohort): Cohort {
    if c.session.None? then Fail(c, Rejected)
    else if |c.session.value.accepted| >= c.ctx.config.minParticipants && !c.ctx.finalizing then
      Waiting(c.(ctx := c.ctx.(finalizing := true)), FinalizeDecision)
    else c
  }

  /** The call of `finalizeKeygen`. */
  function Finalized(c: Cohort, computes: bool): Cohort {
    var c := c.(ctx := c.ctx.(finalizeCalls := c.ctx.finalizeCalls + 1));
    if c.session.None? then Fail(c, Rejected)
    else OrFail(c, FinalizeKeygen(c.session.value, c.ctx.config, computes), Sending)
  }

  /** A suspended handler goes on. */
  function Resume(c: Cohort, t: Task, reply: Reply): Cohort {
    if t !in c.tasks then c else
    var c := c.(tasks := c.tasks - multiset{t});
    if reply == Throws then
      (if t == FallbackSending(false) then c else Fail(c, Rejected))
    else
      match t
      case OptInDecision(from) => if reply == No then c else Decided(c, from)
      case AcceptSent => Accepted(c)
      case FinalizeDecision =>
        if reply == No then c.(ctx := c.ctx.(finalizing := false)) else Finalized(c, reply == Yes)
      case TxData =>
        if c.session.None? then Fail(c, Rejected)
        else OrFail(c, Advance(c.session.value, Validated, SigningStarted, reply == Yes), Sending)
      case Sending => c
      case FallbackSending(_) => c
  }

  /**
   * `triggerFallback` up to its await, from an operator or from the stall timer, which fails the cohort if it throws.
   */
  function TriggerFallback(c: Cohort, byTimer: bool, ok: bool): Cohort {
    if !c.ctx.live || c.ctx.settled || c.ctx.committed.Some? then c
    else
      var s := if c.session.None? then None else StartFallback(c.session.value, ok);
      if s.None? then (if byTimer then Fail(c, Rejected) else c)
      else Waiting(c.(session := s, ctx := c.ctx.(committed := Some(Fallback))), FallbackSending(byTimer))
  }

  datatype Event =
    | Message(kind: Kind, effect: Effect, ok: bool)
    | Resumed(task: Task, reply: Reply)
    | TtlExpired | Stalled(ok: bool) | Triggered(ok: bool) | StopCohort

  /** One event of one cohort. Timers are cleared when a context is disposed of. */
  function Do(autoFallback: bool, stopped: bool, c: Cohort, e: Event): Cohort {
    match e
    case Message(kind, effect, ok) => if stopped then c else Handle(c, kind, effect, ok)
    case Resumed(t, reply) => Resume(c, t, reply)
    case TtlExpired => if c.ctx.live then Fail(c, Rejected) else c
    case Stalled(ok) =>
      if !c.ctx.live then c
      else if autoFallback && c.session.Some? && InSigning(c.session.value.phase) && c.ctx.committed.None? then
        TriggerFallback(c, true, ok)
      else Fail(c, Rejected)
    case Triggered(ok) => TriggerFallback(c, false, ok)
    case StopCohort => if c.ctx.live then Fail(c, Settlement.Stopped) else c
  }

  // ----- The whole runner

  datatype Runner = Runner(autoFallback: bool, stopped: bool, cohorts: map<string, Cohort>)

  /** `advertiseCohort` gives each cohort a new identifier; `sends` says whether the advert is sent from a task. */
  datatype Step = Advertise(id: string, config: Config, sends: bool) | At(id: string, event: Event) | Stop

  function NewCohort(config: Config, sends: bool): Cohort {
    Cohort(Context(config, true, false, false, None, [], 0), Some(Session(Advertised, {}, {}, None)),
           if sends then multiset{Sending} else multiset{})
  }

  function Next(r: Runner, step: Step): Runner {
    match step
    case Advertise(id, config, sends) =>
      if r.stopped || id in r.cohorts then r else r.(cohorts := r.cohorts[id := NewCohort(config, sends)])
    case At(id, e) =>
      if id !in r.cohorts then r else r.(cohorts := r.cohorts[id := Do(r.autoFallback, r.stopped, r.cohorts[id], e)])
    case Stop =>
      r.(stopped := true,
         cohorts := map id | id in r.cohorts ::
           if r.cohorts[id].ctx.live then Fail(r.cohorts[id], Settlement.Stopped) else r.cohorts[id])
  }

  function Run(autoFallback: bool, steps: seq<Step>): Runner {
    if steps == [] then Runner(autoFallback, false, map[])
    else Next(Run(autoFallback, steps[..|steps| - 1]), steps[|steps| - 1])
  }

  // ----- What every reachable cohort keeps

  /** Settled means exactly one settlement; a live context is not settled and its service state is there. */
  predicate SettleOk(c: Cohort) {
    && |c.ctx.settlements| == (if c.ctx.settled then 1 else 0)
    && c.ctx.live == !c.ctx.settled
    && (c.ctx.live ==> c.session.Some?)
  }

  /** `finalizing` is one handler at its decision or one call made, never two. */
  predicate FinalizeOk(c: Cohort) {
    c.ctx.finalizeCalls + c.tasks[FinalizeDecision] <= if c.ctx.finalizing then 1 else 0
  }

  predicate MembersOk(c: Cohort) {
    c.session.Some? && c.ctx.config.maxParticipants.Some? ==>
      c.session.value.accepted == {} || |c.session.value.accepted| <= c.ctx.config.maxParticipants.value
  }

  /** The committed path, the service's phase and the settlement agree. */
  predicate PathOk(c: Cohort) {
    && (c.session.Some? ==>
          var s := c.session.value;
          && (s.result.Some? <==> s.phase == Complete)
          && (s.result.Some? ==> c.ctx.settled)
          && (s.phase == FallbackRequested || s.result == Some(ScriptPath) ==> c.ctx.committed == Some(Fallback))
          && (c.ctx.committed == Some(Fallback) ==> s.phase == FallbackRequested || s.result == Some(ScriptPath)))
    && (Completed(KeyPath) in c.ctx.settlements <==> c.ctx.committed == Some(Optimistic))
    && (Completed(ScriptPath) in c.ctx.settlements ==> c.ctx.committed == Some(Fallback))
  }

  predicate CohortOk(c: Cohort) { SettleOk(c) && FinalizeOk(c) && MembersOk(c) && PathOk(c) }

  lemma FailKeeps(c: Cohort, how: Settlement)
    requires CohortOk(c) && !how.Completed?
    ensures CohortOk(Fail(c, how))
  {
  }

  lemma WaitingKeeps(c: Cohort, t: Task)
    requires CohortOk(c) && t != FinalizeDecision
    ensures CohortOk(Waiting(c, t))
  {
  }

  lemma OrFailKeeps(c: Cohort, s: Option<Session>, t: Task)
    requires CohortOk(c) && t != FinalizeDecision && (s.Some? ==> CohortOk(c.(session := s)))
    ensures CohortOk(OrFail(c, s, t))
  {
    hide CohortOk;
    if s.None? { FailKeeps(c, Rejected); } else { WaitingKeeps(c.(session := s), t); }
  }

  /** The service moves between phases that neither complete nor belong to the fallback. */
  lemma AdvanceKeeps(c: Cohort, from: Phase, to: Phase, ok: bool)
    requires CohortOk(c) && c.session.Some?
    requires !(from in {FallbackRequested, Complete}) && !(to in {FallbackRequested, Complete})
    ensures CohortOk(OrFail(c, Advance(c.session.value, from, to, ok), Sending))
  {
    OrFailKeeps(c, Advance(c.session.value, from, to, ok), Sending);
  }

  lemma HandleKeeps(c: Cohort, kind: Kind, effect: Effect, ok: bool)
    requires CohortOk(c)
    ensures CohortOk(Handle(c, kind, effect, ok))
  {
    if c.ctx.live && c.session.Some? {
      var s := Receive(c.session.value, kind, effect);
      if s.None? {
        FailKeeps(c, Rejected);
      } else {
        var c' := c.(session := s);
        if kind.PartialSig? || kind.FallbackSig? {
          SignatureKeeps(c, kind, effect, ok);
        } else {
          assert CohortOk(c');
          hide Receive, CohortOk, Fail, Waiting, Advance, OrFail;
          FailKeeps(c', Rejected);
          match kind
          case OptIn(from) => WaitingKeeps(c', OptInDecision(from));
          case Submit => AdvanceKeeps(c', UpdatesCollected, DataDistributed, ok);
          case Ack => WaitingKeeps(c', TxData);
          case _ => AdvanceKeeps(c', NoncesCollected, AwaitingPartialSigs, ok);
        }
      }
    }
  }

  /** The last signature completes the service's state and settles the cohort in one go. */
  lemma SignatureKeeps(c: Cohort, kind: Kind, effect: Effect, ok: bool)
    requires CohortOk(c) && c.ctx.live && (kind.PartialSig? || kind.FallbackSig?)
    requires Receive(c.session.value, kind, effect).Some?
    ensures var s := Receive(c.session.value, kind, effect);
            CohortOk(AfterReceive(c.(session := s), s.value, kind, ok))
  {
  }

  lemma DecidedKeeps(c: Cohort, from: string)
    requires CohortOk(c)
    ensures CohortOk(Decided(c, from))
  {
    FailKeeps(c, Rejected);
    if c.session.Some? { OrFailKeeps(c, AcceptParticipant(c.session.value, c.ctx.config, from), AcceptSent); }
  }

  lemma AcceptedKeeps(c: Cohort)
    requires CohortOk(c)
    ensures CohortOk(Accepted(c))
  {
    FailKeeps(c, Rejected);
  }

  lemma FinalizedKeeps(c: Cohort, computes: bool)
    requires CohortOk(c) && c.ctx.finalizing && c.ctx.finalizeCalls == 0 && FinalizeDecision !in c.tasks
    ensures CohortOk(Finalized(c, computes))
  {
    var c' := c.(ctx := c.ctx.(finalizeCalls := 1));
    FailKeeps(c', Rejected);
    if c'.session.Some? { OrFailKeeps(c', FinalizeKeygen(c'.session.value, c'.ctx.config, computes), Sending); }
  }

  lemma ResumeKeeps(c: Cohort, t: Task, reply: Reply)
    requires CohortOk(c)
    ensures CohortOk(Resume(c, t, reply))
  {
    if t in c.tasks {
      var c' := c.(tasks := c.tasks - multiset{t});
      assert CohortOk(c');
      FailKeeps(c', Rejected);
      if reply != Throws {
        match t
        case OptInDecision(from) => DecidedKeeps(c', from);
        case AcceptSent => AcceptedKeeps(c');
        case FinalizeDecision => if reply != No { FinalizedKeeps(c', reply == Yes); }
        case TxData => if c'.session.Some? { AdvanceKeeps(c', Validated, SigningStarted, reply == Yes); }
        case _ =>
      }
    }
  }

  lemma TriggerKeeps(c: Cohort, byTimer: bool, ok: bool)
    requires CohortOk(c)
    ensures CohortOk(TriggerFallback(c, byTimer, ok))
  {
  }

  lemma DoKeeps(auto: bool, stopped: bool, c: Cohort, e: Event)
    requires CohortOk(c)
    ensures CohortOk(Do(auto, stopped, c, e))
  {
    hide CohortOk, Handle, Resume, TriggerFallback, Fail;
    match e
    case Message(kind, effect, ok) => HandleKeeps(c, kind, effect, ok);
    case Resumed(t, reply) => ResumeKeeps(c, t, reply);
    case Stalled(ok) => TriggerKeeps(c, true, ok); FailKeeps(c, Rejected);
    case Triggered(ok) => TriggerKeeps(c, false, ok);
    case TtlExpired => FailKeeps(c, Rejected);
    case StopCohort => FailKeeps(c, Settlement.Stopped);
  }

  // ----- Over every run

  predicate AllOk(r: Runner) { forall id :: id in r.cohorts ==> CohortOk(r.cohorts[id]) }

  lemma NextKeeps(r: Runner, step: Step)
    requires AllOk(r)
    ensures AllOk(Next(r, step))
  {
    hide CohortOk, Do, Fail;
    match step
    case Advertise(_, config, sends) => NewIsOk(config, sends);
    case At(id, e) => if id in r.cohorts { DoKeeps(r.autoFallback, r.stopped, r.cohorts[id], e); }
    case Stop =>
      forall id | id in r.cohorts ensures CohortOk(Fail(r.cohorts[id], Settlement.Stopped)) {
        FailKeeps(r.cohorts[id], Settlement.Stopped);
      }
  }

  lemma NewIsOk(config: Config, sends: bool)
    ensures CohortOk(NewCohort(config, sends))
  {
  }

  lemma {:induction false} RunKeeps(auto: bool, steps: seq<Step>)
    ensures AllOk(Run(auto, steps))
  {
    hide AllOk, Next;
    if steps == [] {
      EmptyIsOk(auto);
    } else {
      RunKeeps(auto, steps[..|steps| - 1]);
      NextKeeps(Run(auto, steps[..|steps| - 1]), steps[|steps| - 1]);
    }
  }

  lemma EmptyIsOk(auto: bool)
    ensures AllOk(Run(auto, []))
  {
  }

  /**
   * Whatever the interleaving: a completion settles at most once, keygen is finalized at most once, and there are
   * never more accepted participants than the maximum.
   */
  lemma SettledAndFinalizedOnce(auto: bool, steps: seq<Step>, id: string)
    requires id in Run(auto, steps).cohorts
    ensures var c := Run(auto, steps).cohorts[id];
            && |c.ctx.settlements| == (if c.ctx.settled then 1 else 0)
            && c.ctx.finalizeCalls <= 1
            && (c.session.Some? && c.ctx.config.maxParticipants.Some? && c.session.value.accepted != {} ==>
                  |c.session.value.accepted| <= c.ctx.config.maxParticipants.value)
  {
    RunKeeps(auto, steps);
    hide Run;
    assert CohortOk(Run(auto, steps).cohorts[id]);
  }

  /** A cohort committed to the fallback is never completed by the key path, nor the other way round. */
  lemma OnePathCompletes(auto: bool, steps: seq<Step>, id: string)
    requires id in Run(auto, steps).cohorts
    ensures var ctx := Run(auto, steps).cohorts[id].ctx;
            && (Completed(KeyPath) in ctx.settlements <==> ctx.committed == Some(Optimistic))
            && (Completed(ScriptPath) in ctx.settlements ==> ctx.committed == Some(Fallback))
  {
    RunKeeps(auto, steps);
    hide Run;
    assert CohortOk(Run(auto, steps).cohorts[id]);
  }

  /** What never changes once it is set. */
  predicate Latched(c: Cohort, d: Cohort) {
    && d.ctx.config == c.ctx.config
    && (c.ctx.committed.Some? ==> d.ctx.committed == c.ctx.committed)
    && (c.ctx.settled ==> d.ctx.settled && d.ctx.settlements == c.ctx.settlements)
    && c.ctx.finalizeCalls <= d.ctx.finalizeCalls
  }

  lemma DoLatches(auto: bool, stopped: bool, c: Cohort, e: Event)
    requires CohortOk(c)
    ensures Latched(c, Do(auto, stopped, c, e))
  {
    match e
    case Message(kind, effect, ok) => HandleLatches(c, kind, effect, ok);
    case Resumed(t, reply) => ResumeLatches(c, t, reply);
    case _ =>
  }

  lemma HandleLatches(c: Cohort, kind: Kind, effect: Effect, ok: bool)
    requires CohortOk(c)
    ensures Latched(c, Handle(c, kind, effect, ok))
  {
    hide Receive, Advance, CohortOk;
    if c.ctx.live {
      LiveIsOpen(c);
      assert c.ctx.committed.Some? ==> c.ctx.committed.value.Fallback?;
    }
  }

  lemma LiveIsOpen(c: Cohort)
    requires CohortOk(c) && c.ctx.live
    ensures !c.ctx.settled && c.ctx.committed != Some(Optimistic)
  {
  }

  lemma ResumeLatches(c: Cohort, t: Task, reply: Reply)
    requires CohortOk(c)
    ensures Latched(c, Resume(c, t, reply))
  {
    hide CohortOk, Advance, FinalizeKeygen, AcceptParticipant, Full;
    SettledIsNotLive(c);
  }

  lemma SettledIsNotLive(c: Cohort)
    requires CohortOk(c)
    ensures c.ctx.settled ==> !c.ctx.live
  {
  }

  lemma NextLatches(r: Runner, step: Step, id: string)
    requires AllOk(r) && id in r.cohorts
    ensures id in Next(r, step).cohorts && Latched(r.cohorts[id], Next(r, step).cohorts[id])
  {
    hide Do;
    if step.At? && step.id == id { DoLatches(r.autoFallback, r.stopped, r.cohorts[id], step.event); }
  }

  /** Between any two moments of a run: the committed path, the settlement and the configuration stay as they are. */
  lemma {:induction false} RunLatches(auto: bool, steps: seq<Step>, n: nat, id: string)
    requires n <= |steps| && id in Run(auto, steps[..n]).cohorts
    ensures id in Run(auto, steps).cohorts && Latched(Run(auto, steps[..n]).cohorts[id], Run(auto, steps).cohorts[id])
    decreases |steps|
  {
    hide Next, AllOk;
    if n == |steps| {
      assert steps[..n] == steps;
    } else {
      var init := steps[..|steps| - 1];
      assert init[..n] == steps[..n];
      RunLatches(auto, init, n, id);
      RunKeeps(auto, init);
      NextLatches(Run(auto, init), steps[|steps| - 1], id);
    }
  }

  /** One cohort's events leave every other cohort as it is; stopping the runner settles them all. */
  lemma CohortsAreIndependent(r: Runner, id: string, e: Event, other: string)
    requires AllOk(r) && other in r.cohorts
    ensures other != id ==> other in Next(r, At(id, e)).cohorts && Next(r, At(id, e)).cohorts[other] == r.cohorts[other]
    ensures other in Next(r, Stop).cohorts && Next(r, Stop).cohorts[other].ctx.settled
  {
    assert CohortOk(r.cohorts[other]);
  }

  // ----- Who is in when keygen is done

  function After(auto: bool, c: Cohort, events: seq<Event>): Cohort {
    if events == [] then c else Do(auto, false, After(auto, c, events[..|events| - 1]), events[|events| - 1])
  }

  lemma AfterTwo(auto: bool, c: Cohort, e: Event, f: Event)
    ensures After(auto, c, [e, f]) == Do(auto, false, Do(auto, false, c, e), f)
  {
    hide Do;
    assert [e, f][..1] == [e] && [e][..0] == [];
    assert After(auto, c, [e]) == Do(auto, false, c, e);
  }

  /** Nobody is left who asked to join and was not accepted. */
  predicate NoneLeftOut(s: Session) { s.pending <= s.accepted }

  predicate SameMembers(c: Cohort, d: Cohort) {
    c.session.Some? && d.session.Some? ==> d.session.value.accepted == c.session.value.accepted
  }

  predicate Closed(c: Cohort) {
    c.session.Some? ==>
      c.session.value.phase != Advertised && (NoneLeftOut(c.session.value) || Full(c.session.value, c.ctx.config))
  }

  /** The cohort stays closed, with the same members as long as the service keeps it. */
  predicate Stays(c: Cohort, d: Cohort) {
    Closed(d) && SameMembers(c, d) && d.ctx.config == c.ctx.config && (c.session.None? ==> d.session.None?)
  }

  lemma HandleStays(c: Cohort, kind: Kind, effect: Effect, ok: bool)
    requires Closed(c)
    ensures Stays(c, Handle(c, kind, effect, ok))
  {
    if c.ctx.live && c.session.Some? {
      var s := Receive(c.session.value, kind, effect);
      if s.Some? {
        assert Stays(c, c.(session := s));
        hide Receive;
        AfterReceiveStays(c.(session := s), kind, ok);
      }
    }
  }

  lemma AfterReceiveStays(c: Cohort, kind: Kind, ok: bool)
    requires Closed(c) && c.session.Some?
    ensures Stays(c, AfterReceive(c, c.session.value, kind, ok))
  {
  }

  lemma OrFailStays(c: Cohort, d: Cohort, s: Option<Session>, t: Task)
    requires Stays(c, d) && (s.Some? ==> Stays(c, d.(session := s)))
    ensures Stays(c, Fail(d, Rejected)) && Stays(c, OrFail(d, s, t))
  {
  }

  lemma ResumeStays(c: Cohort, t: Task, reply: Reply)
    requires Closed(c)
    ensures Stays(c, Resume(c, t, reply))
  {
    if t in c.tasks {
      var w := c.(tasks := c.tasks - multiset{t});
      OrFailStays(c, w, None, t);
      match t
      case OptInDecision(from) => hide Accepted, Finalized, Advance; DecidedStays(w, from);
      case AcceptSent => hide Decided, Finalized, Advance;
      case FinalizeDecision =>
        hide Decided, Accepted, Advance;
        var v := w.(ctx := w.ctx.(finalizeCalls := w.ctx.finalizeCalls + 1));
        if w.session.Some? { OrFailStays(c, v, FinalizeKeygen(w.session.value, w.ctx.config, reply == Yes), Sending); }
      case TxData =>
        hide Decided, Accepted, Finalized;
        if w.session.Some? {
          OrFailStays(c, w, Advance(w.session.value, Validated, SigningStarted, reply == Yes), Sending);
        }
      case _ => hide Decided, Accepted, Finalized, Advance;
    }
  }

  lemma DecidedStays(c: Cohort, from: string)
    requires Closed(c)
    ensures Stays(c, Decided(c, from))
  {
  }

  lemma DoKeepsMembers(auto: bool, c: Cohort, e: Event)
    requires Closed(c)
    ensures Stays(c, Do(auto, false, c, e))
  {
    match e
    case Message(kind, effect, ok) => hide Handle; HandleStays(c, kind, effect, ok);
    case Resumed(t, reply) => hide Resume; ResumeStays(c, t, reply);
    case _ => hide Handle, Resume;
  }

  lemma {:induction false} AfterKeepsMembers(auto: bool, c: Cohort, events: seq<Event>)
    requires Closed(c)
    ensures Stays(c, After(auto, c, events))
  {
    hide Do;
    if events != [] {
      var init := events[..|events| - 1];
      AfterKeepsMembers(auto, c, init);
      DoKeepsMembers(auto, After(auto, c, init), events[|events| - 1]);
    }
  }

  /** The opt-in is sent again: the service ignores it, the runner still asks the operator. */
  lemma AsksAgain(auto: bool, c: Cohort, from: string)
    requires c.ctx.live && c.session.Some? && c.session.value.phase != Advertised
    requires from in c.session.value.pending && from !in c.session.value.accepted
    ensures Do(auto, false, c, Message(OptIn(from), Dropped, true)) == Waiting(c, OptInDecision(from))
  {
    assert c.(session := Some(c.session.value)) == c;
  }

  /** The operator's yes to a pending opt-in adds the member in every phase, signing included. */
  lemma YesAddsMember(auto: bool, c: Cohort, from: string)
    requires c.session.Some? && !Full(c.session.value, c.ctx.config) && OptInDecision(from) in c.tasks
    requires from in c.session.value.pending && from !in c.session.value.accepted
    ensures var s := c.session.value;
            var w := c.(tasks := c.tasks - multiset{OptInDecision(from)});
            Do(auto, false, c, Resumed(OptInDecision(from), Yes))
            == Waiting(w.(session := Some(s.(accepted := s.accepted + {from}))), AcceptSent)
    ensures !SameMembers(c, Do(auto, false, c, Resumed(OptInDecision(from), Yes)))
  {
    hide Handle, TriggerFallback;
    var w := c.(tasks := c.tasks - multiset{OptInDecision(from)});
    assert Resume(c, OptInDecision(from), Yes) == Decided(w, from);
    assert from in Decided(w, from).session.value.accepted;
  }

  /** Once keygen is finalized, an opt-in left over from before can still be accepted. */
  lemma LeftoverJoins(auto: bool, c: Cohort, from: string)
    requires c.ctx.live && c.session.Some? && c.session.value.phase != Advertised
    requires !Full(c.session.value, c.ctx.config)
    requires from in c.session.value.pending && from !in c.session.value.accepted
    ensures !SameMembers(c, After(auto, c, [Message(OptIn(from), Dropped, true), Resumed(OptInDecision(from), Yes)]))
  {
    hide Do, After;
    AfterTwo(auto, c, Message(OptIn(from), Dropped, true), Resumed(OptInDecision(from), Yes));
    AsksAgain(auto, c, from);
    YesAddsMember(auto, Waiting(c, OptInDecision(from)), from);
  }

  /**
   * After keygen, the participants of a cohort are final exactly when it is full or no pending opt-in was left
   * unaccepted: accepting does not look at the phase.
   */
  lemma MembersFinalIff(auto: bool, c: Cohort)
    requires c.ctx.live && c.session.Some? && c.session.value.phase != Advertised
    ensures (forall events: seq<Event> :: SameMembers(c, After(auto, c, events)))
            <==> NoneLeftOut(c.session.value) || Full(c.session.value, c.ctx.config)
  {
    hide After, Do, Full;
    if NoneLeftOut(c.session.value) || Full(c.session.value, c.ctx.config) {
      forall events: seq<Event> ensures SameMembers(c, After(auto, c, events)) {
        AfterKeepsMembers(auto, c, events);
      }
    } else {
      var from :| from in c.session.value.pending && from !in c.session.value.accepted;
      LeftoverJoins(auto, c, from);
    }
  }

  // ----- An opt-in sent twice

  /** An opt-in while the cohort is advertised asks the operator, however often it is sent. */
  lemma OptInAsks(auto: bool, c: Cohort, from: string)
    requires c.ctx.live && c.session.Some? && c.session.value.phase == Advertised && from !in c.session.value.accepted
    ensures var s := c.session.value;
            Do(auto, false, c, Message(OptIn(from), Taken, true))
            == Waiting(c.(session := Some(s.(pending := s.pending + {from}))), OptInDecision(from))
  {
  }

  /** The second yes to one participant finds it accepted: the acceptance throws, and the cohort fails with it. */
  lemma SecondYesFailsIff(auto: bool, c: Cohort, from: string)
    requires c.ctx.live && !c.ctx.settled && c.session.Some? && OptInDecision(from) in c.tasks
    requires from in c.session.value.accepted
    ensures var d := Do(auto, false, c, Resumed(OptInDecision(from), Yes));
            if Full(c.session.value, c.ctx.config) then d.session == c.session && d.ctx == c.ctx
            else d.session.None? && d.ctx.settlements == c.ctx.settlements + [Rejected]
  {
    hide Handle, TriggerFallback;
    var w := c.(tasks := c.tasks - multiset{OptInDecision(from)});
    assert Resume(c, OptInDecision(from), Yes) == Decided(w, from);
  }

  function Yesses(from: string): seq<Event> {
    [Resumed(OptInDecision(from), Yes), Resumed(OptInDecision(from), Yes)]
  }

  /**
   * Of two decisions pending for one participant, two yesses fail the whole cohort exactly when there is still room
   * after the first.
   */
  lemma TwoYessesFailIff(auto: bool, c: Cohort, from: string)
    requires c.ctx.live && !c.ctx.settled && c.session.Some? && c.tasks[OptInDecision(from)] >= 2
    requires from in c.session.value.pending && from !in c.session.value.accepted
    requires !Full(c.session.value, c.ctx.config)
    ensures var s := c.session.value;
            var d := After(auto, c, Yesses(from));
            if Full(s.(accepted := s.accepted + {from}), c.ctx.config) then d.ctx == c.ctx && d.session.Some?
            else d.session.None? && d.ctx.settlements == c.ctx.settlements + [Rejected]
  {
    hide Do, Full, After;
    var yes := Resumed(OptInDecision(from), Yes);
    AfterTwo(auto, c, yes, yes);
    YesAddsMember(auto, c, from);
    SecondYesFailsIff(auto, Do(auto, false, c, yes), from);
  }

  /** The opt-in sent twice before the operator answers leaves two decisions pending. */
  lemma RepeatedOptInAsksTwice(auto: bool, c: Cohort, from: string)
    requires c.ctx.live && c.session.Some? && c.session.value.phase == Advertised && from !in c.session.value.accepted
    ensures var s := c.session.value;
            var again := Message(OptIn(from), Taken, true);
            After(auto, c, [again, again])
            == c.(session := Some(s.(pending := s.pending + {from})),
                  tasks := c.tasks + multiset{OptInDecision(from), OptInDecision(from)})
  {
    hide Do, After;
    var again := Message(OptIn(from), Taken, true);
    AfterTwo(auto, c, again, again);
    OptInAsks(auto, c, from);
    var d := Do(auto, false, c, again);
    OptInAsks(auto, d, from);
    assert d.session.value.pending + {from} == d.session.value.pending;
    assert c.tasks + multiset{OptInDecision(from)} + multiset{OptInDecision(from)}
        == c.tasks + multiset{OptInDecision(from), OptInDecision(from)};
  }

  lemma {:induction false} AfterAppend(auto: bool, c: Cohort, a: seq<Event>, b: seq<Event>)
    ensures After(auto, c, a + b) == After(auto, After(auto, c, a), b)
    decreases |b|
  {
    hide Do;
    if b == [] {
      assert a + b == a;
    } else {
      assert (a + b)[..|a + b| - 1] == a + b[..|b| - 1];
      AfterAppend(auto, c, a, b[..|b| - 1]);
    }
  }

  /**
   * A participant that sends its opt-in twice and is wanted both times brings the whole cohort down, where the
   * cohort has room for one more after it.
   */
  lemma RepeatedOptInFails(auto: bool, c: Cohort, from: string)
    requires c.ctx.live && !c.ctx.settled && c.session.Some? && c.session.value.phase == Advertised
    requires from !in c.session.value.accepted && !Full(c.session.value, c.ctx.config)
    ensures var s := c.session.value;
            var again := Message(OptIn(from), Taken, true);
            var d := After(auto, c, [again, again] + Yesses(from));
            if Full(s.(accepted := s.accepted + {from}), c.ctx.config) then d.ctx == c.ctx && d.session.Some?
            else d.session.None? && d.ctx.settlements == c.ctx.settlements + [Rejected]
  {
    hide Do, After, Yesses;
    var again := Message(OptIn(from), Taken, true);
    RepeatedOptInAsksTwice(auto, c, from);
    AfterAppend(auto, c, [again, again], Yesses(from));
    TwoYessesFailIff(auto, After(auto, c, [again, again]), from);
  }

  // ----- How a cohort ends

  /** The last signature of the path the cohort is on. */
  predicate LastKeySignature(c: Cohort, e: Event) {
    && e.Message? && e.kind == PartialSig && e.effect == Last
    && c.session.Some? && c.session.value.phase == AwaitingPartialSigs
  }

  predicate LastFallbackSignature(c: Cohort, e: Event) {
    && e.Message? && e.kind == FallbackSig && e.effect == Last
    && c.session.Some? && c.session.value.phase == FallbackRequested
  }

  lemma CommitmentIs(c: Option<Commitment>)
    ensures c in {None, Some(Optimistic), Some(Fallback)}
  {
    if c.Some? { assert c.value.Optimistic? || c.value.Fallback?; }
  }

  /** Nothing has been settled, and the service has the cohort. */
  lemma LiveHasSession(c: Cohort)
    requires CohortOk(c) && c.ctx.live
    ensures !c.ctx.settled && c.ctx.settlements == [] && c.session.Some? && c.session.value.result.None?
    ensures c.ctx.committed == if c.session.value.phase == FallbackRequested then Some(Fallback) else None
    ensures forall how :: c.ctx.settlements + [how] == [how]
  {
    assert c.ctx.committed in {None, Some(Optimistic), Some(Fallback)} by { CommitmentIs(c.ctx.committed); }
    forall how ensures c.ctx.settlements + [how] == [how] {
      assert c.ctx.settlements == [];
    }
  }

  /**
   * The last partial signature completes a live cohort: the path is committed, the promise resolved, the state kept.
   */
  lemma LastPartialCompletes(auto: bool, c: Cohort, e: Event)
    requires CohortOk(c) && c.ctx.live && LastKeySignature(c, e)
    ensures var d := Do(auto, false, c, e);
            && d.ctx.settlements == [Completed(KeyPath)] && d.ctx.committed == Some(Optimistic)
            && d.session == Some(c.session.value.(phase := Complete, result := Some(KeyPath)))
  {
    LiveHasSession(c);
    hide CohortOk;
  }

  /** ... and the last fallback signature one that was committed to the fallback. */
  lemma LastFallbackCompletes(auto: bool, c: Cohort, e: Event)
    requires CohortOk(c) && c.ctx.live && LastFallbackSignature(c, e)
    ensures var d := Do(auto, false, c, e);
            && d.ctx.settlements == [Completed(ScriptPath)] && d.ctx.committed == Some(Fallback)
            && d.session == Some(c.session.value.(phase := Complete, result := Some(ScriptPath)))
  {
    LiveHasSession(c);
    hide CohortOk;
  }

  /** No other event completes a cohort. */
  lemma CompletesIff(auto: bool, stopped: bool, c: Cohort, e: Event)
    requires CohortOk(c) && c.ctx.live
    ensures Do(auto, stopped, c, e).ctx.settlements == [Completed(KeyPath)] <==> LastKeySignature(c, e) && !stopped
    ensures Do(auto, stopped, c, e).ctx.settlements == [Completed(ScriptPath)]
            <==> LastFallbackSignature(c, e) && !stopped
  {
    LiveHasSession(c);
    hide CohortOk;
    if !stopped && LastKeySignature(c, e) { LastPartialCompletes(auto, c, e); }
    match e
    case Message(kind, effect, ok) => HandleCompletes(c, kind, effect, ok); hide Handle;
    case Resumed(t, reply) => ResumeCompletesNothing(c, t, reply); hide Resume;
    case _ =>
  }

  /** At most a rejection was added. */
  predicate Quiet(c: Cohort) { c.ctx.settlements == [] || c.ctx.settlements == [Rejected] }

  lemma OrFailQuiet(c: Cohort, s: Option<Session>, t: Task)
    requires c.ctx.settlements == []
    ensures Quiet(Fail(c, Rejected)) && Quiet(OrFail(c, s, t))
  {
    assert [] + [Rejected] == [Rejected];
  }

  lemma OtherMessagesQuiet(c: Cohort, kind: Kind, effect: Effect, ok: bool)
    requires c.ctx.settlements == [] && !kind.PartialSig? && !kind.FallbackSig?
    ensures Quiet(Handle(c, kind, effect, ok))
  {
    if c.ctx.live && c.session.Some? {
      hide Receive, Advance, Fail, OrFail;
      var s := Receive(c.session.value, kind, effect);
      OrFailQuiet(c, None, Sending);
      if s.Some? {
        var d := c.(session := s);
        OrFailQuiet(d, Advance(s.value, UpdatesCollected, DataDistributed, ok), Sending);
        OrFailQuiet(d, Advance(s.value, NoncesCollected, AwaitingPartialSigs, ok), Sending);
      }
    }
  }

  lemma HandleCompletes(c: Cohort, kind: Kind, effect: Effect, ok: bool)
    requires !c.ctx.settled && c.ctx.live && c.ctx.settlements == [] && c.session.Some? && c.session.value.result.None?
    requires c.session.value.phase == AwaitingPartialSigs ==> c.ctx.committed == None
    ensures var e := Message(kind, effect, ok);
            && (Handle(c, kind, effect, ok).ctx.settlements == [Completed(KeyPath)] <==> LastKeySignature(c, e))
            && (Handle(c, kind, effect, ok).ctx.settlements == [Completed(ScriptPath)] <==> LastFallbackSignature(c, e))
  {
    assert [] + [Rejected] == [Rejected] && [] + [Completed(KeyPath)] == [Completed(KeyPath)];
    assert [] + [Completed(ScriptPath)] == [Completed(ScriptPath)];
    if !kind.PartialSig? && !kind.FallbackSig? {
      hide Handle;
      OtherMessagesQuiet(c, kind, effect, ok);
    } else {
      hide Advance;
    }
  }

  lemma ResumeCompletesNothing(c: Cohort, t: Task, reply: Reply)
    requires c.ctx.settlements == []
    ensures Quiet(Resume(c, t, reply))
  {
    hide Advance, FinalizeKeygen, AcceptParticipant, Full, Fail, OrFail;
    if t in c.tasks {
      var w := c.(tasks := c.tasks - multiset{t});
      OrFailQuiet(w, None, t);
      if w.session.Some? {
        var s := w.session.value;
        match t
        case OptInDecision(from) => OrFailQuiet(w, AcceptParticipant(s, w.ctx.config, from), AcceptSent);
        case FinalizeDecision =>
          var v := w.(ctx := w.ctx.(finalizeCalls := w.ctx.finalizeCalls + 1));
          OrFailQuiet(v, FinalizeKeygen(s, w.ctx.config, reply == Yes), Sending);
        case TxData => OrFailQuiet(w, Advance(s, Validated, SigningStarted, reply == Yes), Sending);
        case _ =>
      } else if t == FinalizeDecision {
        OrFailQuiet(w.(ctx := w.ctx.(finalizeCalls := w.ctx.finalizeCalls + 1)), None, t);
      }
    }
  }

  /** What ends a live cohort without completing it: time, the operator, or a stall that starts no fallback. */
  lemma TimeAndOperatorSettle(auto: bool, stopped: bool, c: Cohort, ok: bool)
    requires CohortOk(c) && c.ctx.live
    ensures Do(auto, stopped, c, TtlExpired).ctx.settlements == [Rejected]
    ensures Do(auto, stopped, c, StopCohort).ctx.settlements == [Settlement.Stopped]
    ensures var d := Do(auto, stopped, c, Stalled(ok));
            if auto && ok && c.session.value.phase in {SigningStarted, NoncesCollected, AwaitingPartialSigs} then
              && d.ctx.settlements == [] && d.ctx.committed == Some(Fallback)
              && d.session == Some(c.session.value.(phase := FallbackRequested))
            else d.ctx.settlements == [Rejected]
    ensures var d := Do(auto, stopped, c, Triggered(ok));
            if ok && c.session.value.phase in {SigningStarted, NoncesCollected, AwaitingPartialSigs} then
              && d.ctx.settlements == [] && d.ctx.committed == Some(Fallback)
              && d.session == Some(c.session.value.(phase := FallbackRequested))
            else d == c
  {
    LiveHasSession(c);
    hide CohortOk;
  }

  /** One member too few to approve fails the cohort. */
  lemma RejectedAnswersFail(auto: bool, c: Cohort, ok: bool)
    requires CohortOk(c) && c.ctx.live && c.session.value.phase == DataDistributed
    ensures var d := Do(auto, false, c, Message(Ack, LastRejected, ok));
            d.ctx.settlements == [Rejected] && d.session.None?
  {
    LiveHasSession(c);
    hide CohortOk;
  }

  /** A callback or a sending that throws fails the cohort; but not the sending of a triggered fallback. */
  lemma TaskThrowsFail(auto: bool, c: Cohort, t: Task, from: string)
    requires CohortOk(c) && c.ctx.live
    ensures t in c.tasks && t != FallbackSending(false) ==> Rejects(Do(auto, false, c, Resumed(t, Throws)))
    ensures TxData in c.tasks && c.session.value.phase == Validated ==>
              Rejects(Do(auto, false, c, Resumed(TxData, YesThenThrows)))
    ensures from in c.session.value.pending && from !in c.session.value.accepted ==>
              Rejects(Do(auto, false, c, Message(OptIn(from), Taken, false)))
  {
    LiveHasSession(c);
    hide CohortOk, Decided, Accepted, Finalized, TriggerFallback;
    var s := c.session.value;
    assert s.pending + {from} == s.pending || from !in s.pending;
  }

  /** So does the service when it throws on a message, or on the call that follows the last message of a kind. */
  lemma ServiceThrowsFail(auto: bool, c: Cohort, kind: Kind)
    requires CohortOk(c) && c.ctx.live
    requires var p := c.session.value.phase;
             || (kind == Submit && p in {CohortSet, CollectingUpdates}) || (kind == Ack && p == DataDistributed)
             || (kind == Nonce && p == SigningStarted) || (kind == PartialSig && p == AwaitingPartialSigs)
             || (kind == FallbackSig && p == FallbackRequested)
    ensures Rejects(Do(auto, false, c, Message(kind, Thrown, true)))
    ensures kind == Submit || kind == Nonce ==> Rejects(Do(auto, false, c, Message(kind, Last, false)))
  {
    LiveHasSession(c);
    hide CohortOk, Resume, TriggerFallback;
  }

  predicate Rejects(c: Cohort) { c.ctx.settlements == [Rejected] && c.session.None? && !c.ctx.live }

  // ----- Who keygen is for

  /** Past keygen there are at least as many participants as were asked for. */
  predicate EnoughOk(c: Cohort) {
    c.session.Some? && c.session.value.phase != Advertised ==>
      |c.session.value.accepted| >= c.ctx.config.minParticipants
  }

  lemma OrFailKeepsEnough(c: Cohort, s: Option<Session>, t: Task)
    requires EnoughOk(c) && (s.Some? ==> EnoughOk(c.(session := s)))
    ensures EnoughOk(Fail(c, Rejected)) && EnoughOk(OrFail(c, s, t))
  {
  }

  lemma HandleKeepsEnough(c: Cohort, kind: Kind, effect: Effect, ok: bool)
    requires EnoughOk(c)
    ensures EnoughOk(Handle(c, kind, effect, ok))
  {
    if c.ctx.live && c.session.Some? {
      var s := Receive(c.session.value, kind, effect);
      OrFailKeepsEnough(c, None, Sending);
      if s.Some? {
        var d := c.(session := s);
        assert EnoughOk(d);
        hide Receive, Fail, OrFail;
        OrFailKeepsEnough(d, Advance(s.value, UpdatesCollected, DataDistributed, ok), Sending);
        OrFailKeepsEnough(d, Advance(s.value, NoncesCollected, AwaitingPartialSigs, ok), Sending);
      }
    }
  }

  lemma ResumeKeepsEnough(c: Cohort, t: Task, reply: Reply)
    requires EnoughOk(c)
    ensures EnoughOk(Resume(c, t, reply))
  {
    if t in c.tasks {
      var w := c.(tasks := c.tasks - multiset{t});
      OrFailKeepsEnough(w, None, t);
      if w.session.Some? {
        var s := w.session.value;
        match t
        case OptInDecision(from) =>
          AcceptKeepsEnough(w, from);
          hide Fail, OrFail, AcceptParticipant;
        case FinalizeDecision =>
          var v := w.(ctx := w.ctx.(finalizeCalls := w.ctx.finalizeCalls + 1));
          OrFailKeepsEnough(v, FinalizeKeygen(s, w.ctx.config, reply == Yes), Sending);
          hide Fail, OrFail, FinalizeKeygen;
        case TxData =>
          OrFailKeepsEnough(w, Advance(s, Validated, SigningStarted, reply == Yes), Sending);
          hide Fail, OrFail, Advance;
        case _ => hide Fail, OrFail;
      }
    }
  }

  lemma AcceptKeepsEnough(c: Cohort, from: string)
    requires EnoughOk(c) && c.session.Some?
    ensures EnoughOk(OrFail(c, AcceptParticipant(c.session.value, c.ctx.config, from), AcceptSent))
  {
    var s := AcceptParticipant(c.session.value, c.ctx.config, from);
    if s.Some? { assert |s.value.accepted| == |c.session.value.accepted| + 1; }
    OrFailKeepsEnough(c, s, AcceptSent);
  }

  lemma DoKeepsEnough(auto: bool, stopped: bool, c: Cohort, e: Event)
    requires EnoughOk(c)
    ensures EnoughOk(Do(auto, stopped, c, e))
  {
    match e
    case Message(kind, effect, ok) => hide Handle; HandleKeepsEnough(c, kind, effect, ok);
    case Resumed(t, reply) => hide Resume; ResumeKeepsEnough(c, t, reply);
    case _ => hide Handle, Resume;
  }

  /** Over every run, keygen is for no fewer participants than the configuration asks for. */
  lemma {:induction false} KeygenHasEnough(auto: bool, steps: seq<Step>, id: string)
    requires id in Run(auto, steps).cohorts
    ensures EnoughOk(Run(auto, steps).cohorts[id])
  {
    hide Do, EnoughOk;
    if steps != [] {
      var r, step := Run(auto, steps[..|steps| - 1]), steps[|steps| - 1];
      if id in r.cohorts {
        KeygenHasEnough(auto, steps[..|steps| - 1], id);
        if step.At? && step.id == id { DoKeepsEnough(r.autoFallback, r.stopped, r.cohorts[id], step.event); }
        StoppedIsEnough(r.cohorts[id]);
      } else {
        NewIsEnough(step.config, step.sends);
      }
    }
  }

  lemma NewIsEnough(config: Config, sends: bool)
    ensures EnoughOk(NewCohort(config, sends))
  {
  }

  lemma StoppedIsEnough(c: Cohort)
    requires EnoughOk(c)
    ensures EnoughOk(Fail(c, Settlement.Stopped))
  {
  }

  /** A settled cohort, and a stopped runner, take no more messages; timers and the operator find nothing to settle. */
  lemma SettledIgnores(auto: bool, stopped: bool, c: Cohort, e: Event)
    requires CohortOk(c) && !e.Resumed? && (c.ctx.settled || (stopped && e.Message?))
    ensures Do(auto, stopped, c, e) == c
  {
  }

  // ----- Asking again

  /** After the operator has declined to finalize, the next acceptance asks once more, if there are enough by then. */
  lemma DeclinedAsksAgain(auto: bool, c: Cohort)
    requires c.session.Some? && FinalizeDecision in c.tasks && AcceptSent in c.tasks
    requires |c.session.value.accepted| >= c.ctx.config.minParticipants
    ensures var d := Do(auto, false, c, Resumed(FinalizeDecision, No));
            var e := Do(auto, false, d, Resumed(AcceptSent, Yes));
            && d.session == c.session && !d.ctx.finalizing && d.ctx.settlements == c.ctx.settlements
            && e.ctx.finalizing && FinalizeDecision in e.tasks
  {
    hide Handle, TriggerFallback, Decided, Finalized, Advance;
  }

  // ----- A run in which everything succeeds

  /** A participant opts in, the operator accepts, and the acceptance is sent. */
  function JoinEvents(did: string): seq<Event> {
    [Message(OptIn(did), Taken, true), Resumed(OptInDecision(did), Yes), Resumed(AcceptSent, Yes)]
  }

  function JoinAll(dids: seq<string>): seq<Event> {
    if dids == [] then [] else JoinAll(dids[..|dids| - 1]) + JoinEvents(dids[|dids| - 1])
  }

  /** From the operator's word to the last partial signature. */
  const ROUND := [Resumed(FinalizeDecision, Yes), Message(Submit, Last, true), Message(Ack, Last, true),
                  Resumed(TxData, Yes), Message(Nonce, Last, true), Message(PartialSig, Last, true)]

  /** What is not the last of its kind changes nothing, but that the first update starts the collection. */
  lemma MoreIsToCome(auto: bool, c: Cohort, kind: Kind, ok: bool)
    requires CohortOk(c) && c.ctx.live && !kind.OptIn?
    requires c.session.value.phase != Validated && c.session.value.phase != UpdatesCollected
    requires c.session.value.phase != NoncesCollected && c.session.value.phase != Failed
    ensures var d := Do(auto, false, c, Message(kind, Taken, ok));
            var s := c.session.value;
            d == if kind.Submit? && (s.phase == CohortSet || s.phase == CollectingUpdates) then
                   c.(session := Some(s.(phase := CollectingUpdates)))
                 else c
  {
    LiveHasSession(c);
    assert c.(session := Some(c.session.value)) == c;
    hide CohortOk;
  }

  /** An open cohort under way; keygen has been offered to the operator once there are enough members. */
  predicate Gathering(c: Cohort, config: Config, members: set<string>) {
    && c.ctx.live && !c.ctx.settled && c.ctx.settlements == [] && c.ctx.committed == None && c.ctx.config == config
    && c.session.Some? && c.session.value.phase == Advertised && c.session.value.accepted == members
    && c.session.value.result == None
    && (c.ctx.finalizing <==> members != {} && |members| >= config.minParticipants)
    && (c.ctx.finalizing ==> FinalizeDecision in c.tasks)
  }

  predicate HasRoom(config: Config, n: nat) {
    config.maxParticipants.Some? ==> n <= config.maxParticipants.value
  }

  lemma JoinStep(auto: bool, c: Cohort, config: Config, members: set<string>, did: string)
    requires Gathering(c, config, members) && did !in members && HasRoom(config, |members| + 1)
    ensures Gathering(After(auto, c, JoinEvents(did)), config, members + {did})
  {
    var es := JoinEvents(did);
    assert es == [es[0], es[1]] + [es[2]];
    AfterAppend(auto, c, [es[0], es[1]], [es[2]]);
    AfterTwo(auto, c, es[0], es[1]);
    OptInAsks(auto, c, did);
    var d := Do(auto, false, c, es[0]);
    YesAddsMember(auto, d, did);
    var e := Do(auto, false, d, es[1]);
    assert [es[2]][..0] == [] && After(auto, e, [es[2]]) == Do(auto, false, e, es[2]);
    hide After, Handle, TriggerFallback, Decided;
  }

  lemma {:induction false} JoinAllGathers(auto: bool, config: Config, sends: bool, dids: seq<string>)
    requires Distinct(dids) && HasRoom(config, |dids|)
    ensures Gathering(After(auto, NewCohort(config, sends), JoinAll(dids)), config, Members(dids))
    ensures |Members(dids)| == |dids|
  {
    hide Gathering, JoinEvents;
    if dids == [] {
      StartsGathering(auto, config, sends);
    } else {
      var init, last := dids[..|dids| - 1], dids[|dids| - 1];
      JoinAllGathers(auto, config, sends, init);
      assert dids == init + [last];
      assert Members(dids) == Members(init) + {last} && last !in Members(init);
      AfterAppend(auto, NewCohort(config, sends), JoinAll(init), JoinEvents(last));
      JoinStep(auto, After(auto, NewCohort(config, sends), JoinAll(init)), config, Members(init), last);
    }
  }

  lemma StartsGathering(auto: bool, config: Config, sends: bool)
    ensures Gathering(After(auto, NewCohort(config, sends), JoinAll([])), config, Members([]))
  {
  }

  ghost function Members(dids: seq<string>): set<string> { set did | did in dids }

  /** The same events as steps of the runner. */
  function Steps(id: string, events: seq<Event>): (steps: seq<Step>)
    ensures |steps| == |events| && forall k :: 0 <= k < |steps| ==> steps[k] == At(id, events[k])
  {
    seq(|events|, k requires 0 <= k < |events| => At(id, events[k]))
  }

  lemma {:induction false} RunIsAfter(auto: bool, id: string, config: Config, sends: bool, events: seq<Event>)
    ensures var r := Run(auto, [Advertise(id, config, sends)] + Steps(id, events));
            && r.autoFallback == auto && !r.stopped && id in r.cohorts
            && r.cohorts[id] == After(auto, NewCohort(config, sends), events)
  {
    var first := [Advertise(id, config, sends)];
    if events == [] {
      assert first + Steps(id, []) == first && first[..0] == [];
      assert Run(auto, first[..0]) == Runner(auto, false, map[]);
    } else {
      var init := events[..|events| - 1];
      RunIsAfter(auto, id, config, sends, init);
      var steps := first + Steps(id, events);
      assert steps[..|steps| - 1] == first + Steps(id, init) && steps[|steps| - 1] == At(id, events[|events| - 1]);
      hide Do;
    }
  }

  predicate Committing(c: Cohort, members: set<string>, phase: Phase) {
    && c.ctx.live && !c.ctx.settled && c.ctx.settlements == [] && c.ctx.committed == None
    && c.session.Some? && c.session.value.phase == phase && c.session.value.accepted == members
    && c.session.value.result == None
  }

  lemma RoundCompletes(auto: bool, c: Cohort, config: Config, members: set<string>)
    requires Gathering(c, config, members) && c.ctx.finalizing && HasRoom(config, |members|)
    ensures var d := After(auto, c, ROUND);
            && d.ctx.settlements == [Completed(KeyPath)] && d.ctx.committed == Some(Optimistic)
            && d.session.Some? && d.session.value.phase == Complete && d.session.value.accepted == members
  {
    var es := ROUND;
    assert es == [es[0], es[1]] + ([es[2], es[3]] + [es[4], es[5]]);
    AfterAppend(auto, c, [es[0], es[1]], [es[2], es[3]] + [es[4], es[5]]);
    AfterTwo(auto, c, es[0], es[1]);
    var c2 := After(auto, c, [es[0], es[1]]);
    AfterAppend(auto, c2, [es[2], es[3]], [es[4], es[5]]);
    AfterTwo(auto, c2, es[2], es[3]);
    var c4 := After(auto, c2, [es[2], es[3]]);
    AfterTwo(auto, c4, es[4], es[5]);
    hide After;
    KeygenStep(auto, c, config, members);
    var c1 := Do(auto, false, c, es[0]);
    SubmitStep(auto, c1, members);
    AckStep(auto, c2, members);
    var c3 := Do(auto, false, c2, es[2]);
    TxStep(auto, c3, members);
    NonceStep(auto, c4, members);
    PartialStep(auto, Do(auto, false, c4, es[4]), members);
  }

  lemma KeygenStep(auto: bool, c: Cohort, config: Config, members: set<string>)
    requires Gathering(c, config, members) && c.ctx.finalizing && HasRoom(config, |members|)
    ensures Committing(Do(auto, false, c, Resumed(FinalizeDecision, Yes)), members, CohortSet)
  {
    hide Handle, TriggerFallback, Decided, Accepted;
  }

  lemma SubmitStep(auto: bool, c: Cohort, members: set<string>)
    requires Committing(c, members, CohortSet) || Committing(c, members, CollectingUpdates)
    ensures Committing(Do(auto, false, c, Message(Submit, Last, true)), members, DataDistributed)
  {
    hide Resume, TriggerFallback;
  }

  lemma AckStep(auto: bool, c: Cohort, members: set<string>)
    requires Committing(c, members, DataDistributed)
    ensures var d := Do(auto, false, c, Message(Ack, Last, true));
            Committing(d, members, Validated) && TxData in d.tasks
  {
    hide Resume, TriggerFallback;
  }

  lemma TxStep(auto: bool, c: Cohort, members: set<string>)
    requires Committing(c, members, Validated) && TxData in c.tasks
    ensures Committing(Do(auto, false, c, Resumed(TxData, Yes)), members, SigningStarted)
  {
    hide Handle, TriggerFallback, Decided, Accepted, Finalized;
  }

  lemma NonceStep(auto: bool, c: Cohort, members: set<string>)
    requires Committing(c, members, SigningStarted)
    ensures Committing(Do(auto, false, c, Message(Nonce, Last, true)), members, AwaitingPartialSigs)
  {
    hide Resume, TriggerFallback;
  }

  lemma PartialStep(auto: bool, c: Cohort, members: set<string>)
    requires Committing(c, members, AwaitingPartialSigs)
    ensures var d := Do(auto, false, c, Message(PartialSig, Last, true));
            && d.ctx.settlements == [Completed(KeyPath)] && d.ctx.committed == Some(Optimistic)
            && d.session.Some? && d.session.value.phase == Complete && d.session.value.accepted == members
  {
    hide Resume, TriggerFallback;
  }

  /**
   * The run from the advertisement to completion: enough participants, no more than fit, opt in and are accepted, the
   * operator finalizes, and every callback and call succeeds. The cohort is completed by the key path, once, with
   * exactly these participants.
   */
  lemma HonestRunCompletes(auto: bool, id: string, config: Config, sends: bool, dids: seq<string>)
    requires dids != [] && Distinct(dids) && config.minParticipants <= |dids| && HasRoom(config, |dids|)
    ensures var r := Run(auto, [Advertise(id, config, sends)] + Steps(id, JoinAll(dids) + ROUND));
            && id in r.cohorts
            && var c := r.cohorts[id];
               && c.ctx.settlements == [Completed(KeyPath)] && c.ctx.committed == Some(Optimistic)
               && c.session.Some? && c.session.value.phase == Complete && c.session.value.accepted == Members(dids)
  {
    RunIsAfter(auto, id, config, sends, JoinAll(dids) + ROUND);
    AfterAppend(auto, NewCohort(config, sends), JoinAll(dids), ROUND);
    JoinAllGathers(auto, config, sends, dids);
    hide Run, After, JoinAll;
    assert dids[0] in Members(dids);
    RoundCompletes(auto, After(auto, NewCohort(config, sends), JoinAll(dids)), config, Members(dids));
  }
}
