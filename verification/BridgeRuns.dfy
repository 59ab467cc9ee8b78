/**
 * The bridge as a state machine whose steps are the code's critical sections,
 * freely interleaved: a run is any sequence of steps, and a step that its
 * request is not ready for does nothing. Theorems speak about runs from the
 * daemon's start.
 */
module BridgeRuns {
  import opened Common
  import opened ConstantTime
  import opened RateLimit
  import opened Bridge
  import Envelope

  type Rid = nat

  datatype Route = ToStatus | ToUnwrap | ToRevokeOne | ToRevokeAll

  /** Where a request is between its critical sections. */
  datatype Phase =
    | Cleared(route: Route, bearer: Octets)
    | ChargedUnwrap
    | PairCleared
    | PairPending(presented: Octets)
    | PairWon
    | PairStored
    | Done

  datatype Step =
    | Tick(now: Time)
    | Issue(code: Octets)
    | Guard(rid: Rid, route: Route, origin: Option<Octets>, bearer: Option<Octets>, nonce: Option<Octets>)
    | GuardPair(rid: Rid, origin: Option<Octets>)
    | PairOpen(rid: Rid, rawCode: Octets)
    | PairConsume(rid: Rid)
    | PairRegister(rid: Rid, newBearer: Octets, device: Octets, rawNonce: Option<Octets>)
    | PairFinish(rid: Rid)
    | Charge(rid: Rid)
    | Finish(rid: Rid, encryptedKey: string)
    | StatusRun(rid: Rid)
    | RevokeOne(rid: Rid)
    | RevokeAll(rid: Rid)

  /** Daemon state, the in-flight requests, and a ledger of what has ever happened. */
  datatype State = State(
    slot: Option<PairingCode>,
    tokens: Tokens,
    buckets: Buckets,
    audit: seq<Event>,
    clock: Time,
    phase: map<Rid, Phase>,
    minted: set<Digest>,
    quota: seq<Time>,
    issued: nat,
    consumed: nat,
    registered: nat,
    released: nat)

  const INITIAL := State(None, map[], Buckets([], []), [], 0, map[], {}, [], 0, 0, 0, 0)

  predicate InPhase(s: State, rid: Rid, p: Phase) {
    rid in s.phase && s.phase[rid] == p
  }

  /** A step its request is ready for; a minted bearer is one never minted before. */
  predicate Enabled(cfg: Config, s: State, step: Step) {
    match step
    case Tick(now) => s.clock <= now
    case Issue(_) => true
    case Guard(rid, _, _, _, _) => rid !in s.phase
    case GuardPair(rid, _) => rid !in s.phase
    case PairOpen(rid, _) => InPhase(s, rid, PairCleared)
    case PairConsume(rid) => rid in s.phase && s.phase[rid].PairPending?
    case PairRegister(rid, bearer, _, _) => InPhase(s, rid, PairWon) && cfg.sha(bearer) !in s.minted
    case PairFinish(rid) => InPhase(s, rid, PairStored)
    case Charge(rid) => rid in s.phase && s.phase[rid].Cleared? && s.phase[rid].route == ToUnwrap
    case Finish(rid, _) => InPhase(s, rid, ChargedUnwrap) && cfg.encryptionSecret.Some?
    case StatusRun(rid) => rid in s.phase && s.phase[rid].Cleared? && s.phase[rid].route == ToStatus
    case RevokeOne(rid) => rid in s.phase && s.phase[rid].Cleared? && s.phase[rid].route == ToRevokeOne
    case RevokeAll(rid) => rid in s.phase && s.phase[rid].Cleared? && s.phase[rid].route == ToRevokeAll
  }

  function RouteKind(route: Route): Kind {
    match route
    case ToStatus => StatusProbe
    case ToUnwrap => Decrypt
    case _ => PairRevoked
  }

  function Unwrapped(cfg: Config, encryptedKey: string): Result<string, Envelope.Failure>
    requires cfg.encryptionSecret.Some?
  {
    Envelope.DaemonUnwrap(cfg.suite, cfg.encryptionSecret.value, encryptedKey)
  }

  function Normalised(rawCode: Octets): Octets {
    Upper(Trimmed(rawCode))
  }

  function ConsumeNow(s: State, rid: Rid): (Option<PairingCode>, bool)
    requires rid in s.phase && s.phase[rid].PairPending?
  {
    Consume(s.slot, s.phase[rid].presented, s.clock)
  }

  function ChargeNow(cfg: Config, s: State): (Buckets, Reply) {
    RateLimit.Step(s.buckets, Check(s.clock), cfg.caps)
  }

  predicate ChargeAccepted(cfg: Config, s: State) {
    cfg.encryptionSecret.Some? && ChargeNow(cfg, s).1.Accepted?
  }

  /** The audit events of a step. */
  function Emits(cfg: Config, s: State, step: Step): seq<Event>
    requires Enabled(cfg, s, step)
  {
    match step
    case Guard(_, route, origin, bearer, nonce) =>
      var verdict := GuardVerdict(cfg, s.tokens, origin, bearer, nonce);
      if verdict.Err? then [Event(RouteKind(route), verdict.error)] else []
    case GuardPair(_, origin) =>
      if OriginText(origin) != cfg.allowedOrigin then [Event(PairRequested, ForbiddenOrigin)] else []
    case PairOpen(_, rawCode) =>
      if Normalised(rawCode) == [] then [Event(PairRequested, Fine), Event(PairFailed, Unauthorized)]
      else [Event(PairRequested, Fine)]
    case PairConsume(rid) => if ConsumeNow(s, rid).1 then [] else [Event(PairFailed, Unauthorized)]
    case PairFinish(_) => [Event(PairSucceeded, Fine)]
    case Charge(_) =>
      if cfg.encryptionSecret.None? then [Event(Decrypt, Disabled)]
      else if ChargeAccepted(cfg, s) then [] else [Event(Decrypt, RateLimited)]
    case Finish(_, encryptedKey) => [Event(Decrypt, UnwrapOutcome(Unwrapped(cfg, encryptedKey)))]
    case StatusRun(_) => [Event(StatusProbe, Fine)]
    case RevokeOne(rid) =>
      [Event(PairRevoked, if cfg.sha(s.phase[rid].bearer) in s.tokens then Fine else NoMatch)]
    case RevokeAll(_) => [Event(PairRevoked, Fine)]
    case _ => []
  }

  /** Where the step leaves its request. */
  function Moves(cfg: Config, s: State, step: Step): Phase
    requires Enabled(cfg, s, step) && !step.Tick? && !step.Issue?
  {
    match step
    case Guard(_, route, origin, bearer, nonce) =>
      if GuardVerdict(cfg, s.tokens, origin, bearer, nonce).Ok? && bearer.Some? then Cleared(route, bearer.value)
      else Done
    case GuardPair(_, origin) => if OriginText(origin) == cfg.allowedOrigin then PairCleared else Done
    case PairOpen(_, rawCode) => if Normalised(rawCode) == [] then Done else PairPending(Normalised(rawCode))
    case PairConsume(rid) => if ConsumeNow(s, rid).1 then PairWon else Done
    case PairRegister(_, _, _, _) => PairStored
    case Charge(_) => if ChargeAccepted(cfg, s) then ChargedUnwrap else Done
    case _ => Done
  }

  function Next(cfg: Config, s: State, step: Step): State {
    if !Enabled(cfg, s, step) then s
    else if step.Tick? then s.(clock := step.now)
    else if step.Issue? then s.(slot := Some(PairingCode(step.code, s.clock + cfg.codeTtl)), issued := s.issued + 1)
    else
      var t := s.(audit := s.audit + Emits(cfg, s, step), phase := s.phase[step.rid := Moves(cfg, s, step)]);
      match step
      case PairConsume(rid) =>
        var (slot, ok) := ConsumeNow(s, rid);
        t.(slot := slot, consumed := s.consumed + if ok then 1 else 0)
      case PairRegister(_, bearer, device, rawNonce) =>
        t.(tokens := Register(cfg, s.tokens, bearer, device, BoundNonce(rawNonce)),
           minted := s.minted + {cfg.sha(bearer)}, registered := s.registered + 1)
      case Charge(_) =>
        if cfg.encryptionSecret.None? then t
        else if ChargeAccepted(cfg, s) then t.(buckets := ChargeNow(cfg, s).0, quota := s.quota + [s.clock])
        else t.(buckets := ChargeNow(cfg, s).0)
      case Finish(_, encryptedKey) => t.(released := s.released + if Unwrapped(cfg, encryptedKey).Ok? then 1 else 0)
      case StatusRun(_) => t.(buckets := Pruned(s.buckets, s.clock))
      case RevokeOne(rid) => t.(tokens := s.tokens - {cfg.sha(s.phase[rid].bearer)})
      case RevokeAll(_) => t.(tokens := map[])
      case _ => t
  }

  function After(cfg: Config, steps: seq<Step>): State {
    if steps == [] then INITIAL else Next(cfg, After(cfg, steps[..|steps| - 1]), steps[|steps| - 1])
  }

  // ------------------------------------------------------------------
  // The handlers are their steps
  // ------------------------------------------------------------------

  function PairSteps(cfg: Config, s: State, rid: Rid, rawCode: Octets, bearer: Octets, device: Octets,
                     rawNonce: Option<Octets>): State {
    var asked := Next(cfg, s, PairOpen(rid, rawCode));
    var consumed := Next(cfg, asked, PairConsume(rid));
    Next(cfg, Next(cfg, consumed, PairRegister(rid, bearer, device, rawNonce)), PairFinish(rid))
  }

  lemma OpenStep(cfg: Config, s: State, rid: Rid, rawCode: Octets)
    requires InPhase(s, rid, PairCleared) && Normalised(rawCode) != []
    ensures Next(cfg, s, PairOpen(rid, rawCode)) ==
            s.(audit := s.audit + [Event(PairRequested, Fine)],
                phase := s.phase[rid := PairPending(Normalised(rawCode))])
  {
  }

  lemma ConsumeStep(cfg: Config, s: State, rid: Rid, code: Octets)
    requires InPhase(s, rid, PairPending(code))
    ensures var t, won := Next(cfg, s, PairConsume(rid)), Consume(s.slot, code, s.clock).1;
            && t.slot == Consume(s.slot, code, s.clock).0 && t.tokens == s.tokens && t.minted == s.minted
            && t.audit == s.audit + (if won then [] else [Event(PairFailed, Unauthorized)])
            && t.phase == s.phase[rid := if won then PairWon else Done]
  {
  }

  /** Registering and answering a winner. */
  lemma StoreSteps(cfg: Config, s: State, rid: Rid, bearer: Octets, device: Octets, rawNonce: Option<Octets>)
    requires InPhase(s, rid, PairWon) && cfg.sha(bearer) !in s.minted
    ensures var t := Next(cfg, Next(cfg, s, PairRegister(rid, bearer, device, rawNonce)), PairFinish(rid));
            && t.slot == s.slot && t.tokens == Register(cfg, s.tokens, bearer, device, BoundNonce(rawNonce))
            && t.audit == s.audit + [Event(PairSucceeded, Fine)]
            && t.phase == s.phase[rid := Done]
  {
    var stored := Next(cfg, s, PairRegister(rid, bearer, device, rawNonce));
    assert stored.audit == s.audit && InPhase(stored, rid, PairStored);
  }

  lemma LostSteps(cfg: Config, s: State, rid: Rid, bearer: Octets, device: Octets, rawNonce: Option<Octets>)
    requires InPhase(s, rid, Done)
    ensures Next(cfg, Next(cfg, s, PairRegister(rid, bearer, device, rawNonce)), PairFinish(rid)) == s
  {
    Settled(cfg, s, PairRegister(rid, bearer, device, rawNonce), rid);
    Settled(cfg, s, PairFinish(rid), rid);
  }

  lemma EmptyCodeStep(cfg: Config, s: State, rid: Rid, rawCode: Octets)
    requires InPhase(s, rid, PairCleared) && Normalised(rawCode) == []
    ensures Next(cfg, s, PairOpen(rid, rawCode)) ==
            s.(audit := s.audit + [Event(PairRequested, Fine), Event(PairFailed, Unauthorized)],
                phase := s.phase[rid := Done])
  {
  }

  /** Run back to back, the steps of a pairing do what the handler's contract says. */
  lemma PairStepsAreHandler(cfg: Config, s: State, rid: Rid, rawCode: Octets, bearer: Octets, device: Octets,
                            rawNonce: Option<Octets>)
    requires InPhase(s, rid, PairCleared) && cfg.sha(bearer) !in s.minted
    ensures var t := PairSteps(cfg, s, rid, rawCode, bearer, device, rawNonce);
            var code := Normalised(rawCode);
            var won := code != [] && Consume(s.slot, code, s.clock).1;
            && t.slot == (if code == [] then s.slot else Consume(s.slot, code, s.clock).0)
            && t.tokens == (if won then Register(cfg, s.tokens, bearer, device, BoundNonce(rawNonce)) else s.tokens)
            && t.audit == s.audit + [Event(PairRequested, Fine),
                                     if won then Event(PairSucceeded, Fine) else Event(PairFailed, Unauthorized)]
            && t.phase == s.phase[rid := Done]
  {
    var code := Normalised(rawCode);
    var asked := Next(cfg, s, PairOpen(rid, rawCode));
    var consumed := Next(cfg, asked, PairConsume(rid));
    if code == [] {
      EmptyCodeStep(cfg, s, rid, rawCode);
      Settled(cfg, asked, PairConsume(rid), rid);
      LostSteps(cfg, consumed, rid, bearer, device, rawNonce);
    } else {
      OpenStep(cfg, s, rid, rawCode);
      ConsumeStep(cfg, asked, rid, code);
      if Consume(s.slot, code, s.clock).1 {
        StoreSteps(cfg, consumed, rid, bearer, device, rawNonce);
      } else {
        LostSteps(cfg, consumed, rid, bearer, device, rawNonce);
      }
    }
  }

  /** Charging an unwrap request: the reference limiter decides, and only a refusal is audited at once. */
  lemma ChargeStep(cfg: Config, s: State, last: Time, rid: Rid, bearer: Octets)
    requires InPhase(s, rid, Cleared(ToUnwrap, bearer)) && cfg.encryptionSecret.Some?
    requires last <= s.clock && Represents(s.buckets, s.quota, last, cfg.caps)
    ensures var t, ok := Next(cfg, s, Charge(rid)), RefReply(s.quota, Check(s.clock), cfg.caps).Accepted?;
            && t.quota == RefHistory(s.quota, Check(s.clock), cfg.caps) && t.released == s.released
            && t.audit == s.audit + (if ok then [] else [Event(Decrypt, RateLimited)])
            && t.phase == s.phase[rid := if ok then ChargedUnwrap else Done]
  {
    StepAgrees(s.buckets, s.quota, last, Check(s.clock), cfg.caps);
  }

  lemma FinishStep(cfg: Config, s: State, rid: Rid, encryptedKey: string)
    requires InPhase(s, rid, ChargedUnwrap) && cfg.encryptionSecret.Some?
    ensures var t, r := Next(cfg, s, Finish(rid, encryptedKey)), Unwrapped(cfg, encryptedKey);
            && t.quota == s.quota && t.released == s.released + (if r.Ok? then 1 else 0)
            && t.audit == s.audit + [Event(Decrypt, UnwrapOutcome(r))]
            && t.phase == s.phase[rid := Done]
  {
  }

  /** Run back to back, charging and finishing an unwrap do what the handler's contract says. */
  lemma UnwrapStepsAreHandler(cfg: Config, s: State, last: Time, rid: Rid, bearer: Octets, encryptedKey: string)
    requires InPhase(s, rid, Cleared(ToUnwrap, bearer)) && cfg.encryptionSecret.Some?
    requires last <= s.clock && Represents(s.buckets, s.quota, last, cfg.caps)
    ensures var t := Next(cfg, Next(cfg, s, Charge(rid)), Finish(rid, encryptedKey));
            var reply := RefReply(s.quota, Check(s.clock), cfg.caps);
            var r := Unwrapped(cfg, encryptedKey);
            && t.quota == RefHistory(s.quota, Check(s.clock), cfg.caps)
            && t.audit == s.audit + [Event(Decrypt, if !reply.Accepted? then RateLimited else UnwrapOutcome(r))]
            && t.released == s.released + (if reply.Accepted? && r.Ok? then 1 else 0)
            && t.phase == s.phase[rid := Done]
  {
    var charged := Next(cfg, s, Charge(rid));
    ChargeStep(cfg, s, last, rid, bearer);
    if RefReply(s.quota, Check(s.clock), cfg.caps).Accepted? {
      assert charged.audit == s.audit;
      FinishStep(cfg, charged, rid, encryptedKey);
    } else {
      Settled(cfg, charged, Finish(rid, encryptedKey), rid);
    }
  }

  /** A request that is done takes no further step. */
  lemma Settled(cfg: Config, s: State, step: Step, rid: Rid)
    requires InPhase(s, rid, Done) && !step.Tick? && !step.Issue? && step.rid == rid
    ensures Next(cfg, s, step) == s
  {
  }

  // ------------------------------------------------------------------
  // Conservation
  // ------------------------------------------------------------------

  function Count(audit: seq<Event>, event: Event): nat {
    if audit == [] then 0 else
      Count(audit[..|audit| - 1], event) + if audit[|audit| - 1] == event then 1 else 0
  }

  datatype Stage = InCharge | InPairing | InWon | InStored | Elsewhere

  function StageOf(p: Phase): Stage {
    match p
    case ChargedUnwrap => InCharge
    case PairPending(_) => InPairing
    case PairWon => InWon
    case PairStored => InStored
    case _ => Elsewhere
  }

  function Members(phase: map<Rid, Phase>, stage: Stage): set<Rid> {
    set rid | rid in phase && StageOf(phase[rid]) == stage
  }

  function Here(p: Phase, stage: Stage): nat {
    if StageOf(p) == stage then 1 else 0
  }

  lemma MembersMove(phase: map<Rid, Phase>, rid: Rid, p: Phase, stage: Stage)
    ensures |Members(phase[rid := p], stage)| ==
            |Members(phase, stage)| - (if rid in phase then Here(phase[rid], stage) else 0) + Here(p, stage)
  {
    var others := Members(phase, stage) - {rid};
    MembersAfter(phase, rid, p, stage);
    if rid in phase {
      assert phase[rid := phase[rid]] == phase;
      MembersAfter(phase, rid, phase[rid], stage);
    } else {
      assert Members(phase, stage) == others;
    }
  }

  lemma MembersAfter(phase: map<Rid, Phase>, rid: Rid, p: Phase, stage: Stage)
    ensures |Members(phase[rid := p], stage)| == |Members(phase, stage) - {rid}| + Here(p, stage)
  {
    var others := Members(phase, stage) - {rid};
    assert Members(phase[rid := p], stage) == if StageOf(p) == stage then others + {rid} else others;
  }

  function InFlight(s: State, stage: Stage): nat {
    |Members(s.phase, stage)|
  }

  ghost predicate DecryptLedger(s: State) {
    && |s.quota| == ChargedEvents(s.audit) + InFlight(s, InCharge)
    && s.released == Count(s.audit, Event(Decrypt, Fine))
  }

  ghost predicate PairAudit(s: State) {
    && Count(s.audit, Event(PairRequested, Fine)) ==
       Count(s.audit, Event(PairFailed, Unauthorized)) + Count(s.audit, Event(PairSucceeded, Fine))
       + InFlight(s, InPairing) + InFlight(s, InWon) + InFlight(s, InStored)
    && s.registered == Count(s.audit, Event(PairSucceeded, Fine)) + InFlight(s, InStored)
  }

  ghost predicate PairLedger(s: State) {
    && s.consumed == s.registered + InFlight(s, InWon)
    && s.consumed + (if s.slot.Some? then 1 else 0) <= s.issued
    && |s.tokens| <= s.registered
    && s.tokens.Keys <= s.minted
  }

  ghost predicate LimiterLedger(cfg: Config, s: State) {
    exists last: Time :: last <= s.clock && Represents(s.buckets, s.quota, last, cfg.caps)
  }

  lemma {:induction false} CountAppend(audit: seq<Event>, more: seq<Event>, event: Event)
    ensures Count(audit + more, event) == Count(audit, event) + Count(more, event)
  {
    if more == [] {
      assert audit + more == audit;
    } else {
      assert (audit + more)[..|audit + more| - 1] == audit + more[..|more| - 1];
      CountAppend(audit, more[..|more| - 1], event);
    }
  }

  lemma CountSmall(e: Event, f: Event, event: Event)
    ensures Count([], event) == 0
    ensures Count([e], event) == if e == event then 1 else 0
    ensures Count([e, f], event) == (if e == event then 1 else 0) + if f == event then 1 else 0
  {
    assert [e][..0] == [];
    assert [e, f][..1] == [e];
  }

  /** Decrypt events with one of the outcomes that follow a charge. */
  function ChargedEvents(audit: seq<Event>): nat {
    Count(audit, Event(Decrypt, Fine)) + Count(audit, Event(Decrypt, BadRequest))
    + Count(audit, Event(Decrypt, DaemonError))
  }

  lemma CountEvents(events: seq<Event>, event: Event)
    requires |events| <= 2
    ensures Count(events, event) == (if |events| >= 1 && events[0] == event then 1 else 0)
                                    + if |events| == 2 && events[1] == event then 1 else 0
  {
    if |events| == 1 {
      CountSmall(events[0], events[0], event);
      assert events == [events[0]];
    } else if |events| == 2 {
      CountSmall(events[0], events[1], event);
      assert events == [events[0], events[1]];
    }
  }

  /** Only finishing an unwrap emits an event that answers for a charge. */
  lemma EmitsDecrypt(cfg: Config, s: State, step: Step)
    requires Enabled(cfg, s, step)
    ensures ChargedEvents(Emits(cfg, s, step)) == if step.Finish? then 1 else 0
    ensures Count(Emits(cfg, s, step), Event(Decrypt, Fine)) ==
            if step.Finish? && Unwrapped(cfg, step.encryptedKey).Ok? then 1 else 0
  {
    var e := Emits(cfg, s, step);
    CountEvents(e, Event(Decrypt, Fine));
    CountEvents(e, Event(Decrypt, BadRequest));
    CountEvents(e, Event(Decrypt, DaemonError));
  }

  lemma EmitsPair(cfg: Config, s: State, step: Step)
    requires Enabled(cfg, s, step)
    ensures Count(Emits(cfg, s, step), Event(PairRequested, Fine)) == if step.PairOpen? then 1 else 0
    ensures Count(Emits(cfg, s, step), Event(PairSucceeded, Fine)) == if step.PairFinish? then 1 else 0
    ensures Count(Emits(cfg, s, step), Event(PairFailed, Unauthorized)) ==
            if (step.PairOpen? || step.PairConsume?) && Moves(cfg, s, step) == Done then 1 else 0
  {
    var e := Emits(cfg, s, step);
    CountEvents(e, Event(PairRequested, Fine));
    CountEvents(e, Event(PairSucceeded, Fine));
    CountEvents(e, Event(PairFailed, Unauthorized));
  }

  lemma FlightMoves(cfg: Config, s: State, step: Step, stage: Stage)
    requires Enabled(cfg, s, step) && !step.Tick? && !step.Issue?
    ensures InFlight(Next(cfg, s, step), stage) ==
            InFlight(s, stage) - (if step.rid in s.phase then Here(s.phase[step.rid], stage) else 0)
            + Here(Moves(cfg, s, step), stage)
  {
    MembersMove(s.phase, step.rid, Moves(cfg, s, step), stage);
  }

  predicate OfRequest(cfg: Config, s: State, step: Step) {
    Enabled(cfg, s, step) && !step.Tick? && !step.Issue?
  }

  lemma NextShape(cfg: Config, s: State, step: Step)
    requires OfRequest(cfg, s, step)
    ensures var t := Next(cfg, s, step);
            && t.audit == s.audit + Emits(cfg, s, step)
            && t.quota == (if step.Charge? && ChargeAccepted(cfg, s) then s.quota + [s.clock] else s.quota)
            && t.released == s.released + (if step.Finish? && Unwrapped(cfg, step.encryptedKey).Ok? then 1 else 0)
            && t.registered == s.registered + (if step.PairRegister? then 1 else 0)
            && t.consumed == s.consumed + (if step.PairConsume? && ConsumeNow(s, step.rid).1 then 1 else 0)
            && t.issued == s.issued && t.clock == s.clock
            && t.slot == (if step.PairConsume? then ConsumeNow(s, step.rid).0 else s.slot)
  {
  }

  lemma ChargedDelta(cfg: Config, s: State, step: Step)
    requires OfRequest(cfg, s, step)
    ensures var t := Next(cfg, s, step);
            && ChargedEvents(t.audit) == ChargedEvents(s.audit) + (if step.Finish? then 1 else 0)
            && Count(t.audit, Event(Decrypt, Fine)) == Count(s.audit, Event(Decrypt, Fine))
               + (if step.Finish? && Unwrapped(cfg, step.encryptedKey).Ok? then 1 else 0)
  {
    var e := Emits(cfg, s, step);
    NextShape(cfg, s, step);
    EmitsDecrypt(cfg, s, step);
    CountAppend(s.audit, e, Event(Decrypt, Fine));
    CountAppend(s.audit, e, Event(Decrypt, BadRequest));
    CountAppend(s.audit, e, Event(Decrypt, DaemonError));
  }

  /** Requests charged and not yet finished. */
  lemma ChargeFlight(cfg: Config, s: State, step: Step)
    requires OfRequest(cfg, s, step)
    ensures InFlight(Next(cfg, s, step), InCharge) ==
            InFlight(s, InCharge) + (if step.Charge? && ChargeAccepted(cfg, s) then 1 else 0)
            - (if step.Finish? then 1 else 0)
  {
    FlightMoves(cfg, s, step, InCharge);
  }

  lemma DecryptLedgerKept(cfg: Config, s: State, step: Step)
    requires DecryptLedger(s)
    ensures DecryptLedger(Next(cfg, s, step))
  {
    if OfRequest(cfg, s, step) {
      NextShape(cfg, s, step);
      ChargedDelta(cfg, s, step);
      ChargeFlight(cfg, s, step);
    }
  }

  lemma PairDelta(cfg: Config, s: State, step: Step)
    requires OfRequest(cfg, s, step)
    ensures var t := Next(cfg, s, step);
            && Count(t.audit, Event(PairRequested, Fine)) == Count(s.audit, Event(PairRequested, Fine))
                + (if step.PairOpen? then 1 else 0)
            && Count(t.audit, Event(PairSucceeded, Fine)) == Count(s.audit, Event(PairSucceeded, Fine))
                + (if step.PairFinish? then 1 else 0)
            && Count(t.audit, Event(PairFailed, Unauthorized)) == Count(s.audit, Event(PairFailed, Unauthorized))
               + (if (step.PairOpen? || step.PairConsume?) && Moves(cfg, s, step) == Done then 1 else 0)
  {
    var e := Emits(cfg, s, step);
    NextShape(cfg, s, step);
    EmitsPair(cfg, s, step);
    CountAppend(s.audit, e, Event(PairRequested, Fine));
    CountAppend(s.audit, e, Event(PairFailed, Unauthorized));
    CountAppend(s.audit, e, Event(PairSucceeded, Fine));
  }

  /**
   * Requests between opening a pairing and its verdict, between winning and
   * storing, and between storing and answering.
   */
  lemma PairFlight(cfg: Config, s: State, step: Step)
    requires OfRequest(cfg, s, step)
    ensures var t := Next(cfg, s, step);
            && InFlight(t, InPairing) == InFlight(s, InPairing)
               + (if step.PairOpen? && Moves(cfg, s, step) != Done then 1 else 0) - (if step.PairConsume? then 1 else 0)
            && InFlight(t, InWon) == InFlight(s, InWon)
               + (if step.PairConsume? && Moves(cfg, s, step) != Done then 1 else 0)
               - (if step.PairRegister? then 1 else 0)
            && InFlight(t, InStored) == InFlight(s, InStored)
               + (if step.PairRegister? then 1 else 0) - (if step.PairFinish? then 1 else 0)
  {
    FlightMoves(cfg, s, step, InPairing);
    FlightMoves(cfg, s, step, InWon);
    FlightMoves(cfg, s, step, InStored);
  }

  lemma PairAuditKept(cfg: Config, s: State, step: Step)
    requires PairAudit(s)
    ensures PairAudit(Next(cfg, s, step))
  {
    if OfRequest(cfg, s, step) {
      NextShape(cfg, s, step);
      PairDelta(cfg, s, step);
      PairFlight(cfg, s, step);
    }
  }

  lemma PairLedgerKept(cfg: Config, s: State, step: Step)
    requires PairLedger(s)
    ensures PairLedger(Next(cfg, s, step))
  {
    if OfRequest(cfg, s, step) {
      NextShape(cfg, s, step);
      PairFlight(cfg, s, step);
      TokensMove(cfg, s, step);
    }
  }

  /** How a step changes the inventory and the ledger of bearers minted. */
  ghost predicate InventoryMove(cfg: Config, s: State, step: Step, t: State)
    requires OfRequest(cfg, s, step)
  {
    && t.minted == (if step.PairRegister? then s.minted + {cfg.sha(step.newBearer)} else s.minted)
    && (step.PairRegister? ==>
          t.tokens == Register(cfg, s.tokens, step.newBearer, step.device, BoundNonce(step.rawNonce)))
    && (step.RevokeOne? ==> t.tokens == s.tokens - {cfg.sha(s.phase[step.rid].bearer)})
    && (step.RevokeAll? ==> t.tokens == map[])
    && (!step.PairRegister? && !step.RevokeOne? && !step.RevokeAll? ==> t.tokens == s.tokens)
  }

  lemma InventoryShape(cfg: Config, s: State, step: Step)
    requires OfRequest(cfg, s, step)
    ensures InventoryMove(cfg, s, step, Next(cfg, s, step))
  {
  }

  /** The inventory grows by one exactly at a registration, and otherwise only shrinks. */
  lemma MoveCounts(cfg: Config, s: State, step: Step, t: State)
    requires OfRequest(cfg, s, step) && s.tokens.Keys <= s.minted && InventoryMove(cfg, s, step, t)
    ensures |t.tokens| <= |s.tokens| + (if step.PairRegister? then 1 else 0)
    ensures t.tokens.Keys <= t.minted && s.minted <= t.minted
  {
    if step.PairRegister? {
      OneKeyMore(s.tokens, cfg.sha(step.newBearer), t.tokens);
    } else if step.RevokeOne? {
      OneKeyLess(s.tokens, cfg.sha(s.phase[step.rid].bearer));
    }
  }

  lemma TokensMove(cfg: Config, s: State, step: Step)
    requires OfRequest(cfg, s, step) && s.tokens.Keys <= s.minted
    ensures var t := Next(cfg, s, step);
            && |t.tokens| <= |s.tokens| + (if step.PairRegister? then 1 else 0)
            && t.tokens.Keys <= t.minted && s.minted <= t.minted
  {
    InventoryShape(cfg, s, step);
    MoveCounts(cfg, s, step, Next(cfg, s, step));
  }

  lemma OneKeyMore(tokens: Tokens, d: Digest, more: Tokens)
    requires more.Keys == tokens.Keys + {d}
    ensures |more| <= |tokens| + 1
  {
    SetGrows(tokens.Keys, d);
    assert |more| == |more.Keys| && |tokens| == |tokens.Keys|;
  }

  lemma SetGrows(s: set<Digest>, d: Digest)
    ensures |s + {d}| <= |s| + 1 && |s - {d}| <= |s|
  {
    if d in s {
      assert s + {d} == s && s - {d} + {d} == s;
    } else {
      assert s - {d} == s;
    }
  }

  lemma OneKeyLess(tokens: Tokens, d: Digest)
    ensures |tokens - {d}| <= |tokens|
  {
    var fewer := tokens - {d};
    SetGrows(tokens.Keys, d);
    assert fewer.Keys == tokens.Keys - {d};
    assert |fewer| == |fewer.Keys| && |tokens| == |tokens.Keys|;
  }

  lemma BucketsShape(cfg: Config, s: State, step: Step)
    requires OfRequest(cfg, s, step)
    ensures Next(cfg, s, step).buckets ==
            if step.Charge? && cfg.encryptionSecret.Some? then ChargeNow(cfg, s).0
            else if step.StatusRun? then Pruned(s.buckets, s.clock) else s.buckets
  {
  }

  lemma LimiterLedgerKept(cfg: Config, s: State, step: Step)
    requires LimiterLedger(cfg, s)
    ensures LimiterLedger(cfg, Next(cfg, s, step))
  {
    var last: Time :| last <= s.clock && Represents(s.buckets, s.quota, last, cfg.caps);
    if OfRequest(cfg, s, step) {
      NextShape(cfg, s, step);
      BucketsShape(cfg, s, step);
      if step.Charge? && cfg.encryptionSecret.Some? {
        StepAgrees(s.buckets, s.quota, last, Check(s.clock), cfg.caps);
      } else if step.StatusRun? {
        PruneKeeps(s.buckets, s.quota, last, s.clock, cfg.caps);
      }
    }
  }

  // ------------------------------------------------------------------
  // What every run keeps
  // ------------------------------------------------------------------

  ghost predicate Ledgers(cfg: Config, s: State) {
    DecryptLedger(s) && PairAudit(s) && PairLedger(s) && LimiterLedger(cfg, s)
  }

  lemma InitialCounts(s: State)
    requires s == INITIAL
    ensures DecryptLedger(s) && PairAudit(s) && PairLedger(s)
  {
    assert s.audit == [] && s.phase == map[];
    NobodyInFlight(s, InCharge);
    NobodyInFlight(s, InPairing);
    NobodyInFlight(s, InWon);
    NobodyInFlight(s, InStored);
  }

  lemma InitialLimiter(cfg: Config, s: State)
    requires s == INITIAL
    ensures LimiterLedger(cfg, s)
  {
    FreshLimiter(cfg.caps);
    LimiterWitness(cfg, s, 0);
  }

  lemma InitialLedgers(cfg: Config, s: State)
    requires s == INITIAL
    ensures Ledgers(cfg, s)
  {
    InitialCounts(s);
    InitialLimiter(cfg, s);
  }

  lemma NobodyInFlight(s: State, stage: Stage)
    requires s.phase == map[]
    ensures InFlight(s, stage) == 0
  {
    assert Members(s.phase, stage) == {};
  }

  lemma LimiterWitness(cfg: Config, s: State, last: Time)
    requires last <= s.clock && Represents(s.buckets, s.quota, last, cfg.caps)
    ensures LimiterLedger(cfg, s)
  {
  }

  lemma FreshLimiter(caps: Caps)
    ensures Represents(Buckets([], []), [], 0, caps)
  {
  }

  lemma LedgersKept(cfg: Config, s: State, step: Step)
    requires Ledgers(cfg, s)
    ensures Ledgers(cfg, Next(cfg, s, step))
  {
    DecryptLedgerKept(cfg, s, step);
    PairAuditKept(cfg, s, step);
    PairLedgerKept(cfg, s, step);
    LimiterLedgerKept(cfg, s, step);
  }

  lemma {:induction false} LedgersHold(cfg: Config, steps: seq<Step>)
    ensures Ledgers(cfg, After(cfg, steps))
  {
    if steps == [] {
      InitialLedgers(cfg, After(cfg, steps));
    } else {
      LedgersHold(cfg, steps[..|steps| - 1]);
      LedgersKept(cfg, After(cfg, steps[..|steps| - 1]), steps[|steps| - 1]);
    }
  }

  ghost predicate Quiescent(s: State) {
    forall rid <- s.phase :: StageOf(s.phase[rid]) == Elsewhere
  }

  /** When no request is between its critical sections, the audit stream accounts for everything. */
  lemma AuditConservation(cfg: Config, steps: seq<Step>)
    requires Quiescent(After(cfg, steps))
    ensures var s := After(cfg, steps);
            && |s.quota| == ChargedEvents(s.audit)
            && s.released == Count(s.audit, Event(Decrypt, Fine))
            && Count(s.audit, Event(PairRequested, Fine)) ==
               Count(s.audit, Event(PairFailed, Unauthorized)) + Count(s.audit, Event(PairSucceeded, Fine))
            && s.registered == Count(s.audit, Event(PairSucceeded, Fine)) == s.consumed
  {
    LedgersHold(cfg, steps);
    var s := After(cfg, steps);
    assert Members(s.phase, InCharge) == {} && Members(s.phase, InPairing) == {};
    assert Members(s.phase, InWon) == {} && Members(s.phase, InStored) == {};
  }

  /** In every reachable state the inventory is no larger than the number of codes issued. */
  lemma InventoryBound(cfg: Config, steps: seq<Step>)
    ensures var s := After(cfg, steps);
            |s.tokens| <= s.registered <= s.consumed <= s.issued && s.released <= |s.quota|
  {
    LedgersHold(cfg, steps);
  }

  /** In every reachable state, every window of a minute or a day holds at most its cap of charged decrypts. */
  lemma DecryptCaps(cfg: Config, steps: seq<Step>, from: Time)
    ensures |Window(After(cfg, steps).quota, from, MINUTE)| <= cfg.caps.perMin
    ensures |Window(After(cfg, steps).quota, from, DAY)| <= cfg.caps.perDay
  {
    LedgersHold(cfg, steps);
    var s := After(cfg, steps);
    var last: Time :| last <= s.clock && Represents(s.buckets, s.quota, last, cfg.caps);
    WindowBound(s.quota, last, from, cfg.caps);
  }

  // ------------------------------------------------------------------
  // Looking back along a run
  // ------------------------------------------------------------------

  function Before(cfg: Config, steps: seq<Step>, i: nat): State
    requires i < |steps|
  {
    After(cfg, steps[..i])
  }

  /** Step `i` of the run happened: its request was ready for it. */
  predicate Happens(cfg: Config, steps: seq<Step>, i: nat) {
    i < |steps| && Enabled(cfg, Before(cfg, steps, i), steps[i])
  }

  lemma PrefixBefore(cfg: Config, steps: seq<Step>, n: nat, i: nat)
    requires i < n <= |steps|
    ensures Before(cfg, steps[..n], i) == Before(cfg, steps, i)
    ensures Happens(cfg, steps[..n], i) == Happens(cfg, steps, i)
  {
    assert steps[..n][..i] == steps[..i];
  }

  lemma AfterStep(cfg: Config, steps: seq<Step>, i: nat)
    requires i < |steps|
    ensures After(cfg, steps[..i + 1]) == Next(cfg, Before(cfg, steps, i), steps[i])
  {
    assert steps[..i + 1][..i] == steps[..i];
  }

  /** How far a request has come; every step it takes moves it strictly forward. */
  function Rank(s: State, rid: Rid): nat {
    if rid in s.phase then PhaseRank(s.phase[rid]) else 0
  }

  function PhaseRank(p: Phase): nat {
    match p
    case Cleared(_, _) => 1
    case PairCleared => 1
    case ChargedUnwrap => 2
    case PairPending(_) => 2
    case PairWon => 3
    case PairStored => 4
    case Done => 5
  }

  lemma PhaseShape(cfg: Config, s: State, step: Step)
    ensures Next(cfg, s, step).phase ==
            if OfRequest(cfg, s, step) then s.phase[step.rid := Moves(cfg, s, step)] else s.phase
  {
  }

  lemma MovesForward(cfg: Config, s: State, step: Step)
    requires OfRequest(cfg, s, step)
    ensures Rank(s, step.rid) < PhaseRank(Moves(cfg, s, step))
  {
  }

  lemma RankAdvances(cfg: Config, s: State, step: Step, rid: Rid)
    ensures Rank(s, rid) <= Rank(Next(cfg, s, step), rid)
    ensures OfRequest(cfg, s, step) && step.rid == rid ==> Rank(s, rid) < Rank(Next(cfg, s, step), rid)
  {
    PhaseShape(cfg, s, step);
    if OfRequest(cfg, s, step) {
      MovesForward(cfg, s, step);
    }
  }

  lemma {:induction false} RankMonotone(cfg: Config, steps: seq<Step>, i: nat, rid: Rid)
    requires i <= |steps|
    ensures Rank(After(cfg, steps[..i]), rid) <= Rank(After(cfg, steps), rid)
    decreases |steps|
  {
    if i == |steps| {
      assert steps[..i] == steps;
    } else {
      var init := steps[..|steps| - 1];
      assert init[..i] == steps[..i];
      RankMonotone(cfg, init, i, rid);
      RankAdvances(cfg, After(cfg, init), steps[|steps| - 1], rid);
    }
  }

  /** No request takes two steps from the same rank: each critical section runs at most once per request. */
  lemma OncePerRequest(cfg: Config, steps: seq<Step>, i: nat, j: nat)
    requires i < j < |steps| && Happens(cfg, steps, i) && Happens(cfg, steps, j)
    requires OfRequest(cfg, Before(cfg, steps, i), steps[i]) && OfRequest(cfg, Before(cfg, steps, j), steps[j])
    requires steps[i].rid == steps[j].rid
    ensures Rank(Before(cfg, steps, i), steps[i].rid) < Rank(Before(cfg, steps, j), steps[i].rid)
  {
    AfterStep(cfg, steps, i);
    RankAdvances(cfg, Before(cfg, steps, i), steps[i], steps[i].rid);
    assert steps[..j][..i + 1] == steps[..i + 1];
    RankMonotone(cfg, steps[..j], i + 1, steps[i].rid);
  }

  // ------------------------------------------------------------------
  // Release of content keys
  // ------------------------------------------------------------------

  /** Step `i` hands a content key to request `rid`. */
  predicate Releases(cfg: Config, steps: seq<Step>, i: nat, rid: Rid) {
    && Happens(cfg, steps, i)
    && steps[i].Finish? && steps[i].rid == rid
    && Unwrapped(cfg, steps[i].encryptedKey).Ok?
  }

  /** Step `i` is the guard of an unwrap request, and the request was authorised in the state it saw. */
  ghost predicate ClearsUnwrap(cfg: Config, steps: seq<Step>, i: nat, rid: Rid) {
    && Happens(cfg, steps, i)
    && steps[i].Guard? && steps[i].rid == rid && steps[i].route == ToUnwrap
    && Authorised(cfg, Before(cfg, steps, i).tokens, steps[i].origin, steps[i].bearer, steps[i].nonce)
  }

  /** Step `i` records a quota entry for request `rid`. */
  predicate Charges(cfg: Config, steps: seq<Step>, i: nat, rid: Rid) {
    && Happens(cfg, steps, i)
    && steps[i] == Charge(rid) && ChargeAccepted(cfg, Before(cfg, steps, i))
  }

  lemma {:induction false} FindClearance(cfg: Config, steps: seq<Step>, rid: Rid) returns (g: nat)
    requires var s := After(cfg, steps); rid in s.phase && s.phase[rid].Cleared? && s.phase[rid].route == ToUnwrap
    ensures g < |steps| && ClearsUnwrap(cfg, steps, g, rid)
  {
    var n := |steps| - 1;
    var s, step := After(cfg, steps[..n]), steps[n];
    if OfRequest(cfg, s, step) && step.rid == rid {
      g := n;
      GuardExact(cfg, s.tokens, step.origin, step.bearer, step.nonce);
    } else {
      g := FindClearance(cfg, steps[..n], rid);
      PrefixBefore(cfg, steps, n, g);
    }
  }

  lemma {:induction false} FindCharge(cfg: Config, steps: seq<Step>, rid: Rid) returns (g: nat, c: nat)
    requires InPhase(After(cfg, steps), rid, ChargedUnwrap)
    ensures g < c < |steps| && ClearsUnwrap(cfg, steps, g, rid) && Charges(cfg, steps, c, rid)
  {
    var n := |steps| - 1;
    var s, step := After(cfg, steps[..n]), steps[n];
    if OfRequest(cfg, s, step) && step.rid == rid {
      c := n;
      g := FindClearance(cfg, steps[..n], rid);
      PrefixBefore(cfg, steps, n, g);
    } else {
      g, c := FindCharge(cfg, steps[..n], rid);
      PrefixBefore(cfg, steps, n, g);
      PrefixBefore(cfg, steps, n, c);
    }
  }

  /** Every content key released was first authorised by the request's own guard and then charged. */
  lemma ReleaseIsAuthorised(cfg: Config, steps: seq<Step>, i: nat, rid: Rid) returns (g: nat, c: nat)
    requires Releases(cfg, steps, i, rid)
    ensures g < c < i && ClearsUnwrap(cfg, steps, g, rid) && Charges(cfg, steps, c, rid)
  {
    g, c := FindCharge(cfg, steps[..i], rid);
    PrefixBefore(cfg, steps, i, g);
    PrefixBefore(cfg, steps, i, c);
  }

  /** Two releases never rest on one charge, and no request is served twice. */
  lemma ReleasesHaveOwnCharges(cfg: Config, steps: seq<Step>, i: nat, j: nat, ri: Rid, rj: Rid, c: nat)
    requires i != j && Releases(cfg, steps, i, ri) && Releases(cfg, steps, j, rj)
    ensures ri != rj
    ensures !(Charges(cfg, steps, c, ri) && Charges(cfg, steps, c, rj))
  {
    if ri == rj {
      var a, b := if i < j then i else j, if i < j then j else i;
      OncePerRequest(cfg, steps, a, b);
    }
  }

  // ------------------------------------------------------------------
  // Pairing
  // ------------------------------------------------------------------

  /** Step `i` consumes the outstanding code for request `rid`. */
  predicate Wins(cfg: Config, steps: seq<Step>, i: nat, rid: Rid) {
    && Happens(cfg, steps, i)
    && steps[i] == PairConsume(rid) && ConsumeNow(Before(cfg, steps, i), rid).1
  }

  /** Step `i` stores the token with digest `d` for request `rid`. */
  predicate Stores(cfg: Config, steps: seq<Step>, i: nat, rid: Rid, d: Digest) {
    && Happens(cfg, steps, i)
    && steps[i].PairRegister? && steps[i].rid == rid && cfg.sha(steps[i].newBearer) == d
  }

  /** Step `i` revokes the token with digest `d`. */
  predicate Revokes(cfg: Config, steps: seq<Step>, i: nat, d: Digest) {
    && Happens(cfg, steps, i)
    && (steps[i].RevokeAll?
        || (steps[i].RevokeOne? && cfg.sha(Before(cfg, steps, i).phase[steps[i].rid].bearer) == d))
  }

  /** Step `k` neither issues a code nor wins one. */
  ghost predicate LeavesSlot(cfg: Config, steps: seq<Step>, k: nat)
    requires k < |steps|
  {
    !steps[k].Issue? && forall rid :: !Wins(cfg, steps, k, rid)
  }

  lemma LeavesSlotPrefix(cfg: Config, steps: seq<Step>, n: nat, k: nat)
    requires k < n <= |steps| && LeavesSlot(cfg, steps[..n], k)
    ensures LeavesSlot(cfg, steps, k)
  {
    PrefixBefore(cfg, steps, n, k);
    assert steps[k] == steps[..n][k];
    forall rid
      ensures !Wins(cfg, steps, k, rid)
    {
      assert !Wins(cfg, steps[..n], k, rid);
    }
  }

  /** The code in the slot comes from the last issue, and nobody has won it since. */
  lemma {:induction false} FindIssue(cfg: Config, steps: seq<Step>) returns (j: nat)
    requires After(cfg, steps).slot.Some?
    ensures j < |steps|
    ensures steps[j] == Issue(After(cfg, steps).slot.value.code)
    ensures After(cfg, steps).slot.value.expiresAt == Before(cfg, steps, j).clock + cfg.codeTtl
    ensures forall k :: j < k < |steps| ==> LeavesSlot(cfg, steps, k)
  {
    var n := |steps| - 1;
    var s, step := After(cfg, steps[..n]), steps[n];
    if step.Issue? {
      j := n;
    } else {
      SlotSource(cfg, s, step);
      j := FindIssue(cfg, steps[..n]);
      PrefixBefore(cfg, steps, n, j);
      assert LeavesSlot(cfg, steps, n);
      forall k | j < k < n
        ensures LeavesSlot(cfg, steps, k)
      {
        LeavesSlotPrefix(cfg, steps, n, k);
      }
    }
  }

  lemma SlotSource(cfg: Config, s: State, step: Step)
    requires Next(cfg, s, step).slot.Some? && !step.Issue?
    ensures s.slot == Next(cfg, s, step).slot
    ensures step.PairConsume? && Enabled(cfg, s, step) ==> !ConsumeNow(s, step.rid).1
  {
  }

  /** A win presents the last code issued, before its expiry, and nobody won that code before. */
  lemma WinIsCurrent(cfg: Config, steps: seq<Step>, i: nat, rid: Rid) returns (j: nat)
    requires Wins(cfg, steps, i, rid)
    ensures j < i && steps[j].Issue?
    ensures Matches(steps[j].code, Before(cfg, steps, i).phase[rid].presented)
    ensures Before(cfg, steps, i).clock < Before(cfg, steps, j).clock + cfg.codeTtl
    ensures forall k :: j < k < i ==> LeavesSlot(cfg, steps, k)
  {
    j := FindIssue(cfg, steps[..i]);
    PrefixBefore(cfg, steps, i, j);
    forall k | j < k < i
      ensures LeavesSlot(cfg, steps, k)
    {
      LeavesSlotPrefix(cfg, steps, i, k);
    }
  }

  lemma {:induction false} ClockMonotone(cfg: Config, steps: seq<Step>, i: nat)
    requires i <= |steps|
    ensures After(cfg, steps[..i]).clock <= After(cfg, steps).clock
    decreases |steps|
  {
    if i == |steps| {
      assert steps[..i] == steps;
    } else {
      var n := |steps| - 1;
      assert steps[..n][..i] == steps[..i];
      ClockMonotone(cfg, steps[..n], i);
      ClockAdvances(cfg, After(cfg, steps[..n]), steps[n]);
    }
  }

  lemma ClockAdvances(cfg: Config, s: State, step: Step)
    ensures s.clock <= Next(cfg, s, step).clock
  {
  }

  /** A code issued, not replaced, not won and not expired is still in the slot. */
  lemma {:induction false} CodeStays(cfg: Config, steps: seq<Step>, j: nat)
    requires j < |steps| && steps[j].Issue?
    requires forall k :: j < k < |steps| ==> LeavesSlot(cfg, steps, k)
    requires After(cfg, steps).clock < Before(cfg, steps, j).clock + cfg.codeTtl
    ensures After(cfg, steps).slot == Some(PairingCode(steps[j].code, Before(cfg, steps, j).clock + cfg.codeTtl))
    decreases |steps|
  {
    var n := |steps| - 1;
    var s, step := After(cfg, steps[..n]), steps[n];
    if j == n {
      IssueFills(cfg, s, step);
    } else {
      ClockAdvances(cfg, s, step);
      PrefixBefore(cfg, steps, n, j);
      forall k | j < k < n
        ensures LeavesSlot(cfg, steps[..n], k)
      {
        LeavesSlotExtends(cfg, steps, n, k);
      }
      CodeStays(cfg, steps[..n], j);
      assert LeavesSlot(cfg, steps, n);
      SlotKept(cfg, steps, s, step);
    }
  }

  lemma IssueFills(cfg: Config, s: State, step: Step)
    requires step.Issue?
    ensures Next(cfg, s, step).slot == Some(PairingCode(step.code, s.clock + cfg.codeTtl))
  {
  }

  lemma LeavesSlotExtends(cfg: Config, steps: seq<Step>, n: nat, k: nat)
    requires k < n <= |steps| && LeavesSlot(cfg, steps, k)
    ensures LeavesSlot(cfg, steps[..n], k)
  {
    PrefixBefore(cfg, steps, n, k);
    assert steps[k] == steps[..n][k];
    forall rid
      ensures !Wins(cfg, steps[..n], k, rid)
    {
      assert !Wins(cfg, steps, k, rid);
    }
  }

  /** A last step that neither issues nor wins leaves an unexpired code where it is. */
  lemma SlotKept(cfg: Config, steps: seq<Step>, s: State, step: Step)
    requires steps != [] && s == Before(cfg, steps, |steps| - 1) && step == steps[|steps| - 1]
    requires LeavesSlot(cfg, steps, |steps| - 1)
    requires s.slot.Some? && Next(cfg, s, step).clock < s.slot.value.expiresAt
    ensures Next(cfg, s, step).slot == s.slot
  {
    if step.PairConsume? && Enabled(cfg, s, step) {
      assert !Wins(cfg, steps, |steps| - 1, step.rid);
      ConsumeExact(s.slot.value, s.phase[step.rid].presented, s.clock);
    }
  }

  /**
   * A request wins exactly when it presents the last code issued, before its
   * expiry and with nobody having won it yet.
   */
  lemma CurrentCodeWins(cfg: Config, steps: seq<Step>, i: nat, j: nat, rid: Rid)
    requires j < i && Happens(cfg, steps, i) && steps[i] == PairConsume(rid)
    requires steps[j].Issue? && forall k :: j < k < i ==> LeavesSlot(cfg, steps, k)
    ensures Wins(cfg, steps, i, rid) <==>
            && Matches(steps[j].code, Before(cfg, steps, i).phase[rid].presented)
            && Before(cfg, steps, i).clock < Before(cfg, steps, j).clock + cfg.codeTtl
  {
    var inTime := Before(cfg, steps, i).clock < Before(cfg, steps, j).clock + cfg.codeTtl;
    if Wins(cfg, steps, i, rid) {
      var j' := WinIsCurrent(cfg, steps, i, rid);
      assert j < j' ==> LeavesSlot(cfg, steps, j');
      assert j' < j ==> LeavesSlot(cfg, steps, j);
    } else if inTime {
      PrefixBefore(cfg, steps, i, j);
      forall k | j < k < i
        ensures LeavesSlot(cfg, steps[..i], k)
      {
        LeavesSlotExtends(cfg, steps, i, k);
      }
      CodeStays(cfg, steps[..i], j);
    }
  }

  /** A pairing that presents the outstanding code in time, typed in any case and spacing, gets its token. */
  lemma PairingSucceeds(cfg: Config, s: State, rid: Rid, rawCode: Octets, typed: Octets, bearer: Octets,
                        device: Octets, rawNonce: Option<Octets>)
    requires InPhase(s, rid, PairCleared) && cfg.sha(bearer) !in s.minted
    requires s.slot.Some? && s.clock < s.slot.value.expiresAt
    requires typed != [] && IsCore(rawCode, typed) && Capitals(typed, s.slot.value.code)
    ensures var t := PairSteps(cfg, s, rid, rawCode, bearer, device, rawNonce);
            && t.slot == None && cfg.sha(bearer) in t.tokens && t.tokens[cfg.sha(bearer)].deviceLabel == device
            && t.audit == s.audit + [Event(PairRequested, Fine), Event(PairSucceeded, Fine)]
  {
    var entry := s.slot.value;
    TypedCode(rawCode, typed, entry.code);
    ConsumeExact(entry, entry.code, s.clock);
    PairStepsAreHandler(cfg, s, rid, rawCode, bearer, device, rawNonce);
  }

  /** One that presents another code leaves the code for the next request. */
  lemma WrongGuess(cfg: Config, s: State, rid: Rid, rawCode: Octets, typed: Octets, code: Octets, bearer: Octets,
                   device: Octets, rawNonce: Option<Octets>)
    requires InPhase(s, rid, PairCleared) && cfg.sha(bearer) !in s.minted
    requires s.slot.Some? && s.clock < s.slot.value.expiresAt
    requires IsCore(rawCode, typed) && Capitals(typed, code) && !Matches(s.slot.value.code, code)
    ensures var t := PairSteps(cfg, s, rid, rawCode, bearer, device, rawNonce);
            && t.slot == s.slot && t.tokens == s.tokens
            && t.audit == s.audit + [Event(PairRequested, Fine), Event(PairFailed, Unauthorized)]
  {
    TypedCode(rawCode, typed, code);
    ConsumeExact(s.slot.value, code, s.clock);
    PairStepsAreHandler(cfg, s, rid, rawCode, bearer, device, rawNonce);
  }

  /** Of all requests racing for one issued code at most one wins: between two wins lies an issue. */
  lemma AtMostOneWinner(cfg: Config, steps: seq<Step>, i1: nat, i2: nat, r1: Rid, r2: Rid) returns (j: nat)
    requires i1 < i2 && Wins(cfg, steps, i1, r1) && Wins(cfg, steps, i2, r2)
    ensures i1 < j < i2 && steps[j].Issue?
  {
    j := WinIsCurrent(cfg, steps, i2, r2);
    assert j < i1 ==> LeavesSlot(cfg, steps, i1);
    assert steps[i1] == PairConsume(r1);
  }

  lemma {:induction false} FindWin(cfg: Config, steps: seq<Step>, rid: Rid) returns (w: nat)
    requires InPhase(After(cfg, steps), rid, PairWon)
    ensures w < |steps| && Wins(cfg, steps, w, rid)
  {
    var n := |steps| - 1;
    var s, step := After(cfg, steps[..n]), steps[n];
    if OfRequest(cfg, s, step) && step.rid == rid {
      w := n;
    } else {
      w := FindWin(cfg, steps[..n], rid);
      PrefixBefore(cfg, steps, n, w);
    }
  }

  /** The record a registration step stores. */
  function StoredToken(cfg: Config, step: Step): Token
    requires step.PairRegister?
  {
    var nonce := BoundNonce(step.rawNonce);
    Token(step.device, if nonce.Some? then Some(cfg.sha(nonce.value)) else None)
  }

  /**
   * Every token in the inventory was stored by a request that had won a code,
   * has not been revoked since, and still has the label and nonce stored then.
   */
  lemma {:induction false} TokenOrigin(cfg: Config, steps: seq<Step>, d: Digest) returns (w: nat, r: nat, rid: Rid)
    requires d in After(cfg, steps).tokens
    ensures w < r < |steps| && Wins(cfg, steps, w, rid) && Stores(cfg, steps, r, rid, d)
    ensures After(cfg, steps).tokens[d] == StoredToken(cfg, steps[r])
    ensures forall k :: r < k < |steps| ==> !Revokes(cfg, steps, k, d)
  {
    var n := |steps| - 1;
    var s, step := After(cfg, steps[..n]), steps[n];
    if OfRequest(cfg, s, step) && step.PairRegister? && cfg.sha(step.newBearer) == d {
      r, rid := n, step.rid;
      w := FindWin(cfg, steps[..n], rid);
      PrefixBefore(cfg, steps, n, w);
    } else {
      TokenKept(cfg, s, step, d);
      w, r, rid := TokenOrigin(cfg, steps[..n], d);
      PrefixBefore(cfg, steps, n, w);
      PrefixBefore(cfg, steps, n, r);
      forall k | r < k < |steps|
        ensures !Revokes(cfg, steps, k, d)
      {
        if k < n {
          PrefixBefore(cfg, steps, n, k);
          assert !Revokes(cfg, steps[..n], k, d);
        }
      }
    }
  }

  /** A token stored and not revoked since is in the inventory, as it was stored. */
  lemma {:induction false} TokenStays(cfg: Config, steps: seq<Step>, r: nat, rid: Rid, d: Digest)
    requires r < |steps| && Stores(cfg, steps, r, rid, d)
    requires forall k :: r < k < |steps| ==> !Revokes(cfg, steps, k, d)
    ensures var s := After(cfg, steps); d in s.tokens && s.tokens[d] == StoredToken(cfg, steps[r]) && d in s.minted
    decreases |steps|
  {
    var n := |steps| - 1;
    var s, step := After(cfg, steps[..n]), steps[n];
    if r == n {
      InventoryShape(cfg, s, step);
    } else {
      PrefixBefore(cfg, steps, n, r);
      forall k | r < k < n
        ensures !Revokes(cfg, steps[..n], k, d)
      {
        PrefixBefore(cfg, steps, n, k);
        assert !Revokes(cfg, steps, k, d);
      }
      TokenStays(cfg, steps[..n], r, rid, d);
      assert !Revokes(cfg, steps, n, d);
      if OfRequest(cfg, s, step) {
        InventoryShape(cfg, s, step);
      }
    }
  }

  /** The inventory holds exactly the tokens stored and not revoked since. */
  lemma InventoryExactly(cfg: Config, steps: seq<Step>, d: Digest)
    ensures d in After(cfg, steps).tokens <==>
            exists r, rid :: 0 <= r < |steps| && Stores(cfg, steps, r, rid, d)
                             && forall k :: r < k < |steps| ==> !Revokes(cfg, steps, k, d)
  {
    if d in After(cfg, steps).tokens {
      var _, r, rid := TokenOrigin(cfg, steps, d);
      assert Stores(cfg, steps, r, rid, d);
    }
    if r, rid :| 0 <= r < |steps| && Stores(cfg, steps, r, rid, d)
                 && forall k :: r < k < |steps| ==> !Revokes(cfg, steps, k, d) {
      TokenStays(cfg, steps, r, rid, d);
    }
  }

  lemma TokenKept(cfg: Config, s: State, step: Step, d: Digest)
    requires d in Next(cfg, s, step).tokens
    requires !(OfRequest(cfg, s, step) && step.PairRegister? && cfg.sha(step.newBearer) == d)
    ensures d in s.tokens && s.tokens[d] == Next(cfg, s, step).tokens[d]
    ensures OfRequest(cfg, s, step) && step.RevokeOne? ==> cfg.sha(s.phase[step.rid].bearer) != d
    ensures !(OfRequest(cfg, s, step) && step.RevokeAll?)
  {
  }

  /** One winning request stores one token, so different tokens trace to different winners. */
  lemma TokensHaveOwnWins(cfg: Config, steps: seq<Step>, r1: nat, r2: nat, rid: Rid, d1: Digest, d2: Digest)
    requires Stores(cfg, steps, r1, rid, d1) && Stores(cfg, steps, r2, rid, d2)
    ensures d1 == d2 && r1 == r2
  {
    if r1 != r2 {
      OncePerRequest(cfg, steps, if r1 < r2 then r1 else r2, if r1 < r2 then r2 else r1);
    }
  }

  /**
   * The other way: an authorised request within the caps whose key unwraps is
   * served, whatever the state; a refused one is audited under its route and stays out.
   */
  lemma AuthorisedIsServed(cfg: Config, s: State, last: Time, guard: Step, encryptedKey: string)
    requires guard.Guard? && guard.route == ToUnwrap && guard.rid !in s.phase && cfg.encryptionSecret.Some?
    requires Authorised(cfg, s.tokens, guard.origin, guard.bearer, guard.nonce)
    requires last <= s.clock && Represents(s.buckets, s.quota, last, cfg.caps)
    requires |Within(s.quota, s.clock, MINUTE)| < cfg.caps.perMin && |Within(s.quota, s.clock, DAY)| < cfg.caps.perDay
    requires Unwrapped(cfg, encryptedKey).Ok?
    ensures var t := Next(cfg, Next(cfg, Next(cfg, s, guard), Charge(guard.rid)), Finish(guard.rid, encryptedKey));
            && t.released == s.released + 1 && t.quota == s.quota + [s.clock]
            && t.audit == s.audit + [Event(Decrypt, Fine)]
  {
    var cleared := Next(cfg, s, guard);
    ClearStep(cfg, s, guard);
    UnwrapStepsAreHandler(cfg, cleared, last, guard.rid, guard.bearer.value, encryptedKey);
    assert s.audit + [] == s.audit;
  }

  lemma ClearStep(cfg: Config, s: State, guard: Step)
    requires guard.Guard? && guard.rid !in s.phase
    requires Authorised(cfg, s.tokens, guard.origin, guard.bearer, guard.nonce)
    ensures Next(cfg, s, guard) ==
            s.(audit := s.audit + [], phase := s.phase[guard.rid := Cleared(guard.route, guard.bearer.value)])
  {
    GuardExact(cfg, s.tokens, guard.origin, guard.bearer, guard.nonce);
  }

  lemma RefusedStep(cfg: Config, s: State, guard: Step)
    requires guard.Guard? && guard.rid !in s.phase
    requires !Authorised(cfg, s.tokens, guard.origin, guard.bearer, guard.nonce)
    ensures var t := Next(cfg, s, guard);
            var kind := match guard.route
                        case ToStatus => StatusProbe
                        case ToUnwrap => Decrypt
                        case ToRevokeOne => PairRevoked
                        case ToRevokeAll => PairRevoked;
            exists refusal :: t == s.(audit := s.audit + [Event(kind, refusal)], phase := s.phase[guard.rid := Done])
  {
    GuardExact(cfg, s.tokens, guard.origin, guard.bearer, guard.nonce);
    var refusal := GuardVerdict(cfg, s.tokens, guard.origin, guard.bearer, guard.nonce).error;
    assert Next(cfg, s, guard)
           == s.(audit := s.audit + [Event(RouteKind(guard.route), refusal)], phase := s.phase[guard.rid := Done]);
  }

  /**
   * Safety of release: behind every released key stands an authorised request
   * that showed the allowed Origin and either the shared secret or the very
   * bearer minted for an earlier winner of a pairing code and not yet revoked,
   * with the nonce bound at that pairing, if one was; and a charge of its own.
   */
  lemma ReleaseSafety(cfg: Config, steps: seq<Step>, i: nat, rid: Rid)
    returns (g: nat, c: nat, w: nat, r: nat, owner: Rid)
    requires cfg.CollisionFree() && Releases(cfg, steps, i, rid)
    ensures g < c < i && ClearsUnwrap(cfg, steps, g, rid) && Charges(cfg, steps, c, rid)
    ensures var bearer := steps[g].bearer.value;
            (&& cfg.sharedSecret.Some? && Matches(bearer, cfg.sharedSecret.value)
             && (0 !in bearer && 0 !in cfg.sharedSecret.value ==> bearer == cfg.sharedSecret.value))
            || (&& w < r < g && Wins(cfg, steps, w, owner) && Stores(cfg, steps, r, owner, cfg.sha(bearer))
                && steps[r].newBearer == bearer
                && (steps[r].rawNonce.Some? ==>
                      forall core :: IsCore(steps[r].rawNonce.value, core) && 1 <= |core| <= 256 ==>
                        steps[g].nonce == Some(core))
                && forall k :: r < k < g ==> !Revokes(cfg, steps, k, cfg.sha(bearer)))
  {
    g, c := ReleaseIsAuthorised(cfg, steps, i, rid);
    w, r, owner := 0, 0, 0;
    var d := cfg.sha(steps[g].bearer.value);
    if cfg.sharedSecret.Some? && Matches(steps[g].bearer.value, cfg.sharedSecret.value) {
      if 0 !in steps[g].bearer.value && 0 !in cfg.sharedSecret.value {
        ZeroFreeDecides(steps[g].bearer.value, cfg.sharedSecret.value);
      }
    } else {
      w, r, owner := TokenOrigin(cfg, steps[..g], d);
      if steps[r].rawNonce.Some? {
        forall core | IsCore(steps[r].rawNonce.value, core)
          ensures Trimmed(steps[r].rawNonce.value) == core
        {
          CoreIsTrimmed(steps[r].rawNonce.value, core);
        }
      }
      PrefixBefore(cfg, steps, g, w);
      PrefixBefore(cfg, steps, g, r);
      forall k | r < k < g
        ensures !Revokes(cfg, steps, k, d)
      {
        PrefixBefore(cfg, steps, g, k);
        assert !Revokes(cfg, steps[..g], k, d);
      }
    }
  }
}
