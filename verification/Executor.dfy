/**
 * The gateway's auto-reply executor: one polling tick, and any run of ticks
 * against a server that stops listing a message once it is marked.
 */
module Executor {
  import opened Common
  import opened Json
  import opened Policy
  import opened A2a

  const MAX_PER_TICK := 10

  type Id = string

  datatype Pending = Pending(
    id: Id, senderDid: string, priority: string, trustScore: real, serverReason: Option<string>)

  /** What the backend and the daemon answer while one message is dispatched. */
  datatype Answers = Answers(
    content: Option<bool>,            // fetch failed, or whether the content type is A2A
    unwrapped: bool,
    plaintext: Option<Option<Json>>,  // decryption failed, or the text with its JSON reading
    newId: string,
    resolved: bool,
    wrapped: bool,
    signed: bool,
    posted: bool,
    marked: bool,
    markApplied: bool)                // a failed mark call may still have taken effect

  /** The inputs a tick caches. */
  datatype TickInputs = TickInputs(policy: Option<Json>, contacts: set<string>)

  datatype Effect =
    | Posted(id: Id, decision: Decision, reply: Json)
    | MarkOk(id: Id)
    | MarkFailed(id: Id, applied: bool)

  datatype Outcome = Sent | Skipped | Errored

  function DecisionFor(entry: Pending, inputs: TickInputs, b: Block): Decision {
    var ctx := Context(true, entry.priority, entry.trustScore, entry.senderDid, entry.senderDid in inputs.contacts,
                       Some(ProtocolKey(b.protocolType, b.action)));
    Merge(entry.serverReason, Evaluate(inputs.policy, ctx))
  }

  function Dispatch(entry: Pending, inputs: TickInputs, a: Answers): (Outcome, seq<Effect>) {
    if a.content.None? then (Errored, [])
    else if !a.content.value then (Skipped, [])
    else if !a.unwrapped || a.plaintext.None? then (Errored, [])
    else if a.plaintext.value.None? || ParseFrame(a.plaintext.value.value).None?
         || ParseFrame(a.plaintext.value.value).value.None? then (Skipped, [])
    else
      var b := ParseFrame(a.plaintext.value.value).value.value;
      var d := DecisionFor(entry, inputs, b);
      if !Automatic(d) then (Skipped, []) else
        match BuildReply(b, d.action == AutoAccept, a.newId)
        case None => (Skipped, [])
        case Some(reply) =>
          if !a.resolved || !a.wrapped || !a.signed || !a.posted then (Errored, [])
          else if a.marked then (Sent, [Posted(entry.id, d, reply), MarkOk(entry.id)])
          else (Errored, [Posted(entry.id, d, reply), MarkFailed(entry.id, a.markApplied)])
  }

  // ------------------------------------------------------------------
  // The object the executor talks to
  // ------------------------------------------------------------------

  class Backend {
    var log: seq<Effect>

    constructor ()
      ensures log == []
    {
      log := [];
    }

    method PostReply(id: Id, d: Decision, reply: Json, ok: bool)
      modifies this
      ensures log == old(log) + if ok then [Posted(id, d, reply)] else []
    {
      if ok {
        log := log + [Posted(id, d, reply)];
      }
    }

    method MarkAutoReplySent(id: Id, ok: bool, applied: bool)
      modifies this
      ensures log == old(log) + [if ok then MarkOk(id) else MarkFailed(id, applied)]
    {
      log := log + [if ok then MarkOk(id) else MarkFailed(id, applied)];
    }
  }

  /** The calls in the order the executor makes them. */
  method DispatchOne(backend: Backend, entry: Pending, inputs: TickInputs, a: Answers) returns (outcome: Outcome)
    modifies backend
    ensures outcome == Dispatch(entry, inputs, a).0
    ensures backend.log == old(backend.log) + Dispatch(entry, inputs, a).1
  {
    if a.content.None? {
      return Errored;
    }
    if !a.content.value {
      return Skipped;
    }
    if !a.unwrapped || a.plaintext.None? {
      return Errored;
    }
    if a.plaintext.value.None? {
      return Skipped;
    }
    var frame := ParseFrame(a.plaintext.value.value);
    if frame.None? || frame.value.None? {
      return Skipped;
    }
    var b := frame.value.value;
    var d := DecisionFor(entry, inputs, b);
    if d.action != AutoAccept && d.action != AutoDecline {
      return Skipped;
    }
    var reply := BuildReply(b, d.action == AutoAccept, a.newId);
    if reply.None? {
      return Skipped;
    }
    if !a.resolved || !a.wrapped || !a.signed {
      return Errored;
    }
    backend.PostReply(entry.id, d, reply.value, a.posted);
    if !a.posted {
      return Errored;
    }
    backend.MarkAutoReplySent(entry.id, a.marked, a.markApplied);
    if !a.marked {
      return Errored;
    }
    return Sent;
  }

  // ------------------------------------------------------------------
  // Exactly when a message is answered
  // ------------------------------------------------------------------

  /** The message is fetched, of the A2A type, unwrapped, decrypted and read, and asks with block `b`. */
  ghost predicate Asks(a: Answers, b: Block) {
    && a.content == Some(true) && a.unwrapped
    && a.plaintext.Some? && a.plaintext.value.Some?
    && ParseFrame(a.plaintext.value.value) == Some(Some(b))
  }

  /** A fetch, an unwrapping or a decryption failed. */
  ghost predicate Unreadable(a: Answers) {
    a.content == None || (a.content == Some(true) && (!a.unwrapped || a.plaintext == None))
  }

  /** The merged decision on block `b` is automatic and `reply` is the reply built for it. */
  ghost predicate Due(entry: Pending, inputs: TickInputs, a: Answers, b: Block, reply: Json) {
    && Asks(a, b)
    && DecisionFor(entry, inputs, b).action in {AutoAccept, AutoDecline}
    && BuildReply(b, DecisionFor(entry, inputs, b).action == AutoAccept, a.newId) == Some(reply)
  }

  ghost predicate IsDue(entry: Pending, inputs: TickInputs, a: Answers) {
    exists b, reply :: Due(entry, inputs, a, b, reply)
  }

  ghost predicate Reaches(a: Answers) {
    a.resolved && a.wrapped && a.signed && a.posted
  }

  /** A reply that is due and whose calls succeed is posted, and one mark call follows, whatever the decision. */
  lemma DueIsPosted(entry: Pending, inputs: TickInputs, a: Answers, b: Block, reply: Json)
    requires Due(entry, inputs, a, b, reply) && Reaches(a)
    ensures Dispatch(entry, inputs, a) ==
            (if a.marked then Sent else Errored,
             [Posted(entry.id, DecisionFor(entry, inputs, b), reply),
              if a.marked then MarkOk(entry.id) else MarkFailed(entry.id, a.markApplied)])
  {
  }

  /** The outcome of every dispatch, and that nothing else has effects. */
  lemma OutcomeExactly(entry: Pending, inputs: TickInputs, a: Answers)
    ensures var (outcome, effects) := Dispatch(entry, inputs, a);
            && (outcome == Sent <==> IsDue(entry, inputs, a) && Reaches(a) && a.marked)
            && (outcome == Errored <==>
                  Unreadable(a) || (IsDue(entry, inputs, a) && !(Reaches(a) && a.marked)))
            && (effects != [] <==> IsDue(entry, inputs, a) && Reaches(a))
  {
    if a.content == Some(true) && a.unwrapped && a.plaintext.Some? && a.plaintext.value.Some?
       && ParseFrame(a.plaintext.value.value).Some? && ParseFrame(a.plaintext.value.value).value.Some? {
      var b := ParseFrame(a.plaintext.value.value).value.value;
      var reply := BuildReply(b, DecisionFor(entry, inputs, b).action == AutoAccept, a.newId);
      if reply.Some? {
        assert Due(entry, inputs, a, b, reply.value) <==>
               DecisionFor(entry, inputs, b).action in {AutoAccept, AutoDecline};
      }
    }
  }

  /** The context a rule is tried in for a message asking with a block of this type and action. */
  ghost function ContextOf(entry: Pending, inputs: TickInputs, t: ProtocolType, action: string): Context {
    Context(true, entry.priority, entry.trustScore, entry.senderDid, entry.senderDid in inputs.contacts,
            Some(ProtocolKey(t, action)))
  }

  /**
   * A valid propose or delegate under a rule that accepts or declines and whose
   * conditions hold is answered with that action: the reply is valid for the
   * SDK, linked to the request, posted once and marked.
   */
  lemma ValidRequestIsAnswered(d: Dates, entry: Pending, inputs: TickInputs, a: Answers, raw: Json, r: RuleText)
    requires a.content == Some(true) && a.unwrapped && a.plaintext.Some? && a.plaintext.value.Some?
    requires var doc := a.plaintext.value.value;
             SdkParse(doc).Parsed? && SdkParse(doc).protocol == Some(raw) && doc.Get("v") == Some(Int(1))
    requires ValidBlock(d, raw) && a.newId != ""
    requires GetStr(raw, "action").value == SourceAction(TypeOf(GetStr(raw, "type")).value)
    requires inputs.policy.Some? && entry.serverReason != Some("master_off")
    requires var ctx := ContextOf(entry, inputs, TypeOf(GetStr(raw, "type")).value, GetStr(raw, "action").value);
             InForce(inputs.policy.value, ctx.protocol, r) && ConditionsHold(r.conditions, ctx)
    requires r.text in {"auto_accept", "auto_decline"}
    requires Reaches(a) && a.marked
    ensures var (outcome, effects) := Dispatch(entry, inputs, a);
            && outcome == Sent
            && |effects| == 2 && effects[0].Posted? && effects[0].id == entry.id && effects[1] == MarkOk(entry.id)
            && var reply := effects[0].reply;
            && ValidBlock(d, reply)
            && GetStr(reply, "type") == GetStr(raw, "type") && reply.Get("reply_to") == raw.Get("id")
            && GetStr(reply, "action") == Some(if r.text == "auto_accept" then "accept" else "decline")
  {
    var t, action := TypeOf(GetStr(raw, "type")).value, GetStr(raw, "action").value;
    var b := ParseFrame(a.plaintext.value.value).value.value;
    var ctx := ContextOf(entry, inputs, t, action);
    ValidBlockParses(d, raw);
    DecidedByRule(inputs.policy.value, ctx, r);
    LengthsOfActions();
    var decision := DecisionFor(entry, inputs, b);
    assert decision == DecisionOf(r, ctx);
    RepliesAreValid(d, raw, decision.action == AutoAccept, a.newId);
    DueIsPosted(entry, inputs, a, b, BuildReply(b, decision.action == AutoAccept, a.newId).value);
  }

  datatype Work = Work(entry: Pending, answers: Answers)

  /** The effects of dispatching a list in order. */
  function Effects(work: seq<Work>, inputs: TickInputs): seq<Effect> {
    if work == [] then [] else
      Effects(work[..|work| - 1], inputs) + Dispatch(work[|work| - 1].entry, inputs, work[|work| - 1].answers).1
  }

  function Taken(work: seq<Work>): seq<Work> {
    if |work| > MAX_PER_TICK then work[..MAX_PER_TICK] else work
  }

  datatype TickReport = TickReport(sent: nat, skipped: nat, errors: nat)

  function Tally(r: TickReport, outcome: Outcome): TickReport {
    match outcome
    case Sent => r.(sent := r.sent + 1)
    case Skipped => r.(skipped := r.skipped + 1)
    case Errored => r.(errors := r.errors + 1)
  }

  /** What the outcomes of a list of dispatches add up to. */
  function Report(work: seq<Work>, inputs: TickInputs): (r: TickReport)
    ensures r.sent + r.skipped + r.errors == |work|
  {
    if work == [] then TickReport(0, 0, 0) else
      Tally(Report(work[..|work| - 1], inputs), Dispatch(work[|work| - 1].entry, inputs, work[|work| - 1].answers).0)
  }

  /** The counter of the outcome goes up by one. */
  method CountOutcome(report0: TickReport, outcome: Outcome) returns (report: TickReport)
    ensures report == Tally(report0, outcome)
  {
    report := report0;
    match outcome {
      case Sent => report := report.(sent := report.sent + 1);
      case Skipped => report := report.(skipped := report.skipped + 1);
      case Errored => report := report.(errors := report.errors + 1);
    }
  }

  /** One tick over the fetched list: at most ten messages, each counted once, effects in order. */
  method RunOneTick(backend: Backend, pending: Result<seq<Work>, string>, inputs: TickInputs)
    returns (report: TickReport)
    modifies backend
    ensures pending.Err? ==> report == TickReport(0, 0, 0) && backend.log == old(backend.log)
    ensures pending.Ok? ==>
              && report == Report(Taken(pending.value), inputs)
              && report.sent + report.skipped + report.errors == |Taken(pending.value)|
              && backend.log == old(backend.log) + Effects(Taken(pending.value), inputs)
  {
    report := TickReport(0, 0, 0);
    if pending.Err? {
      return;
    }
    var work := Taken(pending.value);
    for i := 0 to |work|
      invariant report == Report(work[..i], inputs)
      invariant backend.log == old(backend.log) + Effects(work[..i], inputs)
    {
      var outcome := DispatchOne(backend, work[i].entry, inputs, work[i].answers);
      ReportSnoc(work, inputs, i);
      report := CountOutcome(report, outcome);
    }
    assert work[..|work|] == work;
  }

  lemma ReportSnoc(work: seq<Work>, inputs: TickInputs, i: nat)
    requires i < |work|
    ensures var (outcome, effects) := Dispatch(work[i].entry, inputs, work[i].answers);
            && Report(work[..i + 1], inputs) == Tally(Report(work[..i], inputs), outcome)
            && Effects(work[..i + 1], inputs) == Effects(work[..i], inputs) + effects
  {
    assert work[..i + 1][..i] == work[..i];
  }

  /** At most the first ten, in the server's order. */
  lemma TakenExactly(work: seq<Work>)
    ensures Taken(work) <= work && |Taken(work)| == if |work| < 10 then |work| else 10
  {
  }

  function Outcomes(work: seq<Work>, inputs: TickInputs): seq<Outcome> {
    seq(|work|, i requires 0 <= i < |work| => Dispatch(work[i].entry, inputs, work[i].answers).0)
  }

  ghost function Places<T>(s: seq<T>, x: T): set<nat> {
    set i: nat | i < |s| && s[i] == x
  }

  lemma PlacesSnoc<T>(s: seq<T>, y: T, x: T)
    ensures |Places(s + [y], x)| == |Places(s, x)| + if y == x then 1 else 0
  {
    var n := |s|;
    assert n !in Places(s, x);
    assert Places(s + [y], x) == if y == x then Places(s, x) + {n} else Places(s, x);
  }

  lemma OutcomesSnoc(work: seq<Work>, inputs: TickInputs)
    requires work != []
    ensures var n := |work| - 1;
            Outcomes(work, inputs) ==
            Outcomes(work[..n], inputs) + [Dispatch(work[n].entry, inputs, work[n].answers).0]
  {
  }

  ghost predicate Counts(r: TickReport, outcomes: seq<Outcome>) {
    && r.sent == |Places(outcomes, Sent)| && r.skipped == |Places(outcomes, Skipped)|
    && r.errors == |Places(outcomes, Errored)|
  }

  lemma TallyCounts(r: TickReport, outcomes: seq<Outcome>, outcome: Outcome)
    requires Counts(r, outcomes)
    ensures Counts(Tally(r, outcome), outcomes + [outcome])
  {
    PlacesSnoc(outcomes, outcome, Sent);
    PlacesSnoc(outcomes, outcome, Skipped);
    PlacesSnoc(outcomes, outcome, Errored);
  }

  /** Each counter of a report is the number of dispatches with its outcome. */
  lemma {:induction false} ReportExactly(work: seq<Work>, inputs: TickInputs)
    ensures Counts(Report(work, inputs), Outcomes(work, inputs))
  {
    if work == [] {
      assert Places<Outcome>([], Sent) == {} && Places<Outcome>([], Skipped) == {};
      assert Places<Outcome>([], Errored) == {};
    } else {
      var n := |work| - 1;
      ReportExactly(work[..n], inputs);
      OutcomesSnoc(work, inputs);
      TallyCounts(Report(work[..n], inputs), Outcomes(work[..n], inputs),
                  Dispatch(work[n].entry, inputs, work[n].answers).0);
    }
  }

  lemma EffectsSnoc(work: seq<Work>, w: Work, inputs: TickInputs)
    ensures Effects(work + [w], inputs) == Effects(work, inputs) + Dispatch(w.entry, inputs, w.answers).1
  {
    assert (work + [w])[..|work|] == work;
  }

  lemma Assoc<T>(a: seq<T>, b: seq<T>, c: seq<T>)
    ensures a + b + c == a + (b + c)
  {
  }

  /** Effects come in the order of the work. */
  lemma {:induction false} EffectsAppend(first: seq<Work>, second: seq<Work>, inputs: TickInputs)
    ensures Effects(first + second, inputs) == Effects(first, inputs) + Effects(second, inputs)
  {
    if second == [] {
      assert first + second == first;
    } else {
      var front, w := second[..|second| - 1], second[|second| - 1];
      EffectsAppend(first, front, inputs);
      Assoc(first, front, [w]);
      assert second == front + [w];
      EffectsSnoc(first + front, w, inputs);
      EffectsSnoc(front, w, inputs);
      Assoc(Effects(first, inputs), Effects(front, inputs), Dispatch(w.entry, inputs, w.answers).1);
    }
  }

  // ------------------------------------------------------------------
  // Runs of ticks
  // ------------------------------------------------------------------

  datatype Tick = Tick(work: seq<Work>, inputs: TickInputs)

  function Log(ticks: seq<Tick>): seq<Effect> {
    if ticks == [] then [] else
      Log(ticks[..|ticks| - 1]) + Effects(Taken(ticks[|ticks| - 1].work), ticks[|ticks| - 1].inputs)
  }

  predicate Hides(e: Effect, id: Id) {
    e == MarkOk(id) || e == MarkFailed(id, true)
  }

  predicate Hidden(log: seq<Effect>, id: Id) {
    exists i :: 0 <= i < |log| && Hides(log[i], id)
  }

  predicate DistinctIds(work: seq<Work>) {
    forall i, j :: 0 <= i < j < |work| ==> work[i].entry.id != work[j].entry.id
  }

  /** At tick `t` the server lists each message once, and none that an earlier mark has reached. */
  ghost predicate ListsUnmarked(ticks: seq<Tick>, t: nat)
    requires t < |ticks|
  {
    && DistinctIds(ticks[t].work)
    && forall i :: 0 <= i < |ticks[t].work| ==> !Hidden(Log(ticks[..t]), ticks[t].work[i].entry.id)
  }

  ghost predicate ServerHidesMarked(ticks: seq<Tick>) {
    forall t: nat :: t < |ticks| ==> ListsUnmarked(ticks, t)
  }

  predicate IsPost(e: Effect, id: Id) {
    e.Posted? && e.id == id
  }

  predicate IsMarkFailure(e: Effect, id: Id) {
    e.MarkFailed? && e.id == id
  }

  function Posts(log: seq<Effect>, id: Id): nat {
    if log == [] then 0 else Posts(log[..|log| - 1], id) + if IsPost(log[|log| - 1], id) then 1 else 0
  }

  function MarkFailures(log: seq<Effect>, id: Id): nat {
    if log == [] then 0 else MarkFailures(log[..|log| - 1], id) + if IsMarkFailure(log[|log| - 1], id) then 1 else 0
  }

  function Marks(log: seq<Effect>, id: Id): nat {
    if log == [] then 0 else Marks(log[..|log| - 1], id) + if log[|log| - 1] == MarkOk(id) then 1 else 0
  }

  lemma {:induction false} CountsAppend(a: seq<Effect>, b: seq<Effect>, id: Id)
    ensures Posts(a + b, id) == Posts(a, id) + Posts(b, id)
    ensures MarkFailures(a + b, id) == MarkFailures(a, id) + MarkFailures(b, id)
    ensures Marks(a + b, id) == Marks(a, id) + Marks(b, id)
  {
    if b == [] {
      assert a + b == a;
    } else {
      assert (a + b)[..|a + b| - 1] == a + b[..|b| - 1];
      CountsAppend(a, b[..|b| - 1], id);
    }
  }

  lemma DispatchCounts(w: Work, inputs: TickInputs, id: Id)
    ensures var e := Dispatch(w.entry, inputs, w.answers).1;
            && Posts(e, id) == MarkFailures(e, id) + Marks(e, id)
            && Posts(e, id) <= 1 && (Posts(e, id) == 1 ==> w.entry.id == id)
  {
    var e := Dispatch(w.entry, inputs, w.answers).1;
    if e != [] {
      assert e[..1] == [e[0]] && [e[0]][..0] == [];
      assert Posts([e[0]], id) == (if IsPost(e[0], id) then 1 else 0) + Posts([], id);
      assert MarkFailures([e[0]], id) == MarkFailures([], id) && Marks([e[0]], id) == Marks([], id);
    }
  }

  /** Within one tick a message is answered at most once, and every reply is followed by its mark call. */
  lemma {:induction false} TickCounts(work: seq<Work>, inputs: TickInputs, id: Id)
    requires DistinctIds(work)
    ensures var e := Effects(work, inputs);
            && Posts(e, id) == MarkFailures(e, id) + Marks(e, id)
            && Posts(e, id) <= 1
            && (Posts(e, id) == 1 ==> exists i :: 0 <= i < |work| && work[i].entry.id == id)
  {
    if work != [] {
      var n := |work| - 1;
      TickCounts(work[..n], inputs, id);
      DispatchCounts(work[n], inputs, id);
      CountsAppend(Effects(work[..n], inputs), Dispatch(work[n].entry, inputs, work[n].answers).1, id);
      if Posts(Effects(work[..n], inputs), id) == 1 {
        var i :| 0 <= i < n && work[..n][i].entry.id == id;
        assert work[i].entry.id == id;
      }
    }
  }

  lemma {:induction false} MarkedIsHidden(log: seq<Effect>, id: Id)
    requires Marks(log, id) > 0
    ensures Hidden(log, id)
  {
    if log[|log| - 1] == MarkOk(id) {
      assert Hides(log[|log| - 1], id);
    } else {
      MarkedIsHidden(log[..|log| - 1], id);
      var i :| 0 <= i < |log| - 1 && Hides(log[..|log| - 1][i], id);
      assert Hides(log[i], id);
    }
  }

  lemma EarlierTicks(ticks: seq<Tick>, n: nat)
    requires n <= |ticks| && ServerHidesMarked(ticks)
    ensures ServerHidesMarked(ticks[..n])
  {
    forall t: nat | t < n
      ensures ListsUnmarked(ticks[..n], t)
    {
      assert ListsUnmarked(ticks, t);
      assert ticks[..n][..t] == ticks[..t];
    }
  }

  /** A tick that may list a message leaves no earlier successful mark of it behind. */
  lemma ListedIsUnmarked(ticks: seq<Tick>, n: nat, id: Id)
    requires ServerHidesMarked(ticks) && n < |ticks|
    requires Posts(Effects(Taken(ticks[n].work), ticks[n].inputs), id) == 1
    ensures Marks(Log(ticks[..n]), id) == 0
  {
    var work := Taken(ticks[n].work);
    assert ListsUnmarked(ticks, n);
    TickCounts(work, ticks[n].inputs, id);
    var i :| 0 <= i < |work| && work[i].entry.id == id;
    assert work[i] == ticks[n].work[i];
    if Marks(Log(ticks[..n]), id) > 0 {
      MarkedIsHidden(Log(ticks[..n]), id);
    }
  }

  /**
   * Over any run of ticks, the replies posted for one message are exactly its
   * failed mark calls plus at most one successful one.
   */
  lemma {:induction false} RepliesPerMessage(ticks: seq<Tick>, id: Id)
    requires ServerHidesMarked(ticks)
    ensures var log := Log(ticks);
            Posts(log, id) == MarkFailures(log, id) + Marks(log, id) && Marks(log, id) <= 1
  {
    if ticks != [] {
      var n := |ticks| - 1;
      var work, inputs := Taken(ticks[n].work), ticks[n].inputs;
      EarlierTicks(ticks, n);
      RepliesPerMessage(ticks[..n], id);
      assert ListsUnmarked(ticks, n);
      TickCounts(work, inputs, id);
      CountsAppend(Log(ticks[..n]), Effects(work, inputs), id);
      if Posts(Effects(work, inputs), id) == 1 {
        ListedIsUnmarked(ticks, n, id);
      }
    }
  }

  lemma LastTickPosts(ticks: seq<Tick>, id: Id)
    requires ticks != []
    ensures var n := |ticks| - 1;
            Posts(Log(ticks), id) ==
            Posts(Log(ticks[..n]), id) + Posts(Effects(Taken(ticks[n].work), ticks[n].inputs), id)
  {
    var n := |ticks| - 1;
    CountsAppend(Log(ticks[..n]), Effects(Taken(ticks[n].work), ticks[n].inputs), id);
  }

  lemma HiddenGrows(earlier: seq<Effect>, later: seq<Effect>, id: Id)
    requires Hidden(earlier, id)
    ensures Hidden(earlier + later, id)
  {
    var i :| 0 <= i < |earlier| && Hides(earlier[i], id);
    assert Hides((earlier + later)[i], id);
  }

  /** A tick after the message was hidden: no answer, and still hidden. */
  lemma HiddenTick(ticks: seq<Tick>, n: nat, id: Id)
    requires ServerHidesMarked(ticks) && ticks != [] && n == |ticks| - 1 && Hidden(Log(ticks[..n]), id)
    ensures Posts(Log(ticks), id) == Posts(Log(ticks[..n]), id) && Hidden(Log(ticks), id)
  {
    HiddenIsNotAnswered(ticks, n, id);
    LastTickPosts(ticks, id);
    HiddenGrows(Log(ticks[..n]), Effects(Taken(ticks[n].work), ticks[n].inputs), id);
  }

  /** Once the server has hidden a message, no later tick answers it, however long the run. */
  lemma {:induction false} NoReplyAfterHidden(ticks: seq<Tick>, later: seq<Tick>, id: Id)
    requires ServerHidesMarked(ticks + later) && Hidden(Log(ticks), id)
    ensures Posts(Log(ticks + later), id) == Posts(Log(ticks), id) && Hidden(Log(ticks + later), id)
    decreases |later|
  {
    if later == [] {
      assert ticks + later == ticks;
    } else {
      var m, n := |later| - 1, |ticks + later| - 1;
      assert (ticks + later)[..n] == ticks + later[..m];
      EarlierTicks(ticks + later, n);
      NoReplyAfterHidden(ticks, later[..m], id);
      HiddenTick(ticks + later, n, id);
    }
  }

  lemma HiddenIsNotAnswered(ticks: seq<Tick>, n: nat, id: Id)
    requires ServerHidesMarked(ticks) && n < |ticks| && Hidden(Log(ticks[..n]), id)
    ensures Posts(Effects(Taken(ticks[n].work), ticks[n].inputs), id) == 0
  {
    var work := Taken(ticks[n].work);
    assert ListsUnmarked(ticks, n);
    TickCounts(work, ticks[n].inputs, id);
    assert forall i :: 0 <= i < |work| ==> work[i] == ticks[n].work[i];
  }

  /** A reply this dispatch may post: decided automatically for the parsed block, and built for that decision. */
  ghost predicate Justified(e: Effect, work: seq<Work>, inputs: TickInputs) {
    e.Posted? ==>
      Automatic(e.decision) &&
      exists i, b :: 0 <= i < |work| && JustifiedBy(e, work[i], inputs, b)
  }

  ghost predicate JustifiedBy(e: Effect, w: Work, inputs: TickInputs, b: Block)
    requires e.Posted?
  {
    && e.id == w.entry.id
    && w.answers.plaintext.Some? && w.answers.plaintext.value.Some?
    && ParseFrame(w.answers.plaintext.value.value) == Some(Some(b))
    && e.decision == DecisionFor(w.entry, inputs, b)
    && BuildReply(b, e.decision.action == AutoAccept, w.answers.newId) == Some(e.reply)
  }

  /** Every reply a tick posts rests on a merged auto_accept or auto_decline for that very message. */
  lemma {:induction false} TickIsJustified(work: seq<Work>, inputs: TickInputs, k: nat)
    requires k < |Effects(work, inputs)|
    ensures Justified(Effects(work, inputs)[k], work, inputs)
  {
    var n := |work| - 1;
    var init := Effects(work[..n], inputs);
    var e := Effects(work, inputs)[k];
    if k < |init| {
      TickIsJustified(work[..n], inputs, k);
      if e.Posted? {
        var i, b :| 0 <= i < n && JustifiedBy(e, work[..n][i], inputs, b);
        assert JustifiedBy(e, work[i], inputs, b);
      }
    } else if e.Posted? {
      var b := ParseFrame(work[n].answers.plaintext.value.value).value.value;
      assert JustifiedBy(e, work[n], inputs, b);
    }
  }

  /** In any run, every reply posted is justified by the work and the inputs of one of its ticks. */
  lemma {:induction false} RepliesAreJustified(ticks: seq<Tick>, k: nat) returns (t: nat)
    requires k < |Log(ticks)|
    ensures t < |ticks| && Justified(Log(ticks)[k], Taken(ticks[t].work), ticks[t].inputs)
  {
    var last := |ticks| - 1;
    var earlier := Log(ticks[..last]);
    if k < |earlier| {
      t := RepliesAreJustified(ticks[..last], k);
    } else {
      t := last;
      TickIsJustified(Taken(ticks[last].work), ticks[last].inputs, k - |earlier|);
    }
  }
}
