/** The gateway's auto-reply policy evaluator over untyped JSON policies. */
module Policy {
  import opened Common
  import opened Json

  datatype Action = QueueForHuman | AutoAccept | AutoDecline | AutoAcceptIfFree | DelegateToLlm

  function ActionText(a: Action): string {
    match a
    case QueueForHuman => "queue_for_human"
    case AutoAccept => "auto_accept"
    case AutoDecline => "auto_decline"
    case AutoAcceptIfFree => "auto_accept_if_free"
    case DelegateToLlm => "delegate_to_llm"
  }

  function ParseAction(s: string): Option<Action> {
    if s == "queue_for_human" then Some(QueueForHuman)
    else if s == "auto_accept" then Some(AutoAccept)
    else if s == "auto_decline" then Some(AutoDecline)
    else if s == "auto_accept_if_free" then Some(AutoAcceptIfFree)
    else if s == "delegate_to_llm" then Some(DelegateToLlm)
    else None
  }

  datatype ProtocolType = ScheduleNegotiation | TaskDelegation

  function TypeText(t: ProtocolType): string {
    match t
    case ScheduleNegotiation => "schedule_negotiation"
    case TaskDelegation => "task_delegation"
  }

  datatype ProtocolKey = ProtocolKey(protocolType: ProtocolType, action: string)

  datatype Context = Context(
    masterEnabled: bool, priority: string, trustScore: real, senderDid: string, isContact: bool,
    protocol: Option<ProtocolKey>)

  datatype Decision = Decision(action: Action, reason: string, rulePath: string, fallback: Option<string>)

  function PriorityRank(p: string): Option<nat> {
    if p == "background" then Some(0)
    else if p == "low" then Some(1)
    else if p == "normal" then Some(2)
    else if p == "high" then Some(3)
    else None
  }

  function Queue(reason: string, path: string): Decision {
    Decision(QueueForHuman, reason, path, None)
  }

  // ------------------------------------------------------------------
  // Conditions
  // ------------------------------------------------------------------

  function PriorityViolation(conds: Json, ctx: Context): Option<string> {
    match GetStr(conds, "priority_at_most")
    case None => None
    case Some(cap) =>
      match (PriorityRank(ctx.priority), PriorityRank(cap))
      case (Some(m), Some(c)) => if m > c then Some("priority_exceeds_policy") else None
      case _ => Some("invalid_policy")
  }

  function TrustViolation(conds: Json, ctx: Context): Option<string> {
    match conds.Get("min_trust_score")
    case None => None
    case Some(v) =>
      match v.AsF64()
      case None => None
      case Some(min) => if ctx.trustScore < min then Some("trust_below_threshold") else None
  }

  function ContactViolation(conds: Json, ctx: Context): Option<string> {
    if conds.Get("require_contact") == Some(Bool(true)) && !ctx.isContact then Some("not_a_contact") else None
  }

  function AllowlistViolation(conds: Json, ctx: Context): Option<string> {
    match conds.Get("sender_in_allowlist")
    case None => None
    case Some(v) =>
      match v.AsArray()
      case None => None
      case Some(items) => if Str(ctx.senderDid) in items then None else Some("sender_not_in_allowlist")
  }

  function EvaluateConditions(conditions: Option<Json>, ctx: Context): Option<string> {
    if conditions.None? || !conditions.value.Obj? then None else
      var conds := conditions.value;
      if PriorityViolation(conds, ctx).Some? then PriorityViolation(conds, ctx)
      else if TrustViolation(conds, ctx).Some? then TrustViolation(conds, ctx)
      else if ContactViolation(conds, ctx).Some? then ContactViolation(conds, ctx)
      else AllowlistViolation(conds, ctx)
  }

  // ------------------------------------------------------------------
  // Evaluation
  // ------------------------------------------------------------------

  function FinaliseAction(action: Action, path: string, isOverride: bool): Decision {
    match action
    case AutoAcceptIfFree => Decision(QueueForHuman, "calendar_unavailable", path, Some("calendar_unavailable"))
    case DelegateToLlm => Decision(QueueForHuman, "llm_unavailable", path, Some("llm_unavailable"))
    case _ => Decision(action, if isOverride then "protocol_override_match" else "default_match", path, None)
  }

  datatype Rule = Rule(action: Action, path: string, conditions: Option<Json>, isOverride: bool)

  /** The protocol override that applies, if any: every level must be an object and the action known. */
  function FindOverride(policy: Json, protocol: Option<ProtocolKey>): Option<Rule> {
    if protocol.None? then None else
      var key := protocol.value;
      match policy.Get("protocols")
      case None => None
      case Some(protocols) =>
        match protocols.Get(TypeText(key.protocolType))
        case None => None
        case Some(typeBlock) =>
          match typeBlock.Get(key.action)
          case None => None
          case Some(block) =>
            match GetStr(block, "action")
            case None => None
            case Some(text) =>
              match ParseAction(text)
              case None => None
              case Some(action) =>
                Some(Rule(action, "protocols." + TypeText(key.protocolType) + "." + key.action,
                          block.Get("conditions"), true))
  }

  /** The single rule in force, or the reason there is none. */
  function SelectRule(policy: Option<Json>, protocol: Option<ProtocolKey>): Result<Rule, string> {
    if policy.None? || !policy.value.Obj? || policy.value.fields == map[] then Err("no_policy") else
      var p := policy.value;
      if p.Get("v").None? || p.Get("v").value.AsU64() != Some(1) then Err("unsupported_schema")
      else if GetStr(p, "default_action").None? then Err("no_policy")
      else match ParseAction(GetStr(p, "default_action").value)
        case None => Err("invalid_policy")
        case Some(action) =>
          match FindOverride(p, protocol)
          case Some(rule) => Ok(rule)
          case None => Ok(Rule(action, "default", p.Get("default_conditions"), false))
  }

  function Evaluate(policy: Option<Json>, ctx: Context): Decision {
    if !ctx.masterEnabled then Queue("master_off", "master") else
      match SelectRule(policy, ctx.protocol)
      case Err(reason) => Queue(reason, "default")
      case Ok(rule) =>
        match EvaluateConditions(rule.conditions, ctx)
        case Some(violation) => Queue(violation, rule.path)
        case None => FinaliseAction(rule.action, rule.path, rule.isOverride)
  }

  function Merge(serverReason: Option<string>, client: Decision): Decision {
    if serverReason == Some("master_off") then Queue("master_off", "master") else client
  }

  // ------------------------------------------------------------------
  // What the conditions mean
  // ------------------------------------------------------------------

  /** The priorities the documentation names, lowest first. */
  const PRIORITIES := ["background", "low", "normal", "high"]

  /** Both are known priorities and the first does not exceed the second. */
  ghost predicate NoHigher(p: string, cap: string) {
    exists i, j :: 0 <= i <= j < 4 && PRIORITIES[i] == p && PRIORITIES[j] == cap
  }

  lemma RankIsPosition(p: string, i: nat)
    requires i < 4
    ensures PriorityRank(p) == Some(i) <==> PRIORITIES[i] == p
  {
    assert |"background"| == 10 && |"low"| == 3 && |"normal"| == 6 && |"high"| == 4;
  }

  lemma RankKnown(p: string)
    ensures PriorityRank(p).Some? <==> p in PRIORITIES
    ensures PriorityRank(p).Some? ==> PriorityRank(p).value < 4
  {
    if PriorityRank(p).Some? {
      RankIsPosition(p, PriorityRank(p).value);
    } else if p in PRIORITIES {
      var i :| 0 <= i < 4 && PRIORITIES[i] == p;
      RankIsPosition(p, i);
    }
  }

  lemma RankOrder(p: string, cap: string)
    ensures NoHigher(p, cap) <==>
            PriorityRank(p).Some? && PriorityRank(cap).Some? && PriorityRank(p).value <= PriorityRank(cap).value
  {
    RankKnown(p);
    RankKnown(cap);
    if PriorityRank(p).Some? && PriorityRank(cap).Some? {
      var i, j := PriorityRank(p).value, PriorityRank(cap).value;
      RankIsPosition(p, i);
      RankIsPosition(cap, j);
    }
    if NoHigher(p, cap) {
      var i, j :| 0 <= i <= j < 4 && PRIORITIES[i] == p && PRIORITIES[j] == cap;
      RankIsPosition(p, i);
      RankIsPosition(cap, j);
    }
  }

  ghost predicate PriorityHolds(c: map<string, Json>, ctx: Context) {
    "priority_at_most" in c && c["priority_at_most"].Str? ==> NoHigher(ctx.priority, c["priority_at_most"].s)
  }

  ghost predicate TrustHolds(c: map<string, Json>, ctx: Context) {
    && ("min_trust_score" in c && c["min_trust_score"].Int? ==> c["min_trust_score"].n as real <= ctx.trustScore)
    && ("min_trust_score" in c && c["min_trust_score"].Float? ==> c["min_trust_score"].x <= ctx.trustScore)
  }

  ghost predicate ContactHolds(c: map<string, Json>, ctx: Context) {
    "require_contact" in c && c["require_contact"] == Bool(true) ==> ctx.isContact
  }

  ghost predicate AllowlistHolds(c: map<string, Json>, ctx: Context) {
    "sender_in_allowlist" in c && c["sender_in_allowlist"].Arr? ==>
      Str(ctx.senderDid) in c["sender_in_allowlist"].items
  }

  /** What each present, well-typed condition asks. */
  ghost predicate ConditionsHold(conditions: Option<Json>, ctx: Context) {
    conditions.Some? && conditions.value.Obj? ==>
      var c := conditions.value.fields;
      PriorityHolds(c, ctx) && TrustHolds(c, ctx) && ContactHolds(c, ctx) && AllowlistHolds(c, ctx)
  }

  /** The reason named for conditions that do not all hold: the first that fails, in the documented order. */
  ghost function FirstFailure(c: map<string, Json>, ctx: Context): string {
    if !PriorityHolds(c, ctx) then
      if ctx.priority in PRIORITIES && c["priority_at_most"].s in PRIORITIES then "priority_exceeds_policy"
      else "invalid_policy"
    else if !TrustHolds(c, ctx) then "trust_below_threshold"
    else if !ContactHolds(c, ctx) then "not_a_contact"
    else "sender_not_in_allowlist"
  }

  /** No violation exactly when the conditions hold, and otherwise the first that fails. */
  lemma ConditionsExact(conditions: Option<Json>, ctx: Context)
    ensures EvaluateConditions(conditions, ctx) ==
            if ConditionsHold(conditions, ctx) then None else Some(FirstFailure(conditions.value.fields, ctx))
  {
    if conditions.Some? && conditions.value.Obj? {
      var conds := conditions.value;
      PriorityExact(conds, ctx);
      assert TrustViolation(conds, ctx) ==
             if TrustHolds(conds.fields, ctx) then None else Some("trust_below_threshold");
      assert ContactViolation(conds, ctx) == if ContactHolds(conds.fields, ctx) then None else Some("not_a_contact");
      assert AllowlistViolation(conds, ctx) ==
             if AllowlistHolds(conds.fields, ctx) then None else Some("sender_not_in_allowlist");
    }
  }

  lemma PriorityExact(conds: Json, ctx: Context)
    requires conds.Obj?
    ensures PriorityViolation(conds, ctx).None? <==> PriorityHolds(conds.fields, ctx)
    ensures !PriorityHolds(conds.fields, ctx) ==>
              PriorityViolation(conds, ctx) == Some(FirstFailure(conds.fields, ctx))
  {
    if "priority_at_most" in conds.fields && conds.fields["priority_at_most"].Str? {
      var cap := conds.fields["priority_at_most"].s;
      RankOrder(ctx.priority, cap);
      RankKnown(ctx.priority);
      RankKnown(cap);
    }
  }

  // ------------------------------------------------------------------
  // Which rule is in force
  // ------------------------------------------------------------------

  ghost predicate IsAction(text: string) {
    text in {"queue_for_human", "auto_accept", "auto_decline", "auto_accept_if_free", "delegate_to_llm"}
  }

  /** An object of version 1 whose default action is one of the five. */
  ghost predicate WellFormed(p: Json) {
    && p.Obj?
    && "v" in p.fields && p.fields["v"] == Int(1)
    && "default_action" in p.fields && p.fields["default_action"].Str? && IsAction(p.fields["default_action"].s)
  }

  /** The object under "protocols", the type and the action of the message. */
  ghost predicate Block(p: Json, protocol: Option<ProtocolKey>, block: Json) {
    && protocol.Some?
    && p.Obj? && "protocols" in p.fields && p.fields["protocols"].Obj?
    && var types := p.fields["protocols"].fields;
       var name := if protocol.value.protocolType.ScheduleNegotiation? then "schedule_negotiation"
                   else "task_delegation";
       && name in types && types[name].Obj?
       && protocol.value.action in types[name].fields && block == types[name].fields[protocol.value.action]
  }

  /** That block is an override: an object that names an action. */
  ghost predicate Overrides(p: Json, protocol: Option<ProtocolKey>, block: Json, text: string) {
    && Block(p, protocol, block)
    && block.Obj? && "action" in block.fields && block.fields["action"] == Str(text) && IsAction(text)
  }

  /** The rule a well-formed policy puts in force: its action's text, its conditions, its path and its match reason. */
  datatype RuleText = RuleText(text: string, conditions: Option<Json>, path: string, matched: string)

  ghost predicate OverrideInForce(p: Json, protocol: Option<ProtocolKey>, r: RuleText, block: Json) {
    && Overrides(p, protocol, block, r.text)
    && r.conditions == block.Get("conditions") && r.matched == "protocol_override_match"
    && r.path == "protocols." + (if protocol.value.protocolType.ScheduleNegotiation? then "schedule_negotiation"
                                 else "task_delegation") + "." + protocol.value.action
  }

  ghost predicate DefaultInForce(p: Json, protocol: Option<ProtocolKey>, r: RuleText) {
    && (forall block, text :: !Overrides(p, protocol, block, text))
    && p.Get("default_action") == Some(Str(r.text))
    && r.conditions == p.Get("default_conditions") && r.path == "default" && r.matched == "default_match"
  }

  ghost predicate InForce(p: Json, protocol: Option<ProtocolKey>, r: RuleText) {
    && WellFormed(p)
    && (DefaultInForce(p, protocol, r) || exists block :: OverrideInForce(p, protocol, r, block))
  }

  /** The five texts and nothing else name actions, each its own. */
  lemma ParseExactly(text: string)
    ensures ParseAction(text).Some? <==> IsAction(text)
    ensures forall a :: ParseAction(text) == Some(a) <==> text == ActionText(a)
  {
    LengthsOfActions();
  }

  lemma LengthsOfActions()
    ensures |"queue_for_human"| == 15 && |"auto_accept"| == 11 && |"auto_decline"| == 12
    ensures |"auto_accept_if_free"| == 19 && |"delegate_to_llm"| == 15
    ensures "queue_for_human" != "delegate_to_llm"
  {
    assert "queue_for_human"[0] == 'q' && "delegate_to_llm"[0] == 'd';
  }

  function TextOf(rule: Rule): RuleText {
    RuleText(ActionText(rule.action), rule.conditions, rule.path,
             if rule.isOverride then "protocol_override_match" else "default_match")
  }

  lemma FindsOverride(p: Json, protocol: Option<ProtocolKey>)
    requires p.Obj?
    ensures var found := FindOverride(p, protocol);
            if found.Some?
            then found.value.isOverride && exists block :: OverrideInForce(p, protocol, TextOf(found.value), block)
            else forall block, text :: !Overrides(p, protocol, block, text)
  {
    var found := FindOverride(p, protocol);
    if found.Some? {
      var key := protocol.value;
      var block := p.Get("protocols").value.Get(TypeText(key.protocolType)).value.Get(key.action).value;
      ParseExactly(GetStr(block, "action").value);
      assert OverrideInForce(p, protocol, TextOf(found.value), block);
    } else {
      forall block, text
        ensures !Overrides(p, protocol, block, text)
      {
        ParseExactly(text);
      }
    }
  }

  lemma OneRule(p: Json, protocol: Option<ProtocolKey>, r: RuleText, r': RuleText)
    requires InForce(p, protocol, r) && InForce(p, protocol, r')
    ensures r == r'
  {
  }

  /** A well-formed policy has exactly one rule in force, and it is the one selected. */
  lemma SelectedIsInForce(p: Json, protocol: Option<ProtocolKey>)
    requires WellFormed(p)
    ensures SelectRule(Some(p), protocol).Ok? && InForce(p, protocol, TextOf(SelectRule(Some(p), protocol).value))
  {
    assert p.fields != map[];
    ParseExactly(p.fields["default_action"].s);
    FindsOverride(p, protocol);
  }

  /** The decision a rule in force leads to, by the text of its action. */
  ghost function DecisionOf(r: RuleText, ctx: Context): Decision {
    if !ConditionsHold(r.conditions, ctx) then
      Decision(QueueForHuman, FirstFailure(r.conditions.value.fields, ctx), r.path, None)
    else if r.text == "auto_accept" then Decision(AutoAccept, r.matched, r.path, None)
    else if r.text == "auto_decline" then Decision(AutoDecline, r.matched, r.path, None)
    else if r.text == "auto_accept_if_free" then
      Decision(QueueForHuman, "calendar_unavailable", r.path, Some("calendar_unavailable"))
    else if r.text == "delegate_to_llm" then
      Decision(QueueForHuman, "llm_unavailable", r.path, Some("llm_unavailable"))
    else Decision(QueueForHuman, r.matched, r.path, None)
  }

  /** Under a well-formed policy the rule in force decides. */
  lemma DecidedByRule(p: Json, ctx: Context, r: RuleText)
    requires ctx.masterEnabled && InForce(p, ctx.protocol, r)
    ensures Evaluate(Some(p), ctx) == DecisionOf(r, ctx)
  {
    SelectedIsInForce(p, ctx.protocol);
    var rule := SelectRule(Some(p), ctx.protocol).value;
    OneRule(p, ctx.protocol, r, TextOf(rule));
    ConditionsExact(rule.conditions, ctx);
    LengthsOfActions();
  }

  /** Any other policy queues the message, and the reason says what is wrong with it. */
  lemma RefusedPolicy(policy: Option<Json>, ctx: Context)
    requires ctx.masterEnabled && (policy.Some? ==> !WellFormed(policy.value))
    ensures Evaluate(policy, ctx) ==
            Decision(QueueForHuman,
                     if policy.None? || !policy.value.Obj? || policy.value.fields == map[] then "no_policy"
                     else if policy.value.Get("v") != Some(Int(1)) then "unsupported_schema"
                     else if GetStr(policy.value, "default_action").None? then "no_policy"
                     else "invalid_policy",
                     "default", None)
  {
    if policy.Some? && policy.value.Obj? && GetStr(policy.value, "default_action").Some? {
      ParseExactly(GetStr(policy.value, "default_action").value);
    }
  }

  // ------------------------------------------------------------------
  // Soundness
  // ------------------------------------------------------------------

  predicate Automatic(d: Decision) {
    d.action == AutoAccept || d.action == AutoDecline
  }

  /**
   * The merged decision is automatic exactly when the switch is on at both ends
   * and a rule is in force whose action is accept or decline and whose
   * conditions hold; it then is that action. With the switch off at either end
   * the message is queued for that reason. No other automatic action ever comes out.
   */
  lemma AutomaticExactly(policy: Option<Json>, ctx: Context, serverReason: Option<string>)
    ensures var d := Merge(serverReason, Evaluate(policy, ctx));
            && d.action in {QueueForHuman, AutoAccept, AutoDecline}
            && (serverReason == Some("master_off") || !ctx.masterEnabled ==>
                  d == Decision(QueueForHuman, "master_off", "master", None))
            && (d.action == AutoAccept <==>
                  serverReason != Some("master_off") && ctx.masterEnabled && policy.Some?
                  && exists r :: InForce(policy.value, ctx.protocol, r) && r.text == "auto_accept"
                                 && ConditionsHold(r.conditions, ctx))
            && (d.action == AutoDecline <==>
                  serverReason != Some("master_off") && ctx.masterEnabled && policy.Some?
                  && exists r :: InForce(policy.value, ctx.protocol, r) && r.text == "auto_decline"
                                 && ConditionsHold(r.conditions, ctx))
  {
    LengthsOfActions();
    if ctx.masterEnabled {
      if policy.Some? && WellFormed(policy.value) {
        SelectedIsInForce(policy.value, ctx.protocol);
        var r := TextOf(SelectRule(policy, ctx.protocol).value);
        DecidedByRule(policy.value, ctx, r);
        forall r' | InForce(policy.value, ctx.protocol, r')
          ensures r' == r
        {
          OneRule(policy.value, ctx.protocol, r, r');
        }
      } else {
        RefusedPolicy(policy, ctx);
      }
    }
  }

  /**
   * `better` is at least as trustworthy a message as `ctx`: no less trust, a
   * contact if `ctx` was, no higher a known priority.
   */
  ghost predicate AtLeastAsGood(ctx: Context, better: Context) {
    && ctx.masterEnabled == better.masterEnabled && ctx.senderDid == better.senderDid && ctx.protocol == better.protocol
    && ctx.trustScore <= better.trustScore
    && (ctx.isContact ==> better.isContact)
    && (ctx.priority == better.priority || NoHigher(better.priority, ctx.priority))
  }

  lemma NoHigherChains(p: string, q: string, cap: string)
    requires NoHigher(p, q) && NoHigher(q, cap)
    ensures NoHigher(p, cap)
  {
    RankOrder(p, q);
    RankOrder(q, cap);
    RankOrder(p, cap);
  }

  lemma BetterHolds(conditions: Option<Json>, ctx: Context, better: Context)
    requires AtLeastAsGood(ctx, better) && ConditionsHold(conditions, ctx)
    ensures ConditionsHold(conditions, better)
  {
    if conditions.Some? && conditions.value.Obj? {
      var c := conditions.value.fields;
      if "priority_at_most" in c && c["priority_at_most"].Str? && ctx.priority != better.priority {
        NoHigherChains(better.priority, ctx.priority, c["priority_at_most"].s);
      }
    }
  }

  /** Improving a message never turns an automatic decision back, nor changes it. */
  lemma Monotone(policy: Option<Json>, ctx: Context, better: Context, serverReason: Option<string>)
    requires AtLeastAsGood(ctx, better)
    requires Automatic(Merge(serverReason, Evaluate(policy, ctx)))
    ensures Merge(serverReason, Evaluate(policy, better)) == Merge(serverReason, Evaluate(policy, ctx))
  {
    var rule := SelectRule(policy, ctx.protocol).value;
    ConditionsExact(rule.conditions, ctx);
    ConditionsExact(rule.conditions, better);
    BetterHolds(rule.conditions, ctx, better);
  }
}
