/**
 * The settings panel's policy editor: stored policy to draft and back, and
 * exactly when the round trip preserves what the gateway's evaluator decides.
 */
module PolicyEditor {
  import opened Common
  import opened Json
  import opened Policy
  import opened Text

  datatype Priority = High | Normal | Low | Background

  function PriorityText(p: Priority): string {
    match p
    case High => "high"
    case Normal => "normal"
    case Low => "low"
    case Background => "background"
  }

  datatype Conditions = Conditions(
    minTrust: Option<real>, requireContact: Option<bool>, priorityAtMost: Option<Priority>,
    allowlist: Option<seq<string>>)

  const NO_CONDITIONS := Conditions(None, None, None, None)

  datatype Override = Override(action: Action, conditions: Option<Conditions>, noteTemplate: Option<string>)

  /** A version-1 policy as stored: the panel knows two of the overrides and no default conditions. */
  datatype StoredPolicy = StoredPolicy(
    defaultAction: Action, defaultConditions: Option<Conditions>,
    schedule: map<string, Override>, task: map<string, Override>)

  datatype DraftAction = DraftAction(
    enabled: bool, action: Action, minTrust: string, requireContact: bool, priorityAtMost: Option<Priority>,
    allowlist: string, noteTemplate: string)

  datatype Draft = Draft(defaultAction: Action, schedulePropose: DraftAction, taskDelegate: DraftAction)

  // ------------------------------------------------------------------
  // Policy to draft
  // ------------------------------------------------------------------

  function JoinLines(lines: seq<string>): string {
    if lines == [] then "" else Join(lines, '\n')
  }

  function DraftFromAction(o: Option<Override>, num: NumberSyntax): DraftAction {
    if o.None? then DraftAction(false, QueueForHuman, "", false, None, "", "") else
      var c := if o.value.conditions.Some? then o.value.conditions.value else NO_CONDITIONS;
      DraftAction(
        true, o.value.action,
        if c.minTrust.Some? then num.Show(c.minTrust.value) else "",
        c.requireContact == Some(true),
        c.priorityAtMost,
        JoinLines(if c.allowlist.Some? then c.allowlist.value else []),
        if o.value.noteTemplate.Some? then o.value.noteTemplate.value else "")
  }

  function Lookup<T>(m: map<string, T>, key: string): Option<T> {
    if key in m then Some(m[key]) else None
  }

  function DraftFromPolicy(p: StoredPolicy, num: NumberSyntax): Draft {
    Draft(p.defaultAction, DraftFromAction(Lookup(p.schedule, "propose"), num),
          DraftFromAction(Lookup(p.task, "delegate"), num))
  }

  // ------------------------------------------------------------------
  // Draft to policy
  // ------------------------------------------------------------------

  /** One entry a line: a carriage return before the newline belongs to the break, blank lines are dropped. */
  function Entries(pieces: seq<string>): seq<string>
    requires |pieces| > 0
  {
    var line := if |pieces| > 1 then DropReturn(pieces[0]) else pieces[0];
    var rest := if |pieces| > 1 then Entries(pieces[1..]) else [];
    if Trim(line, Space) == "" then rest else [Trim(line, Space)] + rest
  }

  function DropReturn(s: string): string {
    if s != "" && s[|s| - 1] == '\r' then s[..|s| - 1] else s
  }

  function AllowlistFrom(text: string): seq<string> {
    Entries(Split(text, '\n'))
  }

  datatype EditError = BadMinTrust

  function ConditionsFrom(d: DraftAction, num: NumberSyntax): Result<Conditions, EditError> {
    var contact := if d.requireContact then Some(true) else None;
    var allowed := AllowlistFrom(d.allowlist);
    var allowlist := if allowed == [] then None else Some(allowed);
    if Trim(d.minTrust, Space) == "" then Ok(Conditions(None, contact, d.priorityAtMost, allowlist))
    else match num.Read(d.minTrust)
      case None => Err(BadMinTrust)
      case Some(n) => Ok(Conditions(Some(n), contact, d.priorityAtMost, allowlist))
  }

  function ActionFromDraft(d: DraftAction, num: NumberSyntax): Result<Option<Override>, EditError> {
    if !d.enabled then Ok(None) else
      match ConditionsFrom(d, num)
      case Err(e) => Err(e)
      case Ok(c) =>
        Ok(Some(Override(d.action, if c == NO_CONDITIONS then None else Some(c),
                         if Trim(d.noteTemplate, Space) == "" then None else Some(d.noteTemplate))))
  }

  function Single(key: string, o: Option<Override>): map<string, Override> {
    if o.Some? then map[key := o.value] else map[]
  }

  function PolicyFromDraft(d: Draft, num: NumberSyntax): Result<StoredPolicy, EditError> {
    match (ActionFromDraft(d.schedulePropose, num), ActionFromDraft(d.taskDelegate, num))
    case (Ok(schedule), Ok(task)) =>
      Ok(StoredPolicy(d.defaultAction, None, Single("propose", schedule), Single("delegate", task)))
    case _ => Err(BadMinTrust)
  }

  /** The panel fills the conditions object field by field. */
  method FillConditions(d: DraftAction, num: NumberSyntax) returns (r: Result<Conditions, EditError>)
    ensures r == ConditionsFrom(d, num)
  {
    var conditions := NO_CONDITIONS;
    if Trim(d.minTrust, Space) != "" {
      var n := num.Read(d.minTrust);
      if n.None? {
        return Err(BadMinTrust);
      }
      conditions := conditions.(minTrust := n);
    }
    conditions := FillTests(d, conditions);
    return Ok(conditions);
  }

  /** The fields after the threshold. */
  method FillTests(d: DraftAction, empty: Conditions) returns (conditions: Conditions)
    requires empty.requireContact.None? && empty.priorityAtMost.None? && empty.allowlist.None?
    ensures conditions.minTrust == empty.minTrust
    ensures conditions.requireContact == if d.requireContact then Some(true) else None
    ensures conditions.priorityAtMost == d.priorityAtMost
    ensures conditions.allowlist ==
            if AllowlistFrom(d.allowlist) == [] then None else Some(AllowlistFrom(d.allowlist))
  {
    conditions := empty;
    if d.requireContact {
      conditions := conditions.(requireContact := Some(true));
    }
    if d.priorityAtMost.Some? {
      conditions := conditions.(priorityAtMost := d.priorityAtMost);
    }
    var allowed := AllowlistFrom(d.allowlist);
    if |allowed| > 0 {
      conditions := conditions.(allowlist := Some(allowed));
    }
  }

  // ------------------------------------------------------------------
  // The stored JSON
  // ------------------------------------------------------------------

  function Field(key: string, value: Option<Json>): map<string, Json> {
    if value.Some? then map[key := value.value] else map[]
  }

  function StrItems(items: seq<string>): seq<Json> {
    seq(|items|, i requires 0 <= i < |items| => Str(items[i]))
  }

  function ConditionsJson(c: Conditions): Json {
    Obj(Field("min_trust_score", if c.minTrust.Some? then Some(Number(c.minTrust.value)) else None)
        + Field("require_contact", if c.requireContact.Some? then Some(Bool(c.requireContact.value)) else None)
        + Field("priority_at_most",
                if c.priorityAtMost.Some? then Some(Str(PriorityText(c.priorityAtMost.value))) else None)
        + Field("sender_in_allowlist", if c.allowlist.Some? then Some(Arr(StrItems(c.allowlist.value))) else None))
  }

  function MaybeConditions(c: Option<Conditions>): Option<Json> {
    if c.Some? then Some(ConditionsJson(c.value)) else None
  }

  function OverrideJson(o: Override): Json {
    Obj(map["action" := Str(ActionText(o.action))]
        + Field("conditions", MaybeConditions(o.conditions))
        + Field("note_template", if o.noteTemplate.Some? then Some(Str(o.noteTemplate.value)) else None))
  }

  function BlockJson(overrides: map<string, Override>): Option<Json> {
    if overrides == map[] then None else Some(Obj(map k | k in overrides :: OverrideJson(overrides[k])))
  }

  function ProtocolsJson(p: StoredPolicy): Option<Json> {
    if p.schedule == map[] && p.task == map[] then None
    else Some(Obj(Field("schedule_negotiation", BlockJson(p.schedule)) + Field("task_delegation", BlockJson(p.task))))
  }

  function HeadJson(p: StoredPolicy): map<string, Json> {
    map["v" := Int(1), "default_action" := Str(ActionText(p.defaultAction))]
  }

  function PolicyJson(p: StoredPolicy): Json {
    Obj(HeadJson(p)
        + Field("default_conditions", MaybeConditions(p.defaultConditions))
        + Field("protocols", ProtocolsJson(p)))
  }

  /** What the gateway decides under a stored policy. */
  function Decide(p: StoredPolicy, ctx: Context): Decision {
    Evaluate(Some(PolicyJson(p)), ctx)
  }

  // ------------------------------------------------------------------
  // Evaluation of stored policies
  // ------------------------------------------------------------------

  function OverridesOf(p: StoredPolicy, t: ProtocolType): map<string, Override> {
    if t == ScheduleNegotiation then p.schedule else p.task
  }

  function RuleFor(p: StoredPolicy, protocol: Option<ProtocolKey>): Rule {
    if protocol.Some? && protocol.value.action in OverridesOf(p, protocol.value.protocolType) then
      var key := protocol.value;
      var o := OverridesOf(p, key.protocolType)[key.action];
      Rule(o.action, "protocols." + TypeText(key.protocolType) + "." + key.action, MaybeConditions(o.conditions), true)
    else Rule(p.defaultAction, "default", MaybeConditions(p.defaultConditions), false)
  }

  lemma ParseActionText(a: Action)
    ensures ParseAction(ActionText(a)) == Some(a)
  {
  }

  lemma OverrideFields(o: Override)
    ensures GetStr(OverrideJson(o), "action") == Some(ActionText(o.action))
    ensures OverrideJson(o).Get("conditions") == MaybeConditions(o.conditions)
  {
  }

  /** One field more: its key now answers with the field, if there is one; the others as before. */
  lemma FieldAdded(m: map<string, Json>, key: string, value: Option<Json>, k: string)
    ensures Obj(m + Field(key, value)).Get(k) == if k == key && value.Some? then value else Obj(m).Get(k)
  {
  }

  lemma PolicyKeys()
    ensures "v" != "default_conditions" && "v" != "protocols"
    ensures "default_action" != "default_conditions" && "default_action" != "protocols"
    ensures "default_conditions" != "protocols"
    ensures "v" != "default_action"
  {
    assert |"v"| == 1 && |"default_action"| == 14 && |"default_conditions"| == 18 && |"protocols"| == 9;
  }

  lemma HeadFields(p: StoredPolicy)
    ensures var j := Obj(HeadJson(p));
            && j.Get("v") == Some(Int(1)) && j.Get("default_action") == Some(Str(ActionText(p.defaultAction)))
            && j.Get("default_conditions") == None && j.Get("protocols") == None
  {
    PolicyKeys();
  }

  lemma PolicyField(p: StoredPolicy, k: string)
    ensures PolicyJson(p).Get(k) ==
            if k == "protocols" && ProtocolsJson(p).Some? then ProtocolsJson(p)
            else if k == "default_conditions" && p.defaultConditions.Some? then MaybeConditions(p.defaultConditions)
            else Obj(HeadJson(p)).Get(k)
  {
    var m := HeadJson(p) + Field("default_conditions", MaybeConditions(p.defaultConditions));
    FieldAdded(HeadJson(p), "default_conditions", MaybeConditions(p.defaultConditions), k);
    FieldAdded(m, "protocols", ProtocolsJson(p), k);
  }

  lemma PolicyFields(p: StoredPolicy)
    ensures var j := PolicyJson(p);
            && j.Get("v") == Some(Int(1)) && j.fields != map[]
            && GetStr(j, "default_action") == Some(ActionText(p.defaultAction))
            && j.Get("default_conditions") == MaybeConditions(p.defaultConditions)
            && j.Get("protocols") == ProtocolsJson(p)
  {
    PolicyKeys();
    HeadFields(p);
    PolicyField(p, "v");
    PolicyField(p, "default_action");
    PolicyField(p, "default_conditions");
    PolicyField(p, "protocols");
  }

  lemma BlockOf(p: StoredPolicy, t: ProtocolType)
    ensures BlockJson(OverridesOf(p, t)).Some? ==>
              ProtocolsJson(p).Some? && ProtocolsJson(p).value.Get(TypeText(t)) == BlockJson(OverridesOf(p, t))
    ensures BlockJson(OverridesOf(p, t)).None? && ProtocolsJson(p).Some? ==>
              ProtocolsJson(p).value.Get(TypeText(t)) == None
  {
  }

  lemma EntryOf(overrides: map<string, Override>, action: string)
    requires overrides != map[]
    ensures BlockJson(overrides).value.Get(action) ==
            if action in overrides then Some(OverrideJson(overrides[action])) else None
  {
  }

  lemma FindOverrideOf(p: StoredPolicy, key: ProtocolKey)
    ensures FindOverride(PolicyJson(p), Some(key)) ==
            var overrides := OverridesOf(p, key.protocolType);
            if key.action in overrides then Some(RuleFor(p, Some(key))) else None
  {
    var overrides := OverridesOf(p, key.protocolType);
    PolicyFields(p);
    BlockOf(p, key.protocolType);
    if overrides != map[] {
      EntryOf(overrides, key.action);
      if key.action in overrides {
        OverrideFields(overrides[key.action]);
        ParseActionText(overrides[key.action].action);
      }
    }
  }

  /** The evaluator finds in the JSON the rule the typed policy names. */
  lemma SelectRuleOf(p: StoredPolicy, protocol: Option<ProtocolKey>)
    ensures SelectRule(Some(PolicyJson(p)), protocol) == Ok(RuleFor(p, protocol))
  {
    PolicyFields(p);
    ParseActionText(p.defaultAction);
    if protocol.Some? {
      FindOverrideOf(p, protocol.value);
    }
  }

  lemma ConditionsFields(c: Conditions)
    ensures var j := ConditionsJson(c);
            && GetStr(j, "priority_at_most") ==
                (if c.priorityAtMost.Some? then Some(PriorityText(c.priorityAtMost.value)) else None)
            && j.Get("min_trust_score") == (if c.minTrust.Some? then Some(Number(c.minTrust.value)) else None)
            && j.Get("require_contact") == (if c.requireContact.Some? then Some(Bool(c.requireContact.value)) else None)
            && j.Get("sender_in_allowlist") ==
                (if c.allowlist.Some? then Some(Arr(StrItems(c.allowlist.value))) else None)
  {
  }

  lemma StrItemsMember(items: seq<string>, s: string)
    ensures Str(s) in StrItems(items) <==> s in items
  {
    if s in items {
      var i :| 0 <= i < |items| && items[i] == s;
      assert StrItems(items)[i] == Str(s);
    }
  }

  /** What each violation depends on. */
  lemma ConditionsMeaning(c: Conditions, ctx: Context)
    ensures var j := ConditionsJson(c);
            && PriorityViolation(j, ctx) == (if c.priorityAtMost.None? then None else
                 match (PriorityRank(ctx.priority), PriorityRank(PriorityText(c.priorityAtMost.value)))
                 case (Some(m), Some(cap)) => if m > cap then Some("priority_exceeds_policy") else None
                 case _ => Some("invalid_policy"))
            && (TrustViolation(j, ctx).Some? <==> c.minTrust.Some? && ctx.trustScore < c.minTrust.value)
            && (ContactViolation(j, ctx).Some? <==> c.requireContact == Some(true) && !ctx.isContact)
            && (AllowlistViolation(j, ctx).Some? <==> c.allowlist.Some? && ctx.senderDid !in c.allowlist.value)
  {
    ConditionsFields(c);
    if c.allowlist.Some? {
      StrItemsMember(c.allowlist.value, ctx.senderDid);
    }
  }

  // ------------------------------------------------------------------
  // Trimming and lines
  // ------------------------------------------------------------------

  /** An entry the text box can hold: not empty, no newline, no white space at either end. */
  predicate CleanEntry(e: string) {
    e != "" && !Space(e[0]) && !Space(e[|e| - 1]) && '\n' !in e
  }

  predicate CleanEntries(list: seq<string>) {
    forall i :: 0 <= i < |list| ==> CleanEntry(list[i])
  }

  lemma {:induction false} TrimStartEnds(s: string)
    ensures var t := TrimStart(s, Space); (t != "" ==> !Space(t[0])) && forall c <- t :: c in s
    ensures TrimStart(s, Space) == "" <==> Blank(s)
  {
    if s != "" && Space(s[0]) {
      TrimStartEnds(s[1..]);
      assert s == [s[0]] + s[1..];
    } else if s != "" {
      assert s[0] in s;
    }
  }

  lemma {:induction false} TrimEndEnds(s: string)
    ensures var t := TrimEnd(s, Space); (t != "" ==> !Space(t[|t| - 1])) && t <= s
    ensures s != "" && !Space(s[0]) ==> TrimEnd(s, Space) != ""
  {
    if s != "" && Space(s[|s| - 1]) {
      TrimEndEnds(s[..|s| - 1]);
    }
  }

  lemma TrimEnds(s: string)
    ensures var t := Trim(s, Space); t != "" ==> !Space(t[0]) && !Space(t[|t| - 1]) && forall c <- t :: c in s
    ensures Trim(s, Space) == "" <==> Blank(s)
  {
    TrimStartEnds(s);
    TrimEndEnds(TrimStart(s, Space));
  }

  lemma {:induction false} EntriesAreClean(pieces: seq<string>)
    requires |pieces| > 0 && FreeOf(pieces, '\n')
    ensures CleanEntries(Entries(pieces))
  {
    var line := if |pieces| > 1 then DropReturn(pieces[0]) else pieces[0];
    TrimEnds(line);
    assert '\n' !in line;
    if |pieces| > 1 {
      EntriesAreClean(pieces[1..]);
    }
  }

  lemma {:induction false} CleanEntriesStay(list: seq<string>)
    requires |list| > 0 && CleanEntries(list)
    ensures Entries(list) == list
  {
    assert CleanEntry(list[0]);
    assert DropReturn(list[0]) == list[0];
    if |list| > 1 {
      CleanEntriesStay(list[1..]);
    }
    assert list == [list[0]] + list[1..];
  }

  /** An allowlist survives the text box exactly when all its entries are clean; what comes out always is. */
  lemma AllowlistSurvives(list: seq<string>)
    ensures var back := AllowlistFrom(JoinLines(list));
            CleanEntries(back) && (CleanEntries(list) ==> back == list)
  {
    JoinSplit(JoinLines(list), '\n');
    EntriesAreClean(Split(JoinLines(list), '\n'));
    if list != [] && CleanEntries(list) {
      assert forall i :: 0 <= i < |list| ==> CleanEntry(list[i]) ==> '\n' !in list[i];
      SplitJoin(list, '\n');
      CleanEntriesStay(list);
    }
  }

  // ------------------------------------------------------------------
  // What editing does
  // ------------------------------------------------------------------

  function EditedConditions(c: Conditions): Conditions {
    var back := AllowlistFrom(JoinLines(if c.allowlist.Some? then c.allowlist.value else []));
    Conditions(c.minTrust, if c.requireContact == Some(true) then Some(true) else None, c.priorityAtMost,
               if back == [] then None else Some(back))
  }

  function EditedOverride(o: Override): Override {
    var c := EditedConditions(if o.conditions.Some? then o.conditions.value else NO_CONDITIONS);
    Override(o.action, if c == NO_CONDITIONS then None else Some(c),
             if o.noteTemplate.Some? && Trim(o.noteTemplate.value, Space) != "" then o.noteTemplate else None)
  }

  function EditedMap(m: map<string, Override>, key: string): map<string, Override> {
    if key in m then map[key := EditedOverride(m[key])] else map[]
  }

  /** Opening a policy in the panel and saving it, unchanged. */
  function Edited(p: StoredPolicy): StoredPolicy {
    StoredPolicy(p.defaultAction, None, EditedMap(p.schedule, "propose"), EditedMap(p.task, "delegate"))
  }

  /** The threshold, if there is one, is a number the text box can show and read. */
  ghost predicate ThresholdPrints(o: Override, num: NumberSyntax) {
    o.conditions.Some? && o.conditions.value.minTrust.Some? ==> num.Prints(o.conditions.value.minTrust.value)
  }

  ghost predicate ThresholdsPrint(p: StoredPolicy, num: NumberSyntax) {
    && ("propose" in p.schedule ==> ThresholdPrints(p.schedule["propose"], num))
    && ("delegate" in p.task ==> ThresholdPrints(p.task["delegate"], num))
  }

  lemma ActionRoundTrip(o: Override, num: NumberSyntax)
    requires ThresholdPrints(o, num)
    ensures ActionFromDraft(DraftFromAction(Some(o), num), num) == Ok(Some(EditedOverride(o)))
  {
    var c := if o.conditions.Some? then o.conditions.value else NO_CONDITIONS;
    if c.minTrust.Some? {
      num.ReadShow(c.minTrust.value);
      TrimEnds(num.Show(c.minTrust.value));
    }
  }

  /** Saving never fails on an untouched draft, and stores `Edited(p)`. */
  lemma EditRoundTrip(p: StoredPolicy, num: NumberSyntax)
    requires ThresholdsPrint(p, num)
    ensures PolicyFromDraft(DraftFromPolicy(p, num), num) == Ok(Edited(p))
  {
    if "propose" in p.schedule { ActionRoundTrip(p.schedule["propose"], num); }
    if "delegate" in p.task { ActionRoundTrip(p.task["delegate"], num); }
  }

  // ------------------------------------------------------------------
  // Exactly when the round trip preserves meaning
  // ------------------------------------------------------------------

  /** No condition at all, or one that asks for nothing. */
  predicate Vacuous(c: Option<Conditions>) {
    c.Some? ==> c.value.minTrust.None? && c.value.requireContact != Some(true)
                && c.value.priorityAtMost.None? && c.value.allowlist.None?
  }

  /** No allowlist, or a non-empty one of clean entries. */
  predicate AllowlistSafe(o: Override) {
    o.conditions.Some? && o.conditions.value.allowlist.Some? ==>
      o.conditions.value.allowlist.value != [] && CleanEntries(o.conditions.value.allowlist.value)
  }

  predicate OverridesSafe(m: map<string, Override>, key: string) {
    m.Keys <= {key} && (key in m ==> AllowlistSafe(m[key]))
  }

  predicate EditSafe(p: StoredPolicy) {
    Vacuous(p.defaultConditions) && OverridesSafe(p.schedule, "propose") && OverridesSafe(p.task, "delegate")
  }

  lemma VacuousNeverFails(c: Option<Conditions>, ctx: Context)
    requires Vacuous(c)
    ensures EvaluateConditions(MaybeConditions(c), ctx) == None
  {
    if c.Some? {
      ConditionsMeaning(c.value, ctx);
    }
  }

  lemma SafeConditionsAgree(o: Override, ctx: Context)
    requires AllowlistSafe(o)
    ensures EvaluateConditions(MaybeConditions(EditedOverride(o).conditions), ctx)
            == EvaluateConditions(MaybeConditions(o.conditions), ctx)
  {
    var c := if o.conditions.Some? then o.conditions.value else NO_CONDITIONS;
    var e := EditedConditions(c);
    AllowlistSurvives(if c.allowlist.Some? then c.allowlist.value else []);
    assert e.allowlist == c.allowlist;
    ConditionsMeaning(c, ctx);
    ConditionsMeaning(e, ctx);
    assert EvaluateConditions(Some(ConditionsJson(c)), ctx) == EvaluateConditions(Some(ConditionsJson(e)), ctx);
    if o.conditions.None? {
      VacuousNeverFails(Some(c), ctx);
    }
    if e == NO_CONDITIONS {
      VacuousNeverFails(Some(e), ctx);
    }
  }

  lemma SafeAgrees(p: StoredPolicy, ctx: Context)
    requires EditSafe(p)
    ensures Decide(Edited(p), ctx) == Decide(p, ctx)
  {
    var q := Edited(p);
    SelectRuleOf(p, ctx.protocol);
    SelectRuleOf(q, ctx.protocol);
    RulesAgree(p, ctx);
  }

  lemma RulesAgree(p: StoredPolicy, ctx: Context)
    requires EditSafe(p)
    ensures var r, e := RuleFor(p, ctx.protocol), RuleFor(Edited(p), ctx.protocol);
            && e.action == r.action && e.path == r.path && e.isOverride == r.isOverride
            && EvaluateConditions(e.conditions, ctx) == EvaluateConditions(r.conditions, ctx)
  {
    VacuousNeverFails(p.defaultConditions, ctx);
    VacuousNeverFails(None, ctx);
    if ctx.protocol.Some? {
      var key := ctx.protocol.value;
      var overrides := OverridesOf(p, key.protocolType);
      if key.action in overrides {
        SafeConditionsAgree(overrides[key.action], ctx);
        assert OverridesOf(Edited(p), key.protocolType)[key.action] == EditedOverride(overrides[key.action]);
      } else {
        assert key.action !in OverridesOf(Edited(p), key.protocolType);
      }
    }
  }

  // A context for every way of being unsafe.

  function Longer(list: seq<string>): (s: string)
    ensures forall i :: 0 <= i < |list| ==> |list[i]| < |s|
  {
    if list == [] then "x" else
      var s := Longer(list[1..]);
      if |list[0]| < |s| then s else list[0] + "x"
  }

  lemma UnknownOverrideDiffers(p: StoredPolicy, t: ProtocolType, action: string)
    requires action in OverridesOf(p, t) && action != if t == ScheduleNegotiation then "propose" else "delegate"
    ensures exists ctx :: Decide(Edited(p), ctx) != Decide(p, ctx)
  {
    var ctx := Context(true, "", 0.0, "", false, Some(ProtocolKey(t, action)));
    PathOfRule(p, ctx);
    PathOfRule(Edited(p), ctx);
    OverridePath(t, action);
  }

  lemma PathOfRule(p: StoredPolicy, ctx: Context)
    requires ctx.masterEnabled
    ensures Decide(p, ctx).rulePath == RuleFor(p, ctx.protocol).path
  {
    SelectRuleOf(p, ctx.protocol);
  }

  lemma OverridePath(t: ProtocolType, action: string)
    ensures "protocols." + TypeText(t) + "." + action != "default"
  {
    assert ("protocols." + TypeText(t) + "." + action)[0] == 'p';
  }

  lemma DefaultConditionsDiffer(p: StoredPolicy)
    requires !Vacuous(p.defaultConditions)
    ensures exists ctx :: Decide(Edited(p), ctx) != Decide(p, ctx)
  {
    var c := p.defaultConditions.value;
    var sender := Longer(if c.allowlist.Some? then c.allowlist.value else []);
    var ctx := Context(true, "", if c.minTrust.Some? then c.minTrust.value - 1.0 else 0.0, sender, false, None);
    SelectRuleOf(p, ctx.protocol);
    SelectRuleOf(Edited(p), ctx.protocol);
    AnyViolation(ConditionsJson(c), ctx);
    ConditionsMeaning(c, ctx);
    ViolationShows(p, Edited(p), ctx);
  }

  /** A refused context and an admitted one give different reasons. */
  lemma ViolationShows(p: StoredPolicy, q: StoredPolicy, ctx: Context)
    requires ctx.masterEnabled
    requires EvaluateConditions(RuleFor(p, ctx.protocol).conditions, ctx).Some?
    requires EvaluateConditions(RuleFor(q, ctx.protocol).conditions, ctx).None?
    ensures Decide(q, ctx) != Decide(p, ctx)
  {
    SelectRuleOf(p, ctx.protocol);
    SelectRuleOf(q, ctx.protocol);
    RefusalReason(RuleFor(p, ctx.protocol).conditions, ctx);
    FinalReason(RuleFor(q, ctx.protocol));
    ReasonsDistinct(Decide(p, ctx).reason, Decide(q, ctx).reason);
  }

  predicate Refusal(reason: string) {
    || reason == "priority_exceeds_policy" || reason == "invalid_policy" || reason == "trust_below_threshold"
    || reason == "not_a_contact" || reason == "sender_not_in_allowlist"
  }

  predicate Final(reason: string) {
    || reason == "calendar_unavailable" || reason == "llm_unavailable" || reason == "protocol_override_match"
    || reason == "default_match"
  }

  lemma RefusalReason(conditions: Option<Json>, ctx: Context)
    requires EvaluateConditions(conditions, ctx).Some?
    ensures Refusal(EvaluateConditions(conditions, ctx).value)
  {
  }

  lemma FinalReason(rule: Rule)
    ensures Final(FinaliseAction(rule.action, rule.path, rule.isOverride).reason)
  {
  }

  lemma ReasonsDistinct(refusal: string, final: string)
    requires Refusal(refusal) && Final(final)
    ensures refusal != final
  {
    if |refusal| == 23 {
      assert refusal[2] == 'i' || refusal[2] == 'n';
      assert |final| == 23 ==> final[2] == 'o';
    } else if |refusal| == 13 {
      assert refusal[0] == 'n';
      assert |final| == 13 ==> final[0] == 'd';
    }
  }

  lemma AllowlistDiffers(p: StoredPolicy, t: ProtocolType)
    requires var key := if t == ScheduleNegotiation then "propose" else "delegate";
             key in OverridesOf(p, t) && !AllowlistSafe(OverridesOf(p, t)[key])
    ensures exists ctx :: Decide(Edited(p), ctx) != Decide(p, ctx)
  {
    var key := if t == ScheduleNegotiation then "propose" else "delegate";
    var o := OverridesOf(p, t)[key];
    var list := o.conditions.value.allowlist.value;
    var back := AllowlistFrom(JoinLines(list));
    AllowlistSurvives(list);
    if back == [] {
      var ctx := AllowlistContext(p, t, key, Longer(list));
      ViolationShows(p, Edited(p), ctx);
    } else {
      var i :| 0 <= i < |list| && !CleanEntry(list[i]);
      assert list[i] !in back;
      var ctx := AllowlistContext(p, t, key, list[i]);
      ViolationShows(Edited(p), p, ctx);
    }
  }

  /** A context in which only the allowlists of the override, before and after editing, matter. */
  lemma AllowlistContext(p: StoredPolicy, t: ProtocolType, key: string, sender: string) returns (ctx: Context)
    requires key == if t == ScheduleNegotiation then "propose" else "delegate"
    requires key in OverridesOf(p, t) && !AllowlistSafe(OverridesOf(p, t)[key])
    ensures ctx.masterEnabled
    ensures var list := OverridesOf(p, t)[key].conditions.value.allowlist.value;
            var back := AllowlistFrom(JoinLines(list));
            && (EvaluateConditions(RuleFor(p, ctx.protocol).conditions, ctx).Some? <==> sender !in list)
            && (EvaluateConditions(RuleFor(Edited(p), ctx.protocol).conditions, ctx).Some? <==>
                  back != [] && sender !in back)
  {
    var o := OverridesOf(p, t)[key];
    var c := o.conditions.value;
    ctx := Context(true, "background", if c.minTrust.Some? then c.minTrust.value else 0.0, sender, true,
                   Some(ProtocolKey(t, key)));
    OnlyAllowlistMatters(c, ctx);
    OnlyAllowlistMatters(EditedConditions(c), ctx);
    assert RuleFor(p, ctx.protocol).conditions == Some(ConditionsJson(c));
    assert OverridesOf(Edited(p), t)[key] == EditedOverride(o);
    if EditedConditions(c) == NO_CONDITIONS {
      VacuousNeverFails(None, ctx);
    }
  }

  lemma AnyViolation(j: Json, ctx: Context)
    requires j.Obj?
    ensures EvaluateConditions(Some(j), ctx).Some? <==>
            PriorityViolation(j, ctx).Some? || TrustViolation(j, ctx).Some? || ContactViolation(j, ctx).Some?
            || AllowlistViolation(j, ctx).Some?
  {
  }

  lemma PriorityNever(cap: Priority)
    ensures PriorityRank("background") == Some(0) && PriorityRank(PriorityText(cap)).Some?
  {
  }

  lemma OnlyAllowlistMatters(c: Conditions, ctx: Context)
    requires ctx.priority == "background" && ctx.isContact && (c.minTrust.Some? ==> c.minTrust.value <= ctx.trustScore)
    ensures EvaluateConditions(Some(ConditionsJson(c)), ctx).Some? <==>
            c.allowlist.Some? && ctx.senderDid !in c.allowlist.value
  {
    var j := ConditionsJson(c);
    AnyViolation(j, ctx);
    ConditionsMeaning(c, ctx);
    if c.priorityAtMost.Some? {
      PriorityNever(c.priorityAtMost.value);
    }
  }

  /**
   * Opening and saving a policy preserves every decision of the gateway if and
   * only if the policy has no effective default conditions, no override the
   * panel does not show, and only non-empty allowlists of clean entries.
   */
  lemma EditPreservesMeaningIff(p: StoredPolicy)
    ensures EditSafe(p) <==> forall ctx :: Decide(Edited(p), ctx) == Decide(p, ctx)
  {
    if EditSafe(p) {
      forall ctx { SafeAgrees(p, ctx); }
    } else if !Vacuous(p.defaultConditions) {
      DefaultConditionsDiffer(p);
    } else if !OverridesSafe(p.schedule, "propose") {
      UnsafeDiffers(p, ScheduleNegotiation);
    } else {
      UnsafeDiffers(p, TaskDelegation);
    }
  }

  /** The same of the panel's own functions: what opening and saving stores decides alike exactly in that fragment. */
  lemma SavingPreservesMeaningIff(p: StoredPolicy, num: NumberSyntax)
    requires ThresholdsPrint(p, num)
    ensures var saved := PolicyFromDraft(DraftFromPolicy(p, num), num);
            saved.Ok? && (EditSafe(p) <==> forall ctx :: Decide(saved.value, ctx) == Decide(p, ctx))
  {
    EditRoundTrip(p, num);
    EditPreservesMeaningIff(p);
  }

  lemma UnsafeDiffers(p: StoredPolicy, t: ProtocolType)
    requires !OverridesSafe(OverridesOf(p, t), if t == ScheduleNegotiation then "propose" else "delegate")
    ensures exists ctx :: Decide(Edited(p), ctx) != Decide(p, ctx)
  {
    var key := if t == ScheduleNegotiation then "propose" else "delegate";
    if !(OverridesOf(p, t).Keys <= {key}) {
      var action :| action in OverridesOf(p, t) && action != key;
      UnknownOverrideDiffers(p, t, action);
    } else {
      AllowlistDiffers(p, t);
    }
  }

  // ------------------------------------------------------------------
  // What any draft means
  // ------------------------------------------------------------------

  /** `e` stands on a line of the text box, without the white space around it. */
  ghost predicate Listed(text: string, e: string) {
    e != "" && exists i :: 0 <= i < |Split(text, '\n')| && e == Trim(Split(text, '\n')[i], Space)
  }

  lemma TrimDropsReturn(s: string)
    ensures Trim(DropReturn(s), Space) == Trim(s, Space)
  {
    var q := DropReturn(s);
    if q != s {
      var left, right := TrimSplits(q, Space);
      var core := Trim(q, Space);
      assert s == q + ['\r'];
      assert s == left + core + (right + ['\r']);
      TrimCore(left, core, right + ['\r'], Space);
    }
  }

  lemma {:induction false} EntriesExactly(pieces: seq<string>, e: string)
    requires |pieces| > 0
    ensures e in Entries(pieces) <==> e != "" && exists i :: 0 <= i < |pieces| && e == Trim(pieces[i], Space)
  {
    TrimDropsReturn(pieces[0]);
    if |pieces| > 1 {
      EntriesExactly(pieces[1..], e);
      assert forall i :: 1 <= i < |pieces| ==> pieces[i] == pieces[1..][i - 1];
    }
  }

  lemma AllowlistExactly(text: string, e: string)
    ensures e in AllowlistFrom(text) <==> Listed(text, e)
  {
    EntriesExactly(Split(text, '\n'), e);
  }

  lemma AllowlistEmptyExactly(text: string)
    ensures AllowlistFrom(text) == [] <==> forall e :: !Listed(text, e)
  {
    forall e
      ensures e in AllowlistFrom(text) <==> Listed(text, e)
    {
      AllowlistExactly(text, e);
    }
    if AllowlistFrom(text) != [] {
      assert Listed(text, AllowlistFrom(text)[0]);
    }
  }

  /** What a section of the panel asks of a message, from its fields as typed. */
  ghost predicate Admits(d: DraftAction, num: NumberSyntax, ctx: Context) {
    && (!Blank(d.minTrust) ==> num.Read(d.minTrust).Some? && num.Read(d.minTrust).value <= ctx.trustScore)
    && (d.requireContact ==> ctx.isContact)
    && (d.priorityAtMost.Some? ==> NoHigher(ctx.priority, PriorityText(d.priorityAtMost.value)))
    && ((exists e :: Listed(d.allowlist, e)) ==> Listed(d.allowlist, ctx.senderDid))
  }

  /** The threshold that is typed and is not a finite number. */
  ghost predicate BadThreshold(d: DraftAction, num: NumberSyntax) {
    d.enabled && !Blank(d.minTrust) && num.Read(d.minTrust).None?
  }

  /** The four choices are the four documented priorities, in order. */
  lemma PriorityNames()
    ensures [PriorityText(Background), PriorityText(Low), PriorityText(Normal), PriorityText(High)] == PRIORITIES
  {
  }

  lemma PriorityMeaning(c: Conditions, ctx: Context)
    ensures PriorityViolation(ConditionsJson(c), ctx).None? <==>
            (c.priorityAtMost.Some? ==> NoHigher(ctx.priority, PriorityText(c.priorityAtMost.value)))
  {
    ConditionsMeaning(c, ctx);
    if c.priorityAtMost.Some? {
      RankOrder(ctx.priority, PriorityText(c.priorityAtMost.value));
    }
  }

  lemma StoredConditionsMean(c: Conditions, ctx: Context)
    ensures EvaluateConditions(Some(ConditionsJson(c)), ctx).None? <==>
            && (c.minTrust.Some? ==> c.minTrust.value <= ctx.trustScore)
            && (c.requireContact == Some(true) ==> ctx.isContact)
            && (c.priorityAtMost.Some? ==> NoHigher(ctx.priority, PriorityText(c.priorityAtMost.value)))
            && (c.allowlist.Some? ==> ctx.senderDid in c.allowlist.value)
  {
    AnyViolation(ConditionsJson(c), ctx);
    ConditionsMeaning(c, ctx);
    PriorityMeaning(c, ctx);
  }

  /** An enabled section is refused exactly for its threshold, and otherwise stored with what its fields ask. */
  lemma DraftMeaning(d: DraftAction, num: NumberSyntax, ctx: Context)
    requires d.enabled
    ensures var r := ActionFromDraft(d, num);
            && (r.Err? <==> BadThreshold(d, num))
            && (r.Ok? ==>
                  && r.value.Some? && r.value.value.action == d.action
                  && r.value.value.noteTemplate == (if Blank(d.noteTemplate) then None else Some(d.noteTemplate))
                  && (EvaluateConditions(MaybeConditions(r.value.value.conditions), ctx).None? <==>
                        Admits(d, num, ctx)))
  {
    TrimEnds(d.minTrust);
    TrimEnds(d.noteTemplate);
    AllowlistExactly(d.allowlist, ctx.senderDid);
    AllowlistEmptyExactly(d.allowlist);
    var c := ConditionsFrom(d, num);
    if c.Ok? {
      StoredConditionsMean(c.value, ctx);
      VacuousNeverFails(None, ctx);
    }
  }

  /** The section of the draft a message falls under, if the user has enabled it. */
  ghost function SectionFor(d: Draft, protocol: Option<ProtocolKey>): Option<DraftAction> {
    if protocol == Some(ProtocolKey(ScheduleNegotiation, "propose")) && d.schedulePropose.enabled then
      Some(d.schedulePropose)
    else if protocol == Some(ProtocolKey(TaskDelegation, "delegate")) && d.taskDelegate.enabled then
      Some(d.taskDelegate)
    else None
  }

  /**
   * What any draft decides once saved: by its section, if the message is
   * admitted, or by its default without conditions.
   */
  lemma DraftDecides(d: Draft, num: NumberSyntax, ctx: Context)
    requires ctx.masterEnabled
    ensures var saved := PolicyFromDraft(d, num);
            && (saved.Err? <==> BadThreshold(d.schedulePropose, num) || BadThreshold(d.taskDelegate, num))
            && (saved.Ok? ==>
                  var section := SectionFor(d, ctx.protocol);
                  var decision := Decide(saved.value, ctx);
                  && (section.None? ==>
                        decision ==
                        DecisionOf(RuleText(ActionText(d.defaultAction), None, "default", "default_match"), ctx))
                  && (section.Some? && !Admits(section.value, num, ctx) ==> decision.action == QueueForHuman)
                  && (section.Some? && Admits(section.value, num, ctx) ==>
                        decision == DecisionOf(RuleText(ActionText(section.value.action), None,
                                                        decision.rulePath, "protocol_override_match"), ctx)))
  {
    SectionErrors(d, num, ctx);
    var saved := PolicyFromDraft(d, num);
    if saved.Ok? {
      SelectRuleOf(saved.value, ctx.protocol);
      var section := SectionFor(d, ctx.protocol);
      if section.Some? {
        DraftMeaning(section.value, num, ctx);
        TextDecides(section.value.action, RuleFor(saved.value, ctx.protocol).path, true, ctx);
      } else {
        DefaultWhenNoSection(d, num, ctx.protocol);
        TextDecides(d.defaultAction, "default", false, ctx);
      }
    }
  }

  lemma SectionErrors(d: Draft, num: NumberSyntax, ctx: Context)
    ensures PolicyFromDraft(d, num).Err? <==>
            BadThreshold(d.schedulePropose, num) || BadThreshold(d.taskDelegate, num)
  {
    if d.schedulePropose.enabled { DraftMeaning(d.schedulePropose, num, ctx); }
    if d.taskDelegate.enabled { DraftMeaning(d.taskDelegate, num, ctx); }
  }

  lemma DefaultWhenNoSection(d: Draft, num: NumberSyntax, protocol: Option<ProtocolKey>)
    requires PolicyFromDraft(d, num).Ok? && SectionFor(d, protocol).None?
    ensures RuleFor(PolicyFromDraft(d, num).value, protocol) == Rule(d.defaultAction, "default", None, false)
  {
  }

  /** An action finalised is what its text decides with no condition in the way. */
  lemma TextDecides(action: Action, path: string, isOverride: bool, ctx: Context)
    ensures FinaliseAction(action, path, isOverride) ==
            DecisionOf(RuleText(ActionText(action), None, path,
                                if isOverride then "protocol_override_match" else "default_match"), ctx)
  {
    LengthsOfActions();
  }
}
