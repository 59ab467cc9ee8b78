/**
 * Agent-to-agent protocol blocks: the gateway's reader and reply builder,
 * against the SDK's runtime guards and validators.
 */
module A2a {
  import opened Common
  import opened Json
  import opened Policy
  import opened Text

  const DECLINE_REASON := "ポリシーに基づき自動で辞退しました"
  const MAX_CANDIDATES := 20
  const MAX_DURATION_MS := 24 * 3600 * 1000

  // ------------------------------------------------------------------
  // The SDK's guards and validators
  // ------------------------------------------------------------------

  /** Date text: the ISO 8601 check with its finite parse, and the parsed milliseconds. */
  datatype Dates = Dates(isIso: string -> bool, millis: string -> int)

  predicate Absent(j: Json, key: string) {
    j.Get(key).None?
  }

  predicate StrAtMost(j: Json, key: string, max: nat) {
    Absent(j, key) || (GetStr(j, key).Some? && |GetStr(j, key).value| <= max)
  }

  predicate IsoField(d: Dates, j: Json, key: string) {
    GetStr(j, key).Some? && d.isIso(GetStr(j, key).value)
  }

  predicate ValidCandidate(d: Dates, c: Json) {
    && IsoField(d, c, "start") && IsoField(d, c, "end")
    && var from, to := d.millis(GetStr(c, "start").value), d.millis(GetStr(c, "end").value);
    from < to && to - from <= MAX_DURATION_MS
  }

  predicate ValidCandidates(d: Dates, list: Option<Json>) {
    && list.Some? && list.value.Arr?
    && 1 <= |list.value.items| <= MAX_CANDIDATES
    && forall i :: 0 <= i < |list.value.items| ==> ValidCandidate(d, list.value.items[i])
  }

  predicate NonBlankStr(j: Json, key: string) {
    GetStr(j, key).Some? && !Blank(GetStr(j, key).value)
  }

  predicate ValidPropose(d: Dates, p: Json) {
    && NonBlankStr(p, "event_title")
    && ValidCandidates(d, p.Get("candidates"))
    && p.Get("required_participants").Some? && p.Get("required_participants").value.Arr?
    && (Absent(p, "response_deadline") || IsoField(d, p, "response_deadline"))
  }

  predicate ReasonOnly(p: Json) {
    Absent(p, "reason") || GetStr(p, "reason").Some?
  }

  predicate ValidDelegate(d: Dates, p: Json) {
    && NonBlankStr(p, "title") && |GetStr(p, "title").value| <= 200
    && StrAtMost(p, "description", 4000)
    && (Absent(p, "due_date") || IsoField(d, p, "due_date"))
    && (Absent(p, "priority") || p.Get("priority").value in {Str("high"), Str("normal"), Str("low")})
  }

  predicate ValidPayload(d: Dates, t: ProtocolType, action: string, p: Json) {
    match t
    case ScheduleNegotiation =>
      if action == "propose" then ValidPropose(d, p)
      else if action == "accept" then
        p.Get("selected_candidate").Some? && ValidCandidate(d, p.Get("selected_candidate").value)
      else if action == "decline" then ReasonOnly(p)
      else action == "counter" && ValidCandidates(d, p.Get("candidates")) && ReasonOnly(p)
    case TaskDelegation =>
      if action == "delegate" then ValidDelegate(d, p)
      else if action == "accept" then StrAtMost(p, "note", 2000)
      else if action == "decline" then ReasonOnly(p)
      else action == "complete" && StrAtMost(p, "result", 4000)
  }

  predicate LegalAction(t: ProtocolType, action: string) {
    if t == ScheduleNegotiation then action in {"propose", "accept", "decline", "counter"}
    else action in {"delegate", "accept", "decline", "complete"}
  }

  function TypeOf(text: Option<string>): Option<ProtocolType> {
    if text == Some("schedule_negotiation") then Some(ScheduleNegotiation)
    else if text == Some("task_delegation") then Some(TaskDelegation)
    else None
  }

  /** `isA2AProtocolBlock`. */
  predicate IsBlock(v: Json) {
    && GetStr(v, "id").Some? && GetStr(v, "id").value != ""
    && TypeOf(GetStr(v, "type")).Some?
    && GetStr(v, "action").Some? && LegalAction(TypeOf(GetStr(v, "type")).value, GetStr(v, "action").value)
    && v.Get("reply_to").Some? && (v.Get("reply_to").value.Null? || v.Get("reply_to").value.Str?)
    && v.Get("payload").Some? && (v.Get("payload").value.Obj? || v.Get("payload").value.Arr?)
  }

  /** A block that passes the guard and `assertValidA2APayload`. */
  predicate ValidBlock(d: Dates, v: Json) {
    IsBlock(v) && ValidPayload(d, TypeOf(GetStr(v, "type")).value, GetStr(v, "action").value, v.Get("payload").value)
  }

  /** `isA2AMessagePayload`: JavaScript does not tell 1 from 1.0. */
  predicate IsMessage(v: Json) {
    && (v.Get("v") == Some(Int(1)) || v.Get("v") == Some(Float(1.0)))
    && GetStr(v, "body").Some?
    && (Absent(v, "protocol") || IsBlock(v.Get("protocol").value))
  }

  datatype Parsed = Parsed(body: string, protocol: Option<Json>) | ParseError

  /** The SDK's `parseA2APayload` on a body of the A2A content type that is JSON. */
  function SdkParse(doc: Json): Parsed {
    if !IsMessage(doc) then ParseError else Parsed(GetStr(doc, "body").value, doc.Get("protocol"))
  }

  // ------------------------------------------------------------------
  // The gateway's reader
  // ------------------------------------------------------------------

  datatype Block = Block(id: string, protocolType: ProtocolType, action: string, replyTo: Option<string>, payload: Json)

  function ParseBlock(raw: Json): Option<Block> {
    if GetStr(raw, "id").None? || GetStr(raw, "id").value == "" then None
    else if TypeOf(GetStr(raw, "type")).None? || GetStr(raw, "action").None? then None
    else if !(Absent(raw, "reply_to") || raw.Get("reply_to").value.Null? || raw.Get("reply_to").value.Str?) then None
    else if Absent(raw, "payload") || !raw.Get("payload").value.Obj? then None
    else Some(Block(GetStr(raw, "id").value, TypeOf(GetStr(raw, "type")).value, GetStr(raw, "action").value,
                    GetStr(raw, "reply_to"), raw.Get("payload").value))
  }

  /**
   * The frame of text that is A2A JSON: refused unless its version is 1, and
   * with the protocol block if there is a well-formed one.
   */
  function ParseFrame(doc: Json): Option<Option<Block>> {
    if doc.Get("v").None? || doc.Get("v").value.AsU64() != Some(1) then None
    else if Absent(doc, "protocol") then Some(None)
    else Some(ParseBlock(doc.Get("protocol").value))
  }

  // ------------------------------------------------------------------
  // The gateway's replies
  // ------------------------------------------------------------------

  function SourceAction(t: ProtocolType): string {
    if t == ScheduleNegotiation then "propose" else "delegate"
  }

  function FirstCandidate(payload: Json): Option<Json> {
    match payload.Get("candidates")
    case None => None
    case Some(list) =>
      if !list.Arr? || |list.items| == 0 then None else
        match (GetStr(list.items[0], "start"), GetStr(list.items[0], "end"))
        case (Some(from), Some(to)) => Some(Obj(map["start" := Str(from), "end" := Str(to)]))
        case _ => None
  }

  function ReplyPayload(b: Block, accept: bool): Option<Json> {
    if !accept then Some(Obj(map["reason" := Str(DECLINE_REASON)]))
    else if b.protocolType == TaskDelegation then Some(Obj(map[]))
    else match FirstCandidate(b.payload)
      case None => None
      case Some(candidate) => Some(Obj(map["selected_candidate" := candidate]))
  }

  /** `build_reply_block` for the action `accept` or `decline`. */
  function BuildReply(b: Block, accept: bool, newId: string): Option<Json> {
    if b.action != SourceAction(b.protocolType) then None else
      match ReplyPayload(b, accept)
      case None => None
      case Some(payload) =>
        Some(Obj(map["id" := Str(newId), "type" := Str(TypeText(b.protocolType)),
                     "action" := Str(if accept then "accept" else "decline"),
                     "reply_to" := Str(b.id), "payload" := payload]))
  }

  // ------------------------------------------------------------------
  // The two sides agree
  // ------------------------------------------------------------------

  /** Every block valid for the SDK is read by the gateway, field for field, when it asks for a reply. */
  lemma ValidBlockParses(d: Dates, raw: Json)
    requires ValidBlock(d, raw)
    requires GetStr(raw, "action").value == SourceAction(TypeOf(GetStr(raw, "type")).value)
    ensures ParseBlock(raw) == Some(Block(GetStr(raw, "id").value, TypeOf(GetStr(raw, "type")).value,
                                          GetStr(raw, "action").value, GetStr(raw, "reply_to"),
                                          raw.Get("payload").value))
  {
    assert raw.Get("payload").value.Obj?;
  }

  /**
   * The gateway reads more than the SDK in two ways only: an action illegal for
   * the type, and a missing link; and less in one: a payload that is an array.
   */
  lemma ReadersDiffer(raw: Json)
    ensures IsBlock(raw) && raw.Get("payload").value.Obj? <==>
            && ParseBlock(raw).Some?
            && LegalAction(ParseBlock(raw).value.protocolType, ParseBlock(raw).value.action)
            && raw.Get("reply_to").Some?
    ensures ParseBlock(raw).Some? ==>
              var b := ParseBlock(raw).value;
              && raw.Get("id") == Some(Str(b.id)) && b.id != "" && raw.Get("action") == Some(Str(b.action))
              && raw.Get("payload") == Some(b.payload)
              && raw.Get("type") == Some(Str(if b.protocolType == ScheduleNegotiation then "schedule_negotiation"
                                             else "task_delegation"))
              && (b.replyTo.Some? ==> raw.Get("reply_to") == Some(Str(b.replyTo.value)))
              && (b.replyTo.None? ==> raw.Get("reply_to") in {None, Some(Null)})
  {
  }

  /** What a reply carries: a proposed slot, nothing, or the fixed reason. */
  lemma ReplyPayloadExactly(b: Block, accept: bool, newId: string)
    requires BuildReply(b, accept, newId).Some?
    ensures var payload := BuildReply(b, accept, newId).value.Get("payload").value;
            && (!accept ==> payload == Obj(map["reason" := Str(DECLINE_REASON)]))
            && (accept && b.protocolType == TaskDelegation ==> payload == Obj(map[]))
            && (accept && b.protocolType == ScheduleNegotiation ==>
                  var first := b.payload.Get("candidates").value.items[0];
                  var from, to := GetStr(first, "start").value, GetStr(first, "end").value;
                  payload.Get("selected_candidate") == Some(Obj(map["start" := Str(from), "end" := Str(to)])))
  {
    ReplyFields(b, accept, newId);
  }

  lemma ReplyFields(b: Block, accept: bool, newId: string)
    requires BuildReply(b, accept, newId).Some?
    ensures var r := BuildReply(b, accept, newId).value;
            && GetStr(r, "id") == Some(newId) && GetStr(r, "type") == Some(TypeText(b.protocolType))
            && GetStr(r, "action") == Some(if accept then "accept" else "decline")
            && r.Get("reply_to") == Some(Str(b.id))
            && r.Get("payload") == ReplyPayload(b, accept)
  {
  }

  /** The accepted candidate carries the start and end of a candidate that was proposed. */
  ghost predicate Proposed(payload: Json, chosen: Json) {
    && payload.Get("candidates").Some? && payload.Get("candidates").value.Arr?
    && exists i :: 0 <= i < |payload.Get("candidates").value.items|
        && SameSlot(payload.Get("candidates").value.items[i], chosen)
  }

  predicate SameSlot(a: Json, b: Json) {
    GetStr(a, "start") == GetStr(b, "start") && GetStr(a, "end") == GetStr(b, "end")
  }

  lemma AcceptPayload(d: Dates, b: Block)
    requires b.protocolType == ScheduleNegotiation && ValidPropose(d, b.payload)
    ensures FirstCandidate(b.payload).Some?
    ensures ValidCandidate(d, FirstCandidate(b.payload).value) && Proposed(b.payload, FirstCandidate(b.payload).value)
  {
    var first := b.payload.Get("candidates").value.items[0];
    assert ValidCandidate(d, first);
    assert SameSlot(first, FirstCandidate(b.payload).value);
  }

  /**
   * From every valid propose or delegate, either reply is built and is itself
   * valid for the SDK: same type, a legal action, linked to the source, and an
   * acceptance naming a proposed slot.
   */
  lemma RepliesAreValid(d: Dates, raw: Json, accept: bool, newId: string)
    requires ValidBlock(d, raw) && newId != ""
    requires GetStr(raw, "action").value == SourceAction(TypeOf(GetStr(raw, "type")).value)
    ensures var b := ParseBlock(raw);
            && b.Some? && BuildReply(b.value, accept, newId).Some?
            && var reply := BuildReply(b.value, accept, newId).value;
            && ValidBlock(d, reply)
            && GetStr(reply, "type") == GetStr(raw, "type")
            && reply.Get("reply_to") == raw.Get("id")
            && GetStr(reply, "action") == Some(if accept then "accept" else "decline")
            && (accept && b.value.protocolType == ScheduleNegotiation ==>
                  Proposed(raw.Get("payload").value, reply.Get("payload").value.Get("selected_candidate").value))
  {
    ValidBlockParses(d, raw);
    var b := ParseBlock(raw).value;
    if b.protocolType == ScheduleNegotiation {
      AcceptPayload(d, b);
    }
    ReplyFields(b, accept, newId);
    ReplyPayloadValid(d, b, accept);
  }

  lemma ReplyPayloadValid(d: Dates, b: Block, accept: bool)
    requires b.protocolType == ScheduleNegotiation ==> ValidPropose(d, b.payload)
    ensures ReplyPayload(b, accept).Some? && ReplyPayload(b, accept).value.Obj?
    ensures ValidPayload(d, b.protocolType, if accept then "accept" else "decline", ReplyPayload(b, accept).value)
    ensures accept && b.protocolType == ScheduleNegotiation ==>
              ReplyPayload(b, accept).value.Get("selected_candidate") == FirstCandidate(b.payload)
  {
    if b.protocolType == ScheduleNegotiation {
      AcceptPayload(d, b);
    }
  }

  // ------------------------------------------------------------------
  // Whole messages
  // ------------------------------------------------------------------

  /** `serialize_outgoing_body`. */
  function OutgoingBody(summary: string, reply: Json): Json {
    Obj(map["v" := Int(1), "body" := Str(summary), "protocol" := reply])
  }

  lemma OutgoingFields(summary: string, reply: Json)
    ensures var doc := OutgoingBody(summary, reply);
            doc.Get("v") == Some(Int(1)) && GetStr(doc, "body") == Some(summary) && doc.Get("protocol") == Some(reply)
  {
  }

  /**
   * A message the SDK reads, asking for a reply with a valid block, is read by
   * the gateway exactly when its version was written as an integer; the body
   * it then sends back is read by the SDK as the reply, with the valid block.
   */
  lemma MessagesAgree(d: Dates, doc: Json, raw: Json, accept: bool, newId: string)
    requires SdkParse(doc).Parsed? && SdkParse(doc).protocol == Some(raw)
    requires ValidBlock(d, raw) && newId != ""
    requires GetStr(raw, "action").value == SourceAction(TypeOf(GetStr(raw, "type")).value)
    ensures ParseFrame(doc).Some? <==> doc.Get("v") == Some(Int(1))
    ensures ParseFrame(doc).Some? ==>
              && ParseFrame(doc).value.Some?
              && var reply := BuildReply(ParseFrame(doc).value.value, accept, newId);
              && reply.Some? && ValidBlock(d, reply.value)
              && reply.value.Get("reply_to") == raw.Get("id")
              && SdkParse(OutgoingBody("", reply.value)) == Parsed("", Some(reply.value))
  {
    RepliesAreValid(d, raw, accept, newId);
    var reply := BuildReply(ParseBlock(raw).value, accept, newId).value;
    OutgoingFields("", reply);
  }

  function TaskPayload(): Json {
    Obj(map["title" := Str("t")])
  }

  function TaskBlock(): Json {
    Obj(map["id" := Str("1"), "type" := Str("task_delegation"), "action" := Str("delegate"),
            "reply_to" := Null, "payload" := TaskPayload()])
  }

  /** A delegated task, as a message whose version is written `version`. */
  function TaskMessage(version: Json): Json {
    Obj(map["v" := version, "body" := Str(""), "protocol" := TaskBlock()])
  }

  lemma TaskFields()
    ensures var raw := TaskBlock();
            && GetStr(raw, "id") == Some("1") && GetStr(raw, "type") == Some("task_delegation")
            && GetStr(raw, "action") == Some("delegate")
            && raw.Get("reply_to") == Some(Null) && raw.Get("payload") == Some(TaskPayload())
    ensures TypeOf(Some("task_delegation")) == Some(TaskDelegation)
  {
  }

  lemma TaskPayloadIsValid(d: Dates)
    ensures ValidDelegate(d, TaskPayload())
  {
    assert GetStr(TaskPayload(), "title") == Some("t");
    assert 't' in "t" && !Space('t');
  }

  lemma TaskMessageFields(version: Json)
    ensures var doc := TaskMessage(version);
            doc.Get("v") == Some(version) && GetStr(doc, "body") == Some("") && doc.Get("protocol") == Some(TaskBlock())
  {
  }

  /** The version 1.0 shows the difference: a valid message to the SDK, none to the gateway. */
  lemma DecimalVersionDiffers(d: Dates)
    ensures ValidBlock(d, TaskBlock())
    ensures SdkParse(TaskMessage(Float(1.0))) == Parsed("", Some(TaskBlock()))
    ensures ParseFrame(TaskMessage(Float(1.0))) == None
  {
    TaskFields();
    TaskPayloadIsValid(d);
    TaskMessageFields(Float(1.0));
  }
}
