/**
 * The gateway's token life cycle and its per-token send limit (Policy L2), for
 * requests handled one after another. Times are seconds.
 */
module Gateway {
  import opened Common

  type Time = nat

  const LEEWAY: Time := 30

  /** An access token is known by the assertion it descends from: the first minted is 1. */
  type Epoch = nat

  /** What the API answers to a refresh or an assertion. */
  datatype Answer = Refused | Granted(hasRefresh: bool, expiresIn: nat)

  datatype Op =
    | SendMessage(now: Time, refresh: Answer, mint: Answer, ready: bool)  // ready: nothing fails before the POST
    | OtherRpc(now: Time, refresh: Answer, mint: Answer)
    | AutoReply(now: Time, refresh: Answer, mint: Answer)                 // the executor's POST, which no policy meters

  datatype Event = Approved | Reset | SendPosted(epoch: Epoch) | AutoPosted(epoch: Epoch)

  datatype Tokens = Tokens(access: Option<Epoch>, hasRefresh: bool, expiresAt: Time)

  datatype State = State(tokens: Tokens, sendCount: u32, epoch: Epoch)

  const INITIAL := State(Tokens(None, false, 0), 0, 0)

  function Clamp(expiresIn: nat): nat {
    if expiresIn < 30 then 30 else if expiresIn > 86_400 then 86_400 else expiresIn
  }

  /** `now < exp - 30s`. */
  predicate Valid(t: Tokens, now: Time) {
    t.access.Some? && now + LEEWAY < t.expiresAt
  }

  function Install(epoch: Epoch, a: Answer, now: Time): Tokens
    requires a.Granted?
  {
    Tokens(Some(epoch), a.hasRefresh, now + Clamp(a.expiresIn))
  }

  /** `ensure_token`: the current token, else a refresh, else a fresh assertion, which alone resets the counter. */
  function Ensure(s: State, now: Time, refresh: Answer, mint: Answer): (State, Option<Epoch>, seq<Event>) {
    if Valid(s.tokens, now) then (s, s.tokens.access, [])
    else if s.tokens.hasRefresh && refresh.Granted? then
      (s.(tokens := Install(s.epoch, refresh, now)), Some(s.epoch), [])
    else if mint.Granted? then
      (State(Install(s.epoch + 1, mint, now), 0, s.epoch + 1), Some(s.epoch + 1), [Reset])
    else (s, None, [])
  }

  function Step(s: State, op: Op, max: u32): (State, seq<Event>) {
    match op
    case SendMessage(now, refresh, mint, ready) =>
      if s.sendCount >= max then (s, []) else
        var (t, token, events) := Ensure(s.(sendCount := s.sendCount + 1), now, refresh, mint);
        (t, [Approved] + events + if token.Some? && ready then [SendPosted(token.value)] else [])
    case OtherRpc(now, refresh, mint) =>
      var (t, _, events) := Ensure(s, now, refresh, mint);
      (t, events)
    case AutoReply(now, refresh, mint) =>
      var (t, token, events) := Ensure(s, now, refresh, mint);
      (t, events + if token.Some? then [AutoPosted(token.value)] else [])
  }

  // ------------------------------------------------------------------
  // The objects
  // ------------------------------------------------------------------

  class TokenState {
    var access: Option<Epoch>
    var hasRefresh: bool
    var expiresAt: Time

    constructor ()
      ensures Value() == Tokens(None, false, 0)
    {
      access, hasRefresh, expiresAt := None, false, 0;
    }

    function Value(): Tokens
      reads this
    {
      Tokens(access, hasRefresh, expiresAt)
    }

    method Store(epoch: Epoch, a: Answer, now: Time)
      requires a.Granted?
      modifies this
      ensures Value() == Install(epoch, a, now)
    {
      access, hasRefresh, expiresAt := Some(epoch), a.hasRefresh, now + Clamp(a.expiresIn);
    }
  }

  class PolicyL2 {
    var sendCount: u32
    const maxSendsPerToken: u32

    constructor (maxSends: u32)
      ensures sendCount == 0 && maxSendsPerToken == maxSends
    {
      sendCount, maxSendsPerToken := 0, maxSends;
    }

    /** The counter never overflows: it only moves below the limit. */
    method CheckSend() returns (ok: bool)
      modifies this
      ensures ok == (old(sendCount) < maxSendsPerToken)
      ensures sendCount == if ok then old(sendCount) + 1 else old(sendCount)
    {
      if sendCount >= maxSendsPerToken {
        return false;
      }
      sendCount := sendCount + 1;
      return true;
    }

    method Reset()
      modifies this
      ensures sendCount == 0
    {
      sendCount := 0;
    }
  }

  class GatewayState {
    const token: TokenState
    const policy: PolicyL2
    var epoch: Epoch  // names the token strings in hand

    constructor (maxSends: u32)
      ensures fresh(token) && fresh(policy) && Value() == INITIAL && policy.maxSendsPerToken == maxSends
    {
      token := new TokenState();
      policy := new PolicyL2(maxSends);
      epoch := 0;
    }

    ghost function Value(): State
      reads this, token, policy
    {
      State(token.Value(), policy.sendCount, epoch)
    }

    method EnsureToken(now: Time, refresh: Answer, mint: Answer, ghost log: seq<Event>)
      returns (ok: bool, ghost posted: Option<Epoch>, ghost log': seq<Event>)
      modifies this, token, policy
      ensures (Value(), posted) ==
              (Ensure(old(Value()), now, refresh, mint).0, Ensure(old(Value()), now, refresh, mint).1)
      ensures log' == log + Ensure(old(Value()), now, refresh, mint).2
      ensures ok <==> posted.Some?
    {
      log' := log;
      if token.access.Some? && now + LEEWAY < token.expiresAt {
        return true, token.access, log';
      }
      if token.hasRefresh && refresh.Granted? {
        token.Store(epoch, refresh, now);
        return true, Some(epoch), log';
      }
      if mint.Refused? {
        return false, None, log';
      }
      token.Store(epoch + 1, mint, now);
      policy.Reset();
      epoch := epoch + 1;
      return true, Some(epoch), log + [Event.Reset];
    }

    /** The limit is checked before the token, so an approval may be spent under the token it causes to be minted. */
    method HandleSendMessage(now: Time, refresh: Answer, mint: Answer, ready: bool, ghost log: seq<Event>)
      returns (sent: bool, ghost log': seq<Event>)
      modifies this, token, policy
      ensures Value() == Step(old(Value()), SendMessage(now, refresh, mint, ready), policy.maxSendsPerToken).0
      ensures log' == log + Step(old(Value()), SendMessage(now, refresh, mint, ready), policy.maxSendsPerToken).1
    {
      ghost var before := Value();
      var approved := policy.CheckSend();
      if !approved {
        return false, log;
      }
      assert Value() == before.(sendCount := before.sendCount + 1);
      ghost var posted;
      var ok;
      ok, posted, log' := EnsureToken(now, refresh, mint, log + [Approved]);
      sent := ok && ready;
      if sent {
        log' := log' + [SendPosted(posted.value)];
      }
    }
  }

  // ------------------------------------------------------------------
  // Runs
  // ------------------------------------------------------------------

  function After(ops: seq<Op>, max: u32): (State, seq<Event>) {
    if ops == [] then (INITIAL, []) else
      var (s, log) := After(ops[..|ops| - 1], max);
      var (t, events) := Step(s, ops[|ops| - 1], max);
      (t, log + events)
  }

  /** Approvals since the last reset. */
  function ApprovedSinceReset(log: seq<Event>): nat {
    if log == [] || log[|log| - 1] == Reset then 0
    else ApprovedSinceReset(log[..|log| - 1]) + if log[|log| - 1] == Approved then 1 else 0
  }

  function Count(log: seq<Event>, e: Event): nat {
    if log == [] then 0 else Count(log[..|log| - 1], e) + if log[|log| - 1] == e then 1 else 0
  }

  lemma SinceSnoc(log: seq<Event>, e: Event)
    ensures ApprovedSinceReset(log + [e]) ==
            if e == Reset then 0 else ApprovedSinceReset(log) + if e == Approved then 1 else 0
  {
    assert (log + [e])[..|log|] == log;
  }

  lemma CountSnoc(log: seq<Event>, e: Event, f: Event)
    ensures Count(log + [e], f) == Count(log, f) + if e == f then 1 else 0
  {
    assert (log + [e])[..|log|] == log;
  }

  /** The most sends that can be posted under one assertion-minted token and its refreshes. */
  function PostLimit(max: u32): nat {
    if max == 0 then 0 else max + 1
  }

  ghost predicate Accounted(s: State, log: seq<Event>, max: u32) {
    && s.sendCount == ApprovedSinceReset(log) <= max
    && (s.tokens.access.Some? ==> s.tokens.access.value == s.epoch && s.epoch > 0)
    && (s.tokens.hasRefresh ==> s.tokens.access.Some?)
    && (forall e: Epoch {:trigger SendPosted(e)} :: e > s.epoch || e == 0 ==> Count(log, SendPosted(e)) == 0)
    && (forall e: Epoch {:trigger SendPosted(e)} :: Count(log, SendPosted(e)) <= PostLimit(max))
    && Count(log, SendPosted(s.epoch)) <= s.sendCount + 1
  }

  lemma EnsureKeeps(s: State, log: seq<Event>, now: Time, refresh: Answer, mint: Answer, max: u32)
    requires Accounted(s, log, max)
    ensures var (t, token, events) := Ensure(s, now, refresh, mint);
            && Accounted(t, log + events, max)
            && (token.Some? ==> token == Some(t.epoch) && t.epoch > 0)
            && (events == [] ==> t.epoch == s.epoch && t.sendCount == s.sendCount)
            && (events != [] ==> Count(log + events, SendPosted(t.epoch)) == 0)
  {
    var (t, token, events) := Ensure(s, now, refresh, mint);
    if events == [] {
      assert log + events == log;
    } else {
      SinceSnoc(log, Reset);
      forall e: Epoch { CountSnoc(log, Reset, SendPosted(e)); }
    }
  }

  lemma ApproveKeeps(s: State, log: seq<Event>, max: u32)
    requires Accounted(s, log, max) && s.sendCount < max
    ensures Accounted(s.(sendCount := s.sendCount + 1), log + [Approved], max)
    ensures Count(log + [Approved], SendPosted(s.epoch)) == Count(log, SendPosted(s.epoch))
  {
    SinceSnoc(log, Approved);
    forall e: Epoch { CountSnoc(log, Approved, SendPosted(e)); }
  }

  lemma PostKeeps(s: State, log: seq<Event>, max: u32)
    requires Accounted(s, log, max) && s.epoch > 0 && max > 0 && Count(log, SendPosted(s.epoch)) <= s.sendCount
    ensures Accounted(s, log + [SendPosted(s.epoch)], max)
  {
    SinceSnoc(log, SendPosted(s.epoch));
    forall e: Epoch { CountSnoc(log, SendPosted(s.epoch), SendPosted(e)); }
  }

  lemma AutoKeeps(s: State, log: seq<Event>, max: u32, epoch: Epoch)
    requires Accounted(s, log, max)
    ensures Accounted(s, log + [AutoPosted(epoch)], max)
  {
    SinceSnoc(log, AutoPosted(epoch));
    forall e: Epoch { CountSnoc(log, AutoPosted(epoch), SendPosted(e)); }
  }

  /** What an approved send may still post, once it has its token. */
  function LastPost(token: Option<Epoch>, ready: bool): seq<Event> {
    if token.Some? && ready then [SendPosted(token.value)] else []
  }

  lemma SendShape(s: State, op: Op, max: u32)
    requires op.SendMessage? && s.sendCount < max
    ensures var (t, token, events) := Ensure(s.(sendCount := s.sendCount + 1), op.now, op.refresh, op.mint);
            Step(s, op, max) == (t, [Approved] + events + LastPost(token, op.ready))
  {
  }

  lemma LastPostKeeps(t: State, log: seq<Event>, token: Option<Epoch>, ready: bool, max: u32)
    requires Accounted(t, log, max) && max > 0
    requires token.Some? ==> token == Some(t.epoch) && t.epoch > 0 && Count(log, SendPosted(t.epoch)) <= t.sendCount
    ensures Accounted(t, log + LastPost(token, ready), max)
  {
    if token.Some? && ready {
      PostKeeps(t, log, max);
    } else {
      assert log + [] == log;
    }
  }

  lemma Regroup<T>(a: seq<T>, b: seq<T>, c: seq<T>, d: seq<T>)
    ensures a + (b + c + d) == a + b + c + d
  {
  }

  lemma SendKeeps(s: State, log: seq<Event>, op: Op, max: u32)
    requires Accounted(s, log, max) && op.SendMessage? && s.sendCount < max
    ensures Accounted(Step(s, op, max).0, log + Step(s, op, max).1, max)
  {
    var s1, log1 := s.(sendCount := s.sendCount + 1), log + [Approved];
    var (t, token, events) := Ensure(s1, op.now, op.refresh, op.mint);
    SendShape(s, op, max);
    ApproveKeeps(s, log, max);
    EnsureKeeps(s1, log1, op.now, op.refresh, op.mint, max);
    assert events == [] ==> log1 + events == log1;
    LastPostKeeps(t, log1 + events, token, op.ready, max);
    Regroup(log, [Approved], events, LastPost(token, op.ready));
  }

  lemma AutoReplyKeeps(s: State, log: seq<Event>, op: Op, max: u32)
    requires Accounted(s, log, max) && op.AutoReply?
    ensures Accounted(Step(s, op, max).0, log + Step(s, op, max).1, max)
  {
    EnsureKeeps(s, log, op.now, op.refresh, op.mint, max);
    var (t, token, events) := Ensure(s, op.now, op.refresh, op.mint);
    if token.Some? {
      AutoKeeps(t, log + events, max, token.value);
      assert log + (events + [AutoPosted(token.value)]) == log + events + [AutoPosted(token.value)];
    } else {
      assert events + [] == events;
    }
  }

  lemma StepKeeps(s: State, log: seq<Event>, op: Op, max: u32)
    requires Accounted(s, log, max)
    ensures Accounted(Step(s, op, max).0, log + Step(s, op, max).1, max)
  {
    match op
    case SendMessage(_, _, _, _) =>
      if s.sendCount >= max {
        assert log + [] == log;
      } else {
        SendKeeps(s, log, op, max);
      }
    case OtherRpc(now, refresh, mint) =>
      EnsureKeeps(s, log, now, refresh, mint, max);
    case AutoReply(_, _, _) =>
      AutoReplyKeeps(s, log, op, max);
  }

  lemma {:induction false} RunIsAccounted(ops: seq<Op>, max: u32)
    ensures Accounted(After(ops, max).0, After(ops, max).1, max)
  {
    if ops != [] {
      var init := ops[..|ops| - 1];
      RunIsAccounted(init, max);
      StepKeeps(After(init, max).0, After(init, max).1, ops[|ops| - 1], max);
    }
  }

  // ------------------------------------------------------------------
  // Every stretch of a run
  // ------------------------------------------------------------------

  lemma CountAppend(log: seq<Event>, more: seq<Event>, e: Event)
    ensures Count(log + more, e) == Count(log, e) + Count(more, e)
  {
    if more == [] {
      assert log + more == log;
    } else {
      var n := |more| - 1;
      assert (log + more)[..|log + more| - 1] == log + more[..n];
      CountAppend(log, more[..n], e);
    }
  }

  /** An operation approves at most one send, and none at the limit. */
  lemma StepApproves(s: State, op: Op, max: u32)
    ensures s.sendCount + Count(Step(s, op, max).1, Approved) <= if s.sendCount <= max then max else s.sendCount
  {
    match op
    case SendMessage(now, refresh, mint, ready) =>
      if s.sendCount < max {
        var (_, token, events) := Ensure(s.(sendCount := s.sendCount + 1), now, refresh, mint);
        SendShape(s, op, max);
        CountAppend([Approved] + events, LastPost(token, ready), Approved);
        CountAppend([Approved], events, Approved);
        CountOne(Approved, Approved);
        EnsureApproves(s.(sendCount := s.sendCount + 1), now, refresh, mint);
        if token.Some? {
          CountOne(SendPosted(token.value), Approved);
        }
      }
    case OtherRpc(now, refresh, mint) =>
      EnsureApproves(s, now, refresh, mint);
    case AutoReply(now, refresh, mint) =>
      var (_, token, events) := Ensure(s, now, refresh, mint);
      EnsureApproves(s, now, refresh, mint);
      CountAppend(events, if token.Some? then [AutoPosted(token.value)] else [], Approved);
      if token.Some? {
        CountOne(AutoPosted(token.value), Approved);
      }
  }

  lemma CountOne(f: Event, e: Event)
    ensures Count([f], e) == if f == e then 1 else 0
  {
    assert [f][..0] == [];
  }

  lemma EnsureApproves(s: State, now: Time, refresh: Answer, mint: Answer)
    ensures Count(Ensure(s, now, refresh, mint).2, Approved) == 0
  {
    CountOne(Reset, Approved);
  }

  /** Within an operation's events, no cut shows more approvals than before it and in it together. */
  lemma {:induction false} CutInside(log: seq<Event>, more: seq<Event>)
    ensures ApprovedSinceReset(log + more) <= ApprovedSinceReset(log) + Count(more, Approved)
    decreases |more|
  {
    if more == [] {
      assert log + more == log;
    } else {
      var n := |more| - 1;
      CutInside(log, more[..n]);
      assert log + more == log + more[..n] + [more[n]];
      SinceSnoc(log + more[..n], more[n]);
    }
  }

  lemma CountPrefix(log: seq<Event>, k: nat, e: Event)
    requires k <= |log|
    ensures Count(log[..k], e) <= Count(log, e)
  {
    assert log == log[..k] + log[k..];
    CountAppend(log[..k], log[k..], e);
  }

  /** At every cut of a run's log, also inside an operation, the approvals since the last reset are within the limit. */
  lemma {:induction false} EveryCut(ops: seq<Op>, max: u32, k: nat)
    requires k <= |After(ops, max).1|
    ensures ApprovedSinceReset(After(ops, max).1[..k]) <= max
    decreases |ops|
  {
    if ops != [] {
      var init, op := ops[..|ops| - 1], ops[|ops| - 1];
      var (s, log) := After(init, max);
      var events := Step(s, op, max).1;
      if k <= |log| {
        assert (log + events)[..k] == log[..k];
        EveryCut(init, max, k);
      } else {
        var m := k - |log|;
        assert (log + events)[..k] == log + events[..m];
        RunIsAccounted(init, max);
        StepApproves(s, op, max);
        CountPrefix(events, m, Approved);
        CutInside(log, events[..m]);
      }
    }
  }

  /** A stretch without a reset is part of what came since the last one. */
  lemma {:induction false} StretchInCut(log: seq<Event>, i: nat, j: nat)
    requires i <= j <= |log| && Reset !in log[i..j]
    ensures Count(log[i..j], Approved) <= ApprovedSinceReset(log[..j])
    decreases j
  {
    if i < j {
      assert log[i..j] == log[i..j - 1] + [log[j - 1]];
      assert log[..j] == log[..j - 1] + [log[j - 1]];
      assert log[j - 1] in log[i..j];
      StretchInCut(log, i, j - 1);
      CountSnoc(log[i..j - 1], log[j - 1], Approved);
      SinceSnoc(log[..j - 1], log[j - 1]);
    }
  }

  /**
   * In every run: at most `max` approvals in any stretch of the log without a
   * reset, and at most `max + 1` sends posted per minted token (none if `max` is 0).
   */
  lemma SendLimits(ops: seq<Op>, max: u32, epoch: Epoch)
    ensures var log := After(ops, max).1;
            && (forall i, j :: 0 <= i <= j <= |log| && Reset !in log[i..j] ==> Count(log[i..j], Approved) <= max)
            && Count(log, SendPosted(epoch)) <= PostLimit(max)
  {
    var log := After(ops, max).1;
    forall i, j | 0 <= i <= j <= |log| && Reset !in log[i..j]
      ensures Count(log[i..j], Approved) <= max
    {
      StretchInCut(log, i, j);
      EveryCut(ops, max, j);
    }
    RunIsAccounted(ops, max);
    assert Count(log, SendPosted(epoch)) <= PostLimit(max);
  }

  // ------------------------------------------------------------------
  // When a token is minted
  // ------------------------------------------------------------------

  /** A token that will live for more than the next thirty seconds. */
  ghost predicate Usable(t: Tokens, now: Time) {
    t.access.Some? && now + 30 < t.expiresAt
  }

  /** The tokens hold what the API granted at `now`, for half a minute at least and a day at most. */
  ghost predicate Holds(t: Tokens, epoch: Epoch, granted: Answer, now: Time) {
    && granted.Granted?
    && t.access == Some(epoch) && t.hasRefresh == granted.hasRefresh
    && now + 30 <= t.expiresAt <= now + 86_400
    && (30 <= granted.expiresIn <= 86_400 ==> t.expiresAt == now + granted.expiresIn)
    && (granted.expiresIn < 30 ==> t.expiresAt == now + 30)
    && (granted.expiresIn > 86_400 ==> t.expiresAt == now + 86_400)
  }

  /** Minting is the last resort, and only minting resets the counter and changes the epoch. */
  lemma EnsureExactly(s: State, now: Time, refresh: Answer, mint: Answer)
    ensures var (t, token, events) := Ensure(s, now, refresh, mint);
            var usable := Usable(s.tokens, now);
            var refreshed := !usable && s.tokens.hasRefresh && refresh.Granted?;
            var minted := !usable && !refreshed && mint.Granted?;
            && (usable ==> t == s && token == s.tokens.access && events == [])
            && (refreshed ==>
                  && t.epoch == s.epoch && t.sendCount == s.sendCount && events == []
                  && token == Some(s.epoch) && Holds(t.tokens, s.epoch, refresh, now))
            && (minted ==>
                  && t.epoch == s.epoch + 1 && t.sendCount == 0 && events == [Reset]
                  && token == Some(s.epoch + 1) && Holds(t.tokens, s.epoch + 1, mint, now))
            && (!usable && !refreshed && !minted ==> t == s && token == None && events == [])
  {
  }

  /**
   * A send at the limit does nothing; below it, it is approved, and posted iff a
   * token is had and nothing else fails.
   */
  lemma SendExactly(s: State, op: Op, max: u32)
    requires op.SendMessage?
    ensures var (t, events) := Step(s, op, max);
            var (t', token, mints) := Ensure(s.(sendCount := if s.sendCount < max then s.sendCount + 1 else 0),
                                             op.now, op.refresh, op.mint);
            && (s.sendCount >= max ==> t == s && events == [])
            && (s.sendCount < max ==>
                  && t == t' && |events| > 0 && events[0] == Approved
                  && (token.Some? && op.ready ==> events == [Approved] + mints + [SendPosted(token.value)])
                  && (token.None? || !op.ready ==> events == [Approved] + mints))
  {
    if s.sendCount < max {
      SendShape(s, op, max);
      var (_, token, mints) := Ensure(s.(sendCount := s.sendCount + 1), op.now, op.refresh, op.mint);
      assert [Approved] + mints + [] == [Approved] + mints;
    }
  }

  /** The other operations ask for a token and no approval; the executor's reply is posted iff there is one. */
  lemma OthersExactly(s: State, op: Op, max: u32)
    requires !op.SendMessage?
    ensures var (t, events) := Step(s, op, max);
            var (t', token, mints) := Ensure(s, op.now, op.refresh, op.mint);
            && t == t'
            && events == if op.AutoReply? && token.Some? then mints + [AutoPosted(token.value)] else mints
  {
    var (_, token, mints) := Ensure(s, op.now, op.refresh, op.mint);
    assert mints + [] == mints;
  }

  /** The operation gets as far as asking for a token, and has to mint one. */
  ghost predicate MustMint(s: State, op: Op, max: u32) {
    && (op.SendMessage? ==> s.sendCount < max)
    && !Usable(s.tokens, op.now) && !(s.tokens.hasRefresh && op.refresh.Granted?) && op.mint.Granted?
  }

  /**
   * In every state, an operation resets the counter exactly when it mints, and
   * exactly then the epoch moves, by one.
   */
  lemma ResetsExactly(s: State, op: Op, max: u32)
    ensures var (t, events) := Step(s, op, max);
            && (Reset in events <==> MustMint(s, op, max))
            && t.epoch == s.epoch + (if MustMint(s, op, max) then 1 else 0)
            && Count(events, Reset) == if MustMint(s, op, max) then 1 else 0
  {
    match op
    case SendMessage(now, refresh, mint, ready) =>
      SendExactly(s, op, max);
      if s.sendCount < max {
        var (_, token, mints) := Ensure(s.(sendCount := s.sendCount + 1), now, refresh, mint);
        EnsureExactly(s.(sendCount := s.sendCount + 1), now, refresh, mint);
        CountAppend([Approved] + mints, if token.Some? && ready then [SendPosted(token.value)] else [], Reset);
        CountAppend([Approved], mints, Reset);
        CountOne(Approved, Reset);
        CountOne(Reset, Reset);
        if token.Some? {
          CountOne(SendPosted(token.value), Reset);
        }
        assert [Approved] + mints + [] == [Approved] + mints;
      }
    case OtherRpc(now, refresh, mint) =>
      EnsureExactly(s, now, refresh, mint);
      CountOne(Reset, Reset);
    case AutoReply(now, refresh, mint) =>
      var (_, token, mints) := Ensure(s, now, refresh, mint);
      EnsureExactly(s, now, refresh, mint);
      CountAppend(mints, if token.Some? then [AutoPosted(token.value)] else [], Reset);
      CountOne(Reset, Reset);
      if token.Some? {
        CountOne(AutoPosted(token.value), Reset);
      }
  }

  /** What an operation does to a state that can refresh, when the API grants the refresh. */
  lemma RefreshedStep(s: State, op: Op, max: u32)
    requires s.tokens.access.Some? && s.tokens.hasRefresh && op.refresh.Granted? && op.refresh.hasRefresh
    ensures var (t, events) := Step(s, op, max);
            && t.epoch == s.epoch && t.tokens.access.Some? && t.tokens.hasRefresh
            && Count(events, Reset) == 0
            && t.sendCount == s.sendCount + Count(events, Approved)
            && (s.sendCount <= max ==> t.sendCount <= max)
  {
    ResetsExactly(s, op, max);
    StepApproves(s, op, max);
    EnsureExactly(s, op.now, op.refresh, op.mint);
    if op.SendMessage? && s.sendCount < max {
      var s1 := s.(sendCount := s.sendCount + 1);
      var (_, token, mints) := Ensure(s1, op.now, op.refresh, op.mint);
      SendExactly(s, op, max);
      EnsureExactly(s1, op.now, op.refresh, op.mint);
      assert mints == [];
      ApprovedOnce(token, op.ready);
    } else if op.AutoReply? {
      var (_, token, mints) := Ensure(s, op.now, op.refresh, op.mint);
      CountAppend(mints, if token.Some? then [AutoPosted(token.value)] else [], Approved);
      if token.Some? {
        CountOne(AutoPosted(token.value), Approved);
      }
    }
  }

  lemma ApprovedOnce(token: Option<Epoch>, ready: bool)
    ensures Count([Approved] + [] + LastPost(token, ready), Approved) == 1
    ensures Count([Approved] + [], Approved) == 1
  {
    CountOne(Approved, Approved);
    CountAppend([Approved] + [], LastPost(token, ready), Approved);
    CountAppend([Approved], [], Approved);
    if token.Some? {
      CountOne(SendPosted(token.value), Approved);
    }
  }

  lemma OneMoreRefreshed(ops: seq<Op>, op: Op, max: u32)
    requires var s := After(ops, max).0; s.tokens.access.Some? && s.tokens.hasRefresh && s.sendCount <= max
    requires op.refresh.Granted? && op.refresh.hasRefresh
    ensures var (s, log) := After(ops, max);
            var (t, log') := After(ops + [op], max);
            && t.epoch == s.epoch && t.tokens.access.Some? && t.tokens.hasRefresh && t.sendCount <= max
            && Count(log', Reset) == Count(log, Reset)
            && t.sendCount == s.sendCount + Count(log', Approved) - Count(log, Approved)
  {
    var (s, log) := After(ops, max);
    var events := Step(s, op, max).1;
    AfterSnoc(ops, op, max);
    RefreshedStep(s, op, max);
    CountAppend(log, events, Reset);
    CountAppend(log, events, Approved);
  }

  /**
   * As long as the API grants refreshes, no run escapes the limit: the epoch and
   * the counter go on, so all its sends together stay within `max`.
   */
  lemma {:induction false} RefreshKeepsLimit(ops: seq<Op>, more: seq<Op>, max: u32)
    requires After(ops, max).0.tokens.access.Some? && After(ops, max).0.tokens.hasRefresh
    requires forall i :: 0 <= i < |more| ==> more[i].refresh.Granted? && more[i].refresh.hasRefresh
    ensures var (s, log) := After(ops, max);
            var (t, log') := After(ops + more, max);
            && t.epoch == s.epoch && t.tokens.access.Some? && t.tokens.hasRefresh
            && Count(log', Reset) == Count(log, Reset)
            && s.sendCount + (Count(log', Approved) - Count(log, Approved)) == t.sendCount <= max
    decreases |more|
  {
    if more == [] {
      RunIsAccounted(ops, max);
      assert ops + more == ops;
    } else {
      var front, op := more[..|more| - 1], more[|more| - 1];
      RefreshKeepsLimit(ops, front, max);
      OneMoreRefreshed(ops + front, op, max);
      assert ops + more == ops + front + [op];
    }
  }

  // ------------------------------------------------------------------
  // Particular runs
  // ------------------------------------------------------------------

  const SEND := SendMessage(0, Refused, Granted(false, 900), true)
  const REPLY := AutoReply(0, Refused, Granted(false, 900))

  /** The state once the first token is minted, after `n` counted sends. */
  function FirstToken(n: u32): State {
    State(Tokens(Some(1), false, 900), n, 1)
  }

  lemma AfterSnoc(ops: seq<Op>, op: Op, max: u32)
    ensures var (s, log) := After(ops, max);
            After(ops + [op], max) == (Step(s, op, max).0, log + Step(s, op, max).1)
  {
    assert (ops + [op])[..|ops|] == ops;
  }

  lemma FirstSend(max: u32)
    requires max > 0
    ensures Step(INITIAL, SEND, max) == (FirstToken(0), [Approved, Reset, SendPosted(1)])
  {
    SendShape(INITIAL, SEND, max);
    assert [Approved] + [Reset] + [SendPosted(1)] == [Approved, Reset, SendPosted(1)];
  }

  lemma LaterSend(n: u32, max: u32)
    requires n < max
    ensures Step(FirstToken(n), SEND, max) == (FirstToken(n + 1), [Approved, SendPosted(1)])
  {
    SendShape(FirstToken(n), SEND, max);
    assert [Approved] + [] + [SendPosted(1)] == [Approved, SendPosted(1)];
  }

  lemma FirstReply(max: u32)
    ensures Step(INITIAL, REPLY, max) == (FirstToken(0), [Reset, AutoPosted(1)])
  {
    assert [Reset] + [AutoPosted(1)] == [Reset, AutoPosted(1)];
  }

  lemma LaterReply(n: u32, max: u32)
    ensures Step(FirstToken(n), REPLY, max) == (FirstToken(n), [AutoPosted(1)])
  {
    assert [] + [AutoPosted(1)] == [AutoPosted(1)];
  }

  lemma CountTwo(f: Event, g: Event, e: Event)
    ensures Count([f, g], e) == (if f == e then 1 else 0) + if g == e then 1 else 0
  {
    assert [f, g] == [f] + [g];
    CountSnoc([f], g, e);
    CountOne(f, e);
  }

  lemma FirstSendPosts()
    ensures Count([Approved, Reset, SendPosted(1)], SendPosted(1)) == 1
  {
    assert [Approved, Reset, SendPosted(1)] == [Approved, Reset] + [SendPosted(1)];
    CountTwo(Approved, Reset, SendPosted(1));
    CountSnoc([Approved, Reset], SendPosted(1), SendPosted(1));
  }

  function Sends(n: nat): seq<Op> {
    if n == 0 then [] else Sends(n - 1) + [SEND]
  }

  lemma OneSend(max: u32)
    requires max > 0
    ensures After(Sends(1), max) == (FirstToken(0), [Approved, Reset, SendPosted(1)])
  {
    FirstSend(max);
    AfterSnoc(Sends(0), SEND, max);
    assert [] + [Approved, Reset, SendPosted(1)] == [Approved, Reset, SendPosted(1)];
  }

  lemma OneMoreSend(n: u32, max: u32)
    requires 1 <= n <= max && After(Sends(n), max).0 == FirstToken(n - 1)
    ensures After(Sends(n + 1), max).0 == FirstToken(n)
    ensures Count(After(Sends(n + 1), max).1, SendPosted(1)) == Count(After(Sends(n), max).1, SendPosted(1)) + 1
  {
    AfterSnoc(Sends(n), SEND, max);
    LaterSend(n - 1, max);
    CountAppend(After(Sends(n), max).1, [Approved, SendPosted(1)], SendPosted(1));
    CountTwo(Approved, SendPosted(1), SendPosted(1));
  }

  /** The limit is reached: `max + 1` sends in a row all go out under the first token. */
  lemma {:induction false} LimitIsReached(max: u32, n: nat)
    requires 1 <= n <= max + 1 && max >= 1
    ensures var (s, log) := After(Sends(n), max);
            s == FirstToken(n - 1) && Count(log, SendPosted(1)) == n
  {
    if n == 1 {
      OneSend(max);
      FirstSendPosts();
    } else {
      LimitIsReached(max, n - 1);
      OneMoreSend(n - 1, max);
    }
  }

  /** At the limit, sending alone never recovers: the refusal comes before the token is looked at. */
  lemma {:induction false} SendsAloneStayRefused(ops: seq<Op>, more: seq<Op>, max: u32)
    requires After(ops, max).0.sendCount >= max && forall i :: 0 <= i < |more| ==> more[i].SendMessage?
    ensures After(ops + more, max) == After(ops, max)
  {
    if more == [] {
      assert ops + more == ops;
    } else {
      assert (ops + more)[..|ops + more| - 1] == ops + more[..|more| - 1];
      SendsAloneStayRefused(ops, more[..|more| - 1], max);
      var (s, log) := After(ops, max);
      assert log + [] == log;
    }
  }

  function AutoReplies(n: nat): seq<Op> {
    if n == 0 then [] else AutoReplies(n - 1) + [REPLY]
  }

  /** The executor's replies are outside the limit: any number go out under one token, whatever `max`. */
  lemma {:induction false} AutoRepliesAreUnmetered(n: nat, max: u32)
    ensures n > 0 ==> After(AutoReplies(n), max).0 == FirstToken(0)
    ensures Count(After(AutoReplies(n), max).1, AutoPosted(1)) == n
  {
    if n > 0 {
      AutoRepliesAreUnmetered(n - 1, max);
      AfterSnoc(AutoReplies(n - 1), REPLY, max);
      var log := After(AutoReplies(n - 1), max).1;
      if n == 1 {
        FirstReply(max);
        CountAppend(log, [Reset, AutoPosted(1)], AutoPosted(1));
        CountTwo(Reset, AutoPosted(1), AutoPosted(1));
      } else {
        LaterReply(0, max);
        CountAppend(log, [AutoPosted(1)], AutoPosted(1));
        CountOne(AutoPosted(1), AutoPosted(1));
      }
    }
  }
}
