/**
 * The signer daemon's bridge: the functions each critical section computes, and
 * the object whose methods run them. Strings are octet strings; SHA-256 is an
 * abstract function to digests.
 */
module Bridge {
  import opened Common
  import opened ConstantTime
  import opened RateLimit
  import Envelope

  type Digest = nat

  /** What the header reader substitutes for an absent Origin: "(missing)". */
  const MISSING: Octets := [0x28, 0x6d, 0x69, 0x73, 0x73, 0x69, 0x6e, 0x67, 0x29]

  const MAX_NONCE := 256

  datatype Config = Config(
    sharedSecret: Option<Octets>,
    allowedOrigin: Octets,
    codeTtl: Time,
    caps: Caps,
    sha: Octets -> Digest,
    suite: Envelope.Suite,
    encryptionSecret: Option<Bytes>)
  {
    /** No two strings in play collide under SHA-256. */
    ghost predicate CollisionFree() {
      forall a: Octets, b: Octets :: sha(a) == sha(b) ==> a == b
    }
  }

  /** A number for every string: its octets as base-256 digits from 1 to 256. */
  function Enumerate(s: Octets): Digest {
    if s == [] then 0 else Enumerate(s[..|s| - 1]) * 256 + s[|s| - 1] as nat + 1
  }

  lemma LastOctet(p: nat, x: bv8, q: nat, y: bv8)
    requires p * 256 + x as nat == q * 256 + y as nat
    ensures p == q && x == y
  {
    var m: nat, n: nat := x as nat, y as nat;
    assert m < 256 && n < 256;
    assert p == q;
    assert x == m as bv8 && y == n as bv8;
  }

  lemma {:induction false} EnumerateInjective(a: Octets, b: Octets)
    requires Enumerate(a) == Enumerate(b)
    ensures a == b
  {
    if a != [] && b != [] {
      var i, j := |a| - 1, |b| - 1;
      LastOctet(Enumerate(a[..i]), a[i], Enumerate(b[..j]), b[j]);
      EnumerateInjective(a[..i], b[..j]);
      SameFrontAndLast(a, b);
    }
  }

  lemma SameFrontAndLast<T>(a: seq<T>, b: seq<T>)
    requires a != [] && b != []
    requires a[..|a| - 1] == b[..|b| - 1] && a[|a| - 1] == b[|b| - 1]
    ensures a == b
  {
    assert a == a[..|a| - 1] + [a[|a| - 1]];
    assert b == b[..|b| - 1] + [b[|b| - 1]];
  }

  /** Freedom from collisions can be met. */
  lemma CollisionFreeExists(cfg: Config)
    ensures cfg.(sha := Enumerate).CollisionFree()
  {
    forall a: Octets, b: Octets | Enumerate(a) == Enumerate(b)
      ensures a == b
    {
      EnumerateInjective(a, b);
    }
  }

  datatype PairingCode = PairingCode(code: Octets, expiresAt: Time)

  datatype Token = Token(deviceLabel: Octets, nonceHash: Option<Digest>)

  datatype Session = SharedSecret | Paired(deviceLabel: Octets) | NonceMissing | NonceMismatch | Invalid

  datatype Kind = Decrypt | StatusProbe | PairRequested | PairFailed | PairSucceeded | PairRevoked

  datatype Outcome =
    | Fine | Unauthorized | ForbiddenOrigin | BadRequest | DaemonError | Disabled | RateLimited
    | NonceAbsent | NonceWrong | NoMatch

  datatype Event = Event(kind: Kind, outcome: Outcome)

  type Tokens = map<Digest, Token>

  // ------------------------------------------------------------------
  // Pairing code
  // ------------------------------------------------------------------

  function Consume(slot: Option<PairingCode>, presented: Octets, now: Time): (Option<PairingCode>, bool) {
    match slot
    case None => (None, false)
    case Some(entry) =>
      if now >= entry.expiresAt then (None, false)
      else if !Matches(entry.code, presented) then (slot, false)
      else (None, true)
  }

  /** ASCII white space. */
  predicate Blank(c: bv8) {
    9 <= c <= 13 || c == 32
  }

  function Trimmed(s: Octets): Octets {
    Trim(s, Blank)
  }

  function Upper(s: Octets): Octets {
    seq(|s|, i requires 0 <= i < |s| => if 97 <= s[i] <= 122 then s[i] - 32 else s[i])
  }

  /** The nonce kept for a new session: trimmed, and dropped when empty or oversized. */
  function BoundNonce(nonce: Option<Octets>): Option<Octets> {
    match nonce
    case None => None
    case Some(raw) => if Trimmed(raw) == [] || |Trimmed(raw)| > MAX_NONCE then None else Some(Trimmed(raw))
  }

  // ------------------------------------------------------------------
  // Token inventory
  // ------------------------------------------------------------------

  function Register(cfg: Config, tokens: Tokens, bearer: Octets, device: Octets, nonce: Option<Octets>): Tokens {
    tokens[cfg.sha(bearer) := Token(device, if nonce.Some? then Some(cfg.sha(nonce.value)) else None)]
  }

  function Resolve(cfg: Config, tokens: Tokens, presented: Octets, nonce: Option<Octets>): Session {
    if cfg.sharedSecret.Some? && Matches(presented, cfg.sharedSecret.value) then SharedSecret else
      var hash := cfg.sha(presented);
      if hash !in tokens then Invalid else
        match (tokens[hash].nonceHash, nonce)
        case (None, _) => Paired(tokens[hash].deviceLabel)
        case (Some(_), None) => NonceMissing
        case (Some(expected), Some(raw)) =>
          if cfg.sha(raw) == expected then Paired(tokens[hash].deviceLabel) else NonceMismatch
  }

  // ------------------------------------------------------------------
  // Guards
  // ------------------------------------------------------------------

  function OriginText(origin: Option<Octets>): Octets {
    if origin.Some? then origin.value else MISSING
  }

  /** `enforce_bridge_guards`: a session, or the audited reason for the refusal. */
  function GuardVerdict(cfg: Config, tokens: Tokens, origin: Option<Octets>, bearer: Option<Octets>,
                        nonce: Option<Octets>): Result<Session, Outcome> {
    if OriginText(origin) != cfg.allowedOrigin then Err(ForbiddenOrigin) else
      match (if bearer.Some? then Resolve(cfg, tokens, bearer.value, nonce) else Invalid)
      case Invalid => Err(Unauthorized)
      case NonceMissing => Err(NonceAbsent)
      case NonceMismatch => Err(NonceWrong)
      case session => Ok(session)
  }

  /** What the documentation promises a privileged request has shown. */
  ghost predicate Authorised(cfg: Config, tokens: Tokens, origin: Option<Octets>, bearer: Option<Octets>,
                             nonce: Option<Octets>) {
    && OriginText(origin) == cfg.allowedOrigin
    && bearer.Some?
    && ((cfg.sharedSecret.Some? && Matches(bearer.value, cfg.sharedSecret.value))
        || (cfg.sha(bearer.value) in tokens
            && match tokens[cfg.sha(bearer.value)].nonceHash
               case None => true
               case Some(expected) => nonce.Some? && cfg.sha(nonce.value) == expected))
  }

  /** The guard lets through exactly the authorised requests. */
  lemma GuardExact(cfg: Config, tokens: Tokens, origin: Option<Octets>, bearer: Option<Octets>, nonce: Option<Octets>)
    ensures GuardVerdict(cfg, tokens, origin, bearer, nonce).Ok? <==> Authorised(cfg, tokens, origin, bearer, nonce)
  {
  }

  /** Which session the guard passes on, and which refusal it audits. */
  lemma GuardOutcomes(cfg: Config, tokens: Tokens, origin: Option<Octets>, bearer: Option<Octets>,
                      nonce: Option<Octets>)
    ensures var verdict := GuardVerdict(cfg, tokens, origin, bearer, nonce);
            var shared := bearer.Some? && cfg.sharedSecret.Some? && Matches(bearer.value, cfg.sharedSecret.value);
            var known := bearer.Some? && !shared && cfg.sha(bearer.value) in tokens;
            var bound := known && tokens[cfg.sha(bearer.value)].nonceHash.Some?;
            var foreign := origin != Some(cfg.allowedOrigin) && !(origin.None? && cfg.allowedOrigin == MISSING);
            && (verdict == Err(ForbiddenOrigin) <==> foreign)
            && (verdict == Err(Unauthorized) <==> !foreign && !shared && !known)
            && (verdict == Err(NonceAbsent) <==> !foreign && bound && nonce.None?)
            && (verdict == Err(NonceWrong) <==>
                  && !foreign && bound && nonce.Some?
                  && cfg.sha(nonce.value) != tokens[cfg.sha(bearer.value)].nonceHash.value)
            && (verdict == Ok(SharedSecret) <==> !foreign && shared)
            && (forall device :: verdict == Ok(Paired(device)) <==>
                  && !foreign && known && device == tokens[cfg.sha(bearer.value)].deviceLabel
                  && (bound ==> nonce.Some? && cfg.sha(nonce.value) == tokens[cfg.sha(bearer.value)].nonceHash.value))
  {
  }

  // ------------------------------------------------------------------
  // What is typed and what is bound
  // ------------------------------------------------------------------

  /** Tab, line feed, vertical tab, form feed, carriage return and space. */
  ghost predicate Spaces(s: Octets) {
    forall c <- s :: c in {9, 10, 11, 12, 13, 32}
  }

  /** No white space at either end. */
  ghost predicate Tight(s: Octets) {
    s != [] ==> !Spaces([s[0]]) && !Spaces([s[|s| - 1]])
  }

  ghost predicate Around(raw: Octets, left: Octets, core: Octets, right: Octets) {
    raw == left + core + right && Spaces(left) && Spaces(right) && Tight(core)
  }

  /** `core` is `raw` without the white space around it. */
  ghost predicate IsCore(raw: Octets, core: Octets) {
    exists left, right :: Around(raw, left, core, right)
  }

  lemma SpaceIsBlank(c: bv8)
    ensures Blank(c) <==> c in {9, 10, 11, 12, 13, 32}
    ensures Spaces([c]) <==> Blank(c)
  {
    assert c in [c];
  }

  lemma SpacesAreBlank(s: Octets)
    ensures Spaces(s) <==> forall i :: 0 <= i < |s| ==> Blank(s[i])
  {
    if Spaces(s) {
      forall i | 0 <= i < |s|
        ensures Blank(s[i])
      {
        assert s[i] in s;
        SpaceIsBlank(s[i]);
      }
    }
    if forall i :: 0 <= i < |s| ==> Blank(s[i]) {
      forall c | c in s
        ensures c in {9, 10, 11, 12, 13, 32}
      {
        SpaceIsBlank(c);
      }
    }
  }

  lemma TightEnds(core: Octets)
    ensures Tight(core) <==> (core != [] ==> !Blank(core[0]) && !Blank(core[|core| - 1]))
  {
    if core != [] {
      SpaceIsBlank(core[0]);
      SpaceIsBlank(core[|core| - 1]);
    }
  }

  /** Trimming finds the one core there is. */
  lemma CoreIsTrimmed(raw: Octets, core: Octets)
    ensures IsCore(raw, core) <==> Trimmed(raw) == core
  {
    if IsCore(raw, core) {
      var left, right :| Around(raw, left, core, right);
      SpacesAreBlank(left);
      SpacesAreBlank(right);
      TightEnds(core);
      TrimCore(left, core, right, Blank);
    }
    if Trimmed(raw) == core {
      var left, right := TrimSplits(raw, Blank);
      SpacesAreBlank(left);
      SpacesAreBlank(right);
      TightEnds(core);
      assert Around(raw, left, core, right);
    }
  }

  /** `code` is `typed` with its ASCII letters in capitals. */
  ghost predicate Capitals(typed: Octets, code: Octets) {
    && |typed| == |code|
    && forall i :: 0 <= i < |typed| ==>
         if 97 <= typed[i] <= 122 then code[i] == typed[i] - 32 else code[i] == typed[i]
  }

  /** A code typed in either case, with white space around it, is read as the code. */
  lemma TypedCode(raw: Octets, typed: Octets, code: Octets)
    requires IsCore(raw, typed) && Capitals(typed, code)
    ensures Upper(Trimmed(raw)) == code
  {
    CoreIsTrimmed(raw, typed);
  }

  /**
   * Presenting a code: it wins when it matches an unexpired one, and the slot
   * is emptied by a win or by expiry and by nothing else.
   */
  lemma ConsumeExact(entry: PairingCode, presented: Octets, now: Time)
    ensures var (slot, won) := Consume(Some(entry), presented, now);
            && (won <==> now < entry.expiresAt && Matches(entry.code, presented))
            && (slot == None <==> won || entry.expiresAt <= now)
            && (slot != None ==> slot == Some(entry))
    ensures Consume(None, presented, now) == (None, false)
  {
  }

  /** The guard's answer to a bearer just registered, on the allowed Origin, when the raw nonce had the core `core`. */
  lemma NonceIsBound(cfg: Config, tokens: Tokens, bearer: Octets, device: Octets, raw: Octets, core: Octets,
                     nonce: Option<Octets>)
    requires !(cfg.sharedSecret.Some? && Matches(bearer, cfg.sharedSecret.value))
    requires IsCore(raw, core)
    ensures var after := Register(cfg, tokens, bearer, device, BoundNonce(Some(raw)));
            GuardVerdict(cfg, after, Some(cfg.allowedOrigin), Some(bearer), nonce) ==
            if core == [] || |core| > 256 then Ok(Paired(device))
            else if nonce.None? then Err(NonceAbsent)
            else if cfg.sha(nonce.value) == cfg.sha(core) then Ok(Paired(device))
            else Err(NonceWrong)
  {
    CoreIsTrimmed(raw, core);
  }

  /** Without a nonce at pairing, any or none is accepted; and the other tokens are untouched. */
  lemma NoNonceIsBound(cfg: Config, tokens: Tokens, bearer: Octets, device: Octets, nonce: Option<Octets>)
    requires !(cfg.sharedSecret.Some? && Matches(bearer, cfg.sharedSecret.value))
    ensures var after := Register(cfg, tokens, bearer, device, BoundNonce(None));
            GuardVerdict(cfg, after, Some(cfg.allowedOrigin), Some(bearer), nonce) == Ok(Paired(device))
  {
  }

  lemma RegisterKeepsOthers(cfg: Config, tokens: Tokens, bearer: Octets, device: Octets, nonce: Option<Octets>,
                            d: Digest)
    requires d != cfg.sha(bearer)
    ensures var after := Register(cfg, tokens, bearer, device, nonce);
            (d in after <==> d in tokens) && (d in tokens ==> after[d] == tokens[d])
  {
  }

  function DenyOutcome(session: Session): Option<Outcome> {
    match session
    case Invalid => Some(Unauthorized)
    case NonceMissing => Some(NonceAbsent)
    case NonceMismatch => Some(NonceWrong)
    case _ => None
  }

  // ------------------------------------------------------------------
  // Unwrap
  // ------------------------------------------------------------------

  /** The error texts the handler recognises as the caller's fault. */
  predicate IsBadRequest(f: Envelope.Failure) {
    f.Unsupported? || f.BadFormat? || f.BadBase64? || f.BadEphemeralLength? || f.BadSaltLength? || f.BadIvLength?
  }

  /**
   * An unwrap is audited as a bad request exactly when the wrapped text is not
   * that of sound parts, and as fine exactly when it gives a key.
   */
  lemma OutcomeExactly(suite: Envelope.Suite, secret: Bytes, wrapped: string)
    ensures var r := Envelope.DaemonUnwrap(suite, secret, wrapped);
            && (UnwrapOutcome(r) == BadRequest <==>
                  forall pub, salt, iv, ciphertext :: !Envelope.WrittenAs(wrapped, pub, salt, iv, ciphertext))
            && (UnwrapOutcome(r) == Fine <==> r.Ok?)
            && UnwrapOutcome(r) in {Fine, BadRequest, DaemonError}
  {
    Envelope.MalformedExactly(suite, secret, wrapped);
  }

  function UnwrapOutcome(r: Result<string, Envelope.Failure>): Outcome {
    match r
    case Ok(_) => Fine
    case Err(f) => if IsBadRequest(f) then BadRequest else DaemonError
  }

  // ------------------------------------------------------------------
  // The object
  // ------------------------------------------------------------------

  class BridgeAppState {
    const config: Config
    var pairingCode: Option<PairingCode>
    var tokens: Tokens
    const rate: RateBuckets
    var audit: seq<Event>

    ghost predicate Valid()
      reads this, rate
    {
      rate.Valid() && rate.caps == config.caps
    }

    constructor (config: Config)
      ensures Valid() && fresh(rate) && this.config == config
      ensures pairingCode == None && tokens == map[] && audit == [] && rate.history == []
    {
      this.config := config;
      pairingCode, tokens, audit := None, map[], [];
      rate := new RateBuckets(config.caps);
    }

    method EmitAudit(event: Event)
      modifies this`audit
      ensures audit == old(audit) + [event]
    {
      audit := audit + [event];
    }

    method IssuePairingCode(code: Octets, now: Time)
      modifies this`pairingCode
      ensures pairingCode == Some(PairingCode(code, now + config.codeTtl))
    {
      pairingCode := Some(PairingCode(code, now + config.codeTtl));
    }

    /** Single use: a match empties the slot, a wrong guess leaves it, expiry reaps it. */
    method ConsumePairingCode(presented: Octets, now: Time) returns (ok: bool)
      modifies this`pairingCode
      ensures (pairingCode, ok) == Consume(old(pairingCode), presented, now)
    {
      if pairingCode.None? {
        return false;
      }
      if now >= pairingCode.value.expiresAt {
        pairingCode := None;
        return false;
      }
      var eq := ConstantTimeEq(pairingCode.value.code, presented);
      if !eq {
        return false;
      }
      pairingCode := None;
      return true;
    }

    method RegisterToken(bearer: Octets, device: Octets, nonce: Option<Octets>)
      modifies this`tokens
      ensures tokens == Register(config, old(tokens), bearer, device, nonce)
    {
      var record := Token(device, if nonce.Some? then Some(config.sha(nonce.value)) else None);
      tokens := tokens[config.sha(bearer) := record];
    }

    method ResolveToken(presented: Octets, nonce: Option<Octets>) returns (session: Session)
      ensures session == Resolve(config, tokens, presented, nonce)
    {
      if config.sharedSecret.Some? {
        var eq := ConstantTimeEq(presented, config.sharedSecret.value);
        if eq {
          return SharedSecret;
        }
      }
      var hash := config.sha(presented);
      if hash in tokens {
        var record := tokens[hash];
        if record.nonceHash.Some? {
          if nonce.None? {
            return NonceMissing;
          }
          if config.sha(nonce.value) != record.nonceHash.value {
            return NonceMismatch;
          }
        }
        return Paired(record.deviceLabel);
      }
      return Invalid;
    }

    method RevokeToken(presented: Octets) returns (device: Option<Octets>)
      modifies this`tokens
      ensures tokens == old(tokens) - {config.sha(presented)}
      ensures device.Some? <==> config.sha(presented) in old(tokens)
      ensures device.Some? ==> device.value == old(tokens)[config.sha(presented)].deviceLabel
    {
      var hash := config.sha(presented);
      device := if hash in tokens then Some(tokens[hash].deviceLabel) else None;
      tokens := tokens - {hash};
    }

    method RevokeAllTokens() returns (count: nat)
      modifies this`tokens
      ensures tokens == map[] && count == |old(tokens)|
    {
      count := |tokens|;
      tokens := map[];
    }

    method EnforceBridgeGuards(kind: Kind, origin: Option<Octets>, bearer: Option<Octets>, nonce: Option<Octets>)
      returns (verdict: Result<Session, Outcome>)
      modifies this`audit
      ensures verdict == GuardVerdict(config, tokens, origin, bearer, nonce)
      ensures audit == old(audit) + if verdict.Err? then [Event(kind, verdict.error)] else []
    {
      if OriginText(origin) != config.allowedOrigin {
        EmitAudit(Event(kind, ForbiddenOrigin));
        return Err(ForbiddenOrigin);
      }
      var session := Invalid;
      if bearer.Some? {
        session := ResolveToken(bearer.value, nonce);
      }
      match DenyOutcome(session) {
        case Some(outcome) =>
          EmitAudit(Event(kind, outcome));
          return Err(outcome);
        case None =>
          return Ok(session);
      }
    }

    /** `POST /v1/pair` run without interruption; the bearer minted comes from the random source. */
    method HandlePair(rawCode: Octets, newBearer: Octets, device: Octets, rawNonce: Option<Octets>, now: Time)
      returns (answer: Result<Octets, Outcome>)
      modifies this`pairingCode, this`tokens, this`audit
      ensures var code := Upper(Trimmed(rawCode));
              && (answer.Ok? <==> code != [] && Consume(old(pairingCode), code, now).1)
              && (answer == Ok(newBearer) || answer == Err(if code == [] then BadRequest else Unauthorized))
              && pairingCode == (if code == [] then old(pairingCode) else Consume(old(pairingCode), code, now).0)
      ensures tokens ==
              if answer.Ok? then Register(config, old(tokens), newBearer, device, BoundNonce(rawNonce)) else old(tokens)
      ensures audit == old(audit) + [Event(PairRequested, Fine),
                                     if answer.Ok? then Event(PairSucceeded, Fine) else Event(PairFailed, Unauthorized)]
    {
      EmitAudit(Event(PairRequested, Fine));
      var presented := Upper(Trimmed(rawCode));
      if presented == [] {
        EmitAudit(Event(PairFailed, Unauthorized));
        return Err(BadRequest);
      }
      var won := ConsumePairingCode(presented, now);
      if !won {
        EmitAudit(Event(PairFailed, Unauthorized));
        return Err(Unauthorized);
      }
      RegisterToken(newBearer, device, BoundNonce(rawNonce));
      EmitAudit(Event(PairSucceeded, Fine));
      return Ok(newBearer);
    }

    /** The handler behind the guard: the cap is charged before any cryptography, and one event is emitted. */
    method HandleUnwrap(encryptedKey: string, now: Time) returns (answer: Result<string, Outcome>)
      requires Valid() && rate.lastNow <= now
      modifies this`audit, rate
      ensures Valid()
      ensures audit == old(audit) + [Event(Decrypt, if answer.Ok? then Fine else answer.error)]
      ensures config.encryptionSecret.None? ==> answer == Err(Disabled) && rate.history == old(rate.history)
      ensures config.encryptionSecret.Some? ==>
                var reply := RefReply(old(rate.history), Check(now), config.caps);
                && rate.history == RefHistory(old(rate.history), Check(now), config.caps)
                && answer ==
                   if !reply.Accepted? then Err(RateLimited) else
                     var r := Envelope.DaemonUnwrap(config.suite, config.encryptionSecret.value, encryptedKey);
                     if r.Ok? then Ok(r.value) else Err(UnwrapOutcome(r))
    {
      if config.encryptionSecret.None? {
        EmitAudit(Event(Decrypt, Disabled));
        return Err(Disabled);
      }
      var reply := rate.CheckAndRecord(now, config.caps.perMin, config.caps.perDay);
      if !reply.Accepted? {
        EmitAudit(Event(Decrypt, RateLimited));
        return Err(RateLimited);
      }
      var r := Envelope.DaemonUnwrap(config.suite, config.encryptionSecret.value, encryptedKey);
      EmitAudit(Event(Decrypt, UnwrapOutcome(r)));
      answer := if r.Ok? then Ok(r.value) else Err(UnwrapOutcome(r));
    }
  }
}
