# NexusInbox, verified

A Dafny model of the parts of NexusInbox where several programs have to agree
or where an access decision is made: the TypeScript SDK and crypto package, the
MCP server, the Rust agent gateway, the Rust signer daemon with its browser
bridge, and the settings panel's policy editor.

    dafny verify dfyconfig.toml

## What is modelled

- **did:key** (`Radix`, `Base58`). The SDK accumulates little-endian base-58
  digits byte by byte; the daemon divides a byte buffer by 58 in place. Both
  are loops here, over a digit list and over an array, and both are proved
  equal to the numeral defined in section 3 of draft-msporny-base58-03, whose
  decoder is proved to be its inverse.
- **The daemon's bridge** (`ConstantTime`, `RateLimit`, `Bridge`,
  `BridgeRuns`). `Bridge` has the object, method by method. `BridgeRuns` is the
  same state cut into the code's critical sections, which requests and the
  clock interleave in any order; every theorem there is about every run from
  the daemon's start.
- **Wire formats and encryption end to end** (`Text`, `Base64Url`, `Payload`,
  `Envelope`). Three base64url codecs, the `enc:v1` text, the `x25519v1`
  wrapped key, and their composition across the SDK, MCP server, gateway and
  daemon.
- **Auto-reply** (`Json`, `Policy`, `PolicyEditor`, `A2a`, `Executor`). The
  gateway's evaluator over untyped JSON, the panel that edits policies, the
  protocol blocks with the SDK's validators, and the polling executor.
- **The gateway** (`LineReader`, `Gateway`, `Uuid`). The bounded line reader,
  the token life cycle with its send limit, and the identifier check against
  the SDK's UUIDv7 generator.

Cryptography is a parameter (`Envelope.Suite`) with its laws: Diffie-Hellman
commutes, public keys have 32 octets, opening inverts sealing, UTF-8 decoding
inverts encoding. SHA-256 is an abstract function; `Config.CollisionFree` is
stated only where it is used, of digests without a length bound. The rest of
the JavaScript number syntax is a parameter (`Text.NumberSyntax`), lawful if
printing and reading back is the identity on the finite numbers; messages need
no such law, because they print only 1 and 120000. Each of the three
assumptions is shown to be satisfiable. Randomness, clocks and the answers of
other services are arguments.

## Where the code does less than one would expect

Each of these is a theorem; where a condition is named, the property holds
exactly under it.

- The SDK's base-58 encoder writes one `1` too many exactly for a non-empty run
  of zero octets (`Base58.SdkEncode`). A did:key starts with 0xed, so it is not
  affected.
- The constant-time comparison casts the XOR of the lengths to eight bits. It
  decides equality for a pair of lengths exactly when they are equal or differ
  modulo 256 (`ConstantTime.DecidesEqualityIff`). Strings without zero octets,
  and strings shorter than 256 octets, always compare exactly.
- A text beginning with a byte-order mark loses it in the recipient's
  `TextDecoder` (`Envelope.EndToEnd`); the gateway's reader keeps it.
- The panel drops default conditions, overrides it does not show, empty
  allowlists and entries with white space at the ends
  (`PolicyEditor.EditPreservesMeaningIff`, `PolicyEditor.SavingPreservesMeaningIff`).
- A message whose version is written `1.0` is read by the SDK and not by the
  gateway (`A2a.MessagesAgree`, `A2a.DecimalVersionDiffers`).
- One send more than the limit can go out under one minted token, because the
  limit is checked before the token that resets it is minted; the bound is
  reached (`Gateway.SendLimits`, `Gateway.LimitIsReached`). The executor's
  replies are not counted at all (`Gateway.AutoRepliesAreUnmetered`).
- The line reader's comment says it fails as soon as `max` bytes accumulate
  without a newline; the code fails only beyond `max`, and the model follows the
  code.

## Model

| member | source | states |
|---|---|---|
| Base58.CarryThrough | packages/core/src/index.ts:644-649 | the inner loop multiplies the number in hand by 256 and adds the octet; the carry never exceeds 255; a non-zero top digit leaves a non-zero carry |
| Base58.PushCarry | packages/core/src/index.ts:650-653 | the rest of the carry becomes at most two new digits, the top one not zero, and the number is unchanged |
| Base58.MulAdd | packages/core/src/index.ts:643-654 | one round of the outer loop takes the digits' value n to 256 n + octet |
| Base58.AccumulatedNumeral | packages/core/src/index.ts:660-663 | the accumulated digits read downward are the canonical base-58 numeral, and show zero as a single "1" |
| Base58.SdkEncode | packages/core/src/index.ts:638-664 | the SDK's encoder is the standard's for every byte string, with one extra "1" exactly for non-empty runs of zeros |
| Base58.DivideInPlace | services/signer-daemon/src/main.rs:55-60 | the in-place pass is division by 58: old value = 58 * new value + remainder, the octets before the start untouched, every quotient an octet |
| Base58.SkipZeros | services/signer-daemon/src/main.rs:62-64 | the start moves to the first non-zero octet without changing the value |
| Base58.EncodeInPlace | services/signer-daemon/src/main.rs:49-69 | the daemon's encoder ends (the value strictly falls) and returns the standard's encoding of the buffer it destroys |
| Base58.SdkDidKey | packages/core/src/index.ts:629-636 | the SDK's DID is the did:key of the public key |
| Base58.DaemonDidKey | services/signer-daemon/src/main.rs:42-70 | the daemon's DID is the same function of the public key as the SDK's |
| Base58.DidKeyShape | services/signer-daemon/src/main.rs:42-70 | after "did:key:z", decoding recovers 0xed, 0x01 and the key |
| Base58.DecodeEncode | packages/core/src/index.ts:638-664 | a base-58 decoder recovers every byte string, leading zeros included, from its encoding |
| Base58.EncodeDecode | services/signer-daemon/src/main.rs:42-70 | every text the decoder accepts is the encoding of what it decodes to |
| Base58.DidKeyInjective | services/signer-daemon/src/main.rs:42-70 | distinct public keys have distinct DIDs |
| Radix.NumRep | packages/core/src/index.ts:643-654 | the canonical numeral of n denotes n, in every base |
| Radix.RepNum | services/signer-daemon/src/main.rs:53-65 | a digit string without leading zeros is the canonical numeral of its value |
| ConstantTime.ConstantTimeEq | services/signer-daemon/src/bridge.rs:840-851 | the loop answers true exactly when the zero-padded octets agree and the lengths agree modulo 256 |
| ConstantTime.XorBit | services/signer-daemon/src/bridge.rs:844-844 | each bit of the XOR of two lengths is set iff the two bits differ |
| ConstantTime.LengthDiffZero | services/signer-daemon/src/bridge.rs:844-844 | the XOR of the lengths cast to eight bits vanishes iff the lengths agree modulo 256 |
| ConstantTime.DecidesEqualityIff | services/signer-daemon/src/bridge.rs:836-851 | for a pair of lengths the verdict is equality on all strings iff the lengths are equal or differ modulo 256 |
| ConstantTime.ZeroFreeDecides | services/signer-daemon/src/bridge.rs:840-851 | strings free of zero octets, of any lengths, match exactly when equal |
| ConstantTime.ShortDecides | services/signer-daemon/src/bridge.rs:840-851 | strings shorter than 256 octets match exactly when equal |
| RateLimit.RateBuckets.constructor | services/signer-daemon/src/bridge.rs:259-265 | both windows start empty |
| RateLimit.RateBuckets.Prune | services/signer-daemon/src/bridge.rs:267-272 | pruning keeps exactly the recorded instants inside each window of the full history |
| RateLimit.RateBuckets.CheckAndRecord | services/signer-daemon/src/bridge.rs:274-299 | answers as a limiter remembering every acceptance for ever, counters and 32-bit casts included, and records exactly the acceptances |
| RateLimit.AcceptsExactly | services/signer-daemon/src/bridge.rs:274-299 | a call is accepted iff fewer than the cap were accepted in the last 60 s and in the last 86400 s, with the exact counters; the minute's cap is named first |
| RateLimit.RateBuckets.TakeSnapshot | services/signer-daemon/src/bridge.rs:301-308 | reports the counts of the full history's windows and records nothing |
| RateLimit.StepAgrees | services/signer-daemon/src/bridge.rs:267-308 | one call: same reply as the unpruned limiter, and the buckets keep representing its history |
| RateLimit.FreshRunsAgree | services/signer-daemon/src/bridge.rs:254-309 | over every run with a non-decreasing clock the pruned and the unpruned limiter give the same replies |
| RateLimit.RefusalsAreInvisible | services/signer-daemon/src/bridge.rs:251-299 | a refused call, or a snapshot, changes no later reply |
| RateLimit.MinuteIsSuffixOfDay | services/signer-daemon/src/bridge.rs:267-299 | the minute list is always a suffix of the day list |
| RateLimit.WindowBound | services/signer-daemon/src/bridge.rs:242-299 | every window of 60 s and of 86400 s, wherever it starts, holds at most its cap of acceptances |
| RateLimit.RunRespectsCaps | services/signer-daemon/src/bridge.rs:254-309 | whatever the calls, the acceptances of a run respect both caps in every window |
| Bridge.BridgeAppState.constructor | services/signer-daemon/src/bridge.rs:611-619 | the daemon starts with no code, no token, an unused quota |
| Bridge.BridgeAppState.EmitAudit | services/signer-daemon/src/bridge.rs:367-369 | one event is appended to the audit stream |
| Bridge.BridgeAppState.IssuePairingCode | services/signer-daemon/src/bridge.rs:389-398 | the new code replaces any outstanding one and expires after the configured time |
| Bridge.BridgeAppState.ConsumePairingCode | services/signer-daemon/src/bridge.rs:405-422 | a match in time empties the slot, a wrong guess leaves it, expiry reaps it |
| Bridge.BridgeAppState.RegisterToken | services/signer-daemon/src/bridge.rs:428-441 | the inventory gains the bearer's digest with its label and hashed nonce |
| Bridge.BridgeAppState.ResolveToken | services/signer-daemon/src/bridge.rs:454-478 | shared secret first, then the inventory with its nonce; the inventory stays as it is, but for the last-use timestamp, which is not kept |
| Bridge.BridgeAppState.RevokeToken | services/signer-daemon/src/bridge.rs:483-490 | exactly the presented bearer's record goes, and its label is returned iff there was one |
| Bridge.BridgeAppState.RevokeAllTokens | services/signer-daemon/src/bridge.rs:495-501 | the inventory is emptied and its old size returned |
| Bridge.BridgeAppState.EnforceBridgeGuards | services/signer-daemon/src/bridge.rs:701-772 | a session or one audited refusal, as the guard's verdict function says |
| Bridge.GuardExact | services/signer-daemon/src/bridge.rs:713-772 | the guard passes iff the Origin is the allowed one and the bearer is the shared secret or a registered one with its bound nonce |
| Bridge.GuardOutcomes | services/signer-daemon/src/bridge.rs:713-772 | which session each request is given and which refusal is audited, each iff its condition |
| Bridge.ConsumeExact | services/signer-daemon/src/bridge.rs:405-422 | a code wins iff it matches an unexpired one; the slot is emptied by a win or by expiry and by nothing else |
| Bridge.TypedCode | services/signer-daemon/src/bridge.rs:1037-1037 | a code typed in either case with white space around it is read as the code |
| Bridge.CoreIsTrimmed | services/signer-daemon/src/bridge.rs:1069-1076 | trimming finds the one core between the white space at both ends |
| Bridge.NonceIsBound | services/signer-daemon/src/bridge.rs:1069-1078 | a bearer registered with a nonce whose core has 1 to 256 octets passes the guard iff that core's digest is presented, and is refused as nonce missing or mismatch otherwise; with a blank or longer one it passes with any |
| Bridge.NoNonceIsBound | services/signer-daemon/src/bridge.rs:454-478 | a bearer registered without a nonce passes with any or none |
| Bridge.RegisterKeepsOthers | services/signer-daemon/src/bridge.rs:428-441 | a registration changes no other record |
| Bridge.OutcomeExactly | services/signer-daemon/src/bridge.rs:1230-1254 | an unwrap is audited as a bad request iff the wrapped text is not that of sound parts, and as ok iff it gives a key |
| Bridge.CollisionFreeExists | services/signer-daemon/src/bridge.rs:143-147 | the freedom from collisions asked of the digest can be met |
| Bridge.BridgeAppState.HandlePair | services/signer-daemon/src/bridge.rs:1008-1087 | a bearer is minted and registered iff the normalised code is not empty and wins the slot; two audit events either way |
| Bridge.BridgeAppState.HandleUnwrap | services/signer-daemon/src/bridge.rs:1171-1256 | the quota is charged before any cryptography, exactly one event is emitted, and the key is returned iff charged and unwrapped |
| BridgeRuns.PairStepsAreHandler | services/signer-daemon/src/bridge.rs:1008-1087 | the pairing steps run back to back leave the state the handler's contract describes |
| BridgeRuns.PairingSucceeds | services/signer-daemon/src/bridge.rs:1008-1087 | a request that presents the outstanding code in time, in any case and spacing, gets its token and empties the slot |
| BridgeRuns.WrongGuess | services/signer-daemon/src/bridge.rs:1042-1048 | a wrong code in time leaves code and inventory as they were and is audited as failed |
| BridgeRuns.UnwrapStepsAreHandler | services/signer-daemon/src/bridge.rs:1171-1256 | charging and finishing run back to back leave the quota, audit and release count of the handler's contract |
| BridgeRuns.DecryptLedgerKept | services/signer-daemon/src/bridge.rs:1188-1255 | every step keeps: quota entries = charged decrypt events + charged requests in flight; keys released = ok decrypt events |
| BridgeRuns.PairAuditKept | services/signer-daemon/src/bridge.rs:1019-1087 | every step keeps: pairings requested = failed + succeeded + in flight; tokens registered = succeeded + stored in flight |
| BridgeRuns.PairLedgerKept | services/signer-daemon/src/bridge.rs:389-501 | every step keeps: codes consumed = registrations + winners in flight; outstanding and consumed codes never exceed those issued; no token without its registration |
| BridgeRuns.LimiterLedgerKept | services/signer-daemon/src/bridge.rs:274-308 | every step keeps the buckets representing the whole history of charges |
| BridgeRuns.LedgersHold | services/signer-daemon/src/bridge.rs:389-1256 | all four ledgers hold after every interleaving of guards, handlers, revocations and clock ticks |
| BridgeRuns.AuditConservation | services/signer-daemon/src/bridge.rs:1019-1255 | at quiescence the audit stream accounts for every charge, every released key, every pairing and every token |
| BridgeRuns.InventoryBound | services/signer-daemon/src/bridge.rs:386-441 | always tokens <= registrations <= codes consumed <= codes issued, and keys released <= charges |
| BridgeRuns.DecryptCaps | services/signer-daemon/src/bridge.rs:1211-1228 | in every run, every minute and every day holds at most its cap of charged decrypts |
| BridgeRuns.OncePerRequest | services/signer-daemon/src/bridge.rs:1008-1256 | a request passes each of its critical sections at most once |
| BridgeRuns.ReleaseIsAuthorised | services/signer-daemon/src/bridge.rs:701-774 | behind every released key lie the request's own authorised guard and then its own charge |
| BridgeRuns.AuthorisedIsServed | services/signer-daemon/src/bridge.rs:1171-1256 | an authorised request within the caps whose key unwraps is served, charged once and audited |
| BridgeRuns.RefusedStep | services/signer-daemon/src/bridge.rs:690-772 | a refused request is audited once, under the event of its route, and goes no further |
| BridgeRuns.ReleasesHaveOwnCharges | services/signer-daemon/src/bridge.rs:1211-1234 | two releases serve different requests and never share a charge |
| BridgeRuns.WinIsCurrent | services/signer-daemon/src/bridge.rs:405-422 | a win presents the last code issued, before its expiry, and nobody won that code before |
| BridgeRuns.CurrentCodeWins | services/signer-daemon/src/bridge.rs:386-422 | in every run, a request wins iff it matches the last code issued, in time, with nobody having won it yet |
| BridgeRuns.AtMostOneWinner | services/signer-daemon/src/bridge.rs:386-422 | between any two wins lies an issue: requests racing for one code have at most one winner |
| BridgeRuns.TokenOrigin | services/signer-daemon/src/bridge.rs:1042-1078 | every token in the inventory was stored by a request that had won a code, was not revoked since, and still holds the label and nonce hash stored then |
| BridgeRuns.TokenStays | services/signer-daemon/src/bridge.rs:428-501 | a token stored and not revoked since is in the inventory as it was stored |
| BridgeRuns.InventoryExactly | services/signer-daemon/src/bridge.rs:428-501 | in every run the inventory holds exactly the tokens stored and not revoked since |
| BridgeRuns.TokensHaveOwnWins | services/signer-daemon/src/bridge.rs:1042-1078 | one winner stores one token, so tokens trace to distinct wins |
| BridgeRuns.ReleaseSafety | services/signer-daemon/src/bridge.rs:454-501 | a key is released only to a request that showed the allowed Origin with the shared secret, or with the bearer minted for an earlier winner and not revoked before the guard, presenting the nonce typed at that pairing without the white space around it, if it had 1 to 256 octets, on a charge of its own |
| Base64Url.ToBase64UrlIsNoPad | packages/crypto/src/index.ts:29-33 | stripping the padding gives the daemon's unpadded text: same characters, url-safe alphabet only, length never 1 modulo 4 |
| Base64Url.SextetsValue | packages/crypto/src/index.ts:29-33 | the sextets, as base-64 digits, denote the octets' number followed by the fill bits (section 4 of RFC 4648) |
| Base64Url.GlyphIsTable | packages/crypto/src/index.ts:32-32 | sextet d is written as the d-th character of the table of RFC 4648 |
| Base64Url.RepadRestores | packages/crypto/src/index.ts:35-37 | re-adding '=' by length restores the padded text exactly |
| Base64Url.FromToBase64 | packages/crypto/src/index.ts:30-38 | the padded decoder inverts the padded encoder |
| Base64Url.RoundTrip | packages/crypto/src/index.ts:29-42 | each of the two decoders recovers every byte string from each of the two encoders |
| Base64Url.FromBase64UrlLoop | packages/crypto/src/index.ts:35-42 | the index loop fills a fresh array with exactly the decoded octets, or fails where the decoder does |
| Base64Url.FromBase64UrlAccepts | packages/crypto/src/index.ts:35-42 | unpadded text is accepted iff its length is not 1 modulo 4 and its characters are of either alphabet |
| Base64Url.BufferRoundTrip | packages/mcp-server/src/decrypt.ts:30-32 | Node's tolerant decoder also recovers every byte string |
| Base64Url.BufferSkips | packages/mcp-server/src/decrypt.ts:30-32 | Node's decoder reads past foreign characters and stops at the first '=' |
| Base64Url.DecodeNoPadExact | services/signer-daemon/src/main.rs:717-721 | the daemon's strict decoder accepts exactly the texts its encoder writes |
| Base64Url.DecodersAgree | services/signer-daemon/src/main.rs:717-721 | what the daemon decodes, the crypto package decodes alike |
| Text.SplitJoin | packages/crypto/src/index.ts:116-123 | splitting at a separator recovers fields that do not contain it |
| Text.DecimalRoundTrip | services/agent-gateway/src/envelope_crypto.rs:83-109 | a printed decimal reads back as the same number |
| Text.NumberSyntax.ReadShow | packages/crypto/src/index.ts:117-126 | a number written into the text reads back, is not blank and holds no colon: any integer from 0 below 2^53, and any other finite number the syntax prints faithfully |
| Text.LawfulSyntaxExists | packages/crypto/src/index.ts:117-126 | the law asked of the rest of the number syntax can be met, with finite numbers beyond the plain ones |
| Payload.ParseSerialize | packages/crypto/src/index.ts:116-145 | parsing the printed payload gives it back iff its iteration count is within 100000..1000000, and is refused otherwise, for all finite version and iteration numbers |
| Payload.SerializeIsSpelled | packages/crypto/src/index.ts:116-118 | the printed text, character by character |
| Payload.ParseExactly | packages/crypto/src/index.ts:120-145 | a text parses to a payload iff it is the template with those fields, its numbers read and the iteration count is in the band |
| Payload.WritersAgree | services/agent-gateway/src/envelope_crypto.rs:81-88 | the gateway prints the same text as the crypto package for the same fields |
| Payload.GatewayReadsSerialized | services/agent-gateway/src/envelope_crypto.rs:101-109 | the gateway reads every field of every version-1 text the crypto package writes |
| Payload.GatewayReadExactly | services/agent-gateway/src/envelope_crypto.rs:101-118 | the gateway reads a text iff it is the version-1 template with the two algorithms and an unsigned 32-bit count |
| Payload.ReadersAgree | packages/crypto/src/index.ts:120-145 | on every text the gateway reads, the crypto package reads the same fields or refuses, and refuses exactly outside the iteration band |
| Envelope.WrappersAgree | services/signer-daemon/src/main.rs:791-831 | on every recipient key text the daemon decodes, daemon and SDK wrap to the same text or fail alike |
| Envelope.WrapAcceptsExactly | services/signer-daemon/src/main.rs:795-798 | both wrappers refuse exactly the public keys that have not 32 octets |
| Envelope.DaemonUnwrapsSdk | services/signer-daemon/src/main.rs:723-774 | the daemon unwraps every content key the SDK wraps, exactly |
| Envelope.DaemonUnwrapsDaemon | services/signer-daemon/src/main.rs:723-831 | the daemon unwraps every content key it wraps, exactly |
| Envelope.UnwrapsParts | services/signer-daemon/src/main.rs:723-774 | on a wrapped text of sound parts the daemon's answer is what opening them gives |
| Envelope.MalformedExactly | services/signer-daemon/src/main.rs:727-756 | the daemon calls a wrapped text malformed iff it is not written from parts of the right sizes |
| Envelope.McpUnwrapsSdk | packages/mcp-server/src/decrypt.ts:69-101 | the MCP server unwraps every content key the SDK wraps, up to a leading byte-order mark |
| Envelope.McpRefuses | packages/mcp-server/src/decrypt.ts:73-88 | which wrapped texts the MCP server refuses before any cryptography, and why |
| Envelope.DecryptTextInverts | packages/crypto/src/index.ts:70-114 | decrypting an encrypted text gives it back up to a leading byte-order mark |
| Envelope.DecryptTextRefuses | packages/crypto/src/index.ts:95-114 | version, then algorithms, then base64, then the cipher: which payloads are refused and why |
| Envelope.DecryptSafelyInverts | packages/mcp-server/src/decrypt.ts:146-158 | the tolerant reader never passes through nor fails on a text the SDK wrote |
| Envelope.DecryptSafelyExactly | packages/mcp-server/src/decrypt.ts:146-158 | text that is not of the template passes through; text that is never does, and is decrypted or replaced by the notice |
| Envelope.OpensFieldByField | packages/mcp-server/src/decrypt.ts:134-144 | body and subject are read with the same key, and an absent subject stays empty |
| Envelope.GatewayEncryptIsSdk | services/agent-gateway/src/envelope_crypto.rs:64-94 | the gateway's sealed text is the SDK's for the same random values |
| Envelope.GatewayDecryptInverts | services/agent-gateway/src/envelope_crypto.rs:101-127 | the gateway decrypts every SDK text exactly, byte-order mark included |
| Envelope.GatewayOpenRefuses | services/agent-gateway/src/envelope_crypto.rs:110-127 | which fields the gateway cannot decode, and that it aborts exactly on a nonce of another length |
| Envelope.GatewayDecryptRefuses | services/agent-gateway/src/envelope_crypto.rs:101-109 | the gateway refuses the format exactly of what is not the version-1 template |
| Envelope.EndToEnd | packages/core/src/index.ts:500-529 | the recipient's parse, unwrap and decrypt chain returns subject and body, unchanged iff neither starts with a byte-order mark, and what was signed is the envelope and its two parties in order |
| Envelope.EndToEndIsolated | packages/core/src/index.ts:500-529 | through the daemon's unwrap and the gateway's reader, subject and body come back exactly, and what was signed is the envelope and its two parties in order |
| Envelope.GatewayReplyOpens | services/agent-gateway/src/auto_reply_executor.rs:286-347 | a reply sealed by the gateway under a daemon-wrapped key opens in the recipient's chain |
| Envelope.SignedEnvelope | packages/core/src/index.ts:474-515 | what is signed, split at newlines, is sender, recipient and the envelope's own subject, content, key and nonce; the nonce is the seventh field of the content |
| Envelope.SigningTextInjective | services/signer-daemon/src/main.rs:656-666 | fields without newlines are determined by the signed text |
| Envelope.LawfulSuiteExists | packages/core/src/index.ts:440-472 | the laws asked of the cryptographic primitives can be met together |
| Policy.ConditionsExact | services/agent-gateway/src/policy_evaluator.rs:99-133 | no violation is reported iff every present, well-typed condition holds, and otherwise the reason of the first that fails in the documented order |
| Policy.RankOrder | services/agent-gateway/src/policy_evaluator.rs:75-83 | one priority is at most another iff both are known and in that order in the documented list |
| Policy.SelectedIsInForce | services/agent-gateway/src/policy_evaluator.rs:197-230 | a well-formed policy, read off its JSON fields, has a rule in force, the override under the message's type and action or else the default, and it is the one selected |
| Policy.DecidedByRule | services/agent-gateway/src/policy_evaluator.rs:204-236 | the rule in force decides: queued with the first failing condition, or by its action, with path and reason; the two unavailable actions are queued with their fallback reason |
| Policy.RefusedPolicy | services/agent-gateway/src/policy_evaluator.rs:184-202 | every other policy queues the message, with the exact reason for what is missing or unknown |
| Policy.AutomaticExactly | services/agent-gateway/src/policy_evaluator.rs:173-254 | the merged decision is auto_accept (auto_decline) iff both switches are on and the policy's JSON puts a rule with that action in force whose conditions hold; it is master_off with either switch off; no other automatic action ever comes out |
| Policy.Monotone | services/agent-gateway/src/policy_evaluator.rs:99-254 | more trust, becoming a contact or a lower known priority never changes an automatic decision |
| PolicyEditor.FillTests | apps/web/app/_components/AutoReplyPolicyPanel.tsx:126-134 | the field-by-field filling sets exactly the tests the draft names |
| PolicyEditor.FillConditions | apps/web/app/_components/AutoReplyPolicyPanel.tsx:116-134 | the object filled in place is the draft's conditions, or the error for an unreadable threshold |
| PolicyEditor.SelectRuleOf | services/agent-gateway/src/policy_evaluator.rs:184-230 | in the stored JSON the evaluator finds the rule the typed policy names |
| PolicyEditor.AllowlistSurvives | apps/web/app/_components/AutoReplyPolicyPanel.tsx:111-134 | what the text box gives back always has clean entries, and is the list itself if its entries were clean |
| PolicyEditor.AllowlistExactly | apps/web/app/_components/AutoReplyPolicyPanel.tsx:130-133 | an entry is listed iff it stands on a line, without the white space around it |
| PolicyEditor.DraftMeaning | apps/web/app/_components/AutoReplyPolicyPanel.tsx:116-142 | an enabled section is refused iff its threshold is typed and not a finite number, and otherwise stored with exactly what its fields ask of a message |
| PolicyEditor.DraftDecides | apps/web/app/_components/AutoReplyPolicyPanel.tsx:116-161 | what any draft decides once saved, for every message: by its enabled section if the message is admitted, queued if not, and otherwise by the default without conditions |
| PolicyEditor.PriorityNames | apps/web/app/_components/AutoReplyPolicyPanel.tsx:69-69 | the four choices are the documented priorities |
| PolicyEditor.ActionRoundTrip | apps/web/app/_components/AutoReplyPolicyPanel.tsx:98-142 | editing one override and saving never fails and only normalises its conditions and note |
| PolicyEditor.EditRoundTrip | apps/web/app/_components/AutoReplyPolicyPanel.tsx:83-161 | opening and saving any typed policy succeeds and stores its normal form |
| PolicyEditor.EditPreservesMeaningIff | apps/web/app/_components/AutoReplyPolicyPanel.tsx:83-161 | opening and saving preserves the gateway's decision in every context iff the policy is in the stated fragment |
| PolicyEditor.SavingPreservesMeaningIff | apps/web/app/_components/AutoReplyPolicyPanel.tsx:83-161 | what the panel stores after opening and saving decides alike in every context iff the policy is in the stated fragment |
| A2a.ValidBlockParses | services/agent-gateway/src/a2a_rust.rs:79-103 | the gateway reads every field of every propose or delegate block the SDK accepts |
| A2a.ReadersDiffer | services/agent-gateway/src/a2a_rust.rs:79-103 | exactly how the gateway's reader differs from the SDK's guard: illegal actions, a missing link, and array payloads |
| A2a.AcceptPayload | services/agent-gateway/src/a2a_rust.rs:128-161 | the slot accepted from a valid propose is one that was proposed and passes the SDK's candidate check |
| A2a.RepliesAreValid | services/agent-gateway/src/auto_reply_executor.rs:378-419 | from every valid propose or delegate either reply is built and itself passes the SDK's guard and validators, same type, linked to the source |
| A2a.ReplyPayloadExactly | services/agent-gateway/src/a2a_rust.rs:140-186 | a reply carries the first proposed slot, nothing, or the fixed reason |
| A2a.MessagesAgree | packages/core/src/a2a.ts:236-260 | the gateway reads an SDK message iff its version is an integer, and the body it sends back is read by the SDK as that valid reply |
| A2a.DecimalVersionDiffers | services/agent-gateway/src/a2a_rust.rs:61-77 | a document with version 1.0 that the SDK reads as a message with a valid block and the gateway does not read |
| Executor.Backend.PostReply | services/agent-gateway/src/auto_reply_executor.rs:348-354 | a successful post is logged with its decision and reply |
| Executor.Backend.MarkAutoReplySent | services/agent-gateway/src/auto_reply_executor.rs:360-371 | the mark call is logged with its result |
| Executor.DispatchOne | services/agent-gateway/src/auto_reply_executor.rs:203-373 | outcome and effects of one dispatch: nothing is posted before the decision, the reply and the signature stand, and a mark call follows every post |
| Executor.DueIsPosted | services/agent-gateway/src/auto_reply_executor.rs:265-373 | an automatic decision with a reply, accept or decline alike, is posted when the calls succeed, and exactly one mark call follows |
| Executor.OutcomeExactly | services/agent-gateway/src/auto_reply_executor.rs:203-373 | sent iff a reply is due, every call succeeds and the mark too; error iff the message is unreadable or a due reply fails; otherwise skipped; effects iff a due reply is posted |
| Executor.ValidRequestIsAnswered | services/agent-gateway/src/auto_reply_executor.rs:203-373 | a valid SDK propose or delegate, under a rule that accepts or declines and whose conditions hold, is answered with that action by a valid linked reply, and marked |
| Executor.RunOneTick | services/agent-gateway/src/auto_reply_executor.rs:147-186 | at most ten messages, each counted once as sent, skipped or error, their effects in order |
| Executor.ReportExactly | services/agent-gateway/src/auto_reply_executor.rs:178-184 | each counter of the report is the number of dispatches with its outcome |
| Executor.TakenExactly | services/agent-gateway/src/auto_reply_executor.rs:177-178 | a tick takes the first ten of the list at most |
| Executor.EffectsAppend | services/agent-gateway/src/auto_reply_executor.rs:178-184 | effects come in the order of the list |
| Executor.TickCounts | services/agent-gateway/src/auto_reply_executor.rs:177-185 | within a tick a message is answered at most once and every reply has its mark call |
| Executor.RepliesPerMessage | services/agent-gateway/src/auto_reply_executor.rs:147-373 | over any run of ticks the replies for one message are its failed mark calls plus at most one successful mark |
| Executor.NoReplyAfterHidden | services/agent-gateway/src/auto_reply_executor.rs:358-371 | once a mark has taken effect at the server, the number of replies to the message never grows again, however long the run |
| Executor.RepliesAreJustified | services/agent-gateway/src/auto_reply_executor.rs:239-272 | every reply posted in any run rests on a merged accept or decline for that very message, under the inputs of one of its ticks, and is built for that decision |
| LineReader.BufReader.Position | services/signer-daemon/src/main.rs:1350-1350 | the search finds the first newline |
| LineReader.BufReader.Extend | services/signer-daemon/src/main.rs:1346-1358 | one round moves bytes from the stream to the buffer, losing none, and stops exactly at the line's end |
| LineReader.BufReader.ReadLineBounded | services/signer-daemon/src/main.rs:1339-1378 | verdict and line depend on the byte stream only, not on its chunks; a line is removed whole and nothing past its newline is consumed |
| LineReader.ReadLineExactly | services/signer-daemon/src/main.rs:1339-1378 | a line with its newline is delivered iff it fits in `max` bytes and is UTF-8, whatever follows; at end of file what is left is the line |
| LineReader.LinesArePrefix | services/agent-gateway/src/main.rs:1525-1564 | the lines of a connection, in order, and what is left unread make up the stream |
| LineReader.StopsOnlyAtRefusal | services/signer-daemon/src/main.rs:1380-1415 | a connection is read to the end of file or to the first line refused |
| LineReader.LinesAreLines | services/agent-gateway/src/main.rs:1525-1564 | every line has at most `max` bytes and ends in its only newline, but for one cut off by the end of file |
| Gateway.TokenState.Store | services/agent-gateway/src/main.rs:465-477 | the tokens are replaced with a lifetime clamped to 30..86400 seconds |
| Gateway.PolicyL2.CheckSend | services/agent-gateway/src/main.rs:117-126 | a send is approved iff the counter is below the limit, and then counted; the counter never overflows |
| Gateway.PolicyL2.Reset | services/agent-gateway/src/main.rs:128-130 | the counter returns to zero |
| Gateway.GatewayState.EnsureToken | services/agent-gateway/src/main.rs:394-422 | current token, else refresh, else a minted one, which alone resets the counter |
| Gateway.EnsureExactly | services/agent-gateway/src/main.rs:394-534 | a usable token is kept; else a granted refresh keeps epoch and counter; else a granted assertion alone moves the epoch and resets; with the exact clamped expiry |
| Gateway.GatewayState.HandleSendMessage | services/agent-gateway/src/main.rs:790-802 | the limit is checked first; a refusal changes nothing, an approval may mint and reset |
| Gateway.SendExactly | services/agent-gateway/src/main.rs:790-802 | a send at the limit does nothing; below it, it is approved and posted iff a token is had and nothing else fails |
| Gateway.OthersExactly | services/agent-gateway/src/main.rs:1427-1431 | other requests and the executor's replies ask for a token and no approval; a reply is posted iff there is one |
| Gateway.ResetsExactly | services/agent-gateway/src/main.rs:394-486 | in every state an operation resets the counter iff the token is unusable, no refresh is granted and an assertion is, and exactly then the epoch moves by one |
| Gateway.RefreshKeepsLimit | services/agent-gateway/src/main.rs:405-418 | as long as the API grants refreshes, all the sends of a run together stay within the limit of one minted token |
| Gateway.RunIsAccounted | services/agent-gateway/src/main.rs:394-534 | after every run the counter is the number of approvals since the last reset and every posted send is accounted to a minted token |
| Gateway.EveryCut | services/agent-gateway/src/main.rs:117-130 | at every cut of every run, also inside a request, the approvals since the last reset are within the limit |
| Gateway.SendLimits | services/agent-gateway/src/main.rs:104-131 | at most `max` approvals in every stretch of a run without a reset, an approval that causes the reset included, and at most `max + 1` sends posted under one minted token and its refreshes (none if `max` is 0) |
| Gateway.LimitIsReached | services/agent-gateway/src/main.rs:790-802 | `max + 1` sends in a row do go out under the first token |
| Gateway.SendsAloneStayRefused | services/agent-gateway/src/main.rs:790-797 | at the limit, any number of further sends change nothing, expired token or not |
| Gateway.AutoRepliesAreUnmetered | services/agent-gateway/src/main.rs:1427-1431 | any number of executor replies go out under one token, whatever the limit |
| Uuid.GenerateUuidv7 | packages/core/src/a2a.ts:47-67 | the byte array filled, masked and printed is the layout of section 5.7 of RFC 9562 |
| Uuid.GeneratedShape | packages/core/src/a2a.ts:60-66 | every generated text passes the gateway's identifier check and carries version 7 and the variant bits |
| Uuid.IsUuidExactly | services/agent-gateway/src/main.rs:734-743 | the identifier check takes exactly the texts of 32 hex digits dashed as a UUID |
| Uuid.OrderPreserved | packages/core/src/a2a.ts:47-67 | for timestamps below 2^48 the earlier one's text is lexicographically smaller, whatever the random octets |
| Uuid.Determined | packages/core/src/a2a.ts:47-67 | equal texts come from equal timestamps and from random octets equal up to the six masked bits |

## Left out

- Cryptographic primitives and randomness: parameters with the laws named above. A low-order X25519 point, which some libraries refuse, is an ordinary agreement here.
- Text as UTF-16: strings are sequences of characters, so lone surrogates and lengths in UTF-16 units (the 200 and 4000 character limits) are not distinguished from characters.
- JSON text: documents are trees; parsing and printing of JSON are not modelled.
- JavaScript number syntax beyond optional '+' and decimal digits below 2^53: the parameter `Text.NumberSyntax`, which also says which reals are finite doubles.
- Floating point: trust scores and thresholds are reals, so NaN and rounding are not modelled.
- Base64Url.FromBase64: `atob` also skips white space and accepts unpadded text; the texts passed to it here are padded. Node's decoder is modelled up to the first '='.
- Bridge.BridgeAppState.HandlePair: the white space trimmed is the ASCII kind, and the device label is taken as given, without its trimming, default and truncation to 120 bytes, which aborts the request when byte 120 is inside a character.
- Bridge.BridgeAppState.RegisterToken: creation and last-use timestamps are not kept.
- Bridge.BridgeAppState.ResolveToken: does not record the last-use timestamp of a paired token.
- Bridge.BridgeAppState.EmitAudit: events carry their kind and outcome only, not the origin, key hash and message text.
- BridgeRuns.ReleaseSafety: speaks of the inventory as the guard saw it, as the code does; a token revoked between guard and handler does not stop that request.
- HTTP: preflight requests, CORS and cache headers, and bodies that fail extraction before a handler runs.
- Envelope.GatewayDecryptInverts: a nonce of another length than twelve octets aborts the gateway's reader; that is the failure `Panicked` here and cannot arise from either writer.
- A2a: date texts are checked and compared by parameters; the reader's A2A content-type test is an answer to the executor.
- Executor.RepliesPerMessage: that a marked message is no longer listed is the server's part and an assumption here.
- The executor's request to the daemon for a signature, and `resolve_recipient`: answers, without the format of the call.
- Gateway.SendLimits: is about requests handled one after another. Requests that overlap between the limit check and the token exchange are not modelled.
- The daemon's hourly assertion limiter and `handle_sign_assertion`, which add a smaller copy of the bridge's limiter.
- The key store, MCP tool dispatch, message and mode derivation, the promotional video and the API server's internals.
