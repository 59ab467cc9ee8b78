/**
 * Content-key wrapping and message envelopes, across the SDK, the MCP server,
 * the gateway and the daemon. Cryptography is a parameter with its laws.
 */
module Envelope {
  import opened Common
  import opened Text
  import opened Base64Url
  import opened Payload

  const BOM: char := '\U{FEFF}'
  const X25519_KEY_LEN := 32
  const WRAP_SALT_LEN := 16
  const WRAP_IV_LEN := 12
  const TEXT_SALT_LEN := 16
  const TEXT_IV_LEN := 12

  /** The primitives the code calls. `repair` is what a tolerant decoder makes of malformed UTF-8. */
  datatype Suite = Suite(
    publicKey: Bytes -> Bytes,
    agree: (Bytes, Bytes) -> Bytes,
    wrapKey: (Bytes, Bytes) -> Bytes,
    passKey: (string, Bytes, real) -> Bytes,
    seal: (Bytes, Bytes, Bytes) -> Bytes,
    open: (Bytes, Bytes, Bytes) -> Option<Bytes>,
    utf8: string -> Bytes,
    fromUtf8: Bytes -> Option<string>,
    repair: Bytes -> string)
  {
    /**
     * Diffie-Hellman commutes, AEAD opening inverts sealing (a tag is never
     * empty), UTF-8 decoding inverts encoding.
     */
    ghost predicate Lawful() {
      && (forall s :: |publicKey(s)| == X25519_KEY_LEN)
      && (forall a, b {:trigger agree(a, publicKey(b))} :: agree(a, publicKey(b)) == agree(b, publicKey(a)))
      && (forall k, iv, p :: open(k, iv, seal(k, iv, p)) == Some(p) && seal(k, iv, p) != [])
      && (forall t :: fromUtf8(utf8(t)) == Some(t))
    }
  }

  datatype Failure =
    | Unsupported | BadFormat | BadBase64 | BadEphemeralLength | BadSaltLength | BadIvLength
    | CryptoFailed | NotUtf8 | BadRecipientKey | BadVersion | BadAlgorithm | Panicked

  function StripBom(t: string): string {
    if t != "" && t[0] == BOM then t[1..] else t
  }

  /** The default text decoder: malformed octets are repaired and a leading byte-order mark is dropped. */
  function TextDecode(suite: Suite, b: Bytes): string {
    match suite.fromUtf8(b)
    case Some(t) => StripBom(t)
    case None => suite.repair(b)
  }

  // ------------------------------------------------------------------
  // x25519v1 wrapping
  // ------------------------------------------------------------------

  datatype WrapRandom = WrapRandom(ephemeralSecret: Bytes, salt: Bytes, iv: Bytes)

  predicate WrapSizes(rnd: WrapRandom) {
    |rnd.salt| == WRAP_SALT_LEN && |rnd.iv| == WRAP_IV_LEN
  }

  /** The SDK's `wrapContentKeyForRecipient`. */
  function SdkWrap(suite: Suite, contentKey: string, recipientKey: string, rnd: WrapRandom): Result<string, Failure> {
    var recipientPub := BufferDecode(Repad(recipientKey));
    if |recipientPub| != X25519_KEY_LEN then Err(BadRecipientKey) else
      var key := suite.wrapKey(suite.agree(rnd.ephemeralSecret, recipientPub), rnd.salt);
      var ciphertext := suite.seal(key, rnd.iv, suite.utf8(contentKey));
      Ok(Join(["x25519v1", ToBase64Url(suite.publicKey(rnd.ephemeralSecret)),
               ToBase64Url(rnd.salt), ToBase64Url(rnd.iv), ToBase64Url(ciphertext)], ':'))
  }

  /** The daemon's `wrap_content_key`. */
  function DaemonWrap(suite: Suite, recipientKey: string, contentKey: string, rnd: WrapRandom)
    : Result<string, Failure>
  {
    match DecodeNoPad(recipientKey)
    case None => Err(BadBase64)
    case Some(recipientPub) =>
      if |recipientPub| != X25519_KEY_LEN then Err(BadRecipientKey) else
        var key := suite.wrapKey(suite.agree(rnd.ephemeralSecret, recipientPub), rnd.salt);
        var ciphertext := suite.seal(key, rnd.iv, suite.utf8(contentKey));
        Ok(Join(["x25519v1", EncodeNoPad(suite.publicKey(rnd.ephemeralSecret)),
                 EncodeNoPad(rnd.salt), EncodeNoPad(rnd.iv), EncodeNoPad(ciphertext)], ':'))
  }

  /** The MCP server's `unwrapContentKey`: the first four fields, none of them empty. */
  function McpUnwrap(suite: Suite, wrapped: string, secret: Bytes): Result<string, Failure> {
    if !("x25519v1:" <= wrapped) then Err(Unsupported) else
      var parts := Split(wrapped[9..], ':');
      if |parts| < 4 || parts[0] == "" || parts[1] == "" || parts[2] == "" || parts[3] == "" then Err(BadFormat)
      else
        var ephemeralPub := BufferDecode(parts[0]);
        if |ephemeralPub| != X25519_KEY_LEN then Err(BadEphemeralLength) else
          var key := suite.wrapKey(suite.agree(secret, ephemeralPub), BufferDecode(parts[1]));
          match suite.open(key, BufferDecode(parts[2]), BufferDecode(parts[3]))
          case None => Err(CryptoFailed)
          case Some(plain) => Ok(TextDecode(suite, plain))
  }

  /** The daemon's `unwrap_content_key`: exactly four fields, strict base64url, checked lengths. */
  function DaemonUnwrap(suite: Suite, secret: Bytes, wrapped: string): Result<string, Failure> {
    if !("x25519v1:" <= wrapped) then Err(Unsupported) else
      var parts := Split(wrapped[9..], ':');
      if |parts| != 4 then Err(BadFormat) else
        match (DecodeNoPad(parts[0]), DecodeNoPad(parts[1]), DecodeNoPad(parts[2]), DecodeNoPad(parts[3]))
        case (Some(ephemeralPub), Some(salt), Some(iv), Some(ciphertext)) =>
          if |ephemeralPub| != X25519_KEY_LEN then Err(BadEphemeralLength)
          else if |salt| != WRAP_SALT_LEN then Err(BadSaltLength)
          else if |iv| != WRAP_IV_LEN then Err(BadIvLength)
          else
            var key := suite.wrapKey(suite.agree(secret, ephemeralPub), salt);
            match suite.open(key, iv, ciphertext) {
              case None => Err(CryptoFailed)
              case Some(plain) =>
                match suite.fromUtf8(plain)
                case None => Err(NotUtf8)
                case Some(contentKey) => Ok(contentKey)
            }
        case _ => Err(BadBase64)
  }

  // ------------------------------------------------------------------
  // Text encryption
  // ------------------------------------------------------------------

  datatype TextRandom = TextRandom(salt: Bytes, iv: Bytes)

  predicate TextSizes(rnd: TextRandom) {
    |rnd.salt| == TEXT_SALT_LEN && |rnd.iv| == TEXT_IV_LEN
  }

  function EncryptText(suite: Suite, plain: string, passphrase: string, rnd: TextRandom): EncryptedPayload {
    var iter := PBKDF2_ITERATIONS as real;
    var ciphertext := suite.seal(suite.passKey(passphrase, rnd.salt, iter), rnd.iv, suite.utf8(plain));
    EncryptedPayload(1.0, KDF, ALG, iter, ToBase64Url(rnd.salt), ToBase64Url(rnd.iv), ToBase64Url(ciphertext))
  }

  function DecryptText(suite: Suite, p: EncryptedPayload, passphrase: string): Result<string, Failure> {
    if p.v != 1.0 then Err(BadVersion)
    else if p.alg != ALG || p.kdf != KDF then Err(BadAlgorithm)
    else match (FromBase64Url(p.salt), FromBase64Url(p.iv), FromBase64Url(p.ct))
      case (Some(salt), Some(iv), Some(ciphertext)) =>
        (match suite.open(suite.passKey(passphrase, salt, p.iter), iv, ciphertext)
         case None => Err(CryptoFailed)
         case Some(plain) => Ok(TextDecode(suite, plain)))
      case _ => Err(BadBase64)
  }

  /** The MCP server's `decryptSafely`: foreign text passes through, failures become a notice. */
  function DecryptSafely(suite: Suite, num: NumberSyntax, serialized: string, contentKey: string): string {
    match Parse(serialized, num)
    case None => serialized
    case Some(p) =>
      match DecryptText(suite, p, contentKey)
      case Err(_) => "(decryption failed)"
      case Ok(text) => text
  }

  /** The gateway's `encrypt_envelope_text`. */
  function GatewayEncrypt(suite: Suite, plain: string, contentKey: string, rnd: TextRandom): string {
    var key := suite.passKey(contentKey, rnd.salt, PBKDF2_ITERATIONS as real);
    GatewayWrite(EncodeNoPad(rnd.salt), EncodeNoPad(rnd.iv), EncodeNoPad(suite.seal(key, rnd.iv, suite.utf8(plain))))
  }

  /** The nonce is taken from a slice that must have twelve octets; any other length aborts the call. */
  function GatewayOpen(suite: Suite, f: Fields, contentKey: string): Result<string, Failure> {
    match (DecodeNoPad(f.salt), DecodeNoPad(f.iv), DecodeNoPad(f.ct))
    case (Some(salt), Some(iv), Some(ciphertext)) =>
      if |iv| != TEXT_IV_LEN then Err(Panicked) else
      (match suite.open(suite.passKey(contentKey, salt, f.iterations as real), iv, ciphertext)
       case None => Err(CryptoFailed)
       case Some(plain) =>
         match suite.fromUtf8(plain)
         case None => Err(NotUtf8)
         case Some(text) => Ok(text))
    case _ => Err(BadBase64)
  }

  /** The gateway's `decrypt_envelope_text`. */
  function GatewayDecrypt(suite: Suite, serialized: string, contentKey: string): Result<string, Failure> {
    match GatewayRead(serialized)
    case None => Err(BadFormat)
    case Some(f) => GatewayOpen(suite, f, contentKey)
  }

  // ------------------------------------------------------------------
  // Envelopes
  // ------------------------------------------------------------------

  datatype EnvelopeRandom = EnvelopeRandom(contentKey: Bytes, subject: TextRandom, body: TextRandom, wrap: WrapRandom)

  datatype SendEnvelope = SendEnvelope(
    encryptedContent: string, encryptedKey: string, nonce: string, subjectEncrypted: string, signedText: string)

  /** The text both the SDK and the daemon sign. */
  function SigningText(senderDid: string, recipientDid: string, subjectEncrypted: string,
                       encryptedContent: string, encryptedKey: string, nonce: string): string {
    Join([senderDid, recipientDid, subjectEncrypted, encryptedContent, encryptedKey, nonce], '\n')
  }

  /** The SDK's `buildEncryptedTextEnvelope`, up to the signature over `signedText`. */
  function BuildEnvelope(suite: Suite, num: NumberSyntax, senderDid: string, recipientDid: string,
                         recipientKey: string, subject: string, body: string, rnd: EnvelopeRandom)
    : Result<SendEnvelope, Failure>
  {
    var contentKey := ToBase64Url(rnd.contentKey);
    var encryptedBody := EncryptText(suite, body, contentKey, rnd.body);
    var subjectEncrypted := Serialize(EncryptText(suite, subject, contentKey, rnd.subject), num);
    var encryptedContent := Serialize(encryptedBody, num);
    match SdkWrap(suite, contentKey, recipientKey, rnd.wrap)
    case Err(e) => Err(e)
    case Ok(encryptedKey) =>
      Ok(SendEnvelope(encryptedContent, encryptedKey, encryptedBody.iv, subjectEncrypted,
                      SigningText(senderDid, recipientDid, subjectEncrypted, encryptedContent, encryptedKey,
                                  encryptedBody.iv)))
  }

  datatype Opened = Opened(subject: string, body: string)

  function OpenWithContentKey(suite: Suite, num: NumberSyntax, e: SendEnvelope, contentKey: string): Opened {
    Opened(if e.subjectEncrypted == "" then "" else DecryptSafely(suite, num, e.subjectEncrypted, contentKey),
           DecryptSafely(suite, num, e.encryptedContent, contentKey))
  }

  /** The MCP server's `decryptEnvelopeTextForRecipient`. */
  function OpenForRecipient(suite: Suite, num: NumberSyntax, e: SendEnvelope, secret: Bytes): Result<Opened, Failure> {
    match McpUnwrap(suite, e.encryptedKey, secret)
    case Err(f) => Err(f)
    case Ok(contentKey) => Ok(OpenWithContentKey(suite, num, e, contentKey))
  }

  // ------------------------------------------------------------------
  // Wrapping round trips
  // ------------------------------------------------------------------

  lemma UrlTextHasNoSeparator(b: Bytes)
    ensures ':' !in ToBase64Url(b) && '\n' !in ToBase64Url(b) && BOM !in ToBase64Url(b)
    ensures b != [] ==> ToBase64Url(b) != ""
  {
    ToBase64UrlIsNoPad(b);
  }

  lemma UrlTextHasNoColon(b: Bytes)
    ensures ':' !in ToBase64Url(b)
  {
    UrlTextHasNoSeparator(b);
  }

  /** On any key text the daemon accepts, both wrappers print the same wrapped key. */
  lemma WrappersAgree(suite: Suite, recipientKey: string, contentKey: string, rnd: WrapRandom)
    requires DecodeNoPad(recipientKey).Some?
    ensures DaemonWrap(suite, recipientKey, contentKey, rnd) == SdkWrap(suite, contentKey, recipientKey, rnd)
  {
    var pub := DecodeNoPad(recipientKey).value;
    DecodeNoPadExact(recipientKey, pub);
    RepaddedKey(pub);
    var key := suite.wrapKey(suite.agree(rnd.ephemeralSecret, pub), rnd.salt);
    ToBase64UrlIsNoPad(pub);
    ToBase64UrlIsNoPad(suite.publicKey(rnd.ephemeralSecret));
    ToBase64UrlIsNoPad(rnd.salt);
    ToBase64UrlIsNoPad(rnd.iv);
    ToBase64UrlIsNoPad(suite.seal(key, rnd.iv, suite.utf8(contentKey)));
  }

  /** The SDK re-pads and decodes with Node's decoder; on written keys that is the inverse. */
  lemma RepaddedKey(pub: Bytes)
    ensures BufferDecode(Repad(ToBase64Url(pub))) == pub
  {
    RepadRestores(pub);
    BufferDigitsOfPadded(Sextets(pub), PadCount(|pub|));
    OctetsOfSextets(pub);
  }

  lemma {:induction false} BufferDigitsOfPadded(s: seq<sextet>, n: nat)
    ensures BufferDigits(Write(s, '+', '/') + Repeat(n, '=')) == s
  {
    var t := Write(s, '+', '/') + Repeat(n, '=');
    if s != [] {
      BufferDigitsOfPadded(s[1..], n);
      DigitGlyph(s[0], '+', '/');
      assert t[1..] == Write(s[1..], '+', '/') + Repeat(n, '=');
      assert s == [s[0]] + s[1..];
    }
  }

  /** What both sides of a wrap agree on: the fields of the wrapped text. */
  lemma WrappedFields(suite: Suite, contentKey: string, secret: Bytes, rnd: WrapRandom)
    requires suite.Lawful() && WrapSizes(rnd)
    ensures var wrapped := SdkWrap(suite, contentKey, ToBase64Url(suite.publicKey(secret)), rnd);
            var key := suite.wrapKey(suite.agree(secret, suite.publicKey(rnd.ephemeralSecret)), rnd.salt);
            && wrapped.Ok?
            && "x25519v1:" <= wrapped.value
            && Split(wrapped.value[9..], ':') ==
               [ToBase64Url(suite.publicKey(rnd.ephemeralSecret)), ToBase64Url(rnd.salt), ToBase64Url(rnd.iv),
                ToBase64Url(suite.seal(key, rnd.iv, suite.utf8(contentKey)))]
  {
    RepaddedKey(suite.publicKey(secret));
    var key := suite.wrapKey(suite.agree(secret, suite.publicKey(rnd.ephemeralSecret)), rnd.salt);
    assert key == suite.wrapKey(suite.agree(rnd.ephemeralSecret, suite.publicKey(secret)), rnd.salt);
    var ciphertext := suite.seal(key, rnd.iv, suite.utf8(contentKey));
    UrlTextHasNoSeparator(suite.publicKey(rnd.ephemeralSecret));
    UrlTextHasNoSeparator(rnd.salt);
    UrlTextHasNoSeparator(rnd.iv);
    UrlTextHasNoSeparator(ciphertext);
    SplitWrapped(ToBase64Url(suite.publicKey(rnd.ephemeralSecret)), ToBase64Url(rnd.salt), ToBase64Url(rnd.iv),
                 ToBase64Url(ciphertext));
  }

  lemma SplitWrapped(ephemeral: string, salt: string, iv: string, ciphertext: string)
    requires ':' !in ephemeral && ':' !in salt && ':' !in iv && ':' !in ciphertext
    ensures var wrapped := Join(["x25519v1", ephemeral, salt, iv, ciphertext], ':');
            "x25519v1:" <= wrapped && Split(wrapped[9..], ':') == [ephemeral, salt, iv, ciphertext]
  {
    var fields := [ephemeral, salt, iv, ciphertext];
    assert FreeOf(fields, ':');
    SplitJoin(fields, ':');
    var all := ["x25519v1", ephemeral, salt, iv, ciphertext];
    assert all[1..] == fields;
    assert Join(all, ':') == "x25519v1" + [':'] + Join(fields, ':');
  }

  /** Daemon unwrapping inverts SDK wrapping for every content key. */
  lemma DaemonUnwrapsSdk(suite: Suite, contentKey: string, secret: Bytes, rnd: WrapRandom)
    requires suite.Lawful() && WrapSizes(rnd)
    ensures var wrapped := SdkWrap(suite, contentKey, ToBase64Url(suite.publicKey(secret)), rnd);
            wrapped.Ok? && DaemonUnwrap(suite, secret, wrapped.value) == Ok(contentKey)
  {
    WrappedFields(suite, contentKey, secret, rnd);
    var key := suite.wrapKey(suite.agree(secret, suite.publicKey(rnd.ephemeralSecret)), rnd.salt);
    RoundTrip(suite.publicKey(rnd.ephemeralSecret));
    RoundTrip(rnd.salt);
    RoundTrip(rnd.iv);
    RoundTrip(suite.seal(key, rnd.iv, suite.utf8(contentKey)));
  }

  /** Daemon unwrapping inverts daemon wrapping for every content key. */
  lemma DaemonUnwrapsDaemon(suite: Suite, contentKey: string, secret: Bytes, rnd: WrapRandom)
    requires suite.Lawful() && WrapSizes(rnd)
    ensures var wrapped := DaemonWrap(suite, EncodeNoPad(suite.publicKey(secret)), contentKey, rnd);
            wrapped.Ok? && DaemonUnwrap(suite, secret, wrapped.value) == Ok(contentKey)
  {
    var pub := suite.publicKey(secret);
    RoundTrip(pub);
    ToBase64UrlIsNoPad(pub);
    WrappersAgree(suite, EncodeNoPad(pub), contentKey, rnd);
    DaemonUnwrapsSdk(suite, contentKey, secret, rnd);
  }

  /** The wrapped text of these parts, of the right sizes. */
  ghost predicate WrittenAs(wrapped: string, pub: Bytes, salt: Bytes, iv: Bytes, ciphertext: Bytes) {
    && wrapped == "x25519v1:" + (EncodeNoPad(pub) + ":" + EncodeNoPad(salt) + ":" + EncodeNoPad(iv) + ":"
                                 + EncodeNoPad(ciphertext))
    && |pub| == 32 && |salt| == 16 && |iv| == 12
  }

  predicate Malformed(f: Failure) {
    f.Unsupported? || f.BadFormat? || f.BadBase64? || f.BadEphemeralLength? || f.BadSaltLength? || f.BadIvLength?
  }

  lemma SplitWritten(wrapped: string, pub: Bytes, salt: Bytes, iv: Bytes, ciphertext: Bytes)
    requires WrittenAs(wrapped, pub, salt, iv, ciphertext)
    ensures "x25519v1:" <= wrapped
    ensures Split(wrapped[9..], ':') == [EncodeNoPad(pub), EncodeNoPad(salt), EncodeNoPad(iv), EncodeNoPad(ciphertext)]
  {
    var f0, f1, f2, f3 := EncodeNoPad(pub), EncodeNoPad(salt), EncodeNoPad(iv), EncodeNoPad(ciphertext);
    ToBase64UrlIsNoPad(pub);
    ToBase64UrlIsNoPad(salt);
    ToBase64UrlIsNoPad(iv);
    ToBase64UrlIsNoPad(ciphertext);
    SplitOfFour(wrapped, f0, f1, f2, f3);
  }

  lemma SplitOfFour(wrapped: string, f0: string, f1: string, f2: string, f3: string)
    requires wrapped == "x25519v1:" + (f0 + ":" + f1 + ":" + f2 + ":" + f3)
    requires ':' !in f0 && ':' !in f1 && ':' !in f2 && ':' !in f3
    ensures "x25519v1:" <= wrapped && Split(wrapped[9..], ':') == [f0, f1, f2, f3]
  {
    JoinFour(f0, f1, f2, f3);
    FourAreFree(f0, f1, f2, f3);
    SplitJoin([f0, f1, f2, f3], ':');
    assert wrapped[9..] == f0 + ":" + f1 + ":" + f2 + ":" + f3;
  }

  /** On a text of sound parts the daemon's answer is what opening them gives. */
  lemma UnwrapsParts(suite: Suite, secret: Bytes, wrapped: string, pub: Bytes, salt: Bytes, iv: Bytes,
                     ciphertext: Bytes)
    requires WrittenAs(wrapped, pub, salt, iv, ciphertext)
    ensures var plain := suite.open(suite.wrapKey(suite.agree(secret, pub), salt), iv, ciphertext);
            DaemonUnwrap(suite, secret, wrapped) ==
            if plain.None? then Err(CryptoFailed)
            else if suite.fromUtf8(plain.value).None? then Err(NotUtf8)
            else Ok(suite.fromUtf8(plain.value).value)
  {
    SplitWritten(wrapped, pub, salt, iv, ciphertext);
    RoundTrip(pub);
    RoundTrip(salt);
    RoundTrip(iv);
    RoundTrip(ciphertext);
  }

  lemma FourAreFree(f0: string, f1: string, f2: string, f3: string)
    requires ':' !in f0 && ':' !in f1 && ':' !in f2 && ':' !in f3
    ensures FreeOf([f0, f1, f2, f3], ':')
  {
  }

  lemma SoundFields(suite: Suite, secret: Bytes, wrapped: string)
    requires var r := DaemonUnwrap(suite, secret, wrapped); r.Err? ==> !Malformed(r.error)
    ensures "x25519v1:" <= wrapped
    ensures var parts := Split(wrapped[9..], ':');
            && |parts| == 4
            && DecodeNoPad(parts[0]).Some? && DecodeNoPad(parts[1]).Some?
            && DecodeNoPad(parts[2]).Some? && DecodeNoPad(parts[3]).Some?
            && |DecodeNoPad(parts[0]).value| == 32 && |DecodeNoPad(parts[1]).value| == 16
            && |DecodeNoPad(parts[2]).value| == 12
  {
  }

  lemma FourParts(parts: seq<string>)
    requires |parts| == 4
    ensures Join(parts, ':') == parts[0] + ":" + parts[1] + ":" + parts[2] + ":" + parts[3]
  {
    assert parts == [parts[0], parts[1], parts[2], parts[3]];
    JoinFour(parts[0], parts[1], parts[2], parts[3]);
  }

  lemma WrittenParts(wrapped: string, parts: seq<string>, pub: Bytes, salt: Bytes, iv: Bytes, ciphertext: Bytes)
    requires |parts| == 4 && wrapped == "x25519v1:" + Join(parts, ':')
    requires DecodeNoPad(parts[0]) == Some(pub) && DecodeNoPad(parts[1]) == Some(salt)
    requires DecodeNoPad(parts[2]) == Some(iv) && DecodeNoPad(parts[3]) == Some(ciphertext)
    requires |pub| == 32 && |salt| == 16 && |iv| == 12
    ensures WrittenAs(wrapped, pub, salt, iv, ciphertext)
  {
    FourParts(parts);
    DecodeNoPadExact(parts[0], pub);
    DecodeNoPadExact(parts[1], salt);
    DecodeNoPadExact(parts[2], iv);
    DecodeNoPadExact(parts[3], ciphertext);
  }

  lemma SoundParts(suite: Suite, secret: Bytes, wrapped: string)
    requires var r := DaemonUnwrap(suite, secret, wrapped); r.Err? ==> !Malformed(r.error)
    ensures exists pub, salt, iv, ciphertext :: WrittenAs(wrapped, pub, salt, iv, ciphertext)
  {
    SoundFields(suite, secret, wrapped);
    var parts := Split(wrapped[9..], ':');
    JoinSplit(wrapped[9..], ':');
    WrittenParts(wrapped, parts, DecodeNoPad(parts[0]).value, DecodeNoPad(parts[1]).value,
                 DecodeNoPad(parts[2]).value, DecodeNoPad(parts[3]).value);
  }

  /** The daemon finds a wrapped text malformed exactly when it is not that of sound parts. */
  lemma MalformedExactly(suite: Suite, secret: Bytes, wrapped: string)
    ensures var r := DaemonUnwrap(suite, secret, wrapped);
            (r.Err? && Malformed(r.error)) <==>
            forall pub, salt, iv, ciphertext :: !WrittenAs(wrapped, pub, salt, iv, ciphertext)
  {
    var r := DaemonUnwrap(suite, secret, wrapped);
    if !(r.Err? && Malformed(r.error)) {
      SoundParts(suite, secret, wrapped);
    }
    if pub, salt, iv, ciphertext :| WrittenAs(wrapped, pub, salt, iv, ciphertext) {
      UnwrapsParts(suite, secret, wrapped, pub, salt, iv, ciphertext);
    }
  }

  /** Both wrappers refuse exactly the public keys that have not 32 octets. */
  lemma WrapAcceptsExactly(suite: Suite, pub: Bytes, contentKey: string, rnd: WrapRandom)
    ensures SdkWrap(suite, contentKey, ToBase64Url(pub), rnd).Ok? <==> |pub| == 32
    ensures DaemonWrap(suite, EncodeNoPad(pub), contentKey, rnd).Ok? <==> |pub| == 32
  {
    RepaddedKey(pub);
    RoundTrip(pub);
  }

  /** The MCP server recovers the key up to a leading byte-order mark. */
  lemma McpUnwrapsSdk(suite: Suite, contentKey: string, secret: Bytes, rnd: WrapRandom)
    requires suite.Lawful() && WrapSizes(rnd)
    ensures var wrapped := SdkWrap(suite, contentKey, ToBase64Url(suite.publicKey(secret)), rnd);
            wrapped.Ok? && McpUnwrap(suite, wrapped.value, secret) == Ok(StripBom(contentKey))
  {
    WrappedFields(suite, contentKey, secret, rnd);
    var key := suite.wrapKey(suite.agree(secret, suite.publicKey(rnd.ephemeralSecret)), rnd.salt);
    var ciphertext := suite.seal(key, rnd.iv, suite.utf8(contentKey));
    UrlTextHasNoSeparator(suite.publicKey(rnd.ephemeralSecret));
    UrlTextHasNoSeparator(rnd.salt);
    UrlTextHasNoSeparator(rnd.iv);
    UrlTextHasNoSeparator(ciphertext);
    BufferRoundTrip(suite.publicKey(rnd.ephemeralSecret));
    BufferRoundTrip(rnd.salt);
    BufferRoundTrip(rnd.iv);
    BufferRoundTrip(ciphertext);
  }

  // ------------------------------------------------------------------
  // Message round trips
  // ------------------------------------------------------------------

  lemma EncryptedIsColonFree(suite: Suite, plain: string, passphrase: string, rnd: TextRandom)
    ensures ColonFree(EncryptText(suite, plain, passphrase, rnd))
  {
    assert ':' !in KDF && ':' !in ALG;
    UrlTextHasNoColon(rnd.salt);
    UrlTextHasNoColon(rnd.iv);
    var key := suite.passKey(passphrase, rnd.salt, PBKDF2_ITERATIONS as real);
    UrlTextHasNoColon(suite.seal(key, rnd.iv, suite.utf8(plain)));
  }

  lemma DecryptOpens(suite: Suite, p: EncryptedPayload, contentKey: string, salt: Bytes, iv: Bytes, ciphertext: Bytes,
                     plain: Bytes)
    requires p.v == 1.0 && p.alg == ALG && p.kdf == KDF
    requires FromBase64Url(p.salt) == Some(salt) && FromBase64Url(p.iv) == Some(iv)
    requires FromBase64Url(p.ct) == Some(ciphertext)
    requires suite.open(suite.passKey(contentKey, salt, p.iter), iv, ciphertext) == Some(plain)
    ensures DecryptText(suite, p, contentKey) == Ok(TextDecode(suite, plain))
  {
  }

  lemma DecryptTextInverts(suite: Suite, plain: string, contentKey: string, rnd: TextRandom)
    requires suite.Lawful()
    ensures DecryptText(suite, EncryptText(suite, plain, contentKey, rnd), contentKey) == Ok(StripBom(plain))
  {
    var key := suite.passKey(contentKey, rnd.salt, PBKDF2_ITERATIONS as real);
    var ciphertext := suite.seal(key, rnd.iv, suite.utf8(plain));
    RoundTrip(rnd.salt);
    RoundTrip(rnd.iv);
    RoundTrip(ciphertext);
    DecryptOpens(suite, EncryptText(suite, plain, contentKey, rnd), contentKey, rnd.salt, rnd.iv, ciphertext,
                 suite.utf8(plain));
  }

  /** Which payloads are refused, and why: the version first, then the algorithms, the base64 and the cipher. */
  lemma DecryptTextRefuses(suite: Suite, p: EncryptedPayload, contentKey: string)
    ensures var r := DecryptText(suite, p, contentKey);
            var readable := FromBase64Url(p.salt).Some? && FromBase64Url(p.iv).Some? && FromBase64Url(p.ct).Some?;
            var known := p.alg == "AES-GCM-256" && p.kdf == "PBKDF2-SHA256";
            && (r == Err(BadVersion) <==> p.v != 1.0)
            && (r == Err(BadAlgorithm) <==> p.v == 1.0 && !known)
            && (r == Err(BadBase64) <==> p.v == 1.0 && known && !readable)
            && (r.Ok? <==>
                  && p.v == 1.0 && known && readable
                  && suite.open(suite.passKey(contentKey, FromBase64Url(p.salt).value, p.iter),
                                FromBase64Url(p.iv).value, FromBase64Url(p.ct).value).Some?)
  {
  }

  /**
   * Text that is not of the template passes through; text that is never does,
   * but is decrypted or replaced by the notice.
   */
  lemma DecryptSafelyExactly(suite: Suite, num: NumberSyntax, serialized: string, contentKey: string)
    ensures (forall p, version, iter :: !ParsesAs(serialized, num, p, version, iter)) ==>
              DecryptSafely(suite, num, serialized, contentKey) == serialized
    ensures forall p, version, iter :: ParsesAs(serialized, num, p, version, iter) ==>
              DecryptSafely(suite, num, serialized, contentKey) ==
              var r := DecryptText(suite, p, contentKey); if r.Ok? then r.value else "(decryption failed)"
  {
    if Parse(serialized, num).Some? {
      ParseGives(serialized, num);
    }
    forall p, version, iter | ParsesAs(serialized, num, p, version, iter)
      ensures Parse(serialized, num) == Some(p)
    {
      ParseTakes(serialized, num, p, version, iter);
    }
  }

  /** Decrypting what was written gives the text without its leading byte-order mark. */
  lemma DecryptSafelyInverts(suite: Suite, num: NumberSyntax, plain: string, contentKey: string, rnd: TextRandom)
    requires suite.Lawful()
    ensures var t := Serialize(EncryptText(suite, plain, contentKey, rnd), num);
            t != "" && DecryptSafely(suite, num, t, contentKey) == StripBom(plain)
  {
    EncryptedIsColonFree(suite, plain, contentKey, rnd);
    ParseSerialize(EncryptText(suite, plain, contentKey, rnd), num);
    DecryptTextInverts(suite, plain, contentKey, rnd);
  }

  /** Subject and body are read one by one with the same key; an absent subject stays empty. */
  lemma OpensFieldByField(suite: Suite, num: NumberSyntax, e: SendEnvelope, contentKey: string)
    ensures var opening := OpenWithContentKey(suite, num, e, contentKey);
            && opening.body == DecryptSafely(suite, num, e.encryptedContent, contentKey)
            && (e.subjectEncrypted == "" ==> opening.subject == "")
            && (e.subjectEncrypted != "" ==>
                  opening.subject == DecryptSafely(suite, num, e.subjectEncrypted, contentKey))
  {
  }

  /** Which wrapped texts the MCP server refuses before any cryptography, and why. */
  lemma McpRefuses(suite: Suite, wrapped: string, secret: Bytes)
    ensures var r := McpUnwrap(suite, wrapped, secret);
            var prefixed := "x25519v1:" <= wrapped;
            var parts := if prefixed then Split(wrapped[9..], ':') else [""];
            var full := |parts| >= 4 && parts[0] != "" && parts[1] != "" && parts[2] != "" && parts[3] != "";
            && (r == Err(Unsupported) <==> !prefixed)
            && (r == Err(BadFormat) <==> prefixed && !full)
            && (r == Err(BadEphemeralLength) <==> prefixed && full && |BufferDecode(parts[0])| != 32)
  {
  }

  /** Which fields the gateway does not open, and why; on a nonce of another length it does not return. */
  lemma GatewayOpenRefuses(suite: Suite, f: Fields, contentKey: string)
    ensures var r := GatewayOpen(suite, f, contentKey);
            var readable := DecodeNoPad(f.salt).Some? && DecodeNoPad(f.iv).Some? && DecodeNoPad(f.ct).Some?;
            && (r == Err(BadBase64) <==> !readable)
            && (r == Err(Panicked) <==> readable && |DecodeNoPad(f.iv).value| != 12)
            && r != Err(BadFormat)
  {
  }

  /** The gateway refuses the format exactly of what is not the template, and opens the rest by its fields. */
  lemma GatewayDecryptRefuses(suite: Suite, serialized: string, contentKey: string)
    ensures GatewayDecrypt(suite, serialized, contentKey) == Err(BadFormat) <==>
            forall f, iter :: !ReadsAs(serialized, f, iter)
  {
    if GatewayRead(serialized).Some? {
      ReadGives(serialized);
      GatewayOpenRefuses(suite, GatewayRead(serialized).value, contentKey);
    }
    if f, iter :| ReadsAs(serialized, f, iter) {
      ReadTakes(serialized, f, iter);
    }
  }

  /** The gateway's sealer prints what the SDK's would, so either reader serves both. */
  lemma GatewayEncryptIsSdk(suite: Suite, num: NumberSyntax, plain: string, contentKey: string, rnd: TextRandom)
    ensures GatewayEncrypt(suite, plain, contentKey, rnd) == Serialize(EncryptText(suite, plain, contentKey, rnd), num)
  {
    var key := suite.passKey(contentKey, rnd.salt, PBKDF2_ITERATIONS as real);
    var ciphertext := suite.seal(key, rnd.iv, suite.utf8(plain));
    ToBase64UrlIsNoPad(rnd.salt);
    ToBase64UrlIsNoPad(rnd.iv);
    ToBase64UrlIsNoPad(ciphertext);
    WritersAgree(EncodeNoPad(rnd.salt), EncodeNoPad(rnd.iv), EncodeNoPad(ciphertext), num);
  }

  lemma GatewayOpenInverts(suite: Suite, plain: string, contentKey: string, rnd: TextRandom)
    requires suite.Lawful() && TextSizes(rnd)
    ensures var p := EncryptText(suite, plain, contentKey, rnd);
            GatewayOpen(suite, Fields(PBKDF2_ITERATIONS, p.salt, p.iv, p.ct), contentKey) == Ok(plain)
  {
    RoundTrip(rnd.salt);
    RoundTrip(rnd.iv);
    RoundTrip(suite.seal(suite.passKey(contentKey, rnd.salt, PBKDF2_ITERATIONS as real), rnd.iv, suite.utf8(plain)));
  }

  /** The gateway decrypts SDK text exactly, byte-order mark included. */
  lemma GatewayDecryptInverts(suite: Suite, num: NumberSyntax, plain: string, contentKey: string, rnd: TextRandom)
    requires suite.Lawful() && TextSizes(rnd)
    ensures GatewayDecrypt(suite, Serialize(EncryptText(suite, plain, contentKey, rnd), num), contentKey) == Ok(plain)
  {
    EncryptedIsColonFree(suite, plain, contentKey, rnd);
    GatewayReadsSerialized(EncryptText(suite, plain, contentKey, rnd), num, PBKDF2_ITERATIONS);
    GatewayOpenInverts(suite, plain, contentKey, rnd);
  }

  // ------------------------------------------------------------------
  // What is signed
  // ------------------------------------------------------------------

  lemma NoNewline(suite: Suite, num: NumberSyntax, plain: string, passphrase: string, rnd: TextRandom)
    ensures '\n' !in Serialize(EncryptText(suite, plain, passphrase, rnd), num)
  {
    var key := suite.passKey(passphrase, rnd.salt, PBKDF2_ITERATIONS as real);
    UrlTextHasNoSeparator(rnd.salt);
    UrlTextHasNoSeparator(rnd.iv);
    UrlTextHasNoSeparator(suite.seal(key, rnd.iv, suite.utf8(plain)));
    NumbersAvoidNewline(1, num);
    NumbersAvoidNewline(PBKDF2_ITERATIONS, num);
    NamesAvoidNewline();
    SerializeAvoidsNewline(EncryptText(suite, plain, passphrase, rnd), num);
  }

  lemma FiveAreFree(f0: string, f1: string, f2: string, f3: string, f4: string)
    requires '\n' !in f0 && '\n' !in f1 && '\n' !in f2 && '\n' !in f3 && '\n' !in f4
    ensures FreeOf([f0, f1, f2, f3, f4], '\n')
  {
  }

  lemma WrappedHasNoNewline(suite: Suite, contentKey: string, recipientKey: string, rnd: WrapRandom)
    requires SdkWrap(suite, contentKey, recipientKey, rnd).Ok?
    ensures '\n' !in SdkWrap(suite, contentKey, recipientKey, rnd).value
  {
    var key := suite.wrapKey(suite.agree(rnd.ephemeralSecret, BufferDecode(Repad(recipientKey))), rnd.salt);
    var pub, ciphertext := suite.publicKey(rnd.ephemeralSecret), suite.seal(key, rnd.iv, suite.utf8(contentKey));
    UrlTextHasNoSeparator(pub);
    UrlTextHasNoSeparator(rnd.salt);
    UrlTextHasNoSeparator(rnd.iv);
    UrlTextHasNoSeparator(ciphertext);
    var f1, f2, f3, f4 := ToBase64Url(pub), ToBase64Url(rnd.salt), ToBase64Url(rnd.iv), ToBase64Url(ciphertext);
    FiveAreFree("x25519v1", f1, f2, f3, f4);
    JoinAvoids(["x25519v1", f1, f2, f3, f4], ':', '\n');
  }

  /**
   * What a built envelope signs: between newlines, the two parties in order and
   * the envelope's own four texts, the last of which is the nonce inside the content.
   */
  ghost predicate SignsItself(e: SendEnvelope, senderDid: string, recipientDid: string) {
    && ('\n' !in senderDid && '\n' !in recipientDid ==>
          Split(e.signedText, '\n') ==
          [senderDid, recipientDid, e.subjectEncrypted, e.encryptedContent, e.encryptedKey, e.nonce])
    && |Split(e.encryptedContent, ':')| == 8 && Split(e.encryptedContent, ':')[6] == e.nonce
  }

  lemma SixAreFree(f0: string, f1: string, f2: string, f3: string, f4: string, f5: string)
    requires '\n' !in f0 && '\n' !in f1 && '\n' !in f2 && '\n' !in f3 && '\n' !in f4 && '\n' !in f5
    ensures FreeOf([f0, f1, f2, f3, f4, f5], '\n')
  {
  }

  lemma SignedEnvelope(suite: Suite, num: NumberSyntax, senderDid: string, recipientDid: string,
                       recipientKey: string, subject: string, body: string, rnd: EnvelopeRandom)
    requires BuildEnvelope(suite, num, senderDid, recipientDid, recipientKey, subject, body, rnd).Ok?
    ensures var e := BuildEnvelope(suite, num, senderDid, recipientDid, recipientKey, subject, body, rnd).value;
            SignsItself(e, senderDid, recipientDid)
  {
    var e := BuildEnvelope(suite, num, senderDid, recipientDid, recipientKey, subject, body, rnd).value;
    var contentKey := ToBase64Url(rnd.contentKey);
    var encryptedBody := EncryptText(suite, body, contentKey, rnd.body);
    NoNewline(suite, num, subject, contentKey, rnd.subject);
    NoNewline(suite, num, body, contentKey, rnd.body);
    WrappedHasNoNewline(suite, contentKey, recipientKey, rnd.wrap);
    UrlTextHasNoSeparator(rnd.body.iv);
    EncryptedIsColonFree(suite, body, contentKey, rnd.body);
    SplitSerialized(encryptedBody, num);
    if '\n' !in senderDid && '\n' !in recipientDid {
      SixAreFree(senderDid, recipientDid, e.subjectEncrypted, e.encryptedContent, e.encryptedKey, e.nonce);
      SplitJoin([senderDid, recipientDid, e.subjectEncrypted, e.encryptedContent, e.encryptedKey, e.nonce], '\n');
    }
  }

  /**
   * End to end: the recipient's chain returns the sender's subject and body,
   * unchanged exactly when neither begins with a byte-order mark; and what was
   * signed is the envelope and its two parties.
   */
  lemma EndToEnd(suite: Suite, num: NumberSyntax, senderDid: string, recipientDid: string,
                 secret: Bytes, subject: string, body: string, rnd: EnvelopeRandom)
    requires suite.Lawful() && WrapSizes(rnd.wrap)
    ensures var built := BuildEnvelope(suite, num, senderDid, recipientDid, ToBase64Url(suite.publicKey(secret)),
                                        subject, body, rnd);
            && built.Ok?
            && OpenForRecipient(suite, num, built.value, secret) == Ok(Opened(StripBom(subject), StripBom(body)))
            && (OpenForRecipient(suite, num, built.value, secret) == Ok(Opened(subject, body))
                <==> !([BOM] <= subject) && !([BOM] <= body))
            && SignsItself(built.value, senderDid, recipientDid)
  {
    var contentKey := ToBase64Url(rnd.contentKey);
    UrlTextHasNoSeparator(rnd.contentKey);
    McpUnwrapsSdk(suite, contentKey, secret, rnd.wrap);
    DecryptSafelyInverts(suite, num, subject, contentKey, rnd.subject);
    DecryptSafelyInverts(suite, num, body, contentKey, rnd.body);
    BomIff(subject);
    BomIff(body);
    SignedEnvelope(suite, num, senderDid, recipientDid, ToBase64Url(suite.publicKey(secret)), subject, body, rnd);
  }

  lemma BomIff(t: string)
    ensures StripBom(t) == t <==> !([BOM] <= t)
  {
    if [BOM] <= t {
      assert |StripBom(t)| == |t| - 1;
    }
  }

  lemma IsolatedOpens(suite: Suite, num: NumberSyntax, senderDid: string, recipientDid: string,
                      secret: Bytes, subject: string, body: string, rnd: EnvelopeRandom)
    requires suite.Lawful() && WrapSizes(rnd.wrap) && TextSizes(rnd.subject) && TextSizes(rnd.body)
    ensures var built := BuildEnvelope(suite, num, senderDid, recipientDid, ToBase64Url(suite.publicKey(secret)),
                                        subject, body, rnd);
            && built.Ok?
            && var key := DaemonUnwrap(suite, secret, built.value.encryptedKey);
            && key.Ok?
            && GatewayDecrypt(suite, built.value.encryptedContent, key.value) == Ok(body)
            && GatewayDecrypt(suite, built.value.subjectEncrypted, key.value) == Ok(subject)
  {
    var contentKey := ToBase64Url(rnd.contentKey);
    DaemonUnwrapsSdk(suite, contentKey, secret, rnd.wrap);
    GatewayDecryptInverts(suite, num, subject, contentKey, rnd.subject);
    GatewayDecryptInverts(suite, num, body, contentKey, rnd.body);
  }

  /** Isolated mode: the daemon unwraps the key and the gateway reads subject and body exactly. */
  lemma EndToEndIsolated(suite: Suite, num: NumberSyntax, senderDid: string, recipientDid: string,
                         secret: Bytes, subject: string, body: string, rnd: EnvelopeRandom)
    requires suite.Lawful() && WrapSizes(rnd.wrap) && TextSizes(rnd.subject) && TextSizes(rnd.body)
    ensures var built := BuildEnvelope(suite, num, senderDid, recipientDid, ToBase64Url(suite.publicKey(secret)),
                                        subject, body, rnd);
            && built.Ok?
            && var key := DaemonUnwrap(suite, secret, built.value.encryptedKey);
            && key.Ok?
            && GatewayDecrypt(suite, built.value.encryptedContent, key.value) == Ok(body)
            && GatewayDecrypt(suite, built.value.subjectEncrypted, key.value) == Ok(subject)
            && SignsItself(built.value, senderDid, recipientDid)
  {
    IsolatedOpens(suite, num, senderDid, recipientDid, secret, subject, body, rnd);
    SignedEnvelope(suite, num, senderDid, recipientDid, ToBase64Url(suite.publicKey(secret)), subject, body, rnd);
  }

  /**
   * The executor's way back: text sealed by the gateway under a key the daemon
   * wrapped opens in the recipient's chain.
   */
  lemma GatewayReplyOpens(suite: Suite, num: NumberSyntax, signedText: string, secret: Bytes,
                          subject: string, body: string, rnd: EnvelopeRandom)
    requires suite.Lawful() && WrapSizes(rnd.wrap)
    ensures var contentKey := EncodeNoPad(rnd.contentKey);
            var wrapped := DaemonWrap(suite, EncodeNoPad(suite.publicKey(secret)), contentKey, rnd.wrap);
            && wrapped.Ok?
            && var e := SendEnvelope(GatewayEncrypt(suite, body, contentKey, rnd.body), wrapped.value,
                                     EncodeNoPad(rnd.body.iv),
                                     GatewayEncrypt(suite, subject, contentKey, rnd.subject), signedText);
            OpenForRecipient(suite, num, e, secret) == Ok(Opened(StripBom(subject), StripBom(body)))
  {
    var contentKey, pub := EncodeNoPad(rnd.contentKey), suite.publicKey(secret);
    RoundTrip(pub);
    ToBase64UrlIsNoPad(pub);
    ToBase64UrlIsNoPad(rnd.contentKey);
    UrlTextHasNoSeparator(rnd.contentKey);
    WrappersAgree(suite, EncodeNoPad(pub), contentKey, rnd.wrap);
    McpUnwrapsSdk(suite, contentKey, secret, rnd.wrap);
    GatewayEncryptIsSdk(suite, num, subject, contentKey, rnd.subject);
    GatewayEncryptIsSdk(suite, num, body, contentKey, rnd.body);
    DecryptSafelyInverts(suite, num, subject, contentKey, rnd.subject);
    DecryptSafelyInverts(suite, num, body, contentKey, rnd.body);
  }

  /** The signed text determines all six signed fields. */
  lemma SigningTextInjective(f: seq<string>, g: seq<string>)
    requires |f| == |g| == 6 && FreeOf(f, '\n') && FreeOf(g, '\n')
    requires SigningText(f[0], f[1], f[2], f[3], f[4], f[5]) == SigningText(g[0], g[1], g[2], g[3], g[4], g[5])
    ensures f == g
  {
    assert f == [f[0], f[1], f[2], f[3], f[4], f[5]];
    assert g == [g[0], g[1], g[2], g[3], g[4], g[5]];
    SplitJoin(f, '\n');
    SplitJoin(g, '\n');
  }

  // ------------------------------------------------------------------
  // A lawful suite
  // ------------------------------------------------------------------

  function OctetAt(b: Bytes, i: nat): byte {
    if i < |b| then b[i] else 0
  }

  function ToyPublic(secret: Bytes): Bytes {
    seq(X25519_KEY_LEN, i requires 0 <= i => OctetAt(secret, i))
  }

  /** Addition octet by octet commutes as Diffie-Hellman does. */
  function ToyAgree(secret: Bytes, public: Bytes): Bytes {
    seq(X25519_KEY_LEN, i requires 0 <= i => (OctetAt(secret, i) + OctetAt(public, i)) % 256)
  }

  /** The key and nonce stand in front of the text and are compared on opening. */
  function ToySeal(key: Bytes, iv: Bytes, plain: Bytes): Bytes {
    [0] + key + iv + plain
  }

  function ToyOpen(key: Bytes, iv: Bytes, sealed: Bytes): Option<Bytes> {
    var front: Bytes := [0] + key + iv;
    if front <= sealed then Some(sealed[|front|..]) else None
  }

  /** Three octets a character. */
  function Wide(t: string): Bytes {
    if t == "" then [] else
      var n := t[0] as int;
      [n / 0x1_0000, n / 0x100 % 0x100, n % 0x100] + Wide(t[1..])
  }

  function Narrow(b: Bytes): Option<string> {
    if b == [] then Some("") else if |b| < 3 then None else
      var high: int, mid: int, low: int := b[0], b[1], b[2];
      var n := high * 0x1_0000 + mid * 0x100 + low;
      match Narrow(b[3..])
      case None => None
      case Some(t) => if n < 0xD800 || 0xE000 <= n < 0x11_0000 then Some([n as char] + t) else None
  }

  function ToySuite(): Suite {
    Suite(ToyPublic, ToyAgree, (shared: Bytes, salt: Bytes) => shared + salt,
          (passphrase: string, salt: Bytes, iter: real) => Wide(passphrase) + salt,
          ToySeal, ToyOpen, Wide, Narrow, (b: Bytes) => "")
  }

  /** The laws of the primitives can be met together. */
  lemma LawfulSuiteExists()
    ensures ToySuite().Lawful()
  {
    var suite := ToySuite();
    forall a, b {:trigger suite.agree(a, suite.publicKey(b))}
      ensures suite.agree(a, suite.publicKey(b)) == suite.agree(b, suite.publicKey(a))
    {
      ToyAgreeCommutes(a, b);
    }
    forall k, iv, p
      ensures suite.open(k, iv, suite.seal(k, iv, p)) == Some(p) && suite.seal(k, iv, p) != []
    {
      ToyOpenSeal(k, iv, p);
    }
    forall t
      ensures suite.fromUtf8(suite.utf8(t)) == Some(t)
    {
      NarrowWide(t);
    }
  }

  lemma ToyAgreeCommutes(a: Bytes, b: Bytes)
    ensures ToyAgree(a, ToyPublic(b)) == ToyAgree(b, ToyPublic(a))
  {
  }

  lemma ToyOpenSeal(key: Bytes, iv: Bytes, plain: Bytes)
    ensures ToyOpen(key, iv, ToySeal(key, iv, plain)) == Some(plain)
  {
  }

  lemma {:induction false} NarrowWide(t: string)
    ensures Narrow(Wide(t)) == Some(t)
  {
    if t != "" {
      NarrowWide(t[1..]);
      assert Wide(t)[3..] == Wide(t[1..]);
      assert t == [t[0]] + t[1..];
    }
  }
}
