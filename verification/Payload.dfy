/**
 * The `enc:v1:<kdf>:<alg>:<iter>:<salt>:<iv>:<ct>` text: the writer and parser
 * of the crypto package, and the gateway's writer and stricter reader.
 */
module Payload {
  import opened Common
  import opened Text

  const KDF := "PBKDF2-SHA256"
  const ALG := "AES-GCM-256"
  const PBKDF2_ITERATIONS: nat := 120_000
  const MIN_ITER := 100_000.0
  const MAX_ITER := 1_000_000.0

  datatype EncryptedPayload = EncryptedPayload(
    v: real, kdf: string, alg: string, iter: real, salt: string, iv: string, ct: string)

  // ------------------------------------------------------------------
  // The crypto package
  // ------------------------------------------------------------------

  /** The eight fields of the template text. */
  function FieldsOf(p: EncryptedPayload, num: NumberSyntax): seq<string> {
    ["enc", "v" + num.Show(p.v), p.kdf, p.alg, num.Show(p.iter), p.salt, p.iv, p.ct]
  }

  function Serialize(p: EncryptedPayload, num: NumberSyntax): string {
    Join(FieldsOf(p, num), ':')
  }

  /** Without its first 'v', if it has one. */
  function DropFirstV(s: string): string {
    if s == "" then "" else if s[0] == 'v' then s[1..] else [s[0]] + DropFirstV(s[1..])
  }

  function Parse(text: string, num: NumberSyntax): Option<EncryptedPayload> {
    if !("enc:v" <= text) then None else
      var parts := Split(text, ':');
      if |parts| != 8 then None else
        match (num.Read(DropFirstV(parts[1])), num.Read(parts[4]))
        case (Some(version), Some(iter)) =>
          if iter < MIN_ITER || iter > MAX_ITER then None
          else Some(EncryptedPayload(version, parts[2], parts[3], iter, parts[5], parts[6], parts[7]))
        case _ => None
  }

  // ------------------------------------------------------------------
  // The gateway
  // ------------------------------------------------------------------

  datatype Fields = Fields(iterations: u32, salt: string, iv: string, ct: string)

  function GatewayWrite(salt: string, iv: string, ct: string): string {
    Join(["enc", "v" + Decimal(1), KDF, ALG, Decimal(PBKDF2_ITERATIONS), salt, iv, ct], ':')
  }

  /** `str::parse::<u32>`: an optional '+', digits, and no overflow. */
  function ParseU32(s: string): Option<u32> {
    var body := Unsigned(s);
    if IsDigits(body) && DecimalValue(body) < 0x1_0000_0000 then Some(DecimalValue(body)) else None
  }

  function GatewayRead(text: string): Option<Fields> {
    var parts := Split(text, ':');
    if |parts| != 8 || parts[0] != "enc" then None
    else if parts[1] != "v1" || parts[2] != KDF || parts[3] != ALG then None
    else match ParseU32(parts[4])
      case None => None
      case Some(iterations) => Some(Fields(iterations, parts[5], parts[6], parts[7]))
  }

  // ------------------------------------------------------------------
  // Round trips and agreement
  // ------------------------------------------------------------------

  predicate ColonFree(p: EncryptedPayload) {
    ':' !in p.kdf && ':' !in p.alg && ':' !in p.salt && ':' !in p.iv && ':' !in p.ct
  }

  lemma SplitSerialized(p: EncryptedPayload, num: NumberSyntax)
    requires ColonFree(p) && num.Prints(p.v) && num.Prints(p.iter)
    ensures Split(Serialize(p, num), ':') == FieldsOf(p, num)
  {
    FieldsAreFree(p, num);
    SplitJoin(FieldsOf(p, num), ':');
  }

  lemma FieldsAreFree(p: EncryptedPayload, num: NumberSyntax)
    requires ColonFree(p) && num.Prints(p.v) && num.Prints(p.iter)
    ensures FreeOf(FieldsOf(p, num), ':')
  {
    num.ReadShow(p.v);
    num.ReadShow(p.iter);
    EightAreFree("enc", "v" + num.Show(p.v), p.kdf, p.alg, num.Show(p.iter), p.salt, p.iv, p.ct);
  }

  lemma EightAreFree(f0: string, f1: string, f2: string, f3: string, f4: string, f5: string, f6: string, f7: string)
    requires ':' !in f0 && ':' !in f1 && ':' !in f2 && ':' !in f3
    requires ':' !in f4 && ':' !in f5 && ':' !in f6 && ':' !in f7
    ensures FreeOf([f0, f1, f2, f3, f4, f5, f6, f7], ':')
  {
  }

  lemma NumbersAvoidNewline(n: nat, num: NumberSyntax)
    requires n < EXACT
    ensures '\n' !in num.Show(n as real)
  {
    assert num.Show(n as real) == Decimal(n);
  }

  lemma NamesAvoidNewline()
    ensures '\n' !in KDF && '\n' !in ALG
  {
  }

  /** No newline comes into the text but from the fields. */
  lemma SerializeAvoidsNewline(p: EncryptedPayload, num: NumberSyntax)
    requires '\n' !in num.Show(p.v) && '\n' !in num.Show(p.iter)
    requires '\n' !in p.kdf && '\n' !in p.alg && '\n' !in p.salt && '\n' !in p.iv && '\n' !in p.ct
    ensures '\n' !in Serialize(p, num)
  {
    JoinAvoids(FieldsOf(p, num), ':', '\n');
  }

  lemma StartsWithHeader(parts: seq<string>)
    requires |parts| == 8 && parts[0] == "enc" && |parts[1]| > 0 && parts[1][0] == 'v'
    ensures "enc:v" <= Join(parts, ':')
  {
    var rest := Join(parts[1..], ':');
    assert rest[0] == 'v';
    assert Join(parts, ':') == "enc" + [':'] + rest;
  }

  /** The parser returns the printed payload, exactly when its iteration count is in the accepted band. */
  lemma ParseSerialize(p: EncryptedPayload, num: NumberSyntax)
    requires ColonFree(p) && num.Prints(p.v) && num.Prints(p.iter)
    ensures Parse(Serialize(p, num), num) == if MIN_ITER <= p.iter <= MAX_ITER then Some(p) else None
  {
    SplitSerialized(p, num);
    StartsWithHeader(Split(Serialize(p, num), ':'));
    num.ReadShow(p.v);
    num.ReadShow(p.iter);
    assert DropFirstV("v" + num.Show(p.v)) == num.Show(p.v);
  }

  lemma ParsePrinted(n: u32)
    ensures ParseU32(Decimal(n)) == Some(n)
  {
    DecimalRoundTrip(n);
    var s := Decimal(n);
    assert s[0] in s;
  }

  lemma VersionText(p: EncryptedPayload, num: NumberSyntax, iter: u32)
    requires p.v == 1.0 && p.iter == iter as real
    ensures "v" + num.Show(p.v) == "v1" && num.Show(p.iter) == Decimal(iter)
  {
    assert Decimal(1) == "1";
  }

  /** The gateway reads back what the crypto package writes under version 1. */
  lemma GatewayReadsSerialized(p: EncryptedPayload, num: NumberSyntax, iter: u32)
    requires ColonFree(p)
    requires p.v == 1.0 && p.kdf == KDF && p.alg == ALG && p.iter == iter as real
    ensures GatewayRead(Serialize(p, num)) == Some(Fields(iter, p.salt, p.iv, p.ct))
  {
    SplitSerialized(p, num);
    VersionText(p, num, iter);
    ParsePrinted(iter);
  }

  /** Both writers print the same text for the same fields. */
  lemma WritersAgree(salt: string, iv: string, ct: string, num: NumberSyntax)
    ensures GatewayWrite(salt, iv, ct)
            == Serialize(EncryptedPayload(1.0, KDF, ALG, PBKDF2_ITERATIONS as real, salt, iv, ct), num)
  {
  }

  /**
   * On every text the gateway accepts, the crypto package's parser reads the same
   * fields or refuses, and it refuses exactly when the iteration count leaves its band.
   */
  lemma ReadersAgree(text: string, num: NumberSyntax)
    requires GatewayRead(text).Some?
    ensures var f := GatewayRead(text).value;
            Parse(text, num) ==
            if MIN_ITER <= f.iterations as real <= MAX_ITER
            then Some(EncryptedPayload(1.0, KDF, ALG, f.iterations as real, f.salt, f.iv, f.ct))
            else None
  {
    var parts := Split(text, ':');
    JoinSplit(text, ':');
    StartsWithHeader(parts);
    assert DropFirstV(parts[1]) == "1";
    DecimalRoundTrip(1);
    assert Decimal(1) == "1";
  }

  // ------------------------------------------------------------------
  // The text written out
  // ------------------------------------------------------------------

  lemma JoinFour(f0: string, f1: string, f2: string, f3: string)
    ensures Join([f0, f1, f2, f3], ':') == f0 + ":" + f1 + ":" + f2 + ":" + f3
  {
    assert [f0, f1, f2, f3] == [f0] + [f1, f2, f3] && [f1, f2, f3] == [f1] + [f2, f3] && [f2, f3] == [f2] + [f3];
    JoinCons(f0, [f1, f2, f3], ':');
    JoinCons(f1, [f2, f3], ':');
    JoinCons(f2, [f3], ':');
  }

  lemma {:induction false} JoinAppend(a: seq<string>, b: seq<string>)
    requires a != [] && b != []
    ensures Join(a + b, ':') == Join(a, ':') + ":" + Join(b, ':')
  {
    assert a == [a[0]] + a[1..];
    if |a| == 1 {
      JoinCons(a[0], b, ':');
    } else {
      JoinAppend(a[1..], b);
      assert a + b == [a[0]] + (a[1..] + b);
      JoinCons(a[0], a[1..] + b, ':');
    }
  }

  lemma Extend(front: string, f0: string, f1: string, f2: string, f3: string)
    ensures front + ":" + (f0 + ":" + f1 + ":" + f2 + ":" + f3) == front + ":" + f0 + ":" + f1 + ":" + f2 + ":" + f3
  {
  }

  lemma JoinEight(f0: string, f1: string, f2: string, f3: string, f4: string, f5: string, f6: string, f7: string)
    ensures Join([f0, f1, f2, f3, f4, f5, f6, f7], ':')
            == f0 + ":" + f1 + ":" + f2 + ":" + f3 + ":" + f4 + ":" + f5 + ":" + f6 + ":" + f7
  {
    assert [f0, f1, f2, f3, f4, f5, f6, f7] == [f0, f1, f2, f3] + [f4, f5, f6, f7];
    JoinAppend([f0, f1, f2, f3], [f4, f5, f6, f7]);
    JoinFour(f0, f1, f2, f3);
    JoinFour(f4, f5, f6, f7);
    Extend(f0 + ":" + f1 + ":" + f2 + ":" + f3, f4, f5, f6, f7);
  }

  /** The template of both languages, with the version and iteration texts as given. */
  ghost predicate Spelled(text: string, version: string, iter: string, p: EncryptedPayload) {
    text == "enc" + ":" + ("v" + version) + ":" + p.kdf + ":" + p.alg + ":" + iter + ":"
            + p.salt + ":" + p.iv + ":" + p.ct
  }

  /** What the writer prints, character by character. */
  lemma SerializeIsSpelled(p: EncryptedPayload, num: NumberSyntax)
    ensures Spelled(Serialize(p, num), num.Show(p.v), num.Show(p.iter), p)
  {
    JoinEight("enc", "v" + num.Show(p.v), p.kdf, p.alg, num.Show(p.iter), p.salt, p.iv, p.ct);
  }

  lemma SplitOfHeader(text: string)
    requires "enc:v" <= text
    ensures var parts := Split(text, ':'); |parts| >= 2 && parts[0] == "enc" && parts[1] != "" && parts[1][0] == 'v'
  {
    var rest := text[4..];
    assert text == "enc" + [':'] + rest;
    SplitFirst("enc", rest, ':');
    assert rest[0] == 'v';
  }

  lemma SpelledParts(text: string, version: string, iter: string, p: EncryptedPayload)
    requires Spelled(text, version, iter, p) && ':' !in version && ':' !in iter && ColonFree(p)
    ensures Split(text, ':') == ["enc", "v" + version, p.kdf, p.alg, iter, p.salt, p.iv, p.ct]
  {
    var fields := ["enc", "v" + version, p.kdf, p.alg, iter, p.salt, p.iv, p.ct];
    JoinEight("enc", "v" + version, p.kdf, p.alg, iter, p.salt, p.iv, p.ct);
    EightAreFree("enc", "v" + version, p.kdf, p.alg, iter, p.salt, p.iv, p.ct);
    SplitJoin(fields, ':');
  }

  ghost predicate ParsesAs(text: string, num: NumberSyntax, p: EncryptedPayload, version: string, iter: string) {
    && Spelled(text, version, iter, p)
    && ':' !in version && ':' !in iter && ColonFree(p)
    && num.Read(version) == Some(p.v) && num.Read(iter) == Some(p.iter)
    && 100_000.0 <= p.iter <= 1_000_000.0
  }

  lemma JoinParts(parts: seq<string>)
    requires |parts| == 8
    ensures Join(parts, ':') == parts[0] + ":" + parts[1] + ":" + parts[2] + ":" + parts[3] + ":"
                                + parts[4] + ":" + parts[5] + ":" + parts[6] + ":" + parts[7]
  {
    assert parts == [parts[0], parts[1], parts[2], parts[3], parts[4], parts[5], parts[6], parts[7]];
    JoinEight(parts[0], parts[1], parts[2], parts[3], parts[4], parts[5], parts[6], parts[7]);
  }

  lemma PartsAreFree(parts: seq<string>)
    requires |parts| == 8 && FreeOf(parts, ':')
    ensures ':' !in parts[1] && ':' !in parts[2] && ':' !in parts[3] && ':' !in parts[4]
    ensures ':' !in parts[5] && ':' !in parts[6] && ':' !in parts[7]
  {
  }

  lemma AfterV(part: string)
    requires part != "" && part[0] == 'v' && ':' !in part
    ensures part == "v" + part[1..] && ':' !in part[1..] && DropFirstV(part) == part[1..]
  {
    assert forall c <- part[1..] :: c in part;
  }

  /** A text of eight fields under the right header is the template with those fields. */
  lemma EightFields(text: string)
    requires "enc:v" <= text && |Split(text, ':')| == 8
    ensures var parts := Split(text, ':');
            && parts[1] != ""
            && text == "enc" + ":" + ("v" + parts[1][1..]) + ":" + parts[2] + ":" + parts[3] + ":" + parts[4] + ":"
                       + parts[5] + ":" + parts[6] + ":" + parts[7]
            && DropFirstV(parts[1]) == parts[1][1..] && ':' !in parts[1][1..]
  {
    var parts := Split(text, ':');
    SplitOfHeader(text);
    JoinSplit(text, ':');
    PartsAreFree(parts);
    AfterV(parts[1]);
    JoinParts(parts);
  }

  lemma ParseGives(text: string, num: NumberSyntax)
    requires Parse(text, num).Some?
    ensures exists version, iter :: ParsesAs(text, num, Parse(text, num).value, version, iter)
  {
    var parts := Split(text, ':');
    JoinSplit(text, ':');
    PartsAreFree(parts);
    EightFields(text);
    assert ParsesAs(text, num, Parse(text, num).value, parts[1][1..], parts[4]);
  }

  lemma ParseTakes(text: string, num: NumberSyntax, p: EncryptedPayload, version: string, iter: string)
    requires ParsesAs(text, num, p, version, iter)
    ensures Parse(text, num) == Some(p)
  {
    SpelledParts(text, version, iter, p);
    JoinSplit(text, ':');
    StartsWithHeader(Split(text, ':'));
    assert DropFirstV("v" + version) == version;
  }

  /**
   * The parser accepts exactly the texts of the template whose numbers read and
   * whose iteration count is in the band.
   */
  lemma ParseExactly(text: string, num: NumberSyntax, p: EncryptedPayload)
    ensures Parse(text, num) == Some(p) <==> exists version, iter :: ParsesAs(text, num, p, version, iter)
  {
    if Parse(text, num) == Some(p) {
      ParseGives(text, num);
    }
    if version, iter :| ParsesAs(text, num, p, version, iter) {
      ParseTakes(text, num, p, version, iter);
    }
  }

  ghost predicate ReadsAs(text: string, f: Fields, iter: string) {
    && Spelled(text, "1", iter, EncryptedPayload(1.0, "PBKDF2-SHA256", "AES-GCM-256", 0.0, f.salt, f.iv, f.ct))
    && ':' !in iter && ':' !in f.salt && ':' !in f.iv && ':' !in f.ct
    && IsDigits(Unsigned(iter)) && DecimalValue(Unsigned(iter)) == f.iterations
  }

  lemma ReadGives(text: string)
    requires GatewayRead(text).Some?
    ensures exists iter :: ReadsAs(text, GatewayRead(text).value, iter)
  {
    var f, parts := GatewayRead(text).value, Split(text, ':');
    JoinSplit(text, ':');
    PartsAreFree(parts);
    JoinParts(parts);
    assert "v" + "1" == "v1";
    assert ReadsAs(text, f, parts[4]);
  }

  lemma ReadTakes(text: string, f: Fields, iter: string)
    requires ReadsAs(text, f, iter)
    ensures GatewayRead(text) == Some(f)
  {
    assert "v" + "1" == "v1";
    SpelledParts(text, "1", iter, EncryptedPayload(1.0, KDF, ALG, 0.0, f.salt, f.iv, f.ct));
  }

  /** The gateway accepts exactly the texts of version 1 with its two algorithms and an unsigned 32-bit count. */
  lemma GatewayReadExactly(text: string, f: Fields)
    ensures GatewayRead(text) == Some(f) <==> exists iter :: ReadsAs(text, f, iter)
  {
    if GatewayRead(text) == Some(f) {
      ReadGives(text);
    }
    if iter :| ReadsAs(text, f, iter) {
      ReadTakes(text, f, iter);
    }
  }
}
