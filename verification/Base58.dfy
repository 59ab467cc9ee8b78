/**
 * Base58 and did:key. Two encoders exist: the SDK accumulates little-endian
 * base-58 digits byte by byte, the daemon divides the byte buffer in place.
 * Both are proved against `Encode`, the definition of section 3 of
 * draft-msporny-base58-03.
 */
module Base58 {
  import opened Common
  import opened Radix

  const ALPHABET := "123456789" + "ABCDEFGH" + "JKLMN" + "PQRSTUVWXYZ" + "abcdefghijk" + "mnopqrstuvwxyz"

  const DID_PREFIX := "did:key:z"

  // ------------------------------------------------------------------
  // Reference encoder and decoder
  // ------------------------------------------------------------------

  function Chars(ds: seq<nat>): (s: string)
    requires Digits(58, ds)
    ensures |s| == |ds|
  {
    seq(|ds|, i requires 0 <= i < |ds| => ALPHABET[ds[i]])
  }

  /** One '1' per leading zero octet, then the base-58 numeral of the rest. */
  function Encode(bytes: Bytes): string {
    Repeat(LeadingZeros(bytes), '1') + Chars(Rep(58, Num(256, bytes)))
  }

  function Find(s: string, c: char, i: nat): (d: Option<nat>)
    requires i <= |s|
    ensures d.Some? ==> i <= d.value < |s| && s[d.value] == c
    ensures d.None? ==> forall k :: i <= k < |s| ==> s[k] != c
    decreases |s| - i
  {
    if i == |s| then None else if s[i] == c then Some(i) else Find(s, c, i + 1)
  }

  function DigitsOf(s: string): (ds: Option<seq<nat>>)
    ensures ds.Some? ==> Digits(58, ds.value) && Chars(ds.value) == s
  {
    if s == "" then Some([]) else
      match (DigitsOf(s[..|s| - 1]), Find(ALPHABET, s[|s| - 1], 0))
      case (Some(init), Some(d)) => Some(init + [d])
      case _ => None
  }

  function Decode(s: string): Option<Bytes> {
    match DigitsOf(s)
    case None => None
    case Some(ds) => Some(Repeat<byte>(LeadingZeros(ds), 0) + AsOctets(Rep(256, Num(58, ds))))
  }

  function AsOctets(ds: seq<nat>): (b: Bytes)
    requires Digits(256, ds)
    ensures |b| == |ds| && forall i :: 0 <= i < |ds| ==> b[i] == ds[i]
  {
    seq(|ds|, i requires 0 <= i < |ds| => ds[i])
  }

  /** The alphabet runs through its six unbroken character ranges in order. */
  lemma GlyphAt(d: nat)
    requires d < 58
    ensures ALPHABET[d] ==
            if d < 9 then '1' + d as char
            else if d < 17 then 'A' + (d - 9) as char
            else if d < 22 then 'J' + (d - 17) as char
            else if d < 33 then 'P' + (d - 22) as char
            else if d < 44 then 'a' + (d - 33) as char
            else 'm' + (d - 44) as char
  {
    if d < 9 {
    } else if d < 17 {
    } else if d < 22 {
    } else if d < 33 {
    } else if d < 44 {
    }
  }

  lemma AlphabetDistinct(i: nat, j: nat)
    requires i < 58 && j < 58 && ALPHABET[i] == ALPHABET[j]
    ensures i == j
  {
    GlyphAt(i);
    GlyphAt(j);
  }

  lemma {:induction false} DigitsOfChars(ds: seq<nat>)
    requires Digits(58, ds)
    ensures DigitsOf(Chars(ds)) == Some(ds)
  {
    if ds != [] {
      var init, d := ds[..|ds| - 1], ds[|ds| - 1];
      DigitsOfChars(init);
      assert Chars(ds)[..|ds| - 1] == Chars(init);
      var i := Find(ALPHABET, ALPHABET[d], 0);
      AlphabetDistinct(i.value, d);
      assert ds == init + [d];
    }
  }

  lemma EncodeIsChars(bytes: Bytes)
    ensures var ds := Repeat(LeadingZeros(bytes), 0) + Rep(58, Num(256, bytes));
            Digits(58, ds) && Encode(bytes) == Chars(ds)
  {
    GlyphAt(0);
    var k, rep := LeadingZeros(bytes), Rep(58, Num(256, bytes));
    assert Chars(Repeat(k, 0) + rep) == Repeat(k, '1') + Chars(rep);
  }

  lemma DecodeChars(ds: seq<nat>)
    requires Digits(58, ds)
    ensures Decode(Chars(ds)) == Some(Repeat<byte>(LeadingZeros(ds), 0) + AsOctets(Rep(256, Num(58, ds))))
  {
    DigitsOfChars(ds);
  }

  /** A byte string is its leading zeros followed by the base-256 numeral of its value. */
  lemma OctetsSplit(bytes: Bytes)
    ensures bytes == Repeat<byte>(LeadingZeros(bytes), 0) + AsOctets(Rep(256, Num(256, bytes)))
  {
    ZerosThenRep(256, bytes);
  }

  /** The decoder inverts the encoder on every byte string. */
  lemma DecodeEncode(bytes: Bytes)
    ensures Decode(Encode(bytes)) == Some(bytes)
  {
    var k, n := LeadingZeros(bytes), Num(256, bytes);
    LeadingZerosOfPadded(58, k, n);
    DecodeChars(Repeat(k, 0) + Rep(58, n));
    EncodeIsChars(bytes);
    OctetsSplit(bytes);
  }

  /** The encoder inverts the decoder on every string it accepts. */
  lemma EncodeDecode(s: string, bytes: Bytes)
    requires Decode(s) == Some(bytes)
    ensures Encode(bytes) == s
  {
    var ds := DigitsOf(s).value;
    var k, n := LeadingZeros(ds), Num(58, ds);
    assert bytes == Repeat(k, 0) + Rep(256, n);
    LeadingZerosOfPadded(256, k, n);
    ZerosThenRep(58, ds);
    EncodeIsChars(bytes);
  }

  lemma {:induction false} LeadingZerosAre(ds: seq<nat>, k: nat)
    requires k <= |ds| && forall i :: 0 <= i < k ==> ds[i] == 0
    requires k < |ds| ==> ds[k] != 0
    ensures LeadingZeros(ds) == k
  {
    if k > 0 { LeadingZerosAre(ds[1..], k - 1); }
  }

  // ------------------------------------------------------------------
  // The SDK's encoder
  // ------------------------------------------------------------------

  /** The value of little-endian digits `ds` continued upward by `high`. */
  function Upward(ds: seq<nat>, high: nat): nat {
    if ds == [] then high else Upward(ds[..|ds| - 1], ds[|ds| - 1] + 58 * high)
  }

  lemma UpwardSnoc(ds: seq<nat>, d: nat, high: nat)
    ensures Upward(ds + [d], high) == Upward(ds, d + 58 * high)
  {
    assert (ds + [d])[..|ds|] == ds;
  }

  lemma {:induction false} UpwardIsNum(ds: seq<nat>, top: seq<nat>)
    ensures Upward(ds, Num(58, top)) == Num(58, top + Reverse(ds))
  {
    if ds == [] {
      assert top + Reverse(ds) == top;
    } else {
      var init, d := ds[..|ds| - 1], ds[|ds| - 1];
      NumSnoc(58, top, d);
      UpwardIsNum(init, top + [d]);
      assert top + Reverse(ds) == top + [d] + Reverse(init);
    }
  }

  ghost predicate NoTopZero(digits: seq<nat>) {
    |digits| > 0 && (digits == [0] || digits[|digits| - 1] != 0)
  }

  /** `digits := digits * 256 + octet`, carrying upward: one round of the outer loop. */
  method MulAdd(digits0: seq<nat>, octet: byte) returns (digits: seq<nat>)
    requires Digits(58, digits0) && NoTopZero(digits0)
    ensures Digits(58, digits) && NoTopZero(digits)
    ensures Upward(digits, 0) == Upward(digits0, 0) * 256 + octet
    ensures |digits| <= |digits0| + 2
  {
    var carry: nat;
    digits, carry := CarryThrough(digits0, octet);
    digits := PushCarry(digits, carry);
  }

  /** The inner loop: every digit is rewritten once and the carry stays below an octet. */
  method CarryThrough(digits0: seq<nat>, octet: byte) returns (digits: seq<nat>, carry: nat)
    requires Digits(58, digits0) && |digits0| > 0
    ensures |digits| == |digits0| && Digits(58, digits) && carry <= 255
    ensures Upward(digits, carry) == Upward(digits0, 0) * 256 + octet
    ensures digits0[|digits0| - 1] > 0 ==> carry > 0
  {
    digits := digits0;
    carry := octet;
    ghost var low: seq<nat>, high := [], digits0;
    for i := 0 to |digits0|
      invariant |low| == i && high == digits0[i..] && digits == low + high
      invariant Digits(58, low) && carry <= 255
      invariant Pending(low, high, carry) == Pending([], digits0, octet)
      invariant i > 0 && digits0[i - 1] > 0 ==> carry > 0
    {
      var value := digits[i] * 256 + carry;
      CarryStep(low, high, carry);
      SplitUpdate(low, high, value % 58);
      digits := digits[i := value % 58];
      low, high := low + [value % 58], high[1..];
      carry := value / 58;
    }
    assert digits == low;
  }

  /** The number in hand while a carry is about to enter the digits `high`. */
  ghost function Pending(low: seq<nat>, high: seq<nat>, carry: nat): nat {
    Upward(low, Upward(high, 0) * 256 + carry)
  }

  /** One pass of the inner loop over digit `d`, given the digits below and above it. */
  lemma CarryStep(low: seq<nat>, high: seq<nat>, carry: nat)
    requires high != []
    ensures var value := high[0] * 256 + carry;
            Pending(low, high, carry) == Pending(low + [value % 58], high[1..], value / 58)
  {
    var value := high[0] * 256 + carry;
    assert high == [high[0]] + high[1..];
    UpwardCons(high[0], high[1..], 0);
    UpwardSnoc(low, value % 58, Upward(high[1..], 0) * 256 + value / 58);
  }

  lemma SplitUpdate<T>(low: seq<T>, high: seq<T>, x: T)
    requires high != []
    ensures (low + high)[|low| := x] == low + [x] + high[1..]
    ensures (low + high)[|low|] == high[0]
  {
  }

  /** What is left of the carry becomes at most two new digits. */
  method PushCarry(digits0: seq<nat>, carry0: nat) returns (digits: seq<nat>)
    requires Digits(58, digits0) && carry0 <= 255 && |digits0| >= 1
    requires carry0 > 0 || NoTopZero(digits0)
    ensures Digits(58, digits) && NoTopZero(digits)
    ensures Upward(digits, 0) == Upward(digits0, carry0)
    ensures |digits| <= |digits0| + 2
  {
    digits := digits0;
    var carry := carry0;
    while carry > 0
      invariant carry <= 255 && |digits| >= 1 && Digits(58, digits)
      invariant carry == 0 ==> NoTopZero(digits)
      invariant Upward(digits, carry) == Upward(digits0, carry0)
      invariant |digits| == |digits0| || (|digits| == |digits0| + 1 && carry <= 4)
                || (|digits| == |digits0| + 2 && carry == 0)
    {
      UpwardSnoc(digits, carry % 58, carry / 58);
      digits := digits + [carry % 58];
      carry := carry / 58;
    }
  }

  lemma {:induction false} UpwardCons(d: nat, ds: seq<nat>, high: nat)
    ensures Upward([d] + ds, high) == d + 58 * Upward(ds, high)
  {
    if ds == [] {
      assert [d] + ds == [d];
      assert Upward([d], high) == Upward([d][..0], d + 58 * high);
    } else {
      var init, top := ds[..|ds| - 1], ds[|ds| - 1];
      assert ([d] + ds)[..|ds|] == [d] + init;
      UpwardCons(d, init, top + 58 * high);
    }
  }

  /**
   * The SDK's encoder. It is the standard's, except that a non-empty run of
   * zero octets comes out with one '1' too many.
   */
  method SdkEncode(bytes: Bytes) returns (output: string)
    ensures output == Encode(bytes) + (if bytes != [] && LeadingZeros(bytes) == |bytes| then "1" else "")
  {
    if |bytes| == 0 {
      return "";
    }
    var digits: seq<nat> := [0];
    for k := 0 to |bytes|
      invariant Digits(58, digits) && NoTopZero(digits)
      invariant Upward(digits, 0) == Num(256, bytes[..k])
    {
      assert bytes[..k + 1][..k] == bytes[..k];
      digits := MulAdd(digits, bytes[k]);
    }
    assert bytes[..|bytes|] == bytes;

    var zeros := 0;
    while zeros < |bytes| && bytes[zeros] == 0
      invariant zeros <= |bytes| && forall i :: 0 <= i < zeros ==> bytes[i] == 0
    {
      zeros := zeros + 1;
    }
    LeadingZerosAre(bytes, zeros);
    output := Repeat(zeros, '1');
    for i := |digits| downto 0
      invariant output == Repeat(zeros, '1') + Chars(Reverse(digits)[..|digits| - i])
    {
      output := output + [ALPHABET[digits[i]]];
    }
    assert Reverse(digits)[..|digits|] == Reverse(digits);
    AccumulatedNumeral(bytes, digits);
    NumZero(256, bytes);
  }

  /** The accumulated digits, read downward, are the canonical numeral; zero shows as "1". */
  lemma AccumulatedNumeral(bytes: Bytes, digits: seq<nat>)
    requires Digits(58, digits) && NoTopZero(digits)
    requires Upward(digits, 0) == Num(256, bytes)
    ensures digits == [0] <==> Num(256, bytes) == 0
    ensures digits == [0] ==> Chars(Reverse(digits)) == "1"
    ensures digits != [0] ==> Chars(Reverse(digits)) == Chars(Rep(58, Num(256, bytes)))
  {
    var numeral := Reverse(digits);
    UpwardIsNum(digits, []);
    assert [] + numeral == numeral;
    if digits == [0] {
      GlyphAt(0);
      assert numeral == [0];
    } else {
      RepNum(58, numeral);
    }
  }

  // ------------------------------------------------------------------
  // The daemon's encoder
  // ------------------------------------------------------------------

  /** Long division of `input[start..]` by 58, in place; every quotient fits an octet. */
  method DivideInPlace(input: array<byte>, start: nat) returns (remainder: u32)
    requires start <= input.Length
    modifies input
    ensures input[..start] == old(input[..start])
    ensures remainder < 58
    ensures Num(256, old(input[start..])) == Num(256, input[start..]) * 58 + remainder
  {
    remainder := 0;
    for i := start to input.Length
      invariant remainder < 58
      invariant input[..start] == old(input[..start]) && input[i..] == old(input[i..])
      invariant Num(256, old(input[start..i])) == Num(256, input[start..i]) * 58 + remainder
    {
      var value: u32 := remainder * 256 + input[i];
      ghost var before, done := old(input[start..i]), input[start..i];
      assert old(input[start..i + 1]) == before + [input[i]];
      DivideStep(before, done, remainder, input[i]);
      input[i] := value / 58;
      assert input[start..i + 1] == done + [value / 58];
      remainder := value % 58;
    }
    assert old(input[start..input.Length]) == old(input[start..]);
    assert input[start..input.Length] == input[start..];
  }

  lemma DivideStep(before: seq<nat>, done: seq<nat>, remainder: nat, octet: nat)
    requires Num(256, before) == Num(256, done) * 58 + remainder
    ensures var value := remainder * 256 + octet;
            Num(256, before + [octet]) == Num(256, done + [value / 58]) * 58 + value % 58
  {
    NumSnoc(256, before, octet);
    NumSnoc(256, done, (remainder * 256 + octet) / 58);
  }

  lemma RepStep(n: nat, q: nat, r: nat, encoded: string)
    requires n > 0 && r < 58 && n == q * 58 + r
    ensures q < n
    ensures Chars(Rep(58, n)) + Reverse(encoded) == Chars(Rep(58, q)) + Reverse(encoded + [ALPHABET[r]])
  {
    assert n / 58 == q && n % 58 == r;
    assert Chars(Rep(58, n)) == Chars(Rep(58, q)) + [ALPHABET[r]];
    assert Reverse(encoded + [ALPHABET[r]]) == [ALPHABET[r]] + Reverse(encoded);
  }

  method EncodeInPlace(input: array<byte>) returns (encoded: string)
    modifies input
    ensures encoded == Encode(old(input[..]))
  {
    ghost var bytes := input[..];
    var zeros := SkipZeros(input, 0);
    LeadingZerosAre(bytes, zeros);
    encoded := "";
    var startAt := zeros;
    NumSkipZeros(256, bytes, zeros);
    assert input[startAt..] == bytes[zeros..];
    while startAt < input.Length
      invariant zeros <= startAt <= input.Length
      invariant startAt < input.Length ==> input[startAt] != 0
      invariant Chars(Rep(58, Num(256, bytes))) == Chars(Rep(58, Num(256, input[startAt..]))) + Reverse(encoded)
      decreases Num(256, input[startAt..])
    {
      ghost var n := Num(256, input[startAt..]);
      NumZero(256, input[startAt..]);
      var remainder := DivideInPlace(input, startAt);
      RepStep(n, Num(256, input[startAt..]), remainder, encoded);
      encoded := encoded + [ALPHABET[remainder]];
      startAt := SkipZeros(input, startAt);
    }
    ghost var numeral := Reverse(encoded);
    assert Reverse(encoded + Repeat(zeros, '1')) == Repeat(zeros, '1') + numeral;
    encoded := Reverse(encoded + Repeat(zeros, '1'));
  }

  /** The first non-zero position from `start` on; the value read there is unchanged. */
  method SkipZeros(input: array<byte>, start: nat) returns (startAt: nat)
    requires start <= input.Length
    ensures start <= startAt <= input.Length
    ensures forall i :: start <= i < startAt ==> input[i] == 0
    ensures startAt < input.Length ==> input[startAt] != 0
    ensures Num(256, input[startAt..]) == Num(256, input[start..])
  {
    startAt := start;
    while startAt < input.Length && input[startAt] == 0
      invariant start <= startAt <= input.Length
      invariant forall i :: start <= i < startAt ==> input[i] == 0
    {
      startAt := startAt + 1;
    }
    assert input[start..][startAt - start..] == input[startAt..];
    NumSkipZeros(256, input[start..], startAt - start);
  }

  // ------------------------------------------------------------------
  // did:key
  // ------------------------------------------------------------------

  function Multicodec(publicKey: Bytes): Bytes {
    [0xed, 0x01] + publicKey
  }

  /** The did:key of a raw Ed25519 public key. */
  function DidKey(publicKey: Bytes): string {
    DID_PREFIX + Encode(Multicodec(publicKey))
  }

  method SdkDidKey(publicKey: Bytes) returns (did: string)
    ensures did == DidKey(publicKey)
  {
    var encoded := SdkEncode(Multicodec(publicKey));
    return DID_PREFIX + encoded;
  }

  method DaemonDidKey(publicKey: Bytes) returns (did: string)
    ensures did == DidKey(publicKey)
  {
    var multicodec := Multicodec(publicKey);
    var input := new byte[|multicodec|](i requires 0 <= i < |multicodec| => multicodec[i]);
    assert input[..] == multicodec;
    var encoded := EncodeInPlace(input);
    return DID_PREFIX + encoded;
  }

  /** After "did:key:z", the DID is the base-58 text of 0xed, 0x01 and the key: decoding it recovers them. */
  lemma DidKeyShape(publicKey: Bytes)
    ensures "did:key:z" <= DidKey(publicKey)
    ensures Decode(DidKey(publicKey)[9..]) == Some([0xed, 0x01] + publicKey)
  {
    assert DidKey(publicKey)[9..] == Encode(Multicodec(publicKey));
    DecodeEncode(Multicodec(publicKey));
  }

  /** Distinct public keys have distinct DIDs. */
  lemma DidKeyInjective(k1: Bytes, k2: Bytes)
    requires DidKey(k1) == DidKey(k2)
    ensures k1 == k2
  {
    var m1, m2 := Multicodec(k1), Multicodec(k2);
    assert DidKey(k1)[|DID_PREFIX|..] == Encode(m1);
    assert DidKey(k2)[|DID_PREFIX|..] == Encode(m2);
    DecodeEncode(m1);
    DecodeEncode(m2);
    assert k1 == m1[2..];
    assert k2 == m2[2..];
  }
}
