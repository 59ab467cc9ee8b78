/**
 * Base64 and base64url (sections 4 and 5 of RFC 4648), as the SDK, the crypto
 * package and the daemon use them: standard base64 with '+', '/' and '='
 * rewritten to '-', '_' and nothing, and back.
 */
module Base64Url {
  import opened Common
  import opened Radix

  type sextet = i: int | 0 <= i < 64

  // ------------------------------------------------------------------
  // Octets to sextets and back
  // ------------------------------------------------------------------

  /** How many sextets carry `n` octets, and how many '=' fill the last group. */
  function SextetCount(n: nat): nat {
    n / 3 * 4 + if n % 3 == 0 then 0 else n % 3 + 1
  }

  function PadCount(n: nat): nat {
    (3 - n % 3) % 3
  }

  function Sextets(b: Bytes): (s: seq<sextet>)
    ensures |s| == SextetCount(|b|)
  {
    if |b| == 0 then []
    else if |b| == 1 then [b[0] / 4, b[0] % 4 * 16]
    else if |b| == 2 then [b[0] / 4, b[0] % 4 * 16 + b[1] / 16, b[1] % 16 * 4]
    else Group(b[0], b[1], b[2]) + Sextets(b[3..])
  }

  function Group(x: byte, y: byte, z: byte): (s: seq<sextet>)
    ensures |s| == 4
  {
    [x / 4, x % 4 * 16 + y / 16, y % 16 * 4 + z / 64, z % 64]
  }

  /** Whole octets only; the bits left over in the last sextet are dropped. */
  function FromSextets(s: seq<sextet>): Bytes {
    if |s| < 2 then [] else
      var x0: int, x1: int := s[0], s[1];
      if |s| == 2 then [x0 * 4 + x1 / 16] else
        var x2: int := s[2];
        if |s| == 3 then [x0 * 4 + x1 / 16, x1 % 16 * 16 + x2 / 4] else
          Ungroup(s[0], s[1], s[2], s[3]) + FromSextets(s[4..])
  }

  /** The three octets that four sextets carry. */
  function Ungroup(x0: int, x1: int, x2: int, x3: int): Bytes
    requires 0 <= x0 < 64 && 0 <= x1 < 64 && 0 <= x2 < 64 && 0 <= x3 < 64
  {
    [x0 * 4 + x1 / 16, x1 % 16 * 16 + x2 / 4, x2 % 4 * 64 + x3]
  }

  lemma Nibbles(high: nat, low: nat)
    requires low < 16
    ensures (high * 16 + low) / 16 == high && (high * 16 + low) % 16 == low
  {
  }

  lemma Quarters(high: nat, low: nat)
    requires low < 4
    ensures (high * 4 + low) / 4 == high && (high * 4 + low) % 4 == low
  {
  }

  lemma Parts(x: byte)
    ensures x == x / 4 * 4 + x % 4 && x == x / 16 * 16 + x % 16 && x == x / 64 * 64 + x % 64
    ensures x / 4 < 64 && x / 16 < 16 && x / 64 < 4
  {
  }

  lemma FirstOctet(x: byte, y: byte)
    ensures x / 4 * 4 + (x % 4 * 16 + y / 16) / 16 == x
  {
    Parts(x);
    Parts(y);
    Nibbles(x % 4, y / 16);
  }

  lemma SecondOctet(x: byte, y: byte, z: byte)
    ensures (x % 4 * 16 + y / 16) % 16 * 16 + (y % 16 * 4 + z / 64) / 4 == y
  {
    Parts(y);
    Parts(z);
    Nibbles(x % 4, y / 16);
    Quarters(y % 16, z / 64);
  }

  lemma ThirdOctet(y: byte, z: byte)
    ensures (y % 16 * 4 + z / 64) % 4 * 64 + z % 64 == z
  {
    Parts(z);
    Quarters(y % 16, z / 64);
  }

  lemma UngroupGroup(x: byte, y: byte, z: byte)
    ensures Ungroup(x / 4, x % 4 * 16 + y / 16, y % 16 * 4 + z / 64, z % 64) == [x, y, z]
  {
    FirstOctet(x, y);
    SecondOctet(x, y, z);
    ThirdOctet(y, z);
  }

  lemma OctetsOfGroup(x: byte, y: byte, z: byte, rest: seq<sextet>)
    ensures FromSextets(Group(x, y, z) + rest) == [x, y, z] + FromSextets(rest)
  {
    UngroupGroup(x, y, z);
    assert (Group(x, y, z) + rest)[4..] == rest;
  }

  /** The short tails are groups whose missing octets are zero. */
  lemma OneOctet(x: byte, s: seq<sextet>)
    requires s == [x / 4, x % 4 * 16]
    ensures FromSextets(s) == [x]
  {
    Nibbles(x % 4, 0);
    Parts(x);
  }

  lemma TwoOctets(x: byte, y: byte, s: seq<sextet>)
    requires s == [x / 4, x % 4 * 16 + y / 16, y % 16 * 4]
    ensures FromSextets(s) == [x, y]
  {
    Nibbles(x % 4, y / 16);
    Quarters(y % 16, 0);
    Parts(x);
    Parts(y);
  }

  lemma {:induction false} OctetsOfSextets(b: Bytes)
    ensures FromSextets(Sextets(b)) == b
  {
    if |b| == 1 {
      OneOctet(b[0], Sextets(b));
    } else if |b| == 2 {
      TwoOctets(b[0], b[1], Sextets(b));
    } else if |b| > 2 {
      OctetsOfSextets(b[3..]);
      OctetsOfGroup(b[0], b[1], b[2], Sextets(b[3..]));
      assert b == [b[0], b[1], b[2]] + b[3..];
    }
  }

  // ------------------------------------------------------------------
  // The bits are the octets' bits
  // ------------------------------------------------------------------

  /** The zero bits that fill the last sextet, as a factor. */
  function Fill(n: nat): nat {
    if n % 3 == 0 then 1 else if n % 3 == 1 then 16 else 4
  }

  lemma {:induction false} FillSizes(n: nat)
    ensures Power(256, n) * Fill(n) == Power(64, SextetCount(n))
  {
    SmallPowers();
    if n >= 3 {
      FillSizes(n - 3);
      var p, q := Power(256, n - 3), Power(64, SextetCount(n - 3));
      assert Fill(n) == Fill(n - 3) && SextetCount(n) == SextetCount(n - 3) + 4;
      ThreeOctets(n - 3);
      FourSextets(SextetCount(n - 3));
      Scaled(p, Fill(n), q);
    }
  }

  lemma SmallPowers()
    ensures Power(256, 0) == 1 && Power(256, 1) == 256 && Power(256, 2) == 65536
    ensures Power(64, 0) == 1 && Power(64, 2) == 4096 && Power(64, 3) == 262144
  {
    assert Power(64, 1) == 64;
  }

  lemma Scaled(p: nat, f: nat, q: nat)
    requires p * f == q
    ensures (16777216 * p) * f == 16777216 * q
  {
  }

  lemma ThreeOctets(n: nat)
    ensures Power(256, n + 3) == 16777216 * Power(256, n)
  {
    var p := Power(256, n);
    assert Power(256, n + 1) == 256 * p;
    assert Power(256, n + 2) == 65536 * p;
  }

  lemma FourSextets(n: nat)
    ensures Power(64, n + 4) == 16777216 * Power(64, n)
  {
    var p := Power(64, n);
    assert Power(64, n + 1) == 64 * p;
    assert Power(64, n + 2) == 4096 * p;
    assert Power(64, n + 3) == 262144 * p;
  }

  lemma NumOfOne(base: nat, a: nat)
    ensures Num(base, [a]) == a
  {
    assert [a] == [] + [a];
    NumSnoc(base, [], a);
  }

  lemma NumOfTwo(base: nat, a: nat, b: nat)
    ensures Num(base, [a]) == a && Num(base, [a, b]) == a * base + b
  {
    NumOfOne(base, a);
    assert [a, b] == [a] + [b];
    NumSnoc(base, [a], b);
  }

  lemma NumOfFour(base: nat, a: nat, b: nat, c: nat, d: nat)
    ensures Num(base, [a, b, c]) == (a * base + b) * base + c
    ensures Num(base, [a, b, c, d]) == ((a * base + b) * base + c) * base + d
  {
    assert [a, b, c, d] == [a, b, c] + [d] && [a, b, c] == [a, b] + [c];
    NumOfTwo(base, a, b);
    NumSnoc(base, [a, b], c);
    NumSnoc(base, [a, b, c], d);
  }

  lemma GroupValue(x: byte, y: byte, z: byte)
    ensures Num(64, Group(x, y, z)) == Num(256, [x, y, z])
  {
    NumOfFour(64, x / 4, x % 4 * 16 + y / 16, y % 16 * 4 + z / 64, z % 64);
    NumOfFour(256, x, y, z, 0);
    Parts(x);
    Parts(y);
    Parts(z);
  }

  lemma OneValue(x: byte, s: seq<nat>, o: seq<nat>)
    requires s == [x / 4, x % 4 * 16] && o == [x]
    ensures Num(64, s) == Num(256, o) * 16
  {
    NumOfTwo(64, x / 4, x % 4 * 16);
    NumOfTwo(256, x, 0);
    Parts(x);
  }

  lemma TwoValue(x: byte, y: byte, s: seq<nat>, o: seq<nat>)
    requires s == [x / 4, x % 4 * 16 + y / 16, y % 16 * 4] && o == [x, y]
    ensures Num(64, s) == Num(256, o) * 4
  {
    NumOfFour(64, x / 4, x % 4 * 16 + y / 16, y % 16 * 4, 0);
    NumOfTwo(256, x, y);
    Parts(x);
    Parts(y);
  }

  lemma Shifted(a: nat, p: nat, f: nat, n: nat, p': nat, n': nat)
    requires p' == p * f && n' == n * f
    ensures a * p' + n' == (a * p + n) * f
  {
    assert a * p * f == a * (p * f);
  }

  lemma JoinValue(g: seq<nat>, s: seq<nat>, o: seq<nat>, r: seq<nat>, f: nat)
    requires Num(64, g) == Num(256, o) && Num(64, s) == Num(256, r) * f && Power(64, |s|) == Power(256, |r|) * f
    ensures Num(64, g + s) == Num(256, o + r) * f
  {
    NumAppend(64, g, s);
    NumAppend(256, o, r);
    Shifted(Num(256, o), Power(256, |r|), f, Num(256, r), Power(64, |s|), Num(64, s));
  }

  lemma TailOne(b: Bytes)
    requires |b| == 1
    ensures Num(64, Sextets(b)) == Num(256, b) * 16
  {
    OneValue(b[0], Sextets(b), b);
  }

  lemma TailTwo(b: Bytes)
    requires |b| == 2
    ensures Num(64, Sextets(b)) == Num(256, b) * 4
  {
    TwoValue(b[0], b[1], Sextets(b), b);
  }

  lemma GroupJoin(g: seq<nat>, o: seq<nat>, rest: Bytes, f: nat)
    requires Num(64, g) == Num(256, o)
    requires Num(64, Sextets(rest)) == Num(256, rest) * f && f == Fill(|rest|)
    ensures Num(64, g + Sextets(rest)) == Num(256, o + rest) * f
  {
    FillSizes(|rest|);
    JoinValue(g, Sextets(rest), o, rest, f);
  }

  lemma FirstThree<T>(b: seq<T>)
    requires |b| >= 3
    ensures b == [b[0], b[1], b[2]] + b[3..]
  {
  }

  lemma GroupStep(b: Bytes, f: nat)
    requires |b| >= 3 && Num(64, Sextets(b[3..])) == Num(256, b[3..]) * f && f == Fill(|b| - 3)
    ensures Num(64, Sextets(b)) == Num(256, b) * f
  {
    var g: seq<nat>, o: seq<nat> := Group(b[0], b[1], b[2]), [b[0], b[1], b[2]];
    assert Num(64, g) == Num(256, o) by { GroupValue(b[0], b[1], b[2]); }
    GroupJoin(g, o, b[3..], f);
    FirstThree(b);
    assert Sextets(b) == g + Sextets(b[3..]);
  }

  /** The sextets, as digits in base 64, denote the octets' number, with zero bits after it to fill the last sextet. */
  lemma {:induction false} SextetsValue(b: Bytes)
    ensures Num(64, Sextets(b)) == Num(256, b) * Fill(|b|)
    decreases |b|
  {
    if |b| == 1 {
      TailOne(b);
    } else if |b| == 2 {
      TailTwo(b);
    } else if |b| > 2 {
      SextetsValue(b[3..]);
      GroupStep(b, Fill(|b| - 3));
      FillPeriod(|b|);
    }
  }

  lemma FillPeriod(n: nat)
    requires n >= 3
    ensures Fill(n) == Fill(n - 3)
  {
  }

  // ------------------------------------------------------------------
  // Alphabets
  // ------------------------------------------------------------------

  function Glyph(d: sextet, c62: char, c63: char): char {
    if d < 26 then 'A' + d as char
    else if d < 52 then 'a' + (d - 26) as char
    else if d < 62 then '0' + (d - 52) as char
    else if d == 62 then c62 else c63
  }

  function Digit(c: char, c62: char, c63: char): Option<sextet> {
    if 'A' <= c <= 'Z' then Some(c as int - 'A' as int)
    else if 'a' <= c <= 'z' then Some(c as int - 'a' as int + 26)
    else if '0' <= c <= '9' then Some(c as int - '0' as int + 52)
    else if c == c62 then Some(62)
    else if c == c63 then Some(63)
    else None
  }

  function Write(s: seq<sextet>, c62: char, c63: char): (t: string)
    ensures |t| == |s|
  {
    seq(|s|, i requires 0 <= i < |s| => Glyph(s[i], c62, c63))
  }

  function Read(t: string, c62: char, c63: char): (s: Option<seq<sextet>>)
    ensures s.Some? ==> |s.value| == |t|
  {
    if t == "" then Some([]) else
      match (Digit(t[0], c62, c63), Read(t[1..], c62, c63))
      case (Some(d), Some(ds)) => Some([d] + ds)
      case _ => None
  }

  const UPPER := "ABCDEFGHIJKLMNOPQRSTUVWXYZ"
  const LOWER := "abcdefghijklmnopqrstuvwxyz"
  const FIGURES := "0123456789"

  /** The table of RFC 4648, with its last two places as given. */
  function Table(c62: char, c63: char): string {
    UPPER + LOWER + FIGURES + [c62] + [c63]
  }

  lemma PieceAt<T>(a: seq<T>, b: seq<T>, c: seq<T>, x: T, y: T, d: nat)
    requires d < |a| + |b| + |c| + 2
    ensures |a + b + c + [x] + [y]| == |a| + |b| + |c| + 2
    ensures (a + b + c + [x] + [y])[d] ==
            if d < |a| then a[d] else if d < |a| + |b| then b[d - |a|]
            else if d < |a| + |b| + |c| then c[d - |a| - |b|] else if d == |a| + |b| + |c| then x else y
  {
  }

  lemma UpperAt(i: nat)
    requires i < 26
    ensures UPPER[i] == 'A' + i as char
  {
  }

  lemma LowerAt(i: nat)
    requires i < 26
    ensures LOWER[i] == 'a' + i as char
  {
  }

  lemma FigureAt(i: nat)
    requires i < 10
    ensures FIGURES[i] == '0' + i as char
  {
  }

  /** Sextet d is written as the d-th character of the table. */
  lemma GlyphIsTable(d: sextet, c62: char, c63: char)
    ensures |Table(c62, c63)| == 64 && Glyph(d, c62, c63) == Table(c62, c63)[d]
  {
    PieceAt(UPPER, LOWER, FIGURES, c62, c63, d);
    if d < 26 {
      UpperAt(d);
    } else if d < 52 {
      LowerAt(d - 26);
    } else if d < 62 {
      FigureAt(d - 52);
    }
  }

  lemma DigitGlyph(d: sextet, c62: char, c63: char)
    requires (c62 == '+' && c63 == '/') || (c62 == '-' && c63 == '_')
    ensures Digit(Glyph(d, c62, c63), c62, c63) == Some(d)
  {
  }

  lemma WriteCons(d: sextet, s: seq<sextet>, c62: char, c63: char)
    ensures Write([d] + s, c62, c63) == [Glyph(d, c62, c63)] + Write(s, c62, c63)
  {
  }

  lemma ReadCons(d: sextet, t: string, c62: char, c63: char)
    requires (c62 == '+' && c63 == '/') || (c62 == '-' && c63 == '_')
    requires Read(t, c62, c63).Some?
    ensures Read([Glyph(d, c62, c63)] + t, c62, c63) == Some([d] + Read(t, c62, c63).value)
  {
    DigitGlyph(d, c62, c63);
    assert ([Glyph(d, c62, c63)] + t)[1..] == t;
  }

  lemma {:induction false} ReadWrite(s: seq<sextet>, c62: char, c63: char)
    requires (c62 == '+' && c63 == '/') || (c62 == '-' && c63 == '_')
    ensures Read(Write(s, c62, c63), c62, c63) == Some(s)
  {
    if s != [] {
      ReadWrite(s[1..], c62, c63);
      assert s == [s[0]] + s[1..];
      WriteCons(s[0], s[1..], c62, c63);
      ReadCons(s[0], Write(s[1..], c62, c63), c62, c63);
    }
  }

  // ------------------------------------------------------------------
  // The three codecs
  // ------------------------------------------------------------------

  /** Standard padded base64, as browsers and Node produce it. */
  function ToBase64(b: Bytes): string {
    Write(Sextets(b), '+', '/') + Repeat(PadCount(|b|), '=')
  }

  /** `atob` on padded text: length a multiple of four, one or two '=' allowed at the end. */
  function FromBase64(t: string): Option<Bytes> {
    if |t| % 4 != 0 then None else
      match Read(Unpad(t), '+', '/')
      case None => None
      case Some(s) => Some(FromSextets(s))
  }

  function Unpad(t: string): string {
    var n := |t|;
    if n >= 2 && t[n - 1] == '=' then (if t[n - 2] == '=' then t[..n - 2] else t[..n - 1]) else t
  }

  function ReplaceAll(t: string, from: char, to: char): (r: string)
    ensures |r| == |t| && forall i :: 0 <= i < |t| ==> r[i] == if t[i] == from then to else t[i]
  {
    seq(|t|, i requires 0 <= i < |t| => if t[i] == from then to else t[i])
  }

  function StripPadding(t: string): string {
    if t != "" && t[|t| - 1] == '=' then StripPadding(t[..|t| - 1]) else t
  }

  function ToBase64Url(b: Bytes): string {
    StripPadding(ReplaceAll(ReplaceAll(ToBase64(b), '+', '-'), '/', '_'))
  }

  function Repad(t: string): string {
    var b64 := ReplaceAll(ReplaceAll(t, '-', '+'), '_', '/');
    b64 + Repeat((4 - |b64| % 4) % 4, '=')
  }

  /** The crypto package's decoder; `None` stands for the exception `atob` throws. */
  function FromBase64Url(t: string): Option<Bytes> {
    FromBase64(Repad(t))
  }

  /** The daemon's URL_SAFE_NO_PAD encoder. */
  function EncodeNoPad(b: Bytes): string {
    Write(Sextets(b), '-', '_')
  }

  /** The daemon's URL_SAFE_NO_PAD decoder: no padding, no stray bits, no foreign character. */
  function DecodeNoPad(t: string): Option<Bytes> {
    match Read(t, '-', '_')
    case None => None
    case Some(s) => if Sextets(FromSextets(s)) == s then Some(FromSextets(s)) else None
  }

  /** Node's `Buffer.from`: either alphabet, foreign characters skipped, an incomplete tail dropped. */
  function BufferDecode(t: string): Bytes {
    FromSextets(BufferDigits(t))
  }

  function BufferDigits(t: string): seq<sextet> {
    if t == "" || t[0] == '=' then [] else
      var rest := BufferDigits(t[1..]);
      match (Digit(t[0], '+', '/'), Digit(t[0], '-', '_'))
      case (Some(d), _) => [d] + rest
      case (None, Some(d)) => [d] + rest
      case _ => rest
  }

  // ------------------------------------------------------------------
  // Round trips and agreement
  // ------------------------------------------------------------------

  predicate UrlChar(c: char) {
    'A' <= c <= 'Z' || 'a' <= c <= 'z' || '0' <= c <= '9' || c == '-' || c == '_'
  }

  lemma {:induction false} StripRepeat(t: string, n: nat)
    requires t == "" || t[|t| - 1] != '='
    ensures StripPadding(t + Repeat(n, '=')) == t
  {
    if n == 0 {
      assert t + Repeat(n, '=') == t;
    } else {
      assert (t + Repeat(n, '='))[..|t| + n - 1] == t + Repeat(n - 1, '=');
      StripRepeat(t, n - 1);
    }
  }

  /** Both ecosystems write the same text, over an alphabet free of ':' and '=', never 1 mod 4 long. */
  lemma ToBase64UrlIsNoPad(b: Bytes)
    ensures ToBase64Url(b) == EncodeNoPad(b)
    ensures forall c <- EncodeNoPad(b) :: UrlChar(c)
    ensures |EncodeNoPad(b)| == SextetCount(|b|) && |EncodeNoPad(b)| % 4 != 1
  {
    PaddedLength(|b|);
    var n := PadCount(|b|);
    assert ReplaceAll(ReplaceAll(ToBase64(b), '+', '-'), '/', '_') == EncodeNoPad(b) + Repeat(n, '=');
    StripRepeat(EncodeNoPad(b), n);
  }

  /** Stripping the padding and re-adding it by length restores the padded text exactly. */
  lemma RepadRestores(b: Bytes)
    ensures Repad(ToBase64Url(b)) == ToBase64(b)
  {
    ToBase64UrlIsNoPad(b);
    var b64 := ReplaceAll(ReplaceAll(EncodeNoPad(b), '-', '+'), '_', '/');
    assert b64 == Write(Sextets(b), '+', '/');
    PaddedLength(|b|);
  }

  /** The padded decoder inverts the padded encoder. */
  lemma FromToBase64(b: Bytes)
    ensures FromBase64(ToBase64(b)) == Some(b)
  {
    UnpadBase64(b);
    ReadWrite(Sextets(b), '+', '/');
    OctetsOfSextets(b);
  }

  lemma UnpadBase64(b: Bytes)
    ensures |ToBase64(b)| % 4 == 0 && Unpad(ToBase64(b)) == Write(Sextets(b), '+', '/')
  {
    PaddedLength(|b|);
    LastGlyph(Sextets(b));
    UnpadRestores(Write(Sextets(b), '+', '/'), PadCount(|b|));
  }

  lemma PaddedLength(n: nat)
    ensures (SextetCount(n) + PadCount(n)) % 4 == 0
    ensures SextetCount(n) % 4 != 1 && (SextetCount(n) == 0 ==> PadCount(n) == 0)
    ensures (4 - SextetCount(n) % 4) % 4 == PadCount(n) <= 2
  {
    var groups := n / 3;
    WholeGroups(groups, 0);
    WholeGroups(groups, 2);
    WholeGroups(groups, 3);
    WholeGroups(groups + 1, 0);
    if n % 3 == 0 {
      assert SextetCount(n) == groups * 4 && PadCount(n) == 0;
    } else if n % 3 == 1 {
      assert SextetCount(n) == groups * 4 + 2 && PadCount(n) == 2;
    } else {
      assert SextetCount(n) == groups * 4 + 3 && PadCount(n) == 1;
    }
  }

  lemma WholeGroups(groups: nat, rest: nat)
    requires rest < 4
    ensures (groups * 4 + rest) % 4 == rest
  {
  }

  lemma LastGlyph(s: seq<sextet>)
    ensures s != [] ==> Write(s, '+', '/')[|s| - 1] != '='
  {
  }

  lemma UnpadRestores(body: string, n: nat)
    requires n <= 2 && |body| + n != 1
    requires body == "" ==> n == 0
    requires body != "" ==> body[|body| - 1] != '='
    ensures Unpad(body + Repeat(n, '=')) == body
  {
    var t := body + Repeat(n, '=');
    assert t[..|t| - n] == body;
  }

  /** Either decoder recovers every byte string from either encoder's text. */
  lemma RoundTrip(b: Bytes)
    ensures FromBase64Url(ToBase64Url(b)) == Some(b)
    ensures DecodeNoPad(EncodeNoPad(b)) == Some(b)
    ensures FromBase64Url(EncodeNoPad(b)) == Some(b)
    ensures DecodeNoPad(ToBase64Url(b)) == Some(b)
  {
    RepadRestores(b);
    FromToBase64(b);
    ToBase64UrlIsNoPad(b);
    OctetsOfSextets(b);
    ReadWrite(Sextets(b), '-', '_');
  }

  lemma {:induction false} BufferDigitsOfText(s: seq<sextet>)
    ensures BufferDigits(Write(s, '-', '_')) == s
  {
    if s != [] {
      BufferDigitsOfText(s[1..]);
      DigitGlyph(s[0], '-', '_');
      assert Write(s, '-', '_')[1..] == Write(s[1..], '-', '_');
      assert s == [s[0]] + s[1..];
    }
  }

  /** Node's tolerant decoder recovers every byte string as well. */
  lemma BufferRoundTrip(b: Bytes)
    ensures BufferDecode(ToBase64Url(b)) == b
  {
    ToBase64UrlIsNoPad(b);
    BufferDigitsOfText(Sextets(b));
    OctetsOfSextets(b);
  }

  /** Node's decoder reads past characters of neither alphabet, and stops at the first '='. */
  lemma {:induction false} BufferSkips(front: string, c: char, rest: string)
    ensures !EitherChar(c) && c != '=' ==> BufferDecode(front + [c] + rest) == BufferDecode(front + rest)
    ensures BufferDecode(front + "=" + rest) == BufferDecode(front)
  {
    BufferDigitsSkip(front, c, rest);
  }

  lemma {:induction false} BufferDigitsSkip(front: string, c: char, rest: string)
    ensures !EitherChar(c) && c != '=' ==> BufferDigits(front + [c] + rest) == BufferDigits(front + rest)
    ensures BufferDigits(front + "=" + rest) == BufferDigits(front)
  {
    if front == "" {
      assert (front + [c] + rest)[1..] == rest;
      assert front + rest == rest;
    } else {
      BufferDigitsSkip(front[1..], c, rest);
      assert (front + [c] + rest)[1..] == front[1..] + [c] + rest;
      assert (front + "=" + rest)[1..] == front[1..] + "=" + rest;
      assert (front + rest)[1..] == front[1..] + rest;
    }
  }

  /** The daemon's decoder accepts exactly the encoder's outputs. */
  lemma DecodeNoPadExact(t: string, b: Bytes)
    ensures DecodeNoPad(t) == Some(b) <==> t == EncodeNoPad(b)
  {
    RoundTrip(b);
    if DecodeNoPad(t) == Some(b) {
      WriteRead(t, '-', '_');
    }
  }

  lemma {:induction false} WriteRead(t: string, c62: char, c63: char)
    requires Read(t, c62, c63).Some?
    ensures Write(Read(t, c62, c63).value, c62, c63) == t
  {
    if t != "" {
      WriteRead(t[1..], c62, c63);
      var s := Read(t, c62, c63).value;
      assert s[1..] == Read(t[1..], c62, c63).value;
      assert Write(s, c62, c63) == [t[0]] + Write(s[1..], c62, c63);
    }
  }

  /** What the daemon decodes, the crypto package decodes alike. */
  lemma DecodersAgree(t: string)
    requires DecodeNoPad(t).Some?
    ensures FromBase64Url(t) == DecodeNoPad(t)
  {
    var b := DecodeNoPad(t).value;
    DecodeNoPadExact(t, b);
    RoundTrip(b);
  }

  lemma {:induction false} ReadExactly(t: string, c62: char, c63: char)
    ensures Read(t, c62, c63).Some? <==> forall i :: 0 <= i < |t| ==> Digit(t[i], c62, c63).Some?
  {
    if t != "" {
      ReadExactly(t[1..], c62, c63);
      assert t == [t[0]] + t[1..];
    }
  }

  /** A character of either alphabet. */
  predicate EitherChar(c: char) {
    'A' <= c <= 'Z' || 'a' <= c <= 'z' || '0' <= c <= '9' || c == '-' || c == '_' || c == '+' || c == '/'
  }

  lemma ReadsEither(t: string, b64: string)
    requires b64 == ReplaceAll(ReplaceAll(t, '-', '+'), '_', '/')
    ensures Read(b64, '+', '/').Some? <==> forall c <- t :: EitherChar(c)
  {
    ReadExactly(b64, '+', '/');
    assert forall i :: 0 <= i < |t| ==> (Digit(b64[i], '+', '/').Some? <==> EitherChar(t[i]));
    if Read(b64, '+', '/').Some? {
      forall c | c in t
        ensures EitherChar(c)
      {
        var i :| 0 <= i < |t| && t[i] == c;
        assert Digit(b64[i], '+', '/').Some?;
      }
    } else {
      var i :| 0 <= i < |b64| && Digit(b64[i], '+', '/').None?;
      assert t[i] in t;
    }
  }

  lemma PadIsRead(u: string, i: nat)
    requires i < |u| && u[i] == '='
    ensures Read(u, '+', '/').None?
  {
    ReadExactly(u, '+', '/');
    assert Digit(u[i], '+', '/').None?;
  }

  lemma FromBase64Reads(t: string, b64: string)
    requires |t| % 4 == 0 && Unpad(t) == b64
    ensures FromBase64(t).Some? <==> Read(b64, '+', '/').Some?
  {
  }

  lemma PaddedAccepts(t: string, b64: string, n: nat)
    requires b64 == ReplaceAll(ReplaceAll(t, '-', '+'), '_', '/') && '=' !in t
    requires n <= 2 && (|b64| + n) % 4 == 0 && (b64 == "" ==> n == 0)
    ensures FromBase64(b64 + Repeat(n, '=')).Some? <==> forall c <- t :: EitherChar(c)
  {
    NoPadInside(t, b64);
    UnpadRestores(b64, n);
    FromBase64Reads(b64 + Repeat(n, '='), b64);
    ReadsEither(t, b64);
  }

  lemma OverpaddedIsRefused(b64: string)
    ensures FromBase64(b64 + Repeat(3, '=')).None?
  {
    var u := Unpad(b64 + Repeat(3, '='));
    PadIsRead(u, |b64|);
  }

  /** Unpadded text is accepted exactly when its length is not 1 modulo 4 and its characters are of either alphabet. */
  lemma FromBase64UrlAccepts(t: string)
    requires '=' !in t
    ensures FromBase64Url(t).Some? <==> |t| % 4 != 1 && forall c <- t :: EitherChar(c)
  {
    var b64 := ReplaceAll(ReplaceAll(t, '-', '+'), '_', '/');
    var n := (4 - |t| % 4) % 4;
    RepadLength(|t|);
    if n <= 2 {
      PaddedAccepts(t, b64, n);
    } else {
      OverpaddedIsRefused(b64);
    }
  }

  lemma RepadLength(n: nat)
    ensures (n + (4 - n % 4) % 4) % 4 == 0
    ensures (4 - n % 4) % 4 == 3 <==> n % 4 == 1
    ensures n == 0 ==> (4 - n % 4) % 4 == 0
    ensures n + (4 - n % 4) % 4 != 1
  {
  }

  lemma NoPadInside(t: string, b64: string)
    requires '=' !in t && b64 == ReplaceAll(ReplaceAll(t, '-', '+'), '_', '/')
    ensures forall i :: 0 <= i < |b64| ==> b64[i] != '='
  {
    assert forall i :: 0 <= i < |t| ==> t[i] in t;
  }

  /** The crypto package's decoder as written: a byte array filled through an index loop. */
  method FromBase64UrlLoop(text: string) returns (out: Option<array<byte>>)
    ensures out.Some? <==> FromBase64Url(text).Some?
    ensures out.Some? ==> fresh(out.value) && out.value[..] == FromBase64Url(text).value
  {
    var decoded := FromBase64(Repad(text));
    if decoded.None? {
      return None;
    }
    var filled := CopyOctets(decoded.value);
    return Some(filled);
  }

  method CopyOctets(bin: Bytes) returns (out: array<byte>)
    ensures fresh(out) && out[..] == bin
  {
    out := new byte[|bin|];
    for i := 0 to |bin|
      invariant out[..i] == bin[..i]
    {
      out[i] := bin[i];
    }
  }
}
