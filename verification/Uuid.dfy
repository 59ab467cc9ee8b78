/** UUIDv7 text (section 5.7 of RFC 9562): the SDK's generator and the gateway's shape check. */
module Uuid {
  import opened Common
  import opened Radix

  function HexChar(d: nat): char
    requires d < 16
  {
    if d < 10 then '0' + d as char else 'a' + (d - 10) as char
  }

  predicate IsHexDigit(c: char) {
    '0' <= c <= '9' || 'a' <= c <= 'f' || 'A' <= c <= 'F'
  }

  /** Two hex characters an octet. */
  function Hex(b: Bytes): (s: string)
    ensures |s| == 2 * |b|
    ensures forall i :: 0 <= i < |b| ==> s[2 * i] == HexChar(b[i] / 16) && s[2 * i + 1] == HexChar(b[i] % 16)
  {
    if b == [] then "" else
      var n := |b| - 1;
      Hex(b[..n]) + [HexChar(b[n] / 16), HexChar(b[n] % 16)]
  }

  function Dashed(hex: string): string
    requires |hex| == 32
  {
    hex[..8] + "-" + hex[8..12] + "-" + hex[12..16] + "-" + hex[16..20] + "-" + hex[20..]
  }

  /** The layout: 48 bits of milliseconds, then the random octets under the version and variant bits. */
  function Layout(ms: nat, rand: Bytes): (b: Bytes)
    requires |rand| == 10
    ensures |b| == 16
  {
    [ms / 0x100_0000_0000 % 256, ms / 0x1_0000_0000 % 256, ms / 0x100_0000 % 256,
     ms / 0x1_0000 % 256, ms / 0x100 % 256, ms % 256]
    + [rand[0] % 16 + 0x70, rand[1], rand[2] % 64 + 0x80] + rand[3..]
  }

  function Uuidv7(ms: nat, rand: Bytes): string
    requires |rand| == 10
  {
    Dashed(Hex(Layout(ms, rand)))
  }

  /** The generator as written: a byte array filled, overlaid and printed. */
  method GenerateUuidv7(ms: nat, rand: Bytes) returns (text: string)
    requires |rand| == 10
    ensures text == Uuidv7(ms, rand)
  {
    var bytes := new byte[16];
    bytes[0] := ms / 0x100_0000_0000 % 256;
    bytes[1] := ms / 0x1_0000_0000 % 256;
    bytes[2] := ms / 0x100_0000 % 256;
    bytes[3] := ms / 0x1_0000 % 256;
    bytes[4] := ms / 0x100 % 256;
    bytes[5] := ms % 256;
    for i := 0 to 10
      invariant bytes[..6] == Layout(ms, rand)[..6]
      invariant bytes[6..6 + i] == rand[..i]
    {
      bytes[6 + i] := rand[i];
    }
    assert bytes[6..16] == rand[..10] == rand;
    assert forall i :: 6 <= i < 16 ==> bytes[i] == bytes[6..16][i - 6];
    bytes[6] := bytes[6] % 16 + 0x70;
    bytes[8] := bytes[8] % 64 + 0x80;
    assert bytes[..] == Layout(ms, rand);
    text := Dashed(Hex(bytes[..]));
  }

  /** The gateway's `is_uuid`. */
  predicate IsUuid(s: string) {
    |s| == 36 && forall i :: 0 <= i < 36 ==>
      if i == 8 || i == 13 || i == 18 || i == 23 then s[i] == '-' else IsHexDigit(s[i])
  }

  /** Where the k-th hex digit lands in the dashed text. */
  function Position(k: nat): nat {
    if k < 8 then k else if k < 12 then k + 1 else if k < 16 then k + 2 else if k < 20 then k + 3 else k + 4
  }

  lemma DashedAt(hex: string, k: nat)
    requires |hex| == 32 && k < 32
    ensures Dashed(hex)[Position(k)] == hex[k]
  {
  }

  lemma HexDigits(b: Bytes)
    ensures forall i :: 0 <= i < |Hex(b)| ==> IsHexDigit(Hex(b)[i])
  {
    forall i | 0 <= i < |Hex(b)|
      ensures IsHexDigit(Hex(b)[i])
    {
      assert i == 2 * (i / 2) || i == 2 * (i / 2) + 1;
    }
  }

  /** Every generated text passes the gateway's check and carries version 7 and the 10xx variant. */
  lemma GeneratedShape(ms: nat, rand: Bytes)
    requires |rand| == 10
    ensures var u := Uuidv7(ms, rand);
            && IsUuid(u)
            && u[14] == '7'
            && (u[19] == '8' || u[19] == '9' || u[19] == 'a' || u[19] == 'b')
  {
    var b := Layout(ms, rand);
    var hex := Hex(b);
    HexDigits(b);
    DashedAt(hex, 12);
    DashedAt(hex, 16);
    assert hex[12] == hex[2 * 6] && hex[16] == hex[2 * 8];
  }

  /** The hex digits of a dashed text. */
  function Undashed(s: string): (hex: string)
    requires |s| == 36
    ensures |hex| == 32
  {
    s[..8] + s[9..13] + s[14..18] + s[19..23] + s[24..]
  }

  lemma DashedDigits(hex: string)
    requires |hex| == 32 && forall k :: 0 <= k < 32 ==> IsHexDigit(hex[k])
    ensures IsUuid(Dashed(hex))
  {
  }

  lemma UndashedAt(s: string, k: nat)
    requires |s| == 36 && k < 32
    ensures Undashed(s)[k] == s[Position(k)]
  {
  }

  lemma DashesAt(hex: string)
    requires |hex| == 32
    ensures var s := Dashed(hex); |s| == 36 && s[8] == s[13] == s[18] == s[23] == '-'
  {
  }

  lemma UndashedDigits(s: string)
    requires IsUuid(s)
    ensures Dashed(Undashed(s)) == s
    ensures forall k :: 0 <= k < 32 ==> IsHexDigit(Undashed(s)[k])
  {
    var hex := Undashed(s);
    forall k | 0 <= k < 32
      ensures IsHexDigit(hex[k])
    {
      UndashedAt(s, k);
    }
    DashesAt(hex);
    forall q | 0 <= q < 36
      ensures Dashed(hex)[q] == s[q]
    {
      if q != 8 && q != 13 && q != 18 && q != 23 {
        var k := if q < 8 then q else if q < 13 then q - 1 else if q < 18 then q - 2
                 else if q < 23 then q - 3 else q - 4;
        DashedAt(hex, k);
        UndashedAt(s, k);
      }
    }
  }

  /** The gateway takes exactly the texts of thirty-two hex digits, in either case, dashed as a UUID is. */
  lemma IsUuidExactly(s: string)
    ensures IsUuid(s) <==>
            exists hex :: |hex| == 32 && (forall k :: 0 <= k < 32 ==> IsHexDigit(hex[k])) && s == Dashed(hex)
  {
    if IsUuid(s) {
      UndashedDigits(s);
    }
    if hex :| |hex| == 32 && (forall k :: 0 <= k < 32 ==> IsHexDigit(hex[k])) && s == Dashed(hex) {
      DashedDigits(hex);
    }
  }

  // ------------------------------------------------------------------
  // Order
  // ------------------------------------------------------------------

  ghost predicate LexLess(a: string, b: string) {
    exists k :: 0 <= k < |a| && k < |b| && a[..k] == b[..k] && a[k] < b[k]
  }

  /** The first octet in which two timestamps differ orders them. */
  lemma FirstDifference(a: nat, b: nat, ra: Bytes, rb: Bytes) returns (i: nat)
    requires a < b < 0x1_0000_0000_0000 && |ra| == 10 && |rb| == 10
    ensures i < 6 && Layout(a, ra)[..i] == Layout(b, rb)[..i] && Layout(a, ra)[i] < Layout(b, rb)[i]
  {
    var x, y := Layout(a, ra), Layout(b, rb);
    TimestampValue(a, ra);
    TimestampValue(b, rb);
    i := if x[0] != y[0] then 0 else if x[1] != y[1] then 1 else if x[2] != y[2] then 2
         else if x[3] != y[3] then 3 else if x[4] != y[4] then 4 else 5;
  }

  lemma TimestampValue(ms: nat, rand: Bytes)
    requires ms < 0x1_0000_0000_0000 && |rand| == 10
    ensures var b := Layout(ms, rand);
            ms == b[0] as int * 0x100_0000_0000 + b[1] as int * 0x1_0000_0000 + b[2] as int * 0x100_0000
                  + b[3] as int * 0x1_0000 + b[4] as int * 0x100 + b[5]
  {
    var t1 := ms / 0x100;
    var t2 := t1 / 0x100;
    var t3 := t2 / 0x100;
    var t4 := t3 / 0x100;
    assert ms / 0x1_0000 == t2 && ms / 0x100_0000 == t3 && ms / 0x1_0000_0000 == t4;
    assert ms / 0x100_0000_0000 == t4 / 0x100;
  }

  lemma HexAt(b: Bytes, j: nat)
    requires j < 2 * |b|
    ensures Hex(b)[j] == if j % 2 == 0 then HexChar(b[j / 2] / 16) else HexChar(b[j / 2] % 16)
  {
    assert j == 2 * (j / 2) || j == 2 * (j / 2) + 1;
  }

  lemma OctetOrder(x: byte, y: byte)
    requires x < y
    ensures if x / 16 == y / 16 then HexChar(x % 16) < HexChar(y % 16) else HexChar(x / 16) < HexChar(y / 16)
  {
  }

  lemma HexSamePrefix(a: Bytes, b: Bytes, i: nat)
    requires i <= |a| && i <= |b| && a[..i] == b[..i]
    ensures Hex(a)[..2 * i] == Hex(b)[..2 * i]
  {
    forall j | 0 <= j < 2 * i
      ensures Hex(a)[j] == Hex(b)[j]
    {
      HexAt(a, j);
      HexAt(b, j);
      assert a[..i][j / 2] == b[..i][j / 2];
    }
  }

  /** The hex texts of two octet strings first differ within their first differing octet, in the same direction. */
  lemma HexPrefix(a: Bytes, b: Bytes, i: nat) returns (k: nat)
    requires i < |a| && i < |b| && a[..i] == b[..i] && a[i] < b[i]
    ensures 2 * i <= k <= 2 * i + 1
    ensures Hex(a)[..k] == Hex(b)[..k] && Hex(a)[k] < Hex(b)[k]
  {
    HexSamePrefix(a, b, i);
    OctetOrder(a[i], b[i]);
    k := if a[i] / 16 == b[i] / 16 then 2 * i + 1 else 2 * i;
    var ha, hb := Hex(a), Hex(b);
    assert ha[2 * i] == HexChar(a[i] / 16) && ha[2 * i + 1] == HexChar(a[i] % 16);
    assert hb[2 * i] == HexChar(b[i] / 16) && hb[2 * i + 1] == HexChar(b[i] % 16);
    assert ha[..2 * i + 1] == ha[..2 * i] + [ha[2 * i]];
    assert hb[..2 * i + 1] == hb[..2 * i] + [hb[2 * i]];
  }

  /** Later timestamps give lexicographically larger texts, whatever the random octets. */
  lemma OrderPreserved(a: nat, b: nat, ra: Bytes, rb: Bytes)
    requires a < b < 0x1_0000_0000_0000 && |ra| == 10 && |rb| == 10
    ensures LexLess(Uuidv7(a, ra), Uuidv7(b, rb))
  {
    var x, y := Layout(a, ra), Layout(b, rb);
    var i := FirstDifference(a, b, ra, rb);
    var k := HexPrefix(x, y, i);
    DashedPrefix(Hex(x), Hex(y), k);
  }

  lemma DashedPrefix(a: string, b: string, k: nat)
    requires |a| == |b| == 32 && k < 12 && a[..k] == b[..k] && a[k] < b[k]
    ensures LexLess(Dashed(a), Dashed(b))
  {
    var p := Position(k);
    DashedAt(a, k);
    DashedAt(b, k);
    forall q | 0 <= q < p
      ensures Dashed(a)[q] == Dashed(b)[q]
    {
      if q != 8 {
        var j := if q < 8 then q else q - 1;
        DashedAt(a, j);
        DashedAt(b, j);
        assert a[..k][j] == b[..k][j];
      }
    }
    assert Dashed(a)[..p] == Dashed(b)[..p];
  }

  // ------------------------------------------------------------------
  // What the text keeps
  // ------------------------------------------------------------------

  lemma HexCharInjective(d: nat, e: nat)
    requires d < 16 && e < 16 && HexChar(d) == HexChar(e)
    ensures d == e
  {
  }

  lemma OctetFromDigits(x: byte, y: byte)
    requires HexChar(x / 16) == HexChar(y / 16) && HexChar(x % 16) == HexChar(y % 16)
    ensures x == y
  {
    HexCharInjective(x / 16, y / 16);
    HexCharInjective(x % 16, y % 16);
  }

  lemma HexInjective(a: Bytes, b: Bytes)
    requires |a| == |b| && Hex(a) == Hex(b)
    ensures a == b
  {
    forall i | 0 <= i < |a|
      ensures a[i] == b[i]
    {
      assert Hex(a)[2 * i] == Hex(b)[2 * i] && Hex(a)[2 * i + 1] == Hex(b)[2 * i + 1];
      OctetFromDigits(a[i], b[i]);
    }
  }

  lemma DashedInjective(a: string, b: string)
    requires |a| == |b| == 32 && Dashed(a) == Dashed(b)
    ensures a == b
  {
    forall k | 0 <= k < 32
      ensures a[k] == b[k]
    {
      DashedAt(a, k);
      DashedAt(b, k);
    }
  }

  /** The octets under the masks. */
  lemma LayoutInjective(a: nat, b: nat, ra: Bytes, rb: Bytes)
    requires a < 0x1_0000_0000_0000 && b < 0x1_0000_0000_0000 && |ra| == 10 && |rb| == 10
    requires Layout(a, ra) == Layout(b, rb)
    ensures a == b
    ensures ra[0] % 16 == rb[0] % 16 && ra[1] == rb[1] && ra[2] % 64 == rb[2] % 64 && ra[3..] == rb[3..]
  {
    var x, y := Layout(a, ra), Layout(b, rb);
    TimestampValue(a, ra);
    TimestampValue(b, rb);
    assert x[6] == y[6] && x[7] == y[7] && x[8] == y[8];
    assert x[9..] == ra[3..] && y[9..] == rb[3..];
  }

  /**
   * Equal texts come from equal timestamps and from random octets equal up to
   * the six bits the version and variant replace.
   */
  lemma Determined(a: nat, b: nat, ra: Bytes, rb: Bytes)
    requires a < 0x1_0000_0000_0000 && b < 0x1_0000_0000_0000 && |ra| == 10 && |rb| == 10
    requires Uuidv7(a, ra) == Uuidv7(b, rb)
    ensures a == b
    ensures ra[0] % 16 == rb[0] % 16 && ra[1] == rb[1] && ra[2] % 64 == rb[2] % 64 && ra[3..] == rb[3..]
  {
    DashedInjective(Hex(Layout(a, ra)), Hex(Layout(b, rb)));
    HexInjective(Layout(a, ra), Layout(b, rb));
    LayoutInjective(a, b, ra, rb);
  }
}
