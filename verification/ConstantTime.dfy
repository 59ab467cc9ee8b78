/**
 * The bridge's constant-time comparison. The length difference enters the
 * accumulator through a cast to eight bits, so the loop decides equality only
 * for some pairs of lengths; this module says exactly which.
 */
module ConstantTime {
  import opened Common
  import opened Radix

  /** What position `i` contributes: zero past the end. */
  function At(s: Octets, i: nat): bv8 {
    if i < |s| then s[i] else 0
  }

  function MaxLength(a: Octets, b: Octets): nat {
    if |a| < |b| then |b| else |a|
  }

  /** The verdict of the loop: equal zero-padded octets and lengths equal modulo 256. */
  predicate Matches(a: Octets, b: Octets) {
    |a| % 256 == |b| % 256 && AgreeUpTo(a, b, MaxLength(a, b))
  }

  predicate AgreeUpTo(a: Octets, b: Octets, n: nat) {
    forall i :: 0 <= i < n ==> At(a, i) == At(b, i)
  }

  // ------------------------------------------------------------------
  // The lengths
  // ------------------------------------------------------------------

  /** Exclusive or of two natural numbers, bit by bit. */
  function Xor(m: nat, n: nat): nat
    decreases m + n
  {
    if m == 0 && n == 0 then 0 else 2 * Xor(m / 2, n / 2) + if m % 2 == n % 2 then 0 else 1
  }

  function Pack(b0: bool, b1: bool, b2: bool, b3: bool, b4: bool, b5: bool, b6: bool, b7: bool): bv8 {
    (if b0 then 1 else 0) | (if b1 then 2 else 0) | (if b2 then 4 else 0) | (if b3 then 8 else 0)
    | (if b4 then 16 else 0) | (if b5 then 32 else 0) | (if b6 then 64 else 0) | (if b7 then 128 else 0)
  }

  lemma PackZero(b0: bool, b1: bool, b2: bool, b3: bool, b4: bool, b5: bool, b6: bool, b7: bool)
    ensures Pack(b0, b1, b2, b3, b4, b5, b6, b7) == 0
            <==> !b0 && !b1 && !b2 && !b3 && !b4 && !b5 && !b6 && !b7
  {
  }

  function Half(n: nat, times: nat): nat {
    if times == 0 then n else Half(n / 2, times - 1)
  }

  predicate Bit(n: nat, i: nat) {
    Half(n, i) % 2 == 1
  }

  /** A cast to eight bits: the low octet, bit by bit. */
  function Cast(n: nat): bv8 {
    Pack(Bit(n, 0), Bit(n, 1), Bit(n, 2), Bit(n, 3), Bit(n, 4), Bit(n, 5), Bit(n, 6), Bit(n, 7))
  }

  function Power2(k: nat): (p: nat)
    ensures p > 0
  {
    if k == 0 then 1 else 2 * Power2(k - 1)
  }

  ghost predicate SameBits(m: nat, n: nat, k: nat) {
    forall i: nat :: i < k ==> Bit(m, i) == Bit(n, i)
  }

  lemma SameBitsStep(m: nat, n: nat, k: nat)
    ensures SameBits(m, n, k + 1) <==> m % 2 == n % 2 && SameBits(m / 2, n / 2, k)
  {
    assert Bit(m, 0) == (m % 2 == 1) && Bit(n, 0) == (n % 2 == 1);
    assert forall i: nat :: Bit(m / 2, i) == Bit(m, i + 1) && Bit(n / 2, i) == Bit(n, i + 1);
    if m % 2 == n % 2 && SameBits(m / 2, n / 2, k) {
      forall i: nat | i < k + 1
        ensures Bit(m, i) == Bit(n, i)
      {
        if i > 0 {
          assert Bit(m / 2, i - 1) == Bit(n / 2, i - 1);
        }
      }
    }
  }

  lemma ModDouble(m: nat, p: nat)
    requires p > 0
    ensures m % (2 * p) == 2 * (m / 2 % p) + m % 2
  {
    var q, r := m / 2 / p, m / 2 % p;
    assert m / 2 == q * p + r;
    assert m == q * (2 * p) + (2 * r + m % 2);
    DivModUnique(2 * p, q, 2 * r + m % 2);
  }

  /** The low k bits agree exactly when the numbers agree modulo 2^k. */
  lemma {:induction false} SameBitsMod(m: nat, n: nat, k: nat)
    ensures SameBits(m, n, k) <==> m % Power2(k) == n % Power2(k)
    decreases k
  {
    if k > 0 {
      SameBitsStep(m, n, k - 1);
      SameBitsMod(m / 2, n / 2, k - 1);
      ModDouble(m, Power2(k - 1));
      ModDouble(n, Power2(k - 1));
    }
  }

  /** Bit i of the exclusive or is set exactly when one of the two bits i is. */
  lemma {:induction false} XorBit(m: nat, n: nat, i: nat)
    ensures Bit(Xor(m, n), i) <==> Bit(m, i) != Bit(n, i)
    decreases i
  {
    XorHalf(m, n);
    if i > 0 {
      XorBit(m / 2, n / 2, i - 1);
      assert Bit(m, i) == Bit(m / 2, i - 1) && Bit(n, i) == Bit(n / 2, i - 1);
      assert Bit(Xor(m, n), i) == Bit(Xor(m / 2, n / 2), i - 1);
    }
  }

  lemma XorLowBits(m: nat, n: nat, k: nat)
    ensures SameBits(Xor(m, n), 0, k) <==> SameBits(m, n, k)
  {
    forall i: nat
      ensures Bit(Xor(m, n), i) == Bit(0, i) <==> Bit(m, i) == Bit(n, i)
    {
      XorBit(m, n, i);
      ZeroBits(i);
    }
  }

  lemma XorHalf(m: nat, n: nat)
    ensures Xor(m, n) / 2 == Xor(m / 2, n / 2)
    ensures Xor(m, n) % 2 == 0 <==> m % 2 == n % 2
  {
  }

  lemma CastZero(n: nat)
    ensures Cast(n) == 0 <==> SameBits(n, 0, 8)
  {
    PackZero(Bit(n, 0), Bit(n, 1), Bit(n, 2), Bit(n, 3), Bit(n, 4), Bit(n, 5), Bit(n, 6), Bit(n, 7));
    forall i: nat
      ensures !Bit(0, i)
    {
      ZeroBits(i);
    }
  }

  lemma {:induction false} ZeroBits(i: nat)
    ensures Half(0, i) == 0
  {
    if i > 0 {
      ZeroBits(i - 1);
    }
  }

  /** The accumulator's first value: the exclusive or of the lengths, cast to eight bits. */
  function LengthDiff(la: nat, lb: nat): bv8 {
    Cast(Xor(la, lb))
  }

  /** The cast forgets all but the length difference modulo 256. */
  lemma LengthDiffZero(la: nat, lb: nat)
    ensures LengthDiff(la, lb) == 0 <==> la % 256 == lb % 256
  {
    CastZero(Xor(la, lb));
    XorLowBits(la, lb, 8);
    SameBitsMod(la, lb, 8);
    assert Power2(8) == 2 * 2 * 2 * 2 * 2 * 2 * 2 * 2 * Power2(0) by {
      assert Power2(4) == 16 * Power2(0);
    }
  }

  // ------------------------------------------------------------------
  // The comparison
  // ------------------------------------------------------------------

  method ConstantTimeEq(a: Octets, b: Octets) returns (eq: bool)
    ensures eq == Matches(a, b)
  {
    var n := MaxLength(a, b);
    var diff := LengthDiff(|a|, |b|);
    LengthDiffZero(|a|, |b|);
    for i := 0 to n
      invariant diff == 0 <==> LengthDiff(|a|, |b|) == 0 && AgreeUpTo(a, b, i)
    {
      var x := if i < |a| then a[i] else 0;
      var y := if i < |b| then b[i] else 0;
      assert x == At(a, i) && y == At(b, i);
      assert AgreeUpTo(a, b, i + 1) <==> AgreeUpTo(a, b, i) && x == y;
      XorZero(x, y);
      OrZero(diff, x ^ y);
      diff := diff | (x ^ y);
    }
    return diff == 0;
  }

  lemma XorZero(x: bv8, y: bv8)
    ensures x ^ y == 0 <==> x == y
  {
  }

  lemma OrZero(x: bv8, y: bv8)
    ensures x | y == 0 <==> x == 0 && y == 0
  {
  }

  function Zeros(n: nat): Octets {
    seq(n, _ => 0)
  }

  /**
   * For a pair of lengths, the verdict is equality on all strings of those
   * lengths iff the lengths agree or differ modulo 256.
   */
  lemma DecidesEqualityIff(la: nat, lb: nat)
    ensures (forall a: Octets, b: Octets :: |a| == la && |b| == lb ==> (Matches(a, b) <==> a == b))
            <==> (la == lb || la % 256 != lb % 256)
  {
    if la == lb || la % 256 != lb % 256 {
      forall a: Octets, b: Octets | |a| == la && |b| == lb
        ensures Matches(a, b) <==> a == b
      {
        if Matches(a, b) {
          SameLengthMatches(a, b);
        }
      }
    } else {
      var a, b := Zeros(la), Zeros(lb);
      assert Matches(a, b) && a != b;
    }
  }

  lemma SameLengthMatches(a: Octets, b: Octets)
    requires Matches(a, b) && |a| == |b|
    ensures a == b
  {
    forall i | 0 <= i < |a|
      ensures a[i] == b[i]
    {
      assert At(a, i) == At(b, i);
    }
  }

  /** Strings without zero octets, as HTTP header values and printed codes are, compare exactly. */
  lemma ZeroFreeDecides(a: Octets, b: Octets)
    requires 0 !in a && 0 !in b
    ensures Matches(a, b) <==> a == b
  {
    if |a| != |b| {
      var i := if |a| < |b| then |a| else |b|;
      assert At(a, i) != At(b, i);
    } else if Matches(a, b) {
      SameLengthMatches(a, b);
    }
  }

  /** Both strings shorter than 256 octets: the comparison is equality. */
  lemma ShortDecides(a: Octets, b: Octets)
    requires |a| < 256 && |b| < 256
    ensures Matches(a, b) <==> a == b
  {
    if Matches(a, b) {
      SameLengthMatches(a, b);
    }
  }
}
