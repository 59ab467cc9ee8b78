/** Positional numerals, most significant digit first, in any base above one. */
module Radix {
  import opened Common

  predicate Digits(base: nat, ds: seq<nat>) {
    forall i :: 0 <= i < |ds| ==> ds[i] < base
  }

  function Num(base: nat, ds: seq<nat>): nat {
    if |ds| == 0 then 0 else Num(base, ds[..|ds| - 1]) * base + ds[|ds| - 1]
  }

  /** The canonical numeral: no leading zero, and nothing at all for zero. */
  function Rep(base: nat, n: nat): (ds: seq<nat>)
    requires base > 1
    ensures Digits(base, ds)
    ensures ds == [] <==> n == 0
    ensures ds != [] ==> ds[0] != 0
    decreases n
  {
    if n == 0 then [] else
      DivShrinks(base, n);
      Rep(base, n / base) + [n % base]
  }

  function LeadingZeros(ds: seq<nat>): (k: nat)
    ensures k <= |ds|
    ensures forall i :: 0 <= i < k ==> ds[i] == 0
    ensures k < |ds| ==> ds[k] != 0
  {
    if ds == [] || ds[0] != 0 then 0 else 1 + LeadingZeros(ds[1..])
  }

  lemma DivShrinks(base: nat, n: nat)
    requires base > 1 && n > 0
    ensures 0 <= n / base < n
    ensures n == (n / base) * base + n % base
  {
    var q, r := n / base, n % base;
    if q < 0 {
      MulMono(q, -1, base);
    } else {
      MulMono(2, base, q);
    }
  }

  lemma DivModUnique(base: nat, q: nat, r: nat)
    requires r < base
    ensures (q * base + r) / base == q
    ensures (q * base + r) % base == r
  {
    var n := q * base + r;
    var q', r' := n / base, n % base;
    assert q' * base + r' == q * base + r;
    if q' < q {
      assert (q - q') * base >= base by { MulMono(1, q - q', base); }
    } else if q < q' {
      assert (q' - q) * base >= base by { MulMono(1, q' - q, base); }
    }
  }

  lemma MulMono(a: int, b: int, c: nat)
    requires a <= b
    ensures a * c <= b * c
  {
  }

  /** Appending a digit is the one-step unfolding of a numeral. */
  lemma NumSnoc(base: nat, ds: seq<nat>, d: nat)
    ensures Num(base, ds + [d]) == Num(base, ds) * base + d
  {
    assert (ds + [d])[..|ds|] == ds;
  }

  /** The numeral of n denotes n. */
  lemma {:induction false} NumRep(base: nat, n: nat)
    requires base > 1
    ensures Num(base, Rep(base, n)) == n
  {
    if n != 0 {
      DivShrinks(base, n);
      NumRep(base, n / base);
      NumSnoc(base, Rep(base, n / base), n % base);
    }
  }

  /** A digit string without leading zeros is the numeral of what it denotes. */
  lemma {:induction false} RepNum(base: nat, ds: seq<nat>)
    requires base > 1 && Digits(base, ds)
    requires ds != [] ==> ds[0] != 0
    ensures Rep(base, Num(base, ds)) == ds
  {
    if ds != [] {
      var init, d := ds[..|ds| - 1], ds[|ds| - 1];
      RepNum(base, init);
      DivModUnique(base, Num(base, init), d);
      assert ds == init + [d];
      if init != [] {
        MulMono(1, Num(base, init), base);
      }
      assert Num(base, ds) > 0;
    }
  }

  /** Leading zeros do not change the value. */
  lemma {:induction false} NumSkipZeros(base: nat, ds: seq<nat>, k: nat)
    requires k <= |ds| && forall i :: 0 <= i < k ==> ds[i] == 0
    ensures Num(base, ds[k..]) == Num(base, ds)
    decreases |ds|
  {
    if k == |ds| {
      if k > 0 {
        assert ds[..k - 1][k - 1..] == [];
        NumSkipZeros(base, ds[..k - 1], k - 1);
      }
    } else {
      var init := ds[..|ds| - 1];
      NumSkipZeros(base, init, k);
      assert ds[k..][..|ds| - k - 1] == init[k..];
    }
  }

  /** A numeral is zero exactly when all its digits are. */
  lemma {:induction false} NumZero(base: nat, ds: seq<nat>)
    requires base > 1
    ensures Num(base, ds) == 0 <==> LeadingZeros(ds) == |ds|
  {
    if ds != [] {
      var init := ds[..|ds| - 1];
      NumZero(base, init);
      MulMono(1, base, Num(base, init));
      assert forall i :: 0 <= i < |init| ==> ds[i] == init[i];
    }
  }

  /** Every digit string is its leading zeros followed by a canonical numeral. */
  lemma ZerosThenRep(base: nat, ds: seq<nat>)
    requires base > 1 && Digits(base, ds)
    ensures ds == Repeat(LeadingZeros(ds), 0) + Rep(base, Num(base, ds))
  {
    var k := LeadingZeros(ds);
    NumSkipZeros(base, ds, k);
    RepNum(base, ds[k..]);
    ZerosSplit(ds, k);
  }

  lemma ZerosSplit(ds: seq<nat>, k: nat)
    requires k <= |ds| && forall i :: 0 <= i < k ==> ds[i] == 0
    ensures ds == Repeat(k, 0) + ds[k..]
  {
  }

  /** Zeros put before a canonical numeral are exactly its leading zeros. */
  lemma LeadingZerosOfPadded(base: nat, k: nat, n: nat)
    requires base > 1
    ensures var ds := Repeat(k, 0) + Rep(base, n);
            LeadingZeros(ds) == k && Num(base, ds) == n && Digits(base, ds)
  {
    var rep := Rep(base, n);
    var ds := Repeat(k, 0) + rep;
    assert ds[k..] == rep;
    NumSkipZeros(base, ds, k);
    NumRep(base, n);
    assert rep != [] ==> ds[k] == rep[0];
  }

  function Power(base: nat, n: nat): nat {
    if n == 0 then 1 else base * Power(base, n - 1)
  }

  lemma Distribute(a: nat, p: nat, b: nat, base: nat, d: nat)
    ensures (a * p + b) * base + d == a * (base * p) + (b * base + d)
  {
    assert (a * p + b) * base == a * p * base + b * base;
    assert a * p * base == a * (base * p);
  }

  /** A concatenation denotes its first part shifted past the second. */
  lemma {:induction false} NumAppend(base: nat, a: seq<nat>, b: seq<nat>)
    ensures Num(base, a + b) == Num(base, a) * Power(base, |b|) + Num(base, b)
    decreases |b|
  {
    if b == [] {
      assert a + b == a;
    } else {
      var init, d := b[..|b| - 1], b[|b| - 1];
      assert (a + b)[..|a + b| - 1] == a + init;
      NumAppend(base, a, init);
      Distribute(Num(base, a), Power(base, |init|), Num(base, init), base, d);
    }
  }
}
