/** Types shared by every module. */
module Common {

  datatype Option<+T> = None | Some(value: T)

  datatype Result<+T, +E> = Ok(value: T) | Err(error: E)

  /** An octet, kept as a bounded integer so that every narrowing is checked. */
  type byte = i: int | 0 <= i < 256

  type u32 = i: int | 0 <= i < 0x1_0000_0000

  type Bytes = seq<byte>

  /** Octets as bit patterns, for the bridge's comparison, which combines them bit by bit. */
  type Octets = seq<bv8>

  function Reverse<T>(s: seq<T>): (r: seq<T>)
    ensures |r| == |s|
    ensures forall i :: 0 <= i < |s| ==> r[i] == s[|s| - 1 - i]
  {
    if s == [] then [] else [s[|s| - 1]] + Reverse(s[..|s| - 1])
  }

  function Repeat<T>(n: nat, x: T): (r: seq<T>)
    ensures |r| == n && forall i :: 0 <= i < n ==> r[i] == x
  {
    seq(n, _ => x)
  }

  function TrimStart<T>(s: seq<T>, blank: T -> bool): seq<T> {
    if s != [] && blank(s[0]) then TrimStart(s[1..], blank) else s
  }

  function TrimEnd<T>(s: seq<T>, blank: T -> bool): seq<T> {
    if s != [] && blank(s[|s| - 1]) then TrimEnd(s[..|s| - 1], blank) else s
  }

  /** Without the blanks at either end. */
  function Trim<T>(s: seq<T>, blank: T -> bool): seq<T> {
    TrimEnd(TrimStart(s, blank), blank)
  }

  lemma {:induction false} TrimStartSkips<T>(left: seq<T>, rest: seq<T>, blank: T -> bool)
    requires forall i :: 0 <= i < |left| ==> blank(left[i])
    ensures TrimStart(left + rest, blank) == TrimStart(rest, blank)
  {
    if left == [] {
      assert left + rest == rest;
    } else {
      assert (left + rest)[1..] == left[1..] + rest;
      TrimStartSkips(left[1..], rest, blank);
    }
  }

  lemma {:induction false} TrimEndSkips<T>(front: seq<T>, right: seq<T>, blank: T -> bool)
    requires forall i :: 0 <= i < |right| ==> blank(right[i])
    ensures TrimEnd(front + right, blank) == TrimEnd(front, blank)
  {
    if right == [] {
      assert front + right == front;
    } else {
      var n := |right| - 1;
      assert (front + right)[..|front| + n] == front + right[..n];
      TrimEndSkips(front, right[..n], blank);
    }
  }

  /** Blanks around a core that is not blank at either end are exactly what trimming removes. */
  lemma TrimCore<T>(left: seq<T>, core: seq<T>, right: seq<T>, blank: T -> bool)
    requires forall i :: 0 <= i < |left| ==> blank(left[i])
    requires forall i :: 0 <= i < |right| ==> blank(right[i])
    requires core != [] ==> !blank(core[0]) && !blank(core[|core| - 1])
    ensures Trim(left + core + right, blank) == core
  {
    assert left + core + right == left + (core + right);
    TrimStartSkips(left, core + right, blank);
    if core == [] {
      assert core + right == right;
      assert right + [] == right;
      TrimStartSkips(right, [], blank);
    } else {
      assert TrimStart(core + right, blank) == core + right;
      TrimEndSkips(core, right, blank);
    }
  }

  lemma {:induction false} TrimStartSplits<T>(s: seq<T>, blank: T -> bool) returns (left: seq<T>)
    ensures s == left + TrimStart(s, blank)
    ensures forall i :: 0 <= i < |left| ==> blank(left[i])
    ensures TrimStart(s, blank) != [] ==> !blank(TrimStart(s, blank)[0])
  {
    left := [];
    if s != [] && blank(s[0]) {
      var rest := TrimStartSplits(s[1..], blank);
      left := [s[0]] + rest;
      assert s == [s[0]] + s[1..];
    }
  }

  lemma {:induction false} TrimEndSplits<T>(s: seq<T>, blank: T -> bool) returns (right: seq<T>)
    ensures s == TrimEnd(s, blank) + right
    ensures forall i :: 0 <= i < |right| ==> blank(right[i])
    ensures TrimEnd(s, blank) != [] ==> !blank(TrimEnd(s, blank)[|TrimEnd(s, blank)| - 1])
  {
    right := [];
    if s != [] && blank(s[|s| - 1]) {
      var n := |s| - 1;
      var rest := TrimEndSplits(s[..n], blank);
      right := rest + [s[n]];
      assert s == s[..n] + [s[n]];
    }
  }

  /** Every sequence is its trimmed core between blanks. */
  lemma TrimSplits<T>(s: seq<T>, blank: T -> bool) returns (left: seq<T>, right: seq<T>)
    ensures s == left + Trim(s, blank) + right
    ensures forall i :: 0 <= i < |left| ==> blank(left[i])
    ensures forall i :: 0 <= i < |right| ==> blank(right[i])
    ensures var core := Trim(s, blank); core != [] ==> !blank(core[0]) && !blank(core[|core| - 1])
  {
    left := TrimStartSplits(s, blank);
    right := TrimEndSplits(TrimStart(s, blank), blank);
    var core := Trim(s, blank);
    assert TrimStart(s, blank) == core + right;
    assert left + (core + right) == left + core + right;
  }
}
