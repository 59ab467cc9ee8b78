/** Splitting, joining and number text, as the standard libraries of both languages do them. */
module Text {
  import opened Common
  import opened Radix

  // ------------------------------------------------------------------
  // split and join
  // ------------------------------------------------------------------

  function Split(s: string, sep: char): (parts: seq<string>)
    ensures |parts| > 0
  {
    if s == "" then [""] else
      var rest := Split(s[1..], sep);
      if s[0] == sep then [""] + rest else [[s[0]] + rest[0]] + rest[1..]
  }

  function Join(parts: seq<string>, sep: char): string
    requires |parts| > 0
  {
    if |parts| == 1 then parts[0] else parts[0] + [sep] + Join(parts[1..], sep)
  }

  lemma JoinCons(part: string, rest: seq<string>, sep: char)
    requires rest != []
    ensures Join([part] + rest, sep) == part + [sep] + Join(rest, sep)
  {
    assert ([part] + rest)[1..] == rest;
  }

  predicate FreeOf(parts: seq<string>, sep: char) {
    forall i :: 0 <= i < |parts| ==> sep !in parts[i]
  }

  /** A character that is in no part and is not the separator is not in the joined text. */
  lemma {:induction false} JoinAvoids(parts: seq<string>, sep: char, c: char)
    requires parts != [] && FreeOf(parts, c) && c != sep
    ensures c !in Join(parts, sep)
  {
    if |parts| > 1 {
      JoinAvoids(parts[1..], sep, c);
    }
  }

  lemma {:induction false} SplitWhole(s: string, sep: char)
    requires sep !in s
    ensures Split(s, sep) == [s]
  {
    if s != "" {
      SplitWhole(s[1..], sep);
      assert s == [s[0]] + s[1..];
    }
  }

  lemma {:induction false} SplitFirst(part: string, rest: string, sep: char)
    requires sep !in part
    ensures Split(part + [sep] + rest, sep) == [part] + Split(rest, sep)
  {
    var s := part + [sep] + rest;
    if part == "" {
      assert s[1..] == rest;
    } else {
      SplitFirst(part[1..], rest, sep);
      assert s[1..] == part[1..] + [sep] + rest;
      assert part == [part[0]] + part[1..];
    }
  }

  lemma {:induction false} SplitJoin(parts: seq<string>, sep: char)
    requires |parts| > 0 && FreeOf(parts, sep)
    ensures Split(Join(parts, sep), sep) == parts
  {
    if |parts| == 1 {
      SplitWhole(parts[0], sep);
    } else {
      SplitFirst(parts[0], Join(parts[1..], sep), sep);
      SplitJoin(parts[1..], sep);
    }
  }

  lemma {:induction false} JoinSplit(s: string, sep: char)
    ensures FreeOf(Split(s, sep), sep)
    ensures Join(Split(s, sep), sep) == s
  {
    if s != "" {
      JoinSplit(s[1..], sep);
      var rest := Split(s[1..], sep);
      var parts := Split(s, sep);
      if s[0] == sep {
        assert parts[1..] == rest;
      } else if |rest| > 1 {
        assert parts[1..] == rest[1..];
      }
    }
  }

  // ------------------------------------------------------------------
  // Numbers
  // ------------------------------------------------------------------

  function Decimal(n: nat): (s: string)
    ensures IsDigits(s)
  {
    if n == 0 then "0" else
      var ds := Rep(10, n);
      seq(|ds|, i requires 0 <= i < |ds| => '0' + ds[i] as char)
  }

  predicate IsDigits(s: string) {
    s != "" && forall i :: 0 <= i < |s| ==> '0' <= s[i] <= '9'
  }

  function DecimalValue(s: string): nat
    requires IsDigits(s)
  {
    Num(10, DigitValues(s))
  }

  function DigitValues(s: string): (ds: seq<nat>)
    requires IsDigits(s)
    ensures |ds| == |s| && forall i :: 0 <= i < |s| ==> ds[i] == s[i] as int - '0' as int
  {
    seq(|s|, i requires 0 <= i < |s| => s[i] as int - '0' as int)
  }

  lemma DecimalRoundTrip(n: nat)
    ensures DecimalValue(Decimal(n)) == n
  {
    var s := Decimal(n);
    var ds := DigitValues(s);
    if n == 0 {
      assert s == "0";
      NumSnoc(10, [], 0);
      assert ds == [] + [0];
    } else {
      assert ds == Rep(10, n);
      NumRep(10, n);
    }
  }

  function Unsigned(s: string): string {
    if s != "" && s[0] == '+' then s[1..] else s
  }

  const EXACT: nat := 0x20_0000_0000_0000

  /**
   * The rest of the JavaScript number syntax: which reals are finite doubles,
   * what text other than a plain decimal integer below 2^53 reads as (`None`
   * when not finite), and how a number that is not such an integer prints.
   */
  datatype NumberSyntax = NumberSyntax(finite: real -> bool, parse: string -> Option<real>, show: real -> string)
  {
    /** Printing and reading back is the identity on the finite numbers. */
    ghost predicate Lawful() {
      forall x: real {:trigger show(x)} :: finite(x) && !PlainNumber(x) ==>
        Read(show(x)) == Some(x) && ':' !in show(x) && !Blank(show(x))
    }

    /** A number that survives printing: a plain integer under any syntax, a finite one under a lawful syntax. */
    ghost predicate Prints(x: real) {
      PlainNumber(x) || (Lawful() && finite(x))
    }

    function Read(s: string): Option<real> {
      var body := Unsigned(s);
      if IsDigits(body) && DecimalValue(body) < EXACT then Some(DecimalValue(body) as real) else parse(s)
    }

    function Show(x: real): string {
      if PlainNumber(x) then Decimal(x.Floor) else show(x)
    }

    lemma ReadShow(x: real)
      requires Prints(x)
      ensures Read(Show(x)) == Some(x) && ':' !in Show(x) && !Blank(Show(x))
    {
      if PlainNumber(x) {
        DecimalRoundTrip(x.Floor);
        var s := Decimal(x.Floor);
        assert s[0] in s;
      }
    }
  }

  predicate PlainNumber(x: real) {
    x.Floor as real == x && 0 <= x.Floor < EXACT
  }

  // ------------------------------------------------------------------
  // JavaScript white space
  // ------------------------------------------------------------------

  predicate Space(c: char) {
    var n := c as int;
    9 <= n <= 13 || n == 32 || n == 0xA0 || n == 0x1680 || 0x2000 <= n <= 0x200A
    || n == 0x2028 || n == 0x2029 || n == 0x202F || n == 0x205F || n == 0x3000 || n == 0xFEFF
  }

  predicate Blank(s: string) {
    forall c <- s :: Space(c)
  }

  // ------------------------------------------------------------------
  // A lawful syntax
  // ------------------------------------------------------------------

  function IntText(n: int): string {
    if n < 0 then "-" + Decimal(-n) else Decimal(n)
  }

  function IntValue(s: string): Option<int> {
    if IsDigits(s) then
      var n: int := DecimalValue(s);
      Some(n)
    else if s != "" && s[0] == '-' && IsDigits(s[1..]) then
      var n: int := DecimalValue(s[1..]);
      Some(-n)
    else None
  }

  function SignedText(x: real): string {
    IntText(x.Floor)
  }

  function SignedValue(s: string): Option<real> {
    match IntValue(s)
    case None => None
    case Some(n) => Some(n as real)
  }

  /** Every integer, of either sign and any size, as a finite number. */
  function IntegerSyntax(): NumberSyntax {
    NumberSyntax((x: real) => x.Floor as real == x, SignedValue, SignedText)
  }

  /** The law can be met, by a syntax with finite numbers that are not plain. */
  lemma LawfulSyntaxExists()
    ensures IntegerSyntax().Lawful()
    ensures IntegerSyntax().finite(-1.0) && !PlainNumber(-1.0)
  {
    var num := IntegerSyntax();
    forall x: real | num.finite(x) && !PlainNumber(x)
      ensures num.Read(num.show(x)) == Some(x) && ':' !in num.show(x) && !Blank(num.show(x))
    {
      SignedRoundTrip(x);
    }
    assert (-1.0).Floor == -1;
  }

  lemma SignedRoundTrip(x: real)
    requires x.Floor as real == x && !PlainNumber(x)
    ensures var s := SignedText(x);
            IntegerSyntax().Read(s) == Some(x) && ':' !in s && !Blank(s)
  {
    var n := x.Floor;
    assert n < 0 || n >= EXACT;
    IntRoundTrip(n);
    IntTextShape(n);
    assert SignedValue(SignedText(x)) == Some(n as real);
  }

  lemma IntRoundTrip(n: int)
    ensures IntValue(IntText(n)) == Some(n)
    ensures n >= 0 ==> IsDigits(IntText(n)) && DecimalValue(IntText(n)) == n
  {
    DecimalRoundTrip(if n < 0 then -n else n);
    if n < 0 {
      var digits := Decimal(-n);
      Negated(digits, "-" + digits);
    }
  }

  lemma Negated(digits: string, s: string)
    requires IsDigits(digits) && s == "-" + digits
    ensures s[1..] == digits && !IsDigits(s)
    ensures IntValue(s) == Some(-(DecimalValue(digits) as int))
  {
    assert s[0] == '-';
    assert s[1..] == digits;
  }

  lemma IntTextShape(n: int)
    ensures var s := IntText(n); ':' !in s && !Blank(s) && Unsigned(s) == s && (n < 0 ==> !IsDigits(s))
  {
    var s := IntText(n);
    assert s[0] in s;
    if n < 0 {
      Negated(Decimal(-n), s);
    }
  }
}
