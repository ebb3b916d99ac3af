/** Decimal text for natural numbers (Rust's `to_string`, used for label
    indices and immediates), the decimal literals the assembler accepts as
    `push` operands, and the integer arithmetic the emitted code performs. */
module Numerals {
  import opened Results

  predicate IsDigit(c: char) {
    '0' <= c <= '9'
  }

  function DigitValue(c: char): (d: nat)
    requires IsDigit(c)
    ensures d < 10
  {
    (c as int) - ('0' as int)
  }

  function DigitChar(d: nat): (c: char)
    requires d < 10
    ensures IsDigit(c) && DigitValue(c) == d
  {
    (('0' as int) + d) as char
  }

  predicate AllDigits(s: string) {
    forall i :: 0 <= i < |s| ==> IsDigit(s[i])
  }

  /** A non-empty run of ASCII digits. */
  predicate IsNumeral(s: string) {
    |s| > 0 && AllDigits(s)
  }

  /** The number a run of digits denotes (leading zeros allowed). */
  function ValueOf(s: string): nat
    requires AllDigits(s)
  {
    if s == [] then 0 else 10 * ValueOf(s[..|s| - 1]) + DigitValue(s[|s| - 1])
  }

  /** Canonical decimal text of `n`: digits only, no leading zero, and
      denoting `n`. */
  function NatToString(n: nat): (s: string)
    ensures IsNumeral(s)
    ensures ValueOf(s) == n
    ensures s[0] == '0' ==> s == "0"
  {
    if n < 10 then [DigitChar(n)]
    else
      var t := NatToString(n / 10);
      assert (t + [DigitChar(n % 10)])[..|t|] == t;
      t + [DigitChar(n % 10)]
  }

  /** The numbers the code generator writes as immediates and labels. */
  lemma SmallNumbers()
    ensures NatToString(0) == "0" && NatToString(1) == "1" && NatToString(60) == "60"
  {
  }

  /** Distinct numbers have distinct decimal texts, so distinct label
      indices give distinct label names. */
  lemma NatToStringInjective(a: nat, b: nat)
    ensures NatToString(a) == NatToString(b) <==> a == b
  {
  }

  /** Decimal text of an integer, with a leading `-` when negative. */
  function IntToString(n: int): string {
    if n < 0 then "-" + NatToString(-n) else NatToString(n)
  }

  /** The value of a decimal literal as the assembler reads a `push`
      operand: an optional `-` followed by digits. Any other word is not
      given a value here. */
  function ParseInt(w: string): (r: Option<int>)
    ensures r.Some? ==> IsNumeral(w) || (|w| > 1 && w[0] == '-' && IsNumeral(w[1..]))
  {
    if |w| > 0 && w[0] == '-' then
      if IsNumeral(w[1..]) then Some(0 - ValueOf(w[1..]) as int) else None
    else if IsNumeral(w) then Some(ValueOf(w))
    else None
  }

  /** Parsing the printed form of any integer gives the integer back. */
  lemma ParseIntRoundTrip(n: int)
    ensures ParseInt(IntToString(n)) == Some(n)
  {
    if n < 0 {
      assert IntToString(n)[1..] == NatToString(-n);
    }
  }

  function Abs(n: int): nat {
    if n < 0 then -n else n
  }

  /** Signed division that truncates toward zero, as `idiv` does. The
      remainder is smaller than the divisor and has the dividend's sign. */
  function TruncDiv(n: int, d: int): (q: int)
    requires d != 0
    ensures Abs(n - d * q) < Abs(d)
    ensures n - d * q == 0 || (n - d * q < 0 <==> n < 0)
  {
    var q0 := Abs(n) / Abs(d);
    TruncDivFacts(n, d, q0);
    if (n < 0) != (d < 0) then -q0 else q0
  }

  lemma TruncDivFacts(n: int, d: int, q0: int)
    requires d != 0 && q0 == Abs(n) / Abs(d)
    ensures Abs(n) - Abs(d) * q0 >= 0 && Abs(n) - Abs(d) * q0 < Abs(d)
    ensures (n < 0) != (d < 0) ==> n - d * -q0 == (if n < 0 then -(Abs(n) - Abs(d) * q0) else Abs(n) - Abs(d) * q0)
    ensures (n < 0) == (d < 0) ==> n - d * q0 == (if n < 0 then -(Abs(n) - Abs(d) * q0) else Abs(n) - Abs(d) * q0)
  {
  }

  /** Number of distinct 64-bit machine words. */
  const WordRange: nat := 0x1_0000_0000_0000_0000

  /** The unsigned 64-bit reading of a value, as the print routine uses. */
  function Unsigned(v: int): (u: nat)
    ensures u < WordRange
    ensures 0 <= v < WordRange ==> u == v
  {
    v % WordRange
  }

  /** What the print routine writes for `v`: its unsigned decimal text
      followed by one newline. */
  function DumpText(v: int): (t: string)
    ensures |t| > 1 && t[|t| - 1] == '\n'
    ensures IsNumeral(t[..|t| - 1])
    ensures ValueOf(t[..|t| - 1]) == Unsigned(v)
    ensures t[0] == '0' ==> t == "0\n"
  {
    var s := NatToString(Unsigned(v));
    assert (s + "\n")[..|s|] == s;
    s + "\n"
  }
}
