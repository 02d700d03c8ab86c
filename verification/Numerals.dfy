/**
 Integers as the configuration file spells them and as `sprintf("%ld")` prints them.
 */
module Numerals {

  const LONG_MIN := -0x8000_0000
  const LONG_MAX := 0x7FFF_FFFF

  predicate InLong(v: int) { LONG_MIN <= v <= LONG_MAX }

  // ---- Digits in base 10 and base 16 (lower case) ----

  predicate IsDigit(c: char, base: nat) {
    '0' <= c <= '9' || (base == 16 && 'a' <= c <= 'f')
  }

  function DigitValue(c: char): int {
    if '0' <= c <= '9' then c as int - '0' as int else c as int - 'a' as int + 10
  }

  function DigitChar(d: nat): (c: char)
    requires d < 16
    ensures DigitValue(c) == d && IsDigit(c, 16) && (d < 10 ==> IsDigit(c, 10))
    ensures c == '0' <==> d == 0
  {
    if d < 10 then ('0' as int + d) as char else ('a' as int + d - 10) as char
  }

  predicate AllDigits(s: string, base: nat) {
    forall i :: 0 <= i < |s| ==> IsDigit(s[i], base)
  }

  /** What `strtol` makes of a string of digits. */
  function Value(s: string, base: nat): int {
    if s == [] then 0 else Value(s[..|s| - 1], base) * base + DigitValue(s[|s| - 1])
  }

  function PrintNat(n: nat, base: nat): (s: string)
    requires base == 10 || base == 16
    ensures s != [] && AllDigits(s, base)
    decreases n
  {
    if n < base then [DigitChar(n)]
    else
      assert n / base < n;
      PrintNat(n / base, base) + [DigitChar(n % base)]
  }

  lemma ValuePush(s: string, c: char, base: nat)
    ensures Value(s + [c], base) == Value(s, base) * base + DigitValue(c)
  {
    assert (s + [c])[..|s|] == s;
  }

  /** Printing and reading back is the identity, in both bases. */
  lemma {:induction false} PrintNatValue(n: nat, base: nat)
    requires base == 10 || base == 16
    ensures Value(PrintNat(n, base), base) == n
    decreases n
  {
    if n < base {
      ValuePush([], DigitChar(n), base);
      assert [] + [DigitChar(n)] == [DigitChar(n)];
    } else {
      PrintNatValue(n / base, base);
      PrintNatStep(n, base, Value(PrintNat(n / base, base), base));
    }
  }

  lemma PrintNatStep(n: nat, base: nat, front: int)
    requires (base == 10 || base == 16) && base <= n
    requires front == n / base == Value(PrintNat(n / base, base), base)
    ensures Value(PrintNat(n, base), base) == n
  {
    ValuePush(PrintNat(n / base, base), DigitChar(n % base), base);
    if base == 10 {
      assert n == n / 10 * 10 + n % 10;
    } else {
      assert n == n / 16 * 16 + n % 16;
    }
  }

  predicate AllZeros(z: string) { forall i :: 0 <= i < |z| ==> z[i] == '0' }

  lemma {:induction false} ZerosValue(z: string, base: nat)
    requires AllZeros(z)
    ensures Value(z, base) == 0
    decreases |z|
  {
    if z != [] {
      ZerosValue(z[..|z| - 1], base);
    }
  }

  /** Leading zeros do not count. */
  lemma {:induction false} LeadingZeros(z: string, s: string, base: nat)
    requires AllZeros(z)
    ensures Value(z + s, base) == Value(s, base)
    decreases |s|
  {
    if s == [] {
      assert z + s == z;
      ZerosValue(z, base);
    } else {
      var n := |s| - 1;
      assert z + s == (z + s[..n]) + [s[n]];
      ValuePush(z + s[..n], s[n], base);
      LeadingZeros(z, s[..n], base);
    }
  }

  // ---- Signed decimals and hexadecimals, as the two patterns accept them ----

  predicate IsSign(c: char) { c == '+' || c == '-' }

  /** `[+-]?[0-9]+` */
  predicate IsDecimal(s: string) {
    s != [] && if IsSign(s[0]) then |s| > 1 && AllDigits(s[1..], 10) else AllDigits(s, 10)
  }

  function DecimalValue(s: string): int {
    if s != [] && s[0] == '-' then -Value(s[1..], 10)
    else if s != [] && s[0] == '+' then Value(s[1..], 10)
    else Value(s, 10)
  }

  /** `0x[0-9a-f]+` */
  predicate IsHex(s: string) {
    |s| > 2 && s[0] == '0' && s[1] == 'x' && AllDigits(s[2..], 16)
  }

  function HexValue(s: string): int
    requires IsHex(s)
  {
    Value(s[2..], 16)
  }

  /** `%ld` */
  function Print(v: int): (s: string)
    ensures s != []
  {
    if v < 0 then ['-'] + PrintNat(-v, 10) else PrintNat(v, 10)
  }

  /** Every decimal spelling: an optional sign, leading zeros, the digits. */
  lemma DecimalSpelling(sign: string, zeros: string, n: int)
    requires n >= 0
    requires sign == [] || sign == ['+'] || sign == ['-']
    requires AllZeros(zeros)
    ensures var s := sign + (zeros + PrintNat(n, 10));
            IsDecimal(s) && DecimalValue(s) == if sign == ['-'] then -n else n
  {
    var digits := zeros + PrintNat(n, 10);
    var s := sign + digits;
    assert AllDigits(digits, 10);
    LeadingZeros(zeros, PrintNat(n, 10), 10);
    PrintNatValue(n, 10);
    if sign == [] {
      assert s == digits;
      assert IsDigit(s[0], 10);
    } else {
      assert s[1..] == digits;
    }
  }

  lemma HexSpelling(zeros: string, n: nat)
    requires AllZeros(zeros)
    ensures var s := ['0', 'x'] + (zeros + PrintNat(n, 16));
            IsHex(s) && HexValue(s) == n && !IsDecimal(s)
  {
    var digits := zeros + PrintNat(n, 16);
    var s := ['0', 'x'] + digits;
    assert s[2..] == digits;
    assert AllDigits(digits, 16);
    LeadingZeros(zeros, PrintNat(n, 16), 16);
    PrintNatValue(n, 16);
    assert !IsDigit(s[1], 10);
  }

  /** Printing an integer gives a decimal that reads back as that integer. */
  lemma PrintRoundTrip(v: int)
    ensures IsDecimal(Print(v)) && DecimalValue(Print(v)) == v
  {
    if v < 0 {
      DecimalSpelling(['-'], [], -v);
      assert [] + PrintNat(-v, 10) == PrintNat(-v, 10);
    } else {
      DecimalSpelling([], [], v);
      assert [] + ([] + PrintNat(v, 10)) == PrintNat(v, 10);
    }
  }

  /** Different integers print differently. */
  lemma PrintInjective(v: int, w: int)
    requires Print(v) == Print(w)
    ensures v == w
  {
    PrintRoundTrip(v);
    PrintRoundTrip(w);
  }

  // ---- Blanks around a number ----

  predicate IsBlank(c: char) { c == ' ' || c == '\t' }

  predicate AllBlank(s: string) { forall i :: 0 <= i < |s| ==> IsBlank(s[i]) }

  function TrimLeft(s: string): string {
    if s != [] && IsBlank(s[0]) then TrimLeft(s[1..]) else s
  }

  function TrimRight(s: string): string {
    if s != [] && IsBlank(s[|s| - 1]) then TrimRight(s[..|s| - 1]) else s
  }

  function Trim(s: string): string { TrimRight(TrimLeft(s)) }

  lemma {:induction false} TrimLeftBlanks(a: string, s: string)
    requires AllBlank(a) && s != [] && !IsBlank(s[0])
    ensures TrimLeft(a + s) == s
    decreases |a|
  {
    if a == [] {
      assert a + s == s;
    } else {
      assert (a + s)[1..] == a[1..] + s;
      TrimLeftBlanks(a[1..], s);
    }
  }

  lemma {:induction false} TrimRightBlanks(s: string, b: string)
    requires AllBlank(b) && s != [] && !IsBlank(s[|s| - 1])
    ensures TrimRight(s + b) == s
    decreases |b|
  {
    if b == [] {
      assert s + b == s;
    } else {
      assert (s + b)[..|s + b| - 1] == s + b[..|b| - 1];
      TrimRightBlanks(s, b[..|b| - 1]);
    }
  }

  lemma TrimBlanks(a: string, s: string, b: string)
    requires AllBlank(a) && AllBlank(b) && s != [] && !IsBlank(s[0]) && !IsBlank(s[|s| - 1])
    ensures Trim(a + s + b) == s
  {
    assert a + s + b == a + (s + b);
    TrimLeftBlanks(a, s + b);
    TrimRightBlanks(s, b);
  }

  lemma NumbersHaveNoBlanks(s: string)
    requires IsDecimal(s) || IsHex(s)
    ensures s != [] && !IsBlank(s[0]) && !IsBlank(s[|s| - 1])
  {
    var n := |s| - 1;
    if IsHex(s) {
      assert s[2..][n - 2] == s[n];
    } else if IsSign(s[0]) {
      assert s[1..][n - 1] == s[n];
    }
  }

  // ---- Some spellings ----

  lemma TwoDigits(a: char, b: char, base: nat)
    ensures Value([a, b], base) == DigitValue(a) * base + DigitValue(b)
  {
    ValuePush([], a, base);
    ValuePush([a], b, base);
    assert [] + [a] == [a] && [a] + [b] == [a, b];
  }

  /** The first digit weighs most. */
  lemma Examples()
    ensures DecimalValue("-42") == -42 && DecimalValue("+42") == 42 && DecimalValue("42") == 42
    ensures IsHex("0x1f") && HexValue("0x1f") == 31
    ensures Print(42) == "42" && Print(-42) == "-42"
  {
    TwoDigits('4', '2', 10);
    TwoDigits('1', 'f', 16);
    assert "-42"[1..] == "42" && "+42"[1..] == "42" && "0x1f"[2..] == "1f";
    assert PrintNat(4, 10) == "4";
    assert PrintNat(42, 10) == PrintNat(4, 10) + [DigitChar(2)];
  }

  lemma BlankIs(c: char)
    ensures IsBlank(c) <==> c in " \t"
  {
  }
}
