/**
 * Rust's `i32` range and `str::parse::<i32>()`, plus the decimal rendering
 * that the parser's round-trip lemmas use as its inverse.
 */
module Numbers {

  const I32_MIN: int := -0x8000_0000
  const I32_MAX: int := 0x7fff_ffff

  predicate IsI32(n: int) {
    I32_MIN <= n <= I32_MAX
  }

  /** The kinds of `std::num::ParseIntError`. */
  datatype IntErrorKind = Empty | InvalidDigit | PosOverflow | NegOverflow

  datatype ParsedInt = Int(value: int) | IntError(kind: IntErrorKind)

  predicate IsAsciiDigit(c: char) {
    '0' <= c <= '9'
  }

  predicate AllAsciiDigits(s: string) {
    forall i :: 0 <= i < |s| ==> IsAsciiDigit(s[i])
  }

  function DigitValue(c: char): nat
    requires IsAsciiDigit(c)
  {
    (c as int) - ('0' as int)
  }

  /** The number a string of decimal digits denotes, most significant digit first. */
  function DecimalValue(s: string): nat
    requires AllAsciiDigits(s)
  {
    if s == [] then 0 else 10 * DecimalValue(s[..|s| - 1]) + DigitValue(s[|s| - 1])
  }

  /**
   * `i32::from_str`: an optional `+` or `-`, then at least one digit; the
   * digits are folded in from the left and the first character that is not
   * a digit, or the first step that leaves the `i32` range, is the error.
   */
  function ParseI32(s: string): (r: ParsedInt)
    ensures r.Int? ==> IsI32(r.value)
    ensures s == [] <==> r == IntError(Empty)
  {
    if s == [] then IntError(Empty)
    else if s[0] == '+' || s[0] == '-' then
      if |s| == 1 then IntError(InvalidDigit) else Accumulate(s, 1, 0, s[0] == '+')
    else Accumulate(s, 0, 0, true)
  }

  /** The loop of `i32::from_str` from index `i` on, with `acc` the value folded so far. */
  function Accumulate(s: string, i: nat, acc: int, positive: bool): (r: ParsedInt)
    requires i <= |s| && IsI32(acc)
    requires if positive then acc >= 0 else acc <= 0
    ensures r.Int? ==> IsI32(r.value)
    ensures r != IntError(Empty)
    decreases |s| - i
  {
    if i == |s| then Int(acc)
    else if !IsAsciiDigit(s[i]) then IntError(InvalidDigit)
    else if positive then
      var next := 10 * acc + DigitValue(s[i]);
      if next > I32_MAX then IntError(PosOverflow) else Accumulate(s, i + 1, next, positive)
    else
      var next := 10 * acc - DigitValue(s[i]);
      if next < I32_MIN then IntError(NegOverflow) else Accumulate(s, i + 1, next, positive)
  }

  function Pow10(k: nat): nat {
    if k == 0 then 1 else 10 * Pow10(k - 1)
  }

  /** Digits appended to a digit string shift its value left by their count and add their own. */
  lemma {:induction false} DecimalValueConcat(a: string, b: string)
    requires AllAsciiDigits(a) && AllAsciiDigits(b)
    ensures AllAsciiDigits(a + b)
    ensures DecimalValue(a + b) == DecimalValue(a) * Pow10(|b|) + DecimalValue(b)
    decreases |b|
  {
    if b == [] {
      assert a + b == a;
    } else {
      var c := b[..|b| - 1];
      var e := DigitValue(b[|b| - 1]);
      DecimalValueConcat(a, c);
      assert (a + b)[..|a + b| - 1] == a + c;
      assert DecimalValue(a + b) == 10 * DecimalValue(a + c) + e;
      assert DecimalValue(b) == 10 * DecimalValue(c) + e;
      ShiftDigit(DecimalValue(a), Pow10(|c|), DecimalValue(c), e);
    }
  }

  /** One more digit on the right of `x` shifted by `p` with `y` below it. */
  lemma ShiftDigit(x: int, p: int, y: int, e: int)
    ensures 10 * (x * p + y) + e == x * (10 * p) + (10 * y + e)
  {
  }

  /** A prefix of a digit string never denotes more than the whole string. */
  lemma {:induction false} DecimalValuePrefix(s: string, i: nat)
    requires AllAsciiDigits(s) && i <= |s|
    ensures DecimalValue(s[..i]) <= DecimalValue(s)
    decreases |s| - i
  {
    if i < |s| {
      DecimalValuePrefix(s, i + 1);
      assert s[..i + 1][..i] == s[..i];
    } else {
      assert s[..i] == s;
    }
  }

  lemma {:induction false} AccumulateDigits(s: string, i: nat)
    requires AllAsciiDigits(s) && i <= |s|
    requires DecimalValue(s[..i]) <= I32_MAX
    ensures Accumulate(s, i, DecimalValue(s[..i]), true)
         == if DecimalValue(s) <= I32_MAX then Int(DecimalValue(s)) else IntError(PosOverflow)
    decreases |s| - i
  {
    if i == |s| {
      assert s[..i] == s;
    } else {
      assert s[..i + 1][..i] == s[..i];
      var next := 10 * DecimalValue(s[..i]) + DigitValue(s[i]);
      assert next == DecimalValue(s[..i + 1]);
      DecimalValuePrefix(s, i + 1);
      if next <= I32_MAX {
        AccumulateDigits(s, i + 1);
      }
    }
  }

  /**
   * On a non-empty string of ASCII digits `parse::<i32>()` yields the number
   * the digits denote, or `PosOverflow` exactly when that number exceeds
   * `i32::MAX`.
   */
  lemma ParseDigits(s: string)
    requires s != [] && AllAsciiDigits(s)
    ensures ParseI32(s) == if DecimalValue(s) <= I32_MAX then Int(DecimalValue(s)) else IntError(PosOverflow)
  {
    assert s[..0] == [];
    AccumulateDigits(s, 0);
  }

  /** The digit character for `d`. */
  function DigitChar(d: nat): (c: char)
    requires d < 10
    ensures IsAsciiDigit(c) && DigitValue(c) == d
  {
    ('0' as int + d) as char
  }

  /** The shortest decimal rendering of `n`, as Rust's `{}` prints a non-negative integer. */
  function Decimal(n: nat): (s: string)
    ensures s != [] && AllAsciiDigits(s)
    ensures DecimalValue(s) == n
  {
    if n < 10 then [DigitChar(n)]
    else
      var s := Decimal(n / 10) + [DigitChar(n % 10)];
      assert s[..|s| - 1] == Decimal(n / 10);
      s
  }

  /** Parsing inverts rendering on the non-negative `i32` values. */
  lemma ParseDecimal(n: nat)
    requires n <= I32_MAX
    ensures ParseI32(Decimal(n)) == Int(n)
  {
    ParseDigits(Decimal(n));
  }
}
