/** `generateOTP`: a uniformly drawn integer in [100000, 999999], written in
    decimal. */
module OtpCode {

  const MinCode: int := 100000
  const MaxCode: int := 999999

  predicate IsDigit(c: char)
  {
    '0' <= c <= '9'
  }

  function DigitChar(d: nat): (c: char)
    requires d < 10
    ensures IsDigit(c)
  {
    ['0', '1', '2', '3', '4', '5', '6', '7', '8', '9'][d]
  }

  function DigitValue(c: char): nat
  {
    if IsDigit(c) then (c as int - '0' as int) else 0
  }

  /** `Number.prototype.toString()` of a non-negative integer. */
  function DecimalString(n: nat): string
  {
    if n < 10 then [DigitChar(n)] else DecimalString(n / 10) + [DigitChar(n % 10)]
  }

  /** The integer a decimal digit string denotes. */
  function DecimalValue(s: string): nat
  {
    if |s| == 0 then 0 else DecimalValue(s[..|s| - 1]) * 10 + DigitValue(s[|s| - 1])
  }

  function Pow10(k: nat): (p: nat)
    ensures p >= 1
  {
    if k == 0 then 1 else 10 * Pow10(k - 1)
  }

  /** A code as `generateOTP` writes it: six decimal digits, the first not 0. */
  predicate IsSixDigitCode(s: string)
  {
    && |s| == 6
    && (forall k :: 0 <= k < |s| ==> IsDigit(s[k]))
    && s[0] != '0'
  }

  /** `Math.floor(100000 + Math.random() * 900000)`, with the value of
      `Math.random()` passed in. */
  function DrawCode(rand: real): (n: int)
    requires 0.0 <= rand < 1.0
    ensures MinCode <= n <= MaxCode
  {
    assert 0.0 <= rand * 900000.0 < 900000.0;
    (100000.0 + rand * 900000.0).Floor
  }

  lemma DigitRoundTrip(d: nat)
    requires d < 10
    ensures DigitValue(DigitChar(d)) == d
  {
  }

  /** Decimal writing loses nothing: reading the digits back gives `n`. */
  lemma {:induction false} DecimalRoundTrip(n: nat)
    ensures DecimalValue(DecimalString(n)) == n
  {
    DigitRoundTrip(n % 10);
    if n >= 10 {
      var s := DecimalString(n);
      assert s[..|s| - 1] == DecimalString(n / 10);
      DecimalRoundTrip(n / 10);
    }
  }

  /** An integer with `k` significant digits is written with exactly `k`
      digit characters, the first of them not 0. */
  lemma {:induction false} DecimalShape(n: nat, k: nat)
    requires 1 <= k && Pow10(k - 1) <= n < Pow10(k)
    ensures |DecimalString(n)| == k
    ensures forall i :: 0 <= i < k ==> IsDigit(DecimalString(n)[i])
    ensures DecimalString(n)[0] != '0'
  {
    if k == 1 {
      assert 1 <= n < 10;
    } else {
      assert Pow10(k - 1) == 10 * Pow10(k - 2);
      assert n >= 10;
      assert Pow10(k - 2) <= n / 10 < Pow10(k - 1);
      DecimalShape(n / 10, k - 1);
      var s := DecimalString(n);
      assert s == DecimalString(n / 10) + [DigitChar(n % 10)];
    }
  }

  /** `generateOTP()`: always six digits, and the digits denote the drawn
      integer. */
  function GenerateOtp(rand: real): (code: string)
    requires 0.0 <= rand < 1.0
    ensures IsSixDigitCode(code)
    ensures DecimalValue(code) == DrawCode(rand)
    ensures MinCode <= DecimalValue(code) <= MaxCode
  {
    var n := DrawCode(rand);
    assert Pow10(5) == 100000 && Pow10(6) == 1000000;
    DecimalShape(n, 6);
    DecimalRoundTrip(n);
    DecimalString(n)
  }
}
