/** Decimal text of unsigned counters, as an output stream writes an unsigned
    integer with its default formatting (no sign, no padding, no leading zeros),
    and the parse that reads such text back. */
module Decimal {
  import opened Text

  const TwoTo32: int := 0x1_0000_0000

  /** The values of a C++ `uint32_t`. */
  type U32 = x: int | 0 <= x < TwoTo32

  predicate IsDigit(c: char) { '0' <= c <= '9' }

  function DigitValue(c: char): (d: nat)
    requires IsDigit(c)
    ensures d < 10
  {
    c as int - '0' as int
  }

  function DigitChar(d: nat): (c: char)
    requires d < 10
    ensures IsDigit(c) && DigitValue(c) == d
  {
    (d + '0' as int) as char
  }

  /** The digits of `n`, most significant first. */
  function DecimalString(n: nat): (s: string)
    ensures |s| >= 1
    ensures forall k :: 0 <= k < |s| ==> IsDigit(s[k])
    ensures s[0] == '0' ==> n == 0 && s == "0"
    ensures ',' !in s && '\n' !in s
    decreases n
  {
    if n < 10 then [DigitChar(n)] else DecimalString(n / 10) + [DigitChar(n % 10)]
  }

  /** The number a string of digits denotes. */
  function DigitsValue(s: string): nat
    requires forall k :: 0 <= k < |s| ==> IsDigit(s[k])
    decreases |s|
  {
    if s == [] then 0
    else DigitsValue(s[..|s| - 1]) * 10 + DigitValue(s[|s| - 1])
  }

  /** Canonical decimal text: at least one digit, only digits, and no leading
      zero unless the text is exactly "0". */
  predicate IsCanonical(s: string)
  {
    |s| >= 1 && (forall k :: 0 <= k < |s| ==> IsDigit(s[k])) && (s[0] == '0' ==> |s| == 1)
  }

  /** Reads a canonical decimal counter that fits in 32 bits. */
  function ParseCounter(s: string): (r: Option<U32>)
    ensures r.Some? ==> IsCanonical(s)
  {
    if IsCanonical(s) && DigitsValue(s) < TwoTo32 then Some(DigitsValue(s)) else None
  }

  lemma {:induction false} DigitsOfDecimal(n: nat)
    ensures IsCanonical(DecimalString(n))
    ensures DigitsValue(DecimalString(n)) == n
    decreases n
  {
    if n >= 10 {
      DigitsOfDecimal(n / 10);
      var s := DecimalString(n);
      assert s[..|s| - 1] == DecimalString(n / 10);
    }
  }

  /** Reading back what was written gives the counter that was written. */
  lemma ParseOfDecimal(n: U32)
    ensures ParseCounter(DecimalString(n)) == Some(n)
  {
    DigitsOfDecimal(n);
  }

  lemma {:induction false} CanonicalPositive(s: string)
    requires IsCanonical(s) && s[0] != '0'
    ensures DigitsValue(s) >= 1
    decreases |s|
  {
    if |s| > 1 {
      CanonicalPositive(s[..|s| - 1]);
    } else {
      assert s[..0] == [];
    }
  }

  /** Canonical decimal text is exactly the text written for its value. */
  lemma {:induction false} DecimalOfDigits(s: string)
    requires IsCanonical(s)
    ensures DecimalString(DigitsValue(s)) == s
    decreases |s|
  {
    if |s| == 1 {
      assert s[..0] == [];
    } else {
      var init := s[..|s| - 1];
      var d := DigitValue(s[|s| - 1]);
      assert IsCanonical(init);
      CanonicalPositive(init);
      DecimalOfDigits(init);
      var n := DigitsValue(s);
      assert n == DigitsValue(init) * 10 + d;
      assert n / 10 == DigitsValue(init) && n % 10 == d;
      assert s == init + [s[|s| - 1]];
    }
  }

  /** A parsed counter is written back as exactly the text it was read from. */
  lemma ParsedIsWritten(s: string, n: U32)
    requires ParseCounter(s) == Some(n)
    ensures DecimalString(n) == s
  {
    DecimalOfDigits(s);
  }
}
