/** The number handling of the JavaScript runtime that the sampler relies on:
    `parseInt` and `parseFloat` on text, the decimal rendering of a whole
    number in a template string, and `Math.round` of a quotient. Numbers are
    exact: a parsed decimal is kept as mantissa and power of ten, and a
    quotient is rounded as a rational, not as a binary float. */
module Numbers {
  import opened Wrappers
  import opened Strings

  predicate IsHexDigit(c: char) {
    IsDigit(c) || 'a' <= c <= 'f' || 'A' <= c <= 'F'
  }

  /** The value of a hexadecimal digit; other characters never reach it. */
  function DigitValue(c: char): (v: nat)
    ensures v < 16
    ensures IsDigit(c) ==> v < 10
  {
    if IsDigit(c) then c as int - '0' as int
    else if 'a' <= c <= 'f' then c as int - 'a' as int + 10
    else if 'A' <= c <= 'F' then c as int - 'A' as int + 10
    else 0
  }

  predicate AllDigits(s: string) {
    forall k :: 0 <= k < |s| ==> IsDigit(s[k])
  }

  /** The value of a string of digits in the given radix, most significant first. */
  function NumberValue(digits: string, radix: nat): nat
    decreases |digits|
  {
    if |digits| == 0 then 0
    else radix * NumberValue(digits[..|digits| - 1], radix) + DigitValue(digits[|digits| - 1])
  }

  function Pow10(n: nat): (p: nat)
    ensures p >= 1
  {
    if n == 0 then 1 else 10 * Pow10(n - 1)
  }

  /** Appending digits shifts the value left by as many decimal places. */
  lemma {:induction false} NumberValueAppend(a: string, b: string)
    requires AllDigits(a) && AllDigits(b)
    ensures NumberValue(a + b, 10) == NumberValue(a, 10) * Pow10(|b|) + NumberValue(b, 10)
    decreases |b|
  {
    if |b| == 0 {
      assert a + b == a;
    } else {
      var b' := b[..|b| - 1];
      var last := DigitValue(b[|b| - 1]);
      NumberValueAppend(a, b');
      LastDigit(a, b);
      ShiftByTen(NumberValue(a, 10), Pow10(|b'|), NumberValue(b', 10), last);
    }
  }

  /** The last digit of `a + b` is that of `b`, which also ends the value of each. */
  lemma LastDigit(a: string, b: string)
    requires |b| > 0
    ensures NumberValue(a + b, 10) == 10 * NumberValue(a + b[..|b| - 1], 10) + DigitValue(b[|b| - 1])
    ensures NumberValue(b, 10) == 10 * NumberValue(b[..|b| - 1], 10) + DigitValue(b[|b| - 1])
  {
    AppendInit(a, b);
    LastDigitOf(a + b);
    LastDigitOf(b);
  }

  lemma AppendInit(a: string, b: string)
    requires |b| > 0
    ensures (a + b)[..|a + b| - 1] == a + b[..|b| - 1]
    ensures (a + b)[|a + b| - 1] == b[|b| - 1]
  {
  }

  lemma LastDigitOf(s: string)
    requires |s| > 0
    ensures NumberValue(s, 10) == 10 * NumberValue(s[..|s| - 1], 10) + DigitValue(s[|s| - 1])
  {
  }

  lemma ShiftByTen(va: int, p: int, vb: int, last: int)
    ensures 10 * (va * p + vb) + last == va * (10 * p) + (10 * vb + last)
  {
  }

  function DigitChar(d: nat): (c: char)
    requires d < 10
    ensures IsDigit(c) && DigitValue(c) == d
  {
    ('0' as int + d) as char
  }

  /** The decimal rendering of a whole number, as a template string writes it. */
  function NatToString(n: nat): (s: string)
    ensures |s| >= 1 && AllDigits(s)
    ensures s[0] == '0' ==> n == 0
    decreases n
  {
    (if n < 10 then "" else NatToString(n / 10)) + [DigitChar(n % 10)]
  }

  /** Reading a rendered number back gives the number. */
  lemma {:induction false} NatToStringValue(n: nat)
    ensures NumberValue(NatToString(n), 10) == n
    decreases n
  {
    var s := NatToString(n);
    var prefix := if n < 10 then "" else NatToString(n / 10);
    assert s[..|s| - 1] == prefix;
    if n >= 10 {
      NatToStringValue(n / 10);
    }
  }

  /** Leading whitespace skipped and an optional sign taken off: whether the
      sign was `-`, and the text after it. */
  function SignAndRest(s: string): (bool, string)
  {
    var t := TrimStart(s);
    if |t| > 0 && (t[0] == '-' || t[0] == '+') then (t[0] == '-', t[1..]) else (false, t)
  }

  lemma SignOfDigitStart(s: string)
    requires |s| > 0 && IsDigit(s[0])
    ensures SignAndRest(s) == (false, s)
  {
    assert !IsSpace(s[0]);
  }

  /** `parseInt(s)` without a radix: leading whitespace is skipped, then an
      optional sign; the digits that follow give the value, and no digit at
      all gives NaN (None). */
  function ParseInt(s: string): Option<int>
  {
    var (negative, u) := SignAndRest(s);
    match UnsignedInt(u)
    case None => None
    case Some(m) => Some(if negative then -(m as int) else m)
  }

  /** The digits at the start of `u`: `0x`/`0X` selects hexadecimal, and the
      longest run of digits that follows is the value. */
  function UnsignedInt(u: string): Option<nat>
  {
    var hex := |u| >= 2 && u[0] == '0' && (u[1] == 'x' || u[1] == 'X');
    var v := if hex then u[2..] else u;
    var n := if hex then Run(v, 0, IsHexDigit) else Run(v, 0, IsDigit);
    if n == 0 then None else Some(NumberValue(v[..n], if hex then 16 else 10))
  }

  /** `parseInt` reads back a rendered whole number, whatever non-digit text follows it. */
  lemma ParseIntOfRendered(n: nat, rest: string)
    requires rest == "" || (!IsDigit(rest[0]) && rest[0] != 'x' && rest[0] != 'X')
    ensures ParseInt(NatToString(n) + rest) == Some(n)
  {
    var d := NatToString(n);
    var s := d + rest;
    assert s[0] == d[0];
    SignOfDigitStart(s);
    UnsignedIntOfRendered(d, n, rest);
  }

  lemma UnsignedIntOfRendered(d: string, n: nat, rest: string)
    requires d == NatToString(n)
    requires rest == "" || (!IsDigit(rest[0]) && rest[0] != 'x' && rest[0] != 'X')
    ensures UnsignedInt(d + rest) == Some(n)
  {
    var s := d + rest;
    DigitsThenStop(d, rest);
    NoHexPrefix(d, n, rest);
    UnsignedIntDecimal(s, |d|);
    assert s[..|d|] == d;
    NatToStringValue(n);
  }

  lemma DigitsThenStop(d: string, rest: string)
    requires AllDigits(d)
    requires rest == "" || !IsDigit(rest[0])
    ensures Run(d + rest, 0, IsDigit) == |d|
  {
    var s := d + rest;
    assert forall k :: 0 <= k < |d| ==> IsDigit(s[k]) by {
      forall k | 0 <= k < |d| ensures IsDigit(s[k]) {
        assert s[k] == d[k];
      }
    }
    assert |d| < |s| ==> s[|d|] == rest[0];
    RunExact(s, 0, |d|, IsDigit);
  }

  lemma NoHexPrefix(d: string, n: nat, rest: string)
    requires d == NatToString(n)
    requires rest == "" || (rest[0] != 'x' && rest[0] != 'X')
    ensures var s := d + rest; !(|s| >= 2 && s[0] == '0' && (s[1] == 'x' || s[1] == 'X'))
  {
    var s := d + rest;
    if |d| >= 2 {
      assert s[0] == d[0];
    } else if |s| >= 2 {
      assert s[1] == rest[0];
    }
  }

  lemma UnsignedIntDecimal(s: string, k: nat)
    requires k <= |s|
    requires !(|s| >= 2 && s[0] == '0' && (s[1] == 'x' || s[1] == 'X'))
    requires Run(s, 0, IsDigit) == k > 0
    ensures UnsignedInt(s) == Some(NumberValue(s[..k], 10))
  {
  }

  /** A decimal number held exactly: (−1)^negative × mantissa × 10^exponent. */
  datatype Decimal = Decimal(negative: bool, mantissa: nat, exponent: int) {

    /** `lo < x && x < hi` for whole bounds `0 <= lo`. */
    predicate Between(lo: nat, hi: nat) {
      && !negative
      && if exponent >= 0 then lo < mantissa * Pow10(exponent) < hi
         else lo * Pow10(-exponent) < mantissa < hi * Pow10(-exponent)
    }

    /** `Math.round(x)`. */
    function Round(): int {
      var signed: int := if negative then -(mantissa as int) else mantissa;
      if exponent >= 0 then signed * Pow10(exponent) else RoundDiv(signed, Pow10(-exponent))
    }
  }

  const Zero := Decimal(false, 0, 0)

  /** `parseFloat(s)`: leading whitespace is skipped, then an optional sign;
      the number written after it is the value, and without one the result
      is NaN (None). */
  function ParseFloat(s: string): Option<Decimal>
  {
    var (negative, u) := SignAndRest(s);
    match UnsignedFloat(u)
    case None => None
    case Some((mantissa, exponent)) => Some(Decimal(negative, mantissa, exponent))
  }

  /** The longest prefix of `u` made of digits, an optional point and digits
      (at least one digit in all) and an optional exponent (`e` or `E`, an
      optional sign, at least one digit), as mantissa and power of ten. */
  function UnsignedFloat(u: string): Option<(nat, int)>
  {
    var i := Run(u, 0, IsDigit);
    var dot := i < |u| && u[i] == '.';
    var f := if dot then Run(u, i + 1, IsDigit) else 0;
    if i == 0 && f == 0 then None
    else
      var digits := if dot then u[..i] + u[i + 1..i + 1 + f] else u[..i];
      var end := if dot then i + 1 + f else i;
      Some((NumberValue(digits, 10), ExponentPart(u, end) - f))
  }

  /** The exponent written at `j`, or 0 when none is written there. */
  function ExponentPart(u: string, j: nat): int
    requires j <= |u|
  {
    if j < |u| && (u[j] == 'e' || u[j] == 'E') then
      var k := j + 1;
      var negative := k < |u| && u[k] == '-';
      var m := if k < |u| && (u[k] == '-' || u[k] == '+') then k + 1 else k;
      var n := Run(u, m, IsDigit);
      var value: int := if n == 0 then 0 else NumberValue(u[m..m + n], 10);
      if negative then -value else value
    else 0
  }

  /** `parseFloat` of a fixed-point token such as `0.52` is that number: all
      its digits form the mantissa (by `NumberValueAppend`, the whole part
      shifted left past the fraction) and its fraction length is the negative
      exponent. */
  lemma ParseFloatFixedPoint(whole: string, frac: string, rest: string)
    requires |whole| >= 1 && AllDigits(whole) && AllDigits(frac)
    requires rest == "" || (!IsDigit(rest[0]) && rest[0] != 'e' && rest[0] != 'E')
    ensures ParseFloat(whole + "." + frac + rest)
         == Some(Decimal(false, NumberValue(whole + frac, 10), -(|frac| as int)))
  {
    var s := whole + "." + frac + rest;
    assert s[0] == whole[0];
    SignOfDigitStart(s);
    UnsignedFixedPoint(whole, frac, rest);
  }

  lemma UnsignedFixedPoint(whole: string, frac: string, rest: string)
    requires |whole| >= 1 && AllDigits(whole) && AllDigits(frac)
    requires rest == "" || (!IsDigit(rest[0]) && rest[0] != 'e' && rest[0] != 'E')
    ensures UnsignedFloat(whole + "." + frac + rest)
         == Some((NumberValue(whole + frac, 10), -(|frac| as int)))
  {
    var s := whole + "." + frac + rest;
    FixedRuns(s, whole, frac, rest);
    UnsignedFloatFixed(s, |whole|, |frac|, whole + frac);
  }

  /** Where the parts of a fixed-point token sit in the text. */
  lemma FixedPointLayout(s: string, whole: string, frac: string, rest: string)
    requires s == whole + "." + frac + rest
    ensures |s| == |whole| + 1 + |frac| + |rest|
    ensures s[..|whole|] == whole && s[|whole|] == '.'
    ensures s[|whole| + 1..|whole| + 1 + |frac|] == frac
    ensures s[|whole| + 1 + |frac|..] == rest
  {
  }

  /** The digit runs of a text laid out as a fixed-point token. */
  lemma FixedRuns(s: string, whole: string, frac: string, rest: string)
    requires |whole| >= 1 && AllDigits(whole) && AllDigits(frac)
    requires rest == "" || (!IsDigit(rest[0]) && rest[0] != 'e' && rest[0] != 'E')
    requires s == whole + "." + frac + rest
    ensures |whole| < |s| && s[|whole|] == '.'
    ensures Run(s, 0, IsDigit) == |whole|
    ensures Run(s, |whole| + 1, IsDigit) == |frac|
    ensures |whole| + 1 + |frac| == |s| || (s[|whole| + 1 + |frac|] != 'e' && s[|whole| + 1 + |frac|] != 'E')
    ensures s[..|whole|] + s[|whole| + 1..|whole| + 1 + |frac|] == whole + frac
  {
    var e := |whole| + 1 + |frac|;
    FixedPointLayout(s, whole, frac, rest);
    assert e < |s| ==> s[e] == rest[0];
    RunOverDigits(s, 0, whole);
    RunOverDigits(s, |whole| + 1, frac);
  }

  lemma RunOverDigits(s: string, i: nat, d: string)
    requires i + |d| <= |s| && s[i..i + |d|] == d && AllDigits(d)
    requires i + |d| == |s| || !IsDigit(s[i + |d|])
    ensures Run(s, i, IsDigit) == |d|
  {
    assert forall k :: i <= k < i + |d| ==> IsDigit(s[k]) by {
      forall k | i <= k < i + |d| ensures IsDigit(s[k]) {
        assert s[k] == d[k - i];
      }
    }
    RunExact(s, i, i + |d|, IsDigit);
  }

  /** `UnsignedFloat` of digits, a point and digits not followed by an exponent. */
  lemma UnsignedFloatFixed(s: string, i: nat, f: nat, digits: string)
    requires 0 < i < |s| && s[i] == '.'
    requires Run(s, 0, IsDigit) == i
    requires Run(s, i + 1, IsDigit) == f
    requires i + 1 + f == |s| || (s[i + 1 + f] != 'e' && s[i + 1 + f] != 'E')
    requires digits == s[..i] + s[i + 1..i + 1 + f]
    ensures UnsignedFloat(s) == Some((NumberValue(digits, 10), -(f as int)))
  {
    assert ExponentPart(s, i + 1 + f) == 0;
  }

  /** `parseFloat(x) || 0`: NaN and zero both become 0. */
  function OrZero(d: Option<Decimal>): (r: Decimal)
    ensures r.mantissa == 0 ==> r == Zero
    ensures d.Some? && d.value.mantissa != 0 ==> r == d.value
    ensures d.None? || d.value.mantissa == 0 ==> r == Zero
  {
    if d.None? || d.value.mantissa == 0 then Zero else d.value
  }

  /** `Math.round(n / d)` for a positive divisor: the nearest whole number,
      a half rounded up. */
  function RoundDiv(n: int, d: int): int
    requires d > 0
  {
    (2 * n + d) / (2 * d)
  }

  /** The rounded quotient is the whole number nearest to `n / d`: it lies
      within half of one of the quotient, and a half goes up. */
  lemma RoundDivNearest(n: int, d: int)
    requires d > 0
    ensures 2 * d * RoundDiv(n, d) - d <= 2 * n < 2 * d * RoundDiv(n, d) + d
  {
    var q := RoundDiv(n, d);
    assert 2 * n + d == 2 * d * q + (2 * n + d) % (2 * d);
  }

  /** Rounding a quotient that lies in [lo, hi] stays in [lo, hi]. */
  lemma RoundDivBounds(n: int, d: int, lo: int, hi: int)
    requires d > 0
    requires lo * d <= n <= hi * d
    ensures lo <= RoundDiv(n, d) <= hi
  {
    var r := RoundDiv(n, d);
    RoundDivNearest(n, d);
    if r > hi {
      var k := 2 * r - 2 * hi - 1;
      assert d * k == 2 * d * r - 2 * hi * d - d;
      MulAtLeast(d, k);
    } else if r < lo {
      var k := 2 * lo - 2 * r - 1;
      assert d * k == 2 * lo * d - 2 * d * r - d;
      MulAtLeast(d, k);
    }
  }

  lemma MulAtLeast(d: int, k: int)
    requires d > 0 && k >= 1
    ensures d * k >= d
  {
    assert d * k == d * (k - 1) + d;
  }
}
