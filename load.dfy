/** `getLoadAverage`: the 1-, 5- and 15-minute load averages, the first three
    space-separated tokens of `/proc/loadavg`. */
module Load {
  import opened Wrappers
  import opened Strings
  import opened Numbers

  /** `parseFloat(parts[k]) || 0`: a missing token, one that is not a number
      and one that reads as zero all give 0. */
  function Field(parts: seq<string>, k: nat): Decimal {
    if k < |parts| then OrZero(ParseFloat(parts[k])) else Zero
  }

  /** `getLoadAverage` for the contents of `/proc/loadavg`, None when it could
      not be read: always three values, none of them NaN. */
  function LoadAverage(contents: Option<string>): (load: seq<Decimal>)
    ensures |load| == 3
    ensures forall k :: 0 <= k < 3 ==> (load[k].mantissa == 0 ==> load[k] == Zero)
    ensures contents.None? ==> load == [Zero, Zero, Zero]
  {
    match contents
    case None => [Zero, Zero, Zero]
    case Some(text) =>
      var parts := Split(text, ' ');
      [Field(parts, 0), Field(parts, 1), Field(parts, 2)]
  }

  /** A fixed-point token as the kernel writes a load average, `0.52`. */
  datatype Reading = Reading(whole: string, frac: string)

  predicate Printable(r: Reading) {
    |r.whole| >= 1 && AllDigits(r.whole) && AllDigits(r.frac)
  }

  function Token(r: Reading): string {
    r.whole + "." + r.frac
  }

  /** The number a token stands for. */
  function ValueOf(r: Reading): Decimal {
    Decimal(false, NumberValue(r.whole + r.frac, 10), -(|r.frac| as int))
  }

  /** What the kernel writes, three load averages followed by the run queue
      and the last PID, is read as the three numbers it shows (a reading of
      zero as 0). */
  lemma LoadOfProc(a: Reading, b: Reading, c: Reading, rest: string)
    requires Printable(a) && Printable(b) && Printable(c)
    ensures LoadAverage(Some(Token(a) + " " + Token(b) + " " + Token(c) + " " + rest))
         == [OrZero(Some(ValueOf(a))), OrZero(Some(ValueOf(b))), OrZero(Some(ValueOf(c)))]
  {
    TokenNoSpace(a);
    TokenNoSpace(b);
    TokenNoSpace(c);
    var text := Token(a) + " " + Token(b) + " " + Token(c) + " " + rest;
    FirstThree(Token(a), Token(b), Token(c), rest);
    LoadOfTokens(text, Token(a), Token(b), Token(c));
    TokenValue(a);
    TokenValue(b);
    TokenValue(c);
  }

  /** Text without a space is one token: the second and third averages are 0. */
  lemma LoadOfOneToken(text: string)
    requires ' ' !in text
    ensures LoadAverage(Some(text))[1] == Zero && LoadAverage(Some(text))[2] == Zero
    ensures LoadAverage(Some(text))[0] == OrZero(ParseFloat(text))
  {
    SplitWhole(text, ' ');
  }

  lemma LoadOfTokens(text: string, x: string, y: string, z: string)
    requires |Split(text, ' ')| >= 3 && Split(text, ' ')[..3] == [x, y, z]
    ensures LoadAverage(Some(text)) == [OrZero(ParseFloat(x)), OrZero(ParseFloat(y)), OrZero(ParseFloat(z))]
  {
    var parts := Split(text, ' ');
    assert parts[0] == x && parts[1] == y && parts[2] == z by {
      assert parts[..3][0] == parts[0] && parts[..3][1] == parts[1] && parts[..3][2] == parts[2];
    }
  }

  lemma TokenValue(r: Reading)
    requires Printable(r)
    ensures ParseFloat(Token(r)) == Some(ValueOf(r))
  {
    ParseFloatFixedPoint(r.whole, r.frac, "");
    assert r.whole + "." + r.frac + "" == Token(r);
  }

  lemma TokenNoSpace(r: Reading)
    requires Printable(r)
    ensures ' ' !in Token(r)
  {
    var t := Token(r);
    assert forall k :: 0 <= k < |t| ==> IsDigit(t[k]) || t[k] == '.';
  }

  lemma FirstThree(a: string, b: string, c: string, rest: string)
    requires ' ' !in a && ' ' !in b && ' ' !in c
    ensures |Split(a + " " + b + " " + c + " " + rest, ' ')| >= 3
    ensures Split(a + " " + b + " " + c + " " + rest, ' ')[..3] == [a, b, c]
  {
    SplitAfter(c, rest, ' ');
    SplitAfter(b, c + [' '] + rest, ' ');
    SplitAfter(a, b + [' '] + (c + [' '] + rest), ' ');
    SpacedFour(a, b, c, rest);
  }

  lemma SpacedFour(a: string, b: string, c: string, rest: string)
    ensures a + " " + b + " " + c + " " + rest == a + [' '] + (b + [' '] + (c + [' '] + rest))
  {
  }
}
