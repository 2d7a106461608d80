/** `getSystemUptime` and `formatUptime`: the seconds since boot read from
    `/proc/uptime`, and the label shown for a whole number of seconds. */
module Uptime {
  import opened Wrappers
  import opened Strings
  import opened Numbers

  /** `getSystemUptime` for the contents of `/proc/uptime`, None when it could
      not be read: `parseFloat` of the text before the first space, None
      where that is NaN. A failed read gives 0. */
  function SystemUptime(contents: Option<string>): (uptime: Option<Decimal>)
    ensures contents.None? ==> uptime == Some(Zero)
    ensures contents.Some? && ' ' !in contents.value ==> uptime == ParseFloat(contents.value)
  {
    match contents
    case None => Some(Zero)
    case Some(text) =>
      WholeToken(text);
      ParseFloat(Split(text, ' ')[0])
  }

  /** Text without a space is its own first token. */
  lemma WholeToken(text: string)
    ensures ' ' !in text ==> Split(text, ' ')[0] == text
  {
    if ' ' !in text {
      SplitWhole(text, ' ');
    }
  }

  /** The kernel writes the uptime and the idle time as fixed-point numbers
      separated by a space: the uptime is read exactly. */
  lemma UptimeOfProc(whole: string, frac: string, idle: string)
    requires |whole| >= 1 && AllDigits(whole) && AllDigits(frac)
    ensures SystemUptime(Some(whole + "." + frac + " " + idle))
         == Some(Decimal(false, NumberValue(whole + frac, 10), -(|frac| as int)))
  {
    var first := whole + "." + frac;
    assert ' ' !in first by {
      assert forall k :: 0 <= k < |first| ==> IsDigit(first[k]) || first[k] == '.';
    }
    SplitAfter(first, idle, ' ');
    assert whole + "." + frac + " " + idle == first + [' '] + idle;
    ParseFloatFixedPoint(whole, frac, "");
    assert whole + "." + frac + "" == first;
  }

  /** The whole days, the hours left over and the minutes left over. */
  function Days(seconds: nat): nat {
    seconds / 86400
  }

  function Hours(seconds: nat): nat {
    (seconds % 86400) / 3600
  }

  function Minutes(seconds: nat): nat {
    (seconds % 3600) / 60
  }

  /** The parts are a clock reading: hours below 24, minutes below 60, and
      together with the leftover seconds they make up the whole count. */
  lemma PartsBounds(seconds: nat)
    ensures Hours(seconds) < 24 && Minutes(seconds) < 60
    ensures seconds == 86400 * Days(seconds) + 3600 * Hours(seconds) + 60 * Minutes(seconds) + seconds % 60
  {
    var d, r := seconds / 86400, seconds % 86400;
    var h, r' := r / 3600, r % 3600;
    Quotient3600(seconds, 24 * d + h, r');
    var m, rest := r' / 60, r' % 60;
    Quotient60(seconds, 1440 * d + 60 * h + m, rest);
  }

  /** The parts are the only clock reading of the count: any days, hours
      below 24, minutes below 60 and seconds below 60 that add up to it are
      the ones computed. */
  lemma PartsUnique(seconds: nat, d: nat, h: nat, m: nat, s: nat)
    requires h < 24 && m < 60 && s < 60
    requires seconds == 86400 * d + 3600 * h + 60 * m + s
    ensures Days(seconds) == d && Hours(seconds) == h && Minutes(seconds) == m
  {
    Quotient86400(seconds, d, 3600 * h + 60 * m + s);
    Quotient3600(3600 * h + 60 * m + s, h, 60 * m + s);
    Quotient3600(seconds, 24 * d + h, 60 * m + s);
    Quotient60(60 * m + s, m, s);
  }

  lemma Quotient86400(x: int, q: int, r: int)
    requires x == 86400 * q + r && 0 <= r < 86400
    ensures x / 86400 == q && x % 86400 == r
  {
  }

  lemma Quotient3600(x: int, q: int, r: int)
    requires x == 3600 * q + r && 0 <= r < 3600
    ensures x / 3600 == q && x % 3600 == r
  {
  }

  lemma Quotient60(x: int, q: int, r: int)
    requires x == 60 * q + r && 0 <= r < 60
    ensures x / 60 == q && x % 60 == r
  {
  }

  /** `formatUptime` for a whole number of seconds: days, hours and minutes,
      leading parts left out while they are 0. */
  function FormatUptime(seconds: nat): (text: string)
    ensures |text| >= 2 && text[|text| - 1] == 'm'
  {
    Label(Days(seconds), Hours(seconds), Minutes(seconds))
  }

  function Label(days: nat, hours: nat, minutes: nat): string {
    if days > 0 then Unit(days, 'd') + " " + Unit(hours, 'h') + " " + Unit(minutes, 'm')
    else if hours > 0 then Unit(hours, 'h') + " " + Unit(minutes, 'm')
    else Unit(minutes, 'm')
  }

  function Unit(n: nat, suffix: char): string {
    NatToString(n) + [suffix]
  }

  /** The seconds a label part stands for: its number times its unit. */
  function PartSeconds(part: string): int {
    if |part| == 0 then 0 else ParseInt(part).GetOr(0) * UnitSeconds(part[|part| - 1])
  }

  function UnitSeconds(suffix: char): nat {
    if suffix == 'd' then 86400 else if suffix == 'h' then 3600 else if suffix == 'm' then 60 else 0
  }

  /** The seconds a label stands for: the sum over its space-separated parts. */
  function ReadUptime(text: string): int {
    SumParts(Split(text, ' '), PartSeconds)
  }

  function SumParts(parts: seq<string>, value: string -> int): int
    decreases |parts|
  {
    if |parts| == 0 then 0 else value(parts[0]) + SumParts(parts[1..], value)
  }

  /** The label loses only the seconds below a minute: read back, it gives
      the count rounded down to whole minutes. */
  lemma ReadFormatUptime(seconds: nat)
    ensures ReadUptime(FormatUptime(seconds)) == seconds - seconds % 60
  {
    LabelValue(Days(seconds), Hours(seconds), Minutes(seconds));
    PartsBounds(seconds);
  }

  /** A label stands for the days, hours and minutes it was made from. */
  lemma LabelValue(d: nat, h: nat, m: nat)
    ensures ReadUptime(Label(d, h, m)) == 86400 * d + 3600 * h + 60 * m
  {
    if d > 0 {
      DaysValue(d, h, m);
    } else if h > 0 {
      HoursValue(h, m);
    } else {
      MinutesValue(m);
    }
  }

  lemma DaysValue(d: nat, h: nat, m: nat)
    ensures ReadUptime(Unit(d, 'd') + " " + Unit(h, 'h') + " " + Unit(m, 'm')) == 86400 * d + 3600 * h + 60 * m
  {
    UnitNoSpace(d, 'd');
    UnitNoSpace(h, 'h');
    UnitNoSpace(m, 'm');
    ThreeParts(Unit(d, 'd'), Unit(h, 'h'), Unit(m, 'm'));
    UnitRead(d, 'd', 86400);
    UnitRead(h, 'h', 3600);
    UnitRead(m, 'm', 60);
  }

  lemma HoursValue(h: nat, m: nat)
    ensures ReadUptime(Unit(h, 'h') + " " + Unit(m, 'm')) == 3600 * h + 60 * m
  {
    UnitNoSpace(h, 'h');
    UnitNoSpace(m, 'm');
    TwoParts(Unit(h, 'h'), Unit(m, 'm'));
    UnitRead(h, 'h', 3600);
    UnitRead(m, 'm', 60);
  }

  lemma MinutesValue(m: nat)
    ensures ReadUptime(Unit(m, 'm')) == 60 * m
  {
    UnitNoSpace(m, 'm');
    OnePart(Unit(m, 'm'));
    UnitRead(m, 'm', 60);
  }

  /** The label has one part per unit shown: all three when there are days,
      hours and minutes when there are hours, otherwise minutes alone. */
  lemma LabelShape(d: nat, h: nat, m: nat)
    ensures d > 0 ==> Split(Label(d, h, m), ' ') == [Unit(d, 'd'), Unit(h, 'h'), Unit(m, 'm')]
    ensures d == 0 && h > 0 ==> Split(Label(d, h, m), ' ') == [Unit(h, 'h'), Unit(m, 'm')]
    ensures d == 0 && h == 0 ==> Split(Label(d, h, m), ' ') == [Unit(m, 'm')]
  {
    UnitNoSpace(d, 'd');
    UnitNoSpace(h, 'h');
    UnitNoSpace(m, 'm');
    if d > 0 {
      SplitThree(Unit(d, 'd'), Unit(h, 'h'), Unit(m, 'm'));
    } else if h > 0 {
      SplitTwo(Unit(h, 'h'), Unit(m, 'm'));
    } else {
      SplitWhole(Unit(m, 'm'), ' ');
    }
  }

  lemma UnitRead(n: nat, suffix: char, seconds: nat)
    requires suffix == 'd' || suffix == 'h' || suffix == 'm'
    requires seconds == UnitSeconds(suffix)
    ensures PartSeconds(Unit(n, suffix)) == n * seconds
  {
    ParseIntOfRendered(n, [suffix]);
  }

  lemma UnitNoSpace(n: nat, suffix: char)
    requires suffix != ' '
    ensures ' ' !in Unit(n, suffix)
  {
    assert ' ' !in NatToString(n);
  }

  lemma SplitThree(a: string, b: string, c: string)
    requires ' ' !in a && ' ' !in b && ' ' !in c
    ensures Split(a + " " + b + " " + c, ' ') == [a, b, c]
  {
    SplitTwo(b, c);
    SplitAfter(a, b + " " + c, ' ');
    SpacedThree(a, b, c);
  }

  lemma SpacedThree(a: string, b: string, c: string)
    ensures a + " " + b + " " + c == a + [' '] + (b + " " + c)
  {
  }

  lemma SplitTwo(a: string, b: string)
    requires ' ' !in a && ' ' !in b
    ensures Split(a + " " + b, ' ') == [a, b]
  {
    SplitWhole(b, ' ');
    SplitAfter(a, b, ' ');
    assert a + " " + b == a + [' '] + b;
  }

  lemma ThreeParts(a: string, b: string, c: string)
    requires ' ' !in a && ' ' !in b && ' ' !in c
    ensures ReadUptime(a + " " + b + " " + c) == PartSeconds(a) + PartSeconds(b) + PartSeconds(c)
  {
    SplitThree(a, b, c);
    SumThree(a, b, c, PartSeconds);
  }

  lemma TwoParts(a: string, b: string)
    requires ' ' !in a && ' ' !in b
    ensures ReadUptime(a + " " + b) == PartSeconds(a) + PartSeconds(b)
  {
    SplitTwo(a, b);
    SumTwo(a, b, PartSeconds);
  }

  lemma OnePart(a: string)
    requires ' ' !in a
    ensures ReadUptime(a) == PartSeconds(a)
  {
    SplitWhole(a, ' ');
    SumOne(a, PartSeconds);
  }

  lemma SumThree(a: string, b: string, c: string, value: string -> int)
    ensures SumParts([a, b, c], value) == value(a) + value(b) + value(c)
  {
    assert [a, b, c][1..] == [b, c];
    SumTwo(b, c, value);
  }

  lemma SumTwo(a: string, b: string, value: string -> int)
    ensures SumParts([a, b], value) == value(a) + value(b)
  {
    assert [a, b][1..] == [b];
    SumOne(b, value);
  }

  lemma SumOne(a: string, value: string -> int)
    ensures SumParts([a], value) == value(a)
  {
    assert [a][1..] == [];
  }
}
