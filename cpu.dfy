/** The CPU usage sampler: `getCPUInfo` with the module-level
    `previousCPUStats` it carries from one call to the next. Usage is the busy
    share of the clock ticks counted between two consecutive samples of the
    aggregate `cpu` line of /proc/stat. */
module Cpu {
  import opened Wrappers
  import opened Strings
  import opened Numbers

  /** The first four counters of the aggregate `cpu` line, in clock ticks. */
  datatype Counters = Counters(user: nat, nice: nat, system: nat, idle: nat) {
    function Total(): nat {
      user + nice + system + idle
    }
  }

  /** `\s+(\d+)` matched at the start of `s`: the number and what follows its digits. */
  function SpacedNumber(s: string): (r: Option<(nat, string)>)
    ensures r.Some? ==> |r.value.1| < |s|
  {
    var spaces := Run(s, 0, IsSpace);
    var digits := Run(s, spaces, IsDigit);
    if spaces == 0 || digits == 0 then None
    else Some((NumberValue(s[spaces..spaces + digits], 10), s[spaces + digits..]))
  }

  /** `n` repetitions of `\s+(\d+)` at the start of `s`: the numbers and what follows them. */
  function SpacedNumbers(s: string, n: nat): (r: Option<(seq<nat>, string)>)
    ensures r.Some? ==> |r.value.0| == n
    decreases n
  {
    if n == 0 then Some(([], s))
    else
      var first :- SpacedNumber(s);
      var rest :- SpacedNumbers(first.1, n - 1);
      Some(([first.0] + rest.0, rest.1))
  }

  /** The pattern `cpu\s+(\d+)\s+(\d+)\s+(\d+)\s+(\d+)` matched at position `p`.
      Each `\s+` and `\d+` takes the longest run: a shorter one would leave a
      space where a digit is needed or a digit where a space is needed, so
      backtracking never finds another match. */
  function MatchStatAt(line: string, p: nat): Option<Counters>
    requires p <= |line|
  {
    if !StartsWith(line[p..], "cpu") then None
    else
      var fields :- SpacedNumbers(line[p + 3..], 4);
      var v := fields.0;
      Some(Counters(v[0], v[1], v[2], v[3]))
  }

  /** The leftmost match of the pattern at or after `p`. */
  function FindStat(line: string, p: nat): Option<Counters>
    requires p <= |line|
    decreases |line| - p
  {
    var m := MatchStatAt(line, p);
    if m.Some? || p == |line| then m else FindStat(line, p + 1)
  }

  /** The counters `getCPUInfo` takes from the text of /proc/stat: the first
      match of the pattern in the first line. */
  function ParseStat(text: string): Option<Counters> {
    FindStat(Split(text, '\n')[0], 0)
  }

  /** The counters of one read of /proc/stat; None when the read fails or the
      first line does not match. */
  function StatSample(stat: Option<string>): (sample: Option<Counters>)
    ensures stat.None? ==> sample.None?
  {
    match stat
    case None => None
    case Some(text) => ParseStat(text)
  }

  /** Only the first line of /proc/stat is looked at: whatever follows the
      first line break leaves the counters unchanged. */
  lemma ParseStatFirstLine(first: string, rest: string)
    requires '\n' !in first
    ensures ParseStat(first + "\n" + rest) == ParseStat(first)
  {
    SplitAfter(first, rest, '\n');
    SplitWhole(first, '\n');
    assert first + "\n" + rest == first + ['\n'] + rest;
  }

  /** The usage `getCPUInfo` reports for `current` after `previous`:
      0 on the first sample, 0 when no tick passed, and otherwise
      `Math.round((totalDiff - idleDiff) / totalDiff * 100)`, the whole number
      nearest to the busy percentage with halves rounded up. */
  function Usage(previous: Option<Counters>, current: Counters): (usage: int)
    ensures previous.None? ==> usage == 0
    ensures previous.Some? && current.Total() <= previous.value.Total() ==> usage == 0
  {
    match previous
    case None => 0
    case Some(p) =>
      var totalDiff := current.Total() - p.Total();
      var idleDiff := current.idle - p.idle;
      if totalDiff > 0 then RoundDiv(100 * (totalDiff - idleDiff), totalDiff) else 0
  }

  /** When ticks passed, the usage is the whole percentage nearest to the
      busy share of them: within half a percent, a half going up. */
  lemma UsageNearest(previous: Counters, current: Counters)
    requires current.Total() > previous.Total()
    ensures var totalDiff := current.Total() - previous.Total();
      var busy := totalDiff - (current.idle - previous.idle);
      var usage := Usage(Some(previous), current);
      2 * totalDiff * usage - totalDiff <= 200 * busy < 2 * totalDiff * usage + totalDiff
  {
    var totalDiff := current.Total() - previous.Total();
    RoundDivNearest(100 * (totalDiff - (current.idle - previous.idle)), totalDiff);
  }

  /** While the idle ticks that passed are no more than all ticks that passed,
      the usage is a percentage. */
  lemma UsageInRange(previous: Counters, current: Counters)
    requires 0 <= current.idle - previous.idle <= current.Total() - previous.Total()
    ensures 0 <= Usage(Some(previous), current) <= 100
  {
    var totalDiff := current.Total() - previous.Total();
    if totalDiff > 0 {
      RoundDivBounds(100 * (totalDiff - (current.idle - previous.idle)), totalDiff, 0, 100);
    }
  }

  /** `previousCPUStats` and the method that reads and replaces it. */
  class CpuSampler {
    /** The counters of the last sample that parsed; None before the first. */
    var previous: Option<Counters>

    constructor()
      ensures previous == None
    {
      previous := None;
    }

    /** One call of `getCPUInfo` on one read of /proc/stat. A failed read or a
        first line that does not match reports 0 and keeps the stored counters;
        otherwise the usage is measured against the stored counters and the new
        ones replace them. */
    method Sample(stat: Option<string>) returns (usage: int)
      modifies this
      ensures StatSample(stat).None? ==> usage == 0 && previous == old(previous)
      ensures StatSample(stat).Some? ==>
        usage == Usage(old(previous), StatSample(stat).value) && previous == StatSample(stat)
    {
      var parsed := StatSample(stat);
      if parsed.None? {
        return 0;
      }
      usage := Record(parsed.value);
    }

    /** The part of `getCPUInfo` after a successful parse: the usage since the
        stored counters, and the new counters stored in their place. */
    method Record(current: Counters) returns (usage: int)
      modifies this
      ensures usage == Usage(old(previous), current)
      ensures previous == Some(current)
    {
      usage := 0;
      if previous.Some? {
        var totalDiff := current.Total() - previous.value.Total();
        var idleDiff := current.idle - previous.value.idle;
        if totalDiff > 0 {
          usage := RoundDiv(100 * (totalDiff - idleDiff), totalDiff);
        }
      }
      previous := Some(current);
    }
  }

  /** Digit strings, each rendered after `pad` (the first) or one space (the
      rest), followed by `tail`. */
  function Spaced(pad: string, ds: seq<string>, tail: string): string
    decreases |ds|
  {
    if |ds| == 0 then tail else pad + (ds[0] + Spaced(" ", ds[1..], tail))
  }

  predicate DigitFields(ds: seq<string>) {
    forall i :: 0 <= i < |ds| ==> |ds[i]| > 0 && AllDigits(ds[i])
  }

  /** The values of the digit strings, in order. */
  function Values(ds: seq<string>): (vs: seq<nat>)
    requires DigitFields(ds)
    ensures |vs| == |ds|
    ensures forall i :: 0 <= i < |ds| ==> vs[i] == NumberValue(ds[i], 10)
    decreases |ds|
  {
    if |ds| == 0 then [] else [NumberValue(ds[0], 10)] + Values(ds[1..])
  }

  /** The aggregate line as the kernel writes it, `cpu  <user> <nice> <system> <idle>`. */
  function StatLine(c: Counters): string {
    "cpu" + Spaced("  ", [NatToString(c.user), NatToString(c.nice), NatToString(c.system), NatToString(c.idle)], "")
  }

  /** Reading a kernel-written first line back gives its counters, whatever
      columns and lines follow. */
  lemma StatLineRoundTrip(c: Counters, rest: string)
    requires rest == "" || !IsDigit(rest[0])
    ensures ParseStat(StatLine(c) + rest) == Some(c)
  {
    var ds := [NatToString(c.user), NatToString(c.nice), NatToString(c.system), NatToString(c.idle)];
    var first := Split(rest, '\n')[0];
    FirstLineOf(ds, rest);
    assert first == "" || first[0] == rest[0];
    MatchStatLine(c, ds, first);
  }

  /** The first line of a rendered stat line and what follows it is the
      rendered line and the first line of what follows. */
  lemma FirstLineOf(ds: seq<string>, rest: string)
    requires forall i :: 0 <= i < |ds| ==> AllDigits(ds[i])
    ensures Split("cpu" + Spaced("  ", ds, "") + rest, '\n')[0] == "cpu" + Spaced("  ", ds, Split(rest, '\n')[0])
  {
    var line := "cpu" + Spaced("  ", ds, "");
    var first := Split(rest, '\n')[0];
    StatLineNoNewline(ds);
    SplitPrefix(line, rest, '\n');
    StatLineAppend(ds, first);
  }

  lemma StatLineNoNewline(ds: seq<string>)
    requires forall i :: 0 <= i < |ds| ==> AllDigits(ds[i])
    ensures '\n' !in "cpu" + Spaced("  ", ds, "")
  {
    SpacedNoNewline("  ", ds, "");
  }

  lemma StatLineAppend(ds: seq<string>, more: string)
    ensures "cpu" + Spaced("  ", ds, "") + more == "cpu" + Spaced("  ", ds, more)
  {
    SpacedAppend("  ", ds, "", more);
    assert "" + more == more;
  }

  lemma MatchStatLine(c: Counters, ds: seq<string>, tail: string)
    requires ds == [NatToString(c.user), NatToString(c.nice), NatToString(c.system), NatToString(c.idle)]
    requires tail == "" || !IsDigit(tail[0])
    ensures FindStat("cpu" + Spaced("  ", ds, tail), 0) == Some(c)
  {
    ValuesOfRendered(c, ds);
    MatchCpuLine(ds, tail);
  }

  lemma ValuesOfRendered(c: Counters, ds: seq<string>)
    requires ds == [NatToString(c.user), NatToString(c.nice), NatToString(c.system), NatToString(c.idle)]
    ensures |ds| == 4 && DigitFields(ds)
    ensures Counters(Values(ds)[0], Values(ds)[1], Values(ds)[2], Values(ds)[3]) == c
  {
    assert DigitFields(ds) by {
      forall i | 0 <= i < 4 ensures |ds[i]| > 0 && AllDigits(ds[i]) {
        assert i == 0 || i == 1 || i == 2 || i == 3;
      }
    }
    var vs := Values(ds);
    assert vs[0] == NumberValue(ds[0], 10) && vs[1] == NumberValue(ds[1], 10);
    assert vs[2] == NumberValue(ds[2], 10) && vs[3] == NumberValue(ds[3], 10);
    NatToStringValue(c.user);
    NatToStringValue(c.nice);
    NatToStringValue(c.system);
    NatToStringValue(c.idle);
  }

  /** `cpu` followed by four rendered digit strings matches with their values. */
  lemma MatchCpuLine(ds: seq<string>, tail: string)
    requires |ds| == 4 && DigitFields(ds)
    requires tail == "" || !IsDigit(tail[0])
    ensures FindStat("cpu" + Spaced("  ", ds, tail), 0)
         == Some(Counters(Values(ds)[0], Values(ds)[1], Values(ds)[2], Values(ds)[3]))
  {
    SpacedNumbersOf("  ", ds, tail);
    var line := "cpu" + Spaced("  ", ds, tail);
    assert line[..3] == "cpu" && line[3..] == Spaced("  ", ds, tail);
    MatchAfterCpu(line, Values(ds), tail);
  }

  lemma MatchAfterCpu(line: string, v: seq<nat>, tail: string)
    requires 3 <= |line| && line[..3] == "cpu" && |v| == 4
    requires SpacedNumbers(line[3..], 4) == Some((v, tail))
    ensures FindStat(line, 0) == Some(Counters(v[0], v[1], v[2], v[3]))
  {
    assert line[0..] == line;
  }

  /** Rendered digit strings are read back as their values, leaving the tail. */
  lemma {:induction false} SpacedNumbersOf(pad: string, ds: seq<string>, tail: string)
    requires |pad| > 0 && forall k :: 0 <= k < |pad| ==> IsSpace(pad[k])
    requires DigitFields(ds)
    requires tail == "" || !IsDigit(tail[0])
    ensures SpacedNumbers(Spaced(pad, ds, tail), |ds|) == Some((Values(ds), tail))
    decreases |ds|
  {
    if |ds| > 0 {
      DigitFieldsTail(ds);
      SpacedNumbersOf(" ", ds[1..], tail);
      SpacedNumbersCons(pad, ds, tail);
    }
  }

  /** The induction step of `SpacedNumbersOf`: the first rendered number in front. */
  lemma SpacedNumbersCons(pad: string, ds: seq<string>, tail: string)
    requires |pad| > 0 && forall k :: 0 <= k < |pad| ==> IsSpace(pad[k])
    requires |ds| > 0 && DigitFields(ds)
    requires tail == "" || !IsDigit(tail[0])
    requires SpacedNumbers(Spaced(" ", ds[1..], tail), |ds| - 1) == Some((Values(ds[1..]), tail))
    ensures SpacedNumbers(Spaced(pad, ds, tail), |ds|) == Some((Values(ds), tail))
  {
    DigitFieldsTail(ds);
    SpacedStart(ds[1..], tail);
    SpacedNumbersStep(pad, ds[0], Spaced(" ", ds[1..], tail), |ds| - 1, Values(ds[1..]), tail);
  }

  lemma DigitFieldsTail(ds: seq<string>)
    requires |ds| > 0 && DigitFields(ds)
    ensures |ds[0]| > 0 && AllDigits(ds[0]) && DigitFields(ds[1..])
  {
    forall i | 0 <= i < |ds[1..]| ensures |ds[1..][i]| > 0 && AllDigits(ds[1..][i]) {
      assert ds[1..][i] == ds[i + 1];
    }
  }

  /** Rendered numbers start with a space, so no digit begins them. */
  lemma SpacedStart(ds: seq<string>, tail: string)
    requires tail == "" || !IsDigit(tail[0])
    ensures Spaced(" ", ds, tail) == "" || !IsDigit(Spaced(" ", ds, tail)[0])
  {
    if |ds| > 0 {
      assert Spaced(" ", ds, tail)[0] == ' ';
    }
  }

  /** Appending after the tail is appending to the tail. */
  lemma {:induction false} SpacedAppend(pad: string, ds: seq<string>, tail: string, more: string)
    ensures Spaced(pad, ds, tail) + more == Spaced(pad, ds, tail + more)
    decreases |ds|
  {
    if |ds| > 0 {
      SpacedAppend(" ", ds[1..], tail, more);
      var rest := Spaced(" ", ds[1..], tail);
      assert pad + (ds[0] + rest) + more == pad + (ds[0] + (rest + more));
    }
  }

  /** Digit strings rendered between spaces hold no line break. */
  lemma {:induction false} SpacedNoNewline(pad: string, ds: seq<string>, tail: string)
    requires '\n' !in pad && '\n' !in tail
    requires forall i :: 0 <= i < |ds| ==> AllDigits(ds[i])
    ensures '\n' !in Spaced(pad, ds, tail)
    decreases |ds|
  {
    if |ds| > 0 {
      SpacedNoNewline(" ", ds[1..], tail);
      assert '\n' !in ds[0] by {
        assert AllDigits(ds[0]);
      }
      var rest := Spaced(" ", ds[1..], tail);
      assert forall k :: 0 <= k < |pad + (ds[0] + rest)| ==> (pad + (ds[0] + rest))[k] != '\n';
    }
  }

  /** One more spaced number in front adds its value in front. */
  lemma SpacedNumbersStep(pad: string, d: string, rest: string, n: nat, vs: seq<nat>, t: string)
    requires |pad| > 0 && forall k :: 0 <= k < |pad| ==> IsSpace(pad[k])
    requires |d| > 0 && AllDigits(d)
    requires rest == "" || !IsDigit(rest[0])
    requires SpacedNumbers(rest, n) == Some((vs, t))
    ensures SpacedNumbers(pad + (d + rest), n + 1) == Some(([NumberValue(d, 10)] + vs, t))
  {
    SpacedNumberOf(pad, d, rest);
  }

  /** `\s+(\d+)` over the spaces `pad` and the digits `d` takes exactly the digits. */
  lemma SpacedNumberOf(pad: string, d: string, tail: string)
    requires |pad| > 0 && forall k :: 0 <= k < |pad| ==> IsSpace(pad[k])
    requires |d| > 0 && AllDigits(d)
    requires tail == "" || !IsDigit(tail[0])
    ensures SpacedNumber(pad + (d + tail)) == Some((NumberValue(d, 10), tail))
  {
    var s := pad + (d + tail);
    assert s[..|pad|] == pad;
    assert s[|pad|..|pad| + |d|] == d;
    assert s[|pad| + |d|..] == tail;
    SpacedNumberIn(s, pad, d, tail);
  }

  lemma SpacedNumberIn(s: string, pad: string, d: string, tail: string)
    requires |pad| + |d| <= |s|
    requires |pad| > 0 && forall k :: 0 <= k < |pad| ==> IsSpace(pad[k])
    requires |d| > 0 && AllDigits(d)
    requires tail == "" || !IsDigit(tail[0])
    requires s[..|pad|] == pad && s[|pad|..|pad| + |d|] == d && s[|pad| + |d|..] == tail
    ensures SpacedNumber(s) == Some((NumberValue(d, 10), tail))
  {
    SpacedNumberRuns(s, pad, d, tail);
    SpacedNumberAt(s, |pad|, d, tail);
  }

  /** The runs `SpacedNumber` finds in spaces, digits and a tail. */
  lemma SpacedNumberRuns(s: string, pad: string, d: string, tail: string)
    requires |pad| + |d| <= |s|
    requires forall k :: 0 <= k < |pad| ==> IsSpace(pad[k])
    requires |d| > 0 && AllDigits(d)
    requires tail == "" || !IsDigit(tail[0])
    requires s[..|pad|] == pad && s[|pad|..|pad| + |d|] == d && s[|pad| + |d|..] == tail
    ensures Run(s, 0, IsSpace) == |pad| && Run(s, |pad|, IsDigit) == |d|
  {
    var e := |pad| + |d|;
    assert s[|pad|] == d[0];
    assert e < |s| ==> s[e] == tail[0];
    RunOverSpaces(s, 0, pad);
    RunOverDigits(s, |pad|, d);
  }

  /** `SpacedNumber` once its two runs are known. */
  lemma SpacedNumberAt(s: string, spaces: nat, d: string, tail: string)
    requires 0 < spaces && 0 < |d| && spaces + |d| <= |s|
    requires Run(s, 0, IsSpace) == spaces && Run(s, spaces, IsDigit) == |d|
    requires s[spaces..spaces + |d|] == d && s[spaces + |d|..] == tail
    ensures SpacedNumber(s) == Some((NumberValue(d, 10), tail))
  {
  }
}
