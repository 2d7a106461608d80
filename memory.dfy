/** `getMemoryInfo`: the byte counts of /proc/meminfo. Each line of the form
    `Key: N kB` records `N * 1024` bytes under `Key`; the memory summary is
    taken from four of those keys, a missing key counting as 0. */
module Memory {
  import opened Wrappers
  import opened Strings
  import opened Numbers

  datatype Swap = Swap(used: int, total: nat)

  datatype MemoryInfo = MemoryInfo(used: int, total: nat, available: nat, swap: Swap)

  /** What `getMemoryInfo` reports when /proc/meminfo cannot be read. */
  const NoMemory := MemoryInfo(0, 0, 0, Swap(0, 0))

  /** `\s*(\d+)\s*kB` at the start of `s`: the number of kilobytes. */
  function Kilobytes(s: string): Option<nat> {
    var t := SkipSpaces(s);
    var digits := Run(t, 0, IsDigit);
    if digits > 0 && StartsWith(SkipSpaces(t[digits..]), "kB")
    then Some(NumberValue(t[..digits], 10))
    else None
  }

  /** The pattern `^(\w+):\s*(\d+)\s*kB` on one line: the key and the number of
      kilobytes. The key is the whole run of word characters, since `:` is
      not one; the spaces and digits that follow are disjoint classes, so the
      longest runs are the only ones that can match. */
  function MemLine(line: string): Option<(string, nat)> {
    var k := Run(line, 0, IsWordChar);
    if k == 0 || !StartsWith(line[k..], ":") then None
    else
      var kb :- Kilobytes(line[k + 1..]);
      Some((line[..k], kb))
  }

  /** The `memInfo` dictionary after the given lines of /proc/meminfo. */
  function MemTable(lines: seq<string>): map<string, nat> {
    Tabulate(lines, MemLine)
  }

  /** The dictionary built from the lines with the line pattern `parse`: each
      matching line records its kilobytes times 1024 under its key,
      overwriting what an earlier line recorded. */
  function Tabulate(lines: seq<string>, parse: string -> Option<(string, nat)>): map<string, nat>
    decreases |lines|
  {
    if |lines| == 0 then map[]
    else Record(Tabulate(lines[..|lines| - 1], parse), parse(lines[|lines| - 1]))
  }

  /** One line's effect on the dictionary. */
  function Record(table: map<string, nat>, entry: Option<(string, nat)>): map<string, nat> {
    match entry
    case Some((key, kb)) => table[key := kb * 1024]
    case None => table
  }

  /** `memInfo.key || 0`. */
  function Lookup(table: map<string, nat>, key: string): nat {
    if key in table then table[key] else 0
  }

  /** The summary `getMemoryInfo` builds from the dictionary. */
  function Summary(table: map<string, nat>): MemoryInfo {
    var total := Lookup(table, "MemTotal");
    var available := Lookup(table, "MemAvailable");
    var swapTotal := Lookup(table, "SwapTotal");
    MemoryInfo(total as int - available, total, available, Swap(swapTotal as int - Lookup(table, "SwapFree"), swapTotal))
  }

  /** The result of `getMemoryInfo` for one read of /proc/meminfo. */
  function MemoryOf(meminfo: Option<string>): MemoryInfo {
    match meminfo
    case None => NoMemory
    case Some(text) => Summary(MemTable(Split(text, '\n')))
  }

  /** `getMemoryInfo`: the dictionary is built line by line, then summarised. */
  method GetMemoryInfo(meminfo: Option<string>) returns (info: MemoryInfo)
    ensures info == MemoryOf(meminfo)
  {
    if meminfo.None? {
      return NoMemory;
    }
    var memInfo := ReadMemInfo(Split(meminfo.value, '\n'));
    var total := Lookup(memInfo, "MemTotal");
    var available := Lookup(memInfo, "MemAvailable");
    var swapTotal := Lookup(memInfo, "SwapTotal");
    var swapFree := Lookup(memInfo, "SwapFree");
    info := MemoryInfo(total as int - available, total, available, Swap(swapTotal as int - swapFree, swapTotal));
  }

  /** The loop of `getMemoryInfo` that fills the dictionary from the lines. */
  method ReadMemInfo(lines: seq<string>) returns (memInfo: map<string, nat>)
    ensures memInfo == MemTable(lines)
  {
    memInfo := map[];
    var i := 0;
    while i < |lines|
      invariant 0 <= i <= |lines|
      invariant memInfo == Tabulate(lines[..i], MemLine)
    {
      var m := MemLine(lines[i]);
      assert Tabulate(lines[..i + 1], MemLine) == Record(memInfo, m) by {
        assert lines[..i + 1][..i] == lines[..i];
      }
      if m.Some? {
        var (key, kb) := m.value;
        memInfo := memInfo[key := kb * 1024];
      }
      i := i + 1;
    }
    assert lines[..|lines|] == lines;
  }

  /** The line records a byte count under `key`. */
  predicate Records(parse: string -> Option<(string, nat)>, line: string, key: string) {
    parse(line).Some? && parse(line).value.0 == key
  }

  /** One step of the dictionary, seen from one key. */
  lemma RecordAt(table: map<string, nat>, entry: Option<(string, nat)>, key: string)
    ensures entry.Some? && entry.value.0 == key ==>
      key in Record(table, entry) && Record(table, entry)[key] == entry.value.1 * 1024
    ensures !(entry.Some? && entry.value.0 == key) ==>
      (key in Record(table, entry) <==> key in table) &&
      (key in table ==> Record(table, entry)[key] == table[key])
  {
  }

  /** A key is in the dictionary exactly when some line records it. */
  lemma {:induction false} TableKeys(lines: seq<string>, parse: string -> Option<(string, nat)>, key: string)
    ensures key in Tabulate(lines, parse) <==> exists i :: 0 <= i < |lines| && Records(parse, lines[i], key)
    decreases |lines|
  {
    if |lines| > 0 {
      var n := |lines| - 1;
      var init := lines[..n];
      TableKeys(init, parse, key);
      assert forall i :: 0 <= i < n ==> init[i] == lines[i];
      RecordAt(Tabulate(init, parse), parse(lines[n]), key);
    }
  }

  /** A key in the dictionary holds the bytes of the last line that records it. */
  lemma {:induction false} TableLastWins(lines: seq<string>, parse: string -> Option<(string, nat)>, key: string)
    requires key in Tabulate(lines, parse)
    ensures exists i ::
      && 0 <= i < |lines| && Records(parse, lines[i], key)
      && Tabulate(lines, parse)[key] == parse(lines[i]).value.1 * 1024
      && forall j :: i < j < |lines| ==> !Records(parse, lines[j], key)
    decreases |lines|
  {
    var n := |lines| - 1;
    var init := lines[..n];
    RecordAt(Tabulate(init, parse), parse(lines[n]), key);
    if Records(parse, lines[n], key) {
      assert Tabulate(lines, parse)[key] == parse(lines[n]).value.1 * 1024;
    } else {
      TableLastWins(init, parse, key);
      var i :| 0 <= i < n && Records(parse, init[i], key)
        && Tabulate(init, parse)[key] == parse(init[i]).value.1 * 1024
        && forall j :: i < j < n ==> !Records(parse, init[j], key);
      assert init[i] == lines[i];
      assert forall j :: i < j < n ==> init[j] == lines[j];
    }
  }

  /** A key recorded by exactly one line holds that line's bytes. */
  lemma LookupUnique(lines: seq<string>, parse: string -> Option<(string, nat)>, key: string, i: nat)
    requires i < |lines| && Records(parse, lines[i], key)
    requires forall j :: 0 <= j < |lines| && j != i ==> !Records(parse, lines[j], key)
    ensures Lookup(Tabulate(lines, parse), key) == parse(lines[i]).value.1 * 1024
  {
    TableKeys(lines, parse, key);
    TableLastWins(lines, parse, key);
  }

  /** A key no line records reads as 0. */
  lemma LookupMissing(lines: seq<string>, parse: string -> Option<(string, nat)>, key: string)
    requires forall j :: 0 <= j < |lines| ==> !Records(parse, lines[j], key)
    ensures Lookup(Tabulate(lines, parse), key) == 0
  {
    TableKeys(lines, parse, key);
  }

  /** A /proc/meminfo line as the kernel writes it, with one space of padding. */
  function MeminfoLine(key: string, kb: nat): string {
    key + (":" + (" " + (NatToString(kb) + " kB")))
  }

  /** The four lines the summary reads, in the order the kernel writes them. */
  function Report(total: nat, available: nat, swapTotal: nat, swapFree: nat): seq<string> {
    [MeminfoLine("MemTotal", total), MeminfoLine("MemAvailable", available),
     MeminfoLine("SwapTotal", swapTotal), MeminfoLine("SwapFree", swapFree)]
  }

  /** A file holding the four lines is summarised as their kilobytes times
      1024, with used memory and used swap the differences. */
  lemma MemoryOfReport(total: nat, available: nat, swapTotal: nat, swapFree: nat)
    ensures MemoryOf(Some(Join(Report(total, available, swapTotal, swapFree), '\n')))
         == MemoryInfo(1024 * total - 1024 * available, 1024 * total, 1024 * available,
                       Swap(1024 * swapTotal - 1024 * swapFree, 1024 * swapTotal))
  {
    var lines := Report(total, available, swapTotal, swapFree);
    SummaryKeys();
    MeminfoLineNoNewline("MemTotal", total);
    MeminfoLineNoNewline("MemAvailable", available);
    MeminfoLineNoNewline("SwapTotal", swapTotal);
    MeminfoLineNoNewline("SwapFree", swapFree);
    FourPieces(lines, '\n');
    SplitJoin(lines, '\n');
    ReportLine("MemTotal", total);
    ReportLine("MemAvailable", available);
    ReportLine("SwapTotal", swapTotal);
    ReportLine("SwapFree", swapFree);
    SummaryOfFour(lines, MemLine, total, available, swapTotal, swapFree);
  }

  /** A name the pattern's `\w+` can match whole. */
  predicate IsKey(key: string) {
    |key| > 0 && forall k :: 0 <= k < |key| ==> IsWordChar(key[k])
  }

  lemma SummaryKeys()
    ensures IsKey("MemTotal") && IsKey("MemAvailable") && IsKey("SwapTotal") && IsKey("SwapFree")
  {
  }

  lemma FourPieces(lines: seq<string>, sep: char)
    requires |lines| == 4
    requires sep !in lines[0] && sep !in lines[1] && sep !in lines[2] && sep !in lines[3]
    ensures forall k :: 0 <= k < |lines| ==> sep !in lines[k]
  {
  }

  /** The summary of four lines that record the four keys in turn. */
  lemma SummaryOfFour(lines: seq<string>, parse: string -> Option<(string, nat)>,
                      total: nat, available: nat, swapTotal: nat, swapFree: nat)
    requires |lines| == 4
    requires parse(lines[0]) == Some(("MemTotal", total))
    requires parse(lines[1]) == Some(("MemAvailable", available))
    requires parse(lines[2]) == Some(("SwapTotal", swapTotal))
    requires parse(lines[3]) == Some(("SwapFree", swapFree))
    ensures Summary(Tabulate(lines, parse))
         == MemoryInfo(1024 * total - 1024 * available, 1024 * total, 1024 * available,
                       Swap(1024 * swapTotal - 1024 * swapFree, 1024 * swapTotal))
  {
    LookupUnique(lines, parse, "MemTotal", 0);
    LookupUnique(lines, parse, "MemAvailable", 1);
    LookupUnique(lines, parse, "SwapTotal", 2);
    LookupUnique(lines, parse, "SwapFree", 3);
  }

  /** A report line is read back as its key and number. */
  lemma ReportLine(key: string, kb: nat)
    requires IsKey(key)
    ensures MemLine(MeminfoLine(key, kb)) == Some((key, kb))
  {
    MemLineRoundTrip(key, " ", kb);
  }

  lemma MeminfoLineNoNewline(key: string, kb: nat)
    requires IsKey(key)
    ensures '\n' !in MeminfoLine(key, kb)
  {
    assert '\n' !in NatToString(kb);
  }

  /** A line as the kernel writes it, `Key:` then spaces, the number and ` kB`,
      is read back as its key and number. */
  lemma MemLineRoundTrip(key: string, pad: string, n: nat)
    requires |key| > 0 && forall k :: 0 <= k < |key| ==> IsWordChar(key[k])
    requires forall k :: 0 <= k < |pad| ==> IsSpace(pad[k])
    ensures MemLine(key + (":" + (pad + (NatToString(n) + " kB")))) == Some((key, n))
  {
    var rest := pad + (NatToString(n) + " kB");
    var line := key + (":" + rest);
    MemLineLayout(line, key, rest);
    RunOverWord(line, key);
    KilobytesOf(pad, NatToString(n));
    NatToStringValue(n);
    MemLineIn(line, |key|, n);
  }

  /** Where the key, the colon and the rest sit in a line. */
  lemma MemLineLayout(line: string, key: string, rest: string)
    requires line == key + (":" + rest)
    ensures |key| < |line| && line[..|key|] == key && line[|key|] == ':'
    ensures StartsWith(line[|key|..], ":") && line[|key| + 1..] == rest
  {
    assert line[|key|..][..1] == ":";
  }

  /** `MemLine` once the key's end and the kilobytes after the colon are known. */
  lemma MemLineIn(line: string, k: nat, kb: nat)
    requires 0 < k < |line| && Run(line, 0, IsWordChar) == k
    requires StartsWith(line[k..], ":")
    requires Kilobytes(line[k + 1..]) == Some(kb)
    ensures MemLine(line) == Some((line[..k], kb))
  {
  }

  /** The run of word characters at the start of `key + rest` is `key` when
      `rest` starts with a colon. */
  lemma RunOverWord(line: string, key: string)
    requires |key| < |line| && line[..|key|] == key && line[|key|] == ':'
    requires forall k :: 0 <= k < |key| ==> IsWordChar(key[k])
    ensures Run(line, 0, IsWordChar) == |key|
  {
    assert forall k :: 0 <= k < |key| ==> IsWordChar(line[k]) by {
      forall k | 0 <= k < |key| ensures IsWordChar(line[k]) {
        assert line[k] == line[..|key|][k];
      }
    }
    RunExact(line, 0, |key|, IsWordChar);
  }

  /** Spaces, digits and ` kB` are read as the value of the digits. */
  lemma KilobytesOf(pad: string, d: string)
    requires forall k :: 0 <= k < |pad| ==> IsSpace(pad[k])
    requires |d| > 0 && AllDigits(d)
    ensures Kilobytes(pad + (d + " kB")) == Some(NumberValue(d, 10))
  {
    KilobytesOfIn(pad + (d + " kB"), pad, d, d + " kB");
  }

  lemma KilobytesOfIn(s: string, pad: string, d: string, t: string)
    requires forall k :: 0 <= k < |pad| ==> IsSpace(pad[k])
    requires |d| > 0 && AllDigits(d)
    requires t == d + " kB" && s == pad + t
    ensures Kilobytes(s) == Some(NumberValue(d, 10))
  {
    assert t[0] == d[0];
    SkipSpacesOf(pad, t);
    DigitsThenUnit(d, t);
    KilobytesIn(s, t, |d|);
  }

  /** The digits of `d + " kB"` are those of `d`, and the unit follows one space. */
  lemma DigitsThenUnit(d: string, t: string)
    requires AllDigits(d) && t == d + " kB"
    ensures |d| <= |t| && Run(t, 0, IsDigit) == |d| && t[..|d|] == d
    ensures SkipSpaces(t[|d|..]) == "kB"
  {
    assert t[..|d|] == d && t[|d|..] == " " + "kB";
    RunOverDigits(t, 0, d);
    SkipSpacesOf(" ", "kB");
  }

  /** `Kilobytes` once the leading spaces are gone and the digits and the unit found. */
  lemma KilobytesIn(s: string, t: string, digits: nat)
    requires SkipSpaces(s) == t
    requires 0 < digits <= |t| && Run(t, 0, IsDigit) == digits
    requires SkipSpaces(t[digits..]) == "kB"
    ensures Kilobytes(s) == Some(NumberValue(t[..digits], 10))
  {
    assert StartsWith("kB", "kB");
  }
}
