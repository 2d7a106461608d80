/** `getDiskInfo`: the mounted file systems listed by
    `df -h --output=source,size,used,avail,pcent,target`. After the header line,
    every line that is not blank and has at least six whitespace-separated
    tokens becomes one entry, in the order `df` printed them. */
module Disk {
  import opened Wrappers
  import opened Strings
  import opened Numbers
  import opened Scan

  /** One file system. The sizes stay the human-readable tokens `df -h`
      printed; the use percentage is `parseInt` of its token without the `%`,
      None where that is NaN. */
  datatype Disk = Disk(device: string, size: string, used: string, available: string,
                       percentage: Option<int>, mountpoint: string)

  /** The entry for one line after the header, if the line yields one. */
  function DiskOf(line: string): Option<Disk> {
    if IsBlank(line) then None
    else
      var parts := Words(line);
      if |parts| >= 6
      then Some(Disk(parts[0], parts[1], parts[2], parts[3], ParseInt(RemoveFirst(parts[4], '%')), parts[5]))
      else None
  }

  /** The entries pushed for the given lines, in order. */
  function Disks(lines: seq<string>): seq<Disk> {
    Collect(lines, DiskOf)
  }

  /** The result of `getDiskInfo` for what the command printed, None when it
      could not be run. */
  function DiskList(output: Option<string>): seq<Disk> {
    match output
    case None => []
    case Some(text) => Disks(Drop(Split(text, '\n'), 1))
  }

  /** `getDiskInfo`: the header is dropped and the other lines are scanned in order. */
  method GetDiskInfo(output: Option<string>) returns (disks: seq<Disk>)
    ensures disks == DiskList(output)
  {
    if output.None? {
      return [];
    }
    var lines := Drop(Split(output.value, '\n'), 1);
    disks := [];
    for i := 0 to |lines|
      invariant disks == Collect(lines[..i], DiskOf)
    {
      CollectStep(lines, i, DiskOf);
      var line := lines[i];
      if IsBlank(line) {
        continue;
      }
      var parts := Words(line);
      if |parts| >= 6 {
        disks := disks + [Disk(parts[0], parts[1], parts[2], parts[3], ParseInt(RemoveFirst(parts[4], '%')), parts[5])];
      }
    }
    assert lines[..|lines|] == lines;
  }

  /** A file system `df` can print: every field one token, a known percentage. */
  predicate Printable(d: Disk) {
    && IsWord(d.device) && IsWord(d.size) && IsWord(d.used) && IsWord(d.available)
    && IsWord(d.mountpoint) && d.percentage.Some? && d.percentage.value >= 0
  }

  /** The tokens of a printed line. */
  function Fields(d: Disk): seq<string>
    requires Printable(d)
  {
    [d.device, d.size, d.used, d.available, NatToString(d.percentage.value) + "%", d.mountpoint]
  }

  /** The line `df` prints for a file system, fields separated by spaces. */
  function DfLine(d: Disk): string
    requires Printable(d)
  {
    Join(Fields(d), ' ')
  }

  /** The lines `df` prints for the file systems, in order. */
  function DfLines(ds: seq<Disk>): seq<string>
    requires forall k :: 0 <= k < |ds| ==> Printable(ds[k])
    decreases |ds|
  {
    if |ds| == 0 then [] else DfLines(ds[..|ds| - 1]) + [DfLine(ds[|ds| - 1])]
  }

  /** A printed line is read back as the file system it describes. */
  lemma DiskOfLine(d: Disk)
    requires Printable(d)
    ensures DiskOf(DfLine(d)) == Some(d)
  {
    var ws := Fields(d);
    FieldsAreWords(d);
    WordsJoin(ws);
    JoinStart(ws, ' ');
    NotBlank(DfLine(d));
    PercentToken(d.percentage.value);
  }

  lemma FieldsAreWords(d: Disk)
    requires Printable(d)
    ensures forall k :: 0 <= k < |Fields(d)| ==> IsWord(Fields(d)[k])
  {
    var t := NatToString(d.percentage.value) + "%";
    assert IsWord(t) by {
      assert forall j :: 0 <= j < |t| - 1 ==> t[j] == NatToString(d.percentage.value)[j];
    }
  }

  /** `parseInt("42%".replace('%', ''))` is 42. */
  lemma PercentToken(p: nat)
    ensures ParseInt(RemoveFirst(NatToString(p) + "%", '%')) == Some(p)
  {
    var d := NatToString(p);
    assert '%' !in d;
    RemoveFirstAfter(d, '%', "");
    assert d + ['%'] + "" == d + "%";
    assert d + "" == d;
    ParseIntOfRendered(p, "");
  }

  /** The printed lines are read back as the file systems, in order. */
  lemma {:induction false} DisksOfLines(ds: seq<Disk>)
    requires forall k :: 0 <= k < |ds| ==> Printable(ds[k])
    ensures Collect(DfLines(ds), DiskOf) == ds
    decreases |ds|
  {
    if |ds| > 0 {
      var n := |ds| - 1;
      DisksOfLines(ds[..n]);
      DisksOfLinesStep(ds[..n], ds[n]);
      LastSplit(ds);
    }
  }

  lemma DisksOfLinesStep(init: seq<Disk>, d: Disk)
    requires forall k :: 0 <= k < |init| ==> Printable(init[k])
    requires Printable(d)
    requires Collect(DfLines(init), DiskOf) == init
    ensures forall k :: 0 <= k < |init + [d]| ==> Printable((init + [d])[k])
    ensures Collect(DfLines(init + [d]), DiskOf) == init + [d]
  {
    DiskOfLine(d);
    DfLinesSnoc(init, d);
    CollectSnoc(DfLines(init), DfLine(d), DiskOf, init, d);
  }

  lemma DfLinesSnoc(init: seq<Disk>, d: Disk)
    requires forall k :: 0 <= k < |init| ==> Printable(init[k])
    requires Printable(d)
    ensures forall k :: 0 <= k < |init + [d]| ==> Printable((init + [d])[k])
    ensures DfLines(init + [d]) == DfLines(init) + [DfLine(d)]
  {
    assert (init + [d])[..|init|] == init;
  }

  /** What `df` prints: a header line, one line per file system and a final
      line break, is reported as exactly those file systems. */
  lemma DiskListOfOutput(header: string, ds: seq<Disk>)
    requires '\n' !in header
    requires forall k :: 0 <= k < |ds| ==> Printable(ds[k])
    ensures DiskList(Some(Join([header] + DfLines(ds) + [""], '\n'))) == ds
  {
    var lines := DfLines(ds);
    DfLinesNoNewline(ds);
    AfterHeader(header, lines);
    TrailingBlank(lines);
    DisksOfLines(ds);
  }

  /** The empty piece after the final line break yields nothing. */
  lemma TrailingBlank(lines: seq<string>)
    ensures Collect(lines + [""], DiskOf) == Collect(lines, DiskOf)
  {
    BlankEmpty();
    CollectNoEntry(lines, "", DiskOf);
  }

  /** No printed line holds a line break. */
  lemma {:induction false} DfLinesNoNewline(ds: seq<Disk>)
    requires forall k :: 0 <= k < |ds| ==> Printable(ds[k])
    ensures forall k :: 0 <= k < |DfLines(ds)| ==> '\n' !in DfLines(ds)[k]
    decreases |ds|
  {
    if |ds| > 0 {
      var n := |ds| - 1;
      DfLinesNoNewline(ds[..n]);
      DfLineNoNewline(ds[n]);
    }
  }

  lemma DfLineNoNewline(d: Disk)
    requires Printable(d)
    ensures '\n' !in DfLine(d)
  {
    FieldsAreWords(d);
    WordsAvoidNewline(Fields(d));
    JoinAvoids(Fields(d), ' ', '\n');
  }
}
