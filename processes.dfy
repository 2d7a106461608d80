/** `getProcessList`: the processes `ps aux --sort=-%cpu` lists first. Only the
    first twenty lines after the header are looked at, blank ones included;
    each of them that is not blank and has at least eleven whitespace-separated
    tokens becomes one entry, in the order `ps` printed them. The line is split
    with a limit of eleven pieces, so the command is its eleventh token alone:
    the command's arguments are cut off. */
module Processes {
  import opened Wrappers
  import opened Strings
  import opened Numbers
  import opened Scan

  /** How many lines after the header are looked at. */
  const Limit := 20

  /** One process. The CPU and memory shares are `parseFloat` of their
      tokens, None where that is NaN. */
  datatype Process = Process(user: string, pid: string, cpu: Option<Decimal>, memory: Option<Decimal>,
                             command: string)

  /** The entry for one line after the header, if the line yields one. */
  function ProcessOf(line: string): Option<Process> {
    if IsBlank(line) then None
    else
      var parts := Take(Words(line), 11);
      if |parts| >= 11
      then Some(Process(parts[0], parts[1], ParseFloat(parts[2]), ParseFloat(parts[3]), parts[10]))
      else None
  }

  /** The entries of the lines looked at. */
  function Top(lines: seq<string>): seq<Process> {
    Collect(Take(lines, Limit), ProcessOf)
  }

  /** The result of `getProcessList` for what the command printed, None when
      it could not be run. */
  function ProcessList(stdout: Option<string>): seq<Process> {
    match stdout
    case None => []
    case Some(text) => Top(Drop(Split(text, '\n'), 1))
  }

  /** `getProcessList`: the header is dropped and at most twenty lines are scanned. */
  method GetProcessList(stdout: Option<string>) returns (processes: seq<Process>)
    ensures processes == ProcessList(stdout)
    ensures |processes| <= Limit
  {
    if stdout.None? {
      return [];
    }
    var lines := Drop(Split(stdout.value, '\n'), 1);
    processes := [];
    var n := if |lines| < Limit then |lines| else Limit;
    for i := 0 to n
      invariant processes == Collect(lines[..i], ProcessOf)
    {
      CollectStep(lines, i, ProcessOf);
      var line := lines[i];
      if IsBlank(line) {
        continue;
      }
      var parts := Take(Words(line), 11);
      if |parts| >= 11 {
        processes := processes + [Process(parts[0], parts[1], ParseFloat(parts[2]), ParseFloat(parts[3]), parts[10])];
      }
    }
    TopBound(lines);
  }

  /** At most twenty entries, and no more than there are lines. */
  lemma TopBound(lines: seq<string>)
    ensures |Top(lines)| <= Limit && |Top(lines)| <= |lines|
  {
    CollectLength(Take(lines, Limit), ProcessOf);
  }

  /** The lines after the twentieth are never looked at. */
  lemma TopIgnoresRest(lines: seq<string>, more: seq<string>)
    requires |lines| >= Limit
    ensures Top(lines + more) == Top(lines)
  {
    assert Take(lines + more, Limit) == Take(lines, Limit);
  }

  /** Blank lines count towards the twenty: when the first twenty lines are
      blank there is no entry, whatever follows. */
  lemma BlankLinesCount(blanks: seq<string>, more: seq<string>)
    requires |blanks| == Limit
    requires forall k :: 0 <= k < |blanks| ==> IsBlank(blanks[k])
    ensures Top(blanks + more) == []
  {
    TopIgnoresRest(blanks, more);
    assert Take(blanks, Limit) == blanks;
    CollectNone(blanks, ProcessOf);
  }

  /** A line of `ps aux`: user, PID, %CPU, %MEM, six more columns (VSZ, RSS,
      TTY, STAT, START, TIME), then the command and its arguments. */
  datatype Row = Row(user: string, pid: string, cpu: string, mem: string, middle: seq<string>,
                     command: string, args: seq<string>)

  predicate Printable(r: Row) {
    && IsWord(r.user) && IsWord(r.pid) && IsWord(r.cpu) && IsWord(r.mem) && IsWord(r.command)
    && |r.middle| == 6
    && (forall k :: 0 <= k < 6 ==> IsWord(r.middle[k]))
    && (forall k :: 0 <= k < |r.args| ==> IsWord(r.args[k]))
  }

  function Columns(r: Row): seq<string> {
    [r.user, r.pid, r.cpu, r.mem] + r.middle + [r.command] + r.args
  }

  /** The row as `ps` prints it, columns separated by spaces. */
  function PsLine(r: Row): string {
    Join(Columns(r), ' ')
  }

  /** The entry a row is meant to give: its command without the arguments. */
  function ProcessFor(r: Row): Process {
    Process(r.user, r.pid, ParseFloat(r.cpu), ParseFloat(r.mem), r.command)
  }

  /** A printed row is read back as its user, PID, shares and bare command. */
  lemma ProcessOfRow(r: Row)
    requires Printable(r)
    ensures ProcessOf(PsLine(r)) == Some(ProcessFor(r))
  {
    var cs := Columns(r);
    ColumnsAreWords(r);
    WordsJoin(cs);
    JoinStart(cs, ' ');
    NotBlank(PsLine(r));
    ColumnsAt(r);
  }

  lemma ColumnsAt(r: Row)
    requires |r.middle| == 6
    ensures |Columns(r)| >= 11
    ensures Take(Columns(r), 11)[0] == r.user && Take(Columns(r), 11)[1] == r.pid
    ensures Take(Columns(r), 11)[2] == r.cpu && Take(Columns(r), 11)[3] == r.mem
    ensures Take(Columns(r), 11)[10] == r.command
  {
  }

  lemma ColumnsAreWords(r: Row)
    requires Printable(r)
    ensures forall k :: 0 <= k < |Columns(r)| ==> IsWord(Columns(r)[k])
  {
    var cs := Columns(r);
    forall k | 0 <= k < |cs|
      ensures IsWord(cs[k])
    {
      if 4 <= k < 10 {
        assert cs[k] == r.middle[k - 4];
      } else if k > 10 {
        assert cs[k] == r.args[k - 11];
      }
    }
  }

  function PsLines(rows: seq<Row>): (lines: seq<string>)
    ensures |lines| == |rows|
    ensures forall k :: 0 <= k < |rows| ==> lines[k] == PsLine(rows[k])
  {
    seq(|rows|, k requires 0 <= k < |rows| => PsLine(rows[k]))
  }

  function Entries(rows: seq<Row>): (ps: seq<Process>)
    ensures |ps| == |rows|
    ensures forall k :: 0 <= k < |rows| ==> ps[k] == ProcessFor(rows[k])
  {
    seq(|rows|, k requires 0 <= k < |rows| => ProcessFor(rows[k]))
  }

  /** Printed rows are read back as their entries, in order. */
  lemma {:induction false} RowsOfLines(rows: seq<Row>)
    requires forall k :: 0 <= k < |rows| ==> Printable(rows[k])
    ensures Collect(PsLines(rows), ProcessOf) == Entries(rows)
    decreases |rows|
  {
    if |rows| > 0 {
      var n := |rows| - 1;
      RowsOfLines(rows[..n]);
      ProcessOfRow(rows[n]);
      RowsInit(rows);
      CollectSnoc(PsLines(rows[..n]), PsLine(rows[n]), ProcessOf, Entries(rows[..n]), ProcessFor(rows[n]));
    }
  }

  lemma RowsInit(rows: seq<Row>)
    requires |rows| > 0
    ensures PsLines(rows) == PsLines(rows[..|rows| - 1]) + [PsLine(rows[|rows| - 1])]
    ensures Entries(rows) == Entries(rows[..|rows| - 1]) + [ProcessFor(rows[|rows| - 1])]
  {
    LinesInit(rows);
    EntriesInit(rows);
  }

  lemma {:induction false} LinesInit(rows: seq<Row>)
    requires |rows| > 0
    ensures PsLines(rows) == PsLines(rows[..|rows| - 1]) + [PsLine(rows[|rows| - 1])]
  {
    var init := rows[..|rows| - 1];
    forall k | 0 <= k < |init|
      ensures PsLines(rows)[k] == PsLines(init)[k]
    {
      assert init[k] == rows[k];
    }
    Snoc(PsLines(rows), PsLines(init), PsLine(rows[|rows| - 1]));
  }

  lemma {:induction false} EntriesInit(rows: seq<Row>)
    requires |rows| > 0
    ensures Entries(rows) == Entries(rows[..|rows| - 1]) + [ProcessFor(rows[|rows| - 1])]
  {
    var init := rows[..|rows| - 1];
    forall k | 0 <= k < |init|
      ensures Entries(rows)[k] == Entries(init)[k]
    {
      assert init[k] == rows[k];
    }
    Snoc(Entries(rows), Entries(init), ProcessFor(rows[|rows| - 1]));
  }

  lemma Snoc<T>(xs: seq<T>, init: seq<T>, last: T)
    requires |xs| == |init| + 1 && xs[|init|] == last
    requires forall k :: 0 <= k < |init| ==> xs[k] == init[k]
    ensures xs == init + [last]
  {
    assert forall k :: 0 <= k < |xs| ==> xs[k] == (init + [last])[k];
  }

  /** What `ps` prints: a header line, one line per process and a final line
      break, gives the first twenty processes with their bare commands. */
  lemma ProcessListOfPs(header: string, rows: seq<Row>)
    requires '\n' !in header
    requires forall k :: 0 <= k < |rows| ==> Printable(rows[k])
    ensures ProcessList(Some(Join([header] + PsLines(rows) + [""], '\n'))) == Entries(Take(rows, Limit))
  {
    var lines := PsLines(rows);
    PsLinesNoNewline(rows);
    AfterHeader(header, lines);
    TopOfRows(rows);
  }

  lemma TopOfRows(rows: seq<Row>)
    requires forall k :: 0 <= k < |rows| ==> Printable(rows[k])
    ensures Top(PsLines(rows) + [""]) == Entries(Take(rows, Limit))
  {
    var lines := PsLines(rows);
    if |rows| >= Limit {
      TopIgnoresRest(lines, [""]);
      TakeLines(rows);
      RowsOfLines(Take(rows, Limit));
    } else {
      BlankEmpty();
      assert Take(lines + [""], Limit) == lines + [""];
      CollectNoEntry(lines, "", ProcessOf);
      RowsOfLines(rows);
    }
  }

  lemma TakeLines(rows: seq<Row>)
    requires |rows| >= Limit
    ensures Take(PsLines(rows), Limit) == PsLines(Take(rows, Limit))
  {
  }

  lemma PsLinesNoNewline(rows: seq<Row>)
    requires forall k :: 0 <= k < |rows| ==> Printable(rows[k])
    ensures forall k :: 0 <= k < |PsLines(rows)| ==> '\n' !in PsLines(rows)[k]
  {
    forall k | 0 <= k < |rows|
      ensures '\n' !in PsLine(rows[k])
    {
      ColumnsAreWords(rows[k]);
      WordsAvoidNewline(Columns(rows[k]));
      JoinAvoids(Columns(rows[k]), ' ', '\n');
    }
  }
}
