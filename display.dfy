/** The decisions the display helpers take on a sample: the memory
    percentage, the temperature status, which file system's use is shown and
    how the top process's command is shortened. */
module Display {
  import opened Wrappers
  import opened Numbers
  import opened Scan
  import Memory
  import Temperature
  import Disk
  import Processes
  import Strings

  /** `updateMemoryDisplay`: `Math.round(used / total * 100)`, or 0 when the
      total is not positive. */
  function MemoryPercent(memory: Memory.MemoryInfo): (percent: int)
    ensures memory.total == 0 ==> percent == 0
  {
    if memory.total > 0 then RoundDiv(100 * memory.used, memory.total) else 0
  }

  /** While the used memory is between 0 and the total, the percentage is
      the whole number nearest to the used share (a half going up), and so
      lies between 0 and 100. */
  lemma MemoryPercentRange(memory: Memory.MemoryInfo)
    requires memory.total > 0 && 0 <= memory.used <= memory.total
    ensures 0 <= MemoryPercent(memory) <= 100
    ensures 2 * memory.total * MemoryPercent(memory) - memory.total <= 200 * memory.used
    ensures 200 * memory.used < 2 * memory.total * MemoryPercent(memory) + memory.total
  {
    RoundDivBounds(100 * memory.used, memory.total, 0, 100);
    RoundDivNearest(100 * memory.used, memory.total);
  }

  /** The temperature status line of `updateTemperatureDisplay`. */
  datatype Status = Normal | Hot | Critical | Unavailable

  /** Critical above 90 degrees, hot above 65, normal otherwise. */
  function TemperatureStatus(info: Temperature.TempInfo): (status: Status)
    ensures status == Unavailable <==> !info.available
  {
    if !info.available then Unavailable
    else if info.cpu > 90 then Critical
    else if info.cpu > 65 then Hot
    else Normal
  }

  /** How alarming a status is. */
  function Severity(status: Status): nat {
    match status
    case Unavailable => 0
    case Normal => 1
    case Hot => 2
    case Critical => 3
  }

  /** The status never falls as the temperature rises, and each band is
      exactly its range of temperatures. */
  lemma StatusMonotone(a: Temperature.TempInfo, b: Temperature.TempInfo)
    requires a.available && b.available && a.cpu <= b.cpu
    ensures Severity(TemperatureStatus(a)) <= Severity(TemperatureStatus(b))
    ensures TemperatureStatus(a) == Critical <==> a.cpu > 90
    ensures TemperatureStatus(a) == Hot <==> 65 < a.cpu <= 90
    ensures TemperatureStatus(a) == Normal <==> a.cpu <= 65
  {
  }

  predicate IsRoot(disk: Disk.Disk) {
    disk.mountpoint == "/"
  }

  /** `updateSystemInfoDisplay`: the file system mounted at `/`, otherwise
      the first one, otherwise none. */
  function MainDisk(disks: seq<Disk.Disk>): (shown: Option<Disk.Disk>)
    ensures shown.None? <==> |disks| == 0
    ensures shown.Some? ==> shown.value in disks
  {
    Preferred(disks, IsRoot)
  }

  /** The disk shown is the first one mounted at `/` when there is one, the
      first disk when none is, and there is one unless the list is empty. */
  lemma MainDiskChoice(disks: seq<Disk.Disk>)
    ensures MainDisk(disks).None? <==> |disks| == 0
    ensures (exists k :: 0 <= k < |disks| && IsRoot(disks[k])) ==>
              (exists k :: (0 <= k < |disks| && MainDisk(disks) == Some(disks[k])
                && IsRoot(disks[k]) && forall j :: 0 <= j < k ==> !IsRoot(disks[j])))
    ensures (forall k :: 0 <= k < |disks| ==> !IsRoot(disks[k])) && |disks| > 0 ==>
              MainDisk(disks) == Some(disks[0])
  {
    PreferredChoice(disks, IsRoot);
  }

  /** How many characters of a command are shown. */
  const CommandWidth := 20

  /** `command.length > 20 ? command.substring(0, 20) + '...' : command`. */
  function Shorten(command: string): (text: string)
    ensures |text| <= CommandWidth + 3
    ensures |command| <= CommandWidth ==> text == command
  {
    if |command| > CommandWidth then command[..CommandWidth] + "..." else command
  }

  /** A command is shown whole when it fits; otherwise its first twenty
      characters and an ellipsis are shown. Either way the label starts with
      what fits of the command and has at most 23 characters. */
  lemma ShortenShape(command: string)
    ensures |command| <= CommandWidth ==> Shorten(command) == command
    ensures |Shorten(command)| <= CommandWidth + 3
    ensures |command| > CommandWidth ==> |Shorten(command)| == CommandWidth + 3
    ensures |command| > CommandWidth ==> Shorten(command)[..CommandWidth] == command[..CommandWidth]
    ensures |command| > CommandWidth ==> Shorten(command) == command[..CommandWidth] + "..."
  {
  }

  /** Shortening a label again changes nothing. */
  lemma ShortenIdempotent(command: string)
    ensures Shorten(Shorten(command)) == Shorten(command)
  {
    if |command| > CommandWidth {
      var s := Shorten(command);
      assert s[..CommandWidth] == command[..CommandWidth];
    }
  }

  /** `updateProcessDisplay`: the shortened command of the first process,
      or `None` when there is none. */
  function TopProcessLabel(processes: seq<Processes.Process>): (text: string)
    ensures |processes| == 0 ==> text == "None"
    ensures |text| <= CommandWidth + 3
  {
    if |processes| > 0 then Shorten(processes[0].command) else "None"
  }

  /** For what `ps aux --sort=-%cpu` prints, the label names the command of
      the first process listed, shortened. */
  lemma TopProcessOfPs(header: string, rows: seq<Processes.Row>)
    requires '\n' !in header && |rows| > 0
    requires forall k :: 0 <= k < |rows| ==> Processes.Printable(rows[k])
    ensures TopProcessLabel(Processes.ProcessList(Some(Strings.Join([header] + Processes.PsLines(rows) + [""], '\n'))))
         == Shorten(rows[0].command)
  {
    Processes.ProcessListOfPs(header, rows);
  }
}
