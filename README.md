# System monitor sampler

A model of the sampling core of the GTK system monitor (`GJS/src/system-monitor.js`).
Each update gathers one `systemData` sample from the operating system:

- the CPU usage since the previous sample, from the first line of `/proc/stat`;
- the memory and swap byte counts of `/proc/meminfo`;
- the file systems listed by `df`;
- the bytes received and sent over all interfaces whose line's first token does not contain `lo:`, from `/proc/net/dev`. That test skips the loopback interface `lo`, and also any interface whose name ends in `lo`;
- the twenty busiest processes printed by `ps aux --sort=-%cpu`;
- the seconds since boot, from `/proc/uptime`;
- the three load averages of `/proc/loadavg`;
- the CPU temperature, taken from:
  - the thermal zones;
  - otherwise the output of `sensors -A`;
  - otherwise the hwmon devices.

The model also covers the decisions the display takes on a sample:
- the rounded memory percentage;
- the temperature band;
- which file system is shown;
- how the top command is shortened;
- how the uptime is written as days, hours and minutes.

Every file read and every command the sampler runs is an input of the model. It is `None` when the read fails or the command cannot be started, and `Some(text)` otherwise. The probing of `thermal_zone<i>` is a sequence of `ZoneProbe`s, where `Missing` stands for the exception that ends the probing loop. Each reader is a function from its input to its report. The readers that loop are also methods whose loops are proved to compute that function. The module-level state is a `Monitor.SystemMonitor` object:
- `systemData`, holding the CPU usage and a `Sample` of the other readers;
- `previousCPUStats`, kept by its `Cpu.CpuSampler`.

The JavaScript runtime behaviour the parsers depend on is written out in `Strings` and `Numbers`:
- `\s`, `trim`, `split`, `toLowerCase` on ASCII;
- `parseInt`, including the `0x` prefix;
- `parseFloat`, with the number kept exactly as a decimal;
- `x || 0`;
- `Math.round` of a quotient.

`Scan` holds two shapes shared by several loops:
- the scan that keeps each line's entry;
- the choice of the first element with a property, falling back to the first element.

## Model

| member | source | states |
|---|---|---|
| Cpu.Usage | GJS/src/system-monitor.js:49-59 | no usage (0) on the first sample and when no tick passed; otherwise the rounded busy share |
| Cpu.UsageNearest | GJS/src/system-monitor.js:53-58 | when ticks passed, the usage is the whole percentage nearest to the busy share of the ticks that passed, halves going up |
| Cpu.UsageInRange | GJS/src/system-monitor.js:53-58 | when the idle ticks that passed are between 0 and all ticks that passed, the usage is between 0 and 100 |
| Cpu.CpuSampler.constructor | GJS/src/system-monitor.js:23 | no counters are stored before the first sample |
| Cpu.CpuSampler.Sample | GJS/src/system-monitor.js:26-70 | a failed read or a first line without the `cpu` pattern reports 0 and keeps the stored counters; otherwise it reports the usage against the stored counters and stores the new ones |
| Cpu.CpuSampler.Record | GJS/src/system-monitor.js:49-64 | the usage against the stored counters, and the new counters stored in their place |
| Cpu.StatSample | GJS/src/system-monitor.js:28-35 | a failed read gives no counters |
| Cpu.ParseStatFirstLine | GJS/src/system-monitor.js:31-33 | only the first line is matched: what follows the first line break does not change the counters |
| Cpu.StatLineRoundTrip | GJS/src/system-monitor.js:31-47 | the aggregate line as the kernel writes it (`cpu` then the user, nice, system and idle ticks), followed by anything not starting with a digit, is read back as exactly those counters |
| Cpu.SpacedNumbersOf | GJS/src/system-monitor.js:33 | the pattern's `\s+(\d+)` groups read rendered digit strings back as their values, in order, leaving the rest of the line |
| Cpu.MatchAfterCpu | GJS/src/system-monitor.js:33-39 | a line starting with `cpu` whose next four space-led numbers are read gives those four counters |
| Memory.GetMemoryInfo | GJS/src/system-monitor.js:171-203 | the report equals the summary of the dictionary built from the lines: a failed read gives all zeros |
| Memory.ReadMemInfo | GJS/src/system-monitor.js:176-184 | the loop leaves the dictionary that recording each matching line in order gives |
| Memory.TableKeys | GJS/src/system-monitor.js:179-184 | a key is in the dictionary exactly when some line records it |
| Memory.TableLastWins | GJS/src/system-monitor.js:179-184 | a key holds the bytes (kilobytes times 1024) of the last line that records it |
| Memory.LookupUnique | GJS/src/system-monitor.js:182-187 | a key recorded by exactly one line reads as that line's kilobytes times 1024 |
| Memory.LookupMissing | GJS/src/system-monitor.js:186-190 | a key that no line records reads as 0 (`\|\| 0`) |
| Memory.MemoryOfReport | GJS/src/system-monitor.js:186-198 | a meminfo of exactly the four lines MemTotal, MemAvailable, SwapTotal and SwapFree, in that order, gives total and available in bytes, used = total - available and swap used = swap total - swap free |
| Memory.MemLineRoundTrip | GJS/src/system-monitor.js:180 | a line `Key:`, spaces, a number and ` kB` matches with that key and number |
| Disk.GetDiskInfo | GJS/src/system-monitor.js:205-232 | the loop computes the list of file systems: no output gives none, the header is dropped, blank lines and lines of fewer than six tokens are skipped |
| Disk.DiskOfLine | GJS/src/system-monitor.js:215-224 | a line `df` prints for a file system is read back as that file system, its percentage without the `%` |
| Disk.PercentToken | GJS/src/system-monitor.js:222 | `parseInt` of a percentage with its `%` removed is the percentage |
| Disk.DisksOfLines | GJS/src/system-monitor.js:213-226 | the printed lines are read back as the file systems, in order |
| Disk.DiskListOfOutput | GJS/src/system-monitor.js:207-227 | what `df` prints (a header, one line per file system and a final line break) gives exactly those file systems |
| Network.GetNetworkInfo | GJS/src/system-monitor.js:234-256 | the one-pass loop computes the two totals its specification function defines; the rates are always 0 |
| Network.TotalAppend | GJS/src/system-monitor.js:242-249 | the lines add up independently: the total over two stretches is the sum of their totals |
| Network.Uncounted | GJS/src/system-monitor.js:243-245 | a blank line, a line of fewer than ten tokens, or one whose first token contains `lo:` changes neither total, wherever it stands |
| Network.DevLineCounts | GJS/src/system-monitor.js:244-248 | an interface's line adds its received bytes (field 1) and sent bytes (field 9), or nothing when its name followed by `:` contains `lo:` (loopback, or any name ending in `lo`) |
| Network.TotalsOfLines | GJS/src/system-monitor.js:242-249 | the totals over the interfaces' lines are the received and sent bytes of all interfaces whose name followed by `:` does not contain `lo:` |
| Network.NetworkOfDev | GJS/src/system-monitor.js:236-251 | what the kernel writes (two headers, one line per interface and a final line break) gives those totals |
| Processes.GetProcessList | GJS/src/system-monitor.js:258-285 | the loop computes the list its specification function defines, never more than twenty entries |
| Processes.TopBound | GJS/src/system-monitor.js:266 | at most twenty entries, and no more than there are lines |
| Processes.TopIgnoresRest | GJS/src/system-monitor.js:266 | lines after the twentieth are never looked at |
| Processes.BlankLinesCount | GJS/src/system-monitor.js:266-268 | blank lines use up the twenty: twenty blank lines first give no entry at all |
| Processes.ProcessOfRow | GJS/src/system-monitor.js:269-277 | a printed row is read back as its user, PID, CPU and memory shares and its command without arguments (the eleventh token) |
| Processes.RowsOfLines | GJS/src/system-monitor.js:266-279 | printed rows are read back as their entries, in order |
| Processes.ProcessListOfPs | GJS/src/system-monitor.js:260-280 | what `ps` prints (a header, one row per process and a final line break) gives the entries of the first twenty rows |
| Uptime.SystemUptime | GJS/src/system-monitor.js:287-298 | a failed read gives 0; text without a space is read whole by `parseFloat` |
| Uptime.UptimeOfProc | GJS/src/system-monitor.js:287-293 | `/proc/uptime` as the kernel writes it (a fixed-point uptime, a space and the idle time) is read as exactly that uptime |
| Uptime.FormatUptime | GJS/src/system-monitor.js:336-348 | the label always ends with its minutes part, so it is never empty |
| Uptime.PartsBounds | GJS/src/system-monitor.js:337-339 | hours are below 24 and minutes below 60, and days, hours, minutes and leftover seconds add back up to the count |
| Uptime.PartsUnique | GJS/src/system-monitor.js:337-339 | the parts are the only such clock reading of the count |
| Uptime.ReadFormatUptime | GJS/src/system-monitor.js:336-348 | the label, read back, stands for the count less its seconds below a minute |
| Uptime.LabelValue | GJS/src/system-monitor.js:341-347 | each of the three label forms stands for its days, hours and minutes |
| Uptime.LabelShape | GJS/src/system-monitor.js:341-347 | days, hours and minutes appear when there are days; hours and minutes when there are only hours; otherwise minutes alone |
| Load.LoadAverage | GJS/src/system-monitor.js:300-315 | always three values, a zero always reads as 0 (never NaN), and a failed read gives three zeros |
| Load.LoadOfProc | GJS/src/system-monitor.js:305-310 | what the kernel writes (three fixed-point averages, then the run queue and last PID) gives those three numbers |
| Load.LoadOfOneToken | GJS/src/system-monitor.js:305-310 | text without a space gives its own number first and 0 for the 5- and 15-minute averages |
| Temperature.DegreesRange | GJS/src/system-monitor.js:89-93 | a plausible reading rounds to a whole number of degrees from 0 to 150 |
| Temperature.SysfsReading | GJS/src/system-monitor.js:87-92 | a reading is kept only when it is strictly between 0 and 150 degrees |
| Temperature.ZoneOf | GJS/src/system-monitor.js:83-95 | a zone is kept exactly when both files are read and the temperature is plausible; it is kept with its trimmed type and its millidegrees |
| Temperature.ProbeZones | GJS/src/system-monitor.js:77-100 | the probing loop keeps the zones its specification function defines: in order, at most ten probed, stopping at the first zone that does not exist |
| Temperature.ZonesPlausible | GJS/src/system-monitor.js:91-94 | every zone kept has a plausible temperature |
| Temperature.ProbingStops | GJS/src/system-monitor.js:96-99 | nothing after a zone that does not exist is ever probed |
| Temperature.ZonesStop | GJS/src/system-monitor.js:78-99 | a zone that does not exist among the first ten ends the probing |
| Temperature.SysfsRoundTrip | GJS/src/system-monitor.js:87 | a sysfs file holding plausible millidegrees and a line break is read as those millidegrees |
| Temperature.ZoneOfFiles | GJS/src/system-monitor.js:83-94 | a zone whose files hold plausible millidegrees and a type is kept with the trimmed type |
| Temperature.PickZonePrefers | GJS/src/system-monitor.js:102-114 | a zone is picked unless there are none; it is the first CPU zone (cpu, core or x86_pkg_temp in the lower-cased type) when there is one, otherwise the first zone |
| Temperature.SelectZone | GJS/src/system-monitor.js:102-114 | the selection loop returns the zone its specification function defines |
| Temperature.FirstReadingOf | GJS/src/system-monitor.js:127-138 | the first reading is the reading of some element with none before it; no reading means no element gives one |
| Temperature.FirstReadingSkips | GJS/src/system-monitor.js:146-163 | elements that give no reading are passed over |
| Temperature.SensorTemp | GJS/src/system-monitor.js:129-135 | a `sensors` line gives a temperature exactly when it names Core, CPU or Tctl and its reading is strictly between 0 and 150; the temperature is that reading rounded, a whole number from 0 to 150 |
| Temperature.ScanSensors | GJS/src/system-monitor.js:120-142 | the loop over the lines returns the first candidate line's temperature |
| Temperature.HwmonTemp | GJS/src/system-monitor.js:151-158 | a device gives a temperature exactly when its input is read and its millidegrees are strictly between 0 and 150 degrees; the temperature is those millidegrees rounded to whole degrees |
| Temperature.ScanHwmon | GJS/src/system-monitor.js:144-166 | the loop over `hwmon0` to `hwmon4` returns the first device's temperature |
| Temperature.HwmonContinues | GJS/src/system-monitor.js:150-162 | unlike the zones, devices that give nothing do not end the search |
| Temperature.GetTemperatureInfo | GJS/src/system-monitor.js:72-169 | the three stages run in order, each returning as soon as it has a reading |
| Temperature.TemperatureOf | GJS/src/system-monitor.js:72-169 | the result of the three stages: a reported temperature is a whole number from 0 to 150; otherwise the report is `{cpu: 0, available: false}` |
| Temperature.TemperatureSource | GJS/src/system-monitor.js:72-169 | an available temperature is the rounded degrees of a kept thermal zone, or, with no zone kept, the rounded reading of a `sensors` line strictly between 0 and 150, or, with no `sensors` reading either, the rounded degrees of a plausible hwmon reading: a reading outside (0, 150) is never reported |
| Temperature.SensorsTemp | GJS/src/system-monitor.js:120-142 | the `sensors` stage: nothing when the command cannot be run; a found temperature is the rounded reading of the first line that names Core, CPU or Tctl with a reading strictly between 0 and 150; nothing is found only when no line is such a line |
| Temperature.HwmonStage | GJS/src/system-monitor.js:144-166 | the hwmon stage: a found temperature is the rounded reading of the first of the first five devices whose input is read and strictly between 0 and 150 degrees; nothing is found only when none of them is |
| Temperature.AvailableIff | GJS/src/system-monitor.js:72-169 | a temperature is available exactly when some stage has a reading |
| Temperature.StageOrder | GJS/src/system-monitor.js:102-120 | a kept thermal zone decides the result whatever the other sources hold; the `sensors` stage does when no zone is kept |
| Display.MemoryPercent | GJS/src/system-monitor.js:631-636 | the percentage shown is 0 when the total is 0 |
| Display.MemoryPercentRange | GJS/src/system-monitor.js:631-636 | for a positive total and used memory within it, the percentage is the whole number nearest the used share, halves going up, and between 0 and 100 |
| Display.TemperatureStatus | GJS/src/system-monitor.js:639-656 | the status is `Unavailable` exactly when no temperature is available |
| Display.StatusMonotone | GJS/src/system-monitor.js:643-651 | critical exactly above 90 degrees, hot exactly above 65 up to 90, normal up to 65; the status never falls as the temperature rises |
| Display.MainDisk | GJS/src/system-monitor.js:661-668 | the disk shown is one of the disks, and there is one unless the list is empty |
| Display.MainDiskChoice | GJS/src/system-monitor.js:661-668 | a disk is shown unless there are none: the first one mounted at `/`, otherwise the first |
| Display.Shorten | GJS/src/system-monitor.js:677-678 | the shown command has at most 23 characters, and a command of at most twenty is shown whole |
| Display.ShortenShape | GJS/src/system-monitor.js:677-678 | a command of at most twenty characters is shown whole; a longer one as its first twenty characters and `...` |
| Display.ShortenIdempotent | GJS/src/system-monitor.js:677-678 | shortening a shown label again changes nothing |
| Display.TopProcessLabel | GJS/src/system-monitor.js:675-682 | `None` when there are no processes; the label has at most 23 characters |
| Display.TopProcessOfPs | GJS/src/system-monitor.js:675-679 | for what `ps` prints, the label is the shortened command of the first row |
| Monitor.Initial | GJS/src/system-monitor.js:11-20 | the initial sample is valid: no disks, no processes, three zero load averages, no temperature |
| Monitor.SampleOf | GJS/src/system-monitor.js:317-326 | whatever the readers read, the sample is valid: three load averages, at most twenty processes, a temperature from 0 to 150 or the unavailable report |
| Monitor.ReadingsValid | GJS/src/system-monitor.js:266 | whatever `ps` prints, the process list in a sample holds at most twenty entries |
| Monitor.ReadSample | GJS/src/system-monitor.js:319-325 | running the readers other than the CPU sampler gives the sample its specification function defines |
| Monitor.SystemMonitor.constructor | GJS/src/system-monitor.js:11-23 | the initial `systemData` and no stored CPU counters |
| Monitor.SystemMonitor.UpdateSystemData | GJS/src/system-monitor.js:317-326 | every field is replaced by its reader's report; the sample stays valid; the CPU usage is measured against the counters of the last successful read |
| Numbers.ParseIntOfRendered | GJS/src/system-monitor.js:36-39 | `parseInt` reads a rendered whole number back, whatever non-digit text follows it |
| Numbers.ParseFloatFixedPoint | GJS/src/system-monitor.js:292 | `parseFloat` of a fixed-point token is exactly that number, whatever non-digit text follows it |
| Numbers.OrZero | GJS/src/system-monitor.js:307-309 | `parseFloat(x) \|\| 0`: NaN and zero become 0, any other number is kept |
| Numbers.RoundDivNearest | GJS/src/system-monitor.js:57 | `Math.round` of a quotient is the whole number nearest to it, halves going up |
| Numbers.RoundDivBounds | GJS/src/system-monitor.js:57 | rounding a quotient that lies between two whole numbers stays between them |
| Strings.JoinSplit | GJS/src/system-monitor.js:31 | splitting loses nothing: joining the pieces gives the text back |
| Strings.SplitJoin | GJS/src/system-monitor.js:210 | pieces free of the separator, joined, split back into the same pieces |
| Strings.WordsJoin | GJS/src/system-monitor.js:215 | tokens joined by single spaces are split back into the same tokens by `trim().split(/\s+/)` |
| Strings.RemoveFirstAfter | GJS/src/system-monitor.js:222 | `replace('%', '')` removes only the first occurrence |
| Scan.CollectAppend | GJS/src/system-monitor.js:213-226 | the lines are scanned independently: the entries of two stretches are the entries of each, in order |
| Scan.CollectLength | GJS/src/system-monitor.js:213-226 | each line yields at most one entry |
| Scan.PreferredChoice | GJS/src/system-monitor.js:661-668 | the preferred element is the first with the property, otherwise the first element, and exists unless the sequence is empty |

## Left out

- Reading files and spawning commands (GLib's `file_get_contents` and `spawn_command_line_sync`) are inputs of the model, not operations. A read that throws is the same `None` as a read that reports failure. The `print` of each caught exception is not modelled.
- The GTK window, its widgets, CSS classes and the update timer are out of scope. Of the display, the model covers only the decisions listed above: the memory percentage, the temperature band, the choice of disk, the command truncation and the uptime label.
- `formatBytes` (lines 328-334) is not modelled: it works on floating-point logarithms and `toFixed`.
- Numbers are exact. `parseFloat` gives an exact decimal, and the divisions behind `Math.round` are exact rationals. Floating-point rounding, `Infinity` and the 2^53 limit of JavaScript numbers are not modelled.
- Cpu.Usage: computed on exact integers, so a busy share whose floating-point product rounds differently from the exact one is not captured.
- The `sensors` pattern `([+-]?\d+\.?\d*).?°C` is not modelled as a regular expression. It is the parameter `reading`: the number a line yields, if any. Temperature.SensorTemp and Temperature.ScanSensors are therefore stated relative to that parameter.
- Strings.Lower: lower-cases ASCII letters only; JavaScript's full Unicode case mapping is not modelled.
- String lengths count characters, where JavaScript counts UTF-16 code units. Display.ShortenShape therefore assumes commands in the Basic Multilingual Plane.
- Display.ShortenShape: states that a command of at most twenty characters is shown whole, not the converse. A 23-character command whose last three characters are `...` is also shown unchanged.
- Uptime.FormatUptime: takes a whole number of seconds. The fractional seconds `/proc/uptime` reports, a NaN uptime and a negative one are not modelled, nor is the conversion from the stored `parseFloat` value.
- `getCPUInfo` returns `{usage, cores: []}` on every path, and `updateSystemData` stores that object as `systemData.cpu`. So `cores` is always empty, and the `temp` field of the initial `systemData.cpu` is gone after the first update. The model keeps only the usage.
- The `rx` and `tx` rates are always 0 in the source; Network.GetNetworkInfo states that and models nothing more.
- The per-process CPU label (`toFixed(1)`) and the texts of the disk, temperature and uptime labels are not modelled.
- The other scripts of the repository (the candy monitor, toggle and the layout and media-menu tests) are not part of this model.
