/** `systemData` and `updateSystemData`: the sample the display shows,
    replaced field by field each time the readers run. */
module Monitor {
  import opened Wrappers
  import opened Numbers
  import Cpu
  import Memory
  import Disk
  import Network
  import Processes
  import Uptime
  import Load
  import Temperature
  import Strings

  /** What the readers read on one update: the contents of /proc/stat,
      /proc/meminfo, /proc/net/dev, /proc/uptime and /proc/loadavg and the
      output of `df` and `ps`, each None when it could not be obtained, and
      the temperature sources. */
  datatype Readings = Readings(
    stat: Option<string>,
    meminfo: Option<string>,
    df: Option<string>,
    netdev: Option<string>,
    ps: Option<string>,
    uptime: Option<string>,
    loadavg: Option<string>,
    temperature: Temperature.Sources)

  /** One `systemData` apart from the CPU usage: what the readers report. */
  datatype Sample = Sample(
    memory: Memory.MemoryInfo,
    disk: seq<Disk.Disk>,
    network: Network.NetworkInfo,
    processes: seq<Processes.Process>,
    uptime: Option<Decimal>,
    loadAvg: seq<Decimal>,
    temperature: Temperature.TempInfo)

  /** What every sample satisfies: three load averages, at most twenty
      processes, and a temperature that is a whole number of degrees from
      0 to 150 when available and the `{cpu: 0, available: false}` report
      otherwise. */
  predicate SampleValid(s: Sample) {
    && |s.loadAvg| == 3
    && |s.processes| <= Processes.Limit
    && (s.temperature.available ==> 0 <= s.temperature.cpu <= 150)
    && (!s.temperature.available ==> s.temperature == Temperature.NoTemperature)
  }

  /** The initial `systemData`: nothing read yet. */
  function Initial(): (s: Sample)
    ensures SampleValid(s)
    ensures s.disk == [] && s.processes == [] && s.loadAvg == [Zero, Zero, Zero]
    ensures !s.temperature.available
  {
    Sample(Memory.NoMemory, [], Network.NoNetwork, [], Some(Zero), [Zero, Zero, Zero], Temperature.NoTemperature)
  }

  /** What the readers report for one update; whatever they read, the
      sample is valid. */
  function SampleOf(r: Readings, reading: string -> Option<Decimal>): (s: Sample)
    ensures SampleValid(s)
  {
    ReadingsValid(r);
    Sample(
      Memory.MemoryOf(r.meminfo),
      Disk.DiskList(r.df),
      Network.NetworkOf(r.netdev),
      Processes.ProcessList(r.ps),
      Uptime.SystemUptime(r.uptime),
      Load.LoadAverage(r.loadavg),
      Temperature.TemperatureOf(r.temperature, reading))
  }

  /** The readers of `updateSystemData` other than the CPU sampler, in the
      order `updateSystemData` calls them. */
  method ReadSample(r: Readings, reading: string -> Option<Decimal>) returns (s: Sample)
    ensures s == SampleOf(r, reading)
  {
    var mem := Memory.GetMemoryInfo(r.meminfo);
    var disks := Disk.GetDiskInfo(r.df);
    var net := Network.GetNetworkInfo(r.netdev);
    var procs := Processes.GetProcessList(r.ps);
    var uptime := Uptime.SystemUptime(r.uptime);
    var loads := Load.LoadAverage(r.loadavg);
    var temp := Temperature.GetTemperatureInfo(r.temperature, reading);
    s := Sample(mem, disks, net, procs, uptime, loads, temp);
  }

  /** `systemData` together with `previousCPUStats`, kept by `sampler`. */
  class SystemMonitor {
    var cpu: int
    var current: Sample
    const sampler: Cpu.CpuSampler

    /** The initial `systemData`, before any update, and no stored CPU counters. */
    constructor()
      ensures SampleValid(current)
      ensures cpu == 0 && current == Initial()
      ensures fresh(sampler) && sampler.previous == None
    {
      cpu := 0;
      current := Initial();
      sampler := new Cpu.CpuSampler();
    }

    /** `updateSystemData`: every field is replaced by what its reader reports
        for this update; the CPU usage is measured against the counters kept
        from the previous successful read. */
    method UpdateSystemData(r: Readings, reading: string -> Option<Decimal>)
      modifies this, sampler
      ensures SampleValid(current)
      ensures Cpu.StatSample(r.stat).None? ==> cpu == 0 && sampler.previous == old(sampler.previous)
      ensures Cpu.StatSample(r.stat).Some? ==>
        cpu == Cpu.Usage(old(sampler.previous), Cpu.StatSample(r.stat).value) && sampler.previous == Cpu.StatSample(r.stat)
      ensures current == SampleOf(r, reading)
    {
      var usage := sampler.Sample(r.stat);
      var s := ReadSample(r, reading);
      cpu, current := usage, s;
    }
  }

  /** Whatever `ps` prints, the process list holds at most twenty entries:
      the bound a sample's validity needs beyond the readers' own contracts. */
  lemma ReadingsValid(r: Readings)
    ensures |Processes.ProcessList(r.ps)| <= Processes.Limit
  {
    if r.ps.Some? {
      Processes.TopBound(Strings.Drop(Strings.Split(r.ps.value, '\n'), 1));
    }
  }
}
