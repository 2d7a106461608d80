/** `getTemperatureInfo`: the CPU temperature in whole degrees Celsius, taken
    from the first of three sources that gives a plausible reading — the
    thermal zones under `/sys/class/thermal`, then the lines of `sensors -A`,
    then `temp1_input` of `/sys/class/hwmon/hwmon0` to `hwmon4`. A reading is
    plausible when it lies strictly between 0 and 150 degrees. */
module Temperature {
  import opened Wrappers
  import opened Strings
  import opened Numbers
  import opened Scan

  /** What `getTemperatureInfo` reports. */
  datatype TempInfo = TempInfo(cpu: int, available: bool)

  /** The report when no source gives a plausible reading. */
  const NoTemperature := TempInfo(0, false)

  /** How many thermal zones and hwmon devices are looked at. */
  const ZoneLimit := 10
  const HwmonLimit := 5

  /** A sysfs temperature in millidegrees is plausible when it is strictly
      between 0 and 150 degrees. */
  predicate Plausible(milli: int) {
    0 < milli < 150000
  }

  /** `Math.round(milli / 1000)`. */
  function Degrees(milli: int): int {
    RoundDiv(milli, 1000)
  }

  /** A plausible reading rounds to a whole temperature from 0 to 150. */
  lemma DegreesRange(milli: int)
    requires Plausible(milli)
    ensures 0 <= Degrees(milli) <= 150
  {
    RoundDivBounds(milli, 1000, 0, 150);
  }

  /** `parseInt(contents.trim())` of a sysfs temperature file, when it is a
      plausible reading. */
  function SysfsReading(contents: string): (milli: Option<int>)
    ensures milli.Some? ==> Plausible(milli.value)
  {
    match ParseInt(Trim(contents))
    case None => None
    case Some(milli) => if Plausible(milli) then Some(milli) else None
  }

  // Thermal zones

  /** What probing `thermal_zone<i>` finds: reading its `temp` or `type` file
      throws (the zone does not exist), one of them is not read, or both are
      read with these contents. */
  datatype ZoneProbe = Missing | Unread | Zone(temp: string, kind: string)

  /** A thermal zone with a plausible temperature, its type trimmed. */
  datatype ThermalZone = ThermalZone(kind: string, milli: int)

  /** The zone a probe contributes, if any. */
  function ZoneOf(probe: ZoneProbe): (zone: Option<ThermalZone>)
    ensures zone.Some? <==> probe.Zone? && SysfsReading(probe.temp).Some?
    ensures zone.Some? ==> zone.value == ThermalZone(Trim(probe.kind), SysfsReading(probe.temp).value)
    ensures zone.Some? ==> Plausible(zone.value.milli)
  {
    match probe
    case Missing => None
    case Unread => None
    case Zone(temp, kind) =>
      match SysfsReading(temp)
      case None => None
      case Some(milli) => Some(ThermalZone(Trim(kind), milli))
  }

  /** What is kept from the probes, in order, stopping at the first zone
      that does not exist. */
  function Probe<T>(probes: seq<ZoneProbe>, keep: ZoneProbe -> Option<T>): (kept: seq<T>)
    ensures |kept| <= |probes|
    decreases |probes|
  {
    if |probes| == 0 || probes[0].Missing? then []
    else Entry(keep(probes[0])) + Probe(probes[1..], keep)
  }

  /** The zones kept for probes of `thermal_zone0` to `thermal_zone9`; a
      probe past the end of the sequence finds no zone. */
  function Zones(probes: seq<ZoneProbe>): seq<ThermalZone> {
    Probe(Take(probes, ZoneLimit), ZoneOf)
  }

  /** The probing loop: zones are pushed in order until ten are probed or
      one does not exist. */
  method ProbeZones(probes: seq<ZoneProbe>) returns (zones: seq<ThermalZone>)
    ensures zones == Zones(probes)
  {
    var window := Take(probes, ZoneLimit);
    zones := [];
    var i := 0;
    while i < ZoneLimit
      invariant 0 <= i <= |window|
      invariant zones + Probe(window[i..], ZoneOf) == Zones(probes)
    {
      var probe := if i < |window| then window[i] else Missing;
      if probe.Missing? {
        break;
      }
      ProbeStep(window, i, ZoneOf);
      Regroup(zones, Entry(ZoneOf(probe)), Probe(window[i + 1..], ZoneOf));
      if probe.Zone? {
        var milli := ParseInt(Trim(probe.temp));
        if milli.Some? && 0 < milli.value < 150000 {
          ZoneKept(probe, milli.value);
          zones := zones + [ThermalZone(Trim(probe.kind), milli.value)];
        } else {
          ZoneDropped(probe);
          AppendNothing(zones);
        }
      } else {
        ZoneDropped(probe);
        AppendNothing(zones);
      }
      i := i + 1;
    }
    ProbeEnd(window, i, ZoneOf);
    AppendNothing(zones);
  }

  lemma ProbeStep<T>(probes: seq<ZoneProbe>, i: nat, keep: ZoneProbe -> Option<T>)
    requires i < |probes| && !probes[i].Missing?
    ensures Probe(probes[i..], keep) == Entry(keep(probes[i])) + Probe(probes[i + 1..], keep)
  {
    assert probes[i..][1..] == probes[i + 1..];
  }

  lemma ProbeEnd<T>(probes: seq<ZoneProbe>, i: nat, keep: ZoneProbe -> Option<T>)
    requires i <= |probes|
    requires i == |probes| || probes[i].Missing? || i >= ZoneLimit
    requires |probes| <= ZoneLimit
    ensures Probe(probes[i..], keep) == []
  {
  }

  lemma ZoneKept(probe: ZoneProbe, milli: int)
    requires probe.Zone? && ParseInt(Trim(probe.temp)) == Some(milli) && 0 < milli < 150000
    ensures Entry(ZoneOf(probe)) == [ThermalZone(Trim(probe.kind), milli)]
  {
    SysfsReadingOf(probe.temp, Trim(probe.temp), milli);
    ZoneOfReading(probe, milli);
  }

  lemma ZoneOfReading(probe: ZoneProbe, milli: int)
    requires probe.Zone? && SysfsReading(probe.temp) == Some(milli)
    ensures Entry(ZoneOf(probe)) == [ThermalZone(Trim(probe.kind), milli)]
  {
  }

  lemma ZoneDropped(probe: ZoneProbe)
    requires probe.Zone? ==> ParseInt(Trim(probe.temp)).None? || !Plausible(ParseInt(Trim(probe.temp)).value)
    ensures Entry(ZoneOf(probe)) == []
  {
  }

  lemma Regroup<T>(xs: seq<T>, ys: seq<T>, zs: seq<T>)
    ensures xs + (ys + zs) == xs + ys + zs
  {
  }

  lemma AppendNothing<T>(xs: seq<T>)
    ensures xs + [] == xs
  {
  }

  /** Every zone kept has a plausible temperature. */
  lemma {:induction false} ZonesPlausible(probes: seq<ZoneProbe>)
    ensures forall k :: 0 <= k < |Probe(probes, ZoneOf)| ==> Plausible(Probe(probes, ZoneOf)[k].milli)
    decreases |probes|
  {
    if |probes| > 0 && !probes[0].Missing? {
      ZonesPlausible(probes[1..]);
      AllPlausible(Entry(ZoneOf(probes[0])), Probe(probes[1..], ZoneOf));
    }
  }

  lemma AllPlausible(a: seq<ThermalZone>, b: seq<ThermalZone>)
    requires forall k :: 0 <= k < |a| ==> Plausible(a[k].milli)
    requires forall k :: 0 <= k < |b| ==> Plausible(b[k].milli)
    ensures forall k :: 0 <= k < |a + b| ==> Plausible((a + b)[k].milli)
  {
  }

  /** Probing stops at the first zone that does not exist: the zones after
      it are never looked at. */
  lemma {:induction false} ProbingStops<T>(probes: seq<ZoneProbe>, more: seq<ZoneProbe>, keep: ZoneProbe -> Option<T>)
    ensures Probe(probes + [Missing] + more, keep) == Probe(probes, keep)
    decreases |probes|
  {
    if |probes| == 0 {
      assert (probes + [Missing] + more)[0] == Missing;
    } else if !probes[0].Missing? {
      ProbingStops(probes[1..], more, keep);
      MissingTail(probes, more);
    } else {
      assert (probes + [Missing] + more)[0] == probes[0];
    }
  }

  lemma MissingTail(probes: seq<ZoneProbe>, more: seq<ZoneProbe>)
    requires |probes| > 0
    ensures (probes + [Missing] + more)[0] == probes[0]
    ensures (probes + [Missing] + more)[1..] == probes[1..] + [Missing] + more
  {
  }

  /** A zone that does not exist among the first ten ends the probing: the
      zones after it are never looked at. */
  lemma ZonesStop(probes: seq<ZoneProbe>, more: seq<ZoneProbe>)
    requires |probes| < ZoneLimit
    ensures Zones(probes + [Missing] + more) == Zones(probes)
  {
    ProbingStops(probes, Take(more, ZoneLimit - |probes| - 1), ZoneOf);
    assert Take(probes + [Missing] + more, ZoneLimit) == probes + [Missing] + Take(more, ZoneLimit - |probes| - 1);
  }

  /** The zone types that mark a CPU sensor, matched on the lower-cased type. */
  predicate IsCpuZone(zone: ThermalZone) {
    var kind := Lower(zone.kind);
    Contains(kind, "cpu") || Contains(kind, "core") || Contains(kind, "x86_pkg_temp")
  }

  /** The zone whose temperature is reported: the first CPU zone, otherwise
      the first zone. */
  function PickZone(zones: seq<ThermalZone>): Option<ThermalZone> {
    Preferred(zones, IsCpuZone)
  }

  /** The picked zone is a CPU zone with none before it, or, when no zone is
      a CPU zone, the first zone; there is one unless there are no zones. */
  lemma PickZonePrefers(zones: seq<ThermalZone>)
    ensures PickZone(zones).None? <==> |zones| == 0
    ensures (exists k :: 0 <= k < |zones| && IsCpuZone(zones[k])) ==>
              (exists k :: (0 <= k < |zones| && PickZone(zones) == Some(zones[k])
                && IsCpuZone(zones[k]) && forall j :: 0 <= j < k ==> !IsCpuZone(zones[j])))
    ensures (forall k :: 0 <= k < |zones| ==> !IsCpuZone(zones[k])) && |zones| > 0 ==>
              PickZone(zones) == Some(zones[0])
  {
    PreferredChoice(zones, IsCpuZone);
  }

  /** The selection loop over the zones, returning at the first CPU zone. */
  method SelectZone(zones: seq<ThermalZone>) returns (pick: Option<ThermalZone>)
    ensures pick == PickZone(zones)
  {
    for k := 0 to |zones|
      invariant forall j :: 0 <= j < k ==> !IsCpuZone(zones[j])
    {
      var kind := Lower(zones[k].kind);
      if Contains(kind, "cpu") || Contains(kind, "core") || Contains(kind, "x86_pkg_temp") {
        FirstWhereAt(zones, IsCpuZone, k);
        return Some(zones[k]);
      }
    }
    FirstWhereAt(zones, IsCpuZone, |zones|);
    if |zones| > 0 {
      return Some(zones[0]);
    }
    return None;
  }

  // The first reading

  /** The reading of the first element that gives one: both the `sensors`
      loop and the hwmon loop return as soon as they have a reading. */
  function FirstReading<T>(xs: seq<T>, value: T -> Option<int>): Option<int>
    decreases |xs|
  {
    if |xs| == 0 then None
    else if value(xs[0]).Some? then value(xs[0])
    else FirstReading(xs[1..], value)
  }

  /** The first reading is the reading of some element, with none before it. */
  lemma {:induction false} FirstReadingOf<T>(xs: seq<T>, value: T -> Option<int>)
    ensures FirstReading(xs, value).Some? ==>
              (exists k :: (0 <= k < |xs| && value(xs[k]) == FirstReading(xs, value)
                && forall j :: 0 <= j < k ==> value(xs[j]).None?))
    ensures FirstReading(xs, value).None? ==> forall k :: 0 <= k < |xs| ==> value(xs[k]).None?
    decreases |xs|
  {
    if |xs| > 0 && value(xs[0]).None? {
      FirstReadingOf(xs[1..], value);
      var t := FirstReading(xs, value);
      if t.Some? {
        var k :| 0 <= k < |xs[1..]| && value(xs[1..][k]) == t && forall j :: 0 <= j < k ==> value(xs[1..][j]).None?;
        assert value(xs[k + 1]) == t;
        assert forall j :: 0 < j < k + 1 ==> xs[j] == xs[1..][j - 1];
      } else {
        assert forall k :: 0 < k < |xs| ==> xs[k] == xs[1..][k - 1];
      }
    }
  }

  /** Elements that give no reading are passed over: the search goes on
      after them. */
  lemma {:induction false} FirstReadingSkips<T>(failed: seq<T>, rest: seq<T>, value: T -> Option<int>)
    requires forall k :: 0 <= k < |failed| ==> value(failed[k]).None?
    ensures FirstReading(failed + rest, value) == FirstReading(rest, value)
    decreases |failed|
  {
    if |failed| > 0 {
      FirstReadingSkips(failed[1..], rest, value);
      assert (failed + rest)[0] == failed[0] && value(failed[0]).None?;
      assert (failed + rest)[1..] == failed[1..] + rest;
    } else {
      assert failed + rest == rest;
    }
  }

  /** The first reading among the first `n` elements, stated on the elements
      themselves. */
  lemma FirstReadingTake<T>(xs: seq<T>, n: nat, value: T -> Option<int>)
    ensures var t := FirstReading(Take(xs, n), value);
      && (t.Some? ==>
            exists k :: (0 <= k < |xs| && k < n && value(xs[k]) == t
              && forall j :: 0 <= j < k ==> value(xs[j]).None?))
      && (t.None? ==> forall k :: 0 <= k < |xs| && k < n ==> value(xs[k]).None?)
  {
    var window := Take(xs, n);
    FirstReadingOf(window, value);
    assert forall k :: 0 <= k < |window| ==> window[k] == xs[k];
  }

  lemma FirstReadingStep<T>(xs: seq<T>, i: nat, value: T -> Option<int>)
    requires i < |xs|
    ensures FirstReading(xs[i..], value)
         == if value(xs[i]).Some? then value(xs[i]) else FirstReading(xs[i + 1..], value)
  {
    assert xs[i..][1..] == xs[i + 1..];
  }

  // sensors

  /** A line of `sensors -A` that may hold a CPU temperature. */
  predicate SensorCandidate(line: string) {
    Contains(line, "Core") || Contains(line, "CPU") || Contains(line, "Tctl")
  }

  /** A line of `sensors -A` that names a CPU sensor and whose reading lies
      strictly between 0 and 150 degrees. `reading` is the number the pattern
      for a temperature followed by `°C` finds in a line, as `parseFloat`
      reads it. */
  predicate PlausibleLine(line: string, reading: string -> Option<Decimal>) {
    SensorCandidate(line) && reading(line).Some? && reading(line).value.Between(0, 150)
  }

  /** The temperature one line of `sensors -A` gives, if any: the rounded
      reading of a plausible line. */
  function SensorTemp(line: string, reading: string -> Option<Decimal>): (t: Option<int>)
    ensures t.Some? <==> PlausibleLine(line, reading)
    ensures t.Some? ==> t.value == reading(line).value.Round()
    ensures t.Some? ==> 0 <= t.value <= 150
  {
    if !SensorCandidate(line) then None
    else
      match reading(line)
      case None => None
      case Some(d) =>
        if d.Between(0, 150) then (BetweenRounds(d); Some(d.Round())) else None
  }

  /** `SensorTemp` with its pattern fixed, as the loop applies it to each line. */
  function Sensor(reading: string -> Option<Decimal>): string -> Option<int> {
    line => SensorTemp(line, reading)
  }

  /** A reading strictly between 0 and 150 rounds to a whole number from 0 to 150. */
  lemma BetweenRounds(d: Decimal)
    requires d.Between(0, 150)
    ensures 0 <= d.Round() <= 150
  {
    if d.exponent < 0 {
      RoundDivBounds(d.mantissa, Pow10(-d.exponent), 0, 150);
    }
  }

  /** The sensors stage for the output of `sensors -A`, None when it could not
      be run: a whole number of degrees from 0 to 150 when found. */
  function SensorsTemp(output: Option<string>, reading: string -> Option<Decimal>): (t: Option<int>)
    ensures output.None? ==> t.None?
    ensures t.Some? ==> 0 <= t.value <= 150
    ensures t.Some? ==> (output.Some? &&
              exists k :: (0 <= k < |Split(output.value, '\n')| && PlausibleLine(Split(output.value, '\n')[k], reading)
                && t.value == reading(Split(output.value, '\n')[k]).value.Round()
                && forall j :: 0 <= j < k ==> !PlausibleLine(Split(output.value, '\n')[j], reading)))
    ensures output.Some? && t.None? ==>
              forall k :: 0 <= k < |Split(output.value, '\n')| ==> !PlausibleLine(Split(output.value, '\n')[k], reading)
  {
    match output
    case None => None
    case Some(text) =>
      FirstReadingOf(Split(text, '\n'), Sensor(reading));
      FirstReading(Split(text, '\n'), Sensor(reading))
  }

  /** The loop over the lines of `sensors -A`, returning at the first
      plausible reading. */
  method ScanSensors(output: Option<string>, reading: string -> Option<Decimal>) returns (t: Option<int>)
    ensures t == SensorsTemp(output, reading)
  {
    if output.None? {
      return None;
    }
    var lines := Split(output.value, '\n');
    for i := 0 to |lines|
      invariant FirstReading(lines[i..], Sensor(reading)) == FirstReading(lines, Sensor(reading))
    {
      FirstReadingStep(lines, i, Sensor(reading));
      var line := lines[i];
      if Contains(line, "Core") || Contains(line, "CPU") || Contains(line, "Tctl") {
        var found := reading(line);
        if found.Some? && found.value.Between(0, 150) {
          return Some(found.value.Round());
        }
      }
    }
    return None;
  }

  // hwmon

  /** `temp1_input` of a hwmon device was read and holds a plausible reading. */
  predicate PlausibleDevice(input: Option<string>) {
    input.Some? && SysfsReading(input.value).Some?
  }

  /** The temperature `temp1_input` of one hwmon device gives, None when the
      file could not be read: the rounded degrees of a plausible reading. */
  function HwmonTemp(input: Option<string>): (t: Option<int>)
    ensures t.Some? <==> PlausibleDevice(input)
    ensures t.Some? ==> Plausible(SysfsReading(input.value).value) && t.value == Degrees(SysfsReading(input.value).value)
    ensures t.Some? ==> 0 <= t.value <= 150
  {
    match input
    case None => None
    case Some(contents) =>
      match SysfsReading(contents)
      case None => None
      case Some(milli) => (DegreesRange(milli); Some(Degrees(milli)))
  }

  /** The hwmon stage: `hwmon0` to `hwmon4`, a whole number of degrees from
      0 to 150 when found. */
  function HwmonStage(inputs: seq<Option<string>>): (t: Option<int>)
    ensures t.Some? ==> 0 <= t.value <= 150
    ensures t.Some? ==>
              exists k :: (0 <= k < |inputs| && k < HwmonLimit && HwmonTemp(inputs[k]) == t
                && forall j :: 0 <= j < k ==> HwmonTemp(inputs[j]).None?)
    ensures t.None? ==> forall k :: 0 <= k < |inputs| && k < HwmonLimit ==> HwmonTemp(inputs[k]).None?
  {
    FirstReadingTake(inputs, HwmonLimit, HwmonTemp);
    FirstReading(Take(inputs, HwmonLimit), HwmonTemp)
  }

  /** The loop over the hwmon devices: a device that cannot be read or gives
      an implausible reading is passed over. */
  method ScanHwmon(inputs: seq<Option<string>>) returns (t: Option<int>)
    ensures t == HwmonStage(inputs)
  {
    var devices := Take(inputs, HwmonLimit);
    for i := 0 to |devices|
      invariant FirstReading(devices[i..], HwmonTemp) == FirstReading(devices, HwmonTemp)
    {
      FirstReadingStep(devices, i, HwmonTemp);
      var input := devices[i];
      if input.Some? {
        var milli := ParseInt(Trim(input.value));
        if milli.Some? && 0 < milli.value < 150000 {
          return Some(RoundDiv(milli.value, 1000));
        }
      }
    }
    return None;
  }

  /** Unlike the thermal zones, hwmon devices that give nothing do not end
      the search: the devices after them are still read. */
  lemma HwmonContinues(failed: seq<Option<string>>, rest: seq<Option<string>>)
    requires |failed| + |rest| <= HwmonLimit
    requires forall k :: 0 <= k < |failed| ==> HwmonTemp(failed[k]).None?
    ensures HwmonStage(failed + rest) == HwmonStage(rest)
  {
    FirstReadingSkips(failed, rest, HwmonTemp);
  }

  // The chain

  /** Where each source is read from. */
  datatype Sources = Sources(zones: seq<ZoneProbe>, sensors: Option<string>, hwmon: seq<Option<string>>)

  /** `getTemperatureInfo`: the thermal zones first, then `sensors`, then
      hwmon. Every reported temperature is a whole number of degrees from 0 to
      150, and when none is available the report is `{cpu: 0, available: false}`. */
  function TemperatureOf(src: Sources, reading: string -> Option<Decimal>): (info: TempInfo)
    ensures info.available ==> 0 <= info.cpu <= 150
    ensures !info.available ==> info == NoTemperature
  {
    ZonesPlausible(Take(src.zones, ZoneLimit));
    match PickZone(Zones(src.zones))
    case Some(zone) => DegreesRange(zone.milli); TempInfo(Degrees(zone.milli), true)
    case None =>
      match SensorsTemp(src.sensors, reading)
      case Some(t) => TempInfo(t, true)
      case None =>
        match HwmonStage(src.hwmon)
        case Some(t) => TempInfo(t, true)
        case None => NoTemperature
  }

  /** The three stages run in order, each returning as soon as it has a reading. */
  method GetTemperatureInfo(src: Sources, reading: string -> Option<Decimal>) returns (info: TempInfo)
    ensures info == TemperatureOf(src, reading)
  {
    var zones := ProbeZones(src.zones);
    var pick := SelectZone(zones);
    if pick.Some? {
      return TempInfo(RoundDiv(pick.value.milli, 1000), true);
    }
    var fromSensors := ScanSensors(src.sensors, reading);
    if fromSensors.Some? {
      return TempInfo(fromSensors.value, true);
    }
    var fromHwmon := ScanHwmon(src.hwmon);
    if fromHwmon.Some? {
      return TempInfo(fromHwmon.value, true);
    }
    return NoTemperature;
  }

  /** An available temperature comes from a plausible source: the rounded
      degrees of a kept thermal zone, or, when no zone is kept, the rounded
      reading of a `sensors` line strictly between 0 and 150 degrees, or, when
      `sensors` gives none either, the rounded degrees of a plausible hwmon
      reading. A reading outside (0, 150) is never reported. */
  lemma TemperatureSource(src: Sources, reading: string -> Option<Decimal>)
    ensures var info := TemperatureOf(src, reading);
      info.available ==>
        || (exists k :: 0 <= k < |Zones(src.zones)| && Plausible(Zones(src.zones)[k].milli)
              && info.cpu == Degrees(Zones(src.zones)[k].milli))
        || (|Zones(src.zones)| == 0 && src.sensors.Some?
              && exists k :: 0 <= k < |Split(src.sensors.value, '\n')| && PlausibleLine(Split(src.sensors.value, '\n')[k], reading)
                   && info.cpu == reading(Split(src.sensors.value, '\n')[k]).value.Round())
        || (|Zones(src.zones)| == 0 && SensorsTemp(src.sensors, reading).None?
              && exists k :: 0 <= k < |src.hwmon| && k < HwmonLimit && PlausibleDevice(src.hwmon[k])
                   && Plausible(SysfsReading(src.hwmon[k].value).value)
                   && info.cpu == Degrees(SysfsReading(src.hwmon[k].value).value))
  {
    var zones := Zones(src.zones);
    var pick := PickZone(zones);
    if pick.Some? {
      var k :| 0 <= k < |zones| && zones[k] == pick.value;
      ZonesPlausible(Take(src.zones, ZoneLimit));
      assert Plausible(zones[k].milli);
    } else {
      PickZonePrefers(zones);
      var fromSensors := SensorsTemp(src.sensors, reading);
      if fromSensors.None? {
        var fromHwmon := HwmonStage(src.hwmon);
        if fromHwmon.Some? {
          var k :| 0 <= k < |src.hwmon| && k < HwmonLimit && HwmonTemp(src.hwmon[k]) == fromHwmon;
          assert Plausible(SysfsReading(src.hwmon[k].value).value);
          assert TemperatureOf(src, reading) == TempInfo(fromHwmon.value, true);
        }
      } else {
        var lines := Split(src.sensors.value, '\n');
        var k :| 0 <= k < |lines| && PlausibleLine(lines[k], reading) && fromSensors.value == reading(lines[k]).value.Round();
        assert TemperatureOf(src, reading) == TempInfo(fromSensors.value, true);
        assert exists k :: 0 <= k < |Split(src.sensors.value, '\n')| && PlausibleLine(Split(src.sensors.value, '\n')[k], reading)
                   && TemperatureOf(src, reading).cpu == reading(Split(src.sensors.value, '\n')[k]).value.Round();
      }
    }
  }

  /** A temperature is available exactly when one of the stages has a reading. */
  lemma AvailableIff(src: Sources, reading: string -> Option<Decimal>)
    ensures TemperatureOf(src, reading).available
        <==> (|Zones(src.zones)| > 0 || SensorsTemp(src.sensors, reading).Some? || HwmonStage(src.hwmon).Some?)
  {
  }

  /** Stage order: a plausible thermal zone decides the result whatever
      `sensors` and hwmon would give, and so does a `sensors` reading when
      there is no zone. */
  lemma StageOrder(src: Sources, other: Sources, reading: string -> Option<Decimal>, otherReading: string -> Option<Decimal>)
    ensures |Zones(src.zones)| > 0 && other.zones == src.zones ==>
              TemperatureOf(src, reading) == TemperatureOf(other, otherReading)
    ensures |Zones(src.zones)| == 0 && |Zones(other.zones)| == 0 && SensorsTemp(src.sensors, reading).Some?
              && SensorsTemp(other.sensors, otherReading) == SensorsTemp(src.sensors, reading) ==>
              TemperatureOf(src, reading) == TemperatureOf(other, otherReading)
  {
  }

  /** A sysfs temperature file holds the millidegrees and a line break: a
      plausible value is read back as it is. */
  lemma SysfsRoundTrip(milli: nat)
    requires Plausible(milli)
    ensures SysfsReading(NatToString(milli) + "\n") == Some(milli)
  {
    var d := NatToString(milli);
    TrimRendered(d);
    ParseIntOfNat(milli);
    SysfsReadingOf(d + "\n", d, milli);
  }

  lemma ParseIntOfNat(n: nat)
    ensures ParseInt(NatToString(n)) == Some(n)
  {
    ParseIntOfRendered(n, "");
    assert NatToString(n) + "" == NatToString(n);
  }

  lemma SysfsReadingOf(contents: string, trimmed: string, milli: int)
    requires Trim(contents) == trimmed && ParseInt(trimmed) == Some(milli) && Plausible(milli)
    ensures SysfsReading(contents) == Some(milli)
  {
  }

  lemma TrimRendered(d: string)
    requires |d| > 0 && AllDigits(d)
    ensures Trim(d + "\n") == d
  {
    var s := d + "\n";
    assert !IsSpace(s[0]);
    assert TrimStart(s) == s;
    assert s[..|s| - 1] == d;
    assert TrimEnd(d) == d by {
      assert !IsSpace(d[|d| - 1]);
    }
  }

  /** A zone whose files hold a plausible temperature and a type is kept
      with that temperature and the trimmed type. */
  lemma ZoneOfFiles(milli: nat, kind: string)
    requires Plausible(milli)
    ensures ZoneOf(Zone(NatToString(milli) + "\n", kind)) == Some(ThermalZone(Trim(kind), milli))
  {
    SysfsRoundTrip(milli);
  }
}
