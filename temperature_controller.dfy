/**
 * The `Device` of the TemperatureController2 sample: two thermostat
 * components, each with a current temperature, a maximum since the last
 * reboot and a log of readings keyed by timestamp; the reboot and max/min
 * report commands; the desired-property dispatch to per-component callbacks;
 * and the telemetry loop of `Run`.
 */
module TemperatureController {
  import opened Common
  import opened Outputs

  const Thermostat1: string := "thermostat1"
  const Thermostat2: string := "thermostat2"
  const TargetTemperatureProperty: string := "targetTemperature"
  const MaxTempProperty: string := "maxTempSinceLastReboot"

  /** The fields of the max/min report (its `avgTemp` is not modelled). */
  datatype Stats = Stats(maxTemp: real, minTemp: real, startTime: int, endTime: int)

  /** A direct-method result, or the handler throwing past its `catch`. */
  datatype MethodResponse = Response(status: int, report: Option<Stats>) | Faulted

  /** `s` holds the largest and smallest reading of `log` and its first and last timestamp. */
  ghost predicate Summarizes(s: Stats, log: map<int, real>) {
    && s.startTime in log && s.endTime in log
    && (exists t :: t in log && log[t] == s.maxTemp)
    && (exists t :: t in log && log[t] == s.minTemp)
    && forall t :: t in log ==> s.minTemp <= log[t] <= s.maxTemp && s.startTime <= t <= s.endTime
  }

  lemma SummaryIsOrdered(s: Stats, log: map<int, real>)
    requires Summarizes(s, log)
    ensures s.minTemp <= s.maxTemp && s.startTime <= s.endTime
  {
  }

  /** A log has at most one summary. */
  lemma SummaryIsUnique(s1: Stats, s2: Stats, log: map<int, real>)
    requires Summarizes(s1, log) && Summarizes(s2, log)
    ensures s1 == s2
  {
    var t1 :| t1 in log && log[t1] == s1.maxTemp;
    var t2 :| t2 in log && log[t2] == s2.maxTemp;
    var u1 :| u1 in log && log[u1] == s1.minTemp;
    var u2 :| u2 in log && log[u2] == s2.minTemp;
  }

  /** A log is empty exactly when it has no timestamp. */
  lemma EmptyLogIff(log: map<int, real>)
    ensures log == map[] <==> forall t :: t !in log
  {
    if forall t :: t !in log {
      assert log == map[];
    }
  }

  lemma EmptyTimesIff(times: set<int>)
    ensures times == {} <==> forall t :: t !in times
  {
    if forall t :: t !in times {
      assert times == {};
    }
  }

  /** The LINQ aggregates `Values.Max()`, `Values.Min()`, `Keys.Min()` and `Keys.Max()` over one log. */
  method Summarize(log: map<int, real>) returns (r: Option<Stats>)
    ensures r.None? <==> log == map[]
    ensures r.Some? ==> Summarizes(r.value, log)
  {
    if log == map[] {
      return None;
    }
    EmptyLogIff(log);
    var t0 :| t0 in log;
    var s := Stats(log[t0], log[t0], t0, t0);
    ghost var tMax, tMin := t0, t0;
    var remaining := log.Keys - {t0};
    while remaining != {}
      invariant remaining <= log.Keys
      invariant tMax in log && log[tMax] == s.maxTemp && tMin in log && log[tMin] == s.minTemp
      invariant s.startTime in log && s.endTime in log
      invariant forall t :: t in log && t !in remaining ==>
        s.minTemp <= log[t] <= s.maxTemp && s.startTime <= t <= s.endTime
      decreases remaining
    {
      EmptyTimesIff(remaining);
      var t :| t in remaining;
      if log[t] > s.maxTemp {
        s, tMax := s.(maxTemp := log[t]), t;
      }
      if log[t] < s.minTemp {
        s, tMin := s.(minTemp := log[t]), t;
      }
      if t < s.startTime {
        s := s.(startTime := t);
      }
      if t > s.endTime {
        s := s.(endTime := t);
      }
      remaining := remaining - {t};
    }
    r := Some(s);
  }

  /** The `Where(i => i.Key > since)` filter of the max/min report. */
  function ReadingsAfter(log: map<int, real>, since: int): (r: map<int, real>)
    ensures forall t :: t in r <==> t in log && t > since
    ensures forall t :: t in r ==> r[t] == log[t]
  {
    map t | t in log && t > since :: log[t]
  }

  /**
   * The reading logs after `SendTemperatureTelemetryAsync` records
   * `temperature` at `now`: the component's log is created if absent, and
   * `TryAdd` never overwrites a reading already stored at `now`.
   */
  function Recorded(readings: map<string, map<int, real>>, component: string, now: int, temperature: real)
    : (r: map<string, map<int, real>>)
    ensures r.Keys == readings.Keys + {component}
    ensures forall c :: c in readings && c != component ==> r[c] == readings[c]
    ensures r[component].Keys == (if component in readings then readings[component].Keys else {}) + {now}
    ensures component in readings ==>
      forall t :: t in readings[component] ==> r[component][t] == readings[component][t]
    ensures !(component in readings && now in readings[component]) ==> r[component][now] == temperature
  {
    if component in readings then
      if now in readings[component] then readings
      else readings[component := readings[component][now := temperature]]
    else readings[component := map[now := temperature]]
  }

  /** Every reading of `before` is still in `after`, with its value: `TryAdd` never overwrites. */
  predicate ReadingsKept(before: map<string, map<int, real>>, after: map<string, map<int, real>>) {
    forall c :: c in before ==>
      c in after && forall t :: t in before[c] ==> t in after[c] && after[c][t] == before[c][t]
  }

  lemma ReadingsKeptTransitive(a: map<string, map<int, real>>, b: map<string, map<int, real>>, c: map<string, map<int, real>>)
    requires ReadingsKept(a, b) && ReadingsKept(b, c)
    ensures ReadingsKept(a, c)
  {
  }

  /** Recording a reading keeps every earlier one. */
  lemma RecordedKeepsReadings(readings: map<string, map<int, real>>, component: string, now: int, temperature: real)
    ensures ReadingsKept(readings, Recorded(readings, component, now, temperature))
  {
  }

  /**
   * How `SendTemperatureAsync` moves a component's maximum: it becomes the
   * largest reading of the log when that exceeds the old maximum, and stays
   * put otherwise.
   */
  ghost predicate MaxTracked(oldMax: real, newMax: real, log: map<int, real>): (b: bool)
    ensures b ==> forall t :: t in log ==> log[t] <= newMax
    ensures b ==> newMax == oldMax || exists t :: t in log && log[t] == newMax
  {
    if exists t :: t in log && log[t] > oldMax then
      && (exists t :: t in log && log[t] == newMax)
      && forall t :: t in log ==> log[t] <= newMax
    else
      newMax == oldMax
  }

  /** The maximum never decreases, and it changes exactly when some reading exceeds it. */
  lemma MaxTrackedIsMonotone(oldMax: real, newMax: real, log: map<int, real>)
    requires MaxTracked(oldMax, newMax, log)
    ensures oldMax <= newMax
    ensures newMax != oldMax <==> exists t :: t in log && log[t] > oldMax
  {
    if exists t :: t in log && log[t] > oldMax {
      var t :| t in log && log[t] > oldMax;
      assert log[t] <= newMax;
    }
  }

  /** The telemetry message and, when the maximum moved, the `maxTempSinceLastReboot` patch. */
  function TemperatureOutputs(component: string, temperature: real, oldMax: real, newMax: real): (r: seq<Output>)
    ensures |r| == 1 || |r| == 2
    ensures |r| == 2 <==> newMax != oldMax
    ensures r[0] == Send(HelperMessage(Some(component), map["temperature" := JReal(temperature)]))
    ensures |r| == 2 ==> r[1] == Report(PropertyPatch(Some(component), map[MaxTempProperty := JReal(newMax)]))
  {
    [Send(HelperMessage(Some(component), map["temperature" := JReal(temperature)]))] +
    (if newMax != oldMax then [Report(PropertyPatch(Some(component), map[MaxTempProperty := JReal(newMax)]))] else [])
  }

  /**
   * `PnpHelpers.PnpConvention.TryGetPropertyFromTwin(desired, "targetTemperature", out double, component)`,
   * taken as: the component's top-level value is an object holding a JSON number under that name.
   */
  function TargetOf(d: Desired, component: string): (r: Option<real>)
    ensures r.Some? <==>
      var v := Lookup(d.entries, component);
      && v.Some? && v.value.JObject? && TargetTemperatureProperty in v.value.fields
      && (v.value.fields[TargetTemperatureProperty].JInt? || v.value.fields[TargetTemperatureProperty].JReal?)
    ensures r.Some? ==>
      var t := Lookup(d.entries, component).value.fields[TargetTemperatureProperty];
      r.value == if t.JInt? then t.i as real else t.r
  {
    match Lookup(d.entries, component)
    case Some(JObject(fields)) =>
      if TargetTemperatureProperty in fields then
        match fields[TargetTemperatureProperty]
        case JInt(i) => Some(i as real)
        case JReal(x) => Some(x)
        case _ => None
      else None
    case _ => None
  }

  /** The temperatures after `TargetTemperatureUpdateCallbackAsync` for `component`. */
  function TargetUpdateTemps(temps: map<string, real>, d: Desired, component: string): (r: map<string, real>)
    ensures r.Keys == temps.Keys
    ensures forall c :: c in temps && c != component ==> r[c] == temps[c]
    ensures component in temps ==>
      r[component] == if TargetOf(d, component).Some? then TargetOf(d, component).value else temps[component]
  {
    match TargetOf(d, component)
    case None => temps
    case Some(target) => if component in temps then temps[component := target] else temps
  }

  /**
   * What `TargetTemperatureUpdateCallbackAsync` reports: nothing without a
   * target; otherwise the 201 ack of the desired value first, then, if the
   * component has a temperature to step from, two 6-second waits and the
   * 200 ack of the temperature reached, both with the patch's version.
   */
  function TargetUpdateOutputs(temps: map<string, real>, d: Desired, component: string): (r: seq<Output>)
    ensures TargetOf(d, component).None? <==> r == []
    ensures TargetOf(d, component).Some? ==>
      && |r| == (if component in temps then 4 else 1)
      && r[0] == Report(WritableResponse(Some(component), TargetTemperatureProperty,
                                         JReal(TargetOf(d, component).value), 201, d.version, None))
    ensures TargetOf(d, component).Some? && component in temps ==>
      r[1] == Wait(6000) && r[2] == Wait(6000) &&
      r[3] == Report(WritableResponse(Some(component), TargetTemperatureProperty,
                                      JReal(TargetUpdateTemps(temps, d, component)[component]), 200, d.version,
                                      Some("Successfully updated target temperature")))
  {
    match TargetOf(d, component)
    case None => []
    case Some(target) =>
      [Report(WritableResponse(Some(component), TargetTemperatureProperty, JReal(target), 201, d.version, None))] +
      (if component in temps then
         [Wait(6000), Wait(6000),
          Report(WritableResponse(Some(component), TargetTemperatureProperty, JReal(target), 200, d.version,
                                  Some("Successfully updated target temperature")))]
       else [])
  }

  /** Some top-level property of the patch names a registered component. */
  ghost predicate AnyRegistered(entries: seq<(string, Json)>, registered: set<string>) {
    exists i :: 0 <= i < |entries| && entries[i].0 in registered
  }

  /** `component` is a top-level property of the patch. */
  ghost predicate HasKey(entries: seq<(string, Json)>, component: string) {
    exists i :: 0 <= i < |entries| && entries[i].0 == component
  }

  lemma AnyRegisteredInit(entries: seq<(string, Json)>, registered: set<string>)
    requires entries != []
    ensures AnyRegistered(entries, registered)
        <==> AnyRegistered(entries[..|entries| - 1], registered) || entries[|entries| - 1].0 in registered
  {
    var init := entries[..|entries| - 1];
    if AnyRegistered(entries, registered) {
      var i :| 0 <= i < |entries| && entries[i].0 in registered;
      if i < |init| {
        assert init[i].0 in registered;
      }
    }
    if AnyRegistered(init, registered) {
      var i :| 0 <= i < |init| && init[i].0 in registered;
      assert entries[i].0 in registered;
    }
  }

  lemma HasKeyInit(entries: seq<(string, Json)>, component: string)
    requires entries != []
    ensures HasKey(entries, component)
        <==> HasKey(entries[..|entries| - 1], component) || entries[|entries| - 1].0 == component
  {
    var init := entries[..|entries| - 1];
    if HasKey(entries, component) {
      var i :| 0 <= i < |entries| && entries[i].0 == component;
      if i < |init| {
        assert init[i].0 == component;
      }
    }
    if HasKey(init, component) {
      var i :| 0 <= i < |init| && init[i].0 == component;
      assert entries[i].0 == component;
    }
  }

  /**
   * The temperatures and outputs of `SetDesiredPropertyUpdateCallback` after
   * the callbacks of `entries`, in order: one invocation per top-level
   * property that names a registered component.
   */
  ghost function Dispatched(entries: seq<(string, Json)>, registered: set<string>, d: Desired, temps: map<string, real>)
    : (r: (map<string, real>, seq<Output>))
    ensures |r.1| <= 4 * |entries|
    decreases |entries|
  {
    if entries == [] then (temps, [])
    else
      var prev := Dispatched(entries[..|entries| - 1], registered, d, temps);
      var component := entries[|entries| - 1].0;
      if component in registered then
        (TargetUpdateTemps(prev.0, d, component), prev.1 + TargetUpdateOutputs(prev.0, d, component))
      else prev
  }

  /**
   * After a dispatch, a component holds its desired target exactly when it
   * has a temperature, is registered, is a top-level property of the patch
   * and carries a target; every other temperature is unchanged.
   */
  lemma {:induction false} DispatchedTemperatures(
    entries: seq<(string, Json)>, registered: set<string>, d: Desired, temps: map<string, real>, component: string)
    ensures Dispatched(entries, registered, d, temps).0.Keys == temps.Keys
    ensures component in temps ==>
      Dispatched(entries, registered, d, temps).0[component]
        == if component in registered && HasKey(entries, component) && TargetOf(d, component).Some?
           then TargetOf(d, component).value
           else temps[component]
    decreases |entries|
  {
    if entries != [] {
      var init := entries[..|entries| - 1];
      DispatchedTemperatures(init, registered, d, temps, component);
      HasKeyInit(entries, component);
    }
  }

  /** A patch that names no registered component changes nothing and reports nothing. */
  lemma {:induction false} DispatchedNothingRegistered(
    entries: seq<(string, Json)>, registered: set<string>, d: Desired, temps: map<string, real>)
    requires !AnyRegistered(entries, registered)
    ensures Dispatched(entries, registered, d, temps) == (temps, [])
    decreases |entries|
  {
    if entries != [] {
      var init := entries[..|entries| - 1];
      AnyRegisteredInit(entries, registered);
      DispatchedNothingRegistered(init, registered, d, temps);
    }
  }

  /** Every acknowledgement a dispatch reports is for a registered component named by the patch. */
  lemma {:induction false} DispatchedAcksOnlyRegistered(
    entries: seq<(string, Json)>, registered: set<string>, d: Desired, temps: map<string, real>, k: nat)
    requires k < |Dispatched(entries, registered, d, temps).1|
    requires Dispatched(entries, registered, d, temps).1[k].Report?
    ensures var o := Dispatched(entries, registered, d, temps).1[k];
      && o.patch.WritableResponse?
      && o.patch.component.Some?
      && o.patch.component.value in registered
      && HasKey(entries, o.patch.component.value)
      && o.patch.av == d.version
    decreases |entries|
  {
    var init := entries[..|entries| - 1];
    var prev := Dispatched(init, registered, d, temps);
    var last := entries[|entries| - 1].0;
    var o := Dispatched(entries, registered, d, temps).1[k];
    if k < |prev.1| {
      DispatchedAcksOnlyRegistered(init, registered, d, temps, k);
      assert o == prev.1[k];
      var i :| 0 <= i < |init| && init[i].0 == o.patch.component.value;
      assert entries[i] == init[i];
    } else {
      assert last in registered;
      assert o == TargetUpdateOutputs(prev.0, d, last)[k - |prev.1|];
      assert entries[|entries| - 1].0 == last;
    }
  }

  /**
   * The converse: every registered component that the patch names and that
   * carries a target has its 201 ack among the dispatch's reports.
   */
  lemma {:induction false} DispatchedAcksEveryTarget(
    entries: seq<(string, Json)>, registered: set<string>, d: Desired, temps: map<string, real>, component: string)
    requires component in registered && HasKey(entries, component) && TargetOf(d, component).Some?
    ensures exists k :: (0 <= k < |Dispatched(entries, registered, d, temps).1| &&
      Dispatched(entries, registered, d, temps).1[k]
        == Report(WritableResponse(Some(component), TargetTemperatureProperty,
                                   JReal(TargetOf(d, component).value), 201, d.version, None)))
    decreases |entries|
  {
    var init := entries[..|entries| - 1];
    var prev := Dispatched(init, registered, d, temps);
    var last := entries[|entries| - 1].0;
    var all := Dispatched(entries, registered, d, temps).1;
    var ack := Report(WritableResponse(Some(component), TargetTemperatureProperty,
                                       JReal(TargetOf(d, component).value), 201, d.version, None));
    HasKeyInit(entries, component);
    if last == component {
      assert all == prev.1 + TargetUpdateOutputs(prev.0, d, component);
      assert all[|prev.1|] == ack;
    } else {
      DispatchedAcksEveryTarget(init, registered, d, temps, component);
      var k :| 0 <= k < |prev.1| && prev.1[k] == ack;
      assert all[k] == prev.1[k];
    }
  }

  /** One iteration's inputs: the two fresh temperatures, the clock at each send, and the working set. */
  datatype TickInput = TickInput(fresh1: real, fresh2: real, now1: int, now2: int, workingSet: int)

  /** `Math.Round(NextDouble() * 40.0 + 5.0, 1)` stays within 5 and 45 degrees. */
  predicate ValidTick(tick: TickInput) {
    5.0 <= tick.fresh1 <= 45.0 && 5.0 <= tick.fresh2 <= 45.0
  }

  /** The `deviceInformation` component patch of `UpdateDeviceInformationAsync`. */
  function DeviceInformation(isWindows: bool): (r: map<string, Json>)
    ensures r.Keys == {"manufacturer", "model", "swVersion", "osName", "processorArchitecture",
                       "processorManufacturer", "totalStorage", "totalMemory"}
    ensures forall k :: k in r ==> r[k].JString? || r[k].JInt?
    ensures r["osName"].JString? && r["osName"].s == (if isWindows then "Windows" else "Linux")
  {
    map[
      "manufacturer" := JString("element15"),
      "model" := JString("ModelIDxcdvmk"),
      "swVersion" := JString("1.0.0"),
      "osName" := JString(if isWindows then "Windows" else "Linux"),
      "processorArchitecture" := JString("64-bit"),
      "processorManufacturer" := JString("Intel"),
      "totalStorage" := JInt(256),
      "totalMemory" := JInt(1024)]
  }

  class Device {
    var temperature: map<string, real>
    var maxTemp: map<string, real>
    var readings: map<string, map<int, real>>
    /** The components with a registered desired-property callback (all `TargetTemperatureUpdateCallbackAsync`). */
    var callbacks: set<string>
    var telemetryInterval: Int32
    /** Everything handed to the device client, oldest first. */
    ghost var sent: seq<Output>

    constructor ()
      ensures temperature == map[] && maxTemp == map[] && readings == map[] && callbacks == {}
      ensures telemetryInterval == 5 && sent == []
    {
      temperature, maxTemp, readings, callbacks := map[], map[], map[], {};
      telemetryInterval := 5;
      sent := [];
    }

    /**
     * The start of `Run` up to its loop: the callbacks of both thermostats
     * are registered, device information and serial numbers are reported,
     * both maxima start at 0 and the interval is acknowledged with 201.
     */
    method Start(isWindows: bool)
      requires callbacks == {}
      modifies this
      ensures callbacks == {Thermostat1, Thermostat2}
      ensures maxTemp == old(maxTemp)[Thermostat1 := 0.0][Thermostat2 := 0.0]
      ensures temperature == old(temperature) && readings == old(readings)
      ensures telemetryInterval == old(telemetryInterval)
      ensures sent == old(sent) + [
        Report(PropertyPatch(Some("deviceInformation"), DeviceInformation(isWindows))),
        Report(PropertyPatch(None, map["serialNumber" := JString("SR-123456")])),
        Report(PropertyPatch(None, map["serialNumber" := JString("S/N-123")])),
        Report(WritableResponse(None, "telemetryInterval", JInt(telemetryInterval), 201, 0, Some("Using default value")))]
    {
      callbacks := callbacks + {Thermostat1};
      callbacks := callbacks + {Thermostat2};
      sent := sent + [Report(PropertyPatch(Some("deviceInformation"), DeviceInformation(isWindows)))];
      sent := sent + [Report(PropertyPatch(None, map["serialNumber" := JString("SR-123456")]))];
      maxTemp := maxTemp[Thermostat1 := 0.0];
      maxTemp := maxTemp[Thermostat2 := 0.0];
      sent := sent + [Report(PropertyPatch(None, map["serialNumber" := JString("S/N-123")]))];
      sent := sent + [Report(WritableResponse(None, "telemetryInterval", JInt(telemetryInterval), 201, 0, Some("Using default value")))];
    }

    /**
     * `HandleRebootCommandAsync`. `delay` is the decoded payload (`None`:
     * the JSON reader rejects it). A delay whose millisecond count wraps
     * negative makes `Task.Delay` throw before anything changes.
     */
    method HandleRebootCommand(delay: Option<Int32>) returns (resp: MethodResponse)
      modifies this
      ensures delay.None? ==> resp == Response(500, None)
      ensures delay.Some? && DelayMs(delay.value) < 0 ==> resp == Faulted
      ensures resp != Response(200, None) ==>
        && temperature == old(temperature) && maxTemp == old(maxTemp)
        && readings == old(readings) && sent == old(sent)
      ensures delay.Some? && DelayMs(delay.value) >= 0 ==>
        && resp == Response(200, None)
        && temperature == old(temperature)[Thermostat1 := 0.0][Thermostat2 := 0.0]
        && maxTemp == old(maxTemp)[Thermostat1 := 0.0][Thermostat2 := 0.0]
        && readings == map[]
        && sent == old(sent) + [Wait(DelayMs(delay.value))]
      ensures callbacks == old(callbacks) && telemetryInterval == old(telemetryInterval)
    {
      if delay.None? {
        return Response(500, None);
      }
      var ms := DelayMs(delay.value);
      if ms < 0 {
        return Faulted;
      }
      sent := sent + [Wait(ms)];
      temperature, maxTemp := temperature[Thermostat1 := 0.0], maxTemp[Thermostat1 := 0.0];
      temperature, maxTemp := temperature[Thermostat2 := 0.0], maxTemp[Thermostat2 := 0.0];
      readings := map[];
      resp := Response(200, None);
    }

    /**
     * `HandleMaxMinReportCommand` for `componentName`. `since` is the decoded
     * payload (`None`: the JSON reader rejects it). Reads the state only.
     */
    method HandleMaxMinReportCommand(componentName: string, since: Option<int>) returns (resp: MethodResponse)
      ensures since.None? ==> resp == Response(500, None)
      ensures since.Some? && componentName !in readings ==> resp == Response(404, None)
      ensures since.Some? && componentName in readings && ReadingsAfter(readings[componentName], since.value) == map[] ==>
        resp == Response(404, None)
      ensures since.Some? && componentName in readings && ReadingsAfter(readings[componentName], since.value) != map[] ==>
        && resp.Response? && resp.status == 200 && resp.report.Some?
        && Summarizes(resp.report.value, ReadingsAfter(readings[componentName], since.value))
    {
      if since.None? {
        return Response(500, None);
      }
      if componentName in readings {
        var allReadings := readings[componentName];
        var filteredReadings := ReadingsAfter(allReadings, since.value);
        var report := Summarize(filteredReadings);
        if report.Some? {
          return Response(200, report);
        }
        return Response(404, None);
      }
      return Response(404, None);
    }

    /**
     * `SetDesiredPropertyUpdateCallback`: the registered callback of each
     * top-level property naming a component, in order, and a debug line when
     * there is none.
     */
    method SetDesiredPropertyUpdateCallback(desired: Desired)
      modifies this`temperature, this`sent
      ensures var r := Dispatched(desired.entries, callbacks, desired, old(temperature));
        && temperature == r.0
        && sent == old(sent) + r.1 + (if AnyRegistered(desired.entries, callbacks) then [] else [LogUnhandled])
    {
      var callbackNotInvoked := true;
      for i := 0 to |desired.entries|
        invariant var r := Dispatched(desired.entries[..i], callbacks, desired, old(temperature));
          temperature == r.0 && sent == old(sent) + r.1
        invariant callbackNotInvoked <==> !AnyRegistered(desired.entries[..i], callbacks)
      {
        assert desired.entries[..i + 1][..i] == desired.entries[..i];
        AnyRegisteredInit(desired.entries[..i + 1], callbacks);
        var componentName := desired.entries[i].0;
        if componentName in callbacks {
          TargetTemperatureUpdateCallback(desired, componentName);
          callbackNotInvoked := false;
        }
      }
      assert desired.entries[..|desired.entries|] == desired.entries;
      if callbackNotInvoked {
        sent := sent + [LogUnhandled];
      }
    }

    /**
     * `TargetTemperatureUpdateCallbackAsync` for `componentName`: the 201
     * ack of the desired value is reported before the temperature moves, the
     * temperature reaches the target in two steps, then the 200 ack of the
     * temperature reached. A component without a temperature yet throws
     * after the 201 ack.
     */
    method TargetTemperatureUpdateCallback(desired: Desired, componentName: string)
      modifies this`temperature, this`sent
      ensures temperature == TargetUpdateTemps(old(temperature), desired, componentName)
      ensures sent == old(sent) + TargetUpdateOutputs(old(temperature), desired, componentName)
    {
      var targetTemperature := TargetOf(desired, componentName);
      if targetTemperature.None? {
        return;
      }
      var target := targetTemperature.value;
      sent := sent + [Report(WritableResponse(Some(componentName), TargetTemperatureProperty, JReal(target), 201, desired.version, None))];
      ghost var acked := sent;
      if componentName !in temperature {
        return;
      }
      ghost var start := temperature[componentName];
      var step := (target - temperature[componentName]) / 2.0;
      for i := 1 to 3
        invariant componentName in temperature
        invariant temperature == old(temperature)[componentName := temperature[componentName]]
        invariant i == 1 ==> temperature[componentName] == start && sent == acked
        invariant i == 2 ==> temperature[componentName] == start + step && sent == acked + [Wait(6000)]
        invariant i == 3 ==> temperature[componentName] == start + step + step && sent == acked + [Wait(6000), Wait(6000)]
      {
        temperature := temperature[componentName := temperature[componentName] + step];
        sent := sent + [Wait(6000)];
      }
      sent := sent + [Report(WritableResponse(Some(componentName), TargetTemperatureProperty, JReal(temperature[componentName]), 200,
                                              desired.version, Some("Successfully updated target temperature")))];
    }

    /** `SendTemperatureTelemetryAsync`: the telemetry message, then the reading recorded at `now`. */
    method SendTemperatureTelemetry(componentName: string, now: int)
      requires componentName in temperature
      modifies this`readings, this`sent
      ensures readings == Recorded(old(readings), componentName, now, temperature[componentName])
      ensures sent == old(sent) + [Send(HelperMessage(Some(componentName), map["temperature" := JReal(temperature[componentName])]))]
    {
      var currentTemperature := temperature[componentName];
      sent := sent + [Send(HelperMessage(Some(componentName), map["temperature" := JReal(currentTemperature)]))];
      if componentName in readings {
        if now !in readings[componentName] {
          readings := readings[componentName := readings[componentName][now := currentTemperature]];
        }
      } else {
        readings := readings[componentName := map[now := currentTemperature]];
      }
    }

    /** `UpdateMaxTemperatureSinceLastRebootAsync`: reports the component's current maximum. */
    method UpdateMaxTemperatureSinceLastReboot(componentName: string)
      requires componentName in maxTemp
      modifies this`sent
      ensures sent == old(sent) + [Report(PropertyPatch(Some(componentName), map[MaxTempProperty := JReal(maxTemp[componentName])]))]
    {
      sent := sent + [Report(PropertyPatch(Some(componentName), map[MaxTempProperty := JReal(maxTemp[componentName])]))];
    }

    /**
     * `SendTemperatureAsync`: send and record the temperature, then raise the
     * maximum to the largest logged reading if that exceeds it, reporting the
     * patch exactly when the maximum changes.
     */
    method SendTemperature(componentName: string, now: int)
      requires componentName in temperature && componentName in maxTemp
      modifies this`readings, this`maxTemp, this`sent
      ensures readings == Recorded(old(readings), componentName, now, temperature[componentName])
      ensures maxTemp.Keys == old(maxTemp).Keys
      ensures maxTemp == old(maxTemp)[componentName := maxTemp[componentName]]
      ensures MaxTracked(old(maxTemp[componentName]), maxTemp[componentName], readings[componentName])
      ensures sent == old(sent) + TemperatureOutputs(componentName, temperature[componentName], old(maxTemp[componentName]), maxTemp[componentName])
    {
      SendTemperatureTelemetry(componentName, now);
      var summary := Summarize(readings[componentName]);
      var logMax := summary.value.maxTemp;
      if logMax > maxTemp[componentName] {
        maxTemp := maxTemp[componentName := logMax];
        UpdateMaxTemperatureSinceLastReboot(componentName);
      } else {
        assert !exists t :: t in readings[componentName] && readings[componentName][t] > maxTemp[componentName];
      }
    }

    /** `SendDeviceMemoryAsync`: the root-level `workingSet` telemetry. */
    method SendDeviceMemory(workingSet: int)
      modifies this`sent
      ensures sent == old(sent) + [Send(HelperMessage(None, map["workingSet" := JInt(workingSet)]))]
    {
      sent := sent + [Send(HelperMessage(None, map["workingSet" := JInt(workingSet)]))];
    }

    /**
     * One iteration of the `Run` loop: fresh temperatures only when the reset
     * flag is set, both thermostats sent, the working set sent, the 5-second
     * wait; the flag returned is whether both temperatures are now 0.
     */
    method LoopIteration(reset: bool, tick: TickInput) returns (nextReset: bool)
      requires Thermostat1 in maxTemp && Thermostat2 in maxTemp
      requires reset || (Thermostat1 in temperature && Thermostat2 in temperature)
      requires ValidTick(tick)
      modifies this`temperature, this`readings, this`maxTemp, this`sent
      ensures temperature == if reset then old(temperature)[Thermostat1 := tick.fresh1][Thermostat2 := tick.fresh2] else old(temperature)
      ensures readings == Recorded(Recorded(old(readings), Thermostat1, tick.now1, temperature[Thermostat1]),
                                   Thermostat2, tick.now2, temperature[Thermostat2])
      ensures maxTemp.Keys == old(maxTemp).Keys
      ensures maxTemp == old(maxTemp)[Thermostat1 := maxTemp[Thermostat1]][Thermostat2 := maxTemp[Thermostat2]]
      ensures MaxTracked(old(maxTemp[Thermostat1]), maxTemp[Thermostat1], readings[Thermostat1])
      ensures MaxTracked(old(maxTemp[Thermostat2]), maxTemp[Thermostat2], readings[Thermostat2])
      ensures sent == old(sent)
        + TemperatureOutputs(Thermostat1, temperature[Thermostat1], old(maxTemp[Thermostat1]), maxTemp[Thermostat1])
        + TemperatureOutputs(Thermostat2, temperature[Thermostat2], old(maxTemp[Thermostat2]), maxTemp[Thermostat2])
        + [Send(HelperMessage(None, map["workingSet" := JInt(tick.workingSet)])), Wait(5000)]
      ensures nextReset <==> temperature[Thermostat1] == 0.0 && temperature[Thermostat2] == 0.0
      ensures reset ==> !nextReset
    {
      if reset {
        temperature := temperature[Thermostat1 := tick.fresh1];
        temperature := temperature[Thermostat2 := tick.fresh2];
      }
      ghost var sent0 := sent;
      SendTemperature(Thermostat1, tick.now1);
      ghost var sent1 := sent;
      ghost var readings1 := readings;
      SendTemperature(Thermostat2, tick.now2);
      assert readings[Thermostat1] == readings1[Thermostat1];
      SendDeviceMemory(tick.workingSet);
      sent := sent + [Wait(5000)];
      nextReset := temperature[Thermostat1] == 0.0 && temperature[Thermostat2] == 0.0;
    }

    /**
     * The `Run` loop over `ticks`, one iteration each, with no other handler
     * running in between: temperatures are generated on the first iteration
     * only, and both maxima never decrease.
     */
    method RunLoop(ticks: seq<TickInput>) returns (reset: bool)
      requires Thermostat1 in maxTemp && Thermostat2 in maxTemp
      requires forall i :: 0 <= i < |ticks| ==> ValidTick(ticks[i])
      modifies this`temperature, this`readings, this`maxTemp, this`sent
      ensures |ticks| == 0 ==> reset && temperature == old(temperature)
      ensures |ticks| > 0 ==>
        && !reset
        && temperature == old(temperature)[Thermostat1 := ticks[0].fresh1][Thermostat2 := ticks[0].fresh2]
      ensures maxTemp.Keys == old(maxTemp).Keys
      ensures old(maxTemp[Thermostat1]) <= maxTemp[Thermostat1] && old(maxTemp[Thermostat2]) <= maxTemp[Thermostat2]
      ensures ReadingsKept(old(readings), readings)
      ensures old(sent) <= sent
    {
      reset := true;
      for i := 0 to |ticks|
        invariant Thermostat1 in maxTemp && Thermostat2 in maxTemp
        invariant maxTemp.Keys == old(maxTemp).Keys
        invariant old(maxTemp[Thermostat1]) <= maxTemp[Thermostat1] && old(maxTemp[Thermostat2]) <= maxTemp[Thermostat2]
        invariant i == 0 ==> reset && temperature == old(temperature)
        invariant i > 0 ==> !reset && temperature == old(temperature)[Thermostat1 := ticks[0].fresh1][Thermostat2 := ticks[0].fresh2]
        invariant ReadingsKept(old(readings), readings)
        invariant old(sent) <= sent
      {
        ghost var before := maxTemp;
        ghost var logs := readings;
        reset := LoopIteration(reset, ticks[i]);
        ghost var logs1 := Recorded(logs, Thermostat1, ticks[i].now1, temperature[Thermostat1]);
        RecordedKeepsReadings(logs, Thermostat1, ticks[i].now1, temperature[Thermostat1]);
        RecordedKeepsReadings(logs1, Thermostat2, ticks[i].now2, temperature[Thermostat2]);
        ReadingsKeptTransitive(logs, logs1, readings);
        ReadingsKeptTransitive(old(readings), logs, readings);
        MaxTrackedIsMonotone(before[Thermostat1], maxTemp[Thermostat1], readings[Thermostat1]);
        MaxTrackedIsMonotone(before[Thermostat2], maxTemp[Thermostat2], readings[Thermostat2]);
      }
    }
  }
}
