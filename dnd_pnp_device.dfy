/**
 * The `DndPnPDevice` of `DndPnPDevice.cs`: the `telemetryInterval` writable
 * property acknowledged through the `PnpHelpers` convention class, a reboot
 * handler that restores the default interval, and a loop that sends a
 * temperature and the working set and then waits the interval.
 */
module DndPnPDevice {
  import opened Common
  import opened Outputs
  import Diagnostics
  import PnPConvention

  const DefaultInterval: Int32 := 5
  const IntervalProperty: string := "telemetryInterval"

  /** `PnpHelpers.PnpConvention.CreateWritablePropertyResponse` for the root-level interval property. */
  function IntervalResponse(interval: Int32, statusCode: int, version: int, description: string): (r: Patch)
    ensures r.WritableResponse? && r.component.None? && r.property == IntervalProperty
    ensures r.value == JInt(interval) && r.ac == statusCode && r.av == version && r.ad == Some(description)
  {
    WritableResponse(None, IntervalProperty, JInt(interval), statusCode, version, Some(description))
  }

  /**
   * The interval rule of `DesiredPropertyUpdateCallback` for a desired value
   * the comparison accepts (a number, a boolean or null). The comparison with 0 is made on the JSON value; a positive
   * value is then converted to `int`, and `None` is the conversion throwing
   * before anything is reported. This variant acknowledges the `int`
   * interval it holds once the update is done, so a rejected value is never
   * echoed back.
   */
  function IntervalUpdate(interval: Int32, desired: Json, version: int): (r: Option<(Int32, Patch)>)
    requires IsComparable(desired)
    ensures r.None? <==> IsPositive(desired) && ToInt32(desired).None?
    ensures r.Some? ==>
      && r.value.1.WritableResponse? && r.value.1.component.None? && r.value.1.property == IntervalProperty
      && r.value.1.value == JInt(r.value.0) && r.value.1.av == version
    ensures IsPositive(desired) && r.Some? ==>
      r.value.0 == ToInt32(desired).value && r.value.1.ac == 200 && r.value.1.ad == Some("Property synced")
    ensures !IsPositive(desired) ==>
      r.Some? && r.value.0 == interval && r.value.1.ac == 500 && r.value.1.ad == Some("Err. Negative values not supported.")
    ensures interval >= 0 && r.Some? ==> r.value.0 >= 0
  {
    if IsPositive(desired) then
      match ToInt32(desired)
      case None => None
      case Some(n) =>
        PositiveValueStored(desired);
        Some((n, IntervalResponse(n, 200, version, "Property synced")))
    else Some((interval, IntervalResponse(interval, 500, version, "Err. Negative values not supported.")))
  }

  /** The patch `OnReboot` reports: the `diag` component, marked as one, with its reboot time. */
  function RebootReport(now: int): (t: TwinCollection)
    ensures t.Keys == {Diagnostics.Name}
    ensures PnPConvention.IsMarkedComponent(t[Diagnostics.Name])
    ensures t[Diagnostics.Name].fields.Keys == {"__t", "lastReboot"}
    ensures t[Diagnostics.Name].fields["lastReboot"] == JTime(now)
  {
    map[Diagnostics.Name := JObject(map["__t" := JString("c"), "lastReboot" := JTime(now)])]
  }

  class DndPnPDevice {
    var telemetryInterval: Int32
    /** Everything handed to the device client, oldest first. */
    ghost var sent: seq<Output>

    /** The interval never goes negative: only positive values are stored, rounded. */
    ghost predicate Valid()
      reads this
    {
      telemetryInterval >= 0
    }

    constructor ()
      ensures Valid()
      ensures telemetryInterval == DefaultInterval && sent == []
    {
      telemetryInterval := DefaultInterval;
      sent := [];
    }

    /** The start-up reports of `Run`: the serial number, then the current interval acknowledged with 201. */
    method Start()
      modifies this`sent
      ensures sent == old(sent) + [
        SerialNumberReport,
        Report(IntervalResponse(telemetryInterval, 201, 0, "Using default value"))]
    {
      sent := sent + [SerialNumberReport];
      sent := sent + [Report(IntervalResponse(telemetryInterval, 201, 0, "Using default value"))];
    }

    /** `OnReboot`: back to the default interval, then the `diag` reboot patch. */
    method OnReboot(now: int)
      modifies this
      ensures Valid()
      ensures telemetryInterval == DefaultInterval
      ensures sent == old(sent) + [Report(Collection(RebootReport(now)))]
    {
      telemetryInterval := 5;
      var reported := RebootReport(now);
      sent := sent + [Report(Collection(reported))];
    }

    /**
     * `DesiredPropertyUpdateCallback`. The model treats a missing property as
     * the indexer throwing, and a string, date or object value the same way:
     * nothing is changed or reported.
     */
    method DesiredPropertyUpdateCallback(desired: Desired)
      requires Valid()
      modifies this
      ensures Valid()
      ensures DesiredInterval(desired).None? ==>
        telemetryInterval == old(telemetryInterval) && sent == old(sent)
      ensures DesiredInterval(desired).Some? ==>
        var r := IntervalUpdate(old(telemetryInterval), DesiredInterval(desired).value, desired.version);
        && (r.None? ==> telemetryInterval == old(telemetryInterval) && sent == old(sent))
        && (r.Some? ==> telemetryInterval == r.value.0 && sent == old(sent) + [Report(r.value.1)])
    {
      var desiredPropertyValue := DesiredInterval(desired);
      if desiredPropertyValue.None? {
        return;
      }
      var value := desiredPropertyValue.value;
      if IsPositive(value) {
        var converted := ToInt32(value);
        if converted.None? {
          return;
        }
        PositiveValueStored(value);
        telemetryInterval := converted.value;
        sent := sent + [Report(IntervalResponse(telemetryInterval, 200, desired.version, "Property synced"))];
      } else {
        sent := sent + [Report(IntervalResponse(telemetryInterval, 500, desired.version, "Err. Negative values not supported."))];
      }
    }

    /**
     * One iteration of the `Run` loop: a temperature, the working set, then
     * the wait. `running` is false when `Task.Delay` rejects the wrapped
     * millisecond count, which ends the loop.
     */
    method Tick(temperature: int, workingSet: int) returns (running: bool)
      requires 0 <= temperature < 100
      modifies this`sent
      ensures running <==> DelayMs(telemetryInterval) >= 0
      ensures Valid() && telemetryInterval <= 2147483 ==> running
      ensures sent == old(sent) + [
          Send(HelperMessage(None, map["temperature" := JInt(temperature)])),
          Send(Msg(Diagnostics.GetWorkingSet(workingSet)))] +
        (if running then [Wait(DelayMs(telemetryInterval))] else [])
    {
      sent := sent + [Send(HelperMessage(None, map["temperature" := JInt(temperature)]))];
      sent := sent + [Send(Msg(Diagnostics.GetWorkingSet(workingSet)))];
      var ms := DelayMs(telemetryInterval);
      running := ms >= 0;
      if running {
        sent := sent + [Wait(ms)];
      }
    }
  }
}
