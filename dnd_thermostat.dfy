/**
 * The second `Thermostat` device, in `dnd-pnp-device.cs`: the
 * `telemetryInterval` writable property acknowledged with the root form of
 * this sample's `PnPConvention` helper, a reboot handler that restores the default
 * interval and re-reports it, and a loop that sends a temperature and the
 * working set and then waits the interval.
 */
module DndThermostat {
  import opened Common
  import opened Outputs
  import PnPConvention
  import Diagnostics

  const DefaultInterval: Int32 := 5
  const IntervalProperty: string := "telemetryInterval"

  /** The 201 acknowledgement of the default interval, reported at start-up and after a reboot. */
  function DefaultIntervalAck(interval: Int32): (ack: TwinCollection)
    ensures ack.Keys == {IntervalProperty}
    ensures PnPConvention.ReadRootAck(ack, IntervalProperty)
         == Some(PnPConvention.AckInfo(JInt(interval), 201, 0, Some("Using Default Value")))
  {
    PnPConvention.CreateAck(IntervalProperty, JInt(interval), 201, 0, Some("Using Default Value"))
  }

  /**
   * The interval rule of `DesiredPropertyUpdateCallback` for a desired value
   * the comparison accepts (a number, a boolean or null). The comparison with 0 is made on the JSON value; a positive
   * value is then converted to `int`, and `None` is the conversion throwing
   * before anything is reported. Like `DndPnPDevice`, this variant
   * acknowledges the `int` interval it holds once the update is done, and
   * every ack is the root form, so `ad` is present.
   */
  function IntervalUpdate(interval: Int32, desired: Json, version: int): (r: Option<(Int32, TwinCollection)>)
    requires IsComparable(desired)
    ensures r.None? <==> IsPositive(desired) && ToInt32(desired).None?
    ensures r.Some? ==>
      && r.value.1.Keys == {IntervalProperty} && r.value.1[IntervalProperty].JObject?
      && "ad" in r.value.1[IntervalProperty].fields
    ensures IsPositive(desired) && r.Some? ==>
      && r.value.0 == ToInt32(desired).value
      && PnPConvention.ReadRootAck(r.value.1, IntervalProperty)
         == Some(PnPConvention.AckInfo(JInt(r.value.0), 200, version, Some("Property synced")))
    ensures !IsPositive(desired) ==>
      && r.Some?
      && r.value.0 == interval
      && PnPConvention.ReadRootAck(r.value.1, IntervalProperty)
         == Some(PnPConvention.AckInfo(JInt(interval), 500, version, Some("Err. Negative values not supported.")))
    ensures interval >= 0 && r.Some? ==> r.value.0 >= 0
  {
    if IsPositive(desired) then
      match ToInt32(desired)
      case None => None
      case Some(n) =>
        PositiveValueStored(desired);
        Some((n, PnPConvention.CreateAck(IntervalProperty, JInt(n), 200, version, Some("Property synced"))))
    else
      Some((interval, PnPConvention.CreateAck(IntervalProperty, JInt(interval), 500, version, Some("Err. Negative values not supported."))))
  }

  /** The telemetry message of one loop iteration: the object overload of the convention helper. */
  function TemperatureMessage(temperature: int): (m: PnPConvention.Message)
    ensures m.body == JObject(map["temperature" := JInt(temperature)])
    ensures m.contentType == "application/json" && m.contentEncoding == "utf-8" && m.componentName.None?
  {
    PnPConvention.CreateMessageFromObject(JObject(map["temperature" := JInt(temperature)]))
  }

  class Thermostat {
    var telemetryInterval: Int32
    /** Everything handed to the device client, oldest first. */
    ghost var sent: seq<Output>

    /** The interval never goes negative: only positive values are stored, rounded. */
    ghost predicate Valid()
      reads this
    {
      telemetryInterval >= 0
    }

    constructor ()
      ensures Valid()
      ensures telemetryInterval == DefaultInterval && sent == []
    {
      telemetryInterval := DefaultInterval;
      sent := [];
    }

    /** The start-up reports of `Run`: the serial number, then the current interval acknowledged with 201. */
    method Start()
      modifies this`sent
      ensures sent == old(sent) + [SerialNumberReport, Report(Collection(DefaultIntervalAck(telemetryInterval)))]
    {
      sent := sent + [SerialNumberReport];
      sent := sent + [Report(Collection(DefaultIntervalAck(telemetryInterval)))];
    }

    /** `DiagnosticsComponent_OnRebootCommandAsync`: back to the default interval, acknowledged with 201 as at start-up. */
    method OnRebootCommand()
      modifies this
      ensures Valid()
      ensures telemetryInterval == DefaultInterval
      ensures sent == old(sent) + [Report(Collection(DefaultIntervalAck(DefaultInterval)))]
    {
      telemetryInterval := 5;
      sent := sent + [Report(Collection(DefaultIntervalAck(telemetryInterval)))];
    }

    /**
     * `DesiredPropertyUpdateCallback`. The model treats a missing property as
     * the indexer throwing, and a string, date or object value the same way:
     * nothing is changed or reported.
     */
    method DesiredPropertyUpdateCallback(desired: Desired)
      requires Valid()
      modifies this
      ensures Valid()
      ensures DesiredInterval(desired).None? ==>
        telemetryInterval == old(telemetryInterval) && sent == old(sent)
      ensures DesiredInterval(desired).Some? ==>
        var r := IntervalUpdate(old(telemetryInterval), DesiredInterval(desired).value, desired.version);
        && (r.None? ==> telemetryInterval == old(telemetryInterval) && sent == old(sent))
        && (r.Some? ==> telemetryInterval == r.value.0 && sent == old(sent) + [Report(Collection(r.value.1))])
    {
      var desiredPropertyValue := DesiredInterval(desired);
      if desiredPropertyValue.None? {
        return;
      }
      var value := desiredPropertyValue.value;
      if IsPositive(value) {
        var converted := ToInt32(value);
        if converted.None? {
          return;
        }
        PositiveValueStored(value);
        telemetryInterval := converted.value;
        var ack := PnPConvention.CreateAck(IntervalProperty, JInt(telemetryInterval), 200, desired.version, Some("Property synced"));
        sent := sent + [Report(Collection(ack))];
      } else {
        var ack := PnPConvention.CreateAck(IntervalProperty, JInt(telemetryInterval), 500, desired.version, Some("Err. Negative values not supported."));
        sent := sent + [Report(Collection(ack))];
      }
    }

    /**
     * One iteration of the `Run` loop: a temperature, the working set, then
     * the wait. `running` is false when `Task.Delay` rejects the wrapped
     * millisecond count, which ends the loop.
     */
    method Tick(temperature: int, workingSet: int) returns (running: bool)
      requires 0 <= temperature < 100
      modifies this`sent
      ensures running <==> DelayMs(telemetryInterval) >= 0
      ensures Valid() && telemetryInterval <= 2147483 ==> running
      ensures sent == old(sent) + [
          Send(Msg(TemperatureMessage(temperature))),
          Send(Msg(Diagnostics.GetWorkingSet(workingSet)))] +
        (if running then [Wait(DelayMs(telemetryInterval))] else [])
    {
      sent := sent + [Send(Msg(TemperatureMessage(temperature)))];
      sent := sent + [Send(Msg(Diagnostics.GetWorkingSet(workingSet)))];
      var ms := DelayMs(telemetryInterval);
      running := ms >= 0;
      if running {
        sent := sent + [Wait(ms)];
      }
    }
  }
}
