/**
 * The `Thermostat` device of `Thermostat.cs`: one writable property,
 * `telemetryInterval`, acknowledged with its own root-level ack builder,
 * and a loop that sends a random temperature and then waits the interval.
 */
module Thermostat {
  import opened Common
  import opened Outputs
  import PnPConvention

  const DefaultInterval: Int32 := 5
  const IntervalProperty: string := "telemetryInterval"

  /** The private `CreateAck`: `{propertyName: {value, ac, av, ad}}`, `ad` always present. */
  function CreateAck(
    propertyName: string,
    value: Json,
    statusCode: int,
    statusVersion: int,
    statusDescription: Option<string>): (ack: TwinCollection)
    ensures ack.Keys == {propertyName} && ack[propertyName].JObject?
    ensures ack[propertyName].fields.Keys == {"value", "ac", "av", "ad"}
    ensures PnPConvention.ReadRootAck(ack, propertyName)
         == Some(PnPConvention.AckInfo(value, statusCode, statusVersion, statusDescription))
  {
    var ad := if statusDescription.None? then JNull else JString(statusDescription.value);
    map[propertyName := JObject(map["value" := value, "ac" := JInt(statusCode), "av" := JInt(statusVersion), "ad" := ad])]
  }

  /** The private builder and the root form of the convention helper build the same collection. */
  lemma CreateAckIsRootConventionAck(
    propertyName: string, value: Json, statusCode: int, statusVersion: int, statusDescription: Option<string>)
    ensures CreateAck(propertyName, value, statusCode, statusVersion, statusDescription)
         == PnPConvention.CreateAck(propertyName, value, statusCode, statusVersion, statusDescription)
  {
  }

  /**
   * The interval rule of `DesiredPropertyUpdateCallback` for a desired value
   * the comparison accepts (a number, a boolean or null): the new interval and the ack it reports. The comparison with 0
   * is made on the JSON value; a positive value is then converted to `int`,
   * and `None` is the conversion throwing before anything is reported. This
   * variant acknowledges the value that was asked for, accepted or not.
   */
  function IntervalUpdate(interval: Int32, desired: Json, version: int): (r: Option<(Int32, TwinCollection)>)
    requires IsComparable(desired)
    ensures r.None? <==> IsPositive(desired) && ToInt32(desired).None?
    ensures r.Some? ==> r.value.1.Keys == {IntervalProperty}
    ensures IsPositive(desired) && r.Some? ==>
      && r.value.0 == ToInt32(desired).value
      && PnPConvention.ReadRootAck(r.value.1, IntervalProperty)
         == Some(PnPConvention.AckInfo(desired, 200, version, Some("property synced")))
    ensures !IsPositive(desired) ==>
      && r.Some?
      && r.value.0 == interval
      && PnPConvention.ReadRootAck(r.value.1, IntervalProperty)
         == Some(PnPConvention.AckInfo(desired, 500, version, Some("Err. Negative values not supported.")))
    ensures interval >= 0 && r.Some? ==> r.value.0 >= 0
  {
    if IsPositive(desired) then
      match ToInt32(desired)
      case None => None
      case Some(n) =>
        PositiveValueStored(desired);
        Some((n, CreateAck(IntervalProperty, desired, 200, version, Some("property synced"))))
    else Some((interval, CreateAck(IntervalProperty, desired, 500, version, Some("Err. Negative values not supported."))))
  }

  /** The telemetry message of one loop iteration, built inline with the object-message metadata. */
  function TemperatureMessage(temperature: int): (m: PnPConvention.Message)
    ensures m == PnPConvention.CreateMessageFromObject(JObject(map["temperature" := JInt(temperature)]))
  {
    PnPConvention.Message(JObject(map["temperature" := JInt(temperature)]), "application/json", "utf-8", None)
  }

  class Thermostat {
    var telemetryInterval: Int32
    /** Everything handed to the device client, oldest first. */
    ghost var sent: seq<Output>

    /** The interval never goes negative: only positive values are stored, rounded. */
    ghost predicate Valid()
      reads this
    {
      telemetryInterval >= 0
    }

    constructor ()
      ensures Valid()
      ensures telemetryInterval == DefaultInterval && sent == []
    {
      telemetryInterval := DefaultInterval;
      sent := [];
    }

    /** The start-up reports of `Run`: the serial number, then the current interval acknowledged with 201. */
    method Start()
      modifies this`sent
      ensures sent == old(sent) + [
        SerialNumberReport,
        Report(Collection(CreateAck(IntervalProperty, JInt(telemetryInterval), 201, 0, Some("Using Default Value"))))]
    {
      sent := sent + [SerialNumberReport];
      sent := sent + [Report(Collection(CreateAck(IntervalProperty, JInt(telemetryInterval), 201, 0, Some("Using Default Value"))))];
    }

    /** `AckDesiredPropertyReadAsync`: reports one root-level ack. */
    method AckDesiredPropertyRead(propertyName: string, payload: Json, statusCode: int, description: Option<string>, version: int)
      modifies this`sent
      ensures sent == old(sent) + [Report(Collection(CreateAck(propertyName, payload, statusCode, version, description)))]
    {
      var ack := CreateAck(propertyName, payload, statusCode, version, description);
      sent := sent + [Report(Collection(ack))];
    }

    /**
     * `DesiredPropertyUpdateCallback`. The model treats a missing property as
     * the indexer throwing, and a string, date or object value the same way:
     * nothing is changed or reported.
     */
    method DesiredPropertyUpdateCallback(desired: Desired)
      requires Valid()
      modifies this
      ensures Valid()
      ensures DesiredInterval(desired).None? ==>
        telemetryInterval == old(telemetryInterval) && sent == old(sent)
      ensures DesiredInterval(desired).Some? ==>
        var r := IntervalUpdate(old(telemetryInterval), DesiredInterval(desired).value, desired.version);
        && (r.None? ==> telemetryInterval == old(telemetryInterval) && sent == old(sent))
        && (r.Some? ==> telemetryInterval == r.value.0 && sent == old(sent) + [Report(Collection(r.value.1))])
    {
      var desiredPropertyValue := DesiredInterval(desired);
      if desiredPropertyValue.None? {
        return;
      }
      var value := desiredPropertyValue.value;
      if IsPositive(value) {
        var converted := ToInt32(value);
        if converted.None? {
          return;
        }
        PositiveValueStored(value);
        telemetryInterval := converted.value;
        AckDesiredPropertyRead(IntervalProperty, value, 200, Some("property synced"), desired.version);
      } else {
        AckDesiredPropertyRead(IntervalProperty, value, 500, Some("Err. Negative values not supported."), desired.version);
      }
    }

    /**
     * One iteration of the `Run` loop: send a temperature, then wait the
     * interval. `running` is false when `Task.Delay` rejects the wrapped
     * millisecond count, which ends the loop.
     */
    method Tick(temperature: int) returns (running: bool)
      requires 0 <= temperature < 100
      modifies this`sent
      ensures running <==> DelayMs(telemetryInterval) >= 0
      ensures Valid() && telemetryInterval <= 2147483 ==> running
      ensures sent == old(sent) + [Send(Msg(TemperatureMessage(temperature)))] +
        (if running then [Wait(DelayMs(telemetryInterval))] else [])
    {
      sent := sent + [Send(Msg(TemperatureMessage(temperature)))];
      var ms := DelayMs(telemetryInterval);
      running := ms >= 0;
      if running {
        sent := sent + [Wait(ms)];
      }
    }
  }
}
