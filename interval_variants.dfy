/**
 * The three `telemetryInterval` rules side by side. They agree on which
 * values are accepted and on what is stored, and disagree on what a
 * rejection acknowledges.
 */
module IntervalVariants {
  import opened Common
  import PnPConvention
  import Thermostat
  import DndPnPDevice
  import DndThermostat

  /**
   * A positive value that converts becomes the interval in all three and
   * is acknowledged with 200; only `Thermostat.cs` echoes the JSON value as
   * sent, the other two the `int` stored.
   */
  lemma AcceptedValuesAgree(interval: Int32, desired: Json, version: int)
    requires IsComparable(desired) && IsPositive(desired) && ToInt32(desired).Some?
    ensures Thermostat.IntervalUpdate(interval, desired, version).Some?
    ensures DndPnPDevice.IntervalUpdate(interval, desired, version).Some?
    ensures DndThermostat.IntervalUpdate(interval, desired, version).Some?
    ensures Thermostat.IntervalUpdate(interval, desired, version).value.0 == ToInt32(desired).value
    ensures DndPnPDevice.IntervalUpdate(interval, desired, version).value.0 == ToInt32(desired).value
    ensures DndThermostat.IntervalUpdate(interval, desired, version).value.0 == ToInt32(desired).value
    ensures PnPConvention.ReadRootAck(Thermostat.IntervalUpdate(interval, desired, version).value.1, "telemetryInterval").value.value == desired
    ensures DndPnPDevice.IntervalUpdate(interval, desired, version).value.1.value == JInt(ToInt32(desired).value)
    ensures PnPConvention.ReadRootAck(DndThermostat.IntervalUpdate(interval, desired, version).value.1, "telemetryInterval").value.value
         == JInt(ToInt32(desired).value)
  {
  }

  /**
   * A value that is not positive (null included) leaves the interval alone in all three;
   * only `Thermostat.cs` echoes the rejected value, the other two report the
   * interval they keep.
   */
  lemma RejectedValueAcks(interval: Int32, desired: Json, version: int)
    requires IsComparable(desired) && !IsPositive(desired)
    ensures Thermostat.IntervalUpdate(interval, desired, version).Some?
    ensures DndPnPDevice.IntervalUpdate(interval, desired, version).Some?
    ensures DndThermostat.IntervalUpdate(interval, desired, version).Some?
    ensures Thermostat.IntervalUpdate(interval, desired, version).value.0 == interval
    ensures DndPnPDevice.IntervalUpdate(interval, desired, version).value.0 == interval
    ensures DndThermostat.IntervalUpdate(interval, desired, version).value.0 == interval
    ensures PnPConvention.ReadRootAck(Thermostat.IntervalUpdate(interval, desired, version).value.1, "telemetryInterval").value.value == desired
    ensures DndPnPDevice.IntervalUpdate(interval, desired, version).value.1.value == JInt(interval)
    ensures PnPConvention.ReadRootAck(DndThermostat.IntervalUpdate(interval, desired, version).value.1, "telemetryInterval").value.value == JInt(interval)
  {
  }

  /**
   * The guard looks at the JSON value, the field keeps the rounded `int`:
   * a desired fraction of at most one half that is not within the
   * library's tolerance of 0 passes the check, is acknowledged with 200, and
   * stops the interval at 0 in all three.
   */
  lemma SmallFractionStoresZero(interval: Int32, x: real, version: int)
    requires 0.0 < x <= 0.5 && !ApproxZero(x)
    ensures Thermostat.IntervalUpdate(interval, JReal(x), version).Some?
    ensures Thermostat.IntervalUpdate(interval, JReal(x), version).value.0 == 0
    ensures PnPConvention.ReadRootAck(Thermostat.IntervalUpdate(interval, JReal(x), version).value.1, "telemetryInterval").value.ac == 200
    ensures DndPnPDevice.IntervalUpdate(interval, JReal(x), version).Some?
    ensures DndPnPDevice.IntervalUpdate(interval, JReal(x), version).value.0 == 0
    ensures DndPnPDevice.IntervalUpdate(interval, JReal(x), version).value.1.ac == 200
    ensures DndThermostat.IntervalUpdate(interval, JReal(x), version).Some?
    ensures DndThermostat.IntervalUpdate(interval, JReal(x), version).value.0 == 0
    ensures PnPConvention.ReadRootAck(DndThermostat.IntervalUpdate(interval, JReal(x), version).value.1, "telemetryInterval").value.ac == 200
  {
    PositiveValueStored(JReal(x));
  }

  /** A positive number too large for `int` throws in all three, with nothing stored or acknowledged. */
  lemma OversizedValueThrows(interval: Int32, desired: Json, version: int)
    requires IsComparable(desired) && IsPositive(desired) && ToInt32(desired).None?
    ensures Thermostat.IntervalUpdate(interval, desired, version).None?
    ensures DndPnPDevice.IntervalUpdate(interval, desired, version).None?
    ensures DndThermostat.IntervalUpdate(interval, desired, version).None?
  {
  }

  /**
   * Null compares below 0 and takes the rejection branch in all three, and so
   * does `false`; `true` compares above 0 and is stored as 1 with a 200 ack.
   */
  lemma NullAndBooleanDesired(interval: Int32, version: int)
    ensures Thermostat.IntervalUpdate(interval, JNull, version).value.0 == interval
    ensures PnPConvention.ReadRootAck(Thermostat.IntervalUpdate(interval, JNull, version).value.1, "telemetryInterval").value.ac == 500
    ensures DndPnPDevice.IntervalUpdate(interval, JNull, version).value.0 == interval
    ensures DndPnPDevice.IntervalUpdate(interval, JNull, version).value.1.ac == 500
    ensures DndThermostat.IntervalUpdate(interval, JNull, version).value.0 == interval
    ensures PnPConvention.ReadRootAck(DndThermostat.IntervalUpdate(interval, JNull, version).value.1, "telemetryInterval").value.ac == 500
    ensures Thermostat.IntervalUpdate(interval, JBool(false), version).value.0 == interval
    ensures DndPnPDevice.IntervalUpdate(interval, JBool(false), version).value.0 == interval
    ensures DndThermostat.IntervalUpdate(interval, JBool(false), version).value.0 == interval
    ensures Thermostat.IntervalUpdate(interval, JBool(true), version).value.0 == 1
    ensures PnPConvention.ReadRootAck(Thermostat.IntervalUpdate(interval, JBool(true), version).value.1, "telemetryInterval").value.ac == 200
    ensures DndPnPDevice.IntervalUpdate(interval, JBool(true), version).value.0 == 1
    ensures DndPnPDevice.IntervalUpdate(interval, JBool(true), version).value.1.ac == 200
    ensures DndThermostat.IntervalUpdate(interval, JBool(true), version).value.0 == 1
    ensures PnPConvention.ReadRootAck(DndThermostat.IntervalUpdate(interval, JBool(true), version).value.1, "telemetryInterval").value.ac == 200
  {
    RejectedValueAcks(interval, JNull, version);
    RejectedValueAcks(interval, JBool(false), version);
    AcceptedValuesAgree(interval, JBool(true), version);
  }

  /**
   * A positive double within the library's tolerance of 0 compares equal to
   * 0, so it fails the guard: all three keep the interval and answer 500.
   */
  lemma TinyFractionRejected(interval: Int32, x: real, version: int)
    requires 0.0 < x && ApproxZero(x)
    ensures Thermostat.IntervalUpdate(interval, JReal(x), version).value.0 == interval
    ensures PnPConvention.ReadRootAck(Thermostat.IntervalUpdate(interval, JReal(x), version).value.1, "telemetryInterval").value.ac == 500
    ensures DndPnPDevice.IntervalUpdate(interval, JReal(x), version).value.0 == interval
    ensures DndPnPDevice.IntervalUpdate(interval, JReal(x), version).value.1.ac == 500
    ensures DndThermostat.IntervalUpdate(interval, JReal(x), version).value.0 == interval
    ensures PnPConvention.ReadRootAck(DndThermostat.IntervalUpdate(interval, JReal(x), version).value.1, "telemetryInterval").value.ac == 500
  {
    RejectedValueAcks(interval, JReal(x), version);
  }

  /** The tolerance band is real but narrow: 1e-16 lies inside it, 1e-14 outside. */
  lemma ToleranceBand()
    ensures ApproxZero(0.0000000000000001)
    ensures !ApproxZero(0.00000000000001)
  {
  }
}
