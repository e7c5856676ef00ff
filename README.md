# IoT plug-and-play device samples, modelled in Dafny

This project models the device-side logic of the C# Azure IoT plug-and-play samples.

- **TemperatureController2 `Device`**. Two thermostat components, each with:
  - a current temperature;
  - a maximum since the last reboot;
  - a log of readings keyed by timestamp.

  It handles:
  - the `reboot` and `getMaxMinReport` direct methods;
  - dispatch of desired-property patches to per-component `targetTemperature` callbacks;
  - the telemetry loop with its temperature-reset flag.
- **`PnPConvention` helpers of the pnp-dnd-device sample**. These cover:
  - the status codes;
  - the three telemetry-message builders, with their argument checks and message metadata;
  - the component and root forms of the writable-property acknowledgement: `value`/`ac`/`av`/`ad`, plus the `"__t": "c"` component marker.
- **The three `telemetryInterval` devices**. These are `Thermostat.cs`, `DndPnPDevice.cs` and the second `Thermostat` in `dnd-pnp-device.cs`. Each has:
  - a start-up sequence;
  - the accept/reject rule for a desired interval;
  - a reboot reset, where the variant has one;
  - a send-then-wait loop iteration.

How the model is built:
- Every observable step is an entry appended to a ghost output log, `sent`. The steps are:
  - a device-client call, `UpdateReportedPropertiesAsync` or `SendEventAsync`;
  - a `Task.Delay` wait;
  - the logger line written when a desired patch names no component.

  Because the entries are kept in order, ordering claims can be written as equalities on that log.
- Twin collections are `map<string, Json>`.
- A desired-property patch is its ordered top-level entries plus its `$version`.
- Temperatures are `real`. Timestamps and the working set are `int`, passed in by the caller.
- C# `int` arithmetic in `Task.Delay(seconds * 1000)` wraps around explicitly. A wrapped count that is negative makes `Task.Delay` throw, which ends the loop or faults the handler.

Files:

- `common.dfy`: the shared pieces:
  - `Option`, `Result` and the JSON value type;
  - desired patches and lookup;
  - 32-bit wrap-around and the delay count;
  - the desired-interval read.
- `pnp_convention.dfy`: `PnPConvention.cs`.
- `outputs.dfy`: the entries of the output log. What the `PnpHelpers` library builds is kept as abstract records; that library is not part of this model.
- `diagnostics.dfy`: the `diag` component's working-set telemetry.
- `thermostat.dfy`, `dnd_pnp_device.dfy`, `dnd_thermostat.dfy`: the three interval devices.
- `interval_variants.dfy`: the three interval rules compared.
- `temperature_controller.dfy`: `Device.cs`.

## Model

| member | source | states |
|---|---|---|
| Common.Lookup | iot-hub/Samples/device/CentralSamples/pnp-dnd-device/Thermostat.cs:59 | The value of a top-level desired property: absent exactly when no entry has the key, otherwise the first entry with that key |
| Common.Wrap32 | iot-hub/Samples/device/CentralSamples/pnp-dnd-device/Thermostat.cs:51 | Unchecked `int` arithmetic: the result is in `int` range, congruent to the exact value modulo 2^32, and equal to it when it fits |
| Common.DelayMs | iot-hub/Samples/device/CentralSamples/pnp-dnd-device/Thermostat.cs:51 | `seconds * 1000` as a C# `int`: exact for 0..2147483 seconds |
| Common.DelayExactIff | iot-hub/Samples/device/CentralSamples/pnp-dnd-device/DndPnPDevice.cs:45 | For every `int` interval, the delay count is exact if and only if the interval is between -2147483 and 2147483 seconds |
| Common.DelayNegativeBand | iot-hub/Samples/device/CentralSamples/pnp-dnd-device/DndPnPDevice.cs:45 | Every interval from 2147484 to 4294967 seconds wraps to a negative count, so the wait throws |
| Common.DelayIsNeverInfinite | iot-hub/Samples/device/CentralSamples/TemperatureController2/Device.cs:93 | The wrapped count is never -1 (`Task.Delay`'s infinite wait), so every negative count throws |
| Common.DesiredInterval | iot-hub/Samples/device/CentralSamples/pnp-dnd-device/DndPnPDevice.cs:66 | The desired `telemetryInterval` when it is present and a number, a boolean or null; absent when it is missing or of a kind the model treats as throwing |
| Common.IsPositive | iot-hub/Samples/device/CentralSamples/pnp-dnd-device/Thermostat.cs:60 | The `> 0` guard on the JSON value. An integer is compared exactly. A double passes exactly when it is positive and not within the JSON library's tolerance of 0. Null never passes; a boolean passes exactly when it is `true`. A value the guard rejects never converts to a positive `int` |
| Common.RoundHalfEven | iot-hub/Samples/device/CentralSamples/pnp-dnd-device/DndPnPDevice.cs:69 | The nearest integer, at most one half away, ties going to the even integer; integers are kept |
| Common.ToInt32 | iot-hub/Samples/device/CentralSamples/pnp-dnd-device/DndPnPDevice.cs:69 | The value stored in the `int` field: integers kept, fractions rounded half to even, booleans as 1 or 0, and a throw for null or a result outside `int` |
| Common.PositiveValueStored | iot-hub/Samples/device/CentralSamples/pnp-dnd-device/DndPnPDevice.cs:67-69 | A value that passes the guard and converts is stored as a non-negative interval. It is stored as 0 exactly when it is a fraction of at most one half |
| PnPConvention.StatusCodeOf | iot-hub/Samples/device/CentralSamples/pnp-dnd-device/PnPConvention.cs:13-19 | Exactly 200, 202, 404 and 400 are status codes, each decoding to the member of that value |
| PnPConvention.StatusCodeRoundTrip | iot-hub/Samples/device/CentralSamples/pnp-dnd-device/PnPConvention.cs:13-19 | Decoding a status code's value gives back that code |
| PnPConvention.CreateMessageFromObject | iot-hub/Samples/device/CentralSamples/pnp-dnd-device/PnPConvention.cs:21-30 | The body is the object; content type JSON, encoding `utf-8`, no component |
| PnPConvention.CreateMessage | iot-hub/Samples/device/CentralSamples/pnp-dnd-device/PnPConvention.cs:54-75 | Fails with `ArgumentNullException("telemetryPairs")` exactly when the pairs are null. Otherwise: the body is the pairs; content type JSON; the encoding's web name, `utf-8` by default; a component is set exactly when its name is not null or whitespace, and then it is that name |
| PnPConvention.CreateTelemetryMessage | iot-hub/Samples/device/CentralSamples/pnp-dnd-device/PnPConvention.cs:32-44 | Fails exactly when the name is null or whitespace (`telemetryName`, checked first) or the value is null (`telemetryValue`). Otherwise the body is the single pair name ↦ value |
| PnPConvention.TelemetryMessageIsPairsMessage | iot-hub/Samples/device/CentralSamples/pnp-dnd-device/PnPConvention.cs:43 | With valid arguments, the single-pair builder equals the pairs builder on `{name: value}` |
| PnPConvention.ObjectMessageIsDefaultPairsMessage | iot-hub/Samples/device/CentralSamples/pnp-dnd-device/PnPConvention.cs:21-30 | The object builder equals the pairs builder with no component and the default encoding |
| PnPConvention.BlankComponentIsNoComponent | iot-hub/Samples/device/CentralSamples/pnp-dnd-device/PnPConvention.cs:69-72 | A whitespace-only component name builds the same message as no component name |
| PnPConvention.CreateComponentAck | iot-hub/Samples/device/CentralSamples/pnp-dnd-device/PnPConvention.cs:77-90 | The only key is the component. Its object has exactly `__t` and the property, and is marked as a component. The property reads back as `{value, ac, av}`, with `ad` present exactly when the description is not null or empty |
| PnPConvention.CreateAck | iot-hub/Samples/device/CentralSamples/pnp-dnd-device/PnPConvention.cs:93-104 | The only key is the property, whose fields are exactly `value`, `ac`, `av` and `ad`. It reads back as the given value, code, version and description |
| PnPConvention.MarkerPropertyOverwritesMarker | iot-hub/Samples/device/CentralSamples/pnp-dnd-device/PnPConvention.cs:86-87 | A component ack for a property named `__t` loses the component marker |
| PnPConvention.EmptyDescriptionForms | iot-hub/Samples/device/CentralSamples/pnp-dnd-device/PnPConvention.cs:84 | With the default empty description, the component ack has no `ad` but the root ack has one |
| Diagnostics.GetWorkingSet | iot-hub/Samples/device/CentralSamples/pnp-dnd-device/Diagnostics.cs:36-39 | The `workingSet` telemetry on the `diag` component: the helper always succeeds and builds a JSON, `utf-8` message with that component |
| Thermostat.CreateAck | iot-hub/Samples/device/CentralSamples/pnp-dnd-device/Thermostat.cs:77-88 | A single-key collection whose fields are exactly `value`/`ac`/`av`/`ad` and read back as the arguments |
| Thermostat.CreateAckIsRootConventionAck | iot-hub/Samples/device/CentralSamples/pnp-dnd-device/Thermostat.cs:77-88 | The private builder equals the root form of the convention helper |
| Thermostat.IntervalUpdate | iot-hub/Samples/device/CentralSamples/pnp-dnd-device/Thermostat.cs:56-69 | The guard is applied to the JSON value: a number, a boolean or null. A positive value is converted: it throws with no effect when out of `int` range, and otherwise becomes the interval with a 200 "property synced" ack of the JSON value as sent. Any other value, null included, keeps the interval, with a 500 ack carrying the rejected value. Both acks carry the patch version |
| Thermostat.TemperatureMessage | iot-hub/Samples/device/CentralSamples/pnp-dnd-device/Thermostat.cs:42-47 | The inline telemetry message equals the convention object message |
| Thermostat.Thermostat.constructor | iot-hub/Samples/device/CentralSamples/pnp-dnd-device/Thermostat.cs:21 | The interval starts at 5 |
| Thermostat.Thermostat.Start | iot-hub/Samples/device/CentralSamples/pnp-dnd-device/Thermostat.cs:35-38 | The serial number first, then the 201 version-0 "Using Default Value" ack of the interval |
| Thermostat.Thermostat.AckDesiredPropertyRead | iot-hub/Samples/device/CentralSamples/pnp-dnd-device/Thermostat.cs:71-75 | Reports exactly one ack built by the private builder |
| Thermostat.Thermostat.DesiredPropertyUpdateCallback | iot-hub/Samples/device/CentralSamples/pnp-dnd-device/Thermostat.cs:56-69 | Applies the interval rule to the desired value and reports its ack. A missing property, or a string, date or object value, changes nothing. The interval never goes negative |
| Thermostat.Thermostat.Tick | iot-hub/Samples/device/CentralSamples/pnp-dnd-device/Thermostat.cs:40-51 | One temperature in [0, 100), then the wait of the interval, or the loop's end when the count wraps negative. The loop always goes on for any valid interval up to 2147483 s |
| DndPnPDevice.IntervalUpdate | iot-hub/Samples/device/CentralSamples/pnp-dnd-device/DndPnPDevice.cs:63-79 | The guard is applied to the JSON value: a number, a boolean or null. A positive value is converted: it throws with no effect when out of `int` range, and otherwise becomes the interval with a 200 "Property synced" response. Any other value, null included, gets the 500 response. Every response carries the `int` interval held, never the rejected value |
| DndPnPDevice.IntervalResponse | iot-hub/Samples/device/CentralSamples/pnp-dnd-device/DndPnPDevice.cs:72 | The helper's root-level writable response for `telemetryInterval`, carrying the `int` interval, never the raw desired value |
| DndPnPDevice.RebootReport | iot-hub/Samples/device/CentralSamples/pnp-dnd-device/DndPnPDevice.cs:54-59 | A patch of the `diag` component alone. It carries the component marker, and its only other field is `lastReboot`, set to the given time |
| DndPnPDevice.DndPnPDevice.constructor | iot-hub/Samples/device/CentralSamples/pnp-dnd-device/DndPnPDevice.cs:17 | The interval starts at 5 |
| DndPnPDevice.DndPnPDevice.Start | iot-hub/Samples/device/CentralSamples/pnp-dnd-device/DndPnPDevice.cs:34-37 | The serial number, then the 201 version-0 "Using default value" response |
| DndPnPDevice.DndPnPDevice.OnReboot | iot-hub/Samples/device/CentralSamples/pnp-dnd-device/DndPnPDevice.cs:50-61 | The interval is back to 5 and the reboot patch is reported |
| DndPnPDevice.DndPnPDevice.DesiredPropertyUpdateCallback | iot-hub/Samples/device/CentralSamples/pnp-dnd-device/DndPnPDevice.cs:63-79 | Applies the interval rule to the desired value and reports its response. A missing property, or a string, date or object value, changes nothing. The interval never goes negative |
| DndPnPDevice.DndPnPDevice.Tick | iot-hub/Samples/device/CentralSamples/pnp-dnd-device/DndPnPDevice.cs:39-46 | A temperature, then the working set, then the wait, or the loop's end. The loop always goes on for any valid interval up to 2147483 s |
| DndThermostat.DefaultIntervalAck | iot-hub/Samples/device/CentralSamples/pnp-dnd-device/dnd-pnp-device.cs:43 | The root ack of the interval with 201, version 0 and "Using Default Value" |
| DndThermostat.IntervalUpdate | iot-hub/Samples/device/CentralSamples/pnp-dnd-device/dnd-pnp-device.cs:61-78 | The guard is applied to the JSON value, and a positive value converts or throws as in the other variants. The root-form acks always hold `ad`: 200 "Property synced" with the `int` stored, or 500 with the interval kept |
| DndThermostat.TemperatureMessage | iot-hub/Samples/device/CentralSamples/pnp-dnd-device/dnd-pnp-device.cs:47 | A JSON, `utf-8` object message with no component |
| DndThermostat.Thermostat.constructor | iot-hub/Samples/device/CentralSamples/pnp-dnd-device/dnd-pnp-device.cs:23 | The interval starts at 5 |
| DndThermostat.Thermostat.Start | iot-hub/Samples/device/CentralSamples/pnp-dnd-device/dnd-pnp-device.cs:40-43 | The serial number, then the root 201 version-0 ack of the interval |
| DndThermostat.Thermostat.OnRebootCommand | iot-hub/Samples/device/CentralSamples/pnp-dnd-device/dnd-pnp-device.cs:55-59 | The interval is back to 5 and the start-up ack is reported again |
| DndThermostat.Thermostat.DesiredPropertyUpdateCallback | iot-hub/Samples/device/CentralSamples/pnp-dnd-device/dnd-pnp-device.cs:61-78 | Applies the interval rule to the desired value and reports its ack. A missing property, or a string, date or object value, changes nothing. The interval never goes negative |
| DndThermostat.Thermostat.Tick | iot-hub/Samples/device/CentralSamples/pnp-dnd-device/dnd-pnp-device.cs:45-51 | A temperature, then the working set, then the wait, or the loop's end. The loop always goes on for any valid interval up to 2147483 s |
| IntervalVariants.AcceptedValuesAgree | iot-hub/Samples/device/CentralSamples/pnp-dnd-device/Thermostat.cs:60-64 | All three variants store a positive value that converts, and acknowledge it with 200. `Thermostat.cs` echoes the JSON value; the other two report the `int` stored |
| IntervalVariants.RejectedValueAcks | iot-hub/Samples/device/CentralSamples/pnp-dnd-device/DndPnPDevice.cs:74-78 | All three keep the interval for a value that is not positive, null included. `Thermostat.cs` echoes the rejected value; the other two report the interval kept |
| IntervalVariants.SmallFractionStoresZero | iot-hub/Samples/device/CentralSamples/pnp-dnd-device/DndPnPDevice.cs:67-72 | In all three variants, a desired fraction in (0, 0.5] outside the tolerance of 0 passes the guard, is acknowledged with 200, and sets the interval to 0 |
| IntervalVariants.OversizedValueThrows | iot-hub/Samples/device/CentralSamples/pnp-dnd-device/Thermostat.cs:60-62 | In all three variants, a positive number outside `int` throws at the assignment, with nothing stored or acknowledged |
| IntervalVariants.NullAndBooleanDesired | iot-hub/Samples/device/CentralSamples/pnp-dnd-device/DndPnPDevice.cs:67-77 | In all three variants, null and `false` are rejected with 500 and the interval kept, and `true` is stored as 1 with 200 |
| IntervalVariants.TinyFractionRejected | iot-hub/Samples/device/CentralSamples/pnp-dnd-device/DndPnPDevice.cs:74-77 | In all three variants, a positive double within the tolerance of 0 fails the guard, keeps the interval and is answered with 500 |
| IntervalVariants.ToleranceBand | iot-hub/Samples/device/CentralSamples/pnp-dnd-device/Thermostat.cs:60 | The tolerance band holds 1e-16 and not 1e-14 |
| TemperatureController.SummaryIsOrdered | iot-hub/Samples/device/CentralSamples/TemperatureController2/Device.cs:129-136 | A report has `minTemp <= maxTemp` and `startTime <= endTime` |
| TemperatureController.SummaryIsUnique | iot-hub/Samples/device/CentralSamples/TemperatureController2/Device.cs:129-136 | A set of readings has exactly one max/min/start/end summary |
| TemperatureController.Summarize | iot-hub/Samples/device/CentralSamples/TemperatureController2/Device.cs:131-135 | No report for an empty log; otherwise the largest and smallest reading and the first and last timestamp |
| TemperatureController.ReadingsAfter | iot-hub/Samples/device/CentralSamples/TemperatureController2/Device.cs:124-125 | Exactly the readings strictly after `since`, with their values |
| TemperatureController.Recorded | iot-hub/Samples/device/CentralSamples/TemperatureController2/Device.cs:284-296 | Adds the timestamp to the component's log, creating the log if absent. Every old reading is kept, including one already at that timestamp. Other components are untouched |
| TemperatureController.RecordedKeepsReadings | iot-hub/Samples/device/CentralSamples/TemperatureController2/Device.cs:284-296 | Recording a reading keeps every earlier reading with its value (`TryAdd` never overwrites) |
| TemperatureController.TargetOf | iot-hub/Samples/device/CentralSamples/TemperatureController2/Device.cs:188-192 | A target exactly when the component is an object of the patch whose `targetTemperature` is a number, read as a `double` |
| TemperatureController.MaxTracked | iot-hub/Samples/device/CentralSamples/TemperatureController2/Device.cs:267-272 | After tracking, the maximum bounds every logged reading, and it is either unchanged or one of them |
| TemperatureController.TemperatureOutputs | iot-hub/Samples/device/CentralSamples/TemperatureController2/Device.cs:265-305 | The telemetry message first, then the `maxTempSinceLastReboot` patch with the new maximum, exactly when the maximum changed |
| TemperatureController.Dispatched | iot-hub/Samples/device/CentralSamples/TemperatureController2/Device.cs:163-173 | The temperatures and outputs after the dispatch loop's callbacks run in property order. Its own contract only bounds the output length; what the dispatch promises is stated by the `Dispatched` lemmas below |
| TemperatureController.DeviceInformation | iot-hub/Samples/device/CentralSamples/TemperatureController2/Device.cs:235-247 | The eight device-information properties: strings and integers, with `osName` naming the platform |
| TemperatureController.MaxTrackedIsMonotone | iot-hub/Samples/device/CentralSamples/TemperatureController2/Device.cs:267-272 | The maximum never decreases, and it changes exactly when some logged reading exceeds it |
| TemperatureController.TargetUpdateTemps | iot-hub/Samples/device/CentralSamples/TemperatureController2/Device.cs:212-217 | Only the named component moves, and only to a desired target when it has a temperature |
| TemperatureController.TargetUpdateOutputs | iot-hub/Samples/device/CentralSamples/TemperatureController2/Device.cs:188-227 | Nothing without a target. Otherwise the 201 ack of the target comes first. With a temperature to step from, two 6-second waits follow, and the fourth and last entry is the 200 ack of the temperature reached. Both carry the patch version |
| TemperatureController.DispatchedTemperatures | iot-hub/Samples/device/CentralSamples/TemperatureController2/Device.cs:163-173 | After a dispatch, a component holds its target exactly when it is registered, named by the patch and has a target; other temperatures are unchanged |
| TemperatureController.DispatchedNothingRegistered | iot-hub/Samples/device/CentralSamples/TemperatureController2/Device.cs:163-178 | A patch naming no registered component changes nothing and reports nothing |
| TemperatureController.DispatchedAcksOnlyRegistered | iot-hub/Samples/device/CentralSamples/TemperatureController2/Device.cs:165-172 | Every ack a dispatch reports is a writable-property response for a registered component named by the patch, carrying the patch version |
| TemperatureController.DispatchedAcksEveryTarget | iot-hub/Samples/device/CentralSamples/TemperatureController2/Device.cs:165-172 | Conversely, every registered component that the patch names and that carries a target has its 201 ack, with the patch version, among the reports |
| TemperatureController.Device.constructor | iot-hub/Samples/device/CentralSamples/TemperatureController2/Device.cs:24-33 | Empty dictionaries and an interval of 5 |
| TemperatureController.Device.Start | iot-hub/Samples/device/CentralSamples/TemperatureController2/Device.cs:50-65 | Both thermostats registered and both maxima 0. Reported in order: device information, serial `SR-123456`, serial `S/N-123`, the 201 interval response |
| TemperatureController.Device.HandleRebootCommand | iot-hub/Samples/device/CentralSamples/TemperatureController2/Device.cs:86-108 | A payload the JSON reader rejects: 500 and nothing changes. A negative wrapped delay: the handler faults and nothing changes. Otherwise: the wait, both temperatures and maxima 0, every log cleared, 200 |
| TemperatureController.Device.HandleMaxMinReportCommand | iot-hub/Samples/device/CentralSamples/TemperatureController2/Device.cs:110-159 | 500 for a payload the JSON reader rejects. 404 without a log or without a reading after `since`. Otherwise 200 with the summary of exactly the readings after `since`. The state is only read |
| TemperatureController.Device.SetDesiredPropertyUpdateCallback | iot-hub/Samples/device/CentralSamples/TemperatureController2/Device.cs:161-181 | The callbacks of the registered components the patch names, in order, then the debug line exactly when none matched |
| TemperatureController.Device.TargetTemperatureUpdateCallback | iot-hub/Samples/device/CentralSamples/TemperatureController2/Device.cs:183-229 | The new temperatures and the reported acks are those of the target update, whose 201 ack precedes the waits and the 200 ack |
| TemperatureController.Device.SendTemperatureTelemetry | iot-hub/Samples/device/CentralSamples/TemperatureController2/Device.cs:275-297 | The telemetry message, then the reading recorded without overwriting |
| TemperatureController.Device.UpdateMaxTemperatureSinceLastReboot | iot-hub/Samples/device/CentralSamples/TemperatureController2/Device.cs:299-307 | Reports the component's current maximum |
| TemperatureController.Device.SendTemperature | iot-hub/Samples/device/CentralSamples/TemperatureController2/Device.cs:263-273 | Records the reading, tracks the maximum, and reports the maximum patch exactly when it changed |
| TemperatureController.Device.SendDeviceMemory | iot-hub/Samples/device/CentralSamples/TemperatureController2/Device.cs:309-324 | The root-level `workingSet` telemetry |
| TemperatureController.Device.LoopIteration | iot-hub/Samples/device/CentralSamples/TemperatureController2/Device.cs:67-83 | Fresh temperatures only when the flag is set; both sends, the memory send, the 5-second wait. The new flag holds exactly when both temperatures are 0, and is never set right after fresh values |
| TemperatureController.Device.RunLoop | iot-hub/Samples/device/CentralSamples/TemperatureController2/Device.cs:59-83 | Temperatures are generated on the first iteration only, and the flag is cleared. Both maxima never decrease. Every reading logged before the loop is still logged afterwards, with its value. The output log only grows |

## Left out

- Calls into the device client are only entries in the output log: connection, method and callback registration, transport, and the twin service. Registering the direct-method handlers appears only as the handler methods themselves.
- `PnpHelpers.PnpConvention` is not part of this model. `Device.cs` and `DndPnPDevice.cs` use its `CreateMessage`, `CreatePropertyPatch`, `CreateComponentPropertyPatch`, `CreateWritablePropertyResponse` and `CreateComponentWritablePropertyResponse`; these appear as the abstract `Patch` and `Event` records.
- `TemperatureController.TargetOf`: `TryGetPropertyFromTwin` is read as "the component's value is an object with a JSON number under `targetTemperature`". That helper's own rules for the `__t` marker and for type conversion are not modelled.
- JSON serialisation, byte encoding and the `TwinCollection` and `Message` internals are abstract values. An `Encoding` is only its web name.
- `Math.Round`, `Random` and the fresh temperature values are inputs constrained to their range. Without rounding, the two-step approach of the target temperature reaches the target exactly.
- `TemperatureController.Stats`: the `avgTemp` field is not modelled. It is a floating-point mean.
- Clocks are caller-supplied integers: `DateTimeOffset.UtcNow` for readings, `DateTime.Now` for `lastReboot`, and the `since` argument after its local-offset conversion. The process memory reading is also caller-supplied.
- `TemperatureController.Device.RunLoop` treats the loop's iterations as atomic and linear, with no direct-method or property callback running in between. Concurrency between SDK callbacks and the loop is not modelled, and neither are un-awaited callback tasks.
- `TemperatureController.Device.SetDesiredPropertyUpdateCallback` runs each callback to completion before the next one. In the source the tasks are started and not awaited.
- `Common.DesiredInterval`: numbers, booleans and null are modelled as the desired `telemetryInterval`; null and booleans follow the JSON library's comparison with 0 and its `int` conversion. A missing property is the indexer throwing, as in the source. For string and date values, the source's outcome depends on how the JSON library compares the text or date with 0 and converts it; an object value has no comparison and throws. The model treats all three kinds as the handler throwing with no effect. This applies to `Thermostat.Thermostat.DesiredPropertyUpdateCallback`, `DndPnPDevice.DndPnPDevice.DesiredPropertyUpdateCallback` and `DndThermostat.Thermostat.DesiredPropertyUpdateCallback`.
- `Common.ToInt32` follows the JSON library's `int` conversion: an integer is kept, a fraction is rounded half to even, a boolean becomes 1 or 0, and null or a result outside `int` throws. That library is not part of this model.
- `Thermostat.Thermostat.DesiredPropertyUpdateCallback` and the other two callbacks keep the interval non-negative, not positive. A desired fraction of at most one half that is not within the JSON library's tolerance of 0 passes the `> 0` guard and is stored as 0 (`IntervalVariants.SmallFractionStoresZero`). Positivity holds only for integer inputs and for fractions above one half.
- `Common.IsPositive` applies the JSON library's tolerance to exact reals. The rounding of the desired value to a `double` before the comparison is not modelled.
- `Common.Desired` allows a patch whose entries repeat a top-level key, which a twin collection cannot hold. For such inputs `TemperatureController.Dispatched` runs a callback once per repeated entry, and `Common.Lookup` reads the first of them. The model therefore admits more inputs than the source can receive.
- Null property and component names in the ack builders are not modelled. C# would throw on a null dictionary key.
- The direct-method payload decoding is only "parsed or rejected" (`Option`), and a `long` version is modelled as an unbounded `int`.
- The reboot and max/min handlers answer 500 only when the JSON reader itself rejects the payload. Other decode failures escape the `catch` and fault the handler: a `null` payload, which the serializer cannot convert, or a missing payload. These are not modelled separately from a rejected payload.
- What the SDK does with a handler that faults, such as a negative `Task.Delay` count or a missing temperature, is not modelled. The model stops at the fault.
- `DiagnosticsComponent.Reboot`'s garbage collection, clock and delay are not modelled. Only its effect through `OnReboot` is.
- The service sample and the three `Program.cs` files are not part of this model.
