/**
 * What a sample hands to the device client, and the one logger line that is
 * part of a device's observable behaviour. Each `UpdateReportedPropertiesAsync`,
 * `SendEventAsync` and `Task.Delay` becomes one entry of a device's output
 * log, so the order of reports, messages and waits can be stated.
 */
module Outputs {
  import opened Common
  import PnPConvention

  /**
   * A reported-properties patch. `Collection` is a collection the sample
   * builds itself (or with this sample's `PnPConvention` helpers); `PropertyPatch`
   * and `WritableResponse` are the results of the separate `PnpHelpers`
   * convention class, kept as records of their arguments.
   */
  datatype Patch =
    | Collection(twin: TwinCollection)
    | PropertyPatch(component: Option<string>, properties: map<string, Json>)
    | WritableResponse(component: Option<string>, property: string, value: Json, ac: int, av: int, ad: Option<string>)

  /**
   * A telemetry event: a message built by the sample or its `PnPConvention` helpers,
   * or the result of `PnpHelpers.PnpConvention.CreateMessage`, kept as a
   * record of its arguments.
   */
  datatype Event =
    | Msg(message: PnPConvention.Message)
    | HelperMessage(component: Option<string>, pairs: map<string, Json>)

  datatype Output =
    | Report(patch: Patch)
    | Send(event: Event)
    | Wait(ms: int)
    /** The debug line written when no registered component takes a desired-property update. */
    | LogUnhandled

  /** The one-property collection `{ "serialNumber": "S/N-123" }` reported at start-up by the pnp-dnd samples. */
  const SerialNumberReport: Output := Report(Collection(map["serialNumber" := JString("S/N-123")]))
}
