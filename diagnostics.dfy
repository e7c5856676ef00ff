/** The parts of the diagnostics component the device loops use. */
module Diagnostics {
  import opened Common
  import PnPConvention

  const Name: string := "diag"
  const RebootName: string := "diag*reboot"

  /** `GetWorkingSet`: the `workingSet` telemetry of the `diag` component. */
  function GetWorkingSet(workingSet: int): (m: PnPConvention.Message)
    ensures PnPConvention.CreateTelemetryMessage(Some("workingSet"), JInt(workingSet), Some(Name), None) == Ok(m)
    ensures m.body == JObject(map["workingSet" := JInt(workingSet)])
    ensures m.componentName == Some("diag")
    ensures m.contentType == "application/json" && m.contentEncoding == "utf-8"
  {
    assert !PnPConvention.IsWhiteSpace("workingSet"[0]);
    assert !PnPConvention.IsWhiteSpace(Name[0]);
    PnPConvention.CreateTelemetryMessage(Some("workingSet"), JInt(workingSet), Some(Name), None).value
  }
}
