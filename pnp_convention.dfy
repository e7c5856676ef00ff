/**
 * The plug-and-play convention helpers of the `pnp_dnd_device` sample:
 * status codes, telemetry messages with their metadata, and the
 * writable-property acknowledgements reported back to the twin.
 * Every helper builds a fresh value from its arguments.
 */
module PnPConvention {
  import opened Common

  /** `PnPConvention.StatusCode`. */
  datatype StatusCode = Completed | InProgress | NotFound | BadRequest {
    function Value(): int {
      match this
      case Completed => 200
      case InProgress => 202
      case NotFound => 404
      case BadRequest => 400
    }
  }

  /** The declared `StatusCode` member whose value is `code`, if any. */
  function StatusCodeOf(code: int): (r: Option<StatusCode>)
    ensures r.Some? ==> r.value.Value() == code
    ensures r.None? <==> code !in {200, 202, 404, 400}
  {
    if code == 200 then Some(Completed)
    else if code == 202 then Some(InProgress)
    else if code == 404 then Some(NotFound)
    else if code == 400 then Some(BadRequest)
    else None
  }

  lemma StatusCodeRoundTrip(s: StatusCode)
    ensures StatusCodeOf(s.Value()) == Some(s)
  {
  }

  /** A text encoding, known by its web name. */
  datatype Encoding = Encoding(webName: string)

  /** `Encoding.UTF8`. */
  const Utf8: Encoding := Encoding("utf-8")

  /**
   * A device-to-cloud message: the object serialised into its body, the
   * system properties the helpers set, and the component name
   * (`None` is the message's default, no component).
   */
  datatype Message = Message(
    body: Json,
    contentType: string,
    contentEncoding: string,
    componentName: Option<string>)

  const JsonContentType: string := "application/json"

  /** `char.IsWhiteSpace`: the Unicode separators and the control characters U+0009 to U+000D and U+0085. */
  predicate IsWhiteSpace(c: char) {
    || c == ' '
    || ('\t' <= c <= '\r')
    || c == '\U{0085}'
    || c == '\U{00A0}'
    || c == '\U{1680}'
    || ('\U{2000}' <= c <= '\U{200A}')
    || c == '\U{2028}'
    || c == '\U{2029}'
    || c == '\U{202F}'
    || c == '\U{205F}'
    || c == '\U{3000}'
  }

  /** `string.IsNullOrWhiteSpace`. */
  predicate IsNullOrWhiteSpace(s: Option<string>) {
    s.None? || forall i :: 0 <= i < |s.value| ==> IsWhiteSpace(s.value[i])
  }

  /** `string.IsNullOrEmpty`. */
  predicate IsNullOrEmpty(s: Option<string>) {
    s.None? || s.value == ""
  }

  /** `CreateMessage(object)`: always UTF-8 JSON, never a component. */
  function CreateMessageFromObject(objectToSerialize: Json): (m: Message)
    ensures m.body == objectToSerialize
    ensures m.contentType == "application/json" && m.contentEncoding == "utf-8"
    ensures m.componentName.None?
  {
    Message(objectToSerialize, JsonContentType, "utf-8", None)
  }

  /** `CreateMessage(IDictionary<string, object>, string, Encoding)`. */
  function CreateMessage(
    telemetryPairs: Option<map<string, Json>>,
    componentName: Option<string>,
    encoding: Option<Encoding>): (r: Result<Message>)
    ensures r.Err? <==> telemetryPairs.None?
    ensures r.Err? ==> r.error == ArgumentNull("telemetryPairs")
    ensures r.Ok? ==> r.value.body == JObject(telemetryPairs.value)
    ensures r.Ok? ==> r.value.contentType == "application/json"
    ensures r.Ok? ==> r.value.contentEncoding == (if encoding.None? then "utf-8" else encoding.value.webName)
    ensures r.Ok? ==> (r.value.componentName.Some? <==> !IsNullOrWhiteSpace(componentName))
    ensures r.Ok? && r.value.componentName.Some? ==> r.value.componentName == componentName
  {
    if telemetryPairs.None? then Err(ArgumentNull("telemetryPairs"))
    else
      var messageEncoding := if encoding.None? then Utf8 else encoding.value;
      var message := Message(JObject(telemetryPairs.value), JsonContentType, messageEncoding.webName, None);
      if !IsNullOrWhiteSpace(componentName) then Ok(message.(componentName := componentName))
      else Ok(message)
  }

  /** `CreateMessage(string, object, string, Encoding)`: one named telemetry value. */
  function CreateTelemetryMessage(
    telemetryName: Option<string>,
    telemetryValue: Json,
    componentName: Option<string>,
    encoding: Option<Encoding>): (r: Result<Message>)
    ensures r.Err? <==> IsNullOrWhiteSpace(telemetryName) || telemetryValue.JNull?
    ensures IsNullOrWhiteSpace(telemetryName) ==> r == Err(ArgumentNull("telemetryName"))
    ensures !IsNullOrWhiteSpace(telemetryName) && telemetryValue.JNull? ==> r == Err(ArgumentNull("telemetryValue"))
    ensures r.Ok? ==> r.value.body == JObject(map[telemetryName.value := telemetryValue])
  {
    if IsNullOrWhiteSpace(telemetryName) then Err(ArgumentNull("telemetryName"))
    else if telemetryValue.JNull? then Err(ArgumentNull("telemetryValue"))
    else CreateMessage(Some(map[telemetryName.value := telemetryValue]), componentName, encoding)
  }

  /** A valid single-value call is the dictionary overload with a one-entry dictionary. */
  lemma TelemetryMessageIsPairsMessage(
    telemetryName: string, telemetryValue: Json, componentName: Option<string>, encoding: Option<Encoding>)
    requires !IsNullOrWhiteSpace(Some(telemetryName)) && !telemetryValue.JNull?
    ensures CreateTelemetryMessage(Some(telemetryName), telemetryValue, componentName, encoding)
         == CreateMessage(Some(map[telemetryName := telemetryValue]), componentName, encoding)
  {
  }

  /** The object overload agrees with the dictionary overload left at its defaults. */
  lemma ObjectMessageIsDefaultPairsMessage(pairs: map<string, Json>)
    ensures CreateMessage(Some(pairs), None, None) == Ok(CreateMessageFromObject(JObject(pairs)))
  {
  }

  /** A blank component name leaves the message without a component, whatever the blanks are. */
  lemma BlankComponentIsNoComponent(pairs: map<string, Json>, blank: string, encoding: Option<Encoding>)
    requires forall i :: 0 <= i < |blank| ==> IsWhiteSpace(blank[i])
    ensures CreateMessage(Some(pairs), Some(blank), encoding) == CreateMessage(Some(pairs), None, encoding)
  {
  }

  /** The fields a reader recovers from a writable-property acknowledgement. */
  datatype AckInfo = AckInfo(value: Json, ac: int, av: int, ad: Option<string>)

  /** Reads `{value, ac, av[, ad]}`; a missing or null `ad` reads as no description. */
  function ReadAckProps(props: map<string, Json>): Option<AckInfo> {
    if "value" in props && "ac" in props && props["ac"].JInt? && "av" in props && props["av"].JInt? then
      var ad := if "ad" in props && props["ad"].JString? then Some(props["ad"].s) else None;
      Some(AckInfo(props["value"], props["ac"].i, props["av"].i, ad))
    else None
  }

  /** Reads the acknowledgement of a root-level property. */
  function ReadRootAck(ack: TwinCollection, propertyName: string): Option<AckInfo> {
    if propertyName in ack && ack[propertyName].JObject? then ReadAckProps(ack[propertyName].fields)
    else None
  }

  /** Reads the acknowledgement of a property inside a component. */
  function ReadComponentAck(ack: TwinCollection, componentName: string, propertyName: string): Option<AckInfo> {
    if componentName in ack && ack[componentName].JObject? then
      var children := ack[componentName].fields;
      if propertyName in children && children[propertyName].JObject? then ReadAckProps(children[propertyName].fields)
      else None
    else None
  }

  /** True when a component's value carries the `"__t": "c"` marker. */
  predicate IsMarkedComponent(value: Json) {
    value.JObject? && "__t" in value.fields && value.fields["__t"] == JString("c")
  }

  /** `CreateAck(componentName, propertyName, value, statusCode, statusVersion, statusDescription)`. */
  function CreateComponentAck(
    componentName: string,
    propertyName: string,
    value: Json,
    statusCode: int,
    statusVersion: int,
    statusDescription: Option<string>): (ack: TwinCollection)
    ensures ack.Keys == {componentName} && ack[componentName].JObject?
    ensures ack[componentName].fields.Keys == {"__t", propertyName}
    ensures propertyName != "__t" ==> IsMarkedComponent(ack[componentName])
    ensures ReadComponentAck(ack, componentName, propertyName)
         == Some(AckInfo(value, statusCode, statusVersion, if IsNullOrEmpty(statusDescription) then None else statusDescription))
    ensures ack[componentName].fields[propertyName].JObject?
    ensures "ad" in ack[componentName].fields[propertyName].fields <==> !IsNullOrEmpty(statusDescription)
    ensures ack[componentName].fields[propertyName].fields.Keys <= {"value", "ac", "av", "ad"}
  {
    var ackProps := map["value" := value, "ac" := JInt(statusCode), "av" := JInt(statusVersion)];
    var ackProps' := if !IsNullOrEmpty(statusDescription) then ackProps["ad" := JString(statusDescription.value)] else ackProps;
    var ackChildren := map["__t" := JString("c")][propertyName := JObject(ackProps')];
    map[componentName := JObject(ackChildren)]
  }

  /** `CreateAck(propertyName, value, statusCode, statusVersion, statusDescription)`: `ad` is always written. */
  function CreateAck(
    propertyName: string,
    value: Json,
    statusCode: int,
    statusVersion: int,
    statusDescription: Option<string>): (ack: TwinCollection)
    ensures ack.Keys == {propertyName} && ack[propertyName].JObject?
    ensures ack[propertyName].fields.Keys == {"value", "ac", "av", "ad"}
    ensures ReadRootAck(ack, propertyName) == Some(AckInfo(value, statusCode, statusVersion, statusDescription))
  {
    var ad := if statusDescription.None? then JNull else JString(statusDescription.value);
    map[propertyName := JObject(map["value" := value, "ac" := JInt(statusCode), "av" := JInt(statusVersion), "ad" := ad])]
  }

  /** A property named like the marker overwrites it: the component ack then has no `"__t": "c"`. */
  lemma MarkerPropertyOverwritesMarker(componentName: string, value: Json, statusCode: int, statusVersion: int, statusDescription: Option<string>)
    ensures !IsMarkedComponent(CreateComponentAck(componentName, "__t", value, statusCode, statusVersion, statusDescription)[componentName])
  {
  }

  /** An empty description is kept by the root form and dropped by the component form. */
  lemma EmptyDescriptionForms(componentName: string, propertyName: string, value: Json, statusCode: int, statusVersion: int)
    ensures ReadRootAck(CreateAck(propertyName, value, statusCode, statusVersion, Some("")), propertyName).value.ad == Some("")
    ensures ReadComponentAck(CreateComponentAck(componentName, propertyName, value, statusCode, statusVersion, Some("")), componentName, propertyName).value.ad.None?
  {
  }
}
