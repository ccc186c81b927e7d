/** Payload shaping between rsocket payloads and the untyped request and
    response (backend/src/serialize.rs). */
module Serialize {
  import opened Base
  import opened Json
  import Ext
  import Handler

  /** An rsocket payload, seen through `data_utf8` and `metadata_utf8`:
      each is `None` when the part is absent or is not valid UTF-8. */
  datatype Payload = Payload(dataUtf8: Option<string>, metadataUtf8: Option<string>)

  /** `RawRequest`: the untyped request data and its command name. */
  datatype RawRequest = RawRequest(data: Value, command: string)

  /** `value_to_payload`: the printed value as the data, no metadata. */
  function ValueToPayload(t: Text, v: Value): (p: Payload)
    ensures p.dataUtf8 == Some(t.render(v))
    ensures p.metadataUtf8 == None
  {
    Payload(Some(t.render(v)), None)
  }

  /** `payload_to_value`: fails with "None" without UTF-8 data, and with a
      parse error when the text is not JSON. */
  function PayloadToValue(t: Text, p: Payload): (r: Result<Value>)
    ensures p.dataUtf8.None? ==> r == Err(NoneValue)
    ensures p.dataUtf8.Some? ==> r == (match t.parse(p.dataUtf8.value) case None => Err(DecodeFailed) case Some(v) => Ok(v))
  {
    match Ext.IntoResult(p.dataUtf8)
    case Err(e) => Err(e)
    case Ok(s) =>
      match t.parse(s)
      case None => Err(DecodeFailed)
      case Some(v) => Ok(v)
  }

  /** `payload_to_raw_request`: the command must be a JSON string (else
      "None"); the data is the `data` field, `null` when absent. */
  function PayloadToRawRequest(t: Text, p: Payload): (r: Result<RawRequest>)
    ensures PayloadToValue(t, p).Err? ==> r == Err(PayloadToValue(t, p).error)
    ensures PayloadToValue(t, p).Ok? ==>
      var v := PayloadToValue(t, p).value;
      && (r.Ok? <==> Index(v, "command").String?)
      && (r.Err? ==> r.error == NoneValue)
      && (r.Ok? ==> r.value.command == Index(v, "command").str && r.value.data == Index(v, "data"))
  {
    match PayloadToValue(t, p)
    case Err(e) => Err(e)
    case Ok(v) =>
      match Ext.IntoResult(AsStr(Index(v, "command")))
      case Err(e) => Err(e)
      case Ok(command) => Ok(RawRequest(Index(v, "data"), command))
  }

  /** The JSON object `raw_response_to_payload` builds: `success` always,
      `data` and `error` only when present, `error` as a string. */
  function RawResponseToValue(r: Handler.RawResponse): (v: Value)
    ensures v.Object?
    ensures v.fields.Keys <= {"success", "data", "error"}
    ensures "success" in v.fields && v.fields["success"] == Bool(r.success)
    ensures "data" in v.fields <==> r.data.Some?
    ensures r.data.Some? ==> v.fields["data"] == r.data.value
    ensures "error" in v.fields <==> r.error.Some?
    ensures r.error.Some? ==> v.fields["error"] == String(r.error.value)
  {
    var base := map["success" := Bool(r.success)];
    var withData := if r.data.Some? then base["data" := r.data.value] else base;
    var withError := if r.error.Some? then withData["error" := String(r.error.value)] else withData;
    Object(withError)
  }

  /** `raw_response_to_payload`: printing a `Value` cannot fail, so neither does this. */
  function RawResponseToPayload(t: Text, r: Handler.RawResponse): (p: Result<Payload>)
    ensures p.Ok?
    ensures p.value.dataUtf8 == Some(t.render(RawResponseToValue(r)))
  {
    Ok(ValueToPayload(t, RawResponseToValue(r)))
  }

  /** How a client reads the response object back. */
  function ValueToRawResponse(v: Value): Option<Handler.RawResponse> {
    if !v.Object? || "success" !in v.fields || !v.fields["success"].Bool? then None
    else
      var data := if "data" in v.fields then Some(v.fields["data"]) else None;
      if "error" !in v.fields then Some(Handler.RawResponse(data, v.fields["success"].b, None))
      else if v.fields["error"].String? then Some(Handler.RawResponse(data, v.fields["success"].b, Some(v.fields["error"].str)))
      else None
  }

  /** A client that parses the payload recovers the raw response exactly. */
  lemma RawResponseRoundTrip(t: Text, r: Handler.RawResponse)
    requires Faithful(t)
    ensures PayloadToValue(t, RawResponseToPayload(t, r).value) == Ok(RawResponseToValue(r))
    ensures ValueToRawResponse(RawResponseToValue(r)) == Some(r)
  {
    var v := RawResponseToValue(r);
    assert t.parse(t.render(v)) == Some(v);
  }

  /** A request object with a string command round-trips through a
      payload; a missing `data` field reads as `null`. */
  lemma RawRequestRoundTrip(t: Text, command: string, data: Value)
    requires Faithful(t)
    ensures PayloadToRawRequest(t, ValueToPayload(t, Object(map["command" := String(command), "data" := data])))
         == Ok(RawRequest(data, command))
    ensures PayloadToRawRequest(t, ValueToPayload(t, Object(map["command" := String(command)])))
         == Ok(RawRequest(Null, command))
  {
    var v1 := Object(map["command" := String(command), "data" := data]);
    var v2 := Object(map["command" := String(command)]);
    assert t.parse(t.render(v1)) == Some(v1);
    assert t.parse(t.render(v2)) == Some(v2);
  }

  /** A request whose command is not a string is refused with "None". */
  lemma NonStringCommandRefused(t: Text, command: Value, data: Value)
    requires Faithful(t)
    requires !command.String?
    ensures PayloadToRawRequest(t, ValueToPayload(t, Object(map["command" := command, "data" := data]))) == Err(NoneValue)
  {
    var v := Object(map["command" := command, "data" := data]);
    assert t.parse(t.render(v)) == Some(v);
  }
}
