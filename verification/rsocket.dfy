/** The per-connection rsocket responder (backend/src/rsocket.rs).

    Raw request handlers are functions from the request value to a result
    value, looked up in a `RequestHandlerManager`; raw stream handlers map
    the request value to the values their receiver gets (see
    `StreamTransport.Handle`), looked up in an `RSocketManager`. Both
    lookups unwrap, so a named command must be registered. */
module ServerRSocket {
  import opened Base
  import opened Json
  import opened Serialize
  import Ext
  import RequestHandlerManager
  import RSocketManager
  import StreamTransport
  import RoomManager
  import RoomHandlers
  import opened RoomModel

  /** The request value handed to a handler: absent data is `null`, and
      present data is wrapped as a JSON string, not parsed. Wrapping a
      `&str` with `to_value` cannot fail. */
  function RequestValue(p: Payload): (v: Value)
    ensures p.dataUtf8.None? ==> v == Null
    ensures p.dataUtf8.Some? ==> v == String(p.dataUtf8.value)
  {
    match p.dataUtf8
    case None => Null
    case Some(s) => String(s)
  }

  /** `metadata_push`: accepted and ignored. */
  function MetadataPush(p: Payload): (r: Result<Unit>)
    ensures r == Ok(Unit)
  {
    Ok(Unit)
  }

  /** `fire_and_forget`: accepted and ignored. */
  function FireAndForget(p: Payload): (r: Result<Unit>)
    ensures r == Ok(Unit)
  {
    Ok(Unit)
  }

  /** `request_response`: the metadata names the command (absent: "None");
      the handler's error is passed on; its value is printed into the data
      of the one response payload. */
  function RequestResponse(t: Text, handlers: RequestHandlerManager.Manager<Value -> Result<Value>>, p: Payload): (r: Result<Option<Payload>>)
    requires p.metadataUtf8.Some? ==> p.metadataUtf8.value in handlers.rawMap
    ensures p.metadataUtf8.None? ==> r == Err(NoneValue)
    ensures r.Ok? ==> r.value.Some? && r.value.value.metadataUtf8 == None
    ensures p.metadataUtf8.Some? ==>
      var res := handlers.rawMap[p.metadataUtf8.value](RequestValue(p));
      && (res.Err? ==> r == Err(res.error))
      && (res.Ok? ==> r.Ok? && r.value.value.dataUtf8 == Some(t.render(res.value)))
  {
    match Ext.IntoResult(p.metadataUtf8)
    case Err(e) => Err(e)
    case Ok(command) =>
      var handler := RequestHandlerManager.RawHandler(handlers, command);
      match handler(RequestValue(p))
      case Err(e) => Err(e)
      case Ok(v) => Ok(Some(Payload(Some(t.render(v)), None)))
  }

  /** `request_stream`: every failure becomes a stream of exactly one error
      item; otherwise each value the receiver gets becomes one payload, in
      order. */
  function RequestStream<Q>(t: Text, m: RSocketManager.Manager<Q, Value -> Result<seq<Value>>>, p: Payload): (out: seq<Result<Payload>>)
    requires p.metadataUtf8.Some? ==> p.metadataUtf8.value in m.streamHandlers
    ensures p.metadataUtf8.None? ==> out == [Err(NoneValue)]
    ensures p.metadataUtf8.Some? ==>
      var res := m.streamHandlers[p.metadataUtf8.value](RequestValue(p));
      && (res.Err? ==> out == [Err(res.error)])
      && (res.Ok? ==> |out| == |res.value| && forall i :: 0 <= i < |out| ==> out[i] == Ok(ValueToPayload(t, res.value[i])))
  {
    match Ext.IntoResult(p.metadataUtf8)
    case Err(e) => [Err(e)]
    case Ok(command) =>
      var handler := RSocketManager.RawStreamHandler(m, command);
      match handler(RequestValue(p))
      case Err(e) => [Err(e)]
      case Ok(values) => seq(|values|, i requires 0 <= i < |values| => Ok(ValueToPayload(t, values[i])))
  }

  /** Every failing stream request yields a single error item. */
  lemma StreamFailureIsOneError<Q>(t: Text, m: RSocketManager.Manager<Q, Value -> Result<seq<Value>>>, p: Payload)
    requires p.metadataUtf8.Some? ==> p.metadataUtf8.value in m.streamHandlers
    requires p.metadataUtf8.None? || m.streamHandlers[p.metadataUtf8.value](RequestValue(p)).Err?
    ensures |RequestStream(t, m, p)| == 1 && RequestStream(t, m, p)[0].Err?
  {
  }

  /** A client parsing the stream's payloads gets the handler's values
      back, in order. */
  lemma StreamValuesRoundTrip<Q>(t: Text, m: RSocketManager.Manager<Q, Value -> Result<seq<Value>>>, p: Payload)
    requires Faithful(t)
    requires p.metadataUtf8.Some? && p.metadataUtf8.value in m.streamHandlers
    requires m.streamHandlers[p.metadataUtf8.value](RequestValue(p)).Ok?
    ensures var values := m.streamHandlers[p.metadataUtf8.value](RequestValue(p)).value;
      var out := RequestStream(t, m, p);
      && |out| == |values|
      && forall i :: 0 <= i < |out| ==> out[i].Ok? && PayloadToValue(t, out[i].value) == Ok(values[i])
  {
    var values := m.streamHandlers[p.metadataUtf8.value](RequestValue(p)).value;
    var out := RequestStream(t, m, p);
    forall i | 0 <= i < |out|
      ensures out[i].Ok? && PayloadToValue(t, out[i].value) == Ok(values[i])
    {
      assert t.parse(t.render(values[i])) == Some(values[i]);
    }
  }

  /** A client parsing the response payload gets the handler's value back. */
  lemma ResponseValueRoundTrip(t: Text, handlers: RequestHandlerManager.Manager<Value -> Result<Value>>, p: Payload)
    requires Faithful(t)
    requires p.metadataUtf8.Some? && p.metadataUtf8.value in handlers.rawMap
    requires handlers.rawMap[p.metadataUtf8.value](RequestValue(p)).Ok?
    ensures var r := RequestResponse(t, handlers, p);
      && r.Ok? && r.value.Some?
      && PayloadToValue(t, r.value.value) == Ok(handlers.rawMap[p.metadataUtf8.value](RequestValue(p)).value)
  {
    var v := handlers.rawMap[p.metadataUtf8.value](RequestValue(p)).value;
    assert t.parse(t.render(v)) == Some(v);
  }

  /** Since present data arrives as a JSON string, only handlers whose
      request type deserialises from a string can run on it: a `u32`
      request (as `EnterRoom` takes) never decodes, and a `()` request
      decodes only when the payload has no data. */
  lemma RequestValueDecoding(p: Payload)
    ensures DecodeU32(RequestValue(p)) == None
    ensures DecodeUnit(RequestValue(p)).Some? <==> p.dataUtf8.None?
    ensures DecodeString(RequestValue(p)) == p.dataUtf8
  {
  }

  /** The room detail stream registered under `command`, end to end: the
      `()` request is decoded by the stream wrapper, which runs
      `RoomHandlers.RoomDetailedInfoStream` for the caller and pumps its
      items through `encode`. */
  ghost predicate DetailStreamRegistered<Q>(m: RSocketManager.Manager<Q, Value -> Result<seq<Value>>>, command: string, p: Payload,
                                            inner: Unit -> Result<seq<RoomDetailedInfo>>, encode: RoomDetailedInfo -> Option<Value>,
                                            capacity: Option<nat>)
  {
    && command in m.streamHandlers
    && m.streamHandlers[command](RequestValue(p)) == StreamTransport.Handle(DecodeUnit, inner, encode, capacity, RequestValue(p))
  }

  /** A caller in no room who subscribes to room details gets an EMPTY
      stream, not an error item: the wrapper has already handed back its
      receiver when the handler's "user not in room" error ends the
      forwarding task. Data on the request, which a `()` request cannot
      decode, is the one error item. */
  lemma DetailStreamOutsideRoom<Q>(t: Text, m: RSocketManager.Manager<Q, Value -> Result<seq<Value>>>, p: Payload,
                                   s: RoomManager.State, uid: U32,
                                   inner: Unit -> Result<seq<RoomDetailedInfo>>, encode: RoomDetailedInfo -> Option<Value>,
                                   capacity: Option<nat>)
    requires p.metadataUtf8.Some?
    requires DetailStreamRegistered(m, p.metadataUtf8.value, p, inner, encode, capacity)
    requires uid !in s.userRoom
    requires inner(Unit) == RoomHandlers.RoomDetailedInfoStream(s, uid)
    ensures p.dataUtf8.None? ==> RequestStream(t, m, p) == []
    ensures p.dataUtf8.Some? ==> RequestStream(t, m, p) == [Err(DecodeFailed)]
  {
    RequestValueDecoding(p);
  }

  /** A caller in a room that has published a snapshot gets exactly that
      latest snapshot as the stream's one payload, when it encodes and the
      receiver takes it. */
  lemma DetailStreamInRoom<Q>(t: Text, m: RSocketManager.Manager<Q, Value -> Result<seq<Value>>>, p: Payload,
                              s: RoomManager.State, uid: U32,
                              inner: Unit -> Result<seq<RoomDetailedInfo>>, encode: RoomDetailedInfo -> Option<Value>,
                              capacity: Option<nat>)
    requires p.metadataUtf8.Some? && p.dataUtf8.None?
    requires DetailStreamRegistered(m, p.metadataUtf8.value, p, inner, encode, capacity)
    requires uid in s.userRoom && s.userRoom[uid] in s.rooms.entries
    requires inner(Unit) == RoomHandlers.RoomDetailedInfoStream(s, uid)
    requires capacity.None? || capacity.value >= 1
    ensures var published := s.rooms.entries[s.userRoom[uid]].published;
      && (published == [] ==> RequestStream(t, m, p) == [])
      && (published != [] && encode(published[|published| - 1]).Some? ==>
            RequestStream(t, m, p) == [Ok(ValueToPayload(t, encode(published[|published| - 1]).value))])
  {
    RequestValueDecoding(p);
    var published := s.rooms.entries[s.userRoom[uid]].published;
    if published != [] && encode(published[|published| - 1]).Some? {
      var items := [published[|published| - 1]];
      assert inner(Unit) == Ok(items);
      var out := StreamTransport.Pump(items, encode, capacity);
      assert |out| == 1;
    }
  }
}
