/** The typed-to-raw wrapper for request/response handlers
    (backend/src/transport/request.rs).

    A typed handler is a state-passing function of the caller's id and the
    decoded request; the serde conversions of its request and response
    types are parameters. */
module RequestTransport {
  import opened Base
  import opened Json
  import UserManager
  import UserHandlers

  /** `RequestHandlerWrapper::handle_raw`: decode, run, encode; the first
      failing step decides the error. A decode failure never reaches the
      handler, so the state is untouched. */
  function HandleRaw<S, Req, Res>(
    decode: Value -> Option<Req>,
    inner: (S, U32, Req) -> (S, Result<Res>),
    encode: Res -> Option<Value>,
    st: S, uid: U32, val: Value): (r: (S, Result<Value>))
    ensures decode(val).None? ==> r == (st, Err(DecodeFailed))
    ensures decode(val).Some? ==> r.0 == inner(st, uid, decode(val).value).0
    ensures decode(val).Some? && inner(st, uid, decode(val).value).1.Err? ==>
      r.1 == Err(inner(st, uid, decode(val).value).1.error)
    ensures r.1.Ok? <==>
      && decode(val).Some?
      && inner(st, uid, decode(val).value).1.Ok?
      && encode(inner(st, uid, decode(val).value).1.value).Some?
    ensures r.1.Ok? ==> Some(r.1.value) == encode(inner(st, uid, decode(val).value).1.value)
  {
    match decode(val)
    case None => (st, Err(DecodeFailed))
    case Some(req) =>
      var (st', res) := inner(st, uid, req);
      match res
      case Err(e) => (st', Err(e))
      case Ok(resp) =>
        match encode(resp)
        case None => (st', Err(EncodeFailed))
        case Some(v) => (st', Ok(v))
  }

  /** A request that is the encoding of `q` runs the handler on `q` itself,
      and a client that decodes the result gets the handler's response. */
  lemma HandleRawOfEncodedRequest<S, Req, Res>(
    decode: Value -> Option<Req>, encodeReq: Req -> Value,
    inner: (S, U32, Req) -> (S, Result<Res>),
    encode: Res -> Option<Value>, decodeRes: Value -> Option<Res>,
    st: S, uid: U32, q: Req)
    requires decode(encodeReq(q)) == Some(q)
    requires forall x :: encode(x).Some? ==> decodeRes(encode(x).value) == Some(x)
    requires inner(st, uid, q).1.Ok? ==> encode(inner(st, uid, q).1.value).Some?
    ensures var (st', r) := HandleRaw(decode, inner, encode, st, uid, encodeReq(q));
      && st' == inner(st, uid, q).0
      && (r.Ok? <==> inner(st, uid, q).1.Ok?)
      && (r.Ok? ==> decodeRes(r.value) == Some(inner(st, uid, q).1.value))
      && (r.Err? ==> r == Err(inner(st, uid, q).1.error))
  {
    var (st', res) := inner(st, uid, q);
    if res.Ok? {
      assert decodeRes(encode(res.value).value) == Some(res.value);
    }
  }

  /** The rename handler behind this wrapper: a JSON string request runs
      it unchanged and answers `null`; any other request value is refused
      before the handler runs. */
  lemma ChangeCurUserNameThroughWrapper(um: UserManager.Manager, uid: U32, val: Value)
    ensures var (um', r) := HandleRaw(DecodeString, UserHandlers.ChangeCurUserName, (u: Unit) => Some(EncodeUnit(u)), um, uid, val);
      && (!val.String? ==> um' == um && r == Err(DecodeFailed))
      && (val.String? ==>
            && um' == UserHandlers.ChangeCurUserName(um, uid, val.str).0
            && (r.Ok? <==> UserHandlers.ChangeCurUserName(um, uid, val.str).1.Ok?)
            && (r.Ok? ==> r.value == Null))
  {
  }
}

/** The typed-to-raw wrapper for stream handlers
    (backend/src/transport/stream.rs).

    The items a handler's stream yields are a finite sequence, and the
    receiving side is described by how many items it accepts before it is
    dropped (`None`: it never is). The pump is the spawned forwarding task;
    what it sends is modelled as the sequence of values the receiver gets. */
module StreamTransport {
  import opened Base
  import opened Json

  /** The forwarding loop: items in order, one encoded value each, ending
      at the end of the stream, at the first item that fails to encode, or
      when the receiver is gone. */
  function Pump<T>(items: seq<T>, encode: T -> Option<Value>, capacity: Option<nat>): (out: seq<Value>)
    ensures |out| <= |items|
    ensures forall i :: 0 <= i < |out| ==> encode(items[i]) == Some(out[i])
    ensures capacity.Some? ==> |out| <= capacity.value
    ensures |out| < |items| ==> encode(items[|out|]).None? || capacity == Some(|out|)
    decreases |items|
  {
    if |items| == 0 then []
    else
      match encode(items[0])
      case None => []
      case Some(v) =>
        if capacity == Some(0) then []
        else
          var rest := Pump(items[1..], encode, if capacity.Some? then Some(capacity.value - 1) else None);
          [v] + rest
  }

  /** The pump's contract pins its output down: any sequence meeting it is
      the pump's output. */
  lemma PumpIsUnique<T>(items: seq<T>, encode: T -> Option<Value>, capacity: Option<nat>, out: seq<Value>)
    requires |out| <= |items|
    requires forall i :: 0 <= i < |out| ==> encode(items[i]) == Some(out[i])
    requires capacity.Some? ==> |out| <= capacity.value
    requires |out| < |items| ==> encode(items[|out|]).None? || capacity == Some(|out|)
    ensures out == Pump(items, encode, capacity)
  {
    var p := Pump(items, encode, capacity);
    forall i | 0 <= i < |out|
      ensures out[i] == p[i]
    {
      assert encode(items[i]) == Some(p[i]);
    }
  }

  /** With every item encodable and a receiver that stays, every item is forwarded. */
  lemma PumpForwardsEverything<T>(items: seq<T>, encode: T -> Option<Value>)
    requires forall i :: 0 <= i < |items| ==> encode(items[i]).Some?
    ensures |Pump(items, encode, None)| == |items|
    ensures forall i :: 0 <= i < |items| ==> Some(Pump(items, encode, None)[i]) == encode(items[i])
  {
  }

  /** The forwarding loop as a loop. */
  method PumpLoop<T>(items: seq<T>, encode: T -> Option<Value>, capacity: Option<nat>) returns (out: seq<Value>)
    ensures out == Pump(items, encode, capacity)
  {
    out := [];
    var i := 0;
    var stop := false;
    while i < |items| && !stop
      invariant 0 <= i <= |items|
      invariant |out| == i
      invariant forall j :: 0 <= j < i ==> encode(items[j]) == Some(out[j])
      invariant capacity.Some? ==> i <= capacity.value
      invariant stop ==> i < |items| && (encode(items[i]).None? || capacity == Some(i))
      decreases |items| - i, if stop then 0 else 1
    {
      var next := encode(items[i]);
      if next.None? || capacity == Some(i) {
        stop := true;
      } else {
        out := out + [next.value];
        i := i + 1;
      }
    }
    PumpIsUnique(items, encode, capacity, out);
  }

  /** `StreamHandlerWrapper::handle`: a request that does not decode is an
      immediate error. Otherwise the receiver is returned at once; if the
      handler itself fails, the pump ends without sending anything. */
  function Handle<Req, T>(
    decode: Value -> Option<Req>,
    inner: Req -> Result<seq<T>>,
    encode: T -> Option<Value>,
    capacity: Option<nat>,
    req: Value): (r: Result<seq<Value>>)
    ensures r.Err? <==> decode(req).None?
    ensures r.Err? ==> r.error == DecodeFailed
    ensures decode(req).Some? && inner(decode(req).value).Err? ==> r == Ok([])
    ensures decode(req).Some? && inner(decode(req).value).Ok? ==>
      r == Ok(Pump(inner(decode(req).value).value, encode, capacity))
  {
    match decode(req)
    case None => Err(DecodeFailed)
    case Some(q) =>
      match inner(q)
      case Err(_) => Ok([])
      case Ok(items) => Ok(Pump(items, encode, capacity))
  }
}
