/** The older raw-handler layer (backend/src/handler/mod.rs) and its one
    handler, `ChangeUserNameHandler` (backend/src/handler/user_handler.rs),
    which works on the `ArcMap<User>` user store.

    A typed handler is a state-passing function of the decoded request and
    the caller's id. serde conversions are parameters; both `unwrap`s of
    `raw_handle` become preconditions. */
module Handler {
  import opened Base
  import opened Json
  import opened UserModel
  import ArcMap
  import UserManager
  import UserHandlers

  /** The typed response: data, or an error text. */
  datatype Response<T> = Data(data: T) | ErrorMessage(message: string)

  /** `RawResponse` (backend/src/serialize.rs): the untyped response. */
  datatype RawResponse = RawResponse(data: Option<Value>, success: bool, error: Option<string>)

  /** The response half of `raw_handle`: data is encoded (with `unwrap`)
      and marked successful; an error text is passed on, unsuccessful. */
  function ToRawResponse<T>(resp: Response<T>, encode: T -> Option<Value>): (r: RawResponse)
    requires resp.Data? ==> encode(resp.data).Some?
    ensures r.success <==> resp.Data?
    ensures r.data.Some? <==> resp.Data?
    ensures r.error.Some? <==> resp.ErrorMessage?
    ensures resp.Data? ==> r.data == encode(resp.data)
    ensures resp.ErrorMessage? ==> r.error == Some(resp.message)
  {
    match resp
    case Data(d) => RawResponse(Some(encode(d).value), true, None)
    case ErrorMessage(e) => RawResponse(None, false, Some(e))
  }

  /** How a client reads a raw response back: the decoded data when
      successful, the error text otherwise. */
  function FromRawResponse<T>(r: RawResponse, decode: Value -> Option<T>): Option<Response<T>> {
    if r.success then
      match r.data
      case None => None
      case Some(v) =>
        match decode(v)
        case None => None
        case Some(d) => Some(Data(d))
    else
      match r.error
      case None => None
      case Some(e) => Some(ErrorMessage(e))
  }

  /** When decoding inverts encoding, a client recovers the typed response
      from the raw one, for both outcomes. */
  lemma RawResponseRoundTrip<T>(resp: Response<T>, encode: T -> Option<Value>, decode: Value -> Option<T>)
    requires resp.Data? ==> encode(resp.data).Some?
    requires resp.Data? ==> decode(encode(resp.data).value) == Some(resp.data)
    ensures FromRawResponse(ToRawResponse(resp, encode), decode) == Some(resp)
  {
  }

  /** `RawHandlerImpl::raw_handle`: decode the request (`unwrap`), run the
      typed handler for the same caller, shape its response. */
  function RawHandle<S, RQ, RP>(
    decode: Value -> Option<RQ>,
    handler: (S, RQ, U32) -> (S, Response<RP>),
    encode: RP -> Option<Value>,
    st: S, raw: Value, uid: U32): (r: (S, RawResponse))
    requires decode(raw).Some?
    requires handler(st, decode(raw).value, uid).1.Data? ==> encode(handler(st, decode(raw).value, uid).1.data).Some?
    ensures r.0 == handler(st, decode(raw).value, uid).0
    ensures r.1.success <==> handler(st, decode(raw).value, uid).1.Data?
    ensures FromRawResponse(r.1, (v: Value) => Some(v)) ==
      Some(match handler(st, decode(raw).value, uid).1
           case Data(d) => Data(encode(d).value)
           case ErrorMessage(e) => ErrorMessage(e))
  {
    var (st', resp) := handler(st, decode(raw).value, uid);
    (st', ToRawResponse(resp, encode))
  }

  // ---------------------------------------------------------------------
  // ChangeUserNameHandler

  datatype ChangeUserNameRequest = ChangeUserNameRequest(newName: string)
  datatype ChangeUserNameResponse = ChangeUserNameResponse

  /** The derived deserialiser of `ChangeUserNameRequest`: an object with a
      string field `new_name` (other fields ignored), or a one-element array
      holding that string. */
  function DecodeChangeUserNameRequest(v: Value): (r: Option<ChangeUserNameRequest>)
    ensures v.Object? && "new_name" in v.fields && v.fields["new_name"].String? ==>
      r == Some(ChangeUserNameRequest(v.fields["new_name"].str))
    ensures !v.Object? && !v.Array? ==> r == None
  {
    match v
    case Object(fields) =>
      if "new_name" in fields && fields["new_name"].String? then Some(ChangeUserNameRequest(fields["new_name"].str)) else None
    case Array(items) =>
      if |items| == 1 && items[0].String? then Some(ChangeUserNameRequest(items[0].str)) else None
    case _ => None
  }

  /** The derived serialiser of the unit struct `ChangeUserNameResponse`: `null`. */
  function EncodeChangeUserNameResponse(r: ChangeUserNameResponse): (v: Option<Value>)
    ensures v == Some(Null)
  {
    Some(Null)
  }

  /** `ChangeUserNameHandler::handle`: sets the stored user's nick name to
      the requested one, whatever it is; an unknown caller gets
      "user not found" and nothing changes. */
  function ChangeUserName(a: ArcMap.ArcMap<User>, req: ChangeUserNameRequest, uid: U32): (r: (ArcMap.ArcMap<User>, Response<ChangeUserNameResponse>))
    ensures uid !in a.innerMap ==> r == (a, ErrorMessage("user not found"))
    ensures uid in a.innerMap ==>
      && r.1 == Data(ChangeUserNameResponse)
      && r.0.curId == a.curId
      && r.0.innerMap.Keys == a.innerMap.Keys
      && r.0.innerMap[uid].nickName == req.newName
      && r.0.innerMap[uid] == a.innerMap[uid].(nickName := r.0.innerMap[uid].nickName)
      && forall k :: k in a.innerMap && k != uid ==> r.0.innerMap[k] == a.innerMap[k]
  {
    match ArcMap.Get(a, uid)
    case None => (a, ErrorMessage("user not found"))
    case Some(u) => (a.(innerMap := a.innerMap[uid := u.(nickName := req.newName)]), Data(ChangeUserNameResponse))
  }

  /** The handlers of `handler_map`. */
  datatype RawHandlerKind = ChangeUserNameKind

  /** `handler_map`: exactly one entry, "changeUserName". */
  function HandlerMap(): (m: map<string, RawHandlerKind>)
    ensures m.Keys == {"changeUserName"}
    ensures m["changeUserName"] == ChangeUserNameKind
  {
    map["changeUserName" := ChangeUserNameKind]
  }

  /** Runs a handler of `handler_map` on a raw request. */
  function RawHandleKind(kind: RawHandlerKind, a: ArcMap.ArcMap<User>, raw: Value, uid: U32): (r: (ArcMap.ArcMap<User>, RawResponse))
    requires DecodeChangeUserNameRequest(raw).Some?
    ensures r.1.success <==> uid in a.innerMap
    ensures r.1.success ==> r.1 == RawResponse(Some(Null), true, None)
    ensures !r.1.success ==> r == (a, RawResponse(None, false, Some("user not found")))
  {
    match kind
    case ChangeUserNameKind =>
      RawHandle(DecodeChangeUserNameRequest, ChangeUserName, EncodeChangeUserNameResponse, a, raw, uid)
  }

  /** This handler applies no validation: even an empty name is stored,
      where the request handler of the global user manager refuses it. */
  lemma NoNameValidation(a: ArcMap.ArcMap<User>, uid: U32, um: UserManager.Manager)
    requires uid in a.innerMap
    ensures var (a', resp) := ChangeUserName(a, ChangeUserNameRequest(""), uid);
      resp.Data? && a'.innerMap[uid].nickName == ""
    ensures UserHandlers.ChangeCurUserName(um, uid, "").1 == Err(EmptyUserName)
  {
  }

  /** End to end through `raw_handle`: the request object's `new_name`
      becomes the nick name of a stored caller. */
  lemma RawChangeUserName(a: ArcMap.ArcMap<User>, uid: U32, name: string)
    requires uid in a.innerMap
    ensures var raw := Object(map["new_name" := String(name)]);
      && DecodeChangeUserNameRequest(raw).Some?
      && var (a', r) := RawHandleKind(HandlerMap()["changeUserName"], a, raw, uid);
      && r == RawResponse(Some(Null), true, None)
      && a'.innerMap[uid].nickName == name
  {
  }
}
