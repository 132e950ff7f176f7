/** JSON-RPC messages as JSON objects (src/message.rs, src/error.rs, src/request_id.rs): the serialisers, the
    deserialisers, and the order in which the untagged `Message` tries its variants. JSON text is not modelled; an
    object is the map of its members. */
module Messages {
  import opened Wrappers

  datatype Json =
    | Null
    | Bool(b: bool)
    | Int(n: int)
    | Float(r: real)
    | Str(s: string)
    | Arr(items: seq<Json>)
    | Obj(members: Object)

  type Object = map<string, Json>

  datatype RequestId = Integer(n: i32) | String(s: string)

  datatype Request = Request(id: RequestId, name: string, params: Option<Json>)
  datatype ResponseError = ResponseError(code: i32, message: string, data: Option<Json>)
  datatype ResponseBody = Success(result: Json) | Error(error: ResponseError)
  datatype Response = Response(id: Option<RequestId>, body: ResponseBody)
  datatype Notification = Notification(name: string, params: Option<Json>)

  datatype Message =
    | RequestMessage(request: Request)
    | ResponseMessage(response: Response)
    | NotificationMessage(notification: Notification)

  const JSONRPC_VERSION := "2.0"

  // ---------- serialising ----------

  function IdToJson(id: RequestId): Json {
    match id
    case Integer(n) => Int(n)
    case String(s) => Str(s)
  }

  function OptionalMember(name: string, v: Option<Json>): Object {
    if v.Some? then map[name := v.value] else map[]
  }

  function ErrorToJson(e: ResponseError): Json {
    Obj(map["code" := Int(e.code), "message" := Str(e.message)] + OptionalMember("data", e.data))
  }

  function ToObject(m: Message): Object {
    match m
    case RequestMessage(Request(id, name, params)) =>
      map["jsonrpc" := Str(JSONRPC_VERSION), "id" := IdToJson(id), "method" := Str(name)]
      + OptionalMember("params", params)
    case ResponseMessage(Response(id, body)) =>
      map["jsonrpc" := Str(JSONRPC_VERSION), "id" := if id.Some? then IdToJson(id.value) else Null]
      + (match body
         case Success(result) => map["result" := result]
         case Error(error) => map["error" := ErrorToJson(error)])
    case NotificationMessage(Notification(name, params)) =>
      map["jsonrpc" := Str(JSONRPC_VERSION), "method" := Str(name)] + OptionalMember("params", params)
  }

  // ---------- deserialising ----------

  function IdFromJson(v: Json): Option<RequestId> {
    match v
    case Int(n) => if -0x8000_0000 <= n <= 0x7FFF_FFFF then Some(Integer(n)) else None
    case Str(s) => Some(String(s))
    case _ => None
  }

  /** A required member of type `String`. */
  function StringMember(o: Object, name: string): Option<string> {
    if name in o && o[name].Str? then Some(o[name].s) else None
  }

  /** A member of type `Option<Value>`: absent and `null` are the same. */
  function ValueMember(o: Object, name: string): Option<Json> {
    if name in o && o[name] != Null then Some(o[name]) else None
  }

  predicate VersionOk(o: Object) { StringMember(o, "jsonrpc") == Some(JSONRPC_VERSION) }

  function RequestFromObject(o: Object): Option<Request> {
    if VersionOk(o) && "id" in o && IdFromJson(o["id"]).Some? && StringMember(o, "method").Some? then
      Some(Request(IdFromJson(o["id"]).value, StringMember(o, "method").value, ValueMember(o, "params")))
    else None
  }

  function ErrorFromJson(v: Json): Option<ResponseError> {
    if v.Obj? && "code" in v.members && v.members["code"].Int?
       && -0x8000_0000 <= v.members["code"].n <= 0x7FFF_FFFF && StringMember(v.members, "message").Some? then
      Some(ResponseError(v.members["code"].n, StringMember(v.members, "message").value, ValueMember(v.members, "data")))
    else None
  }

  /** The payload: an `error` that is not `null` wins over a `result`. */
  function BodyFromObject(o: Object): Option<ResponseBody>
    requires "result" in o || "error" in o
  {
    if "error" in o then
      if o["error"] == Null && "result" in o then Some(Success(o["result"]))
      else if o["error"] == Null then None
      else
        match ErrorFromJson(o["error"])
        case None => None
        case Some(e) => Some(Error(e))
    else Some(Success(o["result"]))
  }

  function ResponseFromObject(o: Object): Option<Response> {
    if "result" !in o && "error" !in o then None
    else if !VersionOk(o) then None
    else
      var noId := "id" !in o || o["id"] == Null;
      if !noId && IdFromJson(o["id"]).None? then None
      else
        var id := if noId then None else IdFromJson(o["id"]);
        match BodyFromObject(o)
        case None => None
        case Some(body) => Some(Response(id, body))
  }

  function NotificationFromObject(o: Object): Option<Notification> {
    if VersionOk(o) && StringMember(o, "method").Some? then
      Some(Notification(StringMember(o, "method").value, ValueMember(o, "params")))
    else None
  }

  /** The untagged enum: the first variant that deserialises. */
  function FromObject(o: Object): Option<Message> {
    match RequestFromObject(o)
    case Some(r) => Some(RequestMessage(r))
    case None =>
      match ResponseFromObject(o)
      case Some(r) => Some(ResponseMessage(r))
      case None =>
        match NotificationFromObject(o)
        case Some(n) => Some(NotificationMessage(n))
        case None => None
  }

  // ---------- what survives ----------

  function DropNull(v: Option<Json>): Option<Json> { if v == Some(Null) then None else v }

  /** The message with `params: null` and error `data: null` read as absent. */
  function Normalize(m: Message): Message {
    match m
    case RequestMessage(r) => RequestMessage(r.(params := DropNull(r.params)))
    case ResponseMessage(Response(id, Error(e))) => ResponseMessage(Response(id, Error(e.(data := DropNull(e.data)))))
    case ResponseMessage(_) => m
    case NotificationMessage(n) => NotificationMessage(n.(params := DropNull(n.params)))
  }

  lemma RequestRoundTrip(r: Request)
    ensures FromObject(ToObject(RequestMessage(r))) == Some(Normalize(RequestMessage(r)))
  {
  }

  lemma ErrorRoundTrip(e: ResponseError)
    ensures ErrorFromJson(ErrorToJson(e)) == Some(e.(data := DropNull(e.data)))
  {
  }

  lemma ResponseRoundTrip(r: Response)
    ensures FromObject(ToObject(ResponseMessage(r))) == Some(Normalize(ResponseMessage(r)))
  {
  }

  lemma NotificationRoundTrip(n: Notification)
    ensures FromObject(ToObject(NotificationMessage(n))) == Some(Normalize(NotificationMessage(n)))
  {
  }

  /** Every message survives the journey through its object, in its own variant. */
  lemma RoundTrip(m: Message)
    ensures FromObject(ToObject(m)) == Some(Normalize(m))
  {
    match m
    case RequestMessage(r) => RequestRoundTrip(r);
    case ResponseMessage(r) => ResponseRoundTrip(r);
    case NotificationMessage(n) => NotificationRoundTrip(n);
  }

  /** Whatever deserialises is already in normal form, so a second journey changes nothing. */
  lemma DeserialisedIsNormal(o: Object)
    ensures FromObject(o).Some? ==> Normalize(FromObject(o).value) == FromObject(o).value
    ensures FromObject(o).Some? ==> FromObject(ToObject(FromObject(o).value)) == FromObject(o)
  {
    if FromObject(o).Some? {
      RoundTrip(FromObject(o).value);
    }
  }

  // ---------- discrimination ----------

  /** The id is an i32 or a string. */
  predicate ValidId(o: Object) {
    "id" in o && (o["id"].Str? || (o["id"].Int? && -0x8000_0000 <= o["id"].n <= 0x7FFF_FFFF))
  }

  predicate NoId(o: Object) { "id" !in o || o["id"].Null? }

  predicate HasMethod(o: Object) { "method" in o && o["method"].Str? }

  predicate IsErrorObject(v: Json) {
    && v.Obj? && "code" in v.members && v.members["code"].Int?
    && -0x8000_0000 <= v.members["code"].n <= 0x7FFF_FFFF
    && "message" in v.members && v.members["message"].Str?
  }

  /** `error` is an error object, or it is absent or `null` and there is a `result`. */
  predicate HasOutcome(o: Object) {
    if "error" in o && !o["error"].Null? then IsErrorObject(o["error"]) else "result" in o
  }

  /** Which variant an object becomes, if any. */
  lemma Discrimination(o: Object)
    ensures FromObject(o).Some? ==> VersionOk(o)
    ensures VersionOk(o) ==>
              var m := FromObject(o);
              && (m.Some? && m.value.RequestMessage? <==> ValidId(o) && HasMethod(o))
              && (m.Some? && m.value.ResponseMessage? <==>
                    HasOutcome(o) && (NoId(o) || (ValidId(o) && !HasMethod(o))))
              && (m.Some? && m.value.NotificationMessage? <==>
                    HasMethod(o) && !ValidId(o) && !(HasOutcome(o) && NoId(o)))
  {
  }

  /** The documentation says that an object with an `id` is never a notification. That holds of an object exactly
      when its id is valid, or it has no method, or its id is `null` beside an outcome. */
  lemma NotificationDespiteIdIff(o: Object)
    requires VersionOk(o) && "id" in o
    ensures (FromObject(o).Some? && FromObject(o).value.NotificationMessage?)
            <==> !(ValidId(o) || !HasMethod(o) || (o["id"].Null? && HasOutcome(o)))
  {
  }

  lemma NullIdNotification()
    ensures var o: Object := map["jsonrpc" := Str("2.0"), "id" := Null, "method" := Str("exit")];
            "id" in o && FromObject(o) == Some(NotificationMessage(Notification("exit", None)))
  {
  }

  // ---------- the members, one by one ----------

  /** What an object says under a name, if it is not `null`. */
  function Member(o: Object, name: string): Json { if name in o then o[name] else Null }

  predicate Names(v: Json, id: RequestId) {
    match id
    case Integer(n) => v == Int(n)
    case String(s) => v == Str(s)
  }

  predicate IsMember(o: Object, name: string, v: Option<Json>) {
    match v
    case None => Member(o, name) == Null
    case Some(json) => json != Null && Member(o, name) == json
  }

  /** Every field of a message that is read is a member of its object. */
  lemma FieldsRead(o: Object)
    ensures match FromObject(o)
            case Some(RequestMessage(Request(id, name, params))) =>
              && "id" in o && Names(o["id"], id)
              && "method" in o && o["method"] == Str(name) && IsMember(o, "params", params)
            case Some(ResponseMessage(Response(id, body))) =>
              && (match id
                  case None => Member(o, "id") == Null
                  case Some(i) => "id" in o && Names(o["id"], i))
              && (if Member(o, "error") == Null then "result" in o && body == Success(o["result"])
                  else
                    && body.Error? && o["error"].Obj?
                    && var e := o["error"].members;
                       && "code" in e && e["code"] == Int(body.error.code)
                       && "message" in e && e["message"] == Str(body.error.message)
                       && IsMember(e, "data", body.error.data))
            case Some(NotificationMessage(Notification(name, params))) =>
              "method" in o && o["method"] == Str(name) && IsMember(o, "params", params)
            case None => true
    ensures FromObject(o).Some? ==> "jsonrpc" in o && o["jsonrpc"] == Str("2.0")
  {
  }

  /** And a message that is written has these members and no others. */
  lemma RequestWritten(r: Request)
    ensures var o := ToObject(RequestMessage(r));
            && o.Keys == {"jsonrpc", "id", "method"} + (if r.params.Some? then {"params"} else {})
            && o["jsonrpc"] == Str("2.0") && Names(o["id"], r.id) && o["method"] == Str(r.name)
            && (r.params.Some? ==> o["params"] == r.params.value)
  {
  }

  lemma ResponseWritten(r: Response)
    ensures var o := ToObject(ResponseMessage(r));
            && o.Keys == {"jsonrpc", "id"} + (if r.body.Success? then {"result"} else {"error"})
            && o["jsonrpc"] == Str("2.0")
            && (if r.id.Some? then Names(o["id"], r.id.value) else o["id"] == Null)
            && (match r.body
                case Success(result) => o["result"] == result
                case Error(error) => o["error"] == ErrorToJson(error))
  {
  }

  lemma ErrorWritten(error: ResponseError)
    ensures ErrorToJson(error).Obj?
    ensures var e := ErrorToJson(error).members;
            && e.Keys == {"code", "message"} + (if error.data.Some? then {"data"} else {})
            && e["code"] == Int(error.code) && e["message"] == Str(error.message)
            && (error.data.Some? ==> e["data"] == error.data.value)
  {
  }

  lemma NotificationWritten(n: Notification)
    ensures var o := ToObject(NotificationMessage(n));
            && o.Keys == {"jsonrpc", "method"} + (if n.params.Some? then {"params"} else {})
            && o["jsonrpc"] == Str("2.0") && o["method"] == Str(n.name)
            && (n.params.Some? ==> o["params"] == n.params.value)
  {
  }

  // ---------- cancellation ----------

  const CANCEL_REQUEST_METHOD := "$/cancelRequest"

  /** `parse_cancel_params`. */
  function ParseCancelParams(params: Option<Json>): Option<RequestId> {
    if params.Some? && params.value.Obj? && "id" in params.value.members then
      IdFromJson(params.value.members["id"])
    else None
  }

  /** The notification `Connection::cancel` sends. */
  function CancelNotification(id: RequestId): Notification {
    Notification(CANCEL_REQUEST_METHOD, Some(Obj(map["id" := IdToJson(id)])))
  }

  /** A cancellation names the same request at both ends, before and after its journey. */
  lemma CancelParamsRoundTrip(id: RequestId)
    ensures var n := CancelNotification(id);
            && n.name == "$/cancelRequest" && n.params.Some? && n.params.value.Obj?
            && n.params.value.members.Keys == {"id"} && Names(n.params.value.members["id"], id)
    ensures ParseCancelParams(CancelNotification(id).params) == Some(id)
    ensures FromObject(ToObject(NotificationMessage(CancelNotification(id))))
            == Some(NotificationMessage(CancelNotification(id)))
  {
  }
}
