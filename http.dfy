/** The parts of an Express request and response the gateway reads and writes. */
module Http {
  import opened Strings
  import Json
  import FileUpload

  /** Incoming header names, lower-cased as Node delivers them, with their values. */
  type Headers = map<string, string>

  /** An Express request. `connection` and `socket` are the same socket in Node, so one
      `remoteAddress` stands for both `req.connection.remoteAddress` and `req.socket.remoteAddress`. */
  datatype Request = Request(  // `verb` is `req.method`
    verb: string,
    originalUrl: string,
    url: string,
    headers: Headers,
    ip: Option<string>,
    remoteAddress: Option<string>,
    body: Option<Json.Value>,
    query: Json.Fields,
    files: seq<FileUpload.FileInfo>)

  /** `req.headers[name]` is present and not the empty string. */
  predicate HeaderTruthy(h: Headers, name: string) {
    name in h && h[name] != ""
  }

  /** `a || b` on optional strings: `a` when it is truthy (present and not ""), else `b`
      whatever it is, so `undefined || ""` is "". */
  function Or(a: Option<string>, b: Option<string>): (r: Option<string>)
    ensures a.Some? && a.value != "" ==> r == a
    ensures !(a.Some? && a.value != "") ==> r == b
    ensures r.Some? && r.value != "" <==> (a.Some? && a.value != "") || (b.Some? && b.value != "")
  {
    if a.Some? && a.value != "" then a else b
  }

  /** `req.headers['x-forwarded-for'] || req.ip || req.connection.remoteAddress`, the client
      address the audit log, the rate limiter's key and the status route use. */
  function ForwardedOrTransport(req: Request): (r: Option<string>)
    ensures HeaderTruthy(req.headers, "x-forwarded-for") ==> r == Some(req.headers["x-forwarded-for"])
    ensures !HeaderTruthy(req.headers, "x-forwarded-for") ==> r == Or(req.ip, req.remoteAddress)
  {
    if HeaderTruthy(req.headers, "x-forwarded-for") then Some(req.headers["x-forwarded-for"])
    else Or(req.ip, req.remoteAddress)
  }

  /** What `HttpException.getResponse()` holds: a string, or an object. */
  datatype ExceptionBody = Text(text: string) | Object(fields: Json.Fields)

  /** What a handler or middleware can throw: an HttpException (its status, its response and
      the message Nest derives from it), another Error, or a thrown value that is no Error. */
  datatype Exception =
    | HttpError(status: int, response: ExceptionBody, message: string)
    | ErrorObject(message: string, stack: Option<string>, code: Json.Value)
    | NonError(value: Json.Value)

  /** `instanceof Error`. */
  predicate IsError(e: Exception) {
    !e.NonError?
  }

  /** `getErrorMessage(error)`: an Error's message, else a thrown object's string `message`,
      else `String(error)`. */
  function ErrorMessage(e: Exception): (r: string)
    ensures IsError(e) ==> r == e.message
    ensures e.NonError? && e.value.Str? ==> r == e.value.s
    ensures (e.NonError? && e.value.Obj? && Json.Get(e.value.fields, "message").Some?
             && Json.Get(e.value.fields, "message").value.Str?) ==> r == Json.Get(e.value.fields, "message").value.s
  {
    match e
    case HttpError(_, _, m) => m
    case ErrorObject(m, _, _) => m
    case NonError(v) =>
      if v.Obj? && Json.Get(v.fields, "message").Some? && Json.Get(v.fields, "message").value.Str? then
        Json.Get(v.fields, "message").value.s
      else Json.JsString(v)
  }

  /** `error && typeof error === 'object' && 'message' in error`: every Error, and a thrown
      object holding a `message` key. */
  predicate IsAxiosLike(e: Exception) {
    IsError(e) || (e.value.Obj? && Json.HasKey(e.value.fields, "message"))
  }

  /** `error.code` of an axios-like error; `undefined` (here `null`) when absent. */
  function ErrorCode(e: Exception): (r: Json.Value)
    ensures !IsAxiosLike(e) || e.HttpError? ==> r == Json.Null
    ensures e.ErrorObject? ==> r == e.code
  {
    match e
    case HttpError(_, _, _) => Json.Null
    case ErrorObject(_, _, c) => c
    case NonError(v) =>
      if v.Obj? && Json.HasKey(v.fields, "message") && Json.HasKey(v.fields, "code") then Json.Get(v.fields, "code").value
      else Json.Null
  }

  /** How a middleware finishes: it hands on to the next stage, it throws, or it has written
      the response itself. */
  datatype Verdict = Next | Throw(error: Exception) | Answered

  /** Node's error when a header is set on, or a body written to, a response that has already
      gone out. */
  const HEADERS_SENT: Exception := ErrorObject(
    "Cannot set headers after they are sent to the client", None, Json.Str("ERR_HTTP_HEADERS_SENT"))

  /** What a response carries once it is ended: a `json(...)` or a `send(...)` body. */
  datatype Payload = JsonBody(json: Json.Value) | SendBody(data: Json.Value)

  /** An Express response: status, headers (keyed by lower-cased name, as Node stores them),
      the bodies written so far and whether the headers have gone out. */
  class Response {
    var statusCode: int
    var headers: map<string, string>
    var sent: seq<Payload>
    var headersSent: bool
    var responseTime: Option<int>

    constructor ()
      ensures statusCode == 200 && headers == map[] && sent == [] && !headersSent && responseTime == None
    {
      statusCode := 200;
      headers := map[];
      sent := [];
      headersSent := false;
      responseTime := None;
    }

    /** `res.setHeader(name, value)`; Node throws once the headers are sent, reported here as `false`. */
    method SetHeader(name: string, value: string) returns (ok: bool)
      modifies this
      ensures ok == !old(headersSent)
      ensures headers == if ok then old(headers)[Lower(name) := value] else old(headers)
      ensures statusCode == old(statusCode) && sent == old(sent) && headersSent == old(headersSent)
      ensures responseTime == old(responseTime)
    {
      ok := !headersSent;
      if ok {
        headers := headers[Lower(name) := value];
      }
    }

    /** `res.status(code)`. */
    method Status(code: int)
      modifies this
      ensures statusCode == code
      ensures headers == old(headers) && sent == old(sent) && headersSent == old(headersSent)
      ensures responseTime == old(responseTime)
    {
      statusCode := code;
    }

    /** `res.json(body)` or `res.send(data)`: ends the response; throws (`false`) once it has ended. */
    method End(p: Payload) returns (ok: bool)
      modifies this
      ensures ok == !old(headersSent)
      ensures sent == if ok then old(sent) + [p] else old(sent)
      ensures headersSent == (old(headersSent) || ok)
      ensures statusCode == old(statusCode) && headers == old(headers) && responseTime == old(responseTime)
    {
      ok := !headersSent;
      if ok {
        sent := sent + [p];
        headersSent := true;
      }
    }

    /** `res['responseTime'] = t`, written by the audit end hook. */
    method SetResponseTime(t: int)
      modifies this
      ensures responseTime == Some(t)
      ensures statusCode == old(statusCode) && headers == old(headers) && sent == old(sent)
      ensures headersSent == old(headersSent)
    {
      responseTime := Some(t);
    }
  }
}
