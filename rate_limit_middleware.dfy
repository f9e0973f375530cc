/** The rate-limit middleware: counts the request against the client's key, always reports
    the three `X-RateLimit-*` headers, and answers 429 once the window's quota is spent. */
module RateLimitMiddleware {
  import opened Strings
  import Json
  import Http
  import RateLimiter

  /** `${ip}` of `x-forwarded-for || req.ip || remoteAddress`; with no address at all the
      template prints "undefined". */
  function Key(req: Http.Request): string {
    match Http.ForwardedOrTransport(req)
    case Some(ip) => ip
    case None => "undefined"
  }

  /** The key is whatever the client puts in `x-forwarded-for`: the header alone decides the
      bucket, whatever the connection's address. */
  lemma ForwardedHeaderChoosesKey(req: Http.Request, forged: string)
    requires forged != ""
    ensures Key(req.(headers := req.headers["x-forwarded-for" := forged])) == forged
  {
  }

  /** Requests without any address share one bucket with every client that sends the literal
      header value "undefined". */
  lemma UndefinedKeyShared(anonymous: Http.Request, other: Http.Request)
    requires !Http.HeaderTruthy(anonymous.headers, "x-forwarded-for")
    requires (anonymous.ip.None? || anonymous.ip == Some("")) && anonymous.remoteAddress.None?
    requires other.headers == map["x-forwarded-for" := "undefined"]
    ensures Key(anonymous) == Key(other) == "undefined"
  {
  }

  /** An empty transport address after a missing `req.ip` is the key "", not "undefined":
      `undefined || ""` is "". */
  lemma EmptyTransportKey(req: Http.Request)
    requires !Http.HeaderTruthy(req.headers, "x-forwarded-for")
    requires req.ip.None? && req.remoteAddress == Some("")
    ensures Key(req) == ""
  {
  }

  /** With no forwarding header, distinct transport addresses count separately. */
  lemma {:induction false} TransportKeysSeparate(a: Http.Request, b: Http.Request)
    requires !Http.HeaderTruthy(a.headers, "x-forwarded-for") && !Http.HeaderTruthy(b.headers, "x-forwarded-for")
    requires Http.Or(a.ip, a.remoteAddress).Some? && Http.Or(b.ip, b.remoteAddress).Some?
    requires Http.Or(a.ip, a.remoteAddress) != Http.Or(b.ip, b.remoteAddress)
    ensures Key(a) != Key(b)
  {
    assert Key(a) == Http.Or(a.ip, a.remoteAddress).value;
    assert Key(b) == Http.Or(b.ip, b.remoteAddress).value;
  }

  const LIMIT_HEADER := "X-RateLimit-Limit"
  const REMAINING_HEADER := "X-RateLimit-Remaining"
  const RESET_HEADER := "X-RateLimit-Reset"

  /** `Math.floor(resetTime / 1000)`: Dafny's division by a positive divisor is the floor. */
  function ResetSeconds(resetTime: int): (s: int)
    ensures s * 1000 <= resetTime < s * 1000 + 1000
  {
    resetTime / 1000
  }

  /** The headers after the three `setHeader` calls, in the source's order. */
  function RateHeaders(h: map<string, string>, maxRequests: int, r: RateLimiter.LimitResult): map<string, string> {
    h[Lower(LIMIT_HEADER) := IntToString(maxRequests)]
     [Lower(REMAINING_HEADER) := IntToString(r.remainingRequests)]
     [Lower(RESET_HEADER) := IntToString(ResetSeconds(r.resetTime))]
  }

  /** The header texts read back as the numbers they report: the quota, what is left of it and
      the reset instant in whole seconds (for non-negative values). */
  lemma HeaderValuesReadBack(maxRequests: int, r: RateLimiter.LimitResult)
    requires maxRequests >= 0 && r.remainingRequests >= 0 && r.resetTime >= 0
    ensures AllDigits(IntToString(maxRequests)) && DecimalValue(IntToString(maxRequests)) == maxRequests
    ensures AllDigits(IntToString(r.remainingRequests))
    ensures DecimalValue(IntToString(r.remainingRequests)) == r.remainingRequests
    ensures var s := IntToString(ResetSeconds(r.resetTime));
      AllDigits(s) && DecimalValue(s) * 1000 <= r.resetTime < DecimalValue(s) * 1000 + 1000
  {
  }

  /** The 429 body. */
  const TOO_MANY_REQUESTS: Json.Value := Json.Obj([
    ("error", Json.Str("Muitas requisições")),
    ("message", Json.Str("Por favor, tente novamente mais tarde"))])

  /** `use` at instant `now`: the request is counted before anything is written; the headers
      are set on every path; a spent quota answers 429 with the fixed body and does not call
      `next`. */
  method Use(req: Http.Request, res: Http.Response, limiter: RateLimiter.RateLimiterAdapter, now: int)
    returns (v: Http.Verdict)
    modifies res, limiter
    ensures limiter.limits == RateLimiter.AfterCheck(old(limiter.limits), Key(req), now, limiter.windowMs)
    ensures var r := RateLimiter.CheckResult(old(limiter.limits), Key(req), now, limiter.windowMs, limiter.maxRequests);
      if old(res.headersSent) then
        && v == Http.Throw(Http.HEADERS_SENT)
        && res.headers == old(res.headers) && res.statusCode == old(res.statusCode) && res.sent == old(res.sent)
      else
        && res.headers == RateHeaders(old(res.headers), limiter.maxRequests, r)
        && (r.allowed ==> v == Http.Next && res.statusCode == old(res.statusCode) && res.sent == old(res.sent)
                          && !res.headersSent)
        && (!r.allowed ==> v == Http.Answered && res.statusCode == 429
                           && res.sent == old(res.sent) + [Http.JsonBody(TOO_MANY_REQUESTS)] && res.headersSent)
    ensures res.headersSent == (old(res.headersSent) || v == Http.Answered)
    ensures res.responseTime == old(res.responseTime)
  {
    var key := Key(req);
    var result := limiter.CheckLimit(key, now);
    var ok := res.SetHeader(LIMIT_HEADER, IntToString(limiter.maxRequests));
    if !ok {
      return Http.Throw(Http.HEADERS_SENT);
    }
    ok := res.SetHeader(REMAINING_HEADER, IntToString(result.remainingRequests));
    ok := res.SetHeader(RESET_HEADER, IntToString(ResetSeconds(result.resetTime)));
    if !result.allowed {
      res.Status(429);
      ok := res.End(Http.JsonBody(TOO_MANY_REQUESTS));
      return Http.Answered;
    }
    return Http.Next;
  }
}
