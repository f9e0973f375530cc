/** The application module: the middleware registrations of `configure` and the request
    pipeline they make, with the exception filter as the global filter. A request passes the
    upload parser, the audit hook, the rate limiter and (when the allow-list is on) the IP
    filter, then the controller; the first stage that answers or throws ends it, and the audit
    hook logs every response that ends once it is installed. */
module AppModule {
  import opened Strings
  import Json
  import Http
  import Multer
  import AuditLog
  import AuditLogMiddleware
  import RateLimiter
  import RateLimitMiddleware
  import IpValidator
  import IpFilter
  import ExceptionFilter
  import ProxyService
  import ProxyController

  datatype Stage = MulterStage | AuditStage | RateLimitStage | IpFilterStage

  /** One `consumer.apply(stage).forRoutes({ path, method })`. */
  datatype Registration = Registration(stage: Stage, path: string, allMethods: bool)

  /** Nest's middleware consumer, reduced to the registrations it records. */
  class MiddlewareConsumer {
    var registrations: seq<Registration>

    constructor ()
      ensures registrations == []
    {
      registrations := [];
    }

    method Apply(stage: Stage, path: string, allMethods: bool)
      modifies this
      ensures registrations == old(registrations) + [Registration(stage, path, allMethods)]
    {
      registrations := registrations + [Registration(stage, path, allMethods)];
    }
  }

  /** The stages in registration order. */
  function Stages(enableIpWhitelist: bool): seq<Stage> {
    [MulterStage, AuditStage, RateLimitStage] + (if enableIpWhitelist then [IpFilterStage] else [])
  }

  /** Every stage is registered for all paths and all methods. */
  function Registrations(enableIpWhitelist: bool): (r: seq<Registration>)
    ensures |r| == |Stages(enableIpWhitelist)|
    ensures forall i :: 0 <= i < |r| ==> r[i] == Registration(Stages(enableIpWhitelist)[i], "*", true)
  {
    seq(|Stages(enableIpWhitelist)|, i requires 0 <= i < |Stages(enableIpWhitelist)| =>
      Registration(Stages(enableIpWhitelist)[i], "*", true))
  }

  /** `configure(consumer)` with `security.enableIpWhitelist` as `enableIpWhitelist`. */
  method Configure(consumer: MiddlewareConsumer, enableIpWhitelist: bool)
    modifies consumer
    ensures consumer.registrations == old(consumer.registrations) + Registrations(enableIpWhitelist)
  {
    consumer.Apply(MulterStage, "*", true);
    consumer.Apply(AuditStage, "*", true);
    consumer.Apply(RateLimitStage, "*", true);
    if enableIpWhitelist {
      consumer.Apply(IpFilterStage, "*", true);
    }
    assert Registrations(enableIpWhitelist) ==
      [Registration(MulterStage, "*", true), Registration(AuditStage, "*", true), Registration(RateLimitStage, "*", true)]
      + (if enableIpWhitelist then [Registration(IpFilterStage, "*", true)] else []);
  }

  /** The upload parser comes first, then the audit hook, then the rate limiter; the IP filter
      is registered, last, exactly when the allow-list is on. */
  lemma StageOrder(enableIpWhitelist: bool)
    ensures var s := Stages(enableIpWhitelist);
      && s[..3] == [MulterStage, AuditStage, RateLimitStage]
      && (IpFilterStage in s <==> enableIpWhitelist)
      && (enableIpWhitelist ==> |s| == 4 && s[3] == IpFilterStage)
      && (forall i, j :: 0 <= i < j < |s| ==> s[i] != s[j])
  {
  }

  /** Which stage answered a request. */
  datatype Answerer = ByMulter | ByRateLimit | ByIpFilter | ByController

  /** The request the later stages see: the upload parser puts the files and the fields on it. */
  function AfterMulter(req: Http.Request, input: Multer.Multipart): Http.Request {
    if Multer.IsMultipart(req.headers) && Multer.Outcome(input).Parsed? then
      req.(files := Multer.Outcome(input).files, body := Some(Json.Obj(Multer.Outcome(input).fields)))
    else req
  }

  /** The first stage that answers: a failed upload, a spent quota, a refused address, or else
      the controller. The quota is counted before the address is checked. */
  function AnsweredBy(req: Http.Request, input: Multer.Multipart, limits: map<string, RateLimiter.Entry>, now: int,
                      limiter: RateLimiter.RateLimiterAdapter, enableIpWhitelist: bool,
                      validator: IpValidator.IpValidatorService): Answerer
  {
    var seen := AfterMulter(req, input);
    if Multer.IsMultipart(req.headers) && Multer.Outcome(input).Failed? then ByMulter
    else if !RateLimiter.CheckResult(limits, RateLimitMiddleware.Key(seen), now, limiter.windowMs, limiter.maxRequests).allowed then ByRateLimit
    else AfterQuota(seen, enableIpWhitelist, validator)
  }

  /** Past the rate limiter: the IP filter, when on, or else the controller. */
  function AfterQuota(seen: Http.Request, enableIpWhitelist: bool, validator: IpValidator.IpValidatorService): (r: Answerer)
    ensures r == ByIpFilter || r == ByController
  {
    if enableIpWhitelist && IpFilter.Decide(seen, validator) != Http.Next then ByIpFilter else ByController
  }

  /** The message and the code the IP filter's exception carries in its response. */
  lemma {:induction false} ForbiddenMessageAndCode()
    ensures ExceptionFilter.MessageOf(IpFilter.FORBIDDEN) == Json.Str("Acesso negado")
    ensures ExceptionFilter.CodeOf(IpFilter.FORBIDDEN) == Json.Str("IP não autorizado")
  {
    var f := IpFilter.FORBIDDEN.response.fields;
    assert f[0].0 != "message" by { assert |f[0].0| == 10; }
    assert Json.Get(f, "message") == Some(f[1].1);
    assert f[0].0 != "error" && f[1].0 != "error" by { assert |f[0].0| == 10 && |f[1].0| == 7; }
    assert Json.Get(f, "error") == Some(f[2].1);
  }

  /** The 403 of the IP filter as the global filter renders it: "Acesso negado" with the code
      "IP não autorizado", in production and elsewhere alike. */
  lemma {:induction false} ForbiddenRendering(isProduction: bool, url: string, nowIso: string)
    ensures var f := ExceptionFilter.ErrorBody(IpFilter.FORBIDDEN, isProduction, url, nowIso).fields;
      && f[0] == ("statusCode", Json.Num(403))
      && f[3] == ("message", Json.Str("Acesso negado"))
      && f[4] == ("code", Json.Str("IP não autorizado"))
  {
    ForbiddenMessageAndCode();
    assert ExceptionFilter.StatusOf(IpFilter.FORBIDDEN) == 403;
    assert ExceptionFilter.PublicMessage(403) == "Acesso negado";
  }

  /** The running application. */
  class Gateway {
    const enableIpWhitelist: bool
    const allowedDomains: seq<string>
    const isProduction: bool
    const limiter: RateLimiter.RateLimiterAdapter
    const audit: AuditLog.AuditLogAdapter
    const validator: IpValidator.IpValidatorService
    const filter: ExceptionFilter.AllExceptionsFilter

    constructor (enableIpWhitelist: bool, allowedDomains: seq<string>, isProduction: bool,
                 limiter: RateLimiter.RateLimiterAdapter, audit: AuditLog.AuditLogAdapter,
                 validator: IpValidator.IpValidatorService, filter: ExceptionFilter.AllExceptionsFilter)
      ensures this.enableIpWhitelist == enableIpWhitelist && this.allowedDomains == allowedDomains
      ensures this.isProduction == isProduction && this.limiter == limiter && this.audit == audit
      ensures this.validator == validator && this.filter == filter
    {
      this.enableIpWhitelist := enableIpWhitelist;
      this.allowedDomains := allowedDomains;
      this.isProduction := isProduction;
      this.limiter := limiter;
      this.audit := audit;
      this.validator := validator;
      this.filter := filter;
    }

    /** What the client receives from the stage after the upload parser that answered, from
        `before` (the bodies sent until then) to `statusCode` and `after`, and which request, if
        any, reaches the upstream. */
    predicate Delivered(seen: Http.Request, nowIso: string, answeredBy: Answerer, sentRequest: Option<ProxyService.Outbound>,
                        before: seq<Http.Payload>, statusCode: int, after: seq<Http.Payload>)
    {
      match answeredBy
      case ByMulter => false
      case ByRateLimit =>
        sentRequest == None && statusCode == 429 && after == before + [Http.JsonBody(RateLimitMiddleware.TOO_MANY_REQUESTS)]
      case ByIpFilter =>
        && sentRequest == None && statusCode == 403
        && after == before + [Http.JsonBody(ExceptionFilter.ErrorBody(IpFilter.FORBIDDEN, filter.isProduction, seen.url, nowIso))]
      case ByController =>
        if ProxyController.RouteFor(ProxyController.PathOf(seen.url)) == ProxyController.StatusRoute then
          sentRequest == None && after == before + [Http.JsonBody(ProxyController.StatusBody(seen, nowIso))]
        else
          var plan := ProxyService.PlanFor(seen, allowedDomains, isProduction);
          sentRequest == (if plan.Forward? then Some(plan.request) else None)
    }

    /** The stages after the rate limiter on a response not yet sent: the IP filter, whose
        403 the global filter renders, then the route's handler. */
    method Admit(seen: Http.Request, res: Http.Response, upstream: ProxyService.Upstream, nowIso: string)
      returns (answeredBy: Answerer, sentRequest: Option<ProxyService.Outbound>)
      requires !res.headersSent
      modifies res
      ensures answeredBy == AfterQuota(seen, enableIpWhitelist, validator)
      ensures res.headersSent && res.responseTime == old(res.responseTime)
      ensures Delivered(seen, nowIso, answeredBy, sentRequest, old(res.sent), res.statusCode, res.sent)
    {
      sentRequest := None;
      var iv := Http.Next;
      if enableIpWhitelist {
        iv := IpFilter.Use(seen, validator);
      }
      if iv.Throw? {
        filter.Catch(iv.error, seen, res, nowIso);
        answeredBy := ByIpFilter;
      } else {
        answeredBy := ByController;
        // the catch-all route is declared before `/vpn-status`, so only two handlers are reachable
        ProxyController.RoutesShadowed(ProxyController.PathOf(seen.url));
        if ProxyController.RouteFor(ProxyController.PathOf(seen.url)) == ProxyController.StatusRoute {
          var _ := ProxyController.Status(seen, res, nowIso);
        } else {
          sentRequest := ProxyController.HandleProxy(seen, res, allowedDomains, isProduction, upstream);
        }
      }
    }

    /** The rate limiter, then the stages after it, on a response not yet sent. */
    method Gate(seen: Http.Request, res: Http.Response, upstream: ProxyService.Upstream, now: int, nowIso: string)
      returns (answeredBy: Answerer, sentRequest: Option<ProxyService.Outbound>)
      requires !res.headersSent
      modifies res, limiter
      ensures var r := RateLimiter.CheckResult(old(limiter.limits), RateLimitMiddleware.Key(seen), now,
                                               limiter.windowMs, limiter.maxRequests);
        answeredBy == if r.allowed then AfterQuota(seen, enableIpWhitelist, validator) else ByRateLimit
      ensures limiter.limits == RateLimiter.AfterCheck(old(limiter.limits), RateLimitMiddleware.Key(seen), now, limiter.windowMs)
      ensures res.headersSent && res.responseTime == old(res.responseTime)
      ensures Delivered(seen, nowIso, answeredBy, sentRequest, old(res.sent), res.statusCode, res.sent)
    {
      var rv := RateLimitMiddleware.Use(seen, res, limiter, now);
      if rv != Http.Next {
        return ByRateLimit, None;
      }
      answeredBy, sentRequest := Admit(seen, res, upstream, nowIso);
    }

    /** The stages from the audit hook on, for the request the upload parser let through, on a
        response not yet sent. */
    method Serve(seen: Http.Request, res: Http.Response, upstream: ProxyService.Upstream,
                 startTime: int, endTime: int, nowIso: string,
                 serialize: AuditLog.AuditEntry -> string, writeFailure: Option<Http.Exception>)
      returns (answeredBy: Answerer, sentRequest: Option<ProxyService.Outbound>)
      requires !res.headersSent
      modifies res, limiter, audit
      ensures var r := RateLimiter.CheckResult(old(limiter.limits), RateLimitMiddleware.Key(seen), startTime,
                                               limiter.windowMs, limiter.maxRequests);
        answeredBy == if r.allowed then AfterQuota(seen, enableIpWhitelist, validator) else ByRateLimit
      ensures limiter.limits == RateLimiter.AfterCheck(old(limiter.limits), RateLimitMiddleware.Key(seen), startTime, limiter.windowMs)
      ensures res.headersSent && res.responseTime == Some(endTime - startTime)
      ensures var json := serialize(AuditLog.RequestEntry(seen, res.statusCode, Some(endTime - startTime),
                                                          AuditLogMiddleware.Outcome(res.statusCode), nowIso));
        && audit.consoleLines == old(audit.consoleLines) + (if audit.logToConsole then [AuditLog.CONSOLE_PREFIX + json] else [])
        && audit.fileLines == old(audit.fileLines) + (if audit.logToFile && writeFailure.None? then [json + "\n"] else [])
        && audit.errorLines == old(audit.errorLines)
           + (if audit.logToFile && writeFailure.Some? then [AuditLog.WRITE_ERROR_PREFIX + Http.ErrorMessage(writeFailure.value)] else [])
      ensures Delivered(seen, nowIso, answeredBy, sentRequest, old(res.sent), res.statusCode, res.sent)
    {
      var _, hook := AuditLogMiddleware.Use(seen, startTime);
      answeredBy, sentRequest := Gate(seen, res, upstream, startTime, nowIso);
      ghost var statusCode, sent, limits := res.statusCode, res.sent, limiter.limits;
      assert Delivered(seen, nowIso, answeredBy, sentRequest, old(res.sent), statusCode, sent);
      // the response has ended: the wrapped `end` runs the hook
      AuditLogMiddleware.OnEnd(hook, res, audit, endTime, nowIso, serialize, writeFailure);
      assert res.statusCode == statusCode && res.sent == sent && limiter.limits == limits;
    }

    /** One request on a fresh response: `input` is what the multipart parser reads, `upstream`
        what the HTTP client settles with, `startTime` and `endTime` the clock when the audit hook
        is installed and when the response ends. A failed upload is answered before the audit
        hook is installed, so it is not logged and spends no quota. */
    method HandleHttp(req: Http.Request, res: Http.Response, input: Multer.Multipart, upstream: ProxyService.Upstream,
                      startTime: int, endTime: int, nowIso: string,
                      serialize: AuditLog.AuditEntry -> string, writeFailure: Option<Http.Exception>)
      returns (answeredBy: Answerer, sentRequest: Option<ProxyService.Outbound>)
      requires !res.headersSent
      modifies res, limiter, audit
      ensures answeredBy == AnsweredBy(req, input, old(limiter.limits), startTime, limiter, enableIpWhitelist, validator)
      ensures res.headersSent
      ensures answeredBy == ByMulter ==>
        && sentRequest == None && res.statusCode == 400
        && res.sent == old(res.sent) + [Http.JsonBody(Multer.UploadResponse(Multer.Outcome(input).err))]
        && limiter.limits == old(limiter.limits)
        && audit.consoleLines == old(audit.consoleLines) && audit.fileLines == old(audit.fileLines)
        && audit.errorLines == old(audit.errorLines)
      ensures answeredBy != ByMulter ==>
        && limiter.limits == RateLimiter.AfterCheck(old(limiter.limits), RateLimitMiddleware.Key(AfterMulter(req, input)),
                                                    startTime, limiter.windowMs)
        && Delivered(AfterMulter(req, input), nowIso, answeredBy, sentRequest, old(res.sent), res.statusCode, res.sent)
    {
      var v, seen := Multer.Use(req, res, input);
      if v != Http.Next {
        // the upload parser answered; the audit hook is not installed yet
        return ByMulter, None;
      }
      assert seen == AfterMulter(req, input);
      answeredBy, sentRequest := Serve(seen, res, upstream, startTime, endTime, nowIso, serialize, writeFailure);
    }
  }
}
