/** The controller: a status route, a catch-all route that hands every other request to the
    proxy service, and a VPN report whose route the catch-all, registered before it, hides.
    The VPN probe itself is the parameter `probe`. */
module ProxyController {
  import opened Strings
  import Json
  import Http
  import ProxyService

  const STATUS_MESSAGE := "O proxy está funcionando corretamente e pronto para processar requisições"

  /** 'presente' when the authorization header is a bearer credential, 'ausente' otherwise. */
  function TokenStatus(headers: Http.Headers): (r: string)
    ensures r == "presente" <==> "authorization" in headers && StartsWith(headers["authorization"], "Bearer ")
    ensures r == "presente" || r == "ausente"
  {
    if Http.HeaderTruthy(headers, "authorization") && StartsWith(headers["authorization"], "Bearer ") then "presente"
    else "ausente"
  }

  /** The body `status` answers with; `client_ip` is dropped from the JSON when no address is
      known, as `undefined` members are. */
  function StatusBody(req: Http.Request, nowIso: string): Json.Value {
    var ip := Http.ForwardedOrTransport(req);
    Json.Obj(
      [("status", Json.Str("online")), ("timestamp", Json.Str(nowIso)), ("message", Json.Str(STATUS_MESSAGE))]
      + (if ip.Some? then [("client_ip", Json.Str(ip.value))] else [])
      + [("auth_token", Json.Str(TokenStatus(req.headers)))])
  }

  /** The status body always reports 'online' and reports only whether a bearer token is
      present, never the token. */
  lemma {:induction false} StatusBodyReports(req: Http.Request, nowIso: string)
    ensures var f := StatusBody(req, nowIso).fields;
      && Json.Get(f, "status") == Some(Json.Str("online"))
      && Json.Get(f, "auth_token") == Some(Json.Str(TokenStatus(req.headers)))
      && f[|f| - 1] == ("auth_token", Json.Str(TokenStatus(req.headers)))
  {
    var f := StatusBody(req, nowIso).fields;
    Json.GetAt(f, 0, "status");
    var n := |f| - 1;
    forall j | 0 <= j < n ensures f[j].0 != "auth_token" {
      assert |f[j].0| != 10;
    }
    Json.GetAt(f, n, "auth_token");
  }

  /** `client_ip` is the address the audit log records, and is absent exactly when there is
      none. */
  lemma {:induction false} StatusBodyClientIp(req: Http.Request, nowIso: string)
    ensures var ip := Http.ForwardedOrTransport(req);
      Json.Get(StatusBody(req, nowIso).fields, "client_ip") == (if ip.Some? then Some(Json.Str(ip.value)) else None)
  {
    var f := StatusBody(req, nowIso).fields;
    var ip := Http.ForwardedOrTransport(req);
    if ip.Some? {
      Json.GetAt(f, 3, "client_ip");
    } else {
      forall j | 0 <= j < |f| ensures f[j].0 != "client_ip" {
        assert f[j].0[0] != 'c';
      }
      assert !Json.HasKey(f, "client_ip");
    }
  }

  /** `status(req, res)`: one `res.json`, which throws once the response has gone out. */
  method Status(req: Http.Request, res: Http.Response, nowIso: string) returns (v: Http.Verdict)
    modifies res
    ensures v == (if old(res.headersSent) then Http.Throw(Http.HEADERS_SENT) else Http.Answered)
    ensures res.sent == old(res.sent) + (if old(res.headersSent) then [] else [Http.JsonBody(StatusBody(req, nowIso))])
    ensures res.headersSent && res.statusCode == old(res.statusCode)
    ensures res.headers == old(res.headers) && res.responseTime == old(res.responseTime)
  {
    var tokenStatus := "ausente";
    if "authorization" in req.headers && req.headers["authorization"] != "" && StartsWith(req.headers["authorization"], "Bearer ") {
      tokenStatus := "presente";
    }
    var ip := Http.ForwardedOrTransport(req);
    var body := Json.Obj(
      [("status", Json.Str("online")), ("timestamp", Json.Str(nowIso)), ("message", Json.Str(STATUS_MESSAGE))]
      + (if ip.Some? then [("client_ip", Json.Str(ip.value))] else [])
      + [("auth_token", Json.Str(tokenStatus))]);
    var ok := res.End(Http.JsonBody(body));
    v := if ok then Http.Answered else Http.Throw(Http.HEADERS_SENT);
  }

  /** `handleProxy(req, res)`: one call of the service with the same request and response. */
  method HandleProxy(req: Http.Request, res: Http.Response, allowed: seq<string>, isProduction: bool,
                     upstream: ProxyService.Upstream)
    returns (sentRequest: Option<ProxyService.Outbound>)
    modifies res
    ensures var plan := ProxyService.PlanFor(req, allowed, isProduction);
      sentRequest == (if plan.Forward? then Some(plan.request) else None)
    ensures res.headersSent && res.responseTime == old(res.responseTime)
    ensures ProxyService.PlanFor(req, allowed, isProduction).Reject? ==> res.statusCode == 400
  {
    sentRequest := ProxyService.HandleRequest(req, res, allowed, isProduction, upstream);
  }

  /** What the VPN probe reports. */
  datatype VpnTest = VpnTest(connected: bool, details: string)

  const VPN_UP_MESSAGE := "VPN COGEL está conectada e funcionando"
  const VPN_DOWN_MESSAGE := "VPN COGEL não está conectada. Por favor, verifique sua conexão FortiClient."

  /** `testVpnConnection()` on the probe's result. */
  function VpnReport(probe: VpnTest, nowIso: string): Json.Value {
    Json.Obj([
      ("timestamp", Json.Str(nowIso)),
      ("vpnStatus", Json.Str(if probe.connected then "connected" else "disconnected")),
      ("details", Json.Arr(seq(|Split(probe.details, '\n')|, i requires 0 <= i < |Split(probe.details, '\n')| =>
                     Json.Str(Split(probe.details, '\n')[i])))),
      ("message", Json.Str(if probe.connected then VPN_UP_MESSAGE else VPN_DOWN_MESSAGE))])
  }

  /** The status word and the message follow `connected`; the details are the probe's text one
      line per element, and joining them back with '\n' gives that text again. */
  lemma VpnReportMeaning(probe: VpnTest, nowIso: string)
    ensures var r := VpnReport(probe, nowIso).fields;
      && r[1].1 == Json.Str(if probe.connected then "connected" else "disconnected")
      && r[3].1 == Json.Str(if probe.connected then VPN_UP_MESSAGE else VPN_DOWN_MESSAGE)
      && |r[2].1.items| == |Split(probe.details, '\n')|
      && (forall i :: 0 <= i < |r[2].1.items| ==> r[2].1.items[i] == Json.Str(Split(probe.details, '\n')[i]))
      && Join(Split(probe.details, '\n'), "\n") == probe.details
  {
    JoinSplit(probe.details, '\n');
  }

  /** The handlers in the order the controller declares them. */
  datatype Route = StatusRoute | ProxyRoute | VpnStatusRoute

  /** A route path: a fixed path, or the wildcard. */
  datatype Pattern = Exact(path: string) | Wildcard

  /** Express matches a fixed path ignoring case and one trailing slash. */
  predicate Matches(p: Pattern, path: string) {
    p.Wildcard? || Lower(path) == p.path || Lower(path) == p.path + "/"
  }

  const ROUTES: seq<(Pattern, Route)> := [
    (Exact("/status"), StatusRoute),
    (Wildcard, ProxyRoute),
    (Exact("/vpn-status"), VpnStatusRoute)]

  /** The first route, from index `i` on, whose pattern matches. */
  function FirstRoute(routes: seq<(Pattern, Route)>, path: string, i: nat): (r: Option<nat>)
    requires i <= |routes|
    ensures r.Some? ==> i <= r.value < |routes| && Matches(routes[r.value].0, path)
    ensures r.Some? ==> forall j :: i <= j < r.value ==> !Matches(routes[j].0, path)
    ensures r.None? ==> forall j :: i <= j < |routes| ==> !Matches(routes[j].0, path)
    decreases |routes| - i
  {
    if i == |routes| then None
    else if Matches(routes[i].0, path) then Some(i)
    else FirstRoute(routes, path, i + 1)
  }

  /** `req.path`: the URL without its query. */
  function PathOf(url: string): (r: string)
    ensures '?' !in r && StartsWith(url, r)
  {
    if '?' in url then url[..FirstIndex(url, '?')] else url
  }

  /** The handler a request path reaches. */
  function RouteFor(path: string): Route {
    ROUTES[FirstRoute(ROUTES, path, 0).value].1
  }

  /** `/status` (in any case) reaches the status handler and every other path the proxy; the
      VPN report is never reached, `/vpn-status` included, because the catch-all comes first. */
  lemma {:induction false} RoutesShadowed(path: string)
    ensures RouteFor(path) == (if Matches(Exact("/status"), path) then StatusRoute else ProxyRoute)
    ensures RouteFor(path) != VpnStatusRoute
    ensures Lower(path) == "/vpn-status" ==> RouteFor(path) == ProxyRoute
  {
    var r := FirstRoute(ROUTES, path, 0);
    assert Matches(ROUTES[1].0, path);
    assert r.value <= 1;
    if Lower(path) == "/vpn-status" {
      assert |Lower(path)| == 11;
    }
  }
}
