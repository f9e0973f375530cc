/** The proxy service: it validates the JSON body of a request (`targetUrl` plus any other
    parameters), builds the outbound request, forwards it through an HTTP client and copies the
    upstream answer back with its unsafe headers removed and four security headers added. The
    HTTP client is the parameter `upstream`, the answer (or the exception) it settles with. */
module ProxyService {
  import opened Strings
  import Json
  import Http
  import Url
  import QueryRedaction

  /** `normalizeUrl`: a URL with an http or https scheme is kept, anything else gets `https://`
      in front. */
  function NormalizeUrl(targetUrl: string): string {
    if StartsWith(targetUrl, "http://") || StartsWith(targetUrl, "https://") then targetUrl
    else "https://" + targetUrl
  }

  predicate HasWebScheme(url: string) {
    StartsWith(url, "http://") || StartsWith(url, "https://")
  }

  /** Every normalised URL carries a web scheme; a URL is left unchanged exactly when it already
      had one, and otherwise only gains the prefix; normalising twice is normalising once. */
  lemma NormalizeUrlMeaning(t: string)
    ensures HasWebScheme(NormalizeUrl(t))
    ensures NormalizeUrl(t) == t <==> HasWebScheme(t)
    ensures !HasWebScheme(t) ==> NormalizeUrl(t) == "https://" + t
    ensures NormalizeUrl(NormalizeUrl(t)) == NormalizeUrl(t)
  {
    var r := NormalizeUrl(t);
    if !HasWebScheme(t) {
      assert r[..8] == "https://";
      assert |r| != |t|;
    }
  }

  /** The longest string parameter accepted (10 KB). */
  const MAX_PARAM_LENGTH := 10000

  /** A string value whose `.length`, in UTF-16 code units, is over the limit. */
  predicate TooLong(v: Json.Value) {
    v.Str? && Utf16Length(v.s) > MAX_PARAM_LENGTH
  }

  /** Index of the first entry from `i` on whose value is a string longer than the limit. */
  function FirstLongParam(params: Json.Fields, i: nat): (r: Option<nat>)
    requires i <= |params|
    ensures r.Some? ==> i <= r.value < |params| && TooLong(params[r.value].1)
                        && forall k :: i <= k < r.value ==> !TooLong(params[k].1)
    ensures r.None? ==> forall k :: i <= k < |params| ==> !TooLong(params[k].1)
    decreases |params| - i
  {
    if i == |params| then None
    else if TooLong(params[i].1) then Some(i)
    else FirstLongParam(params, i + 1)
  }

  datatype Validation = Valid | Invalid(error: string)

  const URL_ERROR := "URL inválida"
  const PROTOCOL_ERROR := "Protocolo não permitido"
  const DOMAIN_ERROR := "Domínio não permitido"

  function LengthError(key: string): string {
    "Parâmetro '" + key + "' excede o tamanho máximo permitido"
  }

  /** `allowedDomains.some(domain => hostname.endsWith(domain))`: a plain suffix test. */
  predicate DomainAllowed(hostname: string, allowed: seq<string>) {
    exists i :: 0 <= i < |allowed| && EndsWith(hostname, allowed[i])
  }

  /** `validateInput(targetUrl, params)` with `security.allowedDomains` as `allowed`. The length
      check comes first; a `targetUrl` that is not a string makes `startsWith` throw, which the
      same `catch` turns into the URL error. */
  function ValidationOf(targetUrl: Json.Value, params: Json.Fields, allowed: seq<string>): (r: Validation)
    ensures r.Valid? ==> targetUrl.Str? && Url.Parse(NormalizeUrl(targetUrl.s)).Some?
  {
    var entries := Json.Entries(params);
    match FirstLongParam(entries, 0)
    case Some(j) => Invalid(LengthError(entries[j].0))
    case None =>
      if !targetUrl.Str? then Invalid(URL_ERROR)
      else
        var parsed := Url.Parse(NormalizeUrl(targetUrl.s));
        if parsed.None? then Invalid(URL_ERROR)
        else if parsed.value.protocol != "http:" && parsed.value.protocol != "https:" then Invalid(PROTOCOL_ERROR)
        else if |allowed| > 0 && !DomainAllowed(parsed.value.hostname, allowed) then Invalid(DOMAIN_ERROR)
        else Valid
  }

  /** `validateInput`, the loop over `Object.entries(params)` and then the URL checks. */
  method ValidateInput(targetUrl: Json.Value, params: Json.Fields, allowed: seq<string>) returns (r: Validation)
    ensures r == ValidationOf(targetUrl, params, allowed)
  {
    var entries := Json.Entries(params);
    var i := 0;
    while i < |entries|
      invariant 0 <= i <= |entries|
      invariant FirstLongParam(entries, 0) == FirstLongParam(entries, i)
    {
      var (key, value) := entries[i];
      if value.Str? && Utf16Length(value.s) > MAX_PARAM_LENGTH {
        return Invalid(LengthError(key));
      }
      i := i + 1;
    }
    if !targetUrl.Str? {
      return Invalid(URL_ERROR);
    }
    var parsed := Url.Parse(NormalizeUrl(targetUrl.s));
    if parsed.None? {
      return Invalid(URL_ERROR);
    }
    var url := parsed.value;
    if |allowed| > 0 && !(exists i :: 0 <= i < |allowed| && EndsWith(url.hostname, allowed[i])) {
      return Invalid(DOMAIN_ERROR);
    }
    return Valid;
  }

  /** The verdict in one statement: a request is valid exactly when no string parameter is too
      long, the target is a string that parses once normalised, and (when a list is configured)
      the host ends with an allowed domain. The protocol check can never fire, because every
      normalised URL that parses is http or https. */
  lemma ValidationMeaning(targetUrl: Json.Value, params: Json.Fields, allowed: seq<string>)
    ensures ValidationOf(targetUrl, params, allowed) == Valid
        <==> (forall k :: 0 <= k < |params| ==> !TooLong(params[k].1))
             && targetUrl.Str? && Url.Parse(NormalizeUrl(targetUrl.s)).Some?
             && (|allowed| > 0 ==> DomainAllowed(Url.Parse(NormalizeUrl(targetUrl.s)).value.hostname, allowed))
    ensures ValidationOf(targetUrl, params, allowed) != Invalid(PROTOCOL_ERROR)
  {
    var entries := Json.Entries(params);
    NoLongEntry(params);
    if FirstLongParam(entries, 0).Some? {
      var j := FirstLongParam(entries, 0).value;
      assert LengthError(entries[j].0) != PROTOCOL_ERROR by {
        assert LengthError(entries[j].0)[0] == 'P' && LengthError(entries[j].0)[1] == 'a';
        assert PROTOCOL_ERROR[1] == 'r';
      }
    }
  }

  /** No entry is too long exactly when no field is. */
  lemma NoLongEntry(params: Json.Fields)
    ensures FirstLongParam(Json.Entries(params), 0).None? <==> forall k :: 0 <= k < |params| ==> !TooLong(params[k].1)
  {
    var entries := Json.Entries(params);
    Json.EntriesMembers(params);
    if FirstLongParam(entries, 0).Some? {
      var j := FirstLongParam(entries, 0).value;
      assert entries[j] in params;
    } else {
      forall k | 0 <= k < |params| ensures !TooLong(params[k].1) {
        assert params[k] in entries;
      }
    }
  }

  /** The length check wins over every URL check: a too-long parameter is reported by name,
      the first one in `Object.entries` order, whatever the target. */
  lemma {:induction false} LengthCheckFirst(targetUrl: Json.Value, params: Json.Fields, allowed: seq<string>, j: nat)
    requires j < |Json.Entries(params)| && TooLong(Json.Entries(params)[j].1)
    requires forall k :: 0 <= k < j ==> !TooLong(Json.Entries(params)[k].1)
    ensures ValidationOf(targetUrl, params, allowed) == Invalid(LengthError(Json.Entries(params)[j].0))
  {
    var r := FirstLongParam(Json.Entries(params), 0);
    assert r.Some?;
    assert !(r.value < j);
    assert !(r.value > j);
  }

  /** An array-index key is checked before the keys inserted ahead of it: with two long
      parameters `b` and `1`, in that order, the error names `1`. */
  lemma IndexKeyReportedFirst(targetUrl: Json.Value, x: string, y: string, allowed: seq<string>)
    requires Utf16Length(x) > MAX_PARAM_LENGTH && Utf16Length(y) > MAX_PARAM_LENGTH
    ensures ValidationOf(targetUrl, [("b", Json.Str(x)), ("1", Json.Str(y))], allowed) == Invalid(LengthError("1"))
  {
    Json.IndexKeyFirst(Json.Str(x), Json.Str(y));
    LengthCheckFirst(targetUrl, [("b", Json.Str(x)), ("1", Json.Str(y))], allowed, 0);
  }

  lemma NoColonNoScheme(h: string)
    requires forall k :: 0 <= k < |h| ==> h[k] != ':'
    ensures !StartsWith(h, "http://") && !StartsWith(h, "https://")
  {
    if |h| >= 7 {
      assert h[..7][4] == h[4];
      assert "http://"[4] == ':';
    }
    if |h| >= 8 {
      assert h[..8][5] == h[5];
      assert "https://"[5] == ':';
    }
  }

  /** A bare host name gains the https scheme and parses to itself. */
  lemma {:induction false} PlainHostNormalized(h: string)
    requires Url.PlainHost(h)
    ensures Url.Parse(NormalizeUrl(h)) == Some(Url.ParsedUrl("https:", h, ""))
  {
    Url.PlainHostChars(h);
    NoColonNoScheme(h);
    Url.PlainHostParses(true, h, "");
    assert "https://" + h + "" == "https://" + h;
  }

  /** The domain list is matched by suffix alone, with no dot boundary: any host that merely
      ends with an allowed domain (`evilexample.com` for `example.com`) passes. */
  lemma {:induction false} SuffixIsEnough(x: string, d: string)
    requires Url.PlainHost(x + d)
    ensures ValidationOf(Json.Str(x + d), [], [d]) == Valid
  {
    var h := x + d;
    PlainHostNormalized(h);
    assert h[|h| - |d|..] == d;
    assert EndsWith(h, [d][0]);
    ValidationMeaning(Json.Str(h), [], [d]);
  }

  /** The parameter names whose values the debug log hides. */
  const SENSITIVE_KEYS: seq<string> := ["password", "senha", "token", "key", "secret", "authorization", "auth"]

  const REDACTED := "[REDACTED]"

  /** A key is sensitive when its lower-cased form contains one of the names anywhere. */
  predicate SensitiveKey(key: string) {
    exists sk :: sk in SENSITIVE_KEYS && Contains(Lower(key), sk)
  }

  /** The parameters with every sensitive value replaced, keys and order unchanged. */
  function RedactedParams(params: Json.Fields): (r: Json.Fields)
    ensures |r| == |params|
  {
    seq(|params|, i requires 0 <= i < |params| =>
      if SensitiveKey(params[i].0) then (params[i].0, Json.Str(REDACTED)) else params[i])
  }

  /** `sanitizeParams`: a copy, then the loop over its keys. */
  method SanitizeParams(params: Json.Fields) returns (sanitized: Json.Fields)
    ensures sanitized == RedactedParams(params)
  {
    sanitized := params;
    var i := 0;
    while i < |sanitized|
      invariant 0 <= i <= |sanitized| == |params|
      invariant forall k :: 0 <= k < i ==> sanitized[k] == RedactedParams(params)[k]
      invariant forall k :: i <= k < |params| ==> sanitized[k] == params[k]
    {
      var key := sanitized[i].0;
      if exists sk :: sk in SENSITIVE_KEYS && Contains(Lower(key), sk) {
        sanitized := sanitized[i := (key, Json.Str(REDACTED))];
      }
      i := i + 1;
    }
  }

  /** Sanitising keeps every key in place, hides exactly the sensitive ones, and is idempotent. */
  lemma RedactedParamsMeaning(params: Json.Fields)
    ensures var r := RedactedParams(params);
      && Json.Keys(r) == Json.Keys(params)
      && (forall i :: 0 <= i < |params| && SensitiveKey(params[i].0) ==> r[i].1 == Json.Str(REDACTED))
      && (forall i :: 0 <= i < |params| && !SensitiveKey(params[i].0) ==> r[i] == params[i])
      && RedactedParams(r) == r
  {
  }

  lemma {:induction false} ContainsAt(s: string, sub: string, i: nat)
    requires i + |sub| <= |s| && s[i..i + |sub|] == sub
    ensures Contains(s, sub)
    decreases i
  {
    if i > 0 {
      assert s[1..][i - 1..i - 1 + |sub|] == sub;
      ContainsAt(s[1..], sub, i - 1);
    }
  }

  /** Matching is by substring, after lower-casing: a key holding any spelling of a name
      anywhere, as `authToken` holds `Token` or `monkey` holds `key`, is hidden as well. */
  lemma {:induction false} SubstringKeys(a: string, w: string, b: string)
    requires Lower(w) in SENSITIVE_KEYS
    ensures SensitiveKey(a + w + b)
  {
    var s := a + w + b;
    var l := Lower(s);
    forall k | 0 <= k < |w| ensures l[|a| + k] == Lower(w)[k] {
      assert s[|a| + k] == w[k];
    }
    assert l[|a|..|a| + |w|] == Lower(w);
    ContainsAt(l, Lower(w), |a|);
  }

  /** The request headers the gateway never forwards. */
  const DROPPED_REQUEST_HEADERS: set<string> := {"host", "connection", "content-length"}

  /** `sanitizeHeaders(req.headers)`: the outbound headers. */
  function OutboundHeaders(h: Http.Headers): (r: Http.Headers)
    ensures "host" !in r && "connection" !in r && "content-length" !in r
    ensures "x-forwarded-by" in r && r["x-forwarded-by"] == "infobip-proxy"
    ensures forall k :: k in h && k !in DROPPED_REQUEST_HEADERS && k != "x-forwarded-by" ==> k in r && r[k] == h[k]
    ensures forall k :: k in r ==> (k in h && k !in DROPPED_REQUEST_HEADERS) || k == "x-forwarded-by"
  {
    (h - DROPPED_REQUEST_HEADERS)["x-forwarded-by" := "infobip-proxy"]
  }

  /** The upstream headers the gateway never copies back (matched by exact name). */
  const UNSAFE_RESPONSE_HEADERS: seq<string> := ["server", "x-powered-by", "x-aspnet-version", "x-runtime"]

  /** `sanitizeResponseHeaders`: the upstream headers, in `Object.keys` order, without the
      unsafe ones. */
  function SafeResponseHeaders(h: seq<(string, string)>): (r: seq<(string, string)>)
    ensures |r| <= |h|
    ensures forall p :: p in r <==> p in h && p.0 !in UNSAFE_RESPONSE_HEADERS
    decreases |h|
  {
    if h == [] then []
    else
      var rest := SafeResponseHeaders(h[1..]);
      assert forall p :: p in h <==> p == h[0] || p in h[1..];
      (if h[0].0 in UNSAFE_RESPONSE_HEADERS then [] else [h[0]]) + rest
  }

  /** The response headers after `res.setHeader(name, value)` for each pair in turn. */
  function Applied(hm: map<string, string>, pairs: seq<(string, string)>): map<string, string>
    decreases |pairs|
  {
    if pairs == [] then hm
    else Applied(hm, pairs[..|pairs| - 1])[Lower(pairs[|pairs| - 1].0) := pairs[|pairs| - 1].1]
  }

  /** A header no pair names keeps its old state. */
  lemma {:induction false} AppliedUntouched(hm: map<string, string>, pairs: seq<(string, string)>, k: string)
    requires forall i :: 0 <= i < |pairs| ==> Lower(pairs[i].0) != k
    ensures k in Applied(hm, pairs) <==> k in hm
    ensures k in hm ==> Applied(hm, pairs)[k] == hm[k]
    decreases |pairs|
  {
    if pairs != [] {
      var init := pairs[..|pairs| - 1];
      assert forall i :: 0 <= i < |init| ==> init[i] == pairs[i];
      AppliedUntouched(hm, init, k);
    }
  }

  /** A named header holds the value of the last pair that names it, whatever the case of the
      names. */
  lemma {:induction false} AppliedLast(hm: map<string, string>, pairs: seq<(string, string)>, k: string, i: nat)
    requires i < |pairs| && Lower(pairs[i].0) == k
    requires forall j :: i < j < |pairs| ==> Lower(pairs[j].0) != k
    ensures k in Applied(hm, pairs) && Applied(hm, pairs)[k] == pairs[i].1
    decreases |pairs|
  {
    if i < |pairs| - 1 {
      var init := pairs[..|pairs| - 1];
      assert forall j :: 0 <= j < |init| ==> init[j] == pairs[j];
      AppliedLast(hm, init, k, i);
    }
  }

  /** The four headers the gateway adds to every forwarded answer, in the order it sets them. */
  const SECURITY_HEADERS: seq<(string, string)> := [
    ("X-Proxied-By", "NestJS-Infobip-Proxy"),
    ("X-Content-Type-Options", "nosniff"),
    ("X-Frame-Options", "DENY"),
    ("Content-Security-Policy", "default-src 'none'; frame-ancestors 'none'")]

  /** The security headers are set last, so they override anything the upstream sent under
      the same names. */
  lemma SecurityHeadersWin(hm: map<string, string>, i: nat)
    requires i < |SECURITY_HEADERS|
    ensures Lower(SECURITY_HEADERS[i].0) in Applied(hm, SECURITY_HEADERS)
    ensures Applied(hm, SECURITY_HEADERS)[Lower(SECURITY_HEADERS[i].0)] == SECURITY_HEADERS[i].1
  {
    forall j | i < j < |SECURITY_HEADERS| ensures Lower(SECURITY_HEADERS[j].0) != Lower(SECURITY_HEADERS[i].0) {
      assert |SECURITY_HEADERS[j].0| != |SECURITY_HEADERS[i].0|;
    }
    AppliedLast(hm, SECURITY_HEADERS, Lower(SECURITY_HEADERS[i].0), i);
  }

  /** The filtered upstream headers set no unsafe name. */
  lemma SafeSetsNoUnsafe(upstream: seq<(string, string)>, k: string)
    requires forall p :: p in upstream ==> Lower(p.0) == p.0
    requires k in UNSAFE_RESPONSE_HEADERS
    ensures forall i :: 0 <= i < |SafeResponseHeaders(upstream)| ==> Lower(SafeResponseHeaders(upstream)[i].0) != k
  {
    var safe := SafeResponseHeaders(upstream);
    forall i | 0 <= i < |safe| ensures Lower(safe[i].0) != k {
      assert safe[i] in safe;
    }
  }

  /** No security header has an unsafe name. */
  lemma SecuritySetsNoUnsafe(n: nat)
    requires n < |UNSAFE_RESPONSE_HEADERS|
    ensures forall i :: 0 <= i < |SECURITY_HEADERS| ==> Lower(SECURITY_HEADERS[i].0) != UNSAFE_RESPONSE_HEADERS[n]
  {
    var k := UNSAFE_RESPONSE_HEADERS[n];
    forall i | 0 <= i < |SECURITY_HEADERS| ensures Lower(SECURITY_HEADERS[i].0) != k {
      var name := Lower(SECURITY_HEADERS[i].0);
      if |name| == |k| {
        assert i == 0 && n == 1;
        assert name[3] == 'r' && k[3] == 'o';
      }
    }
  }

  /** An unsafe upstream header never reaches the client: the final response holds it only if
      an earlier stage had set it, with that stage's value. Node delivers upstream header names
      in lower case. */
  lemma UnsafeHeadersNotCopied(hm: map<string, string>, upstream: seq<(string, string)>, n: nat)
    requires forall p :: p in upstream ==> Lower(p.0) == p.0
    requires n < |UNSAFE_RESPONSE_HEADERS|
    ensures var k := UNSAFE_RESPONSE_HEADERS[n];
      var final := Applied(Applied(hm, SafeResponseHeaders(upstream)), SECURITY_HEADERS);
      (k in final <==> k in hm) && (k in hm ==> final[k] == hm[k])
  {
    var k := UNSAFE_RESPONSE_HEADERS[n];
    var safe := SafeResponseHeaders(upstream);
    SafeSetsNoUnsafe(upstream, k);
    AppliedUntouched(hm, safe, k);
    SecuritySetsNoUnsafe(n);
    AppliedUntouched(Applied(hm, safe), SECURITY_HEADERS, k);
  }

  /** The four `setHeader` calls amount to applying the pairs in order. */
  lemma SecurityHeadersApplied(hm: map<string, string>)
    ensures Applied(hm, SECURITY_HEADERS)
         == hm[Lower("X-Proxied-By") := "NestJS-Infobip-Proxy"][Lower("X-Content-Type-Options") := "nosniff"]
              [Lower("X-Frame-Options") := "DENY"]
              [Lower("Content-Security-Policy") := "default-src 'none'; frame-ancestors 'none'"]
  {
    var s := SECURITY_HEADERS;
    assert s[..1][..0] == [];
    assert Applied(hm, s[..1]) == hm[Lower(s[0].0) := s[0].1];
    assert s[..2][..1] == s[..1];
    assert Applied(hm, s[..2]) == Applied(hm, s[..1])[Lower(s[1].0) := s[1].1];
    assert s[..3][..2] == s[..2];
    assert Applied(hm, s[..3]) == Applied(hm, s[..2])[Lower(s[2].0) := s[2].1];
    assert Applied(hm, s) == Applied(hm, s[..3])[Lower(s[3].0) := s[3].1];
  }

  /** The loop over `Object.keys(safeHeaders)`: each name is set in turn; a `setHeader` that
      throws once the headers are sent is caught and skipped. */
  method CopyHeaders(res: Http.Response, pairs: seq<(string, string)>)
    modifies res
    ensures res.headers == if old(res.headersSent) then old(res.headers) else Applied(old(res.headers), pairs)
    ensures res.statusCode == old(res.statusCode) && res.sent == old(res.sent)
    ensures res.headersSent == old(res.headersSent) && res.responseTime == old(res.responseTime)
  {
    var i := 0;
    while i < |pairs|
      invariant 0 <= i <= |pairs|
      invariant res.headers == if old(res.headersSent) then old(res.headers) else Applied(old(res.headers), pairs[..i])
      invariant res.statusCode == old(res.statusCode) && res.sent == old(res.sent)
      invariant res.headersSent == old(res.headersSent) && res.responseTime == old(res.responseTime)
    {
      var (name, value) := pairs[i];
      var _ := res.SetHeader(name, value);
      assert pairs[..i + 1][..i] == pairs[..i];
      i := i + 1;
    }
    assert pairs[..i] == pairs;
  }

  /** What the HTTP client settles with: an answer (its status, its headers in `Object.keys`
      order and its data), or the exception it rejects with. */
  datatype Upstream =
    | Reply(status: int, headers: seq<(string, string)>, data: Json.Value)
    | Failure(error: Http.Exception)

  /** `validateStatus`: an answer with a status outside [200, 600) is turned into axios's
      failure, whose code is undefined for those statuses. */
  function Settled(u: Upstream): (r: Upstream)
    ensures r.Reply? <==> u.Reply? && 200 <= u.status < 600
    ensures r.Reply? ==> r == u
    ensures u.Failure? ==> r == u
  {
    if u.Reply? && !(200 <= u.status < 600) then
      Failure(Http.ErrorObject("Request failed with status code " + IntToString(u.status), None, Json.Null))
    else u
  }

  /** The request configuration handed to the HTTP client. */
  datatype Outbound = Outbound(
    verb: string,
    url: string,
    headers: Http.Headers,
    data: Option<Json.Fields>,
    params: Option<Json.Fields>,
    timeout: nat,
    maxContentLength: nat,
    maxBodyLength: nat,
    rejectUnauthorized: bool)

  const TIMEOUT_MS := 30000
  const MAX_TRANSFER := 5 * 1024 * 1024

  /** The methods whose parameters travel as the body; the others send them as the query. */
  predicate CarriesBody(verb: string) {
    verb == "POST" || verb == "PUT" || verb == "PATCH"
  }

  /** A request is answered at once with 400 and a body, or forwarded. */
  datatype Plan = Reject(body: Json.Value) | Forward(request: Outbound)

  const INVALID_BODY := Json.Obj([("error", Json.Str("Requisição inválida")), ("message", Json.Str("O body deve ser um objeto JSON"))])

  const MISSING_TARGET := Json.Obj([
    ("error", Json.Str("Parâmetro obrigatório ausente")),
    ("message", Json.Str("O parâmetro \"targetUrl\" é obrigatório no body da requisição"))])

  function ValidationFailure(error: string): Json.Value {
    Json.Obj([("error", Json.Str("Validação falhou")), ("message", Json.Str(error))])
  }

  /** The fields `const { targetUrl, ...params } = req.body` sees: an array has none. */
  function BodyFields(body: Json.Value): Json.Fields {
    if body.Obj? then body.fields else []
  }

  /** The configuration built for a validated target and its parameters. */
  function OutboundFor(req: Http.Request, targetUrl: string, params: Json.Fields, isProduction: bool): Outbound {
    Outbound(
      Lower(req.verb),
      NormalizeUrl(targetUrl),
      OutboundHeaders(req.headers),
      if CarriesBody(req.verb) then Some(params) else None,
      if CarriesBody(req.verb) then None else Some(params),
      TIMEOUT_MS, MAX_TRANSFER, MAX_TRANSFER, isProduction)
  }

  /** The decisions `handleRequest` takes before it calls the client, with `nodeEnv ===
      'production'` as `isProduction`. */
  function PlanFor(req: Http.Request, allowed: seq<string>, isProduction: bool): Plan {
    if req.body.None? || !Json.Truthy(req.body.value) || !Json.IsObjectType(req.body.value) then Reject(INVALID_BODY)
    else
      var fields := BodyFields(req.body.value);
      var target := Json.Get(fields, "targetUrl");
      if target.None? || !Json.Truthy(target.value) then Reject(MISSING_TARGET)
      else
        var params := Json.Without(fields, "targetUrl");
        var v := ValidationOf(target.value, params, allowed);
        if v.Invalid? then Reject(ValidationFailure(v.error))
        else Forward(OutboundFor(req, target.value.s, params, isProduction))
  }

  /** A request is forwarded exactly when its body is an object with a truthy `targetUrl` and
      the rest passes validation. */
  lemma PlanForward(req: Http.Request, allowed: seq<string>, isProduction: bool)
    ensures PlanFor(req, allowed, isProduction).Forward?
        <==> req.body.Some? && req.body.value.Obj?
             && Json.Get(req.body.value.fields, "targetUrl").Some?
             && Json.Truthy(Json.Get(req.body.value.fields, "targetUrl").value)
             && ValidationOf(Json.Get(req.body.value.fields, "targetUrl").value,
                             Json.Without(req.body.value.fields, "targetUrl"), allowed) == Valid
  {
    if req.body.Some? && req.body.value.Obj? {
      var fields := req.body.value.fields;
      assert BodyFields(req.body.value) == fields;
      var target := Json.Get(fields, "targetUrl");
      if target.Some? && Json.Truthy(target.value) {
        var v := ValidationOf(target.value, Json.Without(fields, "targetUrl"), allowed);
        var params := Json.Without(fields, "targetUrl");
        assert Json.Get(BodyFields(req.body.value), "targetUrl") == target;
        assert PlanFor(req, allowed, isProduction)
            == if v.Invalid? then Reject(ValidationFailure(v.error)) else Forward(OutboundFor(req, target.value.s, params, isProduction));
      }
    } else if req.body.Some? && req.body.value.Arr? {
      assert Json.Get([], "targetUrl").None?;
    }
  }

  /** The outbound request goes to a parsable web URL, carries every other field (and never
      `targetUrl`) as the body or as the query depending on the method, and verifies
      certificates only in production. */
  lemma ForwardedRequest(req: Http.Request, allowed: seq<string>, isProduction: bool)
    requires PlanFor(req, allowed, isProduction).Forward?
    ensures req.body.Some? && req.body.value.Obj?
    ensures var o := PlanFor(req, allowed, isProduction).request;
      var params := Json.Without(req.body.value.fields, "targetUrl");
      && Url.Parse(o.url).Some? && HasWebScheme(o.url)
      && o.verb == Lower(req.verb) && o.headers == OutboundHeaders(req.headers)
      && (o.data == Some(params) <==> CarriesBody(req.verb))
      && (o.params == Some(params) <==> !CarriesBody(req.verb))
      && (o.data.None? || o.params.None?)
      && !Json.HasKey(params, "targetUrl")
      && o.timeout == 30000 && o.maxContentLength == o.maxBodyLength == 5242880
      && o.rejectUnauthorized == isProduction
  {
    var target := Json.Get(req.body.value.fields, "targetUrl").value;
    NormalizeUrlMeaning(target.s);
  }

  /** A missing, null, false, or non-object body is refused first; an array passes that test
      but has no `targetUrl`. */
  lemma BodyRejections(req: Http.Request, allowed: seq<string>, isProduction: bool)
    ensures req.body.None? || req.body.value.Null? || !Json.IsObjectType(req.body.value)
            ==> PlanFor(req, allowed, isProduction) == Reject(INVALID_BODY)
    ensures req.body.Some? && req.body.value.Arr? ==> PlanFor(req, allowed, isProduction) == Reject(MISSING_TARGET)
  {
  }

  const INTERNAL_ERROR := "Erro interno do servidor"
  const GENERIC_FAILURE := "Ocorreu um erro ao processar a requisição"
  const UNKNOWN_CODE := "UNKNOWN"

  /** The 500 body of the `catch`: a fixed error, the error message outside production, and
      the client's error code or "UNKNOWN". */
  function FailureBody(e: Http.Exception, isProduction: bool): Json.Value {
    var code := Http.ErrorCode(e);
    Json.Obj([
      ("error", Json.Str(INTERNAL_ERROR)),
      ("message", Json.Str(if isProduction then GENERIC_FAILURE else Http.ErrorMessage(e))),
      ("code", if Json.Truthy(code) then code else Json.Str(UNKNOWN_CODE))])
  }

  /** In production two failures with the same code are indistinguishable; elsewhere the
      message is the failure's own. A code is reported only when it is truthy: an HttpException
      or a thrown value that is not error-like always reads "UNKNOWN". */
  lemma {:induction false} FailureBodyMeaning(e1: Http.Exception, e2: Http.Exception, isProduction: bool)
    ensures isProduction && Http.ErrorCode(e1) == Http.ErrorCode(e2) ==> FailureBody(e1, true) == FailureBody(e2, true)
    ensures var f := FailureBody(e1, isProduction).fields;
      && Json.Get(f, "message") == Some(Json.Str(if isProduction then GENERIC_FAILURE else Http.ErrorMessage(e1)))
      && (!Http.IsAxiosLike(e1) || e1.HttpError? ==> Json.Get(f, "code") == Some(Json.Str(UNKNOWN_CODE)))
  {
    var f := FailureBody(e1, isProduction).fields;
    Json.GetAt(f, 1, "message");
    Json.GetAt(f, 2, "code");
  }

  /** `handleRequest(req, res)` with the client's settlement `upstream`: the outbound request it
      sends (if any) is returned. A `setHeader` or a `json`/`send` that throws because the
      headers are already sent lands in the `catch`, which then writes nothing. */
  method HandleRequest(req: Http.Request, res: Http.Response, allowed: seq<string>, isProduction: bool, upstream: Upstream)
    returns (sentRequest: Option<Outbound>)
    modifies res
    ensures res.responseTime == old(res.responseTime) && res.headersSent
    ensures PlanFor(req, allowed, isProduction).Reject? ==>
      && sentRequest == None && res.statusCode == 400 && res.headers == old(res.headers)
      && res.sent == old(res.sent) + (if old(res.headersSent) then [] else [Http.JsonBody(PlanFor(req, allowed, isProduction).body)])
    ensures PlanFor(req, allowed, isProduction).Forward? ==> sentRequest == Some(PlanFor(req, allowed, isProduction).request)
    ensures PlanFor(req, allowed, isProduction).Forward? && old(res.headersSent) ==>
      res.statusCode == old(res.statusCode) && res.headers == old(res.headers) && res.sent == old(res.sent)
    ensures PlanFor(req, allowed, isProduction).Forward? && !old(res.headersSent) && Settled(upstream).Reply? ==>
      && res.statusCode == Settled(upstream).status
      && res.headers == Applied(Applied(old(res.headers), SafeResponseHeaders(Settled(upstream).headers)), SECURITY_HEADERS)
      && res.sent == old(res.sent) + [Http.SendBody(Settled(upstream).data)]
    ensures PlanFor(req, allowed, isProduction).Forward? && !old(res.headersSent) && Settled(upstream).Failure? ==>
      && res.statusCode == 500 && res.headers == old(res.headers)
      && res.sent == old(res.sent) + [Http.JsonBody(FailureBody(Settled(upstream).error, isProduction))]
  {
    if req.body.None? || !Json.Truthy(req.body.value) || !Json.IsObjectType(req.body.value) {
      res.Status(400);
      var _ := res.End(Http.JsonBody(INVALID_BODY));
      return None;
    }
    var fields := BodyFields(req.body.value);
    var target := Json.Get(fields, "targetUrl");
    if target.None? || !Json.Truthy(target.value) {
      res.Status(400);
      var _ := res.End(Http.JsonBody(MISSING_TARGET));
      return None;
    }
    var params := Json.Without(fields, "targetUrl");
    var validation := ValidateInput(target.value, params, allowed);
    if validation.Invalid? {
      res.Status(400);
      var _ := res.End(Http.JsonBody(ValidationFailure(validation.error)));
      return None;
    }
    var fullUrl := NormalizeUrl(target.value.s);
    var config := Outbound(
      Lower(req.verb), fullUrl, OutboundHeaders(req.headers),
      if CarriesBody(req.verb) then Some(params) else None,
      if CarriesBody(req.verb) then None else Some(params),
      TIMEOUT_MS, MAX_TRANSFER, MAX_TRANSFER, isProduction);
    assert config == OutboundFor(req, target.value.s, params, isProduction);
    sentRequest := Some(config);
    Answer(res, Settled(upstream), isProduction);
  }

  /** The part of `handleRequest` after the client call has settled with `response`: a reply is
      copied without its unsafe headers and with the security headers, and the status and data
      are sent; a failure lands in the `catch`, which answers 500 unless the headers are
      already out. */
  method Answer(res: Http.Response, response: Upstream, isProduction: bool)
    modifies res
    ensures res.responseTime == old(res.responseTime) && res.headersSent
    ensures old(res.headersSent) ==>
      res.statusCode == old(res.statusCode) && res.headers == old(res.headers) && res.sent == old(res.sent)
    ensures !old(res.headersSent) && response.Reply? ==>
      && res.statusCode == response.status
      && res.headers == Applied(Applied(old(res.headers), SafeResponseHeaders(response.headers)), SECURITY_HEADERS)
      && res.sent == old(res.sent) + [Http.SendBody(response.data)]
    ensures !old(res.headersSent) && response.Failure? ==>
      && res.statusCode == 500 && res.headers == old(res.headers)
      && res.sent == old(res.sent) + [Http.JsonBody(FailureBody(response.error, isProduction))]
  {
    if response.Reply? {
      CopyHeaders(res, SafeResponseHeaders(response.headers));
      ghost var copied := res.headers;
      var ok := res.SetHeader("X-Proxied-By", "NestJS-Infobip-Proxy");
      if ok {
        ok := res.SetHeader("X-Content-Type-Options", "nosniff");
        ok := res.SetHeader("X-Frame-Options", "DENY");
        ok := res.SetHeader("Content-Security-Policy", "default-src 'none'; frame-ancestors 'none'");
        SecurityHeadersApplied(copied);
        res.Status(response.status);
        var _ := res.End(Http.SendBody(response.data));
      }
    } else if !res.headersSent {
      res.Status(500);
      var _ := res.End(Http.JsonBody(FailureBody(response.error, isProduction)));
    }
  }

  /** The query parameters the logged URL hides (any case). */
  const LOGGED_SENSITIVE_PARAMS: seq<string> := ["token", "key", "apikey", "password", "secret"]

  /** `sanitizeUrl(url)`, which cleans the URL of a failed client call before it is logged: a
      URL that parses is rewritten by the URL object, whose re-serialisation is `reserialize`;
      any other text falls back to the case-insensitive regular-expression replacement. */
  function SanitizeLoggedUrl(url: string, reserialize: string -> string): string {
    if url == "" then ""
    else if Url.Parse(url).Some? then reserialize(url)
    else QueryRedaction.Redact(url, LOGGED_SENSITIVE_PARAMS, true)
  }

  /** Every URL the gateway sends parses, so its logged form always comes from the URL object
      and never from the fallback. */
  lemma ForwardedUrlLoggedByParser(req: Http.Request, allowed: seq<string>, isProduction: bool, reserialize: string -> string)
    requires PlanFor(req, allowed, isProduction).Forward?
    ensures var url := PlanFor(req, allowed, isProduction).request.url;
      SanitizeLoggedUrl(url, reserialize) == reserialize(url)
  {
    ForwardedRequest(req, allowed, isProduction);
  }

  lemma LoggedSensitiveUnambiguous()
    ensures QueryRedaction.Unambiguous(LOGGED_SENSITIVE_PARAMS)
  {
    var s := LOGGED_SENSITIVE_PARAMS;
    assert s[0] == "token" && s[1] == "key" && s[2] == "apikey" && s[3] == "password" && s[4] == "secret";
  }

  /** The fallback ignores case: `<path>?TOKEN=<v>` and `<path>?token=<v>` alike lose the value
      and the separator, the name keeping its spelling. */
  lemma {:induction false} FallbackIgnoresCase(path: string, written: string, n: nat, v: string, rest: string,
                                               reserialize: string -> string)
    requires path == [] || (path[0] != 'h' && !Url.IsC0ControlOrSpace(path[0]))
    requires forall k :: 0 <= k < |path| ==> !QueryRedaction.IsSeparator(path[k])
    requires n < |LOGGED_SENSITIVE_PARAMS| && Lower(written) == LOGGED_SENSITIVE_PARAMS[n]
    requires '&' !in v && (rest == [] || rest[0] == '&')
    ensures SanitizeLoggedUrl(path + "?" + written + "=" + v + rest, reserialize)
         == path + written + "=" + QueryRedaction.REDACTED + QueryRedaction.Redact(rest, LOGGED_SENSITIVE_PARAMS, true)
  {
    var url := path + "?" + written + "=" + v + rest;
    assert url[0] == (if path == [] then '?' else path[0]);
    Url.NoSchemeFails(url);
    LoggedSensitiveUnambiguous();
    QueryRedaction.SeparatorDropped(path, '?', written, v, rest, LOGGED_SENSITIVE_PARAMS, true, n);
  }
}
