/** The global exception filter: every exception thrown by a middleware or a handler is turned
    into one JSON error response whose status, message and code come from the exception, with
    generic messages and no details in production, and with secrets removed from the echoed
    path. Stack traces are redacted before they are logged. */
module ExceptionFilter {
  import opened Strings
  import Json
  import Http
  import QueryRedaction

  /** The query parameters whose values the echoed path hides (case-sensitive). */
  const SENSITIVE_PARAMS: seq<string> := ["token", "key", "api_key", "password", "secret"]

  /** `sanitizeUrl(url)`. */
  function SanitizeUrl(url: string): string {
    QueryRedaction.Redact(url, SENSITIVE_PARAMS, false)
  }

  lemma SensitiveParamsUnambiguous()
    ensures QueryRedaction.Unambiguous(SENSITIVE_PARAMS)
  {
    assert SENSITIVE_PARAMS[0] == "token" && SENSITIVE_PARAMS[1] == "key" && SENSITIVE_PARAMS[2] == "api_key";
    assert SENSITIVE_PARAMS[3] == "password" && SENSITIVE_PARAMS[4] == "secret";
  }

  /** A sensitive parameter loses its value and its separator: `<path>?token=<v>` becomes
      `<path>token=[REDACTED]`. */
  lemma {:induction false} SensitiveParamRedacted(path: string, n: nat, v: string, rest: string)
    requires forall k :: 0 <= k < |path| ==> !QueryRedaction.IsSeparator(path[k])
    requires n < |SENSITIVE_PARAMS| && '&' !in v && (rest == [] || rest[0] == '&')
    ensures SanitizeUrl(path + "?" + SENSITIVE_PARAMS[n] + "=" + v + rest)
         == path + SENSITIVE_PARAMS[n] + "=[REDACTED]" + SanitizeUrl(rest)
  {
    SensitiveParamsUnambiguous();
    QueryRedaction.SeparatorDropped(path, '?', SENSITIVE_PARAMS[n], v, rest, SENSITIVE_PARAMS, false, n);
    QueryRedaction.RedactedText(path + SENSITIVE_PARAMS[n], SanitizeUrl(rest));
  }

  /** Matching is case-sensitive: an upper-case name is not redacted. */
  lemma {:induction false} UpperCaseNotRedacted(path: string, v: string)
    requires forall k :: 0 <= k < |path| ==> !QueryRedaction.IsSeparator(path[k])
    requires forall k :: 0 <= k < |v| ==> !QueryRedaction.IsSeparator(v[k])
    ensures SanitizeUrl(path + "?TOKEN=" + v) == path + "?TOKEN=" + v
  {
    SensitiveParamsUnambiguous();
    var q := ['?'] + "TOKEN" + "=" + v + "";
    forall m | 0 <= m < |SENSITIVE_PARAMS| ensures !QueryRedaction.Spells("TOKEN", SENSITIVE_PARAMS[m], false) {
      assert "TOKEN"[0] != SENSITIVE_PARAMS[m][0] || |SENSITIVE_PARAMS[m]| != 5;
    }
    calc {
      SanitizeUrl(path + "?TOKEN=" + v);
      { assert path + "?TOKEN=" + v == path + q; }
      QueryRedaction.Redact(path + q, SENSITIVE_PARAMS, false);
      { QueryRedaction.PlainPrefix(path, q, SENSITIVE_PARAMS, false); }
      path + QueryRedaction.Redact(q, SENSITIVE_PARAMS, false);
      { QueryRedaction.KeptParam('?', "TOKEN", v, "", SENSITIVE_PARAMS, false); }
      path + (['?'] + "TOKEN" + "=" + v + QueryRedaction.Redact("", SENSITIVE_PARAMS, false));
      path + (['?'] + "TOKEN" + "=" + v + "");
      { assert ['?'] + "TOKEN" + "=" + v + "" == "?TOKEN=" + v; }
      path + ("?TOKEN=" + v);
    }
  }

  lemma {:induction false} OrdinaryParamKept(c: string)
    requires forall k :: 0 <= k < |c| ==> !QueryRedaction.IsSeparator(c[k])
    ensures SanitizeUrl("&" + "normal" + "=" + c) == "&" + "normal" + "=" + c
  {
    SensitiveParamsUnambiguous();
    forall m | 0 <= m < |SENSITIVE_PARAMS| ensures !QueryRedaction.Spells("normal", SENSITIVE_PARAMS[m], false) {
      assert "normal"[0] != SENSITIVE_PARAMS[m][0];
    }
    QueryRedaction.KeptParam('&', "normal", c, "", SENSITIVE_PARAMS, false);
    QueryRedaction.NoSeparatorUnchanged("", SENSITIVE_PARAMS, false);
    var kept := ['&'] + "normal" + "=" + c;
    assert kept + "" == kept;
  }

  /** The URL of the test for the filter (`<path>?token=<a>&key=<b>&normal=<c>`), with any path
      and values: both secrets go with their separators, and the ordinary parameter stays. */
  lemma {:induction false} TwoSecretsRedacted(path: string, a: string, b: string, c: string)
    requires forall k :: 0 <= k < |path| ==> !QueryRedaction.IsSeparator(path[k])
    requires '&' !in a && '&' !in b
    requires forall k :: 0 <= k < |c| ==> !QueryRedaction.IsSeparator(c[k])
    ensures SanitizeUrl(path + "?" + "token" + "=" + a + ("&" + "key" + "=" + b + ("&" + "normal" + "=" + c)))
         == path + "token" + "=" + "[REDACTED]" + ("key" + "=" + "[REDACTED]" + ("&" + "normal" + "=" + c))
  {
    SensitiveParamsUnambiguous();
    var third := "&" + "normal" + "=" + c;
    OrdinaryParamKept(c);
    QueryRedaction.RedactedParam('&', "key", b, third, SENSITIVE_PARAMS, false, 1);
    var second := "&" + "key" + "=" + b + third;
    QueryRedaction.SeparatorDropped(path, '?', "token", a, second, SENSITIVE_PARAMS, false, 0);
  }

  /** `\w`. */
  predicate IsWordChar(c: char) {
    ('a' <= c <= 'z') || ('A' <= c <= 'Z') || ('0' <= c <= '9') || c == '_'
  }

  /** End of a match of `(\w:\\[^:]+)|(\/[^:]+)` at `i`, the drive form tried first. */
  function PathMatchAt(s: string, i: nat): (r: Option<nat>)
    ensures r.Some? ==> i < r.value <= |s| && (r.value < |s| ==> s[r.value] == ':')
  {
    if i + 3 < |s| && IsWordChar(s[i]) && s[i + 1] == ':' && s[i + 2] == '\\' && s[i + 3] != ':' then
      Some(RunEnd(s, i + 3, ':'))
    else if i + 1 < |s| && s[i] == '/' && s[i + 1] != ':' then Some(RunEnd(s, i + 1, ':'))
    else None
  }

  /** The leftmost match from `from` on, as (start, end). */
  function FirstPathMatch(s: string, from: nat): (r: Option<(nat, nat)>)
    requires from <= |s|
    ensures r.Some? ==> from <= r.value.0 < |s| && PathMatchAt(s, r.value.0) == Some(r.value.1)
    ensures r.Some? ==> forall j :: from <= j < r.value.0 ==> PathMatchAt(s, j).None?
    ensures r.None? ==> forall j :: from <= j < |s| ==> PathMatchAt(s, j).None?
    decreases |s| - from
  {
    if from == |s| then None
    else match PathMatchAt(s, from)
      case Some(e) => Some((from, e))
      case None => FirstPathMatch(s, from + 1)
  }

  /** `line.replace(/(\w:\\[^:]+)|(\/[^:]+)/, '[REDACTED]')`: the first match only. */
  function RedactLine(line: string): (r: string)
    ensures '\n' !in line ==> '\n' !in r
  {
    match FirstPathMatch(line, 0)
    case None => line
    case Some((i, e)) =>
      assert forall k :: 0 <= k < |line[e..]| ==> line[e..][k] == line[e + k];
      line[..i] + QueryRedaction.REDACTED + line[e..]
  }

  /** The redaction of one line: a line with no path is unchanged; otherwise the text before
      the first path is kept, holds no path itself, and what follows the redaction starts at a
      ':' (or is empty). */
  lemma RedactLineMeaning(line: string)
    ensures FirstPathMatch(line, 0).None? ==> RedactLine(line) == line
    ensures FirstPathMatch(line, 0).Some? ==>
      var (i, e) := FirstPathMatch(line, 0).value;
      && 0 <= i < e <= |line|
      && RedactLine(line) == line[..i] + "[REDACTED]" + line[e..]
      && (forall j :: 0 <= j < i ==> PathMatchAt(line, j).None?)
      && (e == |line| || line[e] == ':')
  {
    if FirstPathMatch(line, 0).Some? {
      var (i, e) := FirstPathMatch(line, 0).value;
      assert PathMatchAt(line, i) == Some(e);
      assert QueryRedaction.REDACTED == "[REDACTED]";
    }
  }

  /** `sanitizeStackTrace(stack)`: undefined (and the empty stack) stays undefined; otherwise
      each line is redacted and the lines are joined again. */
  function SanitizeStackTrace(stack: Option<string>): (r: Option<string>)
    ensures r.Some? <==> stack.Some? && stack.value != ""
  {
    if stack.None? || stack.value == "" then None
    else
      var lines := Split(stack.value, '\n');
      Some(Join(RedactLines(lines), "\n"))
  }

  function RedactLines(lines: seq<string>): (r: seq<string>)
    ensures |r| == |lines| && forall k :: 0 <= k < |r| ==> r[k] == RedactLine(lines[k])
  {
    seq(|lines|, k requires 0 <= k < |lines| => RedactLine(lines[k]))
  }

  /** The sanitised trace has exactly as many lines as the trace, line k being line k
      redacted. */
  lemma {:induction false} StackTraceLines(stack: string)
    requires stack != ""
    ensures var r := SanitizeStackTrace(Some(stack)).value;
      var before := Split(stack, '\n');
      var after := Split(r, '\n');
      |after| == |before| && forall k :: 0 <= k < |after| ==> after[k] == RedactLine(before[k])
  {
    var lines := Split(stack, '\n');
    var red := RedactLines(lines);
    forall k | 0 <= k < |red| ensures '\n' !in red[k] {
      assert '\n' !in lines[k];
    }
    SplitJoin(red, '\n');
  }

  /** The default message and code. */
  const DEFAULT_MESSAGE := "Erro interno do servidor"
  const DEFAULT_CODE := "INTERNAL_ERROR"
  const FALLBACK_PUBLIC_MESSAGE := "Ocorreu um erro ao processar a requisição"

  /** `getPublicErrorMessage(status, _)`: the production table; the message is ignored. */
  function PublicMessage(status: int): (r: string)
    ensures status !in {400, 401, 403, 404, 429, 500, 502, 504} ==> r == FALLBACK_PUBLIC_MESSAGE
  {
    if status == 400 then "Requisição inválida"
    else if status == 401 then "Não autorizado"
    else if status == 403 then "Acesso negado"
    else if status == 404 then "Recurso não encontrado"
    else if status == 429 then "Muitas requisições"
    else if status == 500 then DEFAULT_MESSAGE
    else if status == 502 then "Erro de comunicação com serviço externo"
    else if status == 504 then "Tempo limite excedido"
    else FALLBACK_PUBLIC_MESSAGE
  }

  /** The status: an HttpException's own, else 500. */
  function StatusOf(e: Http.Exception): int {
    if e.HttpError? then e.status else 500
  }

  /** `field || fallback` for a field of an object response. */
  function TruthyField(f: Json.Fields, k: string, fallback: string): (r: Json.Value)
    ensures Json.Get(f, k).Some? && Json.Truthy(Json.Get(f, k).value) ==> r == Json.Get(f, k).value
    ensures !(Json.Get(f, k).Some? && Json.Truthy(Json.Get(f, k).value)) ==> r == Json.Str(fallback)
  {
    var v := Json.Get(f, k);
    if v.Some? && Json.Truthy(v.value) then v.value else Json.Str(fallback)
  }

  /** The message before the production table: a truthy `message` of an object response, the
      string of a string response, else the default. */
  function MessageOf(e: Http.Exception): Json.Value {
    match e
    case HttpError(_, Object(f), _) => TruthyField(f, "message", DEFAULT_MESSAGE)
    case HttpError(_, Text(t), _) => Json.Str(t)
    case _ => Json.Str(DEFAULT_MESSAGE)
  }

  /** The code: a truthy `error` of an object response, else the default. */
  function CodeOf(e: Http.Exception): Json.Value {
    match e
    case HttpError(_, Object(f), _) => TruthyField(f, "error", DEFAULT_CODE)
    case _ => Json.Str(DEFAULT_CODE)
  }

  /** The response body; `details` is present only outside production, and only for an Error
      (JSON drops the `undefined` it holds otherwise). */
  function ErrorBody(e: Http.Exception, isProduction: bool, url: string, nowIso: string): Json.Value {
    var status := StatusOf(e);
    Json.Obj([
      ("statusCode", Json.Num(status)),
      ("timestamp", Json.Str(nowIso)),
      ("path", Json.Str(SanitizeUrl(url))),
      ("message", if isProduction then Json.Str(PublicMessage(status)) else MessageOf(e)),
      ("code", CodeOf(e))]
      + (if !isProduction && Http.IsError(e) then [("details", Json.Str(e.message))] else []))
  }

  /** Anything but an HttpException is a 500 with the default message and code. */
  lemma NonHttpExceptionIsInternal(e: Http.Exception, url: string, nowIso: string)
    requires !e.HttpError?
    ensures StatusOf(e) == 500 && MessageOf(e) == Json.Str(DEFAULT_MESSAGE) && CodeOf(e) == Json.Str(DEFAULT_CODE)
    ensures Json.Get(ErrorBody(e, false, url, nowIso).fields, "message") == Some(Json.Str(DEFAULT_MESSAGE))
  {
    Json.GetAt(ErrorBody(e, false, url, nowIso).fields, 3, "message");
  }

  /** In production the body does not depend on the exception's message or details: two
      exceptions with the same status and code give the same body, and it has no `details`. */
  lemma {:induction false} ProductionHidesMessages(e1: Http.Exception, e2: Http.Exception, url: string, nowIso: string)
    requires StatusOf(e1) == StatusOf(e2) && CodeOf(e1) == CodeOf(e2)
    ensures ErrorBody(e1, true, url, nowIso) == ErrorBody(e2, true, url, nowIso)
    ensures !Json.HasKey(ErrorBody(e1, true, url, nowIso).fields, "details")
  {
    var f := ErrorBody(e1, true, url, nowIso).fields;
    assert Json.Keys(f) == ["statusCode", "timestamp", "path", "message", "code"];
  }

  /** Outside production, `details` appears exactly for an Error and holds its message. */
  lemma {:induction false} DevelopmentDetails(e: Http.Exception, url: string, nowIso: string)
    ensures Json.HasKey(ErrorBody(e, false, url, nowIso).fields, "details") <==> Http.IsError(e)
    ensures Http.IsError(e) ==> Json.Get(ErrorBody(e, false, url, nowIso).fields, "details") == Some(Json.Str(e.message))
  {
    var f := ErrorBody(e, false, url, nowIso).fields;
    if Http.IsError(e) {
      assert Json.Keys(f) == ["statusCode", "timestamp", "path", "message", "code", "details"];
    } else {
      assert Json.Keys(f) == ["statusCode", "timestamp", "path", "message", "code"];
    }
  }

  class AllExceptionsFilter {
    const isProduction: bool

    /** `nodeEnv` is read once, here. */
    constructor (nodeEnv: Option<string>)
      ensures isProduction == (nodeEnv == Some("production"))
    {
      isProduction := nodeEnv == Some("production");
    }

    /** `catch(exception, host)`: one `status(s).json(body)`. */
    method Catch(e: Http.Exception, req: Http.Request, res: Http.Response, nowIso: string)
      modifies res
      ensures res.statusCode == StatusOf(e)
      ensures res.sent == old(res.sent) + (if old(res.headersSent) then [] else [Http.JsonBody(ErrorBody(e, isProduction, req.url, nowIso))])
      ensures res.headersSent && res.headers == old(res.headers) && res.responseTime == old(res.responseTime)
    {
      var status := if e.HttpError? then e.status else 500;
      var body := ErrorBody(e, isProduction, req.url, nowIso);
      res.Status(status);
      var ok := res.End(Http.JsonBody(body));
    }
  }
}
