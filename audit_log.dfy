/** The audit log: one entry per request, written as a JSON line to the console log and/or
    appended to a file, with credentials removed from the recorded headers. `JSON.stringify`
    is the parameter `serialize`; the clock is `nowIso`; a failing file write is the parameter
    `writeFailure`, the exception `appendFileSync` would throw. */
module AuditLog {
  import opened Strings
  import Json
  import Http

  datatype Details = Details(headers: Http.Headers, query: Json.Fields, responseTime: Option<int>)

  /** `AuditLogEntry`; an absent optional member is `None`. */
  datatype AuditEntry = AuditEntry(
    timestamp: string,
    clientIp: Option<string>,
    userId: Option<string>,
    action: string,
    resource: string,
    status: string,
    details: Option<Details>)

  /** `{...entry, timestamp: entry.timestamp || now}`. */
  function Stamped(entry: AuditEntry, nowIso: string): (r: AuditEntry)
    ensures r.timestamp == (if entry.timestamp == "" then nowIso else entry.timestamp)
    ensures r.(timestamp := entry.timestamp) == entry
  {
    if entry.timestamp == "" then entry.(timestamp := nowIso) else entry
  }

  /** Stamping twice is stamping once, and an entry that already has a timestamp keeps it
      whatever the clock says. */
  lemma StampedStable(entry: AuditEntry, t1: string, t2: string)
    ensures Stamped(Stamped(entry, t1), t2) == Stamped(entry, t1) || t1 == ""
    ensures entry.timestamp != "" ==> Stamped(entry, t1) == Stamped(entry, t2) == entry
  {
  }

  const CONSOLE_PREFIX := "AUDIT: "
  const WRITE_ERROR_PREFIX := "Erro ao escrever log de auditoria: "
  const DEFAULT_LOG_FILE := "logs/audit.log"
  const REDACTED_AUTHORIZATION := "Bearer [REDACTED]"
  const REDACTED_COOKIE := "[REDACTED]"

  /** `sanitizeHeaders`: a copy in which a truthy `authorization` and a truthy `cookie` are
      replaced by fixed texts; every other header is kept. */
  function SanitizeHeaders(h: Http.Headers): (r: Http.Headers)
    ensures r.Keys == h.Keys
    ensures forall k :: k in h && k != "authorization" && k != "cookie" ==> r[k] == h[k]
    ensures "authorization" in h ==> r["authorization"] == (if h["authorization"] != "" then REDACTED_AUTHORIZATION else "")
    ensures "cookie" in h ==> r["cookie"] == (if h["cookie"] != "" then REDACTED_COOKIE else "")
  {
    var a := if Http.HeaderTruthy(h, "authorization") then h["authorization" := REDACTED_AUTHORIZATION] else h;
    if Http.HeaderTruthy(a, "cookie") then a["cookie" := REDACTED_COOKIE] else a
  }

  /** No credential reaches the log: the recorded values are the fixed texts or empty, and
      sanitising a sanitised copy changes nothing. */
  lemma SanitizeHeadersHidesCredentials(h: Http.Headers)
    ensures var r := SanitizeHeaders(h);
      && ("authorization" in r ==> r["authorization"] in {"", REDACTED_AUTHORIZATION})
      && ("cookie" in r ==> r["cookie"] in {"", REDACTED_COOKIE})
      && SanitizeHeaders(r) == r
  {
  }

  /** `${status} (${statusCode})`. */
  function StatusText(status: string, statusCode: int): string {
    status + " (" + IntToString(statusCode) + ")"
  }

  /** The recorded status reads back: the outcome is before " (", the code is the digits between
      the parentheses. */
  lemma {:induction false} StatusTextReadBack(status: string, statusCode: nat)
    ensures var t := StatusText(status, statusCode);
      var digits := t[|status| + 2..|t| - 1];
      && StartsWith(t, status + " (") && EndsWith(t, ")")
      && AllDigits(digits) && DecimalValue(digits) == statusCode
  {
    var d := IntToString(statusCode);
    var t := StatusText(status, statusCode);
    assert t == (status + " (") + d + ")";
    assert t[..|status| + 2] == status + " (";
    assert t[|status| + 2..|t| - 1] == d;
  }

  /** The entry `logRequest(req, res, status)` logs: the client address, whether the request
      carries credentials, the method, the original URL, the outcome with the status code, and
      the sanitised headers, the query and the response time. */
  function RequestEntry(req: Http.Request, statusCode: int, responseTime: Option<int>, status: string, nowIso: string): (r: AuditEntry)
    ensures r.userId == Some(if Http.HeaderTruthy(req.headers, "authorization") then "authenticated" else "anonymous")
    ensures r.clientIp == Http.ForwardedOrTransport(req) && r.timestamp == nowIso
    ensures r.details.Some? && r.details.value.headers == SanitizeHeaders(req.headers)
    ensures r.action == req.verb && r.resource == req.originalUrl
  {
    AuditEntry(
      nowIso,
      Http.ForwardedOrTransport(req),
      Some(if Http.HeaderTruthy(req.headers, "authorization") then "authenticated" else "anonymous"),
      req.verb,
      req.originalUrl,
      StatusText(status, statusCode),
      Some(Details(SanitizeHeaders(req.headers), req.query, responseTime)))
  }

  /** `value || false` / `value || default` for the settings. */
  function FlagOr(value: Option<bool>): bool {
    value.Some? && value.value
  }

  class AuditLogAdapter {
    const logToConsole: bool
    const logToFile: bool
    const logFilePath: string
    /** The console log's audit lines and error lines, and the lines appended to the file. */
    var consoleLines: seq<string>
    var errorLines: seq<string>
    var fileLines: seq<string>

    /** `logging.audit.console`, `logging.audit.file` and `logging.audit.filePath`. */
    constructor (console: Option<bool>, file: Option<bool>, filePath: Option<string>)
      ensures logToConsole == FlagOr(console) && logToFile == FlagOr(file)
      ensures logFilePath == (if filePath.Some? && filePath.value != "" then filePath.value else DEFAULT_LOG_FILE)
      ensures consoleLines == [] && errorLines == [] && fileLines == []
    {
      logToConsole := FlagOr(console);
      logToFile := FlagOr(file);
      logFilePath := if filePath.Some? && filePath.value != "" then filePath.value else DEFAULT_LOG_FILE;
      consoleLines := [];
      errorLines := [];
      fileLines := [];
    }

    /** `log(entry)`: the stamped entry goes to each enabled sink; a failed file write is
        reported on the console log and does not propagate. */
    method Log(entry: AuditEntry, nowIso: string, serialize: AuditEntry -> string, writeFailure: Option<Http.Exception>)
      modifies this
      ensures var json := serialize(Stamped(entry, nowIso));
        && consoleLines == old(consoleLines) + (if logToConsole then [CONSOLE_PREFIX + json] else [])
        && fileLines == old(fileLines) + (if logToFile && writeFailure.None? then [json + "\n"] else [])
        && errorLines == old(errorLines)
           + (if logToFile && writeFailure.Some? then [WRITE_ERROR_PREFIX + Http.ErrorMessage(writeFailure.value)] else [])
    {
      var logEntry := if entry.timestamp == "" then entry.(timestamp := nowIso) else entry;
      if logToConsole {
        consoleLines := consoleLines + [CONSOLE_PREFIX + serialize(logEntry)];
      }
      if logToFile {
        if writeFailure.None? {
          fileLines := fileLines + [serialize(logEntry) + "\n"];
        } else {
          errorLines := errorLines + [WRITE_ERROR_PREFIX + Http.ErrorMessage(writeFailure.value)];
        }
      }
    }

    /** `logRequest(req, res, status)`. */
    method LogRequest(req: Http.Request, res: Http.Response, status: string, nowIso: string,
                      serialize: AuditEntry -> string, writeFailure: Option<Http.Exception>)
      modifies this
      ensures var json := serialize(RequestEntry(req, old(res.statusCode), old(res.responseTime), status, nowIso));
        && consoleLines == old(consoleLines) + (if logToConsole then [CONSOLE_PREFIX + json] else [])
        && fileLines == old(fileLines) + (if logToFile && writeFailure.None? then [json + "\n"] else [])
        && errorLines == old(errorLines)
           + (if logToFile && writeFailure.Some? then [WRITE_ERROR_PREFIX + Http.ErrorMessage(writeFailure.value)] else [])
    {
      var entry := RequestEntry(req, res.statusCode, res.responseTime, status, nowIso);
      Log(entry, nowIso, serialize, writeFailure);
    }
  }
}
