/** The audit middleware: it notes the start instant and wraps `res.end`, so that when the
    response ends the elapsed time is stored on the response and the request is logged with
    outcome FAILED for a status of 400 or more and SUCCESS otherwise. The wrapper is the
    datatype `EndHook`; the request pipeline runs `OnEnd` right after each successful end. */
module AuditLogMiddleware {
  import opened Strings
  import Json
  import Http
  import AuditLog

  /** What the wrapped `end` remembers: the request and `Date.now()` at `use` time. */
  datatype EndHook = EndHook(req: Http.Request, startTime: int)

  /** `res.statusCode >= 400 ? 'FAILED' : 'SUCCESS'`. */
  function Outcome(statusCode: int): (r: string)
    ensures r == "FAILED" <==> statusCode >= 400
    ensures r == "SUCCESS" <==> statusCode < 400
  {
    if statusCode >= 400 then "FAILED" else "SUCCESS"
  }

  /** `use` at instant `now`: installs the hook and always calls `next`; nothing is written. */
  method Use(req: Http.Request, now: int) returns (v: Http.Verdict, hook: EndHook)
    ensures v == Http.Next && hook == EndHook(req, now)
  {
    return Http.Next, EndHook(req, now);
  }

  /** The wrapped `end` at instant `now`: the response time, then the log line; the original
      `end` itself is the caller's. */
  method OnEnd(hook: EndHook, res: Http.Response, audit: AuditLog.AuditLogAdapter, now: int, nowIso: string,
               serialize: AuditLog.AuditEntry -> string, writeFailure: Option<Http.Exception>)
    modifies res, audit
    ensures res.responseTime == Some(now - hook.startTime)
    ensures res.statusCode == old(res.statusCode) && res.headers == old(res.headers)
    ensures res.sent == old(res.sent) && res.headersSent == old(res.headersSent)
    ensures var entry := AuditLog.RequestEntry(hook.req, old(res.statusCode), Some(now - hook.startTime),
                                               Outcome(old(res.statusCode)), nowIso);
      var json := serialize(entry);
      && audit.consoleLines == old(audit.consoleLines) + (if audit.logToConsole then [AuditLog.CONSOLE_PREFIX + json] else [])
      && audit.fileLines == old(audit.fileLines) + (if audit.logToFile && writeFailure.None? then [json + "\n"] else [])
      && audit.errorLines == old(audit.errorLines)
         + (if audit.logToFile && writeFailure.Some? then [AuditLog.WRITE_ERROR_PREFIX + Http.ErrorMessage(writeFailure.value)] else [])
  {
    var responseTime := now - hook.startTime;
    res.SetResponseTime(responseTime);
    var status := if res.statusCode >= 400 then "FAILED" else "SUCCESS";
    audit.LogRequest(hook.req, res, status, nowIso, serialize, writeFailure);
  }

  /** The recorded entry of an ended response: the status text carries the outcome and the
      code, the details carry the elapsed time. */
  lemma {:induction false} LoggedEntryMeaning(hook: EndHook, statusCode: nat, now: int, nowIso: string)
    ensures var e := AuditLog.RequestEntry(hook.req, statusCode, Some(now - hook.startTime), Outcome(statusCode), nowIso);
      && StartsWith(e.status, (if statusCode >= 400 then "FAILED" else "SUCCESS") + " (")
      && DecimalValue(e.status[|Outcome(statusCode)| + 2..|e.status| - 1]) == statusCode
      && e.details.value.responseTime == Some(now - hook.startTime)
  {
    AuditLog.StatusTextReadBack(Outcome(statusCode), statusCode);
  }
}
