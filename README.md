# A verified model of the NestJS request gateway

The gateway is a NestJS application that forwards arbitrary HTTP requests to a target URL
named in the JSON body (`targetUrl`). This project models its request pipeline in Dafny and
proves properties of that model.

## The pipeline

Each request passes these stages in order:

1. **Upload parser.** A middleware turns a `multipart/form-data` request into files and text
   fields. It enforces fixed limits and an allow-list of MIME types.
2. **Audit hook.** A middleware wraps `res.end`. When the response ends, the hook stores the
   elapsed time and writes one audit entry: to the console log, to an append-only file, or both.
3. **Rate limiter.** A fixed-window limiter keyed by the client address. It always reports its
   three `X-RateLimit-*` headers and answers `429` once the quota is spent.
4. **IP filter.** It finds the client address, from the proxy headers or from the connection, and
   asks the allow-list service whether that address is allowed: an exact match, or membership in
   a CIDR prefix. A refusal throws the `403` that the global exception filter renders.
5. **Controller and proxy service.** A status route, and a catch-all route that does the
   proxying:
   - validate the body and the target URL (length limit, scheme, domain suffix list);
   - build the outbound request;
   - on a reply, copy back the upstream headers except four unsafe ones, add four security
     headers and relay the status and body;
   - on a failure, answer 500, with a generic message in production.

Every exception thrown by a stage is rendered by the global exception filter. It redacts
sensitive query parameters from the echoed path and file paths from logged stack traces. In
production it replaces messages with a fixed table of public texts.

The model also covers the file upload service, the in-memory TTL cache, the upload parser's
error messages and the controller's route table. Of these:

- the upload service is registered with the application but no request path calls it;
- the cache is registered but never used.

## How the model is organised

There is one module per core source file, plus three shared modules:

- `Strings`: the JavaScript string methods that are used;
- `Json`: JavaScript values, truthiness and `String(v)`;
- `Http`: an Express request as a datatype, and the response as a class with a status, headers,
  sent bodies, `headersSent` and the audit hook's `responseTime`.

Stateful objects are classes whose methods are proved against specification functions:

- the rate limiter's map, the cache's map, the audit sinks;
- the middleware consumer, the allow-list service, the exception filter;
- the running `Gateway`.

Loops in the source are `while` loops with invariants:

- `validateInput`, `sanitizeParams` and `createFormData`;
- the sweep of expired entries, `isIpAllowed` and `getIpValidationInfo`;
- `processBase64Files`, the IP header search and the header copy.

Parameters stand in for everything else:

- clocks: `now` in milliseconds, `nowIso` for ISO timestamps;
- `JSON.stringify`, the base64 decoder and the URL re-serialiser;
- the HTTP client's settlement, the multipart parser's report and the VPN probe.

In these places the code behaves differently from what its comments and names suggest; the model follows the code:

- An upload rejected by the multipart parser is answered before the audit hook is installed. It
  is therefore neither audited nor counted against the rate limit.
- `processBase64Files` and `createFormData` are never called when a request is forwarded. The
  request is forwarded with its JSON body alone.
- Every failure of the upstream call is answered with status 500, whatever its cause.
- A status outside [200, 600) counts as a failure. Every other upstream status is relayed.
- The `/vpn-status` route is never reached, because the catch-all route is registered before it
  (`ProxyController.RoutesShadowed`).

## Model

| member | source | states |
|---|---|---|
| AppModule.MiddlewareConsumer.constructor | src/app.module.ts:72 | A fresh consumer has no registrations. |
| AppModule.MiddlewareConsumer.Apply | src/app.module.ts:75-77 | `apply(...).forRoutes(...)` appends exactly one registration and keeps the earlier ones. |
| AppModule.Registrations | src/app.module.ts:72-95 | One registration per stage in stage order, each for path `*` and all methods. |
| AppModule.Configure | src/app.module.ts:72-95 | `configure` appends exactly those registrations to the consumer. |
| AppModule.StageOrder | src/app.module.ts:73-94 | The stages are upload parser, audit hook and rate limiter. The IP filter comes fourth, and is present exactly when `security.enableIpWhitelist` is on. No stage repeats. |
| AppModule.AfterQuota | src/app.module.ts:89-94 | Past the rate limiter, a request is answered either by the IP filter or by the controller. |
| AppModule.AnsweredBy | src/app.module.ts:72-95 | Definition: the first stage that answers — a failed multipart upload, then a spent quota, then the IP filter (when on), else the controller. `Gateway.HandleHttp` is proved to answer by it. |
| AppModule.ForbiddenMessageAndCode | src/presentation/filters/exception.filter.ts:34-44 | The IP filter's exception renders as message "Acesso negado" with code "IP não autorizado". |
| AppModule.ForbiddenRendering | src/presentation/filters/exception.filter.ts:61-77 | The rendered 403 body has `statusCode` 403, the message "Acesso negado" and the code "IP não autorizado", in production and in development. |
| AppModule.Gateway.constructor | src/app.module.ts:34-48 | The application is wired from its configuration and its providers. |
| AppModule.Gateway.Admit | src/app.module.ts:89-94 | After the quota check, the IP filter decides, or the controller answers. The response is sent, and the client receives what the answering stage delivers. |
| AppModule.Gateway.Gate | src/app.module.ts:84-94 | The rate limiter counts the request (the new map is `AfterCheck` of the old), then the later stages run. Exactly one answer is delivered. |
| AppModule.Gateway.Serve | src/app.module.ts:79-94 | From the audit hook on: quota, filter and controller as in `Gate`. After the response ends, the elapsed time is stored and exactly one audit line goes to each enabled sink, built from the final status. |
| AppModule.Gateway.HandleHttp | src/app.module.ts:72-95 | The whole pipeline. A failed upload gets the 400 upload body and leaves the quota and the audit sinks untouched. Every other request is counted, gated and delivered as `Serve` states. |
| AuditLog.Stamped | src/infrastructure/adapters/audit-log.adapter.ts:41-45 | The timestamp is filled in only when it is empty. Every other field is kept. |
| AuditLog.StampedStable | src/infrastructure/adapters/audit-log.adapter.ts:41-45 | Stamping is idempotent. An entry that already has a timestamp is unchanged by any stamp. |
| AuditLog.SanitizeHeaders | src/infrastructure/adapters/audit-log.adapter.ts:87-100 | Same header names. A truthy `authorization` or `cookie` value is replaced by its fixed text. Every other header is copied. |
| AuditLog.SanitizeHeadersHidesCredentials | src/infrastructure/adapters/audit-log.adapter.ts:87-100 | No credential value survives, and sanitising twice is sanitising once. |
| AuditLog.StatusTextReadBack | src/infrastructure/adapters/audit-log.adapter.ts:78 | `"<status> (<code>)"` reads back: the status comes before " (", and the digits before ')' have the code as their value. |
| AuditLog.StatusText | src/infrastructure/adapters/audit-log.adapter.ts:78 | Definition: `${status} (${statusCode})`; `StatusTextReadBack` states that both parts read back. |
| AuditLog.RequestEntry | src/infrastructure/adapters/audit-log.adapter.ts:64-85 | The entry records the client address (`x-forwarded-for`, else `req.ip \|\| remoteAddress`, which may be ""), whether an authorization was sent, the method, the original URL and the sanitised headers. |
| AuditLog.AuditLogAdapter.constructor | src/infrastructure/adapters/audit-log.adapter.ts:23-39 | The console and file flags default to off. The file path defaults to `logs/audit.log`. |
| AuditLog.AuditLogAdapter.Log | src/infrastructure/adapters/audit-log.adapter.ts:41-62 | The stamped entry adds one console line `AUDIT: <json>` when the console is on. When the file is on, a successful write appends `<json>\n` and a failed write adds one error line instead. |
| AuditLog.AuditLogAdapter.LogRequest | src/infrastructure/adapters/audit-log.adapter.ts:64-85 | The same sink effects, for the entry built from the request and the response. |
| AuditLogMiddleware.Outcome | src/presentation/middlewares/audit-log.middleware.ts:24 | FAILED exactly for a status of 400 or more, SUCCESS otherwise. |
| AuditLogMiddleware.Use | src/presentation/middlewares/audit-log.middleware.ts:11-32 | Always calls `next`. The hook remembers the request and the start time. |
| AuditLogMiddleware.OnEnd | src/presentation/middlewares/audit-log.middleware.ts:18-29 | The response gets `responseTime = now - start`, and one entry is logged with the outcome of the response's status. Nothing else on the response changes. |
| AuditLogMiddleware.LoggedEntryMeaning | src/presentation/middlewares/audit-log.middleware.ts:18-25 | The logged status text starts with the outcome, its digits read back as the status code, and the details carry the elapsed time. |
| Cache.Ttl | src/infrastructure/adapters/cache.adapters.ts:7-9 | An omitted TTL is ten minutes. A given TTL is used as is, even 0. |
| Cache.Stored | src/infrastructure/adapters/cache.adapters.ts:9-15 | Definition: the map after `set`, the entry expiring at `now + ttl`; `SetThenRead`, `SetOverwrites` and `SetLeavesOthers` state its effect. |
| Cache.Read | src/infrastructure/adapters/cache.adapters.ts:17-32 | Definition: the stored data while its expiry is not earlier than `now`, else `null`; `SetThenRead` and `StoredNullReadsAbsent` state its cases. |
| Cache.Evicted | src/infrastructure/adapters/cache.adapters.ts:24-28 | Definition: the map after `get`, an expired entry deleted; `EvictionUnobservable` states that this changes no later read. |
| Cache.SetThenRead | src/infrastructure/adapters/cache.adapters.ts:9-32 | A value set at `now` reads back until `now + ttl` inclusive, and as null afterwards. |
| Cache.SetOverwrites | src/infrastructure/adapters/cache.adapters.ts:9-15 | A second `set` under the same key erases every trace of the first. |
| Cache.SetLeavesOthers | src/infrastructure/adapters/cache.adapters.ts:9-15 | `set` does not change what any other key reads. |
| Cache.EvictionUnobservable | src/infrastructure/adapters/cache.adapters.ts:24-28 | The deletion of an expired entry by `get` changes no later read. |
| Cache.StoredNullReadsAbsent | src/infrastructure/adapters/cache.adapters.ts:34-36 | A stored null reads exactly like a miss, so `has` cannot tell them apart. |
| Cache.CacheAdapter.constructor | src/infrastructure/adapters/cache.adapters.ts:6 | The cache starts empty. |
| Cache.CacheAdapter.Set | src/infrastructure/adapters/cache.adapters.ts:9-15 | The new map is `Stored` of the old one. |
| Cache.CacheAdapter.Get | src/infrastructure/adapters/cache.adapters.ts:17-32 | Returns the live value or null, and deletes the key exactly when its entry has expired. |
| Cache.CacheAdapter.Has | src/infrastructure/adapters/cache.adapters.ts:34-36 | True exactly when `get` would return non-null, with the same eviction. |
| Cache.CacheAdapter.Delete | src/infrastructure/adapters/cache.adapters.ts:38-41 | Only that key is removed. |
| Cache.CacheAdapter.Clear | src/infrastructure/adapters/cache.adapters.ts:43-46 | The map is emptied. |
| Cache.FalsyBodiesCollide | src/infrastructure/adapters/cache.adapters.ts:49-52 | Every falsy body gives the same key as no body: `method:url:`. |
| Cache.GenerateKey | src/infrastructure/adapters/cache.adapters.ts:49-52 | Definition: `${method}:${url}:` and the serialised body when it is truthy; `FalsyBodiesCollide`, `KeyDeterminesMethod` and `KeysAmbiguous` state its properties. |
| Cache.KeyDeterminesMethod | src/infrastructure/adapters/cache.adapters.ts:49-52 | For methods without ':', equal keys imply equal methods. |
| Cache.KeysAmbiguous | src/infrastructure/adapters/cache.adapters.ts:49-52 | Distinct method and URL pairs can share a key when ':' moves between them. |
| ExceptionFilter.SensitiveParamsUnambiguous | src/presentation/filters/exception.filter.ts:83 | The five alternatives of the pattern are distinct and hold no '='. |
| ExceptionFilter.SanitizeUrl | src/presentation/filters/exception.filter.ts:80-86 | Definition: the global case-sensitive replacement of the five names; `SensitiveParamRedacted`, `UpperCaseNotRedacted`, `OrdinaryParamKept` and `TwoSecretsRedacted` state what it does. |
| ExceptionFilter.SensitiveParamRedacted | src/presentation/filters/exception.filter.ts:80-86 | `<path>?<name>=<v><rest>` becomes `<path><name>=[REDACTED]` followed by the sanitised rest. The value and the separator are dropped. |
| ExceptionFilter.UpperCaseNotRedacted | src/presentation/filters/exception.filter.ts:82-85 | The pattern has no `i` flag: `?TOKEN=<v>` is left as it is. |
| ExceptionFilter.OrdinaryParamKept | src/presentation/filters/exception.filter.ts:82-85 | A parameter that is not sensitive is copied unchanged. |
| ExceptionFilter.TwoSecretsRedacted | test/unit/presentation/filters/exception.filter.spec.ts:125-136 | `?token=a&key=b&normal=c`: both secrets lose their values and `normal=c` survives. |
| ExceptionFilter.PathMatchAt | src/presentation/filters/exception.filter.ts:94 | A match of the path pattern at a position ends after it, at a ':' or at the end. |
| ExceptionFilter.FirstPathMatch | src/presentation/filters/exception.filter.ts:94 | The leftmost match: no match starts earlier. |
| ExceptionFilter.RedactLine | src/presentation/filters/exception.filter.ts:94 | Redacting a line introduces no line break. |
| ExceptionFilter.RedactLineMeaning | src/presentation/filters/exception.filter.ts:94 | A line without a path is unchanged. Otherwise only the leftmost match is replaced by `[REDACTED]`, and the text before and after it is kept. |
| ExceptionFilter.SanitizeStackTrace | src/presentation/filters/exception.filter.ts:88-96 | Undefined and empty traces give undefined. Every other trace gives a string. |
| ExceptionFilter.RedactLines | src/presentation/filters/exception.filter.ts:92-95 | The `map` keeps the number of lines and redacts each one. |
| ExceptionFilter.StackTraceLines | src/presentation/filters/exception.filter.ts:88-96 | The sanitised trace has as many lines as the trace, and line k is line k redacted. |
| ExceptionFilter.PublicMessage | src/presentation/filters/exception.filter.ts:98-117 | A status outside the table of eight gives the fallback message. |
| ExceptionFilter.TruthyField | src/presentation/filters/exception.filter.ts:38-40 | `field \|\| fallback`: a truthy field is kept, anything else falls back. |
| ExceptionFilter.StatusOf | src/presentation/filters/exception.filter.ts:30-35 | Definition: the status of an HttpException, else 500; `NonHttpExceptionIsInternal` states the second case. |
| ExceptionFilter.MessageOf | src/presentation/filters/exception.filter.ts:31-43 | Definition: a truthy `message` of an object response, the text of a string response, else the default; its cases are `TruthyField`'s. |
| ExceptionFilter.CodeOf | src/presentation/filters/exception.filter.ts:32-40 | Definition: a truthy `error` of an object response, else "INTERNAL_ERROR". |
| ExceptionFilter.ErrorBody | src/presentation/filters/exception.filter.ts:61-75 | Definition: the response body; `ProductionHidesMessages` and `DevelopmentDetails` state its production and development forms. |
| ExceptionFilter.NonHttpExceptionIsInternal | src/presentation/filters/exception.filter.ts:30-44 | Anything but an HttpException is a 500 with the default message and code. |
| ExceptionFilter.ProductionHidesMessages | src/presentation/filters/exception.filter.ts:61-75 | In production, two exceptions with the same status and code give identical bodies, and there are no `details`. |
| ExceptionFilter.DevelopmentDetails | src/presentation/filters/exception.filter.ts:69-74 | Outside production, `details` is present exactly for an Error and holds its message. |
| ExceptionFilter.AllExceptionsFilter.constructor | src/presentation/filters/exception.filter.ts:17-19 | Production is exactly `nodeEnv === 'production'`. |
| ExceptionFilter.AllExceptionsFilter.Catch | src/presentation/filters/exception.filter.ts:21-78 | Sets the exception's status. The body is sent when the response is still open, and the response is then ended. |
| FileUpload.Extension | src/application/services/file-upload.service.ts:72-74 | With a '.', the extension is the lower-cased text from the last '.' on. Without one, `substring(-1)` is the whole lower-cased name. |
| FileUpload.ValidateFile | src/application/services/file-upload.service.ts:35-84 | Valid exactly when the size, the type, the name length and the extension all pass. A failure reports the first check that fails, with its own message; the extension failure names the lower-cased extension. |
| FileUpload.NameWithoutDotRejected | src/application/services/file-upload.service.ts:61-81 | A name without '.' never passes. |
| FileUpload.ExactlyMaxSizeAccepted | src/application/services/file-upload.service.ts:37-42 | Exactly 5 MiB passes, and so does an empty file: there is no lower bound. |
| FileUpload.ReportPdfValid | src/application/services/file-upload.service.ts:35-84 | A `report.pdf` of type `application/pdf` passes whenever it is at most 5 MiB. |
| FileUpload.OversizeRejected | src/application/services/file-upload.service.ts:37-42 | A 6 MiB PNG is rejected with the size message. |
| FileUpload.ExecutableRejected | src/application/services/file-upload.service.ts:45-50 | An executable is rejected with its type in the message. |
| FileUpload.GetExtensionFromMimeType | src/application/services/file-upload.service.ts:250-265 | A listed type maps to an allowed extension. A key that an object literal inherits from `Object.prototype` maps to the text of that member. Anything else maps to `.bin`. |
| FileUpload.LastDotOfSuffix | src/application/services/file-upload.service.ts:74 | The last '.' of a dot-free stem followed by an extension is the extension's own '.'. |
| FileUpload.LowerSuffix | src/application/services/file-upload.service.ts:72-74 | Lower-casing commutes with taking a suffix. |
| FileUpload.ExtensionOfSuffix | src/application/services/file-upload.service.ts:72-74 | A dot-free stem followed by an extension has that extension, lower-cased. |
| FileUpload.BinNotAllowed | src/application/services/file-upload.service.ts:61-71 | `.bin` is not an allowed extension. |
| FileUpload.GeneratedNameExtension | src/application/services/file-upload.service.ts:213-219 | A generated name whose extension text has a '.' carries exactly that extension. For an inherited-member type the name has no '.' at all, so its whole lower-cased text is its extension. The name passes the extension check exactly when the type is allowed. |
| FileUpload.GeneratedName | src/application/services/file-upload.service.ts:213-218 | Definition: `arquivo_<ms><ext>` with the extension of the type; `GeneratedNameExtension` and `ConstructorTypeName` state what it yields. |
| FileUpload.ConstructorTypeName | src/application/services/file-upload.service.ts:213-218 | A data URL of type `constructor` gets a name ending in `function Object() { [native code] }`. |
| FileUpload.MimeToExtTable | src/application/services/file-upload.service.ts:250-264 | Each of the table's nine types gets the extension the table pairs it with. |
| FileUpload.ExtensionShape | src/application/services/file-upload.service.ts:250-264 | An extension is never empty, and one that holds a '.' is a lower-case '.' followed by a dot-free rest. |
| FileUpload.InheritedMemberHasNoDot | src/application/services/file-upload.service.ts:264 | The text of an inherited member is non-empty and has no '.'. |
| FileUpload.DataUrlDetected | src/application/services/file-upload.service.ts:175-190 | A `data:image/png;base64,` URI is an inline file, with its type and payload extracted. |
| FileUpload.IsBase64File | src/application/services/file-upload.service.ts:175-190 | Definition: a data-URL prefix, or more than 100 characters of base64; `DataUrlDetected`, `ShortValueNotFile` and `LongBase64IsFile` state its cases. |
| FileUpload.ShortValueNotFile | src/application/services/file-upload.service.ts:184-189 | A string of at most 100 characters that is not a data URI is never a file. |
| FileUpload.LongBase64IsFile | src/application/services/file-upload.service.ts:185-187 | More than 100 base64 characters are a file. |
| FileUpload.ParseBase64File | src/application/services/file-upload.service.ts:195-245 | Succeeds exactly when the decoded size is within 10 bytes to 5 MiB. The file keeps its field name and base64 encoding; the type is the argument, else the URI's, else `application/octet-stream`; a generated name is used when none is given. |
| FileUpload.Base64ToFile | src/application/services/file-upload.service.ts:118-135 | The file is filed under "file" with 7bit encoding. The buffer is the decoded payload without a data-URI prefix, and the size is its length. |
| FileUpload.PickPartition | src/application/services/file-upload.service.ts:140-170 | Every extracted file comes from a body entry. The remaining body is exactly the entries that gave no file. |
| FileUpload.ExtractionPartition | src/application/services/file-upload.service.ts:140-170 | Each file is filed under the key it came from. An entry remains exactly when it produced no file. |
| FileUpload.FileOf | src/application/services/file-upload.service.ts:145-166 | Definition: the file one entry gives, a base64 string or an object with `data` and `filename`; `FileOfFieldname` states that it is filed under its key. |
| FileUpload.ExtractedFiles | src/application/services/file-upload.service.ts:144-167 | Definition: the files found, in visiting order; `ExtractedFilesAppend` states how it grows. |
| FileUpload.RemainingBody | src/application/services/file-upload.service.ts:142-167 | Definition: the entries that gave no file, in visiting order; `RemainingBodyAppend` states how it grows. |
| FileUpload.FileOfFieldname | src/application/services/file-upload.service.ts:231-232 | A parsed file carries its entry's key as its field name. |
| FileUpload.DescriptorParsed | src/application/services/file-upload.service.ts:152-165 | An object with `data` and `filename` is parsed whatever its length. |
| FileUpload.ExtractedFilesAppend | src/application/services/file-upload.service.ts:145-149 | Visiting one more entry appends its file, if it has one. |
| FileUpload.RemainingBodyAppend | src/application/services/file-upload.service.ts:145-150 | Visiting one more entry keeps it, unless it produced a file. |
| FileUpload.WithoutCurrent | src/application/services/file-upload.service.ts:150 | Deleting the current key from the partly cleaned copy removes only that entry. |
| FileUpload.WithoutAbsent | src/application/services/file-upload.service.ts:150 | Deleting a key that a prefix lacks leaves the prefix alone. |
| FileUpload.WithoutFresh | src/application/services/file-upload.service.ts:150 | With unique keys, deleting the current key leaves the entries after it. |
| FileUpload.WithoutNone | src/application/services/file-upload.service.ts:150 | Later entries never share the current key. |
| FileUpload.EntryFile | src/application/services/file-upload.service.ts:146-165 | The body of the `forEach` yields the file of its entry, or none. |
| FileUpload.ExtractedStep | src/application/services/file-upload.service.ts:145-167 | One loop step extends the extracted files by the current entry's file. |
| FileUpload.CleanedStep | src/application/services/file-upload.service.ts:145-167 | One loop step extends the cleaned body by the current entry, unless it produced a file. |
| FileUpload.ProcessBase64Files | src/application/services/file-upload.service.ts:140-170 | The files are the inline files in `Object.entries` order (integer-like keys first, ascending, then the rest in insertion order). The clean body is that sequence without exactly the entries that gave a file. |
| FileUpload.TextParts | src/application/services/file-upload.service.ts:93-98 | Only text parts, and none named `targetUrl`. |
| FileUpload.FileParts | src/application/services/file-upload.service.ts:101-110 | One file part per file, in order, with its field name, file name, type and buffer. |
| FileUpload.TextPartsAppend | src/application/services/file-upload.service.ts:93-98 | One more field adds its part, unless it is `targetUrl`. |
| FileUpload.TextPartsFaithful | src/application/services/file-upload.service.ts:93-98 | Every field other than `targetUrl` gives a part carrying `String(value)`, and every part comes from a field. |
| FileUpload.CreateFormData | src/application/services/file-upload.service.ts:89-113 | The text parts, then the file parts. |
| FileUpload.FormDataLayout | src/application/services/file-upload.service.ts:89-113 | Every text part comes before every file part. |
| FileUpload.SanitizeFileLogIgnoresBuffer | src/application/services/file-upload.service.ts:270-278 | The log view keeps the five descriptive fields and cannot depend on the content: two files have the same view exactly when they differ at most in their buffers. |
| Http.Or | src/infrastructure/adapters/audit-log.adapter.ts:66 | `a \|\| b` on optional strings: `a` when it is present and not "", otherwise `b` as it is, so `undefined \|\| ""` is "". The result is truthy exactly when one of the two is. |
| Http.ForwardedOrTransport | src/infrastructure/adapters/audit-log.adapter.ts:65-66 | A truthy `x-forwarded-for` wins. Otherwise `req.ip \|\| remoteAddress`, which is the transport address as it is, "" included, when `req.ip` is missing or "". |
| Http.ErrorMessage | src/application/services/proxy.services.ts:163-176 | An Error's message, else a thrown object's string `message`, else `String(error)`. |
| Http.ErrorCode | src/application/services/proxy.services.ts:148 | The code of an axios-like error, and none otherwise. |
| Http.Response.SetHeader | src/application/services/proxy.services.ts:100-104 | Stores the value under the lower-cased name, or fails without effect once the headers are sent. |
| Http.Response.Status | src/application/services/proxy.services.ts:117 | Only the status changes. |
| Http.Response.End | src/application/services/proxy.services.ts:117 | The first `json`/`send` records its body and ends the response. A later one fails and changes nothing. |
| Http.Response.SetResponseTime | src/presentation/middlewares/audit-log.middleware.ts:21 | Only `responseTime` changes. |
| IpAddress.CleanIp | src/application/services/ip-validator.services.ts:109-114 | Drops one leading `::ffff:`, then trims. Never longer than its input. |
| IpAddress.NumBitsInjective | src/application/services/ip-validator.services.ts:96 | Distinct numbers below 2^w have distinct bit strings. |
| IpAddress.PartsBitsInjective | src/application/services/ip-validator.services.ts:96 | Distinct part sequences have distinct bit strings. |
| IpAddress.HexValueBound | src/application/services/ip-validator.services.ts:94 | k hex digits denote a value below 16^k. |
| IpAddress.ParseV4 | src/application/services/ip-validator.services.ts:94 | A dotted quad parses to four octets below 256; ParseV4Dotted and ParseV4Canonical say which. |
| IpAddress.ParseV6 | src/application/services/ip-validator.services.ts:94 | IPv6 text parses to eight groups below 65536; ParseV6Full and ParseV6Compressed say which. |
| IpAddress.Parse | src/application/services/ip-validator.services.ts:94 | Every parsed address is well formed. |
| IpAddress.ParseV4Dotted | src/application/services/ip-validator.services.ts:94 | Four octets below 256 written as a dotted quad parse, as IPv4 and as an address, to exactly those octets. |
| IpAddress.ParseV4Canonical | src/application/services/ip-validator.services.ts:94 | Conversely, a text that parses as IPv4 is the dotted quad of its four octets, written without leading zeros. |
| IpAddress.NoDotNotV4 | src/application/services/ip-validator.services.ts:94 | A text without a dot is no IPv4 address, so it is an address exactly when it is an IPv6 one. |
| IpAddress.ParseV6Full | src/application/services/ip-validator.services.ts:94 | Eight hex groups of one to four digits joined by colons parse to the address whose groups carry their values. |
| IpAddress.ParseV6Compressed | src/application/services/ip-validator.services.ts:94 | Hex groups left and right of one "::", at most seven in all, parse to the left values, then as many zero groups as are missing, then the right values. |
| IpAddress.ParseCidr | src/application/services/ip-validator.services.ts:95 | A parsed prefix length never exceeds the family's width. |
| IpAddress.InCidr | src/application/services/ip-validator.services.ts:92-104 | A match needs both texts to parse and the same family. A parse error is no match. |
| IpAddress.FullPrefixIsEquality | src/application/services/ip-validator.services.ts:96 | A full-length prefix contains exactly its own address. |
| IpAddress.ZeroPrefixMatchesFamily | src/application/services/ip-validator.services.ts:96 | A zero-length prefix contains every address of its family and no other. |
| IpAddress.FirstOctetPrefix | src/application/services/ip-validator.services.ts:96 | An IPv4 /8 tests exactly the first octet. |
| IpAddress.CidrContainsItsNetwork | src/application/services/ip-validator.services.ts:92-104 | `x/len` parses to `x` with `len`, and contains `x`. |
| IpAddress.EmptyTextIsNoAddress | src/application/services/ip-validator.services.ts:119-132 | The empty text never parses. |
| IpFilter.Ipv4PatternExactly | src/presentation/middlewares/ip-filter.middleware.ts:154-155 | Every join of four octet texts matches the IPv4 pattern. |
| IpFilter.IsValidIp | src/presentation/middlewares/ip-filter.middleware.ts:150-167 | Definition: non-empty and matching the dotted-quad or the eight-group pattern; `Ipv4PatternExactly`, `Ipv4PatternOnlyJoins`, `Ipv6PatternExactly` and `Ipv6PatternOnlyJoins` state what each pattern accepts. |
| IpFilter.Ipv4PatternOnlyJoins | src/presentation/middlewares/ip-filter.middleware.ts:154-155 | Only such joins match it. |
| IpFilter.Ipv6PatternExactly | src/presentation/middlewares/ip-filter.middleware.ts:157-158 | Every join of eight hex groups matches the IPv6 pattern. |
| IpFilter.Ipv6PatternOnlyJoins | src/presentation/middlewares/ip-filter.middleware.ts:157-158 | Only such joins match it. |
| IpFilter.CompressedRejected | src/presentation/middlewares/ip-filter.middleware.ts:150-167 | Any text containing "::", `::1` included, is not a valid IP. |
| IpFilter.ValidIpIsClean | src/presentation/middlewares/ip-filter.middleware.ts:126-131 | Cleaning leaves a valid address unchanged. |
| IpFilter.ValidIpHexEnds | src/presentation/middlewares/ip-filter.middleware.ts:150-167 | A valid address begins and ends with a hex digit. |
| IpFilter.HexEndsAreClean | src/presentation/middlewares/ip-filter.middleware.ts:126-131 | Text that begins and ends with a hex digit is its own cleaned form. |
| IpFilter.TrimmedEntries | src/presentation/middlewares/ip-filter.middleware.ts:92 | `value.split(',').map(trim)`: one trimmed entry per piece. |
| IpFilter.FirstAt | src/presentation/middlewares/ip-filter.middleware.ts:95-107 | The index of the first item that yields an address, with none before it. None exactly when no item yields one. |
| IpFilter.FirstAtSkip | src/presentation/middlewares/ip-filter.middleware.ts:95-107 | An item that yields nothing is passed over. |
| IpFilter.FirstAtIs | src/presentation/middlewares/ip-filter.middleware.ts:95-107 | The first yielding item decides the search. |
| IpFilter.SearchFirst | src/presentation/middlewares/ip-filter.middleware.ts:95-107 | The `for ... of` loop that returns early gives the first yield, and none exactly when no item yields. |
| IpFilter.CleanedCandidate | src/presentation/middlewares/ip-filter.middleware.ts:96-105 | An entry is kept, in cleaned form, exactly when the cleaned form is non-empty, not ignored and valid. |
| IpFilter.HeaderCandidate | src/presentation/middlewares/ip-filter.middleware.ts:84-121 | Whatever a header value gives is a qualifying address. |
| IpFilter.ParseIpFromHeader | src/presentation/middlewares/ip-filter.middleware.ts:84-121 | The loop computes `HeaderCandidate`: the first qualifying entry of a comma list, or the single cleaned value. |
| IpFilter.FromHeaders | src/presentation/middlewares/ip-filter.middleware.ts:58-67 | An address taken from the headers qualifies. |
| IpFilter.DirectIp | src/presentation/middlewares/ip-filter.middleware.ts:70-76 | The connection address is used only when it is truthy and not ignored, so the result is never one of the ignored addresses. |
| IpFilter.ClientIp | src/presentation/middlewares/ip-filter.middleware.ts:45-79 | Definition: the first header candidate, else the connection address unless ignored; `ExtractRealClientIp` computes it and `HeaderPriority` and `FallbackOnlyWithoutHeaders` state its order. |
| IpFilter.ExtractRealClientIp | src/presentation/middlewares/ip-filter.middleware.ts:45-79 | The headers in priority order, then the connection, give `ClientIp`. |
| IpFilter.HeaderPriority | src/presentation/middlewares/ip-filter.middleware.ts:58-67 | The first header that yields an address wins, and later headers are not consulted. |
| IpFilter.FallbackOnlyWithoutHeaders | src/presentation/middlewares/ip-filter.middleware.ts:58-76 | When no header yields, the search gives nothing and the connection decides. |
| IpFilter.ExtractedNeverIgnored | src/presentation/middlewares/ip-filter.middleware.ts:45-79 | An extracted address is never an ignored one. |
| IpFilter.Decide | src/presentation/middlewares/ip-filter.middleware.ts:24-40 | `next` exactly when an address is found and the allow-list allows it. Otherwise the 403 is thrown. |
| IpFilter.Use | src/presentation/middlewares/ip-filter.middleware.ts:24-40 | `use` takes that decision. |
| IpFilter.IgnoredTransportDenied | src/presentation/middlewares/ip-filter.middleware.ts:70-78 | A proxy or loopback connection without a qualifying header is refused, whatever the allow-list holds. |
| IpFilter.IgnoredIsIgnored | src/presentation/middlewares/ip-filter.middleware.ts:136-145 | Every listed address is ignored by `isIgnoredIp`. |
| IpFilter.IsIgnoredIp | src/presentation/middlewares/ip-filter.middleware.ts:136-145 | Definition: the cleaned address is one of the proxy addresses; `IgnoredIsIgnored` and `IgnoredAreIgnored` state its cases. |
| IpFilter.IgnoredAreIgnored | src/presentation/middlewares/ip-filter.middleware.ts:15-20 | The four listed addresses are ignored. |
| IpFilter.ProxyAddressIgnored | src/presentation/middlewares/ip-filter.middleware.ts:16 | The container address is ignored. |
| IpFilter.LoopbackIgnored | src/presentation/middlewares/ip-filter.middleware.ts:17-19 | The loopback addresses are ignored, including the mapped form. |
| IpValidator.CidrEntries | src/application/services/ip-validator.services.ts:26-28 | Only entries containing '/'. |
| IpValidator.AddressEntries | src/application/services/ip-validator.services.ts:29 | Only entries without '/'. |
| IpValidator.PartitionOfEntries | src/application/services/ip-validator.services.ts:23-29 | The two lists together hold every configured entry, as often as it occurs. |
| IpValidator.FirstMatchingCidr | src/application/services/ip-validator.services.ts:71-83 | The first prefix that contains the address, with none before it. None when no prefix does. |
| IpValidator.CleanLoopback | src/application/services/ip-validator.services.ts:109-114 | The loopback defaults clean to themselves, and the mapped form cleans to `127.0.0.1`. |
| IpValidator.CleanMapped | src/application/services/ip-validator.services.ts:113 | `::ffff:127.0.0.1` cleans to `127.0.0.1`. |
| IpValidator.CleanFixed | src/application/services/ip-validator.services.ts:113 | `127.0.0.1` and `::1` are unchanged by cleaning. |
| IpValidator.IsValidIpFormat | src/application/services/ip-validator.services.ts:119-132 | Definition: non-empty, and the cleaned text parses as an address; `Info` reports it. |
| IpValidator.IpValidatorService.Allows | src/application/services/ip-validator.services.ts:47-87 | Definition: the switch is off, or the cleaned address is listed or lies in a listed CIDR; `IsIpAllowed` computes it and `DecisionOrder` states its order. |
| IpValidator.IpValidatorService.constructor | src/application/services/ip-validator.services.ts:21-45 | CIDR entries and exact entries are split apart, and the three defaults follow the exact entries. The switch is on only when it is set to true. |
| IpValidator.IpValidatorService.IsIpAllowed | src/application/services/ip-validator.services.ts:47-87 | The loop computes `Allows`. |
| IpValidator.IpValidatorService.DecisionOrder | src/application/services/ip-validator.services.ts:47-87 | Switch off allows. The empty input is refused. An exact match allows. Otherwise the CIDR list decides. |
| IpValidator.IpValidatorService.LoopbackAllowed | src/application/services/ip-validator.services.ts:15-35 | The loopback defaults are allowed, plain or mapped, whatever is configured. |
| IpValidator.IpValidatorService.Info | src/application/services/ip-validator.services.ts:137-179 | The report carries the input, its cleaned form, the format verdict and the switch. |
| IpValidator.IpValidatorService.GetIpValidationInfo | src/application/services/ip-validator.services.ts:137-179 | The loop with `break` computes `Info`. |
| IpValidator.IpValidatorService.InfoRule | src/application/services/ip-validator.services.ts:150-169 | A rule is reported exactly when the address is allowed. It is the exact match, or else the first matching CIDR. |
| IpValidator.IpValidatorService.InfoAgreesWithDecision | src/application/services/ip-validator.services.ts:137-179 | For a non-empty input, the report's verdict is `isIpAllowed`'s. |
| IpValidator.IpValidatorService.EmptyInputDisagreement | src/application/services/ip-validator.services.ts:150-155 | When an empty exact entry is configured, the empty input is reported allowed but refused by `isIpAllowed`. |
| Json.Without | src/application/services/proxy.services.ts:37 | The rest of a destructuring has no such key and is no longer than the original. |
| Json.WithoutMembers | src/application/services/proxy.services.ts:37 | It keeps exactly the fields with another key. |
| Json.Entries | src/application/services/proxy.services.ts:198 | Definition: the `Object.entries` order — the array-index keys in ascending value, then the other keys in insertion order; `EntriesOrder` states it. |
| Json.EntriesOrder | src/application/services/proxy.services.ts:198 | The entries are a rearrangement of the fields: first the array-index keys, in ascending order, then every other field in insertion order. |
| Json.EntriesMembers | src/application/services/proxy.services.ts:198 | The entries visit every field and nothing else. |
| Json.EntriesUnique | src/application/services/proxy.services.ts:198 | Rearranging keeps the keys unique. |
| Json.EntriesWithoutIndices | src/application/services/proxy.services.ts:198 | An object with no array-index key is visited in insertion order. |
| Json.IndexKeyFirst | src/application/services/proxy.services.ts:198 | `{"b": .., "1": ..}` is visited "1" first. |
| Multer.SameTypesAsUploadService | src/presentation/middlewares/multer.middleware.ts:27-37 | The filter's MIME list is the upload service's list. |
| Multer.FileFilter | src/presentation/middlewares/multer.middleware.ts:21-48 | Accepts exactly the listed types. A rejection is an ordinary Error that names the type. |
| Multer.IsMultipart | src/presentation/middlewares/multer.middleware.ts:53-56 | Definition: the content type, or "", contains `multipart/form-data`, case-sensitively; `Use` passes every other request on. |
| Multer.Scan | src/presentation/middlewares/multer.middleware.ts:12-20 | Every failure is a limit error or a type rejection, and a success is within the count limits. A file part is counted, skipped when it has no file name, then its field name's length, its type and its size are checked. A text field is counted, then its value's UTF-8 size, then its name's length. |
| Multer.AcceptableFileHead | src/presentation/middlewares/multer.middleware.ts:14-20 | A stream that starts with a file is acceptable exactly when the file is and the rest is. |
| Multer.AcceptableFieldHead | src/presentation/middlewares/multer.middleware.ts:14-20 | A stream that starts with a field is acceptable exactly when the field is and the rest is. |
| Multer.ScanMeaning | src/presentation/middlewares/multer.middleware.ts:12-48 | The parse succeeds exactly for a stream within the limits, and then yields its files and fields in order. |
| Multer.Outcome | src/presentation/middlewares/multer.middleware.ts:63-64 | Definition: the multipart parser's report — its own failure, or the scan of the parts; `ScanMeaning` states what the scan yields. |
| Multer.EmptyFileNameSkipped | src/presentation/middlewares/multer.middleware.ts:14-20 | A file part without a file name is skipped unchecked but still takes one of the ten places. |
| Multer.LongFileFieldNameFails | src/presentation/middlewares/multer.middleware.ts:14-20 | A named file under a field name over 100 units fails as such, before its type and size are looked at. |
| Multer.ValueCheckedBeforeName | src/presentation/middlewares/multer.middleware.ts:14-20 | A text field's value over 1 MiB of UTF-8 is reported as such whatever its name. |
| Multer.UserMessage | src/presentation/middlewares/multer.middleware.ts:68-100 | The switch text for a multer error, or the error's own message otherwise. |
| Multer.UploadResponse | src/presentation/middlewares/multer.middleware.ts:89-100 | Definition: "Erro de upload" with the message, and the code for a multer error; `Use` answers with it. |
| Multer.MessagesOfLimitErrors | src/presentation/middlewares/multer.middleware.ts:72-81 | The size and count errors get their fixed texts. |
| Multer.MessageOfLongName | src/presentation/middlewares/multer.middleware.ts:85-86 | A field name that is too long falls to the default branch. |
| Multer.MessageOfLongValue | src/presentation/middlewares/multer.middleware.ts:85-86 | A field value that is too long falls to the default branch. |
| Multer.UnexpectedFileNeverChosen | src/presentation/middlewares/multer.middleware.ts:82-83 | With `any()`, no error gets the unexpected-file text. |
| Multer.RejectedTypeFails | src/presentation/middlewares/multer.middleware.ts:39-47 | A file of a disallowed type, within the count, fails the upload with its type. |
| Multer.Use | src/presentation/middlewares/multer.middleware.ts:52-122 | Content types other than multipart pass through. A parse puts files and fields on the request and calls `next`. A failure answers 400 with the upload body. |
| ProxyController.TokenStatus | src/presentation/controllers/proxy.controller.ts:19-24 | "presente" exactly for a bearer authorization header, and "ausente" otherwise. |
| ProxyController.StatusBodyReports | src/presentation/controllers/proxy.controller.ts:26-36 | The body reports "online" and the presence of a bearer token, never the token itself. |
| ProxyController.StatusBodyClientIp | src/presentation/controllers/proxy.controller.ts:31-34 | `client_ip` is the forwarded or transport address, and it is absent when there is none. |
| ProxyController.StatusBody | src/presentation/controllers/proxy.controller.ts:26-36 | Definition: the status reply; `StatusBodyReports` and `StatusBodyClientIp` state its fields. |
| ProxyController.Status | src/presentation/controllers/proxy.controller.ts:17-37 | One `res.json` with the status body. It throws once the response has been sent. |
| ProxyController.HandleProxy | src/presentation/controllers/proxy.controller.ts:40-46 | One call of the service. A rejected plan answers 400. |
| ProxyController.VpnReportMeaning | src/presentation/controllers/proxy.controller.ts:48-60 | The status word and the message follow `connected`. The details are the probe's lines, and joining them back gives its text. |
| ProxyController.VpnReport | src/presentation/controllers/proxy.controller.ts:49-60 | Definition: the VPN report of the probe's result; `VpnReportMeaning` states its fields. |
| ProxyController.FirstRoute | src/presentation/controllers/proxy.controller.ts:17-48 | The first registered route whose pattern matches. |
| ProxyController.PathOf | src/presentation/controllers/proxy.controller.ts:17-48 | The path a route is matched against has no '?' and is a prefix of the URL. |
| ProxyController.RouteFor | src/presentation/controllers/proxy.controller.ts:17-48 | Definition: the handler of the first matching route; `RoutesShadowed` states which one. |
| ProxyController.RoutesShadowed | src/presentation/controllers/proxy.controller.ts:17-48 | `/status` reaches the status handler, every other path reaches the proxy, and `/vpn-status` is never reached. |
| ProxyService.NormalizeUrlMeaning | src/application/services/proxy.services.ts:179-187 | The result always has a web scheme. It is unchanged exactly when it already had one, otherwise `https://` is prefixed. Normalising is idempotent. |
| ProxyService.NormalizeUrl | src/application/services/proxy.services.ts:179-187 | Definition: the URL when it starts with `http://` or `https://`, else `https://` in front; `NormalizeUrlMeaning` states its properties. |
| ProxyService.FirstLongParam | src/application/services/proxy.services.ts:197-205 | The first too-long string parameter of the sequence it is given, with none before it; `ValidationOf` gives it `Json.Entries(params)`, the `Object.entries` order. |
| ProxyService.ValidationOf | src/application/services/proxy.services.ts:190-238 | Valid implies a string target whose normalised form parses. |
| ProxyService.ValidateInput | src/application/services/proxy.services.ts:190-238 | The loop and the URL checks compute `ValidationOf`. |
| ProxyService.ValidationMeaning | src/application/services/proxy.services.ts:190-238 | Valid exactly when no parameter is too long, the URL parses, and the host ends with a listed domain (when any are listed). The protocol error is unreachable. |
| ProxyService.LengthCheckFirst | src/application/services/proxy.services.ts:196-205 | A long parameter is reported by name, before any URL check. |
| ProxyService.NoLongEntry | src/application/services/proxy.services.ts:197-205 | No entry is too long exactly when no field is, so the order changes only which parameter is named. |
| ProxyService.IndexKeyReportedFirst | src/application/services/proxy.services.ts:197-205 | With two long parameters `b` and `1`, in that order, the error names `1`. |
| ProxyService.PlainHostNormalized | src/application/services/proxy.services.ts:207-208 | A bare host name gains `https://` and parses to itself. |
| ProxyService.SuffixIsEnough | src/application/services/proxy.services.ts:219-229 | `evilexample.com` passes a list holding `example.com`: there is no dot boundary. |
| ProxyService.RedactedParams | src/application/services/proxy.services.ts:240-262 | Redaction keeps the number of parameters. |
| ProxyService.SanitizeParams | src/application/services/proxy.services.ts:240-262 | The loop computes `RedactedParams`. |
| ProxyService.RedactedParamsMeaning | src/application/services/proxy.services.ts:240-262 | Keys and order are kept. Exactly the sensitive keys get `[REDACTED]`. Redacting is idempotent. |
| ProxyService.SubstringKeys | src/application/services/proxy.services.ts:255-258 | Any key that contains a sensitive word in any case is sensitive. |
| ProxyService.OutboundHeaders | src/application/services/proxy.services.ts:264-276 | `host`, `connection` and `content-length` are dropped, and `x-forwarded-by` is set. Every other header is copied, and nothing else is added. |
| ProxyService.SafeResponseHeaders | src/application/services/proxy.services.ts:278-294 | Exactly the pairs whose name is not unsafe. |
| ProxyService.AppliedUntouched | src/application/services/proxy.services.ts:98-105 | A header that no pair names keeps its state. |
| ProxyService.AppliedLast | src/application/services/proxy.services.ts:98-105 | A named header holds the last value set for it. |
| ProxyService.SecurityHeadersWin | src/application/services/proxy.services.ts:107-114 | The security headers, set last, hold their fixed values. |
| ProxyService.SafeSetsNoUnsafe | src/application/services/proxy.services.ts:278-294 | The filtered upstream headers set no unsafe name. |
| ProxyService.SecuritySetsNoUnsafe | src/application/services/proxy.services.ts:107-114 | No security header has an unsafe name. |
| ProxyService.UnsafeHeadersNotCopied | src/application/services/proxy.services.ts:97-114 | An unsafe upstream header never reaches the client. The final response holds it only if it was set before. |
| ProxyService.SecurityHeadersApplied | src/application/services/proxy.services.ts:107-114 | The four `setHeader` calls amount to applying the pairs in order. |
| ProxyService.CopyHeaders | src/application/services/proxy.services.ts:98-105 | The `forEach` applies the pairs in order. When the headers are already sent, every `setHeader` fails and nothing changes. |
| ProxyService.Settled | src/application/services/proxy.services.ts:82 | A reply is kept exactly when its status lies in [200, 600). Otherwise it becomes a failure. |
| ProxyService.PlanForward | src/application/services/proxy.services.ts:27-88 | Forwarded exactly when the body is an object with a truthy `targetUrl` and the validation passes. |
| ProxyService.PlanFor | src/application/services/proxy.services.ts:27-88 | Definition: the decisions before the client call — the three 400s, in order, else the outbound request; `PlanForward`, `BodyRejections` and `HandleRequest`'s contract state them. |
| ProxyService.ForwardedRequest | src/application/services/proxy.services.ts:69-88 | The outbound request goes to a parsable web URL with the lower-cased method and the sanitised headers. The parameters travel as the body or as the query, never both, and never include `targetUrl`. The fixed limits apply, and certificates are verified only in production. |
| ProxyService.BodyRejections | src/application/services/proxy.services.ts:29-45 | A missing, null or scalar body gets the invalid-body answer. An array gets the missing-target answer. |
| ProxyService.FailureBodyMeaning | src/application/services/proxy.services.ts:140-150 | In production the message is generic, so two failures with the same code look alike. Elsewhere the message is the error's. A missing code reads UNKNOWN. |
| ProxyService.FailureBody | src/application/services/proxy.services.ts:140-150 | Definition: the 500 body; `FailureBodyMeaning` states what it reveals. |
| ProxyService.HandleRequest | src/application/services/proxy.services.ts:23-152 | A rejection answers 400 with its body. A forward sends the planned request, then relays the upstream reply (status, filtered and secured headers, body) or answers 500. |
| ProxyService.Answer | src/application/services/proxy.services.ts:97-150 | What happens after the client settles: the reply is relayed, or the failure is answered 500 when the response is still open. |
| ProxyService.ForwardedUrlLoggedByParser | src/application/services/proxy.services.ts:296-310 | Every forwarded URL parses, so its logged form always comes from the URL object and never from the regular-expression fallback. |
| ProxyService.SanitizeLoggedUrl | src/application/services/proxy.services.ts:296-318 | Definition: "" for "", the URL object's form for a URL that parses, else the case-insensitive replacement; `ForwardedUrlLoggedByParser` and `FallbackIgnoresCase` state its two paths. |
| ProxyService.LoggedSensitiveUnambiguous | src/application/services/proxy.services.ts:303 | The logged sensitive names are distinct and hold no '='. |
| ProxyService.FallbackIgnoresCase | src/application/services/proxy.services.ts:311-317 | The fallback pattern ignores case and drops the separator. |
| QueryRedaction.FirstName | src/presentation/filters/exception.filter.ts:83 | The first alternative that matches at a position, with none before it. |
| QueryRedaction.Redact | src/presentation/filters/exception.filter.ts:82-85 | Definition: the global `[?&](names)=[^&]*` → `$1=[REDACTED]` replacement; `RedactedParam`, `SeparatorDropped`, `KeptParam` and `NoSeparatorUnchanged` state what it does. |
| QueryRedaction.NoSeparatorUnchanged | src/presentation/filters/exception.filter.ts:82-85 | Text without '?' or '&' is unchanged. |
| QueryRedaction.PlainChar | src/presentation/filters/exception.filter.ts:82-85 | A character that is not a separator is copied and the scan moves on. |
| QueryRedaction.PlainPrefix | src/presentation/filters/exception.filter.ts:82-85 | A path without separators is copied whole. |
| QueryRedaction.AtMostOneName | src/presentation/filters/exception.filter.ts:83 | With unambiguous names, at most one alternative matches at a position. |
| QueryRedaction.FirstNameIs | src/presentation/filters/exception.filter.ts:83 | The matching name is the one the scan picks. |
| QueryRedaction.RedactedParam | src/presentation/filters/exception.filter.ts:82-85 | A sensitive parameter becomes `<name as written>=[REDACTED]`, and the rest is scanned on. |
| QueryRedaction.SeparatorDropped | src/presentation/filters/exception.filter.ts:82-85 | After a path, a sensitive parameter loses its separator. |
| QueryRedaction.KeptParam | src/presentation/filters/exception.filter.ts:82-85 | Any other parameter is copied unchanged. |
| RateLimitMiddleware.ForwardedHeaderChoosesKey | src/presentation/middlewares/rate-limit.middleware.ts:13-15 | The key is whatever the client puts in `x-forwarded-for`. |
| RateLimitMiddleware.UndefinedKeyShared | src/presentation/middlewares/rate-limit.middleware.ts:13-15 | Requests without any address share the bucket "undefined" with a client that sends that literal text. |
| RateLimitMiddleware.EmptyTransportKey | src/presentation/middlewares/rate-limit.middleware.ts:13-15 | An empty transport address after a missing `req.ip` gives the key "", not "undefined". |
| RateLimitMiddleware.TransportKeysSeparate | src/presentation/middlewares/rate-limit.middleware.ts:13-15 | Without the header, distinct transport addresses are counted separately. |
| RateLimitMiddleware.Key | src/presentation/middlewares/rate-limit.middleware.ts:13-15 | Definition: the forwarded header, else `req.ip \|\| remoteAddress` ("" included), else "undefined"; `ForwardedHeaderChoosesKey`, `UndefinedKeyShared`, `EmptyTransportKey` and `TransportKeysSeparate` state its consequences. |
| RateLimitMiddleware.ResetSeconds | src/presentation/middlewares/rate-limit.middleware.ts:25-28 | `Math.floor(t / 1000)`: the whole seconds at or below `t`. |
| RateLimitMiddleware.HeaderValuesReadBack | src/presentation/middlewares/rate-limit.middleware.ts:20-28 | The header texts read back as the limit, the remaining quota and the reset second. |
| RateLimitMiddleware.RateHeaders | src/presentation/middlewares/rate-limit.middleware.ts:20-28 | Definition: the three headers set in order; `HeaderValuesReadBack` states the numbers they report. |
| RateLimitMiddleware.Use | src/presentation/middlewares/rate-limit.middleware.ts:11-39 | The request is counted first. The three headers are set (nothing changes when the headers are already sent). Then `next`, or 429 with the fixed body. |
| RateLimiter.SettingOr | src/infrastructure/adapters/rate-limiter.adapters.ts:18-21 | `value \|\| fallback`: unset and 0 fall back. |
| RateLimiter.AfterCheck | src/infrastructure/adapters/rate-limiter.adapters.ts:27-67 | An unknown or expired key starts a window with count 1. Any other key's count grows by one under the same expiry. No other key changes. |
| RateLimiter.CheckResult | src/infrastructure/adapters/rate-limiter.adapters.ts:27-67 | Definition: the answer of `checkLimit`; `CheckResultMeaning` states it. |
| RateLimiter.CheckResultMeaning | src/infrastructure/adapters/rate-limiter.adapters.ts:27-67 | Allowed exactly when the new count is within the limit. The remaining quota is `max(0, limit - count)`, and the reset time is the window's expiry. |
| RateLimiter.Swept | src/infrastructure/adapters/rate-limiter.adapters.ts:69-76 | The sweep keeps exactly the entries that have not expired, unchanged. |
| RateLimiter.SweepUnobservable | src/infrastructure/adapters/rate-limiter.adapters.ts:69-76 | A sweep at the same instant or earlier changes no later answer. |
| RateLimiter.RateLimiterAdapter.constructor | src/infrastructure/adapters/rate-limiter.adapters.ts:17-25 | The window and the limit come from the settings, with the defaults 60000 ms and 100. The map starts empty. |
| RateLimiter.RateLimiterAdapter.CheckLimit | src/infrastructure/adapters/rate-limiter.adapters.ts:27-67 | The new map is `AfterCheck` and the answer is `CheckResult`. |
| RateLimiter.RateLimiterAdapter.CleanupExpiredEntries | src/infrastructure/adapters/rate-limiter.adapters.ts:69-76 | The loop deletes exactly the expired entries. |
| RateLimiter.DefaultSettings | src/infrastructure/adapters/rate-limiter.adapters.ts:18-21 | Unset or zero settings give 60 s and 100 requests. A set value is kept. |
| RateLimiter.WindowScenario | test/unit/infrastructure/adapters/rate-limiter.adapter.spec.ts:36-83 | With a 1 s window and a limit of 5, five calls are allowed, the sixth is refused, and a call after the window starts afresh. |
| RateLimiter.CountGrowsPastLimit | src/infrastructure/adapters/rate-limiter.adapters.ts:49-54 | Past the limit the count keeps growing, with no remaining quota and the same expiry. |
| RateLimiter.ExpiryIsStrict | src/infrastructure/adapters/rate-limiter.adapters.ts:35 | An entry that expires exactly now still counts. |
| Strings.RunEnd | src/presentation/filters/exception.filter.ts:83-94 | A run of characters other than the stop character ends at the next stop character or at the end, and holds no stop character. With '&' it is the `[^&]*` of the query redaction; with ':' it is the greedy `[^:]+` of the stack-trace redaction. |
| Strings.LastIndexOf | src/application/services/file-upload.service.ts:74 | The last index of the character, or -1 exactly when it does not occur. |
| Strings.Split | src/presentation/middlewares/ip-filter.middleware.ts:92 | At least one piece, and no piece holds the separator. |
| Strings.SplitAdjacentSeparators | src/presentation/middlewares/ip-filter.middleware.ts:92 | Two adjacent commas leave an empty entry. |
| Strings.JoinSplit | src/presentation/controllers/proxy.controller.ts:55 | Joining the pieces of a split gives back the original text. |
| Strings.SplitJoin | src/presentation/filters/exception.filter.ts:92-95 | Splitting a join of separator-free pieces gives back the pieces. |
| Strings.Trim | src/presentation/middlewares/ip-filter.middleware.ts:92 | The infix that remains after dropping the leading and the trailing whitespace: what is dropped on either side is whitespace, and the result neither starts nor ends with whitespace. |
| Strings.TrimFixed | src/presentation/middlewares/ip-filter.middleware.ts:92 | A text that neither starts nor ends with whitespace is its own trim, so trimming twice is trimming once. |
| Strings.JoinNoDoubled | src/application/services/ip-validator.services.ts:94 | Non-empty pieces joined by a separator they do not hold give a text that neither starts nor ends with the separator and never holds it twice in a row. |
| Strings.Lower | src/application/services/proxy.services.ts:71 | The same length, with ASCII letters lower-cased one by one. |
| Strings.Utf16Length | src/application/services/proxy.services.ts:199 | `.length`, in UTF-16 code units: at least the number of characters and at most twice it. |
| Strings.Utf8Length | src/presentation/middlewares/multer.middleware.ts:19 | The UTF-8 byte count of section 3 of RFC 3629: at least the number of characters and at most four times it. |
| Strings.NarrowLengths | src/application/services/proxy.services.ts:199 | Within the Basic Multilingual Plane `.length` counts characters; within ASCII so does the UTF-8 count. |
| Strings.UnitCounts | src/application/services/proxy.services.ts:199 | A character outside the Basic Multilingual Plane is two units and four bytes; one from U+0800 to U+FFFF is one unit and three bytes. |
| Strings.NatToString | src/presentation/middlewares/rate-limit.middleware.ts:22-28 | The decimal text reads back as the number. |
| Strings.NatToStringCanonical | src/application/services/ip-validator.services.ts:94 | Conversely, a digit string without a leading zero is the decimal text of its own value. |
| Url.Parse | src/application/services/proxy.services.ts:207-216 | The input is first stripped of leading and trailing C0 controls and spaces and of every tab and newline. Only http and https parse. The host is lower-case and free of forbidden characters, and a host that ends in a number is read as an IPv4 address. The port is empty or at most 65535. |
| Url.TrailingSpaceStripped | src/application/services/proxy.services.ts:208 | A trailing space is stripped before parsing. |
| Url.TrailingSpaceAccepted | src/application/services/proxy.services.ts:208 | So a plain host followed by a space parses as the host alone. |
| Url.NoSchemeFails | src/application/services/proxy.services.ts:299-317 | An input whose first character is neither a C0 control, a space nor `h` never parses. |
| Url.PlainHostParses | src/application/services/proxy.services.ts:207-208 | A plain host after either scheme parses to itself with no port. |
| Url.MissingHostFails | src/application/services/proxy.services.ts:232-237 | `https://` without a host does not parse, so it is reported as an invalid URL. |
| Url.PortRange | src/application/services/proxy.services.ts:207-208 | A port parses exactly when its value is at most 65535, and is then kept. |
| Url.HostName | src/application/services/proxy.services.ts:208 | The reported host is a valid lower-case host: the lower-cased domain, or the dotted decimal of the IPv4 address a host ending in a number denotes. |
| Url.Ipv4Host | src/application/services/proxy.services.ts:208 | A host ending in a number is kept exactly when it denotes an IPv4 address. |
| Url.Ipv4NumbersMeaning | src/application/services/proxy.services.ts:208 | The numbers of the labels exist exactly when every label reads as a decimal, octal or hexadecimal number, and they are those numbers in order. |
| Url.LabelNotNumber | src/application/services/proxy.services.ts:208 | A label that starts with a letter is not a number, so an ordinary domain is not read as an address. |
| Url.DigitHostParses | src/application/services/proxy.services.ts:207-216 | A host of digits, dots and letters parses exactly when its host name exists, and then to that name. |
| Url.NumericHost | src/application/services/proxy.services.ts:207-216 | A dotted host of number labels ending in a decimal parses exactly when it has at most four labels, every label but the last is at most 255 and the last is below 256^(5-n); then its address is the labels as high bytes plus the last. |
| Url.NumericHostText | src/application/services/proxy.services.ts:207-216 | Such a host parses exactly when it denotes an address, and is then reported as its dotted decimal with no port. |
| Url.LabelAbove255Fails | src/application/services/proxy.services.ts:232-237 | A decimal label above 255 before the last makes the URL invalid, as in `https://999.999.999.999`. |
| Url.HexThenDecimal | src/application/services/proxy.services.ts:207-216 | A hexadecimal label up to 255 followed by a decimal below 2^24 parses, the first giving the high byte. |
| Url.LoopbackParses | src/application/services/proxy.services.ts:207-216 | A hexadecimal label worth 127 then "1" parses to host 127.0.0.1. |
| Url.Loopback | src/application/services/proxy.services.ts:207-216 | The labels of `https://0x7f.1` meet `LoopbackParses`, and the address 127·2^24+1 prints as 127.0.0.1. |

## Left out

- Logging through Nest's `Logger` (console lines other than the audit sink) is not modelled. It has no effect on responses.
- The VPN checker adapter, the VPN middleware, `main.ts`, the environment validation and the configuration loader are not modelled. Settings enter as constructor arguments.
- Because settings are arguments, the configuration quirk `=== 'true' || true` lies outside the model. That quirk keeps the whitelist and the file audit sink always on.
- `JSON.stringify`, base64 decoding (`Buffer.from`) and the `URL` re-serialisation of `searchParams.set` are function parameters, not definitions.
- Concurrency, timers (`setInterval` for the sweep), async scheduling and the 30-second client timeout are not modelled. The sweep is a method the caller invokes.
- The HTTP client (`axios`) and the `https.Agent` are one settled value: a reply or a failure. Only the request configuration handed to them is modelled.
- The mutation of the axios error's `config` before logging is not modelled. Only the logged URL is.
- The multipart stream parser is an input value (`Multer.Multipart`): the parts it reads, or the reason it failed. Only the limits and the type filter are modelled as code.
- Multer.Scan: a text field is recorded under its name as given. Multer's `append-field` nesting of names such as `a[b]` into objects, and a repeated name becoming an array, are not modelled.
- Json.Num: numbers are integers. Fractions, exponents, `NaN` and the infinities are left out; no modelled operation computes with a number from a request.
- Url.Parse: models the WHATWG steps the gateway relies on: trimming C0 controls and spaces, removing tabs and newlines, the http and https schemes, lower-casing the host, the forbidden host characters, the IPv4 number parser and the port range. It does not model the whole parser. IDNA, percent-decoding, IPv6 hosts, the userinfo rules (only "the host follows the last '@'" is kept), upper-case scheme letters and schemes other than http and https are left out. Any other scheme counts as a parse failure, so the protocol check is unreachable. A backslash is treated as '/' where the host and port depend on it: the run of slashes skipped after the scheme may mix `/` and `\`, and a `\` ends the authority. The path is not modelled, so the rewriting of backslashes inside it to '/' is left out.
- IpAddress.Parse: replaces ipaddr.js with canonical dotted-decimal IPv4 and IPv6 with eight groups or one "::". ipaddr.js also accepts octal, hex and shortened IPv4 forms, zone indices and embedded IPv4.
- Strings.Lower: lower-cases ASCII letters only, with no Unicode case mapping or normalisation.
- Strings: a Dafny `char` is a Unicode scalar value, so a string is a sequence of characters and a lone surrogate, which a JavaScript string can hold, cannot be represented. JavaScript's `.length` counts a character outside the Basic Multilingual Plane as two units; `Strings.Utf16Length` models that count, and `Strings.Utf8Length` the byte count multer applies to field values.
- Http.Request: headers are single strings keyed by lower-case name. Array-valued headers (`string[]`) are left out, so the `Array.isArray` branch of `parseIpFromHeader` is not modelled.
- ProxyService.SafeResponseHeaders: upstream header names are taken to be lower-case, as the HTTP client delivers them. Integer-like keys, which `Object.keys` reorders, are not modelled.
- ProxyController.Matches: Express route matching is reduced to case-insensitive exact paths with an optional trailing slash, plus the wildcard.
- AppModule.Gateway.Serve: the audit hook is modelled as running once, right after the response ends. Repeated or later writes through the wrapped `end` are not modelled.
- FileUpload.GeneratedName: `Date.now()` is the parameter `now`.
- AuditLog.AuditLogAdapter.constructor: the `mkdirSync` of the log directory is file-system I/O and is not modelled. The file sink is an appended sequence of lines.
- Several lemmas are fixed-input examples rather than all-input properties: `FileUpload.ExactlyMaxSizeAccepted`, `ExceptionFilter.TwoSecretsRedacted`, `FileUpload.OversizeRejected`, `FileUpload.ExecutableRejected`, `RateLimiter.WindowScenario`, `Json.IndexKeyFirst`, `ProxyService.IndexKeyReportedFirst` and `Url.Loopback`. They illustrate the all-input contracts of the members they apply.
- The in-memory TTL cache and the file upload service are modelled as written, although no request path uses them.

## Behaviour worth knowing

These properties of the code as written are proved in the model:

- Both query sanitisers replace a sensitive parameter with `$1=[REDACTED]`, so the `?` or `&`
  before it is dropped (`ExceptionFilter.SensitiveParamRedacted`,
  `QueryRedaction.SeparatorDropped`).
- The domain allow-list is a plain suffix test (`ProxyService.SuffixIsEnough`).
- The rate-limit key is whatever the client sends in `x-forwarded-for`
  (`RateLimitMiddleware.ForwardedHeaderChoosesKey`).
- The IPv6 pattern of the IP filter refuses every compressed address, `::1` included
  (`IpFilter.CompressedRejected`).
- `getIpValidationInfo` and `isIpAllowed` disagree only on the empty input
  (`IpValidator.IpValidatorService.EmptyInputDisagreement`).
