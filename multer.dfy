/** The upload middleware: a `multipart/form-data` request is parsed into files and text
    fields under multer's configured limits and the MIME-type filter; a failure answers 400 with
    a message chosen by the error's code. Any other request passes untouched. The multipart
    wire format is not modelled: the parser's output is the parameter `input`, either the parts
    in stream order or the parser's own failure. */
module Multer {
  import opened Strings
  import Json
  import Http
  import FileUpload

  const MULTIPART := "multipart/form-data"

  /** `(req.headers['content-type'] || '').includes('multipart/form-data')`, case-sensitive. */
  predicate IsMultipart(h: Http.Headers) {
    Contains(if "content-type" in h then h["content-type"] else "", MULTIPART)
  }

  /** The configured limits. */
  const FILE_SIZE_LIMIT: nat := 5 * 1024 * 1024
  const FILES_LIMIT: nat := 10
  const FIELDS_LIMIT: nat := 50
  const FIELD_NAME_SIZE: nat := 100
  const FIELD_SIZE_LIMIT: nat := 1 * 1024 * 1024

  /** The filter's own list of accepted MIME types. */
  const ALLOWED_MIME_TYPES: seq<string> := [
    "image/jpeg", "image/jpg", "image/png", "image/gif", "image/webp", "application/pdf",
    "text/plain", "application/msword",
    "application/vnd.openxmlformats-officedocument.wordprocessingml.document"]

  /** The filter accepts exactly the types the upload service validates against. */
  lemma SameTypesAsUploadService()
    ensures forall m :: m in ALLOWED_MIME_TYPES <==> m in FileUpload.ALLOWED_MIMETYPES
  {
    assert ALLOWED_MIME_TYPES == FileUpload.ALLOWED_MIMETYPES;
  }

  /** A multer error (its code and multer's message) or any other error (its message). */
  datatype UploadError = MulterError(code: string, message: string) | OtherError(message: string)

  /** `fileFilter`: `None` accepts; a rejection is an ordinary Error naming the type. */
  function FileFilter(mimetype: string): (r: Option<UploadError>)
    ensures r.None? <==> mimetype in ALLOWED_MIME_TYPES
    ensures r.Some? ==> r.value == OtherError("Tipo de arquivo não permitido: " + mimetype)
  {
    if mimetype in ALLOWED_MIME_TYPES then None
    else Some(OtherError("Tipo de arquivo não permitido: " + mimetype))
  }

  /** One part of the stream: a file, or a text field. */
  datatype Incoming = FileField(file: FileUpload.FileInfo) | TextField(name: string, value: string)

  /** What the parser reports. */
  datatype Multipart = Malformed(reason: string) | Parts(parts: seq<Incoming>)

  datatype ParseResult = Parsed(files: seq<FileUpload.FileInfo>, fields: Json.Fields) | Failed(err: UploadError)

  /** The errors multer raises for the configured limits, with multer's messages. */
  const TOO_MANY_FILES := MulterError("LIMIT_FILE_COUNT", "Too many files")
  const FILE_TOO_LARGE := MulterError("LIMIT_FILE_SIZE", "File too large")
  const TOO_MANY_FIELDS := MulterError("LIMIT_FIELD_COUNT", "Too many fields")
  const NAME_TOO_LONG := MulterError("LIMIT_FIELD_KEY", "Field name too long")
  const VALUE_TOO_LONG := MulterError("LIMIT_FIELD_VALUE", "Field value too long")

  /** The error kinds `any()` can produce: a limit, or a type the filter rejects. */
  predicate PossibleError(e: UploadError) {
    e in {TOO_MANY_FILES, FILE_TOO_LARGE, TOO_MANY_FIELDS, NAME_TOO_LONG, VALUE_TOO_LONG}
    || (e.OtherError? && StartsWith(e.message, "Tipo de arquivo não permitido: "))
  }

  /** The parse of the remaining parts, `files` file parts and `fields` fields having gone
      before. A file part is counted first, even when it carries no file name; a nameless one is
      then skipped, and a named one has its field name's length checked, then the filter, then
      its size. A text field is counted, then its value's size in UTF-8 bytes is checked, then
      its name's length. The first failure ends the parse. */
  function Scan(parts: seq<Incoming>, files: nat, fields: nat): (r: ParseResult)
    requires files <= FILES_LIMIT && fields <= FIELDS_LIMIT
    ensures r.Failed? ==> PossibleError(r.err)
    ensures r.Parsed? ==> |r.files| + files <= FILES_LIMIT && |r.fields| + fields <= FIELDS_LIMIT
    decreases |parts|
  {
    if parts == [] then Parsed([], [])
    else match parts[0]
      case FileField(f) =>
        if files + 1 > FILES_LIMIT then Failed(TOO_MANY_FILES)
        else if f.originalname == "" then Scan(parts[1..], files + 1, fields)
        else if Utf16Length(f.fieldname) > FIELD_NAME_SIZE then Failed(NAME_TOO_LONG)
        else if FileFilter(f.mimetype).Some? then Failed(FileFilter(f.mimetype).value)
        else if f.size > FILE_SIZE_LIMIT then Failed(FILE_TOO_LARGE)
        else
          var rest := Scan(parts[1..], files + 1, fields);
          if rest.Failed? then rest else Parsed([f] + rest.files, rest.fields)
      case TextField(n, v) =>
        if fields + 1 > FIELDS_LIMIT then Failed(TOO_MANY_FIELDS)
        else if Utf8Length(v) > FIELD_SIZE_LIMIT then Failed(VALUE_TOO_LONG)
        else if Utf16Length(n) > FIELD_NAME_SIZE then Failed(NAME_TOO_LONG)
        else
          var rest := Scan(parts[1..], files, fields + 1);
          if rest.Failed? then rest else Parsed(rest.files, [(n, Json.Str(v))] + rest.fields)
  }

  /** The number of file parts of a stream, named or not. */
  function FileCount(parts: seq<Incoming>): nat
    decreases |parts|
  {
    if parts == [] then 0
    else (if parts[0].FileField? then 1 else 0) + FileCount(parts[1..])
  }

  /** The files of a stream that carry a file name, in order. */
  function FilesOf(parts: seq<Incoming>): seq<FileUpload.FileInfo>
    decreases |parts|
  {
    if parts == [] then []
    else (if parts[0].FileField? && parts[0].file.originalname != "" then [parts[0].file] else [])
         + FilesOf(parts[1..])
  }

  /** The text fields of a stream, in order. */
  function FieldsOf(parts: seq<Incoming>): Json.Fields
    decreases |parts|
  {
    if parts == [] then []
    else (if parts[0].TextField? then [(parts[0].name, Json.Str(parts[0].value))] else []) + FieldsOf(parts[1..])
  }

  /** A file that multer keeps passes every per-file limit. */
  predicate FileWithinLimits(f: FileUpload.FileInfo) {
    f.originalname != "" ==>
      Utf16Length(f.fieldname) <= FIELD_NAME_SIZE && f.mimetype in ALLOWED_MIME_TYPES
      && f.size <= FILE_SIZE_LIMIT
  }

  predicate FieldWithinLimits(n: string, v: string) {
    Utf16Length(n) <= FIELD_NAME_SIZE && Utf8Length(v) <= FIELD_SIZE_LIMIT
  }

  /** A stream within the limits, independently of the order the checks run in. */
  predicate Acceptable(parts: seq<Incoming>, files: nat, fields: nat) {
    && FileCount(parts) + files <= FILES_LIMIT
    && |FieldsOf(parts)| + fields <= FIELDS_LIMIT
    && (forall i :: 0 <= i < |parts| && parts[i].FileField? ==> FileWithinLimits(parts[i].file))
    && (forall i :: 0 <= i < |parts| && parts[i].TextField? ==> FieldWithinLimits(parts[i].name, parts[i].value))
  }

  lemma AcceptableFileHead(f: FileUpload.FileInfo, t: seq<Incoming>, files: nat, fields: nat)
    ensures Acceptable([FileField(f)] + t, files, fields) <==>
      files + 1 <= FILES_LIMIT && FileWithinLimits(f) && Acceptable(t, files + 1, fields)
    ensures FilesOf([FileField(f)] + t) == (if f.originalname != "" then [f] else []) + FilesOf(t)
    ensures FieldsOf([FileField(f)] + t) == FieldsOf(t)
  {
    var parts := [FileField(f)] + t;
    assert parts[1..] == t;
    assert forall i :: 1 <= i < |parts| ==> parts[i] == t[i - 1];
    assert FileCount(parts) == 1 + FileCount(t) && FieldsOf(parts) == FieldsOf(t);
  }

  lemma AcceptableFieldHead(n: string, v: string, t: seq<Incoming>, files: nat, fields: nat)
    ensures Acceptable([TextField(n, v)] + t, files, fields) <==>
      fields + 1 <= FIELDS_LIMIT && FieldWithinLimits(n, v) && Acceptable(t, files, fields + 1)
    ensures FilesOf([TextField(n, v)] + t) == FilesOf(t)
    ensures FieldsOf([TextField(n, v)] + t) == [(n, Json.Str(v))] + FieldsOf(t)
  {
    var parts := [TextField(n, v)] + t;
    assert parts[1..] == t;
    assert forall i :: 1 <= i < |parts| ==> parts[i] == t[i - 1];
    assert FileCount(parts) == FileCount(t) && |FieldsOf(parts)| == 1 + |FieldsOf(t)|;
  }

  /** The parse succeeds exactly for a stream within the limits, and then yields the stream's
      named files and its fields, in order. */
  lemma {:induction false} ScanMeaning(parts: seq<Incoming>, files: nat, fields: nat)
    requires files <= FILES_LIMIT && fields <= FIELDS_LIMIT
    ensures Scan(parts, files, fields).Parsed? <==> Acceptable(parts, files, fields)
    ensures Scan(parts, files, fields).Parsed? ==>
      Scan(parts, files, fields).files == FilesOf(parts) && Scan(parts, files, fields).fields == FieldsOf(parts)
    decreases |parts|
  {
    if parts != [] {
      var t := parts[1..];
      assert parts == [parts[0]] + t;
      match parts[0]
      case FileField(f) =>
        AcceptableFileHead(f, t, files, fields);
        if files + 1 <= FILES_LIMIT {
          ScanMeaning(t, files + 1, fields);
        }
      case TextField(n, v) =>
        AcceptableFieldHead(n, v, t, files, fields);
        if fields + 1 <= FIELDS_LIMIT {
          ScanMeaning(t, files, fields + 1);
        }
    }
  }

  /** A file part without a file name is dropped unchecked, but it still uses up one of the
      ten file places. */
  lemma EmptyFileNameSkipped(f: FileUpload.FileInfo, rest: seq<Incoming>, files: nat, fields: nat)
    requires files < FILES_LIMIT && fields <= FIELDS_LIMIT && f.originalname == ""
    ensures Scan([FileField(f)] + rest, files, fields) == Scan(rest, files + 1, fields)
  {
    assert ([FileField(f)] + rest)[1..] == rest;
  }

  /** A named file under a field name longer than 100 units fails as such, before its type
      or size is looked at. */
  lemma LongFileFieldNameFails(f: FileUpload.FileInfo, rest: seq<Incoming>, files: nat, fields: nat)
    requires files < FILES_LIMIT && fields <= FIELDS_LIMIT
    requires f.originalname != "" && Utf16Length(f.fieldname) > FIELD_NAME_SIZE
    ensures Scan([FileField(f)] + rest, files, fields) == Failed(NAME_TOO_LONG)
  {
    assert ([FileField(f)] + rest)[0] == FileField(f);
  }

  /** A text field's value is checked before its name: an oversized value is reported as
      such whatever the name. */
  lemma ValueCheckedBeforeName(n: string, v: string, rest: seq<Incoming>, files: nat, fields: nat)
    requires files <= FILES_LIMIT && fields < FIELDS_LIMIT && Utf8Length(v) > FIELD_SIZE_LIMIT
    ensures Scan([TextField(n, v)] + rest, files, fields) == Failed(VALUE_TOO_LONG)
  {
    assert ([TextField(n, v)] + rest)[0] == TextField(n, v);
  }

  /** What the parser's report becomes. */
  function Outcome(input: Multipart): ParseResult {
    match input
    case Malformed(reason) => Failed(OtherError(reason))
    case Parts(parts) => Scan(parts, 0, 0)
  }

  /** The message the switch chooses for an error. */
  function UserMessage(e: UploadError): (r: string)
    ensures e.OtherError? ==> r == e.message
    ensures (e.MulterError? && e.code !in {"LIMIT_FILE_SIZE", "LIMIT_FILE_COUNT", "LIMIT_FIELD_COUNT", "LIMIT_UNEXPECTED_FILE"})
            ==> r == "Erro no upload: " + e.message
  {
    match e
    case OtherError(m) => m
    case MulterError(code, m) =>
      if code == "LIMIT_FILE_SIZE" then "Arquivo muito grande. Tamanho máximo: 5MB"
      else if code == "LIMIT_FILE_COUNT" then "Muitos arquivos. Máximo permitido: 10"
      else if code == "LIMIT_FIELD_COUNT" then "Muitos campos. Máximo permitido: 50"
      else if code == "LIMIT_UNEXPECTED_FILE" then "Campo de arquivo inesperado"
      else "Erro no upload: " + m
  }

  /** The 400 body: a multer error also reports its code. */
  function UploadResponse(e: UploadError): Json.Value {
    var common := [("error", Json.Str("Erro de upload")), ("message", Json.Str(UserMessage(e)))];
    Json.Obj(common + (if e.MulterError? then [("code", Json.Str(e.code))] else []))
  }

  /** The messages of the count and size errors: each has its own text. */
  lemma MessagesOfLimitErrors()
    ensures UserMessage(FILE_TOO_LARGE) == "Arquivo muito grande. Tamanho máximo: 5MB"
    ensures UserMessage(TOO_MANY_FILES) == "Muitos arquivos. Máximo permitido: 10"
    ensures UserMessage(TOO_MANY_FIELDS) == "Muitos campos. Máximo permitido: 50"
  {
  }

  /** A field name over its limit falls to the default branch, which prefixes multer's own
      message; so does a value over its limit. */
  lemma MessageOfLongName()
    ensures UserMessage(NAME_TOO_LONG) == "Erro no upload: Field name too long"
  {
  }

  lemma MessageOfLongValue()
    ensures UserMessage(VALUE_TOO_LONG) == "Erro no upload: Field value too long"
  {
  }

  /** With `any()` the unexpected-file branch is dead: no error it raises gets that text. */
  lemma {:induction false} UnexpectedFileNeverChosen(e: UploadError)
    requires PossibleError(e)
    ensures UserMessage(e) != "Campo de arquivo inesperado"
  {
    if e.OtherError? {
      assert e.message[0] == 'T';
    }
  }

  /** The first named file of a disallowed type, within the count and under a short enough
      field name, fails the upload with its type. */
  lemma {:induction false} RejectedTypeFails(f: FileUpload.FileInfo, rest: seq<Incoming>, files: nat, fields: nat)
    requires files < FILES_LIMIT && fields <= FIELDS_LIMIT && f.mimetype !in ALLOWED_MIME_TYPES
    requires f.originalname != "" && Utf16Length(f.fieldname) <= FIELD_NAME_SIZE
    ensures Scan([FileField(f)] + rest, files, fields) == Failed(OtherError("Tipo de arquivo não permitido: " + f.mimetype))
  {
    assert ([FileField(f)] + rest)[0] == FileField(f);
  }

  /** `use`: `next()` at once for other content types; otherwise the parse, then `next()`
      with the files and fields on the request, or the 400 answer. */
  method Use(req: Http.Request, res: Http.Response, input: Multipart) returns (v: Http.Verdict, out: Http.Request)
    modifies res
    ensures !IsMultipart(req.headers) ==> v == Http.Next && out == req
    ensures IsMultipart(req.headers) && Outcome(input).Parsed? ==>
      v == Http.Next && out == req.(files := Outcome(input).files, body := Some(Json.Obj(Outcome(input).fields)))
    ensures v == Http.Next ==>
      res.statusCode == old(res.statusCode) && res.sent == old(res.sent) && res.headersSent == old(res.headersSent)
    ensures IsMultipart(req.headers) && Outcome(input).Failed? ==>
      && v == Http.Answered && out == req && res.statusCode == 400
      && res.sent == old(res.sent) + (if old(res.headersSent) then [] else [Http.JsonBody(UploadResponse(Outcome(input).err))])
      && res.headersSent
    ensures res.headers == old(res.headers) && res.responseTime == old(res.responseTime)
  {
    out := req;
    var contentType := if "content-type" in req.headers then req.headers["content-type"] else "";
    if !Contains(contentType, MULTIPART) {
      return Http.Next, out;
    }
    var outcome := match input
      case Malformed(reason) => Failed(OtherError(reason))
      case Parts(parts) => Scan(parts, 0, 0);
    if outcome.Failed? {
      res.Status(400);
      var ok := res.End(Http.JsonBody(UploadResponse(outcome.err)));
      return Http.Answered, out;
    }
    out := req.(files := outcome.files, body := Some(Json.Obj(outcome.fields)));
    return Http.Next, out;
  }
}
