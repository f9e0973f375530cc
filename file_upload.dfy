/** The upload service: validation of one file, detection and decoding of inline base64 /
    data-URI content (the base64 alphabet of section 4 of RFC 4648, the `data:` syntax of
    section 3 of RFC 2397), extraction of inline files from a JSON body and the multipart part
    list built for forwarding. Base64 decoding itself (Node's `Buffer.from(s, 'base64')`) is
    the parameter `decode`; the clock is the parameter `now`. */
module FileUpload {
  import opened Strings
  import Json

  newtype byte = x: int | 0 <= x < 256

  /** A file as multer and this service describe it. */
  datatype FileInfo = FileInfo(
    fieldname: string,
    originalname: string,
    encoding: string,
    mimetype: string,
    buffer: seq<byte>,
    size: nat)

  /** 5 MiB. */
  const MAX_FILE_SIZE: nat := 5 * 1024 * 1024

  const ALLOWED_MIMETYPES: seq<string> := [
    "image/jpeg", "image/jpg", "image/png", "image/gif", "image/webp", "application/pdf",
    "text/plain", "application/msword",
    "application/vnd.openxmlformats-officedocument.wordprocessingml.document"]

  const ALLOWED_EXTENSIONS: seq<string> := [
    ".jpg", ".jpeg", ".png", ".gif", ".webp", ".pdf", ".txt", ".doc", ".docx"]

  const OCTET_STREAM: string := "application/octet-stream"

  datatype Validation = Valid | Invalid(error: string)

  const SIZE_ERROR: string := "Arquivo muito grande. Tamanho máximo permitido: 5MB"
  const NAME_ERROR: string := "Nome do arquivo inválido ou muito longo"
  const TYPE_ERROR: string := "Tipo de arquivo não permitido: "
  const EXT_ERROR: string := "Extensão de arquivo não permitida: "

  /** `name.toLowerCase().substring(name.lastIndexOf('.'))`: from the last '.' on, lower-cased;
      the whole lower-cased name when there is no '.' (substring clamps -1 to 0). */
  function Extension(name: string): (ext: string)
    ensures '.' in name ==> ext != [] && ext[0] == '.' && '.' !in ext[1..]
    ensures '.' !in name ==> ext == Lower(name) && '.' !in ext
  {
    var i := LastIndexOf(name, '.');
    var lower := Lower(name);
    if i < 0 then lower else
      assert lower[i..][1..] == Lower(name[i + 1..]);
      lower[i..]
  }

  /** The four checks in order; the first that fails is reported. */
  function ValidateFile(file: FileInfo): (r: Validation)
    ensures r.Valid? <==>
      file.size <= MAX_FILE_SIZE && file.mimetype in ALLOWED_MIMETYPES
      && file.originalname != "" && Utf16Length(file.originalname) <= 255
      && Extension(file.originalname) in ALLOWED_EXTENSIONS
    ensures file.size > MAX_FILE_SIZE ==> r == Invalid(SIZE_ERROR)
    ensures file.size <= MAX_FILE_SIZE && file.mimetype !in ALLOWED_MIMETYPES ==>
      r == Invalid(TYPE_ERROR + file.mimetype)
    ensures (file.size <= MAX_FILE_SIZE && file.mimetype in ALLOWED_MIMETYPES
             && (file.originalname == "" || Utf16Length(file.originalname) > 255)) ==> r == Invalid(NAME_ERROR)
    ensures (file.size <= MAX_FILE_SIZE && file.mimetype in ALLOWED_MIMETYPES
             && file.originalname != "" && Utf16Length(file.originalname) <= 255
             && Extension(file.originalname) !in ALLOWED_EXTENSIONS) ==>
      r == Invalid(EXT_ERROR + Extension(file.originalname))
  {
    if file.size > MAX_FILE_SIZE then Invalid(SIZE_ERROR)
    else if file.mimetype !in ALLOWED_MIMETYPES then Invalid(TYPE_ERROR + file.mimetype)
    else if file.originalname == "" || Utf16Length(file.originalname) > 255 then Invalid(NAME_ERROR)
    else
      var ext := Extension(file.originalname);
      if ext !in ALLOWED_EXTENSIONS then Invalid(EXT_ERROR + ext)
      else Valid
  }

  /** Every allowed extension starts with '.', so a name without '.' never passes. */
  lemma NameWithoutDotRejected(file: FileInfo)
    requires '.' !in file.originalname
    ensures ValidateFile(file).Invalid?
  {
    var ext := Extension(file.originalname);
    assert '.' !in ext;
    forall e | e in ALLOWED_EXTENSIONS ensures e != ext {
      assert e[0] == '.';
    }
  }

  /** A file of exactly 5 MiB passes the size check; there is no lower bound here. */
  lemma ExactlyMaxSizeAccepted(buffer: seq<byte>)
    requires |buffer| == MAX_FILE_SIZE
    ensures ValidateFile(FileInfo("f", "report.pdf", "7bit", "application/pdf", buffer, |buffer|)) == Valid
    ensures ValidateFile(FileInfo("f", "report.pdf", "7bit", "application/pdf", [], 0)) == Valid
  {
    ReportPdfValid(buffer);
    ReportPdfValid([]);
  }

  lemma ReportPdfValid(buffer: seq<byte>)
    requires |buffer| <= MAX_FILE_SIZE
    ensures ValidateFile(FileInfo("f", "report.pdf", "7bit", "application/pdf", buffer, |buffer|)) == Valid
  {
    PdfExtension();
    assert "application/pdf" == ALLOWED_MIMETYPES[5];
    assert ".pdf" == ALLOWED_EXTENSIONS[5];
  }

  lemma PdfExtension()
    ensures Extension("report.pdf") == ".pdf"
  {
    assert LastIndexOf("report.pdf", '.') == 6;
    assert Lower("report.pdf")[6..] == ".pdf";
  }

  /** A 6 MiB PNG is rejected for its size. */
  lemma OversizeRejected(b6: seq<byte>)
    requires |b6| == 6 * 1024 * 1024
    ensures ValidateFile(FileInfo("f", "a.png", "7bit", "image/png", b6, |b6|)) == Invalid(SIZE_ERROR)
  {
    assert |b6| > MAX_FILE_SIZE;
  }

  /** A 1 KiB executable is rejected for its type, with the type in the message. */
  lemma ExecutableRejected(b1: seq<byte>)
    requires |b1| == 1024
    ensures ValidateFile(FileInfo("f", "a.exe", "7bit", "application/x-executable", b1, |b1|))
            == Invalid(TYPE_ERROR + "application/x-executable")
  {
    var m := "application/x-executable";
    assert |m| == 24;
    forall t | t in ALLOWED_MIMETYPES ensures t != m {
      assert |t| != 24;
    }
    assert m !in ALLOWED_MIMETYPES;
  }

  /** The `mimeToExt` table: each known type with its extension. */
  const MIME_TO_EXT: seq<(string, string)> := [
    ("image/jpeg", ".jpg"), ("image/jpg", ".jpg"), ("image/png", ".png"), ("image/gif", ".gif"),
    ("image/webp", ".webp"), ("application/pdf", ".pdf"), ("text/plain", ".txt"),
    ("application/msword", ".doc"),
    ("application/vnd.openxmlformats-officedocument.wordprocessingml.document", ".docx")]

  /** The methods every object literal inherits from `Object.prototype`. */
  const PROTOTYPE_METHODS: seq<string> := [
    "hasOwnProperty", "isPrototypeOf", "propertyIsEnumerable", "toLocaleString", "toString",
    "valueOf", "__defineGetter__", "__defineSetter__", "__lookupGetter__", "__lookupSetter__"]

  const CONSTRUCTOR_TEXT: string := "function Object() { [native code] }"
  const PROTOTYPE_TEXT: string := "[object Object]"

  /** How a native function prints: `function name() { [native code] }`. */
  function NativeText(name: string): string {
    "function " + name + "() { [native code] }"
  }

  /** The text `${obj[key]}` gives for a key an object literal inherits rather than owns:
      the `Object` constructor, the prototype itself, or a native method. */
  function InheritedMember(key: string): Option<string> {
    if key == "constructor" then Some(CONSTRUCTOR_TEXT)
    else if key == "__proto__" then Some(PROTOTYPE_TEXT)
    else if key in PROTOTYPE_METHODS then Some(NativeText(key))
    else None
  }

  lemma FixedTextsHaveNoDot()
    ensures '.' !in CONSTRUCTOR_TEXT && '.' !in PROTOTYPE_TEXT
  {
  }

  lemma MethodNamesHaveNoDot()
    ensures forall m :: m in PROTOTYPE_METHODS ==> '.' !in m
  {
  }

  lemma NativeTextHasNoDot(name: string)
    requires '.' !in name
    ensures '.' !in NativeText(name)
  {
  }

  /** No inherited member's text is empty or contains a '.'. */
  lemma InheritedMemberHasNoDot(key: string)
    ensures InheritedMember(key).Some? ==> InheritedMember(key).value != "" && '.' !in InheritedMember(key).value
  {
    if key == "constructor" || key == "__proto__" {
      FixedTextsHaveNoDot();
    } else if key in PROTOTYPE_METHODS {
      MethodNamesHaveNoDot();
      NativeTextHasNoDot(key);
    }
  }

  /** `mimeToExt[mimeType] || '.bin'`: the table's extension for a known type, the text of
      an inherited member for a prototype key, and ".bin" for anything else. */
  function GetExtensionFromMimeType(mimeType: string): (ext: string)
    ensures mimeType in ALLOWED_MIMETYPES ==> ext in ALLOWED_EXTENSIONS
    ensures mimeType !in ALLOWED_MIMETYPES && InheritedMember(mimeType).Some? ==> ext == InheritedMember(mimeType).value
    ensures mimeType !in ALLOWED_MIMETYPES && InheritedMember(mimeType).None? ==> ext == ".bin"
  {
    if mimeType == "image/jpeg" || mimeType == "image/jpg" then ".jpg"
    else if mimeType == "image/png" then ".png"
    else if mimeType == "image/gif" then ".gif"
    else if mimeType == "image/webp" then ".webp"
    else if mimeType == "application/pdf" then ".pdf"
    else if mimeType == "text/plain" then ".txt"
    else if mimeType == "application/msword" then ".doc"
    else if mimeType == "application/vnd.openxmlformats-officedocument.wordprocessingml.document" then ".docx"
    else if InheritedMember(mimeType).Some? then InheritedMember(mimeType).value
    else ".bin"
  }

  /** Each type of the `mimeToExt` table gets the extension the table pairs it with. */
  lemma MimeToExtTable()
    ensures forall i :: 0 <= i < |MIME_TO_EXT| ==> GetExtensionFromMimeType(MIME_TO_EXT[i].0) == MIME_TO_EXT[i].1
  {
  }

  /** An extension is never empty; one that has a '.' is a lower-case '.' and a dot-free rest. */
  lemma ExtensionShape(mimeType: string)
    ensures var ext := GetExtensionFromMimeType(mimeType);
      ext != [] && ('.' in ext ==> ext[0] == '.' && '.' !in ext[1..] && Lower(ext) == ext)
  {
    if mimeType in ALLOWED_MIMETYPES {
      ExtensionsShape();
    } else if InheritedMember(mimeType).Some? {
      InheritedMemberHasNoDot(mimeType);
    } else {
      ExtensionsShape();
    }
  }

  lemma ExtensionsShape()
    ensures forall e :: e in ALLOWED_EXTENSIONS + [".bin"] ==>
      e != [] && e[0] == '.' && '.' !in e[1..] && Lower(e) == e
  {
    forall e | e in ALLOWED_EXTENSIONS + [".bin"] ensures e != [] && e[0] == '.' && '.' !in e[1..] && Lower(e) == e {
      assert forall i :: 0 <= i < |e| ==> !('A' <= e[i] <= 'Z');
    }
  }

  /** A data URL of type `constructor` gets a generated name ending in the text of the
      `Object` constructor. */
  lemma ConstructorTypeName(now: nat)
    ensures GeneratedName(now, "constructor") == "arquivo_" + NatToString(now) + "function Object() { [native code] }"
  {
    assert "constructor" !in ALLOWED_MIMETYPES;
  }

  /** `arquivo_<ms><ext>`, the name given to an inline file that came without one. */
  function GeneratedName(now: nat, mimeType: string): string {
    "arquivo_" + NatToString(now) + GetExtensionFromMimeType(mimeType)
  }

  /** The last '.' of a dot-free stem followed by an extension is the extension's own. */
  lemma LastDotOfSuffix(stem: string, ext: string)
    requires '.' !in stem && ext != [] && ext[0] == '.' && '.' !in ext[1..]
    ensures LastIndexOf(stem + ext, '.') == |stem|
  {
    var name := stem + ext;
    var k := |stem|;
    assert name[k] == '.';
    forall j | k < j < |name| ensures name[j] != '.' {
      assert name[j] == ext[1..][j - k - 1];
    }
  }

  lemma LowerSuffix(s: string, k: nat)
    requires k <= |s|
    ensures Lower(s)[k..] == Lower(s[k..])
  {
  }

  /** A name made of a dot-free stem and an extension ends in that extension. */
  lemma ExtensionOfSuffix(stem: string, ext: string)
    requires '.' !in stem && ext != [] && ext[0] == '.' && '.' !in ext[1..]
    ensures Extension(stem + ext) == Lower(ext)
  {
    LastDotOfSuffix(stem, ext);
    LowerSuffix(stem + ext, |stem|);
    assert (stem + ext)[|stem|..] == ext;
  }

  /** ".bin" is not an allowed extension. */
  lemma BinNotAllowed()
    ensures ".bin" !in ALLOWED_EXTENSIONS
  {
    forall e | e in ALLOWED_EXTENSIONS ensures e != ".bin" {
      assert |e| != 4 || e[1] != 'b';
    }
  }

  /** The extension of a generated name is the one its MIME type implies, so an inline file
      of an allowed type gets a name that passes the extension check; one of an unknown type
      gets ".bin", and one whose type is an inherited member's name gets a name without any
      '.', and the extension check rejects both. */
  lemma {:induction false} GeneratedNameExtension(now: nat, mimeType: string)
    ensures '.' in GetExtensionFromMimeType(mimeType) ==>
      Extension(GeneratedName(now, mimeType)) == GetExtensionFromMimeType(mimeType)
    ensures mimeType !in ALLOWED_MIMETYPES && InheritedMember(mimeType).Some? ==>
      Extension(GeneratedName(now, mimeType)) == Lower(GeneratedName(now, mimeType))
    ensures mimeType in ALLOWED_MIMETYPES <==> Extension(GeneratedName(now, mimeType)) in ALLOWED_EXTENSIONS
  {
    var ext := GetExtensionFromMimeType(mimeType);
    var stem := "arquivo_" + NatToString(now);
    var name := GeneratedName(now, mimeType);
    assert name == stem + ext;
    StemHasNoDot(now);
    ExtensionShape(mimeType);
    ExtensionsShape();
    InheritedMemberHasNoDot(mimeType);
    if '.' in ext {
      ExtensionOfSuffix(stem, ext);
      BinNotAllowed();
    } else {
      NoDotConcat(stem, ext);
      forall e | e in ALLOWED_EXTENSIONS ensures e != Extension(name) {
        assert e in ALLOWED_EXTENSIONS + [".bin"];
      }
    }
  }

  lemma StemHasNoDot(now: nat)
    ensures '.' !in "arquivo_" + NatToString(now)
  {
    var digits := NatToString(now);
    var stem := "arquivo_" + digits;
    forall j | 0 <= j < |stem| ensures stem[j] != '.' {
      if j >= 8 { assert stem[j] == digits[j - 8] && IsDigit(digits[j - 8]); }
    }
  }

  lemma NoDotConcat(a: string, b: string)
    requires '.' !in a && '.' !in b
    ensures '.' !in a + b
  {
  }

  /** A `data:<type>;base64,` prefix, as `/^data:([^;]+);base64,/` matches it: the type runs
      from after "data:" to the first ';' and is not empty. */
  predicate HasDataUrlPrefix(v: string) {
    StartsWith(v, "data:") && ';' in v[5..]
    && var i := FirstIndex(v[5..], ';');
       i >= 1 && StartsWith(v[5 + i..], ";base64,")
  }

  /** The declared type of a data URI, the first group of that pattern. */
  function DataUrlType(v: string): string
    requires HasDataUrlPrefix(v)
  {
    v[5..5 + FirstIndex(v[5..], ';')]
  }

  /** What follows the `data:<type>;base64,` prefix. */
  function DataUrlPayload(v: string): string
    requires HasDataUrlPrefix(v)
  {
    v[5 + FirstIndex(v[5..], ';') + 8..]
  }

  predicate IsBase64AlphabetChar(ch: char) {
    ('A' <= ch <= 'Z') || ('a' <= ch <= 'z') || IsDigit(ch) || ch == '+' || ch == '/'
  }

  /** `/^[A-Za-z0-9+/]+=*$/`: a non-empty run of the base64 alphabet, then only '=' padding. */
  predicate IsBase64Text(v: string) {
    exists k :: 1 <= k <= |v| && AlphabetUpTo(v, k)
  }

  predicate AlphabetUpTo(v: string, k: nat)
    requires k <= |v|
  {
    (forall i :: 0 <= i < k ==> IsBase64AlphabetChar(v[i])) && (forall i :: k <= i < |v| ==> v[i] == '=')
  }

  /** The inline-file test: a data URI, or more than 100 characters of base64 text. */
  predicate IsBase64File(v: string) {
    HasDataUrlPrefix(v) || (|v| > 100 && IsBase64Text(v))
  }

  /** A data URI is recognised and its declared type is extracted. */
  lemma DataUrlDetected(payload: string)
    ensures HasDataUrlPrefix("data:image/png;base64," + payload)
    ensures DataUrlType("data:image/png;base64," + payload) == "image/png"
    ensures DataUrlPayload("data:image/png;base64," + payload) == payload
    ensures IsBase64File("data:image/png;base64," + payload)
  {
    var v := "data:image/png;base64," + payload;
    assert v[5..][9] == ';';
    assert FirstIndex(v[5..], ';') == 9;
  }

  /** A string of at most 100 characters that does not begin with "data:" is never a file,
      so a short numeric field is not mistaken for one. */
  lemma ShortValueNotFile(v: string)
    requires |v| <= 100 && !StartsWith(v, "data:")
    ensures !IsBase64File(v)
  {
  }

  /** More than 100 characters of the base64 alphabet are a file. */
  lemma LongBase64IsFile(v: string)
    requires |v| > 100 && forall i :: 0 <= i < |v| ==> IsBase64AlphabetChar(v[i])
    ensures IsBase64File(v)
  {
    assert AlphabetUpTo(v, |v|);
  }

  /** Line terminators, which `.` in a JavaScript pattern does not match. */
  predicate IsLineTerminator(ch: char) {
    ch == '\n' || ch == '\r' || ch == '\U{2028}' || ch == '\U{2029}'
  }

  /** `/^data:([^;]+);base64,(.+)$/`: the prefix, then a non-empty payload on one line. */
  predicate IsFullDataUrl(v: string) {
    HasDataUrlPrefix(v) && DataUrlPayload(v) != []
    && forall i :: 0 <= i < |DataUrlPayload(v)| ==> !IsLineTerminator(DataUrlPayload(v)[i])
  }

  /** Parses one inline file. `data`, `filename` and `mimetype` are JavaScript values; an absent
      property is `Json.Null`, which behaves like `undefined` in `||` and `!`. Non-string data
      makes `match` throw, which the source catches and turns into `null`. */
  function ParseBase64File(fieldName: string, data: Json.Value, filename: Json.Value,
                           mimetype: Json.Value, now: nat, decode: string -> seq<byte>): (r: Option<FileInfo>)
    ensures r.Some? ==> data.Str? && r.value.fieldname == fieldName
    ensures r.Some? ==> 10 <= r.value.size <= MAX_FILE_SIZE && r.value.size == |r.value.buffer|
    ensures r.Some? ==> r.value.encoding == "base64"
    ensures data.Str? && Json.Truthy(mimetype) ==> r.Some? ==> r.value.mimetype == Json.JsString(mimetype)
    ensures data.Str? && !Json.Truthy(mimetype) && IsFullDataUrl(data.s) ==> r.Some? ==>
      r.value.mimetype == DataUrlType(data.s) && r.value.buffer == decode(DataUrlPayload(data.s))
    ensures data.Str? && !Json.Truthy(mimetype) && !IsFullDataUrl(data.s) ==> r.Some? ==>
      r.value.mimetype == OCTET_STREAM
    ensures data.Str? && !IsFullDataUrl(data.s) ==> r.Some? ==> r.value.buffer == decode(data.s)
    ensures data.Str? ==> (r.Some? <==> 10 <= |decode(if IsFullDataUrl(data.s) then DataUrlPayload(data.s) else data.s)| <= MAX_FILE_SIZE)
    ensures data.Str? && r.Some? && Json.Truthy(filename) ==> r.value.originalname == Json.JsString(filename)
    ensures data.Str? && r.Some? && !Json.Truthy(filename) ==> r.value.originalname == GeneratedName(now, r.value.mimetype)
  {
    if !data.Str? then None
    else
      var full := IsFullDataUrl(data.s);
      var mimeType := if !Json.Truthy(mimetype) && full then Json.Str(DataUrlType(data.s)) else mimetype;
      var base64String := if full then DataUrlPayload(data.s) else data.s;
      var finalMime := if Json.Truthy(mimeType) then Json.JsString(mimeType) else OCTET_STREAM;
      var fileName := if Json.Truthy(filename) then Json.JsString(filename) else GeneratedName(now, finalMime);
      var buffer := decode(base64String);
      if |buffer| < 10 || |buffer| > MAX_FILE_SIZE then None
      else Some(FileInfo(fieldName, fileName, "base64", finalMime, buffer, |buffer|))
  }

  /** `base64ToFile`: strips a data-URI prefix, decodes, and files the result under "file". */
  function Base64ToFile(base64Data: string, filename: string, mimetype: string,
                        decode: string -> seq<byte>): (f: FileInfo)
    ensures f.fieldname == "file" && f.encoding == "7bit"
    ensures f.originalname == filename && f.mimetype == mimetype
    ensures f.buffer == decode(if HasDataUrlPrefix(base64Data) then DataUrlPayload(base64Data) else base64Data)
    ensures f.size == |f.buffer|
  {
    var s := if HasDataUrlPrefix(base64Data) then DataUrlPayload(base64Data) else base64Data;
    var buffer := decode(s);
    FileInfo("file", filename, "7bit", mimetype, buffer, |buffer|)
  }

  /** What one body entry contributes: a file, or nothing (it then stays in the body). */
  function FileOf(key: string, value: Json.Value, now: nat, decode: string -> seq<byte>): Option<FileInfo> {
    match value
    case Str(s) =>
      if IsBase64File(s) then ParseBase64File(key, value, Json.Null, Json.Null, now, decode) else None
    case Obj(f) =>
      if Json.HasKey(f, "data") && Json.HasKey(f, "filename") then
        ParseBase64File(key, Json.Get(f, "data").value, Json.Get(f, "filename").value,
                        PropertyOrNull(f, "mimetype"), now, decode)
      else None
    case _ => None
  }

  /** `obj.k`, with `undefined` modelled as null. */
  function PropertyOrNull(f: Json.Fields, k: string): Json.Value {
    match Json.Get(f, k)
    case Some(v) => v
    case None => Json.Null
  }

  /** The entry parser of one extraction run, for the clock and the decoder it uses. */
  function Picker(now: nat, decode: string -> seq<byte>): (string, Json.Value) -> Option<FileInfo> {
    (k: string, v: Json.Value) => FileOf(k, v, now, decode)
  }

  /** The files `pick` finds in a body, in field order. */
  function ExtractedFiles(body: Json.Fields, pick: (string, Json.Value) -> Option<FileInfo>): seq<FileInfo>
    decreases |body|
  {
    if body == [] then []
    else AsSeq(pick(body[0].0, body[0].1)) + ExtractedFiles(body[1..], pick)
  }

  function AsSeq(o: Option<FileInfo>): (r: seq<FileInfo>)
    ensures o.Some? ==> r == [o.value]
    ensures o.None? ==> r == []
  {
    if o.Some? then [o.value] else []
  }

  /** The body left after the fields that produced a file are deleted. */
  function RemainingBody(body: Json.Fields, pick: (string, Json.Value) -> Option<FileInfo>): Json.Fields
    decreases |body|
  {
    if body == [] then []
    else
      var rest := RemainingBody(body[1..], pick);
      if pick(body[0].0, body[0].1).Some? then rest else [body[0]] + rest
  }

  /** Every extracted file comes from an entry of the body, and the remaining body is exactly
      the entries that gave no file. */
  lemma {:induction false} PickPartition(body: Json.Fields, pick: (string, Json.Value) -> Option<FileInfo>)
    ensures forall f :: f in ExtractedFiles(body, pick) ==> exists e :: e in body && pick(e.0, e.1) == Some(f)
    ensures forall e :: e in RemainingBody(body, pick) <==> e in body && pick(e.0, e.1).None?
    decreases |body|
  {
    if body != [] {
      PickPartition(body[1..], pick);
      var fo := pick(body[0].0, body[0].1);
      forall f | f in ExtractedFiles(body, pick)
        ensures exists e :: e in body && pick(e.0, e.1) == Some(f)
      {
        if fo == Some(f) {
          assert body[0] in body;
        } else {
          assert f in ExtractedFiles(body[1..], pick);
          var e :| e in body[1..] && pick(e.0, e.1) == Some(f);
          assert e in body;
        }
      }
      assert forall e :: e in body <==> e == body[0] || e in body[1..];
    }
  }

  /** Every extracted file is filed under the key it came from, and that key no longer
      appears in the remaining body; every other entry is kept unchanged. */
  lemma ExtractionPartition(body: Json.Fields, now: nat, decode: string -> seq<byte>)
    ensures forall f :: f in ExtractedFiles(Json.Entries(body), Picker(now, decode)) ==>
      exists e :: e in body && f.fieldname == e.0 && FileOf(e.0, e.1, now, decode) == Some(f)
    ensures forall e :: e in RemainingBody(Json.Entries(body), Picker(now, decode)) <==>
      e in body && FileOf(e.0, e.1, now, decode).None?
  {
    var pick := Picker(now, decode);
    PickPartition(Json.Entries(body), pick);
    Json.EntriesMembers(body);
    forall f | f in ExtractedFiles(Json.Entries(body), pick)
      ensures exists e :: e in body && f.fieldname == e.0 && FileOf(e.0, e.1, now, decode) == Some(f)
    {
      var e :| e in body && pick(e.0, e.1) == Some(f);
      FileOfFieldname(e.0, e.1, now, decode);
    }
  }

  lemma FileOfFieldname(key: string, value: Json.Value, now: nat, decode: string -> seq<byte>)
    ensures FileOf(key, value, now, decode).Some? ==> FileOf(key, value, now, decode).value.fieldname == key
  {
  }

  /** An object carrying both `data` and `filename` is parsed whatever its length, with the
      name it carries. */
  lemma DescriptorParsed(key: string, data: string, name: string, now: nat, decode: string -> seq<byte>)
    requires name != "" && 10 <= |decode(data)| <= MAX_FILE_SIZE && !IsFullDataUrl(data)
    ensures FileOf(key, Json.Obj([("data", Json.Str(data)), ("filename", Json.Str(name))]), now, decode)
            == Some(FileInfo(key, name, "base64", OCTET_STREAM, decode(data), |decode(data)|))
  {
    var f := [("data", Json.Str(data)), ("filename", Json.Str(name))];
    assert Json.Keys(f) == ["data", "filename"];
  }

  /** The body with the entries up to `i` processed: extracted entries deleted. */
  function PartlyCleaned(body: Json.Fields, i: nat, pick: (string, Json.Value) -> Option<FileInfo>): Json.Fields
    requires i <= |body|
  {
    RemainingBody(body[..i], pick) + body[i..]
  }

  lemma {:induction false} ExtractedFilesAppend(a: Json.Fields, e: (string, Json.Value),
                                                pick: (string, Json.Value) -> Option<FileInfo>)
    ensures ExtractedFiles(a + [e], pick) == ExtractedFiles(a, pick) + AsSeq(pick(e.0, e.1))
    decreases |a|
  {
    var z := AsSeq(pick(e.0, e.1));
    if a == [] {
      assert [e][1..] == [];
      assert ExtractedFiles([e], pick) == z + ExtractedFiles([], pick);
      assert a + [e] == [e];
    } else {
      var ae := a + [e];
      assert ae[0] == a[0] && ae[1..] == a[1..] + [e];
      var x := AsSeq(pick(a[0].0, a[0].1));
      var y := ExtractedFiles(a[1..], pick);
      ExtractedFilesAppend(a[1..], e, pick);
      assert ExtractedFiles(ae, pick) == x + (y + z);
      assert ExtractedFiles(a, pick) == x + y;
      assert x + (y + z) == (x + y) + z;
    }
  }

  lemma {:induction false} RemainingBodyAppend(a: Json.Fields, e: (string, Json.Value),
                                               pick: (string, Json.Value) -> Option<FileInfo>)
    ensures RemainingBody(a + [e], pick) == RemainingBody(a, pick) + (if pick(e.0, e.1).Some? then [] else [e])
    decreases |a|
  {
    var z: Json.Fields := if pick(e.0, e.1).Some? then [] else [e];
    if a == [] {
      assert [e][1..] == [];
      assert RemainingBody([e], pick) == z;
      assert a + [e] == [e];
    } else {
      var ae := a + [e];
      assert ae[0] == a[0] && ae[1..] == a[1..] + [e];
      var x: Json.Fields := if pick(a[0].0, a[0].1).Some? then [] else [a[0]];
      var y := RemainingBody(a[1..], pick);
      RemainingBodyAppend(a[1..], e, pick);
      assert RemainingBody(ae, pick) == x + (y + z);
      assert RemainingBody(a, pick) == x + y;
      assert x + (y + z) == (x + y) + z;
    }
  }

  /** Deleting the key of the first unprocessed entry from the partly cleaned body removes
      exactly that entry, since object keys are unique. */
  lemma WithoutCurrent(body: Json.Fields, i: nat, pick: (string, Json.Value) -> Option<FileInfo>)
    requires Json.UniqueKeys(body) && i < |body|
    ensures Json.Without(PartlyCleaned(body, i, pick), body[i].0) == RemainingBody(body[..i], pick) + body[i + 1..]
  {
    var k := body[i].0;
    PickPartition(body[..i], pick);
    WithoutAbsent(RemainingBody(body[..i], pick), body[i..], k);
    WithoutFresh(body[i + 1..], k, body, i);
    assert body[i..] == [body[i]] + body[i + 1..];
  }

  lemma WithoutAbsent(a: Json.Fields, b: Json.Fields, k: string)
    requires forall e :: e in a ==> e.0 != k
    ensures Json.Without(a + b, k) == a + Json.Without(b, k)
  {
    forall i | 0 <= i < |a| ensures a[i].0 != k {
      assert a[i] in a;
    }
    WithoutAbsentAt(a, b, k);
  }

  lemma {:induction false} WithoutAbsentAt(a: Json.Fields, b: Json.Fields, k: string)
    requires forall i :: 0 <= i < |a| ==> a[i].0 != k
    ensures Json.Without(a + b, k) == a + Json.Without(b, k)
    decreases |a|
  {
    if a != [] {
      assert a + b == [a[0]] + (a[1..] + b);
      WithoutKept(a[0], a[1..] + b, k);
      WithoutAbsentAt(a[1..], b, k);
      var w := Json.Without(b, k);
      assert a == [a[0]] + a[1..];
      assert [a[0]] + (a[1..] + w) == ([a[0]] + a[1..]) + w;
    } else {
      assert a + b == b;
    }
  }

  lemma WithoutKept(e: (string, Json.Value), rest: Json.Fields, k: string)
    requires e.0 != k
    ensures Json.Without([e] + rest, k) == [e] + Json.Without(rest, k)
  {
    assert ([e] + rest)[1..] == rest;
  }

  lemma WithoutFresh(rest: Json.Fields, k: string, body: Json.Fields, i: nat)
    requires Json.UniqueKeys(body) && i < |body| && rest == body[i + 1..] && k == body[i].0
    ensures Json.Without([body[i]] + rest, k) == rest
  {
    assert ([body[i]] + rest)[1..] == rest;
    WithoutNone(body, i, i + 1);
  }

  /** No entry after the `i`-th has its key, so deleting that key from them changes nothing. */
  lemma {:induction false} WithoutNone(body: Json.Fields, i: nat, j: nat)
    requires Json.UniqueKeys(body) && i < j <= |body|
    ensures Json.Without(body[j..], body[i].0) == body[j..]
    decreases |body| - j
  {
    if j < |body| {
      var rest := body[j..];
      assert rest[0] == body[j] && rest[1..] == body[j + 1..];
      assert body[j].0 != body[i].0;
      WithoutNone(body, i, j + 1);
    }
  }

  /** The body of the loop in `processBase64Files`: a base64 string is parsed as such, an
      object with `data` and `filename` as a file descriptor; anything else is no file. */
  method EntryFile(key: string, value: Json.Value, now: nat, decode: string -> seq<byte>)
    returns (fileInfo: Option<FileInfo>)
    ensures fileInfo == FileOf(key, value, now, decode)
  {
    fileInfo := None;
    if value.Str? && IsBase64File(value.s) {
      fileInfo := ParseBase64File(key, value, Json.Null, Json.Null, now, decode);
    } else if Json.IsObjectType(value) && value != Json.Null {
      if value.Obj? && Json.HasKey(value.fields, "data") && Json.HasKey(value.fields, "filename") {
        fileInfo := ParseBase64File(key, Json.Get(value.fields, "data").value,
          Json.Get(value.fields, "filename").value, PropertyOrNull(value.fields, "mimetype"), now, decode);
      }
    }
  }

  /** One step of the extraction loop, on the specification functions: the files. */
  lemma ExtractedStep(body: Json.Fields, i: nat, pick: (string, Json.Value) -> Option<FileInfo>)
    requires i < |body|
    ensures ExtractedFiles(body[..i + 1], pick) == ExtractedFiles(body[..i], pick) + AsSeq(pick(body[i].0, body[i].1))
  {
    assert body[..i + 1] == body[..i] + [body[i]];
    ExtractedFilesAppend(body[..i], body[i], pick);
  }

  /** One step of the extraction loop, on the specification functions: the cleaned body. */
  lemma CleanedStep(body: Json.Fields, i: nat, pick: (string, Json.Value) -> Option<FileInfo>)
    requires Json.UniqueKeys(body) && i < |body|
    ensures PartlyCleaned(body, i + 1, pick) ==
      if pick(body[i].0, body[i].1).Some?
      then Json.Without(PartlyCleaned(body, i, pick), body[i].0)
      else PartlyCleaned(body, i, pick)
  {
    var head := body[..i];
    var r0 := RemainingBody(head, pick);
    assert body[..i + 1] == head + [body[i]];
    RemainingBodyAppend(head, body[i], pick);
    var r1 := RemainingBody(body[..i + 1], pick);
    assert PartlyCleaned(body, i + 1, pick) == r1 + body[i + 1..];
    assert PartlyCleaned(body, i, pick) == r0 + body[i..];
    if pick(body[i].0, body[i].1).Some? {
      assert r1 == r0;
      WithoutCurrent(body, i, pick);
    } else {
      assert r1 == r0 + [body[i]];
      assert body[i..] == [body[i]] + body[i + 1..];
    }
  }

  /** `processBase64Files`: visits the fields in `Object.entries` order, collects every inline
      file and deletes its field from a copy of the body. The spread copy `{ ...body }` receives
      its keys in that same order. */
  method ProcessBase64Files(body: Json.Fields, now: nat, decode: string -> seq<byte>)
    returns (files: seq<FileInfo>, cleanBody: Json.Fields)
    requires Json.UniqueKeys(body)
    ensures files == ExtractedFiles(Json.Entries(body), Picker(now, decode))
    ensures cleanBody == RemainingBody(Json.Entries(body), Picker(now, decode))
  {
    var pick := Picker(now, decode);
    var entries := Json.Entries(body);
    Json.EntriesUnique(body);
    files := [];
    cleanBody := entries;
    var i := 0;
    while i < |entries|
      invariant 0 <= i <= |entries|
      invariant files == ExtractedFiles(entries[..i], pick)
      invariant cleanBody == PartlyCleaned(entries, i, pick)
    {
      var (key, value) := entries[i];
      var fileInfo := EntryFile(key, value, now, decode);
      assert fileInfo == pick(key, value);
      ExtractedStep(entries, i, pick);
      CleanedStep(entries, i, pick);
      if fileInfo.Some? {
        files := files + [fileInfo.value];
        cleanBody := Json.Without(cleanBody, key);
      }
      i := i + 1;
    }
    assert entries[..i] == entries;
  }

  /** One part of the outgoing multipart form. */
  datatype Part =
    | TextPart(name: string, value: string)
    | FilePart(name: string, content: seq<byte>, filename: string, contentType: string)

  /** The text parts: every field except `targetUrl`, stringified, in field order. */
  function TextParts(fields: Json.Fields): (r: seq<Part>)
    ensures forall p :: p in r ==> p.TextPart? && p.name != "targetUrl"
    decreases |fields|
  {
    if fields == [] then []
    else
      var rest := TextParts(fields[1..]);
      if fields[0].0 == "targetUrl" then rest
      else [TextPart(fields[0].0, Json.JsString(fields[0].1))] + rest
  }

  /** The file parts: one per file, in order, under its field name. */
  function FileParts(files: seq<FileInfo>): (r: seq<Part>)
    ensures |r| == |files|
    ensures forall i :: 0 <= i < |files| ==>
      r[i] == FilePart(files[i].fieldname, files[i].buffer, files[i].originalname, files[i].mimetype)
  {
    seq(|files|, i requires 0 <= i < |files| =>
      FilePart(files[i].fieldname, files[i].buffer, files[i].originalname, files[i].mimetype))
  }

  lemma {:induction false} TextPartsAppend(a: Json.Fields, e: (string, Json.Value))
    ensures TextParts(a + [e]) == TextParts(a) +
      (if e.0 == "targetUrl" then [] else [TextPart(e.0, Json.JsString(e.1))])
    decreases |a|
  {
    if a == [] {
      assert [e][1..] == [];
    } else {
      assert (a + [e])[1..] == a[1..] + [e];
      TextPartsAppend(a[1..], e);
    }
  }

  /** Every non-`targetUrl` field becomes exactly one text part carrying `String(value)`. */
  lemma {:induction false} TextPartsFaithful(fields: Json.Fields)
    ensures forall e :: e in fields && e.0 != "targetUrl" ==> TextPart(e.0, Json.JsString(e.1)) in TextParts(fields)
    ensures forall p :: p in TextParts(fields) ==> exists e :: e in fields && p == TextPart(e.0, Json.JsString(e.1))
    decreases |fields|
  {
    if fields != [] {
      TextPartsFaithful(fields[1..]);
      assert forall e :: e in fields <==> e == fields[0] || e in fields[1..];
      forall p | p in TextParts(fields)
        ensures exists e :: e in fields && p == TextPart(e.0, Json.JsString(e.1))
      {
        if p in TextParts(fields[1..]) {
          var e :| e in fields[1..] && p == TextPart(e.0, Json.JsString(e.1));
          assert e in fields;
        } else {
          assert p == TextPart(fields[0].0, Json.JsString(fields[0].1));
        }
      }
    }
  }

  /** `createFormData`: appends the text fields in `Object.entries` order, then the files. */
  method CreateFormData(files: seq<FileInfo>, textFields: Json.Fields) returns (parts: seq<Part>)
    ensures parts == TextParts(Json.Entries(textFields)) + FileParts(files)
  {
    var entries := Json.Entries(textFields);
    parts := [];
    var i := 0;
    while i < |entries|
      invariant 0 <= i <= |entries|
      invariant parts == TextParts(entries[..i])
    {
      var (key, value) := entries[i];
      TextPartsStep(entries, i);
      if key != "targetUrl" {
        parts := parts + [TextPart(key, Json.JsString(value))];
      }
      i := i + 1;
    }
    assert entries[..i] == entries;
    var text := parts;
    var j := 0;
    while j < |files|
      invariant 0 <= j <= |files|
      invariant parts == text + FileParts(files[..j])
    {
      var file := files[j];
      FilePartsStep(files, j);
      parts := parts + [FilePart(file.fieldname, file.buffer, file.originalname, file.mimetype)];
      j := j + 1;
    }
    assert files[..j] == files;
  }

  lemma TextPartsStep(fields: Json.Fields, i: nat)
    requires i < |fields|
    ensures TextParts(fields[..i + 1]) == TextParts(fields[..i]) +
      (if fields[i].0 == "targetUrl" then [] else [TextPart(fields[i].0, Json.JsString(fields[i].1))])
  {
    TextPartsAppend(fields[..i], fields[i]);
    assert fields[..i + 1] == fields[..i] + [fields[i]];
  }

  lemma FilePartsStep(files: seq<FileInfo>, j: nat)
    requires j < |files|
    ensures FileParts(files[..j + 1]) == FileParts(files[..j]) +
      [FilePart(files[j].fieldname, files[j].buffer, files[j].originalname, files[j].mimetype)]
  {
  }

  /** All text parts come before all file parts, and no part is named `targetUrl` unless it is a file. */
  lemma FormDataLayout(files: seq<FileInfo>, textFields: Json.Fields)
    ensures var parts := TextParts(textFields) + FileParts(files);
      forall i, j :: 0 <= i < j < |parts| && parts[j].TextPart? ==> parts[i].TextPart?
  {
    var t := TextParts(textFields);
    var parts := t + FileParts(files);
    forall i, j | 0 <= i < j < |parts| && parts[j].TextPart? ensures parts[i].TextPart? {
      assert j < |t|;
      assert parts[i] in t;
    }
  }

  /** The log view of a file: its description without the content. */
  datatype FileLog = FileLog(fieldname: string, originalname: string, mimetype: string, size: nat, encoding: string)

  function SanitizeFileLog(file: FileInfo): FileLog {
    FileLog(file.fieldname, file.originalname, file.mimetype, file.size, file.encoding)
  }

  /** The log view cannot depend on the content: two files have the same view exactly when
      they differ at most in their buffers. */
  lemma SanitizeFileLogIgnoresBuffer(f: FileInfo, g: FileInfo)
    ensures SanitizeFileLog(f) == SanitizeFileLog(g) <==> f.(buffer := g.buffer) == g
  {
  }
}
