/** The part of the WHATWG URL parser (`new URL(s)`) the gateway relies on, for the two special
    schemes `http` and `https` that every normalised target URL starts with: the cleaning of
    the input, the scheme, the slashes after it, the authority, the host after the last '@',
    and the port. The host is lower-cased, and a host that ends in a number is read as an IPv4
    address and printed in dotted decimal; an empty host, a forbidden host character, a
    malformed IPv4 address or a port that is not a number up to 65535 is a parse failure. */
module Url {
  import opened Strings

  datatype ParsedUrl = ParsedUrl(protocol: string, hostname: string, port: string)

  /** Characters that end the authority of a special URL. */
  predicate EndsAuthority(c: char) {
    c == '/' || c == '\\' || c == '?' || c == '#'
  }

  /** The forbidden domain code points of ASCII: the C0 controls, space, DEL and the
      delimiters. */
  predicate ForbiddenHostChar(c: char) {
    c < ' ' || c == '\U{7F}' || c == ' ' || c == '#' || c == '%' || c == '/' || c == ':' || c == '<'
    || c == '>' || c == '?' || c == '@' || c == '[' || c == '\\' || c == ']' || c == '^' || c == '|'
  }

  /** The slashes (either way round) a special URL ignores before its authority. */
  function SkipSlashes(s: string, i: nat): (j: nat)
    requires i <= |s|
    ensures i <= j <= |s| && (j < |s| ==> s[j] != '/' && s[j] != '\\')
    decreases |s| - i
  {
    if i < |s| && (s[i] == '/' || s[i] == '\\') then SkipSlashes(s, i + 1) else i
  }

  /** End of the authority starting at `i`. */
  function AuthorityEnd(s: string, i: nat): (j: nat)
    requires i <= |s|
    ensures i <= j <= |s| && (j < |s| ==> EndsAuthority(s[j]))
    ensures forall k :: i <= k < j ==> !EndsAuthority(s[k])
    decreases |s| - i
  {
    if i == |s| || EndsAuthority(s[i]) then i else AuthorityEnd(s, i + 1)
  }

  /** Length of the scheme and its two slashes; 0 for any other scheme. */
  function SchemeLength(url: string): (n: nat)
    ensures n == 0 || n == 7 || n == 8
    ensures n <= |url|
  {
    if StartsWith(url, "https://") then 8 else if StartsWith(url, "http://") then 7 else 0
  }

  /** The authority after a scheme of length `n`. */
  function Authority(url: string, n: nat): string
    requires n <= |url|
  {
    var start := SkipSlashes(url, n);
    url[start..AuthorityEnd(url, start)]
  }

  /** Host and port: what follows the last '@', split at its first ':'. */
  function HostOf(authority: string): string {
    var afterAt := authority[LastIndexOf(authority, '@') + 1..];
    if ':' in afterAt then afterAt[..FirstIndex(afterAt, ':')] else afterAt
  }

  function PortOf(authority: string): string {
    var afterAt := authority[LastIndexOf(authority, '@') + 1..];
    if ':' in afterAt then afterAt[FirstIndex(afterAt, ':') + 1..] else ""
  }

  predicate ValidHost(host: string) {
    host != [] && forall k :: 0 <= k < |host| ==> !ForbiddenHostChar(host[k])
  }

  predicate ValidPort(port: string) {
    AllDigits(port) && (port != [] ==> DecimalValue(port) <= 65535)
  }

  predicate LowerCaseHost(h: string) {
    ValidHost(h) && forall k :: 0 <= k < |h| ==> !('A' <= h[k] <= 'Z')
  }

  lemma LoweredHostValid(host: string)
    requires ValidHost(host)
    ensures LowerCaseHost(Lower(host))
  {
  }

  /** The C0 controls and space, which are stripped from both ends of the input. */
  predicate IsC0ControlOrSpace(c: char) {
    c <= ' '
  }

  predicate IsTabOrNewline(c: char) {
    c == '\t' || c == '\n' || c == '\r'
  }

  function TrimC0Start(s: string): (r: string)
    ensures r == [] || !IsC0ControlOrSpace(r[0])
    ensures |r| <= |s| && r == s[|s| - |r|..]
    decreases |s|
  {
    if s != [] && IsC0ControlOrSpace(s[0]) then TrimC0Start(s[1..]) else s
  }

  function TrimC0End(s: string): (r: string)
    ensures r == [] || !IsC0ControlOrSpace(r[|r| - 1])
    ensures |r| <= |s| && r == s[..|r|]
    decreases |s|
  {
    if s != [] && IsC0ControlOrSpace(s[|s| - 1]) then TrimC0End(s[..|s| - 1]) else s
  }

  /** Every tab, line feed and carriage return removed. */
  function RemoveTabNewline(s: string): (r: string)
    ensures forall k :: 0 <= k < |r| ==> !IsTabOrNewline(r[k])
    decreases |s|
  {
    if s == [] then []
    else (if IsTabOrNewline(s[0]) then [] else [s[0]]) + RemoveTabNewline(s[1..])
  }

  /** The input as the parser reads it: leading and trailing C0 controls and spaces stripped,
      then tabs and newlines removed everywhere. */
  function Preprocess(url: string): string {
    RemoveTabNewline(TrimC0End(TrimC0Start(url)))
  }

  /** A digit of base 8, 10 or 16. */
  predicate IsRadixDigit(c: char, radix: nat) {
    if radix == 16 then IsHexDigit(c) else if radix == 10 then IsDigit(c) else '0' <= c <= '7'
  }

  predicate AllRadixDigits(s: string, radix: nat) {
    forall k :: 0 <= k < |s| ==> IsRadixDigit(s[k], radix)
  }

  function RadixValue(s: string, radix: nat): nat
    requires AllRadixDigits(s, radix)
  {
    if s == [] then 0
    else
      assert forall k :: 0 <= k < |s| - 1 ==> s[..|s| - 1][k] == s[k];
      assert IsRadixDigit(s[|s| - 1], radix);
      radix * RadixValue(s[..|s| - 1], radix) + HexDigitValue(s[|s| - 1])
  }

  /** The IPv4 number parser: "0x" or "0X" for hexadecimal, a leading "0" for octal, decimal
      otherwise; a bare prefix reads as 0. */
  function Ipv4Number(part: string): Option<nat> {
    if part == [] then None
    else
      var hex := |part| >= 2 && part[0] == '0' && (part[1] == 'x' || part[1] == 'X');
      var octal := !hex && |part| >= 2 && part[0] == '0';
      var digits := if hex then part[2..] else if octal then part[1..] else part;
      var radix := if hex then 16 else if octal then 8 else 10;
      if digits == [] then Some(0)
      else if AllRadixDigits(digits, radix) then Some(RadixValue(digits, radix))
      else None
  }

  /** The last label of a domain, a trailing '.' ignored. */
  function LastLabel(domain: string): string {
    var d := if domain != [] && domain[|domain| - 1] == '.' then domain[..|domain| - 1] else domain;
    d[LastIndexOf(d, '.') + 1..]
  }

  /** The "ends in a number" test: the last label is all digits, or reads as an IPv4 number. */
  predicate EndsInANumber(domain: string) {
    var last := LastLabel(domain);
    (last != [] && AllDigits(last)) || Ipv4Number(last).Some?
  }

  function Pow256(e: nat): nat {
    if e == 0 then 1 else 256 * Pow256(e - 1)
  }

  /** The labels of a dotted address, a trailing empty one dropped. */
  function Ipv4Parts(domain: string): (r: seq<string>)
    ensures |r| >= 1
  {
    var parts := Split(domain, '.');
    if |parts| > 1 && parts[|parts| - 1] == "" then parts[..|parts| - 1] else parts
  }

  /** The numbers of all the labels, or `None` when one is not a number. */
  function Ipv4Numbers(parts: seq<string>): (r: Option<seq<nat>>)
    ensures r.Some? ==> |r.value| == |parts|
    decreases |parts|
  {
    if parts == [] then Some([])
    else
      var rest := Ipv4Numbers(parts[1..]);
      match Ipv4Number(parts[0])
      case None => None
      case Some(n) => if rest.None? then None else Some([n] + rest.value)
  }

  /** The numbers are there exactly when every label is a number, and they are the labels'
      numbers in order. */
  lemma {:induction false} Ipv4NumbersMeaning(parts: seq<string>)
    ensures var r := Ipv4Numbers(parts);
      && (r.Some? <==> forall k :: 0 <= k < |parts| ==> Ipv4Number(parts[k]).Some?)
      && (r.Some? ==> forall k :: 0 <= k < |parts| ==> r.value[k] == Ipv4Number(parts[k]).value)
    decreases |parts|
  {
    if parts != [] {
      Ipv4NumbersMeaning(parts[1..]);
      assert forall k :: 1 <= k < |parts| ==> parts[1..][k - 1] == parts[k];
    }
  }

  /** The leading numbers weighted as the high bytes: the first by 256^3, the next by 256^2. */
  function HighBytes(nums: seq<nat>, e: nat): nat
    decreases |nums|
  {
    if nums == [] then 0 else nums[0] * Pow256(e) + HighBytes(nums[1..], if e == 0 then 0 else e - 1)
  }

  /** The IPv4 parser: at most four numbers, every one but the last at most 255, the last
      below 256^(5 - count); the address is the last plus the others as its high bytes. */
  function Ipv4(domain: string): (r: Option<nat>)
  {
    Ipv4Address(Ipv4Parts(domain))
  }

  /** The address the labels of a domain make, if they make one. */
  function Ipv4Address(parts: seq<string>): (r: Option<nat>)
    requires |parts| >= 1
  {
    if |parts| > 4 then None
    else match Ipv4Numbers(parts)
      case None => None
      case Some(ns) => Ipv4FromNumbers(ns)
  }

  /** Every number but the last fits in a byte. */
  predicate LeadingBytes(ns: seq<nat>) {
    forall k :: 0 <= k < |ns| - 1 ==> ns[k] <= 255
  }

  /** The address one to four numbers make. */
  function Ipv4FromNumbers(ns: seq<nat>): (r: Option<nat>)
    requires 1 <= |ns| <= 4
  {
    var n := |ns|;
    if exists k :: 0 <= k < n - 1 && ns[k] > 255 then None
    else if ns[n - 1] >= Pow256(5 - n) then None
    else Some(HighBytes(ns[..n - 1], 3) + ns[n - 1])
  }

  /** Dotted decimal, most significant byte first. */
  function SerializeIpv4(address: nat): (r: string)
    ensures r != [] && forall k :: 0 <= k < |r| ==> IsDigit(r[k]) || r[k] == '.'
  {
    var a := NatToString(address / 16777216);
    var b := NatToString(address / 65536 % 256);
    var c := NatToString(address / 256 % 256);
    var d := NatToString(address % 256);
    var r := a + "." + b + "." + c + "." + d;
    assert forall k :: 0 <= k < |r| ==> IsDigit(r[k]) || r[k] == '.' by {
      DottedChars(a, b);
      DottedChars(a + "." + b, c);
      DottedChars(a + "." + b + "." + c, d);
    }
    r
  }

  lemma DottedChars(x: string, y: string)
    requires forall k :: 0 <= k < |x| ==> IsDigit(x[k]) || x[k] == '.'
    requires forall k :: 0 <= k < |y| ==> IsDigit(y[k]) || y[k] == '.'
    ensures forall k :: 0 <= k < |x + "." + y| ==> IsDigit((x + "." + y)[k]) || (x + "." + y)[k] == '.'
  {
    var r := x + "." + y;
    forall k | 0 <= k < |r| ensures IsDigit(r[k]) || r[k] == '.' {
      if k < |x| { assert r[k] == x[k]; } else if k > |x| { assert r[k] == y[k - |x| - 1]; }
    }
  }

  /** The host as the URL object reports it: the lower-cased domain, or the dotted decimal of
      the IPv4 address it denotes; `None` for a malformed address. */
  function HostName(host: string): (r: Option<string>)
    requires ValidHost(host)
    ensures r.Some? ==> LowerCaseHost(r.value)
  {
    var lower := Lower(host);
    LoweredHostValid(host);
    if !EndsInANumber(lower) then Some(lower) else Ipv4Host(lower)
  }

  /** A domain that ends in a number: the dotted decimal of its address, if it has one. */
  function Ipv4Host(domain: string): (r: Option<string>)
    ensures r.Some? ==> LowerCaseHost(r.value)
    ensures r.Some? <==> Ipv4(domain).Some?
  {
    match Ipv4(domain)
    case None => None
    case Some(address) =>
      var text := SerializeIpv4(address);
      assert forall k :: 0 <= k < |text| ==> IsDigit(text[k]) || text[k] == '.';
      Some(text)
  }

  /** The port as the URL object reports it: empty when absent or the scheme's default. */
  function PortText(port: string, secure: bool): (r: string)
    requires ValidPort(port)
    ensures ValidPort(r)
  {
    if port == [] then ""
    else
      var v := DecimalValue(port);
      if v == (if secure then 443 else 80) then "" else NatToString(v)
  }

  /** `new URL(url)`: `None` when it would throw. */
  function Parse(url: string): (r: Option<ParsedUrl>)
    ensures r.Some? ==> r.value.protocol == "http:" || r.value.protocol == "https:"
    ensures r.Some? ==> LowerCaseHost(r.value.hostname) && ValidPort(r.value.port)
  {
    ParseCleaned(Preprocess(url))
  }

  /** The parse of the cleaned input. */
  function ParseCleaned(u: string): (r: Option<ParsedUrl>)
    ensures r.Some? ==> r.value.protocol == "http:" || r.value.protocol == "https:"
    ensures r.Some? ==> LowerCaseHost(r.value.hostname) && ValidPort(r.value.port)
  {
    var n := SchemeLength(u);
    if n == 0 then None
    else
      var a := Authority(u, n);
      var host := HostOf(a);
      if !ValidHost(host) || !ValidPort(PortOf(a)) then None
      else match HostName(host)
        case None => None
        case Some(name) => Some(ParsedUrl(if n == 8 then "https:" else "http:", name, PortText(PortOf(a), n == 8)))
  }

  /** The characters of an ordinary lower-case DNS name. */
  predicate PlainHostChar(c: char) {
    ('a' <= c <= 'z') || ('0' <= c <= '9') || c == '.' || c == '-'
  }

  /** An ordinary DNS name: plain characters, no trailing '.', and a last label that starts
      with a letter, so that it does not end in a number. */
  predicate PlainHost(h: string) {
    && h != [] && (forall k :: 0 <= k < |h| ==> PlainHostChar(h[k]))
    && h[|h| - 1] != '.' && 'a' <= h[LastIndexOf(h, '.') + 1] <= 'z'
  }

  lemma {:induction false} AuthorityEndAt(s: string, i: nat, j: nat)
    requires i <= j <= |s| && (j < |s| ==> EndsAuthority(s[j]))
    requires forall k :: i <= k < j ==> !EndsAuthority(s[k])
    ensures AuthorityEnd(s, i) == j
    decreases j - i
  {
    if i < j {
      AuthorityEndAt(s, i + 1, j);
    }
  }

  lemma SchemePrefix(secure: bool, t: string)
    ensures var scheme := if secure then "https://" else "http://";
      SchemeLength(scheme + t) == |scheme|
  {
    var scheme := if secure then "https://" else "http://";
    var url := scheme + t;
    assert url[..|scheme|] == scheme;
    if !secure {
      assert url[4] == ':';
    }
  }

  /** An authority with no slash at its start and no delimiter inside is read whole. */
  lemma {:induction false} AuthorityIs(url: string, n: nat, a: string, rest: string)
    requires n <= |url| && url == url[..n] + a + rest
    requires a != [] && a[0] != '/' && a[0] != '\\'
    requires forall k :: 0 <= k < |a| ==> !EndsAuthority(a[k])
    requires rest == [] || EndsAuthority(rest[0])
    ensures Authority(url, n) == a
  {
    assert url[n] == a[0];
    assert SkipSlashes(url, n) == n;
    forall k | n <= k < n + |a| ensures !EndsAuthority(url[k]) {
      assert url[k] == a[k - n];
    }
    if rest != [] {
      assert url[n + |a|] == rest[0];
    }
    AuthorityEndAt(url, n, n + |a|);
    assert url[n..n + |a|] == a;
  }

  lemma PlainHostChars(h: string)
    requires PlainHost(h)
    ensures '@' !in h && ':' !in h && ValidHost(h) && Lower(h) == h
    ensures forall k :: 0 <= k < |h| ==> !EndsAuthority(h[k])
  {
    forall k | 0 <= k < |h|
      ensures h[k] != '@' && h[k] != ':' && !ForbiddenHostChar(h[k]) && LowerChar(h[k]) == h[k]
    {
      assert PlainHostChar(h[k]);
    }
  }

  /** A plain host is a domain, not an IPv4 address. */
  lemma PlainHostNotNumber(h: string)
    requires PlainHost(h)
    ensures !EndsInANumber(h) && HostName(h) == Some(h)
  {
    PlainHostChars(h);
    var last := LastLabel(h);
    assert last == h[LastIndexOf(h, '.') + 1..];
    LabelNotNumber(last);
  }

  /** A label that starts with a letter is not a number. */
  lemma LabelNotNumber(last: string)
    requires last != [] && 'a' <= last[0] <= 'z'
    ensures !AllDigits(last) && Ipv4Number(last).None?
  {
    assert !IsDigit(last[0]);
    assert !IsRadixDigit(last[0], 10);
    assert !AllRadixDigits(last, 10);
  }

  /** Text that preprocessing leaves alone. */
  predicate Clean(s: string) {
    && (forall k :: 0 <= k < |s| ==> !IsTabOrNewline(s[k]))
    && (s != [] ==> !IsC0ControlOrSpace(s[0]) && !IsC0ControlOrSpace(s[|s| - 1]))
  }

  lemma {:induction false} RemoveTabNewlineKeeps(s: string)
    requires forall k :: 0 <= k < |s| ==> !IsTabOrNewline(s[k])
    ensures RemoveTabNewline(s) == s
    decreases |s|
  {
    if s != [] {
      assert forall k :: 0 <= k < |s[1..]| ==> s[1..][k] == s[k + 1];
      RemoveTabNewlineKeeps(s[1..]);
      assert s == [s[0]] + s[1..];
    }
  }

  lemma {:induction false} TrimEndKeepsFirst(s: string)
    requires s != [] && !IsC0ControlOrSpace(s[0])
    ensures TrimC0End(s) != [] && TrimC0End(s)[0] == s[0]
    decreases |s|
  {
    if IsC0ControlOrSpace(s[|s| - 1]) {
      TrimEndKeepsFirst(s[..|s| - 1]);
    }
  }

  /** An input whose first character is neither a C0 control, a space nor `h` does not
      start with either scheme, even once cleaned, so it never parses. */
  lemma NoSchemeFails(url: string)
    requires url != [] && !IsC0ControlOrSpace(url[0]) && url[0] != 'h'
    ensures Parse(url) == None
  {
    TrimEndKeepsFirst(url);
    assert TrimC0Start(url) == url;
    var t := TrimC0End(url);
    assert RemoveTabNewline(t) == [t[0]] + RemoveTabNewline(t[1..]);
    var u := Preprocess(url);
    assert u != [] && u[0] == url[0];
    NoSchemePrefix(u);
    assert Parse(url) == ParseCleaned(u);
  }

  lemma NoSchemePrefix(u: string)
    requires u != [] && u[0] != 'h'
    ensures SchemeLength(u) == 0 && ParseCleaned(u) == None
  {
    if |u| >= 7 {
      assert u[..7][0] == u[0];
    }
    if |u| >= 8 {
      assert u[..8][0] == u[0];
    }
  }

  lemma PreprocessKeeps(s: string)
    requires Clean(s)
    ensures Preprocess(s) == s && Parse(s) == ParseCleaned(s)
  {
    assert TrimC0Start(s) == s;
    assert TrimC0End(s) == s;
    RemoveTabNewlineKeeps(s);
  }

  /** Trailing spaces are stripped before parsing. */
  lemma TrailingSpaceStripped(s: string)
    requires s != [] && !IsC0ControlOrSpace(s[0])
    ensures Preprocess(s + " ") == Preprocess(s)
  {
    var t := s + " ";
    assert TrimC0Start(t) == t;
    assert t[..|t| - 1] == s;
    assert TrimC0End(t) == TrimC0End(s);
    assert TrimC0Start(s) == s;
  }

  /** Clean text joined with clean text through a non-space separator is clean. */
  lemma CleanJoin(x: string, y: string)
    requires Clean(x) && Clean(y) && x != []
    ensures Clean(x + y)
  {
    var r := x + y;
    forall k | 0 <= k < |r| ensures !IsTabOrNewline(r[k]) {
      if k < |x| { assert r[k] == x[k]; } else { assert r[k] == y[k - |x|]; }
    }
    if y != [] { assert r[|r| - 1] == y[|y| - 1]; }
  }

  /** An authority that is only a host (no '@', no ':'), after either scheme and before the
      end or a path, query or fragment: it parses exactly when the host is valid and, if it
      ends in a number, a well-formed IPv4 address. */
  lemma {:induction false} HostOnlyAuthority(secure: bool, a: string, rest: string)
    requires a != [] && a[0] != '/' && a[0] != '\\'
    requires forall k :: 0 <= k < |a| ==> !EndsAuthority(a[k]) && a[k] != '@' && a[k] != ':'
    requires rest == [] || EndsAuthority(rest[0])
    ensures var url := (if secure then "https://" else "http://") + a + rest;
      && (!ValidHost(a) ==> ParseCleaned(url) == None)
      && (ValidHost(a) && HostName(a).None? ==> ParseCleaned(url) == None)
      && (ValidHost(a) && HostName(a).Some? ==>
          ParseCleaned(url) == Some(ParsedUrl(if secure then "https:" else "http:", HostName(a).value, "")))
  {
    var scheme := if secure then "https://" else "http://";
    var url := scheme + a + rest;
    SchemePrefix(secure, a + rest);
    assert url == scheme + (a + rest);
    assert url[..|scheme|] == scheme;
    AuthorityIs(url, |scheme|, a, rest);
    assert a[0..] == a;
    assert LastIndexOf(a, '@') == -1;
    assert HostOf(a) == a && PortOf(a) == "";
  }

  /** A plain host after either scheme, followed by the end or by a clean path, query or
      fragment, parses to itself with no port. */
  lemma {:induction false} PlainHostParses(secure: bool, h: string, rest: string)
    requires PlainHost(h) && (rest == [] || EndsAuthority(rest[0])) && Clean(rest)
    ensures var scheme := if secure then "https://" else "http://";
      Parse(scheme + h + rest) == Some(ParsedUrl(if secure then "https:" else "http:", h, ""))
  {
    var scheme := if secure then "https://" else "http://";
    var url := scheme + h + rest;
    PlainHostChars(h);
    PlainHostNotNumber(h);
    PlainHostClean(secure, h, rest);
    PreprocessKeeps(url);
    HostOnlyAuthority(secure, h, rest);
    assert Parse(url) == ParseCleaned(url);
  }

  lemma PlainHostClean(secure: bool, h: string, rest: string)
    requires PlainHost(h) && Clean(rest)
    ensures Clean((if secure then "https://" else "http://") + h + rest)
  {
    var scheme := if secure then "https://" else "http://";
    assert Clean(h) by {
      forall k | 0 <= k < |h| ensures !IsTabOrNewline(h[k]) && !IsC0ControlOrSpace(h[k]) {
        assert PlainHostChar(h[k]);
      }
    }
    CleanJoin(h, rest);
    SchemeClean(secure, h + rest);
    assert scheme + h + rest == scheme + (h + rest);
  }

  /** Trailing spaces do not stop a URL from parsing: a plain host followed by a space parses
      as the host alone. */
  lemma TrailingSpaceAccepted(secure: bool, h: string)
    requires PlainHost(h)
    ensures var scheme := if secure then "https://" else "http://";
      Parse(scheme + h + " ") == Some(ParsedUrl(if secure then "https:" else "http:", h, ""))
  {
    var scheme := if secure then "https://" else "http://";
    TrailingSpaceStripped(scheme + h);
    PlainHostParses(secure, h, "");
    assert scheme + h + "" == scheme + h;
  }

  /** An authority without a host does not parse, whatever clean query or fragment follows. */
  lemma {:induction false} MissingHostFails(rest: string)
    requires rest == [] || rest[0] == '?' || rest[0] == '#'
    requires Clean(rest)
    ensures Parse("https://" + rest) == None
  {
    SchemeClean(true, rest);
    PreprocessKeeps("https://" + rest);
    MissingHostCleaned(rest);
  }

  lemma {:induction false} MissingHostCleaned(rest: string)
    requires rest == [] || rest[0] == '?' || rest[0] == '#'
    ensures ParseCleaned("https://" + rest) == None
  {
    var url := "https://" + rest;
    SchemePrefix(true, rest);
    assert SkipSlashes(url, 8) == 8;
    AuthorityEndAt(url, 8, 8);
  }

  /** A scheme prefix keeps clean text clean. */
  lemma SchemeClean(secure: bool, t: string)
    requires Clean(t)
    ensures Clean((if secure then "https://" else "http://") + t)
  {
    var scheme := if secure then "https://" else "http://";
    assert Clean(scheme);
    CleanJoin(scheme, t);
  }

  /** A plain host, ':' and digits hold no '@' and nothing that ends an authority. */
  lemma HostPortChars(h: string, p: string)
    requires PlainHost(h) && AllDigits(p)
    ensures forall k :: 0 <= k < |h + ":" + p| ==> (h + ":" + p)[k] != '@' && !EndsAuthority((h + ":" + p)[k])
  {
    PlainHostChars(h);
    var a := h + ":" + p;
    forall k | 0 <= k < |a| ensures a[k] != '@' && !EndsAuthority(a[k]) {
      if k < |h| {
        assert a[k] == h[k];
      } else if k > |h| {
        assert a[k] == p[k - |h| - 1];
      }
    }
  }

  lemma {:induction false} HostPortOfPort(h: string, p: string)
    requires PlainHost(h) && AllDigits(p)
    ensures HostOf(h + ":" + p) == h && PortOf(h + ":" + p) == p
  {
    PlainHostChars(h);
    var a := h + ":" + p;
    HostPortChars(h, p);
    assert a[0..] == a;
    assert a[|h|] == ':';
    assert a[..|h|] == h;
    assert FirstIndex(a, ':') == |h|;
    assert a[|h| + 1..] == p;
  }

  /** A port beyond 65535 makes a plain host fail; one within the range is kept, printed as a
      number, and dropped when it is 443, the https default. */
  lemma {:induction false} PortRange(h: string, p: string)
    requires PlainHost(h) && p != [] && AllDigits(p)
    ensures Parse("https://" + h + ":" + p).Some? <==> DecimalValue(p) <= 65535
    ensures DecimalValue(p) <= 65535 ==>
      Parse("https://" + h + ":" + p) == Some(ParsedUrl("https:", h, if DecimalValue(p) == 443 then "" else NatToString(DecimalValue(p))))
  {
    HostPortClean(h, p);
    PreprocessKeeps("https://" + h + ":" + p);
    PortRangeCleaned(h, p);
  }

  lemma {:induction false} PortRangeCleaned(h: string, p: string)
    requires PlainHost(h) && p != [] && AllDigits(p)
    ensures ParseCleaned("https://" + h + ":" + p).Some? <==> DecimalValue(p) <= 65535
    ensures DecimalValue(p) <= 65535 ==>
      ParseCleaned("https://" + h + ":" + p) == Some(ParsedUrl("https:", h, if DecimalValue(p) == 443 then "" else NatToString(DecimalValue(p))))
  {
    var a := h + ":" + p;
    var url := "https://" + a;
    assert "https://" + h + ":" + p == url;
    HostPortAuthority(h, p);
    PlainHostChars(h);
    PlainHostNotNumber(h);
    HostPortOfPort(h, p);
    HttpsAuthority(url, a);
    assert ValidPort(p) <==> DecimalValue(p) <= 65535;
  }

  /** After `https://`, a plain host, ':' and digits are the whole authority. */
  lemma HostPortAuthority(h: string, p: string)
    requires PlainHost(h) && AllDigits(p)
    ensures SchemeLength("https://" + (h + ":" + p)) == 8 && Authority("https://" + (h + ":" + p), 8) == h + ":" + p
  {
    var a := h + ":" + p;
    var url := "https://" + a;
    PlainHostChars(h);
    HostPortChars(h, p);
    SchemePrefix(true, a);
    assert url[..8] == "https://";
    AuthorityIs(url, 8, a, "");
  }

  /** An https URL whose host names itself parses exactly when its port is valid. */
  lemma HttpsAuthority(url: string, a: string)
    requires SchemeLength(url) == 8 && Authority(url, 8) == a
    requires ValidHost(HostOf(a)) && HostName(HostOf(a)) == Some(HostOf(a))
    ensures ParseCleaned(url).Some? <==> ValidPort(PortOf(a))
    ensures ValidPort(PortOf(a)) ==> ParseCleaned(url) == Some(ParsedUrl("https:", HostOf(a), PortText(PortOf(a), true)))
  {
  }

  /** A plain host, ':' and digits after the scheme make clean text. */
  lemma HostPortClean(h: string, p: string)
    requires PlainHost(h) && p != [] && AllDigits(p)
    ensures Clean("https://" + h + ":" + p)
  {
    var a := h + ":" + p;
    assert Clean(a) by {
      forall k | 0 <= k < |a| ensures !IsTabOrNewline(a[k]) {
        if k < |h| { assert a[k] == h[k] && PlainHostChar(h[k]); }
        if k > |h| { assert a[k] == p[k - 1 - |h|]; }
      }
      assert a[0] == h[0] && PlainHostChar(h[0]);
      assert a[|a| - 1] == p[|p| - 1];
    }
    SchemeClean(true, a);
    assert "https://" + h + ":" + p == "https://" + a;
  }

  // Two hosts that end in a number, read by the IPv4 parser.

  /** A host of digits, dots and lower-case letters after "https://", with nothing after it. */
  lemma DigitHostParses(a: string)
    requires a != [] && a[0] != '.'
    requires forall k :: 0 <= k < |a| ==> IsDigit(a[k]) || a[k] == '.' || 'a' <= a[k] <= 'z'
    ensures ValidHost(a) && Lower(a) == a
    ensures Parse("https://" + a) == if HostName(a).Some? then Some(ParsedUrl("https:", HostName(a).value, "")) else None
  {
    var url := "https://" + a;
    DigitHostClean(a);
    PreprocessKeeps(url);
    assert url + "" == url;
    HostOnlyAuthority(true, a, "");
    assert Parse(url) == ParseCleaned(url);
  }

  lemma DigitHostClean(a: string)
    requires a != [] && a[0] != '.'
    requires forall k :: 0 <= k < |a| ==> IsDigit(a[k]) || a[k] == '.' || 'a' <= a[k] <= 'z'
    ensures ValidHost(a) && Lower(a) == a && Clean("https://" + a)
    ensures forall k :: 0 <= k < |a| ==> !EndsAuthority(a[k]) && a[k] != '@' && a[k] != ':'
  {
    assert Clean(a) by {
      forall k | 0 <= k < |a| ensures !IsTabOrNewline(a[k]) && !IsC0ControlOrSpace(a[k]) {
        assert IsDigit(a[k]) || a[k] == '.' || 'a' <= a[k] <= 'z';
      }
    }
    SchemeClean(true, a);
  }

  /** The last separator of a join is the one before a label without separators. */
  lemma {:induction false} LastIndexOfJoin(x: string, y: string)
    requires '.' !in y
    ensures LastIndexOf(x + "." + y, '.') == |x|
    decreases |y|
  {
    var s := x + "." + y;
    if y != [] {
      assert s[|s| - 1] == y[|y| - 1];
      assert s[..|s| - 1] == x + "." + y[..|y| - 1];
      LastIndexOfJoin(x, y[..|y| - 1]);
    }
  }

  /** The labels are the split when the last one is not empty. */
  lemma LastPartKept(a: string, parts: seq<string>)
    requires Split(a, '.') == parts && parts[|parts| - 1] != ""
    ensures Ipv4Parts(a) == parts
  {
  }

  /** A decimal label: digits, with no leading zero unless it is "0" (a leading zero would
      make it octal). */
  predicate DecimalLabel(s: string) {
    s != [] && AllDigits(s) && (s[0] == '0' ==> |s| == 1)
  }

  lemma {:induction false} DecimalRadix(s: string)
    requires AllDigits(s)
    ensures AllRadixDigits(s, 10) && RadixValue(s, 10) == DecimalValue(s)
    decreases |s|
  {
    if s != [] {
      var init := s[..|s| - 1];
      assert forall k :: 0 <= k < |init| ==> init[k] == s[k];
      DecimalRadix(init);
      assert IsDigit(s[|s| - 1]);
    }
  }

  lemma DecimalLabelNumber(s: string)
    requires DecimalLabel(s)
    ensures Ipv4Number(s) == Some(DecimalValue(s)) && '.' !in s
  {
    DecimalRadix(s);
    assert forall k :: 0 <= k < |s| ==> IsDigit(s[k]);
  }

  lemma HexLabelNumber(hs: string)
    requires forall k :: 0 <= k < |hs| ==> IsDigit(hs[k]) || 'a' <= hs[k] <= 'f'
    ensures AllRadixDigits(hs, 16) && Ipv4Number("0x" + hs) == Some(RadixValue(hs, 16))
    ensures '.' !in "0x" + hs
  {
    var part := "0x" + hs;
    assert part[2..] == hs;
    assert forall k :: 0 <= k < |hs| ==> IsRadixDigit(hs[k], 16);
    assert forall k :: 2 <= k < |part| ==> part[k] == hs[k - 2];
  }

  /** A character of a numeric label: a digit or a lower-case letter (for "0x"). */
  predicate LabelChar(c: char) {
    IsDigit(c) || 'a' <= c <= 'z'
  }

  /** Labels the IPv4 parser reads as numbers, the last one decimal so that the host ends in
      a number. */
  predicate NumericLabels(labels: seq<string>) {
    && 1 <= |labels|
    && (forall i :: 0 <= i < |labels| ==>
         labels[i] != [] && (forall k :: 0 <= k < |labels[i]| ==> LabelChar(labels[i][k])))
    && Ipv4Numbers(labels).Some?
    && DecimalLabel(labels[|labels| - 1])
  }

  /** Up to four numeric labels joined by dots, after "https://": the host parses exactly when
      every number but the last is at most 255 and the last is below 256^(5 - count); it is
      then printed as the dotted decimal of the address the numbers make. More than four
      labels, or a label that is not a number, make the host fail. */
  lemma NumericHost(labels: seq<string>)
    requires NumericLabels(labels)
    ensures var ns := Ipv4Numbers(labels).value;
      var n := |ns|;
      var a := Join(labels, ".");
      && (Parse("https://" + a).Some? <==> n <= 4 && LeadingBytes(ns) && ns[n - 1] < Pow256(5 - n))
      && (Parse("https://" + a).Some? ==> Ipv4(a) == Some(HighBytes(ns[..n - 1], 3) + ns[n - 1]))
  {
    NumericAddress(labels);
    NumericHostText(labels);
  }

  /** The host of a numeric URL that parses is the dotted decimal of its address. */
  lemma NumericHostText(labels: seq<string>)
    requires NumericLabels(labels)
    ensures var a := Join(labels, ".");
      && (Parse("https://" + a).Some? <==> Ipv4(a).Some?)
      && (Parse("https://" + a).Some? ==>
          Parse("https://" + a) == Some(ParsedUrl("https:", SerializeIpv4(Ipv4(a).value), "")))
  {
    NumericJoinChars(labels);
    DigitHostParses(Join(labels, "."));
    NumericHostName(labels);
  }

  lemma NumericAddress(labels: seq<string>)
    requires NumericLabels(labels)
    ensures var a := Join(labels, ".");
      var ns := Ipv4Numbers(labels).value;
      var n := |ns|;
      && (n <= 4 && LeadingBytes(ns) && ns[n - 1] < Pow256(5 - n) ==>
          Ipv4(a) == Some(HighBytes(ns[..n - 1], 3) + ns[n - 1]))
      && (!(n <= 4 && LeadingBytes(ns) && ns[n - 1] < Pow256(5 - n)) ==> Ipv4(a) == None)
  {
    NumericParts(labels);
    NumbersAddress(labels);
  }

  lemma NumbersAddress(labels: seq<string>)
    requires |labels| >= 1 && Ipv4Numbers(labels).Some?
    ensures var ns := Ipv4Numbers(labels).value;
      var n := |ns|;
      && (n > 4 ==> Ipv4Address(labels) == None)
      && (n <= 4 ==> Ipv4Address(labels) == (if LeadingBytes(ns) && ns[n - 1] < Pow256(5 - n)
           then Some(HighBytes(ns[..n - 1], 3) + ns[n - 1]) else None))
  {
    var ns := Ipv4Numbers(labels).value;
    if |labels| <= 4 {
      assert Ipv4Address(labels) == Ipv4FromNumbers(ns);
      FromNumbers(ns);
    }
  }

  lemma FromNumbers(ns: seq<nat>)
    requires 1 <= |ns| <= 4
    ensures var n := |ns|;
      Ipv4FromNumbers(ns) ==
        if LeadingBytes(ns) && ns[n - 1] < Pow256(5 - n)
        then Some(HighBytes(ns[..n - 1], 3) + ns[n - 1]) else None
  {
    var n := |ns|;
    assert (exists k :: 0 <= k < n - 1 && ns[k] > 255) <==> !LeadingBytes(ns);
  }

  lemma NumericHostName(labels: seq<string>)
    requires NumericLabels(labels)
    ensures var a := Join(labels, ".");
      ValidHost(a) && HostName(a) == if Ipv4(a).Some? then Some(SerializeIpv4(Ipv4(a).value)) else None
  {
    var a := Join(labels, ".");
    NumericJoinChars(labels);
    DigitHostClean(a);
    NumericEndsInANumber(labels);
  }

  lemma {:induction false} NumericJoinChars(labels: seq<string>)
    requires 1 <= |labels|
    requires forall i :: 0 <= i < |labels| ==>
      labels[i] != [] && (forall k :: 0 <= k < |labels[i]| ==> LabelChar(labels[i][k]))
    ensures var a := Join(labels, ".");
      a != [] && a[0] != '.' && forall k :: 0 <= k < |a| ==> IsDigit(a[k]) || a[k] == '.' || 'a' <= a[k] <= 'z'
    decreases |labels|
  {
    var a := Join(labels, ".");
    var first := labels[0];
    assert LabelChar(first[0]);
    if |labels| > 1 {
      var rest := Join(labels[1..], ".");
      assert a == first + "." + rest;
      NumericJoinChars(labels[1..]);
      forall k | 0 <= k < |a| ensures IsDigit(a[k]) || a[k] == '.' || 'a' <= a[k] <= 'z' {
        if k < |first| { assert a[k] == first[k] && LabelChar(first[k]); }
        else if k > |first| { assert a[k] == rest[k - |first| - 1]; }
      }
    } else {
      forall k | 0 <= k < |a| ensures IsDigit(a[k]) || a[k] == '.' || 'a' <= a[k] <= 'z' {
        assert LabelChar(first[k]);
      }
    }
  }

  /** The labels of the join are the labels themselves. */
  lemma NumericParts(labels: seq<string>)
    requires NumericLabels(labels)
    ensures Ipv4Parts(Join(labels, ".")) == labels
  {
    forall i | 0 <= i < |labels| ensures '.' !in labels[i] {
      assert forall k :: 0 <= k < |labels[i]| ==> LabelChar(labels[i][k]);
    }
    SplitJoin(labels, '.');
    LastPartKept(Join(labels, "."), labels);
  }

  /** The last label of the join is the last of the labels, so the host ends in a number. */
  lemma NumericEndsInANumber(labels: seq<string>)
    requires NumericLabels(labels)
    ensures EndsInANumber(Join(labels, "."))
  {
    var n := |labels|;
    var last := labels[n - 1];
    var a := Join(labels, ".");
    DecimalLabelNumber(last);
    JoinEnds(labels, ".");
    if n == 1 {
      assert a == last;
    } else {
      JoinLastLabel(labels);
    }
  }

  lemma JoinLastLabel(labels: seq<string>)
    requires |labels| >= 2 && DecimalLabel(labels[|labels| - 1])
    ensures LastLabel(Join(labels, ".")) == labels[|labels| - 1]
  {
    var n := |labels|;
    var last := labels[n - 1];
    var init := Join(labels[..n - 1], ".");
    var a := Join(labels, ".");
    DecimalLabelNumber(last);
    JoinSnoc(labels, ".");
    assert a == init + "." + last;
    LastIndexOfJoin(init, last);
    assert a[|a| - 1] == last[|last| - 1];
    assert a[|init| + 1..] == last;
  }

  /** Decimal labels are numeric labels whose numbers are their decimal values. */
  lemma DecimalLabels(labels: seq<string>)
    requires 1 <= |labels| && forall i :: 0 <= i < |labels| ==> DecimalLabel(labels[i])
    ensures NumericLabels(labels)
    ensures forall k :: 0 <= k < |labels| ==>
      AllDigits(labels[k]) && Ipv4Numbers(labels).value[k] == DecimalValue(labels[k])
  {
    forall i | 0 <= i < |labels|
      ensures Ipv4Number(labels[i]) == Some(DecimalValue(labels[i]))
      ensures forall k :: 0 <= k < |labels[i]| ==> LabelChar(labels[i][k])
    {
      DecimalLabelNumber(labels[i]);
    }
    Ipv4NumbersMeaning(labels);
  }

  /** A decimal label above 255 anywhere before the last makes the host fail:
      `https://999.999.999.999` does not parse. */
  lemma LabelAbove255Fails(labels: seq<string>, k: nat)
    requires forall i :: 0 <= i < |labels| ==> DecimalLabel(labels[i])
    requires k < |labels| - 1 && DecimalLabel(labels[k]) && DecimalValue(labels[k]) > 255
    ensures Parse("https://" + Join(labels, ".")) == None
  {
    DecimalLabels(labels);
    NumericHost(labels);
  }

  /** A hexadecimal first label up to 255 and a decimal second label below 2^24 make an
      address: the first is its high byte and the second its low three bytes. */
  lemma HexThenDecimal(hs: string, d: string)
    requires forall k :: 0 <= k < |hs| ==> IsDigit(hs[k]) || 'a' <= hs[k] <= 'f'
    requires AllRadixDigits(hs, 16) && RadixValue(hs, 16) <= 255
    requires DecimalLabel(d) && DecimalValue(d) < 16777216
    ensures var a := Join(["0x" + hs, d], ".");
      && Parse("https://" + a).Some?
      && Ipv4(a).Some? && Ipv4(a).value == RadixValue(hs, 16) * 16777216 + DecimalValue(d)
  {
    HexLabels(hs, d);
    NumericHostText(["0x" + hs, d]);
    HexDecimalAddress(hs, d);
  }

  lemma HexDecimalAddress(hs: string, d: string)
    requires forall k :: 0 <= k < |hs| ==> IsDigit(hs[k]) || 'a' <= hs[k] <= 'f'
    requires AllRadixDigits(hs, 16) && RadixValue(hs, 16) <= 255
    requires DecimalLabel(d) && DecimalValue(d) < 16777216
    ensures var r := Ipv4(Join(["0x" + hs, d], "."));
      r.Some? && r.value == RadixValue(hs, 16) * 16777216 + DecimalValue(d)
  {
    HexDecimalNumbers(hs, d);
    TwoFromNumbers(RadixValue(hs, 16), DecimalValue(d));
  }

  lemma HexDecimalNumbers(hs: string, d: string)
    requires forall k :: 0 <= k < |hs| ==> IsDigit(hs[k]) || 'a' <= hs[k] <= 'f'
    requires AllRadixDigits(hs, 16) && DecimalLabel(d)
    ensures Ipv4(Join(["0x" + hs, d], ".")) == Ipv4FromNumbers([RadixValue(hs, 16), DecimalValue(d)])
  {
    HexLabels(hs, d);
    NumericParts(["0x" + hs, d]);
    assert Ipv4(Join(["0x" + hs, d], ".")) == Ipv4Address(["0x" + hs, d]);
  }

  /** Two numbers with the first a byte and the second below 2^24 form one address. */
  lemma TwoFromNumbers(x: nat, y: nat)
    requires x <= 255 && y < 16777216
    ensures var r := Ipv4FromNumbers([x, y]); r.Some? && r.value == x * 16777216 + y
  {
    assert [x, y][..1] == [x];
    assert HighBytes([x], 3) == x * Pow256(3);
  }

  lemma HexLabels(hs: string, d: string)
    requires forall k :: 0 <= k < |hs| ==> IsDigit(hs[k]) || 'a' <= hs[k] <= 'f'
    requires AllRadixDigits(hs, 16)
    requires DecimalLabel(d)
    ensures NumericLabels(["0x" + hs, d])
    ensures Ipv4Numbers(["0x" + hs, d]) == Some([RadixValue(hs, 16), DecimalValue(d)])
  {
    var labels := ["0x" + hs, d];
    HexLabelNumber(hs);
    DecimalLabelNumber(d);
    Ipv4NumbersMeaning(labels);
    assert labels[0] == "0x" + hs && labels[1] == d;
    var part := "0x" + hs;
    assert forall k :: 0 <= k < |part| ==> LabelChar(part[k]) by {
      forall k | 0 <= k < |part| ensures LabelChar(part[k]) {
        if k >= 2 { assert part[k] == hs[k - 2]; }
      }
    }
    assert forall k :: 0 <= k < |d| ==> LabelChar(d[k]);
    var ns := Ipv4Numbers(labels).value;
    assert ns == [RadixValue(hs, 16), DecimalValue(d)];
  }

  /** `https://0x7f.1` holds the loopback address 127.0.0.1: its labels meet the
      requirements of `LoopbackParses`. */
  lemma Loopback()
    ensures forall k :: 0 <= k < 2 ==> IsDigit("7f"[k]) || 'a' <= "7f"[k] <= 'f'
    ensures AllRadixDigits("7f", 16) && RadixValue("7f", 16) == 127
    ensures DecimalLabel("1") && DecimalValue("1") == 1
    ensures SerializeIpv4(127 * 16777216 + 1) == "127.0.0.1"
  {
    assert "7f"[..1] == "7" && "7"[..0] == "";
    assert AllRadixDigits("7f", 16);
    assert RadixValue("7", 16) == 7;
    assert "1"[..0] == [];
    LoopbackText(127 * 16777216 + 1);
  }

  /** A hexadecimal label worth 127 followed by the label "1" parses as 127.0.0.1; `Loopback`
      shows that "7f" and "1", as in `https://0x7f.1`, are such labels. */
  lemma LoopbackParses(hs: string, d: string)
    requires forall k :: 0 <= k < |hs| ==> IsDigit(hs[k]) || 'a' <= hs[k] <= 'f'
    requires AllRadixDigits(hs, 16) && RadixValue(hs, 16) == 127
    requires DecimalLabel(d) && DecimalValue(d) == 1
    ensures Parse("https://" + Join(["0x" + hs, d], ".")) == Some(ParsedUrl("https:", "127.0.0.1", ""))
  {
    HexThenDecimal(hs, d);
    HexLabels(hs, d);
    NumericHostText(["0x" + hs, d]);
    LoopbackText(Ipv4(Join(["0x" + hs, d], ".")).value);
  }

  lemma LoopbackText(address: nat)
    requires address == 127 * 16777216 + 1
    ensures SerializeIpv4(address) == "127.0.0.1"
  {
    assert address / 16777216 == 127;
    assert address / 65536 % 256 == 0 && address / 256 % 256 == 0 && address % 256 == 1;
    SmallNumerals();
  }

  lemma SmallNumerals()
    ensures NatToString(127) == "127" && NatToString(0) == "0" && NatToString(1) == "1"
  {
    assert NatToString(12) == "12";
  }
}
