/** The client-IP middleware: finds the client address in the proxy headers (in a fixed
    priority order) or on the connection, skips the addresses of the gateway's own proxies,
    and denies with 403 what it cannot attribute or the allow-list refuses. */
module IpFilter {
  import opened Strings
  import opened IpAddress
  import Json
  import Http
  import IpValidator

  /** Proxy, WAF and loopback addresses that never count as the client. */
  const IGNORED_IPS: seq<string> := ["172.30.1.254", "127.0.0.1", "::1", "::ffff:127.0.0.1"]

  /** The headers consulted, in priority order. */
  const IP_HEADERS: seq<string> := [
    "x-forwarded-for", "x-real-ip", "x-client-ip", "cf-connecting-ip", "x-forwarded",
    "forwarded-for", "forwarded"]

  predicate IsIgnoredIp(ip: string) {
    CleanIp(ip) in IGNORED_IPS
  }

  /** One octet of the IPv4 pattern `25[0-5]|2[0-4][0-9]|[01]?[0-9][0-9]?`: one to three
      digits worth at most 255, leading zeros allowed. */
  predicate IsOctetText(p: string) {
    1 <= |p| <= 3 && AllDigits(p) && DecimalValue(p) <= 255
  }

  /** The dotted-quad pattern. */
  predicate MatchesIpv4Pattern(ip: string) {
    var parts := Split(ip, '.');
    |parts| == 4 && forall i :: 0 <= i < 4 ==> IsOctetText(parts[i])
  }

  /** `^(?:[0-9a-fA-F]{1,4}:){7}[0-9a-fA-F]{1,4}$`: eight groups, no compression. */
  predicate MatchesIpv6Pattern(ip: string) {
    var groups := Split(ip, ':');
    |groups| == 8 && AllHexGroups(groups)
  }

  /** `isValidIp`. */
  predicate IsValidIp(ip: string) {
    ip != "" && (MatchesIpv4Pattern(ip) || MatchesIpv6Pattern(ip))
  }

  /** The dotted-quad pattern accepts exactly the joins of four octet texts. */
  lemma Ipv4PatternExactly(octets: seq<string>)
    requires |octets| == 4 && forall i :: 0 <= i < 4 ==> IsOctetText(octets[i])
    ensures MatchesIpv4Pattern(Join(octets, "."))
  {
    SplitJoin(octets, '.');
  }

  lemma Ipv4PatternOnlyJoins(ip: string)
    requires MatchesIpv4Pattern(ip)
    ensures exists octets :: (|octets| == 4 && (forall i :: 0 <= i < 4 ==> IsOctetText(octets[i]))
                              && ip == Join(octets, "."))
  {
    JoinSplit(ip, '.');
    assert ip == Join(Split(ip, '.'), ".");
  }

  /** The eight-group pattern accepts exactly the joins of eight hex groups. */
  lemma Ipv6PatternExactly(groups: seq<string>)
    requires |groups| == 8 && AllHexGroups(groups)
    ensures MatchesIpv6Pattern(Join(groups, ":"))
  {
    SplitJoin(groups, ':');
  }

  lemma Ipv6PatternOnlyJoins(ip: string)
    requires MatchesIpv6Pattern(ip)
    ensures exists groups :: |groups| == 8 && AllHexGroups(groups) && ip == Join(groups, ":")
  {
    JoinSplit(ip, ':');
    assert ip == Join(Split(ip, ':'), ":");
  }

  /** Compressed IPv6 text such as `::1` is rejected: a "::" leaves an empty group, and a ':'
      falls inside some dotted part, which then is no octet. */
  lemma CompressedRejected(ip: string, k: nat)
    requires k + 1 < |ip| && ip[k] == ':' && ip[k + 1] == ':'
    ensures !IsValidIp(ip)
  {
    SplitAdjacentSeparators(ip, ':', k);
    SplitCovers(ip, '.', k);
  }

  /** A valid address begins and ends with a digit or hex digit, so cleaning leaves it alone. */
  lemma ValidIpIsClean(ip: string)
    requires IsValidIp(ip)
    ensures CleanIp(ip) == ip
  {
    ValidIpHexEnds(ip);
    HexEndsAreClean(ip);
  }

  lemma ValidIpHexEnds(ip: string)
    requires IsValidIp(ip)
    ensures IsHexDigit(ip[0]) && IsHexDigit(ip[|ip| - 1])
  {
    var c := if MatchesIpv4Pattern(ip) then '.' else ':';
    var parts := Split(ip, c);
    JoinSplit(ip, c);
    JoinEnds(parts, [c]);
    assert IsHexGroup(parts[0]) || IsOctetText(parts[0]);
    assert IsHexGroup(parts[|parts| - 1]) || IsOctetText(parts[|parts| - 1]);
    assert ip[0] == parts[0][0];
    assert ip[|ip| - 1] == parts[|parts| - 1][|parts[|parts| - 1]| - 1];
  }

  lemma HexEndsAreClean(ip: string)
    requires ip != [] && IsHexDigit(ip[0]) && IsHexDigit(ip[|ip| - 1])
    ensures CleanIp(ip) == ip
  {
    assert !StartsWith(ip, "::ffff:") by {
      assert |ip| >= 7 ==> ip[..7][0] == ip[0];
    }
    TrimFixed(ip);
  }

  /** An entry that may be returned: non-empty, not ignored and of valid form. */
  predicate Qualifies(c: string) {
    c != "" && !IsIgnoredIp(c) && IsValidIp(c)
  }

  /** The comma-separated entries, trimmed. */
  function TrimmedEntries(value: string): (r: seq<string>)
    ensures |r| == |Split(value, ',')|
    ensures forall i :: 0 <= i < |r| ==> r[i] == Trim(Split(value, ',')[i])
  {
    var pieces := Split(value, ',');
    seq(|pieces|, i requires 0 <= i < |pieces| => Trim(pieces[i]))
  }

  /** The index of the first item from `from` on for which `y` yields something. */
  function FirstAt(items: seq<string>, from: nat, y: string -> Option<string>): (r: Option<nat>)
    requires from <= |items|
    ensures r.Some? ==> from <= r.value < |items| && y(items[r.value]).Some?
    ensures r.Some? ==> forall j :: from <= j < r.value ==> y(items[j]).None?
    ensures r.None? ==> forall j :: from <= j < |items| ==> y(items[j]).None?
    decreases |items| - from
  {
    if from == |items| then None
    else if y(items[from]).Some? then Some(from)
    else FirstAt(items, from + 1, y)
  }

  /** An item that yields nothing is passed over. */
  lemma FirstAtSkip(items: seq<string>, k: nat, y: string -> Option<string>)
    requires k < |items| && y(items[k]).None?
    ensures FirstAt(items, k, y) == FirstAt(items, k + 1, y)
  {
  }

  /** The first item that yields something, and nothing before it, decides the search. */
  lemma FirstAtIs(items: seq<string>, from: nat, i: nat, y: string -> Option<string>)
    requires from <= i < |items| && y(items[i]).Some?
    requires forall j :: from <= j < i ==> y(items[j]).None?
    ensures FirstAt(items, from, y) == Some(i)
  {
  }

  /** What the first item that yields something yields. */
  function FirstYield(items: seq<string>, from: nat, y: string -> Option<string>): (r: Option<string>)
    requires from <= |items|
  {
    var at := FirstAt(items, from, y);
    if at.Some? then y(items[at.value]) else None
  }

  /** The `for ... of` search of `parseIpFromHeader`: the items in order, stopping at the first
      one that yields something. */
  method SearchFirst(items: seq<string>, y: string -> Option<string>) returns (r: Option<string>)
    ensures r.None? <==> forall j :: 0 <= j < |items| ==> y(items[j]).None?
    ensures r == FirstYield(items, 0, y)
  {
    var k := 0;
    while k < |items|
      invariant 0 <= k <= |items|
      invariant FirstAt(items, 0, y) == FirstAt(items, k, y)
    {
      var found := y(items[k]);
      if found.Some? {
        return found;
      }
      FirstAtSkip(items, k, y);
      k := k + 1;
    }
    return None;
  }

  /** One entry as `parseIpFromHeader` checks it: cleaned, then kept when it qualifies. */
  function CleanedCandidate(ip: string): (r: Option<string>)
    ensures r.Some? <==> Qualifies(CleanIp(ip))
    ensures r.Some? ==> r.value == CleanIp(ip)
  {
    var c := CleanIp(ip);
    if Qualifies(c) then Some(c) else None
  }

  /** What `parseIpFromHeader` makes of one header value: the first qualifying entry of a comma
      list, or the value itself cleaned (without a prior trim) when it qualifies. */
  function HeaderCandidate(value: string): (r: Option<string>)
    ensures r.Some? ==> Qualifies(r.value)
  {
    if value == "" then None
    else if ',' in value then
      var r := FirstYield(TrimmedEntries(value), 0, CleanedCandidate);
      assert r.Some? ==> r == CleanedCandidate(TrimmedEntries(value)[FirstAt(TrimmedEntries(value), 0, CleanedCandidate).value]);
      r
    else CleanedCandidate(value)
  }

  /** `parseIpFromHeader`. */
  method ParseIpFromHeader(value: string) returns (r: Option<string>)
    ensures r == HeaderCandidate(value)
  {
    if value == "" {
      return None;
    }
    if ',' in value {
      var pieces := Split(value, ',');
      var ips := seq(|pieces|, i requires 0 <= i < |pieces| => Trim(pieces[i]));
      assert ips == TrimmedEntries(value);
      r := SearchFirst(ips, CleanedCandidate);
      return;
    } else {
      var cleanedIp := CleanIp(value);
      if Qualifies(cleanedIp) {
        return Some(cleanedIp);
      }
    }
    return None;
  }

  /** What one header contributes, when present and non-empty. */
  function HeaderYield(h: Http.Headers, name: string): Option<string> {
    if Http.HeaderTruthy(h, name) then HeaderCandidate(h[name]) else None
  }

  /** `HeaderYield` for one set of headers, as the search consumes it. */
  function Yielder(h: Http.Headers): string -> Option<string> {
    name => HeaderYield(h, name)
  }

  /** The first header from `from` on that yields an address. */
  function FromHeaders(h: Http.Headers, from: nat): (r: Option<string>)
    requires from <= |IP_HEADERS|
    ensures r.Some? ==> Qualifies(r.value)
  {
    var r := FirstYield(IP_HEADERS, from, Yielder(h));
    assert r.Some? ==> r == HeaderYield(h, IP_HEADERS[FirstAt(IP_HEADERS, from, Yielder(h)).value]);
    r
  }

  /** The connection fallback: `req.ip || connection.remoteAddress`, when truthy and not
      ignored, cleaned. */
  function DirectIp(req: Http.Request): (r: Option<string>)
    ensures r.Some? ==> r.value !in IGNORED_IPS
  {
    match Http.Or(req.ip, req.remoteAddress)
    case Some(d) => if d == "" || IsIgnoredIp(d) then None else Some(CleanIp(d))
    case None => None
  }

  /** The address `extractRealClientIp` settles on. */
  function ClientIp(req: Http.Request): Option<string> {
    match FromHeaders(req.headers, 0)
    case Some(ip) => Some(ip)
    case None => DirectIp(req)
  }

  /** `extractRealClientIp`: the headers in order, then the connection. */
  method ExtractRealClientIp(req: Http.Request) returns (r: Option<string>)
    ensures r == ClientIp(req)
  {
    var fromHeaders := SearchFirst(IP_HEADERS, Yielder(req.headers));
    if fromHeaders.Some? {
      return fromHeaders;
    }
    var directIp := Http.Or(req.ip, req.remoteAddress);
    if directIp.Some? && directIp.value != "" && !IsIgnoredIp(directIp.value) {
      return Some(CleanIp(directIp.value));
    }
    return None;
  }

  /** The first header that yields an address wins; later headers are not consulted. */
  lemma HeaderPriority(h: Http.Headers, i: nat, from: nat)
    requires from <= i < |IP_HEADERS| && HeaderYield(h, IP_HEADERS[i]).Some?
    requires forall j :: from <= j < i ==> HeaderYield(h, IP_HEADERS[j]).None?
    ensures FromHeaders(h, from) == HeaderYield(h, IP_HEADERS[i])
  {
    var y := Yielder(h);
    assert y(IP_HEADERS[i]).Some?;
    forall j | from <= j < i ensures y(IP_HEADERS[j]).None? {
      assert HeaderYield(h, IP_HEADERS[j]).None?;
    }
    FirstAtIs(IP_HEADERS, from, i, y);
  }

  /** The connection address is used only when no header yields one; it is checked against
      the ignore list but not for form. */
  lemma FallbackOnlyWithoutHeaders(req: Http.Request, from: nat)
    requires from <= |IP_HEADERS|
    requires forall j :: from <= j < |IP_HEADERS| ==> HeaderYield(req.headers, IP_HEADERS[j]).None?
    ensures FromHeaders(req.headers, from) == None
  {
    var y := Yielder(req.headers);
    forall j | from <= j < |IP_HEADERS| ensures y(IP_HEADERS[j]).None? {
      assert HeaderYield(req.headers, IP_HEADERS[j]).None?;
    }
  }

  /** An extracted address is never one of the ignored addresses. */
  lemma ExtractedNeverIgnored(req: Http.Request)
    ensures ClientIp(req).Some? ==> ClientIp(req).value !in IGNORED_IPS
  {
    match FromHeaders(req.headers, 0)
    case Some(ip) =>
      ValidIpIsClean(ip);
    case None =>
  }

  /** The 403 the middleware throws. */
  const FORBIDDEN: Http.Exception := Http.HttpError(403, Http.Object([
    ("statusCode", Json.Num(403)), ("message", Json.Str("Acesso negado")),
    ("error", Json.Str("IP não autorizado"))]), "Acesso negado")

  /** The decision of `use`: no address, or one the allow-list refuses, is a 403. The
      allow-list is consulted only for a non-empty address. */
  function Decide(req: Http.Request, validator: IpValidator.IpValidatorService): (v: Http.Verdict)
    ensures v.Next? <==> ClientIp(req).Some? && ClientIp(req).value != "" && validator.Allows(ClientIp(req).value)
    ensures !v.Next? ==> v == Http.Throw(FORBIDDEN)
  {
    var clientIp := ClientIp(req);
    if clientIp.None? || clientIp.value == "" || !validator.Allows(clientIp.value) then Http.Throw(FORBIDDEN)
    else Http.Next
  }

  /** `use`: throws the 403, or calls `next` once. */
  method Use(req: Http.Request, validator: IpValidator.IpValidatorService) returns (v: Http.Verdict)
    ensures v == Decide(req, validator)
  {
    var clientIp := ExtractRealClientIp(req);
    if clientIp.None? || clientIp.value == "" {
      return Http.Throw(FORBIDDEN);
    }
    var allowed := validator.IsIpAllowed(clientIp.value);
    if !allowed {
      return Http.Throw(FORBIDDEN);
    }
    return Http.Next;
  }

  /** A request from a proxy or loopback address with no qualifying header is denied whatever
      the allow-list says. */
  lemma IgnoredTransportDenied(req: Http.Request, validator: IpValidator.IpValidatorService)
    requires forall j :: 0 <= j < |IP_HEADERS| ==> HeaderYield(req.headers, IP_HEADERS[j]).None?
    requires Http.Or(req.ip, req.remoteAddress).Some?
    requires Http.Or(req.ip, req.remoteAddress).value in IGNORED_IPS
    ensures Decide(req, validator) == Http.Throw(FORBIDDEN)
  {
    FallbackOnlyWithoutHeaders(req, 0);
    IgnoredIsIgnored(Http.Or(req.ip, req.remoteAddress).value);
    assert DirectIp(req) == None;
    assert ClientIp(req) == None;
  }

  lemma IgnoredIsIgnored(d: string)
    requires d in IGNORED_IPS
    ensures IsIgnoredIp(d)
  {
    assert d == IGNORED_IPS[0] || d == IGNORED_IPS[1] || d == IGNORED_IPS[2] || d == IGNORED_IPS[3];
    if d == IGNORED_IPS[0] {
      ProxyAddressIgnored();
    } else {
      LoopbackIgnored();
    }
  }

  /** Each ignored address is ignored by `isIgnoredIp`, which cleans before comparing. */
  lemma IgnoredAreIgnored()
    ensures IsIgnoredIp("172.30.1.254") && IsIgnoredIp("127.0.0.1") && IsIgnoredIp("::1")
    ensures IsIgnoredIp("::ffff:127.0.0.1")
  {
    ProxyAddressIgnored();
    LoopbackIgnored();
  }

  lemma ProxyAddressIgnored()
    ensures IsIgnoredIp("172.30.1.254")
  {
    HexEndsAreClean("172.30.1.254");
  }

  lemma LoopbackIgnored()
    ensures IsIgnoredIp("127.0.0.1") && IsIgnoredIp("::1") && IsIgnoredIp("::ffff:127.0.0.1")
  {
    IpValidator.CleanLoopback();
  }
}
