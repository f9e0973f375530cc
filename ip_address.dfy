/** IP addresses as the allow-list sees them: the textual clean-up the gateway applies to every
    address, a parser for IPv4 dotted-decimal and IPv6 text (section 2.2 of RFC 4291, with at
    most one `::`), and CIDR prefixes (section 3.1 of RFC 4632) matched bit by bit within one
    address family. The parser stands in for ipaddr.js's `parse` and `parseCIDR`. */
module IpAddress {
  import opened Strings

  /** `ip.replace(/^::ffff:/, '').trim()`: drops one leading IPv4-mapped prefix, then trims. */
  function CleanIp(ip: string): (r: string)
    ensures StartsWith(ip, "::ffff:") ==> r == Trim(ip[7..])
    ensures !StartsWith(ip, "::ffff:") ==> r == Trim(ip)
    ensures |r| <= |ip|
  {
    if StartsWith(ip, "::ffff:") then Trim(ip[7..]) else Trim(ip)
  }

  datatype Addr = V4(octets: seq<nat>) | V6(groups: seq<nat>)

  /** Four octets below 256, or eight groups below 65536. */
  predicate WellFormed(a: Addr) {
    match a
    case V4(o) => |o| == 4 && forall i :: 0 <= i < 4 ==> o[i] < 256
    case V6(g) => |g| == 8 && forall i :: 0 <= i < 8 ==> g[i] < 65536
  }

  /** Number of bits of an address of this family. */
  function Width(a: Addr): nat {
    if a.V4? then 32 else 128
  }

  function Pow2(n: nat): (r: nat)
    ensures r >= 1
  {
    if n == 0 then 1 else 2 * Pow2(n - 1)
  }

  /** The `w` low bits of `n`, most significant first. */
  function NumBits(n: nat, w: nat): (r: seq<bool>)
    ensures |r| == w
  {
    if w == 0 then [] else NumBits(n / 2, w - 1) + [n % 2 == 1]
  }

  /** The bits of a sequence of `w`-bit parts, first part first. */
  function PartsBits(p: seq<nat>, w: nat): (r: seq<bool>)
    ensures |r| == |p| * w
  {
    if p == [] then [] else NumBits(p[0], w) + PartsBits(p[1..], w)
  }

  function Bits(a: Addr): seq<bool> {
    match a
    case V4(o) => PartsBits(o, 8)
    case V6(g) => PartsBits(g, 16)
  }

  lemma BitsLength(a: Addr)
    requires WellFormed(a)
    ensures |Bits(a)| == Width(a)
  {
  }

  /** Distinct numbers below 2^w have distinct bit strings. */
  lemma {:induction false} NumBitsInjective(x: nat, y: nat, w: nat)
    requires x < Pow2(w) && y < Pow2(w)
    requires NumBits(x, w) == NumBits(y, w)
    ensures x == y
  {
    if w > 0 {
      var bx := NumBits(x, w);
      var bits := NumBits(y, w);
      assert bx[..w - 1] == NumBits(x / 2, w - 1);
      assert bits[..w - 1] == NumBits(y / 2, w - 1);
      NumBitsInjective(x / 2, y / 2, w - 1);
      assert bx[w - 1] == (x % 2 == 1) && bits[w - 1] == (y % 2 == 1);
    }
  }

  lemma {:induction false} PartsBitsInjective(p: seq<nat>, q: seq<nat>, w: nat)
    requires |p| == |q|
    requires forall i :: 0 <= i < |p| ==> p[i] < Pow2(w) && q[i] < Pow2(w)
    requires PartsBits(p, w) == PartsBits(q, w)
    ensures p == q
  {
    if p != [] {
      var bp := PartsBits(p, w);
      assert bp[..w] == NumBits(p[0], w);
      assert PartsBits(q, w)[..w] == NumBits(q[0], w);
      NumBitsInjective(p[0], q[0], w);
      assert bp[w..] == PartsBits(p[1..], w);
      assert PartsBits(q, w)[w..] == PartsBits(q[1..], w);
      PartsBitsInjective(p[1..], q[1..], w);
      assert p == [p[0]] + p[1..] && q == [q[0]] + q[1..];
    }
  }

  /** A decimal octet with no leading zero: "0" to "255". */
  predicate IsDecimalOctet(p: string) {
    1 <= |p| <= 3 && AllDigits(p) && (p[0] == '0' ==> |p| == 1) && DecimalValue(p) <= 255
  }

  /** Dotted-decimal IPv4 text. */
  function ParseV4(s: string): (r: Option<Addr>)
    ensures r.Some? ==> r.value.V4? && WellFormed(r.value)
  {
    var parts := Split(s, '.');
    if |parts| == 4 && forall i :: 0 <= i < 4 ==> IsDecimalOctet(parts[i]) then
      Some(V4(seq(4, i requires 0 <= i < 4 => DecimalValue(parts[i]))))
    else None
  }

  predicate IsHexGroup(g: string) {
    1 <= |g| <= 4 && forall i :: 0 <= i < |g| ==> IsHexDigit(g[i])
  }

  function Pow16(n: nat): (r: nat)
    ensures r >= 1
  {
    if n == 0 then 1 else 16 * Pow16(n - 1)
  }

  lemma {:induction false} HexValueBound(s: string)
    requires forall i :: 0 <= i < |s| ==> IsHexDigit(s[i])
    ensures HexValue(s) < Pow16(|s|)
    decreases |s|
  {
    if s != [] {
      HexValueBound(s[..|s| - 1]);
    }
  }

  lemma Pow16UpTo4(n: nat)
    requires n <= 4
    ensures Pow16(n) <= 65536
  {
    assert Pow16(1) == 16;
    assert Pow16(2) == 256;
    assert Pow16(3) == 4096;
    assert Pow16(4) == 65536;
  }

  function GroupValue(g: string): (v: nat)
    requires IsHexGroup(g)
    ensures v < 65536
  {
    HexValueBound(g);
    Pow16UpTo4(|g|);
    HexValue(g)
  }

  /** Index of the first "::" from `i` on. */
  function DoubleColonFrom(s: string, i: nat): (r: Option<nat>)
    ensures r.Some? ==> i <= r.value && r.value + 1 < |s| && s[r.value] == ':' && s[r.value + 1] == ':'
    decreases |s| - i
  {
    if i + 1 >= |s| then None
    else if s[i] == ':' && s[i + 1] == ':' then Some(i)
    else DoubleColonFrom(s, i + 1)
  }

  /** The colon-separated groups of one side of a "::" (none for an empty side). */
  function Groups(side: string): seq<string> {
    if side == "" then [] else Split(side, ':')
  }

  predicate AllHexGroups(gs: seq<string>) {
    forall i :: 0 <= i < |gs| ==> IsHexGroup(gs[i])
  }

  function GroupValues(gs: seq<string>): (r: seq<nat>)
    requires AllHexGroups(gs)
    ensures |r| == |gs| && forall i :: 0 <= i < |r| ==> r[i] < 65536
  {
    seq(|gs|, i requires 0 <= i < |gs| => GroupValue(gs[i]))
  }

  /** The groups a "::" stands for. */
  function Zeros(n: nat): (r: seq<nat>)
    ensures |r| == n && forall i :: 0 <= i < n ==> r[i] == 0
  {
    seq(n, _ => 0)
  }

  /** IPv6 text: eight groups, or fewer groups with one "::" standing for the missing zeros. */
  function ParseV6(s: string): (r: Option<Addr>)
    ensures r.Some? ==> r.value.V6? && WellFormed(r.value)
  {
    match DoubleColonFrom(s, 0)
    case None =>
      var parts := Split(s, ':');
      if |parts| == 8 && AllHexGroups(parts) then Some(V6(GroupValues(parts))) else None
    case Some(i) =>
      var left := Groups(s[..i]);
      var right := Groups(s[i + 2..]);
      if AllHexGroups(left) && AllHexGroups(right) && |left| + |right| <= 7 then
        Some(V6(GroupValues(left) + Zeros(8 - |left| - |right|) + GroupValues(right)))
      else None
  }

  /** `ipaddr.parse`: IPv4 first, then IPv6. */
  function Parse(s: string): (r: Option<Addr>)
    ensures r.Some? ==> WellFormed(r.value)
  {
    if ParseV4(s).Some? then ParseV4(s) else ParseV6(s)
  }

  /** The decimal texts of the octets. */
  function OctetTexts(o: seq<nat>): (r: seq<string>)
    ensures |r| == |o| && forall i :: 0 <= i < |o| ==> r[i] == NatToString(o[i])
  {
    seq(|o|, i requires 0 <= i < |o| => NatToString(o[i]))
  }

  /** The dotted-decimal text of four octets. */
  function DottedQuad(o: seq<nat>): string {
    Join(OctetTexts(o), ".")
  }

  /** Four octets below 256, written in dotted decimal, parse back to those octets. */
  lemma {:induction false} ParseV4Dotted(o: seq<nat>)
    requires |o| == 4 && forall i :: 0 <= i < 4 ==> o[i] < 256
    ensures ParseV4(DottedQuad(o)) == Some(V4(o))
    ensures Parse(DottedQuad(o)) == Some(V4(o))
  {
    var parts := OctetTexts(o);
    forall i | 0 <= i < 4 ensures '.' !in parts[i] && IsDecimalOctet(parts[i]) {
      NatToStringShort(o[i]);
      var p := parts[i];
      forall k | 0 <= k < |p| ensures p[k] != '.' {
        assert IsDigit(p[k]);
      }
    }
    SplitJoin(parts, '.');
    var t := DottedQuad(o);
    assert Split(t, '.') == parts;
    var v := seq(4, i requires 0 <= i < 4 => DecimalValue(Split(t, '.')[i]));
    assert ParseV4(t) == Some(V4(v));
    assert v == o;
  }

  /** Conversely, a parsed IPv4 text is exactly the dotted-decimal text of its octets: the
      accepted form is canonical. */
  lemma {:induction false} ParseV4Canonical(s: string, o: seq<nat>)
    requires ParseV4(s) == Some(V4(o))
    ensures |o| == 4 && s == DottedQuad(o)
  {
    var parts := Split(s, '.');
    assert |parts| == 4;
    forall i | 0 <= i < 4 ensures NatToString(o[i]) == parts[i] {
      assert o[i] == DecimalValue(parts[i]);
      NatToStringCanonical(parts[i]);
    }
    assert OctetTexts(o) == parts;
    JoinSplit(s, '.');
  }

  /** Hex groups are non-empty and hold neither ':' nor '.'. */
  lemma HexGroupsArePieces(gs: seq<string>)
    requires AllHexGroups(gs)
    ensures forall i :: 0 <= i < |gs| ==> gs[i] != [] && ':' !in gs[i] && '.' !in gs[i]
  {
    forall i | 0 <= i < |gs| ensures gs[i] != [] && ':' !in gs[i] && '.' !in gs[i] {
      var g := gs[i];
      forall k | 0 <= k < |g| ensures g[k] != ':' && g[k] != '.' {
        assert IsHexDigit(g[k]);
      }
    }
  }

  /** A text without '.' is no IPv4 address, so `Parse` reads it as IPv6. */
  lemma NoDotNotV4(s: string)
    requires '.' !in s
    ensures ParseV4(s) == None && Parse(s) == ParseV6(s)
  {
    assert Split(s, '.') == [s];
  }

  /** Eight hex groups joined by ':' parse to their values. */
  lemma {:induction false} ParseV6Full(gs: seq<string>)
    requires |gs| == 8 && AllHexGroups(gs)
    ensures ParseV6(Join(gs, ":")) == Some(V6(GroupValues(gs)))
    ensures Parse(Join(gs, ":")) == Some(V6(GroupValues(gs)))
  {
    var t := Join(gs, ":");
    HexGroupsArePieces(gs);
    JoinNoDoubled(gs, ':');
    assert DoubleColonFrom(t, 0).None?;
    SplitJoin(gs, ':');
    JoinAvoids(gs, ':', '.');
    NoDotNotV4(t);
  }

  /** The first "::" from `i` on is at `k`. */
  lemma {:induction false} DoubleColonAt(s: string, i: nat, k: nat)
    requires i <= k && k + 1 < |s| && s[k] == ':' && s[k + 1] == ':'
    requires forall j :: i <= j < k ==> !(s[j] == ':' && s[j + 1] == ':')
    ensures DoubleColonFrom(s, i) == Some(k)
    decreases k - i
  {
    if i < k {
      DoubleColonAt(s, i + 1, k);
    }
  }

  /** The groups of one side of a "::" are the pieces it was joined from. */
  lemma GroupsOfJoin(gs: seq<string>)
    requires AllHexGroups(gs)
    ensures Groups(Join(gs, ":")) == gs
  {
    if gs != [] {
      HexGroupsArePieces(gs);
      JoinNoDoubled(gs, ':');
      SplitJoin(gs, ':');
    }
  }

  /** A "::" between two runs of at most seven hex groups in all stands for the missing zero
      groups: the left values, then zeros, then the right values. */
  lemma {:induction false} ParseV6Compressed(left: seq<string>, right: seq<string>)
    requires AllHexGroups(left) && AllHexGroups(right) && |left| + |right| <= 7
    ensures ParseV6(Join(left, ":") + "::" + Join(right, ":"))
         == Some(V6(GroupValues(left) + Zeros(8 - |left| - |right|) + GroupValues(right)))
    ensures Parse(Join(left, ":") + "::" + Join(right, ":"))
         == Some(V6(GroupValues(left) + Zeros(8 - |left| - |right|) + GroupValues(right)))
  {
    var l := Join(left, ":");
    var r := Join(right, ":");
    var s := l + "::" + r;
    var k := |l|;
    if left != [] {
      HexGroupsArePieces(left);
      JoinNoDoubled(left, ':');
      forall j | 0 <= j < k ensures !(s[j] == ':' && s[j + 1] == ':') {
        if j + 1 < k {
          assert s[j] == l[j] && s[j + 1] == l[j + 1];
        } else {
          assert s[j] == l[k - 1];
        }
      }
    }
    DoubleColonAt(s, 0, k);
    assert s[..k] == l;
    assert s[k + 2..] == r;
    GroupsOfJoin(left);
    GroupsOfJoin(right);
    HexGroupsArePieces(left);
    HexGroupsArePieces(right);
    JoinAvoids(left, ':', '.');
    JoinAvoids(right, ':', '.');
    assert '.' !in s;
    NoDotNotV4(s);
  }

  datatype Cidr = Cidr(net: Addr, len: nat)

  /** `ipaddr.parseCIDR`: `<address>/<digits>`, split at the last '/', with the length at
      most the width of the address family. */
  function ParseCidr(s: string): (r: Option<Cidr>)
    ensures r.Some? ==> WellFormed(r.value.net) && r.value.len <= Width(r.value.net)
  {
    var i := LastIndexOf(s, '/');
    if i < 1 then None
    else
      var lenText := s[i + 1..];
      if lenText == [] || !AllDigits(lenText) then None
      else match Parse(s[..i])
        case None => None
        case Some(net) => if DecimalValue(lenText) <= Width(net) then Some(Cidr(net, DecimalValue(lenText))) else None
  }

  /** `addr.match(range)`: the same family and equal leading `len` bits. */
  predicate Matches(a: Addr, c: Cidr)
    requires WellFormed(a) && WellFormed(c.net) && c.len <= Width(c.net)
  {
    a.V4? == c.net.V4? && Bits(a)[..c.len] == Bits(c.net)[..c.len]
  }

  /** `isIpInCidr`: both texts parse and the address lies in the prefix; a parse error or a
      family mismatch is a non-match. */
  function InCidr(ip: string, cidr: string): (r: bool)
    ensures r ==> Parse(ip).Some? && ParseCidr(cidr).Some?
    ensures r ==> Parse(ip).value.V4? == ParseCidr(cidr).value.net.V4?
  {
    match (Parse(ip), ParseCidr(cidr))
    case (Some(a), Some(c)) => Matches(a, c)
    case _ => false
  }

  /** A full-length prefix matches exactly its own address. */
  lemma FullPrefixIsEquality(a: Addr, c: Cidr)
    requires WellFormed(a) && WellFormed(c.net) && c.len == Width(c.net)
    ensures Matches(a, c) <==> a == c.net
  {
    if Matches(a, c) {
      assert Bits(a) == Bits(a)[..c.len];
      assert Bits(c.net) == Bits(c.net)[..c.len];
      if a.V4? {
        assert Pow2(8) == 256;
        PartsBitsInjective(a.octets, c.net.octets, 8);
      } else {
        assert Pow2(16) == 65536;
        PartsBitsInjective(a.groups, c.net.groups, 16);
      }
    }
  }

  /** A zero-length prefix matches every address of its family. */
  lemma ZeroPrefixMatchesFamily(a: Addr, c: Cidr)
    requires WellFormed(a) && WellFormed(c.net) && c.len == 0
    ensures Matches(a, c) <==> a.V4? == c.net.V4?
  {
  }

  /** An IPv4 /8 tests exactly the first octet. */
  lemma FirstOctetPrefix(a: Addr, c: Cidr)
    requires WellFormed(a) && WellFormed(c.net) && a.V4? && c.net.V4? && c.len == 8
    ensures Matches(a, c) <==> a.octets[0] == c.net.octets[0]
  {
    assert Bits(a)[..8] == NumBits(a.octets[0], 8);
    assert Bits(c.net)[..8] == NumBits(c.net.octets[0], 8);
    if Matches(a, c) {
      assert Pow2(8) == 256;
      NumBitsInjective(a.octets[0], c.net.octets[0], 8);
    }
  }

  /** A prefix contains its own network address: `x/len` contains `x` whenever it parses. */
  lemma {:induction false} CidrContainsItsNetwork(ip: string, len: nat)
    requires Parse(ip).Some? && len <= Width(Parse(ip).value)
    ensures ParseCidr(ip + "/" + NatToString(len)) == Some(Cidr(Parse(ip).value, len))
    ensures InCidr(ip, ip + "/" + NatToString(len))
  {
    var digits := NatToString(len);
    var s := ip + "/" + digits;
    assert s[|ip|] == '/';
    forall j | 0 <= j < |digits| ensures digits[j] != '/' {
      assert IsDigit(digits[j]);
    }
    assert s[|ip| + 1..] == digits;
    assert '/' !in s[|ip| + 1..];
    EmptyTextIsNoAddress();
    assert LastIndexOf(s, '/') == |ip|;
    assert s[..|ip|] == ip;
  }

  lemma EmptyTextIsNoAddress()
    ensures Parse("") == None
  {
    assert Split("", '.') == [""];
    assert Split("", ':') == [""];
  }

}
