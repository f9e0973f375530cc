/** The allow-list decision: configured entries split into exact addresses and CIDR prefixes,
    the loopback defaults, the on/off switch, and the diagnostic report. */
module IpValidator {
  import opened Strings
  import opened IpAddress

  /** Always allowed once the whitelist is on. */
  const DEFAULT_ALLOWED_IPS: seq<string> := ["127.0.0.1", "::1", "::ffff:127.0.0.1"]

  /** The configured entries containing '/', in order. */
  function CidrEntries(entries: seq<string>): (r: seq<string>)
    ensures forall i :: 0 <= i < |r| ==> '/' in r[i]
  {
    if entries == [] then []
    else (if '/' in entries[0] then [entries[0]] else []) + CidrEntries(entries[1..])
  }

  /** The configured entries without '/', in order. */
  function AddressEntries(entries: seq<string>): (r: seq<string>)
    ensures forall i :: 0 <= i < |r| ==> '/' !in r[i]
  {
    if entries == [] then []
    else (if '/' in entries[0] then [] else [entries[0]]) + AddressEntries(entries[1..])
  }

  /** Every configured entry lands in exactly one of the two lists, as often as it occurs. */
  lemma {:induction false} PartitionOfEntries(entries: seq<string>)
    ensures multiset(CidrEntries(entries)) + multiset(AddressEntries(entries)) == multiset(entries)
  {
    if entries != [] {
      PartitionOfEntries(entries[1..]);
      assert entries == [entries[0]] + entries[1..];
    }
  }

  /** The first CIDR from `from` on that contains `ip`. */
  function FirstMatchingCidr(ip: string, cidrs: seq<string>, from: nat): (r: Option<nat>)
    requires from <= |cidrs|
    ensures r.Some? ==> from <= r.value < |cidrs| && InCidr(ip, cidrs[r.value])
    ensures r.Some? ==> forall j :: from <= j < r.value ==> !InCidr(ip, cidrs[j])
    ensures r.None? ==> forall j :: from <= j < |cidrs| ==> !InCidr(ip, cidrs[j])
    decreases |cidrs| - from
  {
    if from == |cidrs| then None
    else if InCidr(ip, cidrs[from]) then Some(from)
    else FirstMatchingCidr(ip, cidrs, from + 1)
  }

  /** The loopback texts clean to themselves, and the mapped form to plain 127.0.0.1. */
  lemma CleanLoopback()
    ensures CleanIp("127.0.0.1") == "127.0.0.1" && CleanIp("::1") == "::1"
    ensures CleanIp("::ffff:127.0.0.1") == "127.0.0.1"
  {
    CleanFixed("127.0.0.1");
    CleanFixed("::1");
    CleanMapped();
  }

  lemma CleanMapped()
    ensures CleanIp("::ffff:127.0.0.1") == "127.0.0.1"
  {
    var m := "::ffff:127.0.0.1";
    var v4 := "127.0.0.1";
    assert m[..7] == "::ffff:";
    assert m[7..] == v4;
    assert !IsJsSpace(v4[0]) && !IsJsSpace(v4[|v4| - 1]);
    TrimFixed(v4);
  }

  lemma CleanFixed(s: string)
    requires s == "127.0.0.1" || s == "::1"
    ensures CleanIp(s) == s
  {
    assert !StartsWith(s, "::ffff:") by {
      if |s| >= 7 { assert s[..7][0] == s[0]; assert s[..7][1] == s[1]; }
    }
    assert !IsJsSpace(s[0]) && !IsJsSpace(s[|s| - 1]);
    TrimFixed(s);
  }

  /** The diagnostic report of `getIpValidationInfo`. */
  datatype ValidationInfo = ValidationInfo(
    originalIp: string,
    cleanedIp: string,
    isValid: bool,
    isAllowed: bool,
    matchedRule: Option<string>,
    validationEnabled: bool)

  /** `isValidIpFormat`: non-empty, and its cleaned form parses as an address. */
  predicate IsValidIpFormat(ip: string) {
    ip != "" && Parse(CleanIp(ip)).Some?
  }

  class IpValidatorService {
    const allowedCidrs: seq<string>
    const allowedIps: seq<string>
    const enableIpWhitelist: bool

    /** The loopback defaults follow the configured exact addresses. */
    predicate Valid() {
      |allowedIps| >= 3 && allowedIps[|allowedIps| - 3..] == DEFAULT_ALLOWED_IPS
    }

    /** `security.allowedCidrs` (`None` when unset, read as `[]`) and
        `security.enableIpWhitelist` (`None` when unset, read as `false`). */
    constructor (configured: Option<seq<string>>, enable: Option<bool>)
      ensures allowedCidrs == CidrEntries(if configured.Some? then configured.value else [])
      ensures allowedIps == AddressEntries(if configured.Some? then configured.value else []) + DEFAULT_ALLOWED_IPS
      ensures enableIpWhitelist == (enable == Some(true))
      ensures Valid()
    {
      var all := if configured.Some? then configured.value else [];
      allowedCidrs := CidrEntries(all);
      var ips := AddressEntries(all);
      allowedIps := ips + DEFAULT_ALLOWED_IPS;
      enableIpWhitelist := enable.Some? && enable.value;
    }

    /** The decision `isIpAllowed` computes. */
    predicate Allows(ip: string) {
      !enableIpWhitelist
      || (ip != "" && (CleanIp(ip) in allowedIps || FirstMatchingCidr(CleanIp(ip), allowedCidrs, 0).Some?))
    }

    /** `isIpAllowed`: the switch, the empty input, the exact list, then each CIDR in turn. */
    method IsIpAllowed(ip: string) returns (allowed: bool)
      ensures allowed == Allows(ip)
    {
      if !enableIpWhitelist {
        return true;
      }
      if ip == "" {
        return false;
      }
      var cleanIp := CleanIp(ip);
      if cleanIp in allowedIps {
        return true;
      }
      var i := 0;
      while i < |allowedCidrs|
        invariant 0 <= i <= |allowedCidrs|
        invariant FirstMatchingCidr(cleanIp, allowedCidrs, 0) == FirstMatchingCidr(cleanIp, allowedCidrs, i)
      {
        if InCidr(cleanIp, allowedCidrs[i]) {
          return true;
        }
        i := i + 1;
      }
      return false;
    }

    /** The order of the decision, as the source promises it. */
    lemma DecisionOrder(ip: string)
      ensures !enableIpWhitelist ==> Allows(ip)
      ensures enableIpWhitelist && ip == "" ==> !Allows(ip)
      ensures enableIpWhitelist && ip != "" && CleanIp(ip) in allowedIps ==> Allows(ip)
      ensures enableIpWhitelist && ip != "" && CleanIp(ip) !in allowedIps ==>
        (Allows(ip) <==> exists k :: 0 <= k < |allowedCidrs| && InCidr(CleanIp(ip), allowedCidrs[k]))
    {
    }

    /** Each loopback default is allowed, whether it arrives plain or IPv4-mapped. */
    lemma LoopbackAllowed()
      requires Valid()
      ensures Allows("127.0.0.1") && Allows("::1") && Allows("::ffff:127.0.0.1")
    {
      assert allowedIps[|allowedIps| - 3] == "127.0.0.1";
      assert allowedIps[|allowedIps| - 2] == "::1";
      CleanLoopback();
    }

    /** The report `getIpValidationInfo` returns. */
    function Info(ip: string): (info: ValidationInfo)
      ensures info.originalIp == ip && info.cleanedIp == CleanIp(ip)
      ensures info.isValid == IsValidIpFormat(ip) && info.validationEnabled == enableIpWhitelist
    {
      var cleanedIp := CleanIp(ip);
      var rule :=
        if !enableIpWhitelist then Some("Validação desativada")
        else if cleanedIp in allowedIps then Some("IP direto: " + cleanedIp)
        else match FirstMatchingCidr(cleanedIp, allowedCidrs, 0)
          case Some(k) => Some("CIDR: " + allowedCidrs[k])
          case None => None;
      ValidationInfo(ip, cleanedIp, IsValidIpFormat(ip), rule.Some?, rule, enableIpWhitelist)
    }

    /** `getIpValidationInfo`: the same order, stopping at the first matching CIDR. */
    method GetIpValidationInfo(ip: string) returns (info: ValidationInfo)
      ensures info == Info(ip)
    {
      var cleanedIp := CleanIp(ip);
      var isValid := IsValidIpFormat(ip);
      var matchedRule: Option<string> := None;
      var isAllowed := false;
      if !enableIpWhitelist {
        isAllowed := true;
        matchedRule := Some("Validação desativada");
      } else if cleanedIp in allowedIps {
        isAllowed := true;
        matchedRule := Some("IP direto: " + cleanedIp);
      } else {
        var i := 0;
        while i < |allowedCidrs|
          invariant 0 <= i <= |allowedCidrs|
          invariant FirstMatchingCidr(cleanedIp, allowedCidrs, 0) == FirstMatchingCidr(cleanedIp, allowedCidrs, i)
          invariant !isAllowed && matchedRule == None
        {
          if InCidr(cleanedIp, allowedCidrs[i]) {
            isAllowed := true;
            matchedRule := Some("CIDR: " + allowedCidrs[i]);
            break;
          }
          i := i + 1;
        }
      }
      info := ValidationInfo(ip, cleanedIp, isValid, isAllowed, matchedRule, enableIpWhitelist);
    }

    /** A rule is reported exactly when the address is allowed; an exact match is reported in
        preference to a CIDR, and a CIDR match names the first matching entry. */
    lemma InfoRule(ip: string)
      ensures Info(ip).matchedRule.Some? <==> Info(ip).isAllowed
      ensures enableIpWhitelist && CleanIp(ip) in allowedIps ==>
        Info(ip).matchedRule == Some("IP direto: " + CleanIp(ip))
      ensures enableIpWhitelist && CleanIp(ip) !in allowedIps && Info(ip).isAllowed ==>
        exists k :: 0 <= k < |allowedCidrs| && InCidr(CleanIp(ip), allowedCidrs[k])
          && Info(ip).matchedRule == Some("CIDR: " + allowedCidrs[k])
          && forall j :: 0 <= j < k ==> !InCidr(CleanIp(ip), allowedCidrs[j])
    {
      if enableIpWhitelist && CleanIp(ip) !in allowedIps && Info(ip).isAllowed {
        var k := FirstMatchingCidr(CleanIp(ip), allowedCidrs, 0).value;
        assert InCidr(CleanIp(ip), allowedCidrs[k]);
      }
    }

    /** For every non-empty input the report agrees with the decision. */
    lemma InfoAgreesWithDecision(ip: string)
      requires ip != ""
      ensures Info(ip).isAllowed == Allows(ip)
    {
    }

    /** The empty input is where the two part ways: an empty configured entry is an exact
        address, which the report matches but the decision never consults. */
    lemma EmptyInputDisagreement()
      requires enableIpWhitelist && "" in allowedIps
      ensures Info("").isAllowed && !Allows("")
    {
      assert CleanIp("") == "";
    }
  }
}
