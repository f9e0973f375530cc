/** The regular-expression replacement both URL sanitisers use: the global pattern
    `[?&](n1|n2|...)=[^&]*` replaced by `$1=[REDACTED]`, optionally with the `i` flag. It is a
    left-to-right scan in which every `?` or `&` directly followed by one of the names and '='
    is replaced, together with the value up to the next '&', by the matched name, '=' and
    "[REDACTED]". The separator itself is not part of `$1`, so it is dropped. */
module QueryRedaction {
  import opened Strings

  predicate IsSeparator(c: char) {
    c == '?' || c == '&'
  }

  const REDACTED := "[REDACTED]"

  /** The text `t` spells `name`, ignoring ASCII case when `ignoreCase` is set. */
  predicate Spells(t: string, name: string, ignoreCase: bool) {
    if ignoreCase then Lower(t) == name else t == name
  }

  /** The alternative `name` followed by '=' matches at position `i`. */
  predicate NameAt(s: string, i: nat, name: string, ignoreCase: bool) {
    i + |name| < |s| && Spells(s[i..i + |name|], name, ignoreCase) && s[i + |name|] == '='
  }

  /** The first alternative, from index `m` of `names` on, that matches at position `i`:
      the regular expression tries the alternatives in order. */
  function FirstName(s: string, i: nat, names: seq<string>, ignoreCase: bool, m: nat): (r: Option<nat>)
    requires m <= |names|
    ensures r.Some? ==> m <= r.value < |names| && NameAt(s, i, names[r.value], ignoreCase)
    ensures r.None? ==> forall j :: m <= j < |names| ==> !NameAt(s, i, names[j], ignoreCase)
    decreases |names| - m
  {
    if m == |names| then None
    else if NameAt(s, i, names[m], ignoreCase) then Some(m)
    else FirstName(s, i, names, ignoreCase, m + 1)
  }

  /** The global replacement. */
  function Redact(s: string, names: seq<string>, ignoreCase: bool): string
    decreases |s|
  {
    if s == [] then []
    else if IsSeparator(s[0]) && FirstName(s, 1, names, ignoreCase, 0).Some? then
      var n := FirstName(s, 1, names, ignoreCase, 0).value;
      var e := RunEnd(s, 2 + |names[n]|, '&');
      s[1..1 + |names[n]|] + "=" + REDACTED + Redact(s[e..], names, ignoreCase)
    else [s[0]] + Redact(s[1..], names, ignoreCase)
  }

  /** Text without a separator is left alone. */
  lemma {:induction false} NoSeparatorUnchanged(s: string, names: seq<string>, ignoreCase: bool)
    requires forall k :: 0 <= k < |s| ==> !IsSeparator(s[k])
    ensures Redact(s, names, ignoreCase) == s
    decreases |s|
  {
    if s != [] {
      NoSeparatorUnchanged(s[1..], names, ignoreCase);
      assert s == [s[0]] + s[1..];
    }
  }

  lemma PlainChar(c: char, u: string, names: seq<string>, ignoreCase: bool)
    requires !IsSeparator(c)
    ensures Redact([c] + u, names, ignoreCase) == [c] + Redact(u, names, ignoreCase)
  {
    assert ([c] + u)[1..] == u;
  }

  /** A prefix without separators (the path) is copied and the scan carries on after it. */
  lemma {:induction false} PlainPrefix(p: string, t: string, names: seq<string>, ignoreCase: bool)
    requires forall k :: 0 <= k < |p| ==> !IsSeparator(p[k])
    ensures Redact(p + t, names, ignoreCase) == p + Redact(t, names, ignoreCase)
    decreases |p|
  {
    if p != [] {
      assert p + t == [p[0]] + (p[1..] + t);
      PlainChar(p[0], p[1..] + t, names, ignoreCase);
      PlainPrefix(p[1..], t, names, ignoreCase);
      assert [p[0]] + (p[1..] + Redact(t, names, ignoreCase)) == p + Redact(t, names, ignoreCase);
    } else {
      assert p + t == t;
    }
  }

  /** Distinct names none of which holds '=': at most one alternative can match anywhere. */
  predicate Unambiguous(names: seq<string>) {
    (forall i, j :: 0 <= i < j < |names| ==> names[i] != names[j])
    && (forall i :: 0 <= i < |names| ==> '=' !in names[i])
  }

  lemma {:induction false} AtMostOneName(s: string, i: nat, names: seq<string>, ignoreCase: bool, a: nat, b: nat)
    requires Unambiguous(names) && a < |names| && b < |names|
    requires NameAt(s, i, names[a], ignoreCase) && NameAt(s, i, names[b], ignoreCase)
    ensures a == b
  {
  }

  /** The name that matches is the one the scan picks. */
  lemma FirstNameIs(s: string, i: nat, names: seq<string>, ignoreCase: bool, n: nat)
    requires Unambiguous(names) && n < |names| && NameAt(s, i, names[n], ignoreCase)
    ensures FirstName(s, i, names, ignoreCase, 0) == Some(n)
  {
    var r := FirstName(s, i, names, ignoreCase, 0);
    AtMostOneName(s, i, names, ignoreCase, r.value, n);
  }

  /** A sensitive parameter: the separator, the name as written and the value up to the
      next '&' become `name=[REDACTED]`. */
  lemma {:induction false} RedactedParam(sep: char, written: string, v: string, rest: string,
                                         names: seq<string>, ignoreCase: bool, n: nat)
    requires IsSeparator(sep) && Unambiguous(names) && n < |names|
    requires |written| == |names[n]| && Spells(written, names[n], ignoreCase)
    requires '&' !in v && (rest == [] || rest[0] == '&')
    ensures Redact([sep] + written + "=" + v + rest, names, ignoreCase)
         == written + "=" + REDACTED + Redact(rest, names, ignoreCase)
  {
    var s := [sep] + written + "=" + v + rest;
    var k := 2 + |written| + |v|;
    assert s[1..1 + |written|] == written;
    assert s[1 + |written|] == '=';
    FirstNameIs(s, 1, names, ignoreCase, n);
    forall i | 2 + |written| <= i < k ensures s[i] != '&' {
      assert s[i] == v[i - 2 - |written|];
    }
    assert s[k..] == rest;
    RunEndIs(s, 2 + |written|, '&', k);
  }

  /** The replacement text written as one literal. */
  lemma RedactedText(a: string, b: string)
    ensures a + "=" + REDACTED + b == a + "=[REDACTED]" + b
  {
  }

  /** After a path without separators, a sensitive parameter loses its separator: the name as
      written is glued to the path. */
  lemma {:induction false} SeparatorDropped(path: string, sep: char, written: string, v: string, rest: string,
                                            names: seq<string>, ignoreCase: bool, n: nat)
    requires forall k :: 0 <= k < |path| ==> !IsSeparator(path[k])
    requires IsSeparator(sep) && Unambiguous(names) && n < |names|
    requires |written| == |names[n]| && Spells(written, names[n], ignoreCase)
    requires '&' !in v && (rest == [] || rest[0] == '&')
    ensures Redact(path + [sep] + written + "=" + v + rest, names, ignoreCase)
         == path + written + "=" + REDACTED + Redact(rest, names, ignoreCase)
  {
    var q := [sep] + written + "=" + v + rest;
    var tail := Redact(rest, names, ignoreCase);
    calc {
      Redact(path + [sep] + written + "=" + v + rest, names, ignoreCase);
      { assert path + [sep] + written + "=" + v + rest == path + q; }
      Redact(path + q, names, ignoreCase);
      { PlainPrefix(path, q, names, ignoreCase); }
      path + Redact(q, names, ignoreCase);
      { RedactedParam(sep, written, v, rest, names, ignoreCase, n); }
      path + (written + "=" + REDACTED + tail);
      { ConcatRegroup(path, written, "=", REDACTED, tail); }
      path + written + "=" + REDACTED + tail;
    }
  }

  /** Any other parameter (its name holds no '=' and spells none of the names) is copied,
      separator included, with the scan carrying on after its value. */
  lemma {:induction false} KeptParam(sep: char, name: string, v: string, rest: string,
                                     names: seq<string>, ignoreCase: bool)
    requires IsSeparator(sep) && Unambiguous(names) && '=' !in name
    requires forall m :: 0 <= m < |names| ==> !Spells(name, names[m], ignoreCase)
    requires forall k :: 0 <= k < |name| ==> !IsSeparator(name[k])
    requires forall k :: 0 <= k < |v| ==> !IsSeparator(v[k])
    ensures Redact([sep] + name + "=" + v + rest, names, ignoreCase)
         == [sep] + name + "=" + v + Redact(rest, names, ignoreCase)
  {
    var s := [sep] + name + "=" + v + rest;
    forall m | 0 <= m < |names| ensures !NameAt(s, 1, names[m], ignoreCase) {
      var nm := names[m];
      if |nm| < |name| {
        assert s[1 + |nm|] == name[|nm|];
      } else if |name| < |nm| && 1 + |nm| <= |s| {
        assert s[1..1 + |nm|][|name|] == '=';
      } else if |name| == |nm| {
        assert s[1..1 + |nm|] == name;
      }
    }
    assert s[1..] == name + "=" + v + rest;
    var q := name + "=" + v;
    forall k | 0 <= k < |q| ensures !IsSeparator(q[k]) {
      if k < |name| { assert q[k] == name[k]; }
      else if k > |name| { assert q[k] == v[k - |name| - 1]; }
    }
    assert name + "=" + v + rest == q + rest;
    PlainPrefix(q, rest, names, ignoreCase);
    ConcatRegroup([sep], name, "=", v, Redact(rest, names, ignoreCase));
  }
}
