/** String helpers with the semantics of the JavaScript string methods the gateway uses
    (startsWith, endsWith, includes, split, join, trim, toLowerCase on ASCII, lastIndexOf). */
module Strings {

  datatype Option<+T> = None | Some(value: T)

  predicate StartsWith(s: string, prefix: string) {
    |prefix| <= |s| && s[..|prefix|] == prefix
  }

  predicate EndsWith(s: string, suffix: string) {
    |suffix| <= |s| && s[|s| - |suffix|..] == suffix
  }

  /** `s.includes(sub)`: some position of `s` starts an occurrence of `sub`. */
  predicate Contains(s: string, sub: string)
    decreases |s|
  {
    StartsWith(s, sub) || (s != [] && Contains(s[1..], sub))
  }

  /** Index of the first occurrence of `c`. */
  function FirstIndex(s: string, c: char): (r: nat)
    requires c in s
    ensures r < |s| && s[r] == c && c !in s[..r]
  {
    if s[0] == c then 0 else
      assert c in s[1..];
      var k := FirstIndex(s[1..], c);
      assert s[..k + 1] == [s[0]] + s[1..][..k];
      k + 1
  }

  /** End of a run of characters other than `stop` starting at `j` (the regex `[^c]*` with
      `c` the stop character): the next `stop`, or the end. */
  function RunEnd(s: string, j: nat, stop: char): (e: nat)
    requires j <= |s|
    ensures j <= e <= |s| && (e < |s| ==> s[e] == stop)
    ensures forall k :: j <= k < e ==> s[k] != stop
    decreases |s| - j
  {
    if j == |s| || s[j] == stop then j else RunEnd(s, j + 1, stop)
  }

  /** A run that stops at `k` ends there. */
  lemma {:induction false} RunEndIs(s: string, j: nat, stop: char, k: nat)
    requires j <= k <= |s| && (k == |s| || s[k] == stop)
    requires forall i :: j <= i < k ==> s[i] != stop
    ensures RunEnd(s, j, stop) == k
    decreases k - j
  {
    if j < k {
      RunEndIs(s, j + 1, stop, k);
    }
  }

  /** Regrouping a five-part concatenation, kept apart so that larger proofs can cite it. */
  lemma ConcatRegroup(a: string, b: string, c: string, d: string, e: string)
    ensures a + (b + c + d + e) == a + b + c + d + e
  {
  }

  /** `s.lastIndexOf(c)`, -1 when `c` does not occur. */
  function LastIndexOf(s: string, c: char): (r: int)
    ensures -1 <= r < |s|
    ensures r == -1 <==> c !in s
    ensures r >= 0 ==> s[r] == c && c !in s[r + 1..]
    decreases |s|
  {
    if s == [] then -1
    else if s[|s| - 1] == c then |s| - 1
    else
      var r := LastIndexOf(s[..|s| - 1], c);
      assert s == s[..|s| - 1] + [s[|s| - 1]];
      assert r >= 0 ==> s[r + 1..] == s[..|s| - 1][r + 1..] + [s[|s| - 1]];
      r
  }

  /** `s.split(c)` for a one-character separator: at least one piece, none containing `c`. */
  function Split(s: string, c: char): (r: seq<string>)
    ensures |r| >= 1
    ensures forall i :: 0 <= i < |r| ==> c !in r[i]
    decreases |s|
  {
    if c !in s then [s]
    else
      var i := FirstIndex(s, c);
      [s[..i]] + Split(s[i + 1..], c)
  }

  /** A slice of a suffix is a slice of the whole. */
  lemma SliceOfSuffix(s: string, a: nat, b: nat, e: nat)
    requires a + e <= |s| && b <= e
    ensures s[a..][b..e] == s[a + b..a + e]
  {
  }

  /** The pieces of a string that holds `c`: the text before its first `c`, then the pieces of
      the rest. */
  lemma SplitStep(s: string, c: char)
    requires c in s
    ensures Split(s, c) == [s[..FirstIndex(s, c)]] + Split(s[FirstIndex(s, c) + 1..], c)
  {
  }

  /** Every character other than the separator lands in some piece. */
  lemma {:induction false} SplitCovers(s: string, c: char, k: nat)
    requires k < |s| && s[k] != c
    ensures exists i :: 0 <= i < |Split(s, c)| && s[k] in Split(s, c)[i]
    decreases |s|
  {
    var r := Split(s, c);
    if c !in s {
      assert s[k] in r[0];
    } else {
      var i := FirstIndex(s, c);
      if k < i {
        assert s[k] == r[0][k];
      } else {
        assert k > i;
        SplitCovers(s[i + 1..], c, k - i - 1);
        var rest := Split(s[i + 1..], c);
        var j :| 0 <= j < |rest| && s[i + 1..][k - i - 1] in rest[j];
        assert r[j + 1] == rest[j];
      }
    }
  }

  /** Two adjacent separators leave an empty piece between them. */
  lemma SplitAdjacentSeparators(s: string, c: char, k: nat)
    requires k + 1 < |s| && s[k] == c && s[k + 1] == c
    ensures exists i :: 0 <= i < |Split(s, c)| && Split(s, c)[i] == ""
  {
    var j := EmptyPieceAt(s, c, k);
  }

  /** Where that empty piece is: its index among the pieces. */
  lemma {:induction false} EmptyPieceAt(s: string, c: char, k: nat) returns (j: nat)
    requires k + 1 < |s| && s[k] == c && s[k + 1] == c
    ensures j < |Split(s, c)| && Split(s, c)[j] == ""
    decreases |s|
  {
    assert s[k] in s;
    var i := FirstIndex(s, c);
    FirstIndexLeast(s, c, k);
    var t := s[i + 1..];
    var jt: nat;
    if k == i {
      assert t[0] == c;
      SplitStartsEmpty(t, c);
      jt := 0;
    } else {
      assert t[k - i - 1] == c && t[k - i] == c;
      jt := EmptyPieceAt(t, c, k - i - 1);
    }
    SplitShift(s, c, jt);
    j := jt + 1;
  }

  /** No `c` comes before the first one. */
  lemma FirstIndexLeast(s: string, c: char, m: nat)
    requires m < |s| && s[m] == c
    ensures c in s && FirstIndex(s, c) <= m
  {
    assert s[m] in s;
  }

  /** After the first `c`, the pieces are those of the rest, one place further on. */
  lemma SplitShift(s: string, c: char, j: nat)
    requires c in s && j < |Split(s[FirstIndex(s, c) + 1..], c)|
    ensures j + 1 < |Split(s, c)| && Split(s, c)[j + 1] == Split(s[FirstIndex(s, c) + 1..], c)[j]
  {
    var i := FirstIndex(s, c);
    var rest := Split(s[i + 1..], c);
    SplitStep(s, c);
    assert Split(s, c) == [s[..i]] + rest;
    assert ([s[..i]] + rest)[j + 1] == rest[j];
  }

  /** A text that starts with `c` has an empty first piece. */
  lemma SplitStartsEmpty(t: string, c: char)
    requires t != [] && t[0] == c
    ensures Split(t, c)[0] == ""
  {
    assert t[0] in t;
    SplitStep(t, c);
  }

  /** `parts.join(sep)`. */
  function Join(parts: seq<string>, sep: string): string
    decreases |parts|
  {
    if |parts| == 0 then ""
    else if |parts| == 1 then parts[0]
    else parts[0] + sep + Join(parts[1..], sep)
  }

  /** Joining the pieces of a split restores the original string. */
  lemma {:induction false} JoinSplit(s: string, c: char)
    ensures Join(Split(s, c), [c]) == s
    decreases |s|
  {
    if c in s {
      var i := FirstIndex(s, c);
      var rest := Split(s[i + 1..], c);
      SplitStep(s, c);
      var r := Split(s, c);
      assert |r| >= 2 && r[0] == s[..i] && r[1..] == rest;
      assert Join(r, [c]) == s[..i] + [c] + Join(rest, [c]);
      JoinSplit(s[i + 1..], c);
      assert s == s[..i] + [c] + s[i + 1..];
    }
  }

  /** A join starts with the first character of its first piece and ends with the last
      character of its last piece, when those pieces are not empty. */
  lemma {:induction false} JoinEnds(parts: seq<string>, sep: string)
    requires |parts| >= 1
    ensures |parts[0]| > 0 ==> |Join(parts, sep)| > 0 && Join(parts, sep)[0] == parts[0][0]
    ensures var last := parts[|parts| - 1];
      |last| > 0 ==> |Join(parts, sep)| > 0 && Join(parts, sep)[|Join(parts, sep)| - 1] == last[|last| - 1]
    decreases |parts|
  {
    if |parts| > 1 {
      var rest := Join(parts[1..], sep);
      assert Join(parts, sep) == parts[0] + sep + rest;
      JoinEnds(parts[1..], sep);
      assert parts[1..][|parts[1..]| - 1] == parts[|parts| - 1];
    }
  }

  /** A join of two or more pieces is the join of all but the last, the separator and the
      last. */
  lemma {:induction false} JoinSnoc(parts: seq<string>, sep: string)
    requires |parts| >= 2
    ensures Join(parts, sep) == Join(parts[..|parts| - 1], sep) + sep + parts[|parts| - 1]
    decreases |parts|
  {
    var init := parts[..|parts| - 1];
    if |parts| == 2 {
      assert init == [parts[0]];
    } else {
      JoinSnoc(parts[1..], sep);
      assert parts[1..][..|parts| - 2] == init[1..];
      assert parts[1..][|parts| - 2] == parts[|parts| - 1];
      assert Join(init, sep) == init[0] + sep + Join(init[1..], sep);
    }
  }

  /** Splitting a join of pieces that do not contain the separator gives the pieces back. */
  lemma {:induction false} SplitJoin(parts: seq<string>, c: char)
    requires |parts| >= 1
    requires forall i :: 0 <= i < |parts| ==> c !in parts[i]
    ensures Split(Join(parts, [c]), c) == parts
    decreases |parts|
  {
    if |parts| > 1 {
      var rest := Join(parts[1..], [c]);
      var s := parts[0] + [c] + rest;
      assert s[|parts[0]|] == c;
      assert c in s;
      var i := FirstIndex(s, c);
      assert s[..|parts[0]|] == parts[0];
      assert i == |parts[0]|;
      assert s[..i] == parts[0];
      assert s[i + 1..] == rest;
      SplitJoin(parts[1..], c);
    }
  }

  /** A character in no piece and other than the separator is not in the join. */
  lemma {:induction false} JoinAvoids(parts: seq<string>, sep: char, c: char)
    requires c != sep && forall i :: 0 <= i < |parts| ==> c !in parts[i]
    ensures c !in Join(parts, [sep])
    decreases |parts|
  {
    if |parts| > 1 {
      JoinAvoids(parts[1..], sep, c);
      assert Join(parts, [sep]) == parts[0] + [sep] + Join(parts[1..], [sep]);
    }
  }

  /** No two adjacent occurrences of `c`. */
  predicate NoDoubled(s: string, c: char) {
    forall i :: 0 <= i < |s| - 1 ==> !(s[i] == c && s[i + 1] == c)
  }

  /** Joining non-empty pieces free of `c` with `c` neither starts nor ends with `c` and never
      puts two of them side by side. */
  lemma {:induction false} JoinNoDoubled(parts: seq<string>, c: char)
    requires |parts| >= 1
    requires forall i :: 0 <= i < |parts| ==> parts[i] != [] && c !in parts[i]
    ensures var t := Join(parts, [c]); t != [] && t[0] != c && t[|t| - 1] != c && NoDoubled(t, c)
    decreases |parts|
  {
    var t := Join(parts, [c]);
    var p := parts[0];
    if |parts| == 1 {
      assert t == p;
      assert p[|p| - 1] in p;
    } else {
      JoinNoDoubled(parts[1..], c);
      var r := Join(parts[1..], [c]);
      assert t == p + [c] + r;
      assert p[|p| - 1] in p && p[0] in p;
      forall i | 0 <= i < |t| - 1 ensures !(t[i] == c && t[i + 1] == c) {
        if i + 1 < |p| {
          assert t[i] == p[i] && p[i] in p;
        } else if i + 1 == |p| {
          assert t[i] == p[|p| - 1];
        } else if i == |p| {
          assert t[i + 1] == r[0];
        } else {
          assert t[i] == r[i - |p| - 1] && t[i + 1] == r[i - |p|];
        }
      }
      assert t[|t| - 1] == r[|r| - 1];
    }
  }

  /** The characters String.prototype.trim removes: white space and line terminators. */
  predicate IsJsSpace(ch: char) {
    ch == ' ' || ch == '\t' || ch == '\n' || ch == '\r' || ch == '\U{B}' || ch == '\U{C}'
    || ch == '\U{A0}' || ch == '\U{1680}' || ('\U{2000}' <= ch <= '\U{200A}')
    || ch == '\U{2028}' || ch == '\U{2029}' || ch == '\U{202F}' || ch == '\U{205F}'
    || ch == '\U{3000}' || ch == '\U{FEFF}'
  }

  /** The end of the whitespace run that starts at `i`. */
  function LeadingEnd(s: string, i: nat): (e: nat)
    requires i <= |s|
    ensures i <= e <= |s| && (e < |s| ==> !IsJsSpace(s[e]))
    ensures forall j :: i <= j < e ==> IsJsSpace(s[j])
    decreases |s| - i
  {
    if i == |s| || !IsJsSpace(s[i]) then i else LeadingEnd(s, i + 1)
  }

  /** The start of the whitespace run that ends at `j`, looking no further back than `lo`. */
  function TrailingStart(s: string, lo: nat, j: nat): (b: nat)
    requires lo <= j <= |s|
    ensures lo <= b <= j && (b > lo ==> !IsJsSpace(s[b - 1]))
    ensures forall i :: b <= i < j ==> IsJsSpace(s[i])
    decreases j - lo
  {
    if j == lo || !IsJsSpace(s[j - 1]) then j else TrailingStart(s, lo, j - 1)
  }

  /** `s.trim()`: the infix of `s` between its leading and its trailing whitespace. What is
      cut off on either side is whitespace, and the result neither starts nor ends with it,
      so it is the longest such infix. */
  function Trim(s: string): (r: string)
    ensures r != [] ==> !IsJsSpace(r[0]) && !IsJsSpace(r[|r| - 1])
    ensures var k := LeadingEnd(s, 0); k + |r| <= |s| && r == s[k..k + |r|]
    ensures forall i :: 0 <= i < LeadingEnd(s, 0) ==> IsJsSpace(s[i])
    ensures forall i :: LeadingEnd(s, 0) + |r| <= i < |s| ==> IsJsSpace(s[i])
  {
    var a := LeadingEnd(s, 0);
    var b := TrailingStart(s, a, |s|);
    s[a..b]
  }

  /** A string without leading or trailing space is its own trim. */
  lemma TrimFixed(s: string)
    requires s != [] ==> !IsJsSpace(s[0]) && !IsJsSpace(s[|s| - 1])
    ensures Trim(s) == s
  {
  }

  function LowerChar(ch: char): char {
    if 'A' <= ch <= 'Z' then (ch as int + 32) as char else ch
  }

  /** `s.toLowerCase()` restricted to ASCII letters. */
  function Lower(s: string): (r: string)
    ensures |r| == |s|
    ensures forall i :: 0 <= i < |s| ==> r[i] == LowerChar(s[i])
  {
    seq(|s|, i requires 0 <= i < |s| => LowerChar(s[i]))
  }

  /** `s.length` in JavaScript: UTF-16 code units, so a character beyond the Basic
      Multilingual Plane counts twice. */
  function Utf16Length(s: string): (n: nat)
    ensures |s| <= n <= 2 * |s|
  {
    if s == [] then 0
    else (if s[0] <= '\U{FFFF}' then 1 else 2) + Utf16Length(s[1..])
  }

  /** The number of bytes of the UTF-8 encoding of `s` (section 3 of RFC 3629). */
  function Utf8Length(s: string): (n: nat)
    ensures |s| <= n <= 4 * |s|
  {
    if s == [] then 0
    else
      (if s[0] < '\U{80}' then 1 else if s[0] < '\U{800}' then 2 else if s[0] <= '\U{FFFF}' then 3 else 4)
      + Utf8Length(s[1..])
  }

  /** Within the Basic Multilingual Plane `.length` counts characters, and within ASCII so
      does the UTF-8 byte count. */
  lemma {:induction false} NarrowLengths(s: string)
    ensures (forall i :: 0 <= i < |s| ==> s[i] <= '\U{FFFF}') ==> Utf16Length(s) == |s|
    ensures (forall i :: 0 <= i < |s| ==> s[i] < '\U{80}') ==> Utf8Length(s) == |s|
    decreases |s|
  {
    if s != [] {
      assert forall i :: 0 <= i < |s[1..]| ==> s[1..][i] == s[i + 1];
      NarrowLengths(s[1..]);
    }
  }

  lemma {:induction false} Utf16LengthAppend(a: string, b: string)
    ensures Utf16Length(a + b) == Utf16Length(a) + Utf16Length(b)
    decreases |a|
  {
    if a != [] {
      assert (a + b)[0] == a[0] && (a + b)[1..] == a[1..] + b;
      Utf16LengthAppend(a[1..], b);
    } else {
      assert a + b == b;
    }
  }

  /** A character outside the Basic Multilingual Plane is two units of `.length` and four
      bytes of UTF-8; one from U+0800 to U+FFFF is one unit and three bytes. */
  lemma UnitCounts(astral: char, bmp: char)
    requires astral > '\U{FFFF}' && '\U{800}' <= bmp <= '\U{FFFF}'
    ensures Utf16Length([astral]) == 2 && Utf8Length([astral]) == 4
    ensures Utf16Length([bmp]) == 1 && Utf8Length([bmp]) == 3
  {
    assert [astral][1..] == [] && [bmp][1..] == [];
  }

  predicate IsDigit(ch: char) { '0' <= ch <= '9' }

  predicate IsHexDigit(ch: char) { IsDigit(ch) || ('a' <= ch <= 'f') || ('A' <= ch <= 'F') }

  predicate AllDigits(s: string) { forall i :: 0 <= i < |s| ==> IsDigit(s[i]) }

  function DigitValue(ch: char): nat requires IsDigit(ch) { ch as int - '0' as int }

  /** Decimal value of a digit string (most significant digit first). */
  function DecimalValue(s: string): nat
    requires AllDigits(s)
  {
    if s == [] then 0 else 10 * DecimalValue(s[..|s| - 1]) + DigitValue(s[|s| - 1])
  }

  function HexDigitValue(ch: char): (v: nat)
    requires IsHexDigit(ch)
    ensures v < 16
  {
    if IsDigit(ch) then ch as int - '0' as int
    else if 'a' <= ch <= 'f' then ch as int - 'a' as int + 10
    else ch as int - 'A' as int + 10
  }

  function HexValue(s: string): nat
    requires forall i :: 0 <= i < |s| ==> IsHexDigit(s[i])
  {
    if s == [] then 0 else 16 * HexValue(s[..|s| - 1]) + HexDigitValue(s[|s| - 1])
  }

  /** Decimal text of a natural number, as Number.prototype.toString prints it. */
  function NatToString(n: nat): (r: string)
    ensures |r| >= 1 && AllDigits(r) && DecimalValue(r) == n
    ensures r[0] == '0' ==> n == 0
  {
    var d := ['0' + (n % 10) as char];
    if n < 10 then d
    else
      var p := NatToString(n / 10);
      var r := p + d;
      assert r[..|r| - 1] == p;
      r
  }

  /** Below 1000 the decimal text has at most three digits. */
  lemma NatToStringShort(n: nat)
    requires n < 1000
    ensures |NatToString(n)| <= 3
  {
    if n >= 10 {
      NatToStringShort(n / 10);
      if n / 10 < 10 {
        assert |NatToString(n / 10)| == 1;
      } else {
        assert n / 10 / 10 < 10;
        assert |NatToString(n / 10 / 10)| == 1;
      }
    }
  }

  /** A digit string that does not start with '0' denotes a positive number. */
  lemma {:induction false} DecimalPositive(s: string)
    requires s != [] && AllDigits(s) && s[0] != '0'
    ensures DecimalValue(s) >= 1
    decreases |s|
  {
    if |s| > 1 {
      DecimalPositive(s[..|s| - 1]);
    }
  }

  /** A digit string without a leading zero is the decimal text of its own value: the
      converse of NatToString's read-back. */
  lemma {:induction false} NatToStringCanonical(s: string)
    requires s != [] && AllDigits(s) && (s[0] == '0' ==> |s| == 1)
    ensures NatToString(DecimalValue(s)) == s
    decreases |s|
  {
    var n := DecimalValue(s);
    var last := s[|s| - 1];
    if |s| == 1 {
      assert s[..0] == [] && last == s[0];
      assert n == 10 * DecimalValue(s[..0]) + DigitValue(last);
      assert n < 10;
      assert NatToString(n) == ['0' + (n % 10) as char];
      assert s == [last];
    } else {
      var p := s[..|s| - 1];
      DecimalPositive(p);
      NatToStringCanonical(p);
      assert n / 10 == DecimalValue(p) && n % 10 == DigitValue(last);
      assert n >= 10;
      assert NatToString(n) == NatToString(n / 10) + ['0' + (n % 10) as char];
      assert s == p + [last];
    }
  }

  function IntToString(n: int): string {
    if n < 0 then "-" + NatToString(-n) else NatToString(n)
  }
}
