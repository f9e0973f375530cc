/** JavaScript values as the gateway receives them in a JSON body, with JavaScript's
    truthiness, `typeof x === 'object'` and `String(x)`. Object fields are kept in insertion
    order; `Object.entries` and `Object.keys` visit them in the order `Entries` gives (section
    10.1.11.1 of ECMA-262): the array-index keys first, ascending, then the others as inserted. */
module Json {
  import opened Strings

  datatype Value =
    | Null
    | Bool(b: bool)
    | Num(n: int)
    | Str(s: string)
    | Arr(items: seq<Value>)
    | Obj(fields: Fields)

  type Fields = seq<(string, Value)>

  /** JavaScript truthiness: null, false, 0 and "" are falsy; every array and object is truthy. */
  predicate Truthy(v: Value) {
    match v
    case Null => false
    case Bool(b) => b
    case Num(n) => n != 0
    case Str(s) => s != ""
    case Arr(_) => true
    case Obj(_) => true
  }

  /** `typeof v === 'object'`, which also holds of null. */
  predicate IsObjectType(v: Value) {
    v.Null? || v.Arr? || v.Obj?
  }

  function Keys(f: Fields): (r: seq<string>)
    ensures |r| == |f| && forall i :: 0 <= i < |f| ==> r[i] == f[i].0
  {
    seq(|f|, i requires 0 <= i < |f| => f[i].0)
  }

  /** Object keys are unique. */
  predicate UniqueKeys(f: Fields) {
    forall i, j :: 0 <= i < j < |f| ==> f[i].0 != f[j].0
  }

  predicate HasKey(f: Fields, k: string) {
    k in Keys(f)
  }

  /** `obj[k]` for a key that is present. */
  function Get(f: Fields, k: string): (v: Option<Value>)
    ensures v.Some? <==> HasKey(f, k)
    ensures v.Some? ==> exists i :: 0 <= i < |f| && f[i] == (k, v.value)
  {
    if f == [] then None
    else if f[0].0 == k then Some(f[0].1)
    else
      var r := Get(f[1..], k);
      assert Keys(f) == [f[0].0] + Keys(f[1..]);
      assert r.Some? ==> exists i :: 0 <= i < |f[1..]| && f[1..][i] == (k, r.value);
      assert r.Some? ==> exists i :: 0 <= i < |f| && f[i] == (k, r.value) by {
        if r.Some? {
          var i :| 0 <= i < |f[1..]| && f[1..][i] == (k, r.value);
          assert f[i + 1] == (k, r.value);
        }
      }
      r
  }

  /** The first field with key `k` is the one `obj[k]` reads. */
  lemma {:induction false} GetAt(f: Fields, i: nat, k: string)
    requires i < |f| && f[i].0 == k && forall j :: 0 <= j < i ==> f[j].0 != k
    ensures Get(f, k) == Some(f[i].1)
    decreases i
  {
    if i > 0 {
      GetAt(f[1..], i - 1, k);
    }
  }

  /** `delete copy[k]` on a copy of the object: every other field, in order. */
  function Without(f: Fields, k: string): (r: Fields)
    ensures !HasKey(r, k)
    ensures |r| <= |f|
  {
    if f == [] then []
    else
      var rest := Without(f[1..], k);
      assert Keys([f[0]] + rest) == [f[0].0] + Keys(rest);
      if f[0].0 == k then rest else [f[0]] + rest
  }

  /** Deleting a key keeps exactly the fields with another key. */
  lemma {:induction false} WithoutMembers(f: Fields, k: string)
    ensures forall p :: p in Without(f, k) <==> p in f && p.0 != k
    decreases |f|
  {
    if f != [] {
      WithoutMembers(f[1..], k);
      assert forall p :: p in f <==> p == f[0] || p in f[1..];
    }
  }

  /** A canonical array index: "0" or digits without a leading zero, below 2^32 - 1. */
  predicate IsArrayIndex(k: string) {
    k != [] && AllDigits(k) && (k[0] == '0' ==> |k| == 1) && DecimalValue(k) < 0xFFFF_FFFF
  }

  /** The number an array-index key stands for. */
  function IndexValue(k: string): nat {
    if AllDigits(k) then DecimalValue(k) else 0
  }

  function IndexFields(f: Fields): (r: Fields)
    ensures forall i :: 0 <= i < |r| ==> IsArrayIndex(r[i].0)
  {
    if f == [] then []
    else (if IsArrayIndex(f[0].0) then [f[0]] else []) + IndexFields(f[1..])
  }

  function OtherFields(f: Fields): (r: Fields)
    ensures forall i :: 0 <= i < |r| ==> !IsArrayIndex(r[i].0)
  {
    if f == [] then []
    else (if IsArrayIndex(f[0].0) then [] else [f[0]]) + OtherFields(f[1..])
  }

  /** Array-index keys in ascending order of their numbers. */
  predicate Ascending(s: Fields) {
    && (forall i :: 0 <= i < |s| ==> IsArrayIndex(s[i].0))
    && (forall i, j :: 0 <= i < j < |s| ==> IndexValue(s[i].0) <= IndexValue(s[j].0))
  }

  lemma AscendingCons(h: (string, Value), t: Fields)
    requires IsArrayIndex(h.0) && Ascending(t)
    requires forall i :: 0 <= i < |t| ==> IndexValue(h.0) <= IndexValue(t[i].0)
    ensures Ascending([h] + t)
  {
    var r := [h] + t;
    forall i, j | 0 <= i < j < |r| ensures IndexValue(r[i].0) <= IndexValue(r[j].0) {
      assert r[j] == t[j - 1];
      if i > 0 {
        assert r[i] == t[i - 1];
      }
    }
  }

  lemma AscendingTail(s: Fields)
    requires s != [] && Ascending(s)
    ensures Ascending(s[1..])
  {
    var t := s[1..];
    forall i, j | 0 <= i < j < |t| ensures IndexValue(t[i].0) <= IndexValue(t[j].0) {
      assert t[i] == s[i + 1] && t[j] == s[j + 1];
    }
  }

  /** `e` placed before the first field with a larger index. */
  function InsertIndex(e: (string, Value), s: Fields): Fields
  {
    if s == [] || IndexValue(e.0) <= IndexValue(s[0].0) then [e] + s
    else [s[0]] + InsertIndex(e, s[1..])
  }

  lemma HeadBelow(s: Fields, p: (string, Value))
    requires s != [] && Ascending(s) && p in multiset(s[1..])
    ensures IndexValue(s[0].0) <= IndexValue(p.0)
  {
    var k :| 0 <= k < |s[1..]| && s[1..][k] == p;
    assert s[k + 1] == p;
  }

  lemma {:induction false} InsertIndexCount(e: (string, Value), s: Fields)
    ensures multiset(InsertIndex(e, s)) == multiset{e} + multiset(s)
    decreases |s|
  {
    if s != [] && IndexValue(e.0) > IndexValue(s[0].0) {
      InsertIndexCount(e, s[1..]);
      assert s == [s[0]] + s[1..];
    }
  }

  lemma {:induction false} InsertIndexSorted(e: (string, Value), s: Fields)
    requires IsArrayIndex(e.0) && Ascending(s)
    ensures Ascending(InsertIndex(e, s))
    decreases |s|
  {
    if s == [] || IndexValue(e.0) <= IndexValue(s[0].0) {
      AscendingCons(e, s);
    } else {
      AscendingTail(s);
      InsertIndexSorted(e, s[1..]);
      InsertIndexCount(e, s[1..]);
      var rest := InsertIndex(e, s[1..]);
      forall i | 0 <= i < |rest| ensures IndexValue(s[0].0) <= IndexValue(rest[i].0) {
        assert rest[i] in multiset(rest);
        if rest[i] != e {
          HeadBelow(s, rest[i]);
        }
      }
      AscendingCons(s[0], rest);
    }
  }

  function SortIndices(s: Fields): Fields
  {
    if s == [] then [] else InsertIndex(s[0], SortIndices(s[1..]))
  }

  /** Sorting the index fields rearranges them into ascending order. */
  lemma {:induction false} SortIndicesSorted(s: Fields)
    requires forall i :: 0 <= i < |s| ==> IsArrayIndex(s[i].0)
    ensures multiset(SortIndices(s)) == multiset(s)
    ensures Ascending(SortIndices(s))
    decreases |s|
  {
    if s != [] {
      assert s == [s[0]] + s[1..];
      SortIndicesSorted(s[1..]);
      InsertIndexSorted(s[0], SortIndices(s[1..]));
      InsertIndexCount(s[0], SortIndices(s[1..]));
    }
  }

  /** The fields in the order `Object.entries` and `Object.keys` visit them. */
  function Entries(f: Fields): (r: Fields)
  {
    SortIndices(IndexFields(f)) + OtherFields(f)
  }

  lemma {:induction false} SplitFields(f: Fields)
    ensures multiset(IndexFields(f)) + multiset(OtherFields(f)) == multiset(f)
    ensures |IndexFields(f)| + |OtherFields(f)| == |f|
    decreases |f|
  {
    if f != [] {
      SplitFields(f[1..]);
      assert f == [f[0]] + f[1..];
    }
  }

  /** The entries are the object's fields, rearranged: array indices first, in ascending
      order, then every other key in insertion order. */
  lemma EntriesOrder(f: Fields)
    ensures multiset(Entries(f)) == multiset(f)
    ensures var n := |IndexFields(f)|;
      && n <= |Entries(f)|
      && Entries(f)[..n] == SortIndices(IndexFields(f)) && Ascending(Entries(f)[..n])
      && Entries(f)[n..] == OtherFields(f)
  {
    SplitFields(f);
    SortIndicesSorted(IndexFields(f));
    var a, b := SortIndices(IndexFields(f)), OtherFields(f);
    assert |a| == |multiset(a)| == |multiset(IndexFields(f))| == |IndexFields(f)|;
    assert Entries(f) == a + b;
    assert (a + b)[..|a|] == a && (a + b)[|a|..] == b;
    assert multiset(a + b) == multiset(a) + multiset(b);
  }

  /** Enumeration visits every field and nothing else. */
  lemma EntriesMembers(f: Fields)
    ensures forall p :: p in Entries(f) <==> p in f
  {
    EntriesOrder(f);
    assert forall p :: p in Entries(f) <==> p in multiset(Entries(f));
  }

  /** An object without array-index keys is visited in insertion order. */
  lemma EntriesWithoutIndices(f: Fields)
    requires forall i :: 0 <= i < |f| ==> !IsArrayIndex(f[i].0)
    ensures Entries(f) == f
  {
    NoIndexFields(f);
  }

  lemma {:induction false} NoIndexFields(f: Fields)
    requires forall i :: 0 <= i < |f| ==> !IsArrayIndex(f[i].0)
    ensures IndexFields(f) == [] && OtherFields(f) == f
    decreases |f|
  {
    if f != [] {
      assert forall i :: 0 <= i < |f[1..]| ==> f[1..][i] == f[i + 1];
      NoIndexFields(f[1..]);
      assert f == [f[0]] + f[1..];
    }
  }

  lemma {:induction false} RepeatedPairCounts(s: Fields, i: nat, j: nat)
    requires i < j < |s| && s[i] == s[j]
    ensures multiset(s)[s[i]] >= 2
  {
    assert s == s[..j] + [s[j]] + s[j + 1..];
    assert s[i] in s[..j];
  }

  lemma {:induction false} UniqueCounts(f: Fields, p: (string, Value))
    requires UniqueKeys(f)
    ensures multiset(f)[p] <= 1
    decreases |f|
  {
    if f != [] {
      assert f == [f[0]] + f[1..];
      UniqueCounts(f[1..], p);
      if p == f[0] {
        assert p !in f[1..] by {
          forall j | 0 <= j < |f[1..]| ensures f[1..][j] != p {
            assert f[1..][j] == f[j + 1];
          }
        }
      }
    }
  }

  lemma KeysDiffer(f: Fields, p: (string, Value), q: (string, Value))
    requires UniqueKeys(f) && p in f && q in f && p != q
    ensures p.0 != q.0
  {
    var a :| 0 <= a < |f| && f[a] == p;
    var b :| 0 <= b < |f| && f[b] == q;
    assert a != b;
  }

  /** A rearrangement of an object's fields still has unique keys. */
  lemma PermutedUnique(f: Fields, r: Fields)
    requires UniqueKeys(f) && multiset(r) == multiset(f)
    ensures UniqueKeys(r)
  {
    forall i, j | 0 <= i < j < |r| ensures r[i].0 != r[j].0 {
      assert r[i] in multiset(f) && r[j] in multiset(f);
      if r[i] == r[j] {
        RepeatedPairCounts(r, i, j);
        UniqueCounts(f, r[i]);
      } else {
        KeysDiffer(f, r[i], r[j]);
      }
    }
  }

  lemma EntriesUnique(f: Fields)
    requires UniqueKeys(f)
    ensures UniqueKeys(Entries(f))
  {
    EntriesOrder(f);
    PermutedUnique(f, Entries(f));
  }

  /** `{"b": .., "1": ..}` is visited "1" first. */
  lemma IndexKeyFirst(x: Value, y: Value)
    ensures Entries([("b", x), ("1", y)]) == [("1", y), ("b", x)]
  {
    assert DecimalValue("1") == 1 by { assert "1"[..0] == []; }
    assert IsArrayIndex("1") && !IsArrayIndex("b");
    var f := [("b", x), ("1", y)];
    var t := [("1", y)];
    assert f[1..] == t && t[1..] == [];
    assert IndexFields(t) == t && OtherFields(t) == [] && SortIndices(t) == t;
    assert IndexFields(f) == t;
    assert OtherFields(f) == [("b", x)];
  }

  /** `String(v)`; arrays join their elements with ',' and print null elements as "". */
  function JsString(v: Value): string
    decreases v
  {
    match v
    case Null => "null"
    case Bool(b) => if b then "true" else "false"
    case Num(n) => IntToString(n)
    case Str(s) => s
    case Arr(items) =>
      Join(seq(|items|, i requires 0 <= i < |items| => if items[i].Null? then "" else JsString(items[i])), ",")
    case Obj(_) => "[object Object]"
  }
}
