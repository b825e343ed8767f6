/** Values and string operations shared by every service of the course site:
    decoded JSON values (what PHP's json_decode(…, true) and a JS object give),
    PHP's reading of request fields (isset, ??, empty, string conversion),
    the whitespace sets of PHP's and JavaScript's trim, decimal numerals,
    and an order-keeping filter over tables and lists. */
module Common {

  datatype Option<T> = None | Some(value: T)

  /** A decoded JSON value. Objects keep their members in order, as PHP arrays
      and JSON text do; numbers are integers. */
  datatype Json =
    | JNull
    | JBool(b: bool)
    | JInt(i: int)
    | JStr(s: string)
    | JList(items: seq<Json>)
    | JObject(members: seq<(string, Json)>)

  /** A JSON object or PHP string-keyed array: its members in order. */
  type Obj = seq<(string, Json)>

  /** An HTTP status and the JSON body sent with it; a fatal PHP error sends
      no JSON body, written JNull. */
  datatype Response = Response(status: int, body: Json)

  // ---------------------------------------------------------------------------
  // Objects and PHP's reading of request fields
  // ---------------------------------------------------------------------------

  function Keys(o: Obj): (ks: seq<string>)
    ensures |ks| == |o|
    ensures forall i :: 0 <= i < |o| ==> ks[i] == o[i].0
  {
    if o == [] then [] else [o[0].0] + Keys(o[1..])
  }

  /** The value stored under `k` (the first member with that key). */
  function Get(o: Obj, k: string): (r: Option<Json>)
    ensures r.None? <==> k !in Keys(o)
    ensures r.Some? ==> exists i :: 0 <= i < |o| && o[i] == (k, r.value)
  {
    if o == [] then None
    else if o[0].0 == k then Some(o[0].1)
    else
      var r := Get(o[1..], k);
      assert r.Some? ==> exists i :: 1 <= i < |o| && o[i] == (k, r.value) by {
        if r.Some? {
          var j :| 0 <= j < |o[1..]| && o[1..][j] == (k, r.value);
          assert o[j + 1] == (k, r.value);
        }
      }
      r
  }

  predicate UniqueKeys(o: Obj) {
    forall i, j :: 0 <= i < j < |o| ==> o[i].0 != o[j].0
  }

  /** Storing under a key of a PHP array (`$o[k] = v`): a key already present
      keeps its place and takes the new value, a new key is appended. */
  function Put(o: Obj, k: string, v: Json): Obj {
    if o == [] then [(k, v)]
    else if o[0].0 == k then [(k, v)] + o[1..]
    else [o[0]] + Put(o[1..], k, v)
  }

  /** After storing, reading the same key gives the new value. */
  lemma {:induction false} PutGetSame(o: Obj, k: string, v: Json)
    ensures Get(Put(o, k, v), k) == Some(v)
  {
    if o != [] && o[0].0 != k {
      PutGetSame(o[1..], k, v);
      assert Put(o, k, v)[1..] == Put(o[1..], k, v);
    }
  }

  /** Storing under one key leaves every other key's value alone. */
  lemma {:induction false} PutGetOther(o: Obj, k: string, v: Json, k': string)
    requires k' != k
    ensures Get(Put(o, k, v), k') == Get(o, k')
  {
    if o != [] && o[0].0 != k {
      PutGetOther(o[1..], k, v, k');
      assert Put(o, k, v)[1..] == Put(o[1..], k, v);
    }
  }

  /** Storing keeps the existing keys in their places and appends a new one. */
  lemma {:induction false} PutKeys(o: Obj, k: string, v: Json)
    ensures Keys(Put(o, k, v)) == if k in Keys(o) then Keys(o) else Keys(o) + [k]
  {
    if o != [] {
      PutKeys(o[1..], k, v);
      assert Keys(o) == [o[0].0] + Keys(o[1..]);
      if o[0].0 != k {
        assert Keys(Put(o, k, v)) == [o[0].0] + Keys(Put(o[1..], k, v));
      }
    }
  }

  /** Reading a key of an array built member by member. */
  lemma GetCons(m: (string, Json), o: Obj, k: string)
    ensures Get([m] + o, k) == if m.0 == k then Some(m.1) else Get(o, k)
  {
    assert ([m] + o)[1..] == o;
  }

  /** PHP `isset($o[k])`: the key is there and its value is not null. */
  predicate IsSet(o: Obj, k: string) {
    Get(o, k).Some? && Get(o, k).value != JNull
  }

  /** PHP `$o[k] ?? d`. */
  function Coalesce(o: Obj, k: string, d: Json): (r: Json)
    ensures IsSet(o, k) ==> Some(r) == Get(o, k)
    ensures !IsSet(o, k) ==> r == d
  {
    if IsSet(o, k) then Get(o, k).value else d
  }

  /** PHP's falsy values: null, false, 0, "", "0" and the empty array. */
  predicate Falsy(v: Json) {
    match v
    case JNull => true
    case JBool(b) => !b
    case JInt(i) => i == 0
    case JStr(s) => s == "" || s == "0"
    case JList(items) => items == []
    case JObject(ms) => ms == []
  }

  /** PHP `empty($o[k])`. */
  predicate IsEmpty(o: Obj, k: string) {
    !IsSet(o, k) || Falsy(Get(o, k).value)
  }

  /** PHP `is_array`: a list or an object. */
  predicate IsArray(v: Json) {
    v.JList? || v.JObject?
  }

  /** PHP `array_values`: the values of an array, in order. */
  function ArrayValues(v: Json): (r: seq<Json>)
    requires IsArray(v)
    ensures v.JList? ==> r == v.items
    ensures v.JObject? ==> |r| == |v.members| && forall i :: 0 <= i < |r| ==> r[i] == v.members[i].1
  {
    match v
    case JList(items) => items
    case JObject(ms) => seq(|ms|, i requires 0 <= i < |ms| => ms[i].1)
  }

  /** PHP's `(string)` conversion of a scalar; an array converts to "Array". */
  function PhpString(v: Json): string {
    match v
    case JNull => ""
    case JBool(b) => if b then "1" else ""
    case JInt(i) => IntToString(i)
    case JStr(s) => s
    case JList(_) => "Array"
    case JObject(_) => "Array"
  }

  /** A value passed to a built-in string parameter (trim, strlen, …) in
      PHP's coercive mode: scalars convert as `(string)` does, an array is a
      TypeError (None). */
  function StringArg(v: Json): (r: Option<string>)
    ensures r.None? <==> IsArray(v)
    ensures r.Some? ==> r.value == PhpString(v)
  {
    if IsArray(v) then None else Some(PhpString(v))
  }

  // ---------------------------------------------------------------------------
  // Decimal numerals
  // ---------------------------------------------------------------------------

  predicate IsDigit(c: char) {
    '0' <= c <= '9'
  }

  function DigitChar(d: nat): (c: char)
    requires d < 10
    ensures IsDigit(c) && c as int - '0' as int == d
  {
    ('0' as int + d) as char
  }

  /** The decimal numeral of `n`, without leading zeros. */
  function NatToString(n: nat): (r: string)
    ensures |r| >= 1
    ensures forall i :: 0 <= i < |r| ==> IsDigit(r[i])
    ensures r[0] == '0' ==> n == 0 && r == "0"
  {
    if n < 10 then [DigitChar(n)] else NatToString(n / 10) + [DigitChar(n % 10)]
  }

  function IntToString(i: int): string {
    if i < 0 then "-" + NatToString(-i) else NatToString(i)
  }

  /** The value of a string of decimal digits. */
  function DigitsValue(s: string): (n: nat)
    requires forall i :: 0 <= i < |s| ==> IsDigit(s[i])
  {
    if s == [] then 0 else DigitsValue(s[..|s| - 1]) * 10 + DigitValue(s[|s| - 1])
  }

  function DigitValue(c: char): (d: nat)
    requires IsDigit(c)
    ensures d < 10 && DigitChar(d) == c
  {
    c as int - '0' as int
  }

  lemma {:induction false} NatToStringValue(n: nat)
    ensures DigitsValue(NatToString(n)) == n
  {
    if n >= 10 {
      var s := NatToString(n);
      assert s[..|s| - 1] == NatToString(n / 10);
      NatToStringValue(n / 10);
    }
  }

  // ---------------------------------------------------------------------------
  // Strings
  // ---------------------------------------------------------------------------

  /** The characters PHP's trim() removes: space, \t, \n, \r, \0 and \x0B. */
  predicate PhpSpace(c: char) {
    c == ' ' || c == '\t' || c == '\n' || c == '\r' || c == '\0' || c == '\U{000B}'
  }

  /** The characters JavaScript's String.prototype.trim() removes: the
      WhiteSpace and LineTerminator characters of ECMAScript. */
  predicate JsSpace(c: char) {
    c == '\t' || c == '\n' || c == '\U{000B}' || c == '\U{000C}' || c == '\r' || c == ' '
    || c == '\U{00A0}' || c == '\U{1680}' || ('\U{2000}' <= c <= '\U{200A}')
    || c == '\U{2028}' || c == '\U{2029}' || c == '\U{202F}' || c == '\U{205F}'
    || c == '\U{3000}' || c == '\U{FEFF}'
  }

  function TrimLeft(s: string, space: char -> bool): (r: string)
    ensures |r| <= |s| && r == s[|s| - |r|..]
    ensures r != [] ==> !space(r[0])
    ensures forall i :: 0 <= i < |s| - |r| ==> space(s[i])
  {
    if s != [] && space(s[0]) then TrimLeft(s[1..], space) else s
  }

  function TrimRight(s: string, space: char -> bool): (r: string)
    ensures |r| <= |s| && r == s[..|r|]
    ensures r != [] ==> !space(r[|r| - 1])
    ensures forall i :: |r| <= i < |s| ==> space(s[i])
  {
    if s != [] && space(s[|s| - 1]) then TrimRight(s[..|s| - 1], space) else s
  }

  /** `s` with the `space` characters at both ends removed. */
  function Trim(s: string, space: char -> bool): (r: string)
    ensures r != [] ==> !space(r[0]) && !space(r[|r| - 1])
    ensures exists i, j :: 0 <= i <= j <= |s| && r == s[i..j]
  {
    var l := TrimLeft(s, space);
    var r := TrimRight(l, space);
    assert r == s[|s| - |l|..|s| - |l| + |r|];
    r
  }

  /** PHP `trim`. */
  function PhpTrim(s: string): string {
    Trim(s, PhpSpace)
  }

  /** JavaScript `s.trim()`. */
  function JsTrim(s: string): string {
    Trim(s, JsSpace)
  }

  /** PHP `strtolower`: ASCII letters only. */
  function AsciiLower(s: string): (r: string)
    ensures |r| == |s|
    ensures forall i :: 0 <= i < |s| ==> r[i] == if 'A' <= s[i] <= 'Z' then (s[i] as int + 32) as char else s[i]
  {
    if s == [] then [] else
      [if 'A' <= s[0] <= 'Z' then (s[0] as int + 32) as char else s[0]] + AsciiLower(s[1..])
  }

  /** `needle` occurs somewhere in `hay`. */
  predicate Contains(hay: string, needle: string) {
    exists i :: 0 <= i <= |hay| - |needle| && OccursAt(hay, needle, i)
  }

  predicate OccursAt(hay: string, needle: string, i: int)
    requires 0 <= i <= |hay| - |needle|
  {
    hay[i..i + |needle|] == needle
  }

  // ---------------------------------------------------------------------------
  // Filtering, as array_filter, Array.prototype.filter and DELETE … WHERE do it
  // ---------------------------------------------------------------------------

  /** The elements of `s` that satisfy `keep`, in their original order. */
  function Filter<T(!new)>(s: seq<T>, keep: T -> bool): (r: seq<T>)
    ensures |r| <= |s|
    ensures forall x :: x in r <==> x in s && keep(x)
    ensures forall i :: 0 <= i < |r| ==> keep(r[i])
  {
    if s == [] then []
    else if keep(s[0]) then [s[0]] + Filter(s[1..], keep)
    else Filter(s[1..], keep)
  }

  /** `s.map(f)`. */
  function Map<A, B>(s: seq<A>, f: A -> B): (r: seq<B>)
    ensures |r| == |s|
    ensures forall i :: 0 <= i < |s| ==> r[i] == f(s[i])
  {
    if s == [] then [] else [f(s[0])] + Map(s[1..], f)
  }

  /** `r` is `s` with some elements left out and the rest in their order. */
  predicate Subsequence<T(==)>(r: seq<T>, s: seq<T>)
    decreases |s|
  {
    if r == [] then true
    else if s == [] then false
    else if r[0] == s[0] then Subsequence(r[1..], s[1..])
    else Subsequence(r, s[1..])
  }

  lemma {:induction false} FilterKeepsOrder<T(!new)>(s: seq<T>, keep: T -> bool)
    ensures Subsequence(Filter(s, keep), s)
  {
    if s != [] {
      FilterKeepsOrder(s[1..], keep);
      var r := Filter(s[1..], keep);
      if keep(s[0]) {
        assert ([s[0]] + r)[1..] == r;
      } else {
        SubsequenceOfTail(r, s);
      }
    }
  }

  lemma {:induction false} SubsequenceOfTail<T>(r: seq<T>, s: seq<T>)
    requires s != [] && Subsequence(r, s[1..])
    ensures Subsequence(r, s)
    decreases |s|, |r|
  {
    if r != [] && r[0] == s[0] {
      SubsequenceDropHead(r, s[1..]);
    }
  }

  lemma {:induction false} SubsequenceDropHead<T>(r: seq<T>, s: seq<T>)
    requires r != [] && Subsequence(r, s)
    ensures Subsequence(r[1..], s)
    decreases |s|, |r|
  {
    if r[0] == s[0] {
      if r[1..] != [] {
        SubsequenceOfTail(r[1..], s);
      }
    } else {
      SubsequenceDropHead(r, s[1..]);
      if r[1..] != [] {
        SubsequenceOfTail(r[1..], s);
      }
    }
  }

  /** Every element of a subsequence is an element of the sequence. */
  lemma {:induction false} SubsequenceMember<T>(r: seq<T>, s: seq<T>, i: int)
    requires Subsequence(r, s) && 0 <= i < |r|
    ensures r[i] in s
    decreases |s|
  {
    if r[0] == s[0] {
      if i > 0 {
        SubsequenceMember(r[1..], s[1..], i - 1);
        assert r[i] == r[1..][i - 1];
      }
    } else {
      SubsequenceMember(r, s[1..], i);
    }
  }

  /** Two positions of a subsequence come from two ordered positions of the
      sequence. */
  lemma {:induction false} SubsequenceIndices<T>(r: seq<T>, s: seq<T>, i: int, j: int)
    requires Subsequence(r, s) && 0 <= i < j < |r|
    ensures exists a, b :: 0 <= a < b < |s| && s[a] == r[i] && s[b] == r[j]
    decreases |s|
  {
    if r[0] == s[0] {
      if i == 0 {
        SubsequenceMember(r[1..], s[1..], j - 1);
        var b :| 0 <= b < |s[1..]| && s[1..][b] == r[1..][j - 1];
        assert s[0] == r[0] && s[b + 1] == r[j];
      } else {
        SubsequenceIndices(r[1..], s[1..], i - 1, j - 1);
        var a, b :| 0 <= a < b < |s[1..]| && s[1..][a] == r[1..][i - 1] && s[1..][b] == r[1..][j - 1];
        assert s[a + 1] == r[i] && s[b + 1] == r[j];
      }
    } else {
      SubsequenceIndices(r, s[1..], i, j);
      var a, b :| 0 <= a < b < |s[1..]| && s[1..][a] == r[i] && s[1..][b] == r[j];
      assert s[a + 1] == r[i] && s[b + 1] == r[j];
    }
  }

  lemma {:induction false} FilterAll<T(!new)>(s: seq<T>, keep: T -> bool)
    requires forall x :: x in s ==> keep(x)
    ensures Filter(s, keep) == s
  {
    if s != [] {
      FilterAll(s[1..], keep);
    }
  }

  /** A filter keeps every copy of an element it keeps, and no copy of one
      it drops. */
  lemma {:induction false} FilterCount<T(!new)>(s: seq<T>, keep: T -> bool)
    ensures forall x :: multiset(Filter(s, keep))[x] == if keep(x) then multiset(s)[x] else 0
  {
    if s != [] {
      FilterCount(s[1..], keep);
      assert s == [s[0]] + s[1..];
    }
  }

  /** A filter and its complement split a table: nothing is lost or duplicated. */
  lemma {:induction false} FilterPartition<T(!new)>(s: seq<T>, keep: T -> bool)
    ensures multiset(Filter(s, keep)) + multiset(Filter(s, x => !keep(x))) == multiset(s)
  {
    if s != [] {
      FilterPartition(s[1..], keep);
      assert s == [s[0]] + s[1..];
    }
  }
}
