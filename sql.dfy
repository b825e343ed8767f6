/** What the SQL-backed services share: PHP's FILTER_VALIDATE_INT, the
    allow-lists that choose an ORDER BY column and direction, and the facts
    about row order that the listings rely on. */
module Sql {
  import opened Common

  // ---------------------------------------------------------------------------
  // filter_var($v, FILTER_VALIDATE_INT)
  // ---------------------------------------------------------------------------

  /** The bounds of a 64-bit PHP integer. */
  const MinInt: int := -0x8000_0000_0000_0000
  const MaxInt: int := 0x7FFF_FFFF_FFFF_FFFF

  /** The whitespace the filter extension trims before validating. */
  predicate FilterSpace(c: char) {
    c == ' ' || c == '\t' || c == '\r' || c == '\U{000B}' || c == '\n'
  }

  predicate AllDigits(s: string) {
    forall i :: 0 <= i < |s| ==> IsDigit(s[i])
  }

  /** An optional sign, then "0" or digits without a leading zero, within the
      64-bit range. */
  function ParseIntText(t: string): (r: Option<int>)
    ensures r.Some? ==> MinInt <= r.value <= MaxInt
  {
    if t == [] then None
    else
      var negative := t[0] == '-';
      var digits := if t[0] == '-' || t[0] == '+' then t[1..] else t;
      if digits == "0" then Some(0)
      else if digits == [] || digits[0] == '0' || !AllDigits(digits) then None
      else
        var n: int := DigitsValue(digits);
        var v := if negative then -n else n;
        if MinInt <= v <= MaxInt then Some(v) else None
  }

  /** `filter_var($v, FILTER_VALIDATE_INT)`: scalars are read as their string
      form, so true is 1 and false and null fail; arrays fail. */
  function FilterValidateInt(v: Json): (r: Option<int>)
    ensures r.Some? ==> MinInt <= r.value <= MaxInt
    ensures v.JList? || v.JObject? || v == JNull || v == JBool(false) ==> r.None?
  {
    match v
    case JNull => None
    case JBool(b) => if b then Some(1) else None
    case JInt(i) => if MinInt <= i <= MaxInt then Some(i) else None
    case JStr(s) => ParseIntText(Trim(s, FilterSpace))
    case JList(_) => None
    case JObject(_) => None
  }

  /** `!filter_var($v, FILTER_VALIDATE_INT)` is false: a valid integer that is
      not 0 (0 is falsy). */
  predicate ValidId(v: Json) {
    FilterValidateInt(v).Some? && FilterValidateInt(v).value != 0
  }

  /** Every integer's own numeral passes the filter with its value. */
  lemma FilterAcceptsNumeral(n: int)
    requires MinInt <= n <= MaxInt
    ensures FilterValidateInt(JStr(IntToString(n))) == Some(n)
  {
    var t := IntToString(n);
    if n < 0 {
      var d := NatToString(-n);
      assert t == "-" + d;
      TrimNoSpace(t);
      ParseNegative(-n, d);
      FilterText(t, n);
    } else if n == 0 {
      assert t == "0";
      FilterText(t, n);
    } else {
      assert t == NatToString(n);
      TrimNoSpace(t);
      ParsePositive(n, t);
      FilterText(t, n);
    }
  }

  lemma FilterText(t: string, n: int)
    requires Trim(t, FilterSpace) == t && ParseIntText(t) == Some(n)
    ensures FilterValidateInt(JStr(t)) == Some(n)
  {
  }

  lemma ParsePositive(m: nat, d: string)
    requires 0 < m <= MaxInt && d == NatToString(m)
    ensures ParseIntText(d) == Some(m)
  {
    NatToStringValue(m);
    assert d != "0";
  }

  lemma ParseNegative(m: nat, d: string)
    requires 0 < m <= -MinInt && d == NatToString(m)
    ensures var k: int := m; ParseIntText("-" + d) == Some(-k)
  {
    NatToStringValue(m);
    var t := "-" + d;
    assert t[0] == '-' && t[1..] == d;
    assert d != "0";
  }

  /** A numeral has no whitespace to trim. */
  lemma TrimNoSpace(t: string)
    requires t != [] && (t[0] == '-' || IsDigit(t[0])) && IsDigit(t[|t| - 1])
    ensures Trim(t, FilterSpace) == t
  {
    assert !FilterSpace(t[0]) && !FilterSpace(t[|t| - 1]);
    assert TrimLeft(t, FilterSpace) == t;
    assert TrimRight(t, FilterSpace) == t;
  }

  /** What the filter accepts from text is exactly a signed numeral: the
      digits after the sign are the numeral of the value's magnitude. */
  lemma {:induction false} ParseIntTextCanonical(t: string)
    requires ParseIntText(t).Some?
    ensures var n := ParseIntText(t).value;
      var digits := if t[0] == '-' || t[0] == '+' then t[1..] else t;
      digits == NatToString(if n < 0 then -n else n)
  {
    var n := ParseIntText(t).value;
    var digits := if t[0] == '-' || t[0] == '+' then t[1..] else t;
    if digits != "0" {
      DigitsCanonical(digits);
    }
  }

  /** Digits without a leading zero are the numeral of their value. */
  lemma {:induction false} DigitsCanonical(s: string)
    requires s != [] && s[0] != '0' && AllDigits(s)
    ensures DigitsValue(s) > 0 && NatToString(DigitsValue(s)) == s
    decreases |s|
  {
    if |s| == 1 {
      assert DigitsValue(s) == DigitsValue([]) * 10 + DigitValue(s[0]);
    } else {
      var init := s[..|s| - 1];
      DigitsCanonical(init);
      var n := DigitsValue(s);
      var d := DigitValue(s[|s| - 1]);
      assert n == DigitsValue(init) * 10 + d;
      assert n / 10 == DigitsValue(init) && n % 10 == d;
      assert s == init + [s[|s| - 1]];
    }
  }

  // ---------------------------------------------------------------------------
  // ORDER BY allow-lists
  // ---------------------------------------------------------------------------

  datatype Dir = Asc | Desc

  /** The column and direction a listing query is ordered by. */
  datatype Ordering = Ordering(column: string, dir: Dir)

  /** `in_array($v, $allowed) ? $v : $fallback` for a request value that may
      be absent. */
  function AllowOr(v: Option<string>, allowed: seq<string>, fallback: string): (r: string)
    ensures v.Some? && v.value in allowed ==> r == v.value
    ensures (v.None? || v.value !in allowed) ==> r == fallback
  {
    if v.Some? && v.value in allowed then v.value else fallback
  }

  // ---------------------------------------------------------------------------
  // Handlers
  // ---------------------------------------------------------------------------

  /** A handler either refuses the request with a response or goes on to
      write the values it has validated. */
  datatype Check<T> = Refuse(response: Response) | Proceed(value: T)

  // ---------------------------------------------------------------------------
  // Tables
  // ---------------------------------------------------------------------------

  /** Rows in non-decreasing order of a timestamp column. */
  predicate SortedBy<T>(rows: seq<T>, key: T -> int) {
    forall i, j :: 0 <= i < j < |rows| ==> key(rows[i]) <= key(rows[j])
  }

  /** A `WHERE` keeps the table's order: a table kept in created_at order
      lists any selection of it in created_at order too. */
  lemma FilterSorted<T(!new)>(rows: seq<T>, key: T -> int, keep: T -> bool)
    requires SortedBy(rows, key)
    ensures SortedBy(Filter(rows, keep), key)
  {
    FilterKeepsOrder(rows, keep);
    SubsequenceSorted(Filter(rows, keep), rows, key);
  }

  /** Rows taken from a table in the table's order keep its timestamp order. */
  lemma SubsequenceSorted<T>(r: seq<T>, rows: seq<T>, key: T -> int)
    requires Subsequence(r, rows) && SortedBy(rows, key)
    ensures SortedBy(r, key)
  {
    forall i, j | 0 <= i < j < |r| ensures key(r[i]) <= key(r[j]) {
      SubsequenceIndices(r, rows, i, j);
    }
  }

  /** Inserting a row stamped no earlier than every existing row keeps the
      table in timestamp order. */
  lemma AppendSorted<T>(rows: seq<T>, key: T -> int, x: T)
    requires SortedBy(rows, key)
    requires forall i :: 0 <= i < |rows| ==> key(rows[i]) <= key(x)
    ensures SortedBy(rows + [x], key)
  {
    var r := rows + [x];
    forall i, j | 0 <= i < j < |r| ensures key(r[i]) <= key(r[j]) {
      assert r[i] == rows[i];
      if j < |rows| {
        assert r[j] == rows[j];
      }
    }
  }
}
