/** JSON text as PHP writes and reads it: json_encode with
    JSON_UNESCAPED_UNICODE (how the assignments service stores a file list in
    a text column) and json_decode with associative arrays (how every service
    reads a request body, a data file or a stored column). */
module JsonText {
  import opened Common

  /** The nesting limit of json_decode (its default `depth` argument). */
  const MaxDepth: nat := 512

  // ---------------------------------------------------------------------------
  // Hexadecimal digits of \u escapes
  // ---------------------------------------------------------------------------

  /** json_encode writes hexadecimal digits in lower case. */
  function HexDigit(d: nat): (c: char)
    requires d < 16
    ensures HexValue(c) == Some(d)
  {
    if d < 10 then DigitChar(d) else ('a' as int + d - 10) as char
  }

  /** json_decode reads them in either case. */
  function HexValue(c: char): (r: Option<nat>)
    ensures r.Some? ==> r.value < 16
  {
    if '0' <= c <= '9' then Some(c as int - '0' as int)
    else if 'a' <= c <= 'f' then Some(c as int - 'a' as int + 10)
    else if 'A' <= c <= 'F' then Some(c as int - 'A' as int + 10)
    else None
  }

  // ---------------------------------------------------------------------------
  // json_encode($v, JSON_UNESCAPED_UNICODE)
  // ---------------------------------------------------------------------------

  /** How json_encode writes one character of a string: quote, backslash and
      slash are escaped, control characters get their short escape or \u00XX,
      the two Unicode line terminators are escaped, everything else is kept. */
  function EscapeChar(c: char): (r: string)
    ensures |r| >= 1
    ensures r != [c] ==> r[0] == '\\'
  {
    if c == '"' then "\\\""
    else if c == '\\' then "\\\\"
    else if c == '/' then "\\/"
    else if c == '\U{0008}' then "\\b"
    else if c == '\U{000C}' then "\\f"
    else if c == '\n' then "\\n"
    else if c == '\r' then "\\r"
    else if c == '\t' then "\\t"
    else if c < '\U{0020}' then "\\u00" + [HexDigit(c as int / 16), HexDigit(c as int % 16)]
    else if c == '\U{2028}' then "\\u2028"
    else if c == '\U{2029}' then "\\u2029"
    else [c]
  }

  function EscapeString(s: string): string {
    if s == [] then "" else EscapeChar(s[0]) + EscapeString(s[1..])
  }

  function Quote(s: string): (r: string)
    ensures |r| >= 2 && r[0] == '"'
  {
    "\"" + EscapeString(s) + "\""
  }

  /** The first character of an encoded value. */
  predicate StartsValue(c: char) {
    c == 'n' || c == 't' || c == 'f' || c == '"' || c == '-' || IsDigit(c) || c == '[' || c == '{'
  }

  /** The compact text json_encode produces. A PHP array with no elements is a
      list, so an empty object is written as "[]". */
  function Encode(v: Json): (r: string)
    ensures |r| >= 1 && StartsValue(r[0])
    decreases v
  {
    match v
    case JNull => "null"
    case JBool(b) => if b then "true" else "false"
    case JInt(i) => IntToString(i)
    case JStr(s) => Quote(s)
    case JList(items) => "[" + EncodeItems(items) + "]"
    case JObject(ms) => if ms == [] then "[]" else "{" + EncodeMembers(ms) + "}"
  }

  /** The elements of a list, separated by commas. */
  function EncodeItems(items: seq<Json>): string
    decreases items
  {
    if items == [] then ""
    else if |items| == 1 then Encode(items[0])
    else Encode(items[0]) + "," + EncodeItems(items[1..])
  }

  /** The members of an object, separated by commas. */
  function EncodeMembers(ms: Obj): string
    decreases ms
  {
    if ms == [] then ""
    else if |ms| == 1 then EncodeMember(ms[0])
    else EncodeMember(ms[0]) + "," + EncodeMembers(ms[1..])
  }

  function EncodeMember(m: (string, Json)): (r: string)
    ensures |r| >= 1 && r[0] == '"'
    decreases m
  {
    Quote(m.0) + ":" + Encode(m.1)
  }

  // ---------------------------------------------------------------------------
  // json_decode($text, true)
  // ---------------------------------------------------------------------------
  // Each parser reads a value off the front of the text and returns it with
  // the text that follows it.

  /** The whitespace JSON allows between tokens. */
  predicate JsonWs(c: char) {
    c == ' ' || c == '\t' || c == '\n' || c == '\r'
  }

  function SkipWs(s: string): (r: string)
    ensures |r| <= |s|
    ensures r != [] ==> !JsonWs(r[0])
  {
    if s != [] && JsonWs(s[0]) then SkipWs(s[1..]) else s
  }

  function Literal(s: string, lit: string, v: Json): (r: Option<(Json, string)>)
    requires |lit| >= 1
    ensures r.Some? <==> |s| >= |lit| && s[..|lit|] == lit
    ensures r.Some? ==> r.value == (v, s[|lit|..])
  {
    if |s| >= |lit| && s[..|lit|] == lit then Some((v, s[|lit|..])) else None
  }

  /** Four hexadecimal digits at the front of `s`. */
  function Hex4(s: string): (r: Option<nat>)
    ensures r.Some? ==> |s| >= 4 && r.value < 0x10000
  {
    if |s| < 4 then None
    else
      var a, b, c, d := HexValue(s[0]), HexValue(s[1]), HexValue(s[2]), HexValue(s[3]);
      if a.Some? && b.Some? && c.Some? && d.Some? then
        Some(((a.value * 16 + b.value) * 16 + c.value) * 16 + d.value)
      else None
  }

  /** The escape sequence at the front of `s` (which starts with a
      backslash): the character it denotes and the text after it. A \u escape
      of a high surrogate must be followed by one of a low surrogate; an
      unpaired surrogate is an error. */
  function ParseEscape(s: string): (r: Option<(char, string)>)
    requires |s| >= 1 && s[0] == '\\'
    ensures r.Some? ==> |r.value.1| <= |s| - 2
  {
    if |s| == 1 then None
    else
      var e := s[1];
      if e == '"' then Some(('"', s[2..]))
      else if e == '\\' then Some(('\\', s[2..]))
      else if e == '/' then Some(('/', s[2..]))
      else if e == 'b' then Some(('\U{0008}', s[2..]))
      else if e == 'f' then Some(('\U{000C}', s[2..]))
      else if e == 'n' then Some(('\n', s[2..]))
      else if e == 'r' then Some(('\r', s[2..]))
      else if e == 't' then Some(('\t', s[2..]))
      else if e == 'u' then
        match Hex4(s[2..])
        case None => None
        case Some(h) =>
          if h < 0xD800 || 0xE000 <= h then Some((h as char, s[6..]))
          else if 0xDC00 <= h then None
          else if |s| >= 8 && s[6] == '\\' && s[7] == 'u' then
            match Hex4(s[8..])
            case None => None
            case Some(l) =>
              if 0xDC00 <= l < 0xE000 then
                Some(((0x10000 + (h - 0xD800) * 0x400 + (l - 0xDC00)) as char, s[12..]))
              else None
          else None
      else None
  }

  /** The rest of a string whose opening quote has been read, appended to
      `acc`, and the text after the closing quote. A raw control character
      is an error. */
  function ParseStringBody(s: string, acc: string): (r: Option<(string, string)>)
    ensures r.Some? ==> |r.value.1| < |s|
    decreases |s|
  {
    if s == [] then None
    else if s[0] == '"' then Some((acc, s[1..]))
    else if s[0] == '\\' then
      match ParseEscape(s)
      case None => None
      case Some((c, rest)) => ParseStringBody(rest, acc + [c])
    else if s[0] < '\U{0020}' then None
    else ParseStringBody(s[1..], acc + [s[0]])
  }

  /** The number of decimal digits at the front of `s`. */
  function DigitRun(s: string): (n: nat)
    ensures n <= |s|
    ensures forall i :: 0 <= i < n ==> IsDigit(s[i])
    ensures n < |s| ==> !IsDigit(s[n])
  {
    if s != [] && IsDigit(s[0]) then 1 + DigitRun(s[1..]) else 0
  }

  /** A number: an optional minus sign and an integer without leading zeros. */
  function ParseNumber(s: string): (r: Option<(Json, string)>)
    requires s != []
    ensures r.Some? ==> |r.value.1| < |s|
  {
    if s[0] == '-' then
      match ParseNatural(s[1..])
      case None => None
      case Some((m, rest)) => var k: int := m; Some((JInt(-k), rest))
    else
      match ParseNatural(s)
      case None => None
      case Some((m, rest)) => Some((JInt(m), rest))
  }

  /** Decimal digits without a leading zero, or a single zero. A fraction or
      an exponent makes a float, which this model does not represent, so such
      a number is rejected. */
  function ParseNatural(t: string): (r: Option<(nat, string)>)
    ensures r.Some? ==> |r.value.1| < |t|
  {
    if t == [] || !IsDigit(t[0]) then None
    else
      var n := if t[0] == '0' then 1 else DigitRun(t);
      if n < |t| && (IsDigit(t[n]) || t[n] == '.' || t[n] == 'e' || t[n] == 'E') then None
      else Some((DigitsValue(t[..n]), t[n..]))
  }

  /** One value, after any whitespace, at nesting depth `depth`; opening an
      array or object beyond MaxDepth levels is an error. */
  function ParseValue(s: string, depth: nat): (r: Option<(Json, string)>)
    ensures r.Some? ==> |r.value.1| < |s|
    decreases |s|, 0
  {
    var t := SkipWs(s);
    if t == [] then None
    else
      var c := t[0];
      if c == 'n' then Literal(t, "null", JNull)
      else if c == 't' then Literal(t, "true", JBool(true))
      else if c == 'f' then Literal(t, "false", JBool(false))
      else if c == '"' then
        match ParseStringBody(t[1..], "")
        case None => None
        case Some((str, rest)) => Some((JStr(str), rest))
      else if c == '-' || IsDigit(c) then ParseNumber(t)
      else if c == '[' then (if depth >= MaxDepth then None else ParseListOpen(t[1..], depth + 1))
      else if c == '{' then (if depth >= MaxDepth then None else ParseObjectOpen(t[1..], depth + 1))
      else None
  }

  /** A list whose '[' has been read. */
  function ParseListOpen(s: string, depth: nat): (r: Option<(Json, string)>)
    ensures r.Some? ==> |r.value.1| < |s|
    decreases |s|, 2
  {
    var t := SkipWs(s);
    if t != [] && t[0] == ']' then Some((JList([]), t[1..]))
    else ParseItems(s, depth, [])
  }

  /** The elements of a list, after the elements `acc` already read. */
  function ParseItems(s: string, depth: nat, acc: seq<Json>): (r: Option<(Json, string)>)
    ensures r.Some? ==> |r.value.1| < |s|
    decreases |s|, 1
  {
    match ParseValue(s, depth)
    case None => None
    case Some((v, rest)) =>
      var t := SkipWs(rest);
      if t != [] && t[0] == ',' then ParseItems(t[1..], depth, acc + [v])
      else if t != [] && t[0] == ']' then Some((JList(acc + [v]), t[1..]))
      else None
  }

  /** An object whose '{' has been read. With associative decoding an empty
      object becomes an empty PHP array, which is a list. */
  function ParseObjectOpen(s: string, depth: nat): (r: Option<(Json, string)>)
    ensures r.Some? ==> |r.value.1| < |s|
    decreases |s|, 3
  {
    var t := SkipWs(s);
    if t != [] && t[0] == '}' then Some((JList([]), t[1..]))
    else ParseMembers(s, depth, [])
  }

  /** The members of an object, after the members `acc` already read. */
  function ParseMembers(s: string, depth: nat, acc: Obj): (r: Option<(Json, string)>)
    ensures r.Some? ==> |r.value.1| < |s|
    decreases |s|, 2
  {
    match ParseMember(s, depth)
    case None => None
    case Some((k, v, rest)) =>
      var t := SkipWs(rest);
      if t != [] && t[0] == ',' then ParseMembers(t[1..], depth, Put(acc, k, v))
      else if t != [] && t[0] == '}' then Some((JObject(Put(acc, k, v)), t[1..]))
      else None
  }

  /** One `"key": value` member. */
  function ParseMember(s: string, depth: nat): (r: Option<(string, Json, string)>)
    ensures r.Some? ==> |r.value.2| < |s|
    decreases |s|, 1
  {
    var t := SkipWs(s);
    if t != [] && t[0] == '"' then
      match ParseStringBody(t[1..], "")
      case None => None
      case Some((k, rest)) =>
        var t1 := SkipWs(rest);
        if t1 != [] && t1[0] == ':' then
          match ParseValue(t1[1..], depth)
          case None => None
          case Some((v, rest1)) => Some((k, v, rest1))
        else None
    else None
  }

  /** PHP `json_decode($text, true)`; None where PHP returns null for an error. */
  function Decode(s: string): Option<Json> {
    match ParseValue(s, 0)
    case None => None
    case Some((v, rest)) => if SkipWs(rest) == [] then Some(v) else None
  }

  // ---------------------------------------------------------------------------
  // Decoding what was encoded
  // ---------------------------------------------------------------------------

  /** The values json_encode and json_decode agree on: objects have distinct
      keys and at least one member (an empty PHP array is always a list). */
  predicate WellFormed(v: Json)
    decreases v
  {
    match v
    case JList(items) => forall i :: 0 <= i < |items| ==> WellFormed(items[i])
    case JObject(ms) => ms != [] && UniqueKeys(ms) && forall i :: 0 <= i < |ms| ==> WellFormedMember(ms[i])
    case _ => true
  }

  predicate WellFormedMember(m: (string, Json))
    decreases m
  {
    WellFormed(m.1)
  }

  /** The number of nested arrays and objects, as json_decode counts them. */
  function Depth(v: Json): nat
    decreases v
  {
    match v
    case JList(items) => 1 + ItemsDepth(items)
    case JObject(ms) => 1 + MembersDepth(ms)
    case _ => 0
  }

  function ItemsDepth(items: seq<Json>): (d: nat)
    ensures items != [] ==> Depth(items[0]) <= d && ItemsDepth(items[1..]) <= d
    decreases items
  {
    if items == [] then 0
    else
      var a, b := Depth(items[0]), ItemsDepth(items[1..]);
      if a < b then b else a
  }

  function MembersDepth(ms: Obj): (d: nat)
    ensures ms != [] ==> MemberDepth(ms[0]) <= d && MembersDepth(ms[1..]) <= d
    decreases ms
  {
    if ms == [] then 0
    else
      var a, b := MemberDepth(ms[0]), MembersDepth(ms[1..]);
      if a < b then b else a
  }

  function MemberDepth(m: (string, Json)): nat
    decreases m
  {
    Depth(m.1)
  }

  /** What may follow an encoded value inside encoded text. */
  predicate Follows(rest: string) {
    rest == [] || rest[0] == ',' || rest[0] == ']' || rest[0] == '}'
  }

  /** json_decode(json_encode($v), true) gives $v back for well-formed values. */
  lemma DecodeEncode(v: Json)
    requires WellFormed(v) && Depth(v) <= MaxDepth
    ensures Decode(Encode(v)) == Some(v)
  {
    ParseEncoded(v, [], 0);
    assert Encode(v) + [] == Encode(v);
  }

  /** An encoded value followed by a separator is read back, and the reading
      stops right behind it. */
  lemma {:induction false} ParseEncoded(v: Json, rest: string, depth: nat)
    requires WellFormed(v) && depth + Depth(v) <= MaxDepth && Follows(rest)
    ensures ParseValue(Encode(v) + rest, depth) == Some((v, rest))
    decreases v, 2
  {
    match v
    case JNull => ParseLiteralEncoded(v, rest, depth);
    case JBool(b) => ParseLiteralEncoded(v, rest, depth);
    case JInt(i) => ParseNumberEncoded(v, rest, depth);
    case JStr(str) => ParseStringValueEncoded(v, rest, depth);
    case JList(items) => ParseListEncoded(v, rest, depth);
    case JObject(ms) => ParseObjectEncoded(v, rest, depth);
  }

  lemma ParseLiteralEncoded(v: Json, rest: string, depth: nat)
    requires v.JNull? || v.JBool?
    ensures ParseValue(Encode(v) + rest, depth) == Some((v, rest))
  {
    var e := Encode(v);
    var s := e + rest;
    assert s[0] == e[0];
    assert SkipWs(s) == s;
    assert s[..|e|] == e && s[|e|..] == rest;
  }

  lemma ParseNumberEncoded(v: Json, rest: string, depth: nat)
    requires v.JInt? && Follows(rest)
    ensures ParseValue(Encode(v) + rest, depth) == Some((v, rest))
  {
    var s := Encode(v) + rest;
    assert s[0] == Encode(v)[0];
    ValueNumber(s, depth);
    ParseIntEncoded(v.i, rest);
  }

  lemma ParseStringValueEncoded(v: Json, rest: string, depth: nat)
    requires v.JStr?
    ensures ParseValue(Encode(v) + rest, depth) == Some((v, rest))
  {
    var e := EscapeString(v.s);
    Bracketed('"', e, "\"", rest);
    ParseStringEncoded(v.s, rest, "");
    assert "" + v.s == v.s;
    ValueString(Encode(v) + rest, depth, v.s, rest);
  }

  lemma {:induction false} ParseListEncoded(v: Json, rest: string, depth: nat)
    requires v.JList? && WellFormed(v) && depth + Depth(v) <= MaxDepth
    ensures ParseValue(Encode(v) + rest, depth) == Some((v, rest))
    decreases v, 1
  {
    if v.items == [] {
      var s := Encode(v) + rest;
      assert Encode(v) == "[]";
      Bracketed('[', "", "]", rest);
      assert "" + "]" + rest == "]" + rest;
      EmptyListStep(s, depth, rest);
    } else {
      ParseNonEmptyListEncoded(v, rest, depth);
    }
  }

  lemma {:induction false} ParseNonEmptyListEncoded(v: Json, rest: string, depth: nat)
    requires v.JList? && v.items != [] && WellFormed(v) && depth + Depth(v) <= MaxDepth
    ensures ParseValue(Encode(v) + rest, depth) == Some((v, rest))
    decreases v, 0
  {
    var s := Encode(v) + rest;
    var body := EncodeItems(v.items);
    Bracketed('[', body, "]", rest);
    ItemsHead(v.items, "]" + rest);
    Closed(body, "]", rest);
    ParseItemsEncoded(v.items, rest, depth + 1, []);
    assert [] + v.items == v.items;
    ListStep(s, depth, v, rest);
  }

  lemma {:induction false} ParseObjectEncoded(v: Json, rest: string, depth: nat)
    requires v.JObject? && WellFormed(v) && depth + Depth(v) <= MaxDepth
    ensures ParseValue(Encode(v) + rest, depth) == Some((v, rest))
    decreases v, 0
  {
    var s := Encode(v) + rest;
    var body := EncodeMembers(v.members);
    Bracketed('{', body, "}", rest);
    Closed(body, "}", rest);
    MembersHead(v.members, "}" + rest);
    assert [] + v.members == v.members;
    ParseMembersEncoded(v.members, rest, depth + 1, []);
    ObjectStep(s, depth, v, rest);
  }

  lemma {:induction false} ParseItemsEncoded(items: seq<Json>, tail: string, depth: nat, acc: seq<Json>)
    requires items != [] && forall i :: 0 <= i < |items| ==> WellFormed(items[i])
    requires depth + ItemsDepth(items) <= MaxDepth
    ensures ParseItems(EncodeItems(items) + "]" + tail, depth, acc) == Some((JList(acc + items), tail))
    decreases items, 1
  {
    if |items| == 1 {
      ParseLastItemEncoded(items, tail, depth, acc);
    } else {
      ParseNextItemEncoded(items, tail, depth, acc);
    }
  }

  lemma {:induction false} ParseLastItemEncoded(items: seq<Json>, tail: string, depth: nat, acc: seq<Json>)
    requires |items| == 1 && WellFormed(items[0]) && depth + ItemsDepth(items) <= MaxDepth
    ensures ParseItems(EncodeItems(items) + "]" + tail, depth, acc) == Some((JList(acc + items), tail))
    decreases items, 0
  {
    var first := Encode(items[0]);
    var after := "]" + tail;
    assert EncodeItems(items) == first;
    Closed(first, "]", tail);
    ParseEncoded(items[0], after, depth);
    assert after[1..] == tail;
    assert [items[0]] == items;
    ItemsLast(first + after, depth, acc, items[0], after);
  }

  lemma {:induction false} ParseNextItemEncoded(items: seq<Json>, tail: string, depth: nat, acc: seq<Json>)
    requires |items| >= 2 && forall i :: 0 <= i < |items| ==> WellFormed(items[i])
    requires depth + ItemsDepth(items) <= MaxDepth
    ensures ParseItems(EncodeItems(items) + "]" + tail, depth, acc) == Some((JList(acc + items), tail))
    decreases items, 0
  {
    var first := Encode(items[0]);
    var others := EncodeItems(items[1..]);
    var restText := others + "]" + tail;
    var after := "," + restText;
    assert EncodeItems(items) == first + "," + others;
    Separated(first, ",", others, "]", tail);
    ParseEncoded(items[0], after, depth);
    assert after[1..] == restText;
    ItemsNext(first + after, depth, acc, items[0], after);
    ItemsRest(items);
    ParseItemsEncoded(items[1..], tail, depth, acc + [items[0]]);
    assert acc + [items[0]] + items[1..] == acc + items;
  }

  lemma ItemsRest(items: seq<Json>)
    requires items != [] && forall i :: 0 <= i < |items| ==> WellFormed(items[i])
    ensures forall i :: 0 <= i < |items[1..]| ==> WellFormed(items[1..][i])
  {
  }

  lemma {:induction false} ParseMembersEncoded(ms: Obj, tail: string, depth: nat, acc: Obj)
    requires ms != [] && forall i :: 0 <= i < |ms| ==> WellFormedMember(ms[i])
    requires UniqueKeys(acc + ms)
    requires depth + MembersDepth(ms) <= MaxDepth
    ensures ParseMembers(EncodeMembers(ms) + "}" + tail, depth, acc) == Some((JObject(acc + ms), tail))
    decreases ms, 1
  {
    PutNew(acc, ms);
    if |ms| == 1 {
      ParseLastMemberEncoded(ms, tail, depth, acc);
    } else {
      ParseNextMemberEncoded(ms, tail, depth, acc);
    }
  }

  lemma {:induction false} ParseLastMemberEncoded(ms: Obj, tail: string, depth: nat, acc: Obj)
    requires |ms| == 1 && WellFormedMember(ms[0]) && depth + MembersDepth(ms) <= MaxDepth
    requires Put(acc, ms[0].0, ms[0].1) == acc + [ms[0]]
    ensures ParseMembers(EncodeMembers(ms) + "}" + tail, depth, acc) == Some((JObject(acc + ms), tail))
    decreases ms, 0
  {
    var first := EncodeMember(ms[0]);
    var after := "}" + tail;
    MembersText(ms, tail);
    ParseMemberEncoded(ms[0], after, depth);
    assert after[1..] == tail;
    assert [ms[0]] == ms;
    MembersLast(first + after, depth, acc, ms[0].0, ms[0].1, after);
  }

  lemma {:induction false} ParseNextMemberEncoded(ms: Obj, tail: string, depth: nat, acc: Obj)
    requires |ms| >= 2 && forall i :: 0 <= i < |ms| ==> WellFormedMember(ms[i])
    requires UniqueKeys(acc + ms)
    requires depth + MembersDepth(ms) <= MaxDepth
    requires Put(acc, ms[0].0, ms[0].1) == acc + [ms[0]]
    ensures ParseMembers(EncodeMembers(ms) + "}" + tail, depth, acc) == Some((JObject(acc + ms), tail))
    decreases ms, 0
  {
    var first := EncodeMember(ms[0]);
    var restText := EncodeMembers(ms[1..]) + "}" + tail;
    var after := "," + restText;
    MembersText(ms, tail);
    ParseMemberEncoded(ms[0], after, depth);
    assert after[1..] == restText;
    MembersNext(first + after, depth, acc, ms[0].0, ms[0].1, after);
    MembersRest(acc, ms);
    ParseMembersEncoded(ms[1..], tail, depth, acc + [ms[0]]);
  }

  lemma MembersRest(acc: Obj, ms: Obj)
    requires ms != [] && forall i :: 0 <= i < |ms| ==> WellFormedMember(ms[i])
    requires UniqueKeys(acc + ms)
    ensures UniqueKeys(acc + [ms[0]] + ms[1..])
    ensures forall i :: 0 <= i < |ms[1..]| ==> WellFormedMember(ms[1..][i])
    ensures acc + [ms[0]] + ms[1..] == acc + ms
  {
    assert acc + [ms[0]] + ms[1..] == acc + ms;
  }

  /** A key not read before is appended. */
  lemma PutNew(acc: Obj, ms: Obj)
    requires ms != [] && UniqueKeys(acc + ms)
    ensures Put(acc, ms[0].0, ms[0].1) == acc + [ms[0]]
  {
    assert forall i :: 0 <= i < |acc| ==> (acc + ms)[i] == acc[i];
    assert (acc + ms)[|acc|] == ms[0];
    PutAbsent(acc, ms[0].0, ms[0].1);
  }

  lemma {:induction false} PutAbsent(o: Obj, k: string, v: Json)
    requires forall i :: 0 <= i < |o| ==> o[i].0 != k
    ensures Put(o, k, v) == o + [(k, v)]
  {
    if o != [] {
      PutAbsent(o[1..], k, v);
      assert [o[0]] + (o[1..] + [(k, v)]) == o + [(k, v)];
    }
  }

  lemma {:induction false} ParseMemberEncoded(m: (string, Json), tail: string, depth: nat)
    requires WellFormedMember(m) && depth + MemberDepth(m) <= MaxDepth && Follows(tail)
    ensures ParseMember(EncodeMember(m) + tail, depth) == Some((m.0, m.1, tail))
    decreases m
  {
    var s := EncodeMember(m) + tail;
    var valueText := Encode(m.1) + tail;
    var afterKey := ":" + valueText;
    MemberText(m, tail);
    ParseStringEncoded(m.0, afterKey, "");
    assert "" + m.0 == m.0;
    assert afterKey[1..] == valueText;
    ParseEncoded(m.1, tail, depth);
    MemberStep(s, depth, m.0, afterKey, m.1, tail);
  }

  // ---------------------------------------------------------------------------
  // The shape of encoded text
  // ---------------------------------------------------------------------------

  /** Encoded elements do not begin with whitespace or a closing bracket. */
  lemma ItemsHead(items: seq<Json>, tail: string)
    requires items != []
    ensures var t := EncodeItems(items) + tail; t != [] && !JsonWs(t[0]) && t[0] != ']'
  {
    var t := EncodeItems(items) + tail;
    assert t[0] == Encode(items[0])[0];
  }

  /** Encoded members begin with the quote of their key. */
  lemma MembersHead(ms: Obj, tail: string)
    requires ms != []
    ensures var t := EncodeMembers(ms) + tail; t != [] && t[0] == '"'
  {
    var t := EncodeMembers(ms) + tail;
    assert t[0] == EncodeMember(ms[0])[0];
  }

  /** The text of an object's members, split after the first member. */
  lemma MembersText(ms: Obj, tail: string)
    requires ms != []
    ensures EncodeMembers(ms) + "}" + tail ==
      EncodeMember(ms[0]) + (if |ms| == 1 then "}" + tail else "," + (EncodeMembers(ms[1..]) + "}" + tail))
  {
    var first := EncodeMember(ms[0]);
    if |ms| == 1 {
      assert EncodeMembers(ms) == first;
      Closed(first, "}", tail);
    } else {
      var others := EncodeMembers(ms[1..]);
      assert EncodeMembers(ms) == first + "," + others;
      Separated(first, ",", others, "}", tail);
    }
  }

  /** The text of a member: its quoted key, a colon and its value. */
  lemma MemberText(m: (string, Json), tail: string)
    ensures var s := EncodeMember(m) + tail;
      s != [] && s[0] == '"' && s[1..] == EscapeString(m.0) + "\"" + (":" + (Encode(m.1) + tail))
  {
    assert EncodeMember(m) == "\"" + EscapeString(m.0) + "\"" + ":" + Encode(m.1);
    MemberShape(EscapeString(m.0), Encode(m.1), tail);
  }

  lemma MemberShape(key: string, value: string, tail: string)
    ensures var s := "\"" + key + "\"" + ":" + value + tail;
      s != [] && s[0] == '"' && s[1..] == key + "\"" + (":" + (value + tail))
  {
    var s := "\"" + key + "\"" + ":" + value + tail;
    assert s == "\"" + (key + "\"" + (":" + (value + tail)));
  }

  /** Text split off behind an opening bracket or quote. */
  lemma Bracketed(open: char, body: string, close: string, rest: string)
    ensures var s := [open] + body + close + rest; s[0] == open && s[1..] == body + close + rest
  {
    var s := [open] + body + close + rest;
    assert s == [open] + (body + close + rest);
  }

  lemma Separated(first: string, sep: string, others: string, close: string, tail: string)
    ensures first + sep + others + close + tail == first + (sep + (others + close + tail))
  {
  }

  lemma Closed(first: string, close: string, tail: string)
    ensures first + close + tail == first + (close + tail)
  {
  }

  // ---------------------------------------------------------------------------
  // One step of each parser, on any text
  // ---------------------------------------------------------------------------

  lemma ValueString(s: string, depth: nat, str: string, rest: string)
    requires s != [] && s[0] == '"' && ParseStringBody(s[1..], "") == Some((str, rest))
    ensures ParseValue(s, depth) == Some((JStr(str), rest))
  {
    assert SkipWs(s) == s;
  }

  lemma ValueNumber(s: string, depth: nat)
    requires s != [] && (s[0] == '-' || IsDigit(s[0]))
    ensures ParseValue(s, depth) == ParseNumber(s)
  {
    assert SkipWs(s) == s;
  }

  /** A value starting with a bracket is read by the list or object parser. */
  lemma ValueOpens(s: string, depth: nat)
    requires s != [] && (s[0] == '[' || s[0] == '{') && depth < MaxDepth
    ensures s[0] == '[' ==> ParseValue(s, depth) == ParseListOpen(s[1..], depth + 1)
    ensures s[0] == '{' ==> ParseValue(s, depth) == ParseObjectOpen(s[1..], depth + 1)
  {
    assert SkipWs(s) == s;
  }

  lemma EmptyListStep(s: string, depth: nat, rest: string)
    requires |s| >= 2 && s[0] == '[' && s[1..] == "]" + rest && depth < MaxDepth
    ensures ParseValue(s, depth) == Some((JList([]), rest))
  {
    ValueOpens(s, depth);
    assert SkipWs(s[1..]) == s[1..];
  }

  lemma ListStep(s: string, depth: nat, v: Json, rest: string)
    requires |s| >= 2 && s[0] == '[' && !JsonWs(s[1]) && s[1] != ']' && depth < MaxDepth
    requires ParseItems(s[1..], depth + 1, []) == Some((v, rest))
    ensures ParseValue(s, depth) == Some((v, rest))
  {
    ValueOpens(s, depth);
    ListOpenStep(s[1..], depth + 1);
  }

  lemma ObjectStep(s: string, depth: nat, v: Json, rest: string)
    requires |s| >= 2 && s[0] == '{' && s[1] == '"' && depth < MaxDepth
    requires ParseMembers(s[1..], depth + 1, []) == Some((v, rest))
    ensures ParseValue(s, depth) == Some((v, rest))
  {
    ValueOpens(s, depth);
    ObjectOpenStep(s[1..], depth + 1);
  }

  lemma ListOpenStep(s: string, depth: nat)
    requires s != [] && !JsonWs(s[0]) && s[0] != ']'
    ensures ParseListOpen(s, depth) == ParseItems(s, depth, [])
  {
    assert SkipWs(s) == s;
  }

  lemma ObjectOpenStep(s: string, depth: nat)
    requires s != [] && s[0] == '"'
    ensures ParseObjectOpen(s, depth) == ParseMembers(s, depth, [])
  {
    assert SkipWs(s) == s;
  }

  lemma ItemsLast(s: string, depth: nat, acc: seq<Json>, v: Json, after: string)
    requires ParseValue(s, depth) == Some((v, after)) && after != [] && after[0] == ']'
    ensures ParseItems(s, depth, acc) == Some((JList(acc + [v]), after[1..]))
  {
    assert SkipWs(after) == after;
  }

  lemma ItemsNext(s: string, depth: nat, acc: seq<Json>, v: Json, after: string)
    requires ParseValue(s, depth) == Some((v, after)) && after != [] && after[0] == ','
    ensures ParseItems(s, depth, acc) == ParseItems(after[1..], depth, acc + [v])
  {
    assert SkipWs(after) == after;
  }

  lemma MembersLast(s: string, depth: nat, acc: Obj, k: string, v: Json, after: string)
    requires ParseMember(s, depth) == Some((k, v, after)) && after != [] && after[0] == '}'
    ensures ParseMembers(s, depth, acc) == Some((JObject(Put(acc, k, v)), after[1..]))
  {
    assert SkipWs(after) == after;
  }

  lemma MembersNext(s: string, depth: nat, acc: Obj, k: string, v: Json, after: string)
    requires ParseMember(s, depth) == Some((k, v, after)) && after != [] && after[0] == ','
    ensures ParseMembers(s, depth, acc) == ParseMembers(after[1..], depth, Put(acc, k, v))
  {
    assert SkipWs(after) == after;
  }

  lemma MemberStep(s: string, depth: nat, k: string, afterKey: string, v: Json, rest: string)
    requires s != [] && s[0] == '"' && ParseStringBody(s[1..], "") == Some((k, afterKey))
    requires afterKey != [] && afterKey[0] == ':' && ParseValue(afterKey[1..], depth) == Some((v, rest))
    ensures ParseMember(s, depth) == Some((k, v, rest))
  {
    assert SkipWs(s) == s;
    assert SkipWs(afterKey) == afterKey;
  }

  lemma StringPlainStep(s: string, acc: string)
    requires s != [] && s[0] != '"' && s[0] != '\\' && s[0] >= '\U{0020}'
    ensures ParseStringBody(s, acc) == ParseStringBody(s[1..], acc + [s[0]])
  {
  }

  lemma StringEscapeStep(s: string, acc: string, c: char, rest: string)
    requires s != [] && s[0] == '\\' && ParseEscape(s) == Some((c, rest))
    ensures ParseStringBody(s, acc) == ParseStringBody(rest, acc + [c])
  {
  }

  lemma NumberNegative(s: string, m: nat, rest: string)
    requires s != [] && s[0] == '-' && ParseNatural(s[1..]) == Some((m, rest))
    ensures ParseNumber(s) == Some((JInt(-(m as int)), rest))
  {
  }

  lemma NumberPositive(s: string, m: nat, rest: string)
    requires s != [] && s[0] != '-' && ParseNatural(s) == Some((m, rest))
    ensures ParseNumber(s) == Some((JInt(m), rest))
  {
  }

  // ---------------------------------------------------------------------------
  // Strings and numbers
  // ---------------------------------------------------------------------------

  lemma {:induction false} ParseStringEncoded(str: string, tail: string, acc: string)
    ensures ParseStringBody(EscapeString(str) + "\"" + tail, acc) == Some((acc + str, tail))
    decreases |str|
  {
    if str == [] {
      ParseEmptyString(str, tail, acc);
    } else {
      var rest := EscapeString(str[1..]) + "\"" + tail;
      StringText(str, tail);
      ParseCharEncoded(str[0], rest, acc);
      ParseStringEncoded(str[1..], tail, acc + [str[0]]);
      AppendHead(acc, str);
    }
  }

  lemma ParseEmptyString(str: string, tail: string, acc: string)
    requires str == []
    ensures ParseStringBody(EscapeString(str) + "\"" + tail, acc) == Some((acc + str, tail))
  {
    var s := "\"" + tail;
    assert EscapeString(str) + "\"" + tail == s;
    assert s[0] == '"' && s[1..] == tail;
    assert acc + str == acc;
  }

  /** The text of a string, split after its first character. */
  lemma StringText(str: string, tail: string)
    requires str != []
    ensures EscapeString(str) + "\"" + tail == EscapeChar(str[0]) + (EscapeString(str[1..]) + "\"" + tail)
  {
    var e := EscapeChar(str[0]);
    var others := EscapeString(str[1..]);
    assert EscapeString(str) == e + others;
    Regroup(e, others, "\"", tail);
  }

  lemma AppendHead(acc: string, str: string)
    requires str != []
    ensures acc + [str[0]] + str[1..] == acc + str
  {
    assert str == [str[0]] + str[1..];
  }

  lemma Regroup(a: string, b: string, c: string, d: string)
    ensures a + b + c + d == a + (b + c + d)
  {
  }

  /** One escaped character is read back. */
  lemma ParseCharEncoded(c: char, tail: string, acc: string)
    ensures ParseStringBody(EscapeChar(c) + tail, acc) == ParseStringBody(tail, acc + [c])
  {
    var e := EscapeChar(c);
    var s := e + tail;
    if e == [c] {
      assert s[0] == c && s[1..] == tail;
      StringPlainStep(s, acc);
    } else {
      assert s[0] == e[0];
      ParseEscapeEncoded(c, tail);
      StringEscapeStep(s, acc, c, tail);
    }
  }

  lemma ParseEscapeEncoded(c: char, tail: string)
    requires EscapeChar(c) != [c]
    ensures var s := EscapeChar(c) + tail; s != [] && s[0] == '\\' && ParseEscape(s) == Some((c, tail))
  {
    var e := EscapeChar(c);
    var s := e + tail;
    assert s[0] == e[0] && s[1] == e[1];
    if |e| == 2 {
      assert s[2..] == tail;
    } else {
      assert s[2..] == e[2..] + tail && s[6..] == tail;
      assert Hex4(s[2..]) == Some(c as int) by {
        var h := s[2..];
        assert h[0] == e[2] && h[1] == e[3] && h[2] == e[4] && h[3] == e[5];
      }
    }
  }

  /** A decimal numeral followed by a separator is read back as its value. */
  lemma ParseIntEncoded(i: int, rest: string)
    requires Follows(rest)
    ensures ParseNumber(IntToString(i) + rest) == Some((JInt(i), rest))
  {
    if i < 0 {
      ParseNegativeEncoded(i, rest);
    } else {
      ParseNonNegativeEncoded(i, rest);
    }
  }

  lemma ParseNegativeEncoded(i: int, rest: string)
    requires i < 0 && Follows(rest)
    ensures ParseNumber(IntToString(i) + rest) == Some((JInt(i), rest))
  {
    var n: nat := -i;
    var digits := NatToString(n);
    var t := digits + rest;
    var s := IntToString(i) + rest;
    NatToStringValue(n);
    ParseNaturalDigits(digits, rest);
    assert IntToString(i) == "-" + digits;
    SignText(digits, rest);
    NumberNegative(s, n, rest);
  }

  lemma SignText(digits: string, rest: string)
    ensures var s := "-" + digits + rest; s != [] && s[0] == '-' && s[1..] == digits + rest
  {
    var s := "-" + digits + rest;
    assert s == "-" + (digits + rest);
  }

  lemma ParseNonNegativeEncoded(i: int, rest: string)
    requires i >= 0 && Follows(rest)
    ensures ParseNumber(IntToString(i) + rest) == Some((JInt(i), rest))
  {
    var digits := NatToString(i);
    var t := digits + rest;
    NatToStringValue(i);
    ParseNaturalDigits(digits, rest);
    assert IntToString(i) + rest == t;
    assert t[0] == digits[0];
    NumberPositive(t, i, rest);
  }

  lemma ParseNaturalDigits(digits: string, rest: string)
    requires |digits| >= 1 && forall i :: 0 <= i < |digits| ==> IsDigit(digits[i])
    requires digits[0] == '0' ==> digits == "0"
    requires Follows(rest)
    ensures ParseNatural(digits + rest) == Some((DigitsValue(digits), rest))
  {
    var t := digits + rest;
    assert t[0] == digits[0];
    if digits[0] != '0' {
      DigitRunAt(digits, rest);
    }
    assert t[..|digits|] == digits && t[|digits|..] == rest;
  }

  lemma {:induction false} DigitRunAt(digits: string, rest: string)
    requires forall i :: 0 <= i < |digits| ==> IsDigit(digits[i])
    requires rest == [] || !IsDigit(rest[0])
    ensures DigitRun(digits + rest) == |digits|
  {
    if digits != [] {
      assert (digits + rest)[1..] == digits[1..] + rest;
      DigitRunAt(digits[1..], rest);
    } else {
      assert digits + rest == rest;
    }
  }
}
