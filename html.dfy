/** The text cleaning the PHP services apply to request fields before storing
    them: trim, strip_tags and htmlspecialchars with ENT_QUOTES, composed as
    every sanitizeInput helper of the services composes them. */
module Html {
  import opened Common

  /** The characters counted as an entity-producing character by
      htmlspecialchars with ENT_QUOTES. */
  predicate Special(c: char) {
    c == '&' || c == '"' || c == '\'' || c == '<' || c == '>'
  }

  /** Text that can go into a page as it is: the only special character left
      is the '&' that opens an entity. */
  predicate Escaped(s: string) {
    forall i :: 0 <= i < |s| ==> s[i] == '&' || !Special(s[i])
  }

  /** What htmlspecialchars(…, ENT_QUOTES) writes for one character. */
  function EntityFor(c: char): (r: string)
    ensures |r| >= 1
    ensures !Special(c) ==> r == [c]
    ensures Special(c) ==> r[0] == '&'
    ensures forall i :: 0 <= i < |r| ==> r[i] == '&' || !Special(r[i])
  {
    match c
    case '&' => "&amp;"
    case '"' => "&quot;"
    case '\'' => "&#039;"
    case '<' => "&lt;"
    case '>' => "&gt;"
    case _ => [c]
  }

  /** PHP `htmlspecialchars($s, ENT_QUOTES)` (double encoding on, as by default). */
  function HtmlSpecialChars(s: string): (r: string)
    ensures |r| >= |s|
    ensures forall i :: 0 <= i < |r| ==> r[i] == '&' || !Special(r[i])
  {
    if s == [] then [] else EntityFor(s[0]) + HtmlSpecialChars(s[1..])
  }

  /** The inverse of HtmlSpecialChars: PHP's htmlspecialchars_decode with
      ENT_QUOTES on the five entities it produces. */
  function HtmlSpecialCharsDecode(s: string): string
    decreases |s|
  {
    if s == [] then []
    else if |s| >= 5 && s[..5] == "&amp;" then "&" + HtmlSpecialCharsDecode(s[5..])
    else if |s| >= 6 && s[..6] == "&quot;" then "\"" + HtmlSpecialCharsDecode(s[6..])
    else if |s| >= 6 && s[..6] == "&#039;" then "'" + HtmlSpecialCharsDecode(s[6..])
    else if |s| >= 4 && s[..4] == "&lt;" then "<" + HtmlSpecialCharsDecode(s[4..])
    else if |s| >= 4 && s[..4] == "&gt;" then ">" + HtmlSpecialCharsDecode(s[4..])
    else [s[0]] + HtmlSpecialCharsDecode(s[1..])
  }

  /** Escaping loses nothing: every character comes back, and an '&' that was
      already part of an entity is escaped again rather than kept. */
  lemma {:induction false} HtmlSpecialCharsRoundTrip(s: string)
    ensures HtmlSpecialCharsDecode(HtmlSpecialChars(s)) == s
  {
    if s != [] {
      HtmlSpecialCharsRoundTrip(s[1..]);
      DecodeEntityFor(s[0], HtmlSpecialChars(s[1..]));
    }
  }

  /** Decoding reads one escaped character back off the front. */
  lemma DecodeEntityFor(c: char, rest: string)
    ensures HtmlSpecialCharsDecode(EntityFor(c) + rest) == [c] + HtmlSpecialCharsDecode(rest)
  {
    match c
    case '&' => DecodeAmp(rest);
    case '"' => DecodeQuot(rest);
    case '\'' => DecodeApos(rest);
    case '<' => DecodeLt(rest);
    case '>' => DecodeGt(rest);
    case _ =>
      var t := [c] + rest;
      assert t[0] == c && t[1..] == rest;
      assert |t| < 4 || t[..4][0] == c;
  }

  lemma DecodeAmp(rest: string)
    ensures HtmlSpecialCharsDecode("&amp;" + rest) == "&" + HtmlSpecialCharsDecode(rest)
  {
    var t := "&amp;" + rest;
    assert t[..5] == "&amp;" && t[5..] == rest;
  }

  lemma DecodeQuot(rest: string)
    ensures HtmlSpecialCharsDecode("&quot;" + rest) == "\"" + HtmlSpecialCharsDecode(rest)
  {
    var t := "&quot;" + rest;
    assert t[..5] == "&quot" && t[..6] == "&quot;" && t[6..] == rest;
  }

  lemma DecodeApos(rest: string)
    ensures HtmlSpecialCharsDecode("&#039;" + rest) == "'" + HtmlSpecialCharsDecode(rest)
  {
    var t := "&#039;" + rest;
    assert t[..5] == "&#039" && t[..6] == "&#039;" && t[6..] == rest;
  }

  lemma DecodeLt(rest: string)
    ensures HtmlSpecialCharsDecode("&lt;" + rest) == "<" + HtmlSpecialCharsDecode(rest)
  {
    var t := "&lt;" + rest;
    assert t[..4] == "&lt;" && t[4..] == rest;
    assert |t| < 5 || t[..5][1] != "&amp;"[1];
    assert |t| < 6 || (t[..6][1] != "&quot;"[1] && t[..6][1] != "&#039;"[1]);
  }

  lemma DecodeGt(rest: string)
    ensures HtmlSpecialCharsDecode("&gt;" + rest) == ">" + HtmlSpecialCharsDecode(rest)
  {
    var t := "&gt;" + rest;
    assert t[..4] == "&gt;" && t[4..] == rest;
    assert |t| < 5 || t[..5][1] != "&amp;"[1];
    assert |t| < 6 || (t[..6][1] != "&quot;"[1] && t[..6][1] != "&#039;"[1]);
    assert t[..4][1] != "&lt;"[1];
  }

  /** A string without special characters is left as it is. */
  lemma {:induction false} HtmlSpecialCharsPlain(s: string)
    requires forall i :: 0 <= i < |s| ==> !Special(s[i])
    ensures HtmlSpecialChars(s) == s
  {
    if s != [] {
      HtmlSpecialCharsPlain(s[1..]);
    }
  }

  // ---------------------------------------------------------------------------
  // strip_tags
  // ---------------------------------------------------------------------------

  /** C's isspace, which strip_tags consults after a '<'. */
  predicate CSpace(c: char) {
    c == ' ' || c == '\t' || c == '\n' || c == '\U{000B}' || c == '\U{000C}' || c == '\r'
  }

  /** A '<' at the head of `s` opens a tag unless a whitespace character follows it. */
  predicate OpensTag(s: string) {
    |s| >= 1 && s[0] == '<' && !(|s| >= 2 && CSpace(s[1]))
  }

  /** The character at position k, or NUL past either end: strip_tags works
      on a NUL-terminated copy of its input. */
  function At(s: string, k: int): char {
    if 0 <= k < |s| then s[k] else '\0'
  }

  /** The five states of strip_tags: plain text, inside a tag, inside a
      `<?...?>` block, inside a `<!...>` declaration and inside a
      `<!--...-->` comment. */
  datatype Mode = Text | Tag | Php | Bang | Comment

  /** The scanner of strip_tags: its state, the depth of '<' nested in a
      tag, the open quote, the last significant character (`lc`), the
      balance of parentheses in a `<?...?>` block and whether the block was
      opened as `<?xml`. */
  datatype Scan = Scan(mode: Mode, depth: nat, quote: Option<char>, last: char, parens: int, xml: bool)

  const StartScan := Scan(Text, 0, None, '\0', 0, false)

  /** A quote character opens a quotation, or closes the one it opened;
      inside the other kind of quotation it does nothing. */
  function Toggled(quote: Option<char>, c: char): Option<char> {
    if quote.None? then Some(c) else if quote.value == c then None else quote
  }

  /** Whether strip_tags copies the character at position i to its output:
      only text outside every tag is copied, except NUL, a '<' that opens a
      tag and a '>' that closes a nested '<'. */
  predicate Copies(s: string, i: nat, t: Scan)
    requires i < |s|
  {
    var c := s[i];
    t.mode == Text && c != '\0'
    && (c == '<' ==> t.quote.None? && CSpace(At(s, i + 1)))
    && (c == '>' ==> t.depth == 0 && t.quote.None?)
  }

  /** The state strip_tags is in after the character at position i. */
  function Next(s: string, i: nat, t: Scan): Scan
    requires i < |s|
  {
    var c := s[i];
    match t.mode
    case Text =>
      if c == '<' then
        if t.quote.Some? || CSpace(At(s, i + 1)) then t
        else t.(mode := Tag, last := '<')
      else if c == '>' && t.depth > 0 then t.(depth := t.depth - 1)
      else t
    case Tag =>
      if c == '<' then
        if t.quote.Some? || CSpace(At(s, i + 1)) then t
        else t.(depth := t.depth + 1)
      else if c == '>' then
        if t.depth > 0 then t.(depth := t.depth - 1)
        else if t.quote.Some? then t
        else if t.xml && i >= 1 && s[i - 1] == '-' then t.(last := '>')
        else t.(mode := Text, last := '>', quote := None, xml := false)
      else if c == '"' || c == '\'' then
        if i > 0 then t.(quote := Toggled(t.quote, c)) else t
      else if c == '!' && i >= 1 && s[i - 1] == '<' then t.(mode := Bang, last := '!')
      else if c == '?' && i >= 1 && s[i - 1] == '<' then t.(mode := Php, parens := 0)
      else t
    case Php =>
      if c == '(' || c == ')' then
        if t.last != '"' && t.last != '\'' then
          t.(last := c, parens := if c == '(' then t.parens + 1 else t.parens - 1)
        else t
      else if c == '>' then
        if t.depth > 0 then t.(depth := t.depth - 1)
        else if t.quote.Some? then t
        else if t.parens == 0 && i >= 1 && t.last != '"' && s[i - 1] == '?' then
          t.(mode := Text, quote := None)
        else t
      else if c == '"' || c == '\'' then
        if i >= 1 && s[i - 1] != '\\' then
          t.(last := if t.last == c then '\0' else if t.last != '\\' then c else t.last,
             quote := Toggled(t.quote, c))
        else t
      else if (c == 'l' || c == 'L') && i > 4 && (s[i - 1] == 'm' || s[i - 1] == 'M')
        && (s[i - 2] == 'x' || s[i - 2] == 'X') && s[i - 3] == '?' && s[i - 4] == '<' then
        t.(mode := Tag, xml := true)
      else t
    case Bang =>
      if c == '>' then
        if t.depth > 0 then t.(depth := t.depth - 1)
        else if t.quote.Some? then t
        else t.(mode := Text, quote := None)
      else if c == '"' || c == '\'' then
        if i > 0 && s[i - 1] != '\\' then t.(quote := Toggled(t.quote, c)) else t
      else if c == '-' && i >= 2 && s[i - 1] == '-' && s[i - 2] == '!' then t.(mode := Comment)
      else if (c == 'E' || c == 'e') && i > 6 && EndsDoctyp(s, i) then t.(mode := Tag)
      else t
    case Comment =>
      if t.quote.None? && ClosesComment(s, i) then t.(mode := Text, quote := None)
      else t
  }

  /** The '>' at position i ends a `<!--` comment: it follows "--". */
  predicate ClosesComment(s: string, i: nat)
    requires i < |s|
  {
    s[i] == '>' && i >= 2 && s[i - 1] == '-' && s[i - 2] == '-'
  }

  /** The six characters before position i spell "doctyp" in any case, so
      that an 'e' there ends `<!DOCTYPE` and the declaration is read as a tag. */
  predicate EndsDoctyp(s: string, i: nat)
    requires 6 <= i <= |s|
  {
    (s[i - 1] == 'p' || s[i - 1] == 'P') && (s[i - 2] == 'y' || s[i - 2] == 'Y')
    && (s[i - 3] == 't' || s[i - 3] == 'T') && (s[i - 4] == 'c' || s[i - 4] == 'C')
    && (s[i - 5] == 'o' || s[i - 5] == 'O') && (s[i - 6] == 'd' || s[i - 6] == 'D')
  }

  /** What strip_tags writes for the input from position i on, in state t. */
  function StripFrom(s: string, i: nat, t: Scan): string
    requires i <= |s|
    decreases |s| - i, 1
  {
    if i == |s| then [] else StripAt(s, i, t)
  }

  /** What strip_tags writes for the character at position i and the rest. */
  function StripAt(s: string, i: nat, t: Scan): string
    requires i < |s|
    decreases |s| - i, 0
  {
    (if Copies(s, i, t) then [s[i]] else []) + StripFrom(s, i + 1, Next(s, i, t))
  }

  /** PHP `strip_tags($s)` without an allow-list. */
  function StripTags(s: string): string {
    StripFrom(s, 0, StartScan)
  }

  /** `s` without its NUL characters. */
  function DropNul(s: string): (r: string)
    ensures forall k :: 0 <= k < |r| ==> r[k] != '\0' && r[k] in s
    ensures (forall k :: 0 <= k < |s| ==> s[k] != '\0') ==> r == s
  {
    if s == [] then []
    else (if s[0] == '\0' then [] else [s[0]]) + DropNul(s[1..])
  }

  /** Inside a comment nothing is copied, and the first `-->` from position
      i on ends it: a '>' without "--" before it does not. */
  lemma {:induction false} CommentEnds(s: string, i: nat, j: nat, t: Scan)
    requires i <= j < |s| && ClosesComment(s, j)
    requires forall k :: i <= k < j ==> !ClosesComment(s, k)
    requires t.mode == Comment && t.quote.None?
    ensures StripFrom(s, i, t) == StripFrom(s, j + 1, t.(mode := Text))
    decreases j - i
  {
    if i < j {
      CommentEnds(s, i + 1, j, t);
    }
  }

  /** A comment that is never closed swallows the rest of the input. */
  lemma {:induction false} CommentUnclosed(s: string, i: nat, t: Scan)
    requires i <= |s|
    requires forall k :: i <= k < |s| ==> !ClosesComment(s, k)
    requires t.mode == Comment
    ensures StripFrom(s, i, t) == []
    decreases |s| - i
  {
    if i < |s| {
      CommentUnclosed(s, i + 1, t);
    }
  }

  /** A `<!--` comment ends only at `-->`, not at the first '>'. */
  lemma StripTagsComment(s: string)
    requires s == "<!-- a > b -->c"
    ensures StripTags(s) == "c"
  {
    var t0 := Scan(Text, 0, None, '\0', 0, false);
    var t1 := Scan(Tag, 0, None, '<', 0, false);
    var t2 := Scan(Bang, 0, None, '!', 0, false);
    var t3 := Scan(Comment, 0, None, '!', 0, false);
    var t4 := Scan(Text, 0, None, '!', 0, false);
    assert Next(s, 0, t0) == t1;
    assert Next(s, 1, t1) == t2;
    assert Next(s, 3, t2) == t3;
    assert StripFrom(s, 15, t4) == "";
    assert StripFrom(s, 14, t4) == "c";
    CommentEnds(s, 4, 13, t3);
    assert StripFrom(s, 4, t3) == "c";
    assert StripFrom(s, 3, t2) == "c";
    assert StripFrom(s, 2, t2) == "c";
    assert StripFrom(s, 1, t1) == "c";
    assert StripFrom(s, 0, t0) == "c";
  }

  /** A `<?` block ends only at `?>`. */
  lemma StripTagsPhpBlock(s: string)
    requires s == "<?x > 2; ?>"
    ensures StripTags(s) == ""
  {
    var t0 := Scan(Text, 0, None, '\0', 0, false);
    var t1 := Scan(Tag, 0, None, '<', 0, false);
    var t2 := Scan(Php, 0, None, '<', 0, false);
    var t3 := Scan(Text, 0, None, '<', 0, false);
    assert Next(s, 0, t0) == t1;
    assert Next(s, 1, t1) == t2;
    assert Next(s, 10, t2) == t3;
    assert StripFrom(s, 11, t3) == "";
    assert StripFrom(s, 10, t2) == "";
    assert StripFrom(s, 9, t2) == "";
    assert StripFrom(s, 8, t2) == "";
    assert StripFrom(s, 7, t2) == "";
    assert StripFrom(s, 6, t2) == "";
    assert StripFrom(s, 5, t2) == "";
    assert StripFrom(s, 4, t2) == "";
    assert StripFrom(s, 3, t2) == "";
    assert StripFrom(s, 2, t2) == "";
    assert StripFrom(s, 1, t1) == "";
    assert StripFrom(s, 0, t0) == "";
  }

  /** A '<' inside a tag nests, and the '>' that closes it counts even
      inside quotes. */
  lemma StripTagsNested(s: string)
    requires s == "<a <b \"x>y\">z"
    ensures StripTags(s) == "z"
  {
    var t0 := Scan(Text, 0, None, '\0', 0, false);
    var t1 := Scan(Tag, 0, None, '<', 0, false);
    var t2 := Scan(Tag, 1, None, '<', 0, false);
    var t3 := Scan(Tag, 1, Some('"'), '<', 0, false);
    var t4 := Scan(Tag, 0, Some('"'), '<', 0, false);
    var t5 := Scan(Text, 0, None, '>', 0, false);
    assert Next(s, 0, t0) == t1;
    assert Next(s, 3, t1) == t2;
    assert Next(s, 6, t2) == t3;
    assert Next(s, 8, t3) == t4;
    assert Next(s, 10, t4) == t1;
    assert Next(s, 11, t1) == t5;
    assert StripFrom(s, 13, t5) == "";
    assert StripFrom(s, 12, t5) == "z";
    assert StripFrom(s, 11, t1) == "z";
    assert StripFrom(s, 10, t4) == "z";
    assert StripFrom(s, 9, t4) == "z";
    assert StripFrom(s, 8, t3) == "z";
    assert StripFrom(s, 7, t3) == "z";
    assert StripFrom(s, 6, t2) == "z";
    assert StripFrom(s, 5, t2) == "z";
    assert StripFrom(s, 4, t2) == "z";
    assert StripFrom(s, 3, t1) == "z";
    assert StripFrom(s, 2, t1) == "z";
    assert StripFrom(s, 1, t1) == "z";
    assert StripFrom(s, 0, t0) == "z";
  }

  /** Tags go and their text stays; a '<' before a space is text. */
  lemma StripTagsText(s: string)
    requires s == "<b>x</b> < y"
    ensures StripTags(s) == "x < y"
  {
    var t0 := Scan(Text, 0, None, '\0', 0, false);
    var t1 := Scan(Tag, 0, None, '<', 0, false);
    var t2 := Scan(Text, 0, None, '>', 0, false);
    assert Next(s, 0, t0) == t1;
    assert Next(s, 2, t1) == t2;
    assert Next(s, 4, t2) == t1;
    assert Next(s, 7, t1) == t2;
    assert StripFrom(s, 12, t2) == "";
    assert StripFrom(s, 11, t2) == "y";
    assert StripFrom(s, 10, t2) == " y";
    assert StripFrom(s, 9, t2) == "< y";
    assert StripFrom(s, 8, t2) == " < y";
    assert StripFrom(s, 7, t1) == " < y";
    assert StripFrom(s, 6, t1) == " < y";
    assert StripFrom(s, 5, t1) == " < y";
    assert StripFrom(s, 4, t2) == " < y";
    assert StripFrom(s, 3, t2) == "x < y";
    assert StripFrom(s, 2, t1) == "x < y";
    assert StripFrom(s, 1, t1) == "x < y";
    assert StripFrom(s, 0, t0) == "x < y";
  }

  /** No tag survives strip_tags: a '<' left in the output is followed by whitespace. */
  lemma StripTagsLeavesNoTag(s: string)
    ensures forall k :: 0 <= k < |StripTags(s)| ==> !OpensTag(StripTags(s)[k..])
  {
    StripFromLeavesNoTag(s, 0, StartScan);
  }

  lemma {:induction false} StripFromLeavesNoTag(s: string, i: nat, t: Scan)
    requires i <= |s|
    ensures forall k :: 0 <= k < |StripFrom(s, i, t)| ==> !OpensTag(StripFrom(s, i, t)[k..])
    decreases |s| - i
  {
    if i < |s| {
      var rest := StripFrom(s, i + 1, Next(s, i, t));
      StripFromLeavesNoTag(s, i + 1, Next(s, i, t));
      if Copies(s, i, t) {
        var r := [s[i]] + rest;
        assert StripFrom(s, i, t) == r;
        forall k | 0 <= k < |r| ensures !OpensTag(r[k..]) {
          if k == 0 {
            if s[i] == '<' {
              // the whitespace after the '<' is copied right after it
              assert Next(s, i, t) == t;
              assert Copies(s, i + 1, t);
              assert rest == StripAt(s, i + 1, t);
              assert rest == [s[i + 1]] + StripFrom(s, i + 2, Next(s, i + 1, t));
            }
          } else {
            assert r[k..] == rest[k - 1..];
          }
        }
      } else {
        assert StripFrom(s, i, t) == rest;
      }
    }
  }

  /** Text with no '<' loses only its NUL characters to strip_tags. */
  lemma StripTagsPlain(s: string)
    requires forall k :: 0 <= k < |s| ==> s[k] != '<'
    ensures StripTags(s) == DropNul(s)
  {
    StripFromPlain(s, 0);
    assert s[0..] == s;
  }

  lemma {:induction false} StripFromPlain(s: string, i: nat)
    requires i <= |s|
    requires forall k :: i <= k < |s| ==> s[k] != '<'
    ensures StripFrom(s, i, StartScan) == DropNul(s[i..])
    decreases |s| - i
  {
    if i < |s| {
      StripFromPlain(s, i + 1);
      assert Next(s, i, StartScan) == StartScan;
      assert s[i..][1..] == s[i + 1..];
    }
  }

  // ---------------------------------------------------------------------------
  // sanitizeInput
  // ---------------------------------------------------------------------------

  /** trim, then strip_tags, then htmlspecialchars with ENT_QUOTES: the body
      of every sanitizeInput helper of the SQL services. */
  function Sanitize(s: string): (r: string)
    ensures forall i :: 0 <= i < |r| ==> r[i] == '&' || !Special(r[i])
    ensures r == "" <==> StripTags(PhpTrim(s)) == ""
  {
    HtmlSpecialChars(StripTags(PhpTrim(s)))
  }

  /** The sanitizeInput of the assignment and discussion services: a string
      is trimmed, stripped of tags and HTML-escaped; any other JSON value is
      returned as it is. */
  function SanitizeValue(v: Json): (r: Json)
    ensures !v.JStr? ==> r == v
    ensures v.JStr? ==> r.JStr? && r.s == Sanitize(v.s) && Escaped(r.s)
  {
    if v.JStr? then JStr(Sanitize(v.s)) else v
  }

  /** A sanitized value as the string the statement binds. */
  function SanitizedString(v: Json): (r: string)
    ensures v.JStr? ==> r == Sanitize(v.s) && Escaped(r)
  {
    PhpString(SanitizeValue(v))
  }

  /** Text that is already clean (no surrounding whitespace, no special
      characters) is stored as sent, less its NUL characters. */
  lemma SanitizeClean(s: string)
    requires PhpTrim(s) == s
    requires forall i :: 0 <= i < |s| ==> !Special(s[i])
    ensures Sanitize(s) == DropNul(s)
  {
    StripTagsPlain(s);
    HtmlSpecialCharsPlain(DropNul(s));
  }

  /** Decoding what was stored gives back the trimmed, tag-free text. */
  lemma SanitizeDecodes(s: string)
    ensures HtmlSpecialCharsDecode(Sanitize(s)) == StripTags(PhpTrim(s))
  {
    HtmlSpecialCharsRoundTrip(StripTags(PhpTrim(s)));
  }
}
