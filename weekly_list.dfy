/** The weekly page's list view: the HTML escaping it applies to every
    value it shows, the card it builds for a week, and the order it lists the
    weeks in. */
module WeeklyList {
  import opened Common

  /** A week as the list page fetches it; a field the JSON lacks is None. */
  datatype Week = Week(id: string, title: Option<string>, startDate: Option<string>,
                       description: Option<string>, links: Option<seq<string>>)

  // ---------------------------------------------------------------------------
  // escapeHtml
  // ---------------------------------------------------------------------------

  /** `s.replaceAll(c, rep)` for a one-character pattern. */
  function ReplaceAll(s: string, c: char, rep: string): (r: string)
    ensures c !in s ==> r == s
    decreases |s|
  {
    if s == [] then []
    else (if s[0] == c then rep else [s[0]]) + ReplaceAll(s[1..], c, rep)
  }

  /** Every character of the result comes from the replacement or is a
      character of the text other than the one replaced. */
  lemma {:induction false} ReplaceAllChars(s: string, c: char, rep: string)
    ensures forall x :: x in ReplaceAll(s, c, rep) ==> x in rep || (x != c && x in s)
    decreases |s|
  {
    if s != [] {
      ReplaceAllChars(s[1..], c, rep);
      assert s == [s[0]] + s[1..];
    }
  }

  /** Replacing in two pieces is replacing in the whole. */
  lemma {:induction false} ReplaceAllConcat(a: string, b: string, c: char, rep: string)
    ensures ReplaceAll(a + b, c, rep) == ReplaceAll(a, c, rep) + ReplaceAll(b, c, rep)
    decreases |a|
  {
    if a != [] {
      var h := if a[0] == c then rep else [a[0]];
      assert (a + b)[0] == a[0] && (a + b)[1..] == a[1..] + b;
      assert ReplaceAll(a + b, c, rep) == h + ReplaceAll(a[1..] + b, c, rep);
      ReplaceAllConcat(a[1..], b, c, rep);
      assert ReplaceAll(a, c, rep) == h + ReplaceAll(a[1..], c, rep);
    } else {
      assert a + b == b;
    }
  }

  /** What one character becomes on the page. */
  function EscapeChar(c: char): string {
    if c == '&' then "&amp;" else if c == '<' then "&lt;" else if c == '>' then "&gt;" else [c]
  }

  /** The reference escaping: every character replaced on its own. */
  function EscapeEach(s: string): string {
    if s == [] then [] else EscapeChar(s[0]) + EscapeEach(s[1..])
  }

  /** The three replacements in the order they are chained. */
  function Chain(s: string): string {
    ReplaceAll(ReplaceAll(ReplaceAll(s, '&', "&amp;"), '<', "&lt;"), '>', "&gt;")
  }

  lemma ReplaceOne(x: char, c: char, rep: string)
    ensures ReplaceAll([x], c, rep) == if x == c then rep else [x]
  {
    assert [x][1..] == [];
  }

  lemma ChainChar(c: char)
    ensures Chain([c]) == EscapeChar(c)
  {
    if c == '&' {
      ChainAmp();
    } else if c == '<' {
      ChainLt();
    } else if c == '>' {
      ChainGt();
    } else {
      ReplaceOne(c, '&', "&amp;");
      ReplaceOne(c, '<', "&lt;");
      ReplaceOne(c, '>', "&gt;");
    }
  }

  lemma ChainAmp()
    ensures Chain("&") == "&amp;"
  {
    ReplaceOne('&', '&', "&amp;");
    assert '<' !in "&amp;" && '>' !in "&amp;";
  }

  lemma ChainLt()
    ensures Chain("<") == "&lt;"
  {
    ReplaceOne('<', '&', "&amp;");
    ReplaceOne('<', '<', "&lt;");
    assert '>' !in "&lt;";
  }

  lemma ChainGt()
    ensures Chain(">") == "&gt;"
  {
    ReplaceOne('>', '&', "&amp;");
    ReplaceOne('>', '<', "&lt;");
    ReplaceOne('>', '>', "&gt;");
  }

  /** No `<` or `>` survives the chain. */
  lemma ChainNoAngles(s: string)
    ensures '<' !in Chain(s) && '>' !in Chain(s)
  {
    var r1 := ReplaceAll(s, '&', "&amp;");
    var r2 := ReplaceAll(r1, '<', "&lt;");
    ReplaceAllChars(r1, '<', "&lt;");
    ReplaceAllChars(r2, '>', "&gt;");
    assert '<' !in "&lt;" && '<' !in "&gt;" && '>' !in "&gt;";
  }

  /** Because `&` is replaced first, the chain escapes each character
      exactly once: the `&` of an `&lt;` it has just written is never
      escaped again. */
  lemma {:induction false} ChainIsEscapeEach(s: string)
    ensures Chain(s) == EscapeEach(s)
    decreases |s|
  {
    if s != [] {
      var c, t := s[0], s[1..];
      assert s == [c] + t;
      ChainIsEscapeEach(t);
      ChainChar(c);
      var a1, b1 := ReplaceAll([c], '&', "&amp;"), ReplaceAll(t, '&', "&amp;");
      ReplaceAllConcat([c], t, '&', "&amp;");
      var a2, b2 := ReplaceAll(a1, '<', "&lt;"), ReplaceAll(b1, '<', "&lt;");
      ReplaceAllConcat(a1, b1, '<', "&lt;");
      ReplaceAllConcat(a2, b2, '>', "&gt;");
    }
  }

  /** Reading the entities back: `&amp;`, `&lt;` and `&gt;` become the
      characters they stand for, everything else is kept. */
  function Unescape(t: string): string
    decreases |t|
  {
    if t == [] then []
    else if |t| >= 5 && t[..5] == "&amp;" then "&" + Unescape(t[5..])
    else if |t| >= 4 && t[..4] == "&lt;" then "<" + Unescape(t[4..])
    else if |t| >= 4 && t[..4] == "&gt;" then ">" + Unescape(t[4..])
    else [t[0]] + Unescape(t[1..])
  }

  /** Nothing is lost or doubled by the escaping. */
  lemma {:induction false} UnescapeEscapeEach(s: string)
    ensures Unescape(EscapeEach(s)) == s
    decreases |s|
  {
    if s != [] {
      var c, u := s[0], EscapeEach(s[1..]);
      UnescapeEscapeEach(s[1..]);
      var t := EscapeChar(c) + u;
      assert EscapeEach(s) == t;
      if c == '&' {
        assert t[..5] == "&amp;" && t[5..] == u;
      } else if c == '<' || c == '>' {
        assert t[1] != 'a' && t[..4] == EscapeChar(c) && t[4..] == u;
      } else {
        assert t[0] == c && t[1..] == u;
      }
      assert s == [c] + s[1..];
    }
  }

  /** `escapeHtml(s)`: a missing or empty value gives the empty string;
      otherwise every `&`, `<` and `>` is replaced by its entity, each
      exactly once, and nothing else changes. */
  function EscapeHtml(s: Option<string>): (r: string)
    ensures s.None? || s == Some("") ==> r == ""
    ensures s.Some? ==> r == EscapeEach(s.value) && Unescape(r) == s.value
    ensures '<' !in r && '>' !in r
  {
    if s.None? || s.value == "" then ""
    else
      ChainIsEscapeEach(s.value);
      UnescapeEscapeEach(s.value);
      ChainNoAngles(s.value);
      Chain(s.value)
  }

  /** Text without `&`, `<` or `>` is shown as it is; quotes included. */
  lemma EscapePlain(s: string)
    requires '&' !in s && '<' !in s && '>' !in s
    ensures EscapeHtml(Some(s)) == s
  {
    EscapeEachPlain(s);
  }

  lemma {:induction false} EscapeEachPlain(s: string)
    requires '&' !in s && '<' !in s && '>' !in s
    ensures EscapeEach(s) == s
    decreases |s|
  {
    if s != [] {
      assert s == [s[0]] + s[1..];
      EscapeEachPlain(s[1..]);
    }
  }

  // ---------------------------------------------------------------------------
  // createWeekArticle
  // ---------------------------------------------------------------------------

  /** One link of the card. */
  function LinkItem(l: string): (r: string)
    ensures r != ""
  {
    "<li><a href=\"" + EscapeHtml(Some(l)) + "\" target=\"_blank\">" + EscapeHtml(Some(l)) + "</a></li>"
  }

  /** `links.map(LinkItem).join('')`. */
  function LinksHtml(links: seq<string>): (r: string)
    ensures r == "" <==> links == []
  {
    if links == [] then "" else LinkItem(links[0]) + LinksHtml(links[1..])
  }

  /** The card's link list: absent when `week.links` is missing or empty. */
  function LinksList(links: Option<seq<string>>): (r: string)
    ensures r == "" <==> links.None? || links.value == []
    ensures r != "" ==> r == "<ul class=\"links-list\">" + LinksHtml(links.value) + "</ul>"
  {
    var html := LinksHtml(if links.Some? then links.value else []);
    if html != "" then "<ul class=\"links-list\">" + html + "</ul>" else ""
  }

  /** `createWeekArticle(week)`; `encode` is encodeURIComponent. The
      card is the template up to the link list, the list, and the rest of
      the template. */
  function Article(week: Week, encode: string -> string): string {
    ArticleHead(week) + LinksList(week.links) + ArticleTail(week, encode)
  }

  /** The title, start date and description, escaped. */
  function ArticleHead(week: Week): string {
    "\n    <article class=\"card\">\n      <header>\n        <strong>" + EscapeHtml(week.title)
    + "</strong>\n        <span class=\"small\">(" + EscapeHtml(week.startDate)
    + ")</span>\n      </header>\n      <p>" + EscapeHtml(week.description) + "</p>\n      "
  }

  /** The Edit and Delete buttons and the details link, carrying the id. */
  function ArticleTail(week: Week, encode: string -> string): string {
    "\n      <menu>\n        <button data-id=\"" + week.id + "\" class=\"editBtn\">Edit</button>\n"
    + "        <button data-id=\"" + week.id + "\" class=\"deleteBtn\">Delete</button>\n"
    + "        <a class=\"contrast\" href=\"details.html?id=" + encode(week.id) + "\">View Details</a>\n"
    + "      </menu>\n    </article>\n  "
  }

  /** A week whose links are missing or empty gets the same card as a week
      without a links field: the link list is the only part the links
      change, and it is left out exactly when there are none. */
  lemma ArticleWithoutLinks(week: Week, encode: string -> string)
    ensures week.links.None? || week.links == Some([]) <==>
      Article(week, encode) == Article(week.(links := None), encode)
  {
    var head, tail := ArticleHead(week), ArticleTail(week, encode);
    assert ArticleHead(week.(links := None)) == head;
    assert ArticleTail(week.(links := None), encode) == tail;
    var list := LinksList(week.links);
    if list != "" {
      assert |head + list + tail| > |head + "" + tail|;
    } else {
      assert head + list + tail == head + "" + tail;
    }
  }

  /** renderWeeks: the message for an empty list, otherwise the cards in
      list order. */
  function RenderWeeks(weeks: seq<Week>, encode: string -> string): (r: string)
    ensures weeks == [] ==> r == "<p>No weeks available yet.</p>"
    ensures weeks != [] ==> r == Cards(weeks, encode)
  {
    if weeks == [] then "<p>No weeks available yet.</p>" else Cards(weeks, encode)
  }

  /** `weeks.map(createWeekArticle).join('')`. */
  function Cards(weeks: seq<Week>, encode: string -> string): string {
    if weeks == [] then "" else Article(weeks[0], encode) + Cards(weeks[1..], encode)
  }

  // ---------------------------------------------------------------------------
  // The order of the list
  // ---------------------------------------------------------------------------

  /** `week.startDate || ''`. */
  function StartKey(w: Week): string {
    if w.startDate.Some? then w.startDate.value else ""
  }

  /** The comparison the sort uses, `localeCompare`, taken as the order of
      character codes. */
  predicate LexLe(a: string, b: string)
    decreases |a|
  {
    a == [] || (b != [] && (a[0] < b[0] || (a[0] == b[0] && LexLe(a[1..], b[1..]))))
  }

  lemma {:induction false} LexTotal(a: string, b: string)
    ensures LexLe(a, b) || LexLe(b, a)
    decreases |a|
  {
    if a != [] && b != [] && a[0] == b[0] {
      LexTotal(a[1..], b[1..]);
    }
  }

  lemma {:induction false} LexTrans(a: string, b: string, c: string)
    requires LexLe(a, b) && LexLe(b, c)
    ensures LexLe(a, c)
    decreases |a|
  {
    if a != [] && a[0] == b[0] && b[0] == c[0] {
      LexTrans(a[1..], b[1..], c[1..]);
    }
  }

  /** The comparator loadAndRender passes to sort. */
  predicate Before(x: Week, y: Week) {
    LexLe(StartKey(x), StartKey(y))
  }

  lemma BeforeOrdering()
    ensures Total(Before) && Transitive(Before)
  {
    forall x, y ensures Before(x, y) || Before(y, x) {
      LexTotal(StartKey(x), StartKey(y));
    }
    forall x, y, z | Before(x, y) && Before(y, z) ensures Before(x, z) {
      LexTrans(StartKey(x), StartKey(y), StartKey(z));
    }
  }

  /** Any two elements compare one way or the other. */
  ghost predicate Total<T(!new)>(le: (T, T) -> bool) {
    forall x, y :: le(x, y) || le(y, x)
  }

  ghost predicate Transitive<T(!new)>(le: (T, T) -> bool) {
    forall x, y, z :: le(x, y) && le(y, z) ==> le(x, z)
  }

  /** Every element is no greater than the next. */
  predicate AdjacentSorted<T>(s: seq<T>, le: (T, T) -> bool) {
    forall k :: 0 < k < |s| ==> le(s[k - 1], s[k])
  }

  /** Every element is no greater than every later one. */
  predicate Sorted<T>(s: seq<T>, le: (T, T) -> bool) {
    forall i, j :: 0 <= i < j < |s| ==> le(s[i], s[j])
  }

  lemma {:induction false} AdjacentSortedIsSorted<T(!new)>(s: seq<T>, le: (T, T) -> bool)
    requires Transitive(le) && AdjacentSorted(s, le)
    ensures Sorted(s, le)
    decreases |s|
  {
    if |s| > 1 {
      var t := s[..|s| - 1];
      assert AdjacentSorted(t, le) by {
        forall k | 0 < k < |t| ensures le(t[k - 1], t[k]) {
          assert t[k - 1] == s[k - 1] && t[k] == s[k];
        }
      }
      AdjacentSortedIsSorted(t, le);
      forall i, j | 0 <= i < j < |s| ensures le(s[i], s[j]) {
        if j < |s| - 1 {
          assert s[i] == t[i] && s[j] == t[j];
        } else if i < j - 1 {
          assert le(s[i], s[j - 1]) by {
            assert s[i] == t[i] && s[j - 1] == t[j - 1];
          }
        }
      }
    }
  }

  /** `a.sort(le)` for a comparator that orders all elements: the elements
      rearranged into order. */
  method Sort<T(!new)>(a: array<T>, le: (T, T) -> bool)
    requires Total(le) && Transitive(le)
    modifies a
    ensures Sorted(a[..], le)
    ensures multiset(a[..]) == multiset(old(a[..]))
  {
    var i := 1;
    while i < a.Length
      invariant a.Length == 0 || 1 <= i <= a.Length
      invariant forall k :: 0 < k < i && k < a.Length ==> le(a[k - 1], a[k])
      invariant multiset(a[..]) == multiset(old(a[..]))
    {
      InsertLast(a, i, le);
      i := i + 1;
    }
    AdjacentSortedIsSorted(a[..], le);
  }

  /** One step of insertion sort: moves `a[i]` down past every earlier
      element greater than it, so that `a[..i + 1]` is in order. */
  method InsertLast<T(!new)>(a: array<T>, i: int, le: (T, T) -> bool)
    requires Total(le)
    requires 0 < i < a.Length
    requires forall k :: 0 < k < i ==> le(a[k - 1], a[k])
    modifies a
    ensures forall k :: 0 < k <= i ==> le(a[k - 1], a[k])
    ensures multiset(a[..]) == multiset(old(a[..]))
  {
    var j := i;
    while j > 0 && !le(a[j - 1], a[j])
      invariant 0 <= j <= i
      invariant forall k :: 0 < k <= i && k != j ==> le(a[k - 1], a[k])
      invariant 0 < j < i ==> le(a[j - 1], a[j + 1])
      invariant multiset(a[..]) == multiset(old(a[..]))
    {
      Swap(a, j - 1, j);
      j := j - 1;
    }
  }

  /** Exchanges two elements. */
  method Swap<T>(a: array<T>, i: int, j: int)
    requires 0 <= i < j < a.Length
    modifies a
    ensures a[..] == old(a[..])[i := old(a[j])][j := old(a[i])]
    ensures multiset(a[..]) == multiset(old(a[..]))
  {
    a[i], a[j] := a[j], a[i];
  }

  /** loadAndRender on the weeks fetched: sorts them in place and renders
      them. */
  method LoadAndRender(weeks: array<Week>, encode: string -> string) returns (html: string)
    modifies weeks
    ensures Sorted(weeks[..], Before) && multiset(weeks[..]) == multiset(old(weeks[..]))
    ensures html == RenderWeeks(weeks[..], encode)
  {
    BeforeOrdering();
    Sort(weeks, Before);
    html := RenderWeeks(weeks[..], encode);
  }
}
