/** The assignments service: an `assignments` table whose rows carry a due
    date and a list of attached files stored as JSON text, and a `comments`
    table whose rows name their assignment in a text column. Request values
    are bound to the statements as strings, so every lookup by id compares
    the id's numeral with the text the request sent. */
module AssignmentsApi {
  import opened Common
  import opened Sql
  import opened JsonText
  import Html

  // ---------------------------------------------------------------------------
  // Rows and responses
  // ---------------------------------------------------------------------------

  /** A row of `assignments`. `files` is the text column, `dueDate` the DATE
      column (None for NULL); timestamps come from the database clock. */
  datatype Assignment = Assignment(id: int, title: string, description: string, files: Option<string>,
                                   dueDate: Option<string>, createdAt: int, updatedAt: int)

  /** A row of `comments`; `assignmentId` is a VARCHAR column. */
  datatype Comment = Comment(id: int, assignmentId: string, author: string, text: string, createdAt: int)

  function Error(status: int, message: string): Response {
    Response(status, JObject([("error", JStr(message))]))
  }

  /** A PDOException caught by the handler: its message goes out as details. */
  function DbError(message: string, details: string): Response {
    Response(500, JObject([("error", JStr(message)), ("details", JStr(details))]))
  }

  function Message(status: int, message: string): Response {
    Response(status, JObject([("message", JStr(message))]))
  }

  /** A TypeError from a built-in given an array: nothing catches it. */
  const Fatal: Response := Response(500, JNull)

  /** The text a request value is bound as, and the id text a row is
      looked up by. */
  function Key(v: Json): string {
    PhpString(v)
  }

  predicate IdIs(a: Assignment, key: string) {
    IntToString(a.id) == key
  }

  // ---------------------------------------------------------------------------
  // validateDate, validateAllowedValue (sanitizeInput is Html.SanitizeValue)
  // ---------------------------------------------------------------------------

  datatype Date = Date(year: int, month: int, day: int)

  predicate LeapYear(y: int) {
    y % 4 == 0 && (y % 100 != 0 || y % 400 == 0)
  }

  function DaysInMonth(y: int, m: int): int {
    if m == 2 then (if LeapYear(y) then 29 else 28)
    else if m == 4 || m == 6 || m == 9 || m == 11 then 30
    else 31
  }

  /** A day of the calendar whose year the `Y` format reads (up to four
      digits). */
  predicate ValidDate(d: Date) {
    0 <= d.year <= 9999 && 1 <= d.month <= 12 && 1 <= d.day <= DaysInMonth(d.year, d.month)
  }

  type CalendarDate = d: Date | ValidDate(d) witness Date(2000, 1, 1)

  /** `n` written with exactly `width` digits, zero-padded on the left. */
  function Padded(n: nat, width: nat): (r: string)
    ensures |r| == width
    ensures forall i :: 0 <= i < |r| ==> IsDigit(r[i])
  {
    if width == 0 then "" else Padded(n / 10, width - 1) + [DigitChar(n % 10)]
  }

  function Pow10(k: nat): (r: nat)
    ensures r >= 1
  {
    if k == 0 then 1 else 10 * Pow10(k - 1)
  }

  lemma {:induction false} PaddedValue(n: nat, width: nat)
    requires n < Pow10(width)
    ensures DigitsValue(Padded(n, width)) == n
  {
    if width > 0 {
      var r := Padded(n, width);
      PaddedValue(n / 10, width - 1);
      assert r[..|r| - 1] == Padded(n / 10, width - 1);
    }
  }

  /** `DateTime::format('Y-m-d')`. */
  function FormatYmd(d: CalendarDate): (r: string)
    ensures |r| == 10
  {
    Padded(d.year, 4) + "-" + Padded(d.month, 2) + "-" + Padded(d.day, 2)
  }

  /** `validateDate`: the text parses as Y-m-d and formats back to itself.
      The parser (`DateTime::createFromFormat`) is a parameter: it yields a
      real calendar day or nothing, and rolls an impossible day over into the
      next month, which the comparison then rejects. */
  function ValidateDate(s: string, parse: string -> Option<CalendarDate>): bool {
    parse(s).Some? && FormatYmd(parse(s).value) == s
  }

  /** Whatever the parser does, an accepted date is ten characters, zero-padded
      YYYY-MM-DD, and names a real day. */
  lemma ValidateDateShape(s: string, parse: string -> Option<CalendarDate>)
    requires ValidateDate(s, parse)
    ensures |s| == 10 && s[4] == '-' && s[7] == '-'
    ensures forall i :: 0 <= i < 10 && i != 4 && i != 7 ==> IsDigit(s[i])
    ensures ValidDate(Date(DigitsValue(s[..4]), DigitsValue(s[5..7]), DigitsValue(s[8..])))
  {
    var d := parse(s).value;
    var y, m, dd := Padded(d.year, 4), Padded(d.month, 2), Padded(d.day, 2);
    assert s == y + "-" + m + "-" + dd;
    assert s[..4] == y && s[5..7] == m && s[8..] == dd;
    PaddedValue(d.year, 4);
    PaddedValue(d.month, 2);
    PaddedValue(d.day, 2);
    forall i | 0 <= i < 10 && i != 4 && i != 7 ensures IsDigit(s[i]) {
      if i < 4 {
        assert s[i] == y[i];
      } else if i < 7 {
        assert s[i] == m[i - 5];
      } else {
        assert s[i] == dd[i - 8];
      }
    }
  }

  /** `validateAllowedValue`: a strict `in_array` over an array of values. */
  function ValidateAllowedValue(value: Json, allowed: Json): (r: bool)
    ensures r <==> IsArray(allowed) && exists i :: 0 <= i < |ArrayValues(allowed)| && ArrayValues(allowed)[i] == value
  {
    IsArray(allowed) && value in ArrayValues(allowed)
  }

  /** The third argument of in_array makes the comparison `===`: no pair that
      PHP's loose `==` would equate across types is accepted, while the value
      itself always is. */
  lemma AllowedValueStrict(s: string, n: int, items: seq<Json>, k: nat)
    requires k < |items|
    ensures ValidateAllowedValue(items[k], JList(items))
    ensures !ValidateAllowedValue(JBool(true), JList([JStr(s)]))
    ensures !ValidateAllowedValue(JStr(IntToString(n)), JList([JInt(n)]))
    ensures !ValidateAllowedValue(JInt(n), JList([JStr(IntToString(n))]))
    ensures !ValidateAllowedValue(JBool(false), JList([JNull]))
    ensures !ValidateAllowedValue(JInt(0), JList([JBool(false)]))
    ensures !ValidateAllowedValue(items[k], JStr(s))
  {
  }

  // ---------------------------------------------------------------------------
  // The files column
  // ---------------------------------------------------------------------------

  /** What is stored for a file list: the JSON text of its values, in order. */
  function EncodeFiles(files: Json): string
    requires IsArray(files)
  {
    Encode(JList(ArrayValues(files)))
  }

  /** How a row's files are read back: a NULL or falsy text is [], anything
      else is decoded (null when it is not valid JSON). */
  function FilesOnRead(stored: Option<string>): (r: Json)
    ensures stored.None? || stored == Some("") || stored == Some("0") ==> r == JList([])
  {
    if stored.None? || Falsy(JStr(stored.value)) then JList([])
    else match Decode(stored.value)
      case None => JNull
      case Some(v) => v
  }

  /** A stored file list reads back as the list of its values. */
  lemma FilesRoundTrip(files: Json)
    requires IsArray(files)
    requires WellFormed(JList(ArrayValues(files))) && Depth(JList(ArrayValues(files))) <= MaxDepth
    ensures FilesOnRead(Some(EncodeFiles(files))) == JList(ArrayValues(files))
  {
    var t := EncodeFiles(files);
    assert t[0] == '[';
    DecodeEncode(JList(ArrayValues(files)));
  }

  function DueDateJson(d: Option<string>): Json {
    if d.None? then JNull else JStr(d.value)
  }

  /** A fetched row with its files column decoded. */
  function AssignmentJson(a: Assignment): Json {
    JObject([("id", JInt(a.id)), ("title", JStr(a.title)), ("description", JStr(a.description)),
             ("files", FilesOnRead(a.files)), ("due_date", DueDateJson(a.dueDate)),
             ("created_at", JInt(a.createdAt)), ("updated_at", JInt(a.updatedAt))])
  }

  /** The `foreach (&$r)` loop of the listings: every row's files decoded
      in place. */
  method DecodeFiles(rows: seq<Assignment>) returns (out: seq<Json>)
    ensures |out| == |rows|
    ensures forall i :: 0 <= i < |rows| ==> out[i] == AssignmentJson(rows[i])
  {
    out := [];
    var i := 0;
    while i < |rows|
      invariant 0 <= i <= |rows| && |out| == i
      invariant forall k :: 0 <= k < i ==> out[k] == AssignmentJson(rows[k])
    {
      out := out + [AssignmentJson(rows[i])];
      i := i + 1;
    }
  }

  function CommentJson(c: Comment): Json {
    JObject([("id", JInt(c.id)), ("assignment_id", JStr(c.assignmentId)), ("author", JStr(c.author)),
             ("text", JStr(c.text)), ("created_at", JInt(c.createdAt))])
  }

  function CommentsJson(cs: seq<Comment>): (r: Json)
    ensures r.JList? && |r.items| == |cs|
  {
    JList(seq(|cs|, i requires 0 <= i < |cs| => CommentJson(cs[i])))
  }

  // ---------------------------------------------------------------------------
  // Listing
  // ---------------------------------------------------------------------------

  /** The ORDER BY of getAllAssignments: the sort column must be title,
      due_date or created_at (default created_at); the lower-cased order must
      be asc or desc (default asc). */
  function ListOrdering(sort: Option<string>, order: Option<string>): (o: Ordering)
    ensures o.column in ["title", "due_date", "created_at"]
    ensures sort.Some? && sort.value in ["title", "due_date", "created_at"] ==> o.column == sort.value
    ensures (sort.None? || sort.value !in ["title", "due_date", "created_at"]) ==> o.column == "created_at"
    ensures o.dir == Desc <==> order.Some? && AsciiLower(order.value) == "desc"
  {
    var column := AllowOr(sort, ["title", "due_date", "created_at"], "created_at");
    var dir := AllowOr(if order.Some? then Some(AsciiLower(order.value)) else None, ["asc", "desc"], "asc");
    Ordering(column, if dir == "desc" then Desc else Asc)
  }

  /** A search term (trimmed) matches title or description; an empty term
      adds no WHERE clause. */
  predicate SearchMatches(term: string, a: Assignment) {
    term == "" || Contains(a.title, term) || Contains(a.description, term)
  }

  function SearchTerm(search: Option<string>): string {
    if search.Some? then PhpTrim(search.value) else ""
  }

  function Search(rows: seq<Assignment>, search: Option<string>): (r: seq<Assignment>)
    ensures forall a :: a in r <==> a in rows && SearchMatches(SearchTerm(search), a)
    ensures Subsequence(r, rows)
  {
    FilterKeepsOrder(rows, (a: Assignment) => SearchMatches(SearchTerm(search), a));
    Filter(rows, (a: Assignment) => SearchMatches(SearchTerm(search), a))
  }

  /** A blank search lists every assignment. */
  lemma SearchBlank(rows: seq<Assignment>, search: Option<string>)
    requires SearchTerm(search) == ""
    ensures Search(rows, search) == rows
  {
    FilterAll(rows, (a: Assignment) => SearchMatches(SearchTerm(search), a));
  }

  // ---------------------------------------------------------------------------
  // Table operations
  // ---------------------------------------------------------------------------

  predicate HasAssignment(rows: seq<Assignment>, key: string) {
    exists i :: 0 <= i < |rows| && IdIs(rows[i], key)
  }

  predicate HasComment(rows: seq<Comment>, key: string) {
    exists i :: 0 <= i < |rows| && IntToString(rows[i].id) == key
  }

  /** `SELECT … WHERE id = :id LIMIT 1`. */
  function FindAssignment(rows: seq<Assignment>, key: string): (r: Option<Assignment>)
    ensures r.Some? ==> r.value in rows && IdIs(r.value, key)
    ensures r.None? <==> !HasAssignment(rows, key)
  {
    if rows == [] then None
    else if IdIs(rows[0], key) then Some(rows[0])
    else
      var r := FindAssignment(rows[1..], key);
      assert HasAssignment(rows, key) ==> HasAssignment(rows[1..], key) by {
        if HasAssignment(rows, key) {
          var i :| 0 <= i < |rows| && IdIs(rows[i], key);
          assert rows[1..][i - 1] == rows[i];
        }
      }
      assert HasAssignment(rows[1..], key) ==> HasAssignment(rows, key) by {
        if HasAssignment(rows[1..], key) {
          var i :| 0 <= i < |rows[1..]| && IdIs(rows[1..][i], key);
          assert rows[i + 1] == rows[1..][i];
        }
      }
      r
  }

  /** The comments of one assignment, in table order. */
  function CommentsOf(cs: seq<Comment>, key: string): (r: seq<Comment>)
    ensures forall c :: c in r <==> c in cs && c.assignmentId == key
    ensures Subsequence(r, cs)
  {
    FilterKeepsOrder(cs, (c: Comment) => c.assignmentId == key);
    Filter(cs, (c: Comment) => c.assignmentId == key)
  }

  /** `DELETE FROM assignments WHERE id = :id`. */
  function WithoutAssignment(rows: seq<Assignment>, key: string): (r: seq<Assignment>)
    ensures forall a :: a in r <==> a in rows && !IdIs(a, key)
    ensures Subsequence(r, rows)
    ensures !HasAssignment(r, key)
  {
    FilterKeepsOrder(rows, (a: Assignment) => !IdIs(a, key));
    var r := Filter(rows, (a: Assignment) => !IdIs(a, key));
    assert forall i :: 0 <= i < |r| ==> r[i] in r;
    r
  }

  /** `DELETE FROM comments WHERE assignment_id = :id`. */
  function WithoutCommentsOf(cs: seq<Comment>, key: string): (r: seq<Comment>)
    ensures forall c :: c in r <==> c in cs && c.assignmentId != key
    ensures Subsequence(r, cs)
    ensures CommentsOf(r, key) == []
  {
    FilterKeepsOrder(cs, (c: Comment) => c.assignmentId != key);
    var r := Filter(cs, (c: Comment) => c.assignmentId != key);
    var left := CommentsOf(r, key);
    assert forall i :: 0 <= i < |left| ==> left[i] in left;
    r
  }

  /** `DELETE FROM comments WHERE id = :id`. */
  function WithoutComment(cs: seq<Comment>, key: string): (r: seq<Comment>)
    ensures forall c :: c in r <==> c in cs && IntToString(c.id) != key
    ensures Subsequence(r, cs)
    ensures !HasComment(r, key)
  {
    FilterKeepsOrder(cs, (c: Comment) => IntToString(c.id) != key);
    var r := Filter(cs, (c: Comment) => IntToString(c.id) != key);
    assert forall i :: 0 <= i < |r| ==> r[i] in r;
    r
  }

  /** The columns an UPDATE sets; `dueDate` is Some(None) to set NULL. */
  datatype Patch = Patch(title: Option<string>, description: Option<string>,
                         dueDate: Option<Option<string>>, files: Option<string>)

  predicate EmptyPatch(p: Patch) {
    p.title.None? && p.description.None? && p.dueDate.None? && p.files.None?
  }

  /** The patched columns replaced and updated_at refreshed. */
  function Apply(a: Assignment, p: Patch, now: int): (r: Assignment)
    ensures r.id == a.id && r.createdAt == a.createdAt && r.updatedAt == now
    ensures p.title.Some? ==> r.title == p.title.value
    ensures p.title.None? ==> r.title == a.title
    ensures p.description.Some? ==> r.description == p.description.value
    ensures p.description.None? ==> r.description == a.description
    ensures p.dueDate.Some? ==> r.dueDate == p.dueDate.value
    ensures p.dueDate.None? ==> r.dueDate == a.dueDate
    ensures p.files.Some? ==> r.files == Some(p.files.value)
    ensures p.files.None? ==> r.files == a.files
  {
    Assignment(a.id,
      if p.title.Some? then p.title.value else a.title,
      if p.description.Some? then p.description.value else a.description,
      if p.files.Some? then Some(p.files.value) else a.files,
      if p.dueDate.Some? then p.dueDate.value else a.dueDate,
      a.createdAt, now)
  }

  /** `UPDATE assignments SET … WHERE id = :id`: the matching rows patched,
      every other row as it was, in its place. */
  function Patched(rows: seq<Assignment>, key: string, p: Patch, now: int): (r: seq<Assignment>)
    ensures |r| == |rows|
    ensures forall i :: 0 <= i < |rows| ==> r[i].id == rows[i].id
    ensures forall i :: 0 <= i < |rows| && !IdIs(rows[i], key) ==> r[i] == rows[i]
  {
    seq(|rows|, i requires 0 <= i < |rows| => if IdIs(rows[i], key) then Apply(rows[i], p, now) else rows[i])
  }

  /** After an update, a lookup of the id finds the old row with the patch
      applied. */
  lemma {:induction false} FindPatched(rows: seq<Assignment>, key: string, p: Patch, now: int)
    requires HasAssignment(rows, key)
    ensures FindAssignment(Patched(rows, key, p, now), key) == Some(Apply(FindAssignment(rows, key).value, p, now))
  {
    var r := Patched(rows, key, p, now);
    if !IdIs(rows[0], key) {
      assert r[1..] == Patched(rows[1..], key, p, now);
      assert HasAssignment(rows[1..], key) by {
        var i :| 0 <= i < |rows| && IdIs(rows[i], key);
        assert rows[1..][i - 1] == rows[i];
      }
      FindPatched(rows[1..], key, p, now);
    }
  }

  // ---------------------------------------------------------------------------
  // Consistency of the two tables
  // ---------------------------------------------------------------------------

  predicate UniqueAssignmentIds(rows: seq<Assignment>) {
    forall i, j :: 0 <= i < j < |rows| ==> rows[i].id != rows[j].id
  }

  predicate UniqueCommentIds(cs: seq<Comment>) {
    forall i, j :: 0 <= i < j < |cs| ==> cs[i].id != cs[j].id
  }

  /** Ids are below their AUTO_INCREMENT counters and no two rows of a table
      share one, and every comment names an assignment that exists by the
      numeral of its id. */
  predicate Consistent(rows: seq<Assignment>, cs: seq<Comment>, nextAssignment: int, nextComment: int) {
    (forall i :: 0 <= i < |rows| ==> 0 < rows[i].id < nextAssignment)
    && (forall i :: 0 <= i < |cs| ==> 0 < cs[i].id < nextComment)
    && UniqueAssignmentIds(rows) && UniqueCommentIds(cs)
    && (forall i :: 0 <= i < |cs| ==> HasAssignment(rows, cs[i].assignmentId))
  }

  lemma SubsequenceUniqueAssignments(r: seq<Assignment>, s: seq<Assignment>)
    requires Subsequence(r, s) && UniqueAssignmentIds(s)
    ensures UniqueAssignmentIds(r)
  {
    forall i, j | 0 <= i < j < |r| ensures r[i].id != r[j].id {
      SubsequenceIndices(r, s, i, j);
    }
  }

  lemma SubsequenceUniqueComments(r: seq<Comment>, s: seq<Comment>)
    requires Subsequence(r, s) && UniqueCommentIds(s)
    ensures UniqueCommentIds(r)
  {
    forall i, j | 0 <= i < j < |r| ensures r[i].id != r[j].id {
      SubsequenceIndices(r, s, i, j);
    }
  }

  lemma InsertAssignmentConsistent(rows: seq<Assignment>, cs: seq<Comment>, na: int, nc: int, a: Assignment)
    requires Consistent(rows, cs, na, nc) && a.id == na && na > 0
    ensures Consistent(rows + [a], cs, na + 1, nc)
  {
    var rows' := rows + [a];
    forall i, j | 0 <= i < j < |rows'| ensures rows'[i].id != rows'[j].id {
      assert rows'[i] == rows[i];
    }
    forall i | 0 <= i < |cs| ensures HasAssignment(rows', cs[i].assignmentId) {
      var j :| 0 <= j < |rows| && IdIs(rows[j], cs[i].assignmentId);
      assert rows'[j] == rows[j];
    }
  }

  /** A comment is inserted only under an assignment that exists, so the
      references stay intact. */
  lemma InsertCommentConsistent(rows: seq<Assignment>, cs: seq<Comment>, na: int, nc: int, c: Comment)
    requires Consistent(rows, cs, na, nc) && c.id == nc && nc > 0 && HasAssignment(rows, c.assignmentId)
    ensures Consistent(rows, cs + [c], na, nc + 1)
  {
    var cs' := cs + [c];
    forall i, j | 0 <= i < j < |cs'| ensures cs'[i].id != cs'[j].id {
      assert cs'[i] == cs[i];
    }
  }

  lemma UpdateConsistent(rows: seq<Assignment>, cs: seq<Comment>, na: int, nc: int, key: string, p: Patch, now: int)
    requires Consistent(rows, cs, na, nc)
    ensures Consistent(Patched(rows, key, p, now), cs, na, nc)
  {
    var rows' := Patched(rows, key, p, now);
    forall i, j | 0 <= i < j < |rows'| ensures rows'[i].id != rows'[j].id {
      assert rows'[i].id == rows[i].id && rows'[j].id == rows[j].id;
    }
    forall i | 0 <= i < |cs| ensures HasAssignment(rows', cs[i].assignmentId) {
      var j :| 0 <= j < |rows| && IdIs(rows[j], cs[i].assignmentId);
      assert rows'[j].id == rows[j].id;
    }
  }

  /** The cascade delete leaves every remaining comment pointing at a
      remaining assignment. */
  lemma DeleteAssignmentConsistent(rows: seq<Assignment>, cs: seq<Comment>, na: int, nc: int, key: string)
    requires Consistent(rows, cs, na, nc)
    ensures Consistent(WithoutAssignment(rows, key), WithoutCommentsOf(cs, key), na, nc)
  {
    var rows', cs' := WithoutAssignment(rows, key), WithoutCommentsOf(cs, key);
    SubsequenceUniqueAssignments(rows', rows);
    SubsequenceUniqueComments(cs', cs);
    forall i | 0 <= i < |rows'| ensures 0 < rows'[i].id < na {
      assert rows'[i] in rows;
    }
    forall i | 0 <= i < |cs'| ensures 0 < cs'[i].id < nc && HasAssignment(rows', cs'[i].assignmentId) {
      MemberRefers(rows, cs, na, nc, cs'[i]);
      KeptAssignment(rows, key, cs'[i].assignmentId);
    }
  }

  lemma MemberRefers(rows: seq<Assignment>, cs: seq<Comment>, na: int, nc: int, c: Comment)
    requires Consistent(rows, cs, na, nc) && c in cs
    ensures 0 < c.id < nc && HasAssignment(rows, c.assignmentId)
  {
    var k :| 0 <= k < |cs| && cs[k] == c;
  }

  lemma KeptAssignment(rows: seq<Assignment>, key: string, other: string)
    requires HasAssignment(rows, other) && other != key
    ensures HasAssignment(WithoutAssignment(rows, key), other)
  {
    var j :| 0 <= j < |rows| && IdIs(rows[j], other);
    var rows' := WithoutAssignment(rows, key);
    assert rows[j] in rows';
    var j' :| 0 <= j' < |rows'| && rows'[j'] == rows[j];
  }

  lemma DeleteCommentConsistent(rows: seq<Assignment>, cs: seq<Comment>, na: int, nc: int, key: string)
    requires Consistent(rows, cs, na, nc)
    ensures Consistent(rows, WithoutComment(cs, key), na, nc)
  {
    var cs' := WithoutComment(cs, key);
    SubsequenceUniqueComments(cs', cs);
    forall i | 0 <= i < |cs'| ensures 0 < cs'[i].id < nc && HasAssignment(rows, cs'[i].assignmentId) {
      assert cs'[i] in cs;
    }
  }

  function CommentTime(c: Comment): int {
    c.createdAt
  }

  /** No comment was stamped later than `now`: a clock that does not run
      backwards. */
  predicate StampedBy(cs: seq<Comment>, now: int) {
    forall i :: 0 <= i < |cs| ==> cs[i].createdAt <= now
  }

  /** A comments table in created_at order lists each assignment's comments
      in created_at order, which is what `ORDER BY created_at ASC` asks for. */
  lemma CommentsListedInOrder(cs: seq<Comment>, key: string)
    requires SortedBy(cs, CommentTime)
    ensures SortedBy(CommentsOf(cs, key), CommentTime)
  {
    SubsequenceSorted(CommentsOf(cs, key), cs, CommentTime);
  }

  // ---------------------------------------------------------------------------
  // What each handler checks before it writes
  // ---------------------------------------------------------------------------

  /** The values createAssignment goes on with: the sanitized title and
      description, the file list and the due date as sent. */
  datatype Draft = Draft(title: Json, description: Json, files: Json, dueDate: Json)

  function FieldOr(data: Obj, k: string, d: Json): Json {
    if IsSet(data, k) then Coalesce(data, k, JNull) else d
  }

  /** A due date that is neither null nor '' must pass validateDate; one
      that is an array makes it fail with a TypeError. */
  function DueDateCheck(due: Json, parse: string -> Option<CalendarDate>, message: string): Option<Response> {
    if due == JNull || due == JStr("") then None
    else if IsArray(due) then Some(Fatal)
    else if !ValidateDate(PhpString(due), parse) then Some(Error(400, message))
    else None
  }

  /** createAssignment before the INSERT. */
  function CreateAssignmentCheck(data: Obj, parse: string -> Option<CalendarDate>): Check<Draft> {
    var title := if IsSet(data, "title") then Html.SanitizeValue(Coalesce(data, "title", JNull)) else JStr("");
    var description := if IsSet(data, "description") then Html.SanitizeValue(Coalesce(data, "description", JNull)) else JStr("");
    var due := FieldOr(data, "due_date", JNull);
    var files := if IsSet(data, "files") && IsArray(Coalesce(data, "files", JNull)) then Coalesce(data, "files", JNull) else JList([]);
    if title == JStr("") then Refuse(Error(400, "Title is required"))
    else if description == JStr("") then Refuse(Error(400, "Description is required"))
    else if DueDateCheck(due, parse, "due_date must be YYYY-MM-DD").Some? then
      Refuse(DueDateCheck(due, parse, "due_date must be YYYY-MM-DD").value)
    else Proceed(Draft(title, description, files, due))
  }

  /** The sanitized text of a request field is empty: it was not sent, or it
      is a string that trims and strips down to nothing. */
  predicate Blank(data: Obj, k: string) {
    !IsSet(data, k) || (Coalesce(data, k, JNull).JStr? && Html.Sanitize(Coalesce(data, k, JNull).s) == "")
  }

  /** The refusals of createAssignment, in the order it checks them. */
  lemma CreateAssignmentRefusals(data: Obj, parse: string -> Option<CalendarDate>)
    ensures Blank(data, "title") ==> CreateAssignmentCheck(data, parse) == Refuse(Error(400, "Title is required"))
    ensures !Blank(data, "title") && Blank(data, "description") ==>
      CreateAssignmentCheck(data, parse) == Refuse(Error(400, "Description is required"))
    ensures var due := FieldOr(data, "due_date", JNull);
      !Blank(data, "title") && !Blank(data, "description") && IsSet(data, "due_date") && due.JStr? && due.s != ""
      && !ValidateDate(due.s, parse) ==>
      CreateAssignmentCheck(data, parse) == Refuse(Error(400, "due_date must be YYYY-MM-DD"))
    ensures var due := FieldOr(data, "due_date", JNull);
      !Blank(data, "title") && !Blank(data, "description") && IsSet(data, "due_date") && IsArray(due) ==>
      CreateAssignmentCheck(data, parse) == Refuse(Fatal)
  {
    var title := if IsSet(data, "title") then Html.SanitizeValue(Coalesce(data, "title", JNull)) else JStr("");
    var description := if IsSet(data, "description") then Html.SanitizeValue(Coalesce(data, "description", JNull)) else JStr("");
    assert Blank(data, "title") <==> title == JStr("");
    assert Blank(data, "description") <==> description == JStr("");
    DueDateRefusal(FieldOr(data, "due_date", JNull), parse, "due_date must be YYYY-MM-DD");
  }

  /** A due date that is a non-empty string and not a real day is refused
      with the message given; an array one is a TypeError. */
  lemma DueDateRefusal(due: Json, parse: string -> Option<CalendarDate>, message: string)
    ensures due.JStr? && due.s != "" && !ValidateDate(due.s, parse) ==>
      DueDateCheck(due, parse, message) == Some(Error(400, message))
    ensures IsArray(due) ==> DueDateCheck(due, parse, message) == Some(Fatal)
    ensures due == JNull || due == JStr("") ==> DueDateCheck(due, parse, message).None?
  {
  }

  /** A created assignment has a non-empty title and description, a file list
      that is an array, and a due date that is absent, '' or a real day. */
  lemma CreateAssignmentProceeds(data: Obj, parse: string -> Option<CalendarDate>)
    ensures var c := CreateAssignmentCheck(data, parse);
      c.Proceed? ==>
        c.value.title != JStr("") && c.value.description != JStr("")
        && (c.value.title.JStr? ==> Html.Escaped(c.value.title.s))
        && (c.value.description.JStr? ==> Html.Escaped(c.value.description.s))
        && IsArray(c.value.files)
        && (IsSet(data, "files") && IsArray(Coalesce(data, "files", JNull)) ==> c.value.files == Coalesce(data, "files", JNull))
        && (!IsSet(data, "files") ==> c.value.files == JList([]))
        && (c.value.dueDate == JNull || c.value.dueDate == JStr("") || ValidateDate(PhpString(c.value.dueDate), parse))
  {
  }

  /** The row createAssignment inserts: the due date is NULL when it is falsy,
      and the files are stored as the JSON text of their values. */
  function NewAssignment(d: Draft, id: int, now: int): Assignment
    requires IsArray(d.files)
  {
    Assignment(id, PhpString(d.title), PhpString(d.description), Some(EncodeFiles(d.files)),
               if Falsy(d.dueDate) then None else Some(PhpString(d.dueDate)), now, now)
  }

  function CreatedAssignment(d: Draft, id: int): Response {
    Response(201, JObject([("message", JStr("Assignment created")),
      ("assignment", JObject([("id", JInt(id)), ("title", d.title), ("description", d.description),
                              ("files", d.files), ("due_date", d.dueDate)]))]))
  }

  /** The key updateAssignment looks up and the columns it sets. */
  datatype Change = Change(key: string, patch: Patch)

  /** updateAssignment before the UPDATE. */
  function UpdateAssignmentCheck(data: Obj, parse: string -> Option<CalendarDate>, rows: seq<Assignment>): Check<Change> {
    if !IsSet(data, "id") then Refuse(Error(400, "id is required for update"))
    else
      var key := Key(Coalesce(data, "id", JNull));
      if !HasAssignment(rows, key) then Refuse(Error(404, "Assignment not found"))
      else
        var due := FieldOr(data, "due_date", JNull);
        if DueDateCheck(due, parse, "Invalid due_date format (YYYY-MM-DD)").Some? then
          Refuse(DueDateCheck(due, parse, "Invalid due_date format (YYYY-MM-DD)").value)
        else
          var files := Coalesce(data, "files", JNull);
          var p := Patch(
            if IsSet(data, "title") then Some(Html.SanitizedString(Coalesce(data, "title", JNull))) else None,
            if IsSet(data, "description") then Some(Html.SanitizedString(Coalesce(data, "description", JNull))) else None,
            if IsSet(data, "due_date") then Some(if due == JStr("") then None else Some(PhpString(due))) else None,
            if IsSet(data, "files") && IsArray(files) then Some(EncodeFiles(files)) else None);
          if EmptyPatch(p) then Refuse(Error(400, "No fields to update"))
          else Proceed(Change(key, p))
  }

  /** The refusals of updateAssignment, in the order it checks them. */
  lemma UpdateAssignmentRefusals(data: Obj, parse: string -> Option<CalendarDate>, rows: seq<Assignment>)
    ensures !IsSet(data, "id") ==> UpdateAssignmentCheck(data, parse, rows) == Refuse(Error(400, "id is required for update"))
    ensures IsSet(data, "id") && !HasAssignment(rows, Key(Coalesce(data, "id", JNull))) ==>
      UpdateAssignmentCheck(data, parse, rows) == Refuse(Error(404, "Assignment not found"))
    ensures IsSet(data, "id") && HasAssignment(rows, Key(Coalesce(data, "id", JNull)))
            && !IsSet(data, "title") && !IsSet(data, "description") && !IsSet(data, "due_date")
            && !(IsSet(data, "files") && IsArray(Coalesce(data, "files", JNull))) ==>
      UpdateAssignmentCheck(data, parse, rows) == Refuse(Error(400, "No fields to update"))
    ensures var due := Coalesce(data, "due_date", JNull);
      IsSet(data, "id") && HasAssignment(rows, Key(Coalesce(data, "id", JNull)))
      && IsSet(data, "due_date") && due.JStr? && due.s != "" && !ValidateDate(due.s, parse) ==>
      UpdateAssignmentCheck(data, parse, rows) == Refuse(Error(400, "Invalid due_date format (YYYY-MM-DD)"))
    ensures IsSet(data, "id") && HasAssignment(rows, Key(Coalesce(data, "id", JNull)))
            && IsSet(data, "due_date") && IsArray(Coalesce(data, "due_date", JNull)) ==>
      UpdateAssignmentCheck(data, parse, rows) == Refuse(Fatal)
  {
    var due := FieldOr(data, "due_date", JNull);
    DueDateRefusal(due, parse, "Invalid due_date format (YYYY-MM-DD)");
    if IsSet(data, "id") && HasAssignment(rows, Key(Coalesce(data, "id", JNull))) {
      if IsSet(data, "due_date") {
        assert due == Coalesce(data, "due_date", JNull);
      }
    }
  }

  /** An update that goes ahead targets an existing row and sets exactly the
      columns the request supplies; a due date of '' is set to NULL. */
  lemma UpdateAssignmentProceeds(data: Obj, parse: string -> Option<CalendarDate>, rows: seq<Assignment>)
    ensures var c := UpdateAssignmentCheck(data, parse, rows);
      c.Proceed? ==>
        c.value.key == Key(Coalesce(data, "id", JNull)) && HasAssignment(rows, c.value.key)
        && !EmptyPatch(c.value.patch)
        && (c.value.patch.title.Some? <==> IsSet(data, "title"))
        && (c.value.patch.description.Some? <==> IsSet(data, "description"))
        && (c.value.patch.dueDate.Some? <==> IsSet(data, "due_date"))
        && (c.value.patch.files.Some? <==> IsSet(data, "files") && IsArray(Coalesce(data, "files", JNull)))
        && (Get(data, "due_date") == Some(JStr("")) ==> c.value.patch.dueDate == Some(None))
        && (c.value.patch.dueDate.Some? && c.value.patch.dueDate.value.Some? ==>
              ValidateDate(c.value.patch.dueDate.value.value, parse))
  {
  }

  /** The values createComment goes on with, as the request sent them after
      sanitizing; the author defaults to "Student". */
  datatype CommentDraft = CommentDraft(assignmentId: Json, author: Json, text: Json)

  /** The comment text createComment goes on with: sanitized when it is
      set, '' otherwise. */
  function CommentText(data: Obj): (r: Json)
    ensures !IsSet(data, "text") ==> r == JStr("")
    ensures IsSet(data, "text") && Coalesce(data, "text", JNull).JStr? ==>
      r == JStr(Html.Sanitize(Coalesce(data, "text", JNull).s)) && PhpString(r) == r.s
    ensures IsArray(r) <==> IsSet(data, "text") && IsArray(Coalesce(data, "text", JNull))
  {
    if IsSet(data, "text") then Html.SanitizeValue(Coalesce(data, "text", JNull)) else JStr("")
  }

  /** createComment before the INSERT. */
  function CreateCommentCheck(data: Obj, rows: seq<Assignment>): Check<CommentDraft> {
    var aid := FieldOr(data, "assignment_id", JNull);
    var author := if IsSet(data, "author") then Html.SanitizeValue(Coalesce(data, "author", JNull)) else JStr("Student");
    var text := CommentText(data);
    if Falsy(aid) then Refuse(Error(400, "assignment_id is required"))
    else if IsArray(text) then Refuse(Fatal)
    else if PhpTrim(PhpString(text)) == "" then Refuse(Error(400, "text is required"))
    else if !HasAssignment(rows, Key(aid)) then Refuse(Error(404, "Assignment not found"))
    else Proceed(CommentDraft(aid, author, text))
  }

  /** The refusals of createComment, in the order it checks them. */
  lemma CreateCommentRefusals(data: Obj, rows: seq<Assignment>)
    ensures Falsy(FieldOr(data, "assignment_id", JNull)) ==>
      CreateCommentCheck(data, rows) == Refuse(Error(400, "assignment_id is required"))
    ensures !Falsy(FieldOr(data, "assignment_id", JNull)) && !IsSet(data, "text") ==>
      CreateCommentCheck(data, rows) == Refuse(Error(400, "text is required"))
    ensures !Falsy(FieldOr(data, "assignment_id", JNull)) && IsSet(data, "text")
            && Coalesce(data, "text", JNull).JStr? && Html.Sanitize(Coalesce(data, "text", JNull).s) == "" ==>
      CreateCommentCheck(data, rows) == Refuse(Error(400, "text is required"))
    ensures !Falsy(FieldOr(data, "assignment_id", JNull)) && IsSet(data, "text")
            && Coalesce(data, "text", JNull).JStr? && PhpTrim(Html.Sanitize(Coalesce(data, "text", JNull).s)) != ""
            && !HasAssignment(rows, Key(FieldOr(data, "assignment_id", JNull))) ==>
      CreateCommentCheck(data, rows) == Refuse(Error(404, "Assignment not found"))
    ensures !Falsy(FieldOr(data, "assignment_id", JNull)) && IsSet(data, "text") && IsArray(Coalesce(data, "text", JNull)) ==>
      CreateCommentCheck(data, rows) == Refuse(Fatal)
    ensures !Falsy(FieldOr(data, "assignment_id", JNull)) && !IsArray(CommentText(data))
            && PhpTrim(PhpString(CommentText(data))) == "" ==>
      CreateCommentCheck(data, rows) == Refuse(Error(400, "text is required"))
    ensures !Falsy(FieldOr(data, "assignment_id", JNull)) && IsSet(data, "text")
            && Coalesce(data, "text", JNull).JStr? && PhpTrim(Html.Sanitize(Coalesce(data, "text", JNull).s)) == "" ==>
      CreateCommentCheck(data, rows) == Refuse(Error(400, "text is required"))
    ensures !Falsy(FieldOr(data, "assignment_id", JNull)) && IsSet(data, "text") && Coalesce(data, "text", JNull) == JBool(false) ==>
      CreateCommentCheck(data, rows) == Refuse(Error(400, "text is required"))
    ensures !Falsy(FieldOr(data, "assignment_id", JNull)) && !IsArray(CommentText(data))
            && PhpTrim(PhpString(CommentText(data))) != ""
            && !HasAssignment(rows, Key(FieldOr(data, "assignment_id", JNull))) ==>
      CreateCommentCheck(data, rows) == Refuse(Error(404, "Assignment not found"))
  {
    var aid := FieldOr(data, "assignment_id", JNull);
    var text := CommentText(data);
    if Falsy(aid) {
    } else if !IsSet(data, "text") {
      assert PhpTrim(PhpString(text)) == "";
      assert CreateCommentCheck(data, rows) == Refuse(Error(400, "text is required"));
    } else if Coalesce(data, "text", JNull).JStr? {
      var s := Html.Sanitize(Coalesce(data, "text", JNull).s);
      assert PhpString(text) == s;
      if s == "" {
        assert PhpTrim(PhpString(text)) == "";
        assert CreateCommentCheck(data, rows) == Refuse(Error(400, "text is required"));
      } else if PhpTrim(s) == "" {
        assert CreateCommentCheck(data, rows) == Refuse(Error(400, "text is required"));
      } else if !HasAssignment(rows, Key(aid)) {
        assert CreateCommentCheck(data, rows) == Refuse(Error(404, "Assignment not found"));
      }
    } else if IsArray(text) {
      assert CreateCommentCheck(data, rows) == Refuse(Fatal);
    } else {
      assert text == Html.SanitizeValue(Coalesce(data, "text", JNull)) == Coalesce(data, "text", JNull);
      if text == JBool(false) {
        assert PhpString(text) == "" && PhpTrim("") == "";
      }
    }
  }

  /** A comment that goes ahead names an existing assignment and has
      non-blank text; without an author it is signed "Student". */
  /** The row createComment inserts, stamped with the current time, keeps
      the tables consistent and in created_at order. */
  lemma CreateCommentKeepsTables(data: Obj, rows: seq<Assignment>, cs: seq<Comment>, na: int, nc: int, now: int)
    requires Consistent(rows, cs, na, nc) && SortedBy(cs, CommentTime) && StampedBy(cs, now) && nc > 0
    requires CreateCommentCheck(data, rows).Proceed?
    ensures var d := CreateCommentCheck(data, rows).value;
      var c := Comment(nc, Key(d.assignmentId), PhpString(d.author), PhpString(d.text), now);
      Consistent(rows, cs + [c], na, nc + 1) && SortedBy(cs + [c], CommentTime)
  {
    var d := CreateCommentCheck(data, rows).value;
    var c := Comment(nc, Key(d.assignmentId), PhpString(d.author), PhpString(d.text), now);
    CreateCommentProceeds(data, rows);
    InsertCommentConsistent(rows, cs, na, nc, c);
    AppendSorted(cs, CommentTime, c);
  }

  lemma CreateCommentProceeds(data: Obj, rows: seq<Assignment>)
    ensures var c := CreateCommentCheck(data, rows);
      c.Proceed? ==>
        c.value.assignmentId == Coalesce(data, "assignment_id", JNull) && !Falsy(c.value.assignmentId)
        && HasAssignment(rows, Key(c.value.assignmentId))
        && !IsArray(c.value.text) && PhpTrim(PhpString(c.value.text)) != ""
        && (!IsSet(data, "author") ==> c.value.author == JStr("Student"))
  {
    var aid := FieldOr(data, "assignment_id", JNull);
    var author := if IsSet(data, "author") then Html.SanitizeValue(Coalesce(data, "author", JNull)) else JStr("Student");
    var text := CommentText(data);
    if !Falsy(aid) && !IsArray(text) && PhpTrim(PhpString(text)) != "" && HasAssignment(rows, Key(aid)) {
      assert CreateCommentCheck(data, rows) == Proceed(CommentDraft(aid, author, text));
    }
  }

  function CreatedComment(d: CommentDraft, id: int): Response {
    Response(201, JObject([("message", JStr("Comment created")),
      ("comment", JObject([("id", JInt(id)), ("assignment_id", d.assignmentId), ("author", d.author), ("text", d.text)]))]))
  }

  // ---------------------------------------------------------------------------
  // The service
  // ---------------------------------------------------------------------------

  /** Each write takes `fault`: None when the statement succeeds, or the
      message of the PDOException it throws. */
  class AssignmentDb {
    var assignments: seq<Assignment>
    var comments: seq<Comment>
    var nextAssignmentId: int
    var nextCommentId: int

    predicate Valid()
      reads this
    {
      nextAssignmentId > 0 && nextCommentId > 0
      && Consistent(assignments, comments, nextAssignmentId, nextCommentId)
      && SortedBy(comments, CommentTime)
    }

    constructor()
      ensures assignments == [] && comments == [] && Valid()
    {
      assignments, comments := [], [];
      nextAssignmentId, nextCommentId := 1, 1;
    }

    /** getAllAssignments: the matching rows with their files decoded, and
        the order to list them in. */
    method ListAssignments(search: Option<string>, sort: Option<string>, order: Option<string>)
      returns (rows: seq<Json>, ordering: Ordering)
      ensures |rows| == |Search(assignments, search)|
      ensures forall i :: 0 <= i < |rows| ==> rows[i] == AssignmentJson(Search(assignments, search)[i])
      ensures ordering == ListOrdering(sort, order)
    {
      rows := DecodeFiles(Search(assignments, search));
      ordering := ListOrdering(sort, order);
    }

    /** getAssignmentById. */
    method GetAssignment(idArg: Json) returns (r: Response)
      ensures Falsy(idArg) ==> r == Error(400, "Missing assignment id")
      ensures !Falsy(idArg) ==>
        var found := FindAssignment(assignments, Key(idArg));
        (found.None? ==> r == Error(404, "Assignment not found"))
        && (found.Some? ==> r == Response(200, AssignmentJson(found.value)))
    {
      if Falsy(idArg) {
        return Error(400, "Missing assignment id");
      }
      var found := FindAssignment(assignments, Key(idArg));
      if found.None? {
        return Error(404, "Assignment not found");
      }
      r := Response(200, AssignmentJson(found.value));
    }

    /** createAssignment: nothing is inserted unless every check passes and
        the INSERT succeeds. */
    method CreateAssignment(data: Obj, parse: string -> Option<CalendarDate>, now: int, fault: Option<string>)
      returns (r: Response)
      modifies this
      ensures old(Valid()) ==> Valid()
      ensures var c := CreateAssignmentCheck(data, parse);
        (c.Refuse? ==> r == c.response && unchanged(this))
        && (c.Proceed? && fault.Some? ==> r == DbError("Failed to create assignment", fault.value) && unchanged(this))
        && (c.Proceed? && fault.None? ==>
              IsArray(c.value.files)
              && assignments == old(assignments) + [NewAssignment(c.value, old(nextAssignmentId), now)]
              && comments == old(comments)
              && nextAssignmentId == old(nextAssignmentId) + 1 && nextCommentId == old(nextCommentId)
              && r == CreatedAssignment(c.value, old(nextAssignmentId)))
    {
      var c := CreateAssignmentCheck(data, parse);
      if c.Refuse? {
        return c.response;
      }
      CreateAssignmentProceeds(data, parse);
      if fault.Some? {
        return DbError("Failed to create assignment", fault.value);
      }
      var row := NewAssignment(c.value, nextAssignmentId, now);
      if Valid() {
        InsertAssignmentConsistent(assignments, comments, nextAssignmentId, nextCommentId, row);
      }
      assignments := assignments + [row];
      nextAssignmentId := nextAssignmentId + 1;
      r := CreatedAssignment(c.value, row.id);
    }

    /** updateAssignment: only the supplied columns change, and updated_at. */
    method UpdateAssignment(data: Obj, parse: string -> Option<CalendarDate>, now: int, fault: Option<string>)
      returns (r: Response)
      modifies this
      ensures old(Valid()) ==> Valid()
      ensures var c := UpdateAssignmentCheck(data, parse, old(assignments));
        (c.Refuse? ==> r == c.response && unchanged(this))
        && (c.Proceed? && fault.Some? ==> r == DbError("Failed to update assignment", fault.value) && unchanged(this))
        && (c.Proceed? && fault.None? ==>
              assignments == Patched(old(assignments), c.value.key, c.value.patch, now)
              && comments == old(comments)
              && nextAssignmentId == old(nextAssignmentId) && nextCommentId == old(nextCommentId)
              && r == Message(200, "Assignment updated"))
    {
      var c := UpdateAssignmentCheck(data, parse, assignments);
      if c.Refuse? {
        return c.response;
      }
      if fault.Some? {
        return DbError("Failed to update assignment", fault.value);
      }
      if Valid() {
        UpdateConsistent(assignments, comments, nextAssignmentId, nextCommentId, c.value.key, c.value.patch, now);
      }
      assignments := Patched(assignments, c.value.key, c.value.patch, now);
      r := Message(200, "Assignment updated");
    }

    /** deleteAssignment: the assignment and its comments go in one
        transaction; a failure rolls both back. */
    method DeleteAssignment(idArg: Json, fault: Option<string>) returns (r: Response)
      modifies this
      ensures old(Valid()) ==> Valid()
      ensures Falsy(idArg) ==> r == Error(400, "assignment id required") && unchanged(this)
      ensures !Falsy(idArg) ==>
        var key := Key(idArg);
        (!HasAssignment(old(assignments), key) ==> r == Error(404, "Assignment not found") && unchanged(this))
        && (HasAssignment(old(assignments), key) && fault.Some? ==>
              r == DbError("Failed to delete assignment", fault.value) && unchanged(this))
        && (HasAssignment(old(assignments), key) && fault.None? ==>
              assignments == WithoutAssignment(old(assignments), key)
              && comments == WithoutCommentsOf(old(comments), key)
              && nextAssignmentId == old(nextAssignmentId) && nextCommentId == old(nextCommentId)
              && r == Message(200, "Assignment and related comments deleted"))
    {
      if Falsy(idArg) {
        return Error(400, "assignment id required");
      }
      var key := Key(idArg);
      if !HasAssignment(assignments, key) {
        return Error(404, "Assignment not found");
      }
      // Both DELETEs take effect at the commit; a failure rolls both back.
      var remainingComments := WithoutCommentsOf(comments, key);
      var remainingAssignments := WithoutAssignment(assignments, key);
      if fault.Some? {
        return DbError("Failed to delete assignment", fault.value);
      }
      if Valid() {
        DeleteAssignmentConsistent(assignments, comments, nextAssignmentId, nextCommentId, key);
        SubsequenceSorted(remainingComments, comments, CommentTime);
      }
      comments := remainingComments;
      assignments := remainingAssignments;
      r := Message(200, "Assignment and related comments deleted");
    }

    /** getCommentsByAssignment: the assignment's comments, oldest first. */
    method GetComments(idArg: Json) returns (r: Response)
      ensures Falsy(idArg) ==> r == Error(400, "assignment_id is required")
      ensures !Falsy(idArg) ==> r == Response(200, CommentsJson(CommentsOf(comments, Key(idArg))))
      ensures !Falsy(idArg) && Valid() ==> SortedBy(CommentsOf(comments, Key(idArg)), CommentTime)
    {
      if Falsy(idArg) {
        return Error(400, "assignment_id is required");
      }
      var listed := CommentsOf(comments, Key(idArg));
      if Valid() {
        CommentsListedInOrder(comments, Key(idArg));
      }
      r := Response(200, CommentsJson(listed));
    }

    /** createComment: the comment is inserted only under an assignment that
        exists, stamped with a clock that does not run backwards. */
    method CreateComment(data: Obj, now: int, fault: Option<string>) returns (r: Response)
      requires StampedBy(comments, now)
      modifies this
      ensures old(Valid()) ==> Valid()
      ensures var c := CreateCommentCheck(data, old(assignments));
        (c.Refuse? ==> r == c.response && unchanged(this))
        && (c.Proceed? && fault.Some? ==> r == DbError("Failed to create comment", fault.value) && unchanged(this))
        && (c.Proceed? && fault.None? ==>
              var row := Comment(old(nextCommentId), Key(c.value.assignmentId), PhpString(c.value.author),
                                 PhpString(c.value.text), now);
              comments == old(comments) + [row] && assignments == old(assignments)
              && nextCommentId == old(nextCommentId) + 1 && nextAssignmentId == old(nextAssignmentId)
              && r == CreatedComment(c.value, row.id))
    {
      var c := CreateCommentCheck(data, assignments);
      if c.Refuse? {
        return c.response;
      }
      if fault.Some? {
        return DbError("Failed to create comment", fault.value);
      }
      var row := Comment(nextCommentId, Key(c.value.assignmentId), PhpString(c.value.author), PhpString(c.value.text), now);
      if Valid() {
        CreateCommentKeepsTables(data, assignments, comments, nextAssignmentId, nextCommentId, now);
      }
      comments := comments + [row];
      nextCommentId := nextCommentId + 1;
      r := CreatedComment(c.value, row.id);
    }

    /** deleteComment. */
    method DeleteComment(idArg: Json, fault: Option<string>) returns (r: Response)
      modifies this
      ensures old(Valid()) ==> Valid()
      ensures Falsy(idArg) ==> r == Error(400, "comment id required") && unchanged(this)
      ensures !Falsy(idArg) ==>
        var key := Key(idArg);
        (!HasComment(old(comments), key) ==> r == Error(404, "Comment not found") && unchanged(this))
        && (HasComment(old(comments), key) && fault.Some? ==>
              r == DbError("Failed to delete comment", fault.value) && unchanged(this))
        && (HasComment(old(comments), key) && fault.None? ==>
              comments == WithoutComment(old(comments), key) && assignments == old(assignments)
              && nextAssignmentId == old(nextAssignmentId) && nextCommentId == old(nextCommentId)
              && r == Message(200, "Comment deleted"))
    {
      if Falsy(idArg) {
        return Error(400, "comment id required");
      }
      var key := Key(idArg);
      if !HasComment(comments, key) {
        return Error(404, "Comment not found");
      }
      if fault.Some? {
        return DbError("Failed to delete comment", fault.value);
      }
      var remaining := WithoutComment(comments, key);
      if Valid() {
        DeleteCommentConsistent(assignments, comments, nextAssignmentId, nextCommentId, key);
        SubsequenceSorted(remaining, comments, CommentTime);
      }
      comments := remaining;
      r := Message(200, "Comment deleted");
    }
  }
}
