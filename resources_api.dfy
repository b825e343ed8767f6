/** The course-resources service: a `resources` table and a `comments` table
    whose rows point at a resource by `resource_id`. Each handler validates
    the request, checks that the rows it needs exist, and then performs one
    write (or, for a delete, one transaction of two writes). */
module ResourcesApi {
  import opened Common
  import opened Sql
  import Html

  datatype Resource = Resource(id: int, title: string, description: string, link: string, createdAt: int)

  datatype Comment = Comment(id: int, resourceId: int, author: string, text: string, createdAt: int)

  function Fail(status: int, message: string): Response {
    Response(status, JObject([("success", JBool(false)), ("message", JStr(message))]))
  }

  function Done(status: int, message: string): Response {
    Response(status, JObject([("success", JBool(true)), ("message", JStr(message))]))
  }

  function Created(message: string, id: int): Response {
    Response(201, JObject([("success", JBool(true)), ("message", JStr(message)), ("id", JInt(id))]))
  }

  function Data(v: Json): Response {
    Response(200, JObject([("success", JBool(true)), ("data", v)]))
  }

  /** trim() given an array: a TypeError that no handler catches. */
  const Fatal: Response := Response(500, JNull)

  function ResourceJson(r: Resource): Json {
    JObject([("id", JInt(r.id)), ("title", JStr(r.title)), ("description", JStr(r.description)),
             ("link", JStr(r.link)), ("created_at", JInt(r.createdAt))])
  }

  function CommentJson(c: Comment): Json {
    JObject([("id", JInt(c.id)), ("resource_id", JInt(c.resourceId)), ("author", JStr(c.author)),
             ("text", JStr(c.text)), ("created_at", JInt(c.createdAt))])
  }

  function CommentsJson(cs: seq<Comment>): (r: Json)
    ensures r.JList? && |r.items| == |cs|
  {
    JList(seq(|cs|, i requires 0 <= i < |cs| => CommentJson(cs[i])))
  }

  // ---------------------------------------------------------------------------
  // Request fields
  // ---------------------------------------------------------------------------

  /** `sanitizeInput`: null becomes "", anything else is converted to a string
      and then trimmed, stripped of tags and HTML-escaped. */
  function SanitizeInput(v: Json): (r: string)
    ensures v == JNull ==> r == ""
    ensures v.JStr? ==> r == Html.Sanitize(v.s)
    ensures Html.Escaped(r)
  {
    if v == JNull then "" else Html.Sanitize(PhpString(v))
  }

  /** A required field fails when it is not set or is the empty string. */
  predicate Missing(data: Obj, field: string) {
    !IsSet(data, field) || Get(data, field) == Some(JStr(""))
  }

  /** The fields validateRequiredFields reports. */
  function MissingFields(data: Obj, fields: seq<string>): seq<string> {
    if fields == [] then []
    else (if Missing(data, fields[0]) then [fields[0]] else []) + MissingFields(data, fields[1..])
  }

  /** The report names exactly the required fields that are missing, in the
      order they were required. */
  lemma MissingFieldsMeaning(data: Obj, fields: seq<string>)
    ensures forall f :: f in MissingFields(data, fields) <==> f in fields && Missing(data, f)
    ensures Subsequence(MissingFields(data, fields), fields)
  {
    MissingFieldsFilter(data, fields);
    FilterKeepsOrder(fields, (f: string) => Missing(data, f));
  }

  /** When nothing is reported, every required field is present. */
  lemma {:induction false} NoneMissing(data: Obj, fields: seq<string>, f: string)
    requires MissingFields(data, fields) == [] && f in fields
    ensures !Missing(data, f)
  {
    if fields[0] != f {
      NoneMissing(data, fields[1..], f);
    }
  }

  lemma {:induction false} MissingFieldsFilter(data: Obj, fields: seq<string>)
    ensures MissingFields(data, fields) == Filter(fields, (f: string) => Missing(data, f))
  {
    if fields != [] {
      MissingFieldsFilter(data, fields[1..]);
    }
  }

  /** `validateRequiredFields`: the loop that collects the missing fields. */
  method ValidateRequiredFields(data: Obj, fields: seq<string>) returns (valid: bool, missing: seq<string>)
    ensures missing == MissingFields(data, fields)
    ensures valid <==> forall f :: f in fields ==> !Missing(data, f)
  {
    missing := [];
    var i := 0;
    while i < |fields|
      invariant 0 <= i <= |fields|
      invariant missing + MissingFields(data, fields[i..]) == MissingFields(data, fields)
    {
      var rest := fields[i..];
      assert rest[0] == fields[i] && rest[1..] == fields[i + 1..];
      var tail := MissingFields(data, fields[i + 1..]);
      if Missing(data, fields[i]) {
        assert missing + ([fields[i]] + tail) == (missing + [fields[i]]) + tail;
        missing := missing + [fields[i]];
      } else {
        assert [] + tail == tail;
      }
      i := i + 1;
    }
    assert fields[i..] == [];
    valid := |missing| == 0;
    if valid {
      forall f | f in fields ensures !Missing(data, f) {
        NoneMissing(data, fields, f);
      }
    } else {
      MissingFieldsMeaning(data, fields);
      assert missing[0] in missing;
    }
  }

  function MissingReply(missing: seq<string>): Response {
    Response(400, JObject([("success", JBool(false)), ("message", JStr("Missing required fields.")),
                           ("missing", JList(seq(|missing|, i requires 0 <= i < |missing| => JStr(missing[i]))))]))
  }

  /** The value of a field that is known to be set. */
  function Field(data: Obj, k: string): Json {
    Coalesce(data, k, JNull)
  }

  // ---------------------------------------------------------------------------
  // Listing
  // ---------------------------------------------------------------------------

  /** The ORDER BY of getAllResources: the sort column is trimmed and
      lower-cased and must be title or created_at; any order but "asc" is
      descending. */
  function ListOrdering(sort: Option<string>, order: Option<string>): (o: Ordering)
    ensures o.column in ["title", "created_at"]
    ensures o.dir == Asc <==> order.Some? && AsciiLower(PhpTrim(order.value)) == "asc"
  {
    var column := AllowOr(if sort.Some? then Some(AsciiLower(PhpTrim(sort.value))) else None,
                          ["title", "created_at"], "created_at");
    var dir := if order.Some? && AsciiLower(PhpTrim(order.value)) == "asc" then Asc else Desc;
    Ordering(column, dir)
  }

  /** The sort column is kept exactly when it is one of the allowed ones and
      falls back to created_at otherwise. */
  lemma ListOrderingFallback(sort: Option<string>, order: Option<string>)
    ensures var s := if sort.Some? then AsciiLower(PhpTrim(sort.value)) else "";
      (sort.Some? && s in ["title", "created_at"] ==> ListOrdering(sort, order).column == s)
      && (sort.None? || s !in ["title", "created_at"] ==> ListOrdering(sort, order).column == "created_at")
  {
  }

  /** A search term matches a resource whose title or description contains
      it; an empty (trimmed) term matches every resource. */
  predicate SearchMatches(search: string, r: Resource) {
    search == "" || Contains(r.title, search) || Contains(r.description, search)
  }

  function Search(rows: seq<Resource>, search: Option<string>): (r: seq<Resource>)
    ensures forall x :: x in r <==> x in rows && SearchMatches(if search.Some? then PhpTrim(search.value) else "", x)
    ensures Subsequence(r, rows)
  {
    var term := if search.Some? then PhpTrim(search.value) else "";
    FilterKeepsOrder(rows, (x: Resource) => SearchMatches(term, x));
    Filter(rows, (x: Resource) => SearchMatches(term, x))
  }

  /** Without a search term every resource is listed. */
  lemma SearchAll(rows: seq<Resource>)
    ensures Search(rows, None) == rows
  {
    FilterAll(rows, (x: Resource) => SearchMatches("", x));
  }


  // ---------------------------------------------------------------------------
  // Table operations
  // ---------------------------------------------------------------------------

  predicate HasResource(rows: seq<Resource>, id: int) {
    exists i :: 0 <= i < |rows| && rows[i].id == id
  }

  predicate HasComment(rows: seq<Comment>, id: int) {
    exists i :: 0 <= i < |rows| && rows[i].id == id
  }

  /** The row `SELECT … WHERE id = ?` fetches: the first with that id. */
  function FindResource(rows: seq<Resource>, id: int): (r: Option<Resource>)
    ensures r.Some? ==> r.value in rows && r.value.id == id
    ensures r.None? <==> !HasResource(rows, id)
  {
    if rows == [] then None
    else if rows[0].id == id then Some(rows[0])
    else
      var r := FindResource(rows[1..], id);
      assert HasResource(rows, id) ==> HasResource(rows[1..], id) by {
        if HasResource(rows, id) {
          var i :| 0 <= i < |rows| && rows[i].id == id;
          assert rows[1..][i - 1] == rows[i];
        }
      }
      assert HasResource(rows[1..], id) ==> HasResource(rows, id) by {
        if HasResource(rows[1..], id) {
          var i :| 0 <= i < |rows[1..]| && rows[1..][i].id == id;
          assert rows[i + 1] == rows[1..][i];
        }
      }
      r
  }

  /** A row inserted with an id no row has is the one a lookup of that id
      finds afterwards. */
  lemma {:induction false} FindInserted(rows: seq<Resource>, x: Resource)
    requires !HasResource(rows, x.id)
    ensures FindResource(rows + [x], x.id) == Some(x)
  {
    if rows == [] {
      assert (rows + [x])[0] == x;
    } else {
      assert rows[0].id != x.id;
      assert (rows + [x])[1..] == rows[1..] + [x];
      FindInserted(rows[1..], x);
    }
  }

  /** The comments of one resource, in table order. */
  function CommentsOf(cs: seq<Comment>, rid: int): (r: seq<Comment>)
    ensures forall c :: c in r <==> c in cs && c.resourceId == rid
    ensures Subsequence(r, cs)
  {
    FilterKeepsOrder(cs, (c: Comment) => c.resourceId == rid);
    Filter(cs, (c: Comment) => c.resourceId == rid)
  }

  /** `DELETE FROM resources WHERE id = ?`. */
  function WithoutResource(rs: seq<Resource>, id: int): (r: seq<Resource>)
    ensures forall x :: x in r <==> x in rs && x.id != id
    ensures Subsequence(r, rs)
    ensures !HasResource(r, id)
  {
    FilterKeepsOrder(rs, (x: Resource) => x.id != id);
    var r := Filter(rs, (x: Resource) => x.id != id);
    assert forall i :: 0 <= i < |r| ==> r[i] in r;
    r
  }

  /** `DELETE FROM comments WHERE resource_id = ?`. */
  function WithoutCommentsOf(cs: seq<Comment>, rid: int): (r: seq<Comment>)
    ensures forall c :: c in r <==> c in cs && c.resourceId != rid
    ensures Subsequence(r, cs)
    ensures CommentsOf(r, rid) == []
  {
    FilterKeepsOrder(cs, (c: Comment) => c.resourceId != rid);
    var r := Filter(cs, (c: Comment) => c.resourceId != rid);
    var left := CommentsOf(r, rid);
    assert forall i :: 0 <= i < |left| ==> left[i] in left;
    r
  }

  /** `DELETE FROM comments WHERE id = ?`. */
  function WithoutComment(cs: seq<Comment>, id: int): (r: seq<Comment>)
    ensures forall c :: c in r <==> c in cs && c.id != id
    ensures Subsequence(r, cs)
    ensures !HasComment(r, id)
  {
    FilterKeepsOrder(cs, (c: Comment) => c.id != id);
    var r := Filter(cs, (c: Comment) => c.id != id);
    assert forall i :: 0 <= i < |r| ==> r[i] in r;
    r
  }

  /** The columns an UPDATE sets; None leaves a column as it is. */
  datatype Patch = Patch(title: Option<string>, description: Option<string>, link: Option<string>)

  predicate EmptyPatch(p: Patch) {
    p.title.None? && p.description.None? && p.link.None?
  }

  /** One row with the patched columns replaced: the id and the creation time
      never change. */
  function Apply(r: Resource, p: Patch): (r': Resource)
    ensures r'.id == r.id && r'.createdAt == r.createdAt
    ensures p.title.Some? ==> r'.title == p.title.value
    ensures p.title.None? ==> r'.title == r.title
    ensures p.description.Some? ==> r'.description == p.description.value
    ensures p.description.None? ==> r'.description == r.description
    ensures p.link.Some? ==> r'.link == p.link.value
    ensures p.link.None? ==> r'.link == r.link
    ensures EmptyPatch(p) ==> r' == r
  {
    Resource(r.id,
      if p.title.Some? then p.title.value else r.title,
      if p.description.Some? then p.description.value else r.description,
      if p.link.Some? then p.link.value else r.link,
      r.createdAt)
  }

  /** `UPDATE resources SET … WHERE id = ?`: the rows with that id patched,
      every other row as it was, in its place. */
  function Patched(rs: seq<Resource>, id: int, p: Patch): (r: seq<Resource>)
    ensures |r| == |rs|
    ensures forall i :: 0 <= i < |rs| ==> r[i].id == rs[i].id
    ensures forall i :: 0 <= i < |rs| && rs[i].id != id ==> r[i] == rs[i]
  {
    seq(|rs|, i requires 0 <= i < |rs| => if rs[i].id == id then Apply(rs[i], p) else rs[i])
  }

  /** After an update, a lookup of the id finds the old row with the patch
      applied. */
  lemma {:induction false} FindPatched(rs: seq<Resource>, id: int, p: Patch)
    requires HasResource(rs, id)
    ensures FindResource(Patched(rs, id, p), id) == Some(Apply(FindResource(rs, id).value, p))
  {
    var r := Patched(rs, id, p);
    if rs[0].id != id {
      assert r[1..] == Patched(rs[1..], id, p);
      assert HasResource(rs[1..], id) by {
        var i :| 0 <= i < |rs| && rs[i].id == id;
        assert rs[1..][i - 1] == rs[i];
      }
      FindPatched(rs[1..], id, p);
    }
  }

  // ---------------------------------------------------------------------------
  // Consistency of the two tables
  // ---------------------------------------------------------------------------

  predicate UniqueResourceIds(rs: seq<Resource>) {
    forall i, j :: 0 <= i < j < |rs| ==> rs[i].id != rs[j].id
  }

  predicate UniqueCommentIds(cs: seq<Comment>) {
    forall i, j :: 0 <= i < j < |cs| ==> cs[i].id != cs[j].id
  }

  /** Every id is below its table's AUTO_INCREMENT counter and no two rows of
      a table share one, and every comment refers to a resource that exists. */
  predicate Consistent(rs: seq<Resource>, cs: seq<Comment>, nextResource: int, nextComment: int) {
    (forall i :: 0 <= i < |rs| ==> 0 < rs[i].id < nextResource)
    && (forall i :: 0 <= i < |cs| ==> 0 < cs[i].id < nextComment)
    && UniqueResourceIds(rs) && UniqueCommentIds(cs)
    && (forall i :: 0 <= i < |cs| ==> HasResource(rs, cs[i].resourceId))
  }

  lemma SubsequenceUniqueResources(r: seq<Resource>, s: seq<Resource>)
    requires Subsequence(r, s) && UniqueResourceIds(s)
    ensures UniqueResourceIds(r)
  {
    forall i, j | 0 <= i < j < |r| ensures r[i].id != r[j].id {
      SubsequenceIndices(r, s, i, j);
    }
  }

  lemma SubsequenceUniqueComments(r: seq<Comment>, s: seq<Comment>)
    requires Subsequence(r, s) && UniqueCommentIds(s)
    ensures UniqueCommentIds(r)
  {
    forall i, j | 0 <= i < j < |r| ensures r[i].id != r[j].id {
      SubsequenceIndices(r, s, i, j);
    }
  }

  /** A new resource takes the counter's value, which no row has yet. */
  lemma InsertResourceConsistent(rs: seq<Resource>, cs: seq<Comment>, nr: int, nc: int, x: Resource)
    requires Consistent(rs, cs, nr, nc) && x.id == nr && nr > 0
    ensures Consistent(rs + [x], cs, nr + 1, nc)
    ensures !HasResource(rs, x.id)
  {
    var rs' := rs + [x];
    forall i, j | 0 <= i < j < |rs'| ensures rs'[i].id != rs'[j].id {
      assert rs'[i] == rs[i];
    }
    forall i | 0 <= i < |cs| ensures HasResource(rs', cs[i].resourceId) {
      var j :| 0 <= j < |rs| && rs[j].id == cs[i].resourceId;
      assert rs'[j] == rs[j];
    }
  }

  /** A new comment keeps the references intact when its resource exists,
      and keeps the table in created_at order when the clock has not run
      backwards. */
  lemma InsertCommentConsistent(rs: seq<Resource>, cs: seq<Comment>, nr: int, nc: int, c: Comment)
    requires Consistent(rs, cs, nr, nc) && c.id == nc && nc > 0 && HasResource(rs, c.resourceId)
    ensures Consistent(rs, cs + [c], nr, nc + 1)
    ensures !HasComment(cs, c.id)
    ensures SortedBy(cs, CommentTime) && StampedBy(cs, c.createdAt) ==> SortedBy(cs + [c], CommentTime)
  {
    var cs' := cs + [c];
    forall i, j | 0 <= i < j < |cs'| ensures cs'[i].id != cs'[j].id {
      assert cs'[i] == cs[i];
    }
    if SortedBy(cs, CommentTime) && StampedBy(cs, c.createdAt) {
      AppendSorted(cs, CommentTime, c);
    }
  }

  /** The cascade delete leaves no comment pointing at the deleted resource,
      so the references stay intact. */
  lemma DeleteResourceConsistent(rs: seq<Resource>, cs: seq<Comment>, nr: int, nc: int, id: int)
    requires Consistent(rs, cs, nr, nc)
    ensures Consistent(WithoutResource(rs, id), WithoutCommentsOf(cs, id), nr, nc)
  {
    var rs', cs' := WithoutResource(rs, id), WithoutCommentsOf(cs, id);
    SubsequenceUniqueResources(rs', rs);
    SubsequenceUniqueComments(cs', cs);
    forall i | 0 <= i < |rs'| ensures 0 < rs'[i].id < nr {
      assert rs'[i] in rs;
    }
    forall i | 0 <= i < |cs'| ensures 0 < cs'[i].id < nc && HasResource(rs', cs'[i].resourceId) {
      MemberRefers(rs, cs, nr, nc, cs'[i]);
      KeptResource(rs, id, cs'[i].resourceId);
    }
  }

  lemma MemberRefers(rs: seq<Resource>, cs: seq<Comment>, nr: int, nc: int, c: Comment)
    requires Consistent(rs, cs, nr, nc) && c in cs
    ensures 0 < c.id < nc && HasResource(rs, c.resourceId)
  {
    var k :| 0 <= k < |cs| && cs[k] == c;
  }

  /** A resource other than the deleted one is still there afterwards. */
  lemma KeptResource(rs: seq<Resource>, id: int, rid: int)
    requires HasResource(rs, rid) && rid != id
    ensures HasResource(WithoutResource(rs, id), rid)
  {
    var j :| 0 <= j < |rs| && rs[j].id == rid;
    var rs' := WithoutResource(rs, id);
    assert rs[j] in rs';
    var j' :| 0 <= j' < |rs'| && rs'[j'] == rs[j];
  }

  /** Without the cascade, deleting a resource that has comments would leave
      them pointing at nothing. */
  lemma DeleteWithoutCascadeBreaks(rs: seq<Resource>, cs: seq<Comment>, nr: int, nc: int, id: int)
    requires CommentsOf(cs, id) != []
    ensures !Consistent(WithoutResource(rs, id), cs, nr, nc)
  {
    var c := CommentsOf(cs, id)[0];
    assert c in CommentsOf(cs, id);
    var k :| 0 <= k < |cs| && cs[k] == c;
    assert !HasResource(WithoutResource(rs, id), cs[k].resourceId);
  }

  /** Deleting one comment keeps the references intact. */
  lemma DeleteCommentConsistent(rs: seq<Resource>, cs: seq<Comment>, nr: int, nc: int, id: int)
    requires Consistent(rs, cs, nr, nc)
    ensures Consistent(rs, WithoutComment(cs, id), nr, nc)
  {
    var cs' := WithoutComment(cs, id);
    SubsequenceUniqueComments(cs', cs);
    forall i | 0 <= i < |cs'| ensures 0 < cs'[i].id < nc && HasResource(rs, cs'[i].resourceId) {
      assert cs'[i] in cs;
    }
  }

  /** An update changes no id, so the references stay intact. */
  lemma UpdateResourceConsistent(rs: seq<Resource>, cs: seq<Comment>, nr: int, nc: int, id: int, p: Patch)
    requires Consistent(rs, cs, nr, nc)
    ensures Consistent(Patched(rs, id, p), cs, nr, nc)
  {
    var rs' := Patched(rs, id, p);
    forall i, j | 0 <= i < j < |rs'| ensures rs'[i].id != rs'[j].id {
      assert rs'[i].id == rs[i].id && rs'[j].id == rs[j].id;
    }
    forall i | 0 <= i < |cs| ensures HasResource(rs', cs[i].resourceId) {
      var j :| 0 <= j < |rs| && rs[j].id == cs[i].resourceId;
      assert rs'[j].id == rs[j].id;
    }
  }

  function CommentTime(c: Comment): int {
    c.createdAt
  }

  /** No comment was stamped later than `now`: a clock that does not run
      backwards. */
  predicate StampedBy(cs: seq<Comment>, now: int) {
    forall i :: 0 <= i < |cs| ==> cs[i].createdAt <= now
  }

  /** A comments table in created_at order lists each resource's comments in
      created_at order, which is what `ORDER BY created_at ASC` asks for. */
  lemma CommentsListedInOrder(cs: seq<Comment>, rid: int)
    requires SortedBy(cs, CommentTime)
    ensures SortedBy(CommentsOf(cs, rid), CommentTime)
  {
    SubsequenceSorted(CommentsOf(cs, rid), cs, CommentTime);
  }

  // ---------------------------------------------------------------------------
  // What each handler checks before it writes
  // ---------------------------------------------------------------------------

  datatype Draft = Draft(title: string, description: string, link: string)

  datatype Change = Change(id: int, patch: Patch)

  datatype CommentDraft = CommentDraft(resourceId: int, author: string, text: string)

  /** The link as trim() reads it. */
  function LinkText(data: Obj): string {
    PhpTrim(PhpString(Field(data, "link")))
  }

  /** createResource before the INSERT: the missing fields (400), a link that
      is an array (a TypeError) and a link that is not a URL (400), in this
      order. */
  function CreateResourceCheck(data: Obj, isUrl: string -> bool): (c: Check<Draft>)
  {
    var missing := MissingFields(data, ["title", "link"]);
    if missing != [] then Refuse(MissingReply(missing))
    else if IsArray(Field(data, "link")) then Refuse(Fatal)
    else if !isUrl(LinkText(data)) then Refuse(Fail(400, "Invalid URL format."))
    else
      Proceed(Draft(SanitizeInput(Field(data, "title")),
                    if IsSet(data, "description") then SanitizeInput(Field(data, "description")) else "",
                    LinkText(data)))
  }

  lemma CreateResourceCheckMeaning(data: Obj, isUrl: string -> bool)
    ensures var c := CreateResourceCheck(data, isUrl);
      MissingFields(data, ["title", "link"]) != [] ==>
      c == Refuse(MissingReply(MissingFields(data, ["title", "link"])))
    ensures var c := CreateResourceCheck(data, isUrl);
      MissingFields(data, ["title", "link"]) == [] && IsArray(Field(data, "link")) ==> c == Refuse(Fatal)
    ensures var c := CreateResourceCheck(data, isUrl);
      MissingFields(data, ["title", "link"]) == [] && !IsArray(Field(data, "link")) && !isUrl(LinkText(data)) ==>
      c == Refuse(Fail(400, "Invalid URL format."))
    ensures var c := CreateResourceCheck(data, isUrl);
      c.Proceed? <==>
      MissingFields(data, ["title", "link"]) == [] && !IsArray(Field(data, "link")) && isUrl(LinkText(data))
    ensures var c := CreateResourceCheck(data, isUrl);
      c.Proceed? ==>
      !Missing(data, "title") && !Missing(data, "link")
      && c.value.link == LinkText(data) && isUrl(c.value.link)
      && Html.Escaped(c.value.title) && Html.Escaped(c.value.description)
      && (!IsSet(data, "description") ==> c.value.description == "")
  {
    if MissingFields(data, ["title", "link"]) == [] {
      NoneMissing(data, ["title", "link"], "title");
      NoneMissing(data, ["title", "link"], "link");
    }
  }

  /** updateResource before the UPDATE: an id that passes the filter (400),
      an existing resource (404), a usable link when one is sent (a TypeError
      or 400) and at least one column (400), in this order. A title or link
      counts when it is set; a description when its key is present, even
      with null. */
  function UpdateResourceCheck(data: Obj, isUrl: string -> bool, rows: seq<Resource>): (c: Check<Change>)
  {
    if !(IsSet(data, "id") && ValidId(Field(data, "id"))) then Refuse(Fail(400, "Resource id is required for update."))
    else
      var id := FilterValidateInt(Field(data, "id")).value;
      if !HasResource(rows, id) then Refuse(Fail(404, "Resource not found."))
      else if IsSet(data, "link") && IsArray(Field(data, "link")) then Refuse(Fatal)
      else if IsSet(data, "link") && !isUrl(LinkText(data)) then Refuse(Fail(400, "Invalid URL format."))
      else
        var p := Patch(if IsSet(data, "title") then Some(SanitizeInput(Field(data, "title"))) else None,
                       if Get(data, "description").Some? then Some(SanitizeInput(Get(data, "description").value)) else None,
                       if IsSet(data, "link") then Some(LinkText(data)) else None);
        if EmptyPatch(p) then Refuse(Fail(400, "No fields to update."))
        else Proceed(Change(id, p))
  }

  /** The refusals of updateResource, in the order the handler checks them. */
  lemma UpdateResourceCheckRefusals(data: Obj, isUrl: string -> bool, rows: seq<Resource>)
    ensures var c := UpdateResourceCheck(data, isUrl, rows);
      !(IsSet(data, "id") && ValidId(Field(data, "id"))) ==>
      c == Refuse(Fail(400, "Resource id is required for update."))
    ensures var c := UpdateResourceCheck(data, isUrl, rows);
      IsSet(data, "id") && ValidId(Field(data, "id")) && !HasResource(rows, FilterValidateInt(Field(data, "id")).value) ==>
      c == Refuse(Fail(404, "Resource not found."))
    ensures var c := UpdateResourceCheck(data, isUrl, rows);
      IsSet(data, "id") && ValidId(Field(data, "id")) && HasResource(rows, FilterValidateInt(Field(data, "id")).value)
            && IsSet(data, "link") && IsArray(Field(data, "link")) ==>
      c == Refuse(Fatal)
    ensures var c := UpdateResourceCheck(data, isUrl, rows);
      IsSet(data, "id") && ValidId(Field(data, "id")) && HasResource(rows, FilterValidateInt(Field(data, "id")).value)
            && IsSet(data, "link") && !IsArray(Field(data, "link")) && !isUrl(LinkText(data)) ==>
      c == Refuse(Fail(400, "Invalid URL format."))
    ensures var c := UpdateResourceCheck(data, isUrl, rows);
      IsSet(data, "id") && ValidId(Field(data, "id")) && HasResource(rows, FilterValidateInt(Field(data, "id")).value)
            && !IsSet(data, "title") && Get(data, "description").None? && !IsSet(data, "link") ==>
      c == Refuse(Fail(400, "No fields to update."))
  {
  }

  /** An update that goes ahead targets an existing row and sets exactly the
      columns the request supplies, each cleaned as the handler cleans it. */
  lemma UpdateResourceCheckProceeds(data: Obj, isUrl: string -> bool, rows: seq<Resource>)
    ensures var c := UpdateResourceCheck(data, isUrl, rows);
      c.Proceed? ==>
      c.value.id == FilterValidateInt(Field(data, "id")).value && HasResource(rows, c.value.id)
      && !EmptyPatch(c.value.patch)
      && (c.value.patch.title.Some? <==> IsSet(data, "title"))
      && (c.value.patch.description.Some? <==> Get(data, "description").Some?)
      && (c.value.patch.link.Some? <==> IsSet(data, "link"))
      && (c.value.patch.link.Some? ==> c.value.patch.link.value == LinkText(data) && isUrl(LinkText(data)))
      && (c.value.patch.title.Some? ==> Html.Escaped(c.value.patch.title.value))
      && (c.value.patch.description.Some? ==> Html.Escaped(c.value.patch.description.value))
  {
  }

  /** createComment before the INSERT: the missing fields (400), a resource id
      that fails the filter (400) and a resource that does not exist (404),
      in this order. */
  function CreateCommentCheck(data: Obj, rows: seq<Resource>): (c: Check<CommentDraft>)
    ensures c.Proceed? ==> HasResource(rows, c.value.resourceId)
  {
    var missing := MissingFields(data, ["resource_id", "author", "text"]);
    if missing != [] then Refuse(MissingReply(missing))
    else if !ValidId(Field(data, "resource_id")) then Refuse(Fail(400, "Invalid resource id."))
    else
      var rid := FilterValidateInt(Field(data, "resource_id")).value;
      if !HasResource(rows, rid) then Refuse(Fail(404, "Resource not found for this comment."))
      else Proceed(CommentDraft(rid, SanitizeInput(Field(data, "author")), SanitizeInput(Field(data, "text"))))
  }

  /** The refusals of createComment, in the order the handler checks them. */
  lemma CreateCommentCheckRefusals(data: Obj, rows: seq<Resource>)
    ensures var c := CreateCommentCheck(data, rows);
      MissingFields(data, ["resource_id", "author", "text"]) != [] ==>
      c == Refuse(MissingReply(MissingFields(data, ["resource_id", "author", "text"])))
    ensures var c := CreateCommentCheck(data, rows);
      MissingFields(data, ["resource_id", "author", "text"]) == [] && !ValidId(Field(data, "resource_id")) ==>
      c == Refuse(Fail(400, "Invalid resource id."))
    ensures var c := CreateCommentCheck(data, rows);
      MissingFields(data, ["resource_id", "author", "text"]) == [] && ValidId(Field(data, "resource_id"))
            && !HasResource(rows, FilterValidateInt(Field(data, "resource_id")).value) ==>
      c == Refuse(Fail(404, "Resource not found for this comment."))
  {
  }

  /** A comment goes ahead exactly when nothing is missing and the resource
      exists; the author and text were then sent non-empty, and what is
      stored is their cleaned form (which cleaning may leave empty). */
  lemma CreateCommentCheckProceeds(data: Obj, rows: seq<Resource>)
    ensures var c := CreateCommentCheck(data, rows);
      c.Proceed? <==>
      MissingFields(data, ["resource_id", "author", "text"]) == [] && ValidId(Field(data, "resource_id"))
      && HasResource(rows, FilterValidateInt(Field(data, "resource_id")).value)
    ensures var c := CreateCommentCheck(data, rows);
      c.Proceed? ==>
      c.value.resourceId == FilterValidateInt(Field(data, "resource_id")).value
      && !Missing(data, "author") && !Missing(data, "text")
      && Html.Escaped(c.value.author) && Html.Escaped(c.value.text)
  {
    var fields := ["resource_id", "author", "text"];
    if MissingFields(data, fields) == [] {
      NoneMissing(data, fields, "author");
      NoneMissing(data, fields, "text");
      if ValidId(Field(data, "resource_id")) {
        var rid := FilterValidateInt(Field(data, "resource_id")).value;
        if HasResource(rows, rid) {
          assert CreateCommentCheck(data, rows)
            == Proceed(CommentDraft(rid, SanitizeInput(Field(data, "author")), SanitizeInput(Field(data, "text"))));
        }
      }
    }
  }

  // ---------------------------------------------------------------------------
  // The service
  // ---------------------------------------------------------------------------

  /** The router's answer to a PDOException. The connection throws on a
      failed statement, so a failed INSERT, UPDATE or DELETE outside a
      transaction reaches the router's catch instead of the handler's
      `else` branch. */
  const DatabaseError: Response := Fail(500, "Database error occurred.")

  class ResourceDb {
    var resources: seq<Resource>
    var comments: seq<Comment>
    /** The AUTO_INCREMENT counters of the two tables. */
    var nextResourceId: int
    var nextCommentId: int

    predicate Valid()
      reads this
    {
      nextResourceId > 0 && nextCommentId > 0
      && Consistent(resources, comments, nextResourceId, nextCommentId)
      && SortedBy(comments, CommentTime)
    }

    constructor()
      ensures resources == [] && comments == [] && Valid()
    {
      resources, comments := [], [];
      nextResourceId, nextCommentId := 1, 1;
    }

    /** getResourceById. */
    method GetResource(idArg: Json) returns (r: Response)
      ensures !ValidId(idArg) ==> r == Fail(400, "Invalid resource id.")
      ensures ValidId(idArg) ==>
        var found := FindResource(resources, FilterValidateInt(idArg).value);
        (found.Some? ==> r == Data(ResourceJson(found.value)))
        && (found.None? ==> r == Fail(404, "Resource not found."))
    {
      if !ValidId(idArg) {
        return Fail(400, "Invalid resource id.");
      }
      var found := FindResource(resources, FilterValidateInt(idArg).value);
      if found.Some? {
        r := Data(ResourceJson(found.value));
      } else {
        r := Fail(404, "Resource not found.");
      }
    }

    /** getAllResources: the matching resources and the order to list them in. */
    method ListResources(search: Option<string>, sort: Option<string>, order: Option<string>)
      returns (rows: seq<Resource>, ordering: Ordering)
      ensures rows == Search(resources, search) && ordering == ListOrdering(sort, order)
    {
      rows := Search(resources, search);
      ordering := ListOrdering(sort, order);
    }

    /** createResource: the request is validated in full before the INSERT,
        and nothing is inserted on any error. */
    method CreateResource(data: Obj, isUrl: string -> bool, now: int, fault: bool) returns (r: Response)
      modifies this
      ensures old(Valid()) ==> Valid()
      ensures var c := CreateResourceCheck(data, isUrl);
        (c.Refuse? ==> r == c.response && unchanged(this))
        && (c.Proceed? && fault ==> r == DatabaseError && unchanged(this))
        && (c.Proceed? && !fault ==>
              var row := Resource(old(nextResourceId), c.value.title, c.value.description, c.value.link, now);
              resources == old(resources) + [row] && comments == old(comments)
              && nextResourceId == old(nextResourceId) + 1 && nextCommentId == old(nextCommentId)
              && r == Created("Resource created successfully.", row.id))
    {
      var c := CreateResourceCheck(data, isUrl);
      if c.Refuse? {
        return c.response;
      }
      if fault {
        return DatabaseError;
      }
      var row := Resource(nextResourceId, c.value.title, c.value.description, c.value.link, now);
      if Valid() {
        InsertResourceConsistent(resources, comments, nextResourceId, nextCommentId, row);
      }
      resources := resources + [row];
      nextResourceId := nextResourceId + 1;
      r := Created("Resource created successfully.", row.id);
    }

    /** updateResource: only the columns supplied change, in the one row with
        that id. */
    method Update(data: Obj, isUrl: string -> bool, fault: bool) returns (r: Response)
      modifies this
      ensures old(Valid()) ==> Valid()
      ensures var c := UpdateResourceCheck(data, isUrl, old(resources));
        (c.Refuse? ==> r == c.response && unchanged(this))
        && (c.Proceed? && fault ==> r == DatabaseError && unchanged(this))
        && (c.Proceed? && !fault ==>
              resources == Patched(old(resources), c.value.id, c.value.patch) && comments == old(comments)
              && nextResourceId == old(nextResourceId) && nextCommentId == old(nextCommentId)
              && r == Done(200, "Resource updated successfully."))
    {
      var c := UpdateResourceCheck(data, isUrl, resources);
      if c.Refuse? {
        return c.response;
      }
      if fault {
        return DatabaseError;
      }
      if Valid() {
        UpdateResourceConsistent(resources, comments, nextResourceId, nextCommentId, c.value.id, c.value.patch);
      }
      resources := Patched(resources, c.value.id, c.value.patch);
      r := Done(200, "Resource updated successfully.");
    }

    /** deleteResource: the resource and all its comments go together in one
        transaction; a failed transaction rolls back and changes neither table. */
    method DeleteResource(idArg: Json, fault: bool) returns (r: Response)
      modifies this
      ensures old(Valid()) ==> Valid()
      ensures !ValidId(idArg) ==> r == Fail(400, "Invalid resource id.") && unchanged(this)
      ensures ValidId(idArg) ==>
        var id := FilterValidateInt(idArg).value;
        (!HasResource(old(resources), id) ==> r == Fail(404, "Resource not found.") && unchanged(this))
        && (HasResource(old(resources), id) && fault ==> r == Fail(500, "Failed to delete resource.") && unchanged(this))
        && (HasResource(old(resources), id) && !fault ==>
              resources == WithoutResource(old(resources), id) && comments == WithoutCommentsOf(old(comments), id)
              && nextResourceId == old(nextResourceId) && nextCommentId == old(nextCommentId)
              && r == Done(200, "Resource and its comments deleted successfully."))
    {
      if !ValidId(idArg) {
        return Fail(400, "Invalid resource id.");
      }
      var id := FilterValidateInt(idArg).value;
      if !HasResource(resources, id) {
        return Fail(404, "Resource not found.");
      }
      // Both DELETEs take effect at the commit; a failure rolls both back.
      var remainingComments := WithoutCommentsOf(comments, id);
      var remainingResources := WithoutResource(resources, id);
      if fault {
        return Fail(500, "Failed to delete resource.");
      }
      if Valid() {
        DeleteResourceConsistent(resources, comments, nextResourceId, nextCommentId, id);
        SubsequenceSorted(remainingComments, comments, CommentTime);
      }
      comments := remainingComments;
      resources := remainingResources;
      r := Done(200, "Resource and its comments deleted successfully.");
    }

    /** getCommentsByResourceId: the resource's comments, oldest first. */
    method GetComments(idArg: Json) returns (r: Response)
      ensures !ValidId(idArg) ==> r == Fail(400, "Invalid resource id.")
      ensures ValidId(idArg) ==> r == Data(CommentsJson(CommentsOf(comments, FilterValidateInt(idArg).value)))
      ensures ValidId(idArg) && Valid() ==> SortedBy(CommentsOf(comments, FilterValidateInt(idArg).value), CommentTime)
    {
      if !ValidId(idArg) {
        return Fail(400, "Invalid resource id.");
      }
      var listed := CommentsOf(comments, FilterValidateInt(idArg).value);
      if Valid() {
        CommentsListedInOrder(comments, FilterValidateInt(idArg).value);
      }
      r := Data(CommentsJson(listed));
    }

    /** createComment: the comment is inserted only for a resource that
        exists, stamped with a clock that does not run backwards. */
    method CreateComment(data: Obj, now: int, fault: bool) returns (r: Response)
      requires StampedBy(comments, now)
      modifies this
      ensures old(Valid()) ==> Valid()
      ensures var c := CreateCommentCheck(data, old(resources));
        (c.Refuse? ==> r == c.response && unchanged(this))
        && (c.Proceed? && fault ==> r == DatabaseError && unchanged(this))
        && (c.Proceed? && !fault ==>
              var row := Comment(old(nextCommentId), c.value.resourceId, c.value.author, c.value.text, now);
              comments == old(comments) + [row] && resources == old(resources)
              && nextCommentId == old(nextCommentId) + 1 && nextResourceId == old(nextResourceId)
              && r == Created("Comment created successfully.", row.id))
    {
      var c := CreateCommentCheck(data, resources);
      if c.Refuse? {
        return c.response;
      }
      if fault {
        return DatabaseError;
      }
      var row := Comment(nextCommentId, c.value.resourceId, c.value.author, c.value.text, now);
      if Valid() {
        InsertCommentConsistent(resources, comments, nextResourceId, nextCommentId, row);
      }
      comments := comments + [row];
      nextCommentId := nextCommentId + 1;
      r := Created("Comment created successfully.", row.id);
    }

    /** deleteComment. */
    method DeleteComment(idArg: Json, fault: bool) returns (r: Response)
      modifies this
      ensures old(Valid()) ==> Valid()
      ensures !ValidId(idArg) ==> r == Fail(400, "Invalid comment id.") && unchanged(this)
      ensures ValidId(idArg) ==>
        var id := FilterValidateInt(idArg).value;
        (!HasComment(old(comments), id) ==> r == Fail(404, "Comment not found.") && unchanged(this))
        && (HasComment(old(comments), id) && fault ==> r == DatabaseError && unchanged(this))
        && (HasComment(old(comments), id) && !fault ==>
              comments == WithoutComment(old(comments), id) && resources == old(resources)
              && nextResourceId == old(nextResourceId) && nextCommentId == old(nextCommentId)
              && r == Done(200, "Comment deleted successfully."))
    {
      if !ValidId(idArg) {
        return Fail(400, "Invalid comment id.");
      }
      var id := FilterValidateInt(idArg).value;
      if !HasComment(comments, id) {
        return Fail(404, "Comment not found.");
      }
      if fault {
        return DatabaseError;
      }
      var remaining := WithoutComment(comments, id);
      if Valid() {
        DeleteCommentConsistent(resources, comments, nextResourceId, nextCommentId, id);
        SubsequenceSorted(remaining, comments, CommentTime);
      }
      comments := remaining;
      r := Done(200, "Comment deleted successfully.");
    }
  }
}
