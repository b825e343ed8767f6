/** The weekly-units service: a JSON-document store. `weeks.json` holds the
    list of weeks and `comments.json` maps a week id to the list of comments
    on that week. Every action reads the whole documents, changes them in
    memory and writes them back; the store class holds the decoded documents
    between requests. */
module WeeklyApi {
  import opened Common
  import JsonText

  // ---------------------------------------------------------------------------
  // Session, responses and records
  // ---------------------------------------------------------------------------

  /** The session fields the service reads; JNull where a field is not set. */
  datatype Session = Session(user: Json, role: Json)

  /** `isset($_SESSION['user'])`. */
  predicate LoggedIn(s: Session) {
    s.user != JNull
  }

  /** `($_SESSION['role'] ?? '') === 'admin'`. */
  predicate IsAdmin(s: Session) {
    s.role == JStr("admin")
  }

  function ErrorBody(message: string): Json {
    JObject([("error", JStr(message))])
  }

  const OkBody: Json := JObject([("ok", JBool(true))])
  const Unauthorized: Response := Response(401, ErrorBody("Unauthorized"))
  const Forbidden: Response := Response(403, ErrorBody("Forbidden"))
  const NotFound: Response := Response(404, ErrorBody("Not found"))
  /** An array used as an array key: PHP throws a TypeError. */
  const IllegalOffset: Response := Response(500, JNull)

  /** A comment as comment_add stores it. */
  datatype Comment = Comment(id: string, author: Json, text: Json, createdAt: string)

  function CommentJson(c: Comment): Json {
    JObject([("id", JStr(c.id)), ("author", c.author), ("text", c.text), ("created_at", JStr(c.createdAt))])
  }

  /** What GET comments answers: one week's comments, or the whole document
      when no week id is given. */
  datatype CommentsReply = WeekComments(list: seq<Comment>) | AllComments(all: map<string, seq<Comment>>)

  // ---------------------------------------------------------------------------
  // read_json_file
  // ---------------------------------------------------------------------------

  /** `read_json_file`: a missing file, text that does not decode and a decoded
      scalar all read as the empty array. `file` is None when the file does
      not exist. */
  function ReadJsonFile(file: Option<string>): (r: Json)
    ensures IsArray(r)
  {
    match file
    case None => JList([])
    case Some(text) =>
      match JsonText.Decode(text)
      case Some(v) => if IsArray(v) then v else JList([])
      case None => JList([])
  }

  /** What was written is what is read back. */
  lemma ReadWritten(v: Json)
    requires IsArray(v) && JsonText.WellFormed(v) && JsonText.Depth(v) <= JsonText.MaxDepth
    ensures ReadJsonFile(Some(JsonText.Encode(v))) == v
  {
    JsonText.DecodeEncode(v);
  }

  /** A file whose content is not an array reads as the empty array. */
  lemma ReadNonArray(text: string)
    requires JsonText.Decode(text).None? || !IsArray(JsonText.Decode(text).value)
    ensures ReadJsonFile(Some(text)) == JList([])
  {
  }

  // ---------------------------------------------------------------------------
  // Weeks
  // ---------------------------------------------------------------------------

  /** A week's id as `$w['id'] == $id` compares it with the requested id:
      a missing id reads as null, which equals "". */
  function IdText(w: Obj): string {
    PhpString(Coalesce(w, "id", JNull))
  }

  /** The index of the first week whose id matches. */
  function FindWeek(weeks: seq<Obj>, id: string): (r: Option<nat>)
    ensures r.Some? ==> r.value < |weeks| && IdText(weeks[r.value]) == id
    ensures r.Some? ==> forall j :: 0 <= j < r.value ==> IdText(weeks[j]) != id
    ensures r.None? <==> forall j :: 0 <= j < |weeks| ==> IdText(weeks[j]) != id
  {
    FindWeekFrom(weeks, id, 0)
  }

  /** The index of the first week from position i on whose id matches. */
  function FindWeekFrom(weeks: seq<Obj>, id: string, i: nat): (r: Option<nat>)
    requires i <= |weeks|
    ensures r.Some? ==> i <= r.value < |weeks| && IdText(weeks[r.value]) == id
    ensures r.Some? ==> forall j :: i <= j < r.value ==> IdText(weeks[j]) != id
    ensures r.None? <==> forall j :: i <= j < |weeks| ==> IdText(weeks[j]) != id
    decreases |weeks| - i
  {
    if i == |weeks| then None
    else if IdText(weeks[i]) == id then Some(i)
    else FindWeekFrom(weeks, id, i + 1)
  }

  /** The week week_create builds: a fresh id from the clock, the input's
      title, startDate and description, and its links. */
  function NewWeek(input: Obj, now: int): (w: Obj)
    ensures |w| == 5
  {
    [("id", JStr("week_" + IntToString(now)))] +
    ([("title", Coalesce(input, "title", JStr("")))] +
    ([("startDate", Coalesce(input, "startDate", JStr("")))] +
    ([("description", Coalesce(input, "description", JStr("")))] +
     [("links", Coalesce(input, "links", JList([])))])))
  }

  /** The new week has exactly these five fields, in this order. */
  lemma NewWeekKeys(input: Obj, now: int)
    ensures Keys(NewWeek(input, now)) == ["id", "title", "startDate", "description", "links"]
  {
    var w := NewWeek(input, now);
    assert Keys(w) == [w[0].0, w[1].0, w[2].0, w[3].0, w[4].0];
  }

  /** The new week's id is made from the clock; the text fields default to
      "" and the links to [] when the input does not set them. */
  lemma NewWeekFields(input: Obj, now: int)
    ensures Get(NewWeek(input, now), "id") == Some(JStr("week_" + IntToString(now)))
    ensures Get(NewWeek(input, now), "title") == if IsSet(input, "title") then Get(input, "title") else Some(JStr(""))
    ensures Get(NewWeek(input, now), "startDate") == if IsSet(input, "startDate") then Get(input, "startDate") else Some(JStr(""))
    ensures Get(NewWeek(input, now), "description") == if IsSet(input, "description") then Get(input, "description") else Some(JStr(""))
    ensures Get(NewWeek(input, now), "links") == if IsSet(input, "links") then Get(input, "links") else Some(JList([]))
  {
    var m0, m1, m2, m3, m4 := ("id", JStr("week_" + IntToString(now))), ("title", Coalesce(input, "title", JStr(""))),
      ("startDate", Coalesce(input, "startDate", JStr(""))), ("description", Coalesce(input, "description", JStr(""))),
      ("links", Coalesce(input, "links", JList([])));
    var t3 := [m3] + [m4];
    var t2 := [m2] + t3;
    var t1 := [m1] + t2;
    assert NewWeek(input, now) == [m0] + t1;
    assert "id"[0] == 'i' && "title"[0] == 't' && "startDate"[0] == 's' && "description"[0] == 'd' && "links"[0] == 'l';
    GetCons(m0, t1, "id");
    GetCons(m0, t1, "title"); GetCons(m1, t2, "title");
    GetCons(m0, t1, "startDate"); GetCons(m1, t2, "startDate"); GetCons(m2, t3, "startDate");
    GetCons(m0, t1, "description"); GetCons(m1, t2, "description"); GetCons(m2, t3, "description");
    GetCons(m3, [m4], "description");
    GetCons(m0, t1, "links"); GetCons(m1, t2, "links"); GetCons(m2, t3, "links");
    GetCons(m3, [m4], "links"); GetCons(m4, [], "links");
  }

  /** PHP `array_merge($w, $input)` on string-keyed arrays: each member of
      the input is stored in turn, overwriting a key already there. */
  function ArrayMerge(a: Obj, b: Obj): Obj
    decreases |b|
  {
    if b == [] then a else ArrayMerge(Put(a, b[0].0, b[0].1), b[1..])
  }

  /** A key of the input takes the input's value; every other key keeps the
      old week's value. */
  lemma {:induction false} ArrayMergeGet(a: Obj, b: Obj, k: string)
    requires UniqueKeys(b)
    ensures Get(ArrayMerge(a, b), k) == if k in Keys(b) then Get(b, k) else Get(a, k)
    decreases |b|
  {
    if b != [] {
      assert Keys(b) == [b[0].0] + Keys(b[1..]);
      ArrayMergeGet(Put(a, b[0].0, b[0].1), b[1..], k);
      if k == b[0].0 {
        assert k !in Keys(b[1..]);
        PutGetSame(a, k, b[0].1);
      } else {
        PutGetOther(a, b[0].0, b[0].1, k);
      }
    }
  }

  /** The old week's keys stay in their places; new keys come after them. */
  lemma {:induction false} ArrayMergeKeys(a: Obj, b: Obj)
    ensures |ArrayMerge(a, b)| >= |a| && Keys(ArrayMerge(a, b))[..|a|] == Keys(a)
    decreases |b|
  {
    if b != [] {
      var a' := Put(a, b[0].0, b[0].1);
      PutKeys(a, b[0].0, b[0].1);
      ArrayMergeKeys(a', b[1..]);
      assert Keys(a')[..|a|] == Keys(a);
      assert Keys(ArrayMerge(a', b[1..]))[..|a|] == Keys(ArrayMerge(a', b[1..]))[..|a'|][..|a|];
    }
  }

  /** The weeks week_delete keeps: those whose id differs, in their order. */
  function WithoutWeek(weeks: seq<Obj>, id: string): (r: seq<Obj>)
    ensures forall i :: 0 <= i < |r| ==> IdText(r[i]) != id
    ensures forall w :: w in weeks && IdText(w) != id ==> w in r
    ensures Subsequence(r, weeks)
    ensures forall w :: multiset(r)[w] == if IdText(w) != id then multiset(weeks)[w] else 0
  {
    FilterKeepsOrder(weeks, w => IdText(w) != id);
    FilterCount(weeks, w => IdText(w) != id);
    Filter(weeks, w => IdText(w) != id)
  }

  // ---------------------------------------------------------------------------
  // Comments
  // ---------------------------------------------------------------------------

  /** PHP's reading of a value used as an array key: null is "", a boolean is
      "0" or "1", an integer its numeral; an array is not a key (None). */
  function ArrayKey(v: Json): (r: Option<string>)
    ensures r.None? <==> IsArray(v)
    ensures v.JStr? ==> r == Some(v.s)
  {
    match v
    case JNull => Some("")
    case JBool(b) => Some(if b then "1" else "0")
    case JInt(i) => Some(IntToString(i))
    case JStr(s) => Some(s)
    case JList(_) => None
    case JObject(_) => None
  }

  /** The index of the first comment whose id is identical (`===`) to `cid`. */
  function FindComment(list: seq<Comment>, cid: Json): (r: Option<nat>)
    ensures r.Some? ==> r.value < |list| && JStr(list[r.value].id) == cid
    ensures r.Some? ==> forall j :: 0 <= j < r.value ==> JStr(list[j].id) != cid
    ensures r.None? <==> forall j :: 0 <= j < |list| ==> JStr(list[j].id) != cid
  {
    if list == [] then None
    else if JStr(list[0].id) == cid then Some(0)
    else
      match FindComment(list[1..], cid)
      case None => None
      case Some(k) => Some(k + 1)
  }

  /** `array_splice($list, $i, 1)`: the list without its element at `i`. */
  function RemoveAt<T>(list: seq<T>, i: nat): (r: seq<T>)
    requires i < |list|
    ensures |r| == |list| - 1
    ensures forall j :: 0 <= j < i ==> r[j] == list[j]
    ensures forall j :: i <= j < |r| ==> r[j] == list[j + 1]
    ensures multiset(r) + multiset{list[i]} == multiset(list)
  {
    assert list == list[..i] + [list[i]] + list[i + 1..];
    list[..i] + list[i + 1..]
  }

  function CommentsOf(comments: map<string, seq<Comment>>, key: string): seq<Comment> {
    if key in comments then comments[key] else []
  }

  /** The `foreach` over the weeks that stops at the first id that matches. */
  method IndexOfWeek(weeks: seq<Obj>, id: string) returns (r: Option<nat>)
    ensures r == FindWeek(weeks, id)
  {
    var i := 0;
    while i < |weeks|
      invariant 0 <= i <= |weeks|
      invariant forall j :: 0 <= j < i ==> IdText(weeks[j]) != id
    {
      if IdText(weeks[i]) == id {
        return Some(i);
      }
      i := i + 1;
    }
    return None;
  }

  /** The `foreach` over a week's comments that stops at the first identical id. */
  method IndexOfComment(list: seq<Comment>, cid: Json) returns (r: Option<nat>)
    ensures r == FindComment(list, cid)
  {
    var i := 0;
    while i < |list|
      invariant 0 <= i <= |list|
      invariant forall j :: 0 <= j < i ==> JStr(list[j].id) != cid
    {
      if JStr(list[i].id) == cid {
        return Some(i);
      }
      i := i + 1;
    }
    return None;
  }

  // ---------------------------------------------------------------------------
  // The store
  // ---------------------------------------------------------------------------

  class WeeklyStore {
    /** The decoded contents of weeks.json and of comments.json. */
    var weeks: seq<Obj>
    var comments: map<string, seq<Comment>>

    constructor(weeks: seq<Obj>, comments: map<string, seq<Comment>>)
      ensures this.weeks == weeks && this.comments == comments
    {
      this.weeks := weeks;
      this.comments := comments;
    }

    /** GET weeks: the whole list. */
    method ListWeeks() returns (r: Response)
      ensures r.status == 200 && r.body.JList? && |r.body.items| == |weeks|
      ensures forall i :: 0 <= i < |weeks| ==> r.body.items[i] == JObject(weeks[i])
    {
      r := Response(200, JList(seq(|weeks|, i requires 0 <= i < |weeks| reads this => JObject(weeks[i]))));
    }

    /** GET week: the first week whose id matches, or 404. */
    method GetWeek(id: string) returns (r: Response)
      ensures FindWeek(weeks, id).Some? ==> r == Response(200, JObject(weeks[FindWeek(weeks, id).value]))
      ensures FindWeek(weeks, id).None? ==> r == NotFound
    {
      var found := IndexOfWeek(weeks, id);
      if found.Some? {
        return Response(200, JObject(weeks[found.value]));
      }
      return NotFound;
    }

    /** week_create: admins only; appends the new week at the end. */
    method WeekCreate(s: Session, input: Obj, now: int) returns (r: Response)
      modifies this
      ensures !IsAdmin(s) ==> r == Forbidden && unchanged(this)
      ensures IsAdmin(s) ==> weeks == old(weeks) + [NewWeek(input, now)] && comments == old(comments)
      ensures IsAdmin(s) ==> r == Response(200, JObject(NewWeek(input, now)))
    {
      if !IsAdmin(s) {
        return Forbidden;
      }
      var week := NewWeek(input, now);
      weeks := weeks + [week];
      r := Response(200, JObject(week));
    }

    /** week_update: admins only; the first week with the id becomes
        array_merge(week, input), and an unknown id is 404 with no write. */
    method WeekUpdate(s: Session, id: string, input: Obj) returns (r: Response)
      modifies this
      ensures !IsAdmin(s) ==> r == Forbidden && unchanged(this)
      ensures IsAdmin(s) && FindWeek(old(weeks), id).Some? ==>
        var k := FindWeek(old(weeks), id).value;
        weeks == old(weeks)[k := ArrayMerge(old(weeks)[k], input)] && comments == old(comments) && r == Response(200, OkBody)
      ensures IsAdmin(s) && FindWeek(old(weeks), id).None? ==> r == NotFound && unchanged(this)
    {
      if !IsAdmin(s) {
        return Forbidden;
      }
      var found := IndexOfWeek(weeks, id);
      if found.None? {
        return NotFound;
      }
      weeks := weeks[found.value := ArrayMerge(weeks[found.value], input)];
      r := Response(200, OkBody);
    }

    /** week_delete: admins only; drops every week with the id and that
        week's comments. An unknown id still answers ok. */
    method WeekDelete(s: Session, id: string) returns (r: Response)
      modifies this
      ensures !IsAdmin(s) ==> r == Forbidden && unchanged(this)
      ensures IsAdmin(s) ==> weeks == WithoutWeek(old(weeks), id) && comments == old(comments) - {id}
      ensures IsAdmin(s) ==> r == Response(200, OkBody)
    {
      if !IsAdmin(s) {
        return Forbidden;
      }
      weeks := WithoutWeek(weeks, id);
      comments := comments - {id};
      r := Response(200, OkBody);
    }

    /** GET comments: a week's list ([] when it has none), or everything when
        the week id is falsy. */
    method GetComments(weekId: string) returns (r: CommentsReply)
      ensures Falsy(JStr(weekId)) ==> r == AllComments(comments)
      ensures !Falsy(JStr(weekId)) ==> r == WeekComments(CommentsOf(comments, weekId))
    {
      if weekId == "" || weekId == "0" {
        return AllComments(comments);
      }
      r := WeekComments(CommentsOf(comments, weekId));
    }

    /** comment_add: logged-in users only; appends one comment, whose author
        is the session user, to the end of the week's list. The week need not
        exist. */
    method CommentAdd(s: Session, input: Obj, now: int, stamp: string) returns (r: Response)
      modifies this
      ensures !LoggedIn(s) ==> r == Unauthorized && unchanged(this)
      ensures LoggedIn(s) && ArrayKey(Coalesce(input, "week_id", JNull)).None? ==> r == IllegalOffset && unchanged(this)
      ensures LoggedIn(s) && ArrayKey(Coalesce(input, "week_id", JNull)).Some? ==>
        var key := ArrayKey(Coalesce(input, "week_id", JNull)).value;
        var c := Comment("c_" + IntToString(now), s.user, Coalesce(input, "text", JStr("")), stamp);
        comments == old(comments)[key := CommentsOf(old(comments), key) + [c]] && weeks == old(weeks)
        && r == Response(200, CommentJson(c))
    {
      if !LoggedIn(s) {
        return Unauthorized;
      }
      var c := Comment("c_" + IntToString(now), s.user, Coalesce(input, "text", JStr("")), stamp);
      var key := ArrayKey(Coalesce(input, "week_id", JNull));
      if key.None? {
        return IllegalOffset;
      }
      comments := comments[key.value := CommentsOf(comments, key.value) + [c]];
      r := Response(200, CommentJson(c));
    }

    /** comment_delete: logged-in users only; removes the first comment of the
        week whose id is identical to comment_id, or answers 404 with no write. */
    method CommentDelete(s: Session, input: Obj) returns (r: Response)
      modifies this
      ensures !LoggedIn(s) ==> r == Unauthorized && unchanged(this)
      ensures LoggedIn(s) && ArrayKey(Coalesce(input, "week_id", JNull)).None? ==> r == IllegalOffset && unchanged(this)
      ensures LoggedIn(s) && ArrayKey(Coalesce(input, "week_id", JNull)).Some? ==>
        var key := ArrayKey(Coalesce(input, "week_id", JNull)).value;
        var found := FindComment(CommentsOf(old(comments), key), Coalesce(input, "comment_id", JNull));
        (found.Some? ==> comments == old(comments)[key := RemoveAt(old(comments)[key], found.value)]
                         && weeks == old(weeks) && r == Response(200, OkBody))
        && (found.None? ==> r == NotFound && unchanged(this))
    {
      if !LoggedIn(s) {
        return Unauthorized;
      }
      var key := ArrayKey(Coalesce(input, "week_id", JNull));
      if key.None? {
        return IllegalOffset;
      }
      var list := CommentsOf(comments, key.value);
      var found := IndexOfComment(list, Coalesce(input, "comment_id", JNull));
      if found.None? {
        return NotFound;
      }
      comments := comments[key.value := RemoveAt(list, found.value)];
      r := Response(200, OkBody);
    }
  }

  // ---------------------------------------------------------------------------
  // Properties across actions
  // ---------------------------------------------------------------------------

  /** After week_update, a key sent in the input reads as sent and every
      other key of the week reads as before. */
  lemma UpdatedWeekFields(w: Obj, input: Obj, k: string)
    requires UniqueKeys(input)
    ensures k in Keys(input) ==> Get(ArrayMerge(w, input), k) == Get(input, k)
    ensures k !in Keys(input) ==> Get(ArrayMerge(w, input), k) == Get(w, k)
  {
    ArrayMergeGet(w, input, k);
  }

  /** comment_delete takes out exactly one comment, the first one that
      matches, and keeps the others in order. */
  lemma {:induction false} CommentDeleteRemovesFirst(list: seq<Comment>, cid: Json)
    requires FindComment(list, cid).Some?
    ensures var k := FindComment(list, cid).value;
      var r := RemoveAt(list, k);
      |r| == |list| - 1 && multiset(r) + multiset{list[k]} == multiset(list)
      && JStr(list[k].id) == cid && r[..k] == list[..k] && r[k..] == list[k + 1..]
  {
    var k := FindComment(list, cid).value;
    var r := RemoveAt(list, k);
    assert r[..k] == list[..k];
    assert r[k..] == list[k + 1..];
  }
}
