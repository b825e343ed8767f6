/** The discussion board: a `topics` table keyed by a client-chosen
    `topic_id` and a `replies` table keyed by `reply_id`, whose rows name
    their topic by its `topic_id`. Both keys are UNIQUE text columns. */
module DiscussionApi {
  import opened Common
  import opened Sql
  import Html

  // ---------------------------------------------------------------------------
  // Rows and responses
  // ---------------------------------------------------------------------------

  /** A row of `topics` as the handlers select it (the AUTO_INCREMENT `id`
      is never read). */
  datatype Topic = Topic(topicId: string, subject: string, message: string, author: string, createdAt: int)

  /** A row of `replies`. */
  datatype Reply = Reply(replyId: string, topicId: string, text: string, author: string, createdAt: int)

  function Error(status: int, message: string): Response {
    Response(status, JObject([("error", JStr(message))]))
  }

  /** A PDOException caught by the handler: its message goes out as details. */
  function DbError(message: string, details: string): Response {
    Response(500, JObject([("error", JStr(message)), ("details", JStr(details))]))
  }

  function Message(status: int, message: string): Response {
    Response(status, JObject([("message", JStr(message))]))
  }

  /** The text a request value is bound to a statement as. */
  function Key(v: Json): string {
    PhpString(v)
  }

  function TopicJson(t: Topic): Json {
    JObject([("topic_id", JStr(t.topicId)), ("subject", JStr(t.subject)), ("message", JStr(t.message)),
             ("author", JStr(t.author)), ("created_at", JInt(t.createdAt))])
  }

  function ReplyJson(r: Reply): Json {
    JObject([("reply_id", JStr(r.replyId)), ("topic_id", JStr(r.topicId)), ("text", JStr(r.text)),
             ("author", JStr(r.author)), ("created_at", JInt(r.createdAt))])
  }

  function TopicsJson(ts: seq<Topic>): (r: Json)
    ensures r.JList? && |r.items| == |ts|
  {
    JList(seq(|ts|, i requires 0 <= i < |ts| => TopicJson(ts[i])))
  }

  function RepliesJson(rs: seq<Reply>): (r: Json)
    ensures r.JList? && |r.items| == |rs|
  {
    JList(seq(|rs|, i requires 0 <= i < |rs| => ReplyJson(rs[i])))
  }

  /** The value of a field that is known to be set. */
  function Field(data: Obj, k: string): Json {
    Coalesce(data, k, JNull)
  }

  // ---------------------------------------------------------------------------
  // Required fields
  // ---------------------------------------------------------------------------

  /** The first required field that is `empty()`, if any. */
  function FirstEmpty(data: Obj, fields: seq<string>): Option<string> {
    if fields == [] then None
    else if IsEmpty(data, fields[0]) then Some(fields[0])
    else FirstEmpty(data, fields[1..])
  }

  /** The field reported is empty and every field required before it is
      not; nothing is reported exactly when no required field is empty. */
  lemma {:induction false} FirstEmptyMeaning(data: Obj, fields: seq<string>)
    ensures FirstEmpty(data, fields).None? <==> forall i :: 0 <= i < |fields| ==> !IsEmpty(data, fields[i])
    ensures FirstEmpty(data, fields).Some? ==>
      exists i :: 0 <= i < |fields| && fields[i] == FirstEmpty(data, fields).value && IsEmpty(data, fields[i])
                  && forall j :: 0 <= j < i ==> !IsEmpty(data, fields[j])
  {
    if fields != [] && !IsEmpty(data, fields[0]) {
      var rest := fields[1..];
      FirstEmptyMeaning(data, rest);
      forall i | 0 < i < |fields| ensures fields[i] == rest[i - 1] {
      }
      if FirstEmpty(data, rest).Some? {
        var k :| 0 <= k < |rest| && rest[k] == FirstEmpty(data, rest).value && IsEmpty(data, rest[k])
                 && forall j :: 0 <= j < k ==> !IsEmpty(data, rest[j]);
        assert fields[k + 1] == rest[k];
      }
    }
  }

  /** The `foreach` over the required fields that stops at the first empty
      one. */
  method RequireFields(data: Obj, fields: seq<string>) returns (missing: Option<string>)
    ensures missing == FirstEmpty(data, fields)
  {
    var i := 0;
    while i < |fields|
      invariant 0 <= i <= |fields|
      invariant FirstEmpty(data, fields[i..]) == FirstEmpty(data, fields)
    {
      assert fields[i..][0] == fields[i] && fields[i..][1..] == fields[i + 1..];
      if IsEmpty(data, fields[i]) {
        return Some(fields[i]);
      }
      i := i + 1;
    }
    assert fields[i..] == [];
    missing := None;
  }

  /** The first empty field of four, written out. */
  lemma FirstEmptyOfFour(data: Obj, fields: seq<string>)
    requires |fields| == 4
    ensures FirstEmpty(data, fields) ==
      if IsEmpty(data, fields[0]) then Some(fields[0])
      else if IsEmpty(data, fields[1]) then Some(fields[1])
      else if IsEmpty(data, fields[2]) then Some(fields[2])
      else if IsEmpty(data, fields[3]) then Some(fields[3])
      else None
  {
    var f1 := fields[1..];
    var f2 := f1[1..];
    var f3 := f2[1..];
    assert f1[0] == fields[1] && f2[0] == fields[2] && f3[0] == fields[3] && f3[1..] == [];
    assert FirstEmpty(data, f3) == if IsEmpty(data, fields[3]) then Some(fields[3]) else None;
    assert FirstEmpty(data, f2) == if IsEmpty(data, fields[2]) then Some(fields[2]) else FirstEmpty(data, f3);
    assert FirstEmpty(data, f1) == if IsEmpty(data, fields[1]) then Some(fields[1]) else FirstEmpty(data, f2);
  }

  function Required(field: string): Response {
    Error(400, field + " is required")
  }

  // ---------------------------------------------------------------------------
  // Listing
  // ---------------------------------------------------------------------------

  /** The ORDER BY of getAllTopics: the sort column must be subject, author
      or created_at (default created_at); the lower-cased order must be asc
      or desc, and anything else, or nothing, is desc. */
  function ListOrdering(sort: Option<string>, order: Option<string>): (o: Ordering)
    ensures o.column in ["subject", "author", "created_at"]
    ensures sort.Some? && sort.value in ["subject", "author", "created_at"] ==> o.column == sort.value
    ensures (sort.None? || sort.value !in ["subject", "author", "created_at"]) ==> o.column == "created_at"
    ensures o.dir == Asc <==> order.Some? && AsciiLower(order.value) == "asc"
  {
    var column := AllowOr(sort, ["subject", "author", "created_at"], "created_at");
    var dir := AllowOr(Some(if order.Some? then AsciiLower(order.value) else "desc"), ["asc", "desc"], "desc");
    Ordering(column, if dir == "asc" then Asc else Desc)
  }

  predicate SearchMatches(term: string, t: Topic) {
    Contains(t.subject, term) || Contains(t.message, term) || Contains(t.author, term)
  }

  /** A search that is not `empty()` is trimmed and matched against subject,
      message and author; an empty one ("" or "0") lists everything. */
  function Search(rows: seq<Topic>, search: Option<string>): (r: seq<Topic>)
    ensures search.None? || search.value in ["", "0"] ==> r == rows
    ensures search.Some? && search.value !in ["", "0"] ==>
      forall t :: t in r <==> t in rows && SearchMatches(PhpTrim(search.value), t)
    ensures Subsequence(r, rows)
  {
    if search.None? || search.value in ["", "0"] then
      FilterAll(rows, (t: Topic) => true);
      FilterKeepsOrder(rows, (t: Topic) => true);
      rows
    else
      FilterKeepsOrder(rows, (t: Topic) => SearchMatches(PhpTrim(search.value), t));
      Filter(rows, (t: Topic) => SearchMatches(PhpTrim(search.value), t))
  }

  // ---------------------------------------------------------------------------
  // Table operations
  // ---------------------------------------------------------------------------

  predicate HasTopic(ts: seq<Topic>, key: string) {
    exists i :: 0 <= i < |ts| && ts[i].topicId == key
  }

  predicate HasReply(rs: seq<Reply>, key: string) {
    exists i :: 0 <= i < |rs| && rs[i].replyId == key
  }

  /** `SELECT … WHERE topic_id = :id LIMIT 1`. */
  function FindTopic(ts: seq<Topic>, key: string): (r: Option<Topic>)
    ensures r.Some? ==> r.value in ts && r.value.topicId == key
    ensures r.None? <==> !HasTopic(ts, key)
  {
    if ts == [] then None
    else if ts[0].topicId == key then Some(ts[0])
    else
      var r := FindTopic(ts[1..], key);
      assert HasTopic(ts, key) ==> HasTopic(ts[1..], key) by {
        if HasTopic(ts, key) {
          var i :| 0 <= i < |ts| && ts[i].topicId == key;
          assert ts[1..][i - 1] == ts[i];
        }
      }
      assert HasTopic(ts[1..], key) ==> HasTopic(ts, key) by {
        if HasTopic(ts[1..], key) {
          var i :| 0 <= i < |ts[1..]| && ts[1..][i].topicId == key;
          assert ts[i + 1] == ts[1..][i];
        }
      }
      r
  }

  /** `SELECT … FROM replies WHERE topic_id = :id`, in table order. */
  function RepliesOf(rs: seq<Reply>, key: string): (r: seq<Reply>)
    ensures forall x :: x in r <==> x in rs && x.topicId == key
    ensures Subsequence(r, rs)
  {
    FilterKeepsOrder(rs, (x: Reply) => x.topicId == key);
    Filter(rs, (x: Reply) => x.topicId == key)
  }

  /** `DELETE FROM topics WHERE topic_id = :id`. */
  function WithoutTopic(ts: seq<Topic>, key: string): (r: seq<Topic>)
    ensures forall t :: t in r <==> t in ts && t.topicId != key
    ensures Subsequence(r, ts)
    ensures !HasTopic(r, key)
  {
    FilterKeepsOrder(ts, (t: Topic) => t.topicId != key);
    var r := Filter(ts, (t: Topic) => t.topicId != key);
    assert forall i :: 0 <= i < |r| ==> r[i] in r;
    r
  }

  /** `DELETE FROM replies WHERE topic_id = :id`. */
  function WithoutRepliesOf(rs: seq<Reply>, key: string): (r: seq<Reply>)
    ensures forall x :: x in r <==> x in rs && x.topicId != key
    ensures Subsequence(r, rs)
    ensures RepliesOf(r, key) == []
  {
    FilterKeepsOrder(rs, (x: Reply) => x.topicId != key);
    var r := Filter(rs, (x: Reply) => x.topicId != key);
    var left := RepliesOf(r, key);
    assert forall i :: 0 <= i < |left| ==> left[i] in left;
    r
  }

  /** `DELETE FROM replies WHERE reply_id = :id`. */
  function WithoutReply(rs: seq<Reply>, key: string): (r: seq<Reply>)
    ensures forall x :: x in r <==> x in rs && x.replyId != key
    ensures Subsequence(r, rs)
    ensures !HasReply(r, key)
  {
    FilterKeepsOrder(rs, (x: Reply) => x.replyId != key);
    var r := Filter(rs, (x: Reply) => x.replyId != key);
    assert forall i :: 0 <= i < |r| ==> r[i] in r;
    r
  }

  /** The columns updateTopic sets. */
  datatype Patch = Patch(subject: Option<string>, message: Option<string>)

  function Apply(t: Topic, p: Patch): (r: Topic)
    ensures r.topicId == t.topicId && r.author == t.author && r.createdAt == t.createdAt
    ensures p.subject.None? ==> r.subject == t.subject
    ensures p.subject.Some? ==> r.subject == p.subject.value
    ensures p.message.None? ==> r.message == t.message
    ensures p.message.Some? ==> r.message == p.message.value
  {
    t.(subject := if p.subject.Some? then p.subject.value else t.subject,
       message := if p.message.Some? then p.message.value else t.message)
  }

  /** `UPDATE topics SET … WHERE topic_id = :id`. */
  function Patched(ts: seq<Topic>, key: string, p: Patch): (r: seq<Topic>)
    ensures |r| == |ts|
    ensures forall i :: 0 <= i < |ts| ==> r[i].topicId == ts[i].topicId
    ensures forall i :: 0 <= i < |ts| && ts[i].topicId == key ==> r[i] == Apply(ts[i], p)
    ensures forall i :: 0 <= i < |ts| && ts[i].topicId != key ==> r[i] == ts[i]
  {
    seq(|ts|, i requires 0 <= i < |ts| => if ts[i].topicId == key then Apply(ts[i], p) else ts[i])
  }

  /** After the UPDATE, the topic with the key reads as the patched old row. */
  lemma {:induction false} FindPatched(ts: seq<Topic>, key: string, p: Patch)
    requires HasTopic(ts, key)
    ensures FindTopic(Patched(ts, key, p), key) == Some(Apply(FindTopic(ts, key).value, p))
  {
    var r := Patched(ts, key, p);
    if ts[0].topicId != key {
      assert r[1..] == Patched(ts[1..], key, p);
      assert HasTopic(ts[1..], key) by {
        var i :| 0 <= i < |ts| && ts[i].topicId == key;
        assert ts[1..][i - 1] == ts[i];
      }
      FindPatched(ts[1..], key, p);
    }
  }

  // ---------------------------------------------------------------------------
  // Consistency of the two tables
  // ---------------------------------------------------------------------------

  predicate UniqueTopicIds(ts: seq<Topic>) {
    forall i, j :: 0 <= i < j < |ts| ==> ts[i].topicId != ts[j].topicId
  }

  predicate UniqueReplyIds(rs: seq<Reply>) {
    forall i, j :: 0 <= i < j < |rs| ==> rs[i].replyId != rs[j].replyId
  }

  /** Both keys are unique, and every reply belongs to an existing topic. */
  predicate Consistent(ts: seq<Topic>, rs: seq<Reply>) {
    UniqueTopicIds(ts) && UniqueReplyIds(rs)
    && forall i :: 0 <= i < |rs| ==> HasTopic(ts, rs[i].topicId)
  }

  /** The 409 check is what keeps topic ids unique. */
  lemma InsertTopicConsistent(ts: seq<Topic>, rs: seq<Reply>, t: Topic)
    requires Consistent(ts, rs) && !HasTopic(ts, t.topicId)
    ensures Consistent(ts + [t], rs)
  {
    var ts' := ts + [t];
    forall i, j | 0 <= i < j < |ts'| ensures ts'[i].topicId != ts'[j].topicId {
      if j == |ts| {
        assert ts'[i] == ts[i];
      }
    }
    forall i | 0 <= i < |rs| ensures HasTopic(ts', rs[i].topicId) {
      var k :| 0 <= k < |ts| && ts[k].topicId == rs[i].topicId;
      assert ts'[k] == ts[k];
    }
  }

  /** Without the 409 check a second topic with the same id would break
      uniqueness. */
  lemma InsertDuplicateTopicBreaks(ts: seq<Topic>, rs: seq<Reply>, t: Topic)
    requires HasTopic(ts, t.topicId)
    ensures !Consistent(ts + [t], rs)
  {
    var k :| 0 <= k < |ts| && ts[k].topicId == t.topicId;
    var ts' := ts + [t];
    assert ts'[k] == ts[k] && ts'[|ts|] == t;
  }

  /** A reply goes in only under an existing topic and with a new reply id. */
  lemma InsertReplyConsistent(ts: seq<Topic>, rs: seq<Reply>, x: Reply)
    requires Consistent(ts, rs) && HasTopic(ts, x.topicId) && !HasReply(rs, x.replyId)
    ensures Consistent(ts, rs + [x])
  {
    var rs' := rs + [x];
    forall i, j | 0 <= i < j < |rs'| ensures rs'[i].replyId != rs'[j].replyId {
      if j == |rs| {
        assert rs'[i] == rs[i];
      }
    }
  }

  lemma UpdateTopicConsistent(ts: seq<Topic>, rs: seq<Reply>, key: string, p: Patch)
    requires Consistent(ts, rs)
    ensures Consistent(Patched(ts, key, p), rs)
  {
    var ts' := Patched(ts, key, p);
    forall i | 0 <= i < |rs| ensures HasTopic(ts', rs[i].topicId) {
      var k :| 0 <= k < |ts| && ts[k].topicId == rs[i].topicId;
      assert ts'[k].topicId == ts[k].topicId;
    }
  }

  /** Deleting a topic together with its replies leaves no reply orphaned. */
  lemma DeleteTopicConsistent(ts: seq<Topic>, rs: seq<Reply>, key: string)
    requires Consistent(ts, rs)
    ensures Consistent(WithoutTopic(ts, key), WithoutRepliesOf(rs, key))
  {
    var ts', rs' := WithoutTopic(ts, key), WithoutRepliesOf(rs, key);
    SubsequenceUnique(ts', ts);
    SubsequenceUniqueReplies(rs', rs);
    forall i | 0 <= i < |rs'| ensures HasTopic(ts', rs'[i].topicId) {
      var x := rs'[i];
      assert x in rs;
      var k :| 0 <= k < |rs| && rs[k] == x;
      var m :| 0 <= m < |ts| && ts[m].topicId == x.topicId;
      assert ts[m] in ts';
      var m' :| 0 <= m' < |ts'| && ts'[m'] == ts[m];
    }
  }

  /** Deleting one reply keeps both tables consistent. */
  lemma DeleteReplyConsistent(ts: seq<Topic>, rs: seq<Reply>, key: string)
    requires Consistent(ts, rs)
    ensures Consistent(ts, WithoutReply(rs, key))
  {
    var rs' := WithoutReply(rs, key);
    SubsequenceUniqueReplies(rs', rs);
    forall i | 0 <= i < |rs'| ensures HasTopic(ts, rs'[i].topicId) {
      assert rs'[i] in rs;
      var k :| 0 <= k < |rs| && rs[k] == rs'[i];
    }
  }

  lemma SubsequenceUnique(r: seq<Topic>, s: seq<Topic>)
    requires Subsequence(r, s) && UniqueTopicIds(s)
    ensures UniqueTopicIds(r)
  {
    forall i, j | 0 <= i < j < |r| ensures r[i].topicId != r[j].topicId {
      SubsequenceIndices(r, s, i, j);
    }
  }

  lemma SubsequenceUniqueReplies(r: seq<Reply>, s: seq<Reply>)
    requires Subsequence(r, s) && UniqueReplyIds(s)
    ensures UniqueReplyIds(r)
  {
    forall i, j | 0 <= i < j < |r| ensures r[i].replyId != r[j].replyId {
      SubsequenceIndices(r, s, i, j);
    }
  }

  function ReplyTime(x: Reply): int {
    x.createdAt
  }

  /** No reply was stamped later than `now`: a clock that does not run
      backwards. */
  predicate StampedBy(rs: seq<Reply>, now: int) {
    forall i :: 0 <= i < |rs| ==> rs[i].createdAt <= now
  }

  /** A replies table in created_at order lists each topic's replies in
      created_at order, which is what `ORDER BY created_at ASC` asks for. */
  lemma RepliesListedInOrder(rs: seq<Reply>, key: string)
    requires SortedBy(rs, ReplyTime)
    ensures SortedBy(RepliesOf(rs, key), ReplyTime)
  {
    SubsequenceSorted(RepliesOf(rs, key), rs, ReplyTime);
  }

  // ---------------------------------------------------------------------------
  // What each handler checks before it writes
  // ---------------------------------------------------------------------------

  const TopicFields: seq<string> := ["topic_id", "subject", "message", "author"]
  const ReplyFields: seq<string> := ["reply_id", "topic_id", "text", "author"]

  /** The sanitized values createTopic inserts. */
  datatype TopicDraft = TopicDraft(topicId: Json, subject: Json, message: Json, author: Json)

  function CreateTopicCheck(data: Obj, ts: seq<Topic>): Check<TopicDraft> {
    var missing := FirstEmpty(data, TopicFields);
    if missing.Some? then Refuse(Required(missing.value))
    else
      var d := TopicDraft(Html.SanitizeValue(Field(data, "topic_id")), Html.SanitizeValue(Field(data, "subject")),
                          Html.SanitizeValue(Field(data, "message")), Html.SanitizeValue(Field(data, "author")));
      if HasTopic(ts, Key(d.topicId)) then Refuse(Error(409, "Topic ID already exists"))
      else Proceed(d)
  }

  /** createTopic refuses an empty field (the first in the order topic_id,
      subject, message, author) with 400, then a taken topic id with 409;
      anything else goes ahead with a topic id that is not taken. */
  lemma CreateTopicOutcomes(data: Obj, ts: seq<Topic>)
    ensures var c := CreateTopicCheck(data, ts);
      (IsEmpty(data, "topic_id") ==> c == Refuse(Required("topic_id")))
      && (!IsEmpty(data, "topic_id") && IsEmpty(data, "subject") ==> c == Refuse(Required("subject")))
      && (!IsEmpty(data, "topic_id") && !IsEmpty(data, "subject") && IsEmpty(data, "message") ==>
            c == Refuse(Required("message")))
      && ((!IsEmpty(data, "topic_id") && !IsEmpty(data, "subject") && !IsEmpty(data, "message")
           && IsEmpty(data, "author")) ==> c == Refuse(Required("author")))
    ensures var c := CreateTopicCheck(data, ts);
      var none := !IsEmpty(data, "topic_id") && !IsEmpty(data, "subject") && !IsEmpty(data, "message")
                  && !IsEmpty(data, "author");
      (none && HasTopic(ts, Key(Html.SanitizeValue(Field(data, "topic_id")))) ==> c == Refuse(Error(409, "Topic ID already exists")))
      && (c.Proceed? <==> none && !HasTopic(ts, Key(Html.SanitizeValue(Field(data, "topic_id")))))
      && (c.Proceed? ==> c.value.topicId == Html.SanitizeValue(Field(data, "topic_id")) && !HasTopic(ts, Key(c.value.topicId)))
  {
    FirstEmptyOfFour(data, TopicFields);
  }

  /** updateTopic looks the topic up by the topic_id as sent (it is not
      sanitized) and sets only the fields supplied. */
  datatype Change = Change(key: string, patch: Patch)

  /** The `$fields` updateTopic collects: the sanitized subject and message,
      each only when it is set. */
  function TopicPatch(data: Obj): (p: Patch)
    ensures p.subject.Some? <==> IsSet(data, "subject")
    ensures p.message.Some? <==> IsSet(data, "message")
    ensures IsSet(data, "subject") && Field(data, "subject").JStr? ==>
      p.subject.value == Html.Sanitize(Field(data, "subject").s) && Html.Escaped(p.subject.value)
    ensures IsSet(data, "message") && Field(data, "message").JStr? ==>
      p.message.value == Html.Sanitize(Field(data, "message").s) && Html.Escaped(p.message.value)
  {
    Patch(if IsSet(data, "subject") then Some(Html.SanitizedString(Field(data, "subject"))) else None,
          if IsSet(data, "message") then Some(Html.SanitizedString(Field(data, "message"))) else None)
  }

  function UpdateTopicCheck(data: Obj, ts: seq<Topic>): Check<Change> {
    if IsEmpty(data, "topic_id") then Refuse(Error(400, "topic_id required"))
    else
      var key := Key(Field(data, "topic_id"));
      if !HasTopic(ts, key) then Refuse(Error(404, "Topic not found"))
      else
        var p := TopicPatch(data);
        if p.subject.None? && p.message.None? then Refuse(Error(400, "No fields to update"))
        else Proceed(Change(key, p))
  }

  /** The refusals of updateTopic, in their order. */
  lemma UpdateTopicRefusals(data: Obj, ts: seq<Topic>)
    ensures var c := UpdateTopicCheck(data, ts);
      (IsEmpty(data, "topic_id") ==> c == Refuse(Error(400, "topic_id required")))
      && (!IsEmpty(data, "topic_id") && !HasTopic(ts, Key(Field(data, "topic_id"))) ==>
            c == Refuse(Error(404, "Topic not found")))
      && ((!IsEmpty(data, "topic_id") && HasTopic(ts, Key(Field(data, "topic_id")))
           && !IsSet(data, "subject") && !IsSet(data, "message")) ==> c == Refuse(Error(400, "No fields to update")))
  {
  }

  /** An accepted update targets an existing topic by the id as sent and
      sets the fields TopicPatch collects. */
  lemma UpdateTopicProceeds(data: Obj, ts: seq<Topic>)
    ensures var c := UpdateTopicCheck(data, ts);
      c.Proceed? <==> !IsEmpty(data, "topic_id") && HasTopic(ts, Key(Field(data, "topic_id")))
                      && (IsSet(data, "subject") || IsSet(data, "message"))
    ensures var c := UpdateTopicCheck(data, ts);
      c.Proceed? ==> c.value == Change(Key(Field(data, "topic_id")), TopicPatch(data))
  {
  }

  /** The sanitized values createReply inserts. */
  datatype ReplyDraft = ReplyDraft(replyId: Json, topicId: Json, text: Json, author: Json)

  function CreateReplyCheck(data: Obj, ts: seq<Topic>, rs: seq<Reply>): Check<ReplyDraft> {
    var missing := FirstEmpty(data, ReplyFields);
    if missing.Some? then Refuse(Required(missing.value))
    else
      var d := ReplyDraft(Html.SanitizeValue(Field(data, "reply_id")), Html.SanitizeValue(Field(data, "topic_id")),
                          Html.SanitizeValue(Field(data, "text")), Html.SanitizeValue(Field(data, "author")));
      if !HasTopic(ts, Key(d.topicId)) then Refuse(Error(404, "Parent topic not found"))
      else if HasReply(rs, Key(d.replyId)) then Refuse(Error(409, "Reply ID already exists"))
      else Proceed(d)
  }

  /** createReply checks the required fields (400), then the parent topic
      (404), then the reply id (409); a reply that goes ahead has a parent
      and a fresh id. */
  lemma CreateReplyOutcomes(data: Obj, ts: seq<Topic>, rs: seq<Reply>)
    ensures var c := CreateReplyCheck(data, ts, rs);
      (IsEmpty(data, "reply_id") ==> c == Refuse(Required("reply_id")))
      && (!IsEmpty(data, "reply_id") && IsEmpty(data, "topic_id") ==> c == Refuse(Required("topic_id")))
      && (!IsEmpty(data, "reply_id") && !IsEmpty(data, "topic_id") && IsEmpty(data, "text") ==>
            c == Refuse(Required("text")))
      && ((!IsEmpty(data, "reply_id") && !IsEmpty(data, "topic_id") && !IsEmpty(data, "text")
           && IsEmpty(data, "author")) ==> c == Refuse(Required("author")))
    ensures var c := CreateReplyCheck(data, ts, rs);
      var none := !IsEmpty(data, "reply_id") && !IsEmpty(data, "topic_id") && !IsEmpty(data, "text")
                  && !IsEmpty(data, "author");
      var tid := Key(Html.SanitizeValue(Field(data, "topic_id")));
      var rid := Key(Html.SanitizeValue(Field(data, "reply_id")));
      (none && !HasTopic(ts, tid) ==> c == Refuse(Error(404, "Parent topic not found")))
      && (none && HasTopic(ts, tid) && HasReply(rs, rid) ==> c == Refuse(Error(409, "Reply ID already exists")))
      && (c.Proceed? <==> none && HasTopic(ts, tid) && !HasReply(rs, rid))
      && (c.Proceed? ==> Key(c.value.topicId) == tid && Key(c.value.replyId) == rid)
  {
    FirstEmptyOfFour(data, ReplyFields);
  }

  // ---------------------------------------------------------------------------
  // The service
  // ---------------------------------------------------------------------------

  /** Each write takes `fault`: None when the statement succeeds, or the
      message of the PDOException it throws. */
  class DiscussionDb {
    var topics: seq<Topic>
    var replies: seq<Reply>

    predicate Valid()
      reads this
    {
      Consistent(topics, replies) && SortedBy(replies, ReplyTime)
    }

    constructor()
      ensures topics == [] && replies == [] && Valid()
    {
      topics, replies := [], [];
    }

    /** getAllTopics: the matching topics and the order to list them in. */
    method ListTopics(search: Option<string>, sort: Option<string>, order: Option<string>)
      returns (r: Response, ordering: Ordering)
      ensures r == Response(200, TopicsJson(Search(topics, search)))
      ensures ordering == ListOrdering(sort, order)
    {
      r := Response(200, TopicsJson(Search(topics, search)));
      ordering := ListOrdering(sort, order);
    }

    /** getTopicById. */
    method GetTopic(idArg: Json) returns (r: Response)
      ensures Falsy(idArg) ==> r == Error(400, "Missing topic id")
      ensures !Falsy(idArg) ==>
        var found := FindTopic(topics, Key(idArg));
        (found.None? ==> r == Error(404, "Topic not found"))
        && (found.Some? ==> r == Response(200, TopicJson(found.value)))
    {
      if Falsy(idArg) {
        return Error(400, "Missing topic id");
      }
      var found := FindTopic(topics, Key(idArg));
      if found.None? {
        return Error(404, "Topic not found");
      }
      r := Response(200, TopicJson(found.value));
    }

    /** createTopic: nothing is inserted unless every check passes and the
        INSERT succeeds. */
    method CreateTopic(data: Obj, now: int, fault: Option<string>) returns (r: Response)
      modifies this
      ensures old(Valid()) ==> Valid()
      ensures var c := CreateTopicCheck(data, old(topics));
        (c.Refuse? ==> r == c.response && unchanged(this))
        && (c.Proceed? && fault.Some? ==> r == DbError("Failed to create topic", fault.value) && unchanged(this))
        && (c.Proceed? && fault.None? ==>
              topics == old(topics) + [Topic(Key(c.value.topicId), PhpString(c.value.subject),
                                             PhpString(c.value.message), PhpString(c.value.author), now)]
              && replies == old(replies)
              && r == Response(201, JObject([("message", JStr("Topic created")), ("topic_id", c.value.topicId)])))
    {
      var c := CreateTopicCheck(data, topics);
      if c.Refuse? {
        return c.response;
      }
      if fault.Some? {
        return DbError("Failed to create topic", fault.value);
      }
      var d := c.value;
      var row := Topic(Key(d.topicId), PhpString(d.subject), PhpString(d.message), PhpString(d.author), now);
      assert !HasTopic(topics, row.topicId) by {
        CreateTopicOutcomes(data, topics);
      }
      if Valid() {
        InsertTopicConsistent(topics, replies, row);
      }
      topics := topics + [row];
      r := Response(201, JObject([("message", JStr("Topic created")), ("topic_id", d.topicId)]));
    }

    /** updateTopic: only the supplied subject and message change. */
    method UpdateTopic(data: Obj, fault: Option<string>) returns (r: Response)
      modifies this
      ensures old(Valid()) ==> Valid()
      ensures var c := UpdateTopicCheck(data, old(topics));
        (c.Refuse? ==> r == c.response && unchanged(this))
        && (c.Proceed? && fault.Some? ==> r == DbError("Failed to update topic", fault.value) && unchanged(this))
        && (c.Proceed? && fault.None? ==>
              topics == Patched(old(topics), c.value.key, c.value.patch) && replies == old(replies)
              && FindTopic(topics, c.value.key) == Some(Apply(FindTopic(old(topics), c.value.key).value, c.value.patch))
              && r == Message(200, "Topic updated"))
    {
      var c := UpdateTopicCheck(data, topics);
      if c.Refuse? {
        return c.response;
      }
      if fault.Some? {
        return DbError("Failed to update topic", fault.value);
      }
      if Valid() {
        UpdateTopicConsistent(topics, replies, c.value.key, c.value.patch);
      }
      FindPatched(topics, c.value.key, c.value.patch);
      topics := Patched(topics, c.value.key, c.value.patch);
      r := Message(200, "Topic updated");
    }

    /** deleteTopic: the topic and its replies go in one transaction; a
        failure rolls both back. */
    method DeleteTopic(idArg: Json, fault: Option<string>) returns (r: Response)
      modifies this
      ensures old(Valid()) ==> Valid()
      ensures Falsy(idArg) ==> r == Error(400, "topic_id required") && unchanged(this)
      ensures !Falsy(idArg) ==>
        var key := Key(idArg);
        (!HasTopic(old(topics), key) ==> r == Error(404, "Topic not found") && unchanged(this))
        && (HasTopic(old(topics), key) && fault.Some? ==>
              r == DbError("Failed to delete topic", fault.value) && unchanged(this))
        && (HasTopic(old(topics), key) && fault.None? ==>
              topics == WithoutTopic(old(topics), key) && replies == WithoutRepliesOf(old(replies), key)
              && r == Message(200, "Topic and replies deleted"))
    {
      if Falsy(idArg) {
        return Error(400, "topic_id required");
      }
      var key := Key(idArg);
      if !HasTopic(topics, key) {
        return Error(404, "Topic not found");
      }
      // Both DELETEs take effect at the commit; a failure rolls both back.
      var remainingReplies := WithoutRepliesOf(replies, key);
      var remainingTopics := WithoutTopic(topics, key);
      if fault.Some? {
        return DbError("Failed to delete topic", fault.value);
      }
      if Valid() {
        DeleteTopicConsistent(topics, replies, key);
        SubsequenceSorted(remainingReplies, replies, ReplyTime);
      }
      replies := remainingReplies;
      topics := remainingTopics;
      r := Message(200, "Topic and replies deleted");
    }

    /** GET replies: without a topic id the router answers with an empty
        list; otherwise getRepliesByTopicId lists the topic's replies. */
    method GetReplies(topicIdArg: Json) returns (r: Response)
      ensures Falsy(topicIdArg) ==> r == Response(200, JList([]))
      ensures !Falsy(topicIdArg) ==> r == Response(200, RepliesJson(RepliesOf(replies, Key(topicIdArg))))
      ensures !Falsy(topicIdArg) && Valid() ==> SortedBy(RepliesOf(replies, Key(topicIdArg)), ReplyTime)
    {
      if Falsy(topicIdArg) {
        return Response(200, JList([]));
      }
      var listed := RepliesOf(replies, Key(topicIdArg));
      if Valid() {
        RepliesListedInOrder(replies, Key(topicIdArg));
      }
      r := Response(200, RepliesJson(listed));
    }

    /** createReply: the reply is inserted only under an existing topic and
        with a reply id not yet taken, stamped with a clock that does not
        run backwards. */
    method CreateReply(data: Obj, now: int, fault: Option<string>) returns (r: Response)
      requires StampedBy(replies, now)
      modifies this
      ensures old(Valid()) ==> Valid()
      ensures var c := CreateReplyCheck(data, old(topics), old(replies));
        (c.Refuse? ==> r == c.response && unchanged(this))
        && (c.Proceed? && fault.Some? ==> r == DbError("Failed to create reply", fault.value) && unchanged(this))
        && (c.Proceed? && fault.None? ==>
              replies == old(replies) + [Reply(Key(c.value.replyId), Key(c.value.topicId), PhpString(c.value.text),
                                               PhpString(c.value.author), now)]
              && topics == old(topics)
              && r == Response(201, JObject([("message", JStr("Reply created")), ("reply_id", c.value.replyId)])))
    {
      var c := CreateReplyCheck(data, topics, replies);
      if c.Refuse? {
        return c.response;
      }
      if fault.Some? {
        return DbError("Failed to create reply", fault.value);
      }
      var d := c.value;
      var row := Reply(Key(d.replyId), Key(d.topicId), PhpString(d.text), PhpString(d.author), now);
      assert HasTopic(topics, row.topicId) && !HasReply(replies, row.replyId) by {
        CreateReplyOutcomes(data, topics, replies);
      }
      if Valid() {
        InsertReplyConsistent(topics, replies, row);
        AppendSorted(replies, ReplyTime, row);
      }
      replies := replies + [row];
      r := Response(201, JObject([("message", JStr("Reply created")), ("reply_id", d.replyId)]));
    }

    /** deleteReply: only the reply with that id goes. */
    method DeleteReply(idArg: Json, fault: Option<string>) returns (r: Response)
      modifies this
      ensures old(Valid()) ==> Valid()
      ensures Falsy(idArg) ==> r == Error(400, "reply_id required") && unchanged(this)
      ensures !Falsy(idArg) ==>
        var key := Key(idArg);
        (!HasReply(old(replies), key) ==> r == Error(404, "Reply not found") && unchanged(this))
        && (HasReply(old(replies), key) && fault.Some? ==>
              r == DbError("Failed to delete reply", fault.value) && unchanged(this))
        && (HasReply(old(replies), key) && fault.None? ==>
              replies == WithoutReply(old(replies), key) && topics == old(topics)
              && r == Message(200, "Reply deleted"))
    {
      if Falsy(idArg) {
        return Error(400, "reply_id required");
      }
      var key := Key(idArg);
      if !HasReply(replies, key) {
        return Error(404, "Reply not found");
      }
      if fault.Some? {
        return DbError("Failed to delete reply", fault.value);
      }
      var remaining := WithoutReply(replies, key);
      if Valid() {
        DeleteReplyConsistent(topics, replies, key);
        SubsequenceSorted(remaining, replies, ReplyTime);
      }
      replies := remaining;
      r := Message(200, "Reply deleted");
    }
  }
}
