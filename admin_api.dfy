/** The student administration service: a `students` table whose
    `student_id` and `email` columns are both UNIQUE, reachable only by a
    session whose role is admin. */
module AdminApi {
  import opened Common
  import opened Sql
  import Html

  // ---------------------------------------------------------------------------
  // Rows, responses and the admin gate
  // ---------------------------------------------------------------------------

  /** A row of `students`; `password` holds a password hash. */
  datatype Student = Student(studentId: string, name: string, email: string, password: string, createdAt: int)

  function Reply(status: int, success: bool, message: string): Response {
    Response(status, JObject([("success", JBool(success)), ("message", JStr(message))]))
  }

  /** A TypeError from a built-in given an array: nothing catches it. */
  const Fatal: Response := Response(500, JNull)

  /** The session values the gate reads (JNull when unset). */
  datatype Session = Session(userId: Json, role: Json)

  predicate Admitted(s: Session) {
    s.userId != JNull && s.role == JStr("admin")
  }

  /** The gate at the top of the file: a request without a logged-in user,
      or whose role is not exactly "admin", is answered 403 before anything
      else runs. */
  function Gate(s: Session): (r: Option<Response>)
    ensures r.None? <==> Admitted(s)
    ensures r.Some? ==> r.value.status == 403 && r.value == Reply(403, false, "Access denied")
  {
    if s.userId == JNull || s.role != JStr("admin") then Some(Reply(403, false, "Access denied")) else None
  }

  /** The text a request value is bound to a statement as. */
  function Key(v: Json): string {
    PhpString(v)
  }

  /** The value of a field that is known to be set. */
  function Field(data: Obj, k: string): Json {
    Coalesce(data, k, JNull)
  }

  /** `sanitizeInput`: trim, strip_tags, htmlspecialchars. `trim` takes a
      string, so an array is a TypeError (None); other scalars are
      converted. */
  function SanitizeInput(v: Json): (r: Option<string>)
    ensures r.None? <==> IsArray(v)
    ensures v.JStr? ==> r == Some(Html.Sanitize(v.s))
    ensures r.Some? ==> Html.Escaped(r.value)
  {
    if IsArray(v) then None else Some(Html.Sanitize(PhpString(v)))
  }

  /** The columns getStudents and getStudentById select; the password hash is
      never among them. */
  function StudentJson(s: Student): (r: Json)
    ensures r.JObject? && Get(r.members, "password").None?
  {
    var ms := [("student_id", JStr(s.studentId)), ("name", JStr(s.name)), ("email", JStr(s.email)),
               ("created_at", JInt(s.createdAt))];
    assert Keys(ms) == ["student_id", "name", "email", "created_at"];
    JObject(ms)
  }

  function StudentsJson(ss: seq<Student>): (r: Json)
    ensures r.JList? && |r.items| == |ss|
  {
    JList(seq(|ss|, i requires 0 <= i < |ss| => StudentJson(ss[i])))
  }

  function Data(v: Json): Response {
    Response(200, JObject([("success", JBool(true)), ("data", v)]))
  }

  // ---------------------------------------------------------------------------
  // strlen
  // ---------------------------------------------------------------------------

  /** The bytes a character takes in UTF-8. */
  function Utf8Size(c: char): (n: nat)
    ensures 1 <= n <= 4
    ensures c as int < 0x80 ==> n == 1
  {
    if c as int < 0x80 then 1 else if c as int < 0x800 then 2 else if c as int < 0x1_0000 then 3 else 4
  }

  /** `strlen`: the length of the UTF-8 text in bytes. */
  function StrLen(s: string): (n: nat)
    ensures |s| <= n <= 4 * |s|
  {
    if s == [] then 0 else Utf8Size(s[0]) + StrLen(s[1..])
  }

  /** For ASCII text, bytes and characters agree. */
  lemma {:induction false} StrLenAscii(s: string)
    requires forall i :: 0 <= i < |s| ==> s[i] as int < 0x80
    ensures StrLen(s) == |s|
  {
    if s != [] {
      assert forall i :: 0 <= i < |s[1..]| ==> s[1..][i] == s[i + 1];
      StrLenAscii(s[1..]);
    }
  }

  // ---------------------------------------------------------------------------
  // Listing
  // ---------------------------------------------------------------------------

  /** The ORDER BY column of getStudents: name, student_id or email, and name
      for anything else. */
  function SortColumn(sort: Option<string>): (c: string)
    ensures c in ["name", "student_id", "email"]
    ensures sort.Some? && sort.value in ["name", "student_id", "email"] ==> c == sort.value
    ensures (sort.None? || sort.value !in ["name", "student_id", "email"]) ==> c == "name"
  {
    AllowOr(sort, ["name", "student_id", "email"], "name")
  }

  /** A set search is lower-cased and matched against the lower-cased name,
      student id and email. */
  predicate SearchMatches(term: string, s: Student) {
    Contains(AsciiLower(s.name), term) || Contains(AsciiLower(s.studentId), term) || Contains(AsciiLower(s.email), term)
  }

  function Search(rows: seq<Student>, search: Option<string>): (r: seq<Student>)
    ensures search.None? ==> r == rows
    ensures search.Some? ==> forall s :: s in r <==> s in rows && SearchMatches(AsciiLower(search.value), s)
    ensures Subsequence(r, rows)
  {
    if search.None? then
      FilterAll(rows, (s: Student) => true);
      FilterKeepsOrder(rows, (s: Student) => true);
      rows
    else
      FilterKeepsOrder(rows, (s: Student) => SearchMatches(AsciiLower(search.value), s));
      Filter(rows, (s: Student) => SearchMatches(AsciiLower(search.value), s))
  }

  // ---------------------------------------------------------------------------
  // Table operations
  // ---------------------------------------------------------------------------

  predicate HasStudent(rows: seq<Student>, sid: string) {
    exists i :: 0 <= i < |rows| && rows[i].studentId == sid
  }

  predicate HasEmail(rows: seq<Student>, email: string) {
    exists i :: 0 <= i < |rows| && rows[i].email == email
  }

  /** Another student than `sid` has this email. */
  predicate EmailTakenByOther(rows: seq<Student>, email: string, sid: string) {
    exists i :: 0 <= i < |rows| && rows[i].email == email && rows[i].studentId != sid
  }

  /** `SELECT … WHERE student_id = :student_id`. */
  function FindStudent(rows: seq<Student>, sid: string): (r: Option<Student>)
    ensures r.Some? ==> r.value in rows && r.value.studentId == sid
    ensures r.None? <==> !HasStudent(rows, sid)
  {
    if rows == [] then None
    else if rows[0].studentId == sid then Some(rows[0])
    else
      var r := FindStudent(rows[1..], sid);
      assert HasStudent(rows, sid) ==> HasStudent(rows[1..], sid) by {
        if HasStudent(rows, sid) {
          var i :| 0 <= i < |rows| && rows[i].studentId == sid;
          assert rows[1..][i - 1] == rows[i];
        }
      }
      assert HasStudent(rows[1..], sid) ==> HasStudent(rows, sid) by {
        if HasStudent(rows[1..], sid) {
          var i :| 0 <= i < |rows[1..]| && rows[1..][i].studentId == sid;
          assert rows[i + 1] == rows[1..][i];
        }
      }
      r
  }

  /** `DELETE FROM students WHERE student_id = ?`. */
  function WithoutStudent(rows: seq<Student>, sid: string): (r: seq<Student>)
    ensures forall s :: s in r <==> s in rows && s.studentId != sid
    ensures Subsequence(r, rows)
    ensures !HasStudent(r, sid)
  {
    FilterKeepsOrder(rows, (s: Student) => s.studentId != sid);
    var r := Filter(rows, (s: Student) => s.studentId != sid);
    assert forall i :: 0 <= i < |r| ==> r[i] in r;
    r
  }

  /** The columns updateStudent sets. */
  datatype Patch = Patch(name: Option<string>, email: Option<string>)

  function Apply(s: Student, p: Patch): (r: Student)
    ensures r.studentId == s.studentId && r.password == s.password && r.createdAt == s.createdAt
    ensures r.name == (if p.name.Some? then p.name.value else s.name)
    ensures r.email == (if p.email.Some? then p.email.value else s.email)
  {
    s.(name := if p.name.Some? then p.name.value else s.name,
       email := if p.email.Some? then p.email.value else s.email)
  }

  /** `UPDATE students SET … WHERE student_id = :sid`. */
  function Patched(rows: seq<Student>, sid: string, p: Patch): (r: seq<Student>)
    ensures |r| == |rows|
    ensures forall i :: 0 <= i < |rows| && rows[i].studentId == sid ==> r[i] == Apply(rows[i], p)
    ensures forall i :: 0 <= i < |rows| && rows[i].studentId != sid ==> r[i] == rows[i]
  {
    seq(|rows|, i requires 0 <= i < |rows| => if rows[i].studentId == sid then Apply(rows[i], p) else rows[i])
  }

  /** `UPDATE students SET password = ? WHERE student_id = ?`. */
  function WithPassword(rows: seq<Student>, sid: string, hash: string): (r: seq<Student>)
    ensures |r| == |rows|
    ensures forall i :: 0 <= i < |rows| && rows[i].studentId == sid ==> r[i] == rows[i].(password := hash)
    ensures forall i :: 0 <= i < |rows| && rows[i].studentId != sid ==> r[i] == rows[i]
  {
    seq(|rows|, i requires 0 <= i < |rows| => if rows[i].studentId == sid then rows[i].(password := hash) else rows[i])
  }

  // ---------------------------------------------------------------------------
  // The UNIQUE columns
  // ---------------------------------------------------------------------------

  /** No two students share a student id or an email. */
  predicate Unique(rows: seq<Student>) {
    forall i, j :: 0 <= i < j < |rows| ==> rows[i].studentId != rows[j].studentId && rows[i].email != rows[j].email
  }

  /** The 409 check of createStudent is what keeps both columns unique. */
  lemma InsertUnique(rows: seq<Student>, s: Student)
    requires Unique(rows) && !HasStudent(rows, s.studentId) && !HasEmail(rows, s.email)
    ensures Unique(rows + [s])
  {
    var rows' := rows + [s];
    forall i, j | 0 <= i < j < |rows'|
      ensures rows'[i].studentId != rows'[j].studentId && rows'[i].email != rows'[j].email
    {
      assert rows'[i] == rows[i];
      if j < |rows| {
        assert rows'[j] == rows[j];
      }
    }
  }

  /** Checking the new email only against the other students is enough:
      with unique student ids, the row updated is the only one that may
      already hold it. */
  lemma UpdateUnique(rows: seq<Student>, sid: string, p: Patch)
    requires Unique(rows)
    requires p.email.Some? ==> !EmailTakenByOther(rows, p.email.value, sid)
    ensures Unique(Patched(rows, sid, p))
  {
    var rows' := Patched(rows, sid, p);
    forall i, j | 0 <= i < j < |rows'|
      ensures rows'[i].studentId != rows'[j].studentId && rows'[i].email != rows'[j].email
    {
      if rows[i].studentId == sid && p.email.Some? {
        assert rows[j].studentId != sid;
      } else if rows[j].studentId == sid && p.email.Some? {
        assert rows[i].studentId != sid;
      }
    }
  }

  /** Had the check not excluded the student itself, a student could not
      re-submit their own email. */
  lemma OwnEmailNotTaken(rows: seq<Student>, i: int)
    requires Unique(rows) && 0 <= i < |rows|
    ensures !EmailTakenByOther(rows, rows[i].email, rows[i].studentId)
    ensures HasEmail(rows, rows[i].email)
  {
  }

  lemma DeleteUnique(rows: seq<Student>, sid: string)
    requires Unique(rows)
    ensures Unique(WithoutStudent(rows, sid))
  {
    var r := WithoutStudent(rows, sid);
    forall i, j | 0 <= i < j < |r| ensures r[i].studentId != r[j].studentId && r[i].email != r[j].email {
      SubsequenceIndices(r, rows, i, j);
    }
  }

  lemma PasswordUnique(rows: seq<Student>, sid: string, hash: string)
    requires Unique(rows)
    ensures Unique(WithPassword(rows, sid, hash))
  {
    var r := WithPassword(rows, sid, hash);
    forall i, j | 0 <= i < j < |r| ensures r[i].studentId != r[j].studentId && r[i].email != r[j].email {
      assert r[i].studentId == rows[i].studentId && r[i].email == rows[i].email;
      assert r[j].studentId == rows[j].studentId && r[j].email == rows[j].email;
    }
  }

  // ---------------------------------------------------------------------------
  // What each handler checks before it writes
  // ---------------------------------------------------------------------------

  /** The sanitized values createStudent inserts, and the password sent. */
  datatype Draft = Draft(studentId: string, name: string, email: string, password: string)

  /** The sanitized student id, name and email, with the password as sent;
      None when one of the three is an array. */
  function SanitizedDraft(data: Obj): (r: Option<Draft>)
    ensures r.None? <==> IsArray(Field(data, "student_id")) || IsArray(Field(data, "name")) || IsArray(Field(data, "email"))
    ensures r.Some? ==>
      Some(r.value.studentId) == SanitizeInput(Field(data, "student_id"))
      && Some(r.value.name) == SanitizeInput(Field(data, "name"))
      && Some(r.value.email) == SanitizeInput(Field(data, "email"))
      && r.value.password == PhpString(Field(data, "password"))
  {
    var sid, name, email := SanitizeInput(Field(data, "student_id")), SanitizeInput(Field(data, "name")),
                            SanitizeInput(Field(data, "email"));
    if sid.None? || name.None? || email.None? then None
    else Some(Draft(sid.value, name.value, email.value, PhpString(Field(data, "password"))))
  }

  predicate AllSet(data: Obj) {
    IsSet(data, "student_id") && IsSet(data, "name") && IsSet(data, "email") && IsSet(data, "password")
  }

  /** createStudent before the INSERT. `isEmail` is FILTER_VALIDATE_EMAIL. */
  function CreateStudentCheck(data: Obj, isEmail: string -> bool, rows: seq<Student>): Check<Draft> {
    if !AllSet(data) then Refuse(Reply(400, false, "Missing required fields"))
    else
      var d := SanitizedDraft(data);
      if d.None? then Refuse(Fatal)
      else if !isEmail(d.value.email) then Refuse(Reply(400, false, "Invalid email format"))
      else if HasStudent(rows, d.value.studentId) || HasEmail(rows, d.value.email) then
        Refuse(Reply(409, false, "Student already exists"))
      else if IsArray(Field(data, "password")) then Refuse(Fatal)
      else Proceed(d.value)
  }

  /** createStudent refuses a missing field (400), then an invalid email
      (400), then a taken student id or email (409): a student that goes in
      has all four fields, a fresh student id and a fresh, valid email. */
  lemma CreateStudentOutcomes(data: Obj, isEmail: string -> bool, rows: seq<Student>)
    ensures var c := CreateStudentCheck(data, isEmail, rows);
      var d := SanitizedDraft(data);
      (!AllSet(data) ==> c == Refuse(Reply(400, false, "Missing required fields")))
      && (AllSet(data) && d.Some? && !isEmail(d.value.email) ==> c == Refuse(Reply(400, false, "Invalid email format")))
      && ((AllSet(data) && d.Some? && isEmail(d.value.email)
           && (HasStudent(rows, d.value.studentId) || HasEmail(rows, d.value.email))) ==>
            c == Refuse(Reply(409, false, "Student already exists")))
    ensures var c := CreateStudentCheck(data, isEmail, rows);
      c.Proceed? ==>
        AllSet(data) && Some(c.value) == SanitizedDraft(data) && isEmail(c.value.email)
        && !HasStudent(rows, c.value.studentId) && !HasEmail(rows, c.value.email)
  {
    var c := CreateStudentCheck(data, isEmail, rows);
    var d := SanitizedDraft(data);
    if AllSet(data) && d.Some? {
      var v := d.value;
      if !isEmail(v.email) {
        assert c == Refuse(Reply(400, false, "Invalid email format"));
      } else if HasStudent(rows, v.studentId) || HasEmail(rows, v.email) {
        assert c == Refuse(Reply(409, false, "Student already exists"));
      } else if IsArray(Field(data, "password")) {
        assert c == Refuse(Fatal);
      } else {
        assert c == Proceed(v);
      }
    }
  }

  /** An invalid email is refused before the table is looked at, whatever
      the table holds. */
  lemma CreateStudentEmailFirst(data: Obj, isEmail: string -> bool, rows: seq<Student>, rows': seq<Student>)
    ensures var email := SanitizeInput(Field(data, "email"));
      email.Some? && !isEmail(email.value) ==>
        CreateStudentCheck(data, isEmail, rows) == CreateStudentCheck(data, isEmail, rows')
  {
  }

  /** The student id updateStudent targets and the columns it sets. */
  datatype Change = Change(studentId: string, patch: Patch)

  /** The `$fields` updateStudent collects: the sanitized name and email,
      each when it is set (None when one is an array). */
  function StudentPatch(data: Obj): (p: Option<Patch>)
    ensures p.None? <==> (IsSet(data, "name") && IsArray(Field(data, "name")))
                         || (IsSet(data, "email") && IsArray(Field(data, "email")))
    ensures p.Some? ==> (p.value.name.Some? <==> IsSet(data, "name")) && (p.value.email.Some? <==> IsSet(data, "email"))
    ensures p.Some? && p.value.name.Some? ==> Some(p.value.name.value) == SanitizeInput(Field(data, "name"))
    ensures p.Some? && p.value.email.Some? ==> Some(p.value.email.value) == SanitizeInput(Field(data, "email"))
  {
    var name := if IsSet(data, "name") then SanitizeInput(Field(data, "name")) else Some("");
    var email := if IsSet(data, "email") then SanitizeInput(Field(data, "email")) else Some("");
    if name.None? || email.None? then None
    else Some(Patch(if IsSet(data, "name") then Some(name.value) else None,
                    if IsSet(data, "email") then Some(email.value) else None))
  }

  /** updateStudent before the UPDATE. */
  function UpdateStudentCheck(data: Obj, rows: seq<Student>): Check<Change> {
    if !IsSet(data, "student_id") then Refuse(Reply(400, false, "student_id is required"))
    else
      var sid := SanitizeInput(Field(data, "student_id"));
      if sid.None? then Refuse(Fatal)
      else if !HasStudent(rows, sid.value) then Refuse(Reply(404, false, "Student not found"))
      else
        var p := StudentPatch(data);
        if p.None? then Refuse(Fatal)
        else if p.value.name.None? && p.value.email.None? then Refuse(Reply(400, false, "No fields to update"))
        else if p.value.email.Some? && EmailTakenByOther(rows, p.value.email.value, sid.value) then
          Refuse(Reply(409, false, "Email already taken"))
        else Proceed(Change(sid.value, p.value))
  }

  /** The refusals of updateStudent, in their order. */
  lemma UpdateStudentRefusals(data: Obj, rows: seq<Student>)
    ensures var c := UpdateStudentCheck(data, rows);
      var sid := SanitizeInput(Field(data, "student_id"));
      (!IsSet(data, "student_id") ==> c == Refuse(Reply(400, false, "student_id is required")))
      && (IsSet(data, "student_id") && sid.Some? && !HasStudent(rows, sid.value) ==>
            c == Refuse(Reply(404, false, "Student not found")))
      && ((IsSet(data, "student_id") && sid.Some? && HasStudent(rows, sid.value)
           && !IsSet(data, "name") && !IsSet(data, "email")) ==> c == Refuse(Reply(400, false, "No fields to update")))
      && ((IsSet(data, "student_id") && sid.Some? && HasStudent(rows, sid.value)
           && StudentPatch(data).Some? && StudentPatch(data).value.email.Some?
           && EmailTakenByOther(rows, StudentPatch(data).value.email.value, sid.value)) ==>
            c == Refuse(Reply(409, false, "Email already taken")))
  {
  }

  /** An accepted update targets an existing student, sets the fields
      StudentPatch collects, and its new email, if any, belongs to no other
      student. */
  lemma UpdateStudentProceeds(data: Obj, rows: seq<Student>)
    ensures var c := UpdateStudentCheck(data, rows);
      c.Proceed? ==>
        Some(c.value.studentId) == SanitizeInput(Field(data, "student_id")) && HasStudent(rows, c.value.studentId)
        && Some(c.value.patch) == StudentPatch(data)
        && (c.value.patch.name.Some? || c.value.patch.email.Some?)
        && (c.value.patch.email.Some? ==> !EmailTakenByOther(rows, c.value.patch.email.value, c.value.studentId))
  {
    var c := UpdateStudentCheck(data, rows);
    if c.Proceed? {
      var sid := SanitizeInput(Field(data, "student_id"));
      var p := StudentPatch(data);
      assert IsSet(data, "student_id") && sid.Some? && p.Some?;
      assert c == Proceed(Change(sid.value, p.value));
    }
  }

  const PasswordFieldsMessage: string := "student_id, current_password and new_password are required"

  /** changePassword before the UPDATE: the student it targets. Its refusals
      are arrays it returns, which go out with status 200. */
  function ChangePasswordCheck(data: Obj, verify: (string, string) -> bool, rows: seq<Student>): Check<string> {
    if IsEmpty(data, "student_id") || IsEmpty(data, "current_password") || IsEmpty(data, "new_password") then
      Refuse(Reply(200, false, PasswordFieldsMessage))
    else if IsArray(Field(data, "new_password")) then Refuse(Fatal)
    else if StrLen(PhpString(Field(data, "new_password"))) < 8 then
      Refuse(Reply(200, false, "New password must be at least 8 characters long"))
    else
      var sid := Key(Field(data, "student_id"));
      var found := FindStudent(rows, sid);
      if found.None? then Refuse(Reply(200, false, "Student not found"))
      else if IsArray(Field(data, "current_password")) then Refuse(Fatal)
      else if !verify(PhpString(Field(data, "current_password")), found.value.password) then
        Refuse(Reply(200, false, "Current password is incorrect"))
      else Proceed(sid)
  }

  /** changePassword refuses missing fields, then a new password shorter
      than 8 bytes, then an unknown student, then a current password that
      does not verify against the stored hash. */
  lemma ChangePasswordRefusals(data: Obj, verify: (string, string) -> bool, rows: seq<Student>)
    ensures var c := ChangePasswordCheck(data, verify, rows);
      (IsEmpty(data, "student_id") || IsEmpty(data, "current_password") || IsEmpty(data, "new_password") ==>
         c == Refuse(Reply(200, false, PasswordFieldsMessage)))
      && ((!IsEmpty(data, "student_id") && !IsEmpty(data, "current_password") && !IsEmpty(data, "new_password")
           && Field(data, "new_password").JStr? && StrLen(Field(data, "new_password").s) < 8) ==>
         c == Refuse(Reply(200, false, "New password must be at least 8 characters long")))
    ensures var c := ChangePasswordCheck(data, verify, rows);
      var found := FindStudent(rows, Key(Field(data, "student_id")));
      var long := !IsEmpty(data, "student_id") && !IsEmpty(data, "current_password") && !IsEmpty(data, "new_password")
                  && Field(data, "new_password").JStr? && StrLen(Field(data, "new_password").s) >= 8;
      (long && found.None? ==> c == Refuse(Reply(200, false, "Student not found")))
      && (long && found.Some? && Field(data, "current_password").JStr?
          && !verify(Field(data, "current_password").s, found.value.password) ==>
            c == Refuse(Reply(200, false, "Current password is incorrect")))
  {
    var c := ChangePasswordCheck(data, verify, rows);
    if IsEmpty(data, "student_id") || IsEmpty(data, "current_password") || IsEmpty(data, "new_password") {
    } else if Field(data, "new_password").JStr? {
      assert PhpString(Field(data, "new_password")) == Field(data, "new_password").s;
      var found := FindStudent(rows, Key(Field(data, "student_id")));
      if StrLen(Field(data, "new_password").s) < 8 {
        assert c == Refuse(Reply(200, false, "New password must be at least 8 characters long"));
      } else if found.None? {
        assert c == Refuse(Reply(200, false, "Student not found"));
      } else if Field(data, "current_password").JStr? {
        assert PhpString(Field(data, "current_password")) == Field(data, "current_password").s;
      }
    }
  }

  /** Those two refusals come before the student is looked up: they do not
      depend on the table. */
  lemma ChangePasswordChecksFirst(data: Obj, verify: (string, string) -> bool, rows: seq<Student>, rows': seq<Student>)
    requires IsEmpty(data, "student_id") || IsEmpty(data, "current_password") || IsEmpty(data, "new_password")
             || (!IsArray(Field(data, "new_password")) && StrLen(PhpString(Field(data, "new_password"))) < 8)
    ensures ChangePasswordCheck(data, verify, rows) == ChangePasswordCheck(data, verify, rows')
    ensures ChangePasswordCheck(data, verify, rows).Refuse?
  {
  }

  /** A change that goes ahead targets an existing student, has a long
      enough new password and has verified the current one. */
  lemma ChangePasswordProceeds(data: Obj, verify: (string, string) -> bool, rows: seq<Student>)
    ensures var c := ChangePasswordCheck(data, verify, rows);
      c.Proceed? ==>
        c.value == Key(Field(data, "student_id")) && HasStudent(rows, c.value)
        && StrLen(PhpString(Field(data, "new_password"))) >= 8
        && verify(PhpString(Field(data, "current_password")), FindStudent(rows, c.value).value.password)
  {
  }

  // ---------------------------------------------------------------------------
  // The service
  // ---------------------------------------------------------------------------

  /** Each request carries the session the gate reads; each write takes
      `ok`, what `execute()` returned. */
  class StudentDb {
    var students: seq<Student>

    predicate Valid()
      reads this
    {
      Unique(students)
    }

    constructor()
      ensures students == [] && Valid()
    {
      students := [];
    }

    /** getStudents: the matching students, without their password hashes,
        and the column to order them by. */
    method ListStudents(session: Session, search: Option<string>, sort: Option<string>)
      returns (r: Response, column: string)
      ensures !Admitted(session) ==> r == Gate(session).value
      ensures Admitted(session) ==>
        r == Data(StudentsJson(Search(students, search))) && column == SortColumn(sort)
    {
      var denied := Gate(session);
      if denied.Some? {
        return denied.value, "";
      }
      r := Data(StudentsJson(Search(students, search)));
      column := SortColumn(sort);
    }

    /** getStudentById. */
    method GetStudent(session: Session, sidArg: Json) returns (r: Response)
      ensures !Admitted(session) ==> r == Gate(session).value
      ensures Admitted(session) ==>
        var found := FindStudent(students, Key(sidArg));
        (found.Some? ==> r == Data(StudentJson(found.value)))
        && (found.None? ==> r == Reply(404, false, "Student not found"))
    {
      var denied := Gate(session);
      if denied.Some? {
        return denied.value;
      }
      var found := FindStudent(students, Key(sidArg));
      if found.Some? {
        r := Data(StudentJson(found.value));
      } else {
        r := Reply(404, false, "Student not found");
      }
    }

    /** createStudent; `hashed` is what password_hash returns for this
        call. */
    method CreateStudent(session: Session, data: Obj, isEmail: string -> bool, hashed: string, now: int, ok: bool)
      returns (r: Response)
      modifies this
      ensures old(Valid()) ==> Valid()
      ensures !Admitted(session) ==> r == Gate(session).value && unchanged(this)
      ensures Admitted(session) ==>
        var c := CreateStudentCheck(data, isEmail, old(students));
        (c.Refuse? ==> r == c.response && unchanged(this))
        && (c.Proceed? && !ok ==> r == Reply(500, false, "Failed to create student") && unchanged(this))
        && (c.Proceed? && ok ==>
              students == old(students) + [Student(c.value.studentId, c.value.name, c.value.email, hashed, now)]
              && r == Reply(201, true, "Student created"))
    {
      var denied := Gate(session);
      if denied.Some? {
        return denied.value;
      }
      var c := CreateStudentCheck(data, isEmail, students);
      if c.Refuse? {
        return c.response;
      }
      if !ok {
        return Reply(500, false, "Failed to create student");
      }
      var row := Student(c.value.studentId, c.value.name, c.value.email, hashed, now);
      assert !HasStudent(students, row.studentId) && !HasEmail(students, row.email) by {
        CreateStudentOutcomes(data, isEmail, students);
      }
      if Valid() {
        InsertUnique(students, row);
      }
      students := students + [row];
      r := Reply(201, true, "Student created");
    }

    /** updateStudent: only the supplied name and email change, in the one
        row with that student id. */
    method UpdateStudent(session: Session, data: Obj, ok: bool) returns (r: Response)
      modifies this
      ensures old(Valid()) ==> Valid()
      ensures !Admitted(session) ==> r == Gate(session).value && unchanged(this)
      ensures Admitted(session) ==>
        var c := UpdateStudentCheck(data, old(students));
        (c.Refuse? ==> r == c.response && unchanged(this))
        && (c.Proceed? && !ok ==> r == Reply(500, false, "Failed to update student") && unchanged(this))
        && (c.Proceed? && ok ==>
              students == Patched(old(students), c.value.studentId, c.value.patch)
              && r == Reply(200, true, "Student updated"))
    {
      var denied := Gate(session);
      if denied.Some? {
        return denied.value;
      }
      var c := UpdateStudentCheck(data, students);
      if c.Refuse? {
        return c.response;
      }
      if !ok {
        return Reply(500, false, "Failed to update student");
      }
      assert c.value.patch.email.Some? ==> !EmailTakenByOther(students, c.value.patch.email.value, c.value.studentId) by {
        UpdateStudentProceeds(data, students);
      }
      if Valid() {
        UpdateUnique(students, c.value.studentId, c.value.patch);
      }
      students := Patched(students, c.value.studentId, c.value.patch);
      r := Reply(200, true, "Student updated");
    }

    /** deleteStudent: its answers are arrays it returns, sent with status
        200. */
    method DeleteStudent(session: Session, sidArg: Json, ok: bool) returns (r: Response)
      modifies this
      ensures old(Valid()) ==> Valid()
      ensures !Admitted(session) ==> r == Gate(session).value && unchanged(this)
      ensures Admitted(session) && Falsy(sidArg) ==>
        r == Reply(200, false, "student_id is required") && unchanged(this)
      ensures Admitted(session) && !Falsy(sidArg) ==>
        var sid := Key(sidArg);
        (!HasStudent(old(students), sid) ==> r == Reply(200, false, "Student not found") && unchanged(this))
        && (HasStudent(old(students), sid) && !ok ==>
              r == Reply(200, false, "Failed to delete student") && unchanged(this))
        && (HasStudent(old(students), sid) && ok ==>
              students == WithoutStudent(old(students), sid) && r == Reply(200, true, "Student deleted successfully"))
    {
      var denied := Gate(session);
      if denied.Some? {
        return denied.value;
      }
      if Falsy(sidArg) {
        return Reply(200, false, "student_id is required");
      }
      var sid := Key(sidArg);
      if !HasStudent(students, sid) {
        return Reply(200, false, "Student not found");
      }
      if !ok {
        return Reply(200, false, "Failed to delete student");
      }
      if Valid() {
        DeleteUnique(students, sid);
      }
      students := WithoutStudent(students, sid);
      r := Reply(200, true, "Student deleted successfully");
    }

    /** changePassword; `verify` is password_verify and `hashed` what
        password_hash returns for the new password. */
    method ChangePassword(session: Session, data: Obj, verify: (string, string) -> bool, hashed: string, ok: bool)
      returns (r: Response)
      modifies this
      ensures old(Valid()) ==> Valid()
      ensures !Admitted(session) ==> r == Gate(session).value && unchanged(this)
      ensures Admitted(session) ==>
        var c := ChangePasswordCheck(data, verify, old(students));
        (c.Refuse? ==> r == c.response && unchanged(this))
        && (c.Proceed? && !ok ==> r == Reply(200, false, "Failed to update password") && unchanged(this))
        && (c.Proceed? && ok ==>
              students == WithPassword(old(students), c.value, hashed)
              && r == Reply(200, true, "Password updated successfully"))
    {
      var denied := Gate(session);
      if denied.Some? {
        return denied.value;
      }
      var c := ChangePasswordCheck(data, verify, students);
      if c.Refuse? {
        return c.response;
      }
      if !ok {
        return Reply(200, false, "Failed to update password");
      }
      if Valid() {
        PasswordUnique(students, c.value, hashed);
      }
      students := WithPassword(students, c.value, hashed);
      r := Reply(200, true, "Password updated successfully");
    }
  }
}
