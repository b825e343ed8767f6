/** The week editor of the course's weekly page: a list of weeks kept in the
    page, a form whose fields are either blank (a new week) or loaded from an
    existing week (edit mode), and the three handlers that change them —
    submitting the form, clicking a row's Edit or Delete button, and
    cancelling an edit. */
module WeeklyAdmin {
  import opened Common

  /** A week as the page keeps it. */
  datatype Week = Week(id: string, title: string, startDate: string, description: string, links: seq<string>)

  /** The values of the form's inputs: the hidden week id, the title, the
      start date, the description and the links textarea. */
  datatype Form = Form(weekId: string, title: string, startDate: string, description: string, links: string)

  const EmptyForm := Form("", "", "", "", "")

  // ---------------------------------------------------------------------------
  // The links textarea
  // ---------------------------------------------------------------------------

  /** `s.split(sep)` for a one-character separator: the pieces between the
      separators, always at least one. */
  function Split(s: string, sep: char): (r: seq<string>)
    ensures |r| >= 1
    ensures forall i :: 0 <= i < |r| ==> sep !in r[i]
    decreases |s|
  {
    if s == [] then [""]
    else
      var rest := Split(s[1..], sep);
      if s[0] == sep then [""] + rest
      else
        assert sep !in [s[0]] + rest[0];
        [[s[0]] + rest[0]] + rest[1..]
  }

  /** `parts.join(sep)`. */
  function Join(parts: seq<string>, sep: char): (r: string)
    ensures parts != [] ==> |parts[0]| <= |r| && r[..|parts[0]|] == parts[0]
    decreases |parts|
  {
    if parts == [] then ""
    else if |parts| == 1 then parts[0]
    else parts[0] + [sep] + Join(parts[1..], sep)
  }

  /** Splitting loses nothing: joining the pieces with the separator gives
      the text back. */
  lemma {:induction false} JoinSplit(s: string, sep: char)
    ensures Join(Split(s, sep), sep) == s
    decreases |s|
  {
    if s != [] {
      var rest := Split(s[1..], sep);
      JoinSplit(s[1..], sep);
      if s[0] == sep {
        assert ([""] + rest)[1..] == rest;
      } else {
        var r := [[s[0]] + rest[0]] + rest[1..];
        assert r[1..] == rest[1..];
        if |rest| > 1 {
          assert Join(rest, sep) == rest[0] + [sep] + Join(rest[1..], sep);
        }
        assert s == [s[0]] + s[1..];
      }
    }
  }

  /** A first piece without the separator stays glued to whatever follows it. */
  lemma {:induction false} SplitPrefix(p: string, t: string, sep: char)
    requires sep !in p
    ensures var x := Split(t, sep); Split(p + t, sep) == [p + x[0]] + x[1..]
    decreases |p|
  {
    if p != [] {
      assert (p + t)[0] == p[0] && (p + t)[1..] == p[1..] + t;
      SplitPrefix(p[1..], t, sep);
      assert [p[0]] + (p[1..] + Split(t, sep)[0]) == p + Split(t, sep)[0];
    } else {
      var x := Split(t, sep);
      assert p + t == t && x == [x[0]] + x[1..] && p + x[0] == x[0];
    }
  }

  /** Joining pieces that hold no separator and splitting again gives the
      pieces back. */
  lemma {:induction false} SplitJoin(parts: seq<string>, sep: char)
    requires parts != [] && forall i :: 0 <= i < |parts| ==> sep !in parts[i]
    ensures Split(Join(parts, sep), sep) == parts
    decreases |parts|
  {
    if |parts| == 1 {
      SplitPrefix(parts[0], "", sep);
      assert parts[0] + "" == parts[0];
    } else {
      var j := Join(parts[1..], sep);
      SplitJoin(parts[1..], sep);
      var t := [sep] + j;
      assert t[0] == sep && t[1..] == j;
      assert Split(t, sep) == [""] + parts[1..];
      SplitPrefix(parts[0], t, sep);
      assert parts[0] + [sep] + j == parts[0] + t;
      assert parts[0] + "" == parts[0];
      assert [parts[0]] + parts[1..] == parts;
    }
  }

  /** Text with no `space` at either end is its own trim. */
  lemma TrimFixed(s: string, space: char -> bool)
    requires s == [] || (!space(s[0]) && !space(s[|s| - 1]))
    ensures Trim(s, space) == s
  {
    assert TrimLeft(s, space) == s;
    assert TrimRight(s, space) == s;
  }

  /** Trimming a line removes nothing but its ends: a line without a
      newline is still without one. */
  lemma TrimInside(s: string, c: char)
    requires c !in s
    ensures c !in JsTrim(s)
  {
    var i, j :| 0 <= i <= j <= |s| && JsTrim(s) == s[i..j];
  }

  /** Text that trimming leaves alone: no white space at either end. */
  predicate Trimmed(s: string) {
    s == [] || (!JsSpace(s[0]) && !JsSpace(s[|s| - 1]))
  }

  /** What is trimmed is its own trim. */
  lemma JsTrimFixed(s: string)
    requires Trimmed(s)
    ensures JsTrim(s) == s
  {
    TrimFixed(s, JsSpace);
  }

  /** A trim is trimmed. */
  lemma JsTrimTrimmed(s: string)
    ensures Trimmed(JsTrim(s))
  {
  }

  /** A link as it can be saved: not empty, already trimmed, on one line. */
  predicate WellFormedLink(l: string) {
    l != "" && Trimmed(l) && '\n' !in l
  }

  predicate NonEmpty(l: string) {
    l != ""
  }

  /** Every line of the textarea, trimmed. */
  function TrimEach(lines: seq<string>): (r: seq<string>)
    ensures |r| == |lines|
    ensures forall i :: 0 <= i < |lines| ==> r[i] == JsTrim(lines[i])
  {
    Map(lines, JsTrim)
  }

  /** The trimmed lines of a text are trimmed and without a newline. */
  lemma TrimmedLines(text: string)
    ensures var t := TrimEach(Split(text, '\n'));
      forall i :: 0 <= i < |t| ==> Trimmed(t[i]) && '\n' !in t[i]
  {
    var lines := Split(text, '\n');
    var t := TrimEach(lines);
    forall i | 0 <= i < |t| ensures Trimmed(t[i]) && '\n' !in t[i] {
      JsTrimTrimmed(lines[i]);
      TrimInside(lines[i], '\n');
    }
  }

  /** Dropping the blank lines from trimmed one-line text leaves well-formed
      links. */
  lemma FilterWellFormed(t: seq<string>)
    requires forall i :: 0 <= i < |t| ==> Trimmed(t[i]) && '\n' !in t[i]
    ensures var r := Filter(t, NonEmpty); forall i :: 0 <= i < |r| ==> WellFormedLink(r[i])
    ensures Subsequence(Filter(t, NonEmpty), t)
    ensures forall l :: l in t && l != "" ==> l in Filter(t, NonEmpty)
    ensures forall l :: multiset(Filter(t, NonEmpty))[l] == if l != "" then multiset(t)[l] else 0
  {
    var r := Filter(t, NonEmpty);
    FilterKeepsOrder(t, NonEmpty);
    FilterCount(t, NonEmpty);
    forall i | 0 <= i < |r| ensures WellFormedLink(r[i]) {
      assert r[i] in t;
      var k :| 0 <= k < |t| && t[k] == r[i];
    }
  }

  /** The links the form saves: an empty textarea gives none; otherwise
      every line, trimmed, with the blank ones dropped, in order. */
  function ParseLinks(text: string): (r: seq<string>)
    ensures text == "" ==> r == []
    ensures forall i :: 0 <= i < |r| ==> WellFormedLink(r[i])
    ensures text != "" ==> Subsequence(r, TrimEach(Split(text, '\n')))
    ensures forall l :: l in TrimEach(Split(text, '\n')) && l != "" ==> l in r
    ensures text != "" ==>
      forall l :: multiset(r)[l] == if l != "" then multiset(TrimEach(Split(text, '\n')))[l] else 0
  {
    if text == "" then []
    else
      var t := TrimEach(Split(text, '\n'));
      TrimmedLines(text);
      FilterWellFormed(t);
      Filter(t, NonEmpty)
  }

  /** Loading a week into the form and saving it again keeps its links: the
      join and the parse are inverse on links that are trimmed, not empty
      and on one line. */
  lemma LinksRoundTrip(links: seq<string>)
    requires forall i :: 0 <= i < |links| ==> WellFormedLink(links[i])
    ensures ParseLinks(Join(links, '\n')) == links
  {
    if links != [] {
      var text := Join(links, '\n');
      assert text != "" by {
        assert text[..|links[0]|] == links[0];
      }
      assert Split(text, '\n') == links by {
        SplitJoin(links, '\n');
      }
      assert TrimEach(links) == links by {
        TrimEachFixed(links);
      }
      assert Filter(links, NonEmpty) == links by {
        FilterAll(links, NonEmpty);
      }
    }
  }

  lemma TrimEachFixed(lines: seq<string>)
    requires forall i :: 0 <= i < |lines| ==> Trimmed(lines[i])
    ensures TrimEach(lines) == lines
  {
    forall i | 0 <= i < |lines| ensures JsTrim(lines[i]) == lines[i] {
      JsTrimFixed(lines[i]);
    }
  }

  // ---------------------------------------------------------------------------
  // The week list
  // ---------------------------------------------------------------------------

  /** `weeks.findIndex(w => w.id === id)`: the first position holding that
      id, or -1. */
  function FindIndex(weeks: seq<Week>, id: string): (r: int)
    ensures -1 <= r < |weeks|
    ensures r == -1 <==> forall i :: 0 <= i < |weeks| ==> weeks[i].id != id
    ensures r >= 0 ==> weeks[r].id == id && forall i :: 0 <= i < r ==> weeks[i].id != id
    decreases |weeks|
  {
    if weeks == [] then -1
    else if weeks[0].id == id then 0
    else
      var k := FindIndex(weeks[1..], id);
      if k == -1 then -1 else k + 1
  }

  /** `weeks.find(w => w.id === id)`. */
  function Find(weeks: seq<Week>, id: string): (r: Option<Week>)
    ensures r.Some? <==> exists i :: 0 <= i < |weeks| && weeks[i].id == id
    ensures r.Some? ==> r.value.id == id && r.value in weeks
  {
    var k := FindIndex(weeks, id);
    if k == -1 then None else Some(weeks[k])
  }

  /** The week the submitted form describes, under the given id: title and
      description trimmed, the start date as typed, the links parsed. */
  function Submitted(form: Form, id: string): (w: Week)
    ensures w.id == id && w.startDate == form.startDate && w.links == ParseLinks(form.links)
    ensures w.title == JsTrim(form.title) && w.description == JsTrim(form.description)
  {
    Week(id, JsTrim(form.title), form.startDate, JsTrim(form.description), ParseLinks(form.links))
  }

  /** The id a new week gets: `week_` and the clock in milliseconds. */
  function NewWeekId(now: nat): string {
    "week_" + NatToString(now)
  }

  /** The list after the form is submitted: in edit mode the week whose id
      the form holds is replaced wholesale at its position, and nothing
      changes when no week has that id; otherwise the new week is added at
      the end. */
  function Saved(weeks: seq<Week>, editMode: bool, form: Form, now: nat): (r: seq<Week>)
    ensures !editMode ==> r == weeks + [Submitted(form, NewWeekId(now))]
    ensures editMode && FindIndex(weeks, form.weekId) == -1 ==> r == weeks
    ensures editMode ==> |r| == |weeks|
    ensures var k := FindIndex(weeks, form.weekId);
      editMode && k >= 0 ==>
        r[k] == Submitted(form, form.weekId) && forall i :: 0 <= i < |r| && i != k ==> r[i] == weeks[i]
  {
    if editMode then
      var k := FindIndex(weeks, form.weekId);
      if k == -1 then weeks else weeks[k := Submitted(form, form.weekId)]
    else weeks + [Submitted(form, NewWeekId(now))]
  }

  /** An edit keeps the list's ids where they were. */
  lemma EditKeepsIds(weeks: seq<Week>, form: Form, now: nat)
    ensures var r := Saved(weeks, true, form, now);
      |r| == |weeks| && forall i :: 0 <= i < |r| ==> r[i].id == weeks[i].id
  {
    var k := FindIndex(weeks, form.weekId);
    var r := Saved(weeks, true, form, now);
    if k >= 0 {
      assert r[k].id == form.weekId == weeks[k].id;
    }
  }

  /** `weeks.filter(w => w.id !== id)`. */
  function Removed(weeks: seq<Week>, id: string): (r: seq<Week>)
    ensures forall i :: 0 <= i < |r| ==> r[i].id != id
    ensures forall w :: w in weeks && w.id != id ==> w in r
    ensures Subsequence(r, weeks)
    ensures forall w :: multiset(r)[w] == if w.id != id then multiset(weeks)[w] else 0
  {
    var keep := (w: Week) => w.id != id;
    FilterKeepsOrder(weeks, keep);
    FilterCount(weeks, keep);
    Filter(weeks, keep)
  }

  /** The form's fields after a week is loaded for editing; the links go
      one per line. */
  function Loaded(w: Week): (f: Form)
    ensures f.weekId == w.id && f.title == w.title && f.startDate == w.startDate
    ensures f.description == w.description && f.links == Join(w.links, '\n')
  {
    Form(w.id, w.title, w.startDate, w.description, Join(w.links, '\n'))
  }

  /** A week as the form can save it: title and description trimmed and
      every link well formed. */
  predicate Saveable(w: Week) {
    Trimmed(w.title) && Trimmed(w.description)
    && forall i :: 0 <= i < |w.links| ==> WellFormedLink(w.links[i])
  }

  /** The form a saveable week loads submits that same week. */
  lemma LoadedSubmitted(w: Week)
    requires Saveable(w)
    ensures Submitted(Loaded(w), w.id) == w
  {
    JsTrimFixed(w.title);
    JsTrimFixed(w.description);
    LinksRoundTrip(w.links);
  }

  /** Editing a week and saving it without a change leaves the list as it
      was. */
  lemma EditUnchanged(weeks: seq<Week>, id: string, now: nat)
    requires Find(weeks, id).Some? && Saveable(Find(weeks, id).value)
    ensures Saved(weeks, true, Loaded(Find(weeks, id).value), now) == weeks
  {
    var k := FindIndex(weeks, id);
    var w := weeks[k];
    var f := Loaded(w);
    assert Find(weeks, id) == Some(w) && f.weekId == id;
    assert Submitted(f, id) == w by {
      LoadedSubmitted(w);
    }
    assert Saved(weeks, true, f, now) == weeks[k := Submitted(f, id)];
    UpdateSame(weeks, k);
  }

  lemma UpdateSame<T>(s: seq<T>, k: int)
    requires 0 <= k < |s|
    ensures s[k := s[k]] == s
  {
  }

  /** Every week the form saves is saveable. */
  lemma SubmittedSaveable(form: Form, id: string)
    ensures Saveable(Submitted(form, id))
  {
    JsTrimTrimmed(form.title);
    JsTrimTrimmed(form.description);
  }

  /** Outside edit mode the form's week is the one added at the end. */
  lemma {:induction false} AppendedLast(weeks: seq<Week>, form: Form, now: nat)
    ensures var r := Saved(weeks, false, form, now);
      |r| == |weeks| + 1 && r[..|weeks|] == weeks && Find(r, NewWeekId(now)).Some?
  {
    var r := Saved(weeks, false, form, now);
    assert r[|weeks|].id == NewWeekId(now);
    assert r[..|weeks|] == weeks;
  }

  // ---------------------------------------------------------------------------
  // The page
  // ---------------------------------------------------------------------------

  /** What a click in the table landed on: whether it carries the
      `delete-btn` and `edit-btn` classes, and its `data-id` attribute. */
  datatype Target = Target(deleteBtn: bool, editBtn: bool, dataId: string)

  class WeekEditor {
    var weeks: seq<Week>
    var editMode: bool
    var form: Form

    /** In edit mode the form holds the id of a week in the list. */
    predicate Valid()
      reads this
    {
      editMode ==> Find(weeks, form.weekId).Some?
    }

    constructor()
      ensures weeks == [] && !editMode && form == EmptyForm
      ensures Valid()
    {
      weeks := [];
      editMode := false;
      form := EmptyForm;
    }

    /** Clears every input and leaves edit mode; the list is kept. */
    method ResetForm()
      modifies this
      ensures weeks == old(weeks)
      ensures !editMode && form == EmptyForm
      ensures Valid()
    {
      editMode := false;
      form := EmptyForm;
    }

    /** Submitting the form saves it into the list and resets it. */
    method HandleAddOrEditWeek(now: nat)
      modifies this
      ensures weeks == Saved(old(weeks), old(editMode), old(form), now)
      ensures !editMode && form == EmptyForm
      ensures Valid()
    {
      weeks := Saved(weeks, editMode, form, now);
      ResetForm();
    }

    /** A click in the table: a Delete button drops every week with its id
        and resets the form when that week was being edited; an Edit button
        loads the first week with its id into the form and enters edit mode,
        and does nothing when there is none. */
    method HandleTableClick(target: Target)
      modifies this
      ensures weeks == if target.deleteBtn then Removed(old(weeks), target.dataId) else old(weeks)
      ensures var found := Find(weeks, target.dataId);
        var deletedEdited := target.deleteBtn && old(editMode) && old(form.weekId) == target.dataId;
        if target.editBtn && found.Some? then editMode && form == Loaded(found.value)
        else if deletedEdited then !editMode && form == EmptyForm
        else editMode == old(editMode) && form == old(form)
      ensures old(Valid()) ==> Valid()
    {
      if target.deleteBtn {
        var before := weeks;
        weeks := Removed(weeks, target.dataId);
        if editMode && form.weekId == target.dataId {
          ResetForm();
        } else if editMode && Find(before, form.weekId).Some? {
          var w := Find(before, form.weekId).value;
          assert w in weeks && w.id == form.weekId;
        }
      }
      if target.editBtn {
        var week := Find(weeks, target.dataId);
        if week.None? {
          return;
        }
        editMode := true;
        form := Loaded(week.value);
      }
    }

    /** Cancelling an edit resets the form. */
    method HandleCancelEdit()
      modifies this
      ensures weeks == old(weeks)
      ensures !editMode && form == EmptyForm
      ensures Valid()
    {
      ResetForm();
    }

    /** Loading the page's data: the fetched weeks, or none when the fetch
        or its parse fails. The form is left as it is. */
    method LoadWeeksData(fetched: Option<seq<Week>>)
      modifies this
      ensures weeks == if fetched.Some? then fetched.value else []
      ensures editMode == old(editMode) && form == old(form)
      ensures !editMode ==> Valid()
    {
      weeks := if fetched.Some? then fetched.value else [];
    }
  }
}
