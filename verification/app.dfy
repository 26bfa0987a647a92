/** The state of the student-list page and its event handlers, each a pure
    step from one state to the next. A remote call is not made here: the
    handler reports the request it would send and takes how that request
    settled as a parameter. */
module App {
  import opened Wrappers
  import opened Records
  import Strings
  import Arrays
  import StudentList
  import Snackbar

  /** The `modalType` string: empty until a modal is first opened, then one
      of 'view', 'edit', 'add' and 'confirmDelete'. */
  datatype ModalType = Unset | View | Edit | Add | ConfirmDelete

  /** How a remote call settled: resolved with the response body, or rejected
      (network failure or a non-2xx status alike). */
  datatype Outcome<+T> = Resolved(body: T) | Rejected

  /** The HTTP request a handler issues against the collection endpoint. */
  datatype Request = GetAll | Post(body: Draft) | Put(id: Option<Id>, body: Draft) | Delete(id: Option<Id>)

  /** The component's `useState` hooks. */
  datatype AppState = AppState(
    students: seq<Student>,
    searchTerm: string,
    openModal: bool,
    modalType: ModalType,
    current: Option<Draft>,
    snackbar: Snackbar.Snackbar)

  /** The state after the first render. */
  const Initial: AppState := AppState([], "", false, Unset, None, Snackbar.Initial)

  /** The state a handler leaves, and the request it sent, if any. */
  datatype Step = Step(state: AppState, sent: Option<Request>)

  const FetchFailed: string := "Error fetching students data"
  const Updated: string := "Student updated successfully"
  const UpdateFailed: string := "Error updating student"
  const Deleted: string := "Student deleted successfully"
  const DeleteFailed: string := "Error deleting student"
  const Added: string := "Student added successfully"
  const AddFailed: string := "Error adding student"
  const FillAllFields: string := "Please fill in all fields"

  /** The modal flag, its type and the draft are as in `before`. */
  predicate SameModal(after: AppState, before: AppState)
  {
    after.openModal == before.openModal && after.modalType == before.modalType && after.current == before.current
  }

  /** The modal is closed and its draft dropped; its type is kept. */
  predicate ClosedFrom(after: AppState, before: AppState)
  {
    !after.openModal && after.current.None? && after.modalType == before.modalType
  }

  /** The banner shows `message` at level `severity`. */
  predicate Shows(st: AppState, message: string, severity: Snackbar.Severity)
  {
    st.snackbar.open && st.snackbar.message == message && st.snackbar.severity == severity
  }

  // ---------------------------------------------------------------- loading

  /** The initial fetch: a GET of the whole collection, whose body replaces
      the list; on failure the list stays and an error banner shows. */
  function Load(st: AppState, outcome: Outcome<seq<Student>>): (r: Step)
    ensures r.sent == Some(GetAll)
    ensures outcome.Resolved? ==> r.state.students == outcome.body && r.state.snackbar == st.snackbar
    ensures outcome.Rejected? ==> r.state.students == st.students && Shows(r.state, FetchFailed, Snackbar.Error)
    ensures SameModal(r.state, st) && r.state.searchTerm == st.searchTerm
  {
    match outcome
    case Resolved(body) => Step(st.(students := body), Some(GetAll))
    case Rejected => Step(ShowSnackbar(st, FetchFailed, Snackbar.Error), Some(GetAll))
  }

  // ----------------------------------------------------------------- search

  /** `handleSearch`: only the search term changes. */
  function Search(st: AppState, value: string): (r: AppState)
    ensures r.searchTerm == value
    ensures r.(searchTerm := st.searchTerm) == st
  {
    st.(searchTerm := value)
  }

  /** The row test of `filteredStudents`: the lower-cased search term is a
      substring of the lower-cased name or of the lower-cased address. */
  function Matches(s: Student, term: string): bool
  {
    var t := Strings.ToLower(term);
    Strings.Includes(Strings.ToLower(s.name), t) || Strings.Includes(Strings.ToLower(s.address), t)
  }

  /** The same test stated with `Occurs` instead of the search loop. */
  ghost predicate Shown(s: Student, term: string)
  {
    || Strings.Occurs(Strings.ToLower(s.name), Strings.ToLower(term))
    || Strings.Occurs(Strings.ToLower(s.address), Strings.ToLower(term))
  }

  /** The callback passed to `students.filter`. */
  function MatchesTerm(term: string): Student -> bool
  {
    s => Matches(s, term)
  }

  /** `filteredStudents`: the rows the table shows, in list order. */
  function FilteredStudents(st: AppState): (r: seq<Student>)
    ensures Arrays.IsSubsequence(r, st.students)
    ensures forall k :: 0 <= k < |r| ==> Shown(r[k], st.searchTerm)
    ensures forall i :: 0 <= i < |st.students| && Shown(st.students[i], st.searchTerm) ==> st.students[i] in r
  {
    Arrays.FilterIsExactSubsequence(st.students, MatchesTerm(st.searchTerm));
    Arrays.Filter(st.students, MatchesTerm(st.searchTerm))
  }

  /** The shown rows are read off the list at exactly the positions whose
      student matches, in increasing order. */
  lemma FilteredIsExact(st: AppState)
    ensures exists idx :: Arrays.Picks(FilteredStudents(st), st.students, idx)
                          && forall i :: 0 <= i < |st.students| ==> (i in idx <==> Shown(st.students[i], st.searchTerm))
  {
    var p := MatchesTerm(st.searchTerm);
    Arrays.FilterPicksPositions(st.students, p);
    var idx := Arrays.Positions(st.students, p);
    forall i | 0 <= i < |st.students|
      ensures i in idx <==> Shown(st.students[i], st.searchTerm)
    {
      assert p(st.students[i]) == Matches(st.students[i], st.searchTerm);
    }
    assert FilteredStudents(st) == Arrays.Filter(st.students, p);
    assert Arrays.Picks(FilteredStudents(st), st.students, idx);
  }

  /** With an empty search term every row is shown, in list order. */
  lemma EmptySearchShowsAll(st: AppState)
    requires st.searchTerm == ""
    ensures FilteredStudents(st) == st.students
  {
    forall i | 0 <= i < |st.students|
      ensures MatchesTerm(st.searchTerm)(st.students[i])
    {
      Strings.EmptyIncluded(Strings.ToLower(st.students[i].name));
    }
    Arrays.FilterKeepsAll(st.students, MatchesTerm(st.searchTerm));
  }

  /** The search ignores case: two terms that lower-case alike show the
      same rows. */
  lemma SearchIgnoresCase(st: AppState, t1: string, t2: string)
    requires Strings.ToLower(t1) == Strings.ToLower(t2)
    ensures FilteredStudents(Search(st, t1)) == FilteredStudents(Search(st, t2))
  {
    Arrays.FilterAgreeing(st.students, MatchesTerm(t1), MatchesTerm(t2));
  }

  /** In particular, a term shows the same rows as its lower-cased form. */
  lemma SearchLowerCased(st: AppState)
    ensures FilteredStudents(st) == FilteredStudents(Search(st, Strings.ToLower(st.searchTerm)))
  {
    Strings.ToLowerIdempotent(st.searchTerm);
    SearchIgnoresCase(st, st.searchTerm, Strings.ToLower(st.searchTerm));
  }

  // ------------------------------------------------------------------ modal

  /** `handleOpenModal(type, student)`: the row clicked, if any, becomes the
      draft; opening 'add' passes no row and leaves the draft empty. */
  function OpenModal(st: AppState, kind: ModalType, student: Option<Student>): (r: AppState)
    ensures r.openModal && r.modalType == kind
    ensures student.None? ==> r.current.None?
    ensures student.Some? ==> r.current == Some(DraftOf(student.value))
    ensures r.students == st.students && r.searchTerm == st.searchTerm && r.snackbar == st.snackbar
  {
    var draft := match student
      case Some(s) => Some(DraftOf(s))
      case None => None;
    st.(modalType := kind, current := draft, openModal := true)
  }

  /** `handleDeleteStudent`: asks for confirmation before deleting `s`. */
  function DeleteStudent(st: AppState, s: Student): (r: AppState)
    ensures r.openModal && r.modalType == ConfirmDelete
    ensures r.current == Some(DraftOf(s))
    ensures r.students == st.students && r.searchTerm == st.searchTerm && r.snackbar == st.snackbar
  {
    OpenModal(st, ConfirmDelete, Some(s))
  }

  /** `handleCloseModal`: hides the modal and drops the draft. */
  function CloseModal(st: AppState): (r: AppState)
    ensures ClosedFrom(r, st)
    ensures r.students == st.students && r.searchTerm == st.searchTerm && r.snackbar == st.snackbar
  {
    st.(openModal := false, current := None)
  }

  /** `handleInputChange`: one field of the draft takes the typed text. */
  function InputChange(st: AppState, f: Field, value: string): (r: AppState)
    ensures r.current.Some? && Get(r.current.value, f) == Some(Str(value))
    ensures forall g :: g != f ==> Get(r.current.value, g) == (if st.current.Some? then Get(st.current.value, g) else None)
    ensures r.current.value.id == (if st.current.Some? then st.current.value.id else None)
    ensures r.(current := st.current) == st
  {
    st.(current := Some(Merge(st.current, f, value)))
  }

  /** Opening a modal and closing it again leaves only its type behind. */
  lemma OpenThenClose(st: AppState, kind: ModalType, student: Option<Student>)
    ensures CloseModal(OpenModal(st, kind, student)) == st.(openModal := false, modalType := kind, current := None)
  {
  }

  /** Typing into two different fields gives the same draft in either order. */
  lemma InputChangesCommute(st: AppState, f: Field, v: string, g: Field, w: string)
    requires f != g
    ensures InputChange(InputChange(st, f, v), g, w) == InputChange(InputChange(st, g, w), f, v)
  {
  }

  /** Typing into the same field twice keeps only the second text. */
  lemma InputChangeLastWins(st: AppState, f: Field, v: string, w: string)
    ensures InputChange(InputChange(st, f, v), f, w) == InputChange(st, f, w)
  {
  }

  // -------------------------------------------------------------- mutations

  /** `handleEditStudent`: PUTs the draft; on success every row with the
      draft's id becomes the response, the modal closes and a success banner
      shows; on failure only an error banner shows. Without a draft, reading
      its id throws before anything is sent. */
  function EditStudent(st: AppState, outcome: Outcome<Student>): (r: Step)
    ensures st.current.None? ==> r == Step(st, None)
    ensures st.current.Some? ==> r.sent == Some(Put(st.current.value.id, st.current.value))
    ensures st.current.Some? && outcome.Resolved? ==>
              && r.state.students == StudentList.ReplaceById(st.students, st.current.value.id, outcome.body)
              && ClosedFrom(r.state, st)
              && Shows(r.state, Updated, Snackbar.Success)
    ensures st.current.Some? && outcome.Rejected? ==>
              r.state.students == st.students && SameModal(r.state, st) && Shows(r.state, UpdateFailed, Snackbar.Error)
    ensures r.state.searchTerm == st.searchTerm
  {
    match st.current
    case None => Step(st, None)
    case Some(d) =>
      var sent := Some(Put(d.id, d));
      match outcome
      case Resolved(rec) =>
        var patched := st.(students := StudentList.ReplaceById(st.students, d.id, rec));
        Step(ShowSnackbar(CloseModal(patched), Updated, Snackbar.Success), sent)
      case Rejected =>
        Step(ShowSnackbar(st, UpdateFailed, Snackbar.Error), sent)
  }

  /** `confirmDeleteStudent`: DELETEs the draft's id; on success every row
      with that id goes, the rest keep their order, the modal closes and a
      success banner shows; on failure only an error banner shows. */
  function ConfirmDeleteStudent(st: AppState, outcome: Outcome<()>): (r: Step)
    ensures st.current.None? ==> r == Step(st, None)
    ensures st.current.Some? ==> r.sent == Some(Delete(st.current.value.id))
    ensures st.current.Some? && outcome.Resolved? ==>
              && r.state.students == StudentList.RemoveById(st.students, st.current.value.id)
              && ClosedFrom(r.state, st)
              && Shows(r.state, Deleted, Snackbar.Success)
    ensures st.current.Some? && outcome.Rejected? ==>
              r.state.students == st.students && SameModal(r.state, st) && Shows(r.state, DeleteFailed, Snackbar.Error)
    ensures r.state.searchTerm == st.searchTerm
  {
    match st.current
    case None => Step(st, None)
    case Some(d) =>
      var sent := Some(Delete(d.id));
      match outcome
      case Resolved(_) =>
        var patched := st.(students := StudentList.RemoveById(st.students, d.id));
        Step(ShowSnackbar(CloseModal(patched), Deleted, Snackbar.Success), sent)
      case Rejected =>
        Step(ShowSnackbar(st, DeleteFailed, Snackbar.Error), sent)
  }

  /** `handleAddStudent`: an incomplete draft only raises a warning and sends
      nothing; a complete one is POSTed, and on success the response is
      appended, the modal closes and a success banner shows; on failure
      only an error banner shows. */
  function AddStudent(st: AppState, outcome: Outcome<Student>): (r: Step)
    ensures !Complete(st.current) ==>
              && r.sent.None?
              && r.state.students == st.students
              && SameModal(r.state, st)
              && Shows(r.state, FillAllFields, Snackbar.Warning)
    ensures Complete(st.current) ==> r.sent == Some(Post(st.current.value))
    ensures Complete(st.current) && outcome.Resolved? ==>
              && r.state.students == StudentList.Append(st.students, outcome.body)
              && ClosedFrom(r.state, st)
              && Shows(r.state, Added, Snackbar.Success)
    ensures Complete(st.current) && outcome.Rejected? ==>
              r.state.students == st.students && SameModal(r.state, st) && Shows(r.state, AddFailed, Snackbar.Error)
    ensures r.state.searchTerm == st.searchTerm
  {
    if !Complete(st.current) then
      Step(ShowSnackbar(st, FillAllFields, Snackbar.Warning), None)
    else
      var d := st.current.value;
      var sent := Some(Post(d));
      match outcome
      case Resolved(rec) =>
        var patched := st.(students := StudentList.Append(st.students, rec));
        Step(ShowSnackbar(CloseModal(patched), Added, Snackbar.Success), sent)
      case Rejected =>
        Step(ShowSnackbar(st, AddFailed, Snackbar.Error), sent)
  }

  // --------------------------------------------------------------- snackbar

  /** `showSnackbar` on the page state: only the banner changes. */
  function ShowSnackbar(st: AppState, message: string, severity: Snackbar.Severity): (r: AppState)
    ensures Shows(r, message, severity)
    ensures r.(snackbar := st.snackbar) == st
  {
    st.(snackbar := Snackbar.Show(message, severity))
  }

  /** `handleSnackbarClose` on the page state: only the banner changes. */
  function SnackbarClose(st: AppState, reason: Snackbar.CloseReason): (r: AppState)
    ensures reason == Snackbar.Clickaway ==> r == st
    ensures reason != Snackbar.Clickaway ==>
              !r.snackbar.open && r.snackbar.message == st.snackbar.message && r.snackbar.severity == st.snackbar.severity
    ensures r.(snackbar := st.snackbar) == st
  {
    st.(snackbar := Snackbar.Close(st.snackbar, reason))
  }

  // ------------------------------------------------------------- properties

  /** After a successful add, the table shows what it showed before, plus
      the new record at the end exactly when it matches the search term. */
  lemma AddedRowShownIffMatches(st: AppState, rec: Student)
    requires Complete(st.current)
    ensures FilteredStudents(AddStudent(st, Resolved(rec)).state)
         == FilteredStudents(st) + (if Matches(rec, st.searchTerm) then [rec] else [])
  {
    Arrays.FilterConcat(st.students, [rec], MatchesTerm(st.searchTerm));
  }

  /** Adding a record with a new id, then confirming its deletion, gives back
      the list as it was before the add. */
  lemma AddThenDeleteRestores(st: AppState, rec: Student)
    requires Complete(st.current)
    requires !StudentList.Listed(st.students, rec.id)
    ensures ConfirmDeleteStudent(DeleteStudent(AddStudent(st, Resolved(rec)).state, rec), Resolved(())).state.students
         == st.students
  {
    StudentList.AppendThenRemove(st.students, rec);
  }

  /** Row ids stay unique through a successful add of a new id, an edit
      answered with the edited id, and any delete. */
  lemma MutationsKeepIdsUnique(st: AppState, rec: Student)
    requires StudentList.UniqueIds(st.students)
    ensures !StudentList.Listed(st.students, rec.id) ==>
              StudentList.UniqueIds(AddStudent(st, Resolved(rec)).state.students)
    ensures st.current.Some? && st.current.value.id == Some(rec.id) ==>
              StudentList.UniqueIds(EditStudent(st, Resolved(rec)).state.students)
    ensures StudentList.UniqueIds(ConfirmDeleteStudent(st, Resolved(())).state.students)
  {
    if !StudentList.Listed(st.students, rec.id) {
      StudentList.AppendKeepsUnique(st.students, rec);
    }
    if st.current.Some? && st.current.value.id == Some(rec.id) {
      StudentList.ReplaceKeepsUnique(st.students, rec);
    }
    if st.current.Some? {
      StudentList.RemoveKeepsUnique(st.students, st.current.value.id);
    }
  }

  /** A confirmed delete of a listed row, with unique ids, removes exactly
      one row and leaves no row with that id. */
  lemma DeleteRemovesOneRow(st: AppState, id: Id)
    requires StudentList.UniqueIds(st.students)
    requires StudentList.Listed(st.students, id)
    requires st.current.Some? && st.current.value.id == Some(id)
    ensures |ConfirmDeleteStudent(st, Resolved(())).state.students| == |st.students| - 1
    ensures !StudentList.Listed(ConfirmDeleteStudent(st, Resolved(())).state.students, id)
  {
    StudentList.RemoveListedShortensByOne(st.students, id);
  }

  /** The worked example: one student "Ann" living at "X"; searching "ann"
      shows her, searching "zzz" shows nobody. */
  lemma SearchExample()
    ensures var ann := Student("1", "Ann", "X", Num(80));
            && FilteredStudents(Initial.(students := [ann], searchTerm := "ann")) == [ann]
            && FilteredStudents(Initial.(students := [ann], searchTerm := "zzz")) == []
  {
    var ann := Student("1", "Ann", "X", Num(80));
    assert Strings.ToLower("Ann") == "ann" by {
      assert Strings.LowerChar('A') == 'a';
    }
    assert Strings.ToLower("ann") == "ann";
    assert Strings.ToLower("zzz") == "zzz";
    assert Strings.ToLower("X") == "x" by {
      assert Strings.LowerChar('X') == 'x';
    }
    assert Matches(ann, "ann") by {
      assert Strings.Includes("ann", "ann");
    }
    assert !Matches(ann, "zzz") by {
      assert !Strings.Includes("ann", "zzz");
      assert !Strings.Includes("x", "zzz");
    }
    assert Arrays.Filter([ann], MatchesTerm("ann")) == [ann];
    assert Arrays.Filter([ann], MatchesTerm("zzz")) == [];
  }

  /** The worked example: adding with an empty name only warns. */
  lemma AddEmptyNameExample(st: AppState)
    requires st.current == Some(Draft(None, Some(Str("")), Some(Str("Y")), Some(Num(50))))
    ensures AddStudent(st, Rejected).sent.None?
    ensures AddStudent(st, Rejected).state == st.(snackbar := Snackbar.Snackbar(true, FillAllFields, Snackbar.Warning))
  {
  }
}
