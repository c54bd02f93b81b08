/** The student service: one use case per operation, each a straight-line
    composition of repository and mapping calls. A use case is a transition
    of the store that also reports its result (or the `NotFound` error that
    the service raises as `KeyNotFoundException`) and the repository calls
    it made, in order. */
module Service {
  import opened Wrappers
  import opened Dates
  import opened Students
  import opened Models
  import opened Mapping
  import opened Repository

  /** The message every failed lookup carries. */
  const StudentNotFound: string := "Student not found."

  datatype ServiceError =
    | NotFound(message: string)
    | StoreFailed(cause: StoreError)

  /** One call the service made to the repository. */
  datatype RepositoryCall =
    | AddCall(student: Student)
    | GetByIdCall(id: int)
    | UpdateCall(student: Student)
    | DeleteCall(student: Student)
    | GetStudentsCall(createDate: Option<DateTime>)

  /** What a use case leaves behind: the store after it, its result, and
      the repository calls it made. */
  datatype Step<T> = Step(store: Store, result: Result<T, ServiceError>, calls: seq<RepositoryCall>)

  /** `AddStudentAsync`: map the input to a new entity, insert it, and
      return the view of the entity as the store filled it in. */
  function AddStudent(st: Store, input: StudentInput, now: DateTime): (r: Step<StudentResult>)
    requires Valid(st)
    ensures Valid(r.store)
    ensures r.calls == [AddCall(ToStudent(input))]
    ensures r.result.Success? <==> FitsColumns(ToStudent(input)) && st.nextId <= Int32Max
    ensures r.result.Failure? ==> r.store == st && r.result.error.StoreFailed?
    ensures r.result.Success? ==>
      var v := r.result.value;
      && v.id !in ToMap(st.rows)
      && v.id in ToMap(r.store.rows)
      && ToMap(r.store.rows) == ToMap(st.rows)[v.id := ToMap(r.store.rows)[v.id]]
      && ToStudentResult(ToMap(r.store.rows)[v.id]) == v
      && InputOfResult(v) == input
      && ParseDayMonthYear(v.createDate.value) == Some(DateOf(now))
  {
    var s := ToStudent(input);
    match Add(st, s, now)
    case Failure(e) => Step(st, Failure(StoreFailed(e)), [AddCall(s)])
    case Success((st', stored)) =>
      ResultKeepsInput(input, BlankStudent);
      assert InputOf(stored) == input;
      Step(st', Success(ToStudentResult(stored)), [AddCall(s)])
  }

  /** `GetStudentByIdAsync`: the view of the stored record, or `NotFound`. */
  function GetStudentById(st: Store, id: int): (r: Step<StudentResult>)
    ensures r.store == st && r.calls == [GetByIdCall(id)]
    ensures id !in ToMap(st.rows) <==> r.result == Failure(NotFound(StudentNotFound))
    ensures id in ToMap(st.rows) ==> r.result == Success(ToStudentResult(ToMap(st.rows)[id]))
  {
    match GetById(st, id)
    case None => Step(st, Failure(NotFound(StudentNotFound)), [GetByIdCall(id)])
    case Some(s) => Step(st, Success(ToStudentResult(s)), [GetByIdCall(id)])
  }

  /** `UpdateStudentAsync`: fetch the record, overwrite its ten input
      members with the input's, write it back, return its view. A miss
      raises `NotFound` before any write. `now` is the store's clock; the
      fetched record always carries a stored key, so the write is never the
      insert the store makes of an entity with key 0. */
  function UpdateStudent(st: Store, id: int, input: StudentInput, now: DateTime): (r: Step<StudentResult>)
    requires Valid(st)
    ensures Valid(r.store)
    ensures id !in ToMap(st.rows) ==>
      r == Step(st, Failure(NotFound(StudentNotFound)), [GetByIdCall(id)])
    ensures id in ToMap(st.rows) ==>
      var before := ToMap(st.rows)[id];
      var after := ApplyInput(input, before);
      && after.id == id && after.createDate == before.createDate
      && InputOf(after) == input
      && r.calls == [GetByIdCall(id), UpdateCall(after)]
      && (r.result.Success? <==> FitsColumns(after))
      && (r.result.Success? ==>
            && ToMap(r.store.rows) == ToMap(st.rows)[id := after]
            && r.result.value == ToStudentResult(after))
      && (r.result.Failure? ==> r.store == st && r.result.error == StoreFailed(ConstraintViolation))
  {
    match GetById(st, id)
    case None => Step(st, Failure(NotFound(StudentNotFound)), [GetByIdCall(id)])
    case Some(s) =>
      var s' := ApplyInput(input, s);
      match Update(st, s', now)
      case Failure(e) => Step(st, Failure(StoreFailed(e)), [GetByIdCall(id), UpdateCall(s')])
      case Success(st') => Step(st', Success(ToStudentResult(s')), [GetByIdCall(id), UpdateCall(s')])
  }

  /** `DeleteStudentAsync`: fetch the record and delete that entity; a miss
      raises `NotFound` and deletes nothing. */
  function DeleteStudent(st: Store, id: int): (r: Step<()>)
    requires Valid(st)
    ensures Valid(r.store)
    ensures id !in ToMap(st.rows) ==>
      r == Step(st, Failure(NotFound(StudentNotFound)), [GetByIdCall(id)])
    ensures id in ToMap(st.rows) ==>
      && r.result.Success?
      && r.calls == [GetByIdCall(id), DeleteCall(ToMap(st.rows)[id])]
      && ToMap(r.store.rows) == ToMap(st.rows) - {id}
  {
    match GetById(st, id)
    case None => Step(st, Failure(NotFound(StudentNotFound)), [GetByIdCall(id)])
    case Some(s) =>
      match Delete(st, s)
      case Failure(e) => Step(st, Failure(StoreFailed(e)), [GetByIdCall(id), DeleteCall(s)])
      case Success(st') => Step(st', Success(()), [GetByIdCall(id), DeleteCall(s)])
  }

  // ---- the spreadsheet export ----

  /** A worksheet as its name and its rows of cell texts. */
  datatype Sheet = Sheet(name: string, rows: seq<seq<string>>)

  const SheetName: string := "Students"

  /** The fixed header row, one label per column. */
  const Header: seq<string> := [
    "Name", "Last Name", "Email Address", "Document Type", "Document Number",
    "Birth Date", "Sex Description", "Phone Number", "Create Date", "Nationality"]

  /** A cell's text for a nullable string; a null string gives an empty cell. */
  function CellText(v: Option<string>): string {
    if v.Some? then v.value else ""
  }

  /** One data row: the report row's ten members in header order, both
      dates as `yyyy-MM-dd`. */
  function ReportCells(r: StudentReport): (cells: seq<string>)
    ensures |cells| == |Header|
    ensures ParseIso(cells[5]) == Some(DateOf(r.birthDate))
    ensures ParseIso(cells[8]) == Some(DateOf(r.createDate))
  {
    IsoRoundTrip(r.birthDate);
    IsoRoundTrip(r.createDate);
    [CellText(r.name), CellText(r.lastName), CellText(r.emailAddress),
     CellText(r.documentType), CellText(r.documentNumber), FormatIso(r.birthDate),
     CellText(r.sexDescription), CellText(r.phoneNumber), FormatIso(r.createDate),
     CellText(r.nationality)]
  }

  /** The data rows for a list of students, in the list's order. */
  function DataRows(students: seq<Student>): (rows: seq<seq<string>>)
    ensures |rows| == |students|
    ensures forall i :: 0 <= i < |rows| ==> rows[i] == ReportCells(ToStudentReport(students[i]))
  {
    if |students| == 0 then []
    else [ReportCells(ToStudentReport(students[0]))] + DataRows(students[1..])
  }

  /** `GetStudentsExcelReportAsync`, up to the workbook's bytes: list the
      students the filter admits, then lay out the sheet. */
  function GetStudentsExcelReport(st: Store, createDate: Option<DateTime>): (r: Step<Sheet>)
    requires Valid(st)
    ensures r.store == st && r.calls == [GetStudentsCall(createDate)]
    ensures r.result.Success?
    ensures r.result.value.name == SheetName
    ensures var rows, listed := r.result.value.rows, GetStudents(st, createDate);
      && |rows| == |listed| + 1
      && rows[0] == Header
      && forall i :: 0 <= i < |listed| ==> rows[i + 1] == ReportCells(ToStudentReport(listed[i]))
  {
    var listed := GetStudents(st, createDate);
    Step(st, Success(Sheet(SheetName, [Header] + DataRows(listed))), [GetStudentsCall(createDate)])
  }

  // ---- properties of the use cases ----

  /** After a successful add, looking up the returned id gives back the
      returned view, and that view carries every member of the input. */
  lemma AddThenGet(st: Store, input: StudentInput, now: DateTime)
    requires Valid(st)
    requires AddStudent(st, input, now).result.Success?
    ensures var a := AddStudent(st, input, now);
            var v := a.result.value;
            && GetStudentById(a.store, v.id).result == Success(v)
            && InputOfResult(v) == input
  {
  }

  /** A valid input is always stored while identities last. */
  lemma ValidInputIsAdded(st: Store, input: StudentInput, now: DateTime, isEmail: string -> bool)
    requires Valid(st) && ValidInput(input, isEmail) && st.nextId <= Int32Max
    ensures AddStudent(st, input, now).result.Success?
  {
  }

  /** A valid input always updates a present record; the record then reads
      back with the input's members and its old identity and create date. */
  lemma UpdateThenGet(st: Store, id: int, input: StudentInput, now: DateTime, isEmail: string -> bool)
    requires Valid(st) && id in ToMap(st.rows) && ValidInput(input, isEmail)
    ensures var u := UpdateStudent(st, id, input, now);
            && u.result.Success?
            && GetStudentById(u.store, id).result == u.result
            && InputOfResult(u.result.value) == input
            && u.result.value.id == id
            && u.result.value.createDate == ToStudentResult(ToMap(st.rows)[id]).createDate
  {
  }

  /** After a successful delete the id is no longer found. */
  lemma DeleteThenGet(st: Store, id: int)
    requires Valid(st) && id in ToMap(st.rows)
    ensures GetStudentById(DeleteStudent(st, id).store, id).result == Failure(NotFound(StudentNotFound))
  {
  }

  /** A use case that fails leaves the store as it was. */
  lemma FailuresChangeNothing(st: Store, id: int, input: StudentInput, now: DateTime)
    requires Valid(st)
    ensures AddStudent(st, input, now).result.Failure? ==> AddStudent(st, input, now).store == st
    ensures UpdateStudent(st, id, input, now).result.Failure? ==> UpdateStudent(st, id, input, now).store == st
    ensures DeleteStudent(st, id).result.Failure? ==> DeleteStudent(st, id).store == st
  {
  }

  /** A data row describes its student column by column, under the
      header's labels. */
  lemma RowDescribesStudent(s: Student)
    ensures var row := ReportCells(ToStudentReport(s));
            && row[0] == CellText(s.name) && row[1] == CellText(s.lastName)
            && row[2] == CellText(s.emailAddress) && row[3] == CellText(s.documentType)
            && row[4] == CellText(s.documentNumber)
            && ParseIso(row[5]) == Some(DateOf(s.birthDate))
            && (row[6] == Male <==> s.sex) && (row[6] == Male || row[6] == Female)
            && row[7] == CellText(s.phoneNumber)
            && ParseIso(row[8]) == Some(DateOf(s.createDate))
            && row[9] == CellText(s.nationality)
  {
  }

  /** Row `i + 1` of the sheet describes the `i`-th listed student, a stored
      record that the filter admits. */
  lemma ExportRowIsListedStudent(st: Store, createDate: Option<DateTime>, i: int)
    requires Valid(st) && 0 <= i < |GetStudents(st, createDate)|
    ensures var s := GetStudents(st, createDate)[i];
            && s in st.rows && MatchesCreateDate(s, createDate)
            && GetStudentsExcelReport(st, createDate).result.value.rows[i + 1]
               == ReportCells(ToStudentReport(s))
  {
  }

  /** With no record matching the filter, the sheet is the header alone. */
  lemma ExportWithoutMatchesIsHeaderOnly(st: Store, createDate: Option<DateTime>)
    requires Valid(st)
    requires forall i :: 0 <= i < |st.rows| ==> !MatchesCreateDate(st.rows[i], createDate)
    ensures GetStudentsExcelReport(st, createDate).result.value.rows == [Header]
  {
    NothingListedWithoutMatches(st, createDate);
    var rows := GetStudentsExcelReport(st, createDate).result.value.rows;
    assert |rows| == 1;
  }

  // ---- the listing the service declares but does not implement ----

  /** What `GetAllStudentsAsync` promises: the view of every stored record,
      each exactly once. The service and the repository declare the
      operation but neither implements it. */
  ghost predicate IsAllStudentsResult(st: Store, views: seq<StudentResult>) {
    && |views| == |ToMap(st.rows)|
    && forall k :: k in ToMap(st.rows) ==> ToStudentResult(ToMap(st.rows)[k]) in views
  }

  /** The views of the unfiltered listing meet that promise. */
  lemma AllStudentsFromUnfilteredListing(st: Store)
    requires Valid(st)
    ensures IsAllStudentsResult(st, ViewsOf(GetStudents(st, None)))
  {
    UnfilteredListingIsWholeStore(st);
    var listed := GetStudents(st, None);
    forall k | k in ToMap(st.rows)
      ensures ToStudentResult(ToMap(st.rows)[k]) in ViewsOf(listed)
    {
      var j :| 0 <= j < |listed| && listed[j] == ToMap(st.rows)[k];
      assert ViewsOf(listed)[j] == ToStudentResult(listed[j]);
    }
  }

  function ViewsOf(students: seq<Student>): (views: seq<StudentResult>)
    ensures |views| == |students|
    ensures forall i :: 0 <= i < |views| ==> views[i] == ToStudentResult(students[i])
  {
    if |students| == 0 then [] else [ToStudentResult(students[0])] + ViewsOf(students[1..])
  }
}
