/** The three maps of the mapping profile written out member by member:
    entity to view, input to entity (fresh or onto an existing entity), and
    entity to report row. */
module Mapping {
  import opened Wrappers
  import opened Dates
  import opened Validation
  import opened Students
  import opened Models

  /** Entity to view: every member copied by name; `CreateDate` rendered
      as `dd/MM/yyyy`, so the view keeps its calendar date and loses its
      time of day. */
  function ToStudentResult(s: Student): (r: StudentResult)
    ensures r.id == s.id && r.name == s.name && r.lastName == s.lastName
    ensures r.emailAddress == s.emailAddress && r.documentType == s.documentType
    ensures r.documentNumber == s.documentNumber && r.birthDate == s.birthDate
    ensures r.sex == s.sex && r.phoneNumber == s.phoneNumber
    ensures r.nationality == s.nationality && r.photo == s.photo
    ensures r.createDate.Some?
    ensures ParseDayMonthYear(r.createDate.value) == Some(DateOf(s.createDate))
  {
    DayMonthYearRoundTrip(s.createDate);
    StudentResult(s.id, s.name, s.lastName, s.emailAddress, s.documentType,
                  s.documentNumber, s.birthDate, s.sex, s.phoneNumber,
                  s.nationality, s.photo, Some(FormatDayMonthYear(s.createDate)))
  }

  /** Input onto an existing entity (`mapper.Map(input, student)`): the ten
      input members overwrite the entity's, null or not; `Id` and
      `CreateDate` have no counterpart in the input and stay as they were. */
  function ApplyInput(i: StudentInput, s: Student): (r: Student)
    ensures r.id == s.id && r.createDate == s.createDate
    ensures InputOf(r) == i
  {
    s.(name := i.name, lastName := i.lastName, emailAddress := i.emailAddress,
       documentType := i.documentType, documentNumber := i.documentNumber,
       birthDate := i.birthDate, sex := i.sex, phoneNumber := i.phoneNumber,
       nationality := i.nationality, photo := i.photo)
  }

  /** A default-constructed entity: `Id` 0, every string null, every date
      `DateTime.MinValue`, the flag false. */
  const BlankStudent: Student :=
    Student(0, None, None, None, None, None, MinValue, false, None, MinValue, None, None)

  /** Input to a new entity (`mapper.Map<Student>(input)`). */
  function ToStudent(i: StudentInput): (r: Student)
    ensures r.id == 0 && r.createDate == MinValue
    ensures InputOf(r) == i
  {
    ApplyInput(i, BlankStudent)
  }

  /** The ten members of an entity that an input can set. */
  function InputOf(s: Student): StudentInput {
    StudentInput(s.name, s.lastName, s.emailAddress, s.documentType, s.documentNumber,
                 s.birthDate, s.sex, s.phoneNumber, s.nationality, s.photo)
  }

  /** The same ten members read off a view. */
  function InputOfResult(v: StudentResult): StudentInput {
    StudentInput(v.name, v.lastName, v.emailAddress, v.documentType, v.documentNumber,
                 v.birthDate, v.sex, v.phoneNumber, v.nationality, v.photo)
  }

  const Male: string := "Male"
  const Female: string := "Female"

  /** Entity to report row: the nine shared members copied, `Id` and
      `Photo` dropped, the sex flag replaced by its label. */
  function ToStudentReport(s: Student): (r: StudentReport)
    ensures r.name == s.name && r.lastName == s.lastName
    ensures r.emailAddress == s.emailAddress && r.documentType == s.documentType
    ensures r.documentNumber == s.documentNumber && r.birthDate == s.birthDate
    ensures r.phoneNumber == s.phoneNumber && r.createDate == s.createDate
    ensures r.nationality == s.nationality
    ensures r.sexDescription.Some?
    ensures r.sexDescription.value == Male || r.sexDescription.value == Female
    ensures r.sexDescription.value == Male <==> s.sex
  {
    StudentReport(s.name, s.lastName, s.emailAddress, s.documentType, s.documentNumber,
                  s.birthDate, Some(if s.sex then Male else Female), s.phoneNumber,
                  s.createDate, s.nationality)
  }

  // ---- laws of the maps ----

  /** Writing back an entity's own input members changes nothing. */
  lemma ApplyOwnInput(s: Student)
    ensures ApplyInput(InputOf(s), s) == s
  {
  }

  /** An update is a full overwrite: the later input wins on every member,
      and nothing of the earlier input survives. */
  lemma ApplyInputOverwrites(i: StudentInput, j: StudentInput, s: Student)
    ensures ApplyInput(j, ApplyInput(i, s)) == ApplyInput(j, s)
  {
  }

  /** An entity is determined by its identity, its create date and its
      input members; applying an input onto it reaches every other member. */
  lemma EntityIsIdentityPlusInput(a: Student, b: Student)
    ensures a == b <==> a.id == b.id && a.createDate == b.createDate && InputOf(a) == InputOf(b)
  {
  }

  /** Input to entity to view keeps every input member. */
  lemma ResultKeepsInput(i: StudentInput, s: Student)
    ensures InputOfResult(ToStudentResult(ApplyInput(i, s))) == i
    ensures ToStudentResult(ApplyInput(i, s)).id == s.id
  {
  }

  /** Two entities have the same view exactly when they agree on every
      member, the create date compared by calendar day only. */
  lemma ResultIdentifiesUpToTimeOfDay(a: Student, b: Student)
    ensures ToStudentResult(a) == ToStudentResult(b)
            <==> a.(createDate := DateOf(a.createDate)) == b.(createDate := DateOf(b.createDate))
  {
  }

  /** Two entities give the same report row exactly when they agree on
      everything but `Id` and `Photo`. */
  lemma ReportIgnoresIdAndPhoto(a: Student, b: Student)
    ensures ToStudentReport(a) == ToStudentReport(b)
            <==> a.(id := 0, photo := None) == b.(id := 0, photo := None)
  {
  }

  /** The report row and the view agree on the members they share, and the
      row's create date renders to the view's text. */
  lemma ReportAgreesWithResult(s: Student)
    ensures var r, v := ToStudentReport(s), ToStudentResult(s);
            && r.name == v.name && r.lastName == v.lastName
            && r.emailAddress == v.emailAddress && r.documentType == v.documentType
            && r.documentNumber == v.documentNumber && r.birthDate == v.birthDate
            && r.phoneNumber == v.phoneNumber && r.nationality == v.nationality
            && v.createDate == Some(FormatDayMonthYear(r.createDate))
  {
  }

  /** The input annotations are the entity annotations: an input is valid
      exactly when the entity it is written onto satisfies the entity's own
      declared annotations. */
  lemma ValidInputIsAnnotatedStudent(i: StudentInput, s: Student, isEmail: string -> bool)
    ensures ValidInput(i, isEmail) <==> Annotated(ApplyInput(i, s), isEmail)
  {
  }

  /** A valid input produces an entity the table accepts, whether it is
      written onto a new entity or an existing one. */
  lemma ValidInputFitsColumns(i: StudentInput, s: Student, isEmail: string -> bool)
    requires ValidInput(i, isEmail)
    ensures FitsColumns(ApplyInput(i, s))
    ensures FitsColumns(ToStudent(i))
  {
  }
}
