/** The service-level shapes: the write shape `StudentInput`, the read
    shape `StudentResult`, and the spreadsheet-row shape `StudentReport`. */
module Models {
  import opened Wrappers
  import opened Dates
  import opened Validation
  import opened Students

  /** What a client sends on create and update: every entity member except
      the store-owned `Id` and `CreateDate`. */
  datatype StudentInput = StudentInput(
    name: Option<string>,
    lastName: Option<string>,
    emailAddress: Option<string>,
    documentType: Option<string>,
    documentNumber: Option<string>,
    birthDate: DateTime,
    sex: bool,
    phoneNumber: Option<string>,
    nationality: Option<string>,
    photo: Option<string>)

  /** What the service returns: the entity with `CreateDate` as text. */
  datatype StudentResult = StudentResult(
    id: int,
    name: Option<string>,
    lastName: Option<string>,
    emailAddress: Option<string>,
    documentType: Option<string>,
    documentNumber: Option<string>,
    birthDate: DateTime,
    sex: bool,
    phoneNumber: Option<string>,
    nationality: Option<string>,
    photo: Option<string>,
    createDate: Option<string>)

  /** One spreadsheet row's worth of a student: no `Id`, no `Photo`, the
      sex flag as a label, both dates still dates. */
  datatype StudentReport = StudentReport(
    name: Option<string>,
    lastName: Option<string>,
    emailAddress: Option<string>,
    documentType: Option<string>,
    documentNumber: Option<string>,
    birthDate: DateTime,
    sexDescription: Option<string>,
    phoneNumber: Option<string>,
    createDate: DateTime,
    nationality: Option<string>)

  /** The input's annotations hold. Birth date and sex are value types, so
      `[Required]` on them always holds; phone, nationality and photo carry
      no annotation. */
  predicate ValidInput(i: StudentInput, isEmail: string -> bool) {
    && RequiredWithin(i.name, NameMaxLength)
    && RequiredWithin(i.lastName, LastNameMaxLength)
    && RequiredWithin(i.emailAddress, EmailAddressMaxLength)
    && EmailFormatted(i.emailAddress, isEmail)
    && RequiredWithin(i.documentType, DocumentTypeMaxLength)
    && RequiredWithin(i.documentNumber, DocumentNumberMaxLength)
  }
}
