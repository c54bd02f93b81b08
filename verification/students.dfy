/** The persisted student entity (table `Students`), the bounds declared on
    its members, and the column constraints the table itself enforces. */
module Students {
  import opened Wrappers
  import opened Dates
  import opened Validation

  const NameMaxLength: nat := 50
  const LastNameMaxLength: nat := 100
  const EmailAddressMaxLength: nat := 50
  const DocumentTypeMaxLength: nat := 20
  const DocumentNumberMaxLength: nat := 20

  /** `int.MaxValue`: the `Id` column is a 32-bit integer. */
  const Int32Max: int := 0x7FFF_FFFF

  /** A stored student. `id` is the identity key the store generates;
      every `Option<string>` member is a nullable string. `(name, lastName)`
      carries a non-unique index, so two records may share both. */
  datatype Student = Student(
    id: int,
    name: Option<string>,
    lastName: Option<string>,
    emailAddress: Option<string>,
    documentType: Option<string>,
    documentNumber: Option<string>,
    birthDate: DateTime,
    sex: bool,
    phoneNumber: Option<string>,
    createDate: DateTime,
    nationality: Option<string>,
    photo: Option<string>)

  /** A `NOT NULL nvarchar(n)` column with `n = max` accepts the value. */
  predicate FitsColumn(v: Option<string>, max: nat) {
    v.Some? && |v.value| <= max
  }

  /** What the table accepts on insert or update: the five required string
      columns are non-null and within their widths. The optional strings are
      `nvarchar(max)` and nullable; dates and the flag always have a value. */
  predicate FitsColumns(s: Student) {
    && FitsColumn(s.name, NameMaxLength)
    && FitsColumn(s.lastName, LastNameMaxLength)
    && FitsColumn(s.emailAddress, EmailAddressMaxLength)
    && FitsColumn(s.documentType, DocumentTypeMaxLength)
    && FitsColumn(s.documentNumber, DocumentNumberMaxLength)
  }

  /** The annotations declared on the entity's members. Nothing on the
      persistence path evaluates them; the table enforces `FitsColumns`. */
  predicate Annotated(s: Student, isEmail: string -> bool) {
    && RequiredWithin(s.name, NameMaxLength)
    && RequiredWithin(s.lastName, LastNameMaxLength)
    && RequiredWithin(s.emailAddress, EmailAddressMaxLength)
    && EmailFormatted(s.emailAddress, isEmail)
    && RequiredWithin(s.documentType, DocumentTypeMaxLength)
    && RequiredWithin(s.documentNumber, DocumentNumberMaxLength)
  }

  /** An entity that satisfies its declared annotations fits the table; the
      converse fails (a blank name fits the column). */
  lemma AnnotatedFitsColumns(s: Student, isEmail: string -> bool)
    requires Annotated(s, isEmail)
    ensures FitsColumns(s)
  {
  }

  /** A blank name is rejected by the annotations but accepted by the
      table: the two checks are not the same. */
  lemma ColumnsAcceptBlankName(s: Student, isEmail: string -> bool)
    requires FitsColumns(s) && s.name == Some("")
    ensures !Annotated(s, isEmail)
  {
  }
}
