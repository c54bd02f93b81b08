# StudentRegistry core in Dafny

A functional model of the core of StudentRegistry, a CRUD service over a single `Student` record. It covers:

- the entity and its three derived shapes: the `StudentInput` write shape, the `StudentResult` view, and the `StudentReport` spreadsheet row;
- the mapping profile between them;
- the repository's five operations over an abstract table;
- the service's use cases, including the logical content of the Excel export;
- the API-key gate.

Everything is a pure function over immutable data. The service's `KeyNotFoundException` becomes a `NotFound` result variant.

Modules, leaf first:

- `Wrappers` (`wrappers.dfy`): `Option` (a C# `null` is `None`) and `Result`.
- `Dates` (`dates.dfy`): `DateTime` as year, month and day plus ticks since midnight, limited to years 1 to 9999. It also holds `.Date` (`DateOf`) and the two renderings the service uses, `dd/MM/yyyy` and `yyyy-MM-dd`. Each rendering has a parser that inverts it, so the renderings are proved to keep the calendar date and drop only the time of day.
- `Validation` (`validation.dfy`): the `[Required]`, `[MaxLength]` and `[EmailAddress]` annotations as predicates. `[Required]` on a string means non-null and not white-space only, using .NET's `char.IsWhiteSpace` set. The email-format check is library code, so it is a parameter `isEmail`.
- `Students` (`students.dfy`): the entity. It has two separate constraints:
  - `Annotated`: the annotations declared on the entity's members.
  - `FitsColumns`: what the table enforces, which is `NOT NULL` plus the `nvarchar(n)` width.

  Nothing on the persistence path evaluates the annotations, so the table's check is the one writes run into.
- `Models` (`models.dfy`): `StudentInput`, `StudentResult`, `StudentReport` and `ValidInput`.
- `Mapping` (`mapping.dfy`): the three maps, including the input applied in place onto a fetched entity, and the laws relating them.
- `Repository` (`repository.dfy`): the table as `Store(rows, nextId)`.
  - The rows are kept in clustered-key order. Keys ascend, and this is also insertion order, because the identity column starts at 1 and steps by 1. The listing query has no `ORDER BY`, so the database promises no order; the model assumes it returns rows in this clustered order.
  - `ToMap` reads the rows as the `map<int, Student>` in which every frame condition is stated.
  - The Entity Framework effects are modelled:
    - the store assigns the key;
    - the create date defaults to `now` only when the entity holds `DateTime.MinValue`;
    - a write of a too-long or null required string is rejected;
    - the 32-bit identity can overflow;
    - an update of an entity whose key is still 0 is an insert, because the change tracker marks such an entity as added;
    - any other update, and any delete, that matches no row fails.
- `Service` (`service.dfy`): each use case maps a store to a `Step`. A `Step` holds:
  - the store afterwards;
  - the result;
  - the sequence of repository calls made, which mirrors what the service's unit tests verify with mocks.

  The export is modelled as a `Sheet` (a name and rows of cell texts).
- `ApiKeyGate` (`apikey.dfy`): the decision in `ApiKeyMiddleware.InvokeAsync` and the step that either runs the rest of the pipeline once or answers 401 itself.

Assumptions: `now` is the store's current UTC time, passed as a parameter. The `/` in `dd/MM/yyyy` is taken as a literal slash; .NET substitutes the culture's date separator. A null string written into a spreadsheet cell is taken to give an empty cell. String lengths are counted in Dafny characters (Unicode scalar values), not UTF-16 code units.

Behaviours of the program worth stating plainly:

- The entity's annotations are never evaluated on save. Only the table's `NOT NULL` and width limits apply, so a blank name can be stored (`Students.ColumnsAcceptBlankName`).
- `IStudentsService` and `IStudentsRepository` declare `GetAllStudentsAsync`; neither class implements it. It appears only as the abstract promise `Service.IsAllStudentsResult`.
- Update is a full overwrite. A null or default member in the input replaces the stored value. The update unit test's "unchanged member" checks compare the result with the same object the service mutated, so they cannot detect this.

## Model

| member | source | states |
|---|---|---|
| Dates.DayMonthYearRoundTrip | StudentRegistry.Services/Students/Mappings/StudentsMappingProfile.cs:12-13 | reading back a `dd/MM/yyyy` rendering gives exactly the instant's calendar date |
| Dates.DayMonthYearIdentifiesDate | StudentRegistry.Services/Students/Mappings/StudentsMappingProfile.cs:12-13 | two instants render alike in `dd/MM/yyyy` if and only if they fall on the same calendar day |
| Dates.IsoRoundTrip | StudentRegistry.Services/Students/StudentsService.cs:114-117 | reading back a `yyyy-MM-dd` rendering gives exactly the instant's calendar date |
| Dates.IsoIdentifiesDate | StudentRegistry.Services/Students/StudentsService.cs:114-117 | two instants render alike in `yyyy-MM-dd` if and only if they fall on the same calendar day |
| Dates.ParseDayMonthYear | StudentRegistry.Services/Students/Mappings/StudentsMappingProfile.cs:12-13 | any string the view's date parser accepts is the rendering of the midnight it returns (the other half of the round trip) |
| Dates.ParseIso | StudentRegistry.Services/Students/StudentsService.cs:114-117 | any string the cell-date parser accepts is the rendering of the midnight it returns |
| Students.AnnotatedFitsColumns | StudentRegistry.Repositories/Students/Student.cs:13-32 | an entity meeting its declared `[Required]`/`[MaxLength]` annotations satisfies the table's non-null and width constraints |
| Students.ColumnsAcceptBlankName | StudentRegistry.Repositories/Migrations/20240516062042_Create_initial_models.cs:18 | the table accepts an empty name that the `[Required]` annotation rejects: the two checks differ |
| Mapping.ToStudentResult | StudentRegistry.Services/Students/Mappings/StudentsMappingProfile.cs:11-13 | the view copies Id and the ten other members, and its create-date text reads back as the entity's calendar date |
| Mapping.ApplyInput | StudentRegistry.Services/Students/Mappings/StudentsMappingProfile.cs:14 | writing an input onto an entity keeps its Id and CreateDate and makes its ten input members exactly the input |
| Mapping.ToStudent | StudentRegistry.Services/Students/StudentsService.cs:23 | a new entity from an input carries the input's ten members, Id 0 and create date `DateTime.MinValue` |
| Mapping.ToStudentReport | StudentRegistry.Services/Students/Mappings/StudentsMappingProfile.cs:15-17 | the report row copies the nine shared members and keeps the create date as a date; the sex label is "Male" exactly when the flag is set, else "Female" |
| Mapping.ApplyOwnInput | StudentRegistry.Services/Students/Mappings/StudentsMappingProfile.cs:14 | writing an entity's own input members back onto it changes nothing |
| Mapping.ApplyInputOverwrites | StudentRegistry.Services/Students/StudentsService.cs:51 | update is a full overwrite: a later input wipes out every member an earlier one set |
| Mapping.EntityIsIdentityPlusInput | StudentRegistry.Services/Students/Models/StudentInput.cs:5-39 | an entity is fully determined by its Id, its CreateDate and the ten members the input carries |
| Mapping.ResultKeepsInput | StudentRegistry.Services/Students/Mappings/StudentsMappingProfile.cs:11-14 | input to entity to view preserves every input member and the entity's Id |
| Mapping.ResultIdentifiesUpToTimeOfDay | StudentRegistry.Services/Students/Models/StudentResult.cs:5-27 | two entities share a view if and only if they agree on every member, the create date compared by calendar day only |
| Mapping.ReportIgnoresIdAndPhoto | StudentRegistry.Services/Students/Models/StudentReport.cs:3-24 | two entities give the same report row if and only if they agree on everything except Id and Photo |
| Mapping.ReportAgreesWithResult | StudentRegistry.Services/Students/Mappings/StudentsMappingProfile.cs:11-17 | report row and view agree on their shared members; the row's create date renders to the view's text |
| Mapping.ValidInputIsAnnotatedStudent | StudentRegistry.Services/Students/Models/StudentInput.cs:7-26 | an input is valid if and only if the entity it is written onto meets the entity's own annotations |
| Mapping.ValidInputFitsColumns | StudentRegistry.Services/Students/Models/StudentInput.cs:7-26 | a valid input always yields an entity the table accepts, new or updated |
| Repository.Find | StudentRegistry.Repositories/Students/StudentsRepository.cs:22-26 | `FirstOrDefault` by key returns a stored row with that key, and nothing exactly when no row has it |
| Repository.FindAgreesWithMap | StudentRegistry.Repositories/Students/StudentsRepository.cs:22-26 | the first row with a key is the record the key maps to in the table |
| Repository.Filter | StudentRegistry.Repositories/Students/StudentsRepository.cs:42-44 | `Where` keeps exactly the rows passing the test, invents none, and preserves key order |
| Repository.ToMapAppend | StudentRegistry.Repositories/Students/StudentsRepository.cs:16-20 | appending a row under a fresh key adds exactly that entry to the table's map |
| Repository.ToMapReplace | StudentRegistry.Repositories/Students/StudentsRepository.cs:28-32 | replacing the row of a present key changes exactly that map entry |
| Repository.ToMapRemove | StudentRegistry.Repositories/Students/StudentsRepository.cs:34-38 | removing the rows of a key removes exactly that map entry |
| Repository.ToMapSize | StudentRegistry.Repositories/Migrations/20240516062042_Create_initial_models.cs:32 | with a primary key the table's map has one entry per row |
| Repository.Add | StudentRegistry.Repositories/Students/StudentsRepository.cs:16-20 | insert succeeds exactly for key 0, fitting columns and identity room; it adds one fresh key of at most `int.MaxValue`, leaves the other entries alone, keeps the caller's members, and defaults a `MinValue` create date to `now`; other records' names do not matter (non-unique index) |
| Repository.GetById | StudentRegistry.Repositories/Students/StudentsRepository.cs:22-26 | lookup returns the record filed under the key, or none when the key is absent |
| Repository.Update | StudentRegistry.Repositories/Students/StudentsRepository.cs:28-32 | an entity with a stored key is written over that entry only, and succeeds exactly when the key is present and the columns fit; a missing key gives "no row affected". An entity whose key is still 0 is inserted under the next identity with the `MinValue` create date defaulted to `now`, exactly as an insert would store it |
| Repository.UpdateOfUnsavedEntityIsAdd | StudentRegistry.Repositories/Students/StudentsRepository.cs:16-32 | updating an entity whose key is 0 has the same outcome and leaves the same store as inserting it |
| Repository.Delete | StudentRegistry.Repositories/Students/StudentsRepository.cs:34-38 | delete succeeds exactly for a present key and removes that entry only, shrinking the table by one |
| Repository.GetStudents | StudentRegistry.Repositories/Students/StudentsRepository.cs:40-44 | the listing holds exactly the stored records whose create date falls on the filter's calendar day (all of them with no filter), in clustered-key order (an assumption, see below), without repeats |
| Repository.FilterKeepingAll | StudentRegistry.Repositories/Students/StudentsRepository.cs:43 | a `Where` that admits every row returns the rows unchanged |
| Repository.NothingListedWithoutMatches | StudentRegistry.Repositories/Students/StudentsRepository.cs:40-44 | when no record was created on the filter's day the listing is empty |
| Repository.UnfilteredListingIsWholeStore | StudentRegistry.Repositories/Students/StudentsRepository.cs:40-44 | with no filter the listing has one element per stored key and contains every stored record |
| Repository.ListedRecordsAreStored | StudentRegistry.Repositories/Students/StudentsRepository.cs:42-44 | every listed record is the one the table holds under its key |
| Repository.AppendKeepsValid | StudentRegistry.Repositories/Students/Student.cs:9-11 | inserting under the next identity keeps keys unique, ascending and below the identity counter |
| Repository.RemoveKeepsValid | StudentRegistry.Repositories/Students/StudentsRepository.cs:34-38 | deleting keeps the table's key and column invariants |
| Service.AddStudent | StudentRegistry.Services/Students/StudentsService.cs:21-28 | add makes one repository insert of the mapped input. On success the store gains one fresh key holding the record whose view is returned; that view carries every input member and today's date. On failure nothing changes |
| Service.GetStudentById | StudentRegistry.Services/Students/StudentsService.cs:30-40 | get never changes the store; it returns the stored record's view, or `NotFound("Student not found.")` exactly when the id is absent |
| Service.UpdateStudent | StudentRegistry.Services/Students/StudentsService.cs:42-56 | a miss returns NotFound after a lookup only, with no write. A hit writes the record with every input member overwritten and Id and CreateDate kept, changes only that entry, and returns the new view |
| Service.DeleteStudent | StudentRegistry.Services/Students/StudentsService.cs:58-68 | a miss returns NotFound and leaves the store alone; a hit makes one delete of the fetched record and removes exactly its key |
| Service.ReportCells | StudentRegistry.Services/Students/StudentsService.cs:108-119 | a data row has one cell per header label, and both date cells read back as the calendar dates |
| Service.DataRows | StudentRegistry.Services/Students/StudentsService.cs:105-121 | one data row per listed student, in listing order |
| Service.GetStudentsExcelReport | StudentRegistry.Services/Students/StudentsService.cs:70-121 | the export passes the filter to one listing call, names its sheet "Students", puts the ten fixed labels first, then one row per listed student in order |
| Service.AddThenGet | StudentRegistry.Services/Students/StudentsService.cs:21-40 | after an add, looking up the returned id gives the returned view, which carries every input member |
| Service.ValidInputIsAdded | StudentRegistry.Services/Students/StudentsService.cs:21-28 | a valid input is always stored while identity values remain |
| Service.UpdateThenGet | StudentRegistry.Services/Students/StudentsService.cs:42-56 | a valid update of a present id always succeeds; the record then reads back with the input's members and its old Id and create date |
| Service.DeleteThenGet | StudentRegistry.Services/Students/StudentsService.cs:58-68 | after deleting a present id, looking it up gives NotFound |
| Service.FailuresChangeNothing | StudentRegistry.Services/Students/StudentsService.cs:21-68 | a failed add, update or delete leaves the store as it was |
| Service.RowDescribesStudent | StudentRegistry.Services/Students/StudentsService.cs:108-119 | each data cell holds the student member its header names; the sex cell is "Male" exactly for the set flag |
| Service.ExportRowIsListedStudent | StudentRegistry.Services/Students/StudentsService.cs:72-121 | sheet row i+1 describes the i-th listed student, a stored record that the filter admits |
| Service.ExportWithoutMatchesIsHeaderOnly | StudentRegistry.Services/Students/StudentsService.cs:72-121 | with no record matching the filter the sheet is the header row alone |
| Service.AllStudentsFromUnfilteredListing | StudentRegistry.Services/Students/IStudentsService.cs:9 | the views of the unfiltered listing meet the declared "all students" promise: one view per stored record |
| ApiKeyGate.Decide | StudentRegistry.Api/Configuration/ApiKeyMiddleware.cs:31-37 | the gate passes exactly when the `X-Api-Key` header's values equal the configured key's; otherwise it answers 401 "Invalid API key" |
| ApiKeyGate.Invoke | StudentRegistry.Api/Configuration/ApiKeyMiddleware.cs:29-41 | on pass the next handler runs exactly once and its state and response are the outcome; on reject it never runs and the state is unchanged |
| ApiKeyGate.MissingHeaderIsRejected | StudentRegistry.Api/Configuration/ApiKeyMiddleware.cs:33-37 | a request without the header gets 401 "Invalid API key" |
| ApiKeyGate.ConfiguredKeyGate | StudentRegistry.Api/Configuration/ApiKeyMiddleware.cs:31-33 | with a configured key, the gate passes if and only if the header holds that key as its only value |
| ApiKeyGate.RepeatedHeaderIsRejected | StudentRegistry.Api/Configuration/ApiKeyMiddleware.cs:33 | a header sent twice is rejected even when both copies hold the key |
| ApiKeyGate.UnconfiguredKeyRejects | StudentRegistry.Api/Configuration/ApiKeyMiddleware.cs:31-33 | with no key configured, every real request is rejected |
| ApiKeyGate.OtherHeadersDoNotMatter | StudentRegistry.Api/Configuration/ApiKeyMiddleware.cs:12 | only the header named `X-Api-Key` affects the decision |
| ApiKeyGate.RejectionHasNoEffect | StudentRegistry.Api/Configuration/ApiKeyMiddleware.cs:35-37 | a rejected request's outcome does not depend on the next handler and leaves its state unchanged |

## Left out

- HTTP routing, the controller's call-throughs, status codes, content types and the file name of the export are framework results. So is how the gate writes its response body.
- Dependency injection, Swagger, CORS, logging and database creation are configuration glue and are not modelled.
- The ORM, its change tracker, SQL and migrations are not modelled directly. Only their effects are:
  - the identity key;
  - the create-date default, taken as a `now` parameter;
  - the column constraints;
  - the non-unique name index (no uniqueness is enforced);
  - the "no row affected" failure.
- Repository.Add: a failed insert does not consume an identity value, and `getutcdate()`'s reduced precision is not modelled. When several store errors apply at once, the one reported is a modelling choice.
- The OpenXML packaging of the export is a foreign library. The model stops at the logical sheet name and rows of cell text, and the cell data type (always string) is not modelled.
- `async`/`Task` and exceptions are not modelled. Exceptions become `Result` variants.
- The internals of the email validator are library code. The format check is the parameter `isEmail`.
- HTTP header names are matched case-insensitively by the host's header dictionary. The model looks up the exact name `X-Api-Key`.
- `DateTime.Kind` is not modelled. Dates compare by their calendar fields and ticks, as `DateTime` equality does.
- The real clock and culture-sensitive formatting are not modelled; see the assumptions above.
- Repository.GetStudents: the query has no `ORDER BY`, so the database may return the rows in any order. The model fixes clustered-key order, and the listing's ascending keys and the export's row order rest on that choice.
- Store unavailability (lost connections, time-outs, a failed `SaveChanges` for reasons other than the ones listed above) is not modelled. So `Repository.GetById`, `Repository.GetStudents`, `Service.GetStudentById` and `Service.GetStudentsExcelReport` are total, and the export always succeeds.
- Concurrent requests are not modelled. The read-then-write race in update and delete involves two requests at once.
- Service.AllStudentsFromUnfilteredListing: `GetAllStudentsAsync` has no implementation in the service or repository classes, so this only shows that the abstract promise can be met. It does not model a behaviour of the source.
- Service.GetStudentsExcelReport: it states the logical sheet, not the workbook bytes the service returns.
