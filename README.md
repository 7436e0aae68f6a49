# Address book: a Dafny model of its services, client state and form rules

The address book is an ASP.NET Core service with a React client, used by an administrator. Each entry records a person's name, job, department, mobile number, date of birth, address, e-mail, a hashed password, an optional photo and a computed age. Jobs and departments are small reference tables. Admin users register with a unique e-mail and log in to get a token.

This project models the parts of the system that make decisions and change state:

- **Server** (`AddressBookEntries`, `Jobs`, `Departments`, `Auth`):
  - The entry service creates, reads, updates, deletes, searches and exports entries. Age is computed from the date of birth.
  - The job and department services do CRUD on their tables.
  - The auth service checks registration uniqueness and decides logins.
  - Each service is a class. Its table is a `seq` in insertion order, kept with the identity counter that will issue the next id. The class invariant `Valid()` says the ids are positive, strictly increasing and below that counter.
  - Uploaded photos are a set of file names in the upload directory.
- **Client**:
  - Three Redux slices (`AddressBookSlice`, `JobsSlice`, `DepartmentsSlice`) and the older combined slice (`CombinedAddressBookSlice`). A class per slice state has one method per case reducer. The methods update the state in place, as the drafts of the reducers do.
  - The formatter `handleApiError` (`ApiErrors`) that turns a failed request into the stored error message.
  - The validation rules of the entry form (`EntryForm`).
- **Shared modules**:
  - `Rows`: list operations keyed by an id. These are lookup, replace-first, filter, remove-by-id and remove-at-index, with an order-preserving subsequence relation.
  - `Text`: ASCII lower-casing, substring search and join.
  - `Calendar`: the parts of .NET `DateTime` that are used, including `AddYears` and its 29 February rule.

Some things the program does outside this model are replaced by parameters:

- The password hash is `hash`. BCrypt verification is `verify`.
- The signed token is `issue(admin)`.
- The random GUID prefix of a photo name is `guid`.
- `DateTime.Today` is `today`.
- The e-mail format rule of the form is `isEmail`.

Behaviour kept as the code has it:

- Create saves the photo before it validates. A create that then fails has still added the file.
- Create rejects only an absent password; an empty one is hashed. Update keeps the stored hash for an absent or empty password.
- Update does not check that the job and department ids exist.
- The jobs and departments slices have no rejected case for create, update or delete. A failed request there leaves the state as it was.
- The combined slice's pending case does not clear an earlier error.

## Model

| member | source | states |
|---|---|---|
| Rows.FindIndex | frontend/src/store/slices/addressBookSlice.ts:115-117 | -1 exactly when no row has the key; otherwise an index holding the key, with no earlier row holding it (the key is the id, or the e-mail for the admin lookup) |
| Rows.FindIndexUnique | AddressBookService/Services/JobService.cs:18-21 | when ids increase along the table, the lookup finds the one row with that id (a primary-key `FindAsync`) |
| Rows.ReplaceFirst | frontend/src/store/slices/addressBookSlice.ts:114-121 | the length is kept and no id changes; with no matching id nothing changes; otherwise only the first match becomes the new row |
| Rows.ReplaceFirstKeepsIncreasingKeys | AddressBookService/Services/JobService.cs:31-38 | replacing a row by one with the same id keeps the ids increasing |
| Rows.Filter | AddressBookService/Services/AddressBookService.cs:114-128 | every kept row is a row of the input that passes; every passing row is kept; nothing is dropped when all pass |
| Rows.FilterAppend | frontend/src/store/slices/addressBookSlice.ts:128-130 | filtering a concatenation filters each part |
| Rows.FilterIsSubsequence | frontend/src/store/slices/addressBookSlice.ts:128-130 | the kept rows are in their original relative order |
| Rows.FilterCongruent | AddressBookService/Services/AddressBookService.cs:111-119 | two filters that agree on every row keep the same rows |
| Rows.RemoveKey | frontend/src/store/slices/addressBookSlice.ts:127-131 | the result holds exactly the rows whose id differs from the deleted one; with no such id it is the input |
| Rows.RemoveKeyIsSubsequence | frontend/src/store/slices/addressBookSlice.ts:127-131 | removing by id keeps the order of the remaining rows |
| Rows.RemoveAt | AddressBookService/Services/JobService.cs:43-47 | the row at the index is gone and the rows before and after it are kept, in order |
| Rows.RemoveAtIsRemoveKey | AddressBookService/Services/JobService.cs:41-49 | with unique increasing ids, removing the found row equals dropping every row with its id |
| Rows.RemoveAtKeepsIncreasingKeys | AddressBookService/Services/JobService.cs:41-49 | deleting a row keeps the ids increasing |
| Text.Contains | AddressBookService/Services/AddressBookService.cs:115-118 | ordinal `string.Contains`: `t` occurs at some position of `s`; a term that occurs is no longer than the text |
| Text.LowerChar | AddressBookService/Services/AddressBookService.cs:113 | upper-case ASCII letters map to lower case; every other character is kept |
| Text.ToLower | AddressBookService/Services/AddressBookService.cs:113-117 | the same length, each character lowered, and no upper-case ASCII letter left |
| Text.ToLowerIdempotent | AddressBookService/Services/AddressBookService.cs:113-117 | lowering twice is lowering once |
| Text.Join | frontend/src/store/slices/addressBookSlice.ts:10-14 | no parts give ""; one part gives that part |
| Text.JoinLength | frontend/src/store/slices/addressBookSlice.ts:10-14 | the joined length is the parts' lengths plus one separator between each pair of parts |
| Text.JoinAppend | frontend/src/store/slices/addressBookSlice.ts:10-14 | joining two non-empty lists is joining each, with one separator between them |
| Text.JoinContainsPart | frontend/src/store/slices/addressBookSlice.ts:10-14 | every part occurs in the joined string |
| Calendar.DaysInMonth | AddressBookService/Services/AddressBookService.cs:216 | 28 to 31 days; February has 29 exactly in a leap year |
| Calendar.DateOf | AddressBookService/Services/AddressBookService.cs:216 | `.Date` keeps the year, month and day and sets the time to midnight; valid stays valid |
| Calendar.Before | AddressBookService/Services/AddressBookService.cs:123-128 | the `DateTime` `<` on (year, month, day, time of day); never holds between equal values |
| Calendar.AtOrBefore | AddressBookService/Services/AddressBookService.cs:123-128 | the `DateTime` `<=` used by both date filters: holds exactly when the values are equal or the first is earlier |
| Calendar.BeforeIsStrictTotalOrder | AddressBookService/Services/AddressBookService.cs:121-129 | the `DateTime` order is irreflexive, transitive and total |
| Calendar.AddYears | AddressBookService/Services/AddressBookService.cs:216 | a valid date `n` years on, same month and time; the day is kept except that 29 February becomes 28 February in a common year |
| Calendar.AddYearsRoundTrip | AddressBookService/Services/AddressBookService.cs:216 | away from 29 February, moving `n` years and back is the identity |
| Jobs.JobService.GetAllJobs | AddressBookService/Services/JobService.cs:13-16 | exactly the stored jobs, with distinct ids |
| Jobs.JobService.GetJobById | AddressBookService/Services/JobService.cs:18-21 | a job exactly when one is stored under the id, and then a stored job with that id |
| Jobs.JobService.CreateJob | AddressBookService/Services/JobService.cs:23-29 | appends and returns a job with the title under a fresh id; the invariant is kept |
| Jobs.JobService.UpdateJob | AddressBookService/Services/JobService.cs:31-39 | none, and no change, exactly when the id is absent; otherwise only that job's title changes and the renamed job is returned |
| Jobs.JobService.DeleteJob | AddressBookService/Services/JobService.cs:41-49 | removes the job with the id and keeps the rest in order; no change when absent |
| Departments.DepartmentService.GetAllDepartments | AddressBookService/Services/DepartmentService.cs:11-14 | exactly the stored departments, with distinct ids |
| Departments.DepartmentService.GetDepartmentById | AddressBookService/Services/DepartmentService.cs:16-19 | a department exactly when one is stored under the id, and then a stored department with that id |
| Departments.DepartmentService.CreateDepartment | AddressBookService/Services/DepartmentService.cs:21-27 | appends and returns a department with the name under a fresh id; the invariant is kept |
| Departments.DepartmentService.UpdateDepartment | AddressBookService/Services/DepartmentService.cs:29-37 | none, and no change, exactly when the id is absent; otherwise only that department's name changes |
| Departments.DepartmentService.DeleteDepartment | AddressBookService/Services/DepartmentService.cs:39-47 | removes the department with the id and keeps the rest in order; no change when absent |
| AddressBookEntries.PhotoFileName | AddressBookService/Services/AddressBookService.cs:185 | the stored name is the GUID prefix, an underscore, then the client's file name |
| AddressBookEntries.SavedPath | AddressBookService/Services/AddressBookService.cs:175-194 | a path exactly when a photo was sent, and then its generated file name |
| AddressBookEntries.DeletedFiles | AddressBookService/Services/AddressBookService.cs:196-205 | a null or empty path deletes nothing; otherwise just that file |
| AddressBookEntries.CalculateAge | AddressBookService/Services/AddressBookService.cs:212-218 | the year difference, less one exactly when (month, day) of birth comes after (month, day) of today |
| AddressBookEntries.AgeNonNegativeIffBorn | AddressBookService/Services/AddressBookService.cs:212-218 | the age is non-negative exactly when the birth date is not after today |
| AddressBookEntries.AgeOnAnniversary | AddressBookService/Services/AddressBookService.cs:212-218 | born on this day `n` years ago gives `n`; a birthday later in the year gives `n - 1` |
| AddressBookEntries.JobTitleCell | AddressBookService/Services/AddressBookService.cs:158 | blank exactly when no job has the id; otherwise the title of a job with that id |
| AddressBookEntries.DepartmentNameCell | AddressBookService/Services/AddressBookService.cs:159 | blank exactly when no department has the id; otherwise the name of a department with that id |
| AddressBookEntries.PhotoCell | AddressBookService/Services/AddressBookService.cs:165 | the photo path as a text cell, blank exactly when the entry has no photo |
| AddressBookEntries.RowCells | AddressBookService/Services/AddressBookService.cs:157-165 | one cell per header column |
| AddressBookEntries.AddressBookService.GetAllEntries | AddressBookService/Services/AddressBookService.cs:13-19 | exactly the stored entries, with distinct ids |
| AddressBookEntries.AddressBookService.GetEntryById | AddressBookService/Services/AddressBookService.cs:21-27 | an entry exactly when one is stored under the id, and then that stored entry |
| AddressBookEntries.AddressBookService.SavePhoto | AddressBookService/Services/AddressBookService.cs:175-194 | with a photo, its generated name is added to the files and returned; without one, nothing |
| AddressBookEntries.AddressBookService.DeletePhoto | AddressBookService/Services/AddressBookService.cs:196-205 | removes the named file; a null or empty path removes none |
| AddressBookEntries.AddressBookService.ReplacePhoto | AddressBookService/Services/AddressBookService.cs:70-74 | the stored file is deleted and the new photo saved under its generated name, which is returned |
| AddressBookEntries.AddressBookService.CreateEntry | AddressBookService/Services/AddressBookService.cs:29-63 | the photo is saved either way; fails exactly when the job or the department is missing or the password is absent, and then adds no entry; otherwise appends one entry with the copied fields, the hashed password, the saved path and the computed age, under a fresh id |
| AddressBookEntries.AddressBookService.UpdateEntry | AddressBookService/Services/AddressBookService.cs:65-91 | a missing id gives none and no change; otherwise the entry gets the new fields, a re-hashed password only for a non-empty one, a new photo (the old file deleted) only when one is sent, and a recomputed age; no other entry changes |
| AddressBookEntries.AddressBookService.DeleteEntry | AddressBookService/Services/AddressBookService.cs:93-102 | removes the entry with the id and its photo file, the rest in order; no change when absent |
| AddressBookEntries.MatchesTerm | AddressBookService/Services/AddressBookService.cs:111-119 | the four-way OR of the search term: lowered name, e-mail or address, or the raw mobile number, contains the lowered term; a matching term is no longer than one of those fields |
| AddressBookEntries.Matches | AddressBookService/Services/AddressBookService.cs:111-129 | the three filters composed with AND, an absent or empty term and absent bounds imposing nothing; a start bound after the end bound matches nothing |
| AddressBookEntries.AddressBookService.SearchEntries | AddressBookService/Services/AddressBookService.cs:104-132 | an order-preserving selection of the entries; each matches the lower-cased term and lies within the inclusive date bounds; every entry that does so is returned; no filters return everything |
| AddressBookEntries.AddressBookService.SearchIgnoresTermCase | AddressBookService/Services/AddressBookService.cs:111-119 | terms with the same lower-casing give the same result |
| AddressBookEntries.AddressBookService.ExportCells | AddressBookService/Services/AddressBookService.cs:134-168 | the worksheet rows: the nine headers first, then the cells of each entry in table order, nine to a row and one row per entry |
| Auth.AuthService.Register | AddressBookService/Services/AuthService.cs:36-53 | a conflict, and no change, exactly when the e-mail is taken; otherwise one admin with the name, the e-mail and the hashed password is appended; e-mails stay distinct |
| Auth.Login | AddressBookService/Services/AuthService.cs:25-34 | unknown e-mail: refused; a token only for a stored admin with the e-mail whose hash verifies, and then it is that admin's token; a failed verification for the first such admin is refused |
| Auth.LoginSucceedsIff | AddressBookService/Services/AuthService.cs:25-34 | with distinct e-mails, login succeeds exactly when an admin has the e-mail and the password verifies, and then the token is that admin's |
| Auth.LoginAfterRegister | AddressBookService/Services/AuthService.cs:36-53 | after registering a new e-mail, logging in with it and the same password gives the new admin's token |
| ApiErrors.OrElse | frontend/src/store/slices/addressBookSlice.ts:16-18 | JavaScript's or-else on a string value: an absent or empty value gives the fallback |
| ApiErrors.FieldMessage | frontend/src/store/slices/addressBookSlice.ts:12 | the template `${key}: ${messages.join(", ")}`: starts with the key and ": "; with no message it is just that, with one message it is key, ": " and the message |
| ApiErrors.FieldMessages | frontend/src/store/slices/addressBookSlice.ts:10-13 | the `map` over `Object.entries`: one formatted message per field, in entry order |
| ApiErrors.WithFieldErrors | frontend/src/store/slices/addressBookSlice.ts:7-9 | a failure whose response body holds exactly the given field errors |
| ApiErrors.HandleApiError | frontend/src/store/slices/addressBookSlice.ts:6-19 | with field errors, exactly the field messages in entry order joined by "; " (so an empty `errors` object gives ""), each of them occurring in the result; without field errors but with a body, the title, else "An error occurred"; with no body, the message, else "An error occurred"; an empty title or message counts as absent, and without field errors the result is never empty |
| ApiErrors.SingleFieldError | frontend/src/store/slices/jobsSlice.ts:9-13 | one field with one message formats as "key: message" |
| ApiErrors.FieldErrorsSplit | frontend/src/store/slices/departmentsSlice.ts:9-13 | the result for fields `a + b` is the result for `a`, then "; ", then the result for `b` |
| AddressBookSlice.AddressBookState.constructor | frontend/src/store/slices/addressBookSlice.ts:75-79 | no entries, not loading, no error |
| AddressBookSlice.AddressBookState.ClearError | frontend/src/store/slices/addressBookSlice.ts:85-87 | only the error is cleared |
| AddressBookSlice.AddressBookState.FetchAddressBookPending | frontend/src/store/slices/addressBookSlice.ts:92-95 | loading, error cleared, entries unchanged |
| AddressBookSlice.AddressBookState.FetchAddressBookFulfilled | frontend/src/store/slices/addressBookSlice.ts:96-99 | the entries become the payload, loading ends, the error stays |
| AddressBookSlice.AddressBookState.FetchAddressBookRejected | frontend/src/store/slices/addressBookSlice.ts:100-103 | loading ends, the error is the formatted failure, entries unchanged |
| AddressBookSlice.AddressBookState.CreateEntryFulfilled | frontend/src/store/slices/addressBookSlice.ts:106-108 | the payload is appended; nothing else changes |
| AddressBookSlice.AddressBookState.CreateEntryRejected | frontend/src/store/slices/addressBookSlice.ts:109-111 | only the error changes |
| AddressBookSlice.AddressBookState.UpdateEntryFulfilled | frontend/src/store/slices/addressBookSlice.ts:114-121 | the first entry with the payload's id is replaced; the length is kept; with no match nothing changes |
| AddressBookSlice.AddressBookState.UpdateEntryRejected | frontend/src/store/slices/addressBookSlice.ts:122-124 | only the error changes |
| AddressBookSlice.AddressBookState.DeleteEntryFulfilled | frontend/src/store/slices/addressBookSlice.ts:127-131 | every entry with the id is removed; the rest keep their order |
| AddressBookSlice.AddressBookState.DeleteEntryRejected | frontend/src/store/slices/addressBookSlice.ts:132-134 | only the error changes |
| JobsSlice.JobsState.constructor | frontend/src/store/slices/jobsSlice.ts:77-81 | no jobs, not loading, no error |
| JobsSlice.JobsState.ClearError | frontend/src/store/slices/jobsSlice.ts:87-89 | only the error is cleared |
| JobsSlice.JobsState.FetchJobsPending | frontend/src/store/slices/jobsSlice.ts:93-96 | loading, error cleared, items unchanged |
| JobsSlice.JobsState.FetchJobsFulfilled | frontend/src/store/slices/jobsSlice.ts:97-100 | the items become the payload and loading ends |
| JobsSlice.JobsState.FetchJobsRejected | frontend/src/store/slices/jobsSlice.ts:101-104 | loading ends with the formatted failure; items unchanged |
| JobsSlice.JobsState.CreateJobFulfilled | frontend/src/store/slices/jobsSlice.ts:105-107 | the payload is appended |
| JobsSlice.JobsState.UpdateJobFulfilled | frontend/src/store/slices/jobsSlice.ts:108-115 | the first job with the payload's id is replaced, otherwise no change; the length is kept |
| JobsSlice.JobsState.DeleteJobFulfilled | frontend/src/store/slices/jobsSlice.ts:116-118 | every job with the id is removed; the rest keep their order |
| DepartmentsSlice.DepartmentsState.constructor | frontend/src/store/slices/departmentsSlice.ts:77-81 | no departments, not loading, no error |
| DepartmentsSlice.DepartmentsState.ClearError | frontend/src/store/slices/departmentsSlice.ts:86-89 | only the error is cleared |
| DepartmentsSlice.DepartmentsState.FetchDepartmentsPending | frontend/src/store/slices/departmentsSlice.ts:93-96 | loading, error cleared, items unchanged |
| DepartmentsSlice.DepartmentsState.FetchDepartmentsFulfilled | frontend/src/store/slices/departmentsSlice.ts:97-100 | the items become the payload and loading ends |
| DepartmentsSlice.DepartmentsState.FetchDepartmentsRejected | frontend/src/store/slices/departmentsSlice.ts:101-104 | loading ends with the formatted failure; items unchanged |
| DepartmentsSlice.DepartmentsState.CreateDepartmentFulfilled | frontend/src/store/slices/departmentsSlice.ts:105-107 | the payload is appended |
| DepartmentsSlice.DepartmentsState.UpdateDepartmentFulfilled | frontend/src/store/slices/departmentsSlice.ts:108-115 | the first department with the payload's id is replaced, otherwise no change |
| DepartmentsSlice.DepartmentsState.DeleteDepartmentFulfilled | frontend/src/store/slices/departmentsSlice.ts:116-118 | every department with the id is removed; the rest keep their order |
| CombinedAddressBookSlice.AddressBookState.constructor | frontend/src/store/addressBookSlice.ts:13-19 | empty lists, not loading, no error |
| CombinedAddressBookSlice.AddressBookState.FetchAddressBookPending | frontend/src/store/addressBookSlice.ts:78-80 | loading; the earlier error is kept |
| CombinedAddressBookSlice.AddressBookState.FetchAddressBookFulfilled | frontend/src/store/addressBookSlice.ts:81-84 | the entries become the payload and loading ends |
| CombinedAddressBookSlice.AddressBookState.FetchAddressBookRejected | frontend/src/store/addressBookSlice.ts:85-88 | loading ends; the error is the message, or "Failed to fetch address book" for an absent or empty one |
| CombinedAddressBookSlice.AddressBookState.FetchJobsFulfilled | frontend/src/store/addressBookSlice.ts:89-91 | only the jobs change |
| CombinedAddressBookSlice.AddressBookState.FetchDepartmentsFulfilled | frontend/src/store/addressBookSlice.ts:92-94 | only the departments change |
| CombinedAddressBookSlice.AddressBookState.AddEntryFulfilled | frontend/src/store/addressBookSlice.ts:95-97 | the payload is appended; nothing else changes |
| CombinedAddressBookSlice.AddressBookState.UpdateEntryFulfilled | frontend/src/store/addressBookSlice.ts:98-105 | the first entry with the payload's id is replaced, otherwise no change |
| CombinedAddressBookSlice.AddressBookState.DeleteEntryFulfilled | frontend/src/store/addressBookSlice.ts:106-110 | every entry with the id is removed; the rest keep their order |
| EntryForm.Position | frontend/src/components/AddressBookForm.tsx:24-113 | each field has one of nine positions |
| EntryForm.FieldAt | frontend/src/components/AddressBookForm.tsx:24-113 | the field at a position has that position |
| EntryForm.Blank | frontend/src/components/AddressBookForm.tsx:27-104 | what a `required` rule rejects in a text field: an absent or empty value |
| EntryForm.IsRegexSpace | frontend/src/components/AddressBookForm.tsx:66 | ECMAScript's `\s`: includes space, tab and line feed, and excludes digits, `-` and `+` |
| EntryForm.IsPhoneChar | frontend/src/components/AddressBookForm.tsx:66 | the class `[\d\s-]`, which excludes ASCII letters and `+` |
| EntryForm.AllPhoneChars | frontend/src/components/AddressBookForm.tsx:66 | true exactly when every character is a digit, a `\s` character or a hyphen |
| EntryForm.IsValidMobile | frontend/src/components/AddressBookForm.tsx:66 | an accepted number is neither empty nor a bare "+", and after the first character holds only digits, `\s` characters and hyphens |
| EntryForm.IsValidMobileMatchesPattern | frontend/src/components/AddressBookForm.tsx:66 | accepted exactly when the string splits into an optional "+" and a non-empty run of digits, `\s` characters and hyphens |
| EntryForm.MobileRejectsLetterOrInnerPlus | frontend/src/components/AddressBookForm.tsx:66 | a letter anywhere, or a "+" after the first position, is rejected |
| EntryForm.MobileAccepted | frontend/src/components/AddressBookForm.tsx:63-69 | "+27 82-555" and "082 555" are accepted |
| EntryForm.MobileRejected | frontend/src/components/AddressBookForm.tsx:63-69 | "", "+", "08a", "08+5" and "++2" are rejected |
| EntryForm.Fails | frontend/src/components/AddressBookForm.tsx:24-113 | the rule objects of one field: `required` on the text and select fields, the mobile pattern, the e-mail type, `required: !editingEntry` on the password, none on the photo; the photo never fails and the password never fails while editing |
| EntryForm.FailingFrom | frontend/src/components/AddressBookForm.tsx:24-113 | exactly the failing fields from a position on, in form order |
| EntryForm.FailingFields | frontend/src/components/AddressBookForm.tsx:24-113 | exactly the fields whose rules fail, in form order |
| EntryForm.PasswordRequiredIffCreating | frontend/src/components/AddressBookForm.tsx:101-113 | the password fails exactly when creating with a blank password; the photo never fails |
| EntryForm.CreatingAddsPasswordFrom | frontend/src/components/AddressBookForm.tsx:101-107 | from any position up to the password's, creating fails on the editing fields plus, last, a blank password |
| EntryForm.CreatingAddsOnlyPassword | frontend/src/components/AddressBookForm.tsx:104 | creating fails on the same fields as editing, plus the password when it is blank |
| EntryForm.SubmitWithoutPassword | frontend/src/components/AddressBookForm.tsx:101-113 | without a password or photo, a creation never passes; an edit passes exactly when the seven other required rules pass |

## Left out

- I/O of every kind: the database, the upload directory's streams and paths, HTTP, cookies and the clock. The tables and the file set are `seq` and `set` fields, and `today` is a parameter.
- Concurrency. The async methods and overlapping requests are treated as one sequential step each (last writer wins).
- Entity Framework: cascade deletes, foreign-key checks, change tracking and the `Include` of navigation properties. An entry refers to its job and department by id, and the export resolves these ids against the tables it is given.
- The order of query results. The database does not promise one; the model returns rows in insertion order.
- Query translation: the search's `ToLower` and `Contains` may run in SQL under the database collation. The model reads them as in-memory C# with ordinal comparison.
- Auth.AuthService.Register, Auth.Login: the e-mail lookups (AuthService.cs:27, 38) are database queries, which under SQL Server's default collation compare case-insensitively. The model reads `u.Email == email` as ordinal C# equality, and `Rows.HasKey` and `Auth.DistinctEmails` are ordinal too.
- Text.ToLower: only ASCII letters are lowered; the culture-sensitive Unicode case mapping of .NET is not modelled.
- A null `Address` or other null string column: every string field is present in the model.
- BCrypt hashing and verification, and JWT creation with its signing key and expiry (AuthService.cs:55-76): represented by the parameters `hash`, `verify` and `issue`.
- The spreadsheet library: workbook creation, `AutoFitColumns` and byte serialisation. Only the cell grid is modelled.
- `ExportToExcelAsync`: the controller and `IAddressBookService` call it with a host URL, but the implementation takes no argument. The model follows the implementation.
- The admin-user table is not declared in `AddressBookContext`, and `IAuthService` is not registered in `Program.cs`. The auth service is modelled with its own table.
- Controllers, `Program.cs`, the React components, the axios clients and the thunks' request code. The thunks' only logic is the call to `handleApiError`; it lives in the rejected reducers' argument.
- UTF-16. Strings are sequences of Unicode scalar values. This has no effect on the mobile pattern: a character outside the Basic Multilingual Plane matches neither `\d`, `\s` nor `-` under either reading.
- EntryForm.FailingFields: the e-mail format rule of the UI library is the parameter `isEmail`, not its regular expression.
- EntryForm.FailingFields: a select or date picker counts as filled whenever it holds a value. The UI library's handling of other value types for `required` is not modelled.
- CombinedAddressBookSlice.AddressBookState.FetchAddressBookRejected: the serialised error is reduced to its optional message.
- AddressBookEntries.AddressBookService.ExportCells: the worksheet is modelled as its rows of cell values; number formats, column widths and the worksheet name are not modelled.
