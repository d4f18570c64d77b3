# HR service: employees and attendance

A Dafny model of a small Django REST Framework service. The service keeps
employees and their daily attendance. The whole database is one immutable
`Store`: a sequence of `Employee` rows and a sequence of `Attendance` rows.
Each HTTP handler is a pure function from the store and the request to a
response and the store after it. The model covers:

- the employee serializer: each text field is stripped and required, and
  the email is stripped, lower-cased and matched against
  `^[^\s@]+@[^\s@]+\.[^\s@]+$`. Field failures are collected in field
  order. When all fields pass, an `employeeId` already used by another
  employee is refused, with the comparison ignoring letter case;
- the attendance serializer: the employee identifier is stripped and looked
  up exactly, the date must be present and the status must be `Present` or
  `Absent`. Saving is an `update_or_create` keyed by (employee, date);
- the views:
  - listing employees by name;
  - creating an employee, where a failed write reports one message;
  - fetching an employee and deleting it, which cascades to its attendance;
  - the lenient attendance listing;
  - the `employeeId` to `employee_id` aliasing on attendance writes;
- the store invariant `Models.Valid`, kept by the schema and the
  serializers together:
  - unique primary keys and record keys (schema);
  - business identifiers unique even ignoring case (the serializer's
    `iexact` check; the schema itself only demands exact uniqueness);
  - every stored employee well formed: identifier, name and department
    stripped, non-empty and within `max_length`, and the email normalised
    and well formed (the serializer's field validators);
  - at most one record per (employee, date), from `unique_employee_date`
    (schema);
  - no record pointing at a missing employee, because of `CASCADE`
    (schema).

Modules, one per concern:

- `Results`: `Option` and `Result`.
- `Strings`: Python's `str.isspace`/`strip`, ASCII lower-casing, code-point
  order.
- `Seqs`: first match, filter, insertion sort.
- `Email`: the address pattern and a plain characterisation of it.
- `Models`: records, orderings and the store invariant.
- `Serializers`: validators, uniqueness, the error dictionary and the upsert.
- `Views`: the handlers.
- `Scenarios`: concrete requests worked through the model.

Fresh primary keys are parameters of the operations that create rows. Each
comes with the precondition that the key is not in use yet.

## Model

| member | source | states |
|---|---|---|
| Strings.Strip | employees/serializers.py:22 | `strip()`: the result is the input with a whitespace prefix and suffix cut off, it neither starts nor ends with whitespace, and it is empty exactly when the input is all whitespace |
| Strings.StripUnique | employees/serializers.py:22 | any cut of the input with those properties is the one `Strip` makes, so the stripped value is determined by the input |
| Strings.StripIdempotent | employees/serializers.py:22 | stripping a stripped value changes nothing |
| Strings.LowerStripCommute | employees/serializers.py:34 | lower-casing and stripping commute |
| Strings.LowerIdempotent | employees/serializers.py:34 | lower-casing twice equals lower-casing once, and leaves no capital letter |
| Email.Normalize | employees/serializers.py:34 | `strip().lower()`: the result is a strip of the lower-cased input, holds no capital letter, and is empty exactly when the input is all whitespace |
| Email.NormalizeIdempotent | employees/serializers.py:34 | `strip().lower()` applied twice equals applying it once |
| Email.MatchesPattern | employees/serializers.py:37 | a text the pattern matches has at least five characters and an `@` that is neither first nor among the last three |
| Email.PatternMeaning | employees/serializers.py:6 | on stripped text, the pattern matches exactly when the text has no whitespace, exactly one `@` with text before it, and after it a `.` with text on both sides |
| Email.SpansPatternIsWellFormed | employees/serializers.py:6 | a text the pattern's body spans has that plain shape |
| Email.WellFormedSpansPattern | employees/serializers.py:6 | a text of that plain shape is spanned by the pattern's body |
| Serializers.RequireText | employees/serializers.py:21-25 | shared shape of the three text validators: the field's "required" message exactly when the input is missing or all whitespace; the length message exactly when the stripped text is too long; otherwise the stripped text |
| Serializers.ValidateEmployeeId | employees/serializers.py:21-25 | "Employee ID is required." exactly when the input is missing or blank; an accepted value is the stripped input, at most 64 characters |
| Serializers.ValidateFullName | employees/serializers.py:27-31 | "Full name is required." exactly when the input is missing or blank; an accepted value is the stripped input, at most 255 characters |
| Serializers.ValidateDepartment | employees/serializers.py:41-45 | "Department is required." exactly when the input is missing or blank; an accepted value is the stripped input, at most 255 characters |
| Serializers.RequireTextIsIdempotent | employees/serializers.py:21-31 | re-validating an accepted value accepts it unchanged |
| Serializers.ValidateEmail | employees/serializers.py:33-39 | "Email address is required." exactly when the input is blank; "Please enter a valid email address." exactly when the input is not blank and its stripped, lower-cased form is not a well-formed address; otherwise that normalised form |
| Serializers.ValidateEmailIsIdempotent | employees/serializers.py:33-39 | validating an accepted address again yields the same address |
| Serializers.NormalizedAddressAccepted | employees/serializers.py:33-39 | a raw value whose normalised form is non-empty and matches the pattern is accepted as that normalised form |
| Serializers.NormalizedAddressRejected | employees/serializers.py:37-38 | a raw value whose normalised form is non-empty and not a well-formed address gets "Please enter a valid email address." |
| Serializers.CheckUnique | employees/serializers.py:47-58 | an empty identifier passes; otherwise the duplicate message is returned exactly when some stored employee, other than the excluded one, has the identifier ignoring case |
| Serializers.CollectErrors | employees/serializers.py:18 | the error dictionary is empty exactly when no field failed |
| Serializers.FieldFailures | employees/serializers.py:18 | one entry per employee field, and no entry carries a failure exactly when all four validators passed |
| Serializers.CombineEmployee | employees/serializers.py:47-58 | field errors win; only when every field passes does the uniqueness rule run, and its failure is the single `employeeId` entry with the duplicate message; success carries the validated values |
| Serializers.ValidateEmployee | employees/serializers.py:11-58 | an accepted form carries exactly what the four validators returned, and its identifier conflicts with no stored employee; a refusal always names at least one field |
| Serializers.EmployeeFormAccepted | employees/serializers.py:47-58 | when all four validators pass and the identifier is free, the serializer accepts exactly the validated values |
| Serializers.DuplicateFormRefused | employees/serializers.py:54-57 | when all four validators pass and the identifier is taken, the only error is the duplicate message under `employeeId` |
| Serializers.ValidatedEmployeeIsWellFormed | employees/models.py:8-11 | validated data satisfies every per-row rule of the store: stripped, non-empty, within `max_length`, and a normalised well-formed email |
| Serializers.FindEmployee | employees/serializers.py:75 | exact lookup by identifier: nothing exactly when no employee carries it letter for letter, otherwise the position of one that does |
| Serializers.ValidateAttendanceEmployee | employees/serializers.py:71-77 | "Employee is required." exactly when blank; "Employee not found." exactly when no stored identifier equals the stripped input letter for letter; accepted exactly when some employee carries the stripped input, which is then the result; no other error is possible |
| Serializers.ValidateDate | employees/serializers.py:79-82 | a missing date gives "Date is required."; a present one is passed through |
| Serializers.ValidateStatus | employees/serializers.py:84-87 | accepted exactly for `Present` and `Absent`, otherwise "Status must be Present or Absent." |
| Serializers.StatusRoundTrip | employees/models.py:23-26 | each status choice's name validates back to that status |
| Serializers.AttendanceFieldFailures | employees/serializers.py:68 | one entry per attendance field, and no entry carries a failure exactly when the date, status and employee validators all passed |
| Serializers.ValidateAttendance | employees/serializers.py:68-87 | accepted exactly when the date, status and employee validators all accept, and then carrying exactly what they returned; a refusal names at least one field |
| Serializers.UpsertRecord | employees/serializers.py:89-97 | `update_or_create` on (employee, date). An existing record for the day keeps its key and position and takes the new status, and the count is unchanged. Otherwise one new record is appended. Records of other days are untouched, and at most one record per day remains |
| Serializers.UpsertLeavesOneRecord | employees/serializers.py:92-96 | after the upsert the written record is the only one for its (employee, date) |
| Serializers.UpsertKeepsRecordIds | employees/serializers.py:92-96 | record keys stay distinct through the upsert |
| Serializers.UpsertLastWriteWins | employees/serializers.py:92-96 | writing a day twice leaves what writing it once with the second status leaves |
| Serializers.UpsertIdempotent | employees/serializers.py:89-97 | repeating the same attendance write changes nothing |
| Serializers.CreateAttendance | employees/serializers.py:89-97 | the record is written for the employee carrying exactly the submitted identifier, with the submitted date and status; the attendance after it is exactly what the upsert for that employee and day makes of it; employees are untouched; a valid store stays valid |
| Serializers.UpsertKeepsForeignKeys | employees/serializers.py:92-96 | the upsert writes only the given employee, so no record points outside the known employees afterwards |
| Serializers.UpsertKeepsValid | employees/serializers.py:89-97 | upserting for a stored employee under an unused record key keeps a valid store valid |
| Models.OneRecordPerDay | employees/models.py:35-37 | under `unique_employee_date` a day of an employee names at most one record |
| Models.AddEmployeeKeepsValid | employees/models.py:8 | adding a well-formed employee under an unused key, whose identifier clashes with none ignoring case, keeps the store valid |
| Models.CascadeDelete | employees/models.py:28 | the employee goes and every record pointing at it goes; every other employee and record keeps its multiplicity; a valid store stays valid |
| Models.UniqueIdsAreDistinct | employees/models.py:8 | identifiers unique ignoring case are also unique letter for letter |
| Models.IdentifierNamesOne | employees/views.py:66 | with unique identifiers, an exact identifier lookup can only name one employee |
| Models.ByNameIsPreorder | employees/models.py:15 | ordering by `full_name` is total and transitive |
| Models.LatestFirstIsPreorder | employees/models.py:34 | ordering by `-date` is total and transitive |
| Views.FirstErrorMessage | employees/views.py:29-38 | with no field, "Invalid input"; for a list, its first entry, or "Invalid input" when the list is empty; for a bare value, that value, or "Invalid input" when it is empty |
| Views.ReportedMessageIsFirstFailure | employees/views.py:29-38 | applied to a serializer's collected errors, the extraction yields exactly the first failed field's message |
| Views.ListEmployees | employees/views.py:19-22 | 200 with every stored employee, each as often as stored, ordered by full name |
| Views.PostEmployee | employees/views.py:24-38 | 201 exactly when the serializer accepts the form, with the new employee, made of the validated fields under the fresh key, appended; otherwise 400 with one message and the store unchanged; a valid store stays valid |
| Views.PostEmployeeAppends | employees/views.py:26-28 | a form the serializer accepts as given fields is stored as exactly that employee, appended, and echoed with 201 |
| Views.CreateKeepsValid | employees/views.py:26-27 | saving what the serializer accepted keeps a valid store valid, so no two identifiers ever differ only in case |
| Views.PostEmployeeReportsFirstFailure | employees/views.py:29-38 | when some field fails, the answer is 400 with the first failed field's message in serializer field order, and nothing is stored |
| Views.FirstEmployeeFailure | employees/serializers.py:18 | the first failure among the employee fields is that of the first failing validator in the order employeeId, fullName, email, department |
| Views.PostEmployeeFieldOrder | employees/views.py:29-38 | a failing `employeeId` is reported whatever the other fields hold; a failing `fullName` when `employeeId` passes; a failing `email` when both earlier fields pass; a failing `department` when the other three pass; each with the store unchanged |
| Views.PostEmployeeDuplicate | employees/serializers.py:47-58 | with all fields valid, the answer is the duplicate message exactly when a stored identifier equals the stripped one ignoring case; a created employee holds the stripped fields and the normalised email |
| Views.GetEmployee | employees/views.py:44-50 | 200 with the employee of that key exactly when one is stored, else 404 |
| Views.DeleteEmployee | employees/views.py:52-55 | an unknown key gives 404 and an unchanged store; a known key gives 204 and removes the employee and its records, all else kept; a valid store stays valid |
| Views.QueriedEmployee | employees/views.py:61-68 | a blank or missing parameter names nobody; otherwise the employee whose identifier equals the stripped parameter exactly, or nobody when none does |
| Views.ListAttendance | employees/views.py:61-71 | always 200; `[]` for a blank, missing or unknown identifier; otherwise, in a store whose identifiers are unique, exactly that employee's records, each as often as stored; always latest date first |
| Views.RecordsOf | employees/views.py:69-71 | one employee's records, each as often as stored, latest date first |
| Views.SerializerInput | employees/views.py:74-76 | an explicit `employee_id` wins; `employeeId` is used only when `employee_id` is absent; date and status pass through |
| Views.PostAttendance | employees/views.py:73-90 | 201 exactly when the serializer accepts the aliased request; the record then carries the request's date and status, belongs to the employee whose identifier equals the stripped request value, and the attendance after it is exactly the upsert's result; employees untouched; otherwise 400 with one message and the store unchanged; a valid store stays valid |
| Views.PostAttendanceReportsFirstFailure | employees/views.py:81-90 | when some field fails, the answer is 400 with the first failed field's message, with the fields taken in the order date, status, employee_id |
| Views.PostAttendanceFieldOrder | employees/serializers.py:68 | a missing date is reported as "Date is required."; with a date, a bad status as "Status must be Present or Absent."; with both valid, the employee validator's error; each with the store unchanged |
| Views.PostAttendanceIdempotent | employees/serializers.py:92-96 | sending the same attendance request twice repeats the first answer and leaves the store as the first request left it |
| Scenarios.AnnCreated | employees/views.py:24-28 | a mixed-case address is stored lower-cased and the employee is echoed with 201 |
| Scenarios.AnnRefusedInOtherCase | employees/serializers.py:51 | with `E100` stored, creating `e100` is refused with the duplicate message and nothing is stored |
| Scenarios.SpacedUpperCaseAddress | employees/serializers.py:34 | `" A@B.COM "` is accepted as `a@b.com` |
| Scenarios.AddressWithoutAt | employees/serializers.py:37-38 | `not-an-email` is refused as an invalid address |
| Scenarios.AttendanceLookupIsCaseSensitive | employees/serializers.py:75 | with `E100` stored, `e100` is "Employee not found." for a write and lists `[]` |
| Scenarios.DeletedEmployeeHasNoAttendance | employees/models.py:28 | after an employee is deleted, listing attendance by its identifier yields `[]` |
| Scenarios.IdentifierGoneAfterDelete | employees/views.py:52-55 | after a delete no remaining employee carries the deleted identifier |

## Left out

- Django's ORM and database are not modelled. There are no SQL, transactions, migrations or indexes; the tables are in-memory sequences.
- Concurrent requests are not modelled. Each operation runs alone, so races between parallel `update_or_create` calls are out of scope.
- UUID generation is left out. A new key is a parameter, with a precondition that it is unused.
- `created_at` timestamps are left out. No behaviour depends on them.
- DRF's built-in `CharField` handling is not modelled. That covers its whitespace trimming, its "This field may not be blank." and "This field is required." errors, and its `allow_blank` handling. It runs before the custom validators, so a request over HTTP never reaches their "… is required." branches. The model applies the custom validators to the raw value as written, and a missing key is passed to them as `None`.
- `EmailField`'s own validator and the model's 254-character email limit are left out. They are framework code outside these files. Only the custom pattern is modelled.
- Date parsing is left out. A date arrives already parsed, or absent.
- Case-insensitive comparison is ASCII only. `iexact` and `lower()` in the source use full Unicode case mapping and database collation.
- `full_name` order compares code points. The database collation may order names differently.
- Sort stability is not stated. The model sorts by insertion, and the database promises no order among equal keys either.
- HTTP rendering is reduced to a status code and an abstract body. The response body for a created employee or record is the stored row itself.
- `error_response` (employees/views.py:11-13) is left out because no view calls it.
- The branch where `serializer.errors` is not a dictionary (employees/views.py:36-37) is left out. DRF always produces a dictionary here, so errors are always a field list.
- `employees/urls.py` is not part of this model. It only maps paths to views.
- A request field holding JSON `null` is not modelled: an absent key and a `null` value are both `None`. The aliasing at employees/views.py:75 tests whether the key `employee_id` is present, so a body with `"employee_id": null` and an `employeeId` is not aliased there and DRF refuses the null with "This field may not be null.", while the model copies `employeeId` and accepts it.
- Attendance field errors are reported in the order the code declares its fields (employees/serializers.py:68): date, status, then employee_id.
- DRF's `ModelSerializer` fields for `status` and `date` are not modelled. `status` becomes a `ChoiceField` from the model's choices (employees/models.py:23-26, 30) and `date` a `DateField`. Both run before `validate_status` and `validate_date`, so over HTTP a bad status gets the framework's `"Late" is not a valid choice.` and a missing date its "This field is required."; "Status must be Present or Absent." and "Date is required." are not reached that way. The model applies the custom validators to the raw values.
