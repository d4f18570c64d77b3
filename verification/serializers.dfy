/** The two serializers: per-field validators, the case-insensitive
    uniqueness rule for employees, the collected error dictionary, and the
    attendance upsert performed on save. */
module Serializers {
  import opened Results
  import opened Strings
  import opened Seqs
  import opened Models
  import Email

  const EmployeeIdRequired := "Employee ID is required."
  const FullNameRequired := "Full name is required."
  const EmailRequired := "Email address is required."
  const EmailInvalid := "Please enter a valid email address."
  const DepartmentRequired := "Department is required."
  const DuplicateEmployeeId := "An employee with this Employee ID already exists."
  const EmployeeRequired := "Employee is required."
  const EmployeeNotFound := "Employee not found."
  const DateRequired := "Date is required."
  const StatusInvalid := "Status must be Present or Absent."
  /** The framework's own wording when a `max_length` is exceeded. */
  const EmployeeIdTooLong := "Ensure this field has no more than 64 characters."
  const NameTooLong := "Ensure this field has no more than 255 characters."

  /** One field's entry in a serializer's error dictionary: normally a list
      of messages, but a bare value is possible. */
  datatype ErrorDetail = Messages(list: seq<string>) | Text(text: string)

  datatype FieldError = FieldError(field: string, detail: ErrorDetail)

  /** Field errors in the serializer's field order. */
  type ErrorDict = seq<FieldError>

  /** Python's `value or ''`. */
  function OrEmpty(v: Option<string>): string {
    match v
    case Some(s) => s
    case None => ""
  }

  /** The shared shape of `validate_employeeId`, `validate_fullName` and
      `validate_department`: strip, reject what is left empty with the
      field's own message, then apply the field's `max_length`. */
  function RequireText(raw: Option<string>, missing: string, maxLength: nat, tooLong: string): (r: Result<string, string>)
    requires missing != tooLong
    ensures r == Err(missing) <==> AllSpace(OrEmpty(raw))
    ensures r == Err(tooLong) <==> !AllSpace(OrEmpty(raw)) && |Strip(OrEmpty(raw))| > maxLength
    ensures r.Err? ==> r.error == missing || r.error == tooLong
    ensures r.Ok? ==> IsStripOf(OrEmpty(raw), r.value) && CleanText(r.value, maxLength)
  {
    var v := Strip(OrEmpty(raw));
    if v == [] then Err(missing)
    else if |v| > maxLength then Err(tooLong)
    else Ok(v)
  }

  function ValidateEmployeeId(raw: Option<string>): (r: Result<string, string>)
    ensures r == Err(EmployeeIdRequired) <==> AllSpace(OrEmpty(raw))
    ensures r.Ok? ==> IsStripOf(OrEmpty(raw), r.value) && CleanText(r.value, EmployeeIdMaxLength)
  {
    RequireText(raw, EmployeeIdRequired, EmployeeIdMaxLength, EmployeeIdTooLong)
  }

  function ValidateFullName(raw: Option<string>): (r: Result<string, string>)
    ensures r == Err(FullNameRequired) <==> AllSpace(OrEmpty(raw))
    ensures r.Ok? ==> IsStripOf(OrEmpty(raw), r.value) && CleanText(r.value, NameMaxLength)
  {
    RequireText(raw, FullNameRequired, NameMaxLength, NameTooLong)
  }

  function ValidateDepartment(raw: Option<string>): (r: Result<string, string>)
    ensures r == Err(DepartmentRequired) <==> AllSpace(OrEmpty(raw))
    ensures r.Ok? ==> IsStripOf(OrEmpty(raw), r.value) && CleanText(r.value, NameMaxLength)
  {
    RequireText(raw, DepartmentRequired, NameMaxLength, NameTooLong)
  }

  /** Re-validating an accepted value accepts it unchanged. */
  lemma RequireTextIsIdempotent(raw: Option<string>, missing: string, maxLength: nat, tooLong: string)
    requires missing != tooLong
    requires RequireText(raw, missing, maxLength, tooLong).Ok?
    ensures var v := RequireText(raw, missing, maxLength, tooLong).value;
      RequireText(Some(v), missing, maxLength, tooLong) == Ok(v)
  {
    StripIdempotent(OrEmpty(raw));
  }

  /** `validate_email`: strip and lower-case, require something, then match the pattern. */
  function ValidateEmail(raw: Option<string>): (r: Result<string, string>)
    ensures r == Err(EmailRequired) <==> AllSpace(OrEmpty(raw))
    ensures r == Err(EmailInvalid) <==>
      !AllSpace(OrEmpty(raw)) && !Email.WellFormedAddress(Email.Normalize(OrEmpty(raw)))
    ensures r.Ok? ==> r.value == Email.Normalize(OrEmpty(raw)) && Email.WellFormedAddress(r.value)
    ensures r.Err? ==> r.error == EmailRequired || r.error == EmailInvalid
  {
    var v := Email.Normalize(OrEmpty(raw));
    Email.PatternMeaning(v);
    if v == [] then Err(EmailRequired)
    else if !Email.MatchesPattern(v) then Err(EmailInvalid)
    else Ok(v)
  }

  lemma ValidateEmailIsIdempotent(raw: Option<string>)
    requires ValidateEmail(raw).Ok?
    ensures ValidateEmail(Some(ValidateEmail(raw).value)) == ValidateEmail(raw)
  {
    Email.NormalizeIdempotent(OrEmpty(raw));
  }

  /** An address the pattern accepts once normalised is stored normalised. */
  lemma NormalizedAddressAccepted(raw: string, v: string)
    requires Email.Normalize(raw) == v && v != []
    requires Email.MatchesPattern(v)
    ensures ValidateEmail(Some(raw)) == Ok(v)
  {
  }

  /** Text the address rule refuses once normalised is reported as invalid. */
  lemma NormalizedAddressRejected(raw: string, v: string)
    requires Email.Normalize(raw) == v && v != []
    requires !Email.WellFormedAddress(v)
    ensures ValidateEmail(Some(raw)) == Err(EmailInvalid)
  {
  }

  /** A stored employee other than the one being edited already uses
      `candidate`, ignoring letter case. */
  predicate ConflictsWith(e: Employee, candidate: string, exclude: Option<Uuid>) {
    SameIgnoringCase(e.employeeId, candidate) && exclude != Some(e.id)
  }

  /** The serializer's object-level `validate`: an empty identifier is left to
      the field validators; otherwise a case-insensitive match on any other
      stored employee is rejected. */
  function CheckUnique(es: seq<Employee>, candidate: string, exclude: Option<Uuid>): (r: Result<(), string>)
    ensures r.Err? <==> candidate != [] && exists i :: 0 <= i < |es| && ConflictsWith(es[i], candidate, exclude)
    ensures r.Err? ==> r.error == DuplicateEmployeeId
  {
    if candidate == [] then Ok(())
    else match FindFirst(es, (e: Employee) => ConflictsWith(e, candidate, exclude))
      case Some(_) => Err(DuplicateEmployeeId)
      case None => Ok(())
  }

  /** An employee write body; a missing key is `None`. */
  datatype EmployeeForm = EmployeeForm(employeeId: Option<string>, fullName: Option<string>, email: Option<string>, department: Option<string>)

  /** The validated data an employee is saved from. */
  datatype EmployeeFields = EmployeeFields(employeeId: string, fullName: string, email: string, department: string)

  /** The error message of a validator's outcome, if it failed. */
  function Failure<T>(r: Result<T, string>): Option<string> {
    if r.Err? then Some(r.error) else None
  }

  /** The serializer's error dictionary: one single-message entry per failed
      field, in field order. */
  function CollectErrors(fields: seq<(string, Option<string>)>): (d: ErrorDict)
    ensures d == [] <==> forall i :: 0 <= i < |fields| ==> fields[i].1.None?
  {
    if fields == [] then []
    else
      var rest := CollectErrors(fields[1..]);
      assert forall i :: 1 <= i < |fields| ==> fields[i] == fields[1..][i - 1];
      match fields[0].1
      case Some(msg) => [FieldError(fields[0].0, Messages([msg]))] + rest
      case None => rest
  }

  /** The four field validators' outcomes for one employee write. */
  datatype EmployeeChecks = EmployeeChecks(
    employeeId: Result<string, string>,
    fullName: Result<string, string>,
    email: Result<string, string>,
    department: Result<string, string>)
  {
    predicate AllPassed() {
      employeeId.Ok? && fullName.Ok? && email.Ok? && department.Ok?
    }
  }

  function CheckEmployeeFields(form: EmployeeForm): EmployeeChecks {
    EmployeeChecks(
      ValidateEmployeeId(form.employeeId),
      ValidateFullName(form.fullName),
      ValidateEmail(form.email),
      ValidateDepartment(form.department))
  }

  /** Each field with its validator's failure, in serializer field order. */
  function FieldFailures(c: EmployeeChecks): (f: seq<(string, Option<string>)>)
    ensures |f| == 4
    ensures (forall i :: 0 <= i < |f| ==> f[i].1.None?) <==> c.AllPassed()
  {
    var f := [ ("employeeId", Failure(c.employeeId)),
               ("fullName", Failure(c.fullName)),
               ("email", Failure(c.email)),
               ("department", Failure(c.department)) ];
    assert !c.AllPassed() ==> exists i :: 0 <= i < |f| && f[i].1.Some? by {
      if !c.AllPassed() {
        var k := if f[0].1.Some? then 0 else if f[1].1.Some? then 1 else if f[2].1.Some? then 2 else 3;
        assert f[k].1.Some?;
      }
    }
    f
  }

  function EmployeeFieldFailures(form: EmployeeForm): seq<(string, Option<string>)> {
    FieldFailures(CheckEmployeeFields(form))
  }

  /** Field errors take precedence; only when every field passes does the
      uniqueness rule run, and its failure is reported under `employeeId`. */
  function CombineEmployee(es: seq<Employee>, c: EmployeeChecks, exclude: Option<Uuid>): (r: Result<EmployeeFields, ErrorDict>)
    ensures r.Err? ==> r.error != []
    ensures !c.AllPassed() ==> r == Err(CollectErrors(FieldFailures(c)))
    ensures c.AllPassed() ==>
      (r.Err? <==> CheckUnique(es, c.employeeId.value, exclude).Err?)
    ensures c.AllPassed() && r.Err? ==> r.error == [FieldError("employeeId", Messages([DuplicateEmployeeId]))]
    ensures r.Ok? ==>
      && c.AllPassed()
      && r.value == EmployeeFields(c.employeeId.value, c.fullName.value, c.email.value, c.department.value)
  {
    if !c.AllPassed() then Err(CollectErrors(FieldFailures(c)))
    else match CheckUnique(es, c.employeeId.value, exclude)
      case Err(msg) => Err([FieldError("employeeId", Messages([msg]))])
      case Ok(_) => Ok(EmployeeFields(c.employeeId.value, c.fullName.value, c.email.value, c.department.value))
  }

  /** `is_valid()` of the employee serializer. Every field is validated and
      failures are collected in field order (employeeId, fullName, email,
      department); only when all pass does the uniqueness rule run. */
  function ValidateEmployee(es: seq<Employee>, form: EmployeeForm, exclude: Option<Uuid>): (r: Result<EmployeeFields, ErrorDict>)
    ensures r.Err? ==> r.error != []
    ensures r.Ok? ==>
      && ValidateEmployeeId(form.employeeId) == Ok(r.value.employeeId)
      && ValidateFullName(form.fullName) == Ok(r.value.fullName)
      && ValidateEmail(form.email) == Ok(r.value.email)
      && ValidateDepartment(form.department) == Ok(r.value.department)
      && forall i :: 0 <= i < |es| ==> !ConflictsWith(es[i], r.value.employeeId, exclude)
  {
    var c := CheckEmployeeFields(form);
    var r := CombineEmployee(es, c, exclude);
    assert r.Ok? ==> c.employeeId.value != [];
    r
  }

  /** A form whose four fields pass and whose identifier is free is accepted as is. */
  lemma EmployeeFormAccepted(es: seq<Employee>, form: EmployeeForm, exclude: Option<Uuid>, f: EmployeeFields)
    requires ValidateEmployeeId(form.employeeId) == Ok(f.employeeId)
    requires ValidateFullName(form.fullName) == Ok(f.fullName)
    requires ValidateEmail(form.email) == Ok(f.email)
    requires ValidateDepartment(form.department) == Ok(f.department)
    requires CheckUnique(es, f.employeeId, exclude) == Ok(())
    ensures ValidateEmployee(es, form, exclude) == Ok(f)
  {
  }

  /** A form whose four fields pass but whose identifier is taken gets the
      duplicate message under `employeeId`. */
  lemma DuplicateFormRefused(es: seq<Employee>, form: EmployeeForm, exclude: Option<Uuid>, f: EmployeeFields)
    requires ValidateEmployeeId(form.employeeId) == Ok(f.employeeId)
    requires ValidateFullName(form.fullName) == Ok(f.fullName)
    requires ValidateEmail(form.email) == Ok(f.email)
    requires ValidateDepartment(form.department) == Ok(f.department)
    requires CheckUnique(es, f.employeeId, exclude) == Err(DuplicateEmployeeId)
    ensures ValidateEmployee(es, form, exclude) == Err([FieldError("employeeId", Messages([DuplicateEmployeeId]))])
  {
  }

  /** Validated employee data obeys every per-record rule of the store. */
  lemma ValidatedEmployeeIsWellFormed(es: seq<Employee>, form: EmployeeForm, exclude: Option<Uuid>, pk: Uuid)
    requires ValidateEmployee(es, form, exclude).Ok?
    ensures var f := ValidateEmployee(es, form, exclude).value;
      WellFormedEmployee(Employee(pk, f.employeeId, f.fullName, f.email, f.department))
  {
    Email.NormalizeIdempotent(OrEmpty(form.email));
  }

  /** An attendance write body as the serializer sees it (after the view's
      aliasing): `employee_id`, `date`, `status`. */
  datatype AttendanceForm = AttendanceForm(employeeId: Option<string>, date: Option<Date>, status: Option<string>)

  datatype AttendanceFields = AttendanceFields(employeeId: string, date: Date, status: Status)

  /** Exact, case-sensitive lookup by business identifier. */
  function FindEmployee(es: seq<Employee>, employeeId: string): (r: Option<nat>)
    ensures r.None? <==> forall i :: 0 <= i < |es| ==> es[i].employeeId != employeeId
    ensures r.Some? ==> r.value < |es| && es[r.value].employeeId == employeeId
  {
    FindFirst(es, (e: Employee) => e.employeeId == employeeId)
  }

  /** `validate_employee_id`: strip, require something, require an employee
      with exactly that identifier. */
  function ValidateAttendanceEmployee(es: seq<Employee>, raw: Option<string>): (r: Result<string, string>)
    ensures r == Err(EmployeeRequired) <==> AllSpace(OrEmpty(raw))
    ensures r == Err(EmployeeNotFound) <==>
      !AllSpace(OrEmpty(raw)) && forall i :: 0 <= i < |es| ==> es[i].employeeId != Strip(OrEmpty(raw))
    ensures r.Ok? <==> !AllSpace(OrEmpty(raw)) && exists i :: 0 <= i < |es| && es[i].employeeId == Strip(OrEmpty(raw))
    ensures r.Ok? ==> IsStripOf(OrEmpty(raw), r.value) && exists i :: 0 <= i < |es| && es[i].employeeId == r.value
    ensures r.Err? ==> r.error == EmployeeRequired || r.error == EmployeeNotFound
  {
    var v := Strip(OrEmpty(raw));
    if v == [] then Err(EmployeeRequired)
    else if FindEmployee(es, v).None? then Err(EmployeeNotFound)
    else Ok(v)
  }

  /** `validate_date`: a missing date is rejected. */
  function ValidateDate(raw: Option<Date>): (r: Result<Date, string>)
    ensures r.Ok? <==> raw.Some?
    ensures r.Ok? ==> r.value == raw.value
    ensures r.Err? ==> r.error == DateRequired
  {
    match raw
    case Some(d) => Ok(d)
    case None => Err(DateRequired)
  }

  /** `validate_status`: exactly one of the two choice names is accepted. */
  function ValidateStatus(raw: Option<string>): (r: Result<Status, string>)
    ensures r.Ok? <==> raw == Some("Present") || raw == Some("Absent")
    ensures r.Ok? ==> raw == Some(StatusName(r.value))
    ensures r.Err? ==> r.error == StatusInvalid
  {
    if raw == Some("Present") then Ok(Present)
    else if raw == Some("Absent") then Ok(Absent)
    else Err(StatusInvalid)
  }

  lemma StatusRoundTrip(s: Status)
    ensures ValidateStatus(Some(StatusName(s))) == Ok(s)
  {
  }

  /** Each attendance field with its validator's failure, in serializer
      field order (date, status, employee_id). */
  function AttendanceFieldFailures(es: seq<Employee>, form: AttendanceForm): (f: seq<(string, Option<string>)>)
    ensures |f| == 3
    ensures (forall i :: 0 <= i < |f| ==> f[i].1.None?) <==>
      ValidateDate(form.date).Ok? && ValidateStatus(form.status).Ok? && ValidateAttendanceEmployee(es, form.employeeId).Ok?
  {
    var f := [ ("date", Failure(ValidateDate(form.date))),
               ("status", Failure(ValidateStatus(form.status))),
               ("employee_id", Failure(ValidateAttendanceEmployee(es, form.employeeId))) ];
    assert f[0].1.None? && f[1].1.None? && f[2].1.None? ==> forall i :: 0 <= i < |f| ==> f[i].1.None?;
    f
  }

  /** `is_valid()` of the attendance serializer. Errors are collected in the
      serializer's field order, which is date, status, employee_id. */
  function ValidateAttendance(es: seq<Employee>, form: AttendanceForm): (r: Result<AttendanceFields, ErrorDict>)
    ensures r.Err? ==> r.error != []
    ensures r.Ok? <==>
      ValidateDate(form.date).Ok? && ValidateStatus(form.status).Ok? && ValidateAttendanceEmployee(es, form.employeeId).Ok?
    ensures r.Ok? ==>
      && ValidateDate(form.date) == Ok(r.value.date)
      && ValidateStatus(form.status) == Ok(r.value.status)
      && ValidateAttendanceEmployee(es, form.employeeId) == Ok(r.value.employeeId)
  {
    var date := ValidateDate(form.date);
    var status := ValidateStatus(form.status);
    var emp := ValidateAttendanceEmployee(es, form.employeeId);
    var fields := AttendanceFieldFailures(es, form);
    if !(date.Ok? && status.Ok? && emp.Ok?) then
      assert fields[0].1.Some? || fields[1].1.Some? || fields[2].1.Some?;
      Err(CollectErrors(fields))
    else Ok(AttendanceFields(emp.value, date.value, status.value))
  }

  /** `update_or_create` keyed by (employee, date) with the status as the
      only default: overwrite the status of the existing record for that
      day, or append a new record under the new key. Returns the new
      record list and the record written. */
  function UpsertRecord(rs: seq<Attendance>, emp: Uuid, date: Date, status: Status, newId: Uuid): (r: (seq<Attendance>, Attendance))
    requires OnePerDay(rs)
    ensures r.1.employee == emp && r.1.date == date && r.1.status == status
    ensures OnePerDay(r.0)
    ensures r.1 in r.0
    ensures forall i :: 0 <= i < |rs| && SameDay(rs[i], emp, date) ==>
      |r.0| == |rs| && r.1 == rs[i].(status := status) && r.0[i] == r.1
    ensures (forall i :: 0 <= i < |rs| ==> !SameDay(rs[i], emp, date)) ==>
      r.0 == rs + [Attendance(newId, emp, date, status)]
    ensures forall i :: 0 <= i < |rs| && !SameDay(rs[i], emp, date) ==> r.0[i] == rs[i]
    ensures forall i :: 0 <= i < |r.0| ==> r.0[i] == r.1 || (i < |rs| && r.0[i] == rs[i])
  {
    match FindFirst(rs, (a: Attendance) => SameDay(a, emp, date))
    case Some(i) =>
      var a := rs[i].(status := status);
      assert rs[i := a][i] == a;
      (rs[i := a], a)
    case None =>
      var a := Attendance(newId, emp, date, status);
      (rs + [a], a)
  }

  /** After an upsert the written record is the only one for its day. */
  lemma UpsertLeavesOneRecord(rs: seq<Attendance>, emp: Uuid, date: Date, status: Status, newId: Uuid)
    requires OnePerDay(rs)
    ensures var r := UpsertRecord(rs, emp, date, status, newId);
      forall j :: 0 <= j < |r.0| && SameDay(r.0[j], emp, date) ==> r.0[j] == r.1
  {
    var r := UpsertRecord(rs, emp, date, status, newId);
    var i :| 0 <= i < |r.0| && r.0[i] == r.1;
    OneRecordPerDay(r.0, emp, date, i);
  }

  /** The upsert keeps record keys distinct: an overwritten record keeps its
      key and a new one takes the unused key. */
  lemma UpsertKeepsRecordIds(rs: seq<Attendance>, emp: Uuid, date: Date, status: Status, newId: Uuid)
    requires OnePerDay(rs) && UniqueRecordIds(rs) && newId !in RecordIds(rs)
    ensures UniqueRecordIds(UpsertRecord(rs, emp, date, status, newId).0)
  {
    var p := (a: Attendance) => SameDay(a, emp, date);
    match FindFirst(rs, p)
    case Some(i) =>
    case None =>
      var a := Attendance(newId, emp, date, status);
      assert forall k :: 0 <= k < |rs| ==> rs[k] in rs;
      PairwiseAppend(rs, a, DistinctRecordIds);
  }

  /** Writing a day twice keeps only the second status: the store equals what
      the second write alone would have produced. */
  lemma UpsertLastWriteWins(rs: seq<Attendance>, emp: Uuid, date: Date, first: Status, second: Status, newId1: Uuid, newId2: Uuid)
    requires OnePerDay(rs)
    ensures var once := UpsertRecord(rs, emp, date, first, newId1).0;
      UpsertRecord(once, emp, date, second, newId2) == UpsertRecord(rs, emp, date, second, newId1)
  {
    if i :| 0 <= i < |rs| && SameDay(rs[i], emp, date) {
      RewriteExistingTwice(rs, emp, date, first, second, newId1, newId2, i);
    } else {
      AppendThenRewrite(rs, emp, date, first, second, newId1, newId2);
    }
  }

  lemma RewriteExistingTwice(rs: seq<Attendance>, emp: Uuid, date: Date, first: Status, second: Status, newId1: Uuid, newId2: Uuid, i: nat)
    requires OnePerDay(rs)
    requires i < |rs| && SameDay(rs[i], emp, date)
    ensures var once := UpsertRecord(rs, emp, date, first, newId1).0;
      UpsertRecord(once, emp, date, second, newId2) == UpsertRecord(rs, emp, date, second, newId1)
  {
    var once := UpsertRecord(rs, emp, date, first, newId1).0;
    var twice := UpsertRecord(once, emp, date, second, newId2);
    var direct := UpsertRecord(rs, emp, date, second, newId1);
    OneRecordPerDay(rs, emp, date, i);
    assert SameDay(once[i], emp, date);
    assert forall j :: 0 <= j < |once| && j != i ==> once[j] == rs[j];
    assert twice.1 == direct.1;
    assert twice.0 == direct.0 by {
      forall j | 0 <= j < |rs| ensures twice.0[j] == direct.0[j] {
        if j != i {
          assert !SameDay(once[j], emp, date);
        }
      }
    }
  }

  lemma AppendThenRewrite(rs: seq<Attendance>, emp: Uuid, date: Date, first: Status, second: Status, newId1: Uuid, newId2: Uuid)
    requires OnePerDay(rs)
    requires forall i :: 0 <= i < |rs| ==> !SameDay(rs[i], emp, date)
    ensures var once := UpsertRecord(rs, emp, date, first, newId1).0;
      UpsertRecord(once, emp, date, second, newId2) == UpsertRecord(rs, emp, date, second, newId1)
  {
    var once := UpsertRecord(rs, emp, date, first, newId1).0;
    var twice := UpsertRecord(once, emp, date, second, newId2);
    var written := Attendance(newId1, emp, date, second);
    assert once == rs + [Attendance(newId1, emp, date, first)];
    assert SameDay(once[|rs|], emp, date);
    assert twice.1 == written;
    assert twice.0 == rs + [written] by {
      forall j | 0 <= j < |rs| ensures twice.0[j] == rs[j] {
        assert once[j] == rs[j];
      }
    }
  }

  /** Submitting the same attendance twice changes nothing the second time. */
  lemma UpsertIdempotent(rs: seq<Attendance>, emp: Uuid, date: Date, status: Status, newId1: Uuid, newId2: Uuid)
    requires OnePerDay(rs)
    ensures var once := UpsertRecord(rs, emp, date, status, newId1);
      UpsertRecord(once.0, emp, date, status, newId2) == once
  {
    UpsertLastWriteWins(rs, emp, date, status, status, newId1, newId2);
  }

  /** `create` of the attendance serializer: resolve the employee by its
      exact identifier, then upsert. Only the record list changes, and a
      valid store stays valid. */
  function CreateAttendance(s: Store, fields: AttendanceFields, newId: Uuid): (r: (Store, Attendance))
    requires OnePerDay(s.attendance)
    requires exists i :: 0 <= i < |s.employees| && s.employees[i].employeeId == fields.employeeId
    ensures r.0.employees == s.employees
    ensures r.1.date == fields.date && r.1.status == fields.status && r.1 in r.0.attendance
    ensures exists i :: 0 <= i < |s.employees| && s.employees[i].id == r.1.employee && s.employees[i].employeeId == fields.employeeId
    ensures var u := UpsertRecord(s.attendance, r.1.employee, fields.date, fields.status, newId);
      r.0.attendance == u.0 && r.1 == u.1
    ensures Valid(s) && newId !in RecordIds(s.attendance) ==> Valid(r.0)
  {
    var k := FindEmployee(s.employees, fields.employeeId);
    var e := s.employees[k.value];
    var (rs, a) := UpsertRecord(s.attendance, e.id, fields.date, fields.status, newId);
    assert Valid(s) && newId !in RecordIds(s.attendance) ==> Valid(Store(s.employees, rs)) by {
      if Valid(s) && newId !in RecordIds(s.attendance) {
        UpsertKeepsValid(s, k.value, fields.date, fields.status, newId);
      }
    }
    (Store(s.employees, rs), a)
  }

  /** An upsert only ever writes the given employee's key, so it leaves no
      foreign key dangling that was not dangling before. */
  lemma UpsertKeepsForeignKeys(rs: seq<Attendance>, emp: Uuid, date: Date, status: Status, newId: Uuid, pks: set<Uuid>)
    requires OnePerDay(rs) && emp in pks
    requires forall a :: a in rs ==> a.employee in pks
    ensures forall x :: x in UpsertRecord(rs, emp, date, status, newId).0 ==> x.employee in pks
  {
    var (r, a) := UpsertRecord(rs, emp, date, status, newId);
    forall x | x in r ensures x.employee in pks {
      var j :| 0 <= j < |r| && r[j] == x;
      if x != a {
        assert rs[j] in rs;
      }
    }
  }

  /** Upserting a record for a stored employee under an unused key keeps a
      valid store valid. */
  lemma UpsertKeepsValid(s: Store, k: nat, date: Date, status: Status, newId: Uuid)
    requires Valid(s) && k < |s.employees| && newId !in RecordIds(s.attendance)
    ensures Valid(Store(s.employees, UpsertRecord(s.attendance, s.employees[k].id, date, status, newId).0))
  {
    var e := s.employees[k];
    var rs := UpsertRecord(s.attendance, e.id, date, status, newId).0;
    UpsertKeepsRecordIds(s.attendance, e.id, date, status, newId);
    assert e in s.employees;
    UpsertKeepsForeignKeys(s.attendance, e.id, date, status, newId, Pks(s.employees));
    ReplaceRecordsKeepsValid(s, rs);
  }
}
