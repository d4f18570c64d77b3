/** The HTTP handlers, each reduced to a function from the store and the
    request to a response and the store after it. */
module Views {
  import opened Results
  import opened Strings
  import opened Seqs
  import opened Models
  import opened Serializers

  const InvalidInput := "Invalid input"

  /** Response payloads: a message envelope, one record or a list. */
  datatype Body =
    | NoBody
    | Message(text: string)
    | EmployeeBody(employee: Employee)
    | Employees(employees: seq<Employee>)
    | RecordBody(record: Attendance)
    | Records(records: seq<Attendance>)

  datatype Response = Response(code: int, body: Body)

  /** The single message a failed write reports: the first entry of the
      first field in the error dictionary, with a fixed fallback. */
  function FirstErrorMessage(errors: ErrorDict): (m: string)
    ensures errors == [] ==> m == InvalidInput
    ensures errors != [] && errors[0].detail.Messages? && errors[0].detail.list != [] ==>
      m == errors[0].detail.list[0]
    ensures errors != [] && errors[0].detail.Messages? && errors[0].detail.list == [] ==> m == InvalidInput
    ensures errors != [] && errors[0].detail.Text? ==>
      m == (if errors[0].detail.text == [] then InvalidInput else errors[0].detail.text)
  {
    if errors == [] then InvalidInput
    else match errors[0].detail
      case Messages(list) => if list == [] then InvalidInput else list[0]
      case Text(t) => if t == [] then InvalidInput else t
  }

  /** The message of the first failed field, in field order. */
  function FirstFailure(fields: seq<(string, Option<string>)>): (r: Option<string>)
    ensures r.None? <==> forall i :: 0 <= i < |fields| ==> fields[i].1.None?
    ensures r.Some? ==> exists i :: 0 <= i < |fields| && fields[i].1 == r && forall j :: 0 <= j < i ==> fields[j].1.None?
  {
    if fields == [] then None
    else if fields[0].1.Some? then fields[0].1
    else
      var r := FirstFailure(fields[1..]);
      assert forall j :: 1 <= j < |fields| ==> fields[j] == fields[1..][j - 1];
      assert r.Some? ==> exists i :: 1 <= i < |fields| && fields[i].1 == r && forall j :: 0 <= j < i ==> fields[j].1.None? by {
        if r.Some? {
          var i :| 0 <= i < |fields[1..]| && fields[1..][i].1 == r && forall j :: 0 <= j < i ==> fields[1..][j].1.None?;
          assert fields[i + 1].1 == r;
        }
      }
      r
  }

  /** The view's extraction applied to a serializer's error dictionary
      reports exactly the first failed field's message. */
  lemma {:induction false} ReportedMessageIsFirstFailure(fields: seq<(string, Option<string>)>)
    requires FirstFailure(fields).Some?
    ensures FirstErrorMessage(CollectErrors(fields)) == FirstFailure(fields).value
  {
    if fields[0].1.None? {
      ReportedMessageIsFirstFailure(fields[1..]);
    }
  }

  /** GET /employees: every stored employee, ordered by full name. */
  function ListEmployees(s: Store): (r: Response)
    ensures r.code == 200 && r.body.Employees?
    ensures multiset(r.body.employees) == multiset(s.employees)
    ensures Pairwise(r.body.employees, ByName)
  {
    ByNameIsPreorder();
    Response(200, Employees(Sort(s.employees, ByName)))
  }

  /** POST /employees: validate, then save a new employee under `newId`
      (201 with the record), or answer 400 with one message. */
  function PostEmployee(s: Store, form: EmployeeForm, newId: Uuid): (r: (Response, Store))
    requires newId !in Pks(s.employees)
    ensures r.0.code == 201 || r.0.code == 400
    ensures r.0.code == 201 <==> ValidateEmployee(s.employees, form, None).Ok?
    ensures r.0.code == 400 ==> r.1 == s && r.0.body.Message?
    ensures r.0.code == 201 ==>
      var f := ValidateEmployee(s.employees, form, None).value;
      && r.0.body == EmployeeBody(Employee(newId, f.employeeId, f.fullName, f.email, f.department))
      && r.1 == Store(s.employees + [r.0.body.employee], s.attendance)
    ensures Valid(s) ==> Valid(r.1)
  {
    match ValidateEmployee(s.employees, form, None)
    case Err(errors) => (Response(400, Message(FirstErrorMessage(errors))), s)
    case Ok(f) =>
      var e := Employee(newId, f.employeeId, f.fullName, f.email, f.department);
      CreateKeepsValid(s, form, newId);
      (Response(201, EmployeeBody(e)), Store(s.employees + [e], s.attendance))
  }

  /** An accepted form is appended as the new employee, with the fields the
      serializer produced. */
  lemma PostEmployeeAppends(s: Store, form: EmployeeForm, newId: Uuid, f: EmployeeFields)
    requires newId !in Pks(s.employees)
    requires ValidateEmployee(s.employees, form, None) == Ok(f)
    ensures var e := Employee(newId, f.employeeId, f.fullName, f.email, f.department);
      PostEmployee(s, form, newId) == (Response(201, EmployeeBody(e)), Store(s.employees + [e], s.attendance))
  {
  }

  /** Saving what the serializer accepted keeps a valid store valid. */
  lemma CreateKeepsValid(s: Store, form: EmployeeForm, newId: Uuid)
    requires newId !in Pks(s.employees)
    requires ValidateEmployee(s.employees, form, None).Ok?
    ensures var f := ValidateEmployee(s.employees, form, None).value;
      Valid(s) ==> Valid(Store(s.employees + [Employee(newId, f.employeeId, f.fullName, f.email, f.department)], s.attendance))
  {
    if Valid(s) {
      var f := ValidateEmployee(s.employees, form, None).value;
      var e := Employee(newId, f.employeeId, f.fullName, f.email, f.department);
      ValidatedEmployeeIsWellFormed(s.employees, form, None, newId);
      assert forall i :: 0 <= i < |s.employees| ==> !ConflictsWith(s.employees[i], e.employeeId, None);
      assert forall i :: 0 <= i < |s.employees| ==> DistinctEmployeeIds(s.employees[i], e);
      AddEmployeeKeepsValid(s, e);
    }
  }

  /** A failed field is reported before every later one, whatever they hold. */
  lemma PostEmployeeReportsFirstFailure(s: Store, form: EmployeeForm, newId: Uuid)
    requires newId !in Pks(s.employees)
    requires FirstFailure(EmployeeFieldFailures(form)).Some?
    ensures PostEmployee(s, form, newId) ==
      (Response(400, Message(FirstFailure(EmployeeFieldFailures(form)).value)), s)
  {
    var c := CheckEmployeeFields(form);
    assert !c.AllPassed();
    assert ValidateEmployee(s.employees, form, None) == Err(CollectErrors(FieldFailures(c)));
    ReportedMessageIsFirstFailure(EmployeeFieldFailures(form));
  }

  /** With every field valid, the write is refused as a duplicate exactly
      when a stored identifier equals the stripped one ignoring case. */
  lemma PostEmployeeDuplicate(s: Store, form: EmployeeForm, newId: Uuid)
    requires newId !in Pks(s.employees)
    requires FirstFailure(EmployeeFieldFailures(form)).None?
    ensures PostEmployee(s, form, newId).0 == Response(400, Message(DuplicateEmployeeId)) <==>
      exists i :: 0 <= i < |s.employees| && SameIgnoringCase(s.employees[i].employeeId, Strip(OrEmpty(form.employeeId)))
    ensures PostEmployee(s, form, newId).0.code == 201 ==>
      var e := PostEmployee(s, form, newId).0.body.employee;
      && IsStripOf(OrEmpty(form.employeeId), e.employeeId)
      && IsStripOf(OrEmpty(form.fullName), e.fullName)
      && e.email == Email.Normalize(OrEmpty(form.email))
      && IsStripOf(OrEmpty(form.department), e.department)
  {
    var c := CheckEmployeeFields(form);
    assert c.AllPassed();
    var id := c.employeeId.value;
    StripUnique(OrEmpty(form.employeeId), id);
    var v := ValidateEmployee(s.employees, form, None);
    assert v == CombineEmployee(s.employees, c, None);
    assert v.Err? <==> exists i :: 0 <= i < |s.employees| && SameIgnoringCase(s.employees[i].employeeId, id) by {
      assert id != [];
      assert forall i :: 0 <= i < |s.employees| ==>
        (ConflictsWith(s.employees[i], id, None) <==> SameIgnoringCase(s.employees[i].employeeId, id));
    }
    if v.Ok? {
      assert v.value == EmployeeFields(id, c.fullName.value, c.email.value, c.department.value);
    }
  }

  /** The first failure among the employee fields is that of the first
      validator, in field order, that failed. */
  lemma FirstEmployeeFailure(c: EmployeeChecks)
    ensures c.employeeId.Err? ==> FirstFailure(FieldFailures(c)) == Some(c.employeeId.error)
    ensures c.employeeId.Ok? && c.fullName.Err? ==> FirstFailure(FieldFailures(c)) == Some(c.fullName.error)
    ensures c.employeeId.Ok? && c.fullName.Ok? && c.email.Err? ==> FirstFailure(FieldFailures(c)) == Some(c.email.error)
    ensures (c.employeeId.Ok? && c.fullName.Ok? && c.email.Ok? && c.department.Err?) ==>
      FirstFailure(FieldFailures(c)) == Some(c.department.error)
  {
    var f := FieldFailures(c);
    var rest := f[1..][1..];
    assert rest == [f[2], f[3]] && rest[1..] == [f[3]];
    assert c.email.Err? ==> FirstFailure(rest) == f[2].1;
  }

  /** The fields are checked in the order employeeId, fullName, email,
      department, and the answer names the first that fails. */
  lemma PostEmployeeFieldOrder(s: Store, form: EmployeeForm, newId: Uuid)
    requires newId !in Pks(s.employees)
    ensures ValidateEmployeeId(form.employeeId).Err? ==>
      PostEmployee(s, form, newId) == (Response(400, Message(ValidateEmployeeId(form.employeeId).error)), s)
    ensures ValidateEmployeeId(form.employeeId).Ok? && ValidateFullName(form.fullName).Err? ==>
      PostEmployee(s, form, newId) == (Response(400, Message(ValidateFullName(form.fullName).error)), s)
    ensures ValidateEmployeeId(form.employeeId).Ok? && ValidateFullName(form.fullName).Ok? && ValidateEmail(form.email).Err? ==>
      PostEmployee(s, form, newId) == (Response(400, Message(ValidateEmail(form.email).error)), s)
    ensures (ValidateEmployeeId(form.employeeId).Ok? && ValidateFullName(form.fullName).Ok? && ValidateEmail(form.email).Ok? &&
             ValidateDepartment(form.department).Err?) ==>
      PostEmployee(s, form, newId) == (Response(400, Message(ValidateDepartment(form.department).error)), s)
  {
    var c := CheckEmployeeFields(form);
    if !c.AllPassed() {
      FirstEmployeeFailure(c);
      PostEmployeeReportsFirstFailure(s, form, newId);
    }
  }

  /** GET /employees/{pk}: the employee with that primary key, or 404. */
  function GetEmployee(s: Store, pk: Uuid): (r: Response)
    ensures r.code == 200 <==> pk in Pks(s.employees)
    ensures r.code == 200 ==> r.body.EmployeeBody? && r.body.employee in s.employees && r.body.employee.id == pk
    ensures r.code != 200 ==> r == Response(404, NoBody)
  {
    match FindFirst(s.employees, (e: Employee) => e.id == pk)
    case Some(i) => Response(200, EmployeeBody(s.employees[i]))
    case None => Response(404, NoBody)
  }

  /** DELETE /employees/{pk}: 404 for an unknown key; otherwise 204, and
      the employee goes together with all of its attendance records. */
  function DeleteEmployee(s: Store, pk: Uuid): (r: (Response, Store))
    ensures pk !in Pks(s.employees) ==> r == (Response(404, NoBody), s)
    ensures pk in Pks(s.employees) ==> r.0 == Response(204, NoBody)
    ensures pk in Pks(s.employees) ==>
      forall e :: multiset(r.1.employees)[e] == if e.id == pk then 0 else multiset(s.employees)[e]
    ensures pk in Pks(s.employees) ==>
      forall a :: multiset(r.1.attendance)[a] == if a.employee == pk then 0 else multiset(s.attendance)[a]
    ensures pk !in Pks(r.1.employees)
    ensures Valid(s) ==> Valid(r.1)
  {
    if pk !in Pks(s.employees) then (Response(404, NoBody), s)
    else (Response(204, NoBody), CascadeDelete(s, pk))
  }

  /** The employee an attendance query names: the stripped `employeeId`
      parameter matched exactly; a blank or unknown value names nobody. */
  function QueriedEmployee(s: Store, query: Option<string>): (r: Option<Employee>)
    ensures AllSpace(OrEmpty(query)) ==> r.None?
    ensures r.None? && !AllSpace(OrEmpty(query)) ==>
      forall i :: 0 <= i < |s.employees| ==> s.employees[i].employeeId != Strip(OrEmpty(query))
    ensures r.Some? ==> r.value in s.employees && r.value.employeeId == Strip(OrEmpty(query))
  {
    var v := Strip(OrEmpty(query));
    if v == [] then None
    else match FindEmployee(s.employees, v)
      case Some(i) => Some(s.employees[i])
      case None => None
  }

  /** GET /attendance?employeeId=: never an error. A blank or unknown
      identifier gives `[]`; otherwise the employee's records, latest first. */
  function ListAttendance(s: Store, query: Option<string>): (r: Response)
    ensures r.code == 200 && r.body.Records?
    ensures AllSpace(OrEmpty(query)) ==> r.body.records == []
    ensures (forall i :: 0 <= i < |s.employees| ==> s.employees[i].employeeId != Strip(OrEmpty(query))) ==>
      r.body.records == []
    ensures UniqueEmployeeIds(s.employees) ==>
      forall i :: 0 <= i < |s.employees| && s.employees[i].employeeId == Strip(OrEmpty(query)) && !AllSpace(OrEmpty(query)) ==>
        forall a :: multiset(r.body.records)[a] ==
          if a.employee == s.employees[i].id then multiset(s.attendance)[a] else 0
    ensures Pairwise(r.body.records, LatestFirst)
  {
    match QueriedEmployee(s, query)
    case None => Response(200, Records([]))
    case Some(e) =>
      IdentifierNamesOne(s.employees, e);
      Response(200, Records(RecordsOf(s.attendance, e.id)))
  }

  /** One employee's records, latest day first. */
  function RecordsOf(rs: seq<Attendance>, pk: Uuid): (r: seq<Attendance>)
    ensures forall a :: multiset(r)[a] == if a.employee == pk then multiset(rs)[a] else 0
    ensures Pairwise(r, LatestFirst)
  {
    LatestFirstIsPreorder();
    Sort(Filter(rs, (a: Attendance) => a.employee == pk), LatestFirst)
  }

  /** An attendance write body as clients send it: the identifier may come
      as `employeeId` or as `employee_id`. */
  datatype AttendanceRequest = AttendanceRequest(
    employeeId: Option<string>, employeeIdField: Option<string>, date: Option<Date>, status: Option<string>)

  /** What the serializer receives: `employeeId` is copied into
      `employee_id` only when the latter is absent. */
  function SerializerInput(req: AttendanceRequest): (f: AttendanceForm)
    ensures req.employeeIdField.Some? ==> f.employeeId == req.employeeIdField
    ensures req.employeeIdField.None? ==> f.employeeId == req.employeeId
    ensures f.date == req.date && f.status == req.status
  {
    var id := if req.employeeIdField.None? && req.employeeId.Some? then req.employeeId else req.employeeIdField;
    AttendanceForm(id, req.date, req.status)
  }

  /** POST /attendance: validate, then upsert the (employee, date) record
      (201 with it), or answer 400 with one message. */
  function PostAttendance(s: Store, req: AttendanceRequest, newId: Uuid): (r: (Response, Store))
    requires OnePerDay(s.attendance)
    requires newId !in RecordIds(s.attendance)
    ensures r.0.code == 201 || r.0.code == 400
    ensures r.0.code == 400 ==> r.1 == s && r.0.body.Message?
    ensures r.0.code == 201 <==> ValidateAttendance(s.employees, SerializerInput(req)).Ok?
    ensures r.0.code == 201 ==> r.0.body.RecordBody? && r.1.employees == s.employees && r.0.body.record in r.1.attendance
    ensures r.0.code == 201 ==>
      var a := r.0.body.record;
      && req.date == Some(a.date)
      && req.status == Some(StatusName(a.status))
      && (exists i :: 0 <= i < |s.employees| && s.employees[i].id == a.employee &&
                      s.employees[i].employeeId == Strip(OrEmpty(SerializerInput(req).employeeId)))
      && (r.1.attendance, a) == UpsertRecord(s.attendance, a.employee, a.date, a.status, newId)
    ensures Valid(s) ==> Valid(r.1)
  {
    match ValidateAttendance(s.employees, SerializerInput(req))
    case Err(errors) => (Response(400, Message(FirstErrorMessage(errors))), s)
    case Ok(f) =>
      var (s', a) := CreateAttendance(s, f, newId);
      (Response(201, RecordBody(a)), s')
  }

  /** A failed field is reported before every later one: date, then status,
      then the employee identifier. */
  lemma PostAttendanceReportsFirstFailure(s: Store, req: AttendanceRequest, newId: Uuid)
    requires OnePerDay(s.attendance) && newId !in RecordIds(s.attendance)
    requires FirstFailure(AttendanceFieldFailures(s.employees, SerializerInput(req))).Some?
    ensures PostAttendance(s, req, newId) ==
      (Response(400, Message(FirstFailure(AttendanceFieldFailures(s.employees, SerializerInput(req))).value)), s)
  {
    ReportedMessageIsFirstFailure(AttendanceFieldFailures(s.employees, SerializerInput(req)));
  }

  /** The fields are checked in the order date, status, employee_id, and the
      answer names the first that fails. */
  lemma PostAttendanceFieldOrder(s: Store, req: AttendanceRequest, newId: Uuid)
    requires OnePerDay(s.attendance) && newId !in RecordIds(s.attendance)
    ensures req.date.None? ==> PostAttendance(s, req, newId) == (Response(400, Message(DateRequired)), s)
    ensures req.date.Some? && ValidateStatus(req.status).Err? ==>
      PostAttendance(s, req, newId) == (Response(400, Message(StatusInvalid)), s)
    ensures (req.date.Some? && ValidateStatus(req.status).Ok? &&
             ValidateAttendanceEmployee(s.employees, SerializerInput(req).employeeId).Err?) ==>
      PostAttendance(s, req, newId) ==
        (Response(400, Message(ValidateAttendanceEmployee(s.employees, SerializerInput(req).employeeId).error)), s)
  {
    var f := AttendanceFieldFailures(s.employees, SerializerInput(req));
    if FirstFailure(f).Some? {
      assert f[1..][1..] == [f[2]];
      PostAttendanceReportsFirstFailure(s, req, newId);
    }
  }

  /** Sending the same attendance request twice leaves the store as the first
      request left it and repeats the first answer. */
  lemma PostAttendanceIdempotent(s: Store, req: AttendanceRequest, newId1: Uuid, newId2: Uuid)
    requires OnePerDay(s.attendance) && newId1 !in RecordIds(s.attendance)
    requires newId2 !in RecordIds(PostAttendance(s, req, newId1).1.attendance)
    ensures var first := PostAttendance(s, req, newId1);
      PostAttendance(first.1, req, newId2) == first
  {
    var first := PostAttendance(s, req, newId1);
    if first.0.code == 201 {
      var a := first.0.body.record;
      UpsertIdempotent(s.attendance, a.employee, a.date, a.status, newId1, newId2);
    }
  }
}
