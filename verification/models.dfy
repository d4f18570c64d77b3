/** The two stored record types, their field limits, their default orderings
    and the invariant the schema and the serializers maintain together. */
module Models {
  import opened Strings
  import opened Seqs
  import Email

  /** Primary keys are UUIDs in storage; the model only compares them. */
  type Uuid = nat

  /** A calendar day, already parsed from its `YYYY-MM-DD` form. */
  datatype Date = Date(year: int, month: int, day: int)

  /** Chronological order of days. */
  predicate DateLe(a: Date, b: Date) {
    || a.year < b.year
    || (a.year == b.year && (a.month < b.month || (a.month == b.month && a.day <= b.day)))
  }

  /** The two choices an attendance status may take. */
  datatype Status = Present | Absent

  function StatusName(s: Status): string {
    match s
    case Present => "Present"
    case Absent => "Absent"
  }

  datatype Employee = Employee(id: Uuid, employeeId: string, fullName: string, email: string, department: string)

  /** One day's status for one employee; `employee` is the owner's primary key. */
  datatype Attendance = Attendance(id: Uuid, employee: Uuid, date: Date, status: Status)

  datatype Store = Store(employees: seq<Employee>, attendance: seq<Attendance>)

  const EmployeeIdMaxLength: nat := 64
  /** Shared limit of `full_name` and `department`. */
  const NameMaxLength: nat := 255

  function Pks(es: seq<Employee>): set<Uuid> {
    set e | e in es :: e.id
  }

  function RecordIds(rs: seq<Attendance>): set<Uuid> {
    set a | a in rs :: a.id
  }

  /** A field value as the serializer leaves it: stripped, non-empty, short enough. */
  predicate CleanText(s: string, maxLength: nat) {
    s != [] && Trimmed(s) && |s| <= maxLength
  }

  /** Every stored employee went through the serializer's field validators. */
  ghost predicate WellFormedEmployee(e: Employee) {
    && CleanText(e.employeeId, EmployeeIdMaxLength)
    && CleanText(e.fullName, NameMaxLength)
    && CleanText(e.department, NameMaxLength)
    && Email.Normalize(e.email) == e.email
    && Email.WellFormedAddress(e.email)
  }

  predicate DistinctPks(a: Employee, b: Employee) {
    a.id != b.id
  }

  /** The two business identifiers differ even ignoring letter case. */
  predicate DistinctEmployeeIds(a: Employee, b: Employee) {
    !SameIgnoringCase(a.employeeId, b.employeeId)
  }

  predicate DistinctRecordIds(a: Attendance, b: Attendance) {
    a.id != b.id
  }

  predicate SameDay(a: Attendance, emp: Uuid, date: Date) {
    a.employee == emp && a.date == date
  }

  predicate DifferentDays(a: Attendance, b: Attendance) {
    !SameDay(b, a.employee, a.date)
  }

  ghost predicate UniquePks(es: seq<Employee>) {
    Pairwise(es, DistinctPks)
  }

  /** No two business identifiers differ only in letter case. */
  ghost predicate UniqueEmployeeIds(es: seq<Employee>) {
    Pairwise(es, DistinctEmployeeIds)
  }

  ghost predicate UniqueRecordIds(rs: seq<Attendance>) {
    Pairwise(rs, DistinctRecordIds)
  }

  /** The `unique_employee_date` constraint. */
  ghost predicate OnePerDay(rs: seq<Attendance>) {
    Pairwise(rs, DifferentDays)
  }

  /** Under the `unique_employee_date` constraint a day of an employee names
      at most one record. */
  lemma OneRecordPerDay(rs: seq<Attendance>, emp: Uuid, date: Date, i: nat)
    requires OnePerDay(rs)
    requires i < |rs| && SameDay(rs[i], emp, date)
    ensures forall j :: 0 <= j < |rs| && j != i ==> !SameDay(rs[j], emp, date)
  {
    forall j | 0 <= j < |rs| && j != i ensures !SameDay(rs[j], emp, date) {
      if j < i {
        assert DifferentDays(rs[j], rs[i]);
      } else {
        assert DifferentDays(rs[i], rs[j]);
      }
    }
  }

  /** Every record's foreign key resolves to a stored employee. */
  ghost predicate NoDangling(s: Store) {
    forall a :: a in s.attendance ==> a.employee in Pks(s.employees)
  }

  ghost predicate Valid(s: Store) {
    && UniquePks(s.employees)
    && UniqueEmployeeIds(s.employees)
    && (forall e :: e in s.employees ==> WellFormedEmployee(e))
    && UniqueRecordIds(s.attendance)
    && OnePerDay(s.attendance)
    && NoDangling(s)
  }

  /** Adding a well-formed employee under an unused key whose identifier
      clashes with no stored one, ignoring case, keeps the store valid. */
  lemma AddEmployeeKeepsValid(s: Store, e: Employee)
    requires Valid(s)
    requires WellFormedEmployee(e) && e.id !in Pks(s.employees)
    requires forall i :: 0 <= i < |s.employees| ==> DistinctEmployeeIds(s.employees[i], e)
    ensures Valid(Store(s.employees + [e], s.attendance))
  {
    var es := s.employees + [e];
    forall i | 0 <= i < |s.employees| ensures DistinctPks(s.employees[i], e) {
      assert s.employees[i] in s.employees;
    }
    PairwiseAppend(s.employees, e, DistinctPks);
    PairwiseAppend(s.employees, e, DistinctEmployeeIds);
    PksAppend(s.employees, e);
    assert forall x :: x in es ==> x in s.employees || x == e;
  }

  lemma PksAppend(es: seq<Employee>, e: Employee)
    ensures Pks(es + [e]) == Pks(es) + {e.id}
  {
    assert forall x :: x in es + [e] <==> x in es || x == e;
  }

  /** Deleting an employee row: the `CASCADE` foreign key removes every
      attendance record that points at it. Each surviving employee and record
      keeps its multiplicity, and a valid store stays valid. */
  function CascadeDelete(s: Store, pk: Uuid): (r: Store)
    ensures forall e :: multiset(r.employees)[e] == if e.id == pk then 0 else multiset(s.employees)[e]
    ensures forall a :: multiset(r.attendance)[a] == if a.employee == pk then 0 else multiset(s.attendance)[a]
    ensures pk !in Pks(r.employees)
    ensures forall a :: a in r.attendance ==> a.employee != pk
    ensures Valid(s) ==> Valid(r)
  {
    var keep := (e: Employee) => e.id != pk;
    var survives := (a: Attendance) => a.employee != pk;
    var r := Store(Filter(s.employees, keep), Filter(s.attendance, survives));
    FilterMembership(s.employees, keep);
    FilterMembership(s.attendance, survives);
    assert Valid(s) ==> Valid(r) by {
      if Valid(s) {
        FilterPairwise(s.employees, keep, DistinctPks);
        FilterPairwise(s.employees, keep, DistinctEmployeeIds);
        FilterPairwise(s.attendance, survives, DistinctRecordIds);
        FilterPairwise(s.attendance, survives, DifferentDays);
        forall a | a in r.attendance ensures a.employee in Pks(r.employees) {
          var e :| e in s.employees && e.id == a.employee;
          assert e in r.employees;
        }
      }
    }
    r
  }

  /** Replacing the record list keeps the store valid when the new list keeps
      both record constraints and points only at stored employees. */
  lemma ReplaceRecordsKeepsValid(s: Store, rs: seq<Attendance>)
    requires Valid(s)
    requires UniqueRecordIds(rs) && OnePerDay(rs)
    requires forall a :: a in rs ==> a.employee in Pks(s.employees)
    ensures Valid(Store(s.employees, rs))
  {
  }

  /** Case-insensitive uniqueness is the stronger of the two: no two stored
      identifiers are even equal letter for letter. */
  lemma UniqueIdsAreDistinct(es: seq<Employee>)
    requires UniqueEmployeeIds(es)
    ensures forall i, j :: 0 <= i < j < |es| ==> es[i].employeeId != es[j].employeeId
  {
  }

  /** With unique identifiers, an identifier names at most one employee. */
  lemma IdentifierNamesOne(es: seq<Employee>, e: Employee)
    requires e in es
    ensures UniqueEmployeeIds(es) ==>
      forall i :: 0 <= i < |es| && es[i].employeeId == e.employeeId ==> es[i] == e
  {
    if UniqueEmployeeIds(es) {
      UniqueIdsAreDistinct(es);
    }
  }

  /** Default employee ordering: `full_name` ascending. */
  predicate ByName(a: Employee, b: Employee) {
    LexLe(a.fullName, b.fullName)
  }

  /** Default attendance ordering: `date` descending. */
  predicate LatestFirst(a: Attendance, b: Attendance) {
    DateLe(b.date, a.date)
  }

  lemma ByNameIsPreorder()
    ensures TotalPreorder(ByName)
  {
    forall a, b ensures ByName(a, b) || ByName(b, a) {
      LexLeTotal(a.fullName, b.fullName);
    }
    forall a, b, c | ByName(a, b) && ByName(b, c) ensures ByName(a, c) {
      LexLeTransitive(a.fullName, b.fullName, c.fullName);
    }
  }

  lemma LatestFirstIsPreorder()
    ensures TotalPreorder(LatestFirst)
  {
  }
}
