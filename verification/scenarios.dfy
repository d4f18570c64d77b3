/** Concrete request sequences the service promises to handle a certain way,
    checked against the model. */
module Scenarios {
  import opened Results
  import opened Strings
  import opened Models
  import opened Serializers
  import opened Views
  import Email

  const Empty := Store([], [])
  const AnnForm := EmployeeForm(Some("E100"), Some("Ann Lee"), Some("Ann@Example.com"), Some("Eng"))
  /** What the serializer makes of Ann's form. */
  const AnnFields := EmployeeFields("E100", "Ann Lee", "ann@example.com", "Eng")
  const Ann := Employee(1, AnnFields.employeeId, AnnFields.fullName, AnnFields.email, AnnFields.department)
  /** A second submission of Ann's identifier in lower case. */
  const AgainForm := EmployeeForm(Some("e100"), Some("Ann Lee"), Some("ann@example.com"), Some("Eng"))

  lemma StripPlain(s: string)
    requires Trimmed(s)
    ensures Strip(s) == s
  {
    assert s == s[0..|s|];
    assert IsStripOf(s, s);
    StripUnique(s, s);
  }

  lemma LowerIs(s: string, t: string)
    requires |s| == |t|
    requires forall i :: 0 <= i < |s| ==> LowerChar(s[i]) == t[i]
    ensures Lower(s) == t
  {
  }

  lemma AnnAddressMatches()
    ensures Email.MatchesPattern("ann@example.com")
  {
    var s := "ann@example.com";
    assert s[3] == '@' && s[11] == '.';
    assert s[..3] == "ann" && s[4..11] == "example" && s[12..] == "com";
    assert Email.AllPlain("ann") && Email.AllPlain("example") && Email.AllPlain("com");
  }

  lemma MixedCaseAddressNormalized()
    ensures Email.Normalize("Ann@Example.com") == "ann@example.com"
  {
    StripPlain("Ann@Example.com");
    LowerIs("Ann@Example.com", "ann@example.com");
  }

  lemma LowerCaseAddressNormalized()
    ensures Email.Normalize("ann@example.com") == "ann@example.com"
  {
    StripPlain("ann@example.com");
    LowerIs("ann@example.com", "ann@example.com");
  }

  lemma MixedCaseAddressAccepted()
    ensures ValidateEmail(Some("Ann@Example.com")) == Ok("ann@example.com")
  {
    MixedCaseAddressNormalized();
    AnnAddressMatches();
    NormalizedAddressAccepted("Ann@Example.com", "ann@example.com");
  }

  lemma LowerCaseAddressAccepted()
    ensures ValidateEmail(Some("ann@example.com")) == Ok("ann@example.com")
  {
    LowerCaseAddressNormalized();
    AnnAddressMatches();
    NormalizedAddressAccepted("ann@example.com", "ann@example.com");
  }

  /** Both spellings of Ann's identifier pass the field validator unchanged. */
  lemma IdsAccepted()
    ensures ValidateEmployeeId(Some("E100")) == Ok("E100")
    ensures ValidateEmployeeId(Some("e100")) == Ok("e100")
  {
    StripPlain("E100");
    StripPlain("e100");
  }

  lemma NameAccepted()
    ensures ValidateFullName(Some("Ann Lee")) == Ok("Ann Lee")
  {
    StripPlain("Ann Lee");
  }

  lemma DepartmentAccepted()
    ensures ValidateDepartment(Some("Eng")) == Ok("Eng")
  {
    StripPlain("Eng");
  }

  lemma IdsDifferOnlyInCase()
    ensures SameIgnoringCase("E100", "e100")
  {
    LowerIs("E100", "e100");
    LowerIs("e100", "e100");
  }

  lemma AnnFormAccepted()
    ensures ValidateEmployee([], AnnForm, None) == Ok(AnnFields)
  {
    MixedCaseAddressAccepted();
    IdsAccepted();
    NameAccepted();
    DepartmentAccepted();
    EmployeeFormAccepted([], AnnForm, None, AnnFields);
  }

  /** An accepted form sent to an empty store is stored under the new key
      and echoed with 201. */
  lemma CreatedInEmptyStore(form: EmployeeForm, newId: Uuid, f: EmployeeFields)
    requires ValidateEmployee([], form, None) == Ok(f)
    ensures var e := Employee(newId, f.employeeId, f.fullName, f.email, f.department);
      PostEmployee(Store([], []), form, newId) == (Response(201, EmployeeBody(e)), Store([e], []))
  {
    var e := Employee(newId, f.employeeId, f.fullName, f.email, f.department);
    assert [] + [e] == [e];
    assert Pks([]) == {};
    PostEmployeeAppends(Store([], []), form, newId, f);
  }

  /** Creating Ann stores the lower-cased address and answers 201. */
  lemma AnnCreated()
    ensures PostEmployee(Empty, AnnForm, 1) == (Response(201, EmployeeBody(Ann)), Store([Ann], []))
  {
    AnnFormAccepted();
    CreatedInEmptyStore(AnnForm, 1, AnnFields);
  }

  lemma AnnIdTaken()
    ensures CheckUnique([Ann], "e100", None) == Err(DuplicateEmployeeId)
  {
    IdsDifferOnlyInCase();
    assert ConflictsWith(Ann, "e100", None);
  }

  lemma AgainFormRefused()
    ensures ValidateEmployee([Ann], AgainForm, None) == Err([FieldError("employeeId", Messages([DuplicateEmployeeId]))])
  {
    LowerCaseAddressAccepted();
    IdsAccepted();
    NameAccepted();
    DepartmentAccepted();
    AnnIdTaken();
    DuplicateFormRefused([Ann], AgainForm, None, EmployeeFields("e100", "Ann Lee", "ann@example.com", "Eng"));
  }

  /** The same identifier in another letter case is then refused with the
      duplicate message, and nothing is stored. */
  lemma AnnRefusedInOtherCase()
    ensures PostEmployee(Store([Ann], []), AgainForm, 2) == (Response(400, Message(DuplicateEmployeeId)), Store([Ann], []))
  {
    AgainFormRefused();
  }

  lemma SpacedUpperCaseStripped()
    ensures Strip(" A@B.COM ") == "A@B.COM"
  {
    var raw := " A@B.COM ";
    assert raw[1..8] == "A@B.COM" && raw[0] == ' ' && raw[8] == ' ';
    assert SpaceBetween(raw, 0, 1) && SpaceBetween(raw, 8, 9);
    assert IsStripOf(raw, "A@B.COM");
    StripUnique(raw, "A@B.COM");
  }

  lemma ShortAddressMatches()
    ensures Email.MatchesPattern("a@b.com")
  {
    var v := "a@b.com";
    assert v[1] == '@' && v[3] == '.';
    assert v[..1] == "a" && v[2..3] == "b" && v[4..] == "com";
    assert Email.AllPlain("a") && Email.AllPlain("b") && Email.AllPlain("com");
  }

  lemma UpperCaseLowered()
    ensures Lower("A@B.COM") == "a@b.com"
  {
    LowerIs("A@B.COM", "a@b.com");
  }

  lemma SpacedUpperCaseNormalized()
    ensures Email.Normalize(" A@B.COM ") == "a@b.com"
  {
    SpacedUpperCaseStripped();
    UpperCaseLowered();
  }

  /** Surrounding blanks are dropped and capitals lowered before the check. */
  lemma SpacedUpperCaseAddress()
    ensures ValidateEmail(Some(" A@B.COM ")) == Ok("a@b.com")
  {
    SpacedUpperCaseNormalized();
    ShortAddressMatches();
    NormalizedAddressAccepted(" A@B.COM ", "a@b.com");
  }

  lemma NoAtSign()
    ensures Count("not-an-email", '@') == 0
  {
    CountZero("not-an-email", '@');
  }

  lemma NotAnEmailNormalized()
    ensures Email.Normalize("not-an-email") == "not-an-email"
  {
    StripPlain("not-an-email");
    LowerIs("not-an-email", "not-an-email");
  }

  /** Text without an `@` is refused as an invalid address. */
  lemma AddressWithoutAt()
    ensures ValidateEmail(Some("not-an-email")) == Err(EmailInvalid)
  {
    NotAnEmailNormalized();
    NoAtSign();
    NormalizedAddressRejected("not-an-email", "not-an-email");
  }

  /** An identifier no stored employee carries exactly is refused when
      recording attendance and lists nothing. */
  lemma NobodyByThatId(s: Store, raw: string)
    requires Strip(raw) != []
    requires forall i :: 0 <= i < |s.employees| ==> s.employees[i].employeeId != Strip(raw)
    ensures ValidateAttendanceEmployee(s.employees, Some(raw)) == Err(EmployeeNotFound)
    ensures ListAttendance(s, Some(raw)) == Response(200, Records([]))
  {
  }

  /** The duplicate rule ignores case but attendance lookups do not: with
      `E100` stored, `e100` names nobody when recording or listing attendance. */
  lemma AttendanceLookupIsCaseSensitive()
    ensures ValidateAttendanceEmployee([Ann], Some("e100")) == Err(EmployeeNotFound)
    ensures ListAttendance(Store([Ann], []), Some("e100")) == Response(200, Records([]))
  {
    StripPlain("e100");
    assert "E100"[0] != "e100"[0];
    NobodyByThatId(Store([Ann], []), "e100");
  }

  /** Once an employee is gone no remaining employee carries its identifier,
      since identifiers were distinct to begin with. */
  lemma IdentifierGoneAfterDelete(s: Store, i: nat)
    requires Valid(s) && i < |s.employees|
    ensures forall x :: x in CascadeDelete(s, s.employees[i].id).employees ==> x.employeeId != s.employees[i].employeeId
  {
    var e := s.employees[i];
    var s' := CascadeDelete(s, e.id);
    UniqueIdsAreDistinct(s.employees);
    forall x | x in s'.employees ensures x.employeeId != e.employeeId {
      assert multiset(s'.employees)[x] > 0;
      assert x in s.employees && x.id != e.id;
      var j :| 0 <= j < |s.employees| && s.employees[j] == x;
      assert j != i;
    }
  }

  /** After an employee is deleted, listing attendance by its identifier
      yields nothing: its records went with it and no other employee can
      carry the same identifier. */
  lemma DeletedEmployeeHasNoAttendance(s: Store, i: nat)
    requires Valid(s) && i < |s.employees|
    ensures var e := s.employees[i];
      ListAttendance(DeleteEmployee(s, e.id).1, Some(e.employeeId)) == Response(200, Records([]))
  {
    var e := s.employees[i];
    assert e.id in Pks(s.employees);
    var s' := CascadeDelete(s, e.id);
    assert WellFormedEmployee(e);
    StripPlain(e.employeeId);
    IdentifierGoneAfterDelete(s, i);
    assert forall k :: 0 <= k < |s'.employees| ==> s'.employees[k] in s'.employees;
    NobodyByThatId(s', e.employeeId);
  }
}
