/**
 * The request-body validators of `EmployeeCreate` and `AttendanceCreate`.
 * Each validator either returns the (normalised) value or fails with its message;
 * the request bodies are accepted only when every field validator accepts.
 */
module Schemas {
  import opened Wrappers
  import opened Text
  import opened EmailPattern
  import opened Database

  /** An `EmployeeCreate` body after validation. */
  datatype EmployeeCreate = EmployeeCreate(employeeId: string, fullName: string, email: string, department: string)

  /** An `AttendanceCreate` body after validation (the date is already parsed). */
  datatype AttendanceCreate = AttendanceCreate(employeeId: string, date: Date, status: Status)

  /** The shape shared by the required-text validators: blank fails, otherwise strip. */
  function RequireText(v: string, message: string): (r: Result<string, string>)
    ensures r.Err? <==> IsBlank(v)
    ensures r.Err? ==> r.error == message
    ensures r.Ok? ==> r.value == Strip(v) && r.value != [] && NoSurroundingSpace(r.value)
  {
    if v == [] || Strip(v) == [] then Err(message) else Ok(Strip(v))
  }

  /** Validating an accepted value again returns it unchanged. */
  lemma RequireTextIdempotent(v: string, message: string)
    requires RequireText(v, message).Ok?
    ensures RequireText(RequireText(v, message).value, message) == RequireText(v, message)
  {
    StripIdempotent(v);
  }

  function ValidateEmployeeId(v: string): (r: Result<string, string>)
    ensures r.Err? <==> IsBlank(v)
    ensures r.Err? ==> r.error == "Employee ID is required"
    ensures r.Ok? ==> r.value == Strip(v) && r.value != []
  {
    RequireText(v, "Employee ID is required")
  }

  function ValidateFullName(v: string): (r: Result<string, string>)
    ensures r.Err? <==> IsBlank(v)
    ensures r.Err? ==> r.error == "Full name is required"
    ensures r.Ok? ==> r.value == Strip(v) && r.value != []
  {
    RequireText(v, "Full name is required")
  }

  function ValidateDepartment(v: string): (r: Result<string, string>)
    ensures r.Err? <==> IsBlank(v)
    ensures r.Err? ==> r.error == "Department is required"
    ensures r.Ok? ==> r.value == Strip(v) && r.value != []
  {
    RequireText(v, "Department is required")
  }

  /** `AttendanceCreate.employee_id`: the same rule as for employees. */
  function ValidateAttendanceEmployeeId(v: string): (r: Result<string, string>)
    ensures r.Err? <==> IsBlank(v)
    ensures r.Err? ==> r.error == "Employee ID is required"
    ensures r.Ok? ==> r.value == Strip(v) && r.value != []
  {
    RequireText(v, "Employee ID is required")
  }

  /**
   * Strips and lower-cases, then requires the pattern. An accepted address is
   * lower-case, has no whitespace and holds exactly one '@'.
   */
  function ValidateEmail(v: string): (r: Result<string, string>)
    ensures IsBlank(v) ==> r == Err("Email is required")
    ensures !IsBlank(v) ==> (r.Ok? <==> MatchesPattern(Lower(Strip(v))))
    ensures !IsBlank(v) && r.Err? ==> r.error == "Invalid email format"
    ensures r.Ok? ==> r.value == Lower(Strip(v))
    ensures r.Ok? ==> IsEmail(r.value) && NoUpper(r.value) && NoSpace(r.value)
    ensures r.Ok? ==> multiset(r.value)['@'] == 1
  {
    if v == [] || Strip(v) == [] then Err("Email is required")
    else
      var n := Lower(Strip(v));
      IsEmailMatchesPattern(n);
      if IsEmail(n) then
        OneAt(n);
        NoSpaceInEmail(n);
        Ok(n)
      else
        Err("Invalid email format")
  }

  /** An accepted address validates to itself. */
  lemma ValidateEmailIdempotent(v: string)
    requires ValidateEmail(v).Ok?
    ensures ValidateEmail(ValidateEmail(v).value) == ValidateEmail(v)
  {
    var n := ValidateEmail(v).value;
    NoSpaceInEmail(n);
    StripKeeps(n);
    LowerKeeps(n);
    IsEmailMatchesPattern(n);
  }

  /** Exactly "Present" or "Absent", case-sensitive and untrimmed, returned unchanged. */
  function ValidateStatus(v: string): (r: Result<Status, string>)
    ensures r.Ok? <==> v == "Present" || v == "Absent"
    ensures r.Ok? ==> r.value.Name() == v
    ensures r.Err? ==> r.error == "Status must be 'Present' or 'Absent'"
  {
    if v == "Present" then Ok(Present)
    else if v == "Absent" then Ok(Absent)
    else Err("Status must be 'Present' or 'Absent'")
  }

  /** The messages of the failed validations, in field order. */
  function Failures(rs: seq<Result<string, string>>): (m: seq<string>)
    ensures |m| <= |rs|
    ensures m == [] <==> forall k :: 0 <= k < |rs| ==> rs[k].Ok?
  {
    if rs == [] then []
    else (if rs[0].Err? then [rs[0].error] else []) + Failures(rs[1..])
  }

  /** What a validated `EmployeeCreate` satisfies. */
  predicate WellFormedEmployee(e: EmployeeCreate) {
    && e.employeeId != [] && NoSurroundingSpace(e.employeeId)
    && e.fullName != [] && NoSurroundingSpace(e.fullName)
    && e.department != [] && NoSurroundingSpace(e.department)
    && IsEmail(e.email) && NoUpper(e.email)
  }

  /** Collects four field results: the body when all are accepted, otherwise every message. */
  function CollectEmployee(id: Result<string, string>, name: Result<string, string>,
                           mail: Result<string, string>, dept: Result<string, string>)
    : (r: Result<EmployeeCreate, seq<string>>)
    ensures r.Ok? <==> id.Ok? && name.Ok? && mail.Ok? && dept.Ok?
    ensures r.Ok? ==> r.value == EmployeeCreate(id.value, name.value, mail.value, dept.value)
    ensures r.Err? ==> r.error != [] && |r.error| <= 4
  {
    if id.Ok? && name.Ok? && mail.Ok? && dept.Ok? then
      Ok(EmployeeCreate(id.value, name.value, mail.value, dept.value))
    else
      var results := [id, name, mail, dept];
      var k := if id.Err? then 0 else if name.Err? then 1 else if mail.Err? then 2 else 3;
      assert results[k].Err?;
      Err(Failures(results))
  }

  /** Runs the four field validators of `EmployeeCreate`. */
  function ValidateEmployeeCreate(employeeId: string, fullName: string, email: string, department: string)
    : (r: Result<EmployeeCreate, seq<string>>)
    ensures r.Ok? <==> !IsBlank(employeeId) && !IsBlank(fullName) && !IsBlank(department)
                       && ValidateEmail(email).Ok?
    ensures r.Ok? ==> WellFormedEmployee(r.value)
    ensures r.Ok? ==> r.value == EmployeeCreate(Strip(employeeId), Strip(fullName), Lower(Strip(email)), Strip(department))
    ensures r.Err? ==> r.error != []
  {
    CollectEmployee(ValidateEmployeeId(employeeId), ValidateFullName(fullName),
                    ValidateEmail(email), ValidateDepartment(department))
  }

  /** A well-formed body passes validation unchanged: validation is idempotent. */
  lemma ValidateEmployeeCreateIdempotent(e: EmployeeCreate)
    requires WellFormedEmployee(e)
    ensures ValidateEmployeeCreate(e.employeeId, e.fullName, e.email, e.department) == Ok(e)
  {
    StripKeeps(e.employeeId);
    StripKeeps(e.fullName);
    StripKeeps(e.department);
    NoSpaceInEmail(e.email);
    StripKeeps(e.email);
    LowerKeeps(e.email);
    IsEmailMatchesPattern(e.email);
  }

  /** Runs the field validators of `AttendanceCreate`. */
  function ValidateAttendanceCreate(employeeId: string, date: Date, status: string)
    : (r: Result<AttendanceCreate, seq<string>>)
    ensures r.Ok? <==> !IsBlank(employeeId) && (status == "Present" || status == "Absent")
    ensures r.Ok? ==> r.value.employeeId == Strip(employeeId) && r.value.employeeId != []
    ensures r.Ok? ==> r.value.date == date && r.value.status.Name() == status
    ensures r.Err? ==> r.error != []
  {
    var id := ValidateAttendanceEmployeeId(employeeId);
    var st := ValidateStatus(status);
    if id.Ok? && st.Ok? then Ok(AttendanceCreate(id.value, date, st.value))
    else Err((if id.Err? then [id.error] else []) + (if st.Err? then [st.error] else []))
  }
}
