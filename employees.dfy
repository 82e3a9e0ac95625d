/**
 * The `/api/employees` routes as operations on the employee table.
 */
module EmployeeRoutes {
  import opened Wrappers
  import opened Seqs
  import opened Database
  import opened Schemas

  /** The primary key, the ordering column of the listing. */
  function RowId(e: Employee): int {
    e.id
  }

  /** GET /api/employees/: every stored employee, ordered by primary key, largest first. */
  function GetAllEmployees(emps: seq<Employee>): (r: seq<Employee>)
    ensures multiset(r) == multiset(emps)
    ensures SortedDesc(r, RowId)
  {
    SortDesc(emps, RowId)
  }

  /** Since primary keys are distinct, the listing is strictly newest first. */
  lemma GetAllEmployeesNewestFirst(emps: seq<Employee>, next: nat)
    requires EmployeeRowIds(emps, next)
    ensures forall i, j :: 0 <= i < j < |GetAllEmployees(emps)| ==>
      GetAllEmployees(emps)[i].id > GetAllEmployees(emps)[j].id
  {
    var r := GetAllEmployees(emps);
    assert NoDuplicates(emps);
    PermutationKeepsNoDuplicates(emps, r);
    forall i, j | 0 <= i < j < |r| ensures r[i].id > r[j].id {
      assert r[i] in multiset(emps) && r[j] in multiset(emps);
      var a :| 0 <= a < |emps| && emps[a] == r[i];
      var b :| 0 <= b < |emps| && emps[b] == r[j];
      assert a != b;
    }
  }

  /** GET /api/employees/{employee_id}. */
  function GetEmployee(emps: seq<Employee>, employeeId: string): (r: Result<Employee, HttpError>)
    ensures r.Ok? ==> r.value in emps && r.value.employeeId == employeeId
    ensures r.Err? <==> forall e :: e in emps ==> e.employeeId != employeeId
    ensures r.Err? ==> r.error == EmployeeNotFound(employeeId)
  {
    match FindEmployee(emps, employeeId)
    case None => Err(EmployeeNotFound(employeeId))
    case Some(e) => Ok(e)
  }

  function IdConflict(employeeId: string): HttpError {
    HttpError(409, "Employee with ID '" + employeeId + "' already exists")
  }

  function EmailConflict(email: string): HttpError {
    HttpError(409, "Employee with email '" + email + "' already exists")
  }

  predicate HasEmail(emps: seq<Employee>, email: string) {
    exists k | 0 <= k < |emps| :: emps[k].email == email
  }

  /** Appending a row whose employee_id and email are both new keeps both columns unique. */
  lemma AppendKeepsUnique(emps: seq<Employee>, e: Employee)
    requires UniqueEmployeeIds(emps) && UniqueEmails(emps)
    requires !HasEmployee(emps, e.employeeId) && !HasEmail(emps, e.email)
    ensures UniqueEmployeeIds(emps + [e]) && UniqueEmails(emps + [e])
  {
    var r := emps + [e];
    forall i, j | 0 <= i < j < |r| ensures r[i].employeeId != r[j].employeeId && r[i].email != r[j].email {
      if j == |emps| {
        assert r[i] in emps;
      }
    }
  }

  /**
   * POST /api/employees/: the employee_id check comes first, then the email check;
   * a rejected request leaves the table as it was.
   */
  method CreateEmployee(db: Db, employee: EmployeeCreate) returns (res: Result<Employee, HttpError>)
    requires db.Valid()
    modifies db
    ensures db.Valid()
    ensures db.attendance == old(db.attendance) && db.nextAttendanceRowId == old(db.nextAttendanceRowId)
    ensures HasEmployee(old(db.employees), employee.employeeId) ==>
      res == Err(IdConflict(employee.employeeId)) && unchanged(db)
    ensures !HasEmployee(old(db.employees), employee.employeeId) && HasEmail(old(db.employees), employee.email) ==>
      res == Err(EmailConflict(employee.email)) && unchanged(db)
    ensures !HasEmployee(old(db.employees), employee.employeeId) && !HasEmail(old(db.employees), employee.email) ==>
      && res == Ok(Employee(old(db.nextEmployeeRowId), employee.employeeId, employee.fullName, employee.email, employee.department))
      && db.employees == old(db.employees) + [res.value]
      && db.nextEmployeeRowId == old(db.nextEmployeeRowId) + 1
  {
    if FindEmployee(db.employees, employee.employeeId).Some? {
      return Err(IdConflict(employee.employeeId));
    }
    if HasEmail(db.employees, employee.email) {
      return Err(EmailConflict(employee.email));
    }
    var row := Employee(db.nextEmployeeRowId, employee.employeeId, employee.fullName, employee.email, employee.department);
    AppendKeepsUnique(db.employees, row);
    db.employees := db.employees + [row];
    db.nextEmployeeRowId := db.nextEmployeeRowId + 1;
    res := Ok(row);
  }

  /** The table after `db.delete(employee)`: the first row with that employee_id is gone. */
  function RemoveEmployee(emps: seq<Employee>, employeeId: string): (r: seq<Employee>)
    ensures IsSubsequence(r, emps)
  {
    match FindEmployeeIndex(emps, employeeId)
    case None =>
      assert Filter(emps, (e: Employee) => true) == emps by {
        FilterKeepsAll(emps, (e: Employee) => true);
      }
      FilterIsSubsequence(emps, (e: Employee) => true);
      emps
    case Some(i) =>
      RemoveAtIsSubsequence(emps, i);
      emps[..i] + emps[i + 1..]
  }

  lemma {:induction false} RemoveAtIsSubsequence(s: seq<Employee>, i: nat)
    requires i < |s|
    ensures IsSubsequence(s[..i] + s[i + 1..], s)
  {
    if i == 0 {
      assert s[..0] + s[1..] == s[1..];
      SelfSubsequence(s[1..]);
    } else {
      RemoveAtIsSubsequence(s[1..], i - 1);
      assert (s[..i] + s[i + 1..])[1..] == s[1..][..i - 1] + s[1..][i..];
    }
  }

  lemma {:induction false} SelfSubsequence(s: seq<Employee>)
    ensures IsSubsequence(s, s)
  {
    if s != [] {
      SelfSubsequence(s[1..]);
    }
  }

  /** Element `a` of the table with row `i` removed is row `a` or `a + 1` of the original. */
  lemma RemoveAtIndex(s: seq<Employee>, i: nat, r: seq<Employee>)
    requires i < |s| && r == s[..i] + s[i + 1..]
    ensures |r| == |s| - 1
    ensures forall a :: 0 <= a < i ==> r[a] == s[a]
    ensures forall a :: i <= a < |r| ==> r[a] == s[a + 1]
  {
  }

  /**
   * With unique employee_ids, deleting a stored employee removes exactly that employee:
   * one row fewer, and every other row is still there.
   */
  lemma RemoveEmployeeExact(emps: seq<Employee>, employeeId: string)
    requires UniqueEmployeeIds(emps) && HasEmployee(emps, employeeId)
    ensures |RemoveEmployee(emps, employeeId)| == |emps| - 1
    ensures forall e :: e in RemoveEmployee(emps, employeeId) <==> e in emps && e.employeeId != employeeId
  {
    var i := FindEmployeeIndex(emps, employeeId).value;
    var r := RemoveEmployee(emps, employeeId);
    RemoveAtIndex(emps, i, r);
    forall e | e in emps && e.employeeId != employeeId ensures e in r {
      var k :| 0 <= k < |emps| && emps[k] == e;
      assert r[if k < i then k else k - 1] == e;
    }
    forall e | e in r ensures e in emps && e.employeeId != employeeId {
      var a :| 0 <= a < |r| && r[a] == e;
      var k := if a < i then a else a + 1;
      assert emps[k] == e && k != i;
    }
  }

  /** Removing a row keeps every table constraint of the employee table. */
  lemma RemoveEmployeeKeepsInvariant(emps: seq<Employee>, employeeId: string, next: nat)
    requires UniqueEmployeeIds(emps) && UniqueEmails(emps) && EmployeeRowIds(emps, next)
    ensures var r := RemoveEmployee(emps, employeeId);
      UniqueEmployeeIds(r) && UniqueEmails(r) && EmployeeRowIds(r, next)
  {
    var r := RemoveEmployee(emps, employeeId);
    match FindEmployeeIndex(emps, employeeId)
    case None =>
    case Some(i) =>
      RemoveAtIndex(emps, i, r);
      forall a, b | 0 <= a < b < |r|
        ensures r[a].employeeId != r[b].employeeId && r[a].email != r[b].email && r[a].id < r[b].id
      {
        var a', b' := if a < i then a else a + 1, if b < i then b else b + 1;
        assert r[a] == emps[a'] && r[b] == emps[b'] && a' < b';
      }
      forall a | 0 <= a < |r| ensures r[a].id < next {
        assert r[a] == emps[if a < i then a else a + 1];
      }
  }

  /** After a successful delete, looking the employee up again fails with 404. */
  lemma GetAfterDeleteIsNotFound(emps: seq<Employee>, employeeId: string)
    requires UniqueEmployeeIds(emps) && HasEmployee(emps, employeeId)
    ensures GetEmployee(RemoveEmployee(emps, employeeId), employeeId) == Err(EmployeeNotFound(employeeId))
  {
    RemoveEmployeeExact(emps, employeeId);
  }

  /** DELETE /api/employees/{employee_id}. */
  method DeleteEmployee(db: Db, employeeId: string) returns (res: Result<string, HttpError>)
    requires db.Valid()
    modifies db`employees
    ensures db.Valid()
    ensures !HasEmployee(old(db.employees), employeeId) ==>
      res == Err(EmployeeNotFound(employeeId)) && db.employees == old(db.employees)
    ensures HasEmployee(old(db.employees), employeeId) ==>
      && res == Ok("Employee '" + employeeId + "' deleted successfully")
      && db.employees == RemoveEmployee(old(db.employees), employeeId)
  {
    if FindEmployee(db.employees, employeeId).None? {
      return Err(EmployeeNotFound(employeeId));
    }
    var remaining := RemoveEmployee(db.employees, employeeId);
    RemoveEmployeeKeepsInvariant(db.employees, employeeId, db.nextEmployeeRowId);
    db.employees := remaining;
    res := Ok("Employee '" + employeeId + "' deleted successfully");
  }
}
