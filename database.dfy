/**
 * The two tables the backend routes read and write, standing in for the SQLAlchemy
 * session: `employees` and `attendance` rows, plus the counters from which the
 * database hands out the auto-incremented primary keys (`id`).
 */
module Database {
  import opened Wrappers
  import opened Text

  /** A calendar date, as a day number (only its order matters). */
  type Date = int

  /** `AttendanceStatus`: the two values a record may hold. */
  datatype Status = Present | Absent {
    /** The enum's value, as sent and received over JSON. */
    function Name(): string {
      match this
      case Present => "Present"
      case Absent => "Absent"
    }
  }

  datatype Employee = Employee(id: nat, employeeId: string, fullName: string, email: string, department: string)

  datatype AttendanceRecord = AttendanceRecord(id: nat, employeeId: string, date: Date, status: Status)

  /** `HTTPException(status_code, detail)`. */
  datatype HttpError = HttpError(code: int, detail: string)

  /** The 404 every route raises for an unknown employee. */
  function EmployeeNotFound(employeeId: string): (e: HttpError)
    ensures e.code == 404
    ensures IsSubstring(employeeId, e.detail)
  {
    assert OccursAt(employeeId, "Employee with ID '" + employeeId + "' not found", |"Employee with ID '"|);
    HttpError(404, "Employee with ID '" + employeeId + "' not found")
  }

  /** Index of the first employee with the given `employee_id` (`.filter(...).first()`). */
  function FindEmployeeIndex(emps: seq<Employee>, employeeId: string): (r: Option<nat>)
    ensures r.Some? ==> r.value < |emps| && emps[r.value].employeeId == employeeId
    ensures r.Some? ==> forall k :: 0 <= k < r.value ==> emps[k].employeeId != employeeId
    ensures r.None? <==> forall k :: 0 <= k < |emps| ==> emps[k].employeeId != employeeId
  {
    if emps == [] then None
    else if emps[0].employeeId == employeeId then Some(0)
    else match FindEmployeeIndex(emps[1..], employeeId)
      case None => None
      case Some(k) => Some(k + 1)
  }

  /** The employee with the given `employee_id`, if any. */
  function FindEmployee(emps: seq<Employee>, employeeId: string): (r: Option<Employee>)
    ensures r.Some? ==> r.value in emps && r.value.employeeId == employeeId
    ensures r.None? <==> forall e :: e in emps ==> e.employeeId != employeeId
  {
    match FindEmployeeIndex(emps, employeeId)
    case None => None
    case Some(k) => Some(emps[k])
  }

  predicate HasEmployee(emps: seq<Employee>, employeeId: string) {
    FindEmployee(emps, employeeId).Some?
  }

  /** No two employees share an `employee_id` (a unique column). */
  predicate UniqueEmployeeIds(emps: seq<Employee>) {
    forall i, j :: 0 <= i < j < |emps| ==> emps[i].employeeId != emps[j].employeeId
  }

  /** No two employees share an email (a unique column). */
  predicate UniqueEmails(emps: seq<Employee>) {
    forall i, j :: 0 <= i < j < |emps| ==> emps[i].email != emps[j].email
  }

  /** Rows appear in the order of their primary keys, all below the next key to hand out. */
  predicate EmployeeRowIds(emps: seq<Employee>, next: nat) {
    && (forall i, j :: 0 <= i < j < |emps| ==> emps[i].id < emps[j].id)
    && (forall k :: 0 <= k < |emps| ==> emps[k].id < next)
  }

  predicate AttendanceRowIds(recs: seq<AttendanceRecord>, next: nat) {
    && (forall i, j :: 0 <= i < j < |recs| ==> recs[i].id < recs[j].id)
    && (forall k :: 0 <= k < |recs| ==> recs[k].id < next)
  }

  /** At most one record per (employee_id, date). */
  predicate UniqueAttendanceKeys(recs: seq<AttendanceRecord>) {
    forall i, j :: 0 <= i < j < |recs| ==>
      recs[i].employeeId != recs[j].employeeId || recs[i].date != recs[j].date
  }

  /** Every attendance record belongs to a stored employee. */
  predicate RecordsBelongToEmployees(emps: seq<Employee>, recs: seq<AttendanceRecord>) {
    forall k :: 0 <= k < |recs| ==> HasEmployee(emps, recs[k].employeeId)
  }

  /** The database behind the routes. */
  class Db {
    var employees: seq<Employee>
    var attendance: seq<AttendanceRecord>
    var nextEmployeeRowId: nat
    var nextAttendanceRowId: nat

    /** The table constraints the routes keep. */
    ghost predicate Valid()
      reads this
    {
      && UniqueEmployeeIds(employees)
      && UniqueEmails(employees)
      && EmployeeRowIds(employees, nextEmployeeRowId)
      && UniqueAttendanceKeys(attendance)
      && AttendanceRowIds(attendance, nextAttendanceRowId)
    }

    /** Freshly created, empty tables. */
    constructor ()
      ensures Valid()
      ensures employees == [] && attendance == []
    {
      employees, attendance := [], [];
      nextEmployeeRowId, nextAttendanceRowId := 1, 1;
    }
  }
}
