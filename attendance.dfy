/**
 * The `/api/attendance` routes: filtered listings, the per-employee summary and
 * `mark_attendance`, an upsert on the attendance table keyed by (employee_id, date).
 */
module AttendanceRoutes {
  import opened Wrappers
  import opened Seqs
  import opened Database
  import opened Schemas

  /** The ordering column of the listings. */
  function RecordDate(r: AttendanceRecord): int {
    r.date
  }

  /** The `WHERE` clause built from the optional query parameters. */
  predicate MatchesQuery(r: AttendanceRecord, employeeId: Option<string>, startDate: Option<Date>, endDate: Option<Date>) {
    && (employeeId.Some? ==> r.employeeId == employeeId.value)
    && (startDate.Some? ==> r.date >= startDate.value)
    && (endDate.Some? ==> r.date <= endDate.value)
  }

  /** The records passing the filters, ordered by date, latest first. */
  function Select(recs: seq<AttendanceRecord>, employeeId: Option<string>, startDate: Option<Date>, endDate: Option<Date>)
    : (r: seq<AttendanceRecord>)
    ensures SortedDesc(r, RecordDate)
    ensures forall x :: multiset(r)[x] == if MatchesQuery(x, employeeId, startDate, endDate) then multiset(recs)[x] else 0
    ensures |r| <= |recs|
  {
    var p := (x: AttendanceRecord) => MatchesQuery(x, employeeId, startDate, endDate);
    assert forall x :: multiset(Filter(recs, p))[x] == if p(x) then multiset(recs)[x] else 0 by {
      forall x ensures multiset(Filter(recs, p))[x] == if p(x) then multiset(recs)[x] else 0 {
        FilterMultiset(recs, p, x);
      }
    }
    SortDesc(Filter(recs, p), RecordDate)
  }

  /** `if employee_id:` — an absent or empty parameter does not filter by employee. */
  function IdFilter(employeeId: Option<string>): (r: Option<string>)
    ensures r.Some? <==> employeeId.Some? && employeeId.value != []
    ensures r.Some? ==> r == employeeId
  {
    if employeeId.Some? && employeeId.value != [] then employeeId else None
  }

  /**
   * GET /api/attendance/: an absent or empty employee_id parameter does not filter;
   * each date bound filters when given. Every matching record is returned as often
   * as it is stored, and nothing else.
   */
  function GetAllAttendance(recs: seq<AttendanceRecord>, employeeId: Option<string>, startDate: Option<Date>, endDate: Option<Date>)
    : (r: seq<AttendanceRecord>)
    ensures SortedDesc(r, RecordDate)
    ensures forall x :: x in r <==>
      && x in recs
      && (employeeId.Some? && employeeId.value != [] ==> x.employeeId == employeeId.value)
      && (startDate.Some? ==> x.date >= startDate.value)
      && (endDate.Some? ==> x.date <= endDate.value)
    ensures forall x :: multiset(r)[x] == (if MatchesQuery(x, IdFilter(employeeId), startDate, endDate) then multiset(recs)[x] else 0)
    ensures |r| <= |recs|
  {
    var filter := IdFilter(employeeId);
    var r := Select(recs, filter, startDate, endDate);
    assert forall x :: x in r <==> x in recs && MatchesQuery(x, filter, startDate, endDate) by {
      forall x ensures x in r <==> x in recs && MatchesQuery(x, filter, startDate, endDate) {
        assert x in r <==> multiset(r)[x] > 0;
        assert x in recs <==> multiset(recs)[x] > 0;
      }
    }
    r
  }

  /** GET /api/attendance/employee/{employee_id}: 404 first, then that employee's filtered records. */
  function GetEmployeeAttendance(emps: seq<Employee>, recs: seq<AttendanceRecord>, employeeId: string,
                                 startDate: Option<Date>, endDate: Option<Date>)
    : (r: Result<seq<AttendanceRecord>, HttpError>)
    ensures r.Err? <==> !HasEmployee(emps, employeeId)
    ensures r.Err? ==> r.error == EmployeeNotFound(employeeId)
    ensures r.Ok? ==> SortedDesc(r.value, RecordDate)
    ensures r.Ok? ==> forall x :: x in r.value <==> x in recs && MatchesQuery(x, Some(employeeId), startDate, endDate)
    ensures r.Ok? ==> forall x :: multiset(r.value)[x] == (if MatchesQuery(x, Some(employeeId), startDate, endDate) then multiset(recs)[x] else 0)
    ensures r.Ok? ==> |r.value| <= |recs|
  {
    if !HasEmployee(emps, employeeId) then Err(EmployeeNotFound(employeeId))
    else
      var s := Select(recs, Some(employeeId), startDate, endDate);
      assert forall x :: x in s <==> multiset(s)[x] > 0;
      assert forall x :: x in recs <==> multiset(recs)[x] > 0;
      Ok(s)
  }

  /** For a stored employee with a non-empty id, the per-employee listing equals the filtered global one. */
  lemma EmployeeAttendanceIsFilteredListing(emps: seq<Employee>, recs: seq<AttendanceRecord>, employeeId: string,
                                            startDate: Option<Date>, endDate: Option<Date>)
    requires HasEmployee(emps, employeeId) && employeeId != []
    ensures GetEmployeeAttendance(emps, recs, employeeId, startDate, endDate)
         == Ok(GetAllAttendance(recs, Some(employeeId), startDate, endDate))
  {
  }

  /** The records of one employee. */
  function RecordsOf(recs: seq<AttendanceRecord>, employeeId: string): seq<AttendanceRecord> {
    Filter(recs, (r: AttendanceRecord) => r.employeeId == employeeId)
  }

  /** The records holding one status. */
  function WithStatus(recs: seq<AttendanceRecord>, status: Status): seq<AttendanceRecord> {
    Filter(recs, (r: AttendanceRecord) => r.status == status)
  }

  /** Every record is Present or Absent, so the two status counts add up to the whole. */
  lemma {:induction false} StatusCountsPartition(recs: seq<AttendanceRecord>)
    ensures |WithStatus(recs, Present)| + |WithStatus(recs, Absent)| == |recs|
  {
    if recs != [] {
      StatusCountsPartition(recs[1..]);
    }
  }

  datatype AttendanceSummary = AttendanceSummary(
    employeeId: string, employeeName: string, totalPresent: nat, totalAbsent: nat, totalRecords: nat)

  /**
   * GET /api/attendance/employee/{employee_id}/summary: the employee's Present and Absent
   * counts, and their sum, which is the number of that employee's records.
   */
  function GetEmployeeAttendanceSummary(emps: seq<Employee>, recs: seq<AttendanceRecord>, employeeId: string)
    : (r: Result<AttendanceSummary, HttpError>)
    ensures r.Err? <==> !HasEmployee(emps, employeeId)
    ensures r.Err? ==> r.error == EmployeeNotFound(employeeId)
    ensures r.Ok? ==> r.value.employeeId == employeeId
    ensures r.Ok? ==> r.value.employeeName == FindEmployee(emps, employeeId).value.fullName
    ensures r.Ok? ==> r.value.totalPresent == |WithStatus(RecordsOf(recs, employeeId), Present)|
    ensures r.Ok? ==> r.value.totalAbsent == |WithStatus(RecordsOf(recs, employeeId), Absent)|
    ensures r.Ok? ==> r.value.totalRecords == |RecordsOf(recs, employeeId)|
  {
    match FindEmployee(emps, employeeId)
    case None => Err(EmployeeNotFound(employeeId))
    case Some(e) =>
      var own := RecordsOf(recs, employeeId);
      var present := |WithStatus(own, Present)|;
      var absent := |WithStatus(own, Absent)|;
      StatusCountsPartition(own);
      Ok(AttendanceSummary(employeeId, e.fullName, present, absent, present + absent))
  }

  /** Index of the first record with the given key (`.filter(...).first()`). */
  function FindRecordIndex(recs: seq<AttendanceRecord>, employeeId: string, date: Date): (r: Option<nat>)
    ensures r.Some? ==> r.value < |recs| && recs[r.value].employeeId == employeeId && recs[r.value].date == date
    ensures r.Some? ==> forall k :: 0 <= k < r.value ==> recs[k].employeeId != employeeId || recs[k].date != date
    ensures r.None? <==> forall k :: 0 <= k < |recs| ==> recs[k].employeeId != employeeId || recs[k].date != date
  {
    if recs == [] then None
    else if recs[0].employeeId == employeeId && recs[0].date == date then Some(0)
    else match FindRecordIndex(recs[1..], employeeId, date)
      case None => None
      case Some(k) => Some(k + 1)
  }

  /** A matching record with no match before it is the one the lookup finds. */
  lemma FindRecordIndexAt(recs: seq<AttendanceRecord>, employeeId: string, date: Date, i: nat)
    requires i < |recs| && recs[i].employeeId == employeeId && recs[i].date == date
    requires forall k :: 0 <= k < i ==> recs[k].employeeId != employeeId || recs[k].date != date
    ensures FindRecordIndex(recs, employeeId, date) == Some(i)
  {
    var f := FindRecordIndex(recs, employeeId, date);
    assert f.Some?;
    assert !(f.value < i);
    assert !(f.value > i);
  }

  /**
   * The table after marking: the status of the existing record with that key is
   * overwritten, or a new record with row id `freshId` is appended.
   */
  function Upsert(recs: seq<AttendanceRecord>, employeeId: string, date: Date, status: Status, freshId: nat)
    : seq<AttendanceRecord>
  {
    match FindRecordIndex(recs, employeeId, date)
    case Some(i) => recs[i := recs[i].(status := status)]
    case None => recs + [AttendanceRecord(freshId, employeeId, date, status)]
  }

  /** An existing record only has its status overwritten; the count and all other records are unchanged. */
  lemma UpsertExisting(recs: seq<AttendanceRecord>, employeeId: string, date: Date, status: Status, freshId: nat)
    requires FindRecordIndex(recs, employeeId, date).Some?
    ensures var i := FindRecordIndex(recs, employeeId, date).value;
      var r := Upsert(recs, employeeId, date, status, freshId);
      && |r| == |recs|
      && r[i].id == recs[i].id && r[i].employeeId == employeeId && r[i].date == date && r[i].status == status
      && forall k :: 0 <= k < |recs| && k != i ==> r[k] == recs[k]
  {
  }

  /** Without a record for the key, exactly one new record is appended. */
  lemma UpsertNew(recs: seq<AttendanceRecord>, employeeId: string, date: Date, status: Status, freshId: nat)
    requires FindRecordIndex(recs, employeeId, date).None? && AttendanceRowIds(recs, freshId)
    ensures var r := Upsert(recs, employeeId, date, status, freshId);
      && |r| == |recs| + 1
      && r[..|recs|] == recs
      && r[|recs|].employeeId == employeeId && r[|recs|].date == date && r[|recs|].status == status
      && forall k :: 0 <= k < |recs| ==> r[k].id < r[|recs|].id
  {
    var r := Upsert(recs, employeeId, date, status, freshId);
    assert r == recs + [AttendanceRecord(freshId, employeeId, date, status)];
  }

  /** After marking, the key has a record with the marked status. */
  lemma UpsertRecords(recs: seq<AttendanceRecord>, employeeId: string, date: Date, status: Status, freshId: nat)
    ensures var r := Upsert(recs, employeeId, date, status, freshId);
      && FindRecordIndex(r, employeeId, date).Some?
      && r[FindRecordIndex(r, employeeId, date).value].status == status
  {
    var r := Upsert(recs, employeeId, date, status, freshId);
    match FindRecordIndex(recs, employeeId, date)
    case Some(i) =>
      FindRecordIndexAt(r, employeeId, date, i);
    case None =>
      FindRecordIndexAt(r, employeeId, date, |recs|);
  }

  /** Marking keeps "at most one record per (employee_id, date)". */
  lemma UpsertKeepsUniqueKeys(recs: seq<AttendanceRecord>, employeeId: string, date: Date, status: Status, freshId: nat)
    requires UniqueAttendanceKeys(recs)
    ensures UniqueAttendanceKeys(Upsert(recs, employeeId, date, status, freshId))
  {
  }

  /** Marking the same (employee_id, date, status) twice leaves the table as marking it once. */
  lemma UpsertIdempotent(recs: seq<AttendanceRecord>, employeeId: string, date: Date, status: Status, id1: nat, id2: nat)
    ensures var once := Upsert(recs, employeeId, date, status, id1);
      Upsert(once, employeeId, date, status, id2) == once
  {
    var once := Upsert(recs, employeeId, date, status, id1);
    match FindRecordIndex(recs, employeeId, date)
    case Some(i) =>
      FindRecordIndexAt(once, employeeId, date, i);
    case None =>
      FindRecordIndexAt(once, employeeId, date, |recs|);
  }

  /** Marking for a stored employee keeps every record attached to a stored employee. */
  lemma UpsertKeepsOwnership(emps: seq<Employee>, recs: seq<AttendanceRecord>, employeeId: string, date: Date,
                             status: Status, freshId: nat)
    requires RecordsBelongToEmployees(emps, recs) && HasEmployee(emps, employeeId)
    ensures RecordsBelongToEmployees(emps, Upsert(recs, employeeId, date, status, freshId))
  {
  }

  /** POST /api/attendance/: 404 for an unknown employee, otherwise the upsert. */
  method MarkAttendance(db: Db, record: AttendanceCreate) returns (res: Result<AttendanceRecord, HttpError>)
    requires db.Valid()
    modifies db`attendance, db`nextAttendanceRowId
    ensures db.Valid()
    ensures !HasEmployee(db.employees, record.employeeId) ==>
      res == Err(EmployeeNotFound(record.employeeId)) && unchanged(db)
    ensures HasEmployee(db.employees, record.employeeId) ==>
      && db.attendance == Upsert(old(db.attendance), record.employeeId, record.date, record.status, old(db.nextAttendanceRowId))
      && res.Ok? && res.value in db.attendance
      && res.value.employeeId == record.employeeId && res.value.date == record.date && res.value.status == record.status
    ensures HasEmployee(db.employees, record.employeeId) ==>
      db.nextAttendanceRowId == old(db.nextAttendanceRowId)
        + (if FindRecordIndex(old(db.attendance), record.employeeId, record.date).Some? then 0 else 1)
  {
    if FindEmployee(db.employees, record.employeeId).None? {
      return Err(EmployeeNotFound(record.employeeId));
    }
    UpsertKeepsUniqueKeys(db.attendance, record.employeeId, record.date, record.status, db.nextAttendanceRowId);
    var existing := FindRecordIndex(db.attendance, record.employeeId, record.date);
    if existing.Some? {
      var i := existing.value;
      var updated := db.attendance[i].(status := record.status);
      db.attendance := db.attendance[i := updated];
      assert db.attendance[i] == updated;
      return Ok(updated);
    }
    var row := AttendanceRecord(db.nextAttendanceRowId, record.employeeId, record.date, record.status);
    db.attendance := db.attendance + [row];
    db.nextAttendanceRowId := db.nextAttendanceRowId + 1;
    res := Ok(row);
  }
}
