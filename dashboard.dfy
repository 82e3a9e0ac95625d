/**
 * GET /api/dashboard/summary: aggregates over the two tables for a given day
 * (`today` is a parameter instead of a clock read).
 */
module DashboardRoute {
  import opened Wrappers
  import opened Seqs
  import opened Database
  import opened AttendanceRoutes

  /** The records dated `day`. */
  function OnDay(recs: seq<AttendanceRecord>, day: Date): seq<AttendanceRecord> {
    Filter(recs, (r: AttendanceRecord) => r.date == day)
  }

  /** The distinct departments: `COUNT(DISTINCT department)` counts this set. */
  function Departments(emps: seq<Employee>): set<string> {
    set e | e in emps :: e.department
  }

  /** The ids of employees with a record dated `day`. */
  function IdsOnDay(recs: seq<AttendanceRecord>, day: Date): (r: set<string>)
    ensures forall id :: id in r <==> exists k :: 0 <= k < |recs| && recs[k].date == day && recs[k].employeeId == id
  {
    if recs == [] then {}
    else
      var rest := IdsOnDay(recs[1..], day);
      assert forall id :: id in rest <==> exists k :: 1 <= k < |recs| && recs[k].date == day && recs[k].employeeId == id by {
        forall id ensures id in rest <==> exists k :: 1 <= k < |recs| && recs[k].date == day && recs[k].employeeId == id {
          if id in rest {
            var k :| 0 <= k < |recs| - 1 && recs[1..][k].date == day && recs[1..][k].employeeId == id;
            assert recs[k + 1] == recs[1..][k];
          }
          if exists k :: 1 <= k < |recs| && recs[k].date == day && recs[k].employeeId == id {
            var k :| 1 <= k < |recs| && recs[k].date == day && recs[k].employeeId == id;
            assert recs[1..][k - 1] == recs[k];
          }
        }
      }
      (if recs[0].date == day then {recs[0].employeeId} else {}) + rest
  }

  /** With one record per (employee_id, date), the records of a day have distinct employee ids. */
  lemma {:induction false} RecordsOnDayCount(recs: seq<AttendanceRecord>, day: Date)
    requires UniqueAttendanceKeys(recs)
    ensures |IdsOnDay(recs, day)| == |OnDay(recs, day)|
  {
    if recs != [] {
      RecordsOnDayCount(recs[1..], day);
      if recs[0].date == day {
        assert forall k :: 0 <= k < |recs| - 1 ==> recs[1..][k] == recs[k + 1];
        assert recs[0].employeeId !in IdsOnDay(recs[1..], day);
      }
    }
  }

  /** The set of stored employee ids. */
  function EmployeeIds(emps: seq<Employee>): (r: set<string>)
    ensures |r| <= |emps|
    ensures forall id :: id in r <==> HasEmployee(emps, id)
  {
    if emps == [] then {}
    else
      var rest := EmployeeIds(emps[1..]);
      assert forall id :: HasEmployee(emps, id) <==> id == emps[0].employeeId || HasEmployee(emps[1..], id) by {
        forall id ensures HasEmployee(emps, id) <==> id == emps[0].employeeId || HasEmployee(emps[1..], id) {
          if HasEmployee(emps[1..], id) {
            assert FindEmployee(emps[1..], id).value in emps;
          }
          if id != emps[0].employeeId && HasEmployee(emps, id) {
            var e := FindEmployee(emps, id).value;
            assert e in emps[1..];
          }
        }
      }
      {emps[0].employeeId} + rest
  }

  /**
   * When every record belongs to a stored employee and there is at most one record
   * per (employee_id, date), a day has no more records than there are employees.
   */
  lemma RecordsOnDayBounded(emps: seq<Employee>, recs: seq<AttendanceRecord>, day: Date)
    requires RecordsBelongToEmployees(emps, recs) && UniqueAttendanceKeys(recs)
    ensures |OnDay(recs, day)| <= |emps|
  {
    RecordsOnDayCount(recs, day);
    var ids := IdsOnDay(recs, day);
    var all := EmployeeIds(emps);
    assert ids <= all;
    SubsetCard(ids, all);
  }

  lemma SubsetCard(a: set<string>, b: set<string>)
    requires a <= b
    ensures |a| <= |b|
  {
    assert b == a + (b - a);
  }

  datatype DepartmentStat = DepartmentStat(department: string, count: nat)

  /** The departments named in a list of statistics. */
  function StatNames(stats: seq<DepartmentStat>): (r: set<string>)
    ensures forall k :: 0 <= k < |stats| ==> stats[k].department in r
  {
    if stats == [] then {}
    else
      assert forall k :: 1 <= k < |stats| ==> stats[k] == stats[1..][k - 1];
      {stats[0].department} + StatNames(stats[1..])
  }

  function SumCounts(stats: seq<DepartmentStat>): nat {
    if stats == [] then 0 else stats[0].count + SumCounts(stats[1..])
  }

  /** The count recorded for `d`, or 0 when `d` has no entry. */
  function CountOf(stats: seq<DepartmentStat>, d: string): nat {
    if stats == [] then 0
    else if stats[0].department == d then stats[0].count
    else CountOf(stats[1..], d)
  }

  predicate DistinctNames(stats: seq<DepartmentStat>) {
    forall i, j :: 0 <= i < j < |stats| ==> stats[i].department != stats[j].department
  }

  /** Counts one more employee of department `d`: bump its entry, or add one with count 1. */
  function Bump(stats: seq<DepartmentStat>, d: string): (r: seq<DepartmentStat>)
    ensures SumCounts(r) == SumCounts(stats) + 1
  {
    if stats == [] then [DepartmentStat(d, 1)]
    else if stats[0].department == d then
      var r := [stats[0].(count := stats[0].count + 1)] + stats[1..];
      assert r[1..] == stats[1..];
      r
    else
      var r := [stats[0]] + Bump(stats[1..], d);
      assert r[1..] == Bump(stats[1..], d);
      r
  }

  /** Bumping names `d` and keeps every other name. */
  lemma {:induction false} BumpNames(stats: seq<DepartmentStat>, d: string)
    ensures StatNames(Bump(stats, d)) == StatNames(stats) + {d}
  {
    if stats != [] {
      if stats[0].department != d {
        BumpNames(stats[1..], d);
        assert Bump(stats, d)[1..] == Bump(stats[1..], d);
      } else {
        assert Bump(stats, d)[1..] == stats[1..];
      }
    }
  }

  /** Bumping adds one to the count of `d` and leaves the other counts alone. */
  lemma {:induction false} BumpCount(stats: seq<DepartmentStat>, d: string, x: string)
    requires DistinctNames(stats)
    ensures CountOf(Bump(stats, d), x) == CountOf(stats, x) + (if x == d then 1 else 0)
  {
    if stats != [] {
      if stats[0].department != d {
        BumpCount(stats[1..], d, x);
        assert Bump(stats, d)[1..] == Bump(stats[1..], d);
      } else {
        assert Bump(stats, d)[1..] == stats[1..];
        if x != d {
          assert CountOf(Bump(stats, d), x) == CountOf(stats[1..], x);
        }
      }
    }
  }

  /** Bumping keeps the entries' departments distinct. */
  lemma {:induction false} BumpDistinct(stats: seq<DepartmentStat>, d: string)
    requires DistinctNames(stats)
    ensures DistinctNames(Bump(stats, d))
  {
    if stats != [] && stats[0].department != d {
      BumpDistinct(stats[1..], d);
      BumpNames(stats[1..], d);
      var r := Bump(stats, d);
      assert r == [stats[0]] + Bump(stats[1..], d);
      assert stats[0].department !in StatNames(stats[1..]) by {
        assert forall k :: 0 <= k < |stats| - 1 ==> stats[1..][k] == stats[k + 1];
        AbsentName(stats[1..], stats[0].department);
      }
      assert stats[0].department !in StatNames(Bump(stats[1..], d));
      forall i, j | 0 <= i < j < |r| ensures r[i].department != r[j].department {
        if i == 0 {
          assert r[j] == Bump(stats[1..], d)[j - 1];
        } else {
          assert r[i] == Bump(stats[1..], d)[i - 1] && r[j] == Bump(stats[1..], d)[j - 1];
        }
      }
    }
  }

  /** The count of a department absent from the list is zero. */
  lemma {:induction false} NoEntryCountsZero(stats: seq<DepartmentStat>, d: string)
    requires d !in StatNames(stats)
    ensures CountOf(stats, d) == 0
  {
    if stats != [] {
      NoEntryCountsZero(stats[1..], d);
    }
  }

  /** A department that no entry names is not among the names. */
  lemma {:induction false} AbsentName(stats: seq<DepartmentStat>, d: string)
    requires forall k :: 0 <= k < |stats| ==> stats[k].department != d
    ensures d !in StatNames(stats)
  {
    if stats != [] {
      assert forall k :: 0 <= k < |stats| - 1 ==> stats[1..][k] == stats[k + 1];
      AbsentName(stats[1..], d);
    }
  }

  /** The department of each name's entry, read back from a list with distinct names. */
  lemma {:induction false} DistinctCountOf(stats: seq<DepartmentStat>, k: nat)
    requires DistinctNames(stats) && k < |stats|
    ensures CountOf(stats, stats[k].department) == stats[k].count
  {
    if k > 0 {
      assert stats[1..][k - 1] == stats[k];
      DistinctCountOf(stats[1..], k - 1);
    }
  }

  /** With distinct names there are as many names as entries. */
  lemma {:induction false} DistinctNamesCard(stats: seq<DepartmentStat>)
    requires DistinctNames(stats)
    ensures |StatNames(stats)| == |stats|
  {
    if stats != [] {
      DistinctNamesCard(stats[1..]);
      assert forall k :: 0 <= k < |stats| - 1 ==> stats[1..][k] == stats[k + 1];
      AbsentName(stats[1..], stats[0].department);
    }
  }

  function SameDepartment(d: string): Employee -> bool {
    (e: Employee) => e.department == d
  }

  /** The employees of department `d`. */
  function InDepartment(emps: seq<Employee>, d: string): seq<Employee> {
    Filter(emps, SameDepartment(d))
  }

  /**
   * `GROUP BY department` with `COUNT(id)`: one entry per department, in order of
   * first appearance.
   */
  function GroupByDepartment(emps: seq<Employee>): seq<DepartmentStat> {
    if emps == [] then []
    else Bump(GroupByDepartment(emps[..|emps| - 1]), emps[|emps| - 1].department)
  }

  /** Adding one employee adds their department to the set of departments. */
  lemma DepartmentsSnoc(init: seq<Employee>, last: Employee)
    ensures Departments(init + [last]) == Departments(init) + {last.department}
  {
    var emps := init + [last];
    forall d | d in Departments(emps) ensures d in Departments(init) + {last.department} {
      var e :| e in emps && e.department == d;
      if e != last {
        assert e in init;
      }
    }
    forall d | d in Departments(init) ensures d in Departments(emps) {
      var e :| e in init && e.department == d;
      assert e in emps;
    }
    assert last in emps;
  }

  /** The group-by has distinct departments, exactly the employees' departments. */
  lemma {:induction false} GroupByDepartmentNames(emps: seq<Employee>)
    ensures DistinctNames(GroupByDepartment(emps))
    ensures StatNames(GroupByDepartment(emps)) == Departments(emps)
  {
    if emps != [] {
      var init, last := emps[..|emps| - 1], emps[|emps| - 1];
      GroupByDepartmentNames(init);
      BumpNames(GroupByDepartment(init), last.department);
      BumpDistinct(GroupByDepartment(init), last.department);
      assert emps == init + [last];
      DepartmentsSnoc(init, last);
    }
  }

  /** The group-by has one entry per distinct department. */
  lemma GroupByDepartmentSize(emps: seq<Employee>)
    ensures |GroupByDepartment(emps)| == |Departments(emps)|
  {
    GroupByDepartmentNames(emps);
    DistinctNamesCard(GroupByDepartment(emps));
  }

  /** The counts of the group-by sum to the number of employees. */
  lemma {:induction false} GroupByDepartmentSum(emps: seq<Employee>)
    ensures SumCounts(GroupByDepartment(emps)) == |emps|
  {
    if emps != [] {
      GroupByDepartmentSum(emps[..|emps| - 1]);
    }
  }

  /** Each department's count is the number of its employees. */
  lemma {:induction false} GroupByDepartmentCounts(emps: seq<Employee>, d: string)
    ensures CountOf(GroupByDepartment(emps), d) == |InDepartment(emps, d)|
  {
    if emps != [] {
      var init, last := emps[..|emps| - 1], emps[|emps| - 1];
      GroupByDepartmentCounts(init, d);
      GroupByDepartmentNames(init);
      BumpCount(GroupByDepartment(init), last.department, d);
      assert emps == init + [last];
      FilterAppend(init, last, SameDepartment(d));
    }
  }

  /** Every entry of the group-by counts exactly the employees of its department. */
  lemma GroupByDepartmentEntries(emps: seq<Employee>)
    ensures forall k :: 0 <= k < |GroupByDepartment(emps)| ==>
      GroupByDepartment(emps)[k].count == |InDepartment(emps, GroupByDepartment(emps)[k].department)|
  {
    var stats := GroupByDepartment(emps);
    GroupByDepartmentNames(emps);
    forall k | 0 <= k < |stats| ensures stats[k].count == |InDepartment(emps, stats[k].department)| {
      DistinctCountOf(stats, k);
      GroupByDepartmentCounts(emps, stats[k].department);
    }
  }

  /** One row of `recent_attendance`: a record joined with its employee's name. */
  datatype RecentEntry = RecentEntry(id: nat, employeeId: string, employeeName: string, date: Date, status: Status)

  function EntryDate(e: RecentEntry): int {
    e.date
  }

  /** The record a joined row was made from. */
  function RecordOf(e: RecentEntry): AttendanceRecord {
    AttendanceRecord(e.id, e.employeeId, e.date, e.status)
  }

  function IsJoinable(emps: seq<Employee>): AttendanceRecord -> bool {
    (r: AttendanceRecord) => HasEmployee(emps, r.employeeId)
  }

  /** A joined row comes from a stored record and carries the full name of that record's employee. */
  predicate JoinedFrom(row: RecentEntry, recs: seq<AttendanceRecord>, emps: seq<Employee>) {
    && RecordOf(row) in recs
    && FindEmployee(emps, row.employeeId).Some?
    && row.employeeName == FindEmployee(emps, row.employeeId).value.fullName
  }

  /**
   * The inner join of records with employees on `employee_id`, keeping the
   * order of the records; a record without an employee is dropped.
   */
  function Join(recs: seq<AttendanceRecord>, emps: seq<Employee>): (r: seq<RecentEntry>)
    ensures forall k :: 0 <= k < |r| ==> JoinedFrom(r[k], recs, emps)
  {
    if recs == [] then []
    else
      var rest := Join(recs[1..], emps);
      assert forall k :: 0 <= k < |rest| ==> JoinedFrom(rest[k], recs, emps) by {
        forall k | 0 <= k < |rest| ensures JoinedFrom(rest[k], recs, emps) {
          assert JoinedFrom(rest[k], recs[1..], emps);
          assert recs[1..] <= recs[1..] && RecordOf(rest[k]) in recs;
        }
      }
      match FindEmployee(emps, recs[0].employeeId)
      case None => rest
      case Some(e) =>
        var row := RecentEntry(recs[0].id, recs[0].employeeId, e.fullName, recs[0].date, recs[0].status);
        assert JoinedFrom(row, recs, emps) by {
          assert RecordOf(row) == recs[0];
        }
        var r := [row] + rest;
        assert forall k :: 1 <= k < |r| ==> r[k] == rest[k - 1];
        r
  }

  /** The join keeps exactly the records whose employee exists. */
  lemma {:induction false} JoinCount(recs: seq<AttendanceRecord>, emps: seq<Employee>)
    ensures |Join(recs, emps)| == Count(recs, IsJoinable(emps))
  {
    if recs != [] {
      JoinCount(recs[1..], emps);
      assert Filter(recs, IsJoinable(emps)) ==
        (if IsJoinable(emps)(recs[0]) then [recs[0]] else []) + Filter(recs[1..], IsJoinable(emps));
    }
  }

  /** Joining keeps the date order of the records. */
  lemma {:induction false} JoinKeepsOrder(recs: seq<AttendanceRecord>, emps: seq<Employee>)
    requires SortedDesc(recs, RecordDate)
    ensures SortedDesc(Join(recs, emps), EntryDate)
  {
    if recs != [] {
      JoinKeepsOrder(recs[1..], emps);
      var rest := Join(recs[1..], emps);
      forall k | 0 <= k < |rest| ensures rest[k].date <= recs[0].date {
        assert JoinedFrom(rest[k], recs[1..], emps);
        var m :| 0 <= m < |recs| - 1 && recs[1..][m] == RecordOf(rest[k]);
        assert recs[m + 1] == RecordOf(rest[k]);
      }
      var r := Join(recs, emps);
      if FindEmployee(emps, recs[0].employeeId).Some? {
        assert r[1..] == rest;
        forall i, j | 0 <= i < j < |r| ensures EntryDate(r[i]) >= EntryDate(r[j]) {
          assert r[j] == rest[j - 1];
          if i > 0 {
            assert r[i] == rest[i - 1];
          }
        }
      } else {
        assert r == rest;
      }
    }
  }

  /** Every joinable record has a row in the join. */
  lemma {:induction false} JoinComplete(recs: seq<AttendanceRecord>, emps: seq<Employee>, x: AttendanceRecord)
    requires x in recs && HasEmployee(emps, x.employeeId)
    ensures exists p :: 0 <= p < |Join(recs, emps)| && RecordOf(Join(recs, emps)[p]) == x
  {
    var r := Join(recs, emps);
    var rest := Join(recs[1..], emps);
    if recs[0] == x {
      var e := FindEmployee(emps, x.employeeId).value;
      assert r == [RecentEntry(x.id, x.employeeId, e.fullName, x.date, x.status)] + rest;
      assert RecordOf(r[0]) == x;
    } else {
      assert x in recs[1..];
      JoinComplete(recs[1..], emps, x);
      var p :| 0 <= p < |rest| && RecordOf(rest[p]) == x;
      match FindEmployee(emps, recs[0].employeeId)
      case Some(e) =>
        assert r == [RecentEntry(recs[0].id, recs[0].employeeId, e.fullName, recs[0].date, recs[0].status)] + rest;
        assert r[p + 1] == rest[p];
      case None =>
        assert r == rest;
    }
  }

  /**
   * The `recent_attendance` rows: joined records ordered by date, newest first,
   * cut to the first 10.
   */
  function RecentAttendance(emps: seq<Employee>, recs: seq<AttendanceRecord>): (r: seq<RecentEntry>)
    ensures |r| <= 10
    ensures SortedDesc(r, EntryDate)
    ensures forall k :: 0 <= k < |r| ==> JoinedFrom(r[k], recs, emps)
  {
    var sorted := SortDesc(recs, RecordDate);
    var all := Join(sorted, emps);
    JoinKeepsOrder(sorted, emps);
    var r := Take(all, 10);
    forall k | 0 <= k < |r| ensures JoinedFrom(r[k], recs, emps) {
      JoinedFromPermutation(all[k], sorted, recs, emps);
    }
    r
  }

  /** The list is as long as it can be: ten rows, or every joinable record when there are fewer. */
  lemma RecentAttendanceSize(emps: seq<Employee>, recs: seq<AttendanceRecord>)
    ensures |RecentAttendance(emps, recs)| == Min(10, Count(recs, IsJoinable(emps)))
  {
    var sorted := SortDesc(recs, RecordDate);
    JoinCount(sorted, emps);
    FilterOfPermutation(sorted, recs, IsJoinable(emps));
  }

  lemma JoinedFromPermutation(row: RecentEntry, s: seq<AttendanceRecord>, t: seq<AttendanceRecord>, emps: seq<Employee>)
    requires JoinedFrom(row, s, emps) && multiset(s) == multiset(t)
    ensures JoinedFrom(row, t, emps)
  {
    assert RecordOf(row) in multiset(s);
  }

  /**
   * `recent_attendance` holds the newest records: a joinable record is either
   * listed or the list is full and no row is older than it.
   */
  lemma RecentAttendanceIsNewest(emps: seq<Employee>, recs: seq<AttendanceRecord>, x: AttendanceRecord)
    requires x in recs && HasEmployee(emps, x.employeeId)
    ensures var r := RecentAttendance(emps, recs);
      (exists k :: 0 <= k < |r| && RecordOf(r[k]) == x) ||
      (|r| == 10 && forall k :: 0 <= k < |r| ==> r[k].date >= x.date)
  {
    var r := RecentAttendance(emps, recs);
    var sorted := SortDesc(recs, RecordDate);
    assert x in multiset(recs);
    assert x in sorted;
    var all := Join(sorted, emps);
    JoinKeepsOrder(sorted, emps);
    JoinComplete(sorted, emps, x);
    var p :| 0 <= p < |all| && RecordOf(all[p]) == x;
    assert r == Take(all, 10);
    if p < |r| {
      assert RecordOf(r[p]) == x;
    } else {
      assert |r| == 10;
      forall k | 0 <= k < |r| ensures r[k].date >= x.date {
        assert r[k] == all[k];
        assert EntryDate(all[k]) >= EntryDate(all[p]);
      }
    }
  }

  /** The response of GET /api/dashboard/summary. */
  datatype DashboardSummary = DashboardSummary(
    totalEmployees: nat,
    departmentCount: nat,
    totalPresentToday: nat,
    totalAbsentToday: nat,
    unmarkedToday: int,
    recentAttendance: seq<RecentEntry>,
    departmentStats: seq<DepartmentStat>)

  /** The dashboard figures for the day `today`. */
  function GetDashboardSummary(emps: seq<Employee>, recs: seq<AttendanceRecord>, today: Date): (r: DashboardSummary)
    ensures r.totalEmployees == |emps|
    ensures r.departmentCount == |Departments(emps)|
    ensures r.departmentCount == 0 <==> emps == []
    ensures r.totalPresentToday == |WithStatus(OnDay(recs, today), Present)|
    ensures r.totalAbsentToday == |WithStatus(OnDay(recs, today), Absent)|
    ensures r.unmarkedToday == |emps| - |OnDay(recs, today)|
    ensures r.recentAttendance == RecentAttendance(emps, recs)
    ensures |r.recentAttendance| == Min(10, Count(recs, IsJoinable(emps)))
    ensures SortedDesc(r.recentAttendance, EntryDate)
    ensures forall k :: 0 <= k < |r.recentAttendance| ==> JoinedFrom(r.recentAttendance[k], recs, emps)
    ensures r.departmentStats == GroupByDepartment(emps)
    ensures |r.departmentStats| == r.departmentCount && DistinctNames(r.departmentStats)
    ensures StatNames(r.departmentStats) == Departments(emps)
    ensures forall k :: 0 <= k < |r.departmentStats| ==>
      r.departmentStats[k].count == |InDepartment(emps, r.departmentStats[k].department)|
    ensures SumCounts(r.departmentStats) == r.totalEmployees
  {
    var present := |WithStatus(OnDay(recs, today), Present)|;
    var absent := |WithStatus(OnDay(recs, today), Absent)|;
    StatusCountsPartition(OnDay(recs, today));
    GroupByDepartmentNames(emps);
    GroupByDepartmentSize(emps);
    GroupByDepartmentSum(emps);
    GroupByDepartmentEntries(emps);
    RecentAttendanceSize(emps, recs);
    assert emps != [] ==> emps[0].department in Departments(emps);
    DashboardSummary(
      |emps|,
      |Departments(emps)|,
      present,
      absent,
      |emps| - present - absent,
      RecentAttendance(emps, recs),
      GroupByDepartment(emps))
  }

  /**
   * `unmarked_today` is never negative on a database where every record belongs
   * to a stored employee and each employee has at most one record per date.
   */
  lemma UnmarkedTodayNonNegative(emps: seq<Employee>, recs: seq<AttendanceRecord>, today: Date)
    requires RecordsBelongToEmployees(emps, recs) && UniqueAttendanceKeys(recs)
    ensures GetDashboardSummary(emps, recs, today).unmarkedToday >= 0
  {
    RecordsOnDayBounded(emps, recs, today);
  }
}
