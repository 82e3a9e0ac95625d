/**
 * The Attendance page: choosing an employee, loading their records and
 * summary, the date filter, and marking attendance.
 */
module AttendancePage {
  import opened Wrappers
  import opened Database
  import opened AttendanceRoutes
  import opened Schemas
  import opened Requests

  /** The two date inputs of the filter; an empty string is an unset bound. */
  datatype Filters = Filters(startDate: string, endDate: string)

  const NoFilters := Filters("", "")

  /** The query string of the records call: only the bounds that are set. */
  function BuildParams(f: Filters): (params: map<string, string>)
    ensures "start_date" in params <==> f.startDate != []
    ensures "end_date" in params <==> f.endDate != []
    ensures "start_date" in params ==> params["start_date"] == f.startDate
    ensures "end_date" in params ==> params["end_date"] == f.endDate
    ensures forall key :: key in params ==> key == "start_date" || key == "end_date"
  {
    var withStart := if f.startDate != [] then map["start_date" := f.startDate] else map[];
    if f.endDate != [] then withStart["end_date" := f.endDate] else withStart
  }

  /** The requests the page sends. */
  datatype Request =
    | ListRecords(employeeId: string, params: map<string, string>)
    | GetSummary(employeeId: string)
    | Mark(employeeId: string, date: string, status: string)

  /** Loading one employee's data: their records, filtered, and their summary, never filtered. */
  function FetchRequests(employeeId: string, f: Filters): seq<Request> {
    [ListRecords(employeeId, BuildParams(f)), GetSummary(employeeId)]
  }

  class Page {
    var employees: seq<Employee>
    var selectedEmployee: string
    var attendance: seq<AttendanceRecord>
    var summary: Option<AttendanceSummary>
    var loading: bool
    var attLoading: bool
    var error: Option<string>
    var markDate: string
    var markStatus: string
    var marking: bool
    var startDate: string
    var endDate: string

    /** The status toggle only ever holds one of the two statuses. */
    predicate Valid()
      reads this
    {
      markStatus == "Present" || markStatus == "Absent"
    }

    /** The first render; `today` is the date the mark form starts on. */
    constructor (today: string)
      ensures Valid() && markStatus == "Present" && markDate == today
      ensures employees == [] && selectedEmployee == [] && attendance == [] && summary.None?
      ensures loading && !attLoading && error.None? && !marking
      ensures startDate == [] && endDate == []
    {
      employees, selectedEmployee, attendance, summary := [], [], [], None;
      loading, attLoading, error := true, false, None;
      markDate, markStatus, marking := today, "Present", false;
      startDate, endDate := [], [];
    }

    /** Loads the employee list: a success replaces it, a failure keeps it and records a message. */
    method FetchEmployees(outcome: Outcome<seq<Employee>>)
      modifies this`employees, this`loading, this`error
      ensures !loading
      ensures outcome.Success? ==> employees == outcome.value && error.None?
      ensures outcome.Failure? ==>
        employees == old(employees) && error == Some(ErrorText(outcome.detail, "Failed to load employees"))
    {
      loading, error := true, None;
      match outcome {
        case Success(list) => employees := list;
        case Failure(detail) => error := Some(ErrorText(detail, "Failed to load employees"));
      }
      loading := false;
    }

    /**
     * Loads one employee's records and summary. Nothing is sent for an empty id.
     * The shown data is replaced only when both calls succeed; otherwise it stays.
     */
    method FetchAttendance(employeeId: string, filters: Filters,
                           records: Outcome<seq<AttendanceRecord>>, sum: Outcome<AttendanceSummary>)
      returns (sent: seq<Request>)
      modifies this`attendance, this`summary, this`attLoading
      ensures employeeId == [] ==>
        sent == [] && attendance == old(attendance) && summary == old(summary) && attLoading == old(attLoading)
      ensures employeeId != [] ==> sent == FetchRequests(employeeId, filters) && !attLoading
      ensures employeeId != [] && records.Success? && sum.Success? ==>
        attendance == records.value && summary == Some(sum.value)
      ensures !(records.Success? && sum.Success?) ==> attendance == old(attendance) && summary == old(summary)
    {
      if employeeId == [] {
        return [];
      }
      attLoading := true;
      sent := FetchRequests(employeeId, filters);
      if records.Success? && sum.Success? {
        attendance := records.value;
        summary := Some(sum.value);
      }
      attLoading := false;
    }

    /**
     * Choosing in the employee drop-down. The page reacts only to a change: a new
     * employee is loaded with the current filter, and clearing the choice empties
     * the shown data without a call.
     */
    method SelectEmployee(value: string, records: Outcome<seq<AttendanceRecord>>, sum: Outcome<AttendanceSummary>)
      returns (sent: seq<Request>)
      modifies this`selectedEmployee, this`attendance, this`summary, this`attLoading
      ensures selectedEmployee == value
      ensures value == old(selectedEmployee) ==>
        sent == [] && attendance == old(attendance) && summary == old(summary) && attLoading == old(attLoading)
      ensures value != old(selectedEmployee) && value == [] ==>
        sent == [] && attendance == [] && summary.None? && attLoading == old(attLoading)
      ensures value != old(selectedEmployee) && value != [] ==>
        sent == FetchRequests(value, Filters(startDate, endDate)) && !attLoading
      ensures value != old(selectedEmployee) && value != [] && records.Success? && sum.Success? ==>
        attendance == records.value && summary == Some(sum.value)
      ensures value != [] && !(records.Success? && sum.Success?) ==>
        attendance == old(attendance) && summary == old(summary)
    {
      if value == selectedEmployee {
        return [];
      }
      selectedEmployee := value;
      if value != [] {
        sent := FetchAttendance(value, Filters(startDate, endDate), records, sum);
      } else {
        attendance, summary := [], None;
        sent := [];
      }
    }

    /** Typing into the two date inputs. */
    method SetDateFilters(start: string, end: string)
      modifies this`startDate, this`endDate
      ensures startDate == start && endDate == end
    {
      startDate, endDate := start, end;
    }

    /** The Filter button: reloads the chosen employee with the current bounds. */
    method HandleFilter(records: Outcome<seq<AttendanceRecord>>, sum: Outcome<AttendanceSummary>)
      returns (sent: seq<Request>)
      modifies this`attendance, this`summary, this`attLoading
      ensures selectedEmployee == [] ==>
        sent == [] && attendance == old(attendance) && summary == old(summary) && attLoading == old(attLoading)
      ensures selectedEmployee != [] ==> sent == FetchRequests(selectedEmployee, Filters(startDate, endDate)) && !attLoading
      ensures selectedEmployee != [] && records.Success? && sum.Success? ==>
        attendance == records.value && summary == Some(sum.value)
      ensures !(records.Success? && sum.Success?) ==> attendance == old(attendance) && summary == old(summary)
    {
      sent := [];
      if selectedEmployee != [] {
        sent := FetchAttendance(selectedEmployee, Filters(startDate, endDate), records, sum);
      }
    }

    /** The Clear button: empties both bounds and reloads the chosen employee without a filter. */
    method HandleClearFilter(records: Outcome<seq<AttendanceRecord>>, sum: Outcome<AttendanceSummary>)
      returns (sent: seq<Request>)
      modifies this`startDate, this`endDate, this`attendance, this`summary, this`attLoading
      ensures startDate == [] && endDate == []
      ensures selectedEmployee == [] ==>
        sent == [] && attendance == old(attendance) && summary == old(summary) && attLoading == old(attLoading)
      ensures selectedEmployee != [] ==>
        sent == [ListRecords(selectedEmployee, map[]), GetSummary(selectedEmployee)] && !attLoading
      ensures selectedEmployee != [] && records.Success? && sum.Success? ==>
        attendance == records.value && summary == Some(sum.value)
      ensures !(records.Success? && sum.Success?) ==> attendance == old(attendance) && summary == old(summary)
    {
      startDate, endDate := [], [];
      sent := [];
      if selectedEmployee != [] {
        sent := FetchAttendance(selectedEmployee, NoFilters, records, sum);
        assert BuildParams(NoFilters) == map[];
      }
    }

    /** The two status buttons of the mark form. */
    method ChoosePresent()
      modifies this`markStatus
      ensures Valid() && markStatus == "Present"
    {
      markStatus := "Present";
    }

    method ChooseAbsent()
      modifies this`markStatus
      ensures Valid() && markStatus == "Absent"
    {
      markStatus := "Absent";
    }

    method SetMarkDate(date: string)
      modifies this`markDate
      ensures markDate == date
    {
      markDate := date;
    }

    /**
     * Submitting the mark form. Without a chosen employee nothing is sent.
     * Otherwise exactly the chosen employee, date and status are sent, with a
     * status the server accepts; a success reloads the employee with the current
     * filter.
     */
    method HandleMarkAttendance(outcome: Outcome<AttendanceRecord>,
                                records: Outcome<seq<AttendanceRecord>>, sum: Outcome<AttendanceSummary>)
      returns (sent: seq<Request>)
      requires Valid()
      modifies this`marking, this`attendance, this`summary, this`attLoading
      ensures Valid()
      ensures selectedEmployee == [] ==>
        sent == [] && attendance == old(attendance) && summary == old(summary) && marking == old(marking)
        && attLoading == old(attLoading)
      ensures selectedEmployee != [] ==> !marking
      ensures selectedEmployee != [] && outcome.Success? ==>
        sent == [Mark(selectedEmployee, markDate, markStatus)] + FetchRequests(selectedEmployee, Filters(startDate, endDate))
        && !attLoading
      ensures selectedEmployee != [] && outcome.Failure? ==>
        sent == [Mark(selectedEmployee, markDate, markStatus)] && attendance == old(attendance) && summary == old(summary)
        && attLoading == old(attLoading)
      ensures sent != [] ==> ValidateStatus(sent[0].status).Ok?
      ensures outcome.Success? && records.Success? && sum.Success? && selectedEmployee != [] ==>
        attendance == records.value && summary == Some(sum.value)
      ensures !(records.Success? && sum.Success?) ==> attendance == old(attendance) && summary == old(summary)
    {
      if selectedEmployee == [] {
        return [];
      }
      marking := true;
      sent := [Mark(selectedEmployee, markDate, markStatus)];
      if outcome.Success? {
        var reload := FetchAttendance(selectedEmployee, Filters(startDate, endDate), records, sum);
        sent := sent + reload;
      }
      marking := false;
    }
  }
}
