# hrms-lite, modelled in Dafny

hrms-lite is a small HR tool. A FastAPI backend keeps two tables: employees, and
daily attendance records keyed by `(employee_id, date)`. A React frontend has an
Employees page and an Attendance page on top of it. This project models the
backend's request validators, its route handlers and the dashboard aggregates.
It also models the two pages' pure logic and their state changes, and proves
what each promises.

Layout, one module per file:

- `wrappers.dfy`: `Option` and `Result`.
- `text.dfy`: strip, lower/upper case and substring search, over ASCII.
- `seqs.dfy`: filtering, a stable descending sort, `Take`, and subsequences.
- `email.dfy`: the email pattern `^[a-zA-Z0-9._%+-]+@[a-zA-Z0-9.-]+\.[a-zA-Z]{2,}$`. It is stated as a predicate, together with a decision function proved equal to it.
- `database.dfy`: the rows, the HTTP error value, and the `Db` class holding both tables.
- `schemas.py` validators: `schemas.dfy`.
- Route handlers: `employees.dfy`, `attendance.dfy` and `dashboard.dfy`.
- `requests.dfy`: what a page sees of a network call.
- The two pages: `employees_page.dfy` and `attendance_page.dfy`.

How the backend is modelled:

- The session becomes a `Db` object with two sequence fields and a row-id counter per table.
- The handlers that write are methods that `modify` it. Each table transition is also a function, and the lemmas about those functions carry the properties.
- Dates are integers, so the order of dates is the order of integers. `today` is a parameter.

How the frontend is modelled:

- Each page's state is a class whose fields are the `useState` variables.
- A network call is an `Outcome` parameter: success with a body, or failure with an optional `detail`.
- The requests a handler sends are its return value.

## Model

| member | source | states |
|---|---|---|
| Text.Strip | backend/schemas.py:16-18 | the result is the input with a blank prefix and a blank suffix cut off; it has no surrounding whitespace, and it is empty exactly when the input is all whitespace |
| Text.StripIdempotent | backend/schemas.py:18 | stripping twice equals stripping once |
| Text.Lower | backend/schemas.py:32 | same length, no ASCII upper-case letter left, each character lowered on its own |
| Text.Upper | frontend/src/pages/EmployeesPage.jsx:283 | same length, no ASCII lower-case letter left, each character raised on its own |
| Text.ContainsIsSubstring | frontend/src/pages/EmployeesPage.jsx:210-213 | the `includes` test holds exactly when the needle occurs at some offset of the haystack |
| Seqs.SortDesc | backend/routes/attendance.py:30 | `ORDER BY ... DESC`: the result is sorted non-increasing by the key and is a permutation of the input |
| Seqs.Take | backend/routes/dashboard.py:37 | `LIMIT n`: a prefix of length min(n, size) |
| EmailPattern.IsEmailMatchesPattern | backend/schemas.py:33-34 | the decision function accepts a string exactly when it splits as local@domain.tld with the character classes and the two-letter minimum of the pattern |
| EmailPattern.SplitIsUnique | backend/schemas.py:33 | a matching split is at the first '@' and the last '.' |
| EmailPattern.OneAt | backend/schemas.py:33 | a matching string contains exactly one '@' |
| EmailPattern.NoSpaceInEmail | backend/schemas.py:33 | a matching string has no whitespace anywhere |
| EmailPattern.LowerKeepsEmail | backend/schemas.py:32-34 | lower-casing a matching string keeps it matching |
| Database.FindEmployee | backend/routes/employees.py:21 | `.first()` on `employee_id`: a found row has that id, and none is found exactly when no row has it |
| Database.EmployeeNotFound | backend/routes/employees.py:23-26 | a 404 whose detail contains the requested id |
| Database.Db.constructor | backend/routes/employees.py:14-16 | empty tables satisfying every table constraint |
| Schemas.RequireText | backend/schemas.py:16-18 | rejects exactly the empty or all-whitespace input with the given message; otherwise returns the stripped, non-empty text |
| Schemas.RequireTextIdempotent | backend/schemas.py:18 | validating an accepted value again returns it unchanged |
| Schemas.ValidateEmployeeId | backend/schemas.py:13-18 | "Employee ID is required" exactly for blank input, else the stripped id |
| Schemas.ValidateFullName | backend/schemas.py:20-25 | "Full name is required" exactly for blank input, else the stripped name |
| Schemas.ValidateDepartment | backend/schemas.py:38-43 | "Department is required" exactly for blank input, else the stripped department |
| Schemas.ValidateEmail | backend/schemas.py:27-36 | blank gives "Email is required". Otherwise the input is accepted iff its stripped, lower-cased form matches the pattern, and that form is returned (no upper case, no whitespace, one '@'). A rejection says "Invalid email format" |
| Schemas.ValidateEmailIdempotent | backend/schemas.py:32-36 | an accepted email validates to itself |
| Schemas.ValidateStatus | backend/schemas.py:68-73 | accepts exactly "Present" or "Absent", case-sensitive and unstripped, and returns that status |
| Schemas.ValidateAttendanceEmployeeId | backend/schemas.py:61-66 | "Employee ID is required" exactly for blank input, else the stripped id |
| Schemas.ValidateEmployeeCreate | backend/schemas.py:7-43 | the body is accepted iff all four validators accept, and the accepted value is their four results. Otherwise at least one message is returned |
| Schemas.ValidateEmployeeCreateIdempotent | backend/schemas.py:7-43 | a well-formed (already validated) body validates to itself |
| Schemas.ValidateAttendanceCreate | backend/schemas.py:56-73 | accepted iff the id is not blank and the status is one of the two; the id is stripped, the date and status are kept |
| EmployeeRoutes.GetAllEmployees | backend/routes/employees.py:13-16 | every stored employee, exactly once each, ordered by row id descending |
| EmployeeRoutes.GetAllEmployeesNewestFirst | backend/routes/employees.py:15 | with increasing row ids in storage, the listing has strictly decreasing row ids |
| EmployeeRoutes.GetEmployee | backend/routes/employees.py:19-27 | returns a stored row with the requested id, or the 404 exactly when there is none |
| EmployeeRoutes.AppendKeepsUnique | backend/routes/employees.py:33-46 | appending a row whose id and email are both new keeps ids and emails unique |
| EmployeeRoutes.CreateEmployee | backend/routes/employees.py:30-66 | a duplicate id gives the id 409 first, else a duplicate email gives the email 409; both leave the table unchanged. Success appends exactly one row with the four fields and a fresh row id; the table constraints are kept and attendance is untouched |
| EmployeeRoutes.RemoveEmployee | backend/routes/employees.py:71-78 | the result is a subsequence of the table |
| EmployeeRoutes.RemoveEmployeeExact | backend/routes/employees.py:71-78 | deleting a stored id removes exactly one row, that employee, and keeps every other row |
| EmployeeRoutes.RemoveEmployeeKeepsInvariant | backend/routes/employees.py:78 | deletion keeps unique ids, unique emails and increasing row ids |
| EmployeeRoutes.GetAfterDeleteIsNotFound | backend/routes/employees.py:78-79 | after a delete, looking up that id gives the 404 |
| EmployeeRoutes.DeleteEmployee | backend/routes/employees.py:69-80 | an unknown id gives the 404 and no change; otherwise the success message, with the table replaced by the deletion |
| AttendanceRoutes.IdFilter | backend/routes/attendance.py:22-23 | an employee filter applies exactly when the parameter is present and non-empty, and then it is that parameter |
| AttendanceRoutes.GetAllAttendance | backend/routes/attendance.py:14-31 | a record is listed iff it matches every supplied filter (employee id when non-empty, date >= start, date <= end), each matching record exactly as often as it is stored; the list is sorted by date, newest first |
| AttendanceRoutes.GetEmployeeAttendance | backend/routes/attendance.py:34-57 | the 404 exactly for an unknown employee; otherwise that employee's records within the bounds, each exactly as often as it is stored, newest first |
| AttendanceRoutes.EmployeeAttendanceIsFilteredListing | backend/routes/attendance.py:49-56 | for a stored employee it lists the same records as the general listing filtered by that id |
| AttendanceRoutes.StatusCountsPartition | backend/routes/attendance.py:70-86 | present and absent counts add up to the number of records |
| AttendanceRoutes.GetEmployeeAttendanceSummary | backend/routes/attendance.py:60-87 | the 404 exactly for an unknown employee; otherwise the name, the two status counts of that employee's records, and a total equal to all their records |
| AttendanceRoutes.FindRecordIndexAt | backend/routes/attendance.py:101-108 | the lookup of `(employee_id, date)` finds the first record with that key |
| AttendanceRoutes.UpsertExisting | backend/routes/attendance.py:110-115 | with a record for the key, only that record's status changes; the length and every other record stay |
| AttendanceRoutes.UpsertNew | backend/routes/attendance.py:117-126 | without a record for the key, the table grows by one row: the old rows stay in front, and the new row carries the key and the status and has an id above every stored row id |
| AttendanceRoutes.UpsertRecords | backend/routes/attendance.py:101-126 | after the upsert the key has a record with the given status |
| AttendanceRoutes.UpsertKeepsUniqueKeys | backend/routes/attendance.py:101-126 | at most one record per `(employee_id, date)` is preserved |
| AttendanceRoutes.UpsertIdempotent | backend/routes/attendance.py:101-115 | marking the same key and status twice gives the same table as marking it once |
| AttendanceRoutes.UpsertKeepsOwnership | backend/routes/attendance.py:93-98 | when the employee exists, every record still belongs to a stored employee |
| AttendanceRoutes.MarkAttendance | backend/routes/attendance.py:90-134 | the 404 with no change for an unknown employee. Otherwise the table becomes the upsert, the response carries the given fields, and the row counter advances only for a new record; the table constraints are kept |
| DashboardRoute.IdsOnDay | backend/routes/dashboard.py:20-30 | an id is in the set iff some record dated that day has it |
| DashboardRoute.RecordsOnDayCount | backend/routes/dashboard.py:20-30 | with one record per key, a day's records have pairwise different employee ids |
| DashboardRoute.EmployeeIds | backend/routes/dashboard.py:68 | the set of stored ids has at most as many elements as there are rows |
| DashboardRoute.RecordsOnDayBounded | backend/routes/dashboard.py:68 | a day has no more records than there are employees when records belong to employees and keys are unique |
| DashboardRoute.Bump | backend/routes/dashboard.py:53-57 | counting one more employee raises the total by one |
| DashboardRoute.BumpNames | backend/routes/dashboard.py:55 | the group for the department exists afterwards and no other group appears |
| DashboardRoute.BumpCount | backend/routes/dashboard.py:54 | that department's count rises by one and no other count changes |
| DashboardRoute.BumpDistinct | backend/routes/dashboard.py:55 | groups stay one per department |
| DashboardRoute.GroupByDepartmentNames | backend/routes/dashboard.py:53-61 | one entry per department: the entries' departments are distinct and are exactly the employees' departments |
| DashboardRoute.GroupByDepartmentSize | backend/routes/dashboard.py:53-61 | there are as many entries as distinct departments |
| DashboardRoute.GroupByDepartmentSum | backend/routes/dashboard.py:53-61 | the counts sum to the number of employees |
| DashboardRoute.GroupByDepartmentCounts | backend/routes/dashboard.py:54 | the count for a department is the number of its employees |
| DashboardRoute.GroupByDepartmentEntries | backend/routes/dashboard.py:59-61 | each entry's count is the number of employees in its department |
| DashboardRoute.Join | backend/routes/dashboard.py:33-35 | every joined row comes from a stored record whose employee exists, and carries that employee's full name |
| DashboardRoute.JoinCount | backend/routes/dashboard.py:35 | the inner join has one row per record whose employee exists |
| DashboardRoute.JoinKeepsOrder | backend/routes/dashboard.py:35-36 | joining a date-ordered list keeps it date-ordered |
| DashboardRoute.JoinComplete | backend/routes/dashboard.py:35 | every record with a stored employee has a joined row |
| DashboardRoute.RecentAttendance | backend/routes/dashboard.py:33-50 | at most 10 rows, ordered by date non-increasing, each a stored record with its employee's name |
| DashboardRoute.RecentAttendanceSize | backend/routes/dashboard.py:33-39 | the list holds min(10, number of records whose employee exists) rows |
| DashboardRoute.RecentAttendanceIsNewest | backend/routes/dashboard.py:36-37 | a joinable record is listed, or the list is full and every listed row is at least as recent |
| DashboardRoute.GetDashboardSummary | backend/routes/dashboard.py:12-71 | the totals are the employee count and today's present/absent counts. `department_count` is the number of distinct departments and is 0 iff there are no employees. `unmarked_today` is employees minus today's records. The recent list is the joined listing: min(10, joinable records) rows, newest first, each a stored record with its employee's full name. The department stats are one entry per department, each counting that department's employees, and the counts sum to the total |
| DashboardRoute.UnmarkedTodayNonNegative | backend/routes/dashboard.py:68 | `unmarked_today >= 0` when every record belongs to a stored employee and keys are unique |
| Requests.ErrorText | frontend/src/pages/EmployeesPage.jsx:183 | the server's detail when it is a non-empty string, else the fallback, so never empty |
| EmployeesPage.FieldError | frontend/src/pages/EmployeesPage.jsx:21-29 | a field's message exists iff it is blank (for email: iff it does not match as typed, which a blank string never does); the email message is "Email is required" when blank, else "Invalid email format" |
| EmployeesPage.Validate | frontend/src/pages/EmployeesPage.jsx:19-31 | a field has an error exactly when its check fails, with that check's message |
| EmployeesPage.ValidateAccepts | frontend/src/pages/EmployeesPage.jsx:19-31 | no errors iff the three text fields are not blank and the untrimmed email matches |
| EmployeesPage.ClientAcceptedIsServerAccepted | frontend/src/pages/EmployeesPage.jsx:19-31 | over ASCII whitespace, a form the page accepts is accepted by the server's validation, which stores its email lower-cased |
| EmployeesPage.PaddedEmailRejectedOnClient | frontend/src/pages/EmployeesPage.jsx:26-27 | `validate` flags a form value whose email is a valid address behind one leading space, although the server's validation accepts the same form and stores the address lower-cased |
| EmployeesPage.PaddedEmailAcceptedOnServer | backend/schemas.py:27-36 | the server strips the leading space of such an address and accepts it, lower-cased |
| EmployeesPage.PaddedDoesNotMatch | frontend/src/pages/EmployeesPage.jsx:26 | the pattern anchors at the start, so a leading space never matches |
| EmployeesPage.MatchesSearchIsSubstring | frontend/src/pages/EmployeesPage.jsx:208-214 | an employee matches iff the lower-cased term occurs in the lower-cased name, id, department or email |
| EmployeesPage.FilterEmployees | frontend/src/pages/EmployeesPage.jsx:208-214 | the shown rows are a subsequence of the list, no more of them; a row is shown iff it is in the list and matches, and each matching row as often as it is listed |
| EmployeesPage.EmptySearchShowsAll | frontend/src/pages/EmployeesPage.jsx:208-214 | an empty search shows the whole list |
| EmployeesPage.SplitOn | frontend/src/pages/EmployeesPage.jsx:283 | `split(' ')` always returns at least one piece |
| EmployeesPage.SplitOnPieces | frontend/src/pages/EmployeesPage.jsx:283 | there is one more piece than there are separators, and no piece contains the separator |
| EmployeesPage.SplitJoin | frontend/src/pages/EmployeesPage.jsx:283 | joining the pieces with the separator gives back the name |
| EmployeesPage.FirstCharsAreWordStarts | frontend/src/pages/EmployeesPage.jsx:283 | the first characters of the pieces are exactly the characters that begin a word |
| EmployeesPage.Initials | frontend/src/pages/EmployeesPage.jsx:283 | at most two characters, no lower case: the upper-cased word starts, cut to two |
| EmployeesPage.RenderView | frontend/src/pages/EmployeesPage.jsx:249-259 | loading wins, then the error, then the empty state; the table shows the filtered rows of a non-empty list with the total, never more rows than the total |
| EmployeesPage.AddEmployeeModal.constructor | frontend/src/pages/EmployeesPage.jsx:10-17 | an empty form, no errors, not submitting |
| EmployeesPage.AddEmployeeModal.Edit | frontend/src/pages/EmployeesPage.jsx:73 | typing replaces that one field of the form |
| EmployeesPage.AddEmployeeModal.HandleSubmit | frontend/src/pages/EmployeesPage.jsx:33-54 | an invalid form shows its errors, sends nothing and leaves the submitting flag. A valid form is sent as typed and clears the errors; a success resets it to four empty strings, a failure keeps it, and submitting ends. Only forms passing validation are sent |
| EmployeesPage.Page.constructor | frontend/src/pages/EmployeesPage.jsx:168-174 | the initial state: loading, nothing else set |
| EmployeesPage.Page.FetchEmployees | frontend/src/pages/EmployeesPage.jsx:176-187 | loading ends. A success replaces the list and clears the error; a failure keeps the list and sets a non-empty message |
| EmployeesPage.Page.OpenAddModal | frontend/src/pages/EmployeesPage.jsx:224 | the dialog opens |
| EmployeesPage.Page.EmployeeAdded | frontend/src/pages/EmployeesPage.jsx:323-327 | the list is refetched and the dialog closes |
| EmployeesPage.Page.SetSearchTerm | frontend/src/pages/EmployeesPage.jsx:240 | the term becomes the input |
| EmployeesPage.Page.RequestDelete | frontend/src/pages/EmployeesPage.jsx:296 | the row becomes the delete target; nothing is sent |
| EmployeesPage.Page.CancelDelete | frontend/src/pages/EmployeesPage.jsx:332 | the target is cleared |
| EmployeesPage.Page.HandleDelete | frontend/src/pages/EmployeesPage.jsx:193-206 | no target: nothing sent and no change. Otherwise the target's id is sent; success clears the target and refetches, failure keeps the target and the list |
| AttendancePage.BuildParams | frontend/src/pages/AttendancePage.jsx:45-47 | `start_date` and `end_date` are present exactly when non-empty, carry the inputs, and no other key exists |
| AttendancePage.Page.constructor | frontend/src/pages/AttendancePage.jsx:15-26 | the initial state, with the status toggle on "Present" and the mark date on today |
| AttendancePage.Page.FetchEmployees | frontend/src/pages/AttendancePage.jsx:28-39 | loading ends. A success replaces the list; a failure keeps it and sets a message |
| AttendancePage.Page.FetchAttendance | frontend/src/pages/AttendancePage.jsx:41-60 | nothing is sent for an empty id. Otherwise the filtered records call and the unfiltered summary call are sent; records and summary are replaced only when both succeed and kept otherwise |
| AttendancePage.Page.SelectEmployee | frontend/src/pages/AttendancePage.jsx:66-73 | no effect when the choice is unchanged; clearing empties records and summary without a call and leaves the loading flag; a new employee is fetched with the current bounds, after which loading is off |
| AttendancePage.Page.SetDateFilters | frontend/src/pages/AttendancePage.jsx:259 | the bounds become the inputs |
| AttendancePage.Page.HandleFilter | frontend/src/pages/AttendancePage.jsx:75-79 | with an employee chosen, a fetch with the current bounds, after which loading is off; otherwise nothing is sent and nothing changes |
| AttendancePage.Page.HandleClearFilter | frontend/src/pages/AttendancePage.jsx:81-87 | both bounds become empty; a chosen employee is fetched with no query parameters and loading ends, otherwise the data and loading flag stay |
| AttendancePage.Page.ChoosePresent | frontend/src/pages/AttendancePage.jsx:213 | the toggle holds "Present" |
| AttendancePage.Page.ChooseAbsent | frontend/src/pages/AttendancePage.jsx:225 | the toggle holds "Absent" |
| AttendancePage.Page.SetMarkDate | frontend/src/pages/AttendancePage.jsx:204 | the mark date becomes the input |
| AttendancePage.Page.HandleMarkAttendance | frontend/src/pages/AttendancePage.jsx:89-109 | no employee chosen: nothing sent and no change. Otherwise exactly (employee, date, status) is sent, with a status the server accepts; a success reloads with the current bounds and ends loading, a failure keeps the data and the loading flag |

## Left out

- `frontend/src/api/api.js` is reduced to the `Request` values a page sends and the `Outcome` it receives. URLs, axios and JSON encoding are not modelled.
- `backend/main.py` is not part of this model. The 422 responses FastAPI builds from validator messages, and their list-shaped `detail`, are reduced to the message strings.
- The `IntegrityError` → 409 fallbacks (backend/routes/employees.py:59-64, backend/routes/attendance.py:127-132) are not modelled: after the explicit checks they can only fire under concurrent inserts.
- Cascading deletion of attendance lives in `models.py`, which is not part of this model. `DeleteEmployee` therefore leaves the attendance table as it was, and "every record belongs to a stored employee" is not among the `Db` constraints. `UnmarkedTodayNonNegative` takes that condition as a hypothesis.
- Clock reads (`date.today()`, `new Date()`) are parameters: `today` for the dashboard, the initial mark date for the Attendance page.
- `Promise.all`, the un-awaited refetches and stale responses when the choice changes are not modelled. Every fetch is one atomic step with a given outcome.
- Toast notifications, JSX markup, icons and styling are not modelled. `frontend/src/pages/DashboardPage.jsx` and the other components are not part of this model.
- Whitespace and case are ASCII. Whitespace is space and characters 9 to 13. Python's `strip` and JavaScript's `trim` also remove other Unicode spaces (Python also removes characters 28 to 31), and `lower`/`toUpperCase` fold non-ASCII letters.
- EmployeesPage.ClientAcceptedIsServerAccepted: holds only over the shared ASCII whitespace of the model. With the real `trim` and `strip` it fails for a field such as "\x1c", which JavaScript keeps and Python strips, so the page accepts it and the server answers "Employee ID is required".
- The email input's `type="email"` sanitisation by the browser, which removes surrounding whitespace before the value reaches the form, is not modelled. `PaddedEmailRejectedOnClient` is a property of `validate` on the form value.
- The pattern's `$` also matches before a final newline in Python. This cannot matter after `strip`, so the model anchors at the end of the string.
- Rows with equal dates may come back from SQL in any order. The model's sort is stable, so ties keep table order.
- The order of `GROUP BY` groups is unspecified in SQL. The model lists departments in order of first appearance.
- The frontend's records and summaries are the backend's datatypes, with dates as integers. The date strings of the forms are opaque text.
- Validation of `AttendanceCreate.date` (an ISO date string parsed by pydantic) is not modelled. The date arrives already parsed.
- EmployeesPage.Page.EmployeeAdded: on a failed refetch it states only that an error is set, not its text, which `FetchEmployees` gives.
