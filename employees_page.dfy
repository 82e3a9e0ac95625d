/**
 * The Employees page: the add-employee form and its client-side validation,
 * the search box, avatar initials, the two-step delete and the choice of what
 * the page shows.
 */
module EmployeesPage {
  import opened Wrappers
  import opened Text
  import opened Seqs
  import opened EmailPattern
  import opened Database
  import opened Schemas
  import opened Requests

  /** The four text inputs of the add-employee form. */
  datatype Form = Form(employeeId: string, fullName: string, email: string, department: string)

  const EmptyForm := Form("", "", "", "")

  datatype Field = EmployeeIdField | FullNameField | EmailField | DepartmentField

  /** The message `validate` puts on one field, if any. */
  function FieldError(f: Form, field: Field): (r: Option<string>)
    ensures field == EmployeeIdField ==> (r.Some? <==> IsBlank(f.employeeId))
    ensures field == FullNameField ==> (r.Some? <==> IsBlank(f.fullName))
    ensures field == DepartmentField ==> (r.Some? <==> IsBlank(f.department))
    ensures field == EmailField ==> (r.Some? <==> !MatchesPattern(f.email))
    ensures field == EmailField && IsBlank(f.email) ==> r == Some("Email is required")
    ensures field == EmailField && !IsBlank(f.email) && r.Some? ==> r.value == "Invalid email format"
  {
    match field
    case EmployeeIdField => if Strip(f.employeeId) == [] then Some("Employee ID is required") else None
    case FullNameField => if Strip(f.fullName) == [] then Some("Full name is required") else None
    case EmailField =>
      IsEmailMatchesPattern(f.email);
      MatchIsNotBlank(f.email);
      if Strip(f.email) == [] then Some("Email is required")
      else if !IsEmail(f.email) then Some("Invalid email format")
      else None
    case DepartmentField => if Strip(f.department) == [] then Some("Department is required") else None
  }

  /**
   * Client-side validation: a message for each blank field, and for an email
   * that does not match the pattern as typed, surrounding spaces included.
   */
  function Validate(f: Form): (errs: map<Field, string>)
    ensures forall field :: field in errs <==> FieldError(f, field).Some?
    ensures forall field :: field in errs ==> errs[field] == FieldError(f, field).value
  {
    map field | field in {EmployeeIdField, FullNameField, EmailField, DepartmentField} && FieldError(f, field).Some?
      :: FieldError(f, field).value
  }

  /** A form passes `validate` exactly when no field is blank and the email, as typed, matches. */
  lemma ValidateAccepts(f: Form)
    ensures Validate(f) == map[] <==>
      !IsBlank(f.employeeId) && !IsBlank(f.fullName) && !IsBlank(f.department) && MatchesPattern(f.email)
  {
    NoErrorsIffAllFieldsPass(f);
    AllFieldsPassIff(f);
  }

  predicate AllFieldsPass(f: Form) {
    FieldError(f, EmployeeIdField).None? && FieldError(f, FullNameField).None? &&
    FieldError(f, EmailField).None? && FieldError(f, DepartmentField).None?
  }

  lemma AllFieldsPassIff(f: Form)
    ensures AllFieldsPass(f) <==>
      !IsBlank(f.employeeId) && !IsBlank(f.fullName) && !IsBlank(f.department) && MatchesPattern(f.email)
  {
    var a, b, c, d := FieldError(f, EmployeeIdField), FieldError(f, FullNameField),
      FieldError(f, EmailField), FieldError(f, DepartmentField);
    assert a.None? <==> !IsBlank(f.employeeId);
    assert b.None? <==> !IsBlank(f.fullName);
    assert c.None? <==> MatchesPattern(f.email);
    assert d.None? <==> !IsBlank(f.department);
  }

  lemma NoErrorsIffAllFieldsPass(f: Form)
    ensures Validate(f) == map[] <==> AllFieldsPass(f)
  {
    var errs := Validate(f);
    if AllFieldsPass(f) {
      forall field ensures field !in errs {
        match field {
          case EmployeeIdField =>
          case FullNameField =>
          case EmailField =>
          case DepartmentField =>
        }
      }
      assert errs == map[];
    } else {
      assert EmployeeIdField in errs || FullNameField in errs || EmailField in errs || DepartmentField in errs;
    }
  }

  /** The server validates a form the client accepts, and stores its email as typed, lower-cased. */
  lemma ClientAcceptedIsServerAccepted(f: Form)
    requires Validate(f) == map[]
    ensures var r := ValidateEmployeeCreate(f.employeeId, f.fullName, f.email, f.department);
      r.Ok? && r.value.email == Lower(f.email)
  {
    ValidateAccepts(f);
    IsEmailMatchesPattern(f.email);
    NoSpaceInEmail(f.email);
    StripKeeps(f.email);
    LowerKeepsEmail(f.email);
    IsEmailMatchesPattern(Lower(f.email));
  }

  /**
   * A form value whose email is a valid address behind one leading space fails
   * `validate`, although the server would strip it and accept the form.
   */
  lemma PaddedEmailRejectedOnClient(f: Form)
    requires !IsBlank(f.employeeId) && !IsBlank(f.fullName) && !IsBlank(f.department)
    requires f.email != [] && f.email[0] == ' ' && MatchesPattern(f.email[1..])
    ensures EmailField in Validate(f)
    ensures var r := ValidateEmployeeCreate(f.employeeId, f.fullName, f.email, f.department);
      r.Ok? && r.value.email == Lower(f.email[1..])
  {
    PaddedDoesNotMatch(f.email);
    assert FieldError(f, EmailField).Some?;
    PaddedEmailAcceptedOnServer(f.email);
  }

  /** The server strips the leading space and accepts the address. */
  lemma PaddedEmailAcceptedOnServer(v: string)
    requires v != [] && v[0] == ' ' && MatchesPattern(v[1..])
    ensures ValidateEmail(v) == Ok(Lower(v[1..]))
  {
    var e := v[1..];
    IsEmailMatchesPattern(e);
    AcceptedAfterStrip(v, e);
  }

  /** A valid address behind one space is accepted as that address, lower-cased. */
  lemma AcceptedAfterStrip(v: string, e: string)
    requires v != [] && v[0] == ' ' && e == v[1..] && IsEmail(e)
    ensures ValidateEmail(v) == Ok(Lower(e))
  {
    EmailIsTrimmed(e);
    StripPadded(v, e);
    LowerKeepsEmail(e);
    IsEmailMatchesPattern(Lower(e));
    AcceptedWhenStripped(v, e);
  }

  /** A valid address is non-empty and has no surrounding whitespace. */
  lemma EmailIsTrimmed(e: string)
    requires IsEmail(e)
    ensures e != [] && NoSurroundingSpace(e)
  {
    IsEmailMatchesPattern(e);
    MatchIsNotBlank(e);
    NoSpaceInEmail(e);
  }

  /** Stripping removes exactly one leading space in front of a trimmed, non-empty string. */
  lemma StripPadded(v: string, e: string)
    requires v != [] && v[0] == ' ' && e == v[1..] && e != [] && NoSurroundingSpace(e)
    ensures Strip(v) == e
  {
    assert TrimLeft(v) == TrimLeft(e) == e;
    assert TrimRight(e) == e;
  }

  /** A string whose stripped form lower-cases to a match is accepted as that lower-cased form. */
  lemma AcceptedWhenStripped(v: string, e: string)
    requires Strip(v) == e && e != [] && MatchesPattern(Lower(e))
    ensures ValidateEmail(v) == Ok(Lower(e))
  {
  }

  /** A string starting with a space does not match the pattern. */
  lemma PaddedDoesNotMatch(s: string)
    requires s != [] && s[0] == ' '
    ensures !MatchesPattern(s)
  {
    forall i, j | 0 < i < |s| ensures !SplitsAt(s, i, j) {
      assert s[..i][0] == ' ';
    }
  }

  /** The search keeps an employee when the lower-cased term occurs in one of four lower-cased fields. */
  function MatchesSearch(e: Employee, term: string): bool {
    var t := Lower(term);
    Contains(Lower(e.fullName), t) || Contains(Lower(e.employeeId), t) ||
    Contains(Lower(e.department), t) || Contains(Lower(e.email), t)
  }

  /** `includes` is substring search: the match holds exactly when the term occurs in a field. */
  lemma MatchesSearchIsSubstring(e: Employee, term: string)
    ensures MatchesSearch(e, term) <==>
      IsSubstring(Lower(term), Lower(e.fullName)) || IsSubstring(Lower(term), Lower(e.employeeId)) ||
      IsSubstring(Lower(term), Lower(e.department)) || IsSubstring(Lower(term), Lower(e.email))
  {
    ContainsIsSubstring(Lower(e.fullName), Lower(term));
    ContainsIsSubstring(Lower(e.employeeId), Lower(term));
    ContainsIsSubstring(Lower(e.department), Lower(term));
    ContainsIsSubstring(Lower(e.email), Lower(term));
  }

  function Matcher(term: string): Employee -> bool {
    (e: Employee) => MatchesSearch(e, term)
  }

  /** The rows shown for a search term, in the order of the fetched list. */
  function FilterEmployees(emps: seq<Employee>, term: string): (r: seq<Employee>)
    ensures IsSubsequence(r, emps)
    ensures |r| <= |emps|
    ensures forall e :: e in r <==> e in emps && MatchesSearch(e, term)
    ensures forall e :: multiset(r)[e] == (if MatchesSearch(e, term) then multiset(emps)[e] else 0)
  {
    FilterIsSubsequence(emps, Matcher(term));
    forall e ensures multiset(Filter(emps, Matcher(term)))[e] == (if MatchesSearch(e, term) then multiset(emps)[e] else 0) {
      FilterMultiset(emps, Matcher(term), e);
    }
    Filter(emps, Matcher(term))
  }

  /** An empty search shows every employee. */
  lemma EmptySearchShowsAll(emps: seq<Employee>)
    ensures FilterEmployees(emps, "") == emps
  {
    assert Lower("") == "";
    forall e | e in emps ensures Matcher("")(e) {
      ContainsEmpty(Lower(e.fullName));
    }
    FilterKeepsAll(emps, Matcher(""));
  }

  /** `split(sep)`: the pieces between separators. */
  function SplitOn(s: string, sep: char): (r: seq<string>)
    ensures r != []
  {
    if s == [] then [""]
    else
      var rest := SplitOn(s[1..], sep);
      if s[0] == sep then [""] + rest
      else [[s[0]] + rest[0]] + rest[1..]
  }

  /** n separators give n + 1 pieces, and no piece holds a separator. */
  lemma {:induction false} SplitOnPieces(s: string, sep: char)
    ensures |SplitOn(s, sep)| == multiset(s)[sep] + 1
    ensures forall k :: 0 <= k < |SplitOn(s, sep)| ==> sep !in SplitOn(s, sep)[k]
  {
    if s != [] {
      SplitOnPieces(s[1..], sep);
      var rest := SplitOn(s[1..], sep);
      var r := SplitOn(s, sep);
      assert multiset(s) == multiset{s[0]} + multiset(s[1..]) by {
        assert s == [s[0]] + s[1..];
      }
      if s[0] != sep {
        assert forall k :: 1 <= k < |r| ==> r[k] == rest[k];
      }
    }
  }

  /** `join(sep)`: the pieces with a separator between neighbours. */
  function JoinWith(parts: seq<string>, sep: char): string
    requires parts != []
  {
    if |parts| == 1 then parts[0] else parts[0] + [sep] + JoinWith(parts[1..], sep)
  }

  /** Joining the pieces of a split gives back the string. */
  lemma {:induction false} SplitJoin(s: string, sep: char)
    ensures JoinWith(SplitOn(s, sep), sep) == s
  {
    if s != [] {
      var rest := SplitOn(s[1..], sep);
      var r := SplitOn(s, sep);
      assert JoinWith(rest, sep) == s[1..] by {
        SplitJoin(s[1..], sep);
      }
      assert s == [s[0]] + s[1..];
      if s[0] == sep {
        assert JoinWith(r, sep) == [sep] + JoinWith(rest, sep) by {
          assert r == [""] + rest;
          assert r[1..] == rest;
        }
      } else if |rest| == 1 {
        assert JoinWith(r, sep) == [s[0]] + JoinWith(rest, sep) by {
          assert r == [[s[0]] + rest[0]];
        }
      } else {
        assert JoinWith(r, sep) == [s[0]] + JoinWith(rest, sep) by {
          assert r == [[s[0]] + rest[0]] + rest[1..];
          assert r[1..] == rest[1..];
          assert JoinWith(rest, sep) == rest[0] + [sep] + JoinWith(rest[1..], sep);
        }
      }
    }
  }

  /** `map(n => n[0]).join('')`: the first character of each piece; an empty piece gives nothing. */
  function FirstChars(parts: seq<string>): string {
    if parts == [] then []
    else (if parts[0] == [] then [] else [parts[0][0]]) + FirstChars(parts[1..])
  }

  /**
   * The characters that start a word: not a space, and first in the string
   * (when `atStart`) or right after a space.
   */
  function WordStarts(s: string, atStart: bool): (r: string)
    ensures ' ' !in r
  {
    if s == [] then []
    else (if atStart && s[0] != ' ' then [s[0]] else []) + WordStarts(s[1..], s[0] == ' ')
  }

  /** The first characters of the pieces are the word starts. */
  lemma {:induction false} FirstCharsAreWordStarts(s: string)
    ensures FirstChars(SplitOn(s, ' ')) == WordStarts(s, true)
    ensures FirstChars(SplitOn(s, ' ')[1..]) == WordStarts(s, false)
  {
    if s != [] {
      FirstCharsAreWordStarts(s[1..]);
      var rest := SplitOn(s[1..], ' ');
      if s[0] != ' ' {
        var r := SplitOn(s, ' ');
        assert r[1..] == rest[1..];
        assert FirstChars(rest) == (if rest[0] == [] then [] else [rest[0][0]]) + FirstChars(rest[1..]);
      }
    }
  }

  /** The avatar text: the upper-cased first letters of the name's words, at most two. */
  function Initials(fullName: string): (r: string)
    ensures |r| <= 2 && NoLower(r)
    ensures r == Take(Upper(WordStarts(fullName, true)), 2)
  {
    FirstCharsAreWordStarts(fullName);
    Take(Upper(FirstChars(SplitOn(fullName, ' '))), 2)
  }

  /** What the page body shows. */
  datatype View = LoadingView | ErrorView(message: string) | EmptyView | TableView(rows: seq<Employee>, total: nat)

  /** Loading wins over an error, an error over an empty list, and only a non-empty list shows the table. */
  function RenderView(loading: bool, error: Option<string>, emps: seq<Employee>, term: string): (v: View)
    ensures v.LoadingView? <==> loading
    ensures v.ErrorView? <==> !loading && error.Some?
    ensures v.ErrorView? ==> v.message == error.value
    ensures v.EmptyView? <==> !loading && error.None? && emps == []
    ensures v.TableView? ==> emps != [] && v.rows == FilterEmployees(emps, term) && v.total == |emps|
    ensures v.TableView? ==> |v.rows| <= v.total
  {
    if loading then LoadingView
    else if error.Some? then ErrorView(error.value)
    else if emps == [] then EmptyView
    else TableView(FilterEmployees(emps, term), |emps|)
  }

  /** The add-employee dialog. */
  class AddEmployeeModal {
    var form: Form
    var errors: map<Field, string>
    var submitting: bool

    constructor ()
      ensures form == EmptyForm && errors == map[] && !submitting
    {
      form, errors, submitting := EmptyForm, map[], false;
    }

    /** Typing into one input replaces that field only. */
    method Edit(field: Field, value: string)
      modifies this`form
      ensures form == match field
        case EmployeeIdField => old(form).(employeeId := value)
        case FullNameField => old(form).(fullName := value)
        case EmailField => old(form).(email := value)
        case DepartmentField => old(form).(department := value)
    {
      match field
      case EmployeeIdField => form := form.(employeeId := value);
      case FullNameField => form := form.(fullName := value);
      case EmailField => form := form.(email := value);
      case DepartmentField => form := form.(department := value);
    }

    /**
     * Submitting: an invalid form shows its errors and sends nothing; a valid one
     * is sent as typed, and a success empties the form. `created` tells the page
     * to refetch and close the dialog.
     */
    method HandleSubmit(outcome: Outcome<Employee>) returns (sent: Option<Form>, created: bool)
      modifies this
      ensures Validate(old(form)) != map[] ==>
        sent.None? && !created && errors == Validate(old(form)) && form == old(form) && submitting == old(submitting)
      ensures Validate(old(form)) == map[] ==>
        sent == Some(old(form)) && errors == map[] && created == outcome.Success? && !submitting &&
        form == (if outcome.Success? then EmptyForm else old(form))
      ensures sent.Some? ==> Validate(sent.value) == map[]
    {
      var errs := Validate(form);
      if errs != map[] {
        errors := errs;
        return None, false;
      }
      submitting := true;
      errors := map[];
      sent := Some(form);
      created := outcome.Success?;
      if created {
        form := EmptyForm;
      }
      submitting := false;
    }
  }

  /** The page's own state. */
  class Page {
    var employees: seq<Employee>
    var loading: bool
    var error: Option<string>
    var showAddModal: bool
    var deleteTarget: Option<Employee>
    var deleting: bool
    var searchTerm: string

    /** The first render, before the list has arrived. */
    constructor ()
      ensures employees == [] && loading && error.None? && !showAddModal
      ensures deleteTarget.None? && !deleting && searchTerm == []
    {
      employees, loading, error, showAddModal := [], true, None, false;
      deleteTarget, deleting, searchTerm := None, false, [];
    }

    /** Loads the list: a success replaces it and clears the error, a failure keeps it and records a message. */
    method FetchEmployees(outcome: Outcome<seq<Employee>>)
      modifies this`employees, this`loading, this`error
      ensures !loading
      ensures outcome.Success? ==> employees == outcome.value && error.None?
      ensures outcome.Failure? ==>
        employees == old(employees) && error == Some(ErrorText(outcome.detail, "Failed to load employees"))
      ensures error.Some? ==> error.value != []
    {
      loading, error := true, None;
      match outcome {
        case Success(list) => employees := list;
        case Failure(detail) => error := Some(ErrorText(detail, "Failed to load employees"));
      }
      loading := false;
    }

    method OpenAddModal()
      modifies this`showAddModal
      ensures showAddModal
    {
      showAddModal := true;
    }

    /** After the dialog reports a created employee: the list is refetched and the dialog closes. */
    method EmployeeAdded(refetch: Outcome<seq<Employee>>)
      modifies this`employees, this`loading, this`error, this`showAddModal
      ensures !showAddModal && !loading
      ensures refetch.Success? ==> employees == refetch.value && error.None?
      ensures refetch.Failure? ==> employees == old(employees) && error.Some?
    {
      FetchEmployees(refetch);
      showAddModal := false;
    }

    method SetSearchTerm(term: string)
      modifies this`searchTerm
      ensures searchTerm == term
    {
      searchTerm := term;
    }

    /** The delete button of a row only asks for confirmation. */
    method RequestDelete(e: Employee)
      modifies this`deleteTarget
      ensures deleteTarget == Some(e)
    {
      deleteTarget := Some(e);
    }

    method CancelDelete()
      modifies this`deleteTarget
      ensures deleteTarget.None?
    {
      deleteTarget := None;
    }

    /**
     * Confirming the delete: nothing happens without a target; otherwise the
     * target's id is sent, and a success clears the target and refetches the
     * list while a failure keeps the target.
     */
    method HandleDelete(outcome: Outcome<string>, refetch: Outcome<seq<Employee>>) returns (sentId: Option<string>)
      modifies this
      ensures old(deleteTarget).None? ==> sentId.None? && unchanged(this)
      ensures old(deleteTarget).Some? ==> sentId == Some(old(deleteTarget).value.employeeId) && !deleting
      ensures old(deleteTarget).Some? && outcome.Success? ==>
        deleteTarget.None? && !loading &&
        (refetch.Success? ==> employees == refetch.value && error.None?) &&
        (refetch.Failure? ==> employees == old(employees) && error.Some?)
      ensures old(deleteTarget).Some? && outcome.Failure? ==>
        deleteTarget == old(deleteTarget) && employees == old(employees) && error == old(error) && loading == old(loading)
      ensures showAddModal == old(showAddModal) && searchTerm == old(searchTerm)
    {
      if deleteTarget.None? {
        return None;
      }
      deleting := true;
      sentId := Some(deleteTarget.value.employeeId);
      if outcome.Success? {
        deleteTarget := None;
        FetchEmployees(refetch);
      }
      deleting := false;
    }
  }
}
