/** The request and message schemas of the HTTP API: the credential
    record with its domain validator, and the bounds and defaults of the
    search request and the progress message. A rejected field is a
    validation error naming what was wrong. */
module ApiModels {
  import opened Wrappers
  import opened Text

  datatype ValidationError =
    | TooShort(field: string)
    | BadDomain(message: string)
    | OutOfRange(field: string)

  const DomainMessage: string := "Domain must be Student or Staff"
  const DefaultDomain: string := "Student"
  const DefaultMinMappable: int := 2

  // ------------------------------------------------------------- domain

  /** `str.capitalize`: the first character upper-cased, the rest
      lower-cased. */
  function Capitalize(s: string): (r: string)
    ensures |r| == |s|
    ensures |s| > 0 ==> !IsLower(r[0]) && forall i :: 1 <= i < |s| ==> !IsUpper(r[i])
    ensures Upper(r) == Upper(s)
  {
    if |s| == 0 then "" else [UpperChar(s[0])] + Lower(s[1..])
  }

  /** A character whose upper case is a given capital is that capital or
      its lower-case letter. */
  lemma UpperCharCases(c: char, x: char)
    requires IsUpper(x) && UpperChar(c) == x
    ensures LowerChar(c) == LowerChar(x) && UpperChar(c) == x
  {
  }

  /** Capitalising a string whose upper case is known gives one string. */
  lemma CapitalizeDetermined(s: string, t: string)
    requires Upper(s) == Upper(t)
    requires forall i :: 0 <= i < |t| ==> IsUpper(Upper(t)[i])
    ensures Capitalize(s) == Capitalize(t)
  {
    if |s| > 0 {
      forall i | 0 <= i < |s| ensures LowerChar(s[i]) == LowerChar(t[i]) {
        UpperCharCases(s[i], Upper(t)[i]);
        UpperCharCases(t[i], Upper(t)[i]);
      }
      assert Lower(s[1..]) == Lower(t[1..]);
    }
  }

  /** The two accepted spellings, worked out letter by letter. */
  lemma StudentUpper()
    ensures Upper("STUDENT") == "STUDENT"
  {
    var u := Upper("STUDENT");
    assert u[0] == 'S' && u[1] == 'T' && u[2] == 'U' && u[3] == 'D' && u[4] == 'E' && u[5] == 'N' && u[6] == 'T';
  }

  lemma StudentCapital()
    ensures Capitalize("STUDENT") == "Student"
  {
    var c := Capitalize("STUDENT");
    assert c[0] == 'S' && c[1] == 't' && c[2] == 'u' && c[3] == 'd' && c[4] == 'e' && c[5] == 'n' && c[6] == 't';
  }

  lemma StaffUpper()
    ensures Upper("STAFF") == "STAFF"
  {
    var u := Upper("STAFF");
    assert u[0] == 'S' && u[1] == 'T' && u[2] == 'A' && u[3] == 'F' && u[4] == 'F';
  }

  lemma StaffCapital()
    ensures Capitalize("STAFF") == "Staff"
  {
    var c := Capitalize("STAFF");
    assert c[0] == 'S' && c[1] == 't' && c[2] == 'a' && c[3] == 'f' && c[4] == 'f';
  }

  /** Any spelling of STUDENT capitalises to "Student". */
  lemma CapitalizedStudent(v: string)
    requires Upper(v) == "STUDENT"
    ensures Capitalize(v) == "Student"
  {
    StudentUpper();
    StudentCapital();
    CapitalizeDetermined(v, "STUDENT");
  }

  /** Any spelling of STAFF capitalises to "Staff". */
  lemma CapitalizedStaff(v: string)
    requires Upper(v) == "STAFF"
    ensures Capitalize(v) == "Staff"
  {
    StaffUpper();
    StaffCapital();
    CapitalizeDetermined(v, "STAFF");
  }

  /** `validate_domain`: accepted exactly when the upper-cased domain is
      STUDENT or STAFF, and returned capitalised. */
  function ValidateDomain(v: string): (r: Result<string, ValidationError>)
    ensures r.Success? <==> Upper(v) == "STUDENT" || Upper(v) == "STAFF"
    ensures r.Failure? ==> r.error == BadDomain(DomainMessage)
    ensures r.Success? ==> (r.value == "Student" || r.value == "Staff") && Upper(r.value) == Upper(v)
  {
    if Upper(v) == "STUDENT" || Upper(v) == "STAFF" then
      var r := Capitalize(v);
      assert r == "Student" || r == "Staff" by {
        if Upper(v) == "STUDENT" {
          CapitalizedStudent(v);
        } else {
          CapitalizedStaff(v);
        }
      }
      Success(r)
    else Failure(BadDomain(DomainMessage))
  }

  /** Validating an accepted domain again changes nothing. */
  lemma ValidateDomainIdempotent(v: string)
    requires ValidateDomain(v).Success?
    ensures ValidateDomain(ValidateDomain(v).value) == ValidateDomain(v)
  {
  }

  // -------------------------------------------------------- credentials

  datatype Credentials = Credentials(username: string, password: string, domain: string)

  /** Building the credential record: username and password must be
      non-empty, the domain defaults to Student and is validated. */
  function NewCredentials(username: string, password: string, domain: Option<string>): (r: Result<Credentials, ValidationError>)
    ensures r.Success? <==> |username| >= 1 && |password| >= 1 && ValidateDomain(domain.GetOr(DefaultDomain)).Success?
    ensures r.Success? ==> r.value.username == username && r.value.password == password
    ensures r.Success? ==> r.value.domain == "Student" || r.value.domain == "Staff"
    ensures r.Success? && domain.None? ==> r.value.domain == DefaultDomain
    ensures |username| < 1 ==> r == Failure(TooShort("username"))
    ensures |username| >= 1 && |password| < 1 ==> r == Failure(TooShort("password"))
  {
    if |username| < 1 then Failure(TooShort("username"))
    else if |password| < 1 then Failure(TooShort("password"))
    else
      match ValidateDomain(domain.GetOr(DefaultDomain))
      case Failure(e) => Failure(e)
      case Success(d) => Success(Credentials(username, password, d))
  }

  /** A validated record, validated again from its own fields, comes back
      unchanged. */
  lemma CredentialsRoundTrip(username: string, password: string, domain: Option<string>)
    requires NewCredentials(username, password, domain).Success?
    ensures var c := NewCredentials(username, password, domain).value;
            NewCredentials(c.username, c.password, Some(c.domain)) == Success(c)
  {
  }

  // ----------------------------------------------------- search request

  /** `min_mappable_modules`: absent means 2, an explicit null stays null,
      and a given number must be at least 1. */
  function MinMappable(given: Option<Option<int>>): (r: Result<Option<int>, ValidationError>)
    ensures given.None? ==> r == Success(Some(DefaultMinMappable))
    ensures r.Failure? <==> given.Some? && given.value.Some? && given.value.value < 1
    ensures r.Success? && r.value.Some? ==> r.value.value >= 1
    ensures r.Success? && given.Some? ==> r.value == given.value
  {
    match given
    case None => Success(Some(DefaultMinMappable))
    case Some(None) => Success(None)
    case Some(Some(n)) => if n < 1 then Failure(OutOfRange("min_mappable_modules")) else Success(Some(n))
  }

  /** Passing back what was accepted is accepted unchanged. */
  lemma MinMappableRoundTrip(given: Option<Option<int>>)
    requires MinMappable(given).Success?
    ensures MinMappable(Some(MinMappable(given).value)) == MinMappable(given)
  {
  }

  // --------------------------------------------------- progress message

  datatype ProgressMessage = ProgressMessage(kind: string, step: int, stepName: string, message: string)

  /** A progress message: its step lies between 1 and 3 (PDF, scraping,
      processing); its type is any string and defaults to "progress". */
  function NewProgress(kind: Option<string>, step: int, stepName: string, message: string): (r: Result<ProgressMessage, ValidationError>)
    ensures r.Success? <==> 1 <= step <= 3
    ensures r.Success? ==> r.value.step == step && r.value.stepName == stepName && r.value.message == message
    ensures r.Success? && kind.Some? ==> r.value.kind == kind.value
    ensures r.Success? && kind.None? ==> r.value.kind == "progress"
    ensures r.Failure? ==> r.error == OutOfRange("step")
  {
    if 1 <= step <= 3 then Success(ProgressMessage(kind.GetOr("progress"), step, stepName, message))
    else Failure(OutOfRange("step"))
  }

  /** Validation accepts exactly the well-formed messages: every message
      with a step in [1, 3], whatever its type, is rebuilt from its own
      fields unchanged. */
  lemma ProgressRoundTrip(p: ProgressMessage)
    requires 1 <= p.step <= 3
    ensures NewProgress(Some(p.kind), p.step, p.stepName, p.message) == Success(p)
  {
  }
}
