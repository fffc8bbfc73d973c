/**
 * TakeSlot: the patient of a reservation request and the PatientValidator
 * rules over it, with FluentValidation's semantics for NotEmpty and
 * EmailAddress.
 */
module TakeSlot {

  import opened Wrappers
  import opened DateTimes

  /** A .NET string that may be null. */
  type NullableString = Option<string>

  datatype Patient = Patient(name: NullableString, secondName: NullableString,
                             email: NullableString, phone: NullableString)

  /** Facility id and comments pass through untouched; the patient may be null. */
  datatype SlotReservationRequest = SlotReservationRequest(
    facilityId: string, start: DateTimeOffset, end: DateTimeOffset,
    comments: NullableString, patient: Option<Patient>)

  datatype ValidationFailure = ValidationFailure(propertyName: string, errorMessage: string)

  /** char.IsWhiteSpace: the Unicode White_Space characters. */
  predicate IsWhiteSpace(c: char) {
    var n := c as int;
    (0x09 <= n <= 0x0D) || n == 0x20 || n == 0x85 || n == 0xA0 || n == 0x1680
    || (0x2000 <= n <= 0x200A) || n == 0x2028 || n == 0x2029 || n == 0x202F || n == 0x205F || n == 0x3000
  }

  /** NotEmpty on a string: not null, not "", and not only white space. */
  predicate NotEmpty(s: NullableString) {
    s.Some? && exists i :: 0 <= i < |s.value| && !IsWhiteSpace(s.value[i])
  }

  /** string.IndexOf(char): the first position of `c`, or -1. */
  function IndexOf(s: string, c: char): (r: int)
    ensures -1 <= r < |s|
    ensures r == -1 <==> c !in s
    ensures r >= 0 ==> s[r] == c && forall j :: 0 <= j < r ==> s[j] != c
  {
    if |s| == 0 then -1
    else if s[0] == c then 0
    else
      var k := IndexOf(s[1..], c);
      if k < 0 then -1 else k + 1
  }

  /** string.LastIndexOf(char): the last position of `c`, or -1. */
  function LastIndexOf(s: string, c: char): (r: int)
    ensures -1 <= r < |s|
    ensures r == -1 <==> c !in s
    ensures r >= 0 ==> s[r] == c && forall j :: r < j < |s| ==> s[j] != c
  {
    if |s| == 0 then -1
    else if s[|s| - 1] == c then |s| - 1
    else LastIndexOf(s[..|s| - 1], c)
  }

  /**
   * EmailAddress in FluentValidation's default mode: a null value passes;
   * otherwise the first '@' is not the first character, not the last, and is
   * also the last '@'.
   */
  predicate EmailAddress(s: NullableString) {
    s.None? ||
    var index := IndexOf(s.value, '@');
    index > 0 && index != |s.value| - 1 && index == LastIndexOf(s.value, '@')
  }

  /** The check in words: exactly one '@', with something on either side of it. */
  lemma EmailAddressIff(v: string)
    ensures EmailAddress(Some(v)) <==>
      exists i :: 0 < i < |v| - 1 && v[i] == '@' && forall j :: 0 <= j < |v| && v[j] == '@' ==> j == i
  {
    var index := IndexOf(v, '@');
    if EmailAddress(Some(v)) {
      assert forall j :: 0 <= j < |v| && v[j] == '@' ==> j == index;
    }
  }

  /** Property names as FluentValidation displays them: PascalCase split into words. */
  const NameDisplay: string := "Name"
  const SecondNameDisplay: string := "Second Name"
  const EmailDisplay: string := "Email"
  const PhoneDisplay: string := "Phone"

  function NotEmptyFailure(property: string, display: string): ValidationFailure {
    ValidationFailure(property, "'" + display + "' must not be empty.")
  }

  function EmailFailure(): ValidationFailure {
    ValidationFailure("Email", "'" + EmailDisplay + "' is not a valid email address.")
  }

  /** RuleFor(p => field).NotEmpty(): the failures that one rule reports. */
  function NotEmptyRule(value: NullableString, property: string, display: string): (r: seq<ValidationFailure>)
    ensures r == [] <==> NotEmpty(value)
    ensures forall i :: 0 <= i < |r| ==> r[i].propertyName == property
  {
    if NotEmpty(value) then [] else [NotEmptyFailure(property, display)]
  }

  /** RuleFor(p => p.Email).NotEmpty().EmailAddress(): both checks run, each may report. */
  function EmailRule(value: NullableString): (r: seq<ValidationFailure>)
    ensures r == [] <==> NotEmpty(value) && EmailAddress(value)
    ensures forall i :: 0 <= i < |r| ==> r[i].propertyName == "Email"
  {
    NotEmptyRule(value, "Email", EmailDisplay) + (if EmailAddress(value) then [] else [EmailFailure()])
  }

  /** PatientValidator.Validate: the failures of the four rules, in declaration order. */
  function Validate(p: Patient): seq<ValidationFailure> {
    NotEmptyRule(p.name, "Name", NameDisplay)
    + NotEmptyRule(p.secondName, "SecondName", SecondNameDisplay)
    + EmailRule(p.email)
    + NotEmptyRule(p.phone, "Phone", PhoneDisplay)
  }

  predicate IsValid(p: Patient) {
    Validate(p) == []
  }

  /** A patient passes exactly when every field passes its own rule. */
  lemma IsValidIff(p: Patient)
    ensures IsValid(p) <==> NotEmpty(p.name) && NotEmpty(p.secondName)
                            && NotEmpty(p.email) && EmailAddress(p.email) && NotEmpty(p.phone)
  {
  }

  /** The failures reported for a property, in order. */
  function FailuresFor(failures: seq<ValidationFailure>, property: string): seq<ValidationFailure> {
    if failures == [] then []
    else (if failures[0].propertyName == property then [failures[0]] else [])
         + FailuresFor(failures[1..], property)
  }

  lemma {:induction false} FailuresForAppend(a: seq<ValidationFailure>, b: seq<ValidationFailure>, property: string)
    ensures FailuresFor(a + b, property) == FailuresFor(a, property) + FailuresFor(b, property)
  {
    if a == [] {
      assert a + b == b;
    } else {
      assert (a + b)[1..] == a[1..] + b;
      FailuresForAppend(a[1..], b, property);
    }
  }

  lemma {:induction false} FailuresForSingle(a: seq<ValidationFailure>, owner: string, property: string)
    requires forall i :: 0 <= i < |a| ==> a[i].propertyName == owner
    ensures FailuresFor(a, property) == if owner == property then a else []
  {
    if a != [] {
      FailuresForSingle(a[1..], owner, property);
      assert a == [a[0]] + a[1..];
    }
  }

  /** The rule PatientValidator declares for a property: the failures it reports on `p`, none for other names. */
  function RuleFailures(p: Patient, property: string): seq<ValidationFailure> {
    if property == "Name" then NotEmptyRule(p.name, "Name", NameDisplay)
    else if property == "SecondName" then NotEmptyRule(p.secondName, "SecondName", SecondNameDisplay)
    else if property == "Email" then EmailRule(p.email)
    else if property == "Phone" then NotEmptyRule(p.phone, "Phone", PhoneDisplay)
    else []
  }

  /** Four rules' failures, each tagged with its own property, filtered by property. */
  lemma FourRulesFiltered(n: seq<ValidationFailure>, s: seq<ValidationFailure>,
                          e: seq<ValidationFailure>, ph: seq<ValidationFailure>, property: string)
    requires forall i :: 0 <= i < |n| ==> n[i].propertyName == "Name"
    requires forall i :: 0 <= i < |s| ==> s[i].propertyName == "SecondName"
    requires forall i :: 0 <= i < |e| ==> e[i].propertyName == "Email"
    requires forall i :: 0 <= i < |ph| ==> ph[i].propertyName == "Phone"
    ensures FailuresFor(n + s + e + ph, property) ==
      if property == "Name" then n else if property == "SecondName" then s
      else if property == "Email" then e else if property == "Phone" then ph else []
  {
    FailuresForAppend(n + s + e, ph, property);
    FailuresForAppend(n + s, e, property);
    FailuresForAppend(n, s, property);
    FailuresForSingle(n, "Name", property);
    FailuresForSingle(s, "SecondName", property);
    FailuresForSingle(e, "Email", property);
    FailuresForSingle(ph, "Phone", property);
  }

  /** Each rule's verdict depends on its own field alone: the failures for a property come only from its rule. */
  lemma FailuresAreLocal(p: Patient, property: string)
    ensures FailuresFor(Validate(p), property) == RuleFailures(p, property)
  {
    FourRulesFiltered(NotEmptyRule(p.name, "Name", NameDisplay),
      NotEmptyRule(p.secondName, "SecondName", SecondNameDisplay), EmailRule(p.email),
      NotEmptyRule(p.phone, "Phone", PhoneDisplay), property);
  }

  /** The test patient John Connor, with the given name. */
  function TestPatient(name: string): Patient {
    Patient(Some(name), Some("Connor"), Some(TestEmail), Some("000111222"))
  }

  const TestEmail: string := "john.connor@gmail.com"

  lemma TestEmailValid()
    ensures EmailAddress(Some(TestEmail))
  {
    var v := TestEmail;
    assert v[11] == '@';
    assert forall j :: 0 <= j < |v| && j != 11 ==> v[j] != '@';
    var index := IndexOf(v, '@');
    assert index == 11;
    assert LastIndexOf(v, '@') == 11;
  }

  lemma TestFieldsNotEmpty()
    ensures NotEmpty(Some("Connor")) && NotEmpty(Some(TestEmail))
    ensures NotEmpty(Some("000111222")) && NotEmpty(Some("John")) && !NotEmpty(Some(""))
  {
    assert !IsWhiteSpace("Connor"[0]) && !IsWhiteSpace(TestEmail[0]);
    assert !IsWhiteSpace("000111222"[0]) && !IsWhiteSpace("John"[0]);
  }

  lemma NameMessage()
    ensures NotEmptyFailure("Name", NameDisplay) == ValidationFailure("Name", "'Name' must not be empty.")
  {
    var m := "'" + NameDisplay + "' must not be empty.";
    assert forall k :: 0 <= k < 25 ==> m[k] == "'Name' must not be empty."[k];
  }

  /** The rules after the name's, on the test patient: none reports. */
  lemma TestRestPasses()
    ensures NotEmptyRule(Some("Connor"), "SecondName", SecondNameDisplay)
      + EmailRule(Some(TestEmail)) + NotEmptyRule(Some("000111222"), "Phone", PhoneDisplay) == []
  {
    TestEmailValid();
    TestFieldsNotEmpty();
  }

  /** Any patient with an empty or blank name and every other field valid: exactly one failure, "'Name' must not be empty.". */
  lemma EmptyNameAlone(p: Patient)
    requires !NotEmpty(p.name) && NotEmpty(p.secondName) && NotEmpty(p.email) && EmailAddress(p.email) && NotEmpty(p.phone)
    ensures Validate(p) == [ValidationFailure("Name", "'Name' must not be empty.")]
  {
    NameMessage();
  }

  /** The tests' patient with an empty name: exactly one failure, "'Name' must not be empty.". */
  lemma EmptyNameFailure()
    ensures Validate(TestPatient("")) == [ValidationFailure("Name", "'Name' must not be empty.")]
  {
    TestFieldsNotEmpty();
    TestEmailValid();
    EmptyNameAlone(TestPatient(""));
  }

  /** The complete test patient passes every rule. */
  lemma TestPatientValid()
    ensures IsValid(TestPatient("John"))
  {
    TestRestPasses();
    TestFieldsNotEmpty();
    assert NotEmptyRule(Some("John"), "Name", NameDisplay) == [];
  }
}
