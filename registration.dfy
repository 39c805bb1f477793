/**
 * The worker record (WorkerInformation, WorkerStatus) and the field constraints
 * that Bean Validation checks on it when a request body is bound.
 */
module Registration {

  import opened Outcomes
  import JavaText

  /** WorkerStatus. */
  datatype WorkerStatus = Registered | OnDuty | Regular | Unregistered

  /** The identity-document kind; its constants are not part of this model. */
  datatype EkycId = EkycId(ordinal: nat)

  /**
   * One WorkerInformation object. Reference-typed fields may be null (None);
   * `age` is a primitive int. Latitude and longitude are doubles, read here as reals.
   * `timestamp` is the clock value taken when the object was constructed.
   */
  datatype Worker = Worker(
    id: Option<int>,
    name: Option<string>,
    age: int,
    phoneNumber: Option<string>,
    ekycId: Option<EkycId>,
    ekycData: Option<string>,
    address: Option<string>,
    latitude: Option<real>,
    longitude: Option<real>,
    status: Option<WorkerStatus>,
    timestamp: int)

  // ---------------------------------------------------------------------------
  // Individual constraints

  /** @NotBlank: not null, and something is left after String.trim(). */
  predicate NotBlank(s: Option<string>)
    ensures NotBlank(s) ==> s.Some? && |s.value| > 0
  {
    s.Some? && JavaText.Trim(s.value) != []
  }

  /** A member of the character class `[0-9. ()-]`. */
  predicate PhoneChar(c: char) {
    JavaText.IsDigit(c) || c == '.' || c == ' ' || c == '(' || c == ')' || c == '-'
  }

  /** `[0-9. ()-]{7,25}`, matched against a whole string. */
  predicate PhoneRun(s: string) {
    7 <= |s| <= 25 && forall i :: 0 <= i < |s| ==> PhoneChar(s[i])
  }

  /** The language of `^\+?[0-9. ()-]{7,25}$`: a run, with or without one '+' before it. */
  predicate PhonePattern(s: string)
    ensures PhonePattern(s) ==> 7 <= |s| <= 26
  {
    PhoneRun(s) || (|s| > 0 && s[0] == '+' && PhoneRun(s[1..]))
  }

  /** @Pattern accepts a null value; only a present string is matched. */
  predicate MatchesPhonePattern(s: Option<string>) {
    s.None? || PhonePattern(s.value)
  }

  /** @DecimalMin / @DecimalMax, both inclusive; a null value passes both. */
  predicate InRange(x: Option<real>, lo: real, hi: real) {
    x.None? || lo <= x.value <= hi
  }

  // ---------------------------------------------------------------------------
  // Messages of the constraints, as declared on the fields

  const NameBlank := "Name cannot be blank"
  const AgeTooLow := "Age must be at least 18"
  const PhoneBlank := "Phone number cannot be blank"
  const PhoneFormat := "Invalid phone number format"
  const EkycIdNull := "EKYC ID type cannot be null"
  const EkycDataBlank := "EKYC data cannot be blank"
  const AddressBlank := "Address cannot be blank"
  const LatitudeNull := "Latitude cannot be null"
  const LatitudeRange := "Latitude must be between -90 and 90"
  const LongitudeNull := "Longitude cannot be null"
  const LongitudeRange := "Longitude must be between -180 and 180"
  const StatusNull := "Status cannot be null"

  /** The record passes every constraint declared on WorkerInformation; `id` and `timestamp` carry none. */
  predicate IsValid(w: Worker)
    ensures IsValid(w) ==> w.age >= 18 && w.name.Some? && w.phoneNumber.Some? && w.ekycData.Some? && w.address.Some?
  {
    && NotBlank(w.name)
    && w.age >= 18
    && NotBlank(w.phoneNumber)
    && MatchesPhonePattern(w.phoneNumber)
    && w.ekycId.Some?
    && NotBlank(w.ekycData)
    && NotBlank(w.address)
    && w.latitude.Some? && InRange(w.latitude, -90.0, 90.0)
    && w.longitude.Some? && InRange(w.longitude, -180.0, 180.0)
    && w.status.Some?
  }

  /** The messages of the violated constraints, as the validator reports them (a set: no order). */
  function Violations(w: Worker): (v: set<string>)
    ensures IsValid(w) ==> v == {}
    ensures w.age < 18 ==> AgeTooLow in v
  {
    (if NotBlank(w.name) then {} else {NameBlank})
    + (if w.age >= 18 then {} else {AgeTooLow})
    + (if NotBlank(w.phoneNumber) then {} else {PhoneBlank})
    + (if MatchesPhonePattern(w.phoneNumber) then {} else {PhoneFormat})
    + (if w.ekycId.Some? then {} else {EkycIdNull})
    + (if NotBlank(w.ekycData) then {} else {EkycDataBlank})
    + (if NotBlank(w.address) then {} else {AddressBlank})
    + (if w.latitude.Some? then {} else {LatitudeNull})
    + (if InRange(w.latitude, -90.0, 90.0) then {} else {LatitudeRange})
    + (if w.longitude.Some? then {} else {LongitudeNull})
    + (if InRange(w.longitude, -180.0, 180.0) then {} else {LongitudeRange})
    + (if w.status.Some? then {} else {StatusNull})
  }

  /** A record is valid exactly when the validator reports no violation. */
  lemma ValidIffNoViolations(w: Worker)
    ensures IsValid(w) <==> Violations(w) == {}
  {
    if !IsValid(w) {
      var v := Violations(w);
      if !NotBlank(w.name) { assert NameBlank in v; }
      else if w.age < 18 { assert AgeTooLow in v; }
      else if !NotBlank(w.phoneNumber) { assert PhoneBlank in v; }
      else if !MatchesPhonePattern(w.phoneNumber) { assert PhoneFormat in v; }
      else if w.ekycId.None? { assert EkycIdNull in v; }
      else if !NotBlank(w.ekycData) { assert EkycDataBlank in v; }
      else if !NotBlank(w.address) { assert AddressBlank in v; }
      else if w.latitude.None? { assert LatitudeNull in v; }
      else if !InRange(w.latitude, -90.0, 90.0) { assert LatitudeRange in v; }
      else if w.longitude.None? { assert LongitudeNull in v; }
      else if !InRange(w.longitude, -180.0, 180.0) { assert LongitudeRange in v; }
      else { assert StatusNull in v; }
    }
  }

  /** No constraint is declared on `id`: validity does not depend on it. */
  lemma IdNotValidated(w: Worker, id: Option<int>)
    ensures IsValid(w) <==> IsValid(w.(id := id))
  {
  }

  /** An applicant under 18 is rejected, with the age message among the violations. */
  lemma UnderageIsInvalid(w: Worker)
    requires w.age < 18
    ensures !IsValid(w) && AgeTooLow in Violations(w)
  {
  }

  /** @NotBlank holds exactly when some character lies above U+0020. */
  lemma NotBlankIffVisibleChar(s: string)
    ensures NotBlank(Some(s)) <==> exists i :: 0 <= i < |s| && !JavaText.IsTrimmable(s[i])
  {
    JavaText.TrimEmptyIffAllTrimmable(s);
  }

  /**
   * The phone pattern read deterministically: drop one leading '+', if any;
   * what is left is 7 to 25 characters, all from the class, so no further '+'.
   */
  lemma PhonePatternShape(s: string)
    ensures PhonePattern(s) <==>
      var body := if |s| > 0 && s[0] == '+' then s[1..] else s;
      7 <= |body| <= 25 && forall i :: 0 <= i < |body| ==> PhoneChar(body[i])
  {
    if |s| > 0 && s[0] == '+' {
      assert !PhoneChar(s[0]);
    }
  }

  /** A matching phone number has 7 to 26 characters and a '+' at most in first position. */
  lemma PhonePlusOnlyFirst(s: string)
    requires PhonePattern(s)
    ensures 7 <= |s| <= 26
    ensures forall i :: 0 < i < |s| ==> s[i] != '+'
  {
    if |s| > 0 && s[0] == '+' {
      assert !PhoneChar(s[0]);
      forall i | 0 < i < |s| ensures s[i] != '+' {
        assert s[i] == s[1..][i - 1];
      }
    }
  }

  /** Seven spaces match the pattern but are blank: both phone constraints are needed. */
  lemma BlankPhoneMatchesPattern()
    ensures PhonePattern(SevenSpaces) && !NotBlank(Some(SevenSpaces))
  {
    var s := SevenSpaces;
    assert |s| == 7;
    assert forall i :: 0 <= i < |s| ==> s[i] == ' ';
    assert PhoneRun(s);
    JavaText.TrimEmptyIffAllTrimmable(s);
  }

  const SevenSpaces: string := "       "
}
