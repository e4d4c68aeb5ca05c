/**
 * The `Doctor` entity: an id drawn from an auto-increment counter, six fields
 * each guarded by a validating setter, and an equality that ignores the
 * availability field. The Java class mutates itself and throws
 * `IllegalArgumentException`; here every setter returns the updated record or
 * the error, and the counter is passed in and handed back.
 */
module Doctors {
  import opened Results
  import opened JavaText
  import opened Validation

  datatype Doctor = Doctor(
    id: int,
    name: string,
    dateOfBirth: string,
    specialization: string,
    availability: int,
    email: string,
    mobile: string)

  /** Which guard threw. `NullReference` is the NullPointerException of calling `matches` on a null e-mail or mobile. */
  datatype DoctorError =
    | InvalidName
    | InvalidDateOfBirth
    | InvalidSpecialization
    | InvalidAvailability
    | InvalidEmail
    | InvalidMobile
    | NullReference

  /** Every field satisfies the rule its setter enforces. */
  ghost predicate WellFormed(d: Doctor) {
    && IsValidName(d.name)
    && IsDateShape(d.dateOfBirth)
    && IsValidSpecialization(d.specialization)
    && IsValidAvailability(d.availability)
    && EmailPattern(d.email)
    && IsValidMobile(d.mobile)
  }

  // ---------------------------------------------------------------------------
  // Setters. A `None` argument is a Java null.
  // ---------------------------------------------------------------------------

  function SetName(d: Doctor, name: Option<string>): (r: Result<Doctor, DoctorError>)
    ensures r.Ok? <==> name.Some? && 1 <= JavaLength(name.value) <= 50
    ensures r.Ok? ==> r.value == d.(name := name.value)
    ensures r.Err? ==> r.error == InvalidName
  {
    if name.None? || JavaLength(name.value) == 0 || JavaLength(name.value) > MaxNameLength then Err(InvalidName)
    else Ok(d.(name := name.value))
  }

  function SetDateOfBirth(d: Doctor, dateOfBirth: Option<string>): (r: Result<Doctor, DoctorError>)
    ensures r.Ok? <==> dateOfBirth.Some? && IsDateShape(dateOfBirth.value)
    ensures r.Ok? ==> r.value == d.(dateOfBirth := dateOfBirth.value)
    ensures r.Err? ==> r.error == InvalidDateOfBirth
  {
    if dateOfBirth.None? || !IsDateShape(dateOfBirth.value) then Err(InvalidDateOfBirth)
    else Ok(d.(dateOfBirth := dateOfBirth.value))
  }

  function SetSpecialization(d: Doctor, specialization: Option<string>): (r: Result<Doctor, DoctorError>)
    ensures r.Ok? <==> specialization.Some? && JavaLength(specialization.value) <= 255
    ensures r.Ok? ==> r.value == d.(specialization := specialization.value)
    ensures r.Err? ==> r.error == InvalidSpecialization
  {
    if specialization.None? || JavaLength(specialization.value) > MaxSpecializationLength then Err(InvalidSpecialization)
    else Ok(d.(specialization := specialization.value))
  }

  function SetAvailability(d: Doctor, availability: int): (r: Result<Doctor, DoctorError>)
    ensures r.Ok? <==> 0 <= availability <= 3
    ensures r.Ok? ==> r.value == d.(availability := availability)
    ensures r.Err? ==> r.error == InvalidAvailability
  {
    if availability < MinAvailability || availability > MaxAvailability then Err(InvalidAvailability)
    else Ok(d.(availability := availability))
  }

  function SetEmail(d: Doctor, email: Option<string>): (r: Result<Doctor, DoctorError>)
    ensures r.Ok? <==> email.Some? && EmailPattern(email.value)
    ensures r.Ok? ==> r.value == d.(email := email.value)
    ensures r.Err? ==> r.error == (if email.None? then NullReference else InvalidEmail)
  {
    if email.None? then Err(NullReference)
    else
      IsValidEmailIffPattern(email.value);
      if !IsValidEmail(email.value) then Err(InvalidEmail)
      else Ok(d.(email := email.value))
  }

  function SetMobile(d: Doctor, mobile: Option<string>): (r: Result<Doctor, DoctorError>)
    ensures r.Ok? <==> mobile.Some? && IsValidMobile(mobile.value)
    ensures r.Ok? ==> r.value == d.(mobile := mobile.value)
    ensures r.Err? ==> r.error == (if mobile.None? then NullReference else InvalidMobile)
  {
    if mobile.None? then Err(NullReference)
    else if !IsValidMobile(mobile.value) then Err(InvalidMobile)
    else Ok(d.(mobile := mobile.value))
  }

  /**
   * The limits count UTF-16 code units: 26 characters outside the Basic
   * Multilingual Plane are 52 units, so `setName` refuses them.
   */
  lemma SetNameCountsCodeUnits(d: Doctor, name: string)
    requires |name| == 26 && forall i :: 0 <= i < |name| ==> !IsBmpChar(name[i])
    ensures SetName(d, Some(name)) == Err(InvalidName)
  {
    JavaLengthOfSupplementary(name);
  }

  /** A setter that succeeds keeps a well-formed doctor well formed. */
  lemma SettersPreserveWellFormed(d: Doctor, s: Option<string>, a: int)
    requires WellFormed(d)
    ensures SetName(d, s).Ok? ==> WellFormed(SetName(d, s).value)
    ensures SetDateOfBirth(d, s).Ok? ==> WellFormed(SetDateOfBirth(d, s).value)
    ensures SetSpecialization(d, s).Ok? ==> WellFormed(SetSpecialization(d, s).value)
    ensures SetAvailability(d, a).Ok? ==> WellFormed(SetAvailability(d, a).value)
    ensures SetEmail(d, s).Ok? ==> WellFormed(SetEmail(d, s).value)
    ensures SetMobile(d, s).Ok? ==> WellFormed(SetMobile(d, s).value)
  {
  }

  // ---------------------------------------------------------------------------
  // Construction and the id counter
  // ---------------------------------------------------------------------------

  /** The counter a fresh program starts from. */
  const FirstId: int := 1

  /** `idCounter++` on a Java `int`: wraps from the largest to the smallest value. */
  function NextId(counter: int): (r: int)
    requires IsInt32(counter)
    ensures IsInt32(r)
    ensures counter < IntMax ==> r == counter + 1
  {
    if counter == IntMax then IntMin else counter + 1
  }

  /** The six constructor arguments. */
  datatype DoctorInput = DoctorInput(
    name: Option<string>,
    dateOfBirth: Option<string>,
    specialization: Option<string>,
    availability: int,
    email: Option<string>,
    mobile: Option<string>)

  /** The record the constructor builds once every setter has accepted its argument. */
  predicate Accepts(input: DoctorInput) {
    && input.name.Some? && IsValidName(input.name.value)
    && input.dateOfBirth.Some? && IsDateShape(input.dateOfBirth.value)
    && input.specialization.Some? && IsValidSpecialization(input.specialization.value)
    && IsValidAvailability(input.availability)
    && input.email.Some? && IsValidEmail(input.email.value)
    && input.mobile.Some? && IsValidMobile(input.mobile.value)
  }

  /** The first setter, in constructor order, that rejects its argument. */
  function FirstRejection(input: DoctorInput): DoctorError
    requires !Accepts(input)
  {
    if input.name.None? || !IsValidName(input.name.value) then InvalidName
    else if input.dateOfBirth.None? || !IsDateShape(input.dateOfBirth.value) then InvalidDateOfBirth
    else if input.specialization.None? || !IsValidSpecialization(input.specialization.value) then InvalidSpecialization
    else if !IsValidAvailability(input.availability) then InvalidAvailability
    else if input.email.None? then NullReference
    else if !IsValidEmail(input.email.value) then InvalidEmail
    else if input.mobile.None? then NullReference
    else InvalidMobile
  }

  /**
   * `new Doctor(...)`: `setId` takes the counter value and bumps the counter
   * before any field setter runs, so the id is spent even when a setter throws.
   * Returns the outcome together with the counter after the call.
   */
  function NewDoctor(counter: int, input: DoctorInput): (r: (Result<Doctor, DoctorError>, int))
    requires IsInt32(counter)
    ensures r.1 == NextId(counter)
    ensures r.0.Ok? <==> Accepts(input)
    ensures r.0.Ok? ==> r.0.value == Doctor(counter, input.name.value, input.dateOfBirth.value,
                                            input.specialization.value, input.availability,
                                            input.email.value, input.mobile.value)
    ensures r.0.Ok? ==> WellFormed(r.0.value)
    ensures r.0.Err? ==> r.0.error == FirstRejection(input)
  {
    var blank := Doctor(counter, "", "", "", 0, "", "");
    var built :=
      var d1 :- SetName(blank, input.name);
      var d2 :- SetDateOfBirth(d1, input.dateOfBirth);
      var d3 :- SetSpecialization(d2, input.specialization);
      var d4 :- SetAvailability(d3, input.availability);
      var d5 :- SetEmail(d4, input.email);
      SetMobile(d5, input.mobile);
    if input.email.Some? then
      IsValidEmailIffPattern(input.email.value);
      (built, NextId(counter))
    else (built, NextId(counter))
  }

  /**
   * A run of constructions, one after the other, threading the counter.
   * Returns every outcome in order and the final counter.
   */
  function NewDoctors(counter: int, inputs: seq<DoctorInput>): (r: (seq<Result<Doctor, DoctorError>>, int))
    requires IsInt32(counter)
    ensures |r.0| == |inputs|
    ensures IsInt32(r.1)
    decreases |inputs|
  {
    if inputs == [] then ([], counter)
    else
      var (first, next) := NewDoctor(counter, inputs[0]);
      var (rest, last) := NewDoctors(next, inputs[1..]);
      ([first] + rest, last)
  }

  /**
   * While the counter does not overflow, the i-th construction gets id
   * `counter + i`, whether or not earlier constructions threw, and the counter
   * advances by the number of constructions.
   */
  lemma {:induction false} NewDoctorsIds(counter: int, inputs: seq<DoctorInput>)
    requires IsInt32(counter) && counter + |inputs| <= IntMax
    ensures NewDoctors(counter, inputs).1 == counter + |inputs|
    ensures forall i :: 0 <= i < |inputs| && NewDoctors(counter, inputs).0[i].Ok? ==>
              NewDoctors(counter, inputs).0[i].value.id == counter + i
    decreases |inputs|
  {
    if inputs != [] {
      NewDoctorsIds(counter + 1, inputs[1..]);
      NewDoctorsStep(counter, inputs);
      var rest := NewDoctors(counter + 1, inputs[1..]).0;
      forall i | 0 <= i < |inputs| && NewDoctors(counter, inputs).0[i].Ok?
        ensures NewDoctors(counter, inputs).0[i].value.id == counter + i
      {
        if i > 0 {
          assert NewDoctors(counter, inputs).0[i] == rest[i - 1];
        }
      }
    }
  }

  /** One step of the run: the first construction, then the rest from the advanced counter. */
  lemma NewDoctorsStep(counter: int, inputs: seq<DoctorInput>)
    requires IsInt32(counter) && counter < IntMax && inputs != []
    ensures NewDoctors(counter, inputs).1 == NewDoctors(counter + 1, inputs[1..]).1
    ensures NewDoctors(counter, inputs).0 == [NewDoctor(counter, inputs[0]).0] + NewDoctors(counter + 1, inputs[1..]).0
  {
  }

  /** Hence the doctors built in such a run carry pairwise distinct ids. */
  lemma NewDoctorsDistinctIds(counter: int, inputs: seq<DoctorInput>, i: int, j: int)
    requires IsInt32(counter) && counter + |inputs| <= IntMax
    requires 0 <= i < j < |inputs|
    requires NewDoctors(counter, inputs).0[i].Ok? && NewDoctors(counter, inputs).0[j].Ok?
    ensures NewDoctors(counter, inputs).0[i].value.id < NewDoctors(counter, inputs).0[j].value.id
  {
    NewDoctorsIds(counter, inputs);
  }

  /** Past `Integer.MAX_VALUE` the counter wraps to `Integer.MIN_VALUE`, so ids turn negative. */
  lemma NextIdWraps()
    ensures NextId(IntMax) == IntMin
  {
  }

  // ---------------------------------------------------------------------------
  // equals / hashCode
  // ---------------------------------------------------------------------------

  /** `Doctor.equals`: id, name, date of birth, specialization, e-mail and mobile; not availability. */
  predicate Equals(a: Doctor, b: Doctor) {
    && a.id == b.id
    && a.name == b.name
    && a.dateOfBirth == b.dateOfBirth
    && a.specialization == b.specialization
    && a.email == b.email
    && a.mobile == b.mobile
  }

  /** Reduces an integer to a Java `int` by two's-complement wrap-around. */
  function Wrap32(x: int): (r: int)
    ensures IsInt32(r)
    ensures (r - x) % 0x1_0000_0000 == 0
  {
    (x - IntMin) % 0x1_0000_0000 + IntMin
  }

  /** `String.hashCode`: h = 31 * h + c over the characters, in `int` arithmetic. */
  function StringHash(s: string): (r: int)
    ensures IsInt32(r)
  {
    if s == [] then 0 else Wrap32(31 * StringHash(s[..|s| - 1]) + s[|s| - 1] as int)
  }

  /** A value already in `int` range is left alone by the wrap. */
  lemma Wrap32OfInt(x: int)
    requires IsInt32(x)
    ensures Wrap32(x) == x
  {
  }

  function Pow31(n: nat): (r: nat)
    ensures r >= 1
  {
    if n == 0 then 1 else 31 * Pow31(n - 1)
  }

  /** The multipliers of `hashCode`'s expanded polynomial are the powers of 31. */
  lemma HashMultipliersArePowers()
    ensures Pow31(1) == 31 && Pow31(2) == 961 && Pow31(3) == 29791
    ensures Pow31(4) == 923521 && Pow31(5) == 28629151
  {
  }

  /**
   * The documented value of `String.hashCode` before wrap-around:
   * s[0]*31^(n-1) + s[1]*31^(n-2) + ... + s[n-1].
   */
  function PolynomialHash(s: string): int {
    if s == [] then 0 else s[0] as int * Pow31(|s| - 1) + PolynomialHash(s[1..])
  }

  lemma {:induction false} PolynomialHashSnoc(s: string, c: char)
    ensures PolynomialHash(s + [c]) == 31 * PolynomialHash(s) + c as int
  {
    if s == [] {
      assert s + [c] == [c];
    } else {
      var t := s + [c];
      assert t[0] == s[0] && t[1..] == s[1..] + [c];
      PolynomialHashSnoc(s[1..], c);
      assert s[0] as int * Pow31(|s|) == 31 * (s[0] as int * Pow31(|s| - 1));
    }
  }

  /** `StringHash` is the documented polynomial, reduced modulo 2^32. */
  lemma {:induction false} StringHashIsPolynomial(s: string)
    ensures (StringHash(s) - PolynomialHash(s)) % 0x1_0000_0000 == 0
  {
    if s != [] {
      var init := s[..|s| - 1];
      var c := s[|s| - 1];
      assert s == init + [c];
      StringHashIsPolynomial(init);
      PolynomialHashSnoc(init, c);
      CongruentStep(StringHash(init), PolynomialHash(init), c as int, StringHash(s));
    }
  }

  /** One fold step keeps two values congruent modulo 2^32. */
  lemma CongruentStep(h: int, p: int, c: int, w: int)
    requires (h - p) % 0x1_0000_0000 == 0 && (w - (31 * h + c)) % 0x1_0000_0000 == 0
    ensures (w - (31 * p + c)) % 0x1_0000_0000 == 0
  {
    var q := (h - p) / 0x1_0000_0000;
    var k := (w - (31 * h + c)) / 0x1_0000_0000;
    assert w - (31 * p + c) == 0x1_0000_0000 * (k + 31 * q);
  }

  /**
   * `Doctor.hashCode`: the same six fields as `equals`, folded with 31. Modulo
   * 2^32 it is the polynomial id·31^5 + name·31^4 + dateOfBirth·31^3 +
   * specialization·31^2 + email·31 + mobile over the id and the string hashes.
   */
  function HashCode(d: Doctor): (r: int)
    ensures IsInt32(r)
    ensures (r - (d.id * 28629151 + StringHash(d.name) * 923521
              + StringHash(d.dateOfBirth) * 29791 + StringHash(d.specialization) * 961
              + StringHash(d.email) * 31 + StringHash(d.mobile))) % 0x1_0000_0000 == 0
  {
    HashFields(d.id, StringHash(d.name), StringHash(d.dateOfBirth), StringHash(d.specialization),
               StringHash(d.email), StringHash(d.mobile))
  }

  /** The 31-fold of `hashCode` over the id and the five string hashes, one wrapped `int` step per field. */
  function HashFields(id: int, name: int, dateOfBirth: int, specialization: int, email: int, mobile: int): (r: int)
    ensures IsInt32(r)
    ensures (r - (id * 28629151 + name * 923521 + dateOfBirth * 29791 + specialization * 961
              + email * 31 + mobile)) % 0x1_0000_0000 == 0
  {
    var h0 := Wrap32(id);
    var h1 := Wrap32(31 * h0 + name);
    var h2 := Wrap32(31 * h1 + dateOfBirth);
    var h3 := Wrap32(31 * h2 + specialization);
    var h4 := Wrap32(31 * h3 + email);
    var h5 := Wrap32(31 * h4 + mobile);
    FoldCongruent(id, name, dateOfBirth, specialization, email, mobile, h0, h1, h2, h3, h4, h5);
    h5
  }

  /** Five wrapped 31-fold steps are congruent to the unwrapped polynomial. */
  lemma FoldCongruent(id: int, n: int, b: int, s: int, e: int, m: int,
                      h0: int, h1: int, h2: int, h3: int, h4: int, h5: int)
    requires (h0 - id) % 0x1_0000_0000 == 0
    requires (h1 - (31 * h0 + n)) % 0x1_0000_0000 == 0
    requires (h2 - (31 * h1 + b)) % 0x1_0000_0000 == 0
    requires (h3 - (31 * h2 + s)) % 0x1_0000_0000 == 0
    requires (h4 - (31 * h3 + e)) % 0x1_0000_0000 == 0
    requires (h5 - (31 * h4 + m)) % 0x1_0000_0000 == 0
    ensures (h5 - (id * 28629151 + n * 923521 + b * 29791 + s * 961 + e * 31 + m)) % 0x1_0000_0000 == 0
  {
    var p1 := 31 * id + n;
    var p2 := 31 * p1 + b;
    var p3 := 31 * p2 + s;
    var p4 := 31 * p3 + e;
    CongruentStep(h0, id, n, h1);
    CongruentStep(h1, p1, b, h2);
    CongruentStep(h2, p2, s, h3);
    CongruentStep(h3, p3, e, h4);
    CongruentStep(h4, p4, m, h5);
    assert 31 * p4 + m == id * 28629151 + n * 923521 + b * 29791 + s * 961 + e * 31 + m;
  }

  /** `equals` is an equivalence relation. */
  lemma EqualsIsEquivalence(a: Doctor, b: Doctor, c: Doctor)
    ensures Equals(a, a)
    ensures Equals(a, b) ==> Equals(b, a)
    ensures Equals(a, b) && Equals(b, c) ==> Equals(a, c)
  {
  }

  /** Two doctors are `equals` exactly when they agree everywhere once availability is ignored. */
  lemma EqualsIffSameUpToAvailability(a: Doctor, b: Doctor)
    ensures Equals(a, b) <==> a.(availability := 0) == b.(availability := 0)
  {
    if a.(availability := 0) == b.(availability := 0) {
      assert a.(availability := 0).name == b.(availability := 0).name;
    }
  }

  /** Equal doctors hash equally, as the `hashCode` contract demands. */
  lemma HashCodeConsistent(a: Doctor, b: Doctor)
    requires Equals(a, b)
    ensures HashCode(a) == HashCode(b)
  {
  }

  /** Changing only the availability leaves a doctor `equals` to, and hashing like, the original. */
  lemma AvailabilityInvisible(d: Doctor, a: int)
    ensures Equals(d, d.(availability := a)) && HashCode(d) == HashCode(d.(availability := a))
  {
  }
}
