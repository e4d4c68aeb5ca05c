/**
 * The second validator set that the unit tests define for themselves:
 * `checkName`, `checkDate`, `checkEmail`, `checkPhone` and
 * `checkAvailability`, with the concrete assertions the tests make about them
 * and how each helper relates to the rule the application itself applies.
 */
module TestHelpers {
  import opened Results
  import opened JavaText
  import opened Validation
  import opened Doctors
  import opened Management

  /** The exception each helper throws, told apart by its message. */
  datatype CheckError =
    | NameOutOfRange(minLength: int, maxLength: int) // "You must input in range: <min> - <max>"
    | InvalidDateFormat                              // "Invalid date format. Expected: dd/MM/yyyy"
    | InvalidEmailFormat                             // "Invalid email format."
    | InvalidPhoneFormat                             // "Invalid phone number format. ..."
    | AvailabilityOutOfRange                         // "Availability must be between 0 and 3."
    | AvailabilityNotInteger                         // "Invalid availability input. Must be an integer ..."

  /**
   * `checkName`: rejects null, a blank name and a length outside the bounds.
   * The trim serves only the blank test; an accepted name comes back as given.
   */
  function CheckName(name: Option<string>, minLength: int, maxLength: int): (r: Result<string, CheckError>)
    ensures r.Ok? ==> name == Some(r.value)
    ensures r.Ok? <==> name.Some? && !AllTrimmable(name.value) && minLength <= JavaLength(name.value) <= maxLength
    ensures r.Err? ==> r.error == NameOutOfRange(minLength, maxLength)
  {
    if name.None? then Err(NameOutOfRange(minLength, maxLength))
    else
      TrimEmptyIffBlank(name.value);
      if Trim(name.value) == [] || JavaLength(name.value) < minLength || JavaLength(name.value) > maxLength then
        Err(NameOutOfRange(minLength, maxLength))
      else Ok(name.value)
  }

  /** `checkDate` with the pattern `dd/MM/yyyy`, read strictly: the date must exist. */
  function CheckDate(date: string): (r: Result<string, CheckError>)
    ensures r.Ok? ==> r.value == date && IsDateShape(date) && IsCalendarDate(DateFields(date))
    ensures r.Err? ==> r.error == InvalidDateFormat
  {
    if ParseStrictDate(date).Some? then Ok(date) else Err(InvalidDateFormat)
  }

  /** `checkEmail`: the same regular expression as `Doctor.setEmail`. */
  function CheckEmail(email: string): (r: Result<string, CheckError>)
    ensures r.Ok? <==> EmailPattern(email)
    ensures r.Ok? ==> r.value == email
    ensures r.Err? ==> r.error == InvalidEmailFormat
  {
    IsValidEmailIffPattern(email);
    if IsValidEmail(email) then Ok(email) else Err(InvalidEmailFormat)
  }

  /** `checkPhone`: the same pattern as `Doctor.setMobile`. */
  function CheckPhone(phone: string): (r: Result<string, CheckError>)
    ensures r.Ok? ==> r.value == phone
    ensures r.Err? ==> r.error == InvalidPhoneFormat
  {
    if IsValidMobile(phone) then Ok(phone) else Err(InvalidPhoneFormat)
  }

  /**
   * `checkAvailability`: an untrimmed `parseInt`, with a format error for a
   * non-integer and a separate range error for an integer outside 0..3.
   */
  function CheckAvailability(text: string): (r: Result<int, CheckError>)
    ensures r.Ok? ==> ParseInt(text) == Some(r.value) && IsValidAvailability(r.value)
    ensures r.Err? ==> (r.error == AvailabilityNotInteger <==> ParseInt(text).None?)
    ensures r.Err? ==> r.error == AvailabilityNotInteger || r.error == AvailabilityOutOfRange
    ensures ParseInt(text).Some? && IsValidAvailability(ParseInt(text).value) ==> r == Ok(ParseInt(text).value)
  {
    match ParseInt(text)
    case None => Err(AvailabilityNotInteger)
    case Some(v) => if v < MinAvailability || v > MaxAvailability then Err(AvailabilityOutOfRange) else Ok(v)
  }

  // ---------------------------------------------------------------------------
  // How the helpers relate to the application's own rules
  // ---------------------------------------------------------------------------

  /** For a name with no surrounding blanks, `checkName(_, 1, 50)` and `setName` agree. */
  lemma CheckNameAgreesWithSetter(d: Doctor, name: string)
    requires IsTrimmed(name)
    ensures CheckName(Some(name), 1, 50).Ok? <==> SetName(d, Some(name)).Ok?
  {
    TrimOfTrimmed(name);
    TrimEmptyIffBlank(name);
  }

  /** A blank name is where they part: the setter stores it, the helper rejects it. */
  lemma BlankNameSplitsHelperAndSetter(d: Doctor)
    ensures SetName(d, Some("    ")).Ok?
    ensures CheckName(Some("    "), 1, 50) == Err(NameOutOfRange(1, 50))
  {
    assert AllTrimmable("    ");
  }

  /** Every date `checkDate` accepts also passes the setter's shape check. */
  lemma CheckDateImpliesSetterAccepts(d: Doctor, date: string)
    requires CheckDate(date).Ok?
    ensures SetDateOfBirth(d, Some(date)).Ok?
  {
  }

  /** Round trip: `checkDate` accepts every real calendar day written as dd/MM/yyyy. */
  lemma CheckDateOfFormat(day: Date)
    requires Fits(day) && IsCalendarDate(day)
    ensures CheckDate(FormatDate(day)) == Ok(FormatDate(day))
  {
    ParseStrictDateOfFormat(day);
  }

  /** `checkEmail` and `setEmail` accept the same non-null addresses. */
  lemma CheckEmailAgreesWithSetter(d: Doctor, email: string)
    ensures CheckEmail(email).Ok? <==> SetEmail(d, Some(email)).Ok?
  {
  }

  /** `checkPhone` accepts exactly the numbers `setMobile` stores, and each of those is a formatted triple. */
  lemma CheckPhoneAgreesWithSetter(d: Doctor, phone: string)
    ensures CheckPhone(phone).Ok? <==> SetMobile(d, Some(phone)).Ok?
    ensures CheckPhone(phone).Ok? ==> phone == FormatMobile(MobileFields(phone))
  {
    if IsValidMobile(phone) {
      FormatOfMobileFields(phone);
    }
  }

  /** Round trip: every status written by `Integer.toString` comes back from `checkAvailability`. */
  lemma CheckAvailabilityOfToString(v: int)
    requires IsInt32(v)
    ensures IsValidAvailability(v) ==> CheckAvailability(IntToString(v)) == Ok(v)
    ensures !IsValidAvailability(v) ==> CheckAvailability(IntToString(v)) == Err(AvailabilityOutOfRange)
  {
    ParseIntToString(v);
  }

  /**
   * On a trimmed answer the two error categories of `checkAvailability` are
   * the two paths of the edit: a format error is caught and ignored, a range
   * error is the exception that interrupts the edit.
   */
  lemma CheckAvailabilityMatchesEdit(d: Doctor, text: string)
    requires IsTrimmed(text)
    ensures CheckAvailability(text) == Err(AvailabilityOutOfRange) <==> AvailabilityRejected(text)
    ensures CheckAvailability(text) == Err(AvailabilityNotInteger) <==> UpdateDoctorAvailability(d, text) == Ok(d) && !AvailabilityIsInteger(text)
    ensures CheckAvailability(text).Ok? ==> UpdateDoctorAvailability(d, text) == Ok(d.(availability := CheckAvailability(text).value))
  {
    TrimOfTrimmed(text);
  }

  // ---------------------------------------------------------------------------
  // The assertions of the unit tests
  // ---------------------------------------------------------------------------

  lemma NameTests()
    ensures CheckName(Some("Dr. John Doe"), 1, 50) == Ok("Dr. John Doe")
    ensures CheckName(None, 1, 50) == Err(NameOutOfRange(1, 50))
    ensures CheckName(Some(""), 1, 50) == Err(NameOutOfRange(1, 50))
    ensures CheckName(Some("    "), 1, 50) == Err(NameOutOfRange(1, 50))
  {
    var accepted := "Dr. John Doe";
    assert !IsTrimmable(accepted[0]);
    ShortNameIsValid(accepted);
    assert AllTrimmable("    ");
  }

  /** The over-long name of the second test: 97 characters, so at least 97 code units. */
  lemma TooLongNameTest(input: string)
    requires input == "This name is far too long and should not be allowed because it exceeds the fifty character limit."
    ensures |input| == 97
    ensures CheckName(Some(input), 1, 50) == Err(NameOutOfRange(1, 50))
  {
  }

  /**
   * The test labelled "exact fifty character name" passes, but its input has
   * 35 characters, 35 UTF-16 code units, so the upper boundary is never exercised.
   */
  lemma FiftyCharacterNameTest()
    ensures |"abcdefghijklmnopqrstuvwxyzabcdefghi"| == 35
    ensures JavaLength("abcdefghijklmnopqrstuvwxyzabcdefghi") == 35
    ensures CheckName(Some("abcdefghijklmnopqrstuvwxyzabcdefghi"), 1, 50) == Ok("abcdefghijklmnopqrstuvwxyzabcdefghi")
  {
    AlphabetNameIsBmp();
    JavaLengthIsSizeIffBmp("abcdefghijklmnopqrstuvwxyzabcdefghi");
    assert !IsTrimmable("abcdefghijklmnopqrstuvwxyzabcdefghi"[0]);
  }

  /** The test's 35-letter name lies in the Basic Multilingual Plane. */
  lemma AlphabetNameIsBmp()
    ensures IsBmp("abcdefghijklmnopqrstuvwxyzabcdefghi")
  {
  }

  /**
   * The boundary that test meant to reach: a length of 50 passes and 51 does
   * not, Java counting UTF-16 code units; for text in the Basic Multilingual
   * Plane those are the characters.
   */
  lemma NameLengthBoundary(name: string)
    requires !AllTrimmable(name)
    ensures JavaLength(name) == 50 ==> CheckName(Some(name), 1, 50) == Ok(name)
    ensures JavaLength(name) == 51 ==> CheckName(Some(name), 1, 50) == Err(NameOutOfRange(1, 50))
    ensures IsBmp(name) && |name| == 50 ==> CheckName(Some(name), 1, 50) == Ok(name)
    ensures |name| == 51 ==> CheckName(Some(name), 1, 50) == Err(NameOutOfRange(1, 50))
  {
    JavaLengthIsSizeIffBmp(name);
  }

  lemma DateTests()
    ensures CheckDate("31-12-2000") == Err(InvalidDateFormat)
    ensures CheckDate("31/12/2000") == Ok("31/12/2000")
    ensures CheckDate("31/02/2020") == Err(InvalidDateFormat)
  {
    assert DateFields("31/12/2000") == Date(31, 12, 2000);
    assert DateFields("31/02/2020") == Date(31, 2, 2020);
  }

  lemma EmailTestRejectsMissingDot()
    ensures CheckEmail("invalid-email@domain") == Err(InvalidEmailFormat)
  {
    var bad := "invalid-email@domain";
    assert forall i :: 0 <= i < |bad| && bad[i] == '@' ==> i == 13;
    assert forall i :: 13 < i < |bad| ==> bad[i] != '.';
    assert !EmailPattern(bad);
  }

  lemma EmailTestAcceptsPlainAddress()
    ensures CheckEmail("doctor@example.com") == Ok("doctor@example.com")
  {
    var good := "doctor@example.com";
    assert good[..6] == "doctor" && good[7..14] == "example" && good[15..] == "com";
    PatternIsValidEmail(good, 6, 14);
  }

  /** Because the tail after the first dot may hold dots, the pattern accepts `a@b..`. */
  lemma EmailTailMayHoldDots()
    ensures CheckEmail("a@b..") == Ok("a@b..")
  {
    var s := "a@b..";
    assert s[..1] == "a" && s[2..3] == "b" && s[4..] == ".";
    PatternIsValidEmail(s, 1, 3);
  }

  lemma PhoneTests()
    ensures CheckPhone("(123)-456-7890") == Ok("(123)-456-7890")
    ensures CheckPhone("1234567890") == Err(InvalidPhoneFormat)
  {
  }

  lemma AvailabilityTests()
    ensures CheckAvailability("two") == Err(AvailabilityNotInteger)
    ensures CheckAvailability("!") == Err(AvailabilityNotInteger)
    ensures CheckAvailability("-1") == Err(AvailabilityOutOfRange)
    ensures CheckAvailability("4") == Err(AvailabilityOutOfRange)
    ensures CheckAvailability("2") == Ok(2)
  {
    assert "-1"[1..] == "1";
    assert DigitsValue("1") == 1;
    assert DigitsValue("4") == 4;
    assert DigitsValue("2") == 2;
  }
}
