/**
 * The field rules of a doctor record: the length and range checks of the
 * `Doctor` setters and the three regular expressions shared by the setters and
 * the edit dialogue, each written out character by character; plus the strict
 * `dd/MM/yyyy` calendar reading used when sorting and in the unit tests.
 */
module Validation {
  import opened Results
  import opened JavaText

  const MaxNameLength: nat := 50
  const MaxSpecializationLength: nat := 255
  const MinAvailability: int := 0
  const MaxAvailability: int := 3

  /** `setName`: between 1 and 50 UTF-16 code units, nothing else checked. */
  predicate IsValidName(s: string) {
    1 <= JavaLength(s) <= MaxNameLength
  }

  /** `setSpecialization`: at most 255 UTF-16 code units; the empty string passes. */
  predicate IsValidSpecialization(s: string) {
    JavaLength(s) <= MaxSpecializationLength
  }

  /** `setAvailability`: one of the four statuses 0..3. */
  predicate IsValidAvailability(a: int) {
    MinAvailability <= a <= MaxAvailability
  }

  // ---------------------------------------------------------------------------
  // Date of birth: the pattern \d{2}/\d{2}/\d{4}
  // ---------------------------------------------------------------------------

  /** The whole string matches `\d{2}/\d{2}/\d{4}`: a shape, not a calendar check. */
  predicate IsDateShape(s: string) {
    && |s| == 10
    && IsDigit(s[0]) && IsDigit(s[1]) && s[2] == '/'
    && IsDigit(s[3]) && IsDigit(s[4]) && s[5] == '/'
    && IsDigit(s[6]) && IsDigit(s[7]) && IsDigit(s[8]) && IsDigit(s[9])
  }

  /** Day, month and year as written, not yet checked against the calendar. */
  datatype Date = Date(day: nat, month: nat, year: nat)

  /** The date fields can be written back in the fixed-width pattern. */
  predicate Fits(d: Date) {
    d.day < 100 && d.month < 100 && d.year < 10000
  }

  function Two(n: nat): (s: string)
    requires n < 100
    ensures |s| == 2 && IsDigit(s[0]) && IsDigit(s[1])
    ensures 10 * DigitValue(s[0]) + DigitValue(s[1]) == n
  {
    [DigitChar(n / 10), DigitChar(n % 10)]
  }

  function Three(n: nat): (s: string)
    requires n < 1000
    ensures |s| == 3 && IsDigit(s[0]) && IsDigit(s[1]) && IsDigit(s[2])
    ensures 100 * DigitValue(s[0]) + 10 * DigitValue(s[1]) + DigitValue(s[2]) == n
  {
    [DigitChar(n / 100)] + Two(n % 100)
  }

  function Four(n: nat): (s: string)
    requires n < 10000
    ensures |s| == 4 && IsDigit(s[0]) && IsDigit(s[1]) && IsDigit(s[2]) && IsDigit(s[3])
    ensures 1000 * DigitValue(s[0]) + 100 * DigitValue(s[1]) + 10 * DigitValue(s[2]) + DigitValue(s[3]) == n
  {
    Two(n / 100) + Two(n % 100)
  }

  lemma TwoOfDigits(a: char, b: char)
    requires IsDigit(a) && IsDigit(b)
    ensures Two(10 * DigitValue(a) + DigitValue(b)) == [a, b]
  {
    var s := Two(10 * DigitValue(a) + DigitValue(b));
    DigitCharValue(a);
    DigitCharValue(b);
    assert s[0] == DigitChar(DigitValue(a));
  }

  lemma ThreeOfDigits(a: char, b: char, c: char)
    requires IsDigit(a) && IsDigit(b) && IsDigit(c)
    ensures Three(100 * DigitValue(a) + 10 * DigitValue(b) + DigitValue(c)) == [a, b, c]
  {
    var n := 100 * DigitValue(a) + 10 * DigitValue(b) + DigitValue(c);
    assert n / 100 == DigitValue(a) && n % 100 == 10 * DigitValue(b) + DigitValue(c);
    DigitCharValue(a);
    TwoOfDigits(b, c);
  }

  lemma FourOfDigits(a: char, b: char, c: char, d: char)
    requires IsDigit(a) && IsDigit(b) && IsDigit(c) && IsDigit(d)
    ensures Four(1000 * DigitValue(a) + 100 * DigitValue(b) + 10 * DigitValue(c) + DigitValue(d)) == [a, b, c, d]
  {
    var hi := 10 * DigitValue(a) + DigitValue(b);
    var lo := 10 * DigitValue(c) + DigitValue(d);
    var n := 100 * hi + lo;
    assert n / 100 == hi && n % 100 == lo;
    TwoOfDigits(a, b);
    TwoOfDigits(c, d);
  }

  /** Writes a date as `dd/MM/yyyy`, zero padded. */
  function FormatDate(d: Date): (s: string)
    requires Fits(d)
    ensures IsDateShape(s)
  {
    Two(d.day) + "/" + Two(d.month) + "/" + Four(d.year)
  }

  /** Reads the three digit groups of a string of the date shape. */
  function DateFields(s: string): (d: Date)
    requires IsDateShape(s)
    ensures Fits(d)
  {
    Date(
      10 * DigitValue(s[0]) + DigitValue(s[1]),
      10 * DigitValue(s[3]) + DigitValue(s[4]),
      1000 * DigitValue(s[6]) + 100 * DigitValue(s[7]) + 10 * DigitValue(s[8]) + DigitValue(s[9]))
  }

  /** Round trip: reading a formatted date gives the date back. */
  lemma DateFieldsOfFormat(d: Date)
    requires Fits(d)
    ensures DateFields(FormatDate(d)) == d
  {
    var s := FormatDate(d);
    var day, month, year := Two(d.day), Two(d.month), Four(d.year);
    assert s[0] == day[0] && s[1] == day[1];
    assert s[3] == month[0] && s[4] == month[1];
    assert s[6] == year[0] && s[7] == year[1] && s[8] == year[2] && s[9] == year[3];
  }

  /** Round trip: every string of the date shape is the formatting of its fields. */
  lemma FormatOfDateFields(s: string)
    requires IsDateShape(s)
    ensures FormatDate(DateFields(s)) == s
  {
    TwoOfDigits(s[0], s[1]);
    TwoOfDigits(s[3], s[4]);
    FourOfDigits(s[6], s[7], s[8], s[9]);
    var d := DateFields(s);
    assert Two(d.day) == [s[0], s[1]];
    assert Two(d.month) == [s[3], s[4]];
    assert Four(d.year) == [s[6], s[7], s[8], s[9]];
    assert s == [s[0], s[1]] + "/" + [s[3], s[4]] + "/" + [s[6], s[7], s[8], s[9]];
  }

  // ---------------------------------------------------------------------------
  // The calendar: a non-lenient dd/MM/yyyy reading
  // ---------------------------------------------------------------------------

  /** Gregorian leap years: divisible by 4, and not by 100 unless by 400. */
  predicate IsLeapYear(y: nat) {
    y % 4 == 0 && (y % 100 != 0 || y % 400 == 0)
  }

  function DaysInMonth(month: nat, year: nat): nat
    requires 1 <= month <= 12
  {
    if month == 2 then (if IsLeapYear(year) then 29 else 28)
    else if month == 4 || month == 6 || month == 9 || month == 11 then 30
    else 31
  }

  /** A real day: year at least 1, month 1..12, day within that month. */
  predicate IsCalendarDate(d: Date) {
    1 <= d.year && 1 <= d.month <= 12 && 1 <= d.day <= DaysInMonth(d.month, d.year)
  }

  /**
   * A strict `dd/MM/yyyy` parse: the date shape, naming a real calendar day.
   * `None` is the parse failure.
   */
  function ParseStrictDate(s: string): (r: Option<Date>)
    ensures r.Some? ==> IsDateShape(s) && IsCalendarDate(r.value) && Fits(r.value) && FormatDate(r.value) == s
    ensures r.None? ==> !IsDateShape(s) || !IsCalendarDate(DateFields(s))
  {
    if IsDateShape(s) && IsCalendarDate(DateFields(s)) then
      FormatOfDateFields(s);
      Some(DateFields(s))
    else None
  }

  /** Every real calendar day is accepted once written in the pattern. */
  lemma ParseStrictDateOfFormat(d: Date)
    requires Fits(d) && IsCalendarDate(d)
    ensures ParseStrictDate(FormatDate(d)) == Some(d)
  {
    DateFieldsOfFormat(d);
  }

  /** Chronological order: by year, then month, then day. */
  predicate DateLe(a: Date, b: Date) {
    a.year < b.year
    || (a.year == b.year && a.month < b.month)
    || (a.year == b.year && a.month == b.month && a.day <= b.day)
  }

  /** Chronological order is a total order on dates. */
  lemma DateLeTotalOrder(a: Date, b: Date, c: Date)
    ensures DateLe(a, a)
    ensures DateLe(a, b) || DateLe(b, a)
    ensures DateLe(a, b) && DateLe(b, a) ==> a == b
    ensures DateLe(a, b) && DateLe(b, c) ==> DateLe(a, c)
  {
  }

  // ---------------------------------------------------------------------------
  // E-mail: ^[a-zA-Z0-9_.+-]+@[a-zA-Z0-9-]+\.[a-zA-Z0-9-.]+$
  // ---------------------------------------------------------------------------

  /** `[a-zA-Z0-9_.+-]`, the local part before the `@`. */
  predicate IsLocalChar(c: char) {
    IsAsciiLetter(c) || IsDigit(c) || c == '_' || c == '.' || c == '+' || c == '-'
  }

  /** `[a-zA-Z0-9-]`, the label right after the `@`. */
  predicate IsLabelChar(c: char) {
    IsAsciiLetter(c) || IsDigit(c) || c == '-'
  }

  /** `[a-zA-Z0-9-.]`, the tail after the first dot; it may hold further dots. */
  predicate IsTailChar(c: char) {
    IsLabelChar(c) || c == '.'
  }

  predicate AllLocal(s: string) {
    forall i :: 0 <= i < |s| ==> IsLocalChar(s[i])
  }

  predicate AllLabel(s: string) {
    forall i :: 0 <= i < |s| ==> IsLabelChar(s[i])
  }

  predicate AllTail(s: string) {
    forall i :: 0 <= i < |s| ==> IsTailChar(s[i])
  }

  /**
   * The regular expression read literally: some split of `s` into a non-empty
   * local part, `@`, a non-empty label, `.`, and a non-empty tail.
   */
  ghost predicate EmailPattern(s: string) {
    exists at, dot ::
      && 0 < at && at + 1 < dot && dot + 1 < |s|
      && s[at] == '@' && s[dot] == '.'
      && AllLocal(s[..at]) && AllLabel(s[at + 1..dot]) && AllTail(s[dot + 1..])
  }

  /** The first index of `c` in `s`, or -1. */
  function FirstIndex(s: string, c: char): (r: int)
    ensures -1 <= r < |s|
    ensures r >= 0 ==> s[r] == c && forall i :: 0 <= i < r ==> s[i] != c
    ensures r == -1 ==> forall i :: 0 <= i < |s| ==> s[i] != c
  {
    if s == [] then -1
    else if s[0] == c then 0
    else
      var k := FirstIndex(s[1..], c);
      if k == -1 then -1 else k + 1
  }

  /**
   * A deterministic matcher for the e-mail pattern: no class before the label
   * admits `@` and the label admits no `.`, so the split must be at the first
   * `@` and at the first `.` after it.
   */
  predicate IsValidEmail(s: string) {
    var at := FirstIndex(s, '@');
    at > 0 &&
    var rest := s[at + 1..];
    var dot := FirstIndex(rest, '.');
    && dot > 0 && dot + 1 < |rest|
    && AllLocal(s[..at]) && AllLabel(rest[..dot]) && AllTail(rest[dot + 1..])
  }

  lemma FirstIndexAt(s: string, c: char, k: int)
    requires 0 <= k < |s| && s[k] == c
    requires forall i :: 0 <= i < k ==> s[i] != c
    ensures FirstIndex(s, c) == k
  {
  }

  lemma {:induction false} IsValidEmailMatches(s: string)
    requires IsValidEmail(s)
    ensures EmailPattern(s)
  {
    var at := FirstIndex(s, '@');
    var rest := s[at + 1..];
    var dot := FirstIndex(rest, '.');
    assert s[at + 1..at + 1 + dot] == rest[..dot];
    assert s[at + 1 + dot + 1..] == rest[dot + 1..];
    assert s[at + 1 + dot] == rest[dot];
  }

  lemma {:induction false} PatternIsValidEmail(s: string, at: int, dot: int)
    requires 0 < at && at + 1 < dot && dot + 1 < |s|
    requires s[at] == '@' && s[dot] == '.'
    requires AllLocal(s[..at]) && AllLabel(s[at + 1..dot]) && AllTail(s[dot + 1..])
    ensures IsValidEmail(s)
  {
    forall i | 0 <= i < at ensures s[i] != '@' {
      assert IsLocalChar(s[..at][i]);
    }
    FirstIndexAt(s, '@', at);
    var rest := s[at + 1..];
    forall i | 0 <= i < dot - at - 1 ensures rest[i] != '.' {
      assert rest[i] == s[at + 1..dot][i];
      assert IsLabelChar(s[at + 1..dot][i]);
    }
    FirstIndexAt(rest, '.', dot - at - 1);
    assert rest[..dot - at - 1] == s[at + 1..dot];
    assert rest[dot - at..] == s[dot + 1..];
  }

  /** The matcher accepts exactly the strings the regular expression matches. */
  lemma IsValidEmailIffPattern(s: string)
    ensures IsValidEmail(s) <==> EmailPattern(s)
  {
    if IsValidEmail(s) {
      IsValidEmailMatches(s);
    }
    if EmailPattern(s) {
      var at, dot :|
        && 0 < at && at + 1 < dot && dot + 1 < |s|
        && s[at] == '@' && s[dot] == '.'
        && AllLocal(s[..at]) && AllLabel(s[at + 1..dot]) && AllTail(s[dot + 1..]);
      PatternIsValidEmail(s, at, dot);
    }
  }

  // ---------------------------------------------------------------------------
  // Mobile: \(\d{3}\)-\d{3}-\d{4}
  // ---------------------------------------------------------------------------

  /** Exactly `(ddd)-ddd-dddd`: fourteen characters, digits in the three groups. */
  predicate IsValidMobile(s: string) {
    && |s| == 14
    && s[0] == '(' && IsDigit(s[1]) && IsDigit(s[2]) && IsDigit(s[3]) && s[4] == ')'
    && s[5] == '-' && IsDigit(s[6]) && IsDigit(s[7]) && IsDigit(s[8])
    && s[9] == '-' && IsDigit(s[10]) && IsDigit(s[11]) && IsDigit(s[12]) && IsDigit(s[13])
  }

  /** The three groups of a mobile number: area code, exchange, line. */
  datatype Mobile = Mobile(area: nat, exchange: nat, line: nat)

  predicate MobileFits(m: Mobile) {
    m.area < 1000 && m.exchange < 1000 && m.line < 10000
  }

  function FormatMobile(m: Mobile): (s: string)
    requires MobileFits(m)
    ensures IsValidMobile(s)
  {
    "(" + Three(m.area) + ")-" + Three(m.exchange) + "-" + Four(m.line)
  }

  function MobileFields(s: string): (m: Mobile)
    requires IsValidMobile(s)
    ensures MobileFits(m)
  {
    Mobile(
      100 * DigitValue(s[1]) + 10 * DigitValue(s[2]) + DigitValue(s[3]),
      100 * DigitValue(s[6]) + 10 * DigitValue(s[7]) + DigitValue(s[8]),
      1000 * DigitValue(s[10]) + 100 * DigitValue(s[11]) + 10 * DigitValue(s[12]) + DigitValue(s[13]))
  }

  /** Round trip: the groups of a formatted number are the groups it was made from. */
  lemma MobileFieldsOfFormat(m: Mobile)
    requires MobileFits(m)
    ensures MobileFields(FormatMobile(m)) == m
  {
    var s := FormatMobile(m);
    var area, exchange, line := Three(m.area), Three(m.exchange), Four(m.line);
    assert s[1] == area[0] && s[2] == area[1] && s[3] == area[2];
    assert s[6] == exchange[0] && s[7] == exchange[1] && s[8] == exchange[2];
    assert s[10] == line[0] && s[11] == line[1] && s[12] == line[2] && s[13] == line[3];
  }

  /** Round trip: every accepted mobile number is the formatting of its own groups. */
  lemma FormatOfMobileFields(s: string)
    requires IsValidMobile(s)
    ensures FormatMobile(MobileFields(s)) == s
  {
    ThreeOfDigits(s[1], s[2], s[3]);
    ThreeOfDigits(s[6], s[7], s[8]);
    FourOfDigits(s[10], s[11], s[12], s[13]);
    var m := MobileFields(s);
    assert Three(m.area) == [s[1], s[2], s[3]];
    assert Three(m.exchange) == [s[6], s[7], s[8]];
    assert Four(m.line) == [s[10], s[11], s[12], s[13]];
    assert s == "(" + [s[1], s[2], s[3]] + ")-" + [s[6], s[7], s[8]] + "-" + [s[10], s[11], s[12], s[13]];
  }
}
