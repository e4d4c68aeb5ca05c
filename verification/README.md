# Doctor roster — a Dafny model

This project models the doctor-management lab in
`Lab3.1_HE163831/DoctorManagement`. The lab keeps an in-memory list of
`Doctor` records. A record takes its id from an auto-increment counter, and
each of its six fields has a validating setter. The list supports lookup by
id, delete, search by name, sort by date of birth, and a field-by-field edit.
The project also models the unit test's own validators (`checkName`,
`checkDate`, `checkEmail`, `checkPhone`, `checkAvailability`) and the
assertions the tests make with them.

Everything is written as pure functions:

- A `Doctor` is an immutable datatype and the roster is a `seq<Doctor>`.
- A thrown exception becomes an error value (`Result`), and a Java `null`
  becomes `Option.None`.
- The static `idCounter` is passed in and handed back.
- Each console line the program reads becomes a string argument. Printing is
  dropped.
- Each regular expression is written as a predicate over characters.

Modules:

| file | module | contents |
|---|---|---|
| `results.dfy` | `Results` | `Option` and `Result` |
| `java_text.dfy` | `JavaText` | `String.length` in UTF-16 code units, `String.trim`, ASCII `toLowerCase`, `indexOf`/`contains`, `Integer.parseInt`, `Integer.toString` |
| `validation.dfy` | `Validation` | the field rules, the date, e-mail and mobile patterns, the strict calendar parse |
| `doctors.dfy` | `Doctors` | the entity, the setters, the constructor and id counter, `equals`/`hashCode` |
| `management.dfy` | `Management` | find, delete, search, sort and edit on the roster |
| `test_helpers.dfy` | `TestHelpers` | the test's `check*` helpers and its assertions |

Behaviour of the code that the contracts make explicit:

- **The edit is not atomic.** It runs six independent steps. An out-of-range
  availability throws out of the fourth step. The new name, date and
  specialization stay in place, and e-mail and mobile are never asked.
- **Specializations.** `setSpecialization` accepts the empty string. The edit
  path refuses an empty answer.
- **Dates.** The setter and the edit check only the shape `dd/dd/dddd`, so
  `31/02/2020` and `99/99/9999` are stored. Only the test helper and the sort
  key parse the calendar date.
- **E-mail.** The part after the first dot that follows the `@` may itself hold
  dots, so `a@b..` is accepted.
- **Lengths.** `String.length()` counts UTF-16 code units, so a character above
  U+FFFF counts twice against the 50- and 255-unit limits (`JavaText.JavaLength`).

## Model

| member | source | states |
|---|---|---|
| JavaText.Trim | Lab3.1_HE163831/DoctorManagement/src/doctormanagement/DoctorManagement.java:94 | `trim` returns an infix of the line that neither starts nor ends with a character at or below U+0020; everything cut off is such a character |
| JavaText.TrimStripsBlanks | Lab3.1_HE163831/DoctorManagement/src/doctormanagement/DoctorManagement.java:190 | blanks around a trimmed core are removed exactly, whatever they are |
| JavaText.TrimEmptyIffBlank | Lab3.1_HE163831/DoctorManagement/test/DoctorManagementTest.java:17 | `trim().isEmpty()` holds exactly of all-blank strings |
| JavaText.TrimOfTrimmed | Lab3.1_HE163831/DoctorManagement/src/doctormanagement/DoctorManagement.java:157 | trimming an already trimmed string changes nothing |
| JavaText.JavaLength | Lab3.1_HE163831/DoctorManagement/src/doctormanagement/Doctor.java:38 | the UTF-16 length lies between the number of characters and twice it |
| JavaText.JavaLengthIsSizeIffBmp | Lab3.1_HE163831/DoctorManagement/src/doctormanagement/Doctor.java:60 | the UTF-16 length is the character count exactly when every character lies in the Basic Multilingual Plane |
| JavaText.JavaLengthOfSupplementary | Lab3.1_HE163831/DoctorManagement/src/doctormanagement/Doctor.java:38 | text made only of characters above U+FFFF has twice as many code units as characters |
| JavaText.ToLower | Lab3.1_HE163831/DoctorManagement/src/doctormanagement/DoctorManagement.java:160 | lowercasing keeps the length and maps every character on its own |
| JavaText.ToLowerIdempotent | Lab3.1_HE163831/DoctorManagement/src/doctormanagement/DoctorManagement.java:160 | lowercasing twice is lowercasing once |
| JavaText.IndexOfFrom | Lab3.1_HE163831/DoctorManagement/src/doctormanagement/DoctorManagement.java:160 | the result is the first occurrence at or after `from`, or -1 when there is none |
| JavaText.IndexOf | Lab3.1_HE163831/DoctorManagement/src/doctormanagement/DoctorManagement.java:160 | the first position where the query occurs, or -1 exactly when it occurs nowhere |
| JavaText.Contains | Lab3.1_HE163831/DoctorManagement/src/doctormanagement/DoctorManagement.java:160 | `contains` as `indexOf(t) >= 0`; it holds exactly when the query occurs somewhere (`ContainsIffOccurs`) |
| JavaText.ContainsIffOccurs | Lab3.1_HE163831/DoctorManagement/src/doctormanagement/DoctorManagement.java:160 | `contains` holds exactly when the query occurs at some position |
| JavaText.ContainsEmpty | Lab3.1_HE163831/DoctorManagement/src/doctormanagement/DoctorManagement.java:160 | every name contains the empty query |
| JavaText.ParseInt | Lab3.1_HE163831/DoctorManagement/src/doctormanagement/DoctorManagement.java:190 | succeeds exactly on a numeral (a sign or a digit, then digits, at least one digit) whose value lies in the 32-bit range, and returns that value (`NumeralValue`, leading zeros and `+` allowed) |
| JavaText.ParseIntExamples | Lab3.1_HE163831/DoctorManagement/src/doctormanagement/DoctorManagement.java:190 | `+2` and `02` read as 2 and `-0` as 0; a lone sign, a leading blank and the empty string are refused |
| JavaText.ParseIntToString | Lab3.1_HE163831/DoctorManagement/src/doctormanagement/DoctorManagement.java:115 | `parseInt` reads back every `int` that `toString` writes |
| JavaText.NatToStringValue | Lab3.1_HE163831/DoctorManagement/src/doctormanagement/DoctorManagement.java:115 | the decimal digits written for `n` denote `n` |
| Validation.IsDateShape | Lab3.1_HE163831/DoctorManagement/src/doctormanagement/DoctorManagement.java:193-195 | exactly `\d{2}/\d{2}/\d{4}`, the same test as Doctor.java:49; each such string is the formatting of its day, month and year and reads back (`FormatOfDateFields`, `DateFieldsOfFormat`) |
| Validation.FormatOfDateFields | Lab3.1_HE163831/DoctorManagement/src/doctormanagement/Doctor.java:49 | every `dd/dd/dddd` string is the formatting of the day, month and year it holds |
| Validation.DateFieldsOfFormat | Lab3.1_HE163831/DoctorManagement/src/doctormanagement/DoctorManagement.java:194 | reading the fields of a formatted date gives the date back |
| Validation.ParseStrictDate | Lab3.1_HE163831/DoctorManagement/src/doctormanagement/DoctorManagement.java:13-14 | the non-lenient `dd/MM/yyyy` parse succeeds only on the shape with a real calendar day, whose formatting is the input; it fails only when one of the two is missing |
| Validation.ParseStrictDateOfFormat | Lab3.1_HE163831/DoctorManagement/src/doctormanagement/DoctorManagement.java:176 | every real calendar day, written as `dd/MM/yyyy`, parses back to itself |
| Validation.DateLeTotalOrder | Lab3.1_HE163831/DoctorManagement/src/doctormanagement/DoctorManagement.java:174 | the (year, month, day) order that `Date.compareTo` gives is a total order |
| Validation.FirstIndex | Lab3.1_HE163831/DoctorManagement/src/doctormanagement/DoctorManagement.java:198 | the first position of a character, or -1 when it is absent |
| Validation.IsValidEmail | Lab3.1_HE163831/DoctorManagement/src/doctormanagement/DoctorManagement.java:197-199 | a deterministic matcher splitting at the first `@` and the first `.` after it; it accepts exactly the strings of the pattern (`IsValidEmailIffPattern`) |
| Validation.IsValidEmailIffPattern | Lab3.1_HE163831/DoctorManagement/src/doctormanagement/DoctorManagement.java:197-199 | the executable matcher accepts exactly the strings of the shape local `@` label `.` tail, each part non-empty and in its character class |
| Validation.PatternIsValidEmail | Lab3.1_HE163831/DoctorManagement/src/doctormanagement/Doctor.java:82 | any split of a string into local `@` label `.` tail with the right classes is accepted |
| Validation.IsValidEmailMatches | Lab3.1_HE163831/DoctorManagement/src/doctormanagement/Doctor.java:82 | every accepted address has such a split |
| Validation.IsValidMobile | Lab3.1_HE163831/DoctorManagement/src/doctormanagement/DoctorManagement.java:201-203 | exactly `(ddd)-ddd-dddd`; each such string is the formatting of its three numbers and reads back (`FormatOfMobileFields`, `MobileFieldsOfFormat`) |
| Validation.FormatOfMobileFields | Lab3.1_HE163831/DoctorManagement/src/doctormanagement/Doctor.java:93 | every `(ddd)-ddd-dddd` string is the formatting of the three numbers it holds |
| Validation.MobileFieldsOfFormat | Lab3.1_HE163831/DoctorManagement/src/doctormanagement/DoctorManagement.java:202 | reading the numbers of a formatted mobile gives them back |
| Doctors.SetName | Lab3.1_HE163831/DoctorManagement/src/doctormanagement/Doctor.java:37-42 | accepts exactly a non-null name of 1 to 50 UTF-16 code units and stores it unchanged; otherwise `InvalidName` |
| Doctors.SetNameCountsCodeUnits | Lab3.1_HE163831/DoctorManagement/src/doctormanagement/Doctor.java:38 | 26 characters above U+FFFF are 52 code units, so `setName` refuses them |
| Doctors.SetDateOfBirth | Lab3.1_HE163831/DoctorManagement/src/doctormanagement/Doctor.java:48-53 | accepts exactly a non-null `dd/dd/dddd` string, with no calendar check |
| Doctors.SetSpecialization | Lab3.1_HE163831/DoctorManagement/src/doctormanagement/Doctor.java:59-64 | rejects only null or more than 255 UTF-16 code units; the empty string is stored |
| Doctors.SetAvailability | Lab3.1_HE163831/DoctorManagement/src/doctormanagement/Doctor.java:70-75 | accepts exactly 0 to 3 |
| Doctors.SetEmail | Lab3.1_HE163831/DoctorManagement/src/doctormanagement/Doctor.java:81-86 | accepts exactly the addresses of the e-mail pattern; a null address is a `NullReference` |
| Doctors.SetMobile | Lab3.1_HE163831/DoctorManagement/src/doctormanagement/Doctor.java:92-97 | accepts exactly `(ddd)-ddd-dddd`; null is a `NullReference` |
| Doctors.SettersPreserveWellFormed | Lab3.1_HE163831/DoctorManagement/src/doctormanagement/Doctor.java:37-97 | a successful setter keeps every field within its rule |
| Doctors.NextId | Lab3.1_HE163831/DoctorManagement/src/doctormanagement/Doctor.java:25 | `idCounter++` stays a Java `int` and adds one below the maximum |
| Doctors.NextIdWraps | Lab3.1_HE163831/DoctorManagement/src/doctormanagement/Doctor.java:25 | past `Integer.MAX_VALUE` the counter wraps to `Integer.MIN_VALUE` |
| Doctors.NewDoctor | Lab3.1_HE163831/DoctorManagement/src/doctormanagement/Doctor.java:13-21 | the counter always advances; the doctor is built exactly when every argument passes, carries the old counter as id and is well formed; otherwise the error is the first setter to reject |
| Doctors.NewDoctors | Lab3.1_HE163831/DoctorManagement/src/doctormanagement/DoctorManagement.java:66-68 | a run of constructions yields one result per input and leaves the counter a Java `int`; the ids it hands out are stated by `NewDoctorsIds` |
| Doctors.NewDoctorsIds | Lab3.1_HE163831/DoctorManagement/src/doctormanagement/Doctor.java:24-26 | in a run of constructions the i-th gets id `counter + i`, failed ones included, and the counter ends `n` higher |
| Doctors.NewDoctorsDistinctIds | Lab3.1_HE163831/DoctorManagement/src/doctormanagement/Doctor.java:4 | without overflow, later constructions get strictly larger ids |
| Doctors.Wrap32 | Lab3.1_HE163831/DoctorManagement/src/doctormanagement/Doctor.java:123-129 | the result is the Java `int` congruent to the input modulo 2^32 |
| Doctors.Wrap32OfInt | Lab3.1_HE163831/DoctorManagement/src/doctormanagement/Doctor.java:123 | a value already in `int` range is unchanged |
| Doctors.StringHash | Lab3.1_HE163831/DoctorManagement/src/doctormanagement/Doctor.java:124-128 | `String.hashCode` as a Java `int`; congruent modulo 2^32 to the documented polynomial (`StringHashIsPolynomial`) |
| Doctors.PolynomialHashSnoc | Lab3.1_HE163831/DoctorManagement/src/doctormanagement/Doctor.java:124 | appending a character multiplies the documented `String.hashCode` polynomial by 31 and adds the character |
| Doctors.StringHashIsPolynomial | Lab3.1_HE163831/DoctorManagement/src/doctormanagement/Doctor.java:124-128 | the wrapped 31-fold equals s[0]·31^(n-1) + … + s[n-1] modulo 2^32 |
| Doctors.Equals | Lab3.1_HE163831/DoctorManagement/src/doctormanagement/Doctor.java:107-119 | compares id, name, date, specialization, e-mail and mobile; an equivalence (`EqualsIsEquivalence`) that holds exactly when two doctors agree up to availability (`EqualsIffSameUpToAvailability`) |
| Doctors.HashMultipliersArePowers | Lab3.1_HE163831/DoctorManagement/src/doctormanagement/Doctor.java:123-128 | the multipliers in `hashCode`'s expanded polynomial are 31^1 to 31^5 |
| Doctors.HashCode | Lab3.1_HE163831/DoctorManagement/src/doctormanagement/Doctor.java:122-130 | a Java `int` congruent modulo 2^32 to id·31^5 + name·31^4 + date·31^3 + specialization·31^2 + e-mail·31 + mobile over the string hashes; equal for `equals` doctors (`HashCodeConsistent`) |
| Doctors.HashFields | Lab3.1_HE163831/DoctorManagement/src/doctormanagement/Doctor.java:123-129 | the wrapped 31-fold of the id and five hashes is congruent modulo 2^32 to the unwrapped polynomial |
| Doctors.EqualsIsEquivalence | Lab3.1_HE163831/DoctorManagement/src/doctormanagement/Doctor.java:107-119 | `equals` is reflexive, symmetric and transitive |
| Doctors.EqualsIffSameUpToAvailability | Lab3.1_HE163831/DoctorManagement/src/doctormanagement/Doctor.java:113-118 | two doctors are `equals` exactly when they agree on every field but availability |
| Doctors.HashCodeConsistent | Lab3.1_HE163831/DoctorManagement/src/doctormanagement/Doctor.java:122-130 | `equals` doctors have the same `hashCode` |
| Doctors.AvailabilityInvisible | Lab3.1_HE163831/DoctorManagement/src/doctormanagement/Doctor.java:107-130 | changing only availability keeps a doctor `equals` to itself and its hash unchanged |
| Management.FindIndex | Lab3.1_HE163831/DoctorManagement/src/doctormanagement/DoctorManagement.java:185 | the index of the first doctor with the id, or -1 when none has it |
| Management.FirstWithIdUnique | Lab3.1_HE163831/DoctorManagement/src/doctormanagement/DoctorManagement.java:185 | the first position with an id is unique and is the one found |
| Management.FindDoctorById | Lab3.1_HE163831/DoctorManagement/src/doctormanagement/DoctorManagement.java:184-186 | null exactly when no doctor has the id; otherwise the first such doctor in list order |
| Management.InputDoctorId | Lab3.1_HE163831/DoctorManagement/src/doctormanagement/DoctorManagement.java:188-191 | an id exactly when the trimmed line is a numeral in the 32-bit range, and then its value; a blank line is the uncaught format error (`InputDoctorIdReadsBack` is the round trip) |
| Management.InputDoctorIdReadsBack | Lab3.1_HE163831/DoctorManagement/src/doctormanagement/DoctorManagement.java:188-191 | a line holding a written `int`, with blanks around it, reads back as that id |
| Management.SearchDoctorById | Lab3.1_HE163831/DoctorManagement/src/doctormanagement/DoctorManagement.java:145-153 | a non-numeric id line is the uncaught `IdNotNumeric` error (Java's NumberFormatException); otherwise the result is the lookup of that id |
| Management.FirstEqualIndexFinds | Lab3.1_HE163831/DoctorManagement/src/doctormanagement/DoctorManagement.java:138 | the first position holding an `equals` element is unique and is the one found |
| Management.RemoveFirstEqual | Lab3.1_HE163831/DoctorManagement/src/doctormanagement/DoctorManagement.java:138 | `List.remove(Object)` leaves the list alone when nothing is `equals`, and otherwise drops exactly the first `equals` element |
| Management.FoundDoctorIsFirstEqual | Lab3.1_HE163831/DoctorManagement/src/doctormanagement/DoctorManagement.java:136-138 | the doctor found by id is the first element `equals` to itself, so `remove` drops that very position |
| Management.RemoveAt | Lab3.1_HE163831/DoctorManagement/src/doctormanagement/DoctorManagement.java:138 | removal shortens the list by one and shifts only the elements after the removed one |
| Management.DeleteDoctor | Lab3.1_HE163831/DoctorManagement/src/doctormanagement/DoctorManagement.java:134-143 | a non-numeric id is the `IdNotNumeric` error; a missing id leaves the roster unchanged; a found id removes exactly its first doctor and keeps the order of the rest |
| Management.RemovalKeepsUnique | Lab3.1_HE163831/DoctorManagement/src/doctormanagement/DoctorManagement.java:138 | with unique ids, the removed id is gone and the rest stay unique |
| Management.DeleteTwice | Lab3.1_HE163831/DoctorManagement/src/doctormanagement/DoctorManagement.java:134-143 | with unique ids, deleting the same id twice equals deleting it once |
| Management.DeletePreservesInvariants | Lab3.1_HE163831/DoctorManagement/src/doctormanagement/DoctorManagement.java:134-143 | deleting keeps ids unique and every doctor well formed |
| Management.FilterByName | Lab3.1_HE163831/DoctorManagement/src/doctormanagement/DoctorManagement.java:159-163 | a doctor is in the result exactly when it is in the roster and its lowercased name contains the lowercased query |
| Management.FilterByNameAppend | Lab3.1_HE163831/DoctorManagement/src/doctormanagement/DoctorManagement.java:159-163 | the filter keeps roster order: it distributes over concatenation |
| Management.SearchDoctorByName | Lab3.1_HE163831/DoctorManagement/src/doctormanagement/DoctorManagement.java:155-171 | the result holds exactly the matching doctors for the trimmed query, and is empty exactly when none matches |
| Management.SearchBlankQuery | Lab3.1_HE163831/DoctorManagement/src/doctormanagement/DoctorManagement.java:157-160 | a blank query returns the whole roster in order |
| Management.FilterAll | Lab3.1_HE163831/DoctorManagement/src/doctormanagement/DoctorManagement.java:160 | the empty query matches every doctor |
| Management.FilterIgnoresQueryCase | Lab3.1_HE163831/DoctorManagement/src/doctormanagement/DoctorManagement.java:160 | lowercasing the query first changes nothing |
| Management.DobKey | Lab3.1_HE163831/DoctorManagement/src/doctormanagement/DoctorManagement.java:174-180 | a key exactly when the stored date has the shape and names a real calendar day; the key formats back to the stored string |
| Management.KeyLeTotalOrder | Lab3.1_HE163831/DoctorManagement/src/doctormanagement/DoctorManagement.java:174-180 | the key order, with a failed parse first, is a total order |
| Management.WithKeyAppend | Lab3.1_HE163831/DoctorManagement/src/doctormanagement/DoctorManagement.java:174 | the doctors with a given key in a concatenation are those of each part, in order |
| Management.SwapDistinctKeys | Lab3.1_HE163831/DoctorManagement/src/doctormanagement/DoctorManagement.java:174 | swapping adjacent doctors with different keys keeps every per-key order |
| Management.InsertBy | Lab3.1_HE163831/DoctorManagement/src/doctormanagement/DoctorManagement.java:174 | insertion adds exactly the new doctor to the multiset |
| Management.InsertBySorted | Lab3.1_HE163831/DoctorManagement/src/doctormanagement/DoctorManagement.java:174 | insertion into a sorted roster stays sorted |
| Management.InsertByStable | Lab3.1_HE163831/DoctorManagement/src/doctormanagement/DoctorManagement.java:174 | insertion places the new doctor before every doctor with the same key |
| Management.SortBy | Lab3.1_HE163831/DoctorManagement/src/doctormanagement/DoctorManagement.java:174-180 | the result is sorted by key, is a permutation, and keeps equal keys in roster order (stability of `List.sort`) |
| Management.SortStepStable | Lab3.1_HE163831/DoctorManagement/src/doctormanagement/DoctorManagement.java:174 | inserting the head into a stable sort of the tail is a stable sort of the whole |
| Management.StableSortUnique | Lab3.1_HE163831/DoctorManagement/src/doctormanagement/DoctorManagement.java:174 | two rosters sorted by the same key that keep the same per-key order are equal: a stable sort has exactly one result |
| Management.SortByIsTheStableSort | Lab3.1_HE163831/DoctorManagement/src/doctormanagement/DoctorManagement.java:174-180 | the insertion sort returns exactly the roster any stable sort by the key returns, `List.sort` included |
| Management.AllDatesParsePermutation | Lab3.1_HE163831/DoctorManagement/src/doctormanagement/DoctorManagement.java:176 | whether every date parses does not depend on the order of the roster |
| Management.SortedDatesAscend | Lab3.1_HE163831/DoctorManagement/src/doctormanagement/DoctorManagement.java:174-176 | once every date parses, a sorted roster is non-decreasing by (year, month, day) |
| Management.SortDoctorsByDateOfBirth | Lab3.1_HE163831/DoctorManagement/src/doctormanagement/DoctorManagement.java:173-182 | as written: the `UnparseableDateOfBirth` error (Java's NullPointerException) exactly when there are two or more doctors and some date does not parse; otherwise a stable permutation non-decreasing by date |
| Management.SortDoctorsByDateOfBirthNullsFirst | Lab3.1_HE163831/DoctorManagement/src/doctormanagement/DoctorManagement.java:173-182 | corrected: unparseable dates first, then ascending dates, as a stable permutation of any roster |
| Management.UpdateDoctorName | Lab3.1_HE163831/DoctorManagement/src/doctormanagement/DoctorManagement.java:92-96 | never throws; the name becomes the trimmed answer exactly when that is 1 to 50 UTF-16 code units long |
| Management.UpdateDoctorDob | Lab3.1_HE163831/DoctorManagement/src/doctormanagement/DoctorManagement.java:98-102 | never throws; the date becomes the trimmed answer exactly when it has the date shape |
| Management.UpdateDoctorSpecialization | Lab3.1_HE163831/DoctorManagement/src/doctormanagement/DoctorManagement.java:104-108 | never throws; replaced exactly by a non-empty trimmed answer of at most 255 UTF-16 code units |
| Management.UpdateDoctorAvailability | Lab3.1_HE163831/DoctorManagement/src/doctormanagement/DoctorManagement.java:110-120 | throws exactly on an integer outside 0..3; a non-integer keeps the old value; an accepted integer is stored |
| Management.UpdateDoctorEmail | Lab3.1_HE163831/DoctorManagement/src/doctormanagement/DoctorManagement.java:122-126 | never throws; replaced exactly when the trimmed answer matches the e-mail pattern |
| Management.UpdateDoctorMobile | Lab3.1_HE163831/DoctorManagement/src/doctormanagement/DoctorManagement.java:128-132 | never throws; replaced exactly when the trimmed answer matches the mobile pattern |
| Management.EditFront | Lab3.1_HE163831/DoctorManagement/src/doctormanagement/DoctorManagement.java:82-84 | the first three steps replace name, date and specialization each by its own rule, without throwing |
| Management.EditBack | Lab3.1_HE163831/DoctorManagement/src/doctormanagement/DoctorManagement.java:86-87 | the last two steps replace e-mail and mobile each by its own rule, without throwing |
| Management.ApplyEdit | Lab3.1_HE163831/DoctorManagement/src/doctormanagement/DoctorManagement.java:82-87 | the only exception an edit can raise is the availability error |
| Management.ApplyEditFieldwise | Lab3.1_HE163831/DoctorManagement/src/doctormanagement/DoctorManagement.java:82-87 | the steps leave the field-by-field edited doctor, and stop exactly on an out-of-range availability, after the first three fields |
| Management.EditDoctor | Lab3.1_HE163831/DoctorManagement/src/doctormanagement/DoctorManagement.java:72-90 | a non-numeric id fails before lookup; a missing id is "not found"; otherwise the first doctor with the id is replaced in place by the edited doctor, interrupted with `InvalidAvailability` exactly on an out-of-range availability |
| Management.EditWithEmptyAnswers | Lab3.1_HE163831/DoctorManagement/src/doctormanagement/DoctorManagement.java:92-132 | pressing Enter at every prompt leaves the doctor as it was |
| Management.ApplyEditPreservesWellFormed | Lab3.1_HE163831/DoctorManagement/src/doctormanagement/DoctorManagement.java:82-87 | an edit, completed or interrupted, keeps a well-formed doctor well formed |
| Management.EditedDoctorFacts | Lab3.1_HE163831/DoctorManagement/src/doctormanagement/DoctorManagement.java:82-87 | the edited doctor keeps its id and is well formed |
| Management.EditedFrontWellFormed | Lab3.1_HE163831/DoctorManagement/src/doctormanagement/DoctorManagement.java:82-84 | the first three steps keep the id and well-formedness |
| Management.EditedBackWellFormed | Lab3.1_HE163831/DoctorManagement/src/doctormanagement/DoctorManagement.java:86-87 | the last two steps keep the id and well-formedness |
| Management.EditedDoctorKeepsId | Lab3.1_HE163831/DoctorManagement/src/doctormanagement/DoctorManagement.java:80-87 | the edit never changes the id |
| Management.ReplaceKeepsIds | Lab3.1_HE163831/DoctorManagement/src/doctormanagement/DoctorManagement.java:82-87 | replacing a doctor in place by one with the same id leaves every id where it was |
| Management.ReplaceKeepsInvariants | Lab3.1_HE163831/DoctorManagement/src/doctormanagement/DoctorManagement.java:82-87 | such a replacement keeps ids unique and every doctor well formed |
| Management.EditKeepsIds | Lab3.1_HE163831/DoctorManagement/src/doctormanagement/DoctorManagement.java:72-90 | an edit keeps the roster length and every id |
| Management.EditPreservesInvariants | Lab3.1_HE163831/DoctorManagement/src/doctormanagement/DoctorManagement.java:72-90 | an edit keeps ids unique and every doctor well formed |
| Management.ShortNameIsValid | Lab3.1_HE163831/DoctorManagement/src/doctormanagement/Doctor.java:38 | any name of 1 to 25 characters is within 50 code units |
| Management.EditIsNotAtomic | Lab3.1_HE163831/DoctorManagement/src/doctormanagement/DoctorManagement.java:82-85 | renaming John Doe and answering 7 for availability leaves him renamed while the edit is interrupted |
| Management.SortFailsOnImpossibleDate | Lab3.1_HE163831/DoctorManagement/src/doctormanagement/DoctorManagement.java:176-178 | the setter stores 31/02/2020, and sorting two doctors, one with that date, fails |
| Management.NullsFirstOrdersImpossibleDate | Lab3.1_HE163831/DoctorManagement/src/doctormanagement/DoctorManagement.java:176-178 | the corrected sort puts the doctor with 31/02/2020 first |
| TestHelpers.CheckName | Lab3.1_HE163831/DoctorManagement/test/DoctorManagementTest.java:16-21 | accepts exactly a non-null, non-blank name whose UTF-16 length is within the bounds and returns it unchanged; otherwise the range error |
| TestHelpers.CheckDate | Lab3.1_HE163831/DoctorManagement/test/DoctorManagementTest.java:24-33 | accepts only a `dd/MM/yyyy` string naming a real calendar day and returns it unchanged |
| TestHelpers.CheckEmail | Lab3.1_HE163831/DoctorManagement/test/DoctorManagementTest.java:36-41 | accepts exactly the e-mail pattern and returns the input |
| TestHelpers.CheckPhone | Lab3.1_HE163831/DoctorManagement/test/DoctorManagementTest.java:44-49 | returns the input when accepted; otherwise the phone error |
| TestHelpers.CheckAvailability | Lab3.1_HE163831/DoctorManagement/test/DoctorManagementTest.java:52-62 | every parsed value in 0..3 is returned as it is; the format error exactly for a non-integer, otherwise the range error |
| TestHelpers.CheckNameAgreesWithSetter | Lab3.1_HE163831/DoctorManagement/test/DoctorManagementTest.java:16-21 | on a name without surrounding blanks, `checkName(_, 1, 50)` and `setName` agree |
| TestHelpers.BlankNameSplitsHelperAndSetter | Lab3.1_HE163831/DoctorManagement/test/DoctorManagementTest.java:17 | a blank name is stored by the setter but rejected by the helper |
| TestHelpers.CheckDateImpliesSetterAccepts | Lab3.1_HE163831/DoctorManagement/test/DoctorManagementTest.java:24-33 | every date the helper accepts also passes the setter |
| TestHelpers.CheckDateOfFormat | Lab3.1_HE163831/DoctorManagement/test/DoctorManagementTest.java:24-33 | every real calendar day written as `dd/MM/yyyy` is accepted |
| TestHelpers.CheckEmailAgreesWithSetter | Lab3.1_HE163831/DoctorManagement/test/DoctorManagementTest.java:36-41 | the helper and `setEmail` accept the same non-null addresses |
| TestHelpers.CheckPhoneAgreesWithSetter | Lab3.1_HE163831/DoctorManagement/test/DoctorManagementTest.java:44-49 | the helper and `setMobile` accept the same numbers, each the formatting of its fields |
| TestHelpers.CheckAvailabilityOfToString | Lab3.1_HE163831/DoctorManagement/test/DoctorManagementTest.java:52-62 | every written `int` comes back when in 0..3 and gives the range error otherwise |
| TestHelpers.CheckAvailabilityMatchesEdit | Lab3.1_HE163831/DoctorManagement/test/DoctorManagementTest.java:52-62 | on a trimmed answer the range error is the edit's uncaught exception, the format error the ignored answer, and an accepted value is what the edit stores |
| TestHelpers.NameTests | Lab3.1_HE163831/DoctorManagement/test/DoctorManagementTest.java:190-215 | the assertions on null, `""` and four spaces (all refused), and on `Dr. John Doe` (accepted, lines 65-71) |
| TestHelpers.TooLongNameTest | Lab3.1_HE163831/DoctorManagement/test/DoctorManagementTest.java:73-80 | the test's name has 97 characters and is refused with the range error |
| TestHelpers.FiftyCharacterNameTest | Lab3.1_HE163831/DoctorManagement/test/DoctorManagementTest.java:82-89 | the "fifty character" input has 35 characters and is accepted |
| TestHelpers.NameLengthBoundary | Lab3.1_HE163831/DoctorManagement/test/DoctorManagementTest.java:82-89 | the boundary that test names: 50 code units of non-blank text pass and 51 do not; for text inside the Basic Multilingual Plane, 50 characters pass and 51 do not |
| TestHelpers.DateTests | Lab3.1_HE163831/DoctorManagement/test/DoctorManagementTest.java:92-107 | `31-12-2000` and `31/02/2020` are rejected, `31/12/2000` accepted (also lines 218-224) |
| TestHelpers.EmailTestRejectsMissingDot | Lab3.1_HE163831/DoctorManagement/test/DoctorManagementTest.java:110-116 | `invalid-email@domain` is rejected |
| TestHelpers.EmailTestAcceptsPlainAddress | Lab3.1_HE163831/DoctorManagement/test/DoctorManagementTest.java:118-125 | `doctor@example.com` is accepted |
| TestHelpers.EmailTailMayHoldDots | Lab3.1_HE163831/DoctorManagement/test/DoctorManagementTest.java:37 | the pattern accepts `a@b..` |
| TestHelpers.PhoneTests | Lab3.1_HE163831/DoctorManagement/test/DoctorManagementTest.java:127-143 | `(123)-456-7890` is accepted and `1234567890` rejected |
| TestHelpers.AvailabilityTests | Lab3.1_HE163831/DoctorManagement/test/DoctorManagementTest.java:145-188 | `two` and `!` give the format error, `-1` and `4` the range error, `2` gives 2 |

## Left out

- The console layer is not modelled: `main`, `start`, the Scanner reads, every `println`, `toString` and the output of `addSampleDoctors`. Input lines are string arguments, and the first sample doctor appears only as a constant in the concrete lemmas at the end of management.dfy.
- JUnitTest.java is not modelled: it tests classes of another project (`common.Validation`, `dao.DoctorDAO`, `entity.Doctor`) and depends on a live database.
- `SimpleDateFormat` is idealised as an exact `dd/MM/yyyy` parse over the proleptic Gregorian calendar with year at least 1. The real parser also accepts one-digit fields and trailing text, and it switches to the Julian calendar before October 1582. This affects `Validation.ParseStrictDate`, `TestHelpers.CheckDate` and the sort key.
- TestHelpers.CheckDate: accepts only the exact two-two-four digit shape, which is narrower than the real lenient-width parse (for example `1/1/2000`). The pattern is also fixed to `dd/MM/yyyy`, where Java takes it as a parameter; every call passes that pattern.
- `Integer.parseInt` is modelled on ASCII digits only. Java also accepts other Unicode decimal digits.
- `toLowerCase` is modelled as ASCII lowercasing only. The locale-dependent and non-ASCII mappings are not modelled.
- Doctors.StringHash: folds over Dafny characters, while `String.hashCode` folds over UTF-16 code units; the two agree on text in the Basic Multilingual Plane.
- The `this == obj`, null and class checks at the top of `equals` are not modelled. The model compares two doctors only.
- TestHelpers.CheckEmail: takes a non-null string. A null input would throw a NullPointerException in Java, and no test passes one.
- TestHelpers.CheckPhone: takes a non-null string, for the same reason.
- An edit answer line is never null, because Scanner returns lines. Null arguments are modelled for the setters, the constructor and `checkName`.
- TestHelpers.CheckDate: takes a non-null string. In Java `parse(null)` throws a NullPointerException that `checkDate` does not catch, and no test passes null.
- TestHelpers.CheckAvailability: takes a non-null string. In Java `Integer.parseInt(null)` throws NumberFormatException, so null gets the format error, and no test passes null.
- The roster after an uncaught exception is not modelled for the sort. `List.sort` may leave the list partly permuted when its comparator throws, and the model reports only the error. For the edit, the partly edited roster is modelled.
- A `Comparator` that never throws is assumed for everything except the null date key, and the sort is modelled by its result: the unique stable sorted permutation (`Management.StableSortUnique`). The merge steps of TimSort are not modelled.
- The global counter's thread-safety and the static field's lifetime are not modelled. The counter is threaded explicitly.

## Findings

| source | as written | input that shows it | evidently intended | confidence | as-written member | corrected member |
|---|---|---|---|---|---|---|
| Lab3.1_HE163831/DoctorManagement/src/doctormanagement/DoctorManagement.java:174-180 | the key extractor returns null when the date fails strict parsing, and `Comparator.comparing` then throws a NullPointerException | two doctors, one with date of birth `31/02/2020`, which `setDateOfBirth` accepts because it checks only the shape | order the unparseable dates (first, here) instead of crashing | high for the crash; not executed | Management.SortDoctorsByDateOfBirth, Management.SortFailsOnImpossibleDate | Management.SortDoctorsByDateOfBirthNullsFirst, Management.NullsFirstOrdersImpossibleDate |
| Lab3.1_HE163831/DoctorManagement/test/DoctorManagementTest.java:85 | the input commented "50 characters" is `abcdefghijklmnopqrstuvwxyzabcdefghi`, which has 35 characters | that string itself | a 50-character name, to exercise the upper bound | high; not executed | TestHelpers.FiftyCharacterNameTest | TestHelpers.NameLengthBoundary |
