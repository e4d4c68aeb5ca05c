/**
 * The roster operations of `DoctorManagement`: lookup by id, delete, search by
 * name, sort by date of birth and the field-by-field edit. The roster is a
 * sequence in list order; each console line the Java code reads becomes a
 * string argument, and each operation returns the roster it leaves behind.
 */
module Management {
  import opened Results
  import opened JavaText
  import opened Validation
  import opened Doctors

  type Roster = seq<Doctor>

  /** Why an operation stopped with an uncaught exception. */
  datatype RosterError =
    | IdNotNumeric            // Integer.parseInt threw on the id line
    | UnparseableDateOfBirth  // the sort comparator met a null key

  predicate UniqueIds(r: Roster) {
    forall i, j :: 0 <= i < j < |r| ==> r[i].id != r[j].id
  }

  ghost predicate AllWellFormed(r: Roster) {
    forall i :: 0 <= i < |r| ==> WellFormed(r[i])
  }

  // ---------------------------------------------------------------------------
  // findDoctorById and inputDoctorId
  // ---------------------------------------------------------------------------

  /** Index `k` holds the first doctor in list order whose id is `id`. */
  predicate FirstWithId(r: Roster, id: int, k: int) {
    0 <= k < |r| && r[k].id == id && forall j :: 0 <= j < k ==> r[j].id != id
  }

  predicate HasId(r: Roster, id: int) {
    exists i :: 0 <= i < |r| && r[i].id == id
  }

  /** Position of the first doctor with the given id, or -1. */
  function FindIndex(r: Roster, id: int): (k: int)
    ensures -1 <= k < |r|
    ensures k >= 0 ==> FirstWithId(r, id, k)
    ensures k == -1 ==> forall j :: 0 <= j < |r| ==> r[j].id != id
  {
    if r == [] then -1
    else if r[0].id == id then 0
    else
      var k := FindIndex(r[1..], id);
      if k == -1 then -1 else k + 1
  }

  /** There is only ever one first position. */
  lemma FirstWithIdUnique(r: Roster, id: int, k: int)
    requires FirstWithId(r, id, k)
    ensures FindIndex(r, id) == k
  {
  }

  /** `findDoctorById`: the first doctor with the id in list order, or null. */
  function FindDoctorById(r: Roster, id: int): (found: Option<Doctor>)
    ensures found.None? <==> !HasId(r, id)
    ensures found.Some? ==> exists k :: FirstWithId(r, id, k) && found.value == r[k]
  {
    var k := FindIndex(r, id);
    if k == -1 then None else Some(r[k])
  }

  /** `inputDoctorId`: `Integer.parseInt` of the trimmed line; `None` is the uncaught NumberFormatException. */
  function InputDoctorId(line: string): (r: Option<int>)
    ensures r.Some? <==> IsNumeral(Trim(line)) && IsInt32(NumeralValue(Trim(line)))
    ensures r.Some? ==> IsInt32(r.value) && r.value == NumeralValue(Trim(line))
    ensures AllTrimmable(line) ==> r.None?
  {
    TrimEmptyIffBlank(line);
    ParseInt(Trim(line))
  }

  /**
   * Round trip: a line holding a written `int`, with any blanks around it,
   * reads back as that id.
   */
  lemma InputDoctorIdReadsBack(id: int, pre: string, post: string)
    requires IsInt32(id) && AllTrimmable(pre) && AllTrimmable(post)
    ensures InputDoctorId(pre + IntToString(id) + post) == Some(id)
  {
    var text := IntToString(id);
    assert IsTrimmed(text) by {
      var digits := if id < 0 then NatToString(-id) else NatToString(id);
      assert text[|text| - 1] == digits[|digits| - 1];
    }
    TrimStripsBlanks(pre, text, post);
    ParseIntToString(id);
  }

  /** `searchDoctorByID`: the doctor shown for an id line, or none for "Doctor not found." */
  function SearchDoctorById(r: Roster, line: string): (res: Result<Option<Doctor>, RosterError>)
    ensures res.Err? <==> InputDoctorId(line).None?
    ensures res.Err? ==> res.error == IdNotNumeric
    ensures res.Ok? ==> res.value == FindDoctorById(r, InputDoctorId(line).value)
  {
    match InputDoctorId(line)
    case None => Err(IdNotNumeric)
    case Some(id) => Ok(FindDoctorById(r, id))
  }

  // ---------------------------------------------------------------------------
  // deleteDoctor
  // ---------------------------------------------------------------------------

  /** Position of the first element `equals` to `d`, or -1. */
  function FirstEqualIndex(r: Roster, d: Doctor): (k: int)
    ensures -1 <= k < |r|
    ensures k >= 0 ==> Equals(d, r[k]) && forall j :: 0 <= j < k ==> !Equals(d, r[j])
    ensures k == -1 ==> forall j :: 0 <= j < |r| ==> !Equals(d, r[j])
  {
    if r == [] then -1
    else if Equals(d, r[0]) then 0
    else
      var k := FirstEqualIndex(r[1..], d);
      if k == -1 then -1 else k + 1
  }

  /** `k` is the first position holding an element `equals` to `d`. */
  predicate FirstEqual(r: Roster, d: Doctor, k: int) {
    0 <= k < |r| && Equals(d, r[k]) && forall j :: 0 <= j < k ==> !Equals(d, r[j])
  }

  /** There is only one first position, and `FirstEqualIndex` finds it. */
  lemma FirstEqualIndexFinds(r: Roster, d: Doctor)
    ensures forall k :: FirstEqual(r, d, k) <==> k == FirstEqualIndex(r, d) && k >= 0
  {
    var f := FirstEqualIndex(r, d);
    forall k | FirstEqual(r, d, k)
      ensures k == f
    {
    }
  }

  /** `List.remove(Object)`: drops the first element `equals` to `d`, if any. */
  function RemoveFirstEqual(r: Roster, d: Doctor): (res: Roster)
    ensures (forall j :: 0 <= j < |r| ==> !Equals(d, r[j])) ==> res == r
    ensures forall k :: FirstEqual(r, d, k) ==> res == RemoveAt(r, k)
  {
    FirstEqualIndexFinds(r, d);
    var k := FirstEqualIndex(r, d);
    if k == -1 then r else RemoveAt(r, k)
  }

  /**
   * The doctor `findDoctorById` returns is the first element `equals` to
   * itself, so `List.remove(Object)` removes exactly that position.
   */
  lemma FoundDoctorIsFirstEqual(r: Roster, id: int, k: int)
    requires FirstWithId(r, id, k)
    ensures FirstEqualIndex(r, r[k]) == k
  {
    EqualsIsEquivalence(r[k], r[k], r[k]);
  }

  /** `r` without its element at index `k`. */
  function RemoveAt(r: Roster, k: int): (res: Roster)
    requires 0 <= k < |r|
    ensures |res| == |r| - 1
    ensures forall i :: 0 <= i < |res| ==> res[i] == if i < k then r[i] else r[i + 1]
  {
    r[..k] + r[k + 1..]
  }

  /**
   * `deleteDoctor`: parse the id (an uncaught error on a non-number), then, if
   * a doctor has it, remove exactly the first such doctor and keep the order of
   * the rest; otherwise leave the roster as it is.
   */
  function DeleteDoctor(r: Roster, line: string): (res: Result<Roster, RosterError>)
    ensures res.Err? <==> InputDoctorId(line).None?
    ensures res.Err? ==> res.error == IdNotNumeric
    ensures res.Ok? && !HasId(r, InputDoctorId(line).value) ==> res.value == r
    ensures res.Ok? ==> forall k :: FirstWithId(r, InputDoctorId(line).value, k) ==>
              res.value == RemoveAt(r, k)
  {
    match InputDoctorId(line)
    case None => Err(IdNotNumeric)
    case Some(id) =>
      match FindDoctorById(r, id)
      case None => Ok(r)
      case Some(doctor) =>
        var k := FindIndex(r, id);
        FoundDoctorIsFirstEqual(r, id, k);
        assert RemoveFirstEqual(r, doctor) == RemoveAt(r, k);
        Ok(RemoveFirstEqual(r, doctor))
  }

  lemma RemovalKeepsUnique(r: Roster, k: int)
    requires UniqueIds(r) && 0 <= k < |r|
    ensures UniqueIds(RemoveAt(r, k))
    ensures !HasId(RemoveAt(r, k), r[k].id)
  {
  }

  /**
   * With unique ids, deleting an id twice removes the doctor once: the second
   * call finds nothing and returns the roster unchanged.
   */
  lemma DeleteTwice(r: Roster, line: string)
    requires UniqueIds(r)
    requires DeleteDoctor(r, line).Ok?
    ensures DeleteDoctor(DeleteDoctor(r, line).value, line) == DeleteDoctor(r, line)
  {
    var id := InputDoctorId(line).value;
    var k := FindIndex(r, id);
    if k >= 0 {
      RemovalKeepsUnique(r, k);
      assert FirstWithId(r, id, k);
    }
  }

  /** Deleting keeps ids unique and every remaining doctor well formed. */
  lemma DeletePreservesInvariants(r: Roster, line: string)
    requires UniqueIds(r) && AllWellFormed(r)
    requires DeleteDoctor(r, line).Ok?
    ensures UniqueIds(DeleteDoctor(r, line).value) && AllWellFormed(DeleteDoctor(r, line).value)
  {
    var id := InputDoctorId(line).value;
    var k := FindIndex(r, id);
    if k >= 0 {
      assert FirstWithId(r, id, k);
      var s := RemoveAt(r, k);
      assert DeleteDoctor(r, line).value == s;
      RemovalKeepsUnique(r, k);
      forall i | 0 <= i < |s| ensures WellFormed(s[i]) {
        assert s[i] == if i < k then r[i] else r[i + 1];
      }
    }
  }

  // ---------------------------------------------------------------------------
  // searchDoctorByName
  // ---------------------------------------------------------------------------

  /** The lower-cased name contains the lower-cased query. */
  predicate NameMatches(d: Doctor, query: string) {
    Contains(ToLower(d.name), ToLower(query))
  }

  /** The doctors whose names match, in roster order. */
  function FilterByName(r: Roster, query: string): (res: Roster)
    ensures |res| <= |r|
    ensures forall d :: d in res <==> d in r && NameMatches(d, query)
  {
    if r == [] then []
    else
      var rest := FilterByName(r[1..], query);
      if NameMatches(r[0], query) then [r[0]] + rest else rest
  }

  /** `searchDoctorByName`: the query line is trimmed, the doctors' names are not. */
  function SearchDoctorByName(r: Roster, line: string): (res: Roster)
    ensures forall d :: d in res <==> d in r && NameMatches(d, Trim(line))
    ensures res == [] <==> forall i :: 0 <= i < |r| ==> !NameMatches(r[i], Trim(line))
  {
    var res := FilterByName(r, Trim(line));
    assert res != [] ==> res[0] in res;
    res
  }

  /** The filter keeps roster order: it distributes over concatenation. */
  lemma {:induction false} FilterByNameAppend(a: Roster, b: Roster, query: string)
    ensures FilterByName(a + b, query) == FilterByName(a, query) + FilterByName(b, query)
  {
    if a != [] {
      var head := if NameMatches(a[0], query) then [a[0]] else [];
      assert (a + b)[0] == a[0];
      assert (a + b)[1..] == a[1..] + b;
      FilterByNameAppend(a[1..], b, query);
      assert FilterByName(a + b, query) == head + (FilterByName(a[1..], query) + FilterByName(b, query));
      assert FilterByName(a, query) == head + FilterByName(a[1..], query);
    } else {
      assert a + b == b;
    }
  }

  /** A blank query matches every doctor: the whole roster comes back in order. */
  lemma {:induction false} SearchBlankQuery(r: Roster, line: string)
    requires AllTrimmable(line)
    ensures SearchDoctorByName(r, line) == r
  {
    TrimEmptyIffBlank(line);
    FilterAll(r, Trim(line));
  }

  lemma {:induction false} FilterAll(r: Roster, query: string)
    requires query == []
    ensures FilterByName(r, query) == r
  {
    if r != [] {
      ContainsEmpty(ToLower(r[0].name));
      FilterAll(r[1..], query);
    }
  }

  /** The search does not see the case of the query. */
  lemma {:induction false} FilterIgnoresQueryCase(r: Roster, query: string)
    ensures FilterByName(r, ToLower(query)) == FilterByName(r, query)
  {
    ToLowerIdempotent(query);
    if r != [] {
      FilterIgnoresQueryCase(r[1..], query);
    }
  }

  // ---------------------------------------------------------------------------
  // sortDoctorsByDateOfBirth
  // ---------------------------------------------------------------------------

  /** The comparator key: the strictly parsed date of birth, or null when parsing fails. */
  function DobKey(d: Doctor): (k: Option<Date>)
    ensures k.Some? ==> IsCalendarDate(k.value) && Fits(k.value) && FormatDate(k.value) == d.dateOfBirth
    ensures k.None? <==> !IsDateShape(d.dateOfBirth) || !IsCalendarDate(DateFields(d.dateOfBirth))
  {
    ParseStrictDate(d.dateOfBirth)
  }

  /** Key order with a failed parse first, then chronological. */
  predicate KeyLe(a: Option<Date>, b: Option<Date>) {
    a.None? || (b.Some? && DateLe(a.value, b.value))
  }

  lemma KeyLeTotalOrder(a: Option<Date>, b: Option<Date>, c: Option<Date>)
    ensures KeyLe(a, a)
    ensures KeyLe(a, b) || KeyLe(b, a)
    ensures KeyLe(a, b) && KeyLe(b, a) ==> a == b
    ensures KeyLe(a, b) && KeyLe(b, c) ==> KeyLe(a, c)
  {
    if a.Some? && b.Some? && c.Some? {
      DateLeTotalOrder(a.value, b.value, c.value);
    } else if a.Some? && b.Some? {
      DateLeTotalOrder(a.value, b.value, a.value);
    } else if a.Some? {
      DateLeTotalOrder(a.value, a.value, a.value);
    }
  }

  /*
   * The sort below takes its key as a parameter so that its proofs need only
   * the order on keys, never how a key is computed from a doctor.
   */

  predicate SortedBy(r: Roster, key: Doctor -> Option<Date>) {
    forall i, j :: 0 <= i < j < |r| ==> KeyLe(key(r[i]), key(r[j]))
  }

  /** The doctors whose key is `k`, in roster order. */
  function WithKey(r: Roster, key: Doctor -> Option<Date>, k: Option<Date>): Roster {
    if r == [] then []
    else (if key(r[0]) == k then [r[0]] else []) + WithKey(r[1..], key, k)
  }

  /** Stability: for every key, the doctors with that key appear in the same relative order. */
  ghost predicate SameOrderPerKey(a: Roster, b: Roster, key: Doctor -> Option<Date>) {
    forall k :: WithKey(a, key, k) == WithKey(b, key, k)
  }

  lemma {:induction false} WithKeyAppend(a: Roster, b: Roster, key: Doctor -> Option<Date>, k: Option<Date>)
    ensures WithKey(a + b, key, k) == WithKey(a, key, k) + WithKey(b, key, k)
  {
    if a != [] {
      var head := if key(a[0]) == k then [a[0]] else [];
      assert (a + b)[0] == a[0];
      assert (a + b)[1..] == a[1..] + b;
      WithKeyAppend(a[1..], b, key, k);
      assert WithKey(a + b, key, k) == head + (WithKey(a[1..], key, k) + WithKey(b, key, k));
      assert WithKey(a, key, k) == head + WithKey(a[1..], key, k);
    } else {
      assert a + b == b;
    }
  }

  /** Two adjacent doctors with different keys may trade places without changing any per-key order. */
  lemma SwapDistinctKeys(x: Doctor, y: Doctor, s: Roster, key: Doctor -> Option<Date>, k: Option<Date>)
    requires key(x) != key(y)
    ensures WithKey([y] + ([x] + s), key, k) == WithKey([x] + ([y] + s), key, k)
  {
    WithKeyAppend([y], [x] + s, key, k);
    WithKeyAppend([x], s, key, k);
    WithKeyAppend([x], [y] + s, key, k);
    WithKeyAppend([y], s, key, k);
  }

  /** Stable insertion: `x` goes before the first doctor whose key is not below its own. */
  function InsertBy(x: Doctor, s: Roster, key: Doctor -> Option<Date>): (res: Roster)
    ensures multiset(res) == multiset(s) + multiset{x}
  {
    if s == [] || KeyLe(key(x), key(s[0])) then [x] + s
    else
      assert s == [s[0]] + s[1..];
      [s[0]] + InsertBy(x, s[1..], key)
  }

  lemma {:induction false} InsertBySorted(x: Doctor, s: Roster, key: Doctor -> Option<Date>)
    requires SortedBy(s, key)
    ensures SortedBy(InsertBy(x, s, key), key)
  {
    if s == [] || KeyLe(key(x), key(s[0])) {
      var res := [x] + s;
      forall i, j | 0 <= i < j < |res| ensures KeyLe(key(res[i]), key(res[j])) {
        if i == 0 {
          KeyLeTotalOrder(key(x), key(s[0]), key(res[j]));
        } else {
          assert res[i] == s[i - 1] && res[j] == s[j - 1];
        }
      }
    } else {
      var rest := InsertBy(x, s[1..], key);
      InsertBySorted(x, s[1..], key);
      KeyLeTotalOrder(key(x), key(s[0]), key(x));
      var res := [s[0]] + rest;
      forall i, j | 0 <= i < j < |res| ensures KeyLe(key(res[i]), key(res[j])) {
        if i == 0 {
          var y := res[j];
          assert y in multiset(s[1..]) + multiset{x} by {
            assert y in rest;
          }
          if y != x {
            var m :| 0 <= m < |s[1..]| && s[1..][m] == y;
            assert s[m + 1] == y;
          }
        } else {
          assert res[i] == rest[i - 1] && res[j] == rest[j - 1];
        }
      }
    }
  }

  lemma {:induction false} InsertByStable(x: Doctor, s: Roster, key: Doctor -> Option<Date>, k: Option<Date>)
    ensures WithKey(InsertBy(x, s, key), key, k) == WithKey([x] + s, key, k)
  {
    if !(s == [] || KeyLe(key(x), key(s[0]))) {
      var rest := InsertBy(x, s[1..], key);
      InsertByStable(x, s[1..], key, k);
      KeyLeTotalOrder(key(x), key(s[0]), key(x));
      WithKeyAppend([s[0]], rest, key, k);
      WithKeyAppend([s[0]], [x] + s[1..], key, k);
      SwapDistinctKeys(x, s[0], s[1..], key, k);
      assert [x] + s == [x] + ([s[0]] + s[1..]);
    }
  }

  /**
   * Stable insertion sort: sorted by key, failed parses first; a permutation;
   * and doctors with equal keys keep their roster order, as `List.sort` does.
   */
  function SortBy(r: Roster, key: Doctor -> Option<Date>): (res: Roster)
    ensures SortedBy(res, key)
    ensures multiset(res) == multiset(r)
    ensures SameOrderPerKey(res, r, key)
  {
    if r == [] then []
    else
      var rest := SortBy(r[1..], key);
      InsertBySorted(r[0], rest, key);
      SortStepStable(r, rest, key);
      assert r == [r[0]] + r[1..];
      InsertBy(r[0], rest, key)
  }

  /** Inserting the head into a stable sort of the tail gives a stable sort of the whole. */
  lemma SortStepStable(r: Roster, rest: Roster, key: Doctor -> Option<Date>)
    requires r != [] && SameOrderPerKey(rest, r[1..], key)
    ensures SameOrderPerKey(InsertBy(r[0], rest, key), r, key)
  {
    forall k ensures WithKey(InsertBy(r[0], rest, key), key, k) == WithKey(r, key, k) {
      InsertByStable(r[0], rest, key, k);
      WithKeyAppend([r[0]], rest, key, k);
      WithKeyAppend([r[0]], r[1..], key, k);
      assert r == [r[0]] + r[1..];
    }
  }

  /** The first doctor `WithKey` finds has key `k` and comes from the roster. */
  lemma {:induction false} WithKeyWitness(r: Roster, key: Doctor -> Option<Date>, k: Option<Date>)
    requires WithKey(r, key, k) != []
    ensures key(WithKey(r, key, k)[0]) == k
    ensures exists i :: 0 <= i < |r| && r[i] == WithKey(r, key, k)[0]
  {
    if key(r[0]) != k {
      WithKeyWitness(r[1..], key, k);
      var i :| 0 <= i < |r[1..]| && r[1..][i] == WithKey(r[1..], key, k)[0];
      assert r[i + 1] == WithKey(r, key, k)[0];
    } else {
      assert r[0] == WithKey(r, key, k)[0];
    }
  }

  /** A non-empty roster holds a doctor with the key of its first doctor. */
  lemma WithKeyOfHead(r: Roster, key: Doctor -> Option<Date>)
    ensures r != [] ==> WithKey(r, key, key(r[0])) != []
  {
  }

  /**
   * A stable sort has exactly one result: two rosters sorted by the same key
   * that keep the same per-key order are equal. So the insertion sort here
   * gives the roster that any stable sort, `List.sort` included, gives.
   */
  lemma {:induction false} StableSortUnique(a: Roster, b: Roster, key: Doctor -> Option<Date>)
    requires SortedBy(a, key) && SortedBy(b, key) && SameOrderPerKey(a, b, key)
    ensures a == b
    decreases |a|
  {
    if a == [] || b == [] {
      WithKeyOfHead(a, key);
      WithKeyOfHead(b, key);
    } else {
      var ka, kb := key(a[0]), key(b[0]);
      assert KeyLe(ka, kb) by {
        assert WithKey(a, key, kb) == WithKey(b, key, kb) != [];
        WithKeyWitness(a, key, kb);
        var i :| 0 <= i < |a| && a[i] == WithKey(a, key, kb)[0];
        KeyLeTotalOrder(ka, ka, ka);
      }
      assert KeyLe(kb, ka) by {
        assert WithKey(b, key, ka) == WithKey(a, key, ka) != [];
        WithKeyWitness(b, key, ka);
        var i :| 0 <= i < |b| && b[i] == WithKey(b, key, ka)[0];
        KeyLeTotalOrder(kb, kb, kb);
      }
      KeyLeTotalOrder(ka, kb, ka);
      assert a[0] == WithKey(a, key, ka)[0] == WithKey(b, key, ka)[0] == b[0];
      forall k ensures WithKey(a[1..], key, k) == WithKey(b[1..], key, k) {
        var head := if key(a[0]) == k then [a[0]] else [];
        assert WithKey(a, key, k) == head + WithKey(a[1..], key, k);
        assert WithKey(b, key, k) == head + WithKey(b[1..], key, k);
        assert WithKey(a[1..], key, k) == WithKey(a, key, k)[|head|..];
      }
      StableSortUnique(a[1..], b[1..], key);
      assert a == [a[0]] + a[1..] && b == [b[0]] + b[1..];
    }
  }

  /** `SortBy` returns the one sorted roster that keeps every per-key order of its input. */
  lemma SortByIsTheStableSort(r: Roster, s: Roster, key: Doctor -> Option<Date>)
    requires SortedBy(s, key) && SameOrderPerKey(s, r, key)
    ensures SortBy(r, key) == s
  {
    var t := SortBy(r, key);
    assert SameOrderPerKey(t, s, key) by {
      forall k ensures WithKey(t, key, k) == WithKey(s, key, k) {
        assert WithKey(t, key, k) == WithKey(r, key, k);
      }
    }
    StableSortUnique(t, s, key);
  }

  /** Whether every stored date of birth parses. */
  predicate AllDatesParse(r: Roster) {
    forall i :: 0 <= i < |r| ==> DobKey(r[i]).Some?
  }

  lemma AllDatesParsePermutation(r: Roster, s: Roster)
    requires multiset(r) == multiset(s) && AllDatesParse(r)
    ensures AllDatesParse(s)
  {
    forall i | 0 <= i < |s| ensures DobKey(s[i]).Some? {
      assert s[i] in multiset(r);
      var j :| 0 <= j < |r| && r[j] == s[i];
    }
  }

  /**
   * `sortDoctorsByDateOfBirth` as written: a date that fails the strict parse
   * becomes a null key, and with two or more doctors every element meets the
   * comparator, which then throws. A roster of at most one doctor is never
   * compared and comes back as it was.
   */
  function SortDoctorsByDateOfBirth(r: Roster): (res: Result<Roster, RosterError>)
    ensures res.Err? <==> |r| >= 2 && !AllDatesParse(r)
    ensures res.Err? ==> res.error == UnparseableDateOfBirth
    ensures res.Ok? ==> multiset(res.value) == multiset(r) && SameOrderPerKey(res.value, r, DobKey)
    ensures res.Ok? ==> forall i, j :: 0 <= i < j < |res.value| ==>
              DobKey(res.value[i]).Some? && DobKey(res.value[j]).Some? &&
              DateLe(DobKey(res.value[i]).value, DobKey(res.value[j]).value)
  {
    if |r| >= 2 && !AllDatesParse(r) then Err(UnparseableDateOfBirth)
    else
      var s := SortBy(r, DobKey);
      if |r| >= 2 then
        AllDatesParsePermutation(r, s);
        SortedDatesAscend(s);
        Ok(s)
      else Ok(s)
  }

  /** Once every date parses, sorted by key means every date is at most the ones after it. */
  lemma SortedDatesAscend(s: Roster)
    requires SortedBy(s, DobKey) && AllDatesParse(s)
    ensures forall i, j :: 0 <= i < j < |s| ==>
              DobKey(s[i]).Some? && DobKey(s[j]).Some? && DateLe(DobKey(s[i]).value, DobKey(s[j]).value)
  {
    forall i, j | 0 <= i < j < |s|
      ensures DobKey(s[i]).Some? && DobKey(s[j]).Some? && DateLe(DobKey(s[i]).value, DobKey(s[j]).value)
    {
      assert KeyLe(DobKey(s[i]), DobKey(s[j]));
    }
  }

  /**
   * The corrected sort: unparseable dates are ordered first instead of
   * crashing, so every roster gets a sorted, stable permutation.
   */
  function SortDoctorsByDateOfBirthNullsFirst(r: Roster): (res: Roster)
    ensures multiset(res) == multiset(r) && SameOrderPerKey(res, r, DobKey)
    ensures forall i, j :: 0 <= i < j < |res| ==> KeyLe(DobKey(res[i]), DobKey(res[j]))
  {
    SortBy(r, DobKey)
  }

  // ---------------------------------------------------------------------------
  // editDoctor
  // ---------------------------------------------------------------------------

  /** The six answers typed during an edit, one line each, before trimming. */
  datatype EditInput = EditInput(
    name: string,
    dateOfBirth: string,
    specialization: string,
    availability: string,
    email: string,
    mobile: string)

  /** The doctor after the field steps, and whether a step threw. */
  datatype EditStep = Completed(doctor: Doctor) | Aborted(doctor: Doctor, error: DoctorError)

  /** What `editDoctor` leaves behind. */
  datatype EditOutcome =
    | EditIdNotNumeric                                    // parseInt threw before any lookup
    | EditNotFound                                        // "Doctor not found.", roster untouched
    | Edited(roster: Roster)                              // every step ran
    | EditInterrupted(roster: Roster, error: DoctorError) // setAvailability threw; earlier fields already changed

  // The field rules, restated per answer line, that decide whether an edit step replaces its field.

  predicate NameReplaced(line: string) {
    IsValidName(Trim(line))
  }

  predicate DateOfBirthReplaced(line: string) {
    IsDateShape(Trim(line))
  }

  predicate SpecializationReplaced(line: string) {
    Trim(line) != [] && IsValidSpecialization(Trim(line))
  }

  /** The answer is an integer (otherwise the NumberFormatException is caught and the value kept). */
  predicate AvailabilityIsInteger(line: string) {
    ParseInt(Trim(line)).Some?
  }

  /** An integer answer outside 0..3: `setAvailability` throws and nothing catches it. */
  predicate AvailabilityRejected(line: string) {
    AvailabilityIsInteger(line) && !IsValidAvailability(ParseInt(Trim(line)).value)
  }

  ghost predicate EmailReplaced(line: string) {
    EmailPattern(Trim(line))
  }

  predicate MobileReplaced(line: string) {
    IsValidMobile(Trim(line))
  }

  /** The three fields edited before availability, each replaced exactly when its answer passes its rule. */
  ghost function EditedFront(d: Doctor, e: EditInput): Doctor {
    d.(name := if NameReplaced(e.name) then Trim(e.name) else d.name,
       dateOfBirth := if DateOfBirthReplaced(e.dateOfBirth) then Trim(e.dateOfBirth) else d.dateOfBirth,
       specialization := if SpecializationReplaced(e.specialization) then Trim(e.specialization) else d.specialization)
  }

  /** The two fields edited after availability, each replaced exactly when its answer passes its rule. */
  ghost function EditedBack(d: Doctor, e: EditInput): Doctor {
    d.(email := if EmailReplaced(e.email) then Trim(e.email) else d.email,
       mobile := if MobileReplaced(e.mobile) then Trim(e.mobile) else d.mobile)
  }

  /**
   * The doctor an edit should leave: each field replaced by its trimmed
   * answer exactly when that answer passes the field's rule; when the
   * availability answer is an out-of-range integer, only the three fields
   * edited before it have been replaced.
   */
  ghost function EditedDoctor(d: Doctor, e: EditInput): Doctor {
    var first := EditedFront(d, e);
    if AvailabilityRejected(e.availability) then first
    else if AvailabilityIsInteger(e.availability) then
      EditedBack(first.(availability := ParseInt(Trim(e.availability)).value), e)
    else EditedBack(first, e)
  }

  /** `updateDoctorName`: its guard is the setter's own rule, so the setter never throws here. */
  function UpdateDoctorName(d: Doctor, line: string): (r: Result<Doctor, DoctorError>)
    ensures r.Ok?
    ensures r.value == if NameReplaced(line) then d.(name := Trim(line)) else d
  {
    var name := Trim(line);
    if name != [] && JavaLength(name) <= MaxNameLength then SetName(d, Some(name)) else Ok(d)
  }

  /** `updateDoctorDOB`: `isValidDate` is the setter's pattern, so the setter never throws here. */
  function UpdateDoctorDob(d: Doctor, line: string): (r: Result<Doctor, DoctorError>)
    ensures r.Ok?
    ensures r.value == if DateOfBirthReplaced(line) then d.(dateOfBirth := Trim(line)) else d
  {
    var dateOfBirth := Trim(line);
    if dateOfBirth != [] && IsDateShape(dateOfBirth) then SetDateOfBirth(d, Some(dateOfBirth)) else Ok(d)
  }

  /** `updateDoctorSpecialization`: unlike the setter, the edit refuses an empty answer. */
  function UpdateDoctorSpecialization(d: Doctor, line: string): (r: Result<Doctor, DoctorError>)
    ensures r.Ok?
    ensures r.value == if SpecializationReplaced(line) then d.(specialization := Trim(line)) else d
  {
    var specialization := Trim(line);
    if specialization != [] && JavaLength(specialization) <= MaxSpecializationLength then
      SetSpecialization(d, Some(specialization))
    else Ok(d)
  }

  /**
   * `updateDoctorAvailability`: a non-integer answer is caught and ignored,
   * but an integer outside 0..3 reaches `setAvailability`, which throws.
   */
  function UpdateDoctorAvailability(d: Doctor, line: string): (r: Result<Doctor, DoctorError>)
    ensures r.Err? <==> AvailabilityRejected(line)
    ensures r.Err? ==> r.error == InvalidAvailability
    ensures r.Ok? ==> r.value == if AvailabilityIsInteger(line) then d.(availability := ParseInt(Trim(line)).value) else d
  {
    var answer := Trim(line);
    if answer == [] then Ok(d)
    else
      match ParseInt(answer)
      case None => Ok(d)
      case Some(v) => SetAvailability(d, v)
  }

  /** `updateDoctorEmail`: `isValidEmail` is the setter's regular expression, so the setter never throws here. */
  function UpdateDoctorEmail(d: Doctor, line: string): (r: Result<Doctor, DoctorError>)
    ensures r.Ok?
    ensures r.value == if EmailReplaced(line) then d.(email := Trim(line)) else d
  {
    var email := Trim(line);
    IsValidEmailIffPattern(email);
    if email != [] && IsValidEmail(email) then SetEmail(d, Some(email)) else Ok(d)
  }

  /** `updateDoctorMobile`: `isValidMobile` is the setter's pattern, so the setter never throws here. */
  function UpdateDoctorMobile(d: Doctor, line: string): (r: Result<Doctor, DoctorError>)
    ensures r.Ok?
    ensures r.value == if MobileReplaced(line) then d.(mobile := Trim(line)) else d
  {
    var mobile := Trim(line);
    if mobile != [] && IsValidMobile(mobile) then SetMobile(d, Some(mobile)) else Ok(d)
  }

  /**
   * The first three update steps (name, date of birth, specialization). Each
   * guard is its setter's own rule, so none of them can throw.
   */
  function EditFront(d: Doctor, e: EditInput): (r: Doctor)
    ensures r == EditedFront(d, e)
  {
    var d1 := UpdateDoctorName(d, e.name).value;
    var d2 := UpdateDoctorDob(d1, e.dateOfBirth).value;
    UpdateDoctorSpecialization(d2, e.specialization).value
  }

  /** The last two update steps (email, mobile), which cannot throw either. */
  function EditBack(d: Doctor, e: EditInput): (r: Doctor)
    ensures r == EditedBack(d, e)
  {
    UpdateDoctorMobile(UpdateDoctorEmail(d, e.email).value, e.mobile).value
  }

  /**
   * The six update steps in the order `editDoctor` runs them. An exception
   * (only the availability step can raise one) stops the sequence; the steps
   * already run keep their effect.
   */
  function ApplyEdit(d: Doctor, e: EditInput): (r: EditStep)
    ensures r.Aborted? ==> r.error == InvalidAvailability
  {
    var d3 := EditFront(d, e);
    match UpdateDoctorAvailability(d3, e.availability)
    case Err(x) => Aborted(d3, x)
    case Ok(d4) => Completed(EditBack(d4, e))
  }

  /** The steps together do what the field rules say, and only the availability step can throw. */
  lemma ApplyEditFieldwise(d: Doctor, e: EditInput)
    ensures ApplyEdit(d, e).doctor == EditedDoctor(d, e)
    ensures ApplyEdit(d, e).Aborted? <==> AvailabilityRejected(e.availability)
  {
    var d3 := EditFront(d, e);
    var a := UpdateDoctorAvailability(d3, e.availability);
    if a.Ok? {
      assert ApplyEdit(d, e) == Completed(EditBack(a.value, e));
    }
  }

  /**
   * `editDoctor`: parse the id, find the first doctor with it, and run the
   * edit steps on that doctor in place.
   */
  function EditDoctor(r: Roster, idLine: string, e: EditInput): (res: EditOutcome)
    ensures res.EditIdNotNumeric? <==> InputDoctorId(idLine).None?
    ensures res.EditNotFound? <==> InputDoctorId(idLine).Some? && !HasId(r, InputDoctorId(idLine).value)
    ensures res.EditInterrupted? <==>
              InputDoctorId(idLine).Some? && HasId(r, InputDoctorId(idLine).value) && AvailabilityRejected(e.availability)
    ensures res.EditInterrupted? ==> res.error == InvalidAvailability
    ensures res.Edited? || res.EditInterrupted? ==>
              exists k :: FirstWithId(r, InputDoctorId(idLine).value, k) && res.roster == r[k := EditedDoctor(r[k], e)]
  {
    match InputDoctorId(idLine)
    case None => EditIdNotNumeric
    case Some(id) =>
      var k := FindIndex(r, id);
      if k == -1 then EditNotFound
      else
        ApplyEditFieldwise(r[k], e);
        match ApplyEdit(r[k], e)
        case Completed(d) => Edited(r[k := d])
        case Aborted(d, error) => EditInterrupted(r[k := d], error)
  }

  /** Every answer line left empty: the doctor is untouched and the edit completes. */
  lemma EditWithEmptyAnswers(d: Doctor)
    ensures ApplyEdit(d, EditInput("", "", "", "", "", "")) == Completed(d)
  {
    assert Trim("") == "";
    assert !EmailPattern("");
  }

  /** An edit keeps a well-formed doctor well formed, whether it completes or is interrupted. */
  lemma ApplyEditPreservesWellFormed(d: Doctor, e: EditInput)
    requires WellFormed(d)
    ensures WellFormed(ApplyEdit(d, e).doctor)
  {
    ApplyEditFieldwise(d, e);
    EditedDoctorFacts(d, e);
  }

  lemma EditedDoctorFacts(d: Doctor, e: EditInput)
    requires WellFormed(d)
    ensures EditedDoctor(d, e).id == d.id && WellFormed(EditedDoctor(d, e))
  {
    var first := EditedFront(d, e);
    EditedFrontWellFormed(d, e);
    if !AvailabilityRejected(e.availability) {
      var second := if AvailabilityIsInteger(e.availability)
                    then first.(availability := ParseInt(Trim(e.availability)).value) else first;
      assert WellFormed(second);
      EditedBackWellFormed(second, e);
      assert EditedDoctor(d, e) == EditedBack(second, e);
    }
  }

  lemma EditedFrontWellFormed(d: Doctor, e: EditInput)
    requires WellFormed(d)
    ensures EditedFront(d, e).id == d.id && WellFormed(EditedFront(d, e))
  {
  }

  lemma EditedBackWellFormed(d: Doctor, e: EditInput)
    requires WellFormed(d)
    ensures EditedBack(d, e).id == d.id && WellFormed(EditedBack(d, e))
  {
  }

  lemma EditedDoctorKeepsId(d: Doctor, e: EditInput)
    ensures EditedDoctor(d, e).id == d.id
  {
    assert EditedFront(d, e).id == d.id;
  }

  /** Replacing one doctor by one with the same id leaves the sequence of ids as it was. */
  lemma ReplaceKeepsIds(r: Roster, k: int, d: Doctor)
    requires 0 <= k < |r| && d.id == r[k].id
    ensures |r[k := d]| == |r|
    ensures forall i :: 0 <= i < |r| ==> r[k := d][i].id == r[i].id
  {
  }

  /** Replacing one doctor by a well-formed one with the same id keeps the roster invariants. */
  lemma ReplaceKeepsInvariants(r: Roster, k: int, d: Doctor)
    requires UniqueIds(r) && AllWellFormed(r)
    requires 0 <= k < |r| && d.id == r[k].id && WellFormed(d)
    ensures UniqueIds(r[k := d]) && AllWellFormed(r[k := d])
  {
  }

  /** An edit touches one position of the roster and never changes an id. */
  lemma EditKeepsIds(r: Roster, idLine: string, e: EditInput)
    requires EditDoctor(r, idLine, e).Edited? || EditDoctor(r, idLine, e).EditInterrupted?
    ensures |EditDoctor(r, idLine, e).roster| == |r|
    ensures forall i :: 0 <= i < |r| ==> EditDoctor(r, idLine, e).roster[i].id == r[i].id
  {
    var res := EditDoctor(r, idLine, e);
    var id := InputDoctorId(idLine).value;
    var k :| FirstWithId(r, id, k) && res.roster == r[k := EditedDoctor(r[k], e)];
    EditedDoctorKeepsId(r[k], e);
    ReplaceKeepsIds(r, k, EditedDoctor(r[k], e));
  }

  /** An edit keeps ids unique and every doctor well formed. */
  lemma EditPreservesInvariants(r: Roster, idLine: string, e: EditInput)
    requires UniqueIds(r) && AllWellFormed(r)
    requires EditDoctor(r, idLine, e).Edited? || EditDoctor(r, idLine, e).EditInterrupted?
    ensures UniqueIds(EditDoctor(r, idLine, e).roster) && AllWellFormed(EditDoctor(r, idLine, e).roster)
  {
    var res := EditDoctor(r, idLine, e);
    var id := InputDoctorId(idLine).value;
    var k :| FirstWithId(r, id, k) && res.roster == r[k := EditedDoctor(r[k], e)];
    EditedDoctorFacts(r[k], e);
    ReplaceKeepsInvariants(r, k, EditedDoctor(r[k], e));
  }

  // ---------------------------------------------------------------------------
  // Two concrete rosters
  // ---------------------------------------------------------------------------

  /** The first sample doctor `addSampleDoctors` creates: in a fresh program it takes the counter's first value. */
  function SampleJohn(): Doctor {
    Doctor(FirstId, "John Doe", "15/04/1985", "Cardiologist", 1, "john.doe@example.com", "(123)-456-7890")
  }

  /**
   * The edit is not atomic: a valid new name followed by availability 7
   * leaves the doctor renamed although the edit is interrupted.
   */
  lemma EditIsNotAtomic(e: EditInput)
    requires e == EditInput("Johnny", "", "", "7", "", "")
    ensures ApplyEdit(SampleJohn(), e) == Aborted(SampleJohn().(name := "Johnny"), InvalidAvailability)
  {
    SevenIsRejected();
    RenameOnlyFront(e);
    ApplyEditFieldwise(SampleJohn(), e);
  }

  /** The answer 7 is an integer outside 0..3. */
  lemma SevenIsRejected()
    ensures AvailabilityRejected("7")
  {
    TrimOfTrimmed("7");
    assert ParseInt("7") == Some(7);
  }

  /** Of the first three answers only the name passes its rule. */
  lemma RenameOnlyFront(e: EditInput)
    requires e == EditInput("Johnny", "", "", "7", "", "")
    ensures EditedFront(SampleJohn(), e) == SampleJohn().(name := "Johnny")
  {
    TrimOfTrimmed("Johnny");
    ShortNameIsValid("Johnny");
    TrimOfTrimmed("");
  }

  /** A name of 1 to 25 characters is within 50 code units whatever its characters. */
  lemma ShortNameIsValid(name: string)
    requires 1 <= |name| <= 25
    ensures IsValidName(name)
  {
  }

  /**
   * The setter stores the shape-valid but impossible date 31/02/2020, and
   * sorting any roster of two doctors holding it then throws.
   */
  lemma SortFailsOnImpossibleDate()
    ensures SetDateOfBirth(SampleJohn(), Some("31/02/2020")).Ok?
    ensures SortDoctorsByDateOfBirth([SampleJohn(), SampleJohn().(id := 2, dateOfBirth := "31/02/2020")]).Err?
  {
    var bad := SampleJohn().(id := 2, dateOfBirth := "31/02/2020");
    assert DateFields("31/02/2020") == Date(31, 2, 2020);
    assert DobKey(bad).None?;
    var r := [SampleJohn(), bad];
    assert r[1] == bad;
  }

  /** The corrected sort orders that same roster with the impossible date first. */
  lemma NullsFirstOrdersImpossibleDate()
    ensures SortDoctorsByDateOfBirthNullsFirst([SampleJohn(), SampleJohn().(id := 2, dateOfBirth := "31/02/2020")])
         == [SampleJohn().(id := 2, dateOfBirth := "31/02/2020"), SampleJohn()]
  {
    var bad := SampleJohn().(id := 2, dateOfBirth := "31/02/2020");
    assert DateFields("31/02/2020") == Date(31, 2, 2020);
    assert DobKey(bad).None?;
    assert DateFields("15/04/1985") == Date(15, 4, 1985);
    assert DobKey(SampleJohn()).Some?;
    var r := [SampleJohn(), bad];
    assert r[1..] == [bad];
    assert SortBy([bad], DobKey) == [bad];
    assert SortBy(r, DobKey) == InsertBy(SampleJohn(), [bad], DobKey);
    assert !KeyLe(DobKey(SampleJohn()), DobKey(bad));
    assert InsertBy(SampleJohn(), [], DobKey) == [SampleJohn()];
  }
}
