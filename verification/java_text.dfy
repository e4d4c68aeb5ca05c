/**
 * The small pieces of `java.lang.String` and `java.lang.Integer` behaviour the
 * doctor roster relies on: `length` in UTF-16 code units, `trim`, ASCII
 * `toLowerCase`, `indexOf`/`contains`, and `Integer.parseInt` with its 32-bit
 * range.
 */
module JavaText {
  import opened Results

  // ---------------------------------------------------------------------------
  // Characters
  // ---------------------------------------------------------------------------

  /** `String.trim` strips every character whose code is at most U+0020. */
  predicate IsTrimmable(c: char) {
    c <= ' '
  }

  /** A regex `\d`: Java patterns match only the ASCII digits unless asked otherwise. */
  predicate IsDigit(c: char) {
    '0' <= c <= '9'
  }

  predicate IsAsciiLetter(c: char) {
    'a' <= c <= 'z' || 'A' <= c <= 'Z'
  }

  predicate AllDigits(s: string) {
    forall i :: 0 <= i < |s| ==> IsDigit(s[i])
  }

  predicate AllTrimmable(s: string) {
    forall i :: 0 <= i < |s| ==> IsTrimmable(s[i])
  }

  function DigitValue(c: char): (v: nat)
    requires IsDigit(c)
    ensures v < 10
  {
    c as int - '0' as int
  }

  function DigitChar(n: nat): (c: char)
    requires n < 10
    ensures IsDigit(c) && DigitValue(c) == n
  {
    ('0' as int + n) as char
  }

  lemma DigitCharValue(c: char)
    requires IsDigit(c)
    ensures DigitChar(DigitValue(c)) == c
  {
  }

  // ---------------------------------------------------------------------------
  // String.length
  // ---------------------------------------------------------------------------

  /** A character of the Basic Multilingual Plane: one UTF-16 code unit. */
  predicate IsBmpChar(c: char) {
    c as int <= 0xFFFF
  }

  predicate IsBmp(s: string) {
    forall i :: 0 <= i < |s| ==> IsBmpChar(s[i])
  }

  /** The positions of the characters above U+FFFF, each of which takes a second code unit. */
  function SupplementaryPositions(s: string): set<int> {
    set i | 0 <= i < |s| && !IsBmpChar(s[i])
  }

  /**
   * `String.length()`: Java strings are UTF-16, so the length counts code
   * units, one per character plus one more for each character outside the
   * Basic Multilingual Plane (a surrogate pair).
   */
  function JavaLength(s: string): (n: nat)
    ensures |s| <= n <= 2 * |s|
  {
    SupplementaryPositionsCount(s);
    |s| + |SupplementaryPositions(s)|
  }

  /** At most every position is supplementary, and exactly every one when all characters are. */
  lemma {:induction false} SupplementaryPositionsCount(s: string)
    ensures |SupplementaryPositions(s)| <= |s|
    ensures (forall i :: 0 <= i < |s| ==> !IsBmpChar(s[i])) ==> |SupplementaryPositions(s)| == |s|
  {
    if s != [] {
      var init := s[..|s| - 1];
      SupplementaryPositionsCount(init);
      var last := if IsBmpChar(s[|s| - 1]) then {} else {|s| - 1};
      forall i ensures i in SupplementaryPositions(s) <==> i in SupplementaryPositions(init) + last {
        if 0 <= i < |s| - 1 {
          assert init[i] == s[i];
        }
      }
      assert SupplementaryPositions(s) == SupplementaryPositions(init) + last;
      assert |s| - 1 !in SupplementaryPositions(init);
      if forall i :: 0 <= i < |s| ==> !IsBmpChar(s[i]) {
        forall i | 0 <= i < |init| ensures !IsBmpChar(init[i]) {
          assert init[i] == s[i];
        }
      }
    }
  }

  /** The length Java reports is the number of characters exactly when every character is in the BMP. */
  lemma JavaLengthIsSizeIffBmp(s: string)
    ensures JavaLength(s) == |s| <==> IsBmp(s)
  {
    if IsBmp(s) {
      assert SupplementaryPositions(s) == {};
    } else {
      var i :| 0 <= i < |s| && !IsBmpChar(s[i]);
      assert i in SupplementaryPositions(s);
    }
  }

  /** A string made only of characters above U+FFFF has twice as many code units as characters. */
  lemma JavaLengthOfSupplementary(s: string)
    requires forall i :: 0 <= i < |s| ==> !IsBmpChar(s[i])
    ensures JavaLength(s) == 2 * |s|
  {
    SupplementaryPositionsCount(s);
  }

  // ---------------------------------------------------------------------------
  // String.trim
  // ---------------------------------------------------------------------------

  /** Neither end of `s` is a character `trim` would strip. */
  predicate IsTrimmed(s: string) {
    s == [] || (!IsTrimmable(s[0]) && !IsTrimmable(s[|s| - 1]))
  }

  function TrimStart(s: string): (r: string)
    ensures |r| <= |s| && r == s[|s| - |r|..]
    ensures AllTrimmable(s[..|s| - |r|])
    ensures r == [] || !IsTrimmable(r[0])
  {
    if |s| > 0 && IsTrimmable(s[0]) then
      var r := TrimStart(s[1..]);
      assert s[..|s| - |r|] == [s[0]] + s[1..][..|s| - 1 - |r|];
      r
    else s
  }

  function TrimEnd(s: string): (r: string)
    ensures |r| <= |s| && r == s[..|r|]
    ensures AllTrimmable(s[|r|..])
    ensures r == [] || !IsTrimmable(r[|r| - 1])
  {
    if |s| > 0 && IsTrimmable(s[|s| - 1]) then
      var r := TrimEnd(s[..|s| - 1]);
      assert s[|r|..] == s[..|s| - 1][|r|..] + [s[|s| - 1]];
      r
    else s
  }

  /** `r` is an infix of `s` whose cut-off prefix and suffix are all blanks. */
  ghost predicate CutsBlanks(s: string, r: string) {
    exists i, j :: 0 <= i <= j <= |s| && r == s[i..j] && AllTrimmable(s[..i]) && AllTrimmable(s[j..])
  }

  /**
   * `String.trim`: the longest infix of `s` that neither starts nor ends with a
   * character at or below U+0020; everything cut off is such a character.
   */
  function Trim(s: string): (r: string)
    ensures IsTrimmed(r)
    ensures CutsBlanks(s, r)
  {
    var front := TrimStart(s);
    var r := TrimEnd(front);
    TrimCuts(s, front, r);
    r
  }

  /** Cutting a trimmable prefix and then a trimmable suffix leaves an infix with trimmable ends cut. */
  lemma TrimCuts(s: string, front: string, r: string)
    requires |front| <= |s| && front == s[|s| - |front|..] && AllTrimmable(s[..|s| - |front|])
    requires front == [] || !IsTrimmable(front[0])
    requires |r| <= |front| && r == front[..|r|] && AllTrimmable(front[|r|..])
    requires r == [] || !IsTrimmable(r[|r| - 1])
    ensures IsTrimmed(r)
    ensures CutsBlanks(s, r)
  {
    var i := |s| - |front|;
    var j := i + |r|;
    assert r != [] ==> r[0] == front[0];
    assert r == s[i..j];
    assert s[j..] == front[|r|..];
  }

  /** Trimming is idempotent: a trimmed string is its own trim. */
  lemma {:induction false} TrimOfTrimmed(s: string)
    requires IsTrimmed(s)
    ensures Trim(s) == s
  {
  }

  /** `trim().isEmpty()` holds exactly of the strings made only of characters at or below U+0020. */
  lemma {:induction false} TrimEmptyIffBlank(s: string)
    ensures Trim(s) == [] <==> AllTrimmable(s)
  {
  }

  /** `trim` removes exactly the blanks around a trimmed core, whatever they are. */
  lemma TrimStripsBlanks(pre: string, x: string, post: string)
    requires AllTrimmable(pre) && AllTrimmable(post) && IsTrimmed(x)
    ensures Trim(pre + x + post) == x
  {
    var s := pre + x + post;
    if x == [] {
      assert s == pre + post;
      TrimEmptyIffBlank(s);
    } else {
      assert s == pre + (x + post);
      TrimStartBlanks(pre, x + post);
      TrimEndBlanks(x, post);
    }
  }

  lemma {:induction false} TrimStartBlanks(pre: string, y: string)
    requires AllTrimmable(pre) && (y == [] || !IsTrimmable(y[0]))
    ensures TrimStart(pre + y) == y
  {
    if pre != [] {
      assert (pre + y)[1..] == pre[1..] + y;
      TrimStartBlanks(pre[1..], y);
    } else {
      assert pre + y == y;
    }
  }

  lemma {:induction false} TrimEndBlanks(y: string, post: string)
    requires AllTrimmable(post) && (y == [] || !IsTrimmable(y[|y| - 1]))
    ensures TrimEnd(y + post) == y
    decreases |post|
  {
    if post != [] {
      var s := y + post;
      assert s[..|s| - 1] == y + post[..|post| - 1];
      TrimEndBlanks(y, post[..|post| - 1]);
    } else {
      assert y + post == y;
    }
  }

  // ---------------------------------------------------------------------------
  // String.toLowerCase (ASCII only)
  // ---------------------------------------------------------------------------

  function LowerChar(c: char): char {
    if 'A' <= c <= 'Z' then (c as int - 'A' as int + 'a' as int) as char else c
  }

  function ToLower(s: string): (r: string)
    ensures |r| == |s|
    ensures forall i :: 0 <= i < |s| ==> r[i] == LowerChar(s[i])
  {
    seq(|s|, i requires 0 <= i < |s| => LowerChar(s[i]))
  }

  /** Lower-casing twice is lower-casing once. */
  lemma ToLowerIdempotent(s: string)
    ensures ToLower(ToLower(s)) == ToLower(s)
  {
  }

  // ---------------------------------------------------------------------------
  // String.indexOf / String.contains
  // ---------------------------------------------------------------------------

  /** `t` occurs in `s` starting at index `i`. */
  predicate OccursAt(s: string, t: string, i: int) {
    0 <= i && i + |t| <= |s| && s[i..i + |t|] == t
  }

  /** `s.indexOf(t, from)`: the first occurrence at or after `from`, or -1. */
  function IndexOfFrom(s: string, t: string, from: nat): (r: int)
    requires from <= |s|
    ensures r == -1 || (from <= r && OccursAt(s, t, r))
    ensures r == -1 ==> forall i :: from <= i ==> !OccursAt(s, t, i)
    ensures r != -1 ==> forall i :: from <= i < r ==> !OccursAt(s, t, i)
    decreases |s| - from
  {
    if |s| - from < |t| then -1
    else if s[from..from + |t|] == t then from
    else IndexOfFrom(s, t, from + 1)
  }

  /** `s.indexOf(t)`: the first occurrence anywhere, or -1 when there is none. */
  function IndexOf(s: string, t: string): (r: int)
    ensures r == -1 || (0 <= r && OccursAt(s, t, r))
    ensures r == -1 <==> forall i :: 0 <= i ==> !OccursAt(s, t, i)
    ensures r != -1 ==> forall i :: 0 <= i < r ==> !OccursAt(s, t, i)
  {
    IndexOfFrom(s, t, 0)
  }

  /** `s.contains(t)`, which Java defines as `indexOf(t) >= 0`. */
  predicate Contains(s: string, t: string) {
    IndexOf(s, t) >= 0
  }

  /** `contains` agrees with the plain definition "some infix of `s` is `t`". */
  lemma ContainsIffOccurs(s: string, t: string)
    ensures Contains(s, t) <==> exists i :: OccursAt(s, t, i)
  {
  }

  /** Every string contains the empty string. */
  lemma ContainsEmpty(s: string)
    ensures Contains(s, [])
  {
    assert OccursAt(s, [], 0);
  }

  // ---------------------------------------------------------------------------
  // Integer.parseInt (radix 10) and Integer.toString
  // ---------------------------------------------------------------------------

  const IntMin: int := -0x8000_0000
  const IntMax: int := 0x7fff_ffff

  /** The values of a Java `int`. */
  predicate IsInt32(n: int) {
    IntMin <= n <= IntMax
  }

  /** The number a run of decimal digits denotes, most significant first. */
  function DigitsValue(s: string): nat
    requires AllDigits(s)
  {
    if s == [] then 0 else 10 * DigitsValue(s[..|s| - 1]) + DigitValue(s[|s| - 1])
  }

  predicate IsSign(c: char) {
    c == '-' || c == '+'
  }

  /** A decimal numeral as `parseInt` reads it: a digit or a sign first, digits after, and at least one digit. */
  predicate IsNumeral(s: string) {
    && |s| > 0
    && (IsDigit(s[0]) || (IsSign(s[0]) && |s| > 1))
    && forall i :: 0 < i < |s| ==> IsDigit(s[i])
  }

  /** The value a numeral denotes, leading zeros and a `+` allowed. */
  function NumeralValue(s: string): int
    requires IsNumeral(s)
  {
    var unsigned := if IsSign(s[0]) then s[1..] else s;
    assert AllDigits(unsigned) by {
      forall i | 0 <= i < |unsigned| ensures IsDigit(unsigned[i]) {
        if IsSign(s[0]) { assert unsigned[i] == s[i + 1]; } else if i > 0 { assert unsigned[i] == s[i]; }
      }
    }
    var magnitude: int := DigitsValue(unsigned);
    if s[0] == '-' then -magnitude else magnitude
  }

  /**
   * `Integer.parseInt(s)`: an optional `+` or `-`, then at least one ASCII digit,
   * denoting a value inside the 32-bit range. Every other string makes Java throw
   * `NumberFormatException`, modelled as `None`.
   */
  function ParseInt(s: string): (r: Option<int>)
    ensures r.Some? ==> IsInt32(r.value)
    ensures r.Some? ==> |s| > 0 && (IsDigit(s[0]) || s[0] == '-' || s[0] == '+')
    ensures r.Some? ==> forall i :: 0 < i < |s| ==> IsDigit(s[i])
    ensures r.Some? <==> IsNumeral(s) && IsInt32(NumeralValue(s))
    ensures r.Some? ==> r.value == NumeralValue(s)
  {
    if |s| == 0 then None
    else
      var digits := if s[0] == '-' || s[0] == '+' then s[1..] else s;
      if |digits| == 0 || !AllDigits(digits) then None
      else
        var magnitude: int := DigitsValue(digits);
        var v := if s[0] == '-' then -magnitude else magnitude;
        if IsInt32(v) then
          assert forall i :: 0 < i < |s| ==> IsDigit(s[i]) by {
            forall i | 0 < i < |s| ensures IsDigit(s[i]) {
              if s[0] == '-' || s[0] == '+' { assert s[i] == digits[i - 1]; }
            }
          }
          Some(v)
        else None
  }

  /** A sign or leading zeros do not change the value; a lone sign or an out-of-range value is refused. */
  lemma ParseIntExamples()
    ensures ParseInt("+2") == Some(2)
    ensures ParseInt("02") == Some(2)
    ensures ParseInt("-0") == Some(0)
    ensures ParseInt("-") == None
    ensures ParseInt(" 7") == None
    ensures ParseInt("") == None
  {
    assert DigitsValue("2") == 2;
    assert DigitsValue("02") == 2 by { assert "02"[..1] == "0"; }
    assert DigitsValue("0") == 0;
  }

  /** `Integer.toString` of a non-negative value: its decimal digits, no leading zero. */
  function NatToString(n: nat): (r: string)
    ensures |r| > 0 && AllDigits(r)
    ensures |r| > 1 ==> r[0] != '0'
  {
    if n < 10 then [DigitChar(n)] else NatToString(n / 10) + [DigitChar(n % 10)]
  }

  function IntToString(n: int): string {
    if n < 0 then "-" + NatToString(-n) else NatToString(n)
  }

  lemma {:induction false} NatToStringValue(n: nat)
    ensures DigitsValue(NatToString(n)) == n
  {
    if n >= 10 {
      var s := NatToString(n);
      assert s[..|s| - 1] == NatToString(n / 10);
      NatToStringValue(n / 10);
    }
  }

  /** Round trip: `parseInt` reads back every `int` that `toString` writes. */
  lemma ParseIntToString(n: int)
    requires IsInt32(n)
    ensures ParseInt(IntToString(n)) == Some(n)
  {
    if n < 0 {
      var s := IntToString(n);
      var digits := NatToString(-n);
      assert s[0] == '-' && s[1..] == digits;
      NatToStringValue(-n);
      assert DigitsValue(s[1..]) == -n;
    } else {
      NatToStringValue(n);
    }
  }
}
