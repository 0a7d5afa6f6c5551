/**
 * The string operations the dashboard applies to area and month labels and to
 * spreadsheet cells: Python's str.strip, str.upper, str.lower, str.title,
 * str.split()[0], the substring test `in`, str() of an integer and int() of a
 * text cell.
 *
 * Whitespace and case are modelled over ASCII and Latin-1: the letters whose
 * case partner is also in Latin-1 (so "Março" and "MARÇO" are partners);
 * every other character is treated as uncased and is never changed.
 */
module Text {

  /** Whitespace as Python's str.strip() and str.split() see it, within Latin-1. */
  predicate IsSpace(c: char) {
    c == ' ' || ('\t' <= c <= '\r') || ('\U{1C}' <= c <= '\U{1F}') || c == '\U{85}' || c == '\U{A0}'
  }

  predicate IsLowerLetter(c: char) {
    ('a' <= c <= 'z') || ('\U{E0}' <= c <= '\U{FE}' && c != '\U{F7}')
  }

  predicate IsUpperLetter(c: char) {
    ('A' <= c <= 'Z') || ('\U{C0}' <= c <= '\U{DE}' && c != '\U{D7}')
  }

  /** A character that has a case (Python's "cased"). */
  predicate IsCased(c: char) {
    IsLowerLetter(c) || IsUpperLetter(c)
  }

  function UpperChar(c: char): (r: char)
    ensures IsLowerLetter(c) ==> IsUpperLetter(r)
    ensures !IsLowerLetter(c) ==> r == c
    ensures IsSpace(r) <==> IsSpace(c)
    ensures IsCased(r) <==> IsCased(c)
  {
    if IsLowerLetter(c) then (c as int - 32) as char else c
  }

  function LowerChar(c: char): (r: char)
    ensures IsUpperLetter(c) ==> IsLowerLetter(r)
    ensures !IsUpperLetter(c) ==> r == c
    ensures IsSpace(r) <==> IsSpace(c)
    ensures IsCased(r) <==> IsCased(c)
  {
    if IsUpperLetter(c) then (c as int + 32) as char else c
  }

  /** Upper- and lower-casing a character are partners: each undoes the other up to case. */
  lemma CaseCharFacts(c: char)
    ensures UpperChar(UpperChar(c)) == UpperChar(c)
    ensures LowerChar(LowerChar(c)) == LowerChar(c)
    ensures UpperChar(LowerChar(c)) == UpperChar(c)
    ensures LowerChar(UpperChar(c)) == LowerChar(c)
  {
  }

  /** str.upper() */
  function Upper(s: string): (r: string)
    ensures |r| == |s|
  {
    if s == [] then [] else [UpperChar(s[0])] + Upper(s[1..])
  }

  /** str.lower() */
  function Lower(s: string): (r: string)
    ensures |r| == |s|
  {
    if s == [] then [] else [LowerChar(s[0])] + Lower(s[1..])
  }

  /** The case maps work character by character. */
  lemma {:induction false} CaseAt(s: string, i: int)
    requires 0 <= i < |s|
    ensures Upper(s)[i] == UpperChar(s[i])
    ensures Lower(s)[i] == LowerChar(s[i])
  {
    if i > 0 {
      CaseAt(s[1..], i - 1);
    }
  }

  /** The case maps commute with dropping the last character. */
  lemma {:induction false} CaseOfInit(s: string)
    requires s != []
    ensures Upper(s)[..|s| - 1] == Upper(s[..|s| - 1])
    ensures Lower(s)[..|s| - 1] == Lower(s[..|s| - 1])
  {
    if |s| > 1 {
      CaseOfInit(s[1..]);
      assert s[..|s| - 1][1..] == s[1..][..|s| - 2];
    }
  }

  /**
   * str.title(): a cased character is upper-cased when the character before it
   * is uncased (or it is first) and lower-cased otherwise.
   */
  function Title(s: string): (r: string)
    ensures |r| == |s|
  {
    TitleAfter(s, false)
  }

  /** Title-casing of `s` when the character before it is cased exactly when `prevCased`. */
  function TitleAfter(s: string, prevCased: bool): (r: string)
    ensures |r| == |s|
  {
    if s == [] then []
    else [if prevCased then LowerChar(s[0]) else UpperChar(s[0])] + TitleAfter(s[1..], IsCased(s[0]))
  }

  /** Upper-casing forgets everything title-casing or lower-casing did. */
  lemma UpperAbsorbs(s: string)
    ensures Upper(Title(s)) == Upper(s)
    ensures Upper(Lower(s)) == Upper(s)
    ensures Upper(Upper(s)) == Upper(s)
  {
    UpperAbsorbsTitle(s, false);
    UpperAbsorbsCase(s);
  }

  lemma {:induction false} UpperAbsorbsTitle(s: string, prevCased: bool)
    ensures Upper(TitleAfter(s, prevCased)) == Upper(s)
  {
    if s != [] {
      CaseCharFacts(s[0]);
      UpperAbsorbsTitle(s[1..], IsCased(s[0]));
    }
  }

  lemma {:induction false} UpperAbsorbsCase(s: string)
    ensures Upper(Lower(s)) == Upper(s)
    ensures Upper(Upper(s)) == Upper(s)
    ensures Lower(Upper(s)) == Lower(s)
    ensures Lower(Lower(s)) == Lower(s)
  {
    if s != [] {
      CaseCharFacts(s[0]);
      UpperAbsorbsCase(s[1..]);
    }
  }

  /** Lower-casing forgets what upper-casing did, and is idempotent. */
  lemma LowerAbsorbs(s: string)
    ensures Lower(Upper(s)) == Lower(s)
    ensures Lower(Lower(s)) == Lower(s)
  {
    UpperAbsorbsCase(s);
  }

  /** A slice of a lower-case text is lower-case. */
  lemma LowerSlice(s: string, a: int, b: int)
    requires Lower(s) == s && 0 <= a <= b <= |s|
    ensures Lower(s[a..b]) == s[a..b]
  {
    var t := s[a..b];
    forall k | 0 <= k < |t| ensures Lower(t)[k] == t[k] {
      CaseAt(t, k);
      CaseAt(s, a + k);
    }
  }

  /** A text without upper-case letters is its own lower-case form. */
  lemma LowerOfUncased(s: string)
    requires forall k :: 0 <= k < |s| ==> !IsUpperLetter(s[k])
    ensures Lower(s) == s
  {
    forall k | 0 <= k < |s| ensures Lower(s)[k] == s[k] {
      CaseAt(s, k);
    }
  }

  /** Upper-casing is fixed by its characters: `t` is the upper-case form of `s` when each character is. */
  lemma UpperInto(s: string, t: string)
    requires |s| == |t|
    requires forall k :: 0 <= k < |s| ==> UpperChar(s[k]) == t[k]
    ensures Upper(s) == t
  {
    forall k | 0 <= k < |s| ensures Upper(s)[k] == t[k] {
      CaseAt(s, k);
    }
  }

  /** Lower-casing is fixed by its characters: `t` is the lower-case form of `s` when each character is. */
  lemma LowerInto(s: string, t: string)
    requires |s| == |t|
    requires forall k :: 0 <= k < |s| ==> LowerChar(s[k]) == t[k]
    ensures Lower(s) == t
  {
    forall k | 0 <= k < |s| ensures Lower(s)[k] == t[k] {
      CaseAt(s, k);
    }
  }

  /** Upper-casing loses nothing on lower-case texts. */
  lemma UpperInjectiveOnLower(a: string, b: string)
    requires Lower(a) == a && Lower(b) == b
    requires Upper(a) == Upper(b)
    ensures a == b
  {
    LowerAbsorbs(a);
    LowerAbsorbs(b);
  }

  /** Title-casing depends on its input only up to case. */
  lemma TitleOfUpper(s: string)
    ensures Title(Upper(s)) == Title(s)
  {
    TitleAfterOfUpper(s, false);
  }

  lemma {:induction false} TitleAfterOfUpper(s: string, prevCased: bool)
    ensures TitleAfter(Upper(s), prevCased) == TitleAfter(s, prevCased)
  {
    if s != [] {
      CaseCharFacts(s[0]);
      TitleAfterOfUpper(s[1..], IsCased(s[0]));
    }
  }

  /** Title-casing is injective on upper-case labels. */
  lemma TitleInjectiveOnUpper(a: string, b: string)
    requires Upper(a) == a && Upper(b) == b
    requires Title(a) == Title(b)
    ensures a == b
  {
    UpperAbsorbs(a);
    UpperAbsorbs(b);
  }

  /**
   * Title-casing character by character: a character is upper-cased when the
   * one before it is uncased (or, at the start, when `prevCased` is false),
   * and lower-cased otherwise.
   */
  lemma {:induction false} TitleAfterAt(s: string, prevCased: bool, k: int)
    requires 0 <= k < |s|
    ensures TitleAfter(s, prevCased)[k] ==
      if (if k == 0 then prevCased else IsCased(s[k - 1])) then LowerChar(s[k]) else UpperChar(s[k])
  {
    if k > 0 {
      TitleAfterAt(s[1..], IsCased(s[0]), k - 1);
      if k > 1 {
        assert s[1..][k - 2] == s[k - 1];
      }
    }
  }

  /**
   * str.title() character by character: the first character and every
   * character after an uncased one are upper-cased, every character after a
   * cased one is lower-cased.
   */
  lemma TitleAt(s: string, k: int)
    requires 0 <= k < |s|
    ensures Title(s)[k] == if k == 0 || !IsCased(s[k - 1]) then UpperChar(s[k]) else LowerChar(s[k])
  {
    TitleAfterAt(s, false, k);
  }

  /** A capitalised word: one upper-case letter, then lower-case letters only. */
  predicate Capitalised(s: string) {
    s != [] && IsUpperLetter(s[0]) && forall k :: 1 <= k < |s| ==> IsLowerLetter(s[k])
  }

  /** A capitalised word is its own title-cased form, so "Março".title() is "Março". */
  lemma TitleOfCapitalised(s: string)
    requires Capitalised(s)
    ensures Title(s) == s
  {
    forall k | 0 <= k < |s| ensures Title(s)[k] == s[k] {
      TitleAt(s, k);
      if k > 0 {
        assert IsCased(s[k - 1]);
      }
    }
  }

  /** Lower-casing works on the two parts of a concatenation separately. */
  lemma LowerAppend(a: string, b: string)
    ensures Lower(a + b) == Lower(a) + Lower(b)
  {
    var s, r := a + b, Lower(a) + Lower(b);
    forall k | 0 <= k < |s| ensures LowerChar(s[k]) == r[k] {
      if k < |a| {
        CaseAt(a, k);
      } else {
        CaseAt(b, k - |a|);
      }
    }
    LowerInto(s, r);
  }

  /** The first position at or after `i` that is not whitespace (|s| when there is none). */
  function SkipSpaces(s: string, i: nat): (n: nat)
    requires i <= |s|
    ensures i <= n <= |s|
    ensures forall k :: i <= k < n ==> IsSpace(s[k])
    ensures n < |s| ==> !IsSpace(s[n])
    decreases |s| - i
  {
    if i < |s| && IsSpace(s[i]) then SkipSpaces(s, i + 1) else i
  }

  /** How many whitespace characters str.lstrip() removes. */
  function LeadingSpaces(s: string): (n: nat)
    ensures n <= |s|
    ensures forall k :: 0 <= k < n ==> IsSpace(s[k])
    ensures n < |s| ==> !IsSpace(s[n])
  {
    SkipSpaces(s, 0)
  }

  /** A string neither starting nor ending with whitespace. */
  predicate Trimmed(s: string) {
    s == [] || (!IsSpace(s[0]) && !IsSpace(s[|s| - 1]))
  }

  /**
   * str.strip(): whitespace is removed from both ends until neither end is
   * whitespace.
   */
  function Strip(s: string): (r: string)
    ensures Trimmed(r)
    decreases |s|
  {
    if s != [] && IsSpace(s[0]) then Strip(s[1..])
    else if s != [] && IsSpace(s[|s| - 1]) then Strip(s[..|s| - 1])
    else s
  }

  /** A string with no whitespace at either end is its own strip. */
  lemma StripOfTrimmed(s: string)
    requires Trimmed(s)
    ensures Strip(s) == s
  {
  }

  /** Dropping a trailing whitespace character does not change the strip. */
  lemma {:induction false} StripDropLast(s: string)
    requires s != [] && IsSpace(s[|s| - 1])
    ensures Strip(s) == Strip(s[..|s| - 1])
  {
    if IsSpace(s[0]) && |s| > 1 {
      StripDropLast(s[1..]);
      assert s[1..][..|s| - 2] == s[..|s| - 1][1..];
    }
  }

  /** Leading whitespace does not change the strip. */
  lemma {:induction false} StripIgnoresPrefix(pre: string, s: string)
    requires forall k :: 0 <= k < |pre| ==> IsSpace(pre[k])
    ensures Strip(pre + s) == Strip(s)
  {
    if pre == [] {
      assert pre + s == s;
    } else {
      assert (pre + s)[0] == pre[0];
      assert (pre + s)[1..] == pre[1..] + s;
      StripIgnoresPrefix(pre[1..], s);
    }
  }

  /** Trailing whitespace does not change the strip. */
  lemma {:induction false} StripIgnoresSuffix(s: string, post: string)
    requires forall k :: 0 <= k < |post| ==> IsSpace(post[k])
    ensures Strip(s + post) == Strip(s)
    decreases |post|
  {
    if post == [] {
      assert s + post == s;
    } else {
      var x := s + post;
      assert x[|x| - 1] == post[|post| - 1];
      StripDropLast(x);
      assert x[..|x| - 1] == s + post[..|post| - 1];
      StripIgnoresSuffix(s, post[..|post| - 1]);
    }
  }

  lemma StripIgnoresPadding(pre: string, s: string, post: string)
    requires forall k :: 0 <= k < |pre| ==> IsSpace(pre[k])
    requires forall k :: 0 <= k < |post| ==> IsSpace(post[k])
    ensures Strip(pre + s + post) == Strip(s)
  {
    assert pre + s + post == pre + (s + post);
    StripIgnoresPrefix(pre, s + post);
    StripIgnoresSuffix(s, post);
  }

  /** The case maps send whitespace to whitespace, so stripping commutes with them. */
  lemma {:induction false} StripCommutesUpper(s: string)
    ensures Strip(Upper(s)) == Upper(Strip(s))
    decreases |s|
  {
    if s != [] {
      var u := Upper(s);
      CaseAt(s, 0);
      CaseAt(s, |s| - 1);
      if IsSpace(s[0]) {
        assert u[1..] == Upper(s[1..]);
        StripCommutesUpper(s[1..]);
      } else if IsSpace(s[|s| - 1]) {
        CaseOfInit(s);
        StripCommutesUpper(s[..|s| - 1]);
      }
    }
  }

  lemma {:induction false} StripCommutesLower(s: string)
    ensures Strip(Lower(s)) == Lower(Strip(s))
    decreases |s|
  {
    if s != [] {
      var l := Lower(s);
      CaseAt(s, 0);
      CaseAt(s, |s| - 1);
      if IsSpace(s[0]) {
        assert l[1..] == Lower(s[1..]);
        StripCommutesLower(s[1..]);
      } else if IsSpace(s[|s| - 1]) {
        CaseOfInit(s);
        StripCommutesLower(s[..|s| - 1]);
      }
    }
  }

  /** The label normalisation of the dashboard: `.strip().upper()`. */
  function Normalize(s: string): (r: string)
    ensures |r| <= |s|
  {
    StripLength(s);
    Upper(Strip(s))
  }

  lemma {:induction false} StripLength(s: string)
    ensures |Strip(s)| <= |s|
    decreases |s|
  {
    if s != [] && IsSpace(s[0]) {
      StripLength(s[1..]);
    } else if s != [] && IsSpace(s[|s| - 1]) {
      StripLength(s[..|s| - 1]);
    }
  }

  /** A normalised label is upper-case and has no whitespace at either end. */
  lemma NormalizeShape(s: string)
    ensures Upper(Normalize(s)) == Normalize(s)
    ensures Trimmed(Normalize(s))
  {
    var t := Strip(s);
    UpperAbsorbs(t);
    if t != [] {
      CaseAt(t, 0);
      CaseAt(t, |t| - 1);
    }
  }

  /** A label is normalised when normalising it changes nothing. */
  predicate IsNormal(s: string) {
    Normalize(s) == s
  }

  /** Normalising is idempotent. */
  lemma NormalizeIdempotent(s: string)
    ensures Normalize(Normalize(s)) == Normalize(s)
  {
    NormalizeShape(s);
    StripOfTrimmed(Normalize(s));
  }

  /** Labels that differ only in letter case normalise to the same label. */
  lemma NormalizeIgnoresCase(s: string)
    ensures Normalize(Lower(s)) == Normalize(s)
    ensures Normalize(Upper(s)) == Normalize(s)
  {
    StripCommutesUpper(s);
    StripCommutesLower(s);
    UpperAbsorbs(Strip(s));
  }

  /** Labels that differ only in surrounding whitespace normalise to the same label. */
  lemma NormalizeIgnoresPadding(pre: string, s: string, post: string)
    requires forall k :: 0 <= k < |pre| ==> IsSpace(pre[k])
    requires forall k :: 0 <= k < |post| ==> IsSpace(post[k])
    ensures Normalize(pre + s + post) == Normalize(s)
  {
    StripIgnoresPadding(pre, s, post);
  }

  /** Appending the same suffix is injective. */
  lemma SuffixCancels(a: string, b: string, suffix: string)
    requires a + suffix == b + suffix
    ensures a == b
  {
    assert a == (a + suffix)[..|a|];
    assert b == (b + suffix)[..|b|];
  }

  /** The first whitespace position at or after `i` (|s| when there is none). */
  function WordEnd(s: string, i: nat): (n: nat)
    requires i <= |s|
    ensures i <= n <= |s|
    ensures forall k :: i <= k < n ==> !IsSpace(s[k])
    ensures n < |s| ==> IsSpace(s[n])
    decreases |s| - i
  {
    if i < |s| && !IsSpace(s[i]) then WordEnd(s, i + 1) else i
  }

  /**
   * str.split()[0] for a string that has a word: the first maximal run of
   * non-whitespace characters, after the leading whitespace.
   */
  function FirstWord(s: string): (r: string)
    ensures LeadingSpaces(s) + |r| <= |s|
    ensures r == s[LeadingSpaces(s)..LeadingSpaces(s) + |r|]
    ensures forall k :: 0 <= k < |r| ==> !IsSpace(r[k])
    ensures LeadingSpaces(s) + |r| < |s| ==> IsSpace(s[LeadingSpaces(s) + |r|])
  {
    s[LeadingSpaces(s)..WordEnd(s, LeadingSpaces(s))]
  }

  /** `t` occurs in `s` starting at position `i`. */
  predicate OccursAt(s: string, t: string, i: int) {
    0 <= i <= |s| - |t| && s[i..i + |t|] == t
  }

  /** The substring test `t in s`. */
  function Contains(s: string, t: string): (r: bool)
    ensures r <==> exists i :: OccursAt(s, t, i)
  {
    ContainsFrom(s, t, 0)
  }

  /** `t` occurs in `s` at some position `i` or later. */
  function ContainsFrom(s: string, t: string, i: nat): (r: bool)
    ensures r <==> exists k :: i <= k && OccursAt(s, t, k)
    decreases |s| - i
  {
    if i + |t| > |s| then false
    else if s[i..i + |t|] == t then assert OccursAt(s, t, i); true
    else
      assert forall k :: i <= k && OccursAt(s, t, k) ==> i + 1 <= k;
      ContainsFrom(s, t, i + 1)
  }

  function DigitChar(d: int): char
    requires 0 <= d < 10
  {
    ('0' as int + d) as char
  }

  predicate IsDigit(c: char) {
    '0' <= c <= '9'
  }

  function DigitValue(c: char): (d: nat)
    requires IsDigit(c)
    ensures d < 10 && DigitChar(d) == c
  {
    c as int - '0' as int
  }

  /** The decimal digits of a natural number, most significant first. */
  function Digits(n: nat): (r: string)
    ensures r != [] && forall k :: 0 <= k < |r| ==> IsDigit(r[k])
  {
    if n < 10 then [DigitChar(n)] else Digits(n / 10) + [DigitChar(n % 10)]
  }

  /** str() of an integer. */
  function IntToString(n: int): (r: string)
    ensures r != [] && !IsSpace(r[0]) && !IsSpace(r[|r| - 1])
  {
    if n < 0 then "-" + Digits(-n) else Digits(n)
  }

  /** The value of a non-empty run of decimal digits. */
  function DigitsValue(s: string): (r: nat)
    requires forall k :: 0 <= k < |s| ==> IsDigit(s[k])
  {
    if s == [] then 0
    else DigitsValue(s[..|s| - 1]) * 10 + DigitValue(s[|s| - 1])
  }

  predicate AllDigits(s: string) {
    s != [] && forall k :: 0 <= k < |s| ==> IsDigit(s[k])
  }

  /**
   * int() of a text: surrounding whitespace, an optional sign and at least one
   * decimal digit; anything else is a failure (Python raises ValueError).
   */
  function ParseInt(s: string): (r: Option<int>)
    ensures r.Some? <==> (var t := Strip(s);
      AllDigits(t) || (|t| > 1 && (t[0] == '-' || t[0] == '+') && AllDigits(t[1..])))
  {
    var t := Strip(s);
    if AllDigits(t) then Some(DigitsValue(t))
    else if |t| > 1 && t[0] == '-' && AllDigits(t[1..]) then Some(0 - DigitsValue(t[1..]) as int)
    else if |t| > 1 && t[0] == '+' && AllDigits(t[1..]) then Some(DigitsValue(t[1..]))
    else None
  }

  lemma {:induction false} DigitsRoundTrip(n: nat)
    ensures DigitsValue(Digits(n)) == n
  {
    if n >= 10 {
      var d := Digits(n);
      assert d[..|d| - 1] == Digits(n / 10);
      DigitsRoundTrip(n / 10);
    }
  }

  /** int(str(n)) == n: the decimal rendering of an integer parses back to it. */
  lemma IntToStringRoundTrip(n: int)
    ensures ParseInt(IntToString(n)) == Some(n)
  {
    var s := IntToString(n);
    StripOfTrimmed(s);
    if n < 0 {
      assert s[1..] == Digits(-n);
      assert !AllDigits(s);
      DigitsRoundTrip(-n);
    } else {
      DigitsRoundTrip(n);
    }
  }

  /** int() ignores whitespace around the number: `int(" 5 ") == 5`. */
  lemma ParseIntPadded(pre: string, n: int, post: string)
    requires forall k :: 0 <= k < |pre| ==> IsSpace(pre[k])
    requires forall k :: 0 <= k < |post| ==> IsSpace(post[k])
    ensures ParseInt(pre + IntToString(n) + post) == Some(n)
  {
    StripIgnoresPadding(pre, IntToString(n), post);
    IntToStringRoundTrip(n);
  }

  /** Leading zeros add nothing to the value of a run of digits. */
  lemma {:induction false} LeadingZerosValue(z: string, d: string)
    requires forall k :: 0 <= k < |z| ==> z[k] == '0'
    requires forall k :: 0 <= k < |d| ==> IsDigit(d[k])
    ensures DigitsValue(z + d) == DigitsValue(d)
  {
    if d == [] {
      assert z + d == z;
      if z != [] {
        LeadingZerosValue(z[..|z| - 1], []);
        assert z[..|z| - 1] + [] == z[..|z| - 1];
      }
    } else {
      var w := z + d;
      assert w[..|w| - 1] == z + d[..|d| - 1];
      LeadingZerosValue(z, d[..|d| - 1]);
    }
  }

  /** int() ignores leading zeros: `int("005") == 5`. */
  lemma ParseIntZeros(z: string, n: nat)
    requires forall k :: 0 <= k < |z| ==> z[k] == '0'
    ensures ParseInt(z + Digits(n)) == Some(n)
  {
    var d := z + Digits(n);
    assert AllDigits(d);
    LeadingZerosValue(z, Digits(n));
    DigitsRoundTrip(n);
    StripOfTrimmed(d);
  }

  /** int() takes a sign before the digits: `int("+05") == 5` and `int("-05") == -5`. */
  lemma ParseIntSigned(sign: char, z: string, n: nat)
    requires sign == '+' || sign == '-'
    requires forall k :: 0 <= k < |z| ==> z[k] == '0'
    ensures ParseInt([sign] + (z + Digits(n))) == Some(if sign == '-' then -(n as int) else n)
  {
    var d := z + Digits(n);
    var s := [sign] + d;
    assert AllDigits(d);
    LeadingZerosValue(z, Digits(n));
    DigitsRoundTrip(n);
    assert s[0] == sign && s[|s| - 1] == d[|d| - 1];
    StripOfTrimmed(s);
    assert s[1..] == d;
    assert !AllDigits(s) by {
      assert !IsDigit(s[0]);
    }
  }

  datatype Option<+T> = None | Some(value: T)
}
