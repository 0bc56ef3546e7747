/**
 * The part of RFC 3339 ("Date and Time on the Internet: Timestamps") that the
 * calendar handlers produce: fixed-width decimal fields, the `full-date`,
 * `partial-time` and `date-time` productions of section 5.6 without
 * fractional seconds, the month and day limits of section 5.7, and the UTC
 * offsets "Z" and "+00:00" (section 4.3). Strings are compared as Python
 * compares `str` values: lexicographically, character by character.
 */
module Rfc3339 {

  predicate IsDigit(c: char) { '0' <= c <= '9' }

  predicate AllDigits(s: string) { forall i :: 0 <= i < |s| ==> IsDigit(s[i]) }

  function DigitValue(c: char): (v: nat)
    requires IsDigit(c)
    ensures v < 10
  {
    c as int - '0' as int
  }

  function DigitChar(v: nat): (c: char)
    requires v < 10
    ensures IsDigit(c) && DigitValue(c) == v
  {
    ('0' as int + v) as char
  }

  function Pow10(w: nat): (p: nat)
    ensures p >= 1
  {
    if w == 0 then 1 else 10 * Pow10(w - 1)
  }

  /** `n` in decimal with exactly `w` digits, padded on the left with zeros (Python's "%0*d"). */
  function Digits(n: nat, w: nat): (s: string)
    requires n < Pow10(w)
    ensures |s| == w && AllDigits(s)
  {
    if w == 0 then "" else Digits(n / 10, w - 1) + [DigitChar(n % 10)]
  }

  /** The number that a string of decimal digits denotes. */
  function ValueOf(s: string): (v: nat)
    requires AllDigits(s)
    ensures v < Pow10(|s|)
  {
    if s == [] then 0 else 10 * ValueOf(s[..|s| - 1]) + DigitValue(s[|s| - 1])
  }

  /** Reading back a padded decimal gives the number that was written. */
  lemma {:induction false} ValueOfDigits(n: nat, w: nat)
    requires n < Pow10(w)
    ensures ValueOf(Digits(n, w)) == n
  {
    if w > 0 {
      var s := Digits(n, w);
      assert s[..w - 1] == Digits(n / 10, w - 1);
      ValueOfDigits(n / 10, w - 1);
    }
  }

  /** A two-digit field, read back. */
  lemma ValueOfTwoDigits(s: string)
    requires |s| == 2 && AllDigits(s)
    ensures ValueOf(s) == 10 * DigitValue(s[0]) + DigitValue(s[1])
  {
    assert s[..1][..0] == [];
  }

  /** Strict lexicographic order on strings, as Python's `<` on `str`. */
  predicate LexLess(a: string, b: string)
    decreases |a|
  {
    b != [] && (a == [] || a[0] < b[0] || (a[0] == b[0] && LexLess(a[1..], b[1..])))
  }

  /** A common prefix neither creates nor hides an order. */
  lemma {:induction false} LexLessCommonPrefix(p: string, x: string, y: string)
    ensures LexLess(p + x, p + y) <==> LexLess(x, y)
  {
    if p != [] {
      assert (p + x)[0] == p[0] == (p + y)[0];
      assert (p + x)[1..] == p[1..] + x;
      assert (p + y)[1..] == p[1..] + y;
      LexLessCommonPrefix(p[1..], x, y);
    } else {
      assert p + x == x && p + y == y;
    }
  }

  /** Once two strings of equal length are ordered, whatever follows them does not matter. */
  lemma {:induction false} LexLessExtend(a: string, b: string, x: string, y: string)
    requires |a| == |b| && LexLess(a, b)
    ensures LexLess(a + x, b + y)
  {
    assert (a + x)[0] == a[0] && (b + y)[0] == b[0];
    if a[0] == b[0] {
      assert (a + x)[1..] == a[1..] + x;
      assert (b + y)[1..] == b[1..] + y;
      LexLessExtend(a[1..], b[1..], x, y);
    }
  }

  /** No string is below itself. */
  lemma {:induction false} LexLessIrreflexive(a: string)
    ensures !LexLess(a, a)
  {
    if a != [] {
      LexLessIrreflexive(a[1..]);
    }
  }

  /** Of two strings, at most one is below the other. */
  lemma {:induction false} LexLessAsymmetric(a: string, b: string)
    ensures LexLess(a, b) ==> !LexLess(b, a)
  {
    if a != [] && b != [] && a[0] == b[0] {
      LexLessAsymmetric(a[1..], b[1..]);
    }
  }

  /** Two strings that start with parts of equal length compare by those parts first, then by the rest. */
  lemma {:induction false} LexLessEqualLengthHeads(a: string, b: string, x: string, y: string)
    requires |a| == |b|
    ensures LexLess(a + x, b + y) <==> LexLess(a, b) || (a == b && LexLess(x, y))
  {
    if a == [] {
      assert a + x == x && b + y == y;
    } else {
      assert (a + x)[0] == a[0] && (b + y)[0] == b[0];
      assert (a + x)[1..] == a[1..] + x;
      assert (b + y)[1..] == b[1..] + y;
      LexLessEqualLengthHeads(a[1..], b[1..], x, y);
      if a[0] == b[0] {
        assert a == b <==> a[1..] == b[1..];
      }
    }
  }

  /** For two padded decimals of the same width, the string order is the numeric order. */
  lemma {:induction false} DigitsOrdered(n: nat, m: nat, w: nat)
    requires n < m < Pow10(w)
    ensures LexLess(Digits(n, w), Digits(m, w))
  {
    var hn, hm := n / 10, m / 10;
    assert w > 0;
    assert hn <= hm;
    if hn < hm {
      DigitsOrdered(hn, hm, w - 1);
      LexLessExtend(Digits(hn, w - 1), Digits(hm, w - 1), [DigitChar(n % 10)], [DigitChar(m % 10)]);
    } else {
      assert n % 10 < m % 10;
      assert LexLess([DigitChar(n % 10)], [DigitChar(m % 10)]);
      LexLessCommonPrefix(Digits(hn, w - 1), [DigitChar(n % 10)], [DigitChar(m % 10)]);
    }
  }

  predicate IsLeapYear(year: nat)
  {
    year % 4 == 0 && (year % 100 != 0 || year % 400 == 0)
  }

  /** The table of section 5.7 (and its leap-year rule from Appendix C). */
  function DaysInMonth(year: nat, month: nat): (days: nat)
    requires 1 <= month <= 12
    ensures 28 <= days <= 31
    ensures days == 29 <==> month == 2 && IsLeapYear(year)
  {
    if month == 2 then (if IsLeapYear(year) then 29 else 28)
    else if month == 4 || month == 6 || month == 9 || month == 11 then 30
    else 31
  }

  /** `full-date = date-fullyear "-" date-month "-" date-mday`, with the ranges of section 5.7. */
  predicate IsFullDate(s: string)
  {
    |s| == 10 && AllDigits(s[..4]) && s[4] == '-' && AllDigits(s[5..7]) && s[7] == '-' && AllDigits(s[8..]) &&
    1 <= ValueOf(s[5..7]) <= 12 && 1 <= ValueOf(s[8..]) <= DaysInMonth(ValueOf(s[..4]), ValueOf(s[5..7]))
  }

  /** `partial-time` without `time-secfrac`: "HH:MM:SS", where a leap second may read 60. */
  predicate IsPartialTime(t: string)
  {
    |t| == 8 && AllDigits(t[..2]) && t[2] == ':' && AllDigits(t[3..5]) && t[5] == ':' && AllDigits(t[6..]) &&
    ValueOf(t[..2]) <= 23 && ValueOf(t[3..5]) <= 59 && ValueOf(t[6..]) <= 60
  }

  /** A UTC `time-offset`: "Z", or the numeric offset "+00:00". */
  predicate IsUtcOffset(z: string)
  {
    z == "Z" || z == "+00:00"
  }

  /** `date-time = full-date "T" full-time`, where the time has no fraction and its offset is UTC. */
  predicate IsUtcDateTime(s: string)
  {
    |s| >= 19 && IsFullDate(s[..10]) && s[10] == 'T' && IsPartialTime(s[11..19]) && IsUtcOffset(s[19..])
  }

  /** The only 'T' in a well-formed date-time is the separator at index 10. */
  lemma OnlySeparatorIsT(s: string, i: nat)
    requires IsUtcDateTime(s) && i < |s| && i != 10
    ensures s[i] != 'T'
  {
    if i < 4 {
      assert s[..10][..4][i] == s[i];
    } else if 5 <= i < 7 {
      assert s[..10][5..7][i - 5] == s[i];
    } else if 8 <= i < 10 {
      assert s[..10][8..][i - 8] == s[i];
    } else if 11 <= i < 13 {
      assert s[11..19][..2][i - 11] == s[i];
    } else if 14 <= i < 16 {
      assert s[11..19][3..5][i - 14] == s[i];
    } else if 17 <= i < 19 {
      assert s[11..19][6..][i - 17] == s[i];
    } else if i >= 19 {
      assert s[19..][i - 19] == s[i];
    }
  }

  /** A `full-date`, "T", a `partial-time` and a UTC offset make a well-formed date-time. */
  lemma UtcDateTimeFromParts(date: string, time: string, offset: string)
    requires IsFullDate(date) && IsPartialTime(time) && IsUtcOffset(offset)
    ensures IsUtcDateTime(date + "T" + time + offset)
  {
    var s := date + "T" + time + offset;
    assert s[..10] == date;
    assert s[11..19] == time;
    assert s[19..] == offset;
  }

  /**
   * A date and a time joined by "T" and followed by "Z" form a well-formed UTC
   * date-time exactly when the date is a `full-date` and the time a `partial-time`.
   */
  lemma ZuluDateTimeWellFormed(date: string, time: string)
    ensures IsUtcDateTime(date + "T" + time + "Z") <==> IsFullDate(date) && IsPartialTime(time)
  {
    var s := date + "T" + time + "Z";
    if IsFullDate(date) && IsPartialTime(time) {
      UtcDateTimeFromParts(date, time, "Z");
    }
    if IsUtcDateTime(s) {
      assert s[|date|] == 'T';
      if |date| != 10 {
        OnlySeparatorIsT(s, |date|);
      }
      assert s[19..][|s| - 20] == s[|s| - 1] == 'Z';
      assert s[19..] == "Z";
      assert s[..10] == date;
      assert s[11..19] == time;
    }
  }
}
