/**
 * The slice of Python's `datetime` that the calendar service relies on: an
 * aware date-time in UTC as a record of its fields, the order in which Python
 * compares two of them, and `isoformat()`.
 */
module DateTimes {
  import opened Rfc3339

  /** `datetime.MINYEAR` and `datetime.MAXYEAR`. */
  const MinYear: nat := 1
  const MaxYear: nat := 9999

  /** A `datetime` whose `tzinfo` is `timezone.utc`. */
  datatype DateTime = DateTime(year: nat, month: nat, day: nat, hour: nat, minute: nat, second: nat, microsecond: nat)
  {
    /** The ranges that the `datetime` constructor and `replace` enforce. */
    predicate Valid()
    {
      MinYear <= year <= MaxYear && 1 <= month <= 12 && 1 <= day <= DaysInMonth(year, month) &&
      hour < 24 && minute < 60 && second < 60 && microsecond < 1000000
    }
  }

  /** `a < b` on two aware date-times with the same offset: field by field, most significant first. */
  predicate Before(a: DateTime, b: DateTime)
  {
    if a.year != b.year then a.year < b.year
    else if a.month != b.month then a.month < b.month
    else if a.day != b.day then a.day < b.day
    else if a.hour != b.hour then a.hour < b.hour
    else if a.minute != b.minute then a.minute < b.minute
    else if a.second != b.second then a.second < b.second
    else a.microsecond < b.microsecond
  }

  /** Two numbers as "%02d<sep>%02d". */
  function Pair(b: nat, c: nat, sep: char): (s: string)
    requires b < 100 && c < 100
    ensures |s| == 5 && s[2] == sep && s[..2] == Digits(b, 2) && s[3..] == Digits(c, 2)
  {
    Digits(b, 2) + ([sep] + Digits(c, 2))
  }

  /** Three numbers as "%0*d<sep>%02d<sep>%02d": a date ("YYYY-MM-DD") or a time ("HH:MM:SS"). */
  function Joined(a: nat, width: nat, b: nat, c: nat, sep: char): (s: string)
    requires a < Pow10(width) && b < 100 && c < 100
    ensures |s| == width + 6 && s[..width] == Digits(a, width) && s[width] == sep && s[width + 1..] == Pair(b, c, sep)
  {
    Digits(a, width) + ([sep] + Pair(b, c, sep))
  }

  /**
   * `isoformat()` of a UTC date-time: "YYYY-MM-DDTHH:MM:SS", then ".ffffff" only
   * when the microsecond is not zero, then the offset "+00:00".
   */
  function IsoFormat(d: DateTime): string
    requires d.Valid()
  {
    Joined(d.year, 4, d.month, d.day, '-') + "T" + Joined(d.hour, 2, d.minute, d.second, ':') +
    (if d.microsecond == 0 then "" else "." + Digits(d.microsecond, 6)) + "+00:00"
  }

  /** A valid date formats as an RFC 3339 `full-date`. */
  lemma DatePartWellFormed(d: DateTime)
    requires d.Valid()
    ensures IsFullDate(Joined(d.year, 4, d.month, d.day, '-'))
  {
    var s := Joined(d.year, 4, d.month, d.day, '-');
    assert s[5..7] == Pair(d.month, d.day, '-')[..2];
    assert s[8..] == Pair(d.month, d.day, '-')[3..];
    ValueOfDigits(d.year, 4);
    ValueOfDigits(d.month, 2);
    ValueOfDigits(d.day, 2);
  }

  /** A valid time of day formats as an RFC 3339 `partial-time`. */
  lemma TimePartWellFormed(d: DateTime)
    requires d.Valid()
    ensures IsPartialTime(Joined(d.hour, 2, d.minute, d.second, ':'))
  {
    var s := Joined(d.hour, 2, d.minute, d.second, ':');
    assert s[3..5] == Pair(d.minute, d.second, ':')[..2];
    assert s[6..] == Pair(d.minute, d.second, ':')[3..];
    ValueOfDigits(d.hour, 2);
    ValueOfDigits(d.minute, 2);
    ValueOfDigits(d.second, 2);
  }

  /** A whole-second UTC date-time formats as a well-formed RFC 3339 date-time. */
  lemma IsoFormatWellFormed(d: DateTime)
    requires d.Valid() && d.microsecond == 0
    ensures IsUtcDateTime(IsoFormat(d))
  {
    var date, time := Joined(d.year, 4, d.month, d.day, '-'), Joined(d.hour, 2, d.minute, d.second, ':');
    assert IsoFormat(d) == date + "T" + time + "+00:00";
    DatePartWellFormed(d);
    TimePartWellFormed(d);
    UtcDateTimeFromParts(date, time, "+00:00");
  }

  /**
   * The date-time that a well-formed UTC date-time string names, its fields read
   * back from their digits. The string has no fraction, so the microsecond is 0.
   */
  function ParseUtc(s: string): (d: DateTime)
    requires IsUtcDateTime(s)
    ensures 1 <= d.month <= 12 && 1 <= d.day <= DaysInMonth(d.year, d.month)
    ensures d.year <= MaxYear && d.hour < 24 && d.minute < 60 && d.second <= 60 && d.microsecond == 0
  {
    var date, time := s[..10], s[11..19];
    assert Pow10(4) == 10000;
    DateTime(ValueOf(date[..4]), ValueOf(date[5..7]), ValueOf(date[8..]),
             ValueOf(time[..2]), ValueOf(time[3..5]), ValueOf(time[6..]), 0)
  }

  /** Reading back what `isoformat()` writes for a whole-second date-time gives that date-time. */
  lemma IsoFormatReadBack(d: DateTime)
    requires d.Valid() && d.microsecond == 0
    ensures IsUtcDateTime(IsoFormat(d)) && ParseUtc(IsoFormat(d)) == d
  {
    IsoFormatWellFormed(d);
    var date, time := Joined(d.year, 4, d.month, d.day, '-'), Joined(d.hour, 2, d.minute, d.second, ':');
    var s := IsoFormat(d);
    IsoFormatWholeSecond(d);
    assert s[..10] == date && s[11..19] == time;
    assert date[5..7] == Pair(d.month, d.day, '-')[..2] && date[8..] == Pair(d.month, d.day, '-')[3..];
    assert time[3..5] == Pair(d.minute, d.second, ':')[..2] && time[6..] == Pair(d.minute, d.second, ':')[3..];
    ValueOfDigits(d.year, 4);
    ValueOfDigits(d.month, 2);
    ValueOfDigits(d.day, 2);
    ValueOfDigits(d.hour, 2);
    ValueOfDigits(d.minute, 2);
    ValueOfDigits(d.second, 2);
  }

  /** Pairs compare as the pairs of numbers do, the first number first. */
  lemma PairOrdered(b1: nat, c1: nat, b2: nat, c2: nat, sep: char)
    requires b1 < 100 && c1 < 100 && b2 < 100 && c2 < 100
    requires b1 < b2 || (b1 == b2 && c1 < c2)
    ensures LexLess(Pair(b1, c1, sep), Pair(b2, c2, sep))
  {
    if b1 < b2 {
      DigitsOrdered(b1, b2, 2);
      LexLessExtend(Digits(b1, 2), Digits(b2, 2), [sep] + Digits(c1, 2), [sep] + Digits(c2, 2));
    } else {
      DigitsOrdered(c1, c2, 2);
      LexLessCommonPrefix([sep], Digits(c1, 2), Digits(c2, 2));
      LexLessCommonPrefix(Digits(b1, 2), [sep] + Digits(c1, 2), [sep] + Digits(c2, 2));
    }
  }

  /** Joined triples compare as the triples of numbers do, most significant first. */
  lemma JoinedOrdered(a1: nat, b1: nat, c1: nat, a2: nat, b2: nat, c2: nat, width: nat, sep: char)
    requires a1 < Pow10(width) && b1 < 100 && c1 < 100
    requires a2 < Pow10(width) && b2 < 100 && c2 < 100
    requires a1 < a2 || (a1 == a2 && (b1 < b2 || (b1 == b2 && c1 < c2)))
    ensures LexLess(Joined(a1, width, b1, c1, sep), Joined(a2, width, b2, c2, sep))
  {
    var tail1, tail2 := [sep] + Pair(b1, c1, sep), [sep] + Pair(b2, c2, sep);
    if a1 < a2 {
      DigitsOrdered(a1, a2, width);
      LexLessExtend(Digits(a1, width), Digits(a2, width), tail1, tail2);
    } else {
      PairOrdered(b1, c1, b2, c2, sep);
      LexLessCommonPrefix([sep], Pair(b1, c1, sep), Pair(b2, c2, sep));
      LexLessCommonPrefix(Digits(a1, width), tail1, tail2);
    }
  }

  /** Without microseconds, `isoformat()` is the date, "T", the time and "+00:00". */
  lemma IsoFormatWholeSecond(d: DateTime)
    requires d.Valid() && d.microsecond == 0
    ensures IsoFormat(d) == Joined(d.year, 4, d.month, d.day, '-') + ("T" + (Joined(d.hour, 2, d.minute, d.second, ':') + "+00:00"))
  {
  }

  /** For whole-second UTC date-times, an earlier instant gives a smaller `isoformat()` string. */
  lemma IsoFormatOrdered(a: DateTime, b: DateTime)
    requires a.Valid() && b.Valid() && a.microsecond == 0 && b.microsecond == 0
    requires Before(a, b)
    ensures LexLess(IsoFormat(a), IsoFormat(b))
  {
    var dateA, timeA := Joined(a.year, 4, a.month, a.day, '-'), Joined(a.hour, 2, a.minute, a.second, ':');
    var dateB, timeB := Joined(b.year, 4, b.month, b.day, '-'), Joined(b.hour, 2, b.minute, b.second, ':');
    IsoFormatWholeSecond(a);
    IsoFormatWholeSecond(b);
    if (a.year, a.month, a.day) != (b.year, b.month, b.day) {
      JoinedOrdered(a.year, a.month, a.day, b.year, b.month, b.day, 4, '-');
      LexLessExtend(dateA, dateB, "T" + (timeA + "+00:00"), "T" + (timeB + "+00:00"));
    } else {
      JoinedOrdered(a.hour, a.minute, a.second, b.hour, b.minute, b.second, 2, ':');
      LexLessExtend(timeA, timeB, "+00:00", "+00:00");
      LexLessCommonPrefix("T", timeA + "+00:00", timeB + "+00:00");
      LexLessCommonPrefix(dateA, "T" + (timeA + "+00:00"), "T" + (timeB + "+00:00"));
    }
  }

  /** For whole-second UTC date-times, `isoformat()` strings compare exactly as the instants do. */
  lemma IsoFormatOrderIff(a: DateTime, b: DateTime)
    requires a.Valid() && b.Valid() && a.microsecond == 0 && b.microsecond == 0
    ensures Before(a, b) <==> LexLess(IsoFormat(a), IsoFormat(b))
  {
    if Before(a, b) {
      IsoFormatOrdered(a, b);
    } else if a == b {
      LexLessIrreflexive(IsoFormat(a));
    } else {
      assert Before(b, a);
      IsoFormatOrdered(b, a);
      LexLessAsymmetric(IsoFormat(b), IsoFormat(a));
    }
  }
}
