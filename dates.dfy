/**
 * Calendar dates as the clinic code sees them: the `YYYY-MM-DD` strings of a date
 * input, compared by calendar day (time of day ignored), with "today" passed in.
 */
module Dates {
  import opened Wrappers
  import opened Text

  datatype Date = Date(year: int, month: int, day: int)

  /** The dates a four-digit ISO string can name. Month lengths are not modelled. */
  predicate Valid(d: Date)
  {
    0 <= d.year <= 9999 && 1 <= d.month <= 12 && 1 <= d.day <= 31
  }

  /** Calendar order: `a` is a strictly earlier day than `b`. */
  predicate Before(a: Date, b: Date)
  {
    a.year < b.year
    || (a.year == b.year && a.month < b.month)
    || (a.year == b.year && a.month == b.month && a.day < b.day)
  }

  function DigitValue(c: char): int
  {
    c as int - '0' as int
  }

  function DigitChar(n: int): (c: char)
    requires 0 <= n < 10
    ensures IsDigit(c) && DigitValue(c) == n
  {
    (n + '0' as int) as char
  }

  /** Value of the decimal digits `s[lo..hi]`. */
  function DigitsValue(s: string, lo: nat, hi: nat): int
    requires lo <= hi <= |s|
    decreases hi - lo
  {
    if lo == hi then 0 else DigitsValue(s, lo, hi - 1) * 10 + DigitValue(s[hi - 1])
  }

  /** The shape `DDDD-DD-DD`. */
  predicate IsoShape(s: string)
  {
    |s| == 10 && s[4] == '-' && s[7] == '-'
    && IsDigit(s[0]) && IsDigit(s[1]) && IsDigit(s[2]) && IsDigit(s[3])
    && IsDigit(s[5]) && IsDigit(s[6]) && IsDigit(s[8]) && IsDigit(s[9])
  }

  /**
   * `new Date(s + "T00:00:00")` on the `YYYY-MM-DD` value a date input yields:
   * the day it names, or `None` for any other text and for a month outside 1..12
   * or a day outside 1..31.
   */
  function ParseIso(s: string): (r: Option<Date>)
    ensures r.Some? ==> Valid(r.value) && IsoShape(s)
  {
    if !IsoShape(s) then None
    else
      var d := Date(DigitsValue(s, 0, 4), DigitsValue(s, 5, 7), DigitsValue(s, 8, 10));
      if Valid(d) then Some(d) else None
  }

  function Pad2(n: int): (r: string)
    requires 0 <= n < 100
    ensures |r| == 2
  {
    [DigitChar(n / 10), DigitChar(n % 10)]
  }

  function Pad4(n: int): (r: string)
    requires 0 <= n < 10000
    ensures |r| == 4
  {
    Pad2(n / 100) + Pad2(n % 100)
  }

  /** The `YYYY-MM-DD` text of a date (what `toISOString().slice(0, 10)` yields for it). */
  function FormatIso(d: Date): (r: string)
    requires Valid(d)
    ensures |r| == 10
  {
    Pad4(d.year) + ("-" + (Pad2(d.month) + ("-" + Pad2(d.day))))
  }

  /** Formatting then parsing gives the same date back. */
  lemma ParseFormat(d: Date)
    requires Valid(d)
    ensures ParseIso(FormatIso(d)) == Some(d)
  {
    var s := FormatIso(d);
    assert s[0..4] == Pad4(d.year) && s[5..7] == Pad2(d.month) && s[8..10] == Pad2(d.day);
    assert DigitsValue(s, 0, 4) == d.year;
    assert DigitsValue(s, 5, 7) == d.month;
    assert DigitsValue(s, 8, 10) == d.day;
  }

  /** Parsing then formatting gives the same string back: a parseable date string is canonical. */
  lemma FormatParse(s: string)
    requires ParseIso(s).Some?
    ensures FormatIso(ParseIso(s).value) == s
  {
    var d := ParseIso(s).value;
    Pad4OfDigits(s, 0);
    Pad2OfDigits(s, 5);
    Pad2OfDigits(s, 8);
    assert s == s[0..4] + ("-" + (s[5..7] + ("-" + s[8..10])));
  }

  /** Two digits `s[lo..lo + 2]` are the padded text of their value. */
  lemma Pad2OfDigits(s: string, lo: nat)
    requires lo + 2 <= |s| && IsDigit(s[lo]) && IsDigit(s[lo + 1])
    ensures 0 <= DigitsValue(s, lo, lo + 2) < 100
    ensures Pad2(DigitsValue(s, lo, lo + 2)) == s[lo..lo + 2]
  {
    var x, y := DigitValue(s[lo]), DigitValue(s[lo + 1]);
    assert DigitsValue(s, lo, lo + 1) == x;
    assert DigitsValue(s, lo, lo + 2) == x * 10 + y;
    assert (x * 10 + y) / 10 == x && (x * 10 + y) % 10 == y;
    DigitRoundTrip(s[lo]);
    DigitRoundTrip(s[lo + 1]);
  }

  /** Four digits `s[lo..lo + 4]` are the padded text of their value. */
  lemma Pad4OfDigits(s: string, lo: nat)
    requires lo + 4 <= |s|
    requires IsDigit(s[lo]) && IsDigit(s[lo + 1]) && IsDigit(s[lo + 2]) && IsDigit(s[lo + 3])
    ensures 0 <= DigitsValue(s, lo, lo + 4) < 10000
    ensures Pad4(DigitsValue(s, lo, lo + 4)) == s[lo..lo + 4]
  {
    Pad2OfDigits(s, lo);
    Pad2OfDigits(s, lo + 2);
    var hi, low := DigitsValue(s, lo, lo + 2), DigitsValue(s, lo + 2, lo + 4);
    assert DigitsValue(s, lo + 2, lo + 4) == DigitValue(s[lo + 2]) * 10 + DigitValue(s[lo + 3]);
    assert DigitsValue(s, lo, lo + 3) == hi * 10 + DigitValue(s[lo + 2]);
    assert DigitsValue(s, lo, lo + 4) == hi * 100 + low;
    assert (hi * 100 + low) / 100 == hi && (hi * 100 + low) % 100 == low;
    assert s[lo..lo + 4] == s[lo..lo + 2] + s[lo + 2..lo + 4];
  }

  lemma DigitRoundTrip(c: char)
    requires IsDigit(c)
    ensures DigitChar(DigitValue(c)) == c
  {
  }

  /** Two-digit texts compare as their numbers do. */
  lemma Pad2Order(a: int, b: int)
    requires 0 <= a < 100 && 0 <= b < 100
    ensures StrLess(Pad2(a), Pad2(b)) <==> a < b
    ensures Pad2(a) == Pad2(b) <==> a == b
  {
    var pa, pb := Pad2(a), Pad2(b);
    assert pa[1..][1..] == [] && pb[1..][1..] == [];
    StrLessIrreflexive(pa);
    if pa == pb {
      assert a / 10 == b / 10 && a % 10 == b % 10;
    }
  }

  /** Four-digit texts compare as their numbers do. */
  lemma Pad4Order(a: int, b: int)
    requires 0 <= a < 10000 && 0 <= b < 10000
    ensures StrLess(Pad4(a), Pad4(b)) <==> a < b
    ensures Pad4(a) == Pad4(b) <==> a == b
  {
    StrLessConcat(Pad2(a / 100), Pad2(a % 100), Pad2(b / 100), Pad2(b % 100));
    Pad2Order(a / 100, b / 100);
    Pad2Order(a % 100, b % 100);
    if Pad4(a) == Pad4(b) {
      assert Pad2(a / 100) == Pad4(a)[..2] && Pad2(b / 100) == Pad4(b)[..2];
      assert Pad2(a % 100) == Pad4(a)[2..] && Pad2(b % 100) == Pad4(b)[2..];
    }
  }

  /** The string order of ISO texts is the calendar order of the dates they name. */
  lemma StringOrderIsCalendarOrder(a: Date, b: Date)
    requires Valid(a) && Valid(b)
    ensures StrLess(FormatIso(a), FormatIso(b)) <==> Before(a, b)
  {
    var ra := "-" + (Pad2(a.month) + ("-" + Pad2(a.day)));
    var rb := "-" + (Pad2(b.month) + ("-" + Pad2(b.day)));
    StrLessConcat(Pad4(a.year), ra, Pad4(b.year), rb);
    Pad4Order(a.year, b.year);
    StrLessConcat("-", Pad2(a.month) + ("-" + Pad2(a.day)), "-", Pad2(b.month) + ("-" + Pad2(b.day)));
    StrLessConcat(Pad2(a.month), "-" + Pad2(a.day), Pad2(b.month), "-" + Pad2(b.day));
    Pad2Order(a.month, b.month);
    StrLessConcat("-", Pad2(a.day), "-", Pad2(b.day));
    Pad2Order(a.day, b.day);
    StrLessIrreflexive("-");
  }

  /** Distinct valid dates have distinct ISO texts. */
  lemma FormatInjective(a: Date, b: Date)
    requires Valid(a) && Valid(b)
    ensures FormatIso(a) == FormatIso(b) <==> a == b
  {
    if FormatIso(a) == FormatIso(b) {
      ParseFormat(a);
      ParseFormat(b);
    }
  }

  /**
   * `isFutureDate(s)`: the named day is today or later. An unparseable string makes
   * the JavaScript comparison `NaN >= t` false.
   */
  function IsFutureDate(s: string, today: Date): (r: bool)
    ensures r <==> ParseIso(s).Some? && !Before(ParseIso(s).value, today)
  {
    match ParseIso(s)
    case None => false
    case Some(d) => !Before(d, today)
  }

  datatype Status = Today | Upcoming | Completed

  /**
   * `getApptStatus(s)`: "Today" when the day is today, "Upcoming" when later, and
   * "Completed" otherwise, which includes an unparseable string (both comparisons of NaN fail).
   */
  function ApptStatus(s: string, today: Date): (r: Status)
  {
    match ParseIso(s)
    case None => Completed
    case Some(d) =>
      if d == today then Today
      else if Before(today, d) then Upcoming
      else Completed
  }

  /** The three statuses split the dates exactly by their calendar relation to today. */
  lemma StatusCases(s: string, today: Date)
    ensures ApptStatus(s, today) == Today <==> ParseIso(s) == Some(today)
    ensures ApptStatus(s, today) == Upcoming <==> ParseIso(s).Some? && Before(today, ParseIso(s).value)
    ensures ApptStatus(s, today) == Completed
      <==> ParseIso(s).None? || Before(ParseIso(s).value, today)
  {
    if ParseIso(s).Some? {
      var d := ParseIso(s).value;
      assert d == today || Before(today, d) || Before(d, today);
      assert !(Before(today, d) && Before(d, today));
      assert !Before(d, d);
    }
  }

  /** A date may be booked exactly when its status is not "Completed". */
  lemma FutureIffNotCompleted(s: string, today: Date)
    ensures IsFutureDate(s, today) <==> ApptStatus(s, today) != Completed
  {
    StatusCases(s, today);
  }

  /** A status computed from a date string and today's ISO text, as the dashboard compares them. */
  lemma StringCompareMatchesStatus(s: string, today: Date)
    requires Valid(today) && ParseIso(s).Some?
    ensures s == FormatIso(today) <==> ApptStatus(s, today) == Today
    ensures StrLess(FormatIso(today), s) <==> ApptStatus(s, today) == Upcoming
  {
    var d := ParseIso(s).value;
    FormatParse(s);
    FormatInjective(d, today);
    StringOrderIsCalendarOrder(today, d);
    StatusCases(s, today);
  }
}
