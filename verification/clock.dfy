/** What `new Date(`${date}T${time}`)` computes for the values the date and
    time inputs produce, as a whole number of minutes: the day number of a
    `YYYY-MM-DD` date (proleptic Gregorian calendar, counted from 0000-01-01)
    times 1440, plus the minutes of an `HH:MM` time. Text JavaScript cannot
    parse gives NaN, here `None`. Time zones and daylight saving are not
    modelled: every value is a naive local time. */
module Clock {
  import opened Options

  const MinutesPerDay: int := 1440

  predicate IsDigit(c: char) {
    '0' <= c <= '9'
  }

  /** Ten to the power `n`. */
  function Pow10(n: nat): nat {
    if n == 0 then 1 else 10 * Pow10(n - 1)
  }

  /** The decimal value of a run of digits, or `None` if some character is
      not a digit. */
  function ParseDigits(s: string): (r: Option<nat>)
    ensures r.Some? <==> forall i :: 0 <= i < |s| ==> IsDigit(s[i])
    ensures r.Some? ==> r.value < Pow10(|s|)
    decreases |s|
  {
    if |s| == 0 then Some(0)
    else
      var init := s[..|s| - 1];
      var last := s[|s| - 1];
      assert forall i :: 0 <= i < |init| ==> init[i] == s[i];
      match ParseDigits(init)
      case None => None
      case Some(v) =>
        if IsDigit(last) then Some(10 * v + (last as int - '0' as int)) else None
  }

  /** `n` written with exactly `width` decimal digits, zero-padded on the left. */
  function Digits(n: nat, width: nat): (s: string)
    ensures |s| == width
    ensures forall i :: 0 <= i < |s| ==> IsDigit(s[i])
  {
    if width == 0 then "" else Digits(n / 10, width - 1) + [('0' as int + n % 10) as char]
  }

  /** Parsing undoes zero-padded printing. */
  lemma {:induction false} ParseDigitsRoundTrip(n: nat, width: nat)
    requires n < Pow10(width)
    ensures ParseDigits(Digits(n, width)) == Some(n)
  {
    if width > 0 {
      var s := Digits(n, width);
      ParseDigitsRoundTrip(n / 10, width - 1);
      assert s[..|s| - 1] == Digits(n / 10, width - 1);
    }
  }

  /** Printing undoes parsing: a run of digits is the zero-padded printing
      of its value. */
  lemma {:induction false} DigitsOfParsed(s: string)
    requires ParseDigits(s).Some?
    ensures Digits(ParseDigits(s).value, |s|) == s
    decreases |s|
  {
    if |s| > 0 {
      var init := s[..|s| - 1];
      assert forall i :: 0 <= i < |init| ==> init[i] == s[i];
      DigitsOfParsed(init);
      var v := ParseDigits(init).value;
      var n := ParseDigits(s).value;
      assert n == 10 * v + (s[|s| - 1] as int - '0' as int);
      assert n / 10 == v && n % 10 == s[|s| - 1] as int - '0' as int;
      assert s == init + [s[|s| - 1]];
    }
  }

  predicate IsLeapYear(y: int) {
    y % 4 == 0 && (y % 100 != 0 || y % 400 == 0)
  }

  function DaysInMonth(y: int, m: int): int {
    if m == 2 then (if IsLeapYear(y) then 29 else 28)
    else if m == 4 || m == 6 || m == 9 || m == 11 then 30
    else 31
  }

  /** Days in the months of year `y` before month `m` (1 to 12). */
  function DaysBeforeMonth(y: int, m: int): (n: nat)
    requires 1 <= m <= 12
  {
    var common := [0, 31, 59, 90, 120, 151, 181, 212, 243, 273, 304, 334][m - 1];
    if m > 2 && IsLeapYear(y) then common + 1 else common
  }

  /** Leap years among 0, 1, ..., y - 1. */
  function LeapYearsBefore(y: nat): nat {
    (y + 3) / 4 - (y + 99) / 100 + (y + 399) / 400
  }

  /** Counting multiples of `q` among 0, 1, ..., y: one more than among
      0, ..., y - 1 exactly when `y` is one. Stated for the three divisors the
      calendar uses. */
  lemma MultiplesStep4(y: nat)
    ensures (y + 4) / 4 == (y + 3) / 4 + (if y % 4 == 0 then 1 else 0)
  {
    var a, r := y / 4, y % 4;
    assert y == 4 * a + r && 0 <= r < 4;
    assert (y + 4) / 4 == a + 1;
    assert (y + 3) / 4 == if r == 0 then a else a + 1;
  }

  lemma MultiplesStep100(y: nat)
    ensures (y + 100) / 100 == (y + 99) / 100 + (if y % 100 == 0 then 1 else 0)
  {
    var a, r := y / 100, y % 100;
    assert y == 100 * a + r && 0 <= r < 100;
    assert (y + 100) / 100 == a + 1;
    assert (y + 99) / 100 == if r == 0 then a else a + 1;
  }

  lemma MultiplesStep400(y: nat)
    ensures (y + 400) / 400 == (y + 399) / 400 + (if y % 400 == 0 then 1 else 0)
  {
    var a, r := y / 400, y % 400;
    assert y == 400 * a + r && 0 <= r < 400;
    assert (y + 400) / 400 == a + 1;
    assert (y + 399) / 400 == if r == 0 then a else a + 1;
  }

  /** Every multiple of 400 is one of 100, and every multiple of 100 is
      one of 4. */
  lemma DivisorsNest(y: nat)
    ensures y % 400 == 0 ==> y % 100 == 0
    ensures y % 100 == 0 ==> y % 4 == 0
  {
    if y % 400 == 0 {
      var a := y / 400;
      assert y == 100 * (4 * a);
    }
    if y % 100 == 0 {
      var b := y / 100;
      assert y == 4 * (25 * b);
    }
  }

  /** The leap-year count grows by one exactly past a leap year. */
  lemma LeapYearsStep(y: nat)
    ensures LeapYearsBefore(y + 1) == LeapYearsBefore(y) + (if IsLeapYear(y) then 1 else 0)
  {
    MultiplesStep4(y);
    MultiplesStep100(y);
    MultiplesStep400(y);
    DivisorsNest(y);
    assert LeapYearsBefore(y + 1) == (y + 4) / 4 - (y + 100) / 100 + (y + 400) / 400;
  }

  /** Days from 0000-01-01 to the given date. */
  function DayNumber(y: nat, m: int, d: int): int
    requires 1 <= m <= 12
  {
    365 * y + LeapYearsBefore(y) + DaysBeforeMonth(y, m) + d - 1
  }

  /** Day numbers are consecutive: the day after the last day of a month is
      the first of the next month, and after 31 December comes 1 January. */
  lemma DayNumberConsecutive(y: nat, m: int)
    requires 1 <= m <= 12
    ensures m < 12 ==> DayNumber(y, m + 1, 1) == DayNumber(y, m, DaysInMonth(y, m)) + 1
    ensures m == 12 ==> DayNumber(y + 1, 1, 1) == DayNumber(y, 12, 31) + 1
  {
    if m == 12 {
      LeapYearsStep(y);
    }
  }

  /** `YYYY-MM-DD` with an existing month and day, as a day number. */
  function ParseDate(s: string): (r: Option<int>)
    ensures r.Some? ==> r.value >= 0
  {
    if |s| != 10 || s[4] != '-' || s[7] != '-' then None
    else
      match (ParseDigits(s[..4]), ParseDigits(s[5..7]), ParseDigits(s[8..]))
      case (Some(y), Some(m), Some(d)) =>
        if 1 <= m <= 12 && 1 <= d <= DaysInMonth(y, m) then Some(DayNumber(y, m, d)) else None
      case _ => None
  }

  /** `HH:MM` on a 24-hour clock, as minutes since midnight. */
  function ParseTime(s: string): (r: Option<int>)
    ensures r.Some? ==> 0 <= r.value < MinutesPerDay
  {
    if |s| != 5 || s[2] != ':' then None
    else
      match (ParseDigits(s[..2]), ParseDigits(s[3..]))
      case (Some(h), Some(m)) => if h < 24 && m < 60 then Some(60 * h + m) else None
      case _ => None
  }

  /** The text a time input produces for hour `h` and minute `m`. */
  function TimeText(h: nat, m: nat): string {
    Digits(h, 2) + ":" + Digits(m, 2)
  }

  /** Every time of day written as a time input writes it parses back. */
  lemma TimeRoundTrip(h: nat, m: nat)
    requires h < 24 && m < 60
    ensures ParseTime(TimeText(h, m)) == Some(60 * h + m)
  {
    var s := TimeText(h, m);
    ParseDigitsRoundTrip(h, 2);
    ParseDigitsRoundTrip(m, 2);
    assert s[..2] == Digits(h, 2);
    assert s[3..] == Digits(m, 2);
  }

  /** Only the text a time input writes parses: any text `ParseTime`
      accepts is `TimeText` of an hour and minute in range, and its value is
      the minute of the day they name. */
  lemma ParseTimeOnlyPrinted(s: string)
    ensures ParseTime(s).Some? ==>
              exists h: nat, m: nat :: h < 24 && m < 60 && s == TimeText(h, m) && ParseTime(s).value == 60 * h + m
  {
    if ParseTime(s).Some? {
      var h := ParseDigits(s[..2]).value;
      var m := ParseDigits(s[3..]).value;
      DigitsOfParsed(s[..2]);
      DigitsOfParsed(s[3..]);
      assert s == s[..2] + ":" + s[3..];
      assert s == TimeText(h, m);
    }
  }

  /** The text a date input produces for a day of years 0 to 9999. */
  function DateText(y: nat, m: nat, d: nat): string {
    Digits(y, 4) + "-" + Digits(m, 2) + "-" + Digits(d, 2)
  }

  /** Every calendar date written as a date input writes it parses back. */
  lemma DateRoundTrip(y: nat, m: nat, d: nat)
    requires y < 10000 && 1 <= m <= 12 && 1 <= d <= DaysInMonth(y, m)
    ensures ParseDate(DateText(y, m, d)) == Some(DayNumber(y, m, d))
  {
    var s := DateText(y, m, d);
    ParseDigitsRoundTrip(y, 4);
    ParseDigitsRoundTrip(m, 2);
    ParseDigitsRoundTrip(d, 2);
    assert s[..4] == Digits(y, 4);
    assert s[5..7] == Digits(m, 2);
    assert s[8..] == Digits(d, 2);
  }

  /** Only the text a date input writes parses: any text `ParseDate`
      accepts is `DateText` of an existing day of years 0 to 9999, and its
      value is that day's number. */
  lemma ParseDateOnlyPrinted(s: string)
    ensures ParseDate(s).Some? ==>
              exists y: nat, m: nat, d: nat ::
                && y < 10000 && 1 <= m <= 12 && 1 <= d <= DaysInMonth(y, m)
                && s == DateText(y, m, d) && ParseDate(s).value == DayNumber(y, m, d)
  {
    if ParseDate(s).Some? {
      var y := ParseDigits(s[..4]).value;
      var m := ParseDigits(s[5..7]).value;
      var d := ParseDigits(s[8..]).value;
      assert Pow10(4) == 10000;
      DigitsOfParsed(s[..4]);
      DigitsOfParsed(s[5..7]);
      DigitsOfParsed(s[8..]);
      assert s == s[..4] + "-" + s[5..7] + "-" + s[8..];
      assert s == DateText(y, m, d);
    }
  }

  /** The instant named by a date and a time, in minutes; `None` stands for
      JavaScript's invalid date. */
  function Instant(date: string, time: string): (r: Option<int>)
    ensures r.Some? <==> ParseDate(date).Some? && ParseTime(time).Some?
  {
    match (ParseDate(date), ParseTime(time))
    case (Some(day), Some(minutes)) => Some(day * MinutesPerDay + minutes)
    case _ => None
  }

  /** A count of minutes splits uniquely into whole days and a time of day. */
  lemma SplitMinutes(day1: int, m1: int, day2: int, m2: int)
    requires 0 <= m1 < MinutesPerDay && 0 <= m2 < MinutesPerDay
    requires day1 * MinutesPerDay + m1 == day2 * MinutesPerDay + m2
    ensures day1 == day2 && m1 == m2
  {
  }

  /** Distinct dates or distinct times name distinct instants. */
  lemma InstantInjective(d1: string, t1: string, d2: string, t2: string)
    ensures Instant(d1, t1).Some? && Instant(d1, t1) == Instant(d2, t2) ==>
              ParseDate(d1) == ParseDate(d2) && ParseTime(t1) == ParseTime(t2)
  {
    if Instant(d1, t1).Some? && Instant(d1, t1) == Instant(d2, t2) {
      var day1, day2 := ParseDate(d1).value, ParseDate(d2).value;
      var m1, m2 := ParseTime(t1).value, ParseTime(t2).value;
      SplitMinutes(day1, m1, day2, m2);
    }
  }

  /** On one date, instants are as far apart as the times of day. */
  lemma SameDateDistance(date: string, t1: string, t2: string)
    ensures Instant(date, t1).Some? && Instant(date, t2).Some? ==>
              Instant(date, t1).value - Instant(date, t2).value == ParseTime(t1).value - ParseTime(t2).value
  {
  }
}
