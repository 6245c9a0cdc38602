/** ISO week dates as fmt computes them, against the first-Thursday rule of section 2.2.10 of
    ISO 8601:2004. */
module IsoWeek {

  import opened Basics

  // ---------------------------------------------------------------- as computed

  /** The weekday indicator of a year's last day. */
  function LastDay(year: int): int
  {
    Mod(year + Div(year, 4) - Div(year, 100) + Div(year, 400), 7)
  }

  function IsoYearWeeks(year: int): int
  {
    52 + if LastDay(year) == 4 || LastDay(year - 1) == 3 then 1 else 0
  }

  function IsoWeekNum(yday: int, wday: int): int
  {
    Div(yday + 11 - (if wday == 0 then 7 else wday), 7)
  }

  function IsoWeekYear(year: int, yday: int, wday: int): int
  {
    var w := IsoWeekNum(yday, wday);
    if w < 1 then year - 1 else if w > IsoYearWeeks(year) then year + 1 else year
  }

  function IsoWeekOfYear(year: int, yday: int, wday: int): int
  {
    var w := IsoWeekNum(yday, wday);
    if w < 1 then IsoYearWeeks(year - 1) else if w > IsoYearWeeks(year) then 1 else w
  }

  // ---------------------------------------------------------------- the calendar

  predicate IsLeap(year: int)
  {
    year % 4 == 0 && (year % 100 != 0 || year % 400 == 0)
  }

  function YearLength(year: int): int { if IsLeap(year) then 366 else 365 }

  /** Days from January 1 of year 1, a Monday, to January 1 of the given year. */
  function YearStart(year: int): int
  {
    365 * (year - 1) + (year - 1) / 4 - (year - 1) / 100 + (year - 1) / 400
  }

  /** The weekday of a day number, Sunday being 0. */
  function Weekday(day: int): int { (day + 1) % 7 }

  /** Day number of the Thursday of the Monday-start week of a day. */
  function Thursday(day: int): int { day - day % 7 + 3 }

  /** 1 if k divides the year. */
  function Divides(k: int, year: int): int
    requires k > 0
  {
    if year % k == 0 then 1 else 0
  }

  lemma NextYearStart(year: int)
    ensures YearStart(year + 1) == YearStart(year) + YearLength(year)
  {
    Leaps(year);
    hide Divides, YearLength;
    Multiples(year, 4);
    Multiples(year, 100);
    Multiples(year, 400);
  }

  lemma Leaps(year: int)
    ensures YearLength(year) == 365 + Divides(4, year) - Divides(100, year) + Divides(400, year)
  {
    if year % 400 == 0 {
      MultiplesOf400(year);
    }
    if year % 100 == 0 {
      MultiplesOf100(year);
    }
  }

  lemma MultiplesOf400(year: int)
    requires year % 400 == 0
    ensures year % 100 == 0
  {
    assert year == 100 * (4 * (year / 400));
  }

  lemma MultiplesOf100(year: int)
    requires year % 100 == 0
    ensures year % 4 == 0
  {
    assert year == 4 * (25 * (year / 100));
  }

  lemma Multiples(year: int, k: int)
    requires k == 4 || k == 100 || k == 400
    ensures year / k == (year - 1) / k + Divides(k, year)
  {
  }

  lemma LengthOf(year: int)
    ensures YearLength(year) == 365 || YearLength(year) == 366
  {
  }

  lemma WholeWeeks(k: int, p: int)
    ensures (7 * k + p) % 7 == p % 7
  {
  }

  /** The weekday indicator of the algorithm is the weekday, Monday 0, of the next January 1. */
  lemma YearEnd(year: int)
    requires year >= 0
    ensures LastDay(year) == YearStart(year + 1) % 7
  {
    var a, b, c := year / 4, year / 100, year / 400;
    assert 0 <= b <= year && a >= 0 && c >= 0;
    var p := year + a - b + c;
    assert Mod(p, 7) == p % 7;
    WholeWeeks(52 * year, p);
    assert YearStart(year + 1) == 7 * (52 * year) + p;
  }

  /** Before year 0 the remainders are not positive, and neither 3 nor 4 comes out. */
  lemma BeforeZero(year: int)
    requires year < 0
    ensures LastDay(year) <= 0
  {
    var n := -year;
    var p := n + n / 4 - n / 100 + n / 400;
    assert year + Div(year, 4) - Div(year, 100) + Div(year, 400) == -p;
    assert Div(-p, 7) == -(p / 7) && p >= 0;
  }

  /** A year has 53 weeks exactly when it starts or ends on a Thursday, and is not negative. */
  lemma LongYear(year: int)
    ensures IsoYearWeeks(year) ==
      if year >= 0 && (YearStart(year) % 7 == 3 || YearStart(year + 1) % 7 == 4) then 53 else 52
  {
    hide LastDay, YearStart;
    if year >= 0 {
      YearEnd(year);
    } else {
      BeforeZero(year);
    }
    if year > 0 {
      YearEnd(year - 1);
    } else {
      BeforeZero(year - 1);
      YearZero();
    }
  }

  lemma YearZero()
    ensures YearStart(0) % 7 == 5
  {
    assert YearStart(0) == -366;
    assert -366 % 7 == 5;
  }

  /** Counting the Thursdays of a year of the given length: t is the offset of some Thursday from
      its January 1, which is day number start. */
  lemma Thursdays(start: int, length: int, weeks: int, t: int)
    requires length == 365 || length == 366
    requires (start + t) % 7 == 3
    requires weeks == if start % 7 == 3 || (start + length) % 7 == 4 then 53 else 52
    ensures 1 + t / 7 > weeks <==> t >= length
    ensures length - 7 <= t < length ==> 1 + t / 7 == weeks
  {
    var a, r, k, c := start / 7, start % 7, t / 7, t % 7;
    assert start == 7 * a + r && t == 7 * k + c;
    assert (r + c) % 7 == 3 by { assert start + t == 7 * (a + k) + (r + c); }
    assert (start + length) % 7 == (r + length - 364) % 7 by {
      assert start + length == 7 * (a + 52) + (r + length - 364);
    }
  }

  lemma ThursdayOffset(start: int, yday: int, wday: int)
    requires 0 <= yday && 0 <= wday <= 6 && wday == (start + yday + 1) % 7
    ensures var t := Thursday(start + yday) - start;
      && (start + t) % 7 == 3 && yday - 3 <= t <= yday + 3
      && IsoWeekNum(yday, wday) == 1 + t / 7
      && (if wday == 0 then 6 else wday - 1) == (start + yday) % 7
  {
    var m := (start + yday) % 7;
    assert (if wday == 0 then 7 else wday) == m + 1;
  }

  /** The calendar year that the Thursday of a day's week falls in. */
  function ThursdayYear(year: int, yday: int): int
  {
    var t := Thursday(YearStart(year) + yday) - YearStart(year);
    if t < 0 then year - 1 else if t < YearLength(year) then year else year + 1
  }

  /** The number of that Thursday in its year. */
  function ThursdayWeek(year: int, yday: int): int
  {
    1 + (Thursday(YearStart(year) + yday) - YearStart(ThursdayYear(year, yday))) / 7
  }

  /** 53 if the year starts or ends on a Thursday. */
  function TrueWeeks(year: int): int
  {
    if YearStart(year) % 7 == 3 || YearStart(year + 1) % 7 == 4 then 53 else 52
  }

  /** The choice of the year, on plain numbers: a Thursday before the year, in it, or after it. weeks
      and prevWeeks are true, code and prevCode what the code takes for them. */
  lemma ChooseYear(start: int, length: int, weeks: int, code: int,
                   prevStart: int, prevLength: int, prevWeeks: int, t: int)
    requires start == prevStart + prevLength && -3 <= t <= length + 2 && (start + t) % 7 == 3
    requires length == 365 || length == 366
    requires prevLength == 365 || prevLength == 366
    requires weeks == if start % 7 == 3 || (start + length) % 7 == 4 then 53 else 52
    requires prevWeeks == if prevStart % 7 == 3 || start % 7 == 4 then 53 else 52
    requires code == weeks || code == 52
    ensures t < 0 <==> 1 + t / 7 < 1
    ensures t < 0 ==> 1 + (t + prevLength) / 7 == prevWeeks && 0 <= t + prevLength < prevLength
    ensures t >= length ==> 1 + t / 7 > code && (t - length) / 7 == 0
    ensures 0 <= t < length ==> 1 + t / 7 <= weeks && (1 + t / 7 > code <==> 1 + t / 7 == 53 && code == 52)
  {
    if t < 0 {
      Thursdays(prevStart, prevLength, prevWeeks, t + prevLength);
    } else {
      Thursdays(start, length, weeks, t);
    }
  }

  /** Main result. For every integer year and day, the calendar year and number of the week's
      Thursday are what the code computes, exactly unless they are week 53 of a negative year. */
  lemma FirstThursdayRule(year: int, yday: int)
    requires 0 <= yday < YearLength(year)
    ensures var wday := Weekday(YearStart(year) + yday);
      var y, w := ThursdayYear(year, yday), ThursdayWeek(year, yday);
      && 0 <= Thursday(YearStart(year) + yday) - YearStart(y) < YearLength(y)
      && (IsoWeekYear(year, yday, wday) == y && IsoWeekOfYear(year, yday, wday) == w <==> !(y < 0 && w == 53))
  {
    hide YearStart, YearLength, IsoYearWeeks, IsoWeekNum;
    var start, length := YearStart(year), YearLength(year);
    var wday := Weekday(start + yday);
    var t := Thursday(start + yday) - start;
    LengthOf(year - 1);
    LengthOf(year);
    LengthOf(year + 1);
    NextYearStart(year);
    NextYearStart(year - 1);
    LongYear(year);
    LongYear(year - 1);
    ThursdayOffset(start, yday, wday);
    ChooseYear(start, length, TrueWeeks(year), IsoYearWeeks(year),
               YearStart(year - 1), YearLength(year - 1), TrueWeeks(year - 1), t);
  }

  /** What the code says instead: the week before, or the first week of the next year. */
  lemma WrongWeek(year: int, yday: int)
    requires 0 <= yday < YearLength(year)
    requires ThursdayYear(year, yday) < 0 && ThursdayWeek(year, yday) == 53
    ensures var wday, y := Weekday(YearStart(year) + yday), ThursdayYear(year, yday);
      var code := (IsoWeekYear(year, yday, wday), IsoWeekOfYear(year, yday, wday));
      if y < year then code == (y, 52) else code == (y + 1, 1)
  {
    hide YearStart, YearLength, IsoYearWeeks, IsoWeekNum;
    var start := YearStart(year);
    FirstThursdayRule(year, yday);
    LongYear(year);
    LongYear(year - 1);
    LengthOf(year);
    NextYearStart(year);
    ThursdayOffset(start, yday, Weekday(start + yday));
  }

  /** The Monday that starts week 1 of a year. */
  function FirstMonday(year: int): int { YearStart(year) + 3 - (YearStart(year) + 3) % 7 }

  /** The day that an ISO date names. */
  function DayOf(year: int, week: int, wday: int): int
  {
    FirstMonday(year) + 7 * (week - 1) + if wday == 0 then 6 else wday - 1
  }

  /** Main result. The ISO date names the day it was computed from, with the same exception. */
  lemma IsoDateRoundTrip(year: int, yday: int)
    requires 0 <= yday < YearLength(year)
    ensures var wday := Weekday(YearStart(year) + yday);
      (DayOf(IsoWeekYear(year, yday, wday), IsoWeekOfYear(year, yday, wday), wday) == YearStart(year) + yday
      <==> !(ThursdayYear(year, yday) < 0 && ThursdayWeek(year, yday) == 53))
  {
    hide YearStart, YearLength, IsoYearWeeks, IsoWeekNum, IsoWeekYear, IsoWeekOfYear, ThursdayYear;
    var wday := Weekday(YearStart(year) + yday);
    FirstThursdayRule(year, yday);
    ThursdayOffset(YearStart(year), yday, wday);
    var y := ThursdayYear(year, yday);
    var day := YearStart(year) + yday;
    WeekGrid(YearStart(y), day, Thursday(day) - YearStart(y));
    if y < 0 && ThursdayWeek(year, yday) == 53 {
      WrongWeek(year, yday);
      NextYearStart(y);
      LengthOf(y);
      NextWeek(YearStart(y), YearLength(y), day);
    }
  }

  lemma WeekGrid(start: int, day: int, t: int)
    requires t == Thursday(day) - start && t >= 0
    ensures day == start + 3 - (start + 3) % 7 + 7 * (t / 7) + day % 7
  {
    var b, m := day / 7, day % 7;
    assert start + t == 7 * b + 3;
    var k, c := t / 7, t % 7;
    assert start + 3 == 7 * (b - k) + (6 - c);
    assert (start + 3) % 7 == 6 - c;
  }

  /** After week 53 of a year, week 1 of the next one begins. */
  lemma NextWeek(start: int, length: int, day: int)
    requires length == 365 || length == 366
    requires 364 <= Thursday(day) - start < length
    ensures day + 7 == start + length + 3 - (start + length + 3) % 7 + day % 7
  {
    assert Thursday(day + 7) == Thursday(day) + 7;
    WeekGrid(start + length, day + 7, Thursday(day + 7) - (start + length));
  }

  /** In year -2, day 361 is the Monday of week 53; the code takes it for week 1 of year -1. */
  lemma NegativeYear()
    ensures Weekday(YearStart(-2) + 361) == 1
    ensures ThursdayYear(-2, 361) == -2 && ThursdayWeek(-2, 361) == 53
    ensures IsoWeekYear(-2, 361, 1) == -1 && IsoWeekOfYear(-2, 361, 1) == 1
  {
    assert YearStart(-2) == -1096 && YearLength(-2) == 365;
    assert -735 % 7 == 0;
    LongYear(-2);
  }
}
