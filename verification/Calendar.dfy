/** The proleptic Gregorian calendar and ISO weeks, independently of how the writer computes them. */
module Calendar {
  import opened Arith

  predicate IsLeap(y: int) {
    y % 4 == 0 && (y % 100 != 0 || y % 400 == 0)
  }

  function DaysInYear(y: int): nat {
    if IsLeap(y) then 366 else 365
  }

  /** The number of leap years up to and including y, counted from year 1 (negative before). */
  function LeapsThrough(y: int): int {
    y / 4 - y / 100 + y / 400
  }

  /** The number of days from 1 January of year 1 to 1 January of year y. */
  function YearStart(y: int): int {
    365 * (y - 1) + LeapsThrough(y - 1)
  }

  lemma DivStep(y: int, k: int)
    requires k > 0
    ensures y / k == (y - 1) / k + if y % k == 0 then 1 else 0
  {
    var q, r := y / k, y % k;
    if r == 0 {
      DivUnique(y - 1, k, q - 1, k - 1);
    } else {
      DivUnique(y - 1, k, q, r - 1);
    }
  }

  /** Consecutive years are a year's length apart, which characterises `YearStart`. */
  lemma YearsFollow(y: int)
    ensures YearStart(1) == 0
    ensures YearStart(y + 1) == YearStart(y) + DaysInYear(y)
  {
    DivStep(y, 4);
    DivStep(y, 100);
    DivStep(y, 400);
    LeapByMultiples(y);
  }

  lemma LeapByMultiples(y: int)
    ensures y % 400 == 0 ==> y % 100 == 0
    ensures y % 100 == 0 ==> y % 4 == 0
  {
  }

  /** The weekday of a day, 0 for Sunday; 1 January of year 1 is a Monday. */
  function Weekday(day: int): nat {
    (day + 1) % 7
  }

  /** The day the calendar numbers `yday` (from 0) in year y. */
  function DayNumber(y: int, yday: int): int {
    YearStart(y) + yday
  }

  /** The Thursday of the week, Monday to Sunday, that contains the day. */
  function ThursdayOf(day: int): int {
    day - day % 7 + 3
  }

  /** Day d lies in year y. */
  predicate InYear(d: int, y: int) {
    YearStart(y) <= d < YearStart(y + 1)
  }

  /** Which Thursday of year y day t is, counted from 1. */
  function ThursdayOrdinal(t: int, y: int): int {
    (t - YearStart(y)) / 7 + 1
  }

  /** The day belongs to week w of ISO year y, section 4.1.4 of ISO 8601:2004: by its week's Thursday. */
  predicate IsoWeekIs(day: int, y: int, w: int) {
    InYear(ThursdayOf(day), y) && w == ThursdayOrdinal(ThursdayOf(day), y)
  }

  lemma {:induction false} YearsGrow(y: int, z: int)
    requires y <= z
    ensures YearStart(y) + 365 * (z - y) <= YearStart(z)
    decreases z - y
  {
    if y < z {
      YearsGrow(y, z - 1);
      YearsFollow(z - 1);
    }
  }

  /** A day has one ISO year and one ISO week. */
  lemma IsoWeekIsUnique(day: int, y: int, w: int, y': int, w': int)
    requires IsoWeekIs(day, y, w) && IsoWeekIs(day, y', w')
    ensures y == y' && w == w'
  {
    if y < y' {
      YearsGrow(y + 1, y');
    } else if y' < y {
      YearsGrow(y' + 1, y);
    }
  }

  /** Years with 53 ISO weeks: those that begin or end on a Thursday. */
  predicate IsLong(y: int) {
    Weekday(YearStart(y)) == 4 || Weekday(YearStart(y + 1) - 1) == 4
  }

  /** Thursdays in a stretch of a year's length that starts on day a. */
  lemma ThursdaysIn(a: int, n: int, t: int)
    requires n == 365 || n == 366
    requires a <= t < a + n && t % 7 == 3
    ensures var k := (t - a) / 7 + 1;
            && 1 <= k <= 53
            && (k == 53 ==> Weekday(a) == 4 || Weekday(a + n - 1) == 4)
            && (t + 7 >= a + n ==> k == if Weekday(a) == 4 || Weekday(a + n - 1) == 4 then 53 else 52)
  {
  }

  /**
   * A year has 53 Thursdays exactly when it begins or ends on one, and 52
   * otherwise: the bound holds for all of them and is met by the last.
   */
  lemma WeeksInYear(y: int, t: int)
    requires InYear(t, y) && t % 7 == 3
    ensures 1 <= ThursdayOrdinal(t, y) <= if IsLong(y) then 53 else 52
    ensures t + 7 >= YearStart(y + 1) ==> ThursdayOrdinal(t, y) == if IsLong(y) then 53 else 52
  {
    YearsFollow(y);
    var n: int := DaysInYear(y);
    assert n == 365 || n == 366;
    hide YearStart, DaysInYear, Weekday;
    ThursdaysIn(YearStart(y), n, t);
  }

  /** Known dates: leap years, and 1 January of 1900, 2000 and 2024 on Monday, Saturday and Monday. */
  lemma KnownDates()
    ensures IsLeap(2000) && IsLeap(2024) && !IsLeap(1900) && !IsLeap(2023)
    ensures Weekday(YearStart(1900)) == 1 && Weekday(YearStart(2000)) == 6 && Weekday(YearStart(2024)) == 1
    ensures IsoWeekIs(YearStart(2021), 2020, 53) && IsoWeekIs(YearStart(2024), 2024, 1) && IsoWeekIs(YearStart(2025) - 2, 2025, 1)
    ensures IsLong(2020) && !IsLong(2024)
  {
  }

  /** The days 0 to yday of a year that start on day `first` and fall on a weekday. */
  function CountWeekday(first: int, yday: int, wday: nat): nat
    decreases yday + 1
  {
    if yday < 0 then 0
    else CountWeekday(first, yday - 1, wday) + if Weekday(first + yday) == wday then 1 else 0
  }
}

/** The week computations of the `tm` writer. */
module Weeks {
  import opened Arith
  import opened Calendar

  const DAYS_PER_WEEK := 7

  /** `curr_p` and `prev_p`: the weekday on which a year ends. */
  function LastWeekday(year: int): int {
    TruncMod(year + TruncDiv(year, 4) - TruncDiv(year, 100) + TruncDiv(year, 400), DAYS_PER_WEEK)
  }

  /** `iso_year_weeks` */
  function IsoYearWeeks(year: int): int {
    52 + if LastWeekday(year) == 4 || LastWeekday(year - 1) == 3 then 1 else 0
  }

  /** `iso_week_num` */
  function IsoWeekNum(yday: int, wday: int): int {
    TruncDiv(yday + 11 - (if wday == 0 then DAYS_PER_WEEK else wday), DAYS_PER_WEEK)
  }

  /** `tm_iso_week_year` */
  function IsoWeekYear(year: int, yday: int, wday: int): int {
    var w := IsoWeekNum(yday, wday);
    if w < 1 then year - 1
    else if w > IsoYearWeeks(year) then year + 1
    else year
  }

  /** `tm_iso_week_of_year` */
  function IsoWeekOfYear(year: int, yday: int, wday: int): int {
    var w := IsoWeekNum(yday, wday);
    if w < 1 then IsoYearWeeks(year - 1)
    else if w > IsoYearWeeks(year) then 1
    else w
  }

  /** The value of `on_dec0_week_of_year` (Sunday first) and `on_dec1_week_of_year` (Monday first). */
  function SundayWeek(yday: int, wday: int): int {
    TruncDiv(yday + DAYS_PER_WEEK - wday, DAYS_PER_WEEK)
  }

  function MondayWeek(yday: int, wday: int): int {
    TruncDiv(yday + DAYS_PER_WEEK - (if wday == 0 then DAYS_PER_WEEK - 1 else wday - 1), DAYS_PER_WEEK)
  }

  /** From year 1 on the count of weeks is right; up to year 0 truncation makes it 52 for every year. */
  lemma IsoYearWeeksExactly(y: int)
    ensures y >= 1 ==> IsoYearWeeks(y) == if IsLong(y) then 53 else 52
    ensures y <= 0 ==> IsoYearWeeks(y) == 52
  {
    LastWeekdayExactly(y);
    LastWeekdayExactly(y - 1);
    WeekdayByMod(YearStart(y));
    WeekdayByMod(YearStart(y + 1) - 1);
    hide LastWeekday, YearStart;
  }

  /** Truncating division agrees with the calendar from year 0 on; before it the remainder is never positive. */
  lemma LastWeekdayExactly(y: int)
    ensures y >= 0 ==> LastWeekday(y) == YearStart(y + 1) % 7
    ensures y <= 0 ==> LastWeekday(y) <= 0
  {
    if y >= 0 {
      NonNegative(y);
      ModSeven(y, LeapsThrough(y));
    }
    if y <= 0 {
      NonPositive(y);
    }
  }

  lemma ModSeven(y: int, x: int)
    ensures (365 * y + x) % 7 == (y + x) % 7
  {
    DivUnique(365 * y + x, 7, 52 * y + (y + x) / 7, (y + x) % 7);
  }

  lemma WeekdayByMod(day: int)
    ensures Weekday(day) == 4 <==> day % 7 == 3
    ensures Weekday(day) == 4 <==> (day + 1) % 7 == 4
    ensures (if Weekday(day) == 0 then 7 else Weekday(day)) == day % 7 + 1
  {
  }

  lemma NonNegative(y: int)
    requires y >= 0
    ensures y + TruncDiv(y, 4) - TruncDiv(y, 100) + TruncDiv(y, 400) == y + LeapsThrough(y) >= 0
  {
  }

  lemma NonPositive(y: int)
    requires y <= 0
    ensures y + TruncDiv(y, 4) - TruncDiv(y, 100) + TruncDiv(y, 400) <= 0
  {
  }

  /** Year 0 has 52 weeks, so the first days of year 1 are treated rightly as well. */
  lemma YearZeroIsShort()
    ensures !IsLong(0)
  {
  }

  /** The date fields agree with the calendar. */
  predicate Consistent(year: int, yday: int, wday: int) {
    0 <= yday < DaysInYear(year) && wday == Weekday(DayNumber(year, yday))
  }

  /** The preliminary week number counts the Thursdays from the start of the year, also past its ends. */
  lemma WeekNumIsOrdinal(year: int, yday: int, wday: int)
    requires Consistent(year, yday, wday)
    ensures var t := ThursdayOf(DayNumber(year, yday));
            IsoWeekNum(yday, wday) == ThursdayOrdinal(t, year)
  {
    var d := DayNumber(year, yday);
    WeekdayByMod(d);
    var k := yday - d % 7 + 3;
    DivUnique(k + 7, 7, k / 7 + 1, k % 7);
    hide YearStart;
  }

  /** A Thursday after the year's end whose week began within the year: the year is short and the week is number 1. */
  lemma NextYearsThursday(year: int, yday: int)
    requires 0 <= yday < DaysInYear(year)
    requires ThursdayOf(DayNumber(year, yday)) >= YearStart(year + 1)
    ensures var t := ThursdayOf(DayNumber(year, yday));
            ThursdayOrdinal(t, year) == 53 && ThursdayOrdinal(t, year + 1) == 1 && !IsLong(year)
  {
    YearsFollow(year);
    var n: int := DaysInYear(year);
    assert n == 365 || n == 366;
    hide YearStart, DaysInYear;
    AcrossTheEnd(YearStart(year), n, yday);
  }

  lemma AcrossTheEnd(a: int, n: int, yday: int)
    requires (n == 365 || n == 366) && 0 <= yday < n && ThursdayOf(a + yday) >= a + n
    ensures var t := ThursdayOf(a + yday);
            && (t - a) / 7 + 1 == 53 && (t - (a + n)) / 7 + 1 == 1
            && Weekday(a) != 4 && Weekday(a + n - 1) != 4
  {
  }

  lemma DayInLastYear(year: int, yday: int)
    requires 0 <= yday && ThursdayOf(DayNumber(year, yday)) < YearStart(year)
    ensures ThursdayOf(DayNumber(year, yday)) + 7 >= YearStart(year)
    ensures ThursdayOrdinal(ThursdayOf(DayNumber(year, yday)), year) < 1
  {
    hide YearStart;
  }

  /** The printed ISO year and week are the day's, except in the 53rd week of a year up to 0. */
  lemma IsoWeekByResult(year: int, yday: int, wday: int, isoYear: int, isoWeek: int)
    requires Consistent(year, yday, wday)
    requires IsoWeekIs(DayNumber(year, yday), isoYear, isoWeek)
    ensures (IsoWeekYear(year, yday, wday) == isoYear && IsoWeekOfYear(year, yday, wday) == isoWeek)
       <==> (isoYear >= 1 || isoWeek <= 52)
    ensures year >= 1 ==> isoYear >= 1 || isoWeek <= 52
    ensures 1 <= IsoWeekOfYear(year, yday, wday) <= 53
  {
    hide IsoYearWeeks, IsoWeekNum, YearStart, IsLong, ThursdayOrdinal, ThursdayOf, DaysInYear, Weekday;
    var t := ThursdayOf(DayNumber(year, yday));
    WeekNumIsOrdinal(year, yday, wday);
    IsoYearWeeksExactly(year);
    IsoYearWeeksExactly(year - 1);
    YearZeroIsShort();
    ThursdayYear(year, yday, isoYear);
    IsThursday(DayNumber(year, yday));
    WeeksInYear(isoYear, t);
    if t < YearStart(year) {
      DayInLastYear(year, yday);
    } else if t >= YearStart(year + 1) {
      NextYearsThursday(year, yday);
    }
  }

  /** The day's fields put it into the last week of a year with 53 weeks. */
  predicate InWeek53(year: int, yday: int, wday: int) {
    var w := IsoWeekNum(yday, wday);
    (w < 1 && IsLong(year - 1)) || (w == 53 && IsLong(year))
  }

  /** The ISO year of a day, among the year itself and its neighbours. */
  function IsoYearOf(year: int, yday: int): int {
    var t := ThursdayOf(DayNumber(year, yday));
    if t < YearStart(year) then year - 1 else if t >= YearStart(year + 1) then year + 1 else year
  }

  lemma IsoYearIs(year: int, yday: int)
    requires 0 <= yday < DaysInYear(year)
    ensures InYear(ThursdayOf(DayNumber(year, yday)), IsoYearOf(year, yday))
  {
    YearsFollow(year - 1);
    YearsFollow(year);
    YearsFollow(year + 1);
  }

  /** Whether a day is in week 53, by its fields and by its week's Thursday. */
  lemma Week53ByFields(year: int, yday: int, wday: int)
    requires Consistent(year, yday, wday)
    ensures var y := IsoYearOf(year, yday);
            InWeek53(year, yday, wday) <==> ThursdayOrdinal(ThursdayOf(DayNumber(year, yday)), y) == 53
    ensures InWeek53(year, yday, wday) ==> IsoYearOf(year, yday) <= year
    ensures IsoYearOf(year, yday) < year ==> IsoWeekNum(yday, wday) < 1
  {
    var t, y := ThursdayOf(DayNumber(year, yday)), IsoYearOf(year, yday);
    IsoYearIs(year, yday);
    IsThursday(DayNumber(year, yday));
    WeeksInYear(y, t);
    WeekNumIsOrdinal(year, yday, wday);
    if t < YearStart(year) {
      DayInLastYear(year, yday);
    } else if t >= YearStart(year + 1) {
      NextYearsThursday(year, yday);
    }
    hide YearStart, IsLong, ThursdayOf, DaysInYear, Weekday, ThursdayOrdinal;
  }

  /**
   * For every consistent date, of any year, the printed ISO year and week are
   * those of the week's Thursday if and only if the date is not in week 53 of a
   * year up to 0, told from the date's own fields.
   */
  lemma IsoWeekIsCorrect(year: int, yday: int, wday: int)
    requires Consistent(year, yday, wday)
    ensures IsoWeekIs(DayNumber(year, yday), IsoWeekYear(year, yday, wday), IsoWeekOfYear(year, yday, wday))
       <==> !(year <= 0 && InWeek53(year, yday, wday))
    ensures 1 <= IsoWeekOfYear(year, yday, wday) <= 53
  {
    var day, y := DayNumber(year, yday), IsoYearOf(year, yday);
    var w := ThursdayOrdinal(ThursdayOf(day), y);
    IsoYearIs(year, yday);
    IsThursday(day);
    WeeksInYear(y, ThursdayOf(day));
    YearZeroIsShort();
    hide YearStart, IsLong, ThursdayOrdinal, ThursdayOf, DaysInYear, Weekday, IsoYearWeeks, IsoWeekNum, DayNumber;
    Week53ByFields(year, yday, wday);
    IsoWeekByResult(year, yday, wday, y, w);
    if IsoWeekIs(day, IsoWeekYear(year, yday, wday), IsoWeekOfYear(year, yday, wday)) {
      IsoWeekIsUnique(day, y, w, IsoWeekYear(year, yday, wday), IsoWeekOfYear(year, yday, wday));
    }
  }

  lemma IsThursday(day: int)
    ensures ThursdayOf(day) % 7 == 3
  {
  }

  /** A week's Thursday is at most three days from the day, so in the same year or a neighbouring one. */
  lemma ThursdayYear(year: int, yday: int, isoYear: int)
    requires 0 <= yday < DaysInYear(year)
    requires InYear(ThursdayOf(DayNumber(year, yday)), isoYear)
    ensures year - 1 <= isoYear <= year + 1
    ensures isoYear < year <==> ThursdayOf(DayNumber(year, yday)) < YearStart(year)
    ensures isoYear > year <==> ThursdayOf(DayNumber(year, yday)) >= YearStart(year + 1)
  {
    YearsFollow(year);
    YearsFollow(year - 1);
    YearsFollow(year + 1);
    hide YearStart, IsLeap;
    if isoYear < year - 1 {
      YearsGrow(isoYear + 1, year - 1);
    } else if isoYear > year + 1 {
      YearsGrow(year + 2, isoYear);
    }
  }

  /** In years from 1 on every date prints its ISO year and week, and week 53 only in years that have one. */
  lemma IsoWeekOfDates(year: int, yday: int, wday: int)
    requires Consistent(year, yday, wday) && year >= 1
    ensures var y, w := IsoWeekYear(year, yday, wday), IsoWeekOfYear(year, yday, wday);
            IsoWeekIs(DayNumber(year, yday), y, w) && (w == 53 ==> IsLong(y))
  {
    var t, y := ThursdayOf(DayNumber(year, yday)), IsoYearOf(year, yday);
    IsoYearIs(year, yday);
    hide YearStart, IsLong, DaysInYear, IsoYearOf;
    IsoWeekByResult(year, yday, wday, y, ThursdayOrdinal(t, y));
    IsThursday(DayNumber(year, yday));
    WeeksInYear(y, t);
  }

  /** The last day of year -2, which has 53 weeks, prints as week 1 of year -1. */
  lemma EarlyLongYearFails()
    ensures Consistent(-2, 364, 4) && IsoWeekIs(DayNumber(-2, 364), -2, 53)
    ensures IsoWeekYear(-2, 364, 4) == -1 && IsoWeekOfYear(-2, 364, 4) == 1
  {
  }

  /** Days since the last occurrence of weekday w, and the next day's count of them. */
  lemma DaysSince(day: int, w: nat, yday: int)
    requires w < 7
    ensures var m, n := (Weekday(day) + 7 - w) % 7, (Weekday(day + 1) + 7 - w) % 7;
            && (if m == 6 then n == 0 else n == m + 1)
            && (n == 0 <==> Weekday(day + 1) == w)
            && (yday + 7 - n) / 7 == (yday + 6 - m) / 7 + if n == 0 then 1 else 0
  {
  }

  lemma {:induction false} WeekdaysCounted(first: int, yday: int, w: nat)
    requires yday >= -1 && w < 7
    ensures CountWeekday(first, yday, w) == (yday + 7 - (Weekday(first + yday) + 7 - w) % 7) / 7
    decreases yday + 1
  {
    if yday < 0 {
      var m := (Weekday(first + yday) + 7 - w) % 7;
      DivUnique(yday + 7 - m, 7, 0, 6 - m);
    } else {
      WeekdaysCounted(first, yday - 1, w);
      DaysSince(first + yday - 1, w, yday);
      hide Weekday;
    }
  }

  /** `%U` and `%W` print how many Sundays or Mondays the year has had up to and including the day. */
  lemma WeekOfYearCounts(year: int, yday: int, wday: int)
    requires Consistent(year, yday, wday)
    ensures SundayWeek(yday, wday) == CountWeekday(YearStart(year), yday, 0)
    ensures MondayWeek(yday, wday) == CountWeekday(YearStart(year), yday, 1)
  {
    WeekdaysCounted(YearStart(year), yday, 0);
    WeekdaysCounted(YearStart(year), yday, 1);
    SinceSunday(YearStart(year) + yday);
    hide YearStart, CountWeekday, Weekday;
  }

  lemma SinceSunday(day: int)
    ensures (Weekday(day) + 7 - 0) % 7 == Weekday(day) < 7
    ensures (Weekday(day) + 7 - 1) % 7 == if Weekday(day) == 0 then 6 else Weekday(day) - 1
  {
  }
}
