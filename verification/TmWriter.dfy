/** The `tm` writer in the classic locale: years, centuries, dates, times and weeks. */
module TmWriter {
  import opened Arith
  import opened Calendar
  import opened Decimal
  import opened Lanes
  import opened SafeCast
  import opened Weeks

  // ---------- year texts ----------

  /** `split_year_lower` */
  function YearLower(year: int): (l: nat)
    ensures l < 100
  {
    var l := TruncMod(year, 100);
    if l < 0 then -l else l
  }

  /** A signed integer in decimal. */
  function SignedText(n: int): string {
    if n < 0 then "-" + Text(-n) else Text(n)
  }

  /** The text of a year by the rule stated for `%Y`: the signed number, zero-padded to four characters in all. */
  function YearText(year: int): string {
    if year < 0 then "-" + Padded(-year, 3) else Padded(year, 4)
  }

  /** What `%C` writes. */
  function CenturyText(year: int): string {
    var upper := TruncDiv(year, 100);
    if -99 <= year < 0 then "-0"
    else if 0 <= upper < 100 then TwoDigits(upper)
    else SignedText(upper)
  }

  /** Reads an optional sign and digits. */
  function ReadYear(t: string): int
    requires t != "" && (AllDigits(t) || (t[0] == '-' && AllDigits(t[1..])))
  {
    if t[0] == '-' then -(Value(t[1..]) as int) else Value(t)
  }

  /** The last two digits of a number of at least three digits. */
  lemma LastTwoDigits(n: nat)
    requires n >= 100
    ensures Text(n) == Text(n / 100) + TwoDigits(n % 100)
  {
    var t, u := n / 10, n % 10;
    assert t / 10 == n / 100 && t % 10 == n % 100 / 10 && u == n % 100 % 10;
    LastDigit(n);
    LastDigit(t);
    hide Text, Digit;
    assert Text(n / 100) + [Digit(t % 10)] + [Digit(u)] == Text(n / 100) + [Digit(t % 10), Digit(u)];
  }

  lemma LastDigit(n: nat)
    requires n >= 10
    ensures Text(n) == Text(n / 10) + [Digit(n % 10)]
  {
  }

  lemma SmallText(n: nat)
    requires n < 100
    ensures Padded(n, 2) == TwoDigits(n)
  {
    if n < 10 {
      assert Text(n) == [Digit(n)];
      assert Zeros(1) == "0";
    } else {
      assert Text(n) == Text(n / 10) + [Digit(n % 10)];
      assert Text(n / 10) == [Digit(n / 10)];
    }
  }

  lemma TextLengths(n: nat)
    ensures |Text(n)| == 1 <==> n < 10
    ensures |Text(n)| <= 2 <==> n < 100
  {
    if n >= 10 {
      assert Text(n) == Text(n / 10) + [Digit(n % 10)];
      if n >= 100 {
        assert Text(n / 10) == Text(n / 10 / 10) + [Digit(n / 10 % 10)];
      }
    }
  }

  /** A padded number is its padded upper part followed by its last two digits. */
  lemma PaddedSplits(n: nat, width: nat)
    requires n < 100 ==> width >= 2
    ensures Padded(n, width) == (if n < 100 then Zeros(width - 2) else Padded(n / 100, if width >= 2 then width - 2 else 0))
                                + TwoDigits(n % 100)
  {
    if n >= 100 {
      LastTwoDigits(n);
      hide Text, TwoDigits, Filled, Zeros;
      FilledAppend(Text(n / 100), TwoDigits(n % 100), width);
    } else {
      hide Text, TwoDigits, Padded;
      SmallFilled(n, width);
    }
  }

  lemma SmallFilled(n: nat, width: nat)
    requires n < 100 && width >= 2
    ensures Padded(n, width) == Zeros(width - 2) + TwoDigits(n)
  {
    TextLengths(n);
    SmallText(n);
    hide Text;
    var t := Text(n);
    assert Zeros(width - |t|) == Zeros(width - 2) + Zeros(2 - |t|);
    assert (Zeros(width - 2) + Zeros(2 - |t|)) + t == Zeros(width - 2) + (Zeros(2 - |t|) + t);
    assert Zeros(0) == "" && "" + t == t;
  }

  /**
   * `%C` followed by `%y` is `%Y`, for every year, also negative ones and those
   * of more than four digits.
   */
  lemma CenturyThenYear(year: int)
    ensures CenturyText(year) + TwoDigits(YearLower(year)) == YearText(year)
  {
    var n := Abs(year);
    PaddedSplits(n, if year < 0 then 3 else 4);
    UpperPart(n);
    YearParts(year);
    hide Text, Padded, Zeros, TwoDigits, YearLower, TruncDiv;
    var c, l := CenturyText(year), TwoDigits(YearLower(year));
    if year < 0 {
      assert "-" + (c[1..] + l) == c + l;
    }
  }

  lemma YearParts(year: int)
    ensures var n: nat := Abs(year);
            YearLower(year) == n % 100 && TruncDiv(year, 100) == if year < 0 then -(n / 100) else n / 100
  {
  }

  /** The upper part of a year as the century prints it. */
  lemma UpperPart(n: nat)
    ensures n < 100 ==> Zeros(1) == "0" && Zeros(2) == TwoDigits(0)
    ensures n >= 100 ==> Padded(n / 100, 1) == Text(n / 100)
    ensures 100 <= n < 10000 ==> Padded(n / 100, 2) == TwoDigits(n / 100)
    ensures n >= 10000 ==> Padded(n / 100, 2) == Text(n / 100)
  {
    if n >= 100 {
      TextLengths(n / 100);
      if n / 100 < 100 {
        SmallText(n / 100);
      }
    }
  }

  /** The text of a year has at least four characters, more only when the number needs them, and reads back. */
  lemma YearReadsBack(year: int)
    ensures var t := YearText(year);
            && |t| >= 4
            && (|t| > 4 ==> t == SignedText(year))
            && (AllDigits(t) || (t[0] == '-' && AllDigits(t[1..])))
            && ReadYear(t) == year
  {
    PaddedReadsBack(Abs(year), if year < 0 then 3 else 4);
    var p := Padded(Abs(year), if year < 0 then 3 else 4);
    if year < 0 {
      assert YearText(year)[1..] == p;
    } else {
      assert IsDigit(p[0]);
    }
  }

  /** The fast path for years of four digits writes the year's text. */
  lemma FourDigitYear(year: int)
    requires 0 <= year < 10000
    ensures 0 <= TruncDiv(year, 100) < 100 && 0 <= TruncMod(year, 100) < 100
    ensures TwoDigits(TruncDiv(year, 100)) + TwoDigits(TruncMod(year, 100)) == YearText(year)
  {
    CenturyThenYear(year);
    hide YearText;
  }

  /** -MM-DD */
  function DateTail(month: nat, day: nat): string
    requires month < 100 && day < 100
  {
    "-" + TwoDigits(month) + "-" + TwoDigits(day)
  }

  lemma TripleOfDate(a: nat, month: nat, day: nat)
    requires a < 100 && month < 100 && day < 100
    ensures Triple(a, month, day, '-') == TwoDigits(a) + DateTail(month, day)
    ensures |TwoDigits(a)| == 2 && |DateTail(month, day)| == 6
  {
  }

  lemma DateBuffer(b: string, head: string, low: string, tail: string)
    requires |b| == 10 && |head| == 2 && |low| == 2 && |tail| == 6
    requires b[..2] == head && b[2..10] == low + tail
    ensures b[0..] == (head + low) + tail && b[4..] == tail
  {
  }

  lemma Regroup(a: string, b: string, c: string)
    ensures (a + b) + c == a + (b + c)
  {
  }

  // ---------- names, 12-hour times and UTC offsets ----------

  /** `tm_wday_full_name` */
  function FullWeekdayName(wday: int): string {
    if wday == 0 then "Sunday" else if wday == 1 then "Monday" else if wday == 2 then "Tuesday"
    else if wday == 3 then "Wednesday" else if wday == 4 then "Thursday" else if wday == 5 then "Friday"
    else if wday == 6 then "Saturday" else "?"
  }

  /** `tm_wday_short_name` */
  function ShortWeekdayName(wday: int): string {
    if wday == 0 then "Sun" else if wday == 1 then "Mon" else if wday == 2 then "Tue" else if wday == 3 then "Wed"
    else if wday == 4 then "Thu" else if wday == 5 then "Fri" else if wday == 6 then "Sat" else "???"
  }

  /** `tm_mon_full_name` */
  function FullMonthName(mon: int): string {
    if mon == 0 then "January" else if mon == 1 then "February" else if mon == 2 then "March"
    else if mon == 3 then "April" else if mon == 4 then "May" else if mon == 5 then "June"
    else if mon == 6 then "July" else if mon == 7 then "August" else if mon == 8 then "September"
    else if mon == 9 then "October" else if mon == 10 then "November" else if mon == 11 then "December" else "?"
  }

  /** `tm_mon_short_name` */
  function ShortMonthName(mon: int): string {
    if mon == 0 then "Jan" else if mon == 1 then "Feb" else if mon == 2 then "Mar" else if mon == 3 then "Apr"
    else if mon == 4 then "May" else if mon == 5 then "Jun" else if mon == 6 then "Jul" else if mon == 7 then "Aug"
    else if mon == 8 then "Sep" else if mon == 9 then "Oct" else if mon == 10 then "Nov" else if mon == 11 then "Dec"
    else "???"
  }

  /** The short names are the first three letters of the full ones, and tell the days and months apart. */
  lemma NamesAbbreviate(i: int, j: int)
    ensures 0 <= i <= 6 ==> |FullWeekdayName(i)| >= 3 && ShortWeekdayName(i) == FullWeekdayName(i)[..3]
    ensures 0 <= i <= 11 ==> |FullMonthName(i)| >= 3 && ShortMonthName(i) == FullMonthName(i)[..3]
    ensures 0 <= i < j <= 6 ==> ShortWeekdayName(i) != ShortWeekdayName(j)
    ensures 0 <= i < j <= 11 ==> ShortMonthName(i) != ShortMonthName(j)
  {
    if 0 <= i <= 6 {
      Prefix(FullWeekdayName(i), ShortWeekdayName(i));
    }
    if 0 <= i <= 11 {
      Prefix(FullMonthName(i), ShortMonthName(i));
    }
    if 0 <= i < j <= 6 {
      WeekdaysDiffer(i, j);
    }
    if 0 <= i < j <= 11 {
      MonthsDiffer(i, j);
    }
  }

  lemma Prefix(full: string, short: string)
    requires |short| == 3 <= |full| && full[0] == short[0] && full[1] == short[1] && full[2] == short[2]
    ensures full[..3] == short
  {
  }

  lemma WeekdaysDiffer(i: int, j: int)
    requires 0 <= i < j <= 6
    ensures ShortWeekdayName(i) != ShortWeekdayName(j)
  {
    var s, t := ShortWeekdayName(i), ShortWeekdayName(j);
    assert s[0] != t[0] || s[1] != t[1];
  }

  lemma MonthsDiffer(i: int, j: int)
    requires 0 <= i < j <= 11
    ensures ShortMonthName(i) != ShortMonthName(j)
  {
    var s, t := ShortMonthName(i), ShortMonthName(j);
    assert s[0] != t[0] || s[1] != t[1] || s[2] != t[2];
  }

  /** `tm_hour12` */
  function Hour12Of(hour: int): (z: int)
    requires 0 <= hour <= 23
    ensures 1 <= z <= 12
  {
    var z := if hour < 12 then hour else hour - 12;
    if z == 0 then 12 else z
  }

  /** An hour on the 12-hour dial. */
  function TwelveHour(hour: nat): nat {
    if hour % 12 == 0 then 12 else hour % 12
  }

  lemma DialIsTwelveHour(hour: int)
    requires 0 <= hour <= 23
    ensures Hour12Of(hour) == TwelveHour(hour)
  {
  }

  function AmPmText(hour: int): string {
    if hour < 12 then "AM" else "PM"
  }

  /** The 12-hour clock and the half of the day determine the hour. */
  lemma Hour12ReadsBack(hour: int)
    requires 0 <= hour <= 23
    ensures hour == Hour12Of(hour) % 12 + if AmPmText(hour) == "PM" then 12 else 0
  {
    assert "AM"[0] != "PM"[0];
  }

  /** A day of the month with a blank for a leading zero. */
  function SpacedDay(mday: nat): string
    requires mday < 100
  {
    if mday < 10 then [' ', Digit(mday)] else TwoDigits(mday)
  }

  /** What `write_utc_offset` writes: the sign, then hours and minutes; the hours pass through `int` and `unsigned`. */
  function OffsetText(offset: int): string {
    var minutes := Abs(offset) / 60;
    [if offset < 0 then '-' else '+'] + TwoDigits(UINT32.Cast(minutes / 60) % 100) + TwoDigits(minutes % 60)
  }

  /** An offset of less than 100 hours reads back to the minute, truncated toward zero. */
  lemma OffsetReadsBack(offset: int)
    requires -360_000 < offset < 360_000
    ensures var t := OffsetText(offset);
            && |t| == 5 && AllDigits(t[1..3]) && AllDigits(t[3..5])
            && (if t[0] == '-' then -1 else 1) * (60 * Value(t[1..3]) + Value(t[3..5])) == TruncDiv(offset, 60)
  {
    var minutes: nat := Abs(offset) / 60;
    assert minutes / 60 < 100 && UINT32.Cast(minutes / 60) == minutes / 60;
    var t, h, m := OffsetText(offset), TwoDigits(minutes / 60), TwoDigits(minutes % 60);
    assert t[1..3] == h && t[3..5] == m;
    TwoDigitsReadBack(minutes / 60);
    TwoDigitsReadBack(minutes % 60);
    assert minutes == 60 * (minutes / 60) + minutes % 60;
  }

  lemma TwoDigitsReadBack(n: nat)
    requires n < 100
    ensures AllDigits(TwoDigits(n)) && Value(TwoDigits(n)) == n
  {
    SmallText(n);
    PaddedReadsBack(n, 2);
  }

  /** `%c` in the classic locale. */
  function DateTimeText(tm: Tm): string
    requires tm.Valid()
  {
    ShortWeekdayName(tm.wday) + " " + ShortMonthName(tm.mon) + " " + SpacedDay(tm.mday) + " "
    + Triple(tm.hour, tm.min, tm.sec, ':') + " " + YearText(tm.FullYear())
  }

  // ---------- the writer ----------

  /**
   * The calendar fields; `year` counts from 1900 as `tm_year` does. `gmtoff` and
   * `zone` are the members that carry the UTC offset and the name of the zone.
   */
  datatype Tm = Tm(sec: int, min: int, hour: int, mday: int, mon: int, year: int, wday: int, yday: int,
                   gmtoff: int, zone: string) {

    /** The ranges that the accessors of the time assert. */
    predicate TimeValid() {
      0 <= sec <= 61 && 0 <= min <= 59 && 0 <= hour <= 23
    }

    /** All asserted ranges, and an offset whose negation is a `long`. */
    predicate Valid() {
      && TimeValid()
      && 1 <= mday <= 31 && 0 <= mon <= 11
      && 0 <= wday <= 6 && 0 <= yday <= 365
      && INT64.Min() < gmtoff <= INT64.Max()
    }

    function FullYear(): int {
      1900 + year
    }
  }

  class Writer {
    const tm: Tm
    const bigEndian: bool
    var out: string

    /** A writer that appends to what is already there. */
    constructor (tm: Tm, bigEndian: bool, out: string)
      ensures this.tm == tm && this.bigEndian == bigEndian && this.out == out
    {
      this.tm, this.bigEndian, this.out := tm, bigEndian, out;
    }

    method Write1(value: int)
      requires 0 <= value
      modifies this`out
      ensures out == old(out) + [Digit(value % 10)]
    {
      out := out + ['0' + (value % 10) as char];
    }

    /** The value is converted to `unsigned` first. */
    method Write2(value: int)
      requires INT32.Fits(value)
      modifies this`out
      ensures out == old(out) + TwoDigits(UINT32.Cast(value) % 100)
      ensures 0 <= value < 100 ==> out == old(out) + TwoDigits(value)
    {
      CastWraps(UINT32, value);
      var d := TwoDigits(UINT32.Cast(value) % 100);
      hide IntType.Cast, Digit;
      out := out + [d[0]];
      out := out + [d[1]];
    }

    method WriteYearExtended(year: int)
      modifies this`out
      ensures out == old(out) + YearText(year)
    {
      var width, n := 4, year;
      if n < 0 {
        out := out + "-";
        n := 0 - n;
        width := width - 1;
      }
      var numDigits := |Text(n)|;
      if width > numDigits {
        out := out + Zeros(width - numDigits);
      }
      out := out + Text(n);
    }

    method WriteYear(year: int)
      modifies this`out
      ensures out == old(out) + YearText(year)
    {
      if 0 <= year < 10000 {
        FourDigitYear(year);
        hide YearText, TwoDigits, TruncDiv, TruncMod;
        ghost var before := out;
        Write2(TruncDiv(year, 100));
        Write2(TruncMod(year, 100));
        assert out == before + (TwoDigits(TruncDiv(year, 100)) + TwoDigits(TruncMod(year, 100)));
      } else {
        WriteYearExtended(year);
      }
    }

    /** `%Y` */
    method OnYear()
      modifies this`out
      ensures out == old(out) + YearText(tm.FullYear())
    {
      hide YearText;
      WriteYear(tm.FullYear());
    }

    /** `%y` */
    method OnShortYear()
      modifies this`out
      ensures out == old(out) + TwoDigits(YearLower(tm.FullYear()))
    {
      hide TwoDigits, YearLower, IsoWeekYear;
      Write2(YearLower(tm.FullYear()));
    }

    /** `%C` */
    method OnCentury()
      modifies this`out
      ensures out == old(out) + CenturyText(tm.FullYear())
    {
      var year := tm.FullYear();
      var upper := TruncDiv(year, 100);
      if year >= -99 && year < 0 {
        out := out + "-";
        out := out + "0";
      } else if upper >= 0 && upper < 100 {
        Write2(upper);
      } else {
        out := out + SignedText(upper);
      }
    }

    /** `%m` */
    method OnDecMonth()
      requires tm.Valid()
      modifies this`out
      ensures out == old(out) + TwoDigits(tm.mon + 1)
    {
      hide TwoDigits, YearLower, IsoWeekYear;
      Write2(tm.mon + 1);
    }

    /** `%d` */
    method OnDayOfMonth()
      requires tm.Valid()
      modifies this`out
      ensures out == old(out) + TwoDigits(tm.mday)
    {
      hide TwoDigits, YearLower, IsoWeekYear;
      Write2(tm.mday);
    }

    /** `%H` */
    method On24Hour()
      requires tm.TimeValid()
      modifies this`out
      ensures out == old(out) + TwoDigits(tm.hour)
    {
      hide TwoDigits, YearLower, IsoWeekYear;
      Write2(tm.hour);
    }

    /** `%M` */
    method OnMinute()
      requires tm.TimeValid()
      modifies this`out
      ensures out == old(out) + TwoDigits(tm.min)
    {
      hide TwoDigits, YearLower, IsoWeekYear;
      Write2(tm.min);
    }

    /** `%S` */
    method OnSecond()
      requires tm.TimeValid()
      modifies this`out
      ensures out == old(out) + TwoDigits(tm.sec)
    {
      hide TwoDigits, YearLower, IsoWeekYear;
      Write2(tm.sec);
    }

    method OnText(text: string)
      modifies this`out
      ensures out == old(out) + text
    {
      out := out + text;
    }

    /** `%D`: the eight-character buffer of the bit-lane computation. */
    method OnUsDate()
      requires tm.Valid()
      modifies this`out
      ensures out == old(out) + Triple(tm.mon + 1, tm.mday, YearLower(tm.FullYear()), '/')
    {
      var buf := new char[8];
      WriteDigit2Separated(buf, 0, tm.mon + 1, tm.mday, YearLower(tm.FullYear()), '/', bigEndian);
      assert buf[..] == buf[0..8];
      out := out + buf[..];
    }

    /** `%F` */
    method OnIsoDate()
      requires tm.Valid()
      modifies this`out
      ensures out == old(out) + (YearText(tm.FullYear()) + DateTail(tm.mon + 1, tm.mday))
    {
      var year := tm.FullYear();
      var buf := new char[10];
      var offset := 0;
      hide YearText, Triple, TwoDigits, DateTail;
      ghost var first := "";
      if year >= 0 && year < 10000 {
        FourDigitYear(year);
        TripleOfDate(TruncDiv(year, 100), 0, 0);
        var d := TwoDigits(TruncDiv(year, 100));
        buf[0], buf[1] := d[0], d[1];
        first := d;
        assert buf[..2] == first;
      } else {
        offset := 4;
        WriteYearExtended(year);
        year := 0;
      }
      var low := TruncMod(year, 100);
      TripleOfDate(low, tm.mon + 1, tm.mday);
      ghost var head, day, tail := buf[..2], TwoDigits(low), DateTail(tm.mon + 1, tm.mday);
      WriteDigit2Separated(buf, 2, low, tm.mon + 1, tm.mday, '-', bigEndian);
      hide TruncDiv, TruncMod;
      DateBuffer(buf[..], head, day, tail);
      Regroup(old(out), YearText(tm.FullYear()), tail);
      out := out + buf[offset..];
    }

    /** `%T` */
    method OnIsoTime()
      requires tm.TimeValid()
      modifies this`out
      ensures out == old(out) + Triple(tm.hour, tm.min, tm.sec, ':')
    {
      var buf := new char[8];
      WriteDigit2Separated(buf, 0, tm.hour, tm.min, tm.sec, ':', bigEndian);
      assert buf[..] == buf[0..8];
      out := out + buf[..];
    }

    /** `%R` */
    method On24HourTime()
      requires tm.TimeValid()
      modifies this`out
      ensures out == old(out) + (TwoDigits(tm.hour) + ":" + TwoDigits(tm.min))
    {
      hide TwoDigits;
      ghost var before := out;
      Write2(tm.hour);
      out := out + ":";
      Write2(tm.min);
      assert out == before + (TwoDigits(tm.hour) + ":" + TwoDigits(tm.min));
    }

    /** `%j`: the day's number from 1, padded to three digits. */
    method OnDayOfYear()
      requires tm.Valid()
      modifies this`out
      ensures out == old(out) + Padded(tm.yday + 1, 3)
    {
      var yday := tm.yday + 1;
      DayOfYearText(yday);
      hide TwoDigits, Padded;
      ghost var before := out;
      Write1(yday / 100);
      Write2(yday % 100);
      assert out == before + ([Digit(yday / 100)] + TwoDigits(yday % 100));
    }

    /** `%a` */
    method OnAbbrWeekday()
      requires tm.Valid()
      modifies this`out
      ensures out == old(out) + ShortWeekdayName(tm.wday)
    {
      out := out + ShortWeekdayName(tm.wday);
    }

    /** `%A` */
    method OnFullWeekday()
      requires tm.Valid()
      modifies this`out
      ensures out == old(out) + FullWeekdayName(tm.wday)
    {
      out := out + FullWeekdayName(tm.wday);
    }

    /** `%w`: Sunday is 0. */
    method OnDec0Weekday()
      requires tm.Valid()
      modifies this`out
      ensures out == old(out) + Text(tm.wday)
    {
      Write1(tm.wday);
    }

    /** `%u`: Sunday is 7. */
    method OnDec1Weekday()
      requires tm.Valid()
      modifies this`out
      ensures out == old(out) + Text(if tm.wday == 0 then 7 else tm.wday)
    {
      Write1(if tm.wday == 0 then DAYS_PER_WEEK else tm.wday);
    }

    /** `%b` */
    method OnAbbrMonth()
      requires tm.Valid()
      modifies this`out
      ensures out == old(out) + ShortMonthName(tm.mon)
    {
      out := out + ShortMonthName(tm.mon);
    }

    /** `%B` */
    method OnFullMonth()
      requires tm.Valid()
      modifies this`out
      ensures out == old(out) + FullMonthName(tm.mon)
    {
      out := out + FullMonthName(tm.mon);
    }

    /** `%e` */
    method OnDayOfMonthSpace()
      requires tm.Valid()
      modifies this`out
      ensures out == old(out) + SpacedDay(tm.mday)
    {
      var mday := tm.mday % 100;
      var d := TwoDigits(mday);
      out := out + [if mday < 10 then ' ' else d[0]];
      out := out + [d[1]];
    }

    /** `%c` */
    method OnDateTime()
      requires tm.Valid()
      modifies this`out
      ensures out == old(out) + DateTimeText(tm)
    {
      hide ShortWeekdayName, ShortMonthName, SpacedDay, Triple, YearText;
      ghost var before := out;
      OnAbbrWeekday();
      out := out + " ";
      OnAbbrMonth();
      out := out + " ";
      OnDayOfMonthSpace();
      out := out + " ";
      OnIsoTime();
      out := out + " ";
      OnYear();
      assert out == before + DateTimeText(tm);
    }

    /** `%I` */
    method On12Hour()
      requires tm.TimeValid()
      modifies this`out
      ensures out == old(out) + TwoDigits(Hour12Of(tm.hour))
    {
      hide TwoDigits;
      Write2(Hour12Of(tm.hour));
    }

    /** `%p` */
    method OnAmPm()
      requires tm.TimeValid()
      modifies this`out
      ensures out == old(out) + AmPmText(tm.hour)
    {
      out := out + [if tm.hour < 12 then 'A' else 'P'];
      out := out + ['M'];
    }

    /** `%r` */
    method On12HourTime()
      requires tm.TimeValid()
      modifies this`out
      ensures out == old(out) + (Triple(Hour12Of(tm.hour), tm.min, tm.sec, ':') + " " + AmPmText(tm.hour))
    {
      hide Triple, AmPmText;
      ghost var before := out;
      var buf := new char[8];
      WriteDigit2Separated(buf, 0, Hour12Of(tm.hour), tm.min, tm.sec, ':', bigEndian);
      assert buf[..] == buf[0..8];
      out := out + buf[..];
      out := out + " ";
      OnAmPm();
      assert out == before + (Triple(Hour12Of(tm.hour), tm.min, tm.sec, ':') + " " + AmPmText(tm.hour));
    }

    /** `%z` */
    method OnUtcOffset()
      requires tm.Valid()
      modifies this`out
      ensures out == old(out) + OffsetText(tm.gmtoff)
    {
      hide TwoDigits;
      ghost var before := out;
      var offset := tm.gmtoff;
      if offset < 0 {
        out := out + "-";
        offset := -offset;
      } else {
        out := out + "+";
      }
      offset := offset / 60;
      HoursThroughInt(offset / 60);
      Write2(INT32.Cast(offset / 60));
      Write2(INT32.Cast(offset % 60));
      assert out == before + OffsetText(tm.gmtoff);
    }

    /** `%Z` */
    method OnTzName()
      modifies this`out
      ensures out == old(out) + tm.zone
    {
      out := out + tm.zone;
    }

    /** `%V` */
    method OnIsoWeekOfYear()
      requires tm.Valid()
      modifies this`out
      ensures 1 <= IsoWeekOfYear(tm.FullYear(), tm.yday, tm.wday) <= 53
      ensures out == old(out) + TwoDigits(IsoWeekOfYear(tm.FullYear(), tm.yday, tm.wday))
    {
      IsoWeekInRange(tm.FullYear(), tm.yday, tm.wday);
      hide IsoWeekOfYear, TwoDigits;
      Write2(IsoWeekOfYear(tm.FullYear(), tm.yday, tm.wday));
    }

    /** `%G` */
    method OnIsoWeekBasedYear()
      requires tm.Valid()
      modifies this`out
      ensures out == old(out) + YearText(IsoWeekYear(tm.FullYear(), tm.yday, tm.wday))
    {
      hide IsoWeekYear, YearText;
      WriteYear(IsoWeekYear(tm.FullYear(), tm.yday, tm.wday));
    }

    /** `%g` */
    method OnIsoWeekBasedShortYear()
      requires tm.Valid()
      modifies this`out
      ensures out == old(out) + TwoDigits(YearLower(IsoWeekYear(tm.FullYear(), tm.yday, tm.wday)))
    {
      hide TwoDigits, YearLower, IsoWeekYear;
      Write2(YearLower(IsoWeekYear(tm.FullYear(), tm.yday, tm.wday)));
    }

    /** `%U`: on a consistent date, the number of Sundays so far. */
    method OnDec0WeekOfYear()
      requires tm.Valid()
      modifies this`out
      ensures 0 <= SundayWeek(tm.yday, tm.wday) <= 53
      ensures out == old(out) + TwoDigits(SundayWeek(tm.yday, tm.wday))
      ensures Consistent(tm.FullYear(), tm.yday, tm.wday) ==>
                SundayWeek(tm.yday, tm.wday) == CountWeekday(YearStart(tm.FullYear()), tm.yday, 0)
    {
      WeekNumbers(tm.FullYear(), tm.yday, tm.wday);
      hide YearStart, CountWeekday, SundayWeek, Consistent, TwoDigits;
      Write2(SundayWeek(tm.yday, tm.wday));
    }

    /** `%W`: on a consistent date, the number of Mondays so far. */
    method OnDec1WeekOfYear()
      requires tm.Valid()
      modifies this`out
      ensures 0 <= MondayWeek(tm.yday, tm.wday) <= 53
      ensures out == old(out) + TwoDigits(MondayWeek(tm.yday, tm.wday))
      ensures Consistent(tm.FullYear(), tm.yday, tm.wday) ==>
                MondayWeek(tm.yday, tm.wday) == CountWeekday(YearStart(tm.FullYear()), tm.yday, 1)
    {
      WeekNumbers(tm.FullYear(), tm.yday, tm.wday);
      hide YearStart, CountWeekday, MondayWeek, Consistent, TwoDigits;
      Write2(MondayWeek(tm.yday, tm.wday));
    }
  }

  lemma HoursThroughInt(v: int)
    ensures UINT32.Cast(INT32.Cast(v)) == UINT32.Cast(v)
  {
    CastWraps(INT32, v);
  }

  lemma DayOfYearText(n: nat)
    requires n < 1000
    ensures [Digit(n / 100)] + TwoDigits(n % 100) == Padded(n, 3)
  {
    PaddedSplits(n, 3);
    TextLengths(n / 100);
    if n < 100 {
      assert Zeros(1) == "0";
    }
  }

  /** In the asserted ranges of the fields every week number has two digits. */
  lemma WeekRanges(yday: int, wday: int)
    requires 0 <= yday <= 365 && 0 <= wday <= 6
    ensures 0 <= SundayWeek(yday, wday) <= 53 && 0 <= MondayWeek(yday, wday) <= 53
    ensures 0 <= IsoWeekNum(yday, wday) <= 53
  {
  }

  lemma WeekNumbers(year: int, yday: int, wday: int)
    requires 0 <= yday <= 365 && 0 <= wday <= 6
    ensures 0 <= SundayWeek(yday, wday) <= 53 && 0 <= MondayWeek(yday, wday) <= 53
    ensures Consistent(year, yday, wday) ==>
              && SundayWeek(yday, wday) == CountWeekday(YearStart(year), yday, 0)
              && MondayWeek(yday, wday) == CountWeekday(YearStart(year), yday, 1)
  {
    WeekRanges(yday, wday);
    if Consistent(year, yday, wday) {
      WeekOfYearCounts(year, yday, wday);
    }
  }

  lemma IsoWeekInRange(year: int, yday: int, wday: int)
    requires 0 <= yday <= 365 && 0 <= wday <= 6
    ensures 1 <= IsoWeekOfYear(year, yday, wday) <= 53
  {
  }
}
