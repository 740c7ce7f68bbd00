# Formatting, reference counts and argument storage: a verified model

This project models four parts of the repository and proves what they are for.

1. **Chrono formatting** (`include/fmt/chrono.h`): the overflow-checked duration cast, the duration and `tm`
   writers, the `%` parser that drives them, ISO weeks, year texts, the bit-lane fast path for dates and times,
   and the UTF-16/UTF-32 to UTF-8 encoder.
2. **The format-string compiler** (`include/fmt/compile.h`), compared with the run-time reader of the same strings
   in `include/fmt/core.h` and `include/fmt/format.h`, and the bounded output iterators it is run into.
3. **Reference counting** (`include/object.h`, `include/cpython/object.h`): the counting macros as steps over an
   arbitrary heap, with deallocators that may run any code in between.
4. **The dynamic argument store** (`include/fmt/args.h`).

## How the modules fit together

| file | modules | content |
|---|---|---|
| Wrappers.dfy | Wrappers | the result type shared by all parts |
| Arith.dfy | Arith, Decimal | C++ division, decimal text and how it is read back |
| SafeCast.dfy | SafeCast | integer types and the checked cast |
| Durations.dfy | Ratio, Durations | reduced fractions; clock texts; the duration writer as a class |
| DurationFormat.dfy | DurationFormat | the parser driving the duration writer |
| Calendar.dfy | Calendar, Weeks | the Gregorian calendar and ISO weeks by definition; the writer's formulas |
| Lanes.dfy | Lanes | the 64-bit computation of three two-digit numbers |
| TmWriter.dfy | TmWriter | year and century texts; the `tm` writer as a class |
| ChronoFormat.dfy | ChronoFormat | the `%` parser, its handlers, printing and parsing again, `formatter<std::tm>` |
| TmFormat.dfy | TmFormat | the parser driving the `tm` writer; formats that write the same text |
| Utf.dfy | Utf | the encoder and the definitions of UTF-16, UTF-32 and UTF-8 |
| FormatCompiler.dfy | FormatArgs, FormatCompiler | argument ids; the compiler and its tree |
| RuntimeFormat.dfy | RuntimeFormat | the run-time reader as reference; agreement of the two |
| WrittenFormat.dfy | WrittenFormat | format strings written from lists of characters and fields, and their meaning in both readers |
| BoundedOutput.dfy | BoundedOutput | counting and truncating iterators |
| RefCounts.dfy | RefCounts | states, steps, runs, cascades; the macros as methods |
| ArgStore.dfy | ArgStore | the store, its table of names and its owner list |

C++ `/` and `%` truncate toward zero (`Arith.TruncDiv`, `Arith.TruncMod`). Integer widths are explicit where they
matter (`SafeCast.IntType`, bit-vectors in `Lanes` and `Utf`). A thrown exception is an absent result. Code that
updates state is a class or a method with loops, proved against a function of the inputs or of the old state; what
the source promises is then proved about that function.

## Main results

- A duration of any integral count, formatted with `%T` or `%H:%M:%S`, reads back as exactly the duration modulo one
  day, with its sign and the least number of fractional digits. It fails to compile exactly for the periods whose
  digits cannot be counted in `long long`, and throws exactly when the checked cast fails
  (`DurationFormat.FormatTime`). The checked cast fails exactly when the value is not representable
  (`SafeCast.SafeDurationCast`). A negative duration's sign appears once, before the first call that takes it, and not
  at all if only `%r`, `%p` and the alternative numeric system are used (`DurationFormat.SignOnce`).
- ISO weeks are those of section 4.1.4 of ISO 8601:2004 for every date from year 1 on; before that they are wrong
  exactly in week 53 (`Weeks.IsoWeekIsCorrect`).
- A specifier is accepted exactly in its documented spellings (`ChronoFormat.TokenExactly`), and each writes its field
  (`TmFormat.YearFields` to `TmFormat.ZoneFields`, `DurationFormat.SignedFields` to `DurationFormat.AlternativeFields`).
- Printing any list of calls as a format string and formatting with it writes the text of the calls, so that every
  composite specifier writes what its parts write (`TmFormat.PrintedFormat`, `TmFormat.FormatsAgree`).
- The compiled form of a format string reads as the run-time form if and only if the string meets a condition that
  can be checked along the run-time reading (`RuntimeFormat.CompiledMatchesRuntime`). The condition rules out every
  string that the run-time reader rejects; of these, single closing braces and specs that do not end at `}` compile
  all the same. Of the strings it accepts, the condition rules out four families: automatic fields after a statically
  named one, which shift; numbered fields after one, which do not compile; static names that an earlier argument named
  at run time also carries; and names with specs that only the run time resolves, which fall back. There is a lemma
  with a concrete string for each but the fallback, which `FormatCompiler.FallsBackAtLateNames` describes.
- Formatting at run time gives a text if and only if the string was written from a list of characters and fields that
  means the text (`WrittenFormat.FormatExactly`); the compiler, with its short cut and its fallback, has a meaning of the
  same kind (`WrittenFormat.CompiledFormatMeans`).
- Every state of every run of the counting macros keeps counts equal to pointers, whatever deallocators do
  (`RefCounts.RunsKeepCounts`); after `Py_CLEAR` or `Py_SETREF` on a heap without cycles exactly the reachable objects
  are left (`RefCounts.Memory.Clear`, `RefCounts.Memory.XSetRef`).
- The encoder succeeds exactly on well-formed input and its bytes mean the same scalars (`Utf.EncoderIsCorrect`).

## Where the code and its documentation differ

- The comment at `include/fmt/chrono.h:1473-1475` says that a fraction of more than 18 digits gives 6. The search is
  done in `long long`, in which it overflows before it gets there: such periods do not compile, and neither do some
  that end within 18 digits, such as 11/2^18 (`Durations.FractionalDigitsIsMinimal`, `Durations.IllFormedPeriods`).
- `iso_year_weeks` gives 52 for every year up to 0, because the remainder it compares is then never positive
  (`Weeks.IsoYearWeeksExactly`, `Weeks.EarlyLongYearFails`).
- `compile` accepts a single `}` together with any following character, skips whatever follows specs, and lets a
  statically named field advance the automatic index, unlike the run-time reader (`RuntimeFormat.LoneBraceCompiles`,
  `RuntimeFormat.UnclosedSpecsCompile`, `RuntimeFormat.StaticNameShiftsAutomaticFields`).
- `reserve` on a store that already has names may leave the header slot pointing at the moved table's old block
  (`ArgStore.Store.Reserve` says exactly when). The argument count the store reports includes the header slot
  (`ArgStore.Store.GetTypes`), so with names the guard of `get` lets one position too many pass
  (`ArgStore.GuardPassesOnePast`).

## Model

| member | source | states |
|---|---|---|
| SafeCast.IntType.Cast | include/fmt/chrono.h:73 | a cast lands in the target type's range and keeps every value that fits |
| SafeCast.RangesByWidth | include/fmt/chrono.h:57-58 | the range of every integer type is the one of its width and signedness, in powers of two |
| SafeCast.TruncDivTruncates | include/fmt/chrono.h:202-211 | the quotient misses the dividend by less than the divisor, toward zero, and the remainder is what is missing |
| SafeCast.CastWraps | include/fmt/chrono.h:73 | a cast changes a value only by a multiple of 2 to the power of the type's width |
| SafeCast.CommonIsWider | include/fmt/chrono.h:187-189 | the common type of two different types is as wide as the wider after promotion, unsigned exactly when one of that width is, holds every value that both hold, and does not depend on the order |
| SafeCast.IntermediateIs64Bits | include/fmt/chrono.h:184-189 | the type the cast computes in is 64 bits wide, and unsigned only when one side is the unsigned 64-bit type |
| SafeCast.LosslessConversion | include/fmt/chrono.h:51-119 | for every pair of integer types the conversion fails exactly when the value does not fit the target, and otherwise keeps it |
| SafeCast.BoundByDivision | include/fmt/chrono.h:191-205 | comparing with the truncated quotient of the type's bound, also the negative one, is comparing the product with the bound |
| SafeCast.SafeDurationCast | include/fmt/chrono.h:165-214 | `ec` is 1 exactly when the count, the product or the quotient is out of range; otherwise the result is the truncated count·num/den, with no intermediate overflow |
| SafeCast.FinerAndBack | include/fmt/chrono.h:165-214 | a successful cast to a finer unit is undone by the cast back, which succeeds |
| SafeCast.CoarserAndBack | include/fmt/chrono.h:165-214 | a successful cast to a coarser unit can be cast back, which succeeds, loses less than one coarse unit and never moves away from zero |
| Ratio.CoprimeDivides | include/fmt/chrono.h:1681-1688 | for a reduced period, the denominator divides 10^digits when the fraction ends within those digits |
| Ratio.CancelCommonFactor | include/fmt/chrono.h:1681-1688 | reducing the conversion ratio leaves the truncated quotient unchanged |
| Durations.FractionalDigitsIsMinimal | include/fmt/chrono.h:1473-1480 | in `long long` arithmetic the search succeeds if and only if num·10^k is a `long long` for some k at which the fraction has ended; the result is then the least such k, at most 18, and the fallback 6 is never taken |
| Durations.IllFormedPeriods | include/fmt/chrono.h:1473-1480 | 11/2^18 ends after 18 digits and 1/3 never ends; for both the constant expression overflows |
| Durations.MagnitudeFits | include/fmt/chrono.h:1590-1599 | negating in the unsigned type gives the magnitude of every count, also of the most negative one |
| Durations.ChronoFormatter.constructor | include/fmt/chrono.h:1590-1610 | the magnitude, the sign and the whole seconds are set, and it fails exactly when the checked cast does |
| Durations.ChronoFormatter.WriteSign | include/fmt/chrono.h:1649-1654 | a pending sign is written once and is pending no more |
| Durations.ChronoFormatter.Write | include/fmt/chrono.h:1656-1664 | the pending sign, then the value padded to the width |
| Durations.ChronoFormatter.Subseconds | include/fmt/chrono.h:1681-1688 | the two casts and the subtraction give the scaled remainder of the seconds with no overflow |
| Durations.ChronoFormatter.WriteFractionalSeconds | include/fmt/chrono.h:1666-1696 | the fraction is written with the minimal number of digits, and nothing when that is zero |
| Durations.ChronoFormatter.On24Hour | include/fmt/chrono.h:1742-1749 | hours modulo 24, behind a pending sign in the standard system only |
| Durations.ChronoFormatter.On12Hour | include/fmt/chrono.h:1751-1758 | hours on a 12-hour dial, behind a pending sign in the standard system only |
| Durations.ChronoFormatter.OnMinute | include/fmt/chrono.h:1760-1767 | minutes modulo 60, behind a pending sign in the standard system only |
| Durations.ChronoFormatter.OnSecond | include/fmt/chrono.h:1769-1780 | seconds modulo 60, with sign and fraction in the standard system only |
| Durations.ChronoFormatter.On12HourTime | include/fmt/chrono.h:1782-1785 | the 12-hour time in whole seconds, and no sign |
| Durations.ChronoFormatter.On24HourTime | include/fmt/chrono.h:1787-1797 | hours and minutes with one sign at most |
| Durations.ChronoFormatter.OnIsoTime | include/fmt/chrono.h:1799-1804 | the body of the duration's clock text, with one sign at most |
| Durations.ChronoFormatter.OnAmPm | include/fmt/chrono.h:1806-1809 | the half of the day, and no sign |
| Durations.ChronoFormatter.OnDurationValue | include/fmt/chrono.h:1811-1815 | the magnitude of the count behind a pending sign |
| Durations.ChronoFormatter.OnDurationUnit | include/fmt/chrono.h:1817-1819 | the text of the unit |
| Durations.ClockReadsBack | include/fmt/chrono.h:1656-1696 | a clock's text reads back as the same sign, hours, minutes, seconds, digit count and fraction |
| Durations.ClockTicks | include/fmt/chrono.h:1631-1639 | whole days and the clock's ticks add up to the truncated scaled total, so the printed parts are its time of day |
| Durations.ClockIsExact | include/fmt/chrono.h:1666-1696 | when the unit's fraction ends within the printed digits, days plus clock equal count·num/den exactly, for every count |
| Durations.ClockDenotes | include/fmt/chrono.h:1590-1695 | the clock's text carries the sign, the minimal digits and the exact magnitude modulo one day |
| Durations.UnitReadsBack | include/fmt/chrono.h:572-592 | every period's unit, by SI prefix, minute, hour or brackets, reads back as the period |
| DurationFormat.CallSpec | include/fmt/chrono.h:1715-1819 | every handler call, in both numeric systems, appends its text and spends the sign exactly if it takes it |
| DurationFormat.Call | include/fmt/chrono.h:1710-1819 | the same for text |
| DurationFormat.Calls | include/fmt/chrono.h:601-826 | a list of calls writes their texts in order |
| DurationFormat.SignOnce | include/fmt/chrono.h:1649-1664 | a negative duration shows its sign exactly if some call takes it, once, right before the first such call |
| DurationFormat.FormatDuration | include/fmt/chrono.h:1959-1984 | for every count, every period and every saved range, also the empty one: the writer compiles exactly for the periods above, the constructor throws exactly when the cast fails, and otherwise the text is that of the accepted calls |
| DurationFormat.AcceptedTwice | include/fmt/chrono.h:1944-1955 | the writer's parse of the saved range makes the calls the checker accepted |
| DurationFormat.TimeSpecs | include/fmt/chrono.h:601-826 | `%T`, `%H:%M:%S` and `%Q%q` are accepted whole and make the expected calls |
| DurationFormat.ValueAndUnit | include/fmt/chrono.h:1972-1974 | `%Q%q` writes what the empty format writes: the signed count and the unit |
| DurationFormat.IsoText | include/fmt/chrono.h:1799-1804 | the calls of `%T` write the clock text, for either sign |
| DurationFormat.FieldsText | include/fmt/chrono.h:1742-1780 | the calls of `%H:%M:%S` write the clock text, for either sign |
| DurationFormat.FormatTime | include/fmt/chrono.h:1959-1984 | for every integral count and every period: ill-formed, throwing or a text exactly as said for FormatDuration, and the text read back is the duration modulo one day, with its sign and the minimal digits |
| DurationFormat.CastableExactly | include/fmt/chrono.h:1601-1606 | the cast to seconds succeeds exactly if the product fits 64 bits, unsigned only for 64-bit counts, and the seconds fit the unsigned type of the count |
| DurationFormat.SignedFields | include/fmt/chrono.h:1742-1776 | `%H`, `%I`, `%M` and `%S` by themselves write the field of the clock, with a leading minus exactly for negative durations |
| DurationFormat.SignedComposites | include/fmt/chrono.h:1787-1815 | so do `%R`, `%T` and `%Q` |
| DurationFormat.UnsignedFields | include/fmt/chrono.h:1782-1819 | `%r`, `%p` and `%q` write their text without a minus, for either sign |
| DurationFormat.AlternativeFields | include/fmt/chrono.h:1746-1780 | `%OH`, `%OI`, `%OM` and `%OS` write the number without a minus and without a fraction, for either sign |
| DurationFormat.DatesRejected | include/fmt/chrono.h:1373-1388 | every letter of a date or zone is rejected for durations |
| DurationFormat.AlternativeDatesRejected | include/fmt/chrono.h:1373-1388 | so are the letters of dates with `E` and `O` |
| DurationFormat.MinusFiveMinutes | include/fmt/chrono.h:1760-1763 | minus five minutes with `%M` write `-05` |
| Calendar.YearsFollow | include/fmt/chrono.h:1016-1025 | the calendar's years follow each other at their lengths, which fixes it from 1 January of year 1 |
| Calendar.KnownDates | include/fmt/chrono.h:1014-1043 | leap years, weekdays and ISO weeks of known dates |
| Calendar.IsoWeekIsUnique | include/fmt/chrono.h:1030-1043 | the definition by the week's Thursday gives one ISO year and week to a day |
| Calendar.WeeksInYear | include/fmt/chrono.h:1016-1025 | a year has 53 Thursdays exactly when it begins or ends on one, and 52 otherwise |
| Weeks.IsoYearWeeksExactly | include/fmt/chrono.h:1016-1025 | the number of weeks is right from year 1 on and 52 for every earlier year |
| Weeks.YearZeroIsShort | include/fmt/chrono.h:1040 | year 0 has 52 weeks, so the first days of year 1 come out right |
| Weeks.WeekNumIsOrdinal | include/fmt/chrono.h:1026-1029 | the preliminary week number is the ordinal of the week's Thursday counted from the year's start |
| Weeks.Week53ByFields | include/fmt/chrono.h:1026-1043 | the date is in week 53 of its ISO year exactly when its preliminary number and the lengths of this and the last year say so |
| Weeks.IsoWeekIsCorrect | include/fmt/chrono.h:1014-1043 | for every consistent date of any year, ISO year and week are those of the week's Thursday if and only if the date is not in week 53 of a year up to 0, told from year, day of the year and weekday; the week is in 1 to 53 |
| Weeks.IsoWeekOfDates | include/fmt/chrono.h:1030-1043 | for every consistent date from year 1 on the results are its ISO year and week, and week 53 occurs only in long years |
| Weeks.EarlyLongYearFails | include/fmt/chrono.h:1016-1043 | the last day of year -2 lies in its week 53 and is reported as week 1 of year -1 |
| Weeks.WeekOfYearCounts | include/fmt/chrono.h:1271-1285 | `%U` and `%W` are the numbers of Sundays and Mondays of the year up to the day |
| Lanes.TimesPack | include/fmt/chrono.h:551-553 | multiplying the packed word by 205 multiplies each lane, with no carry between lanes |
| Lanes.QuotientLanes | include/fmt/chrono.h:553 | the shift and mask take the quotient of each lane |
| Lanes.AddPacks | include/fmt/chrono.h:553 | adding the packed corrections adds lane by lane |
| Lanes.OneLane | include/fmt/chrono.h:545-553 | (x·205)>>11 is x/10 for every two-digit x, and adding six of it gives the two decimal nibbles |
| Lanes.Computed | include/fmt/chrono.h:543-556 | the whole computation puts the six digits into their bytes |
| Lanes.ComputationIsText | include/fmt/chrono.h:543-559 | byte by byte the word is the three two-digit texts with separators |
| Lanes.WriteDigit2Separated | include/fmt/chrono.h:538-570 | eight characters of the buffer become the text, for every ASCII separator and either byte order, and no other element changes |
| TmWriter.YearLower | include/fmt/chrono.h:1008-1012 | the lower part of a year is in 0 to 99 for every sign |
| TmWriter.CenturyThenYear | include/fmt/chrono.h:1004-1012 | `%C` followed by `%y` is `%Y`, for every year |
| TmWriter.YearReadsBack | include/fmt/chrono.h:1054-1074 | the year's text has at least four characters, more only when needed, and reads back as the signed year |
| TmWriter.FourDigitYear | include/fmt/chrono.h:1067-1070 | the fast path for years 0 to 9999 writes the general text |
| TmWriter.NamesAbbreviate | include/fmt/chrono.h:911-938 | the short names are the first three letters of the full ones and tell days and months apart |
| TmWriter.Hour12ReadsBack | include/fmt/chrono.h:998-1002 | the 12-hour clock and the half of the day determine the hour |
| TmWriter.OffsetReadsBack | include/fmt/chrono.h:1076-1086 | an offset of less than 100 hours reads back to the minute, truncated toward zero |
| TmWriter.Writer.Write1 | include/fmt/chrono.h:1045-1047 | the last decimal digit is written |
| TmWriter.Writer.Write2 | include/fmt/chrono.h:1048-1052 | the last two decimal digits are written |
| TmWriter.Writer.WriteYearExtended | include/fmt/chrono.h:1054-1066 | the year's text, by sign, padding and digits |
| TmWriter.Writer.WriteYear | include/fmt/chrono.h:1067-1074 | the year's text on both paths |
| TmWriter.Writer.OnYear | include/fmt/chrono.h:1232-1236 | the text of the full year |
| TmWriter.Writer.OnShortYear | include/fmt/chrono.h:1237-1245 | the lower part of the year in two digits |
| TmWriter.Writer.OnCentury | include/fmt/chrono.h:1247-1263 | the century text that `%y` completes to `%Y` |
| TmWriter.Writer.OnDecMonth | include/fmt/chrono.h:1265-1269 | the month counted from 1 in two digits |
| TmWriter.Writer.OnDayOfYear | include/fmt/chrono.h:1297-1301 | the day's number from 1, padded to three digits |
| TmWriter.Writer.OnDayOfMonth | include/fmt/chrono.h:1302-1305 | the day of the month in two digits |
| TmWriter.Writer.On24Hour | include/fmt/chrono.h:1317-1320 | the hour in two digits |
| TmWriter.Writer.OnMinute | include/fmt/chrono.h:1326-1329 | the minute in two digits |
| TmWriter.Writer.OnSecond | include/fmt/chrono.h:1330-1333 | the second in two digits |
| TmWriter.Writer.On24HourTime | include/fmt/chrono.h:1347-1351 | hour and minute |
| TmWriter.Writer.OnUsDate | include/fmt/chrono.h:1205-1211 | the fast path writes month, day and short year with slashes |
| TmWriter.Writer.OnIsoDate | include/fmt/chrono.h:1212-1227 | the fast path writes year, month and day for every year, also outside 0 to 9999 |
| TmWriter.Writer.OnIsoTime | include/fmt/chrono.h:1352-1357 | the fast path writes hour, minute and second with colons |
| TmWriter.Writer.OnAbbrWeekday | include/fmt/chrono.h:1140-1145 | the short name of the weekday |
| TmWriter.Writer.OnFullWeekday | include/fmt/chrono.h:1146-1151 | the full name of the weekday |
| TmWriter.Writer.OnDec0Weekday | include/fmt/chrono.h:1152-1155 | the weekday from Sunday as 0 |
| TmWriter.Writer.OnDec1Weekday | include/fmt/chrono.h:1156-1163 | the weekday from Monday as 1, with Sunday as 7 |
| TmWriter.Writer.OnAbbrMonth | include/fmt/chrono.h:1165-1170 | the short name of the month |
| TmWriter.Writer.OnFullMonth | include/fmt/chrono.h:1171-1176 | the full name of the month |
| TmWriter.Writer.OnDayOfMonthSpace | include/fmt/chrono.h:1306-1315 | the day with a blank for a leading zero |
| TmWriter.Writer.OnDateTime | include/fmt/chrono.h:1178-1192 | weekday, month, day, time and year with blanks |
| TmWriter.Writer.On12Hour | include/fmt/chrono.h:1321-1325 | the hour on a 12-hour dial in two digits |
| TmWriter.Writer.OnAmPm | include/fmt/chrono.h:1359-1366 | AM before noon and PM after |
| TmWriter.Writer.On12HourTime | include/fmt/chrono.h:1335-1346 | the 12-hour time through the fast path, and the half of the day |
| TmWriter.Writer.OnUtcOffset | include/fmt/chrono.h:1076-1091 | the sign, hours and minutes of the offset, through the conversions of the source |
| TmWriter.Writer.OnTzName | include/fmt/chrono.h:1110-1116 | the name of the zone |
| TmWriter.Writer.OnIsoWeekOfYear | include/fmt/chrono.h:1286-1290 | the ISO week in two digits; it is in 1 to 53 |
| TmWriter.Writer.OnIsoWeekBasedYear | include/fmt/chrono.h:1292 | the ISO year's text |
| TmWriter.Writer.OnIsoWeekBasedShortYear | include/fmt/chrono.h:1293-1295 | the lower part of the ISO year |
| TmWriter.Writer.OnDec0WeekOfYear | include/fmt/chrono.h:1271-1275 | on a consistent date, the number of Sundays so far in two digits |
| TmWriter.Writer.OnDec1WeekOfYear | include/fmt/chrono.h:1276-1285 | on a consistent date, the number of Mondays so far in two digits |
| TmWriter.IsoWeekInRange | include/fmt/chrono.h:1037-1043 | with fields in their asserted ranges the ISO week is in 1 to 53, also on inconsistent dates |
| TmFormat.CallSpec | include/fmt/chrono.h:1136-1371 | every handler call appends its text |
| TmFormat.Call | include/fmt/chrono.h:1136-1371 | the same for text |
| TmFormat.Calls | include/fmt/chrono.h:601-826 | a list of calls writes their texts in order |
| TmFormat.FormatTm | include/fmt/chrono.h:2013-2062 | for every `tm` in range and every range of characters: parsing fails exactly when the checker rejects, and otherwise the text is that of the accepted calls, whether or not a short cut is taken |
| TmFormat.FormatTimePoint | include/fmt/chrono.h:1987-2006 | the same for time points, where an empty range means `%F %T` |
| TmFormat.PrintedFormat | include/fmt/chrono.h:601-826 | any list of calls the checker admits, printed as a format string, is accepted whole and writes the text of the calls, for every `tm` in range |
| TmFormat.FormatsAgree | include/fmt/chrono.h:1178-1357 | `%F`, `%D`, `%x`, `%T`, `%X`, `%R`, `%r`, `%c`, `%Y` are accepted and write the same text as their parts, and `%Y` as `%C%y`, for every `tm` in range |
| TmFormat.YearFields | include/fmt/chrono.h:1232-1263 | `%Y` and `%y` write the year and its last two digits, and `%C` what `%y` completes to the year |
| TmFormat.DayFields | include/fmt/chrono.h:1265-1315 | `%m`, `%d`, `%e` and `%j` write month, day, day with a blank, and day of the year |
| TmFormat.WeekFields | include/fmt/chrono.h:1271-1285 | on a consistent date `%U` and `%W` write the numbers of Sundays and of Mondays of the year so far |
| TmFormat.IsoFields | include/fmt/chrono.h:1286-1295 | on a consistent date `%V`, `%G` and `%g` write the week and year of the week's Thursday, wherever the formulas are right |
| TmFormat.WeekdayFields | include/fmt/chrono.h:1140-1163 | `%w`, `%u`, `%A` and `%a` write the weekday by number and by name |
| TmFormat.MonthFields | include/fmt/chrono.h:1165-1176 | `%B`, `%b` and `%h` write the month by name |
| TmFormat.ClockFields | include/fmt/chrono.h:1317-1333 | `%H`, `%M` and `%S` write hour, minute and second |
| TmFormat.DialFields | include/fmt/chrono.h:1321-1366 | `%I` and `%p` write the hour on the 12-hour dial and the half of the day |
| TmFormat.ZoneFields | include/fmt/chrono.h:1076-1116 | `%z` and `%Z` write the offset in hours and minutes and the zone's name |
| TmFormat.EraForms | include/fmt/chrono.h:745-771 | with `E` every specifier that takes it writes what it writes without |
| TmFormat.AlternativeForms | include/fmt/chrono.h:772-818 | with `O` every specifier that takes it writes what it writes without |
| TmFormat.DurationsRejected | include/fmt/chrono.h:870-909 | `%Q` and `%q` are rejected for dates |
| TmFormat.FormatShown | include/fmt/chrono.h:2013-2062 | the formatter's text for a range is the one stated for the range |
| TmFormat.FormatWeeks | include/fmt/chrono.h:1271-1285 | the formatter's texts for `%U` and `%W` count the Sundays and Mondays |
| ChronoFormat.TokenRound | include/fmt/chrono.h:606-824 | one round of the loop: pending text is passed on first, then the call; a rejected or malformed specifier ends the parse after the pending text |
| ChronoFormat.ParseChronoFormat | include/fmt/chrono.h:601-826 | the loop makes the calls of the recursive reading and ends as it does, for every handler |
| ChronoFormat.StopsAtBrace | include/fmt/chrono.h:606-826 | an accepted parse ends at the first `}` or at the end of the input |
| ChronoFormat.PrefixParsesAlike | include/fmt/chrono.h:601-826 | parsing just the accepted range makes the same calls and consumes all of it |
| ChronoFormat.TwoPassesAgree | include/fmt/chrono.h:870-909 | what a checker accepts, any handler with at least its calls parses again without error, to the end, with the same calls |
| ChronoFormat.DurationPassesAgree | include/fmt/chrono.h:1373-1388 | the duration writer receives only time-of-day and duration calls |
| ChronoFormat.SpecTokenizes | include/fmt/chrono.h:615-820 | every printed specifier, with `E` or `O` where needed, is read as the call it was printed for |
| ChronoFormat.TokenIsCanonical | include/fmt/chrono.h:615-820 | every accepted specifier is the canonical text of its call, or `%n`, `%t` or `%h` |
| ChronoFormat.SpellingIsRead | include/fmt/chrono.h:615-820 | every canonical specifier, `%%`, `%n`, `%t` and `%h` is read as its call, wherever it stands |
| ChronoFormat.TokenExactly | include/fmt/chrono.h:615-820 | a specifier is accepted if and only if it is spelled in one of these ways |
| ChronoFormat.AliasFormats | include/fmt/chrono.h:619-634 | `%n`, `%t`, `%%` and `%h` as whole formats make the calls for a line break, a tab, a percent sign and the short month name |
| ChronoFormat.BreakBetween | include/fmt/chrono.h:619-634 | `%F%n%T` is accepted and passes on the date, a line break and the time |
| ChronoFormat.TextParses | include/fmt/chrono.h:606-624 | printed text parses to its characters, wherever it stands |
| ChronoFormat.PrintThenParse | include/fmt/chrono.h:601-826 | printing any list of calls without `}` and parsing it makes the same calls up to merging of adjacent text, and consumes everything |
| ChronoFormat.PrintThenStop | include/fmt/chrono.h:606-826 | after any printed calls a closing brace ends the parse there, and a `%` that begins no specifier fails it there, after the same calls |
| ChronoFormat.TextRun | include/fmt/chrono.h:606-824 | a run of text is passed on whole |
| ChronoFormat.HandledExactly | include/fmt/chrono.h:828-831 | a handler receives exactly the calls before the first one it does not accept, which ends the parse |
| ChronoFormat.ParseThenPrint | include/fmt/chrono.h:601-826 | whatever is accepted can be printed canonically, and that parses to the same calls |
| ChronoFormat.TmFormatter.WithDefault | include/fmt/chrono.h:1987-1993 | the constructor's own parse saves the default specs, whose calls the writer will receive, and takes no short cut |
| ChronoFormat.TmFormatter.DoParse | include/fmt/chrono.h:2024-2040 | the accepted range is saved and parses again to the accepted calls; with a default, an empty range leaves the specs as they were |
| ChronoFormat.TmFormatter.Format | include/fmt/chrono.h:2048-2062 | the writer receives the calls of the saved specs on all three paths |
| ChronoFormat.FastPaths | include/fmt/chrono.h:2032-2036 | the two short cuts make the calls that parsing makes |
| ChronoFormat.ParseAndFormat | include/fmt/chrono.h:2022-2062 | parsing and then formatting delivers the checker's calls to the writer |
| ChronoFormat.ParseAndFormatWithDefault | include/fmt/chrono.h:1995-2006 | an accepted empty range delivers the default calls to the writer, any other the accepted ones |
| Utf.JoinIsCombination | include/cpython/unicodeobject.h:66-73 | `(c << 10) + low - 0x35fdc00` is the joined surrogate pair, in 0x10000 to 0x10FFFF |
| Utf.SplitJoins | include/cpython/unicodeobject.h:66-77 | the high and low surrogates of a scalar are surrogates and join to it |
| Utf.SurrogateMasks | include/fmt/chrono.h:361-369 | the mask tests pick out exactly the high and the low surrogates |
| Utf.EncodesScalars | include/fmt/chrono.h:372-391 | the encoder accepts exactly the scalar values and emits one to four bytes each |
| Utf.EncodedDecodesFirst | include/fmt/chrono.h:372-388 | by the syntax of section 4 of RFC 3629 the emitted bytes, followed by anything, start with that scalar |
| Utf.PushScalar | include/fmt/chrono.h:372-391 | the branches append the scalar's bytes or throw |
| Utf.WriteEncoded | include/fmt/chrono.h:359-392 | the loop computes the encoding of the units' scalars, and throws exactly when there is none |
| Utf.EncoderIsCorrect | include/fmt/chrono.h:357-392 | it succeeds exactly on well-formed UTF-32, or UTF-16 by section 2.2 of RFC 2781; the bytes decode to the same scalars, at most four per unit |
| Utf.ArmsAgree | include/fmt/chrono.h:363-371 | splitting any scalars into surrogates and using the 16-bit arm gives the bytes of the 32-bit arm |
| Utf.UnitsAreSplit | include/fmt/chrono.h:361-371 | well-formed 16-bit input is exactly what splitting scalar values gives |
| Utf.DecodedEncodes | include/fmt/chrono.h:372-391 | well-formed UTF-8 is exactly what the encoder gives for scalar values |
| FormatArgs.ParseNonnegativeInt | include/fmt/core.h:2272-2296 | adding digits up in wrapping `unsigned` with the test for overflow gives the number, or the largest int when it is larger |
| FormatArgs.IndexReadsBack | include/fmt/core.h:2344-2372 | every number is read from its shortest decimal text before a brace or colon, up to the largest int, and refused before anything else |
| FormatArgs.ArgIdIsText | include/fmt/core.h:2344-2372 | every id that is read was the shortest decimal text of a number, or a whole name |
| FormatArgs.StaticLookup | include/fmt/core.h:2867-2889 | the first argument whose compile-time name matches, or none when no such argument exists |
| FormatArgs.Lookup | include/fmt/compile.h:271-297 | the first argument that carries the name, or none when no argument does |
| FormatCompiler.ParseText | include/fmt/compile.h:342-348 | the loop stops at the first brace or at the end |
| FormatCompiler.PieceSource | include/fmt/compile.h:429-518 | every compiled piece says what its range of the format string says: its literal characters, its argument by counter, number or name, and its specs; the id goes on as its kind demands |
| FormatCompiler.CompiledTiles | include/fmt/compile.h:353-367 | the pieces of a compiled string tile it with no gap and no overlap |
| FormatCompiler.IndexingDiscipline | include/fmt/compile.h:429-502 | automatic and numbered fields never mix, manual stays manual, and an automatic field reads the argument numbered by the automatic and statically named fields before it |
| FormatCompiler.FallsBackAtLateNames | include/fmt/compile.h:494-500 | compilation falls back if and only if it reaches a late-named field with specs |
| RuntimeFormat.ReadText | include/fmt/core.h:2611-2636 | text without braces is read as its characters |
| RuntimeFormat.SoundPieceIsRead | include/fmt/core.h:2572-2608 | on a piece that meets the conditions the run-time reader reads what the leaf stands for and goes on behind it |
| RuntimeFormat.UnsoundPieceDiffers | include/fmt/compile.h:504-507 | on any other piece it throws or reads something else |
| RuntimeFormat.Agreement | include/fmt/compile.h:429-532 | from any pair of positions and ids, the items agree if and only if every piece meets the conditions and no automatic field comes after the ids part |
| RuntimeFormat.OutputOfPieces | include/fmt/compile.h:320-329 | running the tree is running its leaves from left to right |
| RuntimeFormat.CompilableCompiles | include/fmt/compile.h:429-532 | a string that meets the condition compiles |
| RuntimeFormat.CompiledMatchesRuntime | include/fmt/compile.h:429-532 | the compiled form reads as the run-time form if and only if the string meets the condition |
| RuntimeFormat.CompiledOutputIsRuntimeOutput | include/fmt/compile.h:540-548 | then the compiled code writes the run-time formatter's text, or throws with it, for all argument values |
| RuntimeFormat.CompiledFormatIsFormat | include/fmt/compile.h:557-582 | the entry point gives the run-time result by each of its three ways: short cut, tree and fallback |
| RuntimeFormat.BraceEscape | include/fmt/compile.h:455-459 | any text with doubled braces compiles to code without fields that writes the text |
| RuntimeFormat.StaticNameShiftsAutomaticFields | include/fmt/compile.h:484-493 | `{a}{}` reads arguments 0 and 1 compiled, and 0 and 0 at run time |
| RuntimeFormat.StaticNameOvertakesRuntimeName | include/fmt/compile.h:484-493 | `{a}` reads the second of two arguments named a when only that one is named at compile time, and the first at run time |
| RuntimeFormat.NumberAfterStaticNameFails | include/fmt/compile.h:475-493 | `{a}{1}` does not compile, and formats at run time |
| RuntimeFormat.UnclosedSpecsCompile | include/fmt/compile.h:376-385 | `{:` and any one character that the formatter leaves alone compile, where the run-time reader throws |
| RuntimeFormat.LoneBraceCompiles | include/fmt/compile.h:504-507 | a single `}` and any other character compile to `}`, where the run-time reader throws |
| WrittenFormat.FormatMeans | include/fmt/core.h:2571-2636 | any list of characters and fields, choosing arguments by counter, number or name, with or without specs, written down and formatted at run time gives the text the list means |
| WrittenFormat.AcceptedIsWritten | include/fmt/core.h:2571-2636 | every string the run-time reader accepts was written down from such a list |
| WrittenFormat.FormatExactly | include/fmt/core.h:2571-2636 | formatting gives a text if and only if the string was written from a list that means the text |
| WrittenFormat.CompileMeans | include/fmt/compile.h:429-532 | compiling what was written and running it gives what the list means to the compiler: a text, the fallback, or no program |
| WrittenFormat.CompiledFormatMeans | include/fmt/compile.h:557-582 | the entry point, by short cut, tree or fallback, gives what the list means |
| WrittenFormat.FullOutputMeans | include/fmt/compile.h:585-596 | so does the unbounded output behind the bounded iterators |
| WrittenFormat.LateSpecsApply | include/fmt/compile.h:494-500 | `{name:spec}` with a name of the run time falls back and writes the argument under its specs |
| WrittenFormat.BraceStep | include/fmt/compile.h:455-507 | in any position a doubled opening brace, and a closing brace with any character behind it, gives the brace |
| WrittenFormat.LastBraceFails | include/fmt/compile.h:453-506 | a string that ends inside a brace pair does not compile |
| WrittenFormat.CompilableMeans | include/fmt/compile.h:429-532 | the condition for faithful compilation, found on characters, is one on the list |
| WrittenFormat.MatchesMeans | include/fmt/compile.h:429-532 | the compiled form of what was written reads as the run-time form if and only if the list meets that condition |
| BoundedOutput.TakenGrows | include/fmt/compile.h:92-119 | keeping the first n characters of a longer text adds the new one only below n |
| BoundedOutput.CountingIterator.CopyStr | include/fmt/compile.h:55-59 | the count grows by the length |
| BoundedOutput.TruncatingPointer.Put | include/fmt/compile.h:92-119 | one more character is counted, and stored only below the limit; the array holds exactly the kept prefix |
| BoundedOutput.TruncatingInserter.Put | include/fmt/compile.h:121-138 | the same for an inserter |
| BoundedOutput.CountInto | include/fmt/compile.h:320-329 | a tree run into a counting iterator counts its whole output |
| BoundedOutput.PointInto | include/fmt/compile.h:320-329 | a tree run into a truncating pointer passes its whole output through |
| BoundedOutput.InsertInto | include/fmt/compile.h:320-329 | a tree run into a truncating inserter passes its whole output through |
| BoundedOutput.FullOutputIsFormat | include/fmt/compile.h:585-596 | on strings that compile faithfully or fall back, the unbounded output is the run-time formatter's text |
| BoundedOutput.FormatToPointer | include/fmt/compile.h:585-596 | a compiled string, by its tree or by falling back, passes its whole output through the pointer form |
| BoundedOutput.FormatToInserter | include/fmt/compile.h:585-596 | the same for the inserter form |
| BoundedOutput.FormattedSize | include/fmt/compile.h:607-611 | for every string that compiles or falls back, the size is the length of the unbounded output |
| BoundedOutput.FormatToN | include/fmt/compile.h:598-605 | for every string that compiles or falls back, exactly the first min(n, size) characters are stored, the iterator has moved past them, the full size is reported and nothing else is written, not even when a leaf throws |
| BoundedOutput.FormatToNInserted | include/fmt/compile.h:598-605 | the other specialisation gives the same characters and size |
| RefCounts.IncrefKeeps | include/object.h:403-409 | an increment keeps counts, total and the absence of dangling pointers |
| RefCounts.DecrefKeeps | include/object.h:413-432 | a decrement of an owned reference keeps them, also at the moment a deallocator is entered |
| RefCounts.OverwriteKeeps | include/object.h:475-482 | they hold between the two halves of the macros, when the old pointer is in a local variable |
| RefCounts.ReplaceKeeps | include/cpython/object.h:366-378 | `Py_CLEAR`, `Py_SETREF` and `Py_XSETREF` keep them |
| RefCounts.FreeKeeps | include/object.h:423-431 | releasing an object whose deallocator has cleared its slots keeps them |
| RefCounts.NewKeeps | include/object.h:375 | a new object with count 1 keeps them |
| RefCounts.DyingIsUnreferenced | include/object.h:441-468 | while an object's deallocator runs, no slot and no temporary points at it |
| RefCounts.RunsKeepCounts | include/object.h:403-501 | in every state of every run each count is the number of slots and temporaries pointing at the object, nothing dangles, the dying objects are those with count 0, and the total is the sum |
| RefCounts.NoDoubleFree | include/object.h:413-432 | no run frees an object twice |
| RefCounts.IncrefThenDecref | include/object.h:403-432 | an increment raises the count by one, and giving the reference up again restores counts, slots, temporaries and total |
| RefCounts.NaiveOrderExposes | include/object.h:441-474 | decrementing before overwriting exposes a dying object exactly when the count was 1; overwriting first never does |
| RefCounts.LeakIsSelfSupporting | include/object.h:413-432 | an unreachable live object is held by another unreachable one |
| RefCounts.AcyclicIsReachable | include/object.h:413-432 | with no deallocator running, every live object of an acyclic heap is reachable |
| RefCounts.ReachableSurvives | include/object.h:475-482 | a cascade frees nothing that can be reached, on any heap |
| RefCounts.CascadeIsExact | include/object.h:475-482 | on an acyclic heap a completed cascade frees exactly the unreachable objects |
| RefCounts.CascadeCollects | include/object.h:475-482 | if no deallocator is running and the heap before has no cycles, exactly the objects reachable there are left, and each can still be reached |
| RefCounts.Memory.NewReference | include/object.h:375 | count 1, total plus 1 and one temporary, and nothing else changes, field by field |
| RefCounts.Memory.Incref | include/object.h:403-409 | count and total plus 1, one more temporary, and nothing else changes, field by field |
| RefCounts.Memory.Decrement | include/object.h:420-424 | count and total minus 1 and one temporary less, field by field; the deallocator is entered exactly at zero |
| RefCounts.Memory.Decref | include/object.h:413-432 | it terminates; the dropped reference is gone and what was freed is freed with all its slots, everything else as before |
| RefCounts.Memory.XIncref | include/object.h:485-490 | an increment, or nothing for NULL |
| RefCounts.Memory.IncrefAndDecref | include/object.h:403-432 | the two macros in a row change nothing |
| RefCounts.Memory.StoreAt | include/cpython/object.h:366-378 | the first half of the macros: the old pointer is saved, the slot overwritten, and both references change hands |
| RefCounts.Memory.Release | include/object.h:401 | the object is gone and marked as freed, and nothing else changes |
| RefCounts.Memory.XDecref | include/object.h:494-499 | a decrement with its cascade, or nothing for NULL |
| RefCounts.Memory.Dealloc | include/object.h:401 | it terminates, clears every slot of its object, frees it, and the whole is one cascade |
| RefCounts.Memory.Clear | include/object.h:475-482 | the slot is NULL, the rest is a cascade, and of the heap so overwritten exactly the reachable objects are left if it has no cycles and no deallocator is running |
| RefCounts.Memory.XSetRef | include/cpython/object.h:366-378 | the slot holds the new pointer, whose reference has moved into it, the rest is a cascade, and exactly the reachable objects are left under the same condition |
| ArgStore.FirstNamed | include/fmt/core.h:1993-2002 | the first pair with the name, or none when there is none |
| ArgStore.Destroy | include/fmt/args.h:31-51 | every node of the list is destroyed, from the head on |
| ArgStore.Store.PushNode | include/fmt/args.h:53-59 | the new node is the head, holds the value, and no older node moves or changes |
| ArgStore.Store.MakeEntry | include/fmt/args.h:165-192 | the entry stands for the argument: numbers in place, strings and custom objects owned by a node, references and views borrowed from the caller |
| ArgStore.Store.PushBack | include/fmt/args.h:165-192 | one more argument at the end; names and owned nodes are kept |
| ArgStore.Store.EmplaceNamed | include/fmt/args.h:126-143 | one more argument and one more name with its position; the header slot exists and describes all names |
| ArgStore.Store.PushNamed | include/fmt/args.h:199-209 | the same from the caller's side, with the name copied and owned nodes kept |
| ArgStore.RepresentsOneNamed | include/fmt/args.h:126-143 | inserting the header slot, appending and renewing the header keeps every entry at its argument's position |
| ArgStore.Store.Read | include/fmt/args.h:120-122 | `data()[i]` read through is the i-th pushed argument, or what the caller's memory holds now |
| ArgStore.Store.GetTypes | include/fmt/args.h:113-118 | the named bit is set exactly when there are names; the count includes the header slot |
| ArgStore.MaxSizeIsSize | include/fmt/core.h:2006-2010 | the cast to int drops the bit for names and leaves every size below 2^31 |
| ArgStore.GuardPassesOnePast | include/fmt/core.h:1976-1980 | the guard lets a position pass that holds no argument exactly if there are names and it is the next one |
| ArgStore.Store.Get | include/fmt/core.h:1976-1980 | by position: the argument, nothing above the guard, and a read past the vector in between |
| ArgStore.ReadsPastTheEnd | include/fmt/core.h:1976-1980 | on a store with one named argument, position 1 passes the guard and lies past the vector |
| ArgStore.Store.GetId | include/fmt/core.h:1993-2002 | the position of the first push with that name, nothing if there is none, and a read of a released table exactly when the header slot is not current |
| ArgStore.Store.Reserve | include/fmt/args.h:223-232 | nothing pushed is lost; the header slot stays current if and only if there are no names or the table did not have to grow |
| ArgStore.Store.Clear | include/fmt/args.h:211-216 | the store is empty, without header slot, and every owned node is destroyed |

## Left out

Chrono formatting:

- Floating-point durations, NaN and infinity, and `safe_float_conversion`.
- The unchecked `std::chrono::duration_cast` that the constructor uses when the checked cast is configured away.
- Periods given as a ratio that is not in lowest terms, which are different types with the same value.
- Width, fill, precision and the `L` flag of a duration's format, which come before the range that is parsed.
- Locale facets, `codecvt`, `format_localized` and the C library's time functions: the classic locale is modelled, and
  the UTC offset and zone name are fields of the `tm`.
- Lanes.WriteDigit2Separated: a separator beyond ASCII would be sign-extended where `char` is signed; the numbers are
  below 100, as all callers pass them.
- Appending to a buffer stands for the output iterator of the writers; `on_text` of the duration writer does not
  advance its iterator, which is the same for an inserter.

Compiled formats:

- FormatCompiler.IndexingDiscipline: width and precision that name further arguments do not change the argument ids
  in the model; a formatter's `parse` is a parameter that says how many characters it consumes.
- Ill-typed arguments, which the C++ type checker rejects, and the types of arguments in general.
- The run-time reader's loop for strings of 32 characters and more, which searches for the braces in two passes.
- BoundedOutput.FormatToN: when the run-time formatter throws after a fallback, what has been written by then is not
  described, except that it lies within the n elements.
- Output to `FILE` and to streams, colors.

Reference counts:

- RefCounts.CascadeIsExact: the deallocators of a cascade clear the slots of their object and do nothing else;
  deallocators that run other code are covered by `RunsKeepCounts`, not by the cascade.
- Objects are numbers that are never reused, and memory is a map; reuse of freed addresses is not modelled.
- `_Py_NegativeRefcount` cannot be reached by code that owns what it gives up; `_Py_NewReference` and `_Py_Dealloc`
  have no body in the repository and follow the header's comments.
- The trashcan macros, resurrection by finalizers and the cyclic collector.

Argument store:

- References to numbers in a named argument, which are stored in place like numbers.
- Failing allocations and the guard that undoes a half finished push; the table's memory block is a number that
  changes when the table moves.
