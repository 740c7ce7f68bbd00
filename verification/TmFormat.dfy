/** A date and time formatted by a format string: the parser drives the `tm` writer. */
module TmFormat {
  import opened Arith
  import opened Calendar
  import opened Decimal
  import opened Lanes
  import opened SafeCast
  import opened Weeks
  import opened TmWriter
  import opened Wrappers
  import opened ChronoFormat

  /** What one call writes; in the classic locale the numeric system makes no difference. */
  function CallText(tm: Tm, e: Event): string
    requires tm.Valid()
  {
    match e
    case OnText(t) => t
    case OnSpec(k, _) => SpecText(tm, k)
  }

  function SpecText(tm: Tm, k: Kind): string
    requires tm.Valid()
  {
    var year := tm.FullYear();
    WeekNumbers(year, tm.yday, tm.wday);
    IsoWeekInRange(year, tm.yday, tm.wday);
    match k
    case Year => YearText(year)
    case ShortYear => TwoDigits(YearLower(year))
    case OffsetYear => TwoDigits(YearLower(year))
    case Century => CenturyText(year)
    case IsoWeekBasedYear => YearText(IsoWeekYear(year, tm.yday, tm.wday))
    case IsoWeekBasedShortYear => TwoDigits(YearLower(IsoWeekYear(year, tm.yday, tm.wday)))
    case AbbrWeekday => ShortWeekdayName(tm.wday)
    case FullWeekday => FullWeekdayName(tm.wday)
    case Dec0Weekday => Text(tm.wday)
    case Dec1Weekday => Text(if tm.wday == 0 then 7 else tm.wday)
    case AbbrMonth => ShortMonthName(tm.mon)
    case FullMonth => FullMonthName(tm.mon)
    case DecMonth => TwoDigits(tm.mon + 1)
    case Dec0WeekOfYear => TwoDigits(SundayWeek(tm.yday, tm.wday))
    case Dec1WeekOfYear => TwoDigits(MondayWeek(tm.yday, tm.wday))
    case IsoWeekOfYear => TwoDigits(Weeks.IsoWeekOfYear(year, tm.yday, tm.wday))
    case DayOfYear => Padded(tm.yday + 1, 3)
    case DayOfMonth => TwoDigits(tm.mday)
    case DayOfMonthSpace => SpacedDay(tm.mday)
    case Hour24 => TwoDigits(tm.hour)
    case Hour12 => TwoDigits(Hour12Of(tm.hour))
    case Minute => TwoDigits(tm.min)
    case Second => TwoDigits(tm.sec)
    case DateTime => DateTimeText(tm)
    case LocDate => Triple(tm.mon + 1, tm.mday, YearLower(year), '/')
    case LocTime => Triple(tm.hour, tm.min, tm.sec, ':')
    case UsDate => Triple(tm.mon + 1, tm.mday, YearLower(year), '/')
    case IsoDate => YearText(year) + DateTail(tm.mon + 1, tm.mday)
    case Hour12Time => Triple(Hour12Of(tm.hour), tm.min, tm.sec, ':') + " " + AmPmText(tm.hour)
    case Hour24Time => TwoDigits(tm.hour) + ":" + TwoDigits(tm.min)
    case IsoTime => Triple(tm.hour, tm.min, tm.sec, ':')
    case AmPm => AmPmText(tm.hour)
    case DurationValue => ""
    case DurationUnit => ""
    case UtcOffset => OffsetText(tm.gmtoff)
    case TzName => tm.zone
  }

  /** What a list of calls writes. */
  function CallsText(tm: Tm, events: seq<Event>): string
    requires tm.Valid()
  {
    if events == [] then "" else CallText(tm, events[0]) + CallsText(tm, events[1..])
  }

  /** One handler call other than text. */
  method CallSpec(w: Writer, k: Kind)
    requires w.tm.Valid()
    modifies w`out
    ensures w.out == old(w.out) + SpecText(w.tm, k)
  {
    hide YearText, TwoDigits, CenturyText, Triple, Padded, Text, DateTail, YearLower, SundayWeek, MondayWeek,
         Weeks.IsoWeekOfYear, IsoWeekYear, ShortWeekdayName, FullWeekdayName, ShortMonthName, FullMonthName,
         DateTimeText, SpacedDay, Hour12Of, AmPmText, OffsetText;
    match k {
      case Year => w.OnYear();
      case ShortYear => w.OnShortYear();
      case OffsetYear => w.OnShortYear();
      case Century => w.OnCentury();
      case IsoWeekBasedYear => w.OnIsoWeekBasedYear();
      case IsoWeekBasedShortYear => w.OnIsoWeekBasedShortYear();
      case AbbrWeekday => w.OnAbbrWeekday();
      case FullWeekday => w.OnFullWeekday();
      case Dec0Weekday => w.OnDec0Weekday();
      case Dec1Weekday => w.OnDec1Weekday();
      case AbbrMonth => w.OnAbbrMonth();
      case FullMonth => w.OnFullMonth();
      case DecMonth => w.OnDecMonth();
      case Dec0WeekOfYear => w.OnDec0WeekOfYear();
      case Dec1WeekOfYear => w.OnDec1WeekOfYear();
      case IsoWeekOfYear => w.OnIsoWeekOfYear();
      case DayOfYear => w.OnDayOfYear();
      case DayOfMonth => w.OnDayOfMonth();
      case DayOfMonthSpace => w.OnDayOfMonthSpace();
      case Hour24 => w.On24Hour();
      case Hour12 => w.On12Hour();
      case Minute => w.OnMinute();
      case Second => w.OnSecond();
      case DateTime => w.OnDateTime();
      case LocDate => w.OnUsDate();
      case LocTime => w.OnIsoTime();
      case UsDate => w.OnUsDate();
      case IsoDate => w.OnIsoDate();
      case Hour12Time => w.On12HourTime();
      case Hour24Time => w.On24HourTime();
      case IsoTime => w.OnIsoTime();
      case AmPm => w.OnAmPm();
      case DurationValue => assert w.out == w.out + "";
      case DurationUnit => assert w.out == w.out + "";
      case UtcOffset => w.OnUtcOffset();
      case TzName => w.OnTzName();
    }
  }

  /** One handler call. */
  method Call(w: Writer, e: Event)
    requires w.tm.Valid()
    modifies w`out
    ensures w.out == old(w.out) + CallText(w.tm, e)
  {
    hide SpecText, Tm.Valid;
    match e
    case OnText(t) => w.OnText(t);
    case OnSpec(k, _) => CallSpec(w, k);
  }

  /** The calls of one parse, in order. */
  method Calls(w: Writer, events: seq<Event>)
    requires w.tm.Valid()
    modifies w`out
    ensures w.out == old(w.out) + CallsText(w.tm, events)
  {
    hide CallText, Tm.Valid;
    ghost var before, done := w.out, "";
    assert events[0..] == events;
    for i := 0 to |events|
      invariant w.out == before + done
      invariant CallsText(w.tm, events) == done + CallsText(w.tm, events[i..])
    {
      assert events[i..][0] == events[i] && events[i..][1..] == events[i + 1..];
      Call(w, events[i]);
      done := done + CallText(w.tm, events[i]);
    }
  }

  /**
   * `formatter<std::tm>` parsing a range and then formatting: an accepted range
   * writes the text of the accepted calls, whether or not it takes a short cut.
   */
  method FormatTm(tm: Tm, bigEndian: bool, range: string) returns (ok: bool, text: string)
    requires tm.Valid()
    ensures ok == Checked(range).outcome.Parsed?
    ensures ok ==> text == CallsText(tm, Checked(range).events)
  {
    hide Checked, CallsText, Tm.Valid;
    var parsed, formatted := ParseAndFormat(range);
    if !parsed.outcome.Parsed? {
      return false, "";
    }
    var w := new Writer(tm, bigEndian, "");
    Calls(w, formatted.events);
    ok, text := true, w.out;
  }

  /** The formatter of time points, after the conversion to `tm`: an empty range means `%F %T`. */
  method FormatTimePoint(tm: Tm, bigEndian: bool, range: string) returns (ok: bool, text: string)
    requires tm.Valid()
    ensures ok == Checked(range).outcome.Parsed?
    ensures ok ==> text == CallsText(tm, Checked(if Checked(range).outcome.end == 0 then "%F %T" else range).events)
  {
    DefaultParses();
    hide Checked, CallsText, Tm.Valid;
    var parsed, formatted := ParseAndFormatWithDefault(range);
    if !parsed.outcome.Parsed? {
      return false, "";
    }
    var w := new Writer(tm, bigEndian, "");
    Calls(w, formatted.events);
    ok, text := true, w.out;
  }

  // ---------- the text depends only on the atoms ----------

  function AtomText(tm: Tm, a: Atom): string
    requires tm.Valid()
  {
    match a
    case Chr(c) => [c]
    case Spec(k, _) => SpecText(tm, k)
  }

  function AtomsText(tm: Tm, atoms: seq<Atom>): string
    requires tm.Valid()
  {
    if atoms == [] then "" else AtomText(tm, atoms[0]) + AtomsText(tm, atoms[1..])
  }

  lemma {:induction false} AtomsTextConcat(tm: Tm, a: seq<Atom>, b: seq<Atom>)
    requires tm.Valid()
    ensures AtomsText(tm, a + b) == AtomsText(tm, a) + AtomsText(tm, b)
  {
    hide AtomText, Tm.Valid;
    if a == [] {
      assert a + b == b;
    } else {
      assert (a + b)[1..] == a[1..] + b;
      AtomsTextConcat(tm, a[1..], b);
    }
  }

  lemma {:induction false} CharsText(tm: Tm, t: string)
    requires tm.Valid()
    ensures AtomsText(tm, ChronoFormat.Chars(t)) == t
  {
    hide Tm.Valid, SpecText;
    CharsSplit(t);
    if t != "" {
      CharsText(tm, t[1..]);
      assert ChronoFormat.Chars(t)[1..] == ChronoFormat.Chars(t[1..]);
      assert [t[0]] + t[1..] == t;
    }
  }

  lemma {:induction false} TextOfAtoms(tm: Tm, events: seq<Event>)
    requires tm.Valid()
    ensures CallsText(tm, events) == AtomsText(tm, Flat(events))
  {
    hide Tm.Valid, SpecText;
    if events != [] {
      var e := events[0];
      TextOfAtoms(tm, events[1..]);
      AtomsTextConcat(tm, Atoms(e), Flat(events[1..]));
      match e
      case OnText(t) => CharsText(tm, t);
      case OnSpec(k, system) =>
        assert Atoms(e)[1..] == [];
        assert SpecText(tm, k) + "" == SpecText(tm, k);
    }
  }

  /** The format is accepted and writes the text of the calls, for every date and time. */
  ghost predicate Writes(s: string, events: seq<Event>) {
    && Checked(s).outcome == Parsed(|s|)
    && forall tm: Tm | tm.Valid() :: CallsText(tm, Checked(s).events) == CallsText(tm, events)
  }

  /** Calls that can be printed and that the checker accepts. */
  ghost predicate Allowed(events: seq<Event>) {
    forall i :: 0 <= i < |events| ==> Printable(events[i]) && Accepts(TmChecker, events[i])
  }

  /**
   * Any list of calls, printed as a format string, is accepted, and formatting
   * with it writes the text of the calls.
   */
  lemma PrintedFormat(events: seq<Event>)
    requires Allowed(events)
    requires Print(events) == "" || Print(events)[0] != ':'
    ensures Writes(Print(events), events)
  {
    PrintThenParse(events);
    var r := Lex(Print(events), 0, 0);
    hide Lex, Printable, Print;
    FlatAccepts(r.events, events, TmChecker);
    HandledUnchanged(r, TmChecker);
    hide Handled;
    forall tm: Tm | tm.Valid() ensures CallsText(tm, r.events) == CallsText(tm, events) {
      TextOfAtoms(tm, r.events);
      TextOfAtoms(tm, events);
    }
  }

  // ---------- formats that mean the same ----------

  /** The two formats are accepted and write the same text for every date and time. */
  ghost predicate SameText(a: string, b: string) {
    && Checked(a).outcome == Parsed(|a|) && Checked(b).outcome == Parsed(|b|)
    && forall tm: Tm | tm.Valid() :: CallsText(tm, Checked(a).events) == CallsText(tm, Checked(b).events)
  }

  function Std(k: Kind): Event {
    OnSpec(k, Standard)
  }

  lemma SameCalls(a: string, p: seq<Event>, b: string, q: seq<Event>)
    requires Writes(a, p) && Writes(b, q)
    requires forall tm: Tm | tm.Valid() :: CallsText(tm, p) == CallsText(tm, q)
    ensures SameText(a, b)
  {
    hide Checked, CallsText, Tm.Valid;
  }

  /** A format of one specifier and a format of several that write the same. */
  lemma OneForMany(k: Kind, s: string, events: seq<Event>)
    requires TmChecker(k) && !k.OffsetYear?
    requires Allowed(events) && s == Print(events) && s != "" && s[0] != ':'
    requires forall tm: Tm | tm.Valid() :: CallsText(tm, events) == SpecText(tm, k)
    ensures SameText(['%', Letter(k)], s)
  {
    var one := [Std(k)];
    OneCall(k);
    hide Letter, Print, Printable, SpecText, Tm.Valid, Writes, SameText, TmChecker, CallsText, Allowed;
    PrintedFormat(one);
    PrintedFormat(events);
    forall tm: Tm | tm.Valid() ensures CallsText(tm, one) == CallsText(tm, events) {
      OneText(tm, k);
    }
    SameCalls(['%', Letter(k)], one, s, events);
  }

  lemma OneText(tm: Tm, k: Kind)
    requires tm.Valid()
    ensures CallsText(tm, [Std(k)]) == SpecText(tm, k)
  {
    hide SpecText;
    assert [Std(k)][1..] == [];
    assert SpecText(tm, k) + "" == SpecText(tm, k);
  }

  lemma OneCall(k: Kind)
    requires !k.OffsetYear? && TmChecker(k)
    ensures Print([Std(k)]) == ['%', Letter(k)] && Allowed([Std(k)])
  {
    hide Letter;
    assert [Std(k)][1..] == [];
    assert ['%', Letter(k)] + "" == ['%', Letter(k)];
  }

  /** One specifier and one character of text before other calls. */
  function Sep(k: Kind, sep: char, rest: seq<Event>): seq<Event> {
    [Std(k), OnText([sep])] + rest
  }

  lemma SepPrints(k: Kind, sep: char, rest: seq<Event>)
    requires !k.OffsetYear? && sep != '%'
    ensures Print(Sep(k, sep, rest)) == ['%', Letter(k), sep] + Print(rest)
  {
    hide Letter;
    var events := Sep(k, sep, rest);
    assert events[1..] == [OnText([sep])] + rest && events[1..][1..] == rest;
    assert PrintText([sep]) == [sep] by {
      assert [sep][1..] == "";
    }
    assert ['%', Letter(k)] + ([sep] + Print(rest)) == ['%', Letter(k), sep] + Print(rest);
  }

  lemma SepText(tm: Tm, k: Kind, sep: char, rest: seq<Event>)
    requires tm.Valid()
    ensures CallsText(tm, Sep(k, sep, rest)) == SpecText(tm, k) + ([sep] + CallsText(tm, rest))
  {
    hide SpecText;
    var events := Sep(k, sep, rest);
    assert events[1..] == [OnText([sep])] + rest && events[1..][1..] == rest;
  }

  lemma SepAllowed(k: Kind, sep: char, rest: seq<Event>)
    requires TmChecker(k) && sep != '}' && Allowed(rest)
    ensures Allowed(Sep(k, sep, rest))
  {
  }

  lemma Triplet(j: Kind, sep: char, k: Kind, l: Kind)
    requires !j.OffsetYear? && !k.OffsetYear? && !l.OffsetYear? && TmChecker(j) && TmChecker(k) && TmChecker(l)
    requires sep != '%' && sep != '}'
    ensures var events := Sep(j, sep, Sep(k, sep, [Std(l)]));
            && Allowed(events)
            && Print(events) == ['%', Letter(j), sep, '%', Letter(k), sep, '%', Letter(l)]
            && forall tm: Tm | tm.Valid() ::
                 CallsText(tm, events) == SpecText(tm, j) + ([sep] + (SpecText(tm, k) + ([sep] + SpecText(tm, l))))
  {
    OneCall(l);
    SepPrints(k, sep, [Std(l)]);
    SepPrints(j, sep, Sep(k, sep, [Std(l)]));
    SepAllowed(k, sep, [Std(l)]);
    SepAllowed(j, sep, Sep(k, sep, [Std(l)]));
    hide Letter, SpecText, CallsText, Print, Allowed, Sep, Tm.Valid;
    forall tm: Tm | tm.Valid()
      ensures CallsText(tm, Sep(j, sep, Sep(k, sep, [Std(l)])))
           == SpecText(tm, j) + ([sep] + (SpecText(tm, k) + ([sep] + SpecText(tm, l))))
    {
      OneText(tm, l);
      SepText(tm, k, sep, [Std(l)]);
      SepText(tm, j, sep, Sep(k, sep, [Std(l)]));
    }
  }

  lemma Letters()
    ensures Letter(Year) == 'Y' && Letter(DecMonth) == 'm' && Letter(DayOfMonth) == 'd' && Letter(ShortYear) == 'y'
    ensures Letter(Hour24) == 'H' && Letter(Hour12) == 'I' && Letter(Minute) == 'M' && Letter(Second) == 'S'
    ensures Letter(AmPm) == 'p' && Letter(AbbrWeekday) == 'a' && Letter(AbbrMonth) == 'b' && Letter(DayOfMonthSpace) == 'e'
    ensures Letter(IsoDate) == 'F' && Letter(UsDate) == 'D' && Letter(IsoTime) == 'T' && Letter(Hour24Time) == 'R'
    ensures Letter(Hour12Time) == 'r' && Letter(DateTime) == 'c' && Letter(LocDate) == 'x' && Letter(LocTime) == 'X'
  {
    DateLetters();
    TimeLetters();
    CompositeLetters();
    hide Letter;
  }

  lemma DateLetters()
    ensures Letter(Year) == 'Y' && Letter(DecMonth) == 'm' && Letter(DayOfMonth) == 'd' && Letter(ShortYear) == 'y'
    ensures Letter(AbbrWeekday) == 'a' && Letter(AbbrMonth) == 'b' && Letter(DayOfMonthSpace) == 'e'
  {
  }

  lemma TimeLetters()
    ensures Letter(Hour24) == 'H' && Letter(Hour12) == 'I' && Letter(Minute) == 'M' && Letter(Second) == 'S' && Letter(AmPm) == 'p'
  {
  }

  lemma CompositeLetters()
    ensures Letter(IsoDate) == 'F' && Letter(UsDate) == 'D' && Letter(IsoTime) == 'T' && Letter(Hour24Time) == 'R'
    ensures Letter(Hour12Time) == 'r' && Letter(DateTime) == 'c' && Letter(LocDate) == 'x' && Letter(LocTime) == 'X'
  {
  }

  /** `%F` */
  lemma IsoDates()
    ensures SameText("%F", "%Y-%m-%d")
  {
    Triplet(Year, '-', DecMonth, DayOfMonth);
    hide Letter;
    Letters();
    hide Print, Allowed, Sep, CallsText, SameText, SpecText, Tm.Valid;
    forall tm: Tm | tm.Valid()
      ensures SpecText(tm, Year) + ("-" + (SpecText(tm, DecMonth) + ("-" + SpecText(tm, DayOfMonth)))) == SpecText(tm, IsoDate)
    {
      IsoDateParts(tm);
    }
    OneForMany(IsoDate, "%Y-%m-%d", Sep(Year, '-', Sep(DecMonth, '-', [Std(DayOfMonth)])));
  }

  lemma IsoDateParts(tm: Tm)
    requires tm.Valid()
    ensures SpecText(tm, Year) + ("-" + (SpecText(tm, DecMonth) + ("-" + SpecText(tm, DayOfMonth)))) == SpecText(tm, IsoDate)
  {
    hide YearText, TwoDigits;
    var y, m, d := YearText(tm.FullYear()), TwoDigits(tm.mon + 1), TwoDigits(tm.mday);
    assert y + ("-" + (m + ("-" + d))) == y + ("-" + m + "-" + d);
  }

  /** `%D` and, in the classic locale, `%x` */
  lemma UsDates()
    ensures SameText("%D", "%m/%d/%y") && SameText("%x", "%m/%d/%y")
  {
    Triplet(DecMonth, '/', DayOfMonth, ShortYear);
    hide Letter;
    Letters();
    hide Print, Allowed, Sep, CallsText, SameText, SpecText, Tm.Valid;
    forall tm: Tm | tm.Valid()
      ensures SpecText(tm, DecMonth) + ("/" + (SpecText(tm, DayOfMonth) + ("/" + SpecText(tm, ShortYear))))
           == SpecText(tm, UsDate) == SpecText(tm, LocDate)
    {
      UsDateParts(tm);
    }
    var events := Sep(DecMonth, '/', Sep(DayOfMonth, '/', [Std(ShortYear)]));
    OneForMany(UsDate, "%m/%d/%y", events);
    OneForMany(LocDate, "%m/%d/%y", events);
  }

  lemma UsDateParts(tm: Tm)
    requires tm.Valid()
    ensures SpecText(tm, DecMonth) + ("/" + (SpecText(tm, DayOfMonth) + ("/" + SpecText(tm, ShortYear))))
         == SpecText(tm, UsDate) == SpecText(tm, LocDate)
  {
    hide TwoDigits;
    Regroup3(TwoDigits(tm.mon + 1), '/', TwoDigits(tm.mday), TwoDigits(YearLower(tm.FullYear())));
  }

  lemma Regroup3(a: string, sep: char, b: string, c: string)
    ensures a + ([sep] + (b + ([sep] + c))) == a + [sep] + b + [sep] + c
  {
  }

  /** `%T` and, in the classic locale, `%X` */
  lemma IsoTimes()
    ensures SameText("%T", "%H:%M:%S") && SameText("%X", "%H:%M:%S")
  {
    Triplet(Hour24, ':', Minute, Second);
    hide Letter;
    Letters();
    hide Print, Allowed, Sep, CallsText, SameText, SpecText, Tm.Valid;
    forall tm: Tm | tm.Valid()
      ensures SpecText(tm, Hour24) + (":" + (SpecText(tm, Minute) + (":" + SpecText(tm, Second))))
           == SpecText(tm, IsoTime) == SpecText(tm, LocTime)
    {
      IsoTimeParts(tm);
    }
    var events := Sep(Hour24, ':', Sep(Minute, ':', [Std(Second)]));
    OneForMany(IsoTime, "%H:%M:%S", events);
    OneForMany(LocTime, "%H:%M:%S", events);
  }

  lemma IsoTimeParts(tm: Tm)
    requires tm.Valid()
    ensures SpecText(tm, Hour24) + (":" + (SpecText(tm, Minute) + (":" + SpecText(tm, Second))))
         == SpecText(tm, IsoTime) == SpecText(tm, LocTime)
  {
    hide TwoDigits;
    Regroup3(TwoDigits(tm.hour), ':', TwoDigits(tm.min), TwoDigits(tm.sec));
  }

  /** `%R` */
  lemma HoursAndMinutes()
    ensures SameText("%R", "%H:%M")
  {
    var events := Sep(Hour24, ':', [Std(Minute)]);
    OneCall(Minute);
    SepPrints(Hour24, ':', [Std(Minute)]);
    SepAllowed(Hour24, ':', [Std(Minute)]);
    hide Letter;
    Letters();
    hide Print, Allowed, Sep, CallsText, SameText, SpecText, Tm.Valid;
    forall tm: Tm | tm.Valid() ensures CallsText(tm, events) == SpecText(tm, Hour24Time) {
      OneText(tm, Minute);
      SepText(tm, Hour24, ':', [Std(Minute)]);
      HourMinuteParts(tm);
    }
    OneForMany(Hour24Time, "%H:%M", events);
  }

  lemma HourMinuteParts(tm: Tm)
    requires tm.Valid()
    ensures SpecText(tm, Hour24) + (":" + SpecText(tm, Minute)) == SpecText(tm, Hour24Time)
  {
    hide TwoDigits;
    assert TwoDigits(tm.hour) + (":" + TwoDigits(tm.min)) == TwoDigits(tm.hour) + ":" + TwoDigits(tm.min);
  }

  const TWELVE_HOURS: seq<Event> := Sep(Hour12, ':', Sep(Minute, ':', Sep(Second, ' ', [Std(AmPm)])))

  lemma TwelveHoursPrinted()
    ensures Allowed(TWELVE_HOURS) && Print(TWELVE_HOURS) == "%I:%M:%S %p"
  {
    var seconds := Sep(Second, ' ', [Std(AmPm)]);
    var minutes := Sep(Minute, ':', seconds);
    hide Letter;
    Letters();
    OneCall(AmPm);
    hide Print, Allowed, Sep;
    SepPrints(Second, ' ', [Std(AmPm)]);
    SepPrints(Minute, ':', seconds);
    SepPrints(Hour12, ':', minutes);
    SepAllowed(Second, ' ', [Std(AmPm)]);
    SepAllowed(Minute, ':', seconds);
    SepAllowed(Hour12, ':', minutes);
  }

  lemma TwelveHoursText(tm: Tm)
    requires tm.Valid()
    ensures CallsText(tm, TWELVE_HOURS) == SpecText(tm, Hour12Time)
  {
    var seconds := Sep(Second, ' ', [Std(AmPm)]);
    var minutes := Sep(Minute, ':', seconds);
    TwelveHourParts(tm);
    hide Sep, CallsText, SpecText;
    OneText(tm, AmPm);
    SepText(tm, Second, ' ', [Std(AmPm)]);
    SepText(tm, Minute, ':', seconds);
    SepText(tm, Hour12, ':', minutes);
  }

  lemma TwelveHourParts(tm: Tm)
    requires tm.Valid()
    ensures SpecText(tm, Hour12) + (":" + (SpecText(tm, Minute) + (":" + (SpecText(tm, Second) + (" " + SpecText(tm, AmPm))))))
         == SpecText(tm, Hour12Time)
  {
    hide TwoDigits, AmPmText;
    var h, m, s, p := TwoDigits(Hour12Of(tm.hour)), TwoDigits(tm.min), TwoDigits(tm.sec), AmPmText(tm.hour);
    assert h + (":" + (m + (":" + (s + (" " + p))))) == h + ":" + m + ":" + s + " " + p;
  }

  /** `%r` */
  lemma TwelveHourTimes()
    ensures SameText("%r", "%I:%M:%S %p")
  {
    TwelveHoursPrinted();
    hide Letter;
    Letters();
    hide Print, Allowed, Sep, CallsText, SameText, SpecText, Tm.Valid;
    forall tm: Tm | tm.Valid() ensures CallsText(tm, TWELVE_HOURS) == SpecText(tm, Hour12Time) {
      TwelveHoursText(tm);
    }
    OneForMany(Hour12Time, "%I:%M:%S %p", TWELVE_HOURS);
  }

  const DATE_TIME: seq<Event> :=
    Sep(AbbrWeekday, ' ', Sep(AbbrMonth, ' ', Sep(DayOfMonthSpace, ' ', Sep(IsoTime, ' ', [Std(Year)]))))

  const DAY_TIME: seq<Event> := Sep(DayOfMonthSpace, ' ', Sep(IsoTime, ' ', [Std(Year)]))

  lemma DayTimePrinted()
    ensures Allowed(DAY_TIME) && Print(DAY_TIME) == "%e %T %Y"
  {
    var time := Sep(IsoTime, ' ', [Std(Year)]);
    hide Letter;
    Letters();
    OneCall(Year);
    hide Print, Allowed, Sep;
    SepPrints(IsoTime, ' ', [Std(Year)]);
    SepPrints(DayOfMonthSpace, ' ', time);
    SepAllowed(IsoTime, ' ', [Std(Year)]);
    SepAllowed(DayOfMonthSpace, ' ', time);
  }

  lemma DateTimePrinted()
    ensures Allowed(DATE_TIME) && Print(DATE_TIME) == "%a %b %e %T %Y"
  {
    var month := Sep(AbbrMonth, ' ', DAY_TIME);
    hide Letter, Print, Allowed, Sep;
    Letters();
    DayTimePrinted();
    SepPrints(AbbrMonth, ' ', DAY_TIME);
    SepPrints(AbbrWeekday, ' ', month);
    SepAllowed(AbbrMonth, ' ', DAY_TIME);
    SepAllowed(AbbrWeekday, ' ', month);
  }

  lemma DateTimeTexts(tm: Tm)
    requires tm.Valid()
    ensures CallsText(tm, DATE_TIME) == SpecText(tm, DateTime)
  {
    var time := Sep(IsoTime, ' ', [Std(Year)]);
    var day := Sep(DayOfMonthSpace, ' ', time);
    var month := Sep(AbbrMonth, ' ', day);
    DateTimeParts(tm);
    hide Sep, CallsText, SpecText;
    OneText(tm, Year);
    SepText(tm, IsoTime, ' ', [Std(Year)]);
    SepText(tm, DayOfMonthSpace, ' ', time);
    SepText(tm, AbbrMonth, ' ', day);
    SepText(tm, AbbrWeekday, ' ', month);
  }

  lemma DateTimeParts(tm: Tm)
    requires tm.Valid()
    ensures SpecText(tm, AbbrWeekday) + (" " + (SpecText(tm, AbbrMonth) + (" " + (SpecText(tm, DayOfMonthSpace)
            + (" " + (SpecText(tm, IsoTime) + (" " + SpecText(tm, Year))))))))
         == SpecText(tm, DateTime)
  {
    hide ShortWeekdayName, ShortMonthName, SpacedDay, Triple, YearText;
    var w, b, d, t, y := ShortWeekdayName(tm.wday), ShortMonthName(tm.mon), SpacedDay(tm.mday),
                         Triple(tm.hour, tm.min, tm.sec, ':'), YearText(tm.FullYear());
    assert w + (" " + (b + (" " + (d + (" " + (t + (" " + y))))))) == w + " " + b + " " + d + " " + t + " " + y;
  }

  /** `%c` */
  lemma DatesAndTimes()
    ensures SameText("%c", "%a %b %e %T %Y")
  {
    DateTimePrinted();
    hide Letter;
    Letters();
    hide Print, Allowed, Sep, CallsText, SameText, SpecText, Tm.Valid;
    forall tm: Tm | tm.Valid() ensures CallsText(tm, DATE_TIME) == SpecText(tm, DateTime) {
      DateTimeTexts(tm);
    }
    OneForMany(DateTime, "%a %b %e %T %Y", DATE_TIME);
  }

  /** `%Y` */
  lemma Years()
    ensures SameText("%Y", "%C%y")
  {
    var events := [Std(Century), Std(ShortYear)];
    OneCall(ShortYear);
    assert events[1..] == [Std(ShortYear)];
    assert Print(events) == "%C%y";
    hide Print, SameText;
    forall tm: Tm | tm.Valid() ensures CallsText(tm, events) == SpecText(tm, Year) {
      OneText(tm, ShortYear);
      CenturyThenYear(tm.FullYear());
      hide TwoDigits, YearText, CenturyText;
    }
    OneForMany(Year, "%C%y", events);
  }

  /**
   * Every composite specifier writes what its parts write, and `%Y` is `%C%y`.
   */
  lemma FormatsAgree()
    ensures SameText("%F", "%Y-%m-%d")
    ensures SameText("%D", "%m/%d/%y") && SameText("%x", "%m/%d/%y")
    ensures SameText("%T", "%H:%M:%S") && SameText("%X", "%H:%M:%S")
    ensures SameText("%R", "%H:%M") && SameText("%r", "%I:%M:%S %p")
    ensures SameText("%c", "%a %b %e %T %Y") && SameText("%Y", "%C%y")
  {
    hide SameText;
    IsoDates();
    UsDates();
    IsoTimes();
    HoursAndMinutes();
    TwelveHourTimes();
    DatesAndTimes();
    Years();
  }

  // ---------- every specifier as a format of its own ----------

  /** The whole range `spec` is accepted and writes t for the date and time. */
  ghost predicate Shows(spec: string, tm: Tm, t: string)
    requires tm.Valid()
  {
    Checked(spec).outcome == Parsed(|spec|) && CallsText(tm, Checked(spec).events) == t
  }

  lemma CheckedOne(s: string, e: Event)
    requires s != "" && s[0] == '%' && Lex(s, 0, 0) == Result([e], Parsed(|s|)) && Accepts(TmChecker, e)
    ensures Checked(s) == Result([e], Parsed(|s|))
  {
    HandledUnchanged(Lex(s, 0, 0), TmChecker);
    hide Lex;
  }

  lemma OneCallText(tm: Tm, e: Event)
    requires tm.Valid() && e.OnSpec?
    ensures CallsText(tm, [e]) == SpecText(tm, e.kind)
  {
    hide SpecText;
    assert [e][1..] == [];
    assert SpecText(tm, e.kind) + "" == SpecText(tm, e.kind);
  }

  /** `%` and one letter. */
  lemma PlainShows(c: char, k: Kind, tm: Tm)
    requires tm.Valid() && Plain(c) == Some(k) && TmChecker(k) && c !in {'%', 'n', 't', 'E', 'O'}
    ensures Shows(['%', c], tm, SpecText(tm, k))
  {
    OneSpec(['%', c], k);
    hide Lex, Checked, SpecText, CallsText, Plain;
    CheckedOne(['%', c], Std(k));
    OneCallText(tm, Std(k));
  }

  lemma YearLetters()
    ensures Plain('Y') == Some(Year) && Plain('y') == Some(ShortYear) && Plain('C') == Some(Century)
    ensures Plain('G') == Some(IsoWeekBasedYear) && Plain('g') == Some(IsoWeekBasedShortYear)
  {
  }

  lemma DayLetters()
    ensures Plain('m') == Some(DecMonth) && Plain('d') == Some(DayOfMonth) && Plain('e') == Some(DayOfMonthSpace)
    ensures Plain('j') == Some(DayOfYear) && Plain('w') == Some(Dec0Weekday) && Plain('u') == Some(Dec1Weekday)
    ensures Plain('U') == Some(Dec0WeekOfYear) && Plain('W') == Some(Dec1WeekOfYear) && Plain('V') == Some(IsoWeekOfYear)
  {
  }

  lemma NameLetters()
    ensures Plain('a') == Some(AbbrWeekday) && Plain('A') == Some(FullWeekday)
    ensures Plain('b') == Some(AbbrMonth) && Plain('h') == Some(AbbrMonth) && Plain('B') == Some(FullMonth)
    ensures Plain('z') == Some(UtcOffset) && Plain('Z') == Some(TzName)
  {
  }

  lemma ClockLetters()
    ensures Plain('H') == Some(Hour24) && Plain('I') == Some(Hour12) && Plain('M') == Some(Minute) && Plain('S') == Some(Second)
    ensures Plain('p') == Some(AmPm)
  {
  }

  /** The year, its last two digits, and the century that completes them to the year. */
  lemma YearFields(tm: Tm)
    requires tm.Valid()
    ensures var year, short := tm.FullYear(), Padded(if tm.FullYear() < 0 then -tm.FullYear() % 100 else tm.FullYear() % 100, 2);
            && Shows("%Y", tm, YearText(year)) && Shows("%y", tm, short)
            && Shows("%C", tm, CenturyText(year)) && CenturyText(year) + short == YearText(year)
  {
    YearLetters();
    hide Plain, Shows, YearText, CenturyText;
    var year := tm.FullYear();
    YearParts(year);
    SmallText(YearLower(year));
    CenturyThenYear(year);
    PlainShows('Y', Year, tm);
    PlainShows('y', ShortYear, tm);
    PlainShows('C', Century, tm);
    hide Padded, TwoDigits, YearLower;
  }

  /** Month, day of the month in both forms, and day of the year. */
  lemma DayFields(tm: Tm)
    requires tm.Valid()
    ensures Shows("%m", tm, Padded(tm.mon + 1, 2)) && Shows("%d", tm, Padded(tm.mday, 2))
    ensures Shows("%e", tm, if tm.mday < 10 then " " + Text(tm.mday) else Text(tm.mday))
    ensures Shows("%j", tm, Padded(tm.yday + 1, 3))
  {
    hide Plain, Shows, TwoDigits, Text, SpacedDay, Padded;
    DayLetters();
    SmallText(tm.mon + 1);
    SmallText(tm.mday);
    SpacedText(tm.mday);
    PlainShows('m', DecMonth, tm);
    PlainShows('d', DayOfMonth, tm);
    PlainShows('e', DayOfMonthSpace, tm);
    PlainShows('j', DayOfYear, tm);
  }

  lemma SpacedText(n: nat)
    requires n < 100
    ensures SpacedDay(n) == if n < 10 then " " + Text(n) else Text(n)
  {
    SmallText(n);
    TextLengths(n);
  }

  /** The numbers of Sundays and of Mondays that the year has had. */
  lemma WeekFields(tm: Tm)
    requires tm.Valid() && Consistent(tm.FullYear(), tm.yday, tm.wday)
    ensures Shows("%U", tm, Padded(CountWeekday(YearStart(tm.FullYear()), tm.yday, 0), 2))
    ensures Shows("%W", tm, Padded(CountWeekday(YearStart(tm.FullYear()), tm.yday, 1), 2))
  {
    DayLetters();
    hide Plain, Shows, CountWeekday, YearStart, Consistent, SundayWeek, MondayWeek;
    WeekNumbers(tm.FullYear(), tm.yday, tm.wday);
    SmallText(SundayWeek(tm.yday, tm.wday));
    SmallText(MondayWeek(tm.yday, tm.wday));
    hide TwoDigits, Padded;
    PlainShows('U', Dec0WeekOfYear, tm);
    PlainShows('W', Dec1WeekOfYear, tm);
  }

  /** The ISO year and week of the date, by its week's Thursday, wherever the formulas are right. */
  lemma IsoFields(tm: Tm, y: int, w: nat)
    requires tm.Valid() && Consistent(tm.FullYear(), tm.yday, tm.wday)
    requires IsoWeekIs(DayNumber(tm.FullYear(), tm.yday), y, w)
    requires tm.FullYear() >= 1 || !InWeek53(tm.FullYear(), tm.yday, tm.wday)
    ensures Shows("%V", tm, Padded(w, 2)) && Shows("%G", tm, YearText(y))
    ensures Shows("%g", tm, Padded(if y < 0 then -y % 100 else y % 100, 2))
  {
    YearLetters();
    DayLetters();
    var year := tm.FullYear();
    var iy, iw := IsoWeekYear(year, tm.yday, tm.wday), Weeks.IsoWeekOfYear(year, tm.yday, tm.wday);
    hide Plain, Shows, IsoWeekYear, Weeks.IsoWeekOfYear, InWeek53, IsoWeekIs, DayNumber, Consistent, YearText;
    IsoWeekIsCorrect(year, tm.yday, tm.wday);
    IsoWeekIsUnique(DayNumber(year, tm.yday), y, w, iy, iw);
    SmallText(w);
    YearParts(y);
    SmallText(YearLower(y));
    hide TwoDigits, Padded, YearLower;
    PlainShows('V', IsoWeekOfYear, tm);
    PlainShows('G', IsoWeekBasedYear, tm);
    PlainShows('g', IsoWeekBasedShortYear, tm);
  }

  const WEEKDAYS := ["Sunday", "Monday", "Tuesday", "Wednesday", "Thursday", "Friday", "Saturday"]

  const MONTHS := ["January", "February", "March", "April", "May", "June", "July", "August", "September", "October",
                   "November", "December"]

  /** The weekday as a number from Sunday and from Monday, and by name. */
  lemma WeekdayFields(tm: Tm)
    requires tm.Valid()
    ensures Shows("%w", tm, Text(tm.wday)) && Shows("%u", tm, Text(if tm.wday == 0 then 7 else tm.wday))
    ensures |WEEKDAYS[tm.wday]| >= 3
    ensures Shows("%A", tm, WEEKDAYS[tm.wday]) && Shows("%a", tm, WEEKDAYS[tm.wday][..3])
  {
    DayLetters();
    NameLetters();
    hide Plain, Shows, Text;
    assert FullWeekdayName(tm.wday) == WEEKDAYS[tm.wday];
    NamesAbbreviate(tm.wday, tm.wday);
    hide FullWeekdayName, ShortWeekdayName;
    PlainShows('w', Dec0Weekday, tm);
    PlainShows('u', Dec1Weekday, tm);
    PlainShows('A', FullWeekday, tm);
    PlainShows('a', AbbrWeekday, tm);
  }

  /** The month by name. */
  lemma MonthFields(tm: Tm)
    requires tm.Valid()
    ensures |MONTHS[tm.mon]| >= 3
    ensures Shows("%B", tm, MONTHS[tm.mon]) && Shows("%b", tm, MONTHS[tm.mon][..3]) && Shows("%h", tm, MONTHS[tm.mon][..3])
  {
    NameLetters();
    hide Plain, Shows;
    MonthNames(tm.mon);
    NamesAbbreviate(tm.mon, tm.mon);
    hide FullMonthName, ShortMonthName;
    PlainShows('B', FullMonth, tm);
    PlainShows('b', AbbrMonth, tm);
    PlainShows('h', AbbrMonth, tm);
  }

  lemma MonthNames(mon: int)
    requires 0 <= mon <= 11
    ensures FullMonthName(mon) == MONTHS[mon]
  {
  }

  /** Hour, minute and second. */
  lemma ClockFields(tm: Tm)
    requires tm.Valid()
    ensures Shows("%H", tm, Padded(tm.hour, 2)) && Shows("%M", tm, Padded(tm.min, 2)) && Shows("%S", tm, Padded(tm.sec, 2))
  {
    hide Plain, Shows, TwoDigits, Padded;
    ClockLetters();
    SmallText(tm.hour);
    SmallText(tm.min);
    SmallText(tm.sec);
    PlainShows('H', Hour24, tm);
    PlainShows('M', Minute, tm);
    PlainShows('S', Second, tm);
  }

  /** The hour on the 12-hour dial, and the half of the day. */
  lemma DialFields(tm: Tm)
    requires tm.Valid()
    ensures Shows("%I", tm, Padded(if tm.hour % 12 == 0 then 12 else tm.hour % 12, 2))
    ensures Shows("%p", tm, if tm.hour < 12 then "AM" else "PM")
  {
    hide Plain, Shows, TwoDigits, Padded, Hour12Of;
    ClockLetters();
    SmallText(Hour12Of(tm.hour));
    DialIsTwelveHour(tm.hour);
    PlainShows('I', Hour12, tm);
    PlainShows('p', AmPm, tm);
  }

  /** The UTC offset in hours and minutes, and the zone's name. */
  lemma ZoneFields(tm: Tm)
    requires tm.Valid()
    ensures var a := if tm.gmtoff < 0 then -tm.gmtoff else tm.gmtoff;
            a < 360_000 ==>
              Shows("%z", tm, (if tm.gmtoff < 0 then "-" else "+") + Padded(a / 3600, 2) + Padded(a / 60 % 60, 2))
    ensures Shows("%Z", tm, tm.zone)
  {
    hide Plain, Shows, OffsetText, Padded;
    NameLetters();
    PlainShows('z', UtcOffset, tm);
    PlainShows('Z', TzName, tm);
    var a := if tm.gmtoff < 0 then -tm.gmtoff else tm.gmtoff;
    if a < 360_000 {
      OffsetParts(tm.gmtoff);
    }
  }

  lemma HoursOfSeconds(a: nat)
    requires a < 360_000
    ensures a / 60 / 60 == a / 3600 < 100
  {
  }

  lemma SmallCast(v: nat)
    requires v < 100
    ensures UINT32.Cast(v) % 100 == v
  {
    hide IntType.Cast;
  }

  lemma OffsetParts(offset: int)
    requires -360_000 < offset < 360_000
    ensures var a := if offset < 0 then -offset else offset;
            OffsetText(offset) == (if offset < 0 then "-" else "+") + Padded(a / 3600, 2) + Padded(a / 60 % 60, 2)
  {
    var a: nat := Abs(offset);
    var h, m := a / 60 / 60, a / 60 % 60;
    HoursOfSeconds(a);
    SmallCast(h);
    hide Padded, TwoDigits, IntType.Cast;
    assert OffsetText(offset) == [if offset < 0 then '-' else '+'] + TwoDigits(h) + TwoDigits(m);
    hide OffsetText;
    SmallText(h);
    SmallText(m);
  }

  // ---------- modifiers make no difference in the classic locale ----------

  lemma ELetters()
    ensures AfterE('Y') == Some(OnSpec(Year, Alternative)) && AfterE('y') == Some(OnSpec(OffsetYear, Standard))
    ensures AfterE('C') == Some(OnSpec(Century, Alternative)) && AfterE('c') == Some(OnSpec(DateTime, Alternative))
    ensures AfterE('x') == Some(OnSpec(LocDate, Alternative)) && AfterE('X') == Some(OnSpec(LocTime, Alternative))
    ensures Plain('c') == Some(DateTime) && Plain('x') == Some(LocDate) && Plain('X') == Some(LocTime)
  {
  }

  lemma OLetters()
    ensures AfterO('y') == Some(OnSpec(ShortYear, Alternative)) && AfterO('m') == Some(OnSpec(DecMonth, Alternative))
    ensures AfterO('U') == Some(OnSpec(Dec0WeekOfYear, Alternative)) && AfterO('W') == Some(OnSpec(Dec1WeekOfYear, Alternative))
    ensures AfterO('V') == Some(OnSpec(IsoWeekOfYear, Alternative)) && AfterO('d') == Some(OnSpec(DayOfMonth, Alternative))
    ensures AfterO('e') == Some(OnSpec(DayOfMonthSpace, Alternative)) && AfterO('w') == Some(OnSpec(Dec0Weekday, Alternative))
    ensures AfterO('u') == Some(OnSpec(Dec1Weekday, Alternative)) && AfterO('H') == Some(OnSpec(Hour24, Alternative))
    ensures AfterO('I') == Some(OnSpec(Hour12, Alternative)) && AfterO('M') == Some(OnSpec(Minute, Alternative))
    ensures AfterO('S') == Some(OnSpec(Second, Alternative))
  {
  }

  /** A modified specifier writes what the plain one of the same kind writes; the offset year writes the short year. */
  lemma SameModified(mark: char, c: char, e: Event, k: Kind)
    requires (mark == 'E' && AfterE(c) == Some(e)) || (mark == 'O' && AfterO(c) == Some(e))
    requires Plain(c) == Some(k) && c !in {'%', 'n', 't', 'E', 'O'} && TmChecker(k)
    requires e.OnSpec? && (e.kind == k || (e.kind.OffsetYear? && k.ShortYear?))
    ensures SameText(['%', mark, c], ['%', c])
  {
    AlternativeSpec(['%', mark, c], mark, e);
    OneSpec(['%', c], k);
    hide Lex, Checked, CallsText, AfterE, AfterO, Plain, Tm.Valid;
    CheckedOne(['%', mark, c], e);
    CheckedOne(['%', c], Std(k));
    forall tm: Tm | tm.Valid() ensures CallsText(tm, [e]) == CallsText(tm, [Std(k)]) {
      OneCallText(tm, e);
      OneCallText(tm, Std(k));
      hide YearText, TwoDigits, CenturyText, Triple, DateTimeText;
    }
  }

  lemma EraForms()
    ensures SameText("%EY", "%Y") && SameText("%Ey", "%y") && SameText("%EC", "%C")
    ensures SameText("%Ec", "%c") && SameText("%Ex", "%x") && SameText("%EX", "%X")
  {
    ELetters();
    YearLetters();
    hide Plain, AfterE, AfterO, SameText;
    SameModified('E', 'Y', OnSpec(Year, Alternative), Year);
    SameModified('E', 'y', OnSpec(OffsetYear, Standard), ShortYear);
    SameModified('E', 'C', OnSpec(Century, Alternative), Century);
    SameModified('E', 'c', OnSpec(DateTime, Alternative), DateTime);
    SameModified('E', 'x', OnSpec(LocDate, Alternative), LocDate);
    SameModified('E', 'X', OnSpec(LocTime, Alternative), LocTime);
  }

  lemma AlternativeForms()
    ensures SameText("%Oy", "%y") && SameText("%Om", "%m") && SameText("%Od", "%d") && SameText("%Oe", "%e")
    ensures SameText("%OU", "%U") && SameText("%OW", "%W") && SameText("%OV", "%V")
    ensures SameText("%Ow", "%w") && SameText("%Ou", "%u")
    ensures SameText("%OH", "%H") && SameText("%OI", "%I") && SameText("%OM", "%M") && SameText("%OS", "%S")
  {
    hide SameText;
    AlternativeDates();
    AlternativeWeeks();
    AlternativeClock();
  }

  lemma AlternativeDates()
    ensures SameText("%Oy", "%y") && SameText("%Om", "%m") && SameText("%Od", "%d") && SameText("%Oe", "%e")
  {
    hide Plain, AfterE, AfterO, SameText;
    OLetters();
    YearLetters();
    DayLetters();
    SameModified('O', 'y', OnSpec(ShortYear, Alternative), ShortYear);
    SameModified('O', 'm', OnSpec(DecMonth, Alternative), DecMonth);
    SameModified('O', 'd', OnSpec(DayOfMonth, Alternative), DayOfMonth);
    SameModified('O', 'e', OnSpec(DayOfMonthSpace, Alternative), DayOfMonthSpace);
  }

  lemma AlternativeWeeks()
    ensures SameText("%OU", "%U") && SameText("%OW", "%W") && SameText("%OV", "%V")
    ensures SameText("%Ow", "%w") && SameText("%Ou", "%u")
  {
    hide Plain, AfterE, AfterO, SameText;
    OLetters();
    DayLetters();
    SameModified('O', 'U', OnSpec(Dec0WeekOfYear, Alternative), Dec0WeekOfYear);
    SameModified('O', 'W', OnSpec(Dec1WeekOfYear, Alternative), Dec1WeekOfYear);
    SameModified('O', 'V', OnSpec(IsoWeekOfYear, Alternative), IsoWeekOfYear);
    SameModified('O', 'w', OnSpec(Dec0Weekday, Alternative), Dec0Weekday);
    SameModified('O', 'u', OnSpec(Dec1Weekday, Alternative), Dec1Weekday);
  }

  lemma AlternativeClock()
    ensures SameText("%OH", "%H") && SameText("%OI", "%I") && SameText("%OM", "%M") && SameText("%OS", "%S")
  {
    hide Plain, AfterE, AfterO, SameText;
    OLetters();
    ClockLetters();
    SameModified('O', 'H', OnSpec(Hour24, Alternative), Hour24);
    SameModified('O', 'I', OnSpec(Hour12, Alternative), Hour12);
    SameModified('O', 'M', OnSpec(Minute, Alternative), Minute);
    SameModified('O', 'S', OnSpec(Second, Alternative), Second);
  }

  /** The specifiers of durations are rejected. */
  lemma DurationsRejected()
    ensures Checked("%Q") == Result([], Unsupported) && Checked("%q") == Result([], Unsupported)
  {
    OneSpec("%Q", DurationValue);
    OneSpec("%q", DurationUnit);
    hide Lex;
    HandledExactly(Result([Std(DurationValue)], Parsed(2)), TmChecker, 0);
    HandledExactly(Result([Std(DurationUnit)], Parsed(2)), TmChecker, 0);
  }

  // ---------- the same for the formatter's text ----------

  /** A range that shows t is formatted as t. */
  method FormatShown(tm: Tm, bigEndian: bool, range: string, ghost t: string) returns (text: string)
    requires tm.Valid() && Shows(range, tm, t)
    ensures text == t
  {
    hide Checked, CallsText;
    var ok;
    ok, text := FormatTm(tm, bigEndian, range);
  }

  /** `%U` and `%W` of a consistent date, as the formatter writes them. */
  method FormatWeeks(tm: Tm, bigEndian: bool) returns (sundays: string, mondays: string)
    requires tm.Valid() && Consistent(tm.FullYear(), tm.yday, tm.wday)
    ensures sundays == Padded(CountWeekday(YearStart(tm.FullYear()), tm.yday, 0), 2)
    ensures mondays == Padded(CountWeekday(YearStart(tm.FullYear()), tm.yday, 1), 2)
  {
    WeekFields(tm);
    hide Shows, CountWeekday, YearStart, Consistent, Padded;
    sundays := FormatShown(tm, bigEndian, "%U", Padded(CountWeekday(YearStart(tm.FullYear()), tm.yday, 0), 2));
    mondays := FormatShown(tm, bigEndian, "%W", Padded(CountWeekday(YearStart(tm.FullYear()), tm.yday, 1), 2));
  }
}
