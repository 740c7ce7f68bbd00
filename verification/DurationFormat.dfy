/** A duration formatted by a format string: the parser drives the duration writer. */
module DurationFormat {
  import opened Arith
  import opened Decimal
  import opened Ratio
  import opened SafeCast
  import opened TmWriter
  import opened Durations
  import opened Wrappers
  import opened ChronoFormat

  /** The calls that write a pending sign: not those that go through the `tm` writer. */
  predicate TakesSign(e: Event) {
    match e
    case OnText(_) => false
    case OnSpec(k, system) =>
      || ((k.Hour24? || k.Hour12? || k.Minute? || k.Second?) && system.Standard?)
      || k.Hour24Time? || k.IsoTime? || k.DurationValue?
  }

  /** What one call says, apart from the sign; the calls for dates do nothing. */
  function CallText(p: Parts, e: Event): string {
    match e
    case OnText(t) => t
    case OnSpec(k, system) => SpecText(p, k, system)
  }

  function SpecText(p: Parts, k: Kind, system: System): string {
    var c := p.clock;
    match k
    case Hour24 => Padded(c.hours, 2)
    case Hour12 => Padded(TwelveHour(c.hours), 2)
    case Minute => Padded(c.minutes, 2)
    case Second => if system.Standard? then c.SecondsText() else Padded(c.seconds, 2)
    case Hour12Time => c.TwelveHourText()
    case Hour24Time => Padded(c.hours, 2) + ":" + Padded(c.minutes, 2)
    case IsoTime => c.Body()
    case AmPm => AmPmText(c.hours)
    case DurationValue => Text(p.count)
    case DurationUnit => p.unit
    case _ => ""
  }

  /** What a list of calls writes: a pending sign comes once, before the first call that takes it. */
  function CallsText(p: Parts, pending: bool, events: seq<Event>): string {
    if events == [] then ""
    else
      var sign := pending && TakesSign(events[0]);
      Signed(sign, CallText(p, events[0])) + CallsText(p, pending && !sign, events[1..])
  }

  /** A negative duration shows its sign exactly if some call takes it, once, and right before the first such call. */
  lemma {:induction false} SignOnce(p: Parts, events: seq<Event>, i: nat)
    requires i <= |events| && forall j :: 0 <= j < i ==> !TakesSign(events[j])
    requires i < |events| ==> TakesSign(events[i])
    ensures CallsText(p, true, events)
         == CallsText(p, false, events[..i]) + (if i < |events| then "-" else "") + CallsText(p, false, events[i..])
  {
    hide CallText, TakesSign;
    if i == 0 {
      assert events[..0] == [] && events[0..] == events;
    } else {
      var first, rest := CallText(p, events[0]), events[1..];
      SignOnce(p, rest, i - 1);
      assert events[..i][0] == events[0] && events[..i][1..] == rest[..i - 1] && rest[i - 1..] == events[i..];
      var a, b := CallsText(p, false, rest[..i - 1]), CallsText(p, false, events[i..]);
      Unsigned(first);
      hide Signed;
      assert CallsText(p, true, events) == first + CallsText(p, true, rest);
      assert CallsText(p, false, events[..i]) == first + a;
      hide CallsText;
      assert first + (a + (if i < |events| then "-" else "") + b) == (first + a) + (if i < |events| then "-" else "") + b;
    }
  }

  lemma Unsigned(t: string)
    ensures Signed(false, t) == t
  {
  }

  /** One handler call other than text. */
  method CallSpec(f: ChronoFormatter, k: Kind, system: System)
    requires f.Valid()
    modifies f`out, f`negative
    ensures f.negative == (old(f.negative) && !TakesSign(OnSpec(k, system)))
    ensures f.out == old(f.out) + Signed(old(f.negative) && TakesSign(OnSpec(k, system)), SpecText(f.Shown(), k, system))
  {
    hide Padded, Text, AmPmText, TwelveHour, Signed, Clock.TwelveHourText, Clock.Body, Clock.SecondsText, ChronoFormatter.Valid, ChronoFormatter.Shown;
    Unsigned(SpecText(f.Shown(), k, system));
    assert f.out == f.out + "";
    match k {
      case Hour24 => f.On24Hour(system.Alternative?);
      case Hour12 => f.On12Hour(system.Alternative?);
      case Minute => f.OnMinute(system.Alternative?);
      case Second => f.OnSecond(system.Alternative?);
      case Hour12Time => f.On12HourTime();
      case Hour24Time => f.On24HourTime();
      case IsoTime => f.OnIsoTime();
      case AmPm => f.OnAmPm();
      case DurationValue => f.OnDurationValue();
      case DurationUnit => f.OnDurationUnit();
      case _ =>
    }
  }

  method Call(f: ChronoFormatter, e: Event)
    requires f.Valid()
    modifies f`out, f`negative
    ensures f.negative == (old(f.negative) && !TakesSign(e))
    ensures f.out == old(f.out) + Signed(old(f.negative) && TakesSign(e), CallText(f.Shown(), e))
  {
    hide SpecText, ChronoFormatter.Valid;
    match e
    case OnText(t) =>
      assert f.out == f.out + "";
      f.OnText(t);
    case OnSpec(k, system) => CallSpec(f, k, system);
  }

  lemma Regrouped(a: string, b: string, c: string)
    ensures (a + b) + c == a + (b + c)
  {
  }

  /** The calls of one parse, in order. */
  method Calls(f: ChronoFormatter, events: seq<Event>)
    requires f.Valid()
    modifies f`out, f`negative
    ensures f.out == old(f.out) + CallsText(f.Shown(), old(f.negative), events)
  {
    hide CallText, TakesSign, Signed, ChronoFormatter.Valid, ChronoFormatter.Shown;
    ghost var p, before := f.Shown(), f.out;
    ghost var all := CallsText(p, f.negative, events);
    ghost var done := "";
    assert events[0..] == events;
    for i := 0 to |events|
      invariant f.Valid() && f.Shown() == p
      invariant f.out == before + done
      invariant all == done + CallsText(p, f.negative, events[i..])
    {
      ghost var part := Signed(f.negative && TakesSign(events[i]), CallText(p, events[i]));
      assert events[i..][0] == events[i] && events[i..][1..] == events[i + 1..];
      ghost var rest := CallsText(p, f.negative && !TakesSign(events[i]), events[i + 1..]);
      assert CallsText(p, f.negative, events[i..]) == part + rest;
      Regrouped(done, part, rest);
      Regrouped(before, done, part);
      Call(f, events[i]);
      done := done + part;
    }
  }

  /**
   * The outcome of formatting: the writer does not compile for the period, the
   * constructor throws, or there is a text.
   */
  datatype Formatted = IllFormed | Throws | Written(text: string)

  /** The calls a duration's checker accepts on a range. */
  function Accepted(spec: string): Result {
    Handled(Lex(spec, 0, 0), DurationChecker)
  }

  /** The checked cast to whole seconds succeeds for the count. */
  predicate Castable(count: int, source: IntType, num: int, den: int)
    requires source.Valid() && den > 0
  {
    Representable(Abs(count), UnsignedRep(source), UnsignedRep(source), num, den)
  }

  /** The cast succeeds exactly if the product fits 64 bits and the seconds fit the unsigned type of the count. */
  lemma CastableExactly(count: int, source: IntType, num: int, den: int)
    requires source.Valid() && source.Fits(count) && 0 < num && 0 < den
    ensures Abs(count) * num >= 0
    ensures Castable(count, source, num, den) <==>
              && Abs(count) * num <= (if source.bits == 64 then 0xFFFF_FFFF_FFFF_FFFF else 0x7FFF_FFFF_FFFF_FFFF)
              && Abs(count) * num / den <= if source.bits == 64 then 0xFFFF_FFFF_FFFF_FFFF else 0xFFFF_FFFF
  {
    var rep, product := UnsignedRep(source), Abs(count) * num;
    IntermediateIs64Bits(rep, rep);
    MagnitudeFits(count, source);
    MulAtLeastZero(Abs(count), num);
    NatQuotientShrinks(product, den);
    hide Common, Intermediate;
    if product < Abs(count) {
      TimesAtLeast(Abs(count), num);
    }
  }

  lemma TimesAtLeast(a: nat, b: int)
    requires b >= 1
    ensures a * b >= a
  {
    MulAtLeastZero(a, b - 1);
    assert a * b == a * (b - 1) + a;
  }

  /**
   * A duration of `count` units of num/den seconds, formatted with the range that
   * its formatter saved: nothing, or what the checker has accepted.
   */
  method FormatDuration(count: int, source: IntType, num: int, den: int, spec: string, bigEndian: bool)
    returns (r: Formatted)
    requires source.Valid() && source.Fits(count) && IsPeriod(num, den)
    requires Accepted(spec).outcome == Parsed(|spec|)
    ensures r ==
            if !Formattable(num, den) then IllFormed
            else if spec == "" then Written(SignedText(count) + UnitText(num, den))
            else if !Castable(count, source, num, den) then Throws
            else Written(CallsText(PartsOf(Abs(count), num, den), count < 0, Accepted(spec).events))
  {
    hide Lex, Handled, CallsText, FractionalDigits, Gcd, UnitText, SignedText;
    if FractionalDigits(num, den, 0).None? {
      return IllFormed;
    }
    if spec == "" {
      return Written(SignedText(count) + UnitText(num, den));
    }
    AcceptedTwice(spec);
    var f := new ChronoFormatter(count, source, num, den, bigEndian);
    if f.failed {
      return Throws;
    }
    var calls := ParseChronoFormat(spec, AnyWriter);
    Calls(f, calls.events);
    r := Written(f.out);
  }

  /** The second parse of an accepted range makes the accepted calls. */
  lemma AcceptedTwice(spec: string)
    requires Accepted(spec).outcome == Parsed(|spec|)
    ensures Handled(Lex(spec, 0, 0), AnyWriter) == Accepted(spec)
  {
    DurationPassesAgree(spec);
    assert spec[..|spec|] == spec;
  }

  // ---------- `%T`, `%H:%M:%S` and `%Q%q` ----------

  const ISO_CALLS: seq<Event> := [OnSpec(IsoTime, Standard)]

  const FIELD_CALLS: seq<Event> := [
    OnSpec(Hour24, Standard), OnText(":"), OnSpec(Minute, Standard), OnText(":"), OnSpec(Second, Standard)
  ]

  const VALUE_CALLS: seq<Event> := [OnSpec(DurationValue, Standard), OnSpec(DurationUnit, Standard)]

  lemma TimeSpecs()
    ensures Accepted("%T") == Result(ISO_CALLS, Parsed(2))
    ensures Accepted("%H:%M:%S") == Result(FIELD_CALLS, Parsed(8))
    ensures Accepted("%Q%q") == Result(VALUE_CALLS, Parsed(4))
  {
    IsoSpec();
    FieldsSpec();
    ValueSpec();
  }

  lemma IsoSpec()
    ensures Accepted("%T") == Result(ISO_CALLS, Parsed(2))
  {
    OneSpec("%T", IsoTime);
    hide Lex, Accepted;
    AcceptedWhole("%T", ISO_CALLS);
  }

  lemma FieldsSpec()
    ensures Accepted("%H:%M:%S") == Result(FIELD_CALLS, Parsed(8))
  {
    ThreeSpecs("%H:%M:%S", Hour24, Minute, Second, ':');
    hide Lex, Accepted;
    AcceptedWhole("%H:%M:%S", FIELD_CALLS);
  }

  lemma ValueSpec()
    ensures Accepted("%Q%q") == Result(VALUE_CALLS, Parsed(4))
  {
    TwoSpecs("%Q%q", DurationValue, DurationUnit);
    hide Lex, Accepted;
    AcceptedWhole("%Q%q", VALUE_CALLS);
  }

  lemma AcceptedWhole(spec: string, events: seq<Event>)
    requires Lex(spec, 0, 0) == Result(events, Parsed(|spec|))
    requires forall i :: 0 <= i < |events| ==> Accepts(DurationChecker, events[i])
    ensures Accepted(spec) == Result(events, Parsed(|spec|))
  {
    HandledUnchanged(Lex(spec, 0, 0), DurationChecker);
  }

  /** `%Q%q` writes what the empty format writes. */
  lemma ValueAndUnit(count: int, num: nat, den: nat)
    requires Formattable(num, den)
    ensures CallsText(PartsOf(Abs(count), num, den), count < 0, VALUE_CALLS) == SignedText(count) + UnitText(num, den)
  {
    hide Text, UnitText, FractionalDigits, Gcd, Scaled;
    var p := PartsOf(Abs(count), num, den);
    assert VALUE_CALLS[1..] == [VALUE_CALLS[1]] && VALUE_CALLS[1..][1..] == [];
    assert CallsText(p, false, VALUE_CALLS[1..]) == p.unit;
  }

  lemma IsoText(p: Parts, pending: bool)
    requires !p.clock.negative
    ensures CallsText(p, pending, ISO_CALLS) == p.clock.(negative := pending).ToText()
  {
    hide Padded;
    var sign := if pending then "-" else "";
    assert ISO_CALLS[1..] == [];
    assert sign + p.clock.Body() + "" == sign + p.clock.Body();
  }

  lemma FieldsText(p: Parts, pending: bool)
    requires !p.clock.negative
    ensures CallsText(p, pending, FIELD_CALLS) == p.clock.(negative := pending).ToText()
  {
    var c := p.clock;
    var sign := if pending then "-" else "";
    assert c.(negative := pending).Body() == c.Body();
    HoursFirst(p, pending);
    SecondsLast(c);
    hide CallsText, Padded, Clock.SecondsText, Clock.Body;
    Regroup(sign, Padded(c.hours, 2), Padded(c.minutes, 2), c.SecondsText());
  }

  lemma Regroup(sign: string, h: string, m: string, z: string)
    ensures sign + h + (":" + m + ":" + z) == sign + (h + ":" + m + ":" + z)
  {
  }

  lemma HoursFirst(p: Parts, pending: bool)
    ensures CallsText(p, pending, FIELD_CALLS)
         == (if pending then "-" else "") + Padded(p.clock.hours, 2)
            + (":" + Padded(p.clock.minutes, 2) + ":" + p.clock.SecondsText())
  {
    hide Padded, Clock.SecondsText;
    MinutesAndSeconds(p);
    assert FIELD_CALLS[1..] == [FIELD_CALLS[1], FIELD_CALLS[2], FIELD_CALLS[3], FIELD_CALLS[4]];
  }

  lemma MinutesAndSeconds(p: Parts)
    ensures CallsText(p, false, [FIELD_CALLS[1], FIELD_CALLS[2], FIELD_CALLS[3], FIELD_CALLS[4]])
         == ":" + Padded(p.clock.minutes, 2) + ":" + p.clock.SecondsText()
  {
    assert CallText(p, FIELD_CALLS[2]) == Padded(p.clock.minutes, 2) && CallText(p, FIELD_CALLS[4]) == p.clock.SecondsText();
    assert CallsText(p, false, []) == "";
    hide CallsText, CallText, Padded, Clock.SecondsText;
    AfterColon(p, FIELD_CALLS[4], []);
    AfterColon(p, FIELD_CALLS[2], [FIELD_CALLS[3], FIELD_CALLS[4]]);
    assert [FIELD_CALLS[3], FIELD_CALLS[4]] + [] == [FIELD_CALLS[3], FIELD_CALLS[4]];
    assert [FIELD_CALLS[1], FIELD_CALLS[2]] + [FIELD_CALLS[3], FIELD_CALLS[4]]
        == [FIELD_CALLS[1], FIELD_CALLS[2], FIELD_CALLS[3], FIELD_CALLS[4]];
  }

  lemma AfterColon(p: Parts, e: Event, rest: seq<Event>)
    ensures CallsText(p, false, [OnText(":"), e] + rest) == ":" + CallText(p, e) + CallsText(p, false, rest)
  {
    var events := [OnText(":"), e] + rest;
    assert CallText(p, events[0]) == ":";
    Unsigned(":");
    Unsigned(CallText(p, e));
    hide CallText, Signed, TakesSign;
    assert events[1..] == [e] + rest && events[1..][1..] == rest;
    Regrouped(":", CallText(p, e), CallsText(p, false, rest));
  }

  /**
   * Formatted with `%T` or with `%H:%M:%S`, for every count and every period: the
   * writer compiles exactly for the periods above, it throws exactly when the
   * checked cast fails, and otherwise the text denotes the duration.
   */
  method FormatTime(count: int, source: IntType, num: int, den: int, iso: bool, bigEndian: bool) returns (r: Formatted)
    requires source.Valid() && source.Fits(count) && IsPeriod(num, den)
    ensures r.IllFormed? <==> !Formattable(num, den)
    ensures r.Throws? <==> Formattable(num, den) && !Castable(count, source, num, den)
    ensures r.Written? ==> Denotes(r.text, count, num, den)
  {
    TimeSpecs();
    if Formattable(num, den) {
      ClockDenotes(count, num, den);
      IsoText(PartsOf(Abs(count), num, den), count < 0);
      FieldsText(PartsOf(Abs(count), num, den), count < 0);
    }
    hide CallsText, Accepted, Clock.ToText, Denotes, FractionalDigits, Gcd, UnitText, Castable, Scaled;
    r := FormatDuration(count, source, num, den, if iso then "%T" else "%H:%M:%S", bigEndian);
  }

  // ---------- every specifier as a format of its own ----------

  /** Formatting a duration with the parts p, which may be negative, with the whole range `spec` writes t. */
  ghost predicate Prints(spec: string, p: Parts, negative: bool, t: string) {
    Accepted(spec).outcome == Parsed(|spec|) && CallsText(p, negative, Accepted(spec).events) == t
  }

  lemma OneCallText(p: Parts, negative: bool, e: Event)
    ensures CallsText(p, negative, [e]) == Signed(negative && TakesSign(e), CallText(p, e))
  {
    hide CallText, TakesSign;
    var t := Signed(negative && TakesSign(e), CallText(p, e));
    assert [e][1..] == [];
    assert t + "" == t;
  }

  /** `%` and one letter. */
  lemma PlainPrints(c: char, k: Kind, p: Parts, negative: bool)
    requires Plain(c) == Some(k) && DurationChecker(k) && c !in {'%', 'n', 't', 'E', 'O'}
    ensures Prints(['%', c], p, negative,
                   Signed(negative && TakesSign(OnSpec(k, Standard)), SpecText(p, k, Standard)))
  {
    var e := OnSpec(k, Standard);
    OneSpec(['%', c], k);
    hide Lex, Accepted, SpecText, TakesSign, CallsText, Plain;
    AcceptedWhole(['%', c], [e]);
    OneCallText(p, negative, e);
  }

  /** `%O` and one letter. */
  lemma AlternativePrints(c: char, k: Kind, p: Parts, negative: bool)
    requires AfterO(c) == Some(OnSpec(k, Alternative)) && DurationChecker(k)
    ensures Prints(['%', 'O', c], p, negative,
                   Signed(negative && TakesSign(OnSpec(k, Alternative)), SpecText(p, k, Alternative)))
  {
    var e := OnSpec(k, Alternative);
    AlternativeSpec(['%', 'O', c], 'O', e);
    hide Lex, Accepted, SpecText, TakesSign, CallsText, AfterO;
    AcceptedWhole(['%', 'O', c], [e]);
    OneCallText(p, negative, e);
  }

  lemma TimeLetters()
    ensures Plain('H') == Some(Hour24) && Plain('I') == Some(Hour12) && Plain('M') == Some(Minute) && Plain('S') == Some(Second)
    ensures Plain('R') == Some(Hour24Time) && Plain('T') == Some(IsoTime) && Plain('Q') == Some(DurationValue)
  {
  }

  lemma OtherLetters()
    ensures Plain('r') == Some(Hour12Time) && Plain('p') == Some(AmPm) && Plain('q') == Some(DurationUnit)
    ensures AfterO('H') == Some(OnSpec(Hour24, Alternative)) && AfterO('I') == Some(OnSpec(Hour12, Alternative))
    ensures AfterO('M') == Some(OnSpec(Minute, Alternative)) && AfterO('S') == Some(OnSpec(Second, Alternative))
  {
  }

  /** The fields that carry the sign of a negative duration, each by itself. */
  lemma SignedFields(p: Parts, negative: bool)
    ensures var sign, c := if negative then "-" else "", p.clock;
            && Prints("%H", p, negative, sign + Padded(c.hours, 2))
            && Prints("%I", p, negative, sign + Padded(if c.hours % 12 == 0 then 12 else c.hours % 12, 2))
            && Prints("%M", p, negative, sign + Padded(c.minutes, 2))
            && Prints("%S", p, negative,
                      sign + (Padded(c.seconds, 2) + if c.digits > 0 then "." + Padded(c.fraction, c.digits) else ""))
  {
    hide Plain, Prints, Padded;
    TimeLetters();
    PlainPrints('H', Hour24, p, negative);
    PlainPrints('I', Hour12, p, negative);
    PlainPrints('M', Minute, p, negative);
    PlainPrints('S', Second, p, negative);
  }

  /** The composite fields and the count carry the sign, too. */
  lemma SignedComposites(p: Parts, negative: bool)
    ensures var sign, c := if negative then "-" else "", p.clock;
            && Prints("%R", p, negative, sign + (Padded(c.hours, 2) + ":" + Padded(c.minutes, 2)))
            && Prints("%T", p, negative,
                      sign + (Padded(c.hours, 2) + ":" + Padded(c.minutes, 2) + ":" + Padded(c.seconds, 2)
                              + if c.digits > 0 then "." + Padded(c.fraction, c.digits) else ""))
            && Prints("%Q", p, negative, sign + Text(p.count))
  {
    hide Plain, Prints, Padded, Text;
    TimeLetters();
    PlainPrints('R', Hour24Time, p, negative);
    PlainPrints('T', IsoTime, p, negative);
    PlainPrints('Q', DurationValue, p, negative);
  }

  /** The fields that the `tm` writer prints, and the unit, never carry a sign. */
  lemma UnsignedFields(p: Parts, negative: bool)
    ensures var c := p.clock;
            var dial := if c.hours % 12 == 0 then 12 else c.hours % 12;
            var half := if c.hours < 12 then "AM" else "PM";
            && Prints("%r", p, negative,
                      Padded(dial, 2) + ":" + Padded(c.minutes, 2) + ":" + Padded(c.seconds, 2) + " " + half)
            && Prints("%p", p, negative, half)
            && Prints("%q", p, negative, p.unit)
  {
    hide Plain, AfterO, Prints, Padded, Signed;
    OtherLetters();
    PlainPrints('r', Hour12Time, p, negative);
    PlainPrints('p', AmPm, p, negative);
    PlainPrints('q', DurationUnit, p, negative);
    Unsigned(SpecText(p, Hour12Time, Standard));
    Unsigned(SpecText(p, AmPm, Standard));
    Unsigned(SpecText(p, DurationUnit, Standard));
  }

  /** The alternative numeric system: the same numbers, no sign, and no fraction. */
  lemma AlternativeFields(p: Parts, negative: bool)
    ensures var c := p.clock;
            && Prints("%OH", p, negative, Padded(c.hours, 2))
            && Prints("%OI", p, negative, Padded(if c.hours % 12 == 0 then 12 else c.hours % 12, 2))
            && Prints("%OM", p, negative, Padded(c.minutes, 2))
            && Prints("%OS", p, negative, Padded(c.seconds, 2))
  {
    hide Plain, AfterO, Prints, Padded, Signed;
    OtherLetters();
    AlternativePrints('H', Hour24, p, negative);
    AlternativePrints('I', Hour12, p, negative);
    AlternativePrints('M', Minute, p, negative);
    AlternativePrints('S', Second, p, negative);
    Unsigned(SpecText(p, Hour24, Alternative));
    Unsigned(SpecText(p, Hour12, Alternative));
    Unsigned(SpecText(p, Minute, Alternative));
    Unsigned(SpecText(p, Second, Alternative));
  }

  /** The letters that name a part of a date, or of a zone. */
  const DATE_LETTERS := "YyCGgaAwubhBm"
  const MORE_DATE_LETTERS := "UWVjdecxXDFzZ"

  /** A duration's checker rejects every specifier of a date or zone. */
  lemma DatesRejected(i: nat)
    requires i < 13
    ensures Accepted(['%', DATE_LETTERS[i]]) == Result([], Unsupported)
    ensures Accepted(['%', MORE_DATE_LETTERS[i]]) == Result([], Unsupported)
  {
    var c, d := DATE_LETTERS[i], MORE_DATE_LETTERS[i];
    DateLetter(i);
    MoreDateLetter(i);
    hide Plain;
    PlainRejected(c);
    PlainRejected(d);
  }

  /** With a modifier, too. */
  lemma AlternativeDatesRejected(c: char)
    ensures c in "YyCcxX" ==> Accepted(['%', 'E', c]) == Result([], Unsupported)
    ensures c in "ymUWVdewu" ==> Accepted(['%', 'O', c]) == Result([], Unsupported)
  {
    if c in "YyCcxX" {
      DateLetterE(c);
      AlternativeRejected('E', c);
    }
    if c in "ymUWVdewu" {
      DateLetterO(c);
      AlternativeRejected('O', c);
    }
  }

  lemma DateLetter(i: nat)
    requires i < 13
    ensures var c := DATE_LETTERS[i];
            Plain(c).Some? && !DurationChecker(Plain(c).value) && c !in {'%', 'n', 't', 'E', 'O'}
  {
  }

  lemma MoreDateLetter(i: nat)
    requires i < 13
    ensures var c := MORE_DATE_LETTERS[i];
            Plain(c).Some? && !DurationChecker(Plain(c).value) && c !in {'%', 'n', 't', 'E', 'O'}
  {
  }

  lemma DateLetterE(c: char)
    requires c in "YyCcxX"
    ensures AfterE(c).Some? && !Accepts(DurationChecker, AfterE(c).value)
  {
  }

  lemma DateLetterO(c: char)
    requires c in "ymUWVdewu"
    ensures AfterO(c).Some? && !Accepts(DurationChecker, AfterO(c).value)
  {
  }

  lemma PlainRejected(c: char)
    requires Plain(c).Some? && !DurationChecker(Plain(c).value) && c !in {'%', 'n', 't', 'E', 'O'}
    ensures Accepted(['%', c]) == Result([], Unsupported)
  {
    OneSpec(['%', c], Plain(c).value);
  }

  lemma AlternativeRejected(mark: char, c: char)
    requires mark == 'E' || mark == 'O'
    requires var e := if mark == 'E' then AfterE(c) else AfterO(c); e.Some? && !Accepts(DurationChecker, e.value)
    ensures Accepted(['%', mark, c]) == Result([], Unsupported)
  {
    var e := if mark == 'E' then AfterE(c) else AfterO(c);
    AlternativeSpec(['%', mark, c], mark, e.value);
  }

  /** Minus five minutes, formatted with `%M`. */
  method MinusFiveMinutes(bigEndian: bool) returns (r: Formatted)
    ensures r == Written("-05")
  {
    hide CallsText, Accepted, FractionalDigits, Gcd, Padded, Castable, Scaled, UnitText, ClockOf, Formattable;
    SixtySeconds();
    CastableExactly(-5, INT32, 60, 1);
    SignedFields(PartsOf(5, 60, 1), true);
    FiveMinutes();
    r := FormatDuration(-5, INT32, 60, 1, "%M", bigEndian);
  }

  lemma SixtySeconds()
    ensures Formattable(60, 1)
  {
    assert 60 % 1 == 0;
    assert Gcd(60, 1) == Gcd(1, 0) == 1;
  }

  lemma FiveMinutes()
    requires Formattable(60, 1)
    ensures PartsOf(5, 60, 1).clock.minutes == 5 && Padded(5, 2) == "05"
  {
    hide FractionalDigits, Gcd, Scaled;
    assert 5 * 60 / 1 == 300;
    assert Text(5) == "5" && Zeros(1) == "0";
  }
}
