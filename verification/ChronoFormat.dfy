/** The parser of `%` format strings that drives the checkers and the writers. */
module ChronoFormat {
  import opened Wrappers

  /** `numeric_system` */
  datatype System = Standard | Alternative

  /** The handler calls other than `on_text`. */
  datatype Kind =
    | Year | ShortYear | OffsetYear | Century | IsoWeekBasedYear | IsoWeekBasedShortYear
    | AbbrWeekday | FullWeekday | Dec0Weekday | Dec1Weekday
    | AbbrMonth | FullMonth | DecMonth
    | Dec0WeekOfYear | Dec1WeekOfYear | IsoWeekOfYear | DayOfYear | DayOfMonth | DayOfMonthSpace
    | Hour24 | Hour12 | Minute | Second
    | DateTime | LocDate | LocTime | UsDate | IsoDate
    | Hour12Time | Hour24Time | IsoTime | AmPm
    | DurationValue | DurationUnit | UtcOffset | TzName

  datatype Event = OnText(text: string) | OnSpec(kind: Kind, system: System)

  datatype Outcome = Parsed(end: nat) | InvalidFormat | Unsupported

  datatype Result = Result(events: seq<Event>, outcome: Outcome)

  /** A handler, by which calls it accepts; text is always accepted. */
  type Handler = Kind -> bool

  predicate Accepts(h: Handler, e: Event) {
    e.OnText? || h(e.kind)
  }

  // ---------- letters ----------

  /** The calls of `%` and one letter. */
  function Plain(c: char): Option<Kind> {
    match c
    case 'Y' => Some(Year)
    case 'y' => Some(ShortYear)
    case 'C' => Some(Century)
    case 'G' => Some(IsoWeekBasedYear)
    case 'g' => Some(IsoWeekBasedShortYear)
    case 'a' => Some(AbbrWeekday)
    case 'A' => Some(FullWeekday)
    case 'w' => Some(Dec0Weekday)
    case 'u' => Some(Dec1Weekday)
    case 'b' => Some(AbbrMonth)
    case 'h' => Some(AbbrMonth)
    case 'B' => Some(FullMonth)
    case 'm' => Some(DecMonth)
    case 'U' => Some(Dec0WeekOfYear)
    case 'W' => Some(Dec1WeekOfYear)
    case 'V' => Some(IsoWeekOfYear)
    case 'j' => Some(DayOfYear)
    case 'd' => Some(DayOfMonth)
    case 'e' => Some(DayOfMonthSpace)
    case 'H' => Some(Hour24)
    case 'I' => Some(Hour12)
    case 'M' => Some(Minute)
    case 'S' => Some(Second)
    case 'c' => Some(DateTime)
    case 'x' => Some(LocDate)
    case 'X' => Some(LocTime)
    case 'D' => Some(UsDate)
    case 'F' => Some(IsoDate)
    case 'r' => Some(Hour12Time)
    case 'R' => Some(Hour24Time)
    case 'T' => Some(IsoTime)
    case 'p' => Some(AmPm)
    case 'Q' => Some(DurationValue)
    case 'q' => Some(DurationUnit)
    case 'z' => Some(UtcOffset)
    case 'Z' => Some(TzName)
    case _ => None
  }

  /** The calls of `%E` and one letter; the offset year has no numeric system. */
  function AfterE(c: char): Option<Event> {
    match c
    case 'Y' => Some(OnSpec(Year, Alternative))
    case 'y' => Some(OnSpec(OffsetYear, Standard))
    case 'C' => Some(OnSpec(Century, Alternative))
    case 'c' => Some(OnSpec(DateTime, Alternative))
    case 'x' => Some(OnSpec(LocDate, Alternative))
    case 'X' => Some(OnSpec(LocTime, Alternative))
    case _ => None
  }

  /** The calls of `%O` and one letter. */
  function AfterO(c: char): Option<Event> {
    match c
    case 'y' => Some(OnSpec(ShortYear, Alternative))
    case 'm' => Some(OnSpec(DecMonth, Alternative))
    case 'U' => Some(OnSpec(Dec0WeekOfYear, Alternative))
    case 'W' => Some(OnSpec(Dec1WeekOfYear, Alternative))
    case 'V' => Some(OnSpec(IsoWeekOfYear, Alternative))
    case 'd' => Some(OnSpec(DayOfMonth, Alternative))
    case 'e' => Some(OnSpec(DayOfMonthSpace, Alternative))
    case 'w' => Some(OnSpec(Dec0Weekday, Alternative))
    case 'u' => Some(OnSpec(Dec1Weekday, Alternative))
    case 'H' => Some(OnSpec(Hour24, Alternative))
    case 'I' => Some(OnSpec(Hour12, Alternative))
    case 'M' => Some(OnSpec(Minute, Alternative))
    case 'S' => Some(OnSpec(Second, Alternative))
    case _ => None
  }

  /** The call that the characters after a '%' at p - 1 make, and the position after them. */
  function Token(s: string, p: nat): (r: Option<(Event, nat)>)
    requires p <= |s|
    ensures r.Some? ==> p < r.value.1 <= |s|
    ensures r.Some? ==> forall i :: p <= i < r.value.1 ==> s[i] != '}'
  {
    if p == |s| then None
    else if s[p] == '%' then Some((OnText("%"), p + 1))
    else if s[p] == 'n' then Some((OnText("\n"), p + 1))
    else if s[p] == 't' then Some((OnText("\t"), p + 1))
    else if s[p] == 'E' || s[p] == 'O' then
      if p + 1 == |s| then None
      else
        var e := if s[p] == 'E' then AfterE(s[p + 1]) else AfterO(s[p + 1]);
        if e.Some? then Some((e.value, p + 2)) else None
    else
      var k := Plain(s[p]);
      if k.Some? then Some((OnSpec(k.value, Standard), p + 1)) else None
  }

  // ---------- the parser ----------

  /** The text waiting to be passed on: what lies between `begin` and `ptr`. */
  function Pending(s: string, begin: nat, ptr: nat): seq<Event>
    requires begin <= ptr <= |s|
  {
    if begin != ptr then [OnText(s[begin..ptr])] else []
  }

  /** Everything the parser calls and how it ends, from a loop state on, for a handler that accepts all calls. */
  function Lex(s: string, begin: nat, ptr: nat): Result
    requires begin <= ptr <= |s|
    decreases |s| - ptr
  {
    if ptr == |s| || s[ptr] == '}' then Result(Pending(s, begin, ptr), Parsed(ptr))
    else if s[ptr] != '%' then Lex(s, begin, ptr + 1)
    else
      var t := Token(s, ptr + 1);
      if t.None? then Result(Pending(s, begin, ptr), InvalidFormat)
      else
        var rest := Lex(s, t.value.1, t.value.1);
        Result(Pending(s, begin, ptr) + [t.value.0] + rest.events, rest.outcome)
  }

  /** A handler ends the parse at the first call it does not accept. */
  function Handled(r: Result, h: Handler): Result
    decreases |r.events|
  {
    if r.events == [] then r
    else if !Accepts(h, r.events[0]) then Result([], Unsupported)
    else
      var rest := Handled(Result(r.events[1..], r.outcome), h);
      Result([r.events[0]] + rest.events, rest.outcome)
  }

  function After(events: seq<Event>, r: Result): Result {
    Result(events + r.events, r.outcome)
  }

  lemma {:induction false} HandledAfter(events: seq<Event>, r: Result, h: Handler)
    requires forall i :: 0 <= i < |events| ==> Accepts(h, events[i])
    ensures Handled(After(events, r), h) == After(events, Handled(r, h))
  {
    hide Accepts;
    var kept := Handled(r, h).events;
    if events == [] {
      assert events + r.events == r.events;
      assert events + kept == kept;
    } else {
      HandledAfter(events[1..], r, h);
      var all := events + r.events;
      assert all[0] == events[0] && all[1..] == events[1..] + r.events;
      assert events + kept == [events[0]] + (events[1..] + kept);
    }
  }

  /** One round of the parser's loop at a '%'. */
  lemma TokenRound(s: string, begin: nat, ptr: nat, h: Handler, events: seq<Event>)
    requires begin <= ptr < |s| && s[ptr] == '%'
    ensures var all := After(events, Handled(Lex(s, begin, ptr), h));
            var flushed := events + Pending(s, begin, ptr);
            match Token(s, ptr + 1)
            case None => all == Result(flushed, InvalidFormat)
            case Some((e, next)) =>
              if Accepts(h, e) then all == After(flushed + [e], Handled(Lex(s, next, next), h))
              else all == Result(flushed, Unsupported)
  {
    var pending := Pending(s, begin, ptr);
    match Token(s, ptr + 1)
    case None =>
      HandledAfter(pending, Result([], InvalidFormat), h);
      assert pending + [] == pending;
    case Some((e, next)) =>
      var rest := Lex(s, next, next);
      var tail := Result([e] + rest.events, rest.outcome);
      assert pending + [e] + rest.events == pending + ([e] + rest.events);
      HandledAfter(pending, tail, h);
      assert tail.events[1..] == rest.events;
      hide Lex;
      var handled := Handled(rest, h).events;
      assert events + (pending + ([e] + handled)) == (events + pending + [e]) + handled;
      assert pending + [] == pending;
  }

  /** The end of the loop. */
  lemma LastRound(s: string, begin: nat, ptr: nat, h: Handler, events: seq<Event>)
    requires begin <= ptr <= |s| && (ptr == |s| || s[ptr] == '}')
    ensures After(events, Handled(Lex(s, begin, ptr), h)) == Result(events + Pending(s, begin, ptr), Parsed(ptr))
  {
    HandledAfter(Pending(s, begin, ptr), Result([], Parsed(ptr)), h);
    assert Pending(s, begin, ptr) + [] == Pending(s, begin, ptr);
  }

  /** `parse_chrono_format` on the range s, with each handler call recorded. */
  method ParseChronoFormat(s: string, h: Handler) returns (r: Result)
    ensures r == Handled(Lex(s, 0, 0), h)
  {
    var begin: nat, ptr: nat := 0, 0;
    var events: seq<Event> := [];
    ghost var all := Handled(Lex(s, 0, 0), h);
    assert all == After([], all);
    while ptr != |s|
      invariant begin <= ptr <= |s|
      invariant all == After(events, Handled(Lex(s, begin, ptr), h))
      decreases |s| - ptr
    {
      var c := s[ptr];
      if c == '}' {
        break;
      }
      if c != '%' {
        ptr := ptr + 1;
        continue;
      }
      TokenRound(s, begin, ptr, h, events);
      hide Lex, Handled;
      if begin != ptr {
        events := events + [OnText(s[begin..ptr])];
      } else {
        assert events + Pending(s, begin, ptr) == events;
      }
      ptr := ptr + 1;
      var t := Token(s, ptr);
      if t.None? {
        return Result(events, InvalidFormat);
      }
      if !Accepts(h, t.value.0) {
        return Result(events, Unsupported);
      }
      events := events + [t.value.0];
      ptr := t.value.1;
      begin := ptr;
    }
    LastRound(s, begin, ptr, h, events);
    if begin != ptr {
      events := events + [OnText(s[begin..ptr])];
    } else {
      assert events + Pending(s, begin, ptr) == events;
    }
    r := Result(events, Parsed(ptr));
  }

  // ---------- where a successful parse stops ----------

  /** An accepted range ends at the first '}' or at the end of the input. */
  lemma {:induction false} StopsAtBrace(s: string, begin: nat, ptr: nat)
    requires begin <= ptr <= |s|
    ensures Lex(s, begin, ptr).outcome.Parsed? ==>
              var end := Lex(s, begin, ptr).outcome.end;
              && ptr <= end <= |s| && (end == |s| || s[end] == '}')
              && forall i :: ptr <= i < end ==> s[i] != '}'
    ensures !Lex(s, begin, ptr).outcome.Unsupported?
    decreases |s| - ptr
  {
    if ptr < |s| && s[ptr] != '}' {
      if s[ptr] != '%' {
        StopsAtBrace(s, begin, ptr + 1);
      } else if Token(s, ptr + 1).Some? {
        StopsAtBrace(s, Token(s, ptr + 1).value.1, Token(s, ptr + 1).value.1);
      }
    }
  }

  // ---------- two passes over the same range ----------

  lemma TokenOfPrefix(s: string, p: nat, end: nat)
    requires p <= end <= |s| && Token(s, p).Some? && Token(s, p).value.1 <= end
    ensures Token(s[..end], p) == Token(s, p)
  {
  }

  /** Parsing the accepted range again makes the same calls and consumes all of it. */
  lemma {:induction false} PrefixParsesAlike(s: string, begin: nat, ptr: nat)
    requires begin <= ptr <= |s|
    requires Lex(s, begin, ptr).outcome.Parsed?
    ensures var end := Lex(s, begin, ptr).outcome.end;
            ptr <= end <= |s| && Lex(s[..end], begin, ptr) == Lex(s, begin, ptr)
    decreases |s| - ptr
  {
    StopsAtBrace(s, begin, ptr);
    var end := Lex(s, begin, ptr).outcome.end;
    if ptr < |s| && s[ptr] != '}' {
      if s[ptr] != '%' {
        PrefixParsesAlike(s, begin, ptr + 1);
      } else {
        var next := Token(s, ptr + 1).value.1;
        StopsAtBrace(s, next, next);
        PrefixParsesAlike(s, next, next);
        TokenOfPrefix(s, ptr + 1, end);
      }
    }
    assert s[..end][begin..ptr] == s[begin..ptr];
  }

  lemma {:induction false} HandledUnchanged(r: Result, h: Handler)
    ensures Handled(r, h).outcome.Parsed? ==> Handled(r, h) == r
    ensures Handled(r, h) == r && !r.outcome.Unsupported? ==> forall i :: 0 <= i < |r.events| ==> Accepts(h, r.events[i])
    ensures (forall i :: 0 <= i < |r.events| ==> Accepts(h, r.events[i])) ==> Handled(r, h) == r
    decreases |r.events|
  {
    if r.events != [] {
      HandledUnchanged(Result(r.events[1..], r.outcome), h);
      assert [r.events[0]] + r.events[1..] == r.events;
    }
  }

  /**
   * If a checker accepts an input up to `end`, then parsing the saved range with
   * any handler that accepts the checker's calls throws nothing, consumes all of
   * it and makes the same calls.
   */
  lemma TwoPassesAgree(s: string, checker: Handler, writer: Handler)
    requires Handled(Lex(s, 0, 0), checker).outcome.Parsed?
    requires forall k :: checker(k) ==> writer(k)
    ensures var first := Handled(Lex(s, 0, 0), checker);
            var end := first.outcome.end;
            && end <= |s|
            && Handled(Lex(s[..end], 0, 0), writer) == Result(first.events, Parsed(end))
            && forall i :: 0 <= i < |first.events| ==> Accepts(checker, first.events[i])
  {
    var r := Lex(s, 0, 0);
    HandledUnchanged(r, checker);
    PrefixParsesAlike(s, 0, 0);
    HandledUnchanged(r, writer);
  }

  /** `tm_format_checker` */
  predicate TmChecker(k: Kind) {
    !k.DurationValue? && !k.DurationUnit?
  }

  /** `chrono_format_checker` */
  predicate DurationChecker(k: Kind) {
    || k.Hour24? || k.Hour12? || k.Minute? || k.Second?
    || k.Hour12Time? || k.Hour24Time? || k.IsoTime? || k.AmPm?
    || k.DurationValue? || k.DurationUnit?
  }

  /** `tm_writer` and `chrono_formatter` define every call. */
  predicate AnyWriter(k: Kind) {
    true
  }

  /** A duration format that its checker accepts drives the duration writer with time-of-day and duration calls only. */
  lemma DurationPassesAgree(s: string)
    requires Handled(Lex(s, 0, 0), DurationChecker).outcome.Parsed?
    ensures var first := Handled(Lex(s, 0, 0), DurationChecker);
            && first.outcome.end <= |s|
            && Handled(Lex(s[..first.outcome.end], 0, 0), AnyWriter) == first
            && forall i :: 0 <= i < |first.events| && first.events[i].OnSpec? ==> DurationChecker(first.events[i].kind)
  {
    TwoPassesAgree(s, DurationChecker, AnyWriter);
    hide Lex, Handled;
    var first := Handled(Lex(s, 0, 0), DurationChecker);
    forall i | 0 <= i < |first.events| && first.events[i].OnSpec? ensures DurationChecker(first.events[i].kind) {
      assert Accepts(DurationChecker, first.events[i]);
    }
  }

  // ---------- printing a list of calls and parsing it again ----------

  /** The canonical letter of a call in the standard numeric system; the offset year is written with `%E`. */
  function Letter(k: Kind): char {
    match k
    case Year => 'Y'
    case ShortYear => 'y'
    case OffsetYear => 'y'
    case Century => 'C'
    case IsoWeekBasedYear => 'G'
    case IsoWeekBasedShortYear => 'g'
    case AbbrWeekday => 'a'
    case FullWeekday => 'A'
    case Dec0Weekday => 'w'
    case Dec1Weekday => 'u'
    case AbbrMonth => 'b'
    case FullMonth => 'B'
    case DecMonth => 'm'
    case Dec0WeekOfYear => 'U'
    case Dec1WeekOfYear => 'W'
    case IsoWeekOfYear => 'V'
    case DayOfYear => 'j'
    case DayOfMonth => 'd'
    case DayOfMonthSpace => 'e'
    case Hour24 => 'H'
    case Hour12 => 'I'
    case Minute => 'M'
    case Second => 'S'
    case DateTime => 'c'
    case LocDate => 'x'
    case LocTime => 'X'
    case UsDate => 'D'
    case IsoDate => 'F'
    case Hour12Time => 'r'
    case Hour24Time => 'R'
    case IsoTime => 'T'
    case AmPm => 'p'
    case DurationValue => 'Q'
    case DurationUnit => 'q'
    case UtcOffset => 'z'
    case TzName => 'Z'
  }

  /** Calls whose alternative form is written with `%E`. */
  predicate WithE(k: Kind) {
    k.Year? || k.Century? || k.DateTime? || k.LocDate? || k.LocTime?
  }

  /** Calls whose alternative form is written with `%O`. */
  predicate WithO(k: Kind) {
    || k.ShortYear? || k.DecMonth? || k.Dec0WeekOfYear? || k.Dec1WeekOfYear? || k.IsoWeekOfYear?
    || k.DayOfMonth? || k.DayOfMonthSpace? || k.Dec0Weekday? || k.Dec1Weekday?
    || k.Hour24? || k.Hour12? || k.Minute? || k.Second?
  }

  predicate Printable(e: Event) {
    match e
    case OnText(t) => forall i :: 0 <= i < |t| ==> t[i] != '}'
    case OnSpec(k, system) => system == Standard || WithE(k) || WithO(k)
  }

  function PrintSpec(k: Kind, system: System): string {
    if k.OffsetYear? || (system == Alternative && WithE(k)) then ['%', 'E', Letter(k)]
    else if system == Alternative then ['%', 'O', Letter(k)]
    else ['%', Letter(k)]
  }

  function PrintChar(c: char): string {
    if c == '%' then "%%" else [c]
  }

  function PrintText(t: string): string {
    if t == "" then "" else PrintChar(t[0]) + PrintText(t[1..])
  }

  function PrintEvent(e: Event): string {
    match e
    case OnText(t) => PrintText(t)
    case OnSpec(k, system) => PrintSpec(k, system)
  }

  function Print(events: seq<Event>): string {
    if events == [] then "" else PrintEvent(events[0]) + Print(events[1..])
  }

  /** One character of text, or one specifier: what a list of calls amounts to once adjacent texts are merged. */
  datatype Atom = Chr(c: char) | Spec(kind: Kind, system: System)

  function Chars(t: string): seq<Atom> {
    seq(|t|, i requires 0 <= i < |t| => Chr(t[i]))
  }

  function Atoms(e: Event): seq<Atom> {
    match e
    case OnText(t) => Chars(t)
    case OnSpec(k, system) => [Spec(k, system)]
  }

  function Flat(events: seq<Event>): seq<Atom> {
    if events == [] then [] else Atoms(events[0]) + Flat(events[1..])
  }

  lemma {:induction false} FlatConcat(a: seq<Event>, b: seq<Event>)
    ensures Flat(a + b) == Flat(a) + Flat(b)
  {
    if a == [] {
      assert a + b == b;
    } else {
      assert (a + b)[1..] == a[1..] + b;
      FlatConcat(a[1..], b);
    }
  }

  /** Lists of calls with the same atoms are accepted by the same handlers. */
  lemma {:induction false} FlatAccepts(a: seq<Event>, b: seq<Event>, h: Handler)
    requires Flat(a) == Flat(b)
    requires forall i :: 0 <= i < |b| ==> Accepts(h, b[i])
    ensures forall i :: 0 <= i < |a| ==> Accepts(h, a[i])
  {
    AtomsAccepted(b, h);
    forall i | 0 <= i < |a| && a[i].OnSpec? ensures Accepts(h, a[i]) {
      SpecIsAtom(a, i);
    }
  }

  lemma {:induction false} AtomsAccepted(events: seq<Event>, h: Handler)
    requires forall i :: 0 <= i < |events| ==> Accepts(h, events[i])
    ensures forall a :: a in Flat(events) && a.Spec? ==> h(a.kind)
  {
    if events != [] {
      AtomsAccepted(events[1..], h);
    }
  }

  lemma {:induction false} SpecIsAtom(events: seq<Event>, i: nat)
    requires i < |events| && events[i].OnSpec?
    ensures Spec(events[i].kind, events[i].system) in Flat(events)
  {
    if i == 0 {
      assert Atoms(events[0])[0] == Spec(events[0].kind, events[0].system);
    } else {
      SpecIsAtom(events[1..], i - 1);
    }
  }

  /** The text pending before ptr only comes in front of what follows. */
  lemma {:induction false} LexPending(s: string, begin: nat, ptr: nat)
    requires begin <= ptr <= |s|
    ensures Lex(s, begin, ptr).outcome == Lex(s, ptr, ptr).outcome
    ensures Flat(Lex(s, begin, ptr).events) == Chars(s[begin..ptr]) + Flat(Lex(s, ptr, ptr).events)
    decreases |s| - ptr
  {
    hide Token, Chars;
    if ptr < |s| && s[ptr] != '}' && s[ptr] != '%' {
      LexPending(s, begin, ptr + 1);
      LexPending(s, ptr, ptr + 1);
      hide Flat, Lex;
      CharsOneMore(s, begin, ptr);
      var one, rest := Chars(s[ptr..ptr + 1]), Flat(Lex(s, ptr + 1, ptr + 1).events);
      assert Chars(s[begin..ptr]) + one + rest == Chars(s[begin..ptr]) + (one + rest);
    } else {
      hide Flat, Lex;
      PendingFirst(s, begin, ptr);
      PendingIsText(s, begin, ptr);
      FlatConcat(Pending(s, begin, ptr), Lex(s, ptr, ptr).events);
    }
  }

  lemma CharsOneMore(s: string, begin: nat, ptr: nat)
    requires begin <= ptr < |s|
    ensures Chars(s[begin..ptr + 1]) == Chars(s[begin..ptr]) + Chars(s[ptr..ptr + 1])
  {
  }

  lemma PendingIsText(s: string, begin: nat, ptr: nat)
    requires begin <= ptr <= |s|
    ensures Flat(Pending(s, begin, ptr)) == Chars(s[begin..ptr])
  {
    if begin != ptr {
      assert Pending(s, begin, ptr)[1..] == [];
      assert Chars(s[begin..ptr]) + [] == Chars(s[begin..ptr]);
    }
  }

  lemma PendingFirst(s: string, begin: nat, ptr: nat)
    requires begin <= ptr <= |s| && (ptr == |s| || s[ptr] == '}' || s[ptr] == '%')
    ensures Lex(s, begin, ptr).outcome == Lex(s, ptr, ptr).outcome
    ensures Lex(s, begin, ptr).events == Pending(s, begin, ptr) + Lex(s, ptr, ptr).events
  {
    var pending := Pending(s, begin, ptr);
    assert pending + [] == pending;
    if ptr < |s| && s[ptr] == '%' && Token(s, ptr + 1).Some? {
      var t := Token(s, ptr + 1).value;
      var rest := Lex(s, t.1, t.1).events;
      assert pending + [t.0] + rest == pending + ([] + [t.0] + rest);
    }
  }

  /** Every call's letter is read as the call. */
  lemma PlainLettersRead(k: Kind)
    requires !k.OffsetYear?
    ensures Plain(Letter(k)) == Some(k) && Letter(k) !in {'%', 'n', 't', 'E', 'O'}
  {
    LettersStandAlone(k);
    hide Letter;
  }

  lemma LettersStandAlone(k: Kind)
    requires !k.OffsetYear?
    ensures Plain(Letter(k)) == Some(k)
  {
    if DurationChecker(k) {
      DurationLetters(k);
    } else {
      DateLetters(k);
    }
    hide Letter, Plain;
  }

  lemma DurationLetters(k: Kind)
    requires DurationChecker(k)
    ensures Plain(Letter(k)) == Some(k)
  {
  }

  lemma DateLetters(k: Kind)
    requires !DurationChecker(k) && !k.OffsetYear?
    ensures Plain(Letter(k)) == Some(k)
  {
  }

  lemma AlternativeLettersRead(k: Kind)
    ensures k.OffsetYear? ==> AfterE(Letter(k)) == Some(OnSpec(k, Standard)) && !WithE(k) && !WithO(k)
    ensures WithE(k) ==> AfterE(Letter(k)) == Some(OnSpec(k, Alternative)) && !WithO(k)
    ensures WithO(k) ==> AfterO(Letter(k)) == Some(OnSpec(k, Alternative))
  {
    hide Plain;
  }

  lemma SpecTokenizes(s: string, p: nat, k: Kind, system: System)
    requires system == Standard || WithE(k) || WithO(k)
    requires p + |PrintSpec(k, system)| <= |s|
    requires s[p..p + |PrintSpec(k, system)|] == PrintSpec(k, system)
    ensures s[p] == '%' && Token(s, p + 1) == Some((OnSpec(k, system), p + |PrintSpec(k, system)|))
  {
    var n := |PrintSpec(k, system)|;
    assert s[p] == s[p..p + n][0] && s[p + 1] == s[p..p + n][1] && (n == 3 ==> s[p + 2] == s[p..p + n][2]);
    AlternativeLettersRead(k);
    if !k.OffsetYear? {
      PlainLettersRead(k);
    }
    hide Letter, Plain, AfterE, AfterO, WithE, WithO;
  }

  /** Shorter spellings: `%%` for itself, `%n`, `%t`, and `%h` for the short month name. */
  predicate IsAlias(spelling: string, e: Event) {
    || (spelling == "%n" && e == OnText("\n"))
    || (spelling == "%t" && e == OnText("\t"))
    || (spelling == "%h" && e == OnSpec(AbbrMonth, Standard))
  }

  /** Every accepted specifier is the canonical text of its call, or one of three aliases. */
  lemma TokenIsCanonical(s: string, p: nat)
    requires p < |s| && s[p] == '%' && Token(s, p + 1).Some?
    ensures var e, next := Token(s, p + 1).value.0, Token(s, p + 1).value.1;
            s[p..next] == PrintEvent(e) || IsAlias(s[p..next], e)
  {
    var e, next := Token(s, p + 1).value.0, Token(s, p + 1).value.1;
    if s[p + 1] == '%' || s[p + 1] == 'n' || s[p + 1] == 't' {
      assert s[p..next] == ['%', s[p + 1]];
      assert PrintText("%") == PrintChar('%') + PrintText("") == "%%";
    } else if s[p + 1] == 'E' || s[p + 1] == 'O' {
      assert s[p..next] == ['%', s[p + 1], s[p + 2]];
      AlternativeIsCanonical(s[p + 1], s[p + 2]);
    } else {
      assert s[p..next] == ['%', s[p + 1]];
      PlainIsCanonical(s[p + 1]);
      hide Letter, Plain;
    }
  }

  lemma PlainIsCanonical(c: char)
    ensures Plain(c).Some? ==>
              var k := Plain(c).value;
              !k.OffsetYear? && (Letter(k) == c || (c == 'h' && k.AbbrMonth?))
  {
  }

  lemma AlternativeIsCanonical(mark: char, c: char)
    ensures mark == 'E' && AfterE(c).Some? ==>
              var e := AfterE(c).value;
              e.OnSpec? && PrintSpec(e.kind, e.system) == ['%', 'E', c]
    ensures mark == 'O' && AfterO(c).Some? ==>
              var e := AfterO(c).value;
              e.OnSpec? && PrintSpec(e.kind, e.system) == ['%', 'O', c]
  {
  }

  /** From p on the parser makes the given calls, and then what it makes from q on. */
  predicate Reads(s: string, p: nat, atoms: seq<Atom>, q: nat) {
    && p <= q <= |s|
    && Lex(s, p, p).outcome == Lex(s, q, q).outcome
    && Flat(Lex(s, p, p).events) == atoms + Flat(Lex(s, q, q).events)
  }

  lemma ReadsThen(s: string, p: nat, a: seq<Atom>, q: nat, b: seq<Atom>, r: nat)
    requires Reads(s, p, a, q) && Reads(s, q, b, r)
    ensures Reads(s, p, a + b, r)
  {
    hide Lex, Flat;
    var rest := Flat(Lex(s, r, r).events);
    assert a + (b + rest) == (a + b) + rest;
  }

  lemma ReadsNothing(s: string, p: nat)
    requires p <= |s|
    ensures Reads(s, p, [], p)
  {
    hide Lex, Flat;
    assert [] + Flat(Lex(s, p, p).events) == Flat(Lex(s, p, p).events);
  }

  /** Printed text parses to its characters. */
  lemma {:induction false} TextParses(s: string, ptr: nat, t: string)
    requires ptr + |PrintText(t)| <= |s| && s[ptr..ptr + |PrintText(t)|] == PrintText(t)
    requires forall i :: 0 <= i < |t| ==> t[i] != '}'
    ensures Reads(s, ptr, Chars(t), ptr + |PrintText(t)|)
    decreases t
  {
    hide Reads, Chars, PrintText, PrintChar;
    CharsSplit(t);
    PrintTextSplit(t);
    if t == "" {
      ReadsNothing(s, ptr);
    } else {
      var first, others := PrintChar(t[0]), PrintText(t[1..]);
      var middle := ptr + |first|;
      SplitRange(s, ptr, first, others);
      CharParses(s, ptr, t[0]);
      TextParses(s, middle, t[1..]);
      assert middle + |others| == ptr + |PrintText(t)|;
      ReadsThen(s, ptr, [Chr(t[0])], middle, Chars(t[1..]), middle + |others|);
    }
  }

  lemma PrintTextSplit(t: string)
    ensures PrintText(t) == if t == "" then "" else PrintChar(t[0]) + PrintText(t[1..])
  {
  }

  lemma CharsSplit(t: string)
    ensures Chars(t) == if t == "" then [] else [Chr(t[0])] + Chars(t[1..])
  {
  }

  lemma SplitRange(s: string, p: nat, a: string, b: string)
    requires p + |a + b| <= |s| && s[p..p + |a + b|] == a + b
    ensures s[p..p + |a|] == a && s[p + |a|..p + |a| + |b|] == b
  {
    var r := s[p..p + |a + b|];
    assert s[p..p + |a|] == r[..|a|];
    assert s[p + |a|..p + |a| + |b|] == r[|a|..];
  }

  /** One printed character of text parses to it. */
  lemma CharParses(s: string, ptr: nat, c: char)
    requires ptr + |PrintChar(c)| <= |s| && s[ptr..ptr + |PrintChar(c)|] == PrintChar(c) && c != '}'
    ensures Reads(s, ptr, [Chr(c)], ptr + |PrintChar(c)|)
  {
    var next := ptr + |PrintChar(c)|;
    var rest := Lex(s, next, next).events;
    assert s[ptr] == s[ptr..next][0] == c;
    assert Chars([c]) == [Chr(c)];
    if c == '%' {
      assert s[ptr + 1] == s[ptr..next][1] == '%';
      assert Token(s, ptr + 1) == Some((OnText("%"), ptr + 2));
      assert Lex(s, ptr, ptr).events == [OnText("%")] + rest;
      assert ([OnText("%")] + rest)[1..] == rest;
    } else {
      LexPending(s, ptr, ptr + 1);
      assert s[ptr..ptr + 1] == [c];
    }
  }

  /** Printed calls parse to themselves, whatever follows them. */
  lemma {:induction false} PrintedParses(s: string, ptr: nat, events: seq<Event>, tail: string)
    requires ptr <= |s| && s[ptr..] == Print(events) + tail
    requires forall i :: 0 <= i < |events| ==> Printable(events[i])
    ensures ptr + |Print(events)| <= |s| && s[ptr + |Print(events)|..] == tail
    ensures Reads(s, ptr, Flat(events), ptr + |Print(events)|)
    decreases |events|
  {
    hide Reads, Print, PrintEvent, Printable, Atoms, Lex;
    PrintSplit(events, tail);
    if events != [] {
      var e, rest := events[0], events[1..];
      var head := PrintEvent(e);
      SplitAt(s, ptr, head, Print(rest) + tail);
      PrintedParses(s, ptr + |head|, rest, tail);
      EventParses(s, ptr, e);
      ReadsThen(s, ptr, Atoms(e), ptr + |head|, Flat(rest), ptr + |head| + |Print(rest)|);
    } else {
      ReadsNothing(s, ptr);
    }
  }

  lemma PrintSplit(events: seq<Event>, tail: string)
    ensures Print(events) + tail
         == if events == [] then tail else PrintEvent(events[0]) + (Print(events[1..]) + tail)
    ensures |Print(events)| == if events == [] then 0 else |PrintEvent(events[0])| + |Print(events[1..])|
  {
    hide PrintEvent;
    if events == [] {
      assert "" + tail == tail;
    } else {
      var head, rest := PrintEvent(events[0]), Print(events[1..]);
      assert head + rest + tail == head + (rest + tail);
    }
  }

  lemma SplitAt(s: string, p: nat, a: string, b: string)
    requires p <= |s| && s[p..] == a + b
    ensures p + |a| <= |s| && s[p..p + |a|] == a && s[p + |a|..] == b
  {
    assert s[p..p + |a|] == s[p..][..|a|];
    assert s[p + |a|..] == s[p..][|a|..];
  }

  /** One printed call parses to it. */
  lemma EventParses(s: string, ptr: nat, e: Event)
    requires Printable(e)
    requires ptr + |PrintEvent(e)| <= |s| && s[ptr..ptr + |PrintEvent(e)|] == PrintEvent(e)
    ensures Reads(s, ptr, Atoms(e), ptr + |PrintEvent(e)|)
  {
    if e.OnText? {
      TextParses(s, ptr, e.text);
    } else {
      var next := ptr + |PrintEvent(e)|;
      SpecTokenizes(s, ptr, e.kind, e.system);
      hide Token, PrintSpec;
      var tail := Lex(s, next, next).events;
      assert Lex(s, ptr, ptr).events == [e] + tail;
      assert ([e] + tail)[1..] == tail;
    }
  }

  /**
   * Printing any list of calls and parsing the text makes the same calls, up to
   * how text is divided, and consumes all of it.
   */
  lemma PrintThenParse(events: seq<Event>)
    requires forall i :: 0 <= i < |events| ==> Printable(events[i])
    ensures var r := Lex(Print(events), 0, 0);
            r.outcome == Parsed(|Print(events)|) && Flat(r.events) == Flat(events)
  {
    var s := Print(events);
    assert s[0..] == s == s + "";
    PrintedParses(s, 0, events, "");
    assert Lex(s, |s|, |s|) == Result([], Parsed(|s|));
    assert Flat(events) + [] == Flat(events);
  }

  /**
   * A closing brace after printed calls ends the parse there, and a '%' that no
   * specifier follows fails it there, after the same calls.
   */
  lemma PrintThenStop(events: seq<Event>, tail: string)
    requires forall i :: 0 <= i < |events| ==> Printable(events[i])
    requires tail != "" && (tail[0] == '}' || (tail[0] == '%' && !BeginsSpecifier(tail)))
    ensures var r := Lex(Print(events) + tail, 0, 0);
            && r.outcome == (if tail[0] == '}' then Parsed(|Print(events)|) else InvalidFormat)
            && Flat(r.events) == Flat(events)
  {
    var s, q := Print(events) + tail, |Print(events)|;
    assert s[0..] == s;
    PrintedParses(s, 0, events, tail);
    assert s[q] == s[q..][0] == tail[0];
    assert Flat(events) + [] == Flat(events);
    if tail[0] == '%' {
      TokenExactly(s, q);
      BeginsThere(s, q, tail);
    }
  }

  lemma BeginsThere(s: string, q: nat, tail: string)
    requires q <= |s| && s[q..] == tail
    ensures (exists spelling, e :: Spells(spelling, e) && StartsAt(s, q, spelling)) ==> BeginsSpecifier(tail)
  {
    if exists spelling, e :: Spells(spelling, e) && StartsAt(s, q, spelling) {
      var spelling, e :| Spells(spelling, e) && StartsAt(s, q, spelling);
      hide Spells;
      assert s[q..q + |spelling|] == s[q..][..|spelling|];
      assert tail[..|spelling|] == tail[0..|spelling|];
      assert StartsAt(tail, 0, spelling);
    }
  }

  // ---------- which specifiers there are ----------

  /** The ways to write one call: its canonical text, `%%` for a percent sign, or one of the aliases. */
  predicate Spells(spelling: string, e: Event) {
    || IsAlias(spelling, e)
    || (spelling == "%%" && e == OnText("%"))
    || (e.OnSpec? && Printable(e) && spelling == PrintSpec(e.kind, e.system))
  }

  predicate StartsAt(s: string, p: nat, spelling: string) {
    p + |spelling| <= |s| && s[p..p + |spelling|] == spelling
  }

  ghost predicate BeginsSpecifier(s: string) {
    exists spelling, e :: Spells(spelling, e) && StartsAt(s, 0, spelling)
  }

  /** Every spelling is read as its call. */
  lemma SpellingIsRead(s: string, p: nat, spelling: string, e: Event)
    requires Spells(spelling, e) && StartsAt(s, p, spelling)
    ensures p < |s| && s[p] == '%' && Token(s, p + 1) == Some((e, p + |spelling|))
  {
    if e.OnSpec? && Printable(e) && spelling == PrintSpec(e.kind, e.system) {
      SpecTokenizes(s, p, e.kind, e.system);
    } else {
      hide Printable, PrintSpec;
      assert |spelling| == 2;
      assert s[p] == s[p..p + 2][0] && s[p + 1] == s[p..p + 2][1];
    }
  }

  /** A specifier is accepted exactly if it is spelled in one of these ways. */
  lemma TokenExactly(s: string, p: nat)
    requires p < |s| && s[p] == '%'
    ensures Token(s, p + 1).Some? <==> exists spelling, e :: Spells(spelling, e) && StartsAt(s, p, spelling)
  {
    if Token(s, p + 1).Some? {
      var e, next := Token(s, p + 1).value.0, Token(s, p + 1).value.1;
      TokenIsCanonical(s, p);
      TokenIsPrintable(s, p + 1);
      TextTokens(s, p);
      assert StartsAt(s, p, s[p..next]);
      assert Spells(s[p..next], e);
    }
    if exists spelling, e :: Spells(spelling, e) && StartsAt(s, p, spelling) {
      var spelling, e :| Spells(spelling, e) && StartsAt(s, p, spelling);
      SpellingIsRead(s, p, spelling, e);
    }
  }

  /** The only text that is read canonically is a percent sign. */
  lemma TextTokens(s: string, p: nat)
    requires p < |s| && s[p] == '%' && Token(s, p + 1).Some?
    ensures var e, next := Token(s, p + 1).value.0, Token(s, p + 1).value.1;
            e.OnText? ==> next == p + 2 && (e == OnText("%") ==> s[p..next] == "%%")
                          && (e == OnText("%") || IsAlias(s[p..next], e))
  {
    var e, next := Token(s, p + 1).value.0, Token(s, p + 1).value.1;
    if e.OnText? {
      assert s[p..next] == ['%', s[p + 1]];
      assert "%"[0] != "\n"[0] && "%"[0] != "\t"[0];
    }
  }

  /** The aliases and the percent sign as formats of their own. */
  lemma AliasFormats()
    ensures Lex("%n", 0, 0) == Result([OnText("\n")], Parsed(2))
    ensures Lex("%t", 0, 0) == Result([OnText("\t")], Parsed(2))
    ensures Lex("%%", 0, 0) == Result([OnText("%")], Parsed(2))
    ensures Lex("%h", 0, 0) == Result([OnSpec(AbbrMonth, Standard)], Parsed(2)) == Lex("%b", 0, 0)
  {
    OneToken("%n", OnText("\n"));
    OneToken("%t", OnText("\t"));
    OneToken("%%", OnText("%"));
    OneToken("%h", OnSpec(AbbrMonth, Standard));
    OneToken("%b", OnSpec(AbbrMonth, Standard));
  }

  lemma OneToken(s: string, e: Event)
    requires |s| == 2 && s[0] == '%' && Token(s, 1) == Some((e, 2))
    ensures Lex(s, 0, 0) == Result([e], Parsed(2))
  {
    assert Lex(s, 2, 2) == Result([], Parsed(2));
    assert [] + [e] + [] == [e];
  }

  /** A line break between two specifiers. */
  lemma BreakBetween()
    ensures Lex("%F%n%T", 0, 0) == Result([OnSpec(IsoDate, Standard), OnText("\n"), OnSpec(IsoTime, Standard)], Parsed(6))
    ensures Handled(Lex("%F%n%T", 0, 0), TmChecker) == Lex("%F%n%T", 0, 0)
  {
    var s := "%F%n%T";
    SpecIsRead(s, 0, IsoDate);
    assert Token(s, 3) == Some((OnText("\n"), 4));
    assert Lex(s, 2, 2) == After([OnText("\n")], Lex(s, 4, 4)) by {
      assert [] + [OnText("\n")] == [OnText("\n")];
    }
    SpecIsRead(s, 4, IsoTime);
    assert Lex(s, 6, 6) == Result([], Parsed(6));
    HandledUnchanged(Lex(s, 0, 0), TmChecker);
  }

  /** A run of text without '%' and '}' is passed on whole. */
  lemma {:induction false} TextRun(s: string, begin: nat, ptr: nat)
    requires begin < |s| && begin <= ptr <= |s| && forall i :: ptr <= i < |s| ==> s[i] != '%' && s[i] != '}'
    ensures Lex(s, begin, ptr) == Result([OnText(s[begin..])], Parsed(|s|))
    decreases |s| - ptr
  {
    if ptr == |s| {
      assert s[begin..ptr] == s[begin..];
    } else {
      TextRun(s, begin, ptr + 1);
    }
  }

  /** A handler receives the calls before the first one it does not accept, which ends the parse. */
  lemma {:induction false} HandledExactly(r: Result, h: Handler, i: nat)
    requires i <= |r.events| && forall j :: 0 <= j < i ==> Accepts(h, r.events[j])
    requires i < |r.events| ==> !Accepts(h, r.events[i])
    ensures Handled(r, h) == if i == |r.events| then r else Result(r.events[..i], Unsupported)
    decreases |r.events|
  {
    hide Accepts;
    if r.events != [] && i > 0 {
      var rest := Result(r.events[1..], r.outcome);
      HandledExactly(rest, h, i - 1);
      assert r.events == [r.events[0]] + rest.events;
      assert r.events[..i] == [r.events[0]] + rest.events[..i - 1];
    }
  }

  lemma TokenIsPrintable(s: string, p: nat)
    requires p <= |s| && Token(s, p).Some?
    ensures Printable(Token(s, p).value.0)
  {
  }

  lemma {:induction false} CallsArePrintable(s: string, begin: nat, ptr: nat)
    requires begin <= ptr <= |s|
    requires forall i :: begin <= i < ptr ==> s[i] != '}'
    ensures forall i :: 0 <= i < |Lex(s, begin, ptr).events| ==> Printable(Lex(s, begin, ptr).events[i])
    decreases |s| - ptr
  {
    if ptr < |s| && s[ptr] != '}' {
      if s[ptr] != '%' {
        CallsArePrintable(s, begin, ptr + 1);
      } else if Token(s, ptr + 1).Some? {
        TokenIsPrintable(s, ptr + 1);
        CallsArePrintable(s, Token(s, ptr + 1).value.1, Token(s, ptr + 1).value.1);
      }
    }
  }

  /**
   * What the parser makes of any accepted input can be printed canonically, and
   * the canonical text means the same.
   */
  lemma ParseThenPrint(s: string)
    requires Lex(s, 0, 0).outcome.Parsed?
    ensures var r := Lex(s, 0, 0);
            var again := Lex(Print(r.events), 0, 0);
            again.outcome == Parsed(|Print(r.events)|) && Flat(again.events) == Flat(r.events)
  {
    CallsArePrintable(s, 0, 0);
    PrintThenParse(Lex(s, 0, 0).events);
  }

  // ---------- some formats ----------

  /** One specifier in the standard numeric system. */
  lemma SpecIsRead(s: string, p: nat, k: Kind)
    requires p + 1 < |s| && s[p] == '%' && Token(s, p + 1) == Some((OnSpec(k, Standard), p + 2))
    ensures Lex(s, p, p) == After([OnSpec(k, Standard)], Lex(s, p + 2, p + 2))
  {
  }

  /** One character of text before a specifier. */
  lemma SeparatorIsRead(s: string, p: nat, k: Kind)
    requires p + 2 < |s| && s[p] != '%' && s[p] != '}'
    requires s[p + 1] == '%' && Token(s, p + 2) == Some((OnSpec(k, Standard), p + 3))
    ensures Lex(s, p, p) == After([OnText([s[p]]), OnSpec(k, Standard)], Lex(s, p + 3, p + 3))
  {
    assert s[p..p + 1] == [s[p]];
    assert [OnText([s[p]])] + [OnSpec(k, Standard)] == [OnText([s[p]]), OnSpec(k, Standard)];
  }

  lemma OneSpec(s: string, k: Kind)
    requires |s| == 2 && s[0] == '%' && Token(s, 1) == Some((OnSpec(k, Standard), 2))
    ensures Lex(s, 0, 0) == Result([OnSpec(k, Standard)], Parsed(2))
  {
  }

  lemma AlternativeSpec(s: string, mark: char, e: Event)
    requires |s| == 3 && s[0] == '%' && s[1] == mark
    requires (mark == 'E' && AfterE(s[2]) == Some(e)) || (mark == 'O' && AfterO(s[2]) == Some(e))
    ensures Lex(s, 0, 0) == Result([e], Parsed(3))
  {
    hide AfterE, AfterO;
    assert Token(s, 1) == Some((e, 3));
    assert Lex(s, 3, 3) == Result([], Parsed(3));
    assert [] + [e] + [] == [e];
  }

  lemma TwoSpecs(s: string, j: Kind, k: Kind)
    requires |s| == 4 && s[0] == '%' && s[2] == '%'
    requires Token(s, 1) == Some((OnSpec(j, Standard), 2)) && Token(s, 3) == Some((OnSpec(k, Standard), 4))
    ensures Lex(s, 0, 0) == Result([OnSpec(j, Standard), OnSpec(k, Standard)], Parsed(4))
  {
    SpecIsRead(s, 0, j);
    SpecIsRead(s, 2, k);
    assert Lex(s, 4, 4) == Result([], Parsed(4));
  }

  lemma ThreeSpecs(s: string, j: Kind, k: Kind, l: Kind, sep: char)
    requires |s| == 8 && s[0] == '%' && s[2] == s[5] == sep && s[3] == '%' && s[6] == '%' && sep != '%' && sep != '}'
    requires Token(s, 1) == Some((OnSpec(j, Standard), 2)) && Token(s, 4) == Some((OnSpec(k, Standard), 5))
    requires Token(s, 7) == Some((OnSpec(l, Standard), 8))
    ensures Lex(s, 0, 0) == Result([OnSpec(j, Standard), OnText([sep]), OnSpec(k, Standard), OnText([sep]), OnSpec(l, Standard)],
                                   Parsed(8))
  {
    SpecIsRead(s, 0, j);
    SeparatorIsRead(s, 2, k);
    SeparatorIsRead(s, 5, l);
    assert Lex(s, 8, 8) == Result([], Parsed(8));
  }

  // ---------- the formatters that parse twice ----------

  /** The specs for which `format` takes a short cut. */
  datatype Fast = Unknown | YearMonthDay | HhMmSs

  /** A range without a leading ':'. */
  function AfterColon(range: string): string {
    if range != "" && range[0] == ':' then range[1..] else range
  }

  /** The calls of the checker on a range, from which a leading ':' is dropped. */
  function Checked(range: string): Result {
    Handled(Lex(AfterColon(range), 0, 0), TmChecker)
  }

  const DEFAULT_SPECS: string := "%F %T"

  const DEFAULT_CALLS: seq<Event> := [OnSpec(IsoDate, Standard), OnText(" "), OnSpec(IsoTime, Standard)]

  lemma DefaultParses()
    ensures Lex(DEFAULT_SPECS, 0, 0) == Result(DEFAULT_CALLS, Parsed(|DEFAULT_SPECS|))
    ensures Checked(DEFAULT_SPECS) == Result(DEFAULT_CALLS, Parsed(|DEFAULT_SPECS|))
  {
    var s := DEFAULT_SPECS;
    SpecIsRead(s, 0, IsoDate);
    SeparatorIsRead(s, 2, IsoTime);
    assert Lex(s, 5, 5) == Result([], Parsed(5));
    HandledUnchanged(Lex(s, 0, 0), TmChecker);
  }

  /** `formatter<std::tm>`: parses with the checker, saves the range, and parses it again when formatting. */
  class TmFormatter {
    var specs: string
    var fast: Fast

    constructor ()
      ensures specs == "" && fast == Unknown
    {
      specs, fast := "", Unknown;
    }

    /** The constructor of the `time_point` formatter, which parses the default specs first. */
    constructor WithDefault()
      ensures specs == DEFAULT_SPECS && fast == Unknown
      ensures Handled(Lex(specs, 0, 0), AnyWriter) == Result(DEFAULT_CALLS, Parsed(|DEFAULT_SPECS|))
    {
      specs, fast := "", Unknown;
      new;
      DefaultParses();
      hide Lex, Handled;
      var r := DoParse(DEFAULT_SPECS, false);
      assert specs == DEFAULT_SPECS by {
        assert DEFAULT_SPECS[..|DEFAULT_SPECS|] == DEFAULT_SPECS;
      }
    }

    /** `do_parse`, with the checker's calls; positions count from the start of the range after a ':'. */
    method DoParse(range: string, withDefault: bool) returns (r: Result)
      requires fast == Unknown
      modifies this
      ensures r == Checked(range)
      ensures r.outcome.Parsed? && (r.outcome.end > 0 || !withDefault) ==>
                && r.outcome.end <= |AfterColon(range)| && specs == AfterColon(range)[..r.outcome.end]
                && Handled(Lex(specs, 0, 0), AnyWriter) == r
                && forall i :: 0 <= i < |r.events| ==> Accepts(TmChecker, r.events[i])
      ensures !(r.outcome.Parsed? && (r.outcome.end > 0 || !withDefault)) ==> specs == old(specs)
      ensures fast == Unknown || fast == FastOf(specs)
    {
      var begin := range;
      if begin != "" && begin[0] == ':' {
        begin := begin[1..];
      }
      r := ParseChronoFormat(begin, TmChecker);
      if !r.outcome.Parsed? {
        return;
      }
      TwoPassesAgree(begin, TmChecker, AnyWriter);
      hide Lex, Handled;
      if !withDefault || r.outcome.end != 0 {
        specs := begin[..r.outcome.end];
      }
      if |specs| == 2 && specs[0] == '%' {
        if specs[1] == 'F' {
          fast := YearMonthDay;
        } else if specs[1] == 'T' {
          fast := HhMmSs;
        }
      }
    }

    /** `format`: the calls that the writer receives. */
    method Format() returns (r: Result)
      requires fast == Unknown || fast == FastOf(specs)
      ensures r == Handled(Lex(specs, 0, 0), AnyWriter)
    {
      if fast == YearMonthDay {
        FastPaths();
        r := Result([OnSpec(IsoDate, Standard)], Parsed(2));
      } else if fast == HhMmSs {
        FastPaths();
        r := Result([OnSpec(IsoTime, Standard)], Parsed(2));
      } else {
        r := ParseChronoFormat(specs, AnyWriter);
      }
    }
  }

  function FastOf(specs: string): Fast {
    if specs == "%F" then YearMonthDay
    else if specs == "%T" then HhMmSs
    else Unknown
  }

  /** The short cuts make the calls that parsing would make. */
  lemma FastPaths()
    ensures Handled(Lex("%F", 0, 0), AnyWriter) == Result([OnSpec(IsoDate, Standard)], Parsed(2))
    ensures Handled(Lex("%T", 0, 0), AnyWriter) == Result([OnSpec(IsoTime, Standard)], Parsed(2))
  {
  }

  /** A formatter that accepts a range formats with the calls the checker accepted, whichever path it takes. */
  method ParseAndFormat(range: string) returns (parsed: Result, formatted: Result)
    ensures parsed == Checked(range)
    ensures parsed.outcome.Parsed? ==>
              && formatted == parsed
              && forall i :: 0 <= i < |parsed.events| ==> Accepts(TmChecker, parsed.events[i])
  {
    hide Lex, Handled, Checked;
    var f := new TmFormatter();
    parsed := f.DoParse(range, false);
    if parsed.outcome.Parsed? {
      formatted := f.Format();
    } else {
      formatted := parsed;
    }
  }

  /**
   * A time point's formatter that accepts an empty range formats with the default
   * calls, and any other range with the calls it accepted.
   */
  method ParseAndFormatWithDefault(range: string) returns (parsed: Result, formatted: Result)
    ensures parsed == Checked(range)
    ensures parsed.outcome.Parsed? ==>
              formatted == if parsed.outcome.end == 0 then Result(DEFAULT_CALLS, Parsed(|DEFAULT_SPECS|)) else parsed
  {
    hide Lex, Handled, Checked;
    var f := new TmFormatter.WithDefault();
    parsed := f.DoParse(range, true);
    if parsed.outcome.Parsed? {
      formatted := f.Format();
    } else {
      formatted := parsed;
    }
  }
}
