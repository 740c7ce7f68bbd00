/**
 * Format strings written down from what they are meant to say, and read again:
 * the run-time reader and the compiler, each against a meaning that does not
 * look at characters.
 */
module WrittenFormat {
  import Decimal
  import opened FormatArgs
  import opened FormatCompiler
  import opened RuntimeFormat
  import opened BoundedOutput
  import opened Wrappers

  /** The ways a field can choose its argument. */
  datatype Choice = ByCounter | ByNumber(n: nat) | ByName(name: string)

  /** One character of text, or a replacement field with or without specs. */
  datatype Written = Character(c: char) | Replacement(choice: Choice, spec: Option<string>)

  function WriteChoice(c: Choice): string {
    match c
    case ByCounter => ""
    case ByNumber(n) => Decimal.Text(n)
    case ByName(name) => name
  }

  function WriteOne(w: Written): string {
    match w
    case Character(c) => if c == '{' || c == '}' then [c, c] else [c]
    case Replacement(choice, spec) =>
      "{" + WriteChoice(choice) + (if spec.Some? then ":" + spec.value else "") + "}"
  }

  function WriteAll(ws: seq<Written>): string {
    if ws == [] then "" else WriteOne(ws[0]) + WriteAll(ws[1..])
  }

  // ---------- what it means at run time ----------

  /** A name that can be written in a field. */
  predicate IsName(name: string) {
    name != "" && IsNameStart(name[0]) && forall i :: 0 <= i < |name| ==> IsNameChar(name[i])
  }

  /** The argument a field chooses and the next automatic one; -1 stands for the manual mode. */
  function Chosen(c: Choice, args: seq<FormatArg>, next: int): Option<(nat, int)> {
    match c
    case ByCounter => if 0 <= next < |args| then Some((next, next + 1)) else None
    case ByNumber(n) => if next <= 0 && Clamped(n) < |args| then Some((Clamped(n), -1)) else None
    case ByName(name) =>
      var j := Lookup(name, args, 0);
      if j.Some? then Some((j.value, next)) else None
  }

  /** What a field writes about its argument. */
  function FieldText(a: FormatArg, spec: Option<string>): string {
    if spec.Some? then a.withSpec(spec.value) else a.plain
  }

  /** The text of a list of characters and fields, or None where a field finds no argument. */
  function Meaning(ws: seq<Written>, args: seq<FormatArg>, next: int): Option<string> {
    if ws == [] then Some("")
    else
      match ws[0]
      case Character(c) => Append(Some([c]), Meaning(ws[1..], args, next))
      case Replacement(choice, spec) =>
        match Chosen(choice, args, next)
        case None => None
        case Some((i, next')) => Append(Some(FieldText(args[i], spec)), Meaning(ws[1..], args, next'))
  }

  /** Names are names, and each formatter takes exactly its specs out of the text that follows. */
  predicate Readable(ws: seq<Written>, args: seq<FormatArg>, next: int) {
    ws == []
    || match ws[0]
       case Character(_) => Readable(ws[1..], args, next)
       case Replacement(choice, spec) =>
         && (choice.ByName? ==> IsName(choice.name))
         && match Chosen(choice, args, next)
            case None => true
            case Some((i, next')) =>
              && (spec.Some? ==> args[i].parse(spec.value + "}" + WriteAll(ws[1..])) == Some(|spec.value|))
              && Readable(ws[1..], args, next')
  }

  // ---------- ids are read as they are written ----------

  /** A written choice, followed by a brace or a colon, is read as that choice. */
  lemma ChoiceIsRead(s: string, pos: nat, c: Choice)
    requires pos + |WriteChoice(c)| < |s| && s[pos..pos + |WriteChoice(c)|] == WriteChoice(c)
    requires var e := s[pos + |WriteChoice(c)|]; e == '}' || e == ':'
    requires c.ByName? ==> IsName(c.name)
    ensures var end := pos + |WriteChoice(c)|;
            match c
            case ByCounter => s[pos] == '}' || s[pos] == ':'
            case ByNumber(n) => s[pos] !in {'{', '}', ':'} && ParseArgId(s, pos) == Index(Clamped(n), end)
            case ByName(name) => s[pos] !in {'{', '}', ':'} && ParseArgId(s, pos) == Name(name, end)
  {
    var end := pos + |WriteChoice(c)|;
    match c
    case ByCounter =>
    case ByNumber(n) =>
      Decimal.TextReadsBack(n);
      assert s[pos] == s[pos..end][0] && Decimal.IsDigit(s[pos]);
      IndexReadsBack(s, pos, n);
    case ByName(name) =>
      assert s[pos] == s[pos..end][0];
      NameStops(s, pos + 1, end, name, 1);
  }

  lemma {:induction false} NameStops(s: string, p: nat, end: nat, name: string, k: nat)
    requires p <= end < |s| && k <= |name| && s[p..end] == name[k..] && !IsNameChar(s[end])
    requires forall i :: 0 <= i < |name| ==> IsNameChar(name[i])
    ensures NameEnd(s, p) == end
    decreases end - p
  {
    if p < end {
      assert s[p] == s[p..end][0] == name[k];
      assert s[p + 1..end] == s[p..end][1..] == name[k + 1..];
      NameStops(s, p + 1, end, name, k + 1);
    }
  }

  /** What stands between a field's id and the text after the field, and that text. */
  function Closing(spec: Option<string>, rest: string): string {
    if spec.Some? then ":" + (spec.value + ("}" + rest)) else "}" + rest
  }

  lemma Regroup(id: string, spec: Option<string>, rest: string)
    ensures "{" + id + (if spec.Some? then ":" + spec.value else "") + "}" + rest == "{" + (id + Closing(spec, rest))
  {
  }

  lemma SplitAt(s: string, pos: nat, a: string, b: string)
    requires pos <= |s| && s[pos..] == a + b
    ensures pos + |a| <= |s| && s[pos..pos + |a|] == a && s[pos + |a|..] == b
  {
    assert s[pos..pos + |a|] == s[pos..][..|a|];
    assert s[pos + |a|..] == s[pos..][|a|..];
  }

  /** Where a field's id ends. */
  function IdEnd(pos: nat, choice: Choice): nat {
    pos + 1 + |WriteChoice(choice)|
  }

  /** The parts of a written field inside the string. */
  lemma FieldParts(s: string, pos: nat, choice: Choice, spec: Option<string>, rest: string)
    requires pos <= |s| && s[pos..] == WriteOne(Replacement(choice, spec)) + rest
    ensures var end := IdEnd(pos, choice);
            pos < end <= |s| && s[pos] == '{' && s[pos + 1..end] == WriteChoice(choice) && s[end..] == Closing(spec, rest)
  {
    var id := WriteChoice(choice);
    Regroup(id, spec, rest);
    hide WriteChoice, Closing;
    SplitAt(s, pos, "{", id + Closing(spec, rest));
    assert s[pos] == s[pos..pos + 1][0];
    SplitAt(s, pos + 1, id, Closing(spec, rest));
  }

  /** What follows a field's id, part by part. */
  lemma ClosingParts(s: string, end: nat, spec: Option<string>, rest: string)
    requires end <= |s| && s[end..] == Closing(spec, rest)
    ensures end < |s|
    ensures spec.None? ==> s[end] == '}' && s[end + 1..] == rest
    ensures spec.Some? ==>
              var e := end + 1 + |spec.value|;
              && s[end] == ':' && s[end + 1..] == spec.value + "}" + rest
              && e < |s| && s[end + 1..e] == spec.value && s[e] == '}' && s[e + 1..] == rest
  {
    if spec.None? {
      SplitAt(s, end, "}", rest);
      assert s[end] == s[end..end + 1][0];
    } else {
      var e := end + 1 + |spec.value|;
      SplitAt(s, end, ":", spec.value + ("}" + rest));
      assert s[end] == s[end..end + 1][0];
      SplitAt(s, end + 1, spec.value, "}" + rest);
      SplitAt(s, e, "}", rest);
      assert s[e] == s[e..e + 1][0];
      assert spec.value + ("}" + rest) == spec.value + "}" + rest;
    }
  }

  lemma FieldLength(choice: Choice, spec: Option<string>)
    ensures |WriteOne(Replacement(choice, spec))|
         == |WriteChoice(choice)| + 2 + if spec.Some? then 1 + |spec.value| else 0
  {
  }

  // ---------- the run-time reader ----------

  /** The reader's result from a position on, as text. */
  function ReadOutput(s: string, args: seq<FormatArg>, pos: nat, next: int): Option<string>
    requires pos <= |s|
  {
    var items := Read(s, args, pos, next);
    if items.Some? then ItemsOutput(items.value, args) else None
  }

  /** One step of the reader, in terms of text. */
  lemma StepOutput(s: string, args: seq<FormatArg>, pos: nat, next: int)
    requires pos < |s|
    ensures match StepAt(s, args, pos, next)
            case Bad => ReadOutput(s, args, pos, next) == None
            case Step(item, end, nextId) =>
              ReadOutput(s, args, pos, next) == Append(ItemOutput(item, args), ReadOutput(s, args, end, nextId))
  {
    match StepAt(s, args, pos, next)
    case Bad =>
    case Step(item, end, nextId) =>
      var rest := Read(s, args, end, nextId);
      if rest.Some? {
        assert ([item] + rest.value)[1..] == rest.value;
      }
  }

  lemma LiteralStep(s: string, args: seq<FormatArg>, pos: nat, next: int, c: char, rest: string)
    requires pos <= |s| && s[pos..] == WriteOne(Character(c)) + rest
    ensures var end := pos + |WriteOne(Character(c))|;
            pos < end <= |s| && s[end..] == rest && StepAt(s, args, pos, next) == Step(Char(c), end, next)
  {
    var t, w := s[pos..], WriteOne(Character(c));
    assert s[pos] == t[0] == c;
    assert |w| == 2 ==> s[pos + 1] == t[1] == c;
    assert s[pos + |w|..] == t[|w|..] == rest;
  }

  /** The reader takes a written field as it is meant. */
  lemma FieldStep(s: string, args: seq<FormatArg>, pos: nat, next: int, choice: Choice, spec: Option<string>, rest: string)
    requires pos <= |s| && s[pos..] == WriteOne(Replacement(choice, spec)) + rest
    requires next >= -1 && (choice.ByName? ==> IsName(choice.name))
    requires var c := Chosen(choice, args, next);
             c.Some? && spec.Some? ==> args[c.value.0].parse(spec.value + "}" + rest) == Some(|spec.value|)
    ensures pos < |s|
    ensures var end := pos + |WriteOne(Replacement(choice, spec))|;
            && end <= |s| && s[end..] == rest
            && StepAt(s, args, pos, next)
               == match Chosen(choice, args, next)
                  case None => Bad
                  case Some((i, next')) => Step(if spec.Some? then WithSpec(i, spec.value) else Plain(i), end, next')
  {
    hide WriteChoice, WriteOne, Closing, Lookup, ParseArgId;
    var end := IdEnd(pos, choice);
    FieldLength(choice, spec);
    FieldParts(s, pos, choice, spec, rest);
    ClosingParts(s, end, spec, rest);
    FieldStepById(s, args, pos, next, choice);
    hide Chosen, StepAt;
    match Chosen(choice, args, next)
    case None =>
    case Some((i, next')) => FieldEnds(s, args, i, end, next', spec, rest);
  }

  /** The id of a written field selects what it says. */
  lemma FieldStepById(s: string, args: seq<FormatArg>, pos: nat, next: int, choice: Choice)
    requires next >= -1 && (choice.ByName? ==> IsName(choice.name))
    requires IdEnd(pos, choice) < |s| && s[pos] == '{' && s[pos + 1..IdEnd(pos, choice)] == WriteChoice(choice)
    requires s[IdEnd(pos, choice)] == '}' || s[IdEnd(pos, choice)] == ':'
    ensures StepAt(s, args, pos, next)
         == match Chosen(choice, args, next)
            case None => Bad
            case Some((i, next')) => RuntimeField(s, args, i, IdEnd(pos, choice), next')
  {
    hide ParseArgId, WriteChoice, Lookup, RuntimeField, IsName, StepAt;
    ChoiceIsRead(s, pos + 1, choice);
    OpenedStep(s, args, pos, next);
    match choice
    case ByCounter =>
      CounterIsEmpty();
      if next >= 0 {
        NoArgument(s, args, next, pos + 1, next + 1);
      }
    case ByNumber(n) =>
      NoArgument(s, args, Clamped(n), IdEnd(pos, choice), -1);
    case ByName(name) =>
  }

  lemma NoArgument(s: string, args: seq<FormatArg>, i: nat, end: nat, next: int)
    requires end <= |s|
    ensures i >= |args| ==> RuntimeField(s, args, i, end, next) == Bad
  {
  }

  /** The reader behind an opening brace. */
  lemma OpenedStep(s: string, args: seq<FormatArg>, pos: nat, next: int)
    requires pos + 1 < |s| && s[pos] == '{' && s[pos + 1] != '{'
    ensures s[pos + 1] == '}' || s[pos + 1] == ':' ==>
              StepAt(s, args, pos, next) == (if next < 0 then Bad else RuntimeField(s, args, next, pos + 1, next + 1))
    ensures s[pos + 1] != '}' && s[pos + 1] != ':' ==>
              var a := ParseArgId(s, pos + 1);
              && (a.Index? ==>
                    StepAt(s, args, pos, next) == (if next > 0 then Bad else RuntimeField(s, args, a.value, a.end, -1)))
              && (a.Name? ==>
                    StepAt(s, args, pos, next)
                    == (if Lookup(a.name, args, 0).None? then Bad
                        else RuntimeField(s, args, Lookup(a.name, args, 0).value, a.end, next)))
  {
    hide ParseArgId, Lookup, RuntimeField;
  }

  lemma FieldEnds(s: string, args: seq<FormatArg>, i: nat, end: nat, next: int, spec: Option<string>, rest: string)
    requires end < |s| && i < |args| && s[end..] == Closing(spec, rest)
    requires spec.Some? ==> args[i].parse(spec.value + "}" + rest) == Some(|spec.value|)
    ensures RuntimeField(s, args, i, end, next)
         == Step(if spec.Some? then WithSpec(i, spec.value) else Plain(i),
                 end + (if spec.Some? then 2 + |spec.value| else 1), next)
  {
    ClosingParts(s, end, spec, rest);
    hide Closing;
  }

  lemma ChosenIs(choice: Choice, args: seq<FormatArg>, next: int)
    requires next >= -1 && Chosen(choice, args, next).Some?
    ensures Chosen(choice, args, next).value.0 < |args| && Chosen(choice, args, next).value.1 >= -1
  {
  }

  lemma NothingLeft(s: string, args: seq<FormatArg>, next: int)
    ensures ReadOutput(s, args, |s|, next) == Some("")
  {
  }

  /** Reading what was written gives what was meant, from any position on. */
  lemma {:induction false} ReadMeans(s: string, args: seq<FormatArg>, pos: nat, next: int, ws: seq<Written>)
    requires pos <= |s| && s[pos..] == WriteAll(ws) && next >= -1
    requires Readable(ws, args, next)
    ensures ReadOutput(s, args, pos, next) == Meaning(ws, args, next)
    decreases |ws|
  {
    hide StepAt, ReadOutput, WriteOne, Chosen, Append;
    if ws == [] {
      assert pos == |s|;
      NothingLeft(s, args, next);
    } else {
      var w, rest := ws[0], WriteAll(ws[1..]);
      var end := pos + |WriteOne(w)|;
      match w
      case Character(c) =>
        LiteralStep(s, args, pos, next, c, rest);
        StepOutput(s, args, pos, next);
        ReadMeans(s, args, end, next, ws[1..]);
      case Replacement(choice, spec) =>
        FieldStep(s, args, pos, next, choice, spec, rest);
        StepOutput(s, args, pos, next);
        if Chosen(choice, args, next).Some? {
          ChosenIs(choice, args, next);
          ReadMeans(s, args, end, Chosen(choice, args, next).value.1, ws[1..]);
        }
    }
  }

  /** Formatting at run time with what was written writes what was meant. */
  lemma FormatMeans(ws: seq<Written>, args: seq<FormatArg>)
    requires Readable(ws, args, 0)
    ensures Format(WriteAll(ws), args) == Meaning(ws, args, 0)
  {
    var s := WriteAll(ws);
    assert s[0..] == s;
    ReadMeans(s, args, 0, 0, ws);
  }

  // ---------- whatever the reader accepts can be written ----------

  lemma Cons(w: Written, ws: seq<Written>)
    ensures WriteAll([w] + ws) == WriteOne(w) + WriteAll(ws)
    ensures ([w] + ws)[0] == w && ([w] + ws)[1..] == ws
  {
    assert ([w] + ws)[1..] == ws;
  }

  lemma JoinAt(s: string, pos: nat, end: nat)
    requires pos <= end <= |s|
    ensures s[pos..] == s[pos..end] + s[end..]
  {
  }

  /** The range of an accepted id is a written choice. */
  lemma ChoiceOfId(s: string, pos: nat) returns (c: Choice)
    requires pos < |s| && !ParseArgId(s, pos).BadId?
    requires var a := ParseArgId(s, pos); a.end < |s| && (s[a.end] == '}' || s[a.end] == ':')
    ensures s[pos..ParseArgId(s, pos).end] == WriteChoice(c) && !c.ByCounter?
    ensures match ParseArgId(s, pos)
            case Index(n, _) => c.ByNumber? && n == Clamped(c.n)
            case Name(name, _) => c == ByName(name) && IsName(name)
            case BadId => true
  {
    ArgIdIsText(s, pos);
    match ParseArgId(s, pos)
    case Index(n, end) =>
      var k: nat :| s[pos..end] == Decimal.Text(k) && n == Clamped(k);
      c := ByNumber(k);
    case Name(name, end) =>
      c := ByName(name);
    case BadId =>
      c := ByName("");
  }

  /** An accepted field was written as some field. */
  lemma FieldOfStep(s: string, args: seq<FormatArg>, pos: nat, next: int) returns (choice: Choice, spec: Option<string>)
    requires pos + 1 < |s| && s[pos] == '{' && s[pos + 1] != '{' && next >= -1
    requires StepAt(s, args, pos, next).Step?
    ensures var st := StepAt(s, args, pos, next);
            && s[pos..st.end] == WriteOne(Replacement(choice, spec))
            && (choice.ByName? ==> IsName(choice.name))
            && Chosen(choice, args, next).Some?
            && Chosen(choice, args, next).value.1 == st.nextId
            && (spec.Some? ==>
                  args[Chosen(choice, args, next).value.0].parse(spec.value + "}" + s[st.end..]) == Some(|spec.value|))
  {
    var i: nat, end: nat, next': int;
    if s[pos + 1] == '}' || s[pos + 1] == ':' {
      choice, i, end, next' := ByCounter, next, pos + 1, next + 1;
      assert s[pos + 1..end] == "";
    } else {
      choice := ChoiceOfId(s, pos + 1);
      end := ParseArgId(s, pos + 1).end;
      i, next' := Chosen(choice, args, next).value.0, Chosen(choice, args, next).value.1;
    }
    assert StepAt(s, args, pos, next) == RuntimeField(s, args, i, end, next');
    hide StepAt, ParseArgId, WriteChoice, Lookup, Chosen;
    spec := EndOfField(s, args, pos, i, end, next');
    FieldShape(choice, spec);
  }

  lemma FieldShape(choice: Choice, spec: Option<string>)
    ensures WriteOne(Replacement(choice, spec)) == "{" + (WriteChoice(choice) + Closing(spec, ""))
  {
    Regroup(WriteChoice(choice), spec, "");
    hide WriteChoice;
    var t := "{" + WriteChoice(choice) + (if spec.Some? then ":" + spec.value else "") + "}";
    assert t + "" == t;
  }

  lemma PlainRange(s: string, pos: nat, end: nat)
    requires pos < end < |s| && s[pos] == '{' && s[end] == '}'
    ensures s[pos..end + 1] == "{" + (s[pos + 1..end] + ("}" + ""))
  {
  }

  lemma SpecRange(s: string, pos: nat, end: nat, e: nat)
    requires pos < end < e < |s| && s[pos] == '{' && s[end] == ':' && s[e] == '}'
    ensures s[pos..e + 1] == "{" + (s[pos + 1..end] + (":" + (s[end + 1..e] + ("}" + ""))))
  {
    assert s[end + 1..e + 1] == s[end + 1..e] + ("}" + "");
    assert s[end..e + 1] == ":" + s[end + 1..e + 1];
    assert s[pos..e + 1] == "{" + (s[pos + 1..end] + s[end..e + 1]);
  }

  lemma SpecTail(s: string, end: nat, e: nat)
    requires end < e < |s| && s[e] == '}'
    ensures s[end + 1..] == s[end + 1..e] + "}" + s[e + 1..]
  {
  }

  lemma EndOfField(s: string, args: seq<FormatArg>, pos: nat, i: nat, end: nat, next: int) returns (spec: Option<string>)
    requires pos < end <= |s| && s[pos] == '{'
    requires RuntimeField(s, args, i, end, next).Step?
    ensures var st := RuntimeField(s, args, i, end, next);
            && i < |args| && st.nextId == next
            && s[pos..st.end] == "{" + (s[pos + 1..end] + Closing(spec, ""))
            && (spec.Some? ==> args[i].parse(spec.value + "}" + s[st.end..]) == Some(|spec.value|))
  {
    RuntimeFieldShape(s, args, i, end, next);
    hide RuntimeField, Closing;
    if s[end] == '}' {
      spec := None;
      PlainEnd(s, pos, end);
    } else {
      var e := end + 1 + args[i].parse(s[end + 1..]).value;
      spec := Some(s[end + 1..e]);
      SpecEnd(s, pos, end, e);
      SpecTaken(args[i], s, end, e);
    }
  }

  lemma SpecTaken(a: FormatArg, s: string, end: nat, e: nat)
    requires end < e < |s| && s[e] == '}' && a.parse(s[end + 1..]) == Some(e - end - 1)
    ensures a.parse(s[end + 1..e] + "}" + s[e + 1..]) == Some(|s[end + 1..e]|)
  {
    SpecTail(s, end, e);
  }

  lemma PlainEnd(s: string, pos: nat, end: nat)
    requires pos < end < |s| && s[pos] == '{' && s[end] == '}'
    ensures s[pos..end + 1] == "{" + (s[pos + 1..end] + Closing(None, ""))
  {
    PlainRange(s, pos, end);
  }

  lemma SpecEnd(s: string, pos: nat, end: nat, e: nat)
    requires pos < end < e < |s| && s[pos] == '{' && s[end] == ':' && s[e] == '}'
    ensures s[pos..e + 1] == "{" + (s[pos + 1..end] + Closing(Some(s[end + 1..e]), ""))
  {
    SpecRange(s, pos, end, e);
  }

  lemma RuntimeFieldShape(s: string, args: seq<FormatArg>, i: nat, end: nat, next: int)
    requires end <= |s| && RuntimeField(s, args, i, end, next).Step?
    ensures var st := RuntimeField(s, args, i, end, next);
            && i < |args| && st.nextId == next && end < |s|
            && (s[end] == '}' ==> st.end == end + 1)
            && (s[end] != '}' ==>
                  && s[end] == ':' && args[i].parse(s[end + 1..]).Some?
                  && var e := end + 1 + args[i].parse(s[end + 1..]).value;
                  && e < |s| && s[e] == '}' && st.end == e + 1)
  {
  }

  /** Whatever the run-time reader accepts was written down from some list. */
  lemma {:induction false} AcceptedIsWritten(s: string, args: seq<FormatArg>, pos: nat, next: int) returns (ws: seq<Written>)
    requires pos <= |s| && next >= -1 && Read(s, args, pos, next).Some?
    ensures s[pos..] == WriteAll(ws) && Readable(ws, args, next)
    decreases |s| - pos
  {
    if pos == |s| {
      ws := [];
    } else {
      var st := StepAt(s, args, pos, next);
      JoinAt(s, pos, st.end);
      if s[pos] == '{' && s[pos + 1] != '{' {
        var choice, spec := FieldOfStep(s, args, pos, next);
        hide StepAt;
        ChosenIs(choice, args, next);
        var rest := AcceptedIsWritten(s, args, st.end, st.nextId);
        Cons(Replacement(choice, spec), rest);
        ws := [Replacement(choice, spec)] + rest;
      } else {
        assert s[pos..st.end] == WriteOne(Character(s[pos]));
        assert st.nextId == next;
        hide StepAt;
        var rest := AcceptedIsWritten(s, args, st.end, next);
        Cons(Character(s[pos]), rest);
        ws := [Character(s[pos])] + rest;
      }
    }
  }

  /** The run-time formatter writes a text exactly if the string was written from a list that means the text. */
  lemma FormatExactly(s: string, args: seq<FormatArg>, t: string)
    ensures Format(s, args) == Some(t)
       <==> exists ws :: s == WriteAll(ws) && Readable(ws, args, 0) && Meaning(ws, args, 0) == Some(t)
  {
    if Format(s, args) == Some(t) {
      var ws := AcceptedIsWritten(s, args, 0, 0);
      assert s[0..] == s;
      FormatMeans(ws, args);
      assert s == WriteAll(ws) && Readable(ws, args, 0) && Meaning(ws, args, 0) == Some(t);
    }
    if exists ws :: s == WriteAll(ws) && Readable(ws, args, 0) && Meaning(ws, args, 0) == Some(t) {
      var ws :| s == WriteAll(ws) && Readable(ws, args, 0) && Meaning(ws, args, 0) == Some(t);
      FormatMeans(ws, args);
    }
  }

  // ---------- what it means when compiled ----------

  /** What compiling and running gives: a text or a thrown exception, the fallback, or no program. */
  datatype Built = Gives(text: Option<string>) | FallsBack | Fails

  /** The argument a field is compiled for and the id that follows, a name for run time, or no argument. */
  datatype Pick = Fixed(i: nat, id: int) | Late(name: string) | NoPick

  function Picked(c: Choice, args: seq<FormatArg>, id: int): Pick {
    match c
    case ByCounter => if 0 <= id < |args| then Fixed(id, id + 1) else NoPick
    case ByNumber(n) => if id <= 0 && Clamped(n) < |args| then Fixed(Clamped(n), -1) else NoPick
    case ByName(name) =>
      var i := StaticLookup(name, args, 0);
      if i.Some? then Fixed(i.value, if id == -1 then -1 else id + 1) else Late(name)
  }

  function Before(t: Option<string>, b: Built): Built {
    if b.Gives? then Gives(Append(t, b.text)) else b
  }

  function LateText(name: string, args: seq<FormatArg>): Option<string> {
    var j := Lookup(name, args, 0);
    if j.Some? then Some(args[j.value].plain) else None
  }

  /** What a list of characters and fields gives when compiled. */
  function CompiledMeaning(ws: seq<Written>, args: seq<FormatArg>, id: int): Built {
    if ws == [] then Gives(Some(""))
    else
      match ws[0]
      case Character(c) => Before(Some([c]), CompiledMeaning(ws[1..], args, id))
      case Replacement(choice, spec) =>
        match Picked(choice, args, id)
        case NoPick => Fails
        case Late(name) =>
          if spec.Some? then FallsBack else Before(LateText(name, args), CompiledMeaning(ws[1..], args, id))
        case Fixed(i, id') => Before(Some(FieldText(args[i], spec)), CompiledMeaning(ws[1..], args, id'))
  }

  /** Names are names, and each formatter known at compile time takes exactly its specs. */
  predicate Buildable(ws: seq<Written>, args: seq<FormatArg>, id: int) {
    ws == []
    || match ws[0]
       case Character(_) => Buildable(ws[1..], args, id)
       case Replacement(choice, spec) =>
         && (choice.ByName? ==> IsName(choice.name))
         && match Picked(choice, args, id)
            case NoPick => true
            case Late(_) => Buildable(ws[1..], args, id)
            case Fixed(i, id') =>
              && (spec.Some? ==> args[i].parse(spec.value + "}" + WriteAll(ws[1..])) == Some(|spec.value|))
              && Buildable(ws[1..], args, id')
  }

  /** What compiling from a position on gives. */
  function BuildFrom(s: string, args: seq<FormatArg>, pos: nat, id: int): Built
    requires pos <= |s|
  {
    if pos == |s| then Gives(Some(""))
    else BuiltOf(CompileFrom(s, args, pos, id), args)
  }

  function BuiltOf(r: Result, args: seq<FormatArg>): Built {
    match r
    case Compiled(t) => Gives(Output(t, args))
    case UnknownFormat => FallsBack
    case Error => Fails
  }

  /** One head of the compiler, in terms of text. */
  lemma HeadOutput(s: string, args: seq<FormatArg>, pos: nat, id: int)
    requires pos < |s|
    ensures BuildFrom(s, args, pos, id)
         == match HeadAt(s, args, pos, id)
            case Head(p, nextId) => Before(LeafOutput(p.leaf, args), BuildFrom(s, args, p.end, nextId))
            case UnknownHead => FallsBack
            case BadHead => Fails
  {
    match HeadAt(s, args, pos, id)
    case Head(p, nextId) =>
      assert CompileFrom(s, args, pos, id) == ParseTail(s, args, p, p.end, nextId);
      var o := LeafOutput(p.leaf, args);
      hide HeadAt, LeafOutput;
      if p.end == |s| {
        assert o.Some? ==> o.value + "" == o.value;
        assert Output(Single(p), args) == o == Append(o, Some(""));
      } else {
        TailOutput(s, args, p, nextId);
      }
    case UnknownHead =>
    case BadHead =>
  }

  lemma TailOutput(s: string, args: seq<FormatArg>, p: Piece, id: int)
    requires p.end < |s|
    ensures BuiltOf(ParseTail(s, args, p, p.end, id), args) == Before(LeafOutput(p.leaf, args), BuildFrom(s, args, p.end, id))
  {
    hide LeafOutput, Append;
    var tail := CompileFrom(s, args, p.end, id);
    hide CompileFrom;
    if tail.Compiled? {
      assert Output(Concat(Single(p), tail.tree), args) == Append(Output(Single(p), args), Output(tail.tree, args));
    }
  }

  lemma BeforeTwice(a: string, b: string, c: Built)
    ensures Before(Some(a), Before(Some(b), c)) == Before(Some(a + b), c)
  {
    if c.Gives? && c.text.Some? {
      assert a + (b + c.text.value) == (a + b) + c.text.value;
    }
  }

  /** A character of text comes in front of what the rest gives, however the text is cut into pieces. */
  lemma TextStep(s: string, args: seq<FormatArg>, pos: nat, id: int)
    requires pos < |s| && s[pos] != '{' && s[pos] != '}'
    ensures BuildFrom(s, args, pos, id) == Before(Some([s[pos]]), BuildFrom(s, args, pos + 1, id))
  {
    var end := TextEnd(s, pos + 1);
    HeadOutput(s, args, pos, id);
    if end > pos + 1 {
      HeadOutput(s, args, pos + 1, id);
      var p := HeadAt(s, args, pos + 1, id).piece;
      assert p.end == end && LeafOutput(p.leaf, args) == Some(s[pos + 1..end]) by {
        assert TextEnd(s, pos + 2) == end;
        assert s[pos + 1..pos + 2] == [s[pos + 1]];
      }
      assert s[pos..end] == [s[pos]] + s[pos + 1..end];
      hide BuildFrom, HeadAt;
      BeforeTwice([s[pos]], s[pos + 1..end], BuildFrom(s, args, end, id));
    }
  }

  /** A brace that begins a pair, and any closing brace with any character behind it, gives the brace. */
  lemma BraceStep(s: string, args: seq<FormatArg>, pos: nat, id: int)
    requires pos + 1 < |s| && (s[pos] == '}' || (s[pos] == '{' && s[pos + 1] == '{'))
    ensures BuildFrom(s, args, pos, id) == Before(Some([s[pos]]), BuildFrom(s, args, pos + 2, id))
  {
    HeadOutput(s, args, pos, id);
    assert s[pos..pos + 1] == [s[pos]];
  }

  /** A string that ends in the middle of a brace pair does not compile. */
  lemma LastBraceFails(s: string, args: seq<FormatArg>, id: int)
    requires s != "" && (s[|s| - 1] == '{' || s[|s| - 1] == '}')
    ensures BuildFrom(s, args, |s| - 1, id) == Fails
  {
    HeadOutput(s, args, |s| - 1, id);
  }

  /** The id of a written field picks what it says. */
  lemma HeadById(s: string, args: seq<FormatArg>, pos: nat, id: int, choice: Choice)
    requires id >= -1 && (choice.ByName? ==> IsName(choice.name))
    requires IdEnd(pos, choice) < |s| && s[pos] == '{' && s[pos + 1..IdEnd(pos, choice)] == WriteChoice(choice)
    requires s[IdEnd(pos, choice)] == '}' || s[IdEnd(pos, choice)] == ':'
    ensures var end := IdEnd(pos, choice);
            match Picked(choice, args, id)
            case NoPick => HeadAt(s, args, pos, id) == BadHead
            case Fixed(i, id') => exists o :: HeadAt(s, args, pos, id) == FieldHead(s, args, i, o, pos, end, id')
            case Late(name) =>
              HeadAt(s, args, pos, id)
              == if s[end] == '}' then Head(Piece(RuntimeNamed(name), DynamicName, pos, end + 1), id) else UnknownHead
  {
    var end := IdEnd(pos, choice);
    ChoiceIsRead(s, pos + 1, choice);
    hide ParseArgId, WriteChoice, Lookup, StaticLookup;
    match choice
    case ByCounter =>
      assert end == pos + 1 by { CounterIsEmpty(); }
      assert id >= 0 ==> HeadAt(s, args, pos, id) == FieldHead(s, args, id, Automatic, pos, end, id + 1);
    case ByNumber(n) =>
      assert id <= 0 ==> HeadAt(s, args, pos, id) == FieldHead(s, args, Clamped(n), Numbered, pos, end, -1);
    case ByName(name) =>
      var i := StaticLookup(name, args, 0);
      assert i.Some? ==> HeadAt(s, args, pos, id) == FieldHead(s, args, i.value, StaticName, pos, end, if id == -1 then -1 else id + 1);
  }

  lemma CounterIsEmpty()
    ensures WriteChoice(ByCounter) == ""
  {
  }

  lemma FieldCompiles(s: string, args: seq<FormatArg>, i: nat, o: Origin, pos: nat, end: nat, id: int,
                      spec: Option<string>, rest: string)
    requires pos < end < |s| && i < |args| && s[end..] == Closing(spec, rest)
    requires spec.Some? ==> args[i].parse(spec.value + "}" + rest) == Some(|spec.value|)
    ensures FieldHead(s, args, i, o, pos, end, id)
         == Head(Piece(if spec.Some? then SpecField(i, spec.value) else Field(i), o, pos,
                       end + (if spec.Some? then 2 + |spec.value| else 1)), id)
  {
    ClosingParts(s, end, spec, rest);
    hide Closing;
  }

  /** Compiling a written field gives what it is meant to give. */
  lemma FieldBuilds(s: string, args: seq<FormatArg>, pos: nat, id: int, choice: Choice, spec: Option<string>, rest: string)
    requires pos <= |s| && s[pos..] == WriteOne(Replacement(choice, spec)) + rest
    requires id >= -1 && (choice.ByName? ==> IsName(choice.name))
    requires var c := Picked(choice, args, id);
             c.Fixed? && spec.Some? ==> args[c.i].parse(spec.value + "}" + rest) == Some(|spec.value|)
    ensures var end := pos + |WriteOne(Replacement(choice, spec))|;
            && end <= |s| && s[end..] == rest
            && BuildFrom(s, args, pos, id)
               == match Picked(choice, args, id)
                  case NoPick => Fails
                  case Late(name) => if spec.Some? then FallsBack else Before(LateText(name, args), BuildFrom(s, args, end, id))
                  case Fixed(i, id') => Before(Some(FieldText(args[i], spec)), BuildFrom(s, args, end, id'))
  {
    hide WriteChoice, WriteOne, Closing, Lookup, ParseArgId, HeadAt, BuildFrom, FieldHead;
    var end := IdEnd(pos, choice);
    FieldLength(choice, spec);
    FieldParts(s, pos, choice, spec, rest);
    ClosingParts(s, end, spec, rest);
    HeadById(s, args, pos, id, choice);
    HeadOutput(s, args, pos, id);
    match Picked(choice, args, id)
    case NoPick =>
    case Late(name) =>
    case Fixed(i, id') =>
      var o :| HeadAt(s, args, pos, id) == FieldHead(s, args, i, o, pos, end, id');
      FieldCompiles(s, args, i, o, pos, end, id', spec, rest);
  }

  lemma CharacterBuilds(s: string, args: seq<FormatArg>, pos: nat, id: int, c: char, rest: string)
    requires pos <= |s| && s[pos..] == WriteOne(Character(c)) + rest
    ensures var end := pos + |WriteOne(Character(c))|;
            && end <= |s| && s[end..] == rest
            && BuildFrom(s, args, pos, id) == Before(Some([c]), BuildFrom(s, args, end, id))
  {
    LiteralStep(s, args, pos, 0, c, rest);
    hide BuildFrom;
    if c == '{' || c == '}' {
      assert s[pos] == s[pos..][0] && s[pos + 1] == s[pos..][1];
      BraceStep(s, args, pos, id);
    } else {
      assert s[pos] == s[pos..][0];
      TextStep(s, args, pos, id);
    }
  }

  lemma PickedIs(choice: Choice, args: seq<FormatArg>, id: int)
    requires id >= -1 && Picked(choice, args, id).Fixed?
    ensures Picked(choice, args, id).i < |args| && Picked(choice, args, id).id >= -1
  {
  }

  /** Compiling what was written gives what was meant, from any position on. */
  lemma {:induction false} BuildMeans(s: string, args: seq<FormatArg>, pos: nat, id: int, ws: seq<Written>)
    requires pos <= |s| && s[pos..] == WriteAll(ws) && id >= -1 && Buildable(ws, args, id)
    ensures BuildFrom(s, args, pos, id) == CompiledMeaning(ws, args, id)
    decreases |ws|
  {
    hide WriteOne, Picked, Append, Lookup;
    if ws == [] {
      assert pos == |s|;
    } else {
      hide BuildFrom;
      var w, rest := ws[0], WriteAll(ws[1..]);
      var end := pos + |WriteOne(w)|;
      match w
      case Character(c) =>
        CharacterBuilds(s, args, pos, id, c, rest);
        BuildMeans(s, args, end, id, ws[1..]);
      case Replacement(choice, spec) =>
        FieldBuilds(s, args, pos, id, choice, spec, rest);
        match Picked(choice, args, id) {
          case NoPick =>
          case Late(name) =>
            if spec.None? {
              BuildMeans(s, args, end, id, ws[1..]);
            }
          case Fixed(i, id') =>
            PickedIs(choice, args, id);
            BuildMeans(s, args, end, id', ws[1..]);
        }
    }
  }

  lemma CompileBuilds(s: string, args: seq<FormatArg>)
    ensures BuildFrom(s, args, 0, 0) == BuiltOf(Compile(s, args), args)
  {
    hide CompileFrom;
  }

  /** Compiling what was written and running it gives what was meant. */
  lemma CompileMeans(ws: seq<Written>, args: seq<FormatArg>)
    requires Buildable(ws, args, 0)
    ensures BuiltOf(Compile(WriteAll(ws), args), args) == CompiledMeaning(ws, args, 0)
  {
    var s := WriteAll(ws);
    assert s[0..] == s;
    CompileBuilds(s, args);
    BuildMeans(s, args, 0, 0, ws);
  }

  /** The outcome of the entry point: the compiled meaning, or the run-time meaning on the fallback. */
  function WholeMeaning(ws: seq<Written>, args: seq<FormatArg>): Outcome {
    match CompiledMeaning(ws, args, 0)
    case Gives(t) => Runs(t)
    case FallsBack => Runs(Meaning(ws, args, 0))
    case Fails => DoesNotCompile
  }

  /**
   * `format` with a compiled string, on all three of its ways, writes what was
   * meant: late-named fields with specs get their specs, because the fallback
   * does.
   */
  lemma CompiledFormatMeans(ws: seq<Written>, args: seq<FormatArg>)
    requires Buildable(ws, args, 0) && (CompiledMeaning(ws, args, 0).FallsBack? ==> Readable(ws, args, 0))
    ensures CompiledFormat(WriteAll(ws), args) == WholeMeaning(ws, args)
  {
    var s := WriteAll(ws);
    CompileMeans(ws, args);
    if CompiledMeaning(ws, args, 0).FallsBack? {
      FormatMeans(ws, args);
    }
    hide Compile, Format, Output, CompiledMeaning, Meaning;
    if s == "{}" {
      EmptyFieldBuilds(s, args);
    }
  }

  /** The short cut for `{}` writes what the compiled tree would. */
  lemma EmptyFieldBuilds(s: string, args: seq<FormatArg>)
    requires s == "{}"
    ensures BuiltOf(Compile(s, args), args) == if args == [] then Fails else Gives(Some(args[0].plain))
  {
    assert s[0] == '{' && s[1] == '}' && |s| == 2;
    CompileBuilds(s, args);
    HeadOutput(s, args, 0, 0);
    if args == [] {
      assert HeadAt(s, args, 0, 0) == BadHead;
    } else {
      assert HeadAt(s, args, 0, 0) == Head(Piece(Field(0), Automatic, 0, 2), 1);
      assert BuildFrom(s, args, 2, 1) == Gives(Some(""));
      assert args[0].plain + "" == args[0].plain;
    }
  }

  /** The unbounded output behind the counting and truncating iterators, in the same terms. */
  lemma FullOutputMeans(ws: seq<Written>, args: seq<FormatArg>)
    requires Buildable(ws, args, 0) && (CompiledMeaning(ws, args, 0).FallsBack? ==> Readable(ws, args, 0))
    requires !CompiledMeaning(ws, args, 0).Fails?
    ensures !Compile(WriteAll(ws), args).Error?
    ensures Runs(FullOutput(WriteAll(ws), args)) == WholeMeaning(ws, args)
  {
    CompileMeans(ws, args);
    if CompiledMeaning(ws, args, 0).FallsBack? {
      FormatMeans(ws, args);
    }
    hide Compile, Format, Output, CompiledMeaning, Meaning;
  }

  // ---------- one field that only the run time resolves, with specs ----------

  /** `{name:spec}` with a name of the run time falls back and writes the argument under the specs. */
  lemma LateSpecsApply(name: string, spec: string, args: seq<FormatArg>, j: nat)
    requires IsName(name) && StaticLookup(name, args, 0).None? && Lookup(name, args, 0) == Some(j)
    requires args[j].parse(spec + "}") == Some(|spec|)
    ensures var s := "{" + name + ":" + spec + "}";
            && Format(s, args) == Some(args[j].withSpec(spec))
            && Compile(s, args).UnknownFormat?
            && CompiledFormat(s, args) == Runs(Some(args[j].withSpec(spec)))
            && FullOutput(s, args) == Some(args[j].withSpec(spec))
  {
    var ws := [Replacement(ByName(name), Some(spec))];
    OneLateField(name, spec, args, j);
    hide Readable, Buildable, CompiledMeaning, Meaning, Compile, Format, CompiledFormat, FullOutput, WriteAll,
         StaticLookup, Lookup;
    FormatMeans(ws, args);
    CompileMeans(ws, args);
    CompiledFormatMeans(ws, args);
    FullOutputMeans(ws, args);
  }

  lemma OneLateField(name: string, spec: string, args: seq<FormatArg>, j: nat)
    requires IsName(name) && StaticLookup(name, args, 0).None? && Lookup(name, args, 0) == Some(j)
    requires args[j].parse(spec + "}") == Some(|spec|)
    ensures var ws := [Replacement(ByName(name), Some(spec))];
            && WriteAll(ws) == "{" + name + ":" + spec + "}"
            && Readable(ws, args, 0) && Buildable(ws, args, 0)
            && CompiledMeaning(ws, args, 0) == FallsBack
            && Meaning(ws, args, 0) == Some(args[j].withSpec(spec))
  {
    var w := Replacement(ByName(name), Some(spec));
    var ws, t := [w], args[j].withSpec(spec);
    hide StaticLookup, Lookup, IsName;
    assert ws[1..] == [] && WriteAll([]) == "";
    assert "{" + name + (":" + spec) + "}" == "{" + name + ":" + spec + "}";
    assert WriteOne(w) + "" == WriteOne(w);
    assert spec + "}" + "" == spec + "}";
    assert t + "" == t;
    assert Picked(ByName(name), args, 0) == Late(name) && Chosen(ByName(name), args, 0) == Some((j, 0));
    assert Meaning([], args, 0) == Some("") && Readable([], args, 0) && Buildable([], args, 0);
  }

  // ---------- where compiling is faithful ----------

  /**
   * On a list of characters and fields: every field finds its argument, no
   * automatic or numbered field follows a field named at compile time, a name
   * known at compile time is not taken by an earlier argument, and only names
   * known at compile time come with specs.
   */
  predicate Faithful(ws: seq<Written>, args: seq<FormatArg>, next: int, parted: bool) {
    ws == []
    || match ws[0]
       case Character(_) => Faithful(ws[1..], args, next, parted)
       case Replacement(choice, spec) =>
         match Chosen(choice, args, next)
         case None => false
         case Some((_, next')) =>
           var known := choice.ByName? && StaticLookup(choice.name, args, 0).Some?;
           && (!choice.ByName? ==> !parted)
           && (known ==> StaticLookup(choice.name, args, 0) == Lookup(choice.name, args, 0))
           && (choice.ByName? && !known ==> spec.None?)
           && Faithful(ws[1..], args, next', parted || (known && next != -1))
  }

  lemma CompilableField(s: string, args: seq<FormatArg>, pos: nat, next: int, choice: Choice, spec: Option<string>, rest: string, parted: bool)
    requires pos < |s| && s[pos..] == WriteOne(Replacement(choice, spec)) + rest
    requires next >= -1 && (choice.ByName? ==> IsName(choice.name))
    ensures var known := choice.ByName? && StaticLookup(choice.name, args, 0).Some?;
            && FieldCompilable(s, args, pos, parted)
               == ((!choice.ByName? ==> !parted)
                   && (known ==> StaticLookup(choice.name, args, 0) == Lookup(choice.name, args, 0))
                   && (choice.ByName? && !known ==> spec.None?))
            && (OriginAt(s, args, pos) == StaticName <==> known)
  {
    hide WriteChoice, WriteOne, Closing;
    var end := IdEnd(pos, choice);
    FieldParts(s, pos, choice, spec, rest);
    ClosingParts(s, end, spec, rest);
    ChoiceIsRead(s, pos + 1, choice);
    hide ParseArgId, Lookup, StaticLookup;
    if choice.ByCounter? {
      CounterIsEmpty();
    }
  }

  /** The condition for faithful compilation, found on the characters, is the one on the list. */
  lemma {:induction false} CompilableMeans(s: string, args: seq<FormatArg>, pos: nat, next: int, ws: seq<Written>, parted: bool)
    requires pos <= |s| && s[pos..] == WriteAll(ws) && next >= -1 && Readable(ws, args, next)
    ensures Compilable(s, args, pos, next, parted) <==> Faithful(ws, args, next, parted)
    decreases |ws|
  {
    hide StepAt, WriteOne, Chosen, FieldCompilable, OriginAt, Lookup, StaticLookup;
    if ws == [] {
      assert pos == |s|;
    } else {
      var w, rest := ws[0], WriteAll(ws[1..]);
      var end := pos + |WriteOne(w)|;
      match w
      case Character(c) =>
        LiteralStep(s, args, pos, next, c, rest);
        LiteralOrigin(s, args, pos, c, rest);
        CompilableMeans(s, args, end, next, ws[1..], parted);
      case Replacement(choice, spec) =>
        FieldStep(s, args, pos, next, choice, spec, rest);
        CompilableField(s, args, pos, next, choice, spec, rest, parted);
        if Chosen(choice, args, next).Some? {
          ChosenIs(choice, args, next);
          var known := choice.ByName? && StaticLookup(choice.name, args, 0).Some?;
          CompilableMeans(s, args, end, Chosen(choice, args, next).value.1, ws[1..], parted || (known && next != -1));
        }
    }
  }

  lemma LiteralOrigin(s: string, args: seq<FormatArg>, pos: nat, c: char, rest: string)
    requires pos < |s| && s[pos..] == WriteOne(Character(c)) + rest
    ensures OriginAt(s, args, pos) == Origin.Literal && forall parted :: FieldCompilable(s, args, pos, parted)
  {
    assert s[pos] == s[pos..][0] == c;
    if c == '{' {
      assert s[pos + 1] == s[pos..][1] == '{';
    }
  }

  /**
   * The compiled form of what was written reads as the run-time form if and only
   * if the list meets the condition.
   */
  lemma MatchesMeans(ws: seq<Written>, args: seq<FormatArg>)
    requires Readable(ws, args, 0)
    ensures Matches(WriteAll(ws), args) <==> Faithful(ws, args, 0, false)
  {
    var s := WriteAll(ws);
    assert s[0..] == s;
    CompilableMeans(s, args, 0, 0, ws, false);
    CompiledMatchesRuntime(s, args);
  }
}
