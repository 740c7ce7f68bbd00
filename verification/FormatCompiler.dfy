/** What the two readers of a format string share: the arguments and the argument ids. */
module FormatArgs {
  import opened Arith
  import opened Decimal
  import opened Wrappers

  /** A formatter's `parse`: how many characters of the text after ':' it consumes, or None if it throws. */
  type SpecParser = f: string -> Option<nat> | forall s :: f(s).Some? ==> f(s).value <= |s| witness (s: string) => None

  /**
   * One formatting argument: the name it may carry and whether that name is known
   * at compile time, the text `{}` writes for it, its formatter's parser, and the
   * text written under given specs.
   */
  datatype FormatArg = FormatArg(name: Option<string>, isStatic: bool, plain: string, parse: SpecParser, withSpec: string -> string)

  const MAX_INT: nat := 0x7fff_ffff

  datatype ArgId =
    | Index(value: nat, end: nat)
    | Name(name: string, end: nat)
    | BadId

  predicate IsNameStart(c: char) {
    'a' <= c <= 'z' || 'A' <= c <= 'Z' || c == '_'
  }

  predicate IsNameChar(c: char) {
    IsNameStart(c) || IsDigit(c)
  }

  /** Where the digits from pos on end. */
  function DigitsEnd(s: string, pos: nat): (r: nat)
    requires pos <= |s|
    ensures pos <= r <= |s| && AllDigits(s[pos..r])
    ensures r < |s| ==> !IsDigit(s[r])
    decreases |s| - pos
  {
    if pos < |s| && IsDigit(s[pos]) then DigitsEnd(s, pos + 1) else pos
  }

  /** Where the name from pos on ends. */
  function NameEnd(s: string, pos: nat): (r: nat)
    requires pos <= |s|
    ensures pos <= r <= |s| && forall i :: pos <= i < r ==> IsNameChar(s[i])
    ensures r < |s| ==> !IsNameChar(s[r])
    decreases |s| - pos
  {
    if pos < |s| && IsNameChar(s[pos]) then NameEnd(s, pos + 1) else pos
  }

  const UINT_MODULUS: nat := 0x1_0000_0000

  /**
   * `parse_nonnegative_int` with the largest int as the error value: the digits
   * are added up in `unsigned`, which wraps, and overflow is told from the number
   * of digits and the value before the last one.
   */
  method ParseNonnegativeInt(s: string, pos: nat) returns (n: nat, end: nat)
    requires pos < |s| && IsDigit(s[pos]) && s[pos] != '0'
    ensures end == DigitsEnd(s, pos + 1)
    ensures pos < end && AllDigits(s[pos..end]) && n == Clamped(Value(s[pos..end]))
    ensures n == if Value(s[pos..end]) <= 2_147_483_647 then Value(s[pos..end]) else 2_147_483_647
  {
    hide Value, DigitsEnd;
    var value, prev, p := DigitValue(s[pos]), 0, pos + 1;
    FirstDigit(s, pos);
    while p != |s| && IsDigit(s[p])
      invariant pos < p <= |s| && AllDigits(s[pos..p]) && AllDigits(s[pos..p - 1])
      invariant DigitsEnd(s, p) == DigitsEnd(s, pos + 1)
      invariant value == Value(s[pos..p]) % UINT_MODULUS
      invariant prev == Value(s[pos..p - 1]) % UINT_MODULUS
      decreases |s| - p
    {
      AtDigit(s, p);
      OneMoreDigit(s, pos, p);
      WrapsAlike(Value(s[pos..p]), DigitValue(s[p]));
      prev := value;
      value := (value * 10 + DigitValue(s[p])) % UINT_MODULUS;
      p := p + 1;
    }
    AtDigitsEnd(s, p);
    end := p;
    var numDigits := p - pos;
    assert s[pos..p][..numDigits - 1] == s[pos..p - 1];
    OverflowCheck(s[pos..p], value, prev);
    if numDigits <= 9 {
      n := value;
    } else if numDigits == 10 && prev * 10 + DigitValue(s[p - 1]) <= MAX_INT {
      n := value;
    } else {
      n := MAX_INT;
    }
  }

  lemma FirstDigit(s: string, pos: nat)
    requires pos < |s| && IsDigit(s[pos])
    ensures AllDigits(s[pos..pos + 1]) && AllDigits(s[pos..pos])
    ensures DigitValue(s[pos]) == Value(s[pos..pos + 1]) % UINT_MODULUS && Value(s[pos..pos]) == 0
  {
    OneMoreDigit(s, pos, pos);
    assert s[pos..pos] == "";
  }

  lemma AtDigit(s: string, p: nat)
    requires p < |s| && IsDigit(s[p])
    ensures DigitsEnd(s, p) == DigitsEnd(s, p + 1)
  {
  }

  lemma AtDigitsEnd(s: string, p: nat)
    requires p <= |s| && (p == |s| || !IsDigit(s[p]))
    ensures DigitsEnd(s, p) == p
  {
  }

  /** The wrapped sum is the number, unless the test for overflow says otherwise. */
  lemma OverflowCheck(t: string, value: nat, prev: nat)
    requires t != "" && AllDigits(t) && t[0] != '0' && AllDigits(t[..|t| - 1])
    requires value == Value(t) % UINT_MODULUS && prev == Value(t[..|t| - 1]) % UINT_MODULUS
    ensures Clamped(Value(t))
         == if |t| <= 9 || (|t| == 10 && prev * 10 + DigitValue(t[|t| - 1]) <= MAX_INT) then value else MAX_INT
  {
    NumberSize(t);
    NumberSize(t[..|t| - 1]);
    Decide(Value(t), Value(t[..|t| - 1]), DigitValue(t[|t| - 1]), |t|);
  }

  lemma Decide(v: nat, p: nat, d: nat, k: nat)
    requires v == 10 * p + d && d < 10 && k > 0
    requires k <= 9 ==> v < 1_000_000_000
    requires k <= 10 ==> p < 1_000_000_000
    requires k >= 10 ==> v >= 1_000_000_000
    requires k >= 11 ==> v >= 10_000_000_000
    ensures Clamped(v)
         == if k <= 9 || (k == 10 && p % UINT_MODULUS * 10 + d <= MAX_INT) then v % UINT_MODULUS else MAX_INT
  {
  }

  lemma OneMoreDigit(s: string, pos: nat, p: nat)
    requires pos <= p < |s| && AllDigits(s[pos..p]) && IsDigit(s[p])
    ensures AllDigits(s[pos..p + 1]) && Value(s[pos..p + 1]) == 10 * Value(s[pos..p]) + DigitValue(s[p])
  {
    var t := s[pos..p + 1];
    assert t[..|t| - 1] == s[pos..p] && t[|t| - 1] == s[p];
  }

  lemma WrapsAlike(v: nat, d: nat)
    ensures (10 * v + d) % UINT_MODULUS == (v % UINT_MODULUS * 10 + d) % UINT_MODULUS
  {
    var q, r := v / UINT_MODULUS, v % UINT_MODULUS;
    var a := r * 10 + d;
    assert 10 * v + d == UINT_MODULUS * (10 * q + a / UINT_MODULUS) + a % UINT_MODULUS;
    DivUnique(10 * v + d, UINT_MODULUS, 10 * q + a / UINT_MODULUS, a % UINT_MODULUS);
  }

  /** A number without a leading zero, by its count of digits. */
  lemma NumberSize(t: string)
    requires AllDigits(t)
    ensures |t| <= 9 ==> Value(t) < 1_000_000_000
    ensures |t| >= 10 && t[0] != '0' ==> Value(t) >= 1_000_000_000
    ensures |t| >= 11 && t[0] != '0' ==> Value(t) >= 10_000_000_000
  {
    AtMostDigits(t);
    if |t| > 0 && t[0] != '0' {
      AtLeastDigits(t);
    }
    Pow10Values();
    if |t| >= 11 && t[0] != '0' {
      PowersGrow(10, |t| - 1);
    } else if |t| >= 10 && t[0] != '0' {
      PowersGrow(9, |t| - 1);
    } else if |t| <= 9 {
      PowersGrow(|t|, 9);
    }
  }

  lemma Pow10Values()
    ensures Pow10(9) == 1_000_000_000 && Pow10(10) == 10_000_000_000
  {
    assert Pow10(5) == 100_000;
  }

  lemma {:induction false} PowersGrow(a: nat, b: nat)
    requires a <= b
    ensures Pow10(a) <= Pow10(b)
  {
    if a < b {
      PowersGrow(a, b - 1);
    }
  }

  lemma {:induction false} AtMostDigits(t: string)
    requires AllDigits(t)
    ensures Value(t) < Pow10(|t|)
  {
    if t != "" {
      AtMostDigits(t[..|t| - 1]);
    }
  }

  lemma {:induction false} AtLeastDigits(t: string)
    requires t != "" && AllDigits(t) && t[0] != '0'
    ensures Value(t) >= Pow10(|t| - 1)
  {
    if |t| > 1 {
      AtLeastDigits(t[..|t| - 1]);
    } else {
      assert t[..0] == "";
    }
  }

  /** Too large a number reads as the largest int. */
  function Clamped(n: nat): nat {
    if n <= MAX_INT then n else MAX_INT
  }

  /** `parse_arg_id` on an id that is not empty. */
  function ParseArgId(s: string, pos: nat): (r: ArgId)
    requires pos < |s|
    ensures !r.BadId? ==> pos < r.end <= |s|
  {
    var c := s[pos];
    if IsDigit(c) then
      var end := if c == '0' then pos + 1 else DigitsEnd(s, pos + 1);
      if end == |s| || (s[end] != '}' && s[end] != ':') then BadId
      else
        var digits := [c] + s[pos + 1..end];
        Index(Clamped(Value(digits)), end)
    else if !IsNameStart(c) then BadId
    else
      var end := NameEnd(s, pos + 1);
      Name(s[pos..end], end)
  }

  /**
   * Every number is read from its shortest decimal text, up to the largest int,
   * and every other text of digits is refused.
   */
  lemma IndexReadsBack(s: string, pos: nat, n: nat)
    requires pos + |Text(n)| < |s| && s[pos..pos + |Text(n)|] == Text(n)
    requires !IsDigit(s[pos + |Text(n)|])
    ensures var end := pos + |Text(n)|;
            ParseArgId(s, pos) == if s[end] == '}' || s[end] == ':' then Index(Clamped(n), end) else BadId
  {
    var t := Text(n);
    var end := pos + |t|;
    TextReadsBack(n);
    assert s[pos] == s[pos..end][0] == t[0];
    assert [s[pos]] + s[pos + 1..end] == t;
    if s[pos] == '0' {
      assert |t| == 1;
    } else {
      DigitsStop(s, pos + 1, end);
    }
  }

  lemma {:induction false} DigitsStop(s: string, pos: nat, end: nat)
    requires pos <= end < |s| && AllDigits(s[pos..end]) && !IsDigit(s[end])
    ensures DigitsEnd(s, pos) == end
    decreases end - pos
  {
    if pos < end {
      assert s[pos] == s[pos..end][0];
      assert s[pos + 1..end] == s[pos..end][1..];
      DigitsStop(s, pos + 1, end);
    }
  }

  /** Every id that is read was the decimal text of the index, a longer number, or a whole name. */
  lemma ArgIdIsText(s: string, pos: nat)
    requires pos < |s|
    ensures match ParseArgId(s, pos)
            case Index(n, end) =>
              && (s[end] == '}' || s[end] == ':')
              && exists k: nat :: s[pos..end] == Text(k) && n == Clamped(k)
            case Name(name, end) =>
              && name == s[pos..end] && name != "" && IsNameStart(name[0])
              && (forall i :: 0 <= i < |name| ==> IsNameChar(name[i]))
              && (end < |s| ==> !IsNameChar(s[end]))
            case BadId => true
  {
    match ParseArgId(s, pos)
    case Index(n, end) =>
      var t := [s[pos]] + s[pos + 1..end];
      assert s[pos..end] == t;
      ShortestText(t);
      assert s[pos..end] == Text(Value(t)) && n == Clamped(Value(t));
    case Name(name, end) =>
    case BadId =>
  }

  /** Digits without a leading zero, or a single zero, are the text of their value. */
  lemma {:induction false} ShortestText(t: string)
    requires t != "" && AllDigits(t) && (t[0] != '0' || |t| == 1)
    ensures Text(Value(t)) == t
  {
    var front, last := t[..|t| - 1], t[|t| - 1];
    assert t == front + [last];
    if |t| == 1 {
      assert front == "";
      assert t == [last];
    } else {
      ShortestText(front);
      AtLeastDigits(front);
    }
  }

  /** `get_arg_index_by_name`: the first argument whose static name matches. */
  function StaticLookup(name: string, args: seq<FormatArg>, from: nat): (r: Option<nat>)
    requires from <= |args|
    ensures r.Some? ==> from <= r.value < |args| && args[r.value].isStatic && args[r.value].name == Some(name)
    ensures forall i :: from <= i < (if r.Some? then r.value else |args|) ==> !(args[i].isStatic && args[i].name == Some(name))
    decreases |args| - from
  {
    if from == |args| then None
    else if args[from].isStatic && args[from].name == Some(name) then Some(from)
    else StaticLookup(name, args, from + 1)
  }

  /** The first argument that carries the name, whether or not the name is known at compile time. */
  function Lookup(name: string, args: seq<FormatArg>, from: nat): (r: Option<nat>)
    requires from <= |args|
    ensures r.Some? ==> from <= r.value < |args| && args[r.value].name == Some(name)
    ensures forall i :: from <= i < (if r.Some? then r.value else |args|) ==> args[i].name != Some(name)
    decreases |args| - from
  {
    if from == |args| then None
    else if args[from].name == Some(name) then Some(from)
    else Lookup(name, args, from + 1)
  }
}

/** `fmt::detail::compile`: a format string turned into a tree of leaf formatters. */
module FormatCompiler {
  import Decimal
  import opened FormatArgs
  import opened Wrappers

  datatype Leaf =
    | Text(data: string)
    | CodeUnit(value: char)
    | Field(index: nat)
    | RuntimeNamed(name: string)
    | SpecField(index: nat, spec: string)

  /** How a piece of the format string chose its argument. */
  datatype Origin = Literal | Automatic | Numbered | StaticName | DynamicName

  /** A leaf together with the range of the format string it was compiled from. */
  datatype Piece = Piece(leaf: Leaf, origin: Origin, start: nat, end: nat)

  datatype Tree = Single(piece: Piece) | Concat(lhs: Tree, rhs: Tree)

  datatype Result = Compiled(tree: Tree) | UnknownFormat | Error

  /** `manual_indexing_id` */
  const MANUAL: int := -1

  /** `parse_text` */
  function TextEnd(s: string, pos: nat): (r: nat)
    requires pos <= |s|
    ensures pos <= r <= |s|
    ensures forall i :: pos <= i < r ==> s[i] != '{' && s[i] != '}'
    ensures r < |s| ==> s[r] == '{' || s[r] == '}'
    decreases |s| - pos
  {
    if pos == |s| || s[pos] == '{' || s[pos] == '}' then pos else TextEnd(s, pos + 1)
  }

  method ParseText(s: string, pos: nat) returns (r: nat)
    requires pos <= |s|
    ensures r == TextEnd(s, pos)
  {
    r := pos;
    while r != |s|
      invariant pos <= r <= |s|
      invariant TextEnd(s, r) == TextEnd(s, pos)
    {
      if s[r] == '{' || s[r] == '}' {
        break;
      }
      r := r + 1;
    }
  }

  /** The head that one instantiation of `compile_format_string` produces, and the id its tail continues with. */
  datatype Head = Head(piece: Piece, nextId: int) | UnknownHead | BadHead

  /** The head of `parse_replacement_field_then_tail`; `end` is the position of '}' or ':'. */
  function FieldHead(s: string, args: seq<FormatArg>, index: nat, origin: Origin, start: nat, end: nat, nextId: int): (r: Head)
    requires start < end <= |s|
    ensures r.Head? ==> r.piece.start == start < r.piece.end <= |s|
  {
    if index >= |args| || end == |s| then BadHead
    else if s[end] == '}' then Head(Piece(Field(index), origin, start, end + 1), nextId)
    else if s[end] == ':' then
      var n := args[index].parse(s[end + 1..]);
      // the character after the specs is skipped without being looked at
      if n.None? || end + 1 + n.value + 1 > |s| then BadHead
      else
        Head(Piece(SpecField(index, s[end + 1..end + 1 + n.value]), origin, start, end + n.value + 2), nextId)
    else BadHead
  }

  function HeadAt(s: string, args: seq<FormatArg>, pos: nat, id: int): (r: Head)
    requires pos < |s|
    ensures r.Head? ==> r.piece.start == pos < r.piece.end <= |s|
  {
    if s[pos] == '{' then
      if pos + 1 == |s| then BadHead
      else if s[pos + 1] == '{' then Head(Piece(Text(s[pos..pos + 1]), Literal, pos, pos + 2), id)
      else if s[pos + 1] == '}' || s[pos + 1] == ':' then
        if id < 0 then BadHead
        else FieldHead(s, args, id, Automatic, pos, pos + 1, id + 1)
      else
        match ParseArgId(s, pos + 1)
        case BadId => BadHead
        case Index(n, end) =>
          if id == MANUAL || id == 0 then FieldHead(s, args, n, Numbered, pos, end, MANUAL) else BadHead
        case Name(name, end) =>
          var i := StaticLookup(name, args, 0);
          if i.Some? then
            FieldHead(s, args, i.value, StaticName, pos, end, if id == MANUAL then MANUAL else id + 1)
          else if end < |s| && s[end] == '}' then
            Head(Piece(RuntimeNamed(name), DynamicName, pos, end + 1), id)
          else if end < |s| && s[end] == ':' then UnknownHead
          else BadHead
    else if s[pos] == '}' then
      // the second character is skipped without being looked at
      if pos + 1 == |s| then BadHead
      else Head(Piece(Text(s[pos..pos + 1]), Literal, pos, pos + 2), id)
    else
      var end := TextEnd(s, pos + 1);
      var leaf := if end - pos > 1 then Text(s[pos..end]) else CodeUnit(s[pos]);
      Head(Piece(leaf, Literal, pos, end), id)
  }

  /** The compile-time id that follows a piece. */
  function IdAfter(p: Piece, id: int): int {
    match p.origin
    case Automatic => id + 1
    case StaticName => if id == MANUAL then MANUAL else id + 1
    case Numbered => MANUAL
    case _ => id
  }

  /** The text of an argument id selects argument i, in the way the origin says. */
  ghost predicate Selects(text: string, origin: Origin, i: nat, args: seq<FormatArg>, id: int) {
    match origin
    case Automatic => text == "" && i == id
    case Numbered => exists k: nat :: text == Decimal.Text(k) && i == Clamped(k)
    case StaticName => StaticLookup(text, args, 0) == Some(i)
    case _ => false
  }

  /** What a leaf has to do with the characters it was compiled from. */
  ghost predicate Says(leaf: Leaf, source: string, origin: Origin, args: seq<FormatArg>, id: int) {
    match leaf
    case Text(data) =>
      origin == Literal
      && if |source| == 2 && (source[0] == '{' || source[0] == '}') then data == [source[0]]
         else source == data && forall i :: 0 <= i < |data| ==> data[i] != '{' && data[i] != '}'
    case CodeUnit(c) => origin == Literal && source == [c] && c != '{' && c != '}'
    case Field(i) => i < |args| && exists text :: source == "{" + text + "}" && Selects(text, origin, i, args, id)
    case SpecField(i, spec) =>
      i < |args| && exists text, c :: source == "{" + text + ":" + spec + [c] && Selects(text, origin, i, args, id)
    case RuntimeNamed(name) => origin == DynamicName && source == "{" + name + "}" && StaticLookup(name, args, 0).None?
  }

  /** Every compiled piece says what its range of the format string says, and the id goes on as its origin demands. */
  lemma PieceSource(s: string, args: seq<FormatArg>, pos: nat, id: int)
    requires pos < |s| && id >= MANUAL && HeadAt(s, args, pos, id).Head?
    ensures var h := HeadAt(s, args, pos, id);
            && Says(h.piece.leaf, s[pos..h.piece.end], h.piece.origin, args, id)
            && h.nextId == IdAfter(h.piece, id)
  {
    var h := HeadAt(s, args, pos, id);
    hide Says, Selects, FieldHead, Lookup, TextEnd;
    if h.piece.origin == Literal {
      LiteralSource(s, args, pos, id);
    } else if s[pos + 1] == '}' || s[pos + 1] == ':' {
      SelectsAutomatic(id, args);
      assert s[pos + 1..pos + 1] == "";
      FieldSource(s, args, id, Automatic, pos, pos + 1, id + 1, id);
    } else {
      ArgIdIsText(s, pos + 1);
      hide ParseArgId;
      match ParseArgId(s, pos + 1) {
        case Index(n, end) =>
          SelectsNumber(s[pos + 1..end], n, args, id);
          FieldSource(s, args, n, Numbered, pos, end, MANUAL, id);
        case Name(name, end) =>
          var i := StaticLookup(name, args, 0);
          if i.Some? {
            SelectsStatic(name, i.value, args, id);
            FieldSource(s, args, i.value, StaticName, pos, end, if id == MANUAL then MANUAL else id + 1, id);
          } else {
            FieldRange(s, pos, end);
            SaysNamed(name, args, id);
          }
        case BadId =>
      }
    }
  }

  lemma SelectsAutomatic(id: nat, args: seq<FormatArg>)
    ensures Selects("", Automatic, id, args, id)
  {
  }

  lemma SelectsNumber(text: string, n: int, args: seq<FormatArg>, id: int)
    requires exists k: nat :: text == Decimal.Text(k) && n == Clamped(k)
    ensures Selects(text, Numbered, n, args, id)
  {
  }

  lemma SelectsStatic(name: string, i: nat, args: seq<FormatArg>, id: int)
    requires StaticLookup(name, args, 0) == Some(i)
    ensures Selects(name, StaticName, i, args, id)
  {
  }

  lemma SaysNamed(name: string, args: seq<FormatArg>, id: int)
    requires StaticLookup(name, args, 0).None?
    ensures Says(RuntimeNamed(name), "{" + name + "}", DynamicName, args, id)
  {
  }

  lemma LiteralSource(s: string, args: seq<FormatArg>, pos: nat, id: int)
    requires pos < |s| && HeadAt(s, args, pos, id).Head? && HeadAt(s, args, pos, id).piece.origin == Literal
    ensures var h := HeadAt(s, args, pos, id);
            Says(h.piece.leaf, s[pos..h.piece.end], Literal, args, id) && h.nextId == id
  {
    var p := HeadAt(s, args, pos, id).piece;
    var source := s[pos..p.end];
    assert source[0] == s[pos];
    assert s[pos..pos + 1] == [s[pos]];
  }

  lemma FieldSource(s: string, args: seq<FormatArg>, i: nat, origin: Origin, start: nat, end: nat, nextId: int, id: int)
    requires start < end <= |s| && s[start] == '{'
    requires FieldHead(s, args, i, origin, start, end, nextId).Head?
    requires Selects(s[start + 1..end], origin, i, args, id)
    ensures var h := FieldHead(s, args, i, origin, start, end, nextId);
            h.piece.origin == origin && h.nextId == nextId && Says(h.piece.leaf, s[start..h.piece.end], origin, args, id)
  {
    hide Selects, Says, FieldHead;
    FieldPiece(s, args, i, origin, start, end, nextId);
    var p := FieldHead(s, args, i, origin, start, end, nextId).piece;
    if s[end] == '}' {
      SaysField(s, start, end, i, origin, args, id);
    } else {
      SaysSpecField(s, start, end, p.end, i, origin, args, id);
    }
  }

  lemma FieldPiece(s: string, args: seq<FormatArg>, i: nat, origin: Origin, start: nat, end: nat, nextId: int)
    requires start < end <= |s| && FieldHead(s, args, i, origin, start, end, nextId).Head?
    ensures var h := FieldHead(s, args, i, origin, start, end, nextId);
            && i < |args| && end < |s| && (s[end] == '}' || s[end] == ':')
            && h.nextId == nextId && h.piece.origin == origin
            && (s[end] == '}' ==> h.piece.leaf == Field(i) && h.piece.end == end + 1)
            && (s[end] == ':' ==> end + 1 < h.piece.end <= |s| && h.piece.leaf == SpecField(i, s[end + 1..h.piece.end - 1]))
  {
  }

  lemma SaysField(s: string, start: nat, end: nat, i: nat, origin: Origin, args: seq<FormatArg>, id: int)
    requires start < end < |s| && s[start] == '{' && s[end] == '}'
    requires i < |args| && Selects(s[start + 1..end], origin, i, args, id)
    ensures Says(Field(i), s[start..end + 1], origin, args, id)
  {
    hide Selects;
    FieldRange(s, start, end);
  }

  lemma SaysSpecField(s: string, start: nat, end: nat, last: nat, i: nat, origin: Origin, args: seq<FormatArg>, id: int)
    requires start < end < last - 1 < |s| && s[start] == '{' && s[end] == ':'
    requires i < |args| && Selects(s[start + 1..end], origin, i, args, id)
    ensures Says(SpecField(i, s[end + 1..last - 1]), s[start..last], origin, args, id)
  {
    hide Selects;
    SpecRange(s, start, end, last);
  }

  lemma FieldRange(s: string, start: nat, end: nat)
    requires start < end < |s| && s[start] == '{'
    ensures s[end] == '}' ==> s[start..end + 1] == "{" + s[start + 1..end] + "}"
  {
  }

  lemma SpecRange(s: string, start: nat, end: nat, last: nat)
    requires start < end < last - 1 < |s| && s[start] == '{' && s[end] == ':'
    ensures s[start..last] == "{" + s[start + 1..end] + ":" + s[end + 1..last - 1] + [s[last - 1]]
  {
  }

  /** `compile_format_string` */
  function CompileFrom(s: string, args: seq<FormatArg>, pos: nat, id: int): Result
    requires pos < |s|
    decreases |s| - pos, 0
  {
    match HeadAt(s, args, pos, id)
    case Head(piece, nextId) => ParseTail(s, args, piece, piece.end, nextId)
    case UnknownHead => UnknownFormat
    case BadHead => Error
  }

  /** `parse_tail` */
  function ParseTail(s: string, args: seq<FormatArg>, head: Piece, pos: nat, id: int): Result
    requires pos <= |s|
    decreases |s| - pos, 1
  {
    if pos == |s| then Compiled(Single(head))
    else
      var tail := CompileFrom(s, args, pos, id);
      if tail.Compiled? then Compiled(Concat(Single(head), tail.tree)) else tail
  }

  /** `compile` */
  function Compile(s: string, args: seq<FormatArg>): Result {
    if s == "" then Compiled(Single(Piece(Text(""), Literal, 0, 0)))
    else CompileFrom(s, args, 0, 0)
  }

  // ---------- running the tree ----------

  /** What a leaf's `format` writes, or None if it throws. */
  function LeafOutput(leaf: Leaf, args: seq<FormatArg>): Option<string> {
    match leaf
    case Text(data) => Some(data)
    case CodeUnit(c) => Some([c])
    case Field(i) => if i < |args| then Some(args[i].plain) else None
    case SpecField(i, spec) => if i < |args| then Some(args[i].withSpec(spec)) else None
    case RuntimeNamed(name) =>
      var i := Lookup(name, args, 0);
      if i.Some? then Some(args[i.value].plain) else None
  }

  function Append(a: Option<string>, b: Option<string>): Option<string> {
    if a.Some? && b.Some? then Some(a.value + b.value) else None
  }

  /** `concat::format` over the whole tree. */
  function Output(t: Tree, args: seq<FormatArg>): Option<string> {
    match t
    case Single(p) => LeafOutput(p.leaf, args)
    case Concat(l, r) => Append(Output(l, args), Output(r, args))
  }

  function Pieces(t: Tree): (r: seq<Piece>)
    ensures r != []
  {
    match t
    case Single(p) => [p]
    case Concat(l, r) => Pieces(l) + Pieces(r)
  }

  // ---------- the pieces tile the format string ----------

  /** The pieces cover [from, to) one after the other, with no gap and no overlap. */
  predicate Tiles(ps: seq<Piece>, from: nat, to: nat) {
    if ps == [] then from == to
    else ps[0].start == from < ps[0].end && Tiles(ps[1..], ps[0].end, to)
  }

  lemma {:induction false} CompiledTiles(s: string, args: seq<FormatArg>, pos: nat, id: int)
    requires pos < |s| && CompileFrom(s, args, pos, id).Compiled?
    ensures Tiles(Pieces(CompileFrom(s, args, pos, id).tree), pos, |s|)
    decreases |s| - pos
  {
    var p := HeadAt(s, args, pos, id).piece;
    if p.end < |s| {
      CompiledTiles(s, args, p.end, HeadAt(s, args, pos, id).nextId);
    }
  }

  // ---------- indexing discipline ----------

  /** How many arguments the automatic counter has passed: automatic fields and statically named ones. */
  function Counted(ps: seq<Piece>): nat {
    if ps == [] then 0
    else (if ps[0].origin == Automatic || ps[0].origin == StaticName then 1 else 0) + Counted(ps[1..])
  }

  function FieldIndex(leaf: Leaf): int {
    match leaf
    case Field(i) => i
    case SpecField(i, _) => i
    case _ => -1
  }

  /** The discipline from a given id on: manual stays manual, and the automatic index counts. */
  ghost predicate Disciplined(ps: seq<Piece>, id: int) {
    && (id == MANUAL ==> forall i :: 0 <= i < |ps| ==> ps[i].origin != Automatic)
    && (id > 0 ==> forall i :: 0 <= i < |ps| ==> ps[i].origin != Numbered)
    && (forall i, j :: 0 <= i < |ps| && 0 <= j < |ps| && ps[i].origin == Automatic ==> ps[j].origin != Numbered)
    && (forall i :: 0 <= i < |ps| && ps[i].origin == Automatic ==> FieldIndex(ps[i].leaf) == id + Counted(ps[..i]))
  }

  lemma DisciplinedCons(p: Piece, rest: seq<Piece>, id: int, nextId: int)
    requires id >= MANUAL && Disciplined(rest, nextId)
    requires p.origin == Automatic ==> id >= 0 && nextId == id + 1 && FieldIndex(p.leaf) == id
    requires p.origin == StaticName ==> nextId == if id == MANUAL then MANUAL else id + 1
    requires p.origin == Numbered ==> id <= 0 && nextId == MANUAL
    requires p.origin == Literal || p.origin == DynamicName ==> nextId == id
    ensures Disciplined([p] + rest, id)
  {
    var ps := [p] + rest;
    forall i | 0 <= i < |ps| && ps[i].origin == Automatic
      ensures FieldIndex(ps[i].leaf) == id + Counted(ps[..i])
    {
      if i > 0 {
        assert ps[i] == rest[i - 1];
        assert ps[..i][1..] == rest[..i - 1];
      }
    }
    forall i | 0 <= i < |ps|
      ensures i > 0 ==> ps[i] == rest[i - 1]
    {
    }
  }

  /**
   * A compiled format never mixes automatic and numbered fields, and each
   * automatic field reads the argument numbered by the automatic and statically
   * named fields before it.
   */
  lemma {:induction false} IndexingDiscipline(s: string, args: seq<FormatArg>, pos: nat, id: int)
    requires pos < |s| && id >= MANUAL && CompileFrom(s, args, pos, id).Compiled?
    ensures Disciplined(Pieces(CompileFrom(s, args, pos, id).tree), id)
    decreases |s| - pos
  {
    var h := HeadAt(s, args, pos, id);
    if h.piece.end < |s| {
      IndexingDiscipline(s, args, h.piece.end, h.nextId);
      DisciplinedCons(h.piece, Pieces(CompileFrom(s, args, h.piece.end, h.nextId).tree), id, h.nextId);
    } else {
      DisciplinedCons(h.piece, [], id, h.nextId);
      assert [h.piece] + [] == [h.piece];
    }
  }

  // ---------- the fallback to run-time formatting ----------

  /** A field with specs whose name is not known at compile time. */
  predicate LateNameWithSpecs(s: string, args: seq<FormatArg>, p: nat) {
    && p + 1 < |s| && s[p] == '{' && s[p + 1] !in {'{', '}', ':'}
    && var a := ParseArgId(s, p + 1);
    a.Name? && StaticLookup(a.name, args, 0).None? && a.end < |s| && s[a.end] == ':'
  }

  /** Compilation started at pos gets as far as position p without an error. */
  predicate Reaches(s: string, args: seq<FormatArg>, pos: nat, id: int, p: nat)
    requires pos < |s|
    decreases |s| - pos
  {
    || p == pos
    || (HeadAt(s, args, pos, id).Head?
        && var h := HeadAt(s, args, pos, id);
        h.piece.end < |s| && Reaches(s, args, h.piece.end, h.nextId, p))
  }

  /** Compilation falls back exactly when it gets to a late-named field with specs. */
  lemma {:induction false} FallsBackAtLateNames(s: string, args: seq<FormatArg>, pos: nat, id: int)
    requires pos < |s|
    ensures CompileFrom(s, args, pos, id).UnknownFormat?
       <==> exists p :: Reaches(s, args, pos, id, p) && LateNameWithSpecs(s, args, p)
    decreases |s| - pos
  {
    var h := HeadAt(s, args, pos, id);
    assert h.UnknownHead? <==> LateNameWithSpecs(s, args, pos);
    if h.Head? && h.piece.end < |s| {
      FallsBackAtLateNames(s, args, h.piece.end, h.nextId);
      if CompileFrom(s, args, h.piece.end, h.nextId).UnknownFormat? {
        var p :| Reaches(s, args, h.piece.end, h.nextId, p) && LateNameWithSpecs(s, args, p);
        assert Reaches(s, args, pos, id, p);
      }
    } else if h.UnknownHead? {
      assert Reaches(s, args, pos, id, pos);
    }
  }
}
