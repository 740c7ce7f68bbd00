/**
 * The run-time reader of the same format strings (`parse_format_string` driven by
 * `vformat_to`'s handler), and where the compiled form agrees with it.
 */
module RuntimeFormat {
  import Decimal
  import opened FormatArgs
  import opened FormatCompiler
  import opened Wrappers

  /** What the run-time reader does next: write one character or format one argument. */
  datatype Item =
    | Char(c: char)
    | Plain(index: nat)
    | WithSpec(index: nat, spec: string)

  /** One replacement field or character, the position after it, and the parse context's next id. */
  datatype Step = Step(item: Item, end: nat, nextId: int) | Bad

  /** The part of `parse_replacement_field` after the argument id, which ends at `end`. */
  function RuntimeField(s: string, args: seq<FormatArg>, index: nat, end: nat, nextId: int): (r: Step)
    requires end <= |s|
    ensures r.Step? ==> end < r.end <= |s|
  {
    if index >= |args| || end == |s| then Bad
    else if s[end] == '}' then Step(Plain(index), end + 1, nextId)
    else if s[end] == ':' then
      var n := args[index].parse(s[end + 1..]);
      if n.None? then Bad
      else
        var e := end + 1 + n.value;
        if e == |s| || s[e] != '}' then Bad
        else Step(WithSpec(index, s[end + 1..e]), e + 1, nextId)
    else Bad
  }

  function StepAt(s: string, args: seq<FormatArg>, pos: nat, next: int): (r: Step)
    requires pos < |s|
    ensures r.Step? ==> pos < r.end <= |s|
  {
    if s[pos] == '{' then
      if pos + 1 == |s| then Bad
      else if s[pos + 1] == '{' then Step(Char('{'), pos + 2, next)
      else if s[pos + 1] == '}' || s[pos + 1] == ':' then
        // next_arg_id
        if next < 0 then Bad else RuntimeField(s, args, next, pos + 1, next + 1)
      else
        match ParseArgId(s, pos + 1)
        case BadId => Bad
        case Index(n, end) =>
          // check_arg_id
          if next > 0 then Bad else RuntimeField(s, args, n, end, MANUAL)
        case Name(name, end) =>
          var i := Lookup(name, args, 0);
          if i.None? then Bad else RuntimeField(s, args, i.value, end, next)
    else if s[pos] == '}' then
      if pos + 1 == |s| || s[pos + 1] != '}' then Bad else Step(Char('}'), pos + 2, next)
    else Step(Char(s[pos]), pos + 1, next)
  }

  /** The whole run-time reading of s from a position on, or None if it throws. */
  function Read(s: string, args: seq<FormatArg>, pos: nat, next: int): Option<seq<Item>>
    requires pos <= |s|
    decreases |s| - pos
  {
    if pos == |s| then Some([])
    else
      match StepAt(s, args, pos, next)
      case Bad => None
      case Step(item, end, nextId) =>
        var rest := Read(s, args, end, nextId);
        if rest.Some? then Some([item] + rest.value) else None
  }

  function ItemOutput(item: Item, args: seq<FormatArg>): Option<string> {
    match item
    case Char(c) => Some([c])
    case Plain(i) => if i < |args| then Some(args[i].plain) else None
    case WithSpec(i, spec) => if i < |args| then Some(args[i].withSpec(spec)) else None
  }

  function ItemsOutput(items: seq<Item>, args: seq<FormatArg>): Option<string> {
    if items == [] then Some("") else Append(ItemOutput(items[0], args), ItemsOutput(items[1..], args))
  }

  /** `vformat`: the run-time result, the reference for the compiled one. */
  function Format(s: string, args: seq<FormatArg>): Option<string> {
    var items := Read(s, args, 0, 0);
    if items.Some? then ItemsOutput(items.value, args) else None
  }

  // ---------- what a piece means to the run-time reader ----------

  function Chars(t: string): (r: seq<Item>)
    ensures |r| == |t|
  {
    seq(|t|, i requires 0 <= i < |t| => Char(t[i]))
  }

  /** The items a compiled leaf stands for; a name that is looked up late must exist. */
  function LeafItems(leaf: Leaf, args: seq<FormatArg>): Option<seq<Item>> {
    match leaf
    case Text(data) => Some(Chars(data))
    case CodeUnit(c) => Some([Char(c)])
    case Field(i) => Some([Plain(i)])
    case SpecField(i, spec) => Some([WithSpec(i, spec)])
    case RuntimeNamed(name) =>
      var i := Lookup(name, args, 0);
      if i.Some? then Some([Plain(i.value)]) else None
  }

  function PiecesItems(ps: seq<Piece>, args: seq<FormatArg>): Option<seq<Item>> {
    if ps == [] then Some([])
    else
      var a, b := LeafItems(ps[0].leaf, args), PiecesItems(ps[1..], args);
      if a.Some? && b.Some? then Some(a.value + b.value) else None
  }

  // ---------- when the two readers agree ----------

  /**
   * The shape conditions on one piece: a literal brace is doubled, specs end at
   * a '}', and a statically resolved name is the first argument of that name.
   */
  predicate PieceSound(s: string, p: Piece, args: seq<FormatArg>)
    requires p.start < p.end <= |s|
  {
    && (s[p.start] == '}' ==> s[p.end - 1] == '}')
    && (p.leaf.SpecField? ==> s[p.end - 1] == '}')
    && (p.origin == StaticName ==> FieldIndex(p.leaf) >= 0 && FirstOfItsName(FieldIndex(p.leaf), args))
    && (p.origin == DynamicName ==> p.leaf.RuntimeNamed? && Lookup(p.leaf.name, args, 0).Some?)
  }

  predicate FirstOfItsName(i: nat, args: seq<FormatArg>) {
    i < |args| && args[i].name.Some? && Lookup(args[i].name.value, args, 0) == Some(i)
  }

  /** How far the compile-time id has run ahead of the run-time one after a piece. */
  function DriftAfter(p: Piece, id: int, drift: nat): nat {
    if p.origin == StaticName && id != MANUAL then drift + 1 else drift
  }

  predicate InRange(s: string, ps: seq<Piece>) {
    forall i :: 0 <= i < |ps| ==> ps[i].start < ps[i].end <= |s|
  }

  /**
   * The pieces mean the same to the run-time reader: every piece is sound, and no
   * automatic field comes after the two ids have parted, which a statically named
   * field in automatic mode makes them do.
   */
  predicate Agreeable(s: string, ps: seq<Piece>, args: seq<FormatArg>, id: int, drift: nat)
    requires InRange(s, ps)
  {
    if ps == [] then true
    else
      && PieceSound(s, ps[0], args)
      && (ps[0].origin == Automatic ==> drift == 0)
      && Agreeable(s, ps[1..], args, IdAfter(ps[0], id), DriftAfter(ps[0], id, drift))
  }

  predicate Related(id: int, next: int, drift: nat) {
    if id == MANUAL then next == MANUAL else drift <= id && next == id - drift
  }

  function Prepend(a: seq<Item>, r: Option<seq<Item>>): Option<seq<Item>> {
    if r.Some? then Some(a + r.value) else None
  }

  lemma {:induction false} ReadText(s: string, args: seq<FormatArg>, pos: nat, end: nat, next: int)
    requires pos <= end <= |s|
    requires forall i :: pos <= i < end ==> s[i] != '{' && s[i] != '}'
    ensures Read(s, args, pos, next) == Prepend(Chars(s[pos..end]), Read(s, args, end, next))
    decreases end - pos
  {
    var rest := Read(s, args, end, next);
    if pos < end {
      ReadText(s, args, pos + 1, end, next);
      assert StepAt(s, args, pos, next) == Step(Char(s[pos]), pos + 1, next);
      hide StepAt;
      CharsSplit(s, pos, end);
      hide Chars;
      if rest.Some? {
        assert [Char(s[pos])] + (Chars(s[pos + 1..end]) + rest.value) == ([Char(s[pos])] + Chars(s[pos + 1..end])) + rest.value;
      }
    } else if rest.Some? {
      assert Chars(s[pos..end]) + rest.value == rest.value;
    }
  }

  lemma CharsSplit(s: string, pos: nat, end: nat)
    requires pos < end <= |s|
    ensures Chars(s[pos..end]) == [Char(s[pos])] + Chars(s[pos + 1..end])
  {
  }

  lemma ChooseSame<T>(a: seq<T>, b: seq<T>, c: seq<T>, d: seq<T>)
    requires |a| == |c|
    ensures a + b == c + d <==> a == c && b == d
  {
    if a + b == c + d {
      assert a == (a + b)[..|a|] && b == (a + b)[|a|..];
      assert c == (c + d)[..|a|] && d == (c + d)[|a|..];
    }
  }

  lemma PrependAgrees(l: seq<Item>, a: Option<seq<Item>>, r: Option<seq<Item>>)
    ensures r.Some? ==> (Prepend(l, a) == Some(l + r.value) <==> a == r)
  {
    if r.Some? && a.Some? {
      ChooseSame(l, a.value, l, r.value);
    }
  }

  lemma LiteralIsRead(s: string, args: seq<FormatArg>, pos: nat, id: int, next: int)
    requires pos < |s|
    requires var h := HeadAt(s, args, pos, id);
             h.Head? && h.piece.origin == Literal && PieceSound(s, h.piece, args)
    ensures var h := HeadAt(s, args, pos, id);
            && h.nextId == id
            && LeafItems(h.piece.leaf, args).Some?
            && Read(s, args, pos, next) == Prepend(LeafItems(h.piece.leaf, args).value, Read(s, args, h.piece.end, next))
  {
    var p := HeadAt(s, args, pos, id).piece;
    if s[pos] == '{' || s[pos] == '}' {
      assert p.leaf == Text(s[pos..pos + 1]) && p.end == pos + 2;
      assert Chars(s[pos..pos + 1]) == [Char(s[pos])];
      assert StepAt(s, args, pos, next) == Step(Char(s[pos]), p.end, next);
    } else {
      assert Chars(s[pos..pos + 1]) == [Char(s[pos])];
      ReadText(s, args, pos, p.end, next);
    }
  }

  /** The run-time step of a field compiled for argument i and selecting argument j at run time. */
  predicate SelectedAs(s: string, p: Piece, l: Option<seq<Item>>, st: Step, i: int, j: int, next: int)
    requires p.start < p.end <= |s|
  {
    && FieldIndex(p.leaf) == i
    && l.Some? && |l.value| == 1
    && (st.Step? && i == j ==> p.leaf.SpecField? ==> s[p.end - 1] == '}')
    && (i == j && (p.leaf.SpecField? ==> s[p.end - 1] == '}') ==> st == Step(l.value[0], p.end, next))
    && (st.Step? && i != j ==> st.item != l.value[0])
  }

  /** Both readers on one replacement field whose argument is already chosen. */
  lemma FieldRest(s: string, args: seq<FormatArg>, i: nat, origin: Origin, start: nat, end: nat, id: int, j: nat, next: int)
    requires start < end <= |s|
    requires FieldHead(s, args, i, origin, start, end, id).Head?
    ensures var h := FieldHead(s, args, i, origin, start, end, id);
            && h.nextId == id && h.piece.origin == origin
            && SelectedAs(s, h.piece, LeafItems(h.piece.leaf, args), RuntimeField(s, args, j, end, next), i, j, next)
  {
  }

  /** What the two readers make of one replacement field, by the way it chooses its argument. */
  predicate Corresponds(s: string, args: seq<FormatArg>, p: Piece, l: Option<seq<Item>>, st: Step, id: int, next: int)
    requires p.start < p.end <= |s|
  {
    match p.origin
    case Automatic =>
      id >= 0 && (next >= 0 ==> SelectedAs(s, p, l, st, id, next, next + 1)) && (next < 0 ==> st.Bad?)
    case Numbered =>
      id <= 0 && (next <= 0 ==> SelectedAs(s, p, l, st, FieldIndex(p.leaf), FieldIndex(p.leaf), MANUAL))
    case StaticName =>
      FieldIndex(p.leaf) >= 0 && FieldIndex(p.leaf) < |args| && args[FieldIndex(p.leaf)].name.Some?
      && var j := Lookup(args[FieldIndex(p.leaf)].name.value, args, 0);
      (j.None? ==> st.Bad?) && (j.Some? ==> SelectedAs(s, p, l, st, FieldIndex(p.leaf), j.value, next))
    case DynamicName =>
      p.leaf.RuntimeNamed?
      && var j := Lookup(p.leaf.name, args, 0);
      (j.None? ==> st.Bad? && l.None?) && (j.Some? ==> l == Some([Plain(j.value)]) && st == Step(Plain(j.value), p.end, next))
    case Literal => false
  }

  /** `FieldRest` at the argument that each way of naming one selects. */
  lemma FieldCases(s: string, args: seq<FormatArg>, pos: nat, id: int, next: int)
    requires pos < |s| && id >= MANUAL
    requires HeadAt(s, args, pos, id).Head? && HeadAt(s, args, pos, id).piece.origin != Literal
    ensures s[pos] == '{' && pos + 1 < |s| && s[pos + 1] != '{'
    ensures var h := HeadAt(s, args, pos, id);
            && h.nextId == IdAfter(h.piece, id) && h.piece.start == pos
            && Corresponds(s, args, h.piece, LeafItems(h.piece.leaf, args), StepAt(s, args, pos, next), id, next)
  {
    if s[pos + 1] == '}' || s[pos + 1] == ':' {
      hide SelectedAs;
      if next >= 0 {
        FieldRest(s, args, id, Automatic, pos, pos + 1, id + 1, next, next + 1);
      }
    } else {
      NamedCases(s, args, pos, id, next);
    }
  }

  lemma NamedCases(s: string, args: seq<FormatArg>, pos: nat, id: int, next: int)
    requires pos + 1 < |s| && id >= MANUAL && s[pos] == '{' && s[pos + 1] !in {'{', '}', ':'}
    requires HeadAt(s, args, pos, id).Head?
    ensures var h := HeadAt(s, args, pos, id);
            && h.nextId == IdAfter(h.piece, id) && h.piece.start == pos
            && Corresponds(s, args, h.piece, LeafItems(h.piece.leaf, args), StepAt(s, args, pos, next), id, next)
  {
    hide SelectedAs, Lookup, StaticLookup, ParseArgId;
    match ParseArgId(s, pos + 1) {
      case Index(n, end) =>
        FieldRest(s, args, n, Numbered, pos, end, MANUAL, n, MANUAL);
      case Name(name, end) =>
        var i, j := StaticLookup(name, args, 0), Lookup(name, args, 0);
        if i.Some? && j.Some? {
          FieldRest(s, args, i.value, StaticName, pos, end, if id == MANUAL then MANUAL else id + 1, j.value, next);
        }
      case BadId =>
    }
  }

  lemma FieldIsRead(s: string, args: seq<FormatArg>, pos: nat, id: int, next: int, drift: nat)
    requires pos < |s| && Related(id, next, drift) && id >= MANUAL
    requires var h := HeadAt(s, args, pos, id);
             h.Head? && h.piece.origin != Literal
             && PieceSound(s, h.piece, args) && (h.piece.origin == Automatic ==> drift == 0)
    ensures var h := HeadAt(s, args, pos, id);
            var st := StepAt(s, args, pos, next);
            && h.nextId == IdAfter(h.piece, id)
            && st.Step? && st.end == h.piece.end
            && LeafItems(h.piece.leaf, args) == Some([st.item])
            && Related(h.nextId, st.nextId, DriftAfter(h.piece, id, drift))
  {
    FieldCases(s, args, pos, id, next);
    hide HeadAt, StepAt, Corresponds, PieceSound, LeafItems, Related, IdAfter, DriftAfter;
    var p := HeadAt(s, args, pos, id).piece;
    SoundCorresponds(s, args, p, LeafItems(p.leaf, args), StepAt(s, args, pos, next), id, next, drift);
  }

  lemma SoundCorresponds(s: string, args: seq<FormatArg>, p: Piece, l: Option<seq<Item>>, st: Step,
                         id: int, next: int, drift: nat)
    requires p.start < p.end <= |s| && Related(id, next, drift) && id >= MANUAL
    requires Corresponds(s, args, p, l, st, id, next)
    requires PieceSound(s, p, args) && (p.origin == Automatic ==> drift == 0)
    ensures st.Step? && st.end == p.end && l == Some([st.item])
    ensures Related(IdAfter(p, id), st.nextId, DriftAfter(p, id, drift))
  {
    hide Lookup;
    if l.Some? && |l.value| == 1 {
      assert l.value == [l.value[0]];
    }
  }

  /** On a sound piece the run-time reader reads what the leaf stands for and goes on behind the piece. */
  lemma SoundPieceIsRead(s: string, args: seq<FormatArg>, pos: nat, id: int, next: int, drift: nat) returns (next': int)
    requires pos < |s| && Related(id, next, drift) && id >= MANUAL
    requires var h := HeadAt(s, args, pos, id);
             h.Head? && PieceSound(s, h.piece, args) && (h.piece.origin == Automatic ==> drift == 0)
    ensures var h := HeadAt(s, args, pos, id);
            && h.nextId == IdAfter(h.piece, id)
            && LeafItems(h.piece.leaf, args).Some?
            && Related(h.nextId, next', DriftAfter(h.piece, id, drift))
            && Read(s, args, pos, next) == Prepend(LeafItems(h.piece.leaf, args).value, Read(s, args, h.piece.end, next'))
  {
    var p := HeadAt(s, args, pos, id).piece;
    if p.origin == Literal {
      LiteralIsRead(s, args, pos, id, next);
      next' := next;
    } else {
      FieldIsRead(s, args, pos, id, next, drift);
      next' := StepAt(s, args, pos, next).nextId;
    }
  }

  lemma FieldDiffers(s: string, args: seq<FormatArg>, pos: nat, id: int, next: int, drift: nat)
    requires pos < |s| && Related(id, next, drift) && id >= MANUAL
    requires var h := HeadAt(s, args, pos, id);
             h.Head? && !(PieceSound(s, h.piece, args) && (h.piece.origin == Automatic ==> drift == 0))
    ensures var l := LeafItems(HeadAt(s, args, pos, id).piece.leaf, args);
            var st := StepAt(s, args, pos, next);
            st.Bad? || l.None? || (l.value != [] && l.value[0] != st.item)
  {
    if HeadAt(s, args, pos, id).piece.origin != Literal {
      FieldCases(s, args, pos, id, next);
      hide HeadAt, StepAt, Corresponds, PieceSound, LeafItems, Related;
      var p := HeadAt(s, args, pos, id).piece;
      UnsoundDiffers(s, args, p, LeafItems(p.leaf, args), StepAt(s, args, pos, next), id, next, drift);
    } else {
      hide FieldHead, RuntimeField, Lookup, StaticLookup;
    }
  }

  lemma UnsoundDiffers(s: string, args: seq<FormatArg>, p: Piece, l: Option<seq<Item>>, st: Step,
                       id: int, next: int, drift: nat)
    requires p.start < p.end <= |s| && Related(id, next, drift) && id >= MANUAL
    requires s[p.start] == '{' && Corresponds(s, args, p, l, st, id, next)
    requires !(PieceSound(s, p, args) && (p.origin == Automatic ==> drift == 0))
    ensures st.Bad? || l.None? || (l.value != [] && l.value[0] != st.item)
  {
    hide Lookup;
  }

  /** On an unsound piece it throws or reads something else. */
  lemma UnsoundPieceDiffers(s: string, args: seq<FormatArg>, pos: nat, id: int, next: int, drift: nat, rest: seq<Item>)
    requires pos < |s| && Related(id, next, drift) && id >= MANUAL
    requires var h := HeadAt(s, args, pos, id);
             h.Head? && !(PieceSound(s, h.piece, args) && (h.piece.origin == Automatic ==> drift == 0))
    ensures var l := LeafItems(HeadAt(s, args, pos, id).piece.leaf, args);
            l.None? || Read(s, args, pos, next) != Some(l.value + rest)
  {
    FieldDiffers(s, args, pos, id, next, drift);
    hide HeadAt, StepAt, PieceSound;
    var l := LeafItems(HeadAt(s, args, pos, id).piece.leaf, args);
    if l.Some? && l.value != [] {
      assert (l.value + rest)[0] == l.value[0];
    }
  }

  lemma PiecesOfCompiled(s: string, args: seq<FormatArg>, pos: nat, id: int)
    requires pos < |s| && CompileFrom(s, args, pos, id).Compiled?
    ensures var h := HeadAt(s, args, pos, id);
            && h.Head?
            && var ps := Pieces(CompileFrom(s, args, pos, id).tree);
            && ps[0] == h.piece
            && (h.piece.end == |s| ==> ps[1..] == [])
            && (h.piece.end < |s| ==> CompileFrom(s, args, h.piece.end, h.nextId).Compiled?
                                      && ps[1..] == Pieces(CompileFrom(s, args, h.piece.end, h.nextId).tree))
  {
  }

  lemma {:induction false} CompiledInRange(s: string, args: seq<FormatArg>, pos: nat, id: int)
    requires pos < |s| && CompileFrom(s, args, pos, id).Compiled?
    ensures InRange(s, Pieces(CompileFrom(s, args, pos, id).tree))
    decreases |s| - pos
  {
    var h := HeadAt(s, args, pos, id);
    var ps := Pieces(CompileFrom(s, args, pos, id).tree);
    PiecesOfCompiled(s, args, pos, id);
    hide HeadAt, CompileFrom;
    if h.piece.end < |s| {
      CompiledInRange(s, args, h.piece.end, h.nextId);
    }
    assert ps == [h.piece] + ps[1..];
  }

  /**
   * A compiled format string reads at run time as exactly the items of its
   * leaves if and only if its pieces agree.
   */
  lemma {:induction false} Agreement(s: string, args: seq<FormatArg>, pos: nat, id: int, next: int, drift: nat)
    requires pos < |s| && id >= MANUAL && Related(id, next, drift)
    requires CompileFrom(s, args, pos, id).Compiled?
    ensures var ps := Pieces(CompileFrom(s, args, pos, id).tree);
            && InRange(s, ps)
            && (Agreeable(s, ps, args, id, drift)
                <==> PiecesItems(ps, args).Some? && Read(s, args, pos, next) == PiecesItems(ps, args))
    decreases |s| - pos
  {
    hide HeadAt, CompileFrom, LeafItems, Read, PieceSound, Prepend, InRange;
    CompiledInRange(s, args, pos, id);
    PiecesOfCompiled(s, args, pos, id);
    var h := HeadAt(s, args, pos, id);
    var p, ps := h.piece, Pieces(CompileFrom(s, args, pos, id).tree);
    var l, r := LeafItems(p.leaf, args), PiecesItems(ps[1..], args);
    if PieceSound(s, p, args) && (p.origin == Automatic ==> drift == 0) {
      var next' := SoundPieceIsRead(s, args, pos, id, next, drift);
      if p.end < |s| {
        Agreement(s, args, p.end, h.nextId, next', DriftAfter(p, id, drift));
      } else {
        NothingRead(s, args, next');
      }
      PrependAgrees(l.value, Read(s, args, p.end, next'), r);
    } else if r.Some? {
      UnsoundPieceDiffers(s, args, pos, id, next, drift, r.value);
    }
  }

  lemma NothingRead(s: string, args: seq<FormatArg>, next: int)
    ensures Read(s, args, |s|, next) == Some([])
  {
  }

  // ---------- equal items give equal text ----------

  lemma AppendAssociates(a: Option<string>, b: Option<string>, c: Option<string>)
    ensures Append(Append(a, b), c) == Append(a, Append(b, c))
  {
    if a.Some? && b.Some? && c.Some? {
      assert (a.value + b.value) + c.value == a.value + (b.value + c.value);
    }
  }

  lemma {:induction false} ItemsOutputConcat(a: seq<Item>, b: seq<Item>, args: seq<FormatArg>)
    ensures ItemsOutput(a + b, args) == Append(ItemsOutput(a, args), ItemsOutput(b, args))
  {
    if a == [] {
      assert a + b == b;
      if ItemsOutput(b, args).Some? {
        assert "" + ItemsOutput(b, args).value == ItemsOutput(b, args).value;
      }
    } else {
      assert (a + b)[1..] == a[1..] + b;
      ItemsOutputConcat(a[1..], b, args);
      AppendAssociates(ItemOutput(a[0], args), ItemsOutput(a[1..], args), ItemsOutput(b, args));
    }
  }

  lemma {:induction false} CharsOutput(t: string, args: seq<FormatArg>)
    ensures ItemsOutput(Chars(t), args) == Some(t)
  {
    if t != "" {
      assert Chars(t)[1..] == Chars(t[1..]);
      CharsOutput(t[1..], args);
      assert [t[0]] + t[1..] == t;
    }
  }

  lemma LeafOutputOfItems(leaf: Leaf, args: seq<FormatArg>)
    ensures LeafOutput(leaf, args)
         == if LeafItems(leaf, args).Some? then ItemsOutput(LeafItems(leaf, args).value, args) else None
  {
    var l := LeafItems(leaf, args);
    if leaf.Text? {
      CharsOutput(leaf.data, args);
    } else if l.Some? {
      assert l.value[1..] == [];
      var o := ItemOutput(l.value[0], args);
      if o.Some? {
        assert o.value + "" == o.value;
      }
    }
  }

  /** A list of pieces writes what its items write. */
  function PiecesOutput(ps: seq<Piece>, args: seq<FormatArg>): Option<string> {
    if ps == [] then Some("") else Append(LeafOutput(ps[0].leaf, args), PiecesOutput(ps[1..], args))
  }

  lemma {:induction false} PiecesOutputConcat(a: seq<Piece>, b: seq<Piece>, args: seq<FormatArg>)
    ensures PiecesOutput(a + b, args) == Append(PiecesOutput(a, args), PiecesOutput(b, args))
  {
    if a == [] {
      assert a + b == b;
      if PiecesOutput(b, args).Some? {
        assert "" + PiecesOutput(b, args).value == PiecesOutput(b, args).value;
      }
    } else {
      assert (a + b)[1..] == a[1..] + b;
      PiecesOutputConcat(a[1..], b, args);
      AppendAssociates(LeafOutput(a[0].leaf, args), PiecesOutput(a[1..], args), PiecesOutput(b, args));
    }
  }

  /** Running the tree is running its leaves from left to right. */
  lemma {:induction false} OutputOfPieces(t: Tree, args: seq<FormatArg>)
    ensures Output(t, args) == PiecesOutput(Pieces(t), args)
  {
    match t
    case Single(p) =>
      assert [p][1..] == [];
      var o := LeafOutput(p.leaf, args);
      if o.Some? {
        assert o.value + "" == o.value;
      }
    case Concat(l, r) =>
      OutputOfPieces(l, args);
      OutputOfPieces(r, args);
      PiecesOutputConcat(Pieces(l), Pieces(r), args);
  }

  lemma {:induction false} PiecesOutputOfItems(ps: seq<Piece>, args: seq<FormatArg>)
    ensures PiecesItems(ps, args).Some? ==> PiecesOutput(ps, args) == ItemsOutput(PiecesItems(ps, args).value, args)
  {
    if ps != [] && PiecesItems(ps, args).Some? {
      PiecesOutputOfItems(ps[1..], args);
      LeafOutputOfItems(ps[0].leaf, args);
      ItemsOutputConcat(LeafItems(ps[0].leaf, args).value, PiecesItems(ps[1..], args).value, args);
    }
  }

  // ---------- which format strings compile faithfully ----------

  /** How the field or character at pos chooses its argument. */
  function OriginAt(s: string, args: seq<FormatArg>, pos: nat): Origin
    requires pos < |s|
  {
    if s[pos] != '{' || pos + 1 == |s| || s[pos + 1] == '{' then Literal
    else if s[pos + 1] == '}' || s[pos + 1] == ':' then Automatic
    else
      match ParseArgId(s, pos + 1)
      case BadId => Literal
      case Index(_, _) => Numbered
      case Name(name, _) => if StaticLookup(name, args, 0).Some? then StaticName else DynamicName
  }

  /**
   * The condition on one field: automatic and numbered fields come before the
   * first statically named one, a static name belongs to the first argument of
   * that name, and a field that is named at run time has no specs.
   */
  predicate FieldCompilable(s: string, args: seq<FormatArg>, pos: nat, parted: bool)
    requires pos < |s|
  {
    match OriginAt(s, args, pos)
    case Literal => true
    case Automatic => !parted
    case Numbered => !parted
    case StaticName =>
      var name := ParseArgId(s, pos + 1).name;
      Lookup(name, args, 0) == StaticLookup(name, args, 0)
    case DynamicName =>
      var end := ParseArgId(s, pos + 1).end;
      end < |s| && s[end] == '}'
  }

  /** The condition on the whole string, along the run-time reader's steps. */
  predicate Compilable(s: string, args: seq<FormatArg>, pos: nat, next: int, parted: bool)
    requires pos <= |s|
    decreases |s| - pos
  {
    if pos == |s| then true
    else
      match StepAt(s, args, pos, next)
      case Bad => false
      case Step(_, end, nextId) =>
        && FieldCompilable(s, args, pos, parted)
        && Compilable(s, args, end, nextId, parted || (OriginAt(s, args, pos) == StaticName && next != MANUAL))
  }

  lemma {:induction false} CompilableText(s: string, args: seq<FormatArg>, pos: nat, end: nat, next: int, parted: bool)
    requires pos <= end <= |s|
    requires forall i :: pos <= i < end ==> s[i] != '{' && s[i] != '}'
    ensures Compilable(s, args, pos, next, parted) == Compilable(s, args, end, next, parted)
    decreases end - pos
  {
    if pos < end {
      CompilableText(s, args, pos + 1, end, next, parted);
    }
  }

  lemma RuntimeFieldCompiles(s: string, args: seq<FormatArg>, i: nat, origin: Origin, start: nat, end: nat, id: int, next: int)
    requires start < end <= |s|
    requires RuntimeField(s, args, i, end, next).Step?
    ensures var h := FieldHead(s, args, i, origin, start, end, id);
            && h.Head? && h.nextId == id && h.piece.origin == origin && FieldIndex(h.piece.leaf) == i
            && h.piece.end == RuntimeField(s, args, i, end, next).end
            && s[h.piece.end - 1] == '}'
  {
  }

  /** A step the run-time reader takes under the condition is a sound piece of the compiler. */
  lemma CompilableStep(s: string, args: seq<FormatArg>, pos: nat, id: int, next: int, drift: nat)
    requires pos < |s| && id >= MANUAL && Related(id, next, drift)
    requires StepAt(s, args, pos, next).Step? && FieldCompilable(s, args, pos, drift > 0)
    requires id == MANUAL ==> drift == 0
    ensures var h := HeadAt(s, args, pos, id);
            && h.Head? && PieceSound(s, h.piece, args) && h.piece.origin == OriginAt(s, args, pos)
            && (h.piece.origin == Automatic ==> drift == 0)
  {
    hide Lookup, StaticLookup, FieldHead, RuntimeField, ParseArgId;
    if OriginAt(s, args, pos) == Automatic {
      RuntimeFieldCompiles(s, args, id, Automatic, pos, pos + 1, id + 1, next + 1);
    } else if OriginAt(s, args, pos) == Numbered {
      var n, end := ParseArgId(s, pos + 1).value, ParseArgId(s, pos + 1).end;
      RuntimeFieldCompiles(s, args, n, Numbered, pos, end, MANUAL, MANUAL);
    } else if OriginAt(s, args, pos) == StaticName {
      var name, end := ParseArgId(s, pos + 1).name, ParseArgId(s, pos + 1).end;
      var i := StaticLookup(name, args, 0);
      RuntimeFieldCompiles(s, args, i.value, StaticName, pos, end, if id == MANUAL then MANUAL else id + 1, next);
    }
  }

  lemma LiteralCompilable(s: string, args: seq<FormatArg>, pos: nat, id: int, next: int, parted: bool)
    requires pos < |s|
    requires var h := HeadAt(s, args, pos, id);
             h.Head? && h.piece.origin == Literal && PieceSound(s, h.piece, args)
    ensures OriginAt(s, args, pos) == Literal
    ensures Compilable(s, args, pos, next, parted)
         == Compilable(s, args, HeadAt(s, args, pos, id).piece.end, next, parted)
  {
    var p := HeadAt(s, args, pos, id).piece;
    if s[pos] != '{' && s[pos] != '}' {
      CompilableText(s, args, pos, p.end, next, parted);
    }
  }

  lemma {:induction false} CompilableCompiles(s: string, args: seq<FormatArg>, pos: nat, id: int, next: int, drift: nat)
    requires pos < |s| && id >= MANUAL && Related(id, next, drift) && (id == MANUAL ==> drift == 0)
    requires Compilable(s, args, pos, next, drift > 0)
    ensures CompileFrom(s, args, pos, id).Compiled?
    ensures var ps := Pieces(CompileFrom(s, args, pos, id).tree);
            InRange(s, ps) && Agreeable(s, ps, args, id, drift)
    decreases |s| - pos
  {
    CompilableStep(s, args, pos, id, next, drift);
    var h := HeadAt(s, args, pos, id);
    var p, drift' := h.piece, DriftAfter(h.piece, id, drift);
    var next' := next;
    if p.origin == Literal {
      LiteralCompilable(s, args, pos, id, next, drift > 0);
      LiteralIsRead(s, args, pos, id, next);
    } else {
      FieldIsRead(s, args, pos, id, next, drift);
      next' := StepAt(s, args, pos, next).nextId;
    }
    if p.end < |s| {
      CompilableCompiles(s, args, p.end, h.nextId, next', drift');
    }
    hide HeadAt, StepAt, Compilable, FieldCompilable, PieceSound;
    PiecesOfCompiled(s, args, pos, id);
  }

  /** An automatic or numbered field of a compiled format comes before the ids part. */
  lemma SoundFieldIsCompilable(s: string, args: seq<FormatArg>, pos: nat, id: int, drift: nat)
    requires pos < |s| && id >= MANUAL && (id == MANUAL ==> drift == 0) && (id != MANUAL ==> drift <= id)
    requires var h := HeadAt(s, args, pos, id);
             h.Head? && PieceSound(s, h.piece, args) && (h.piece.origin == Automatic ==> drift == 0)
    ensures var h := HeadAt(s, args, pos, id);
            && OriginAt(s, args, pos) == h.piece.origin
            && FieldCompilable(s, args, pos, drift > 0)
            && (h.nextId == MANUAL ==> DriftAfter(h.piece, id, drift) == 0)
  {
  }

  lemma {:induction false} AgreeableIsCompilable(s: string, args: seq<FormatArg>, pos: nat, id: int, next: int, drift: nat)
    requires pos < |s| && id >= MANUAL && Related(id, next, drift) && (id == MANUAL ==> drift == 0)
    requires CompileFrom(s, args, pos, id).Compiled?
    requires var ps := Pieces(CompileFrom(s, args, pos, id).tree);
             InRange(s, ps) && Agreeable(s, ps, args, id, drift)
    ensures Compilable(s, args, pos, next, drift > 0)
    decreases |s| - pos
  {
    PiecesOfCompiled(s, args, pos, id);
    var h := HeadAt(s, args, pos, id);
    var p, drift' := h.piece, DriftAfter(h.piece, id, drift);
    SoundFieldIsCompilable(s, args, pos, id, drift);
    var next' := next;
    if p.origin == Literal {
      LiteralCompilable(s, args, pos, id, next, drift > 0);
      LiteralIsRead(s, args, pos, id, next);
    } else {
      FieldIsRead(s, args, pos, id, next, drift);
      next' := StepAt(s, args, pos, next).nextId;
    }
    if p.end < |s| {
      assert InRange(s, Pieces(CompileFrom(s, args, p.end, h.nextId).tree)) by {
        hide HeadAt;
        var ps := Pieces(CompileFrom(s, args, pos, id).tree);
        forall i | 0 <= i < |ps[1..]| ensures ps[1..][i].start < ps[1..][i].end <= |s| {
          assert ps[1..][i] == ps[i + 1];
        }
      }
      AgreeableIsCompilable(s, args, p.end, h.nextId, next', drift');
    }
  }

  /** The compiled form reads as the run-time form: same characters, same arguments, same specs, in the same order. */
  predicate Matches(s: string, args: seq<FormatArg>) {
    && Compile(s, args).Compiled?
    && var items := PiecesItems(Pieces(Compile(s, args).tree), args);
    items.Some? && Read(s, args, 0, 0) == items
  }

  /**
   * A format string compiles to what the run-time formatter would do exactly when
   * it meets the condition above.
   */
  lemma CompiledMatchesRuntime(s: string, args: seq<FormatArg>)
    ensures Matches(s, args) <==> Compilable(s, args, 0, 0, false)
  {
    if s == "" {
      var t := Compile(s, args).tree;
      assert Pieces(t)[1..] == [];
      assert PiecesItems(Pieces(t), args) == Some([]) by { assert Chars("") + [] == []; }
    } else {
      if Compilable(s, args, 0, 0, false) {
        CompilableCompiles(s, args, 0, 0, 0, 0);
      }
      if Compile(s, args).Compiled? {
        Agreement(s, args, 0, 0, 0, 0);
        if Matches(s, args) {
          AgreeableIsCompilable(s, args, 0, 0, 0, 0);
        }
      }
    }
  }

  /** Under that condition the compiled code writes the run-time formatter's text, for all argument values. */
  lemma CompiledOutputIsRuntimeOutput(s: string, args: seq<FormatArg>)
    requires Compilable(s, args, 0, 0, false)
    ensures Compile(s, args).Compiled?
    ensures Output(Compile(s, args).tree, args) == Format(s, args)
  {
    CompiledMatchesRuntime(s, args);
    var t := Compile(s, args).tree;
    OutputOfPieces(t, args);
    PiecesOutputOfItems(Pieces(t), args);
  }

  // ---------- the entry point ----------

  datatype Outcome = Runs(text: Option<string>) | DoesNotCompile

  /** `format` on a compiled string: a short cut for `{}`, the compiled tree, or the run-time formatter. */
  function CompiledFormat(s: string, args: seq<FormatArg>): Outcome {
    if s == "{}" then
      if args == [] then DoesNotCompile else Runs(Some(args[0].plain))
    else
      match Compile(s, args)
      case Compiled(t) => Runs(Output(t, args))
      case UnknownFormat => Runs(Format(s, args))
      case Error => DoesNotCompile
  }

  /** Whichever of the three ways it takes, the result is that of the run-time formatter. */
  lemma CompiledFormatIsFormat(s: string, args: seq<FormatArg>)
    requires Compilable(s, args, 0, 0, false) || Compile(s, args).UnknownFormat?
    ensures CompiledFormat(s, args) == Runs(Format(s, args))
  {
    EmptyField(s, args);
    hide Compile, Format, Output;
    if s != "{}" && Compilable(s, args, 0, 0, false) {
      CompiledOutputIsRuntimeOutput(s, args);
    }
  }

  lemma EmptyField(s: string, args: seq<FormatArg>)
    ensures s == "{}" && args == [] ==> Compile(s, args).Error? && !Compilable(s, args, 0, 0, false)
    ensures s == "{}" && args != [] ==> Format(s, args) == Some(args[0].plain)
  {
    if s != "{}" {
      return;
    }
    assert s[0] == '{' && s[1] == '}' && |s| == 2;
    if args == [] {
      assert StepAt(s, args, 0, 0) == Bad;
      assert HeadAt(s, args, 0, 0) == BadHead;
    } else {
      assert StepAt(s, args, 0, 0) == Step(Plain(0), 2, 1);
      assert Read(s, args, 2, 1) == Some([]);
      assert Read(s, args, 0, 0) == Some([Plain(0)] + []);
      assert [Plain(0)] + [] == [Plain(0)] && [Plain(0)][1..] == [];
      assert ItemsOutput([Plain(0)], args) == Append(Some(args[0].plain), Some(""));
      assert args[0].plain + "" == args[0].plain;
    }
  }

  // ---------- text with doubled braces ----------

  function Doubled(t: string): string {
    if t == "" then ""
    else (if t[0] == '{' || t[0] == '}' then [t[0], t[0]] else [t[0]]) + Doubled(t[1..])
  }

  lemma {:induction false} DoubledReads(s: string, args: seq<FormatArg>, pos: nat, t: string)
    requires pos <= |s| && s[pos..] == Doubled(t)
    ensures Read(s, args, pos, 0) == Some(Chars(t))
    ensures Compilable(s, args, pos, 0, false)
    decreases t
  {
    if t == "" {
      assert pos == |s|;
    } else {
      var k := if t[0] == '{' || t[0] == '}' then 2 else 1;
      assert s[pos] == s[pos..][0] == t[0];
      assert k == 2 ==> s[pos + 1] == s[pos..][1] == t[0];
      assert s[pos + k..] == s[pos..][k..] == Doubled(t[1..]);
      DoubledReads(s, args, pos + k, t[1..]);
      assert Chars(t) == [Char(t[0])] + Chars(t[1..]);
    }
  }

  /** Any text with its braces doubled compiles to code that reads no argument and writes the text. */
  lemma BraceEscape(t: string, args: seq<FormatArg>)
    ensures var r := Compile(Doubled(t), args);
            && r.Compiled?
            && PiecesItems(Pieces(r.tree), args) == Some(Chars(t))
            && Output(r.tree, args) == Some(t)
  {
    var s := Doubled(t);
    assert s[0..] == s;
    DoubledReads(s, args, 0, t);
    CompiledMatchesRuntime(s, args);
    CompiledOutputIsRuntimeOutput(s, args);
    CharsOutput(t, args);
  }

  // ---------- where the two differ ----------

  /** `{a}{}` with two arguments, the first named a: the compiled `{}` is the second one, the run-time `{}` the first. */
  lemma StaticNameShiftsAutomaticFields(x: string, y: string, parse: SpecParser, w: string -> string)
    ensures var args := [FormatArg(Some("a"), true, x, parse, w), FormatArg(None, false, y, parse, w)];
            && Compile("{a}{}", args).Compiled?
            && PiecesItems(Pieces(Compile("{a}{}", args).tree), args) == Some([Plain(0), Plain(1)])
            && Read("{a}{}", args, 0, 0) == Some([Plain(0), Plain(0)])
  {
    var s, args := "{a}{}", [FormatArg(Some("a"), true, x, parse, w), FormatArg(None, false, y, parse, w)];
    assert s[1] == 'a' && s[2] == '}';
    assert NameEnd(s, 2) == 2 && s[1..2] == "a";
    assert ParseArgId(s, 1) == Name("a", 2);
    assert StaticLookup("a", args, 0) == Some(0) && Lookup("a", args, 0) == Some(0);
    var p, q := Piece(Field(0), StaticName, 0, 3), Piece(Field(1), Automatic, 3, 5);
    assert HeadAt(s, args, 0, 0) == Head(p, 1);
    assert HeadAt(s, args, 3, 1) == Head(q, 2);
    assert CompileFrom(s, args, 3, 1) == Compiled(Single(q));
    assert Pieces(Compile(s, args).tree) == [p, q];
    assert [p, q][1..] == [q] && [q][1..] == [] && [Plain(1)] + [] == [Plain(1)] && [Plain(0)] + [] == [Plain(0)];
    assert PiecesItems([q], args) == Some([Plain(1)]);
    assert [Plain(0)] + [Plain(1)] == [Plain(0), Plain(1)];
    assert StepAt(s, args, 0, 0) == Step(Plain(0), 3, 0);
    assert StepAt(s, args, 3, 0) == Step(Plain(0), 5, 1);
    assert Read(s, args, 3, 0) == Some([Plain(0)]);
    assert [Plain(0)] + [Plain(0)] == [Plain(0), Plain(0)];
  }

  /** A lone '}' compiles, together with whatever follows it, where the run-time reader throws. */
  lemma LoneBraceCompiles(c: char, args: seq<FormatArg>)
    requires c != '}'
    ensures Compile(['}', c], args).Compiled? && Output(Compile(['}', c], args).tree, args) == Some("}")
    ensures Format(['}', c], args) == None
  {
    var s := ['}', c];
    assert s[0..1] == "}";
    var p := Piece(Text("}"), Literal, 0, 2);
    assert HeadAt(s, args, 0, 0) == Head(p, 0);
    assert ParseTail(s, args, p, 2, 0) == Compiled(Single(p));
    assert s != "";
    assert StepAt(s, args, 0, 0) == Bad;
  }

  /**
   * `{a}` with two arguments of that name, the first named at run time and the
   * second at compile time: the compiled field is the second one, the run-time
   * field the first.
   */
  lemma StaticNameOvertakesRuntimeName(x: string, y: string, parse: SpecParser, w: string -> string)
    ensures var args := [FormatArg(Some("a"), false, x, parse, w), FormatArg(Some("a"), true, y, parse, w)];
            && Compile("{a}", args).Compiled?
            && PiecesItems(Pieces(Compile("{a}", args).tree), args) == Some([Plain(1)])
            && Read("{a}", args, 0, 0) == Some([Plain(0)])
  {
    var s, args := "{a}", [FormatArg(Some("a"), false, x, parse, w), FormatArg(Some("a"), true, y, parse, w)];
    assert s[1] == 'a' && s[2] == '}';
    assert NameEnd(s, 2) == 2 && s[1..2] == "a";
    assert ParseArgId(s, 1) == Name("a", 2);
    assert StaticLookup("a", args, 0) == Some(1) && Lookup("a", args, 0) == Some(0);
    var p := Piece(Field(1), StaticName, 0, 3);
    assert HeadAt(s, args, 0, 0) == Head(p, 1);
    assert CompileFrom(s, args, 0, 0) == Compiled(Single(p));
    assert Pieces(Single(p)) == [p] && [p][1..] == [];
    assert [Plain(1)] + [] == [Plain(1)] && [Plain(0)] + [] == [Plain(0)];
    assert StepAt(s, args, 0, 0) == Step(Plain(0), 3, 0);
    assert Read(s, args, 3, 0) == Some([]);
  }

  /** `{:` and one character that the argument's formatter leaves alone compiles, whatever the character is. */
  lemma UnclosedSpecsCompile(c: char, x: string, parse: SpecParser, w: string -> string)
    requires c != '}' && parse([c]) == Some(0)
    ensures var args := [FormatArg(None, false, x, parse, w)];
            && Compile(['{', ':', c], args).Compiled?
            && Output(Compile(['{', ':', c], args).tree, args) == Some(w(""))
            && Format(['{', ':', c], args) == None
  {
    var s, args := ['{', ':', c], [FormatArg(None, false, x, parse, w)];
    assert s[2..] == [c] && s[2..2] == "";
    var p := Piece(SpecField(0, ""), Automatic, 0, 3);
    assert HeadAt(s, args, 0, 0) == Head(p, 1);
    assert CompileFrom(s, args, 0, 0) == Compiled(Single(p));
    assert StepAt(s, args, 0, 0) == Bad;
  }

  /** `{a}{1}` with a known at compile time does not compile, and formats at run time. */
  lemma NumberAfterStaticNameFails(x: string, y: string, parse: SpecParser, w: string -> string)
    ensures var args := [FormatArg(Some("a"), true, x, parse, w), FormatArg(None, false, y, parse, w)];
            Compile("{a}{1}", args).Error? && Read("{a}{1}", args, 0, 0) == Some([Plain(0), Plain(1)])
  {
    var s, args := "{a}{1}", [FormatArg(Some("a"), true, x, parse, w), FormatArg(None, false, y, parse, w)];
    assert s[1] == 'a' && s[2] == '}' && s[3] == '{' && s[4] == '1' && s[5] == '}';
    assert NameEnd(s, 2) == 2 && s[1..2] == "a";
    assert ParseArgId(s, 1) == Name("a", 2);
    assert StaticLookup("a", args, 0) == Some(0) && Lookup("a", args, 0) == Some(0);
    NumberOne(s);
    assert HeadAt(s, args, 0, 0) == Head(Piece(Field(0), StaticName, 0, 3), 1);
    assert HeadAt(s, args, 3, 1) == BadHead;
    assert StepAt(s, args, 0, 0) == Step(Plain(0), 3, 0);
    assert StepAt(s, args, 3, 0) == Step(Plain(1), 6, MANUAL);
    assert Read(s, args, 6, MANUAL) == Some([]);
    assert Read(s, args, 3, 0) == Some([Plain(1)] + []);
    assert [Plain(1)] + [] == [Plain(1)] && [Plain(0)] + [Plain(1)] == [Plain(0), Plain(1)];
  }

  lemma NumberOne(s: string)
    requires |s| == 6 && s[4] == '1' && s[5] == '}'
    ensures ParseArgId(s, 4) == Index(1, 5)
  {
    assert s[4..5] == "1" == Decimal.Text(1);
    IndexReadsBack(s, 4, 1);
  }
}
