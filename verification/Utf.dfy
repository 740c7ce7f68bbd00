/** The encoder of locale text: UTF-16 or UTF-32 code units to UTF-8 bytes. */
module Utf {
  import opened Wrappers

  type Unit = bv32
  type Scalar = bv32

  // ---------- surrogates, as the interpreter's macros define them ----------

  predicate IsSurrogate(c: Unit) {
    0xD800 <= c <= 0xDFFF
  }

  predicate IsHighSurrogate(c: Unit) {
    0xD800 <= c <= 0xDBFF
  }

  predicate IsLowSurrogate(c: Unit) {
    0xDC00 <= c <= 0xDFFF
  }

  /** `Py_UNICODE_JOIN_SURROGATES` */
  function JoinSurrogates(high: Unit, low: Unit): Scalar {
    (((high & 0x03FF) << 10) | (low & 0x03FF)) + 0x10000
  }

  /** `Py_UNICODE_HIGH_SURROGATE` */
  function HighSurrogate(c: Scalar): Unit {
    0xD800 - (0x10000 >> 10) + (c >> 10)
  }

  /** `Py_UNICODE_LOW_SURROGATE` */
  function LowSurrogate(c: Scalar): Unit {
    0xDC00 + (c & 0x3FF)
  }

  predicate IsScalar(c: Scalar) {
    c <= 0x10FFFF && !IsSurrogate(c)
  }

  // ---------- the meaning of a sequence of code units ----------

  /** UTF-32: every unit is a scalar value. */
  function Scalars32(units: seq<Unit>): Option<seq<Scalar>> {
    if units == [] then Some([])
    else if !IsScalar(units[0]) then None
    else
      var rest := Scalars32(units[1..]);
      if rest.Some? then Some([units[0]] + rest.value) else None
  }

  /** UTF-16, section 2.2 of RFC 2781. */
  function Scalars16(units: seq<Unit>): Option<seq<Scalar>> {
    if units == [] then Some([])
    else if !IsSurrogate(units[0]) then
      var rest := Scalars16(units[1..]);
      if units[0] < 0x10000 && rest.Some? then Some([units[0]] + rest.value) else None
    else if !IsHighSurrogate(units[0]) || |units| == 1 || !IsLowSurrogate(units[1]) then None
    else
      var rest := Scalars16(units[2..]);
      if rest.Some? then Some([JoinSurrogates(units[0], units[1])] + rest.value) else None
  }

  /** The scalars that units of the given size in bytes stand for, or None if they are ill-formed. */
  function Scalars(units: seq<Unit>, unitSize: nat): Option<seq<Scalar>> {
    if unitSize == 2 then Scalars16(units) else Scalars32(units)
  }

  // ---------- UTF-8 ----------

  predicate IsTail(b: bv8) {
    0x80 <= b <= 0xBF
  }

  function Widen(b: bv8): bv32 {
    b as bv32
  }

  function Value2Of(b0: bv8, b1: bv8): bv32 {
    ((Widen(b0) & 0x1F) << 6) | (Widen(b1) & 0x3F)
  }

  predicate Syntax3Of(b0: bv8, b1: bv8, b2: bv8) {
    && 0xE0 <= b0 <= 0xEF && IsTail(b1) && IsTail(b2)
    && (b0 == 0xE0 ==> 0xA0 <= b1) && (b0 == 0xED ==> b1 <= 0x9F)
  }

  function Value3Of(b0: bv8, b1: bv8, b2: bv8): bv32 {
    ((Widen(b0) & 0x0F) << 12) | ((Widen(b1) & 0x3F) << 6) | (Widen(b2) & 0x3F)
  }

  predicate Syntax4Of(b0: bv8, b1: bv8, b2: bv8, b3: bv8) {
    && 0xF0 <= b0 <= 0xF4 && IsTail(b1) && IsTail(b2) && IsTail(b3)
    && (b0 == 0xF0 ==> 0x90 <= b1) && (b0 == 0xF4 ==> b1 <= 0x8F)
  }

  function Value4Of(b0: bv8, b1: bv8, b2: bv8, b3: bv8): bv32 {
    ((Widen(b0) & 0x07) << 18) | ((Widen(b1) & 0x3F) << 12) | ((Widen(b2) & 0x3F) << 6) | (Widen(b3) & 0x3F)
  }

  /** The first character of a byte sequence and its length, by the syntax of section 4 of RFC 3629. */
  function DecodeFirst(b: seq<bv8>): Option<(Scalar, nat)> {
    if b == [] then None
    else if b[0] <= 0x7F then Some((Widen(b[0]), 1))
    else if 0xC2 <= b[0] <= 0xDF && |b| >= 2 && IsTail(b[1]) then
      Some((Value2Of(b[0], b[1]), 2))
    else if |b| >= 3 && Syntax3Of(b[0], b[1], b[2]) then Some((Value3Of(b[0], b[1], b[2]), 3))
    else if |b| >= 4 && Syntax4Of(b[0], b[1], b[2], b[3]) then Some((Value4Of(b[0], b[1], b[2], b[3]), 4))
    else None
  }

  /** All characters of a byte sequence, or None if it is not well-formed UTF-8. */
  function Decode(b: seq<bv8>): Option<seq<Scalar>> {
    if b == [] then Some([])
    else
      match DecodeFirst(b)
      case None => None
      case Some((c, n)) =>
        var rest := Decode(b[n..]);
        if rest.Some? then Some([c] + rest.value) else None
  }

  /** `static_cast<char>` */
  function Byte(c: bv32): bv8 {
    (c & 0xFF) as bv8
  }

  function OneByte(c: Scalar): seq<bv8> {
    [Byte(c)]
  }

  function TwoBytes(c: Scalar): seq<bv8> {
    [Byte(0xC0 | (c >> 6)), Byte(0x80 | (c & 0x3F))]
  }

  function ThreeBytes(c: Scalar): seq<bv8> {
    [Byte(0xE0 | (c >> 12)), Byte(0x80 | ((c & 0xFFF) >> 6)), Byte(0x80 | (c & 0x3F))]
  }

  function FourBytes(c: Scalar): seq<bv8> {
    [Byte(0xF0 | (c >> 18)), Byte(0x80 | ((c & 0x3FFFF) >> 12)), Byte(0x80 | ((c & 0xFFF) >> 6)), Byte(0x80 | (c & 0x3F))]
  }

  /** The bytes the encoder pushes for one scalar, or None where it throws. */
  function EncodeScalar(c: Scalar): Option<seq<bv8>> {
    if c < 0x80 then Some(OneByte(c))
    else if c < 0x800 then Some(TwoBytes(c))
    else if 0x800 <= c <= 0xD7FF || 0xE000 <= c <= 0xFFFF then Some(ThreeBytes(c))
    else if 0x10000 <= c <= 0x10FFFF then Some(FourBytes(c))
    else None
  }

  lemma EncodesScalars(c: Scalar)
    ensures EncodeScalar(c).Some? <==> IsScalar(c)
    ensures EncodeScalar(c).Some? ==> 1 <= |EncodeScalar(c).value| <= 4
  {
  }

  lemma Syntax3(c: Scalar)
    requires 0x800 <= c <= 0xFFFF && !IsSurrogate(c)
    ensures var b0, b1, b2 := Byte(0xE0 | (c >> 12)), Byte(0x80 | ((c & 0xFFF) >> 6)), Byte(0x80 | (c & 0x3F));
            Syntax3Of(b0, b1, b2)
  {
  }

  lemma Value3(c: Scalar)
    requires 0x800 <= c <= 0xFFFF
    ensures Value3Of(Byte(0xE0 | (c >> 12)), Byte(0x80 | ((c & 0xFFF) >> 6)), Byte(0x80 | (c & 0x3F))) == c
  {
  }

  lemma Syntax4(c: Scalar)
    requires 0x10000 <= c <= 0x10FFFF
    ensures Syntax4Of(Byte(0xF0 | (c >> 18)), Byte(0x80 | ((c & 0x3FFFF) >> 12)),
                      Byte(0x80 | ((c & 0xFFF) >> 6)), Byte(0x80 | (c & 0x3F)))
  {
  }

  lemma Value4(c: Scalar)
    requires 0x10000 <= c <= 0x10FFFF
    ensures Value4Of(Byte(0xF0 | (c >> 18)), Byte(0x80 | ((c & 0x3FFFF) >> 12)),
                     Byte(0x80 | ((c & 0xFFF) >> 6)), Byte(0x80 | (c & 0x3F))) == c
  {
  }

  lemma First1(c: Scalar, rest: seq<bv8>)
    requires c < 0x80
    ensures DecodeFirst(OneByte(c) + rest) == Some((c, 1))
  {
  }

  lemma First2(c: Scalar, rest: seq<bv8>)
    requires 0x80 <= c < 0x800
    ensures DecodeFirst(TwoBytes(c) + rest) == Some((c, 2))
  {
  }

  lemma Read3(b0: bv8, b1: bv8, b2: bv8, rest: seq<bv8>)
    requires Syntax3Of(b0, b1, b2)
    ensures DecodeFirst([b0, b1, b2] + rest) == Some((Value3Of(b0, b1, b2), 3))
  {
  }

  lemma Read4(b0: bv8, b1: bv8, b2: bv8, b3: bv8, rest: seq<bv8>)
    requires Syntax4Of(b0, b1, b2, b3)
    ensures DecodeFirst([b0, b1, b2, b3] + rest) == Some((Value4Of(b0, b1, b2, b3), 4))
  {
  }

  lemma First3(c: Scalar, rest: seq<bv8>)
    requires 0x800 <= c <= 0xFFFF && !IsSurrogate(c)
    ensures DecodeFirst(ThreeBytes(c) + rest) == Some((c, 3))
  {
    Syntax3(c);
    Value3(c);
    hide Byte, Syntax3Of, Value3Of, DecodeFirst;
    Read3(Byte(0xE0 | (c >> 12)), Byte(0x80 | ((c & 0xFFF) >> 6)), Byte(0x80 | (c & 0x3F)), rest);
  }

  lemma First4(c: Scalar, rest: seq<bv8>)
    requires 0x10000 <= c <= 0x10FFFF
    ensures DecodeFirst(FourBytes(c) + rest) == Some((c, 4))
  {
    Syntax4(c);
    Value4(c);
    hide Byte, Syntax4Of, Value4Of, DecodeFirst;
    Read4(Byte(0xF0 | (c >> 18)), Byte(0x80 | ((c & 0x3FFFF) >> 12)),
          Byte(0x80 | ((c & 0xFFF) >> 6)), Byte(0x80 | (c & 0x3F)), rest);
  }

  /** The bytes of a scalar, followed by anything, start with that scalar. */
  lemma EncodedDecodesFirst(c: Scalar, rest: seq<bv8>)
    requires EncodeScalar(c).Some?
    ensures DecodeFirst(EncodeScalar(c).value + rest) == Some((c, |EncodeScalar(c).value|))
  {
    assert |OneByte(c)| == 1 && |TwoBytes(c)| == 2 && |ThreeBytes(c)| == 3 && |FourBytes(c)| == 4;
    hide OneByte, TwoBytes, ThreeBytes, FourBytes, DecodeFirst;
    if c < 0x80 {
      First1(c, rest);
    } else if c < 0x800 {
      First2(c, rest);
    } else if c <= 0xFFFF {
      First3(c, rest);
    } else {
      First4(c, rest);
    }
  }

  lemma JoinIsCombination(high: Unit, low: Unit)
    requires IsHighSurrogate(high) && IsLowSurrogate(low)
    ensures (high << 10) + low - 0x35FDC00 == JoinSurrogates(high, low)
    ensures 0x10000 <= JoinSurrogates(high, low) <= 0x10FFFF
  {
  }

  lemma SurrogateMasks(c: Unit)
    requires c < 0x10000
    ensures (c & 0xFC00) == 0xD800 <==> IsHighSurrogate(c)
    ensures (c & 0xFC00) == 0xDC00 <==> IsLowSurrogate(c)
  {
  }

  lemma SplitJoins(c: Scalar)
    requires 0x10000 <= c <= 0x10FFFF
    ensures IsHighSurrogate(HighSurrogate(c)) && IsLowSurrogate(LowSurrogate(c))
    ensures JoinSurrogates(HighSurrogate(c), LowSurrogate(c)) == c
  {
    HighHalf(c);
    LowHalf(c);
    JoinHalves(c);
  }

  lemma HighHalf(c: Scalar)
    requires 0x10000 <= c <= 0x10FFFF
    ensures IsHighSurrogate(HighSurrogate(c)) && HighSurrogate(c) & 0x3FF == (c - 0x10000) >> 10
  {
  }

  lemma LowHalf(c: Scalar)
    ensures IsLowSurrogate(LowSurrogate(c)) && LowSurrogate(c) & 0x3FF == c & 0x3FF
  {
  }

  lemma JoinHalves(c: Scalar)
    requires 0x10000 <= c <= 0x10FFFF
    ensures ((((c - 0x10000) >> 10) << 10) | (c & 0x3FF)) + 0x10000 == c
  {
  }

  // ---------- the encoder ----------

  /** All scalars encoded one after the other. */
  function EncodeAll(scalars: seq<Scalar>): seq<bv8>
    requires forall i :: 0 <= i < |scalars| ==> IsScalar(scalars[i])
  {
    if scalars == [] then []
    else
      EncodesScalars(scalars[0]);
      EncodeScalar(scalars[0]).value + EncodeAll(scalars[1..])
  }

  lemma {:induction false} ScalarsAreScalars(units: seq<Unit>, unitSize: nat)
    ensures Scalars(units, unitSize).Some? ==>
              forall i :: 0 <= i < |Scalars(units, unitSize).value| ==> IsScalar(Scalars(units, unitSize).value[i])
    ensures Scalars(units, unitSize).Some? ==> |Scalars(units, unitSize).value| <= |units|
    decreases |units|
  {
    if units != [] && Scalars(units, unitSize).Some? {
      var pair := unitSize == 2 && IsSurrogate(units[0]);
      if pair {
        JoinIsCombination(units[0], units[1]);
        ScalarsAreScalars(units[2..], unitSize);
      } else {
        ScalarsAreScalars(units[1..], unitSize);
      }
    }
  }

  /** What the encoder computes: the encoded scalars if the units are well-formed, and a thrown exception if not. */
  function Encoded(units: seq<Unit>, unitSize: nat): Option<seq<bv8>> {
    ScalarsAreScalars(units, unitSize);
    var s := Scalars(units, unitSize);
    if s.Some? then Some(EncodeAll(s.value)) else None
  }

  function Append(a: seq<bv8>, b: Option<seq<bv8>>): Option<seq<bv8>> {
    if b.Some? then Some(a + b.value) else None
  }

  /** The first k units of rest are the encoding of the one scalar c, if c is one. */
  predicate StartsWith(rest: seq<Unit>, unitSize: nat, c: Scalar, k: nat) {
    && rest != []
    && if unitSize == 2 && IsSurrogate(rest[0]) then
         k == 2 && |rest| >= 2 && IsHighSurrogate(rest[0]) && IsLowSurrogate(rest[1]) && c == JoinSurrogates(rest[0], rest[1])
       else k == 1 && c == rest[0]
  }

  lemma EncodedStep(rest: seq<Unit>, unitSize: nat, c: Scalar, k: nat, before: seq<bv8>)
    requires StartsWith(rest, unitSize, c, k)
    requires unitSize == 2 ==> rest[0] < 0x10000
    ensures k <= |rest|
    ensures EncodeScalar(c).None? ==> Encoded(rest, unitSize) == None
    ensures EncodeScalar(c).Some? ==>
              Append(before, Encoded(rest, unitSize)) == Append(before + EncodeScalar(c).value, Encoded(rest[k..], unitSize))
  {
    EncodesScalars(c);
    if k == 2 {
      JoinIsCombination(rest[0], rest[1]);
    }
    hide EncodeScalar, JoinSurrogates;
    var tail := Scalars(rest[k..], unitSize);
    if IsScalar(c) && tail.Some? {
      assert Scalars(rest, unitSize) == Some([c] + tail.value);
      ScalarsAreScalars(rest[k..], unitSize);
      assert ([c] + tail.value)[1..] == tail.value;
      assert before + (EncodeScalar(c).value + EncodeAll(tail.value)) == (before + EncodeScalar(c).value) + EncodeAll(tail.value);
    }
  }

  /** The branches of `write_encoded_tm_str` that push one scalar. */
  method PushScalar(buffer: seq<bv8>, c: Scalar) returns (r: Option<seq<bv8>>)
    ensures r == if EncodeScalar(c).Some? then Some(buffer + EncodeScalar(c).value) else None
  {
    hide Byte;
    var buf := buffer;
    if c < 0x80 {
      buf := buf + [Byte(c)];
    } else if c < 0x800 {
      buf := buf + [Byte(0xC0 | (c >> 6))];
      buf := buf + [Byte(0x80 | (c & 0x3F))];
      assert buf == buffer + TwoBytes(c);
    } else if (c >= 0x800 && c <= 0xD7FF) || (c >= 0xE000 && c <= 0xFFFF) {
      buf := buf + [Byte(0xE0 | (c >> 12))];
      buf := buf + [Byte(0x80 | ((c & 0xFFF) >> 6))];
      buf := buf + [Byte(0x80 | (c & 0x3F))];
      assert buf == buffer + ThreeBytes(c);
    } else if c >= 0x10000 && c <= 0x10FFFF {
      buf := buf + [Byte(0xF0 | (c >> 18))];
      buf := buf + [Byte(0x80 | ((c & 0x3FFFF) >> 12))];
      buf := buf + [Byte(0x80 | ((c & 0xFFF) >> 6))];
      buf := buf + [Byte(0x80 | (c & 0x3F))];
      assert buf == buffer + FourBytes(c);
    } else {
      return None;
    }
    r := Some(buf);
  }

  /**
   * The loop of `write_encoded_tm_str`. Units of two bytes have their upper half
   * clear, as `static_cast<uint32_t>` leaves it. None stands for the exception.
   */
  method WriteEncoded(units: seq<Unit>, unitSize: nat) returns (r: Option<seq<bv8>>)
    requires unitSize == 2 || unitSize == 4
    requires unitSize == 2 ==> forall i :: 0 <= i < |units| ==> units[i] < 0x10000
    ensures r == Encoded(units, unitSize)
  {
    hide Scalars, Encoded, EncodeScalar, JoinSurrogates;
    var buf: seq<bv8> := [];
    var p := 0;
    assert units[0..] == units;
    EncodedFrom(units, unitSize);
    while p != |units|
      invariant 0 <= p <= |units|
      invariant Encoded(units, unitSize) == Append(buf, Encoded(units[p..], unitSize))
      decreases |units| - p
    {
      ghost var rest := units[p..];
      var c := units[p];
      if unitSize == 2 && c >= 0xD800 && c <= 0xDFFF {
        p := p + 1;
        if p == |units| || (c & 0xFC00) != 0xD800 || (units[p] & 0xFC00) != 0xDC00 {
          BadPair(rest);
          return None;
        }
        PairJoins(c, units[p]);
        c := (c << 10) + units[p] - 0x35FDC00;
        EncodedStep(rest, unitSize, c, 2, buf);
        assert units[p + 1..] == rest[2..];
      } else {
        EncodedStep(rest, unitSize, c, 1, buf);
        assert units[p + 1..] == rest[1..];
      }
      var pushed := PushScalar(buf, c);
      if pushed.None? {
        return None;
      }
      buf := pushed.value;
      p := p + 1;
    }
    EncodedNothing(units[p..], unitSize, buf);
    r := Some(buf);
  }

  lemma BadPair(rest: seq<Unit>)
    requires rest != [] && IsSurrogate(rest[0])
    requires forall i :: 0 <= i < |rest| ==> rest[i] < 0x10000
    requires |rest| == 1 || (rest[0] & 0xFC00) != 0xD800 || (rest[1] & 0xFC00) != 0xDC00
    ensures Encoded(rest, 2) == None
  {
  }

  lemma PairJoins(high: Unit, low: Unit)
    requires high < 0x10000 && low < 0x10000 && (high & 0xFC00) == 0xD800 && (low & 0xFC00) == 0xDC00
    ensures IsHighSurrogate(high) && IsLowSurrogate(low)
    ensures (high << 10) + low - 0x35FDC00 == JoinSurrogates(high, low)
  {
  }

  lemma EncodedFrom(units: seq<Unit>, unitSize: nat)
    ensures Append([], Encoded(units, unitSize)) == Encoded(units, unitSize)
  {
    if Encoded(units, unitSize).Some? {
      assert [] + Encoded(units, unitSize).value == Encoded(units, unitSize).value;
    }
  }

  lemma EncodedNothing(units: seq<Unit>, unitSize: nat, buf: seq<bv8>)
    requires units == []
    ensures Append(buf, Encoded(units, unitSize)) == Some(buf)
  {
    assert buf + [] == buf;
  }

  // ---------- the bytes mean what the units mean ----------

  lemma {:induction false} EncodedDecodes(scalars: seq<Scalar>)
    requires forall i :: 0 <= i < |scalars| ==> IsScalar(scalars[i])
    ensures Decode(EncodeAll(scalars)) == Some(scalars)
    ensures |EncodeAll(scalars)| <= 4 * |scalars|
  {
    if scalars != [] {
      var c := scalars[0];
      EncodesScalars(c);
      hide EncodeScalar, DecodeFirst;
      var rest := EncodeAll(scalars[1..]);
      EncodedDecodesFirst(c, rest);
      EncodedDecodes(scalars[1..]);
      var b := EncodeAll(scalars);
      assert b[|EncodeScalar(c).value|..] == rest;
      assert [c] + scalars[1..] == scalars;
    }
  }

  /**
   * The encoder succeeds exactly on well-formed input, and then its bytes are
   * well-formed UTF-8 for the same scalar values, at most four to a unit.
   */
  lemma EncoderIsCorrect(units: seq<Unit>, unitSize: nat)
    ensures Encoded(units, unitSize).Some? <==> Scalars(units, unitSize).Some?
    ensures Encoded(units, unitSize).Some? ==>
              && Decode(Encoded(units, unitSize).value) == Scalars(units, unitSize)
              && |Encoded(units, unitSize).value| <= 4 * |units|
  {
    ScalarsAreScalars(units, unitSize);
    if Scalars(units, unitSize).Some? {
      EncodedDecodes(Scalars(units, unitSize).value);
    }
  }

  // ---------- the two unit sizes agree ----------

  /** A scalar sequence as 16-bit units, split by the interpreter's macros. */
  function Split(scalars: seq<Scalar>): seq<Unit> {
    if scalars == [] then []
    else
      (if scalars[0] < 0x10000 then [scalars[0]] else [HighSurrogate(scalars[0]), LowSurrogate(scalars[0])])
      + Split(scalars[1..])
  }

  lemma {:induction false} SplitIsWellFormed(scalars: seq<Scalar>)
    requires forall i :: 0 <= i < |scalars| ==> IsScalar(scalars[i])
    ensures Scalars16(Split(scalars)) == Some(scalars)
    ensures Scalars32(scalars) == Some(scalars)
  {
    if scalars != [] {
      var c := scalars[0];
      var rest := scalars[1..];
      SplitIsWellFormed(rest);
      assert [c] + rest == scalars;
      if c < 0x10000 {
        assert Split(scalars)[1..] == Split(rest);
      } else {
        SplitJoins(c);
        HighIsSurrogate(c);
        hide HighSurrogate, LowSurrogate, JoinSurrogates;
        assert Split(scalars)[2..] == Split(rest);
      }
    }
  }

  lemma HighIsSurrogate(c: Scalar)
    requires 0x10000 <= c <= 0x10FFFF
    ensures IsSurrogate(HighSurrogate(c))
  {
  }

  /** Splitting any scalar sequence into surrogates and encoding it as UTF-16 gives the bytes of its UTF-32 form. */
  lemma ArmsAgree(scalars: seq<Scalar>)
    requires forall i :: 0 <= i < |scalars| ==> IsScalar(scalars[i])
    ensures Encoded(Split(scalars), 2) == Encoded(scalars, 4)
    ensures Encoded(scalars, 4).Some?
  {
    SplitIsWellFormed(scalars);
  }

  // ---------- nothing else is well-formed ----------

  lemma JoinSplits(high: Unit, low: Unit)
    requires IsHighSurrogate(high) && IsLowSurrogate(low)
    ensures HighSurrogate(JoinSurrogates(high, low)) == high && LowSurrogate(JoinSurrogates(high, low)) == low
    ensures 0x10000 <= JoinSurrogates(high, low) <= 0x10FFFF
  {
  }

  /** Well-formed UTF-16 is exactly what splitting scalar values gives. */
  lemma {:induction false} UnitsAreSplit(units: seq<Unit>)
    ensures Scalars16(units).Some? ==> Split(Scalars16(units).value) == units
    decreases |units|
  {
    hide JoinSurrogates, HighSurrogate, LowSurrogate;
    if units != [] && Scalars16(units).Some? {
      if IsSurrogate(units[0]) {
        JoinSplits(units[0], units[1]);
        UnitsAreSplit(units[2..]);
        var rest := Scalars16(units[2..]).value;
        assert ([JoinSurrogates(units[0], units[1])] + rest)[1..] == rest;
        assert units == [units[0], units[1]] + units[2..];
      } else {
        UnitsAreSplit(units[1..]);
        var rest := Scalars16(units[1..]).value;
        assert ([units[0]] + rest)[1..] == rest;
        assert units == [units[0]] + units[1..];
      }
    }
  }

  lemma Back1(b: bv8)
    requires b <= 0x7F
    ensures Widen(b) < 0x80 && Byte(Widen(b)) == b
  {
  }

  lemma Back2(b0: bv8, b1: bv8)
    requires 0xC2 <= b0 <= 0xDF && IsTail(b1)
    ensures var c := Value2Of(b0, b1);
            0x80 <= c < 0x800 && Byte(0xC0 | (c >> 6)) == b0 && Byte(0x80 | (c & 0x3F)) == b1
  {
  }

  lemma Range3(b0: bv8, b1: bv8, b2: bv8)
    requires Syntax3Of(b0, b1, b2)
    ensures 0x800 <= Value3Of(b0, b1, b2) <= 0xFFFF && !IsSurrogate(Value3Of(b0, b1, b2))
  {
  }

  lemma Back3(b0: bv8, b1: bv8, b2: bv8)
    requires Syntax3Of(b0, b1, b2)
    ensures var c := Value3Of(b0, b1, b2);
            && Byte(0xE0 | (c >> 12)) == b0 && Byte(0x80 | ((c & 0xFFF) >> 6)) == b1 && Byte(0x80 | (c & 0x3F)) == b2
  {
  }

  lemma Range4(b0: bv8, b1: bv8, b2: bv8, b3: bv8)
    requires Syntax4Of(b0, b1, b2, b3)
    ensures 0x10000 <= Value4Of(b0, b1, b2, b3) <= 0x10FFFF
  {
  }

  lemma Back4(b0: bv8, b1: bv8, b2: bv8, b3: bv8)
    requires Syntax4Of(b0, b1, b2, b3)
    ensures var c := Value4Of(b0, b1, b2, b3);
            && Byte(0xF0 | (c >> 18)) == b0 && Byte(0x80 | ((c & 0x3FFFF) >> 12)) == b1
            && Byte(0x80 | ((c & 0xFFF) >> 6)) == b2 && Byte(0x80 | (c & 0x3F)) == b3
  {
  }

  lemma Encoded1(b0: bv8)
    requires b0 <= 0x7F
    ensures EncodeScalar(Widen(b0)) == Some([b0])
  {
    Back1(b0);
    hide Widen, Byte;
  }

  lemma Encoded2(b0: bv8, b1: bv8)
    requires 0xC2 <= b0 <= 0xDF && IsTail(b1)
    ensures EncodeScalar(Value2Of(b0, b1)) == Some([b0, b1])
  {
    Back2(b0, b1);
    hide Widen, Byte, Value2Of;
  }

  lemma Encoded3(b0: bv8, b1: bv8, b2: bv8)
    requires Syntax3Of(b0, b1, b2)
    ensures EncodeScalar(Value3Of(b0, b1, b2)) == Some([b0, b1, b2])
  {
    Range3(b0, b1, b2);
    Back3(b0, b1, b2);
    hide Widen, Byte, Syntax3Of, Value3Of, ThreeBytes;
    ThreeAre(Value3Of(b0, b1, b2), b0, b1, b2);
    PicksThree(Value3Of(b0, b1, b2));
    hide EncodeScalar;
  }

  lemma ThreeAre(c: Scalar, b0: bv8, b1: bv8, b2: bv8)
    requires Byte(0xE0 | (c >> 12)) == b0 && Byte(0x80 | ((c & 0xFFF) >> 6)) == b1 && Byte(0x80 | (c & 0x3F)) == b2
    ensures ThreeBytes(c) == [b0, b1, b2]
  {
    hide Byte;
  }

  lemma PicksThree(c: Scalar)
    requires 0x800 <= c <= 0xFFFF && !IsSurrogate(c)
    ensures EncodeScalar(c) == Some(ThreeBytes(c))
  {
    hide OneByte, TwoBytes, ThreeBytes, FourBytes;
  }

  lemma FourAre(c: Scalar, b0: bv8, b1: bv8, b2: bv8, b3: bv8)
    requires Byte(0xF0 | (c >> 18)) == b0 && Byte(0x80 | ((c & 0x3FFFF) >> 12)) == b1
    requires Byte(0x80 | ((c & 0xFFF) >> 6)) == b2 && Byte(0x80 | (c & 0x3F)) == b3
    ensures FourBytes(c) == [b0, b1, b2, b3]
  {
    hide Byte;
  }

  lemma PicksFour(c: Scalar)
    requires 0x10000 <= c <= 0x10FFFF
    ensures EncodeScalar(c) == Some(FourBytes(c))
  {
    hide OneByte, TwoBytes, ThreeBytes, FourBytes;
  }

  lemma Encoded4(b0: bv8, b1: bv8, b2: bv8, b3: bv8)
    requires Syntax4Of(b0, b1, b2, b3)
    ensures EncodeScalar(Value4Of(b0, b1, b2, b3)) == Some([b0, b1, b2, b3])
  {
    Range4(b0, b1, b2, b3);
    Back4(b0, b1, b2, b3);
    hide Widen, Byte, Syntax4Of, Value4Of, FourBytes;
    FourAre(Value4Of(b0, b1, b2, b3), b0, b1, b2, b3);
    PicksFour(Value4Of(b0, b1, b2, b3));
    hide EncodeScalar;
  }

  /** The first character of a byte sequence is encoded as the bytes it was decoded from. */
  lemma DecodedEncodesFirst(b: seq<bv8>)
    requires DecodeFirst(b).Some?
    ensures var c, n := DecodeFirst(b).value.0, DecodeFirst(b).value.1;
            1 <= n <= |b| && EncodeScalar(c) == Some(b[..n])
  {
    hide EncodeScalar, Widen, Value2Of, Syntax3Of, Value3Of, Syntax4Of, Value4Of;
    if b[0] <= 0x7F {
      Encoded1(b[0]);
      assert [b[0]] == b[..1];
    } else if 0xC2 <= b[0] <= 0xDF && |b| >= 2 && IsTail(b[1]) {
      Encoded2(b[0], b[1]);
      assert [b[0], b[1]] == b[..2];
    } else if |b| >= 3 && Syntax3Of(b[0], b[1], b[2]) {
      Encoded3(b[0], b[1], b[2]);
      assert [b[0], b[1], b[2]] == b[..3];
    } else {
      Encoded4(b[0], b[1], b[2], b[3]);
      assert [b[0], b[1], b[2], b[3]] == b[..4];
    }
  }

  /** Well-formed UTF-8 is exactly what encoding scalar values gives. */
  lemma {:induction false} DecodedEncodes(b: seq<bv8>)
    requires Decode(b).Some?
    ensures forall i :: 0 <= i < |Decode(b).value| ==> IsScalar(Decode(b).value[i])
    ensures EncodeAll(Decode(b).value) == b
    decreases |b|
  {
    if b != [] {
      var c, n := DecodeFirst(b).value.0, DecodeFirst(b).value.1;
      DecodedEncodesFirst(b);
      EncodesScalars(c);
      hide EncodeScalar, DecodeFirst, IsScalar;
      DecodedEncodes(b[n..]);
      assert b == b[..n] + b[n..];
      EncodeCons(c, Decode(b[n..]).value);
    }
  }

  lemma EncodeCons(c: Scalar, rest: seq<Scalar>)
    requires IsScalar(c) && forall i :: 0 <= i < |rest| ==> IsScalar(rest[i])
    ensures var all := [c] + rest;
            && (forall i :: 0 <= i < |all| ==> IsScalar(all[i]))
            && EncodeScalar(c).Some? && EncodeAll(all) == EncodeScalar(c).value + EncodeAll(rest)
  {
    EncodesScalars(c);
    hide EncodeScalar;
    assert ([c] + rest)[1..] == rest;
  }
}
