/** The overflow-checked cast between integral durations. */
module SafeCast {
  import opened Arith

  /** A C++ integer type: its width in bits and its signedness. */
  datatype IntType = IntType(bits: nat, signed: bool) {

    predicate Valid() {
      bits == 8 || bits == 16 || bits == 32 || bits == 64
    }

    /** `numeric_limits<T>::digits` */
    function Digits(): nat
      requires Valid()
    {
      if signed then bits - 1 else bits
    }

    function Modulus(): int
      requires Valid()
    {
      if bits == 8 then 0x100
      else if bits == 16 then 0x1_0000
      else if bits == 32 then 0x1_0000_0000
      else 0x1_0000_0000_0000_0000
    }

    function Min(): int
      requires Valid()
    {
      if signed then -(Modulus() / 2) else 0
    }

    function Max(): int
      requires Valid()
    {
      if signed then Modulus() / 2 - 1 else Modulus() - 1
    }

    predicate Fits(v: int)
      requires Valid()
    {
      Min() <= v <= Max()
    }

    /** `static_cast<T>(v)`: the value of T congruent to v. */
    function Cast(v: int): (r: int)
      requires Valid()
      ensures Fits(r) && (Fits(v) ==> r == v)
    {
      var m := v % Modulus();
      if m > Max() then m - Modulus() else m
    }
  }

  function Pow2(n: nat): int {
    if n == 0 then 1 else 2 * Pow2(n - 1)
  }

  /** The ranges of the types, by their widths. */
  lemma RangesByWidth(t: IntType)
    requires t.Valid()
    ensures t.Modulus() == Pow2(t.bits) == t.Max() - t.Min() + 1
    ensures t.Max() == Pow2(t.Digits()) - 1
    ensures t.Min() == if t.signed then -Pow2(t.bits - 1) else 0
  {
    PowersOfTwo();
    hide Pow2;
  }

  lemma PowersOfTwo()
    ensures Pow2(7) == 0x80 && Pow2(8) == 0x100 && Pow2(15) == 0x8000 && Pow2(16) == 0x1_0000
    ensures Pow2(31) == 0x8000_0000 && Pow2(32) == 0x1_0000_0000
    ensures Pow2(63) == 0x8000_0000_0000_0000 && Pow2(64) == 0x1_0000_0000_0000_0000
  {
    assert Pow2(23) == 0x80_0000 && Pow2(40) == 0x100_0000_0000 && Pow2(48) == 0x1_0000_0000_0000;
    assert Pow2(56) == 0x100_0000_0000_0000;
  }

  /** A cast changes a value by a multiple of the type's modulus, and lands in the type's range. */
  lemma CastWraps(t: IntType, v: int)
    requires t.Valid()
    ensures t.Fits(t.Cast(v)) && t.Cast(v) % t.Modulus() == v % t.Modulus()
  {
    var base := t.Modulus();
    var m := v % base;
    assert base > 0 && (t.Cast(v) == m || t.Cast(v) == m - base);
    hide IntType.Cast, IntType.Modulus, IntType.Max;
    DivUnique(m, base, 0, m);
    DivUnique(m - base, base, -1, m);
  }

  const INT32 := IntType(32, true)
  const INT64 := IntType(64, true)
  const UINT32 := IntType(32, false)
  const UINT64 := IntType(64, false)

  /** The quotient is truncated: multiplied back it has the sign of a, and misses a by less than b, toward zero. */
  lemma TruncDivTruncates(a: int, b: int)
    requires b > 0
    ensures var q := TruncDiv(a, b);
            (a >= 0 ==> 0 <= q * b <= a < q * b + b) && (a <= 0 ==> q * b - b < a <= q * b <= 0)
    ensures TruncMod(a, b) == a - TruncDiv(a, b) * b
  {
    var n: nat := Abs(a);
    var q := n / b;
    assert n == b * q + n % b;
    assert q * b == b * q && (-q) * b == -(q * b);
    NatQuotientShrinks(n, b);
    MulAtLeastZero(b, q);
  }

  /** Integral promotion. */
  function Promote(t: IntType): IntType
    requires t.Valid()
  {
    if t.bits < 32 then INT32 else t
  }

  /** `std::common_type` of two integer types: the usual arithmetic conversions. */
  function Common(a: IntType, b: IntType): (c: IntType)
    requires a.Valid() && b.Valid()
    ensures c.Valid()
  {
    if a == b then a
    else
      var p, q := Promote(a), Promote(b);
      if p.signed == q.signed then (if p.bits >= q.bits then p else q)
      else
        var u, s := if p.signed then q else p, if p.signed then p else q;
        if u.bits >= s.bits then u else s
  }

  /**
   * The common type of two different types is as wide as the wider of the two
   * after promotion, and unsigned exactly when one of that width is.
   */
  lemma CommonIsWider(a: IntType, b: IntType)
    requires a.Valid() && b.Valid()
    ensures Common(a, b) == Common(b, a)
    ensures a == b ==> Common(a, b) == a
    ensures a != b ==>
              var c, p, q := Common(a, b), Promote(a), Promote(b);
              && c.bits >= p.bits && c.bits >= q.bits && (c == p || c == q)
              && (!c.signed <==> (!p.signed && p.bits == c.bits) || (!q.signed && q.bits == c.bits))
    ensures var c := Common(a, b);
            forall v :: a.Fits(v) && b.Fits(v) ==> c.Fits(v)
  {
  }

  /** The type the cast computes in: common to both representations and `intmax_t`. */
  function Intermediate(from: IntType, to: IntType): (c: IntType)
    requires from.Valid() && to.Valid()
    ensures c.Valid()
  {
    Common(Common(from, to), INT64)
  }

  /** The intermediate type is 64 bits wide, and unsigned only when one side is. */
  lemma IntermediateIs64Bits(from: IntType, to: IntType)
    requires from.Valid() && to.Valid()
    ensures Intermediate(from, to) == if from == UINT64 || to == UINT64 then UINT64 else INT64
    ensures Intermediate(from, to) == Intermediate(to, from)
  {
  }

  /**
   * `lossless_integral_conversion`: all three overloads, told apart by the
   * static facts about the two types. `ec` is 0 or 1.
   */
  method LosslessConversion(from: int, f: IntType, t: IntType) returns (r: int, ec: int)
    requires f.Valid() && t.Valid() && f.Fits(from)
    ensures ec == (if t.Fits(from) then 0 else 1)
    ensures r == if ec == 0 then from else 0
  {
    ec := 0;
    if f == t {
      return from, ec;
    }
    if f.signed == t.signed {
      if f.Digits() > t.Digits() && (from < t.Min() || from > t.Max()) {
        return 0, 1;
      }
      return t.Cast(from), ec;
    }
    if f.signed && !t.signed {
      if from < 0 {
        return 0, 1;
      }
      if f.Digits() > t.Digits() && from > f.Cast(t.Max()) {
        return 0, 1;
      }
    }
    if !f.signed && t.signed && f.Digits() >= t.Digits() && from > f.Cast(t.Max()) {
      return 0, 1;
    }
    r := t.Cast(from);
  }

  /**
   * The inputs the cast must accept: the count fits the intermediate type,
   * so does the product, and the truncated quotient fits the target.
   */
  predicate Representable(count: int, from: IntType, to: IntType, num: int, den: int)
    requires from.Valid() && to.Valid() && den > 0
  {
    var i := Intermediate(from, to);
    && i.Fits(count)
    && i.Fits(count * num)
    && to.Fits(TruncDiv(count * num, den))
  }

  /** Comparing with the truncated bound Min / num or Max / num is comparing the product with the bound. */
  lemma BoundByDivision(count: int, num: int, bound: int)
    requires num > 0
    ensures bound >= 0 ==> (count > bound / num <==> count * num > bound)
    ensures bound <= 0 ==> (count < TruncDiv(bound, num) <==> count * num < bound)
  {
    if bound >= 0 {
      DivisionBound(count, num, bound);
    }
    if bound <= 0 {
      DivisionBound(-count, num, -bound);
      assert (-count) * num == -(count * num);
      if bound == 0 {
        DivUnique(0, num, 0, 0);
      }
    }
  }

  lemma DivisionBound(count: int, num: int, bound: int)
    requires num > 0 && bound >= 0
    ensures count > bound / num <==> count * num > bound
  {
    var q := bound / num;
    assert bound == num * q + bound % num;
    if count > q {
      ScaleGap(num, count, q);
    } else if count < q {
      ScaleGap(num, q, count);
    }
  }

  /**
   * Integral `safe_duration_cast`. Every product and quotient is computed in the
   * intermediate type and never leaves its range; `ec` is 1 exactly when the
   * value is not representable, and otherwise the result is exact.
   */
  method SafeDurationCast(from: int, f: IntType, t: IntType, num: int, den: int) returns (r: int, ec: int)
    requires f.Valid() && t.Valid() && f.Fits(from)
    requires 0 < num && 0 < den && INT64.Fits(num) && INT64.Fits(den)
    ensures ec == (if Representable(from, f, t, num, den) then 0 else 1)
    ensures r == if ec == 0 then TruncDiv(from * num, den) else 0
    ensures var i := if f == UINT64 || t == UINT64 then UINT64 else INT64;
            ec == 0 <==> i.Fits(from) && i.Fits(from * num) && t.Fits(TruncDiv(from * num, den))
    ensures t.Fits(r)
  {
    var rep := Intermediate(f, t);
    IntermediateIs64Bits(f, t);
    hide Common, Intermediate, TruncDiv;
    var count;
    count, ec := LosslessConversion(from, f, rep);
    if ec != 0 {
      return 0, ec;
    }
    if num != 1 {
      BoundByDivision(count, num, rep.Max());
      BoundByDivision(count, num, rep.Min());
      var max1 := rep.Max() / num;
      if count > max1 {
        return 0, 1;
      }
      var min1 := TruncDiv(rep.Min(), num);
      if count < min1 {
        return 0, 1;
      }
      assert rep.Fits(count * num);
      count := rep.Cast(count * num);
    }
    if den != 1 {
      QuotientShrinks(count, den);
      assert rep.Fits(TruncDiv(count, den));
      count := rep.Cast(TruncDiv(count, den));
    }
    r, ec := LosslessConversion(count, rep, t);
  }

  lemma QuotientShrinks(a: int, b: int)
    requires b > 0
    ensures a >= 0 ==> 0 <= TruncDiv(a, b) <= a
    ensures a <= 0 ==> a <= TruncDiv(a, b) <= 0
  {
    NatQuotientShrinks(Abs(a), b);
  }

  lemma NatQuotientShrinks(a: nat, b: int)
    requires b > 0
    ensures 0 <= a / b <= a
  {
    var q := a / b;
    assert a == b * q + a % b;
    if q >= 1 && b > 1 {
      MulAtLeast(q, b);
    }
  }

  /** A cast to a finer unit (factor k) that succeeds is undone by the cast back. */
  lemma FinerAndBack(count: int, f: IntType, t: IntType, k: int)
    requires f.Valid() && t.Valid() && f.Fits(count) && 0 < k
    requires Representable(count, f, t, k, 1)
    ensures Representable(TruncDiv(count * k, 1), t, f, 1, k)
    ensures TruncDiv(TruncDiv(count * k, 1) * 1, k) == count
  {
    IntermediateIs64Bits(f, t);
    DivUnique(Abs(count * k), 1, Abs(count * k), 0);
    ProductQuotient(count, k);
  }

  lemma ProductQuotient(count: int, k: int)
    requires 0 < k
    ensures TruncDiv(count * k, k) == count
  {
    if count >= 0 {
      DivUnique(count * k, k, count, 0);
    } else {
      assert -(count * k) == k * (-count);
      DivUnique(-(count * k), k, -count, 0);
    }
  }

  /**
   * A cast to a coarser unit (factor 1/k) that succeeds can be cast back; the
   * result has lost less than one coarse unit and has not moved away from zero.
   */
  lemma CoarserAndBack(count: int, f: IntType, t: IntType, k: int)
    requires f.Valid() && t.Valid() && f.Fits(count) && 0 < k
    requires Representable(count, f, t, 1, k)
    ensures var q := TruncDiv(count * 1, k);
            && Representable(q, t, f, k, 1)
            && var back := TruncDiv(q * k, 1);
            && Abs(back) <= Abs(count) < Abs(back) + k
            && (count >= 0 ==> back >= 0) && (count <= 0 ==> back <= 0)
  {
    var q := TruncDiv(count, k);
    IntermediateIs64Bits(f, t);
    QuotientShrinks(count, k);
    TruncatedBack(count, k);
    DivUnique(Abs(q * k), 1, Abs(q * k), 0);
    assert TruncDiv(q * k, 1) == q * k;
    assert count * 1 == count;
    hide TruncDiv;
  }

  lemma TruncatedBack(count: int, k: int)
    requires 0 < k
    ensures var back := TruncDiv(count, k) * k;
            Abs(back) <= Abs(count) < Abs(back) + k && (count >= 0 ==> back >= 0) && (count <= 0 ==> back <= 0)
  {
    var a: nat := Abs(count);
    var q := a / k;
    assert a == k * q + a % k;
    assert q * k == k * q;
    NatQuotientShrinks(a, k);
    if count < 0 {
      assert TruncDiv(count, k) == -q;
      assert (-q) * k == -(q * k);
    }
    MulAtLeastZero(k, q);
  }
}
