/** Euclid's algorithm and the two facts about reduced fractions that duration arithmetic rests on. */
module Ratio {
  import opened Arith

  function Gcd(a: nat, b: nat): (g: nat)
    requires a > 0 || b > 0
    ensures g > 0
    decreases b
  {
    if b == 0 then a else Gcd(b, a % b)
  }

  lemma {:induction false} GcdDivides(a: nat, b: nat)
    requires a > 0 || b > 0
    ensures a % Gcd(a, b) == 0 && b % Gcd(a, b) == 0
    decreases b
  {
    if b == 0 {
      DivUnique(a, a, 1, 0);
      DivUnique(0, a, 0, 0);
    } else {
      var r := a % b;
      GcdDivides(b, r);
      DividesDividend(a, b, r, Gcd(b, r));
    }
  }

  lemma DividesDividend(a: nat, b: nat, r: nat, g: int)
    requires b > 0 && r == a % b && g > 0 && b % g == 0 && r % g == 0
    ensures a % g == 0
  {
    var q, k, m := a / b, b / g, r / g;
    assert a == b * q + r && b == g * k && r == g * m;
    assert (g * k) * q == g * (k * q);
    Distribute(g, k * q, m);
    DivUnique(a, g, k * q + m, 0);
  }

  /** Bezout's identity, by the same recursion. */
  lemma {:induction false} Bezout(a: nat, b: nat) returns (x: int, y: int)
    requires a > 0 || b > 0
    ensures a * x + b * y == Gcd(a, b)
    decreases b
  {
    if b == 0 {
      x, y := 1, 0;
    } else {
      var x', y' := Bezout(b, a % b);
      var q, r := a / b, a % b;
      assert a == b * q + r;
      x, y := y', x' - q * y';
      hide Gcd;
      BezoutStep(b, q, r, x', y');
    }
  }

  lemma BezoutStep(b: int, q: int, r: int, x: int, y: int)
    ensures (b * q + r) * y + b * (x - q * y) == b * x + r * y
  {
    Reorder3(b, q, y);
    assert (b * q + r) * y == (b * q) * y + r * y;
    assert b * (x - q * y) == b * x - b * (q * y);
  }

  /** Euclid's lemma: a denominator coprime to the numerator divides the scale. */
  lemma CoprimeDivides(num: nat, den: nat, p: int)
    requires num > 0 && den > 0 && Gcd(num, den) == 1
    requires (num * p) % den == 0
    ensures p % den == 0
  {
    var x, y := Bezout(num, den);
    hide Gcd;
    var k := (num * p) / den;
    assert num * p == den * k;
    Combination(num, den, p, x, y, k);
    DivUnique(p, den, k * x + p * y, 0);
  }

  lemma Combination(num: int, den: int, p: int, x: int, y: int, k: int)
    requires num * x + den * y == 1 && num * p == den * k
    ensures p == den * (k * x + p * y)
  {
    calc {
      p;
      p * (num * x + den * y);
      { Distribute(p, num * x, den * y); }
      p * (num * x) + p * (den * y);
      { Reorder(p, num, x); Reorder(p, den, y); }
      (num * p) * x + den * (p * y);
      { Reorder3(den, k, x); }
      den * (k * x) + den * (p * y);
      { Distribute(den, k * x, p * y); }
      den * (k * x + p * y);
    }
  }

  lemma Reorder3(a: int, b: int, c: int)
    ensures (a * b) * c == a * (b * c)
  {
  }

  lemma Distribute(a: int, b: int, c: int)
    ensures a * (b + c) == a * b + a * c
  {
  }

  lemma Reorder(p: int, a: int, b: int)
    ensures p * (a * b) == (a * p) * b && p * (a * b) == a * (p * b)
  {
  }

  /** Dividing numerator and denominator by a common factor leaves the truncated quotient unchanged. */
  lemma CancelCommonFactor(f: nat, p: nat, den: nat, g: nat)
    requires g > 0 && den > 0 && p % g == 0 && den % g == 0
    ensures den / g > 0
    ensures (f * (p / g)) / (den / g) == (f * p) / den
  {
    var p', d' := p / g, den / g;
    assert p == g * p' && den == g * d';
    if d' <= 0 {
      assert false;
    }
    var a := f * p';
    var q, r := a / d', a % d';
    assert a == d' * q + r;
    assert f * p == g * a by { Reorder(f, g, p'); }
    calc {
      g * a;
      { Distribute(g, d' * q, r); }
      g * (d' * q) + g * r;
      (g * d') * q + g * r;
    }
    ScaleGap(g, d', r);
    MulAtLeastZero(g, r);
    DivUnique(f * p, den, q, g * r);
  }
}

/** Formatting an integral duration as a clock time. */
module Durations {
  import opened Arith
  import opened Decimal
  import opened Ratio
  import opened SafeCast
  import opened TmWriter
  import opened Wrappers
  import Lanes

  // ---------- the number of fractional digits ----------

  /**
   * `count_fractional_digits`, evaluated in `long long`. A product that leaves the
   * type makes the constant expression ill-formed, which None stands for.
   */
  function FractionalDigits(num: int, den: int, n: nat): Option<nat>
    requires den > 0 && n <= 19
    decreases 20 - n
  {
    if num % den == 0 then Some(n)
    else if n > 18 then Some(6)
    else if !INT64.Fits(num * 10) then None
    else FractionalDigits(num * 10, den, n + 1)
  }

  /** num/den has a decimal expansion of at most k fractional digits. */
  predicate EndsWithin(num: nat, den: nat, k: nat)
    requires den > 0
  {
    (num * Pow10(k)) % den == 0
  }

  /** Multiplying by ten shifts the digits. */
  lemma EndsShifted(num: nat, den: nat, k: nat)
    requires den > 0
    ensures EndsWithin(num * 10, den, k) == EndsWithin(num, den, k + 1)
    ensures num * 10 * Pow10(k) == num * Pow10(k + 1)
  {
    Reorder(num, 10, Pow10(k));
  }

  /** num times 10^k leaves `long long` before the digits end. */
  ghost predicate OverflowsFirst(num: nat, den: nat, k: nat)
    requires den > 0
  {
    !INT64.Fits(num * Pow10(k)) && forall j: nat :: j < k ==> !EndsWithin(num, den, j)
  }

  /** What the search must answer at n, for the fraction num/den. */
  ghost predicate Answers(answer: Option<nat>, num: nat, den: nat, n: nat)
    requires den > 0
  {
    match answer
    case Some(r) =>
      && n <= r <= 18 && EndsWithin(num, den, r - n) && INT64.Fits(num * Pow10(r - n))
      && forall k: nat :: k < r - n ==> !EndsWithin(num, den, k)
    case None => exists k: nat :: OverflowsFirst(num, den, k)
  }

  lemma {:induction false} FractionalDigitsFrom(num: nat, den: nat, n: nat)
    requires den > 0 && n <= 18 && Pow10(n) <= num && INT64.Fits(num)
    ensures Answers(FractionalDigits(num, den, n), num, den, n)
    decreases 20 - n
  {
    hide Answers, OverflowsFirst, EndsWithin, Pow10;
    AtFirst(num, den, n);
    if num % den != 0 && INT64.Fits(num * 10) {
      FewerThanNineteen(num, n);
      FractionalDigitsFrom(num * 10, den, n + 1);
      ShiftBack(FractionalDigits(num * 10, den, n + 1), num, den, n);
    }
  }

  lemma AtFirst(num: nat, den: nat, n: nat)
    requires den > 0 && n <= 18 && INT64.Fits(num)
    ensures EndsWithin(num, den, 0) <==> num % den == 0
    ensures num % den == 0 ==> Answers(Some(n), num, den, n)
    ensures num % den != 0 && !INT64.Fits(num * 10) ==> Answers(None, num, den, n)
  {
    assert num * Pow10(0) == num;
    if num % den != 0 && !INT64.Fits(num * 10) {
      EndsShifted(num, den, 0);
      assert OverflowsFirst(num, den, 1);
    }
  }

  /** A number that is at least 10^n and can still be multiplied by ten has fewer than 19 digits. */
  lemma FewerThanNineteen(num: nat, n: nat)
    requires n <= 18 && Pow10(n) <= num && INT64.Fits(num * 10)
    ensures n < 18 && Pow10(n + 1) <= num * 10
  {
    assert Pow10(n + 1) == 10 * Pow10(n);
    if n == 18 {
      Pow10At18();
    }
  }

  lemma ShiftBack(answer: Option<nat>, num: nat, den: nat, n: nat)
    requires den > 0 && n <= 17 && !EndsWithin(num, den, 0)
    requires Answers(answer, num * 10, den, n + 1)
    ensures Answers(answer, num, den, n)
  {
    forall k: nat ensures k > 0 ==> EndsWithin(num, den, k) == EndsWithin(num * 10, den, k - 1) {
      if k > 0 {
        EndsShifted(num, den, k - 1);
      }
    }
    match answer
    case Some(r) =>
      EndsShifted(num, den, r - (n + 1));
    case None =>
      var k: nat :| OverflowsFirst(num * 10, den, k);
      EndsShifted(num, den, k);
      assert OverflowsFirst(num, den, k + 1);
  }

  /**
   * The search finds the least number of digits that represents the fraction
   * exactly, if the scaled numerator is still a `long long` there; it is at most
   * 18. For any other fraction the constant expression is ill-formed: the answer
   * 6 for longer fractions is never reached.
   */
  lemma FractionalDigitsIsMinimal(num: nat, den: nat)
    requires 0 < num && den > 0 && INT64.Fits(num)
    ensures FractionalDigits(num, den, 0).Some? <==> exists k: nat :: EndsWithin(num, den, k) && INT64.Fits(num * Pow10(k))
    ensures FractionalDigits(num, den, 0).Some? ==>
              var r := FractionalDigits(num, den, 0).value;
              r <= 18 && EndsWithin(num, den, r) && forall k: nat :: k < r ==> !EndsWithin(num, den, k)
  {
    assert Pow10(0) == 1;
    FractionalDigitsFrom(num, den, 0);
    match FractionalDigits(num, den, 0)
    case Some(r) =>
    case None =>
      var o: nat :| OverflowsFirst(num, den, o);
      forall k: nat ensures !(EndsWithin(num, den, k) && INT64.Fits(num * Pow10(k))) {
        if o <= k {
          ScaledMonotone(num, o, k);
        }
      }
  }

  lemma ScaledMonotone(num: nat, a: nat, b: nat)
    requires a <= b
    ensures 0 <= num * Pow10(a) <= num * Pow10(b)
  {
    Pow10Monotone(a, b);
    MulAtLeastZero(num, Pow10(b) - Pow10(a));
    MulAtLeastZero(num, Pow10(a));
    assert num * (Pow10(b) - Pow10(a)) == num * Pow10(b) - num * Pow10(a);
  }

  /** A `std::ratio` with a positive numerator, in lowest terms. */
  predicate IsPeriod(num: int, den: int) {
    0 < num && 0 < den && INT64.Fits(num) && INT64.Fits(den) && Gcd(num, den) == 1
  }

  /** The periods for which the writer compiles. */
  predicate Formattable(num: int, den: int) {
    IsPeriod(num, den) && FractionalDigits(num, den, 0).Some?
  }

  /** The number of fractional digits printed for a period. */
  function Digits(num: nat, den: nat): (r: nat)
    requires Formattable(num, den)
    ensures r <= 18
  {
    FractionalDigitsIsMinimal(num, den);
    FractionalDigits(num, den, 0).value
  }

  lemma DigitsMinimal(num: nat, den: nat)
    requires Formattable(num, den)
    ensures var r := Digits(num, den);
            r <= 18 && EndsWithin(num, den, r) && forall k: nat :: k < r ==> !EndsWithin(num, den, k)
  {
    FractionalDigitsIsMinimal(num, den);
  }

  /** 11/2^18 ends after 18 digits, but 11 * 10^18 is not a `long long`; 1/3 never ends. */
  lemma IllFormedPeriods()
    ensures EndsWithin(11, 0x4_0000, 18) && FractionalDigits(11, 0x4_0000, 0).None?
    ensures FractionalDigits(1, 3, 0).None?
  {
    Pow10At18();
    hide FractionalDigits, Pow10;
    forall k: nat ensures !(EndsWithin(11, 0x4_0000, k) && INT64.Fits(11 * Pow10(k))) {
      ElevenOverflows(k);
    }
    NeverSucceeds(11, 0x4_0000);
    forall k: nat ensures !(EndsWithin(1, 3, k) && INT64.Fits(1 * Pow10(k))) {
      TenToThree(k);
    }
    NeverSucceeds(1, 3);
  }

  lemma NeverSucceeds(num: nat, den: nat)
    requires 0 < num && den > 0 && INT64.Fits(num)
    requires forall k: nat :: !(EndsWithin(num, den, k) && INT64.Fits(num * Pow10(k)))
    ensures FractionalDigits(num, den, 0).None?
  {
    hide FractionalDigits, Pow10, EndsWithin;
    FractionalDigitsIsMinimal(num, den);
  }

  lemma ElevenOverflows(k: nat)
    ensures !(EndsWithin(11, 0x4_0000, k) && INT64.Fits(11 * Pow10(k)))
  {
    Pow10At18();
    if k >= 18 {
      ScaledMonotone(11, 18, k);
    } else if EndsWithin(11, 0x4_0000, k) {
      EndsLater(11, 0x4_0000, k, 17);
      hide Pow10;
    }
  }

  /** A fraction that ends within k digits ends within more. */
  lemma {:induction false} EndsLater(num: nat, den: nat, k: nat, l: nat)
    requires den > 0 && k <= l && EndsWithin(num, den, k)
    ensures EndsWithin(num, den, l)
  {
    if k < l {
      EndsLater(num, den, k, l - 1);
      var q := num * Pow10(l - 1) / den;
      assert num * Pow10(l - 1) == den * q;
      Reorder(num, 10, Pow10(l - 1));
      assert num * Pow10(l) == 10 * (num * Pow10(l - 1));
      assert 10 * (den * q) == den * (10 * q);
      DivUnique(num * Pow10(l), den, 10 * q, 0);
    }
  }

  lemma {:induction false} TenToThree(k: nat)
    ensures Pow10(k) % 3 == 1
  {
    if k > 0 {
      TenToThree(k - 1);
      var q := Pow10(k - 1) / 3;
      DivUnique(Pow10(k), 3, 10 * q + 3, 1);
    }
  }

  lemma Pow10At18()
    ensures Pow10(17) == 100_000_000_000_000_000 && Pow10(18) == 1_000_000_000_000_000_000
  {
    assert Pow10(6) == 1_000_000;
    assert Pow10(12) == 1_000_000_000_000;
  }

  // ---------- clock texts ----------

  /** The parts of a text such as -07:04:05.250. */
  datatype Clock = Clock(negative: bool, hours: nat, minutes: nat, seconds: nat, digits: nat, fraction: nat) {

    predicate Valid() {
      hours < 24 && minutes < 60 && seconds < 60 && fraction < Pow10(digits)
    }

    /** The time of day in units of ten to the minus `digits` seconds. */
    function Ticks(): nat {
      (hours * 3600 + minutes * 60 + seconds) * Pow10(digits) + fraction
    }

    /** The time of day as an exact number of seconds. */
    ghost function Seconds(): real {
      Ticks() as real / Pow10(digits) as real
    }

    function Body(): string {
      Padded(hours, 2) + ":" + Padded(minutes, 2) + ":" + Padded(seconds, 2)
      + if digits > 0 then "." + Padded(fraction, digits) else ""
    }

    /** The seconds with their fraction. */
    function SecondsText(): string {
      Padded(seconds, 2) + if digits > 0 then "." + Padded(fraction, digits) else ""
    }

    /** The time on a 12-hour dial, in whole seconds. */
    function TwelveHourText(): string {
      Padded(TwelveHour(hours), 2) + ":" + Padded(minutes, 2) + ":" + Padded(seconds, 2) + " " + AmPmText(hours)
    }

    function ToText(): string {
      (if negative then "-" else "") + Body()
    }
  }

  lemma SecondsParts(c: Clock)
    ensures c.SecondsText() == if c.digits > 0 then Padded(c.seconds, 2) + ("." + Padded(c.fraction, c.digits)) else Padded(c.seconds, 2)
  {
    assert Padded(c.seconds, 2) + "" == Padded(c.seconds, 2);
  }

  lemma SecondsLast(c: Clock)
    ensures c.Body() == Padded(c.hours, 2) + ":" + Padded(c.minutes, 2) + ":" + c.SecondsText()
  {
    hide Padded;
    var fraction := if c.digits > 0 then "." + Padded(c.fraction, c.digits) else "";
    var front := Padded(c.hours, 2) + ":" + Padded(c.minutes, 2) + ":";
    assert front + Padded(c.seconds, 2) + fraction == front + (Padded(c.seconds, 2) + fraction);
  }

  /** Reads an optional sign, two digits each for hours, minutes and seconds, and an optional fraction. */
  function ReadClock(t: string): Option<Clock> {
    if t != "" && t[0] == '-' then ReadBody(true, t[1..]) else ReadBody(false, t)
  }

  function ReadBody(negative: bool, b: string): Option<Clock> {
    if |b| >= 8 && b[2] == ':' && b[5] == ':'
       && AllDigits(b[..2]) && AllDigits(b[3..5]) && AllDigits(b[6..8]) then
      if |b| == 8 then
        Some(Clock(negative, Value(b[..2]), Value(b[3..5]), Value(b[6..8]), 0, 0))
      else if |b| > 9 && b[8] == '.' && AllDigits(b[9..]) then
        Some(Clock(negative, Value(b[..2]), Value(b[3..5]), Value(b[6..8]), |b| - 9, Value(b[9..])))
      else None
    else None
  }

  lemma {:induction false} TextLength(n: nat, k: nat)
    requires k > 0 && n < Pow10(k)
    ensures |Text(n)| <= k
  {
    if n >= 10 {
      assert Pow10(k) == 10 * Pow10(k - 1);
      assert k > 1 by {
        assert Pow10(0) == 1;
      }
      TextLength(n / 10, k - 1);
    }
  }

  lemma PaddedLength(n: nat, k: nat)
    requires k > 0 && n < Pow10(k)
    ensures |Padded(n, k)| == k
  {
    TextLength(n, k);
  }

  lemma ReadsBackInTwo(n: nat)
    requires n < 100
    ensures |Padded(n, 2)| == 2 && AllDigits(Padded(n, 2)) && Value(Padded(n, 2)) == n
  {
    assert Pow10(2) == 10 * Pow10(1) && Pow10(1) == 10 * Pow10(0);
    PaddedLength(n, 2);
    PaddedReadsBack(n, 2);
  }

  lemma Pieces(h: string, m: string, s: string, tail: string)
    requires |h| == |m| == |s| == 2
    ensures var b := h + ":" + m + ":" + s + tail;
            && |b| == 8 + |tail| && b[2] == ':' && b[5] == ':'
            && b[..2] == h && b[3..5] == m && b[6..8] == s && b[8..] == tail
  {
  }

  /** Reading a text assembled from its parts. */
  lemma BodyReadsBack(negative: bool, h: string, m: string, s: string, f: string)
    requires |h| == |m| == |s| == 2
    requires AllDigits(h) && AllDigits(m) && AllDigits(s) && AllDigits(f)
    ensures ReadBody(negative, h + ":" + m + ":" + s + if f != "" then "." + f else "")
         == Some(Clock(negative, Value(h), Value(m), Value(s), |f|, Value(f)))
  {
    var tail := if f != "" then "." + f else "";
    hide ReadBody, Value, AllDigits;
    Pieces(h, m, s, tail);
    ReadPieces(negative, h + ":" + m + ":" + s + tail, h, m, s, f);
  }

  lemma ReadPieces(negative: bool, b: string, h: string, m: string, s: string, f: string)
    requires AllDigits(h) && AllDigits(m) && AllDigits(s) && AllDigits(f)
    requires |b| >= 8 && b[2] == ':' && b[5] == ':' && b[..2] == h && b[3..5] == m && b[6..8] == s
    requires b[8..] == if f != "" then "." + f else ""
    ensures ReadBody(negative, b) == Some(Clock(negative, Value(h), Value(m), Value(s), |f|, Value(f)))
  {
    assert f == "" ==> Value(f) == 0;
    hide Value, AllDigits;
    if f == "" {
      assert |b| == 8;
    } else {
      assert b[8] == b[8..][0] == '.' && b[9..] == b[8..][1..] == f;
    }
  }

  /** Reading a clock text gives back every part, so the text determines the clock. */
  lemma ClockReadsBack(c: Clock)
    requires c.Valid()
    ensures ReadClock(c.ToText()) == Some(c)
  {
    BodyReads(c);
    hide ReadBody, Clock.Body;
    var b := c.Body();
    if c.negative {
      assert ("-" + b)[1..] == b;
    } else {
      assert "" + b == b;
    }
  }

  lemma BodyReads(c: Clock)
    requires c.Valid()
    ensures ReadBody(c.negative, c.Body()) == Some(c)
    ensures c.Body() != "" && c.Body()[0] != '-'
  {
    ReadsBackInTwo(c.hours);
    ReadsBackInTwo(c.minutes);
    ReadsBackInTwo(c.seconds);
    var h, m, s := Padded(c.hours, 2), Padded(c.minutes, 2), Padded(c.seconds, 2);
    var f := if c.digits > 0 then Padded(c.fraction, c.digits) else "";
    if c.digits > 0 {
      PaddedReadsBack(c.fraction, c.digits);
      PaddedLength(c.fraction, c.digits);
    }
    assert IsDigit(h[0]);
    hide Padded, ReadBody, Value;
    BodyReadsBack(c.negative, h, m, s, f);
    assert c.Body()[0] == h[0];
    assert c.digits == 0 ==> Value("") == 0 by { EmptyValue(); }
  }

  lemma EmptyValue()
    ensures Value("") == 0
  {
  }

  // ---------- the clock of a duration ----------

  /** The unsigned type a duration is held in (`chrono_formatter::rep`). */
  function UnsignedRep(source: IntType): (r: IntType)
    requires source.Valid()
    ensures r.Valid() && !r.signed && r.bits >= 32
  {
    if source.bits < 32 then UINT32 else IntType(source.bits, false)
  }

  /** r/den in units of ten to the minus `digits`, truncated. */
  function Scaled(r: nat, den: nat, digits: nat): nat
    requires den > 0
  {
    MulAtLeastZero(r, Pow10(digits));
    NatQuotientShrinks(r * Pow10(digits), den);
    (r * Pow10(digits)) / den
  }

  /** The clock text of total/den seconds, cut off after `digits` fractional digits. */
  function ClockOf(negative: bool, total: nat, den: nat, digits: nat): (c: Clock)
    requires den > 0
  {
    var s := total / den;
    Clock(negative, s / 3600 % 24, s / 60 % 60, s % 60, digits, Scaled(total % den, den, digits))
  }

  lemma FractionBelowOne(r: nat, den: nat, p: int)
    requires r < den && p > 0
    ensures 0 <= (r * p) / den < p
  {
  }

  /** floor(T * P / den) splits into the whole seconds and the scaled remainder. */
  lemma ScaledQuotient(total: nat, den: nat, p: int)
    requires den > 0 && p > 0
    ensures (total * p) / den == (total / den) * p + ((total % den) * p) / den
  {
    var q, r := total / den, total % den;
    var a := r * p;
    assert a == den * (a / den) + a % den;
    calc {
      total * p;
      (den * q + r) * p;
      den * q * p + r * p;
      { Reorder(den, q, p); }
      den * (q * p) + a;
      den * (q * p) + den * (a / den) + a % den;
      { Distribute(den, q * p, a / den); }
      den * (q * p + a / den) + a % den;
    }
    DivUnique(total * p, den, q * p + a / den, a % den);
  }

  /** The time of day is the whole number of seconds modulo one day. */
  lemma SecondsOfDay(s: nat)
    ensures (s / 3600 % 24) * 3600 + (s / 60 % 60) * 60 + s % 60 == s % 86400
  {
    var m := s / 60;
    var h := m / 60;
    DivUnique(s, 3600, h, (m % 60) * 60 + s % 60);
    DivUnique(s, 86400, h / 24, (h % 24) * 3600 + (m % 60) * 60 + s % 60);
  }

  /** The clock's ticks are the truncated scaled total modulo one day. */
  lemma ClockTicks(negative: bool, total: nat, den: nat, digits: nat)
    requires den > 0
    ensures var c := ClockOf(negative, total, den, digits);
            c.Valid() && c.Ticks() < 86400 * Pow10(digits)
            && 86400 * Pow10(digits) * (total / den / 86400) + c.Ticks() == (total * Pow10(digits)) / den
  {
    var p := Pow10(digits);
    var c := ClockOf(negative, total, den, digits);
    FractionBelowOne(total % den, den, p);
    ScaledQuotient(total, den, p);
    NatQuotientShrinks(total, den);
    DayAndTicks(total / den, p, c.fraction);
    SecondsOfDay(total / den);
  }

  lemma DayAndTicks(s: nat, p: int, f: nat)
    requires f < p
    ensures 86400 * p * (s / 86400) + (s % 86400 * p + f) == s * p + f
    ensures s % 86400 * p + f < 86400 * p
  {
    var day, t := s / 86400, s % 86400;
    assert s * p == (86400 * day) * p + t * p;
    assert (86400 * day) * p == 86400 * p * day;
    ScaleGap(p, 86400, t);
  }

  /** Negating in the unsigned type gives the magnitude, also for the most negative count. */
  lemma MagnitudeFits(count: int, source: IntType)
    requires source.Valid() && source.Fits(count)
    ensures var rep := UnsignedRep(source);
            && rep.Fits(Abs(count))
            && (count >= 0 ==> rep.Cast(count) == count)
            && (count < 0 ==> rep.Cast(0 - rep.Cast(count)) == -count)
  {
    var rep := UnsignedRep(source);
    if count < 0 {
      UnsignedWraps(rep, count);
      UnsignedWraps(rep, 0 - rep.Cast(count));
    }
  }

  lemma UnsignedWraps(t: IntType, v: int)
    requires t.Valid() && !t.signed && -t.Modulus() <= v < 0
    ensures t.Cast(v) == v + t.Modulus() || (v == -t.Modulus() && t.Cast(v) == 0)
  {
    if v == -t.Modulus() {
      DivUnique(v, t.Modulus(), -1, 0);
    } else {
      DivUnique(v, t.Modulus(), -1, v + t.Modulus());
    }
  }

  /** Facts about a nonnegative product t of a count and a numerator, before it is divided by den. */
  lemma Division(t: nat, den: int)
    requires den > 0
    ensures TruncDiv(t, den) == t / den
    ensures t - (t / den) * den == t % den && 0 <= t % den < den && 0 <= (t / den) * den <= t
    ensures den > 1 ==> 2 * (t / den) <= t
  {
    var q := t / den;
    assert t == den * q + t % den;
    assert q * den == den * q;
    NatQuotientShrinks(t, den);
    MulAtLeastZero(q, den);
    if den > 1 {
      MulAtLeastZero(den - 2, q);
      assert (den - 2) * q == den * q - 2 * q;
    }
  }

  /**
   * The last cast of a fraction multiplies by 10^digits/den, a whole number, and
   * stays below 10^digits.
   */
  lemma SubsecondStep(num: nat, den: nat, fractional: nat, digits: nat)
    requires fractional < den && digits <= 18
    requires num > 0 && Gcd(num, den) == 1 && EndsWithin(num, den, digits)
    ensures var p, g := Pow10(digits), Gcd(Pow10(digits), den);
            && den / g == 1
            && 0 <= fractional * (p / g) <= INT64.Max()
            && fractional * (p / g) == (fractional * p) / den
  {
    var p := Pow10(digits);
    CoprimeDivides(num, den, p);
    assert Gcd(p, den) == Gcd(den, 0);
    DivUnique(den, den, 1, 0);
    DivUnique(0, den, 0, 0);
    CancelCommonFactor(fractional, p, den, den);
    FractionBelowOne(fractional, den, p);
    Pow10Bound(digits);
  }

  lemma {:induction false} Pow10Monotone(a: nat, b: nat)
    requires a <= b
    ensures Pow10(a) <= Pow10(b)
  {
    if a < b {
      Pow10Monotone(a, b - 1);
    }
  }

  lemma Pow10Bound(n: nat)
    requires n <= 18
    ensures Pow10(n) <= 1_000_000_000_000_000_000
  {
    Pow10Monotone(n, 18);
    Pow10At18();
  }

  lemma HalfDay(hours: nat)
    ensures hours % 24 % 12 == hours % 12
  {
    DivUnique(hours, 12, 2 * (hours / 24) + hours % 24 / 12, hours % 24 % 12);
  }

  /** `format_duration_unit`; the text of a microsecond is the three bytes of its UTF-8 form. */
  function UnitText(num: nat, den: nat): string {
    if num == 1 then
      if den == 1_000_000_000_000_000_000 then "as"
      else if den == 1_000_000_000_000_000 then "fs"
      else if den == 1_000_000_000_000 then "ps"
      else if den == 1_000_000_000 then "ns"
      else if den == 1_000_000 then "\U{00C2}\U{00B5}s"
      else if den == 1_000 then "ms"
      else if den == 100 then "cs"
      else if den == 10 then "ds"
      else if den == 1 then "s"
      else BracketedUnit(num, den)
    else if den == 1 then
      if num == 10 then "das"
      else if num == 100 then "hs"
      else if num == 1_000 then "ks"
      else if num == 1_000_000 then "Ms"
      else if num == 1_000_000_000 then "Gs"
      else if num == 1_000_000_000_000 then "Ts"
      else if num == 1_000_000_000_000_000 then "Ps"
      else if num == 1_000_000_000_000_000_000 then "Es"
      else if num == 60 then "m"
      else if num == 3600 then "h"
      else BracketedUnit(num, den)
    else BracketedUnit(num, den)
  }

  function BracketedUnit(num: nat, den: nat): string {
    "[" + Text(num) + (if den != 1 then "/" + Text(den) else "") + "]s"
  }

  // ---------- reading a unit ----------

  /** The power of ten an SI prefix stands for. */
  function SiExponent(prefix: string): Option<int> {
    if prefix == "" then Some(0)
    else if prefix == "d" then Some(-1)
    else if prefix == "c" then Some(-2)
    else if prefix == "m" then Some(-3)
    else if prefix == "\U{00C2}\U{00B5}" then Some(-6)
    else if prefix == "n" then Some(-9)
    else if prefix == "p" then Some(-12)
    else if prefix == "f" then Some(-15)
    else if prefix == "a" then Some(-18)
    else if prefix == "da" then Some(1)
    else if prefix == "h" then Some(2)
    else if prefix == "k" then Some(3)
    else if prefix == "M" then Some(6)
    else if prefix == "G" then Some(9)
    else if prefix == "T" then Some(12)
    else if prefix == "P" then Some(15)
    else if prefix == "E" then Some(18)
    else None
  }

  /** Reads a minute, an hour, a second with an SI prefix, or a number of seconds in brackets. */
  function ReadUnit(t: string): Option<(int, int)> {
    if t == "m" then Some((60, 1))
    else if t == "h" then Some((3600, 1))
    else if t == "" || t[|t| - 1] != 's' then None
    else
      var u := t[..|t| - 1];
      if |u| >= 2 && u[0] == '[' && u[|u| - 1] == ']' then ReadRatio(u[1..|u| - 1])
      else
        match SiExponent(u)
        case None => None
        case Some(e) => if e < 0 then Some((1, Pow10(-e))) else Some((Pow10(e), 1))
  }

  /** Reads a number, or two with a slash between them. */
  function ReadRatio(t: string): Option<(int, int)> {
    var k := DigitsOf(t);
    if k == |t| then Some((Value(t), 1))
    else if t[k] == '/' && AllDigits(t[k + 1..]) then Some((Value(t[..k]), Value(t[k + 1..])))
    else None
  }

  /** How many digits a text begins with. */
  function DigitsOf(t: string): (k: nat)
    ensures k <= |t| && AllDigits(t[..k]) && (k < |t| ==> !IsDigit(t[k]))
  {
    if t == "" || !IsDigit(t[0]) then 0
    else
      var k := DigitsOf(t[1..]);
      assert t[..k + 1] == [t[0]] + t[1..][..k];
      k + 1
  }

  /** Every period's unit reads back as the period, so that units tell periods apart. */
  lemma UnitReadsBack(num: nat, den: nat)
    requires num > 0 && den > 0
    ensures ReadUnit(UnitText(num, den)) == Some((num, den))
  {
    PrefixPowers();
    var t := UnitText(num, den);
    if t == BracketedUnit(num, den) {
      BracketReadsBack(num, den);
    } else {
      hide Pow10;
      NamedReadsBack(num, den);
    }
  }

  lemma PrefixPowers()
    ensures Pow10(0) == 1 && Pow10(1) == 10 && Pow10(2) == 100 && Pow10(3) == 1_000 && Pow10(6) == 1_000_000
    ensures Pow10(9) == 1_000_000_000 && Pow10(12) == 1_000_000_000_000
    ensures Pow10(15) == 1_000_000_000_000_000 && Pow10(18) == 1_000_000_000_000_000_000
  {
  }

  lemma NamedReadsBack(num: nat, den: nat)
    requires UnitText(num, den) != BracketedUnit(num, den)
    ensures ReadUnit(UnitText(num, den)) == Some((num, den))
  {
    PrefixPowers();
    hide Pow10, Text, BracketedUnit, ReadRatio;
    var t := UnitText(num, den);
    var u := if t == "" then "" else t[..|t| - 1];
    assert |t| == 2 ==> u == [t[0]];
    assert |t| == 3 ==> u == [t[0], t[1]];
    assert |t| == 1 ==> u == "";
  }

  lemma BracketReadsBack(num: nat, den: nat)
    ensures ReadUnit(BracketedUnit(num, den)) == Some((num, den))
  {
    RatioReadsBack(num, den);
    hide Text, ReadRatio;
    InBrackets(Text(num), if den != 1 then "/" + Text(den) else "");
  }

  lemma InBrackets(a: string, b: string)
    ensures var t := "[" + a + b + "]s";
            var u := t[..|t| - 1];
            |t| >= 3 && t[|t| - 1] == 's' && |u| >= 2 && u[0] == '[' && u[|u| - 1] == ']' && u[1..|u| - 1] == a + b
  {
    var t := "[" + a + b + "]s";
    assert t[..|t| - 1] == "[" + (a + b) + "]";
  }

  lemma RatioReadsBack(num: nat, den: nat)
    ensures ReadRatio(Text(num) + if den != 1 then "/" + Text(den) else "") == Some((num, den))
  {
    var n, d := Text(num), if den != 1 then "/" + Text(den) else "";
    TextReadsBack(num);
    TextReadsBack(den);
    hide Text;
    DigitsStop(n, d);
    if den != 1 {
      assert (n + d)[..|n|] == n && (n + d)[|n| + 1..] == Text(den);
    } else {
      assert n + d == n;
    }
  }

  lemma {:induction false} DigitsStop(n: string, d: string)
    requires AllDigits(n) && (d == "" || !IsDigit(d[0]))
    ensures DigitsOf(n + d) == |n|
  {
    if n == "" {
      assert n + d == d;
    } else {
      assert (n + d)[1..] == n[1..] + d;
      DigitsStop(n[1..], d);
    }
  }

  /** Seconds written in two steps. */
  lemma FractionAppended(before: string, pending: bool, c: Clock)
    ensures c.digits > 0 ==>
              before + Signed(pending, Padded(c.seconds, 2)) + "." + Padded(c.fraction, c.digits)
              == before + Signed(pending, c.SecondsText())
    ensures c.digits == 0 ==> c.SecondsText() == Padded(c.seconds, 2)
  {
    SecondsParts(c);
    var whole, fraction := Padded(c.seconds, 2), Padded(c.fraction, c.digits);
    SignedThen(before, pending, whole, "." + fraction);
    SignedThen(before + Signed(pending, whole), false, ".", fraction);
    hide Padded, Signed, Clock.SecondsText;
  }

  /** A text behind a sign that may be pending. */
  function Signed(pending: bool, t: string): string {
    (if pending then "-" else "") + t
  }

  lemma SignedThen(before: string, pending: bool, t: string, u: string)
    ensures before + Signed(pending, t) + u == before + Signed(pending, t + u)
    ensures before + t + u == before + (t + u)
    ensures Signed(false, u) == u
  {
  }

  lemma TripleIsPadded(a: nat, b: nat, c: nat)
    requires a < 100 && b < 100 && c < 100
    ensures Lanes.Triple(a, b, c, ':') == Padded(a, 2) + ":" + Padded(b, 2) + ":" + Padded(c, 2)
  {
    SmallText(a);
    SmallText(b);
    SmallText(c);
    hide Padded, Lanes.TwoDigits;
  }

  /** What a duration's writer has to print: the clock without a sign, the magnitude, and the unit. */
  datatype Parts = Parts(clock: Clock, count: nat, unit: string)

  /** The parts of a duration of magnitude `count`. */
  function PartsOf(count: nat, num: nat, den: nat): Parts
    requires Formattable(num, den)
  {
    MulAtLeastZero(count, num);
    Parts(ClockOf(false, count * num, den, Digits(num, den)), count, UnitText(num, den))
  }

  /**
   * The writer of one duration of `num/den`-second units. `failed` stands for the
   * exception the constructor throws.
   */
  class ChronoFormatter {
    const source: IntType
    const num: int
    const den: int
    const bigEndian: bool
    var out: string
    var val: int
    var s: int
    var negative: bool
    var failed: bool

    ghost predicate Valid()
      reads this`val, this`s
    {
      && source.Valid() && Formattable(num, den)
      && val >= 0
      && Representable(val, UnsignedRep(source), UnsignedRep(source), num, den)
      && s == (val * num) / den
      && s >= 0 && val * num >= 0
    }

    constructor (count: int, source: IntType, num: int, den: int, bigEndian: bool)
      requires source.Valid() && source.Fits(count) && Formattable(num, den)
      ensures this.source == source && this.num == num && this.den == den
      ensures failed == !Representable(Abs(count), UnsignedRep(source), UnsignedRep(source), num, den)
      ensures !failed ==> Valid() && val == Abs(count) && negative == (count < 0) && out == ""
    {
      hide FractionalDigits, Gcd;
      var rep := UnsignedRep(source);
      MagnitudeFits(count, source);
      var v := rep.Cast(count);
      var neg := false;
      if count < 0 {
        v := rep.Cast(0 - v);
        neg := true;
      }
      var seconds, ec := SafeDurationCast(v, rep, rep, num, den);
      MulAtLeastZero(v, num);
      QuotientShrinks(v * num, den);
      this.source, this.num, this.den, this.bigEndian := source, num, den, bigEndian;
      out, val, s, negative, failed := "", v, seconds, neg, ec != 0;
    }

    method WriteSign()
      modifies this`out, this`negative
      ensures out == old(out) + Signed(old(negative), "") && !negative
    {
      if negative {
        assert "-" + "" == "-";
        out := out + "-";
        negative := false;
      } else {
        assert "" + "" == "" && out == out + "";
      }
    }

    /** `write(Rep value, int width)`: the pending sign, then the value padded with zeros. */
    method Write(value: int, width: nat)
      requires 0 <= value <= INT32.Max()
      modifies this`out, this`negative
      ensures out == old(out) + Signed(old(negative), Padded(value, width)) && !negative
    {
      SignedThen(out, negative, "", Padded(value, width));
      assert "" + Padded(value, width) == Padded(value, width);
      hide Padded, Signed;
      WriteSign();
      WritePadded(value, width);
    }

    /** `count_digits`, `fill_n` and `format_decimal` in a row. */
    method WritePadded(n: nat, width: nat)
      modifies this`out
      ensures out == old(out) + Padded(n, width)
    {
      var numDigits := |Text(n)|;
      if width > numDigits {
        out := out + Zeros(width - numDigits);
      }
      out := out + Text(n);
    }

    function Hour(): int
      requires Valid()
      reads this`val, this`s
    {
      source.Cast(s / 3600 % 24)
    }

    function Hour12(): int
      requires Valid()
      reads this`val, this`s
    {
      var hour := source.Cast(s / 3600 % 12);
      if hour <= 0 then 12 else hour
    }

    function Minute(): int
      requires Valid()
      reads this`val, this`s
    {
      source.Cast(s / 60 % 60)
    }

    function Second(): int
      requires Valid()
      reads this`val, this`s
    {
      source.Cast(s % 60)
    }

    /** `write_fractional_seconds`, instantiated for this duration. */
    method WriteFractionalSeconds()
      requires Valid()
      modifies this`out
      ensures var digits := Digits(num, den);
              if digits > 0 then out == old(out) + "." + Padded(Scaled(val * num % den, den, digits), digits)
              else out == old(out)
    {
      hide FractionalDigits, Gcd, Padded;
      var digits := Digits(num, den);
      if digits > 0 {
        out := out + ".";
        var n := Subseconds(digits);
        WritePadded(n, digits);
      }
    }

    /**
     * The casts inside `write_fractional_seconds`, in the types `common_type` selects
     * for them. Each assertion on `Fits` says that the step does not overflow.
     */
    method Subseconds(digits: nat) returns (n: nat)
      requires Valid() && 0 < digits == Digits(num, den)
      ensures n == Scaled(val * num % den, den, digits)
    {
      DigitsMinimal(num, den);
      assert den > 1 by {
        assert num * Pow10(0) == num;
      }
      hide FractionalDigits, Digits;
      var t := val * num;
      var diffRep := Common(UnsignedRep(source), INT64);
      IntermediateIs64Bits(UnsignedRep(source), UnsignedRep(source));
      IntermediateIs64Bits(UnsignedRep(source), INT64);
      assert 0 <= t && diffRep.Fits(t);
      Division(t, den);
      // duration_cast<seconds>(d)
      var whole := TruncDiv(t, den);
      assert INT64.Fits(whole);
      // abs(d) minus the whole seconds, both in units of 1/den seconds
      assert diffRep.Fits(whole * den);
      var fractional := t - whole * den;
      // duration_cast to the unit 1/10^digits
      SubsecondStep(num, den, fractional, digits);
      var g := Gcd(Pow10(digits), den);
      assert INT64.Fits(fractional * (Pow10(digits) / g));
      n := TruncDiv(fractional * (Pow10(digits) / g), den / g);
    }

    /** What the calls print; the sign is kept apart. */
    ghost function Shown(): Parts
      requires Valid()
      reads this`val, this`s
    {
      PartsOf(val, num, den)
    }

    lemma TimeParts()
      requires Valid()
      ensures var c := Shown().clock;
              && c.hours == s / 3600 % 24 == Hour() && c.minutes == s / 60 % 60 == Minute()
              && c.seconds == s % 60 == Second() && TwelveHour(c.hours) == Hour12() == Hour12Of(Hour())
              && c.digits == Digits(num, den) && c.fraction == Scaled(val * num % den, den, c.digits)
              && c.hours < 24 && c.minutes < 60 && c.seconds < 60
      ensures Shown().count == val && Shown().unit == UnitText(num, den)
    {
      HalfDay(s / 3600);
      DialIsTwelveHour(Hour());
      hide Scaled, FractionalDigits, UnitText, Gcd, Hour12Of;
    }

    /** `time`: a `tm` with the time of day only. */
    function TimeOfDay(): (tm: Tm)
      requires Valid()
      reads this`val, this`s
      ensures tm.TimeValid()
    {
      Tm(Second(), Minute(), Hour(), 0, 0, 0, 0, 0, 0, "")
    }

    /** `%H`; in the alternative numeric system the `tm` writer prints the hour, and no sign. */
    method On24Hour(alternative: bool)
      requires Valid()
      modifies this`out, this`negative
      ensures out == old(out) + Signed(old(negative) && !alternative, Padded(Shown().clock.hours, 2))
      ensures negative == (old(negative) && alternative)
    {
      TimeParts();
      hide Padded, Lanes.TwoDigits, Valid, Shown, Hour, Hour12, Minute, Second, TwelveHour;
      if !alternative {
        Write(Hour(), 2);
      } else {
        var w := new TmWriter.Writer(TimeOfDay(), bigEndian, out);
        w.On24Hour();
        out := w.out;
        SmallText(Hour());
      }
    }

    /** `%I` */
    method On12Hour(alternative: bool)
      requires Valid()
      modifies this`out, this`negative
      ensures out == old(out) + Signed(old(negative) && !alternative, Padded(TwelveHour(Shown().clock.hours), 2))
      ensures negative == (old(negative) && alternative)
    {
      TimeParts();
      hide Padded, Lanes.TwoDigits, Valid, Shown, Hour, Hour12, Minute, Second, TwelveHour;
      if !alternative {
        Write(Hour12(), 2);
      } else {
        // the hour on the 12-hour dial goes through the field for the 24-hour one
        var w := new TmWriter.Writer(Tm(0, 0, Hour12(), 0, 0, 0, 0, 0, 0, ""), bigEndian, out);
        w.On12Hour();
        out := w.out;
        SmallText(Hour12());
      }
    }

    /** `%M` */
    method OnMinute(alternative: bool)
      requires Valid()
      modifies this`out, this`negative
      ensures out == old(out) + Signed(old(negative) && !alternative, Padded(Shown().clock.minutes, 2))
      ensures negative == (old(negative) && alternative)
    {
      TimeParts();
      hide Padded, Lanes.TwoDigits, Valid, Shown, Hour, Hour12, Minute, Second, TwelveHour;
      if !alternative {
        Write(Minute(), 2);
      } else {
        var w := new TmWriter.Writer(TimeOfDay(), bigEndian, out);
        w.OnMinute();
        out := w.out;
        SmallText(Minute());
      }
    }

    /** `%S`: with the fraction, but not in the alternative numeric system. */
    method OnSecond(alternative: bool)
      requires Valid()
      modifies this`out, this`negative
      ensures var c := Shown().clock;
              out == old(out) + Signed(old(negative) && !alternative,
                                       if alternative then Padded(c.seconds, 2) else c.SecondsText())
      ensures negative == (old(negative) && alternative)
    {
      hide Padded, Clock.SecondsText, Valid, Shown;
      if !alternative {
        WriteSeconds();
      } else {
        TimeParts();
        var w := new TmWriter.Writer(TimeOfDay(), bigEndian, out);
        w.OnSecond();
        out := w.out;
        SmallText(Second());
      }
    }

    /** The seconds of the standard numeric system, with sign and fraction. */
    method WriteSeconds()
      requires Valid()
      modifies this`out, this`negative
      ensures out == old(out) + Signed(old(negative), Shown().clock.SecondsText()) && !negative
    {
      TimeParts();
      FractionAppended(out, negative, Shown().clock);
      hide Padded, Scaled, Digits, Valid, Shown, Second, Hour, Hour12, Minute, Clock.SecondsText, Signed;
      Write(Second(), 2);
      WriteFractionalSeconds();
    }

    method OnText(text: string)
      modifies this`out
      ensures out == old(out) + text
    {
      out := out + text;
    }

    /** `%r`: the `tm` writer prints it, and no sign. */
    method On12HourTime()
      requires Valid()
      modifies this`out
      ensures out == old(out) + Shown().clock.TwelveHourText()
    {
      TimeParts();
      assert TimeOfDay().hour == Hour() && TimeOfDay().min == Minute() && TimeOfDay().sec == Second();
      TripleIsPadded(Hour12(), Minute(), Second());
      assert Lanes.Triple(Hour12(), Minute(), Second(), ':') + " " + AmPmText(Hour()) == Shown().clock.TwelveHourText();
      hide Lanes.Triple, Clock.TwelveHourText, TimeOfDay;
      hide Padded, Lanes.TwoDigits, AmPmText, Valid, Shown, Hour, Hour12, Minute, Second, TwelveHour;
      var w := new TmWriter.Writer(TimeOfDay(), bigEndian, out);
      w.On12HourTime();
      out := w.out;
    }

    /** `%p` */
    method OnAmPm()
      requires Valid()
      modifies this`out
      ensures out == old(out) + AmPmText(Shown().clock.hours)
    {
      TimeParts();
      hide AmPmText, Valid, Shown, Hour, Minute, Second;
      var w := new TmWriter.Writer(TimeOfDay(), bigEndian, out);
      w.OnAmPm();
      out := w.out;
    }

    /** `%R` */
    method On24HourTime()
      requires Valid()
      modifies this`out, this`negative
      ensures out == old(out) + Signed(old(negative), Padded(Shown().clock.hours, 2) + ":" + Padded(Shown().clock.minutes, 2))
      ensures !negative
    {
      TimeParts();
      hide Padded, Text, Valid, Shown, Hour, Minute;
      ghost var h, m := Padded(Hour(), 2), Padded(Minute(), 2);
      SignedThen(out, negative, h, ":");
      SignedThen(out, negative, h + ":", m);
      hide Signed;
      Write(Hour(), 2);
      out := out + ":";
      Write(Minute(), 2);
    }

    /** `%T` */
    method OnIsoTime()
      requires Valid()
      modifies this`out, this`negative
      ensures out == old(out) + Signed(old(negative), Shown().clock.Body()) && !negative
    {
      ghost var c := Shown().clock;
      SecondsLast(c);
      ghost var t := Padded(c.hours, 2) + ":" + Padded(c.minutes, 2);
      SignedThen(out, negative, t, ":");
      SignedThen(out, negative, t + ":", c.SecondsText());
      hide Padded, Text, Valid, Shown, Signed, Clock.SecondsText, Clock.Body;
      On24HourTime();
      out := out + ":";
      OnSecond(false);
    }

    /** `%Q` */
    method OnDurationValue()
      requires Valid()
      modifies this`out, this`negative
      ensures out == old(out) + Signed(old(negative), Text(Shown().count)) && !negative
    {
      SignedThen(out, negative, "", Text(val));
      assert "" + Text(val) == Text(val);
      TimeParts();
      hide Text, Valid, Shown, Signed;
      WriteSign();
      out := out + Text(val);
    }

    /** `%q` */
    method OnDurationUnit()
      requires Valid()
      modifies this`out
      ensures out == old(out) + Shown().unit
    {
      hide UnitText, FractionalDigits, Gcd;
      out := out + UnitText(num, den);
    }
  }

  // ---------- the text denotes the duration ----------

  lemma CrossMultiplied(a: int, p: int, t: int, d: int)
    requires p > 0 && d > 0 && a * d == t * p
    ensures a as real / p as real == t as real / d as real
  {
    var x, y := a as real / p as real, t as real / d as real;
    assert x * p as real == a as real && y * d as real == t as real;
    assert (a * d) as real == a as real * d as real;
    assert (t * p) as real == t as real * p as real;
    assert (x - y) * (p as real * d as real) == 0.0 by {
      assert x * p as real * d as real == y * d as real * p as real;
    }
  }

  /** A fraction that ends within the printed digits scales to a whole number, for every count. */
  lemma ExactQuotient(count: nat, num: nat, den: nat, digits: nat)
    requires den > 0 && EndsWithin(num, den, digits)
    ensures var t, p := count * num, Pow10(digits);
            t >= 0 && (t * p) / den * den == t * p
  {
    var p := Pow10(digits);
    var k := (num * p) / den;
    assert num * p == den * k;
    Reorder(count, num, p);
    MulAtLeastZero(count, num);
    assert count * num * p == count * (den * k) by {
      assert count * num * p == count * (num * p);
    }
    Reorder(count, den, k);
    assert count * (den * k) == den * (count * k);
    DivUnique(count * num * p, den, count * k, 0);
  }

  /** For a terminating fraction the clock is exact: whole days plus the printed time of day are total/den. */
  lemma ClockIsExact(negative: bool, count: nat, num: nat, den: nat, digits: nat)
    requires den > 0 && EndsWithin(num, den, digits)
    ensures var t := count * num;
            && t >= 0
            && var c := ClockOf(negative, t, den, digits);
            86400.0 * (t / den / 86400) as real + c.Seconds() == t as real / den as real
            && 0.0 <= c.Seconds() < 86400.0
  {
    var t, p := count * num, Pow10(digits);
    ExactQuotient(count, num, den, digits);
    ClockTicks(negative, t, den, digits);
    var day := t / den / 86400;
    var ticks := ClockOf(negative, t, den, digits).Ticks();
    CrossMultiplied(86400 * p * day + ticks, p, t, den);
    SplitDays(p, day, ticks);
  }

  lemma SplitDays(p: int, day: int, ticks: nat)
    requires p > 0 && ticks < 86400 * p
    ensures (86400 * p * day + ticks) as real / p as real == 86400.0 * day as real + ticks as real / p as real
    ensures 0.0 <= ticks as real / p as real < 86400.0
  {
    var a := 86400 * day;
    assert 86400 * p * day == a * p by { Reorder(86400, p, day); Reorder(86400, day, p); }
    ProductOfReals(a, p);
    RealSplit(p as real, a as real, ticks as real);
    RealBelow(p as real, ticks as real, 86400.0);
  }

  lemma ProductOfReals(a: int, p: int)
    ensures (a * p) as real == a as real * p as real
  {
  }

  lemma RealSplit(p: real, a: real, t: real)
    requires p > 0.0
    ensures (a * p + t) / p == a + t / p
  {
    var x := t / p;
    assert t == x * p;
    assert a * p + t == (a + x) * p;
  }

  lemma RealBelow(p: real, t: real, b: real)
    requires p > 0.0 && 0.0 <= t < b * p
    ensures 0.0 <= t / p < b
  {
    var x := t / p;
    assert t == x * p;
  }

  /**
   * t reads back as a clock that has the sign of the duration of `count` units
   * of num/den seconds, the least number of fractional digits that can represent
   * the unit, and the exact magnitude of the duration modulo one day.
   */
  ghost predicate Denotes(t: string, count: int, num: nat, den: nat)
    requires den > 0
  {
    && ReadClock(t).Some?
    && var c := ReadClock(t).value;
    && c.negative == (count < 0)
    && c.hours < 24 && c.minutes < 60 && c.seconds < 60
    && EndsWithin(num, den, c.digits)
    && (forall k: nat :: k < c.digits ==> !EndsWithin(num, den, k))
    && IsTimeOfDay(c.Seconds(), (Abs(count) * num) as real / den as real)
  }

  /** timeOfDay is what remains of a nonnegative number of seconds after whole days. */
  ghost predicate IsTimeOfDay(timeOfDay: real, seconds: real) {
    0.0 <= timeOfDay < 86400.0 && exists days: nat :: AddsUp(days, timeOfDay, seconds)
  }

  ghost predicate AddsUp(days: nat, timeOfDay: real, seconds: real) {
    86400.0 * days as real + timeOfDay == seconds
  }

  lemma ClockDenotes(count: int, num: nat, den: nat)
    requires Formattable(num, den)
    ensures Denotes(PartsOf(Abs(count), num, den).clock.(negative := count < 0).ToText(), count, num, den)
  {
    var digits := Digits(num, den);
    var t := Abs(count) * num;
    DigitsMinimal(num, den);
    hide FractionalDigits, Gcd, UnitText, EndsWithin, Padded, Text, Scaled;
    ClockIsExact(count < 0, Abs(count), num, den, digits);
    ClockTicks(count < 0, t, den, digits);
    hide Pow10;
    var c := ClockOf(count < 0, t, den, digits);
    assert PartsOf(Abs(count), num, den).clock.(negative := count < 0) == c;
    ClockReadsBack(c);
    NatQuotientShrinks(t, den);
    var days: nat := t / den / 86400;
    assert AddsUp(days, c.Seconds(), t as real / den as real);
  }
}
