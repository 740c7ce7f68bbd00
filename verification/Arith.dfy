/** Integer arithmetic as C++ performs it, and powers of ten. */
module Arith {

  /** C++ `/` on a positive divisor: the quotient is truncated toward zero. */
  function TruncDiv(a: int, b: int): int
    requires b > 0
  {
    if a >= 0 then a / b else -((-a) / b)
  }

  /** C++ `%` on a positive divisor: the remainder takes the sign of the dividend. */
  function TruncMod(a: int, b: int): int
    requires b > 0
  {
    if a >= 0 then a % b else -((-a) % b)
  }

  function Abs(a: int): nat {
    if a < 0 then -a else a
  }

  function Pow10(n: nat): (r: int)
    ensures r >= 1
  {
    if n == 0 then 1 else 10 * Pow10(n - 1)
  }

  /** The quotient is pinned down by the remainder's range. */
  lemma DivUnique(a: int, b: int, q: int, r: int)
    requires b > 0 && 0 <= r < b && a == b * q + r
    ensures a / b == q && a % b == r
  {
    var q', r' := a / b, a % b;
    assert a == b * q' + r' && 0 <= r' < b;
    if q > q' {
      ScaleGap(b, q, q');
    } else if q < q' {
      ScaleGap(b, q', q);
    }
  }

  lemma MulAtLeast(b: int, k: int)
    requires b > 0 && k >= 1
    ensures b * k >= b
  {
  }

  lemma MulAtLeastZero(a: int, b: int)
    requires a >= 0 && b >= 0
    ensures a * b >= 0
  {
  }

  lemma ScaleGap(b: int, x: int, y: int)
    requires b > 0 && x > y
    ensures b * x >= b * y + b
  {
    MulAtLeast(b, x - y);
    assert b * (x - y) == b * x - b * y;
  }
}

/** Decimal text: what `format_decimal`, `count_digits` and `fill_n` write, and how it is read back. */
module Decimal {

  function Digit(d: nat): char
    requires d < 10
  {
    '0' + d as char
  }

  predicate IsDigit(c: char) {
    '0' <= c <= '9'
  }

  function DigitValue(c: char): nat
    requires IsDigit(c)
  {
    c as int - '0' as int
  }

  /** The shortest decimal text of n. */
  function Text(n: nat): (s: string)
    ensures |s| >= 1
  {
    if n < 10 then [Digit(n)] else Text(n / 10) + [Digit(n % 10)]
  }

  function Zeros(k: nat): (s: string)
    ensures |s| == k
  {
    seq(k, _ => '0')
  }

  /** n with leading zeros up to `width` characters, and more characters only when n needs them. */
  function Padded(n: nat, width: nat): string {
    Filled(Text(n), width)
  }

  /** t behind as many zeros as it takes to fill the width. */
  function Filled(t: string, width: nat): (s: string)
    ensures |s| == if |t| >= width then |t| else width
  {
    if |t| >= width then t else Zeros(width - |t|) + t
  }

  lemma FilledAppend(t: string, u: string, width: nat)
    ensures Filled(t + u, width) == Filled(t, if width >= |u| then width - |u| else 0) + u
  {
    if |t| + |u| < width {
      assert Zeros(width - (|t| + |u|)) + (t + u) == (Zeros(width - |u| - |t|) + t) + u;
    }
  }

  predicate AllDigits(s: string) {
    forall i :: 0 <= i < |s| ==> IsDigit(s[i])
  }

  /** Reads a string of digits, most significant first. */
  function Value(s: string): nat
    requires AllDigits(s)
  {
    if s == [] then 0 else 10 * Value(s[..|s| - 1]) + DigitValue(s[|s| - 1])
  }

  lemma {:induction false} TextReadsBack(n: nat)
    ensures AllDigits(Text(n)) && Value(Text(n)) == n
    ensures |Text(n)| > 1 ==> Text(n)[0] != '0'
  {
    if n >= 10 {
      TextReadsBack(n / 10);
      assert Text(n)[..|Text(n)| - 1] == Text(n / 10);
      if |Text(n / 10)| == 1 {
        assert n / 10 < 10;
      }
    }
  }

  lemma {:induction false} LeadingZeros(k: nat, s: string)
    requires AllDigits(s)
    ensures AllDigits(Zeros(k) + s) && Value(Zeros(k) + s) == Value(s)
  {
    var z := Zeros(k) + s;
    if s != [] {
      assert z[..|z| - 1] == Zeros(k) + s[..|s| - 1];
      LeadingZeros(k, s[..|s| - 1]);
    } else if k > 0 {
      assert z[..|z| - 1] == Zeros(k - 1) + [];
      LeadingZeros(k - 1, []);
    }
  }

  lemma PaddedReadsBack(n: nat, width: nat)
    ensures AllDigits(Padded(n, width)) && Value(Padded(n, width)) == n
    ensures |Padded(n, width)| >= width && |Padded(n, width)| >= 1
  {
    TextReadsBack(n);
    if |Text(n)| < width {
      LeadingZeros(width - |Text(n)|, Text(n));
    }
  }
}
