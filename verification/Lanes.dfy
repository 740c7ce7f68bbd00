/** Three two-digit numbers converted to text at once, in the bit lanes of one 64-bit word. */
module Lanes {
  import opened Decimal

  function DigitWord(d: nat): bv64
    requires d < 10
  {
    if d < 5 then
      if d == 0 then 0 else if d == 1 then 1 else if d == 2 then 2 else if d == 3 then 3 else 4
    else
      if d == 5 then 5 else if d == 6 then 6 else if d == 7 then 7 else if d == 8 then 8 else 9
  }

  /** The unsigned 64-bit value of k, by Horner's rule on its decimal digits. */
  function Word(k: nat): bv64 {
    if k < 10 then DigitWord(k) else Binary(Word(k / 10), DigitWord(k % 10))
  }

  /** Byte i of a word, counted from the least significant byte. */
  function ByteAt(w: bv64, i: nat): bv64
    requires i < 8
  {
    if i == 0 then w & 0xFF
    else if i == 1 then (w >> 8) & 0xFF
    else if i == 2 then (w >> 16) & 0xFF
    else if i == 3 then (w >> 24) & 0xFF
    else if i == 4 then (w >> 32) & 0xFF
    else if i == 5 then (w >> 40) & 0xFF
    else if i == 6 then (w >> 48) & 0xFF
    else (w >> 56) & 0xFF
  }

  /** The lowest byte of a word as a number. */
  function Code(b: bv64): (k: nat)
    ensures k < 256
  {
    ((b & 0xFF) as bv8) as int
  }

  /** A byte as a `char`. */
  function CharOf(b: bv64): char {
    Code(b) as char
  }

  /** A decimal digit as the code of its character. */
  function AsciiDigit(d: bv64): bv64 {
    0x30 | d
  }

  /**
   * Three values in the lanes that start at bits 0, 24 and 48. The second shift is
   * done in 32 bits in the source, where a number below 100 loses nothing.
   */
  function Pack(a: bv64, b: bv64, c: bv64): bv64 {
    a | (b << 24) | (c << 48)
  }

  function Times205(x: bv64): bv64 {
    x * 205
  }

  function Quotients(x: bv64): bv64 {
    (x >> 11) & 0x000F_0000_0F00_000F
  }

  function Quotient(x: bv64): bv64 {
    (x >> 11) & 0xF
  }

  function Times6(x: bv64): bv64 {
    x * 6
  }

  function Plus(x: bv64, y: bv64): bv64 {
    x + y
  }

  /** Each lane from binary to binary-coded decimal: floor(x / 10) is (x * 205) >> 11. */
  function ToBcd(digits: bv64): bv64 {
    Plus(digits, Times6(Quotients(Times205(digits))))
  }

  /** The high nibble of each lane into its low byte and the low nibble into the next one. */
  function Spread(digits: bv64): bv64 {
    ((digits & 0x00F0_0000_F000_00F0) >> 4) | ((digits & 0x000F_0000_0F00_000F) << 8)
  }

  function Separated(digits: bv64, sep: bv64): bv64 {
    digits | 0x3030_0030_3000_3030 | (sep << 16) | (sep << 40)
  }

  /** The number with decimal digits t and u, and its two nibbles in binary-coded decimal. */
  function Binary(t: bv64, u: bv64): bv64 {
    10 * t + u
  }

  function Bcd(t: bv64, u: bv64): bv64 {
    (t << 4) | u
  }

  function DigitBytes(t0: bv64, u0: bv64, t1: bv64, u1: bv64, t2: bv64, u2: bv64): bv64 {
    t0 | (u0 << 8) | (t1 << 24) | (u1 << 32) | (t2 << 48) | (u2 << 56)
  }

  // ---------- the lanes do not disturb each other ----------

  lemma TimesPack(a: bv64, b: bv64, c: bv64)
    requires a < 128 && b < 128 && c < 128
    ensures Times205(Pack(a, b, c)) == Pack(Times205(a), Times205(b), Times205(c))
  {
  }

  lemma QuotientLanes(p: bv64, q: bv64, r: bv64)
    requires p < 0x8000 && q < 0x8000 && r < 0x8000
    ensures Quotients(Pack(p, q, r)) == Pack(Quotient(p), Quotient(q), Quotient(r))
  {
  }

  lemma TimesSix(s: bv64, t: bv64, u: bv64)
    requires s < 16 && t < 16 && u < 16
    ensures Times6(Pack(s, t, u)) == Pack(Times6(s), Times6(t), Times6(u))
  {
  }

  lemma AddPacks(a: bv64, b: bv64, c: bv64, s: bv64, t: bv64, u: bv64)
    requires a < 128 && b < 128 && c < 128 && s < 128 && t < 128 && u < 128
    ensures Plus(Pack(a, b, c), Pack(s, t, u)) == Pack(Plus(a, s), Plus(b, t), Plus(c, u))
  {
    hide Pack, Plus;
    PackIs(a, b, c);
    PackIs(s, t, u);
    PlusIs(a, s);
    PlusIs(b, t);
    PlusIs(c, u);
    PackIs(Plus(a, s), Plus(b, t), Plus(c, u));
    PlusIs(Pack(a, b, c), Pack(s, t, u));
    AddLanes(a, b, c, s, t, u, Pack(a, b, c), Pack(s, t, u), Plus(a, s), Plus(b, t), Plus(c, u));
  }

  lemma PackIs(a: bv64, b: bv64, c: bv64)
    ensures Pack(a, b, c) == a | (b << 24) | (c << 48)
  {
  }

  lemma PlusIs(x: bv64, y: bv64)
    ensures Plus(x, y) == x + y
  {
  }

  lemma AddLanes(a: bv64, b: bv64, c: bv64, s: bv64, t: bv64, u: bv64, v: bv64, w: bv64, x: bv64, y: bv64, z: bv64)
    requires a < 128 && b < 128 && c < 128 && s < 128 && t < 128 && u < 128
    requires v == a | (b << 24) | (c << 48) && w == s | (t << 24) | (u << 48)
    requires x == a + s && y == b + t && z == c + u
    ensures v + w == x | (y << 24) | (z << 48)
  {
  }

  /** One lane: the quotient by ten is exact, and adding six of it makes the nibbles decimal. */
  lemma OneLane(t: bv64, u: bv64)
    requires t < 10 && u < 10
    ensures var x := Binary(t, u);
            && x < 128 && Times205(x) < 0x8000 && Quotient(Times205(x)) == t
            && t < 16 && Times6(t) < 128 && Plus(x, Times6(t)) == Bcd(t, u)
  {
  }

  lemma SpreadPack(t0: bv64, u0: bv64, t1: bv64, u1: bv64, t2: bv64, u2: bv64)
    requires t0 < 10 && u0 < 10 && t1 < 10 && u1 < 10 && t2 < 10 && u2 < 10
    ensures Spread(Pack(Bcd(t0, u0), Bcd(t1, u1), Bcd(t2, u2))) == DigitBytes(t0, u0, t1, u1, t2, u2)
  {
  }

  /** The whole computation on three numbers given by their digits. */
  lemma Computed(t0: bv64, u0: bv64, t1: bv64, u1: bv64, t2: bv64, u2: bv64)
    requires t0 < 10 && u0 < 10 && t1 < 10 && u1 < 10 && t2 < 10 && u2 < 10
    ensures Spread(ToBcd(Pack(Binary(t0, u0), Binary(t1, u1), Binary(t2, u2)))) == DigitBytes(t0, u0, t1, u1, t2, u2)
  {
    hide Binary, Bcd, Times205, Quotient, Quotients, Times6, Plus, Pack, Spread, DigitBytes;
    OneLane(t0, u0);
    OneLane(t1, u1);
    OneLane(t2, u2);
    var a, b, c := Binary(t0, u0), Binary(t1, u1), Binary(t2, u2);
    TimesPack(a, b, c);
    QuotientLanes(Times205(a), Times205(b), Times205(c));
    TimesSix(t0, t1, t2);
    AddPacks(a, b, c, Times6(t0), Times6(t1), Times6(t2));
    SpreadPack(t0, u0, t1, u1, t2, u2);
  }

  lemma Bytes(t0: bv64, u0: bv64, t1: bv64, u1: bv64, t2: bv64, u2: bv64, sep: bv64)
    requires t0 < 10 && u0 < 10 && t1 < 10 && u1 < 10 && t2 < 10 && u2 < 10 && sep < 128
    ensures var w := Separated(DigitBytes(t0, u0, t1, u1, t2, u2), sep);
            && ByteAt(w, 0) == AsciiDigit(t0) && ByteAt(w, 1) == AsciiDigit(u0) && ByteAt(w, 2) == sep
            && ByteAt(w, 3) == AsciiDigit(t1) && ByteAt(w, 4) == AsciiDigit(u1) && ByteAt(w, 5) == sep
            && ByteAt(w, 6) == AsciiDigit(t2) && ByteAt(w, 7) == AsciiDigit(u2)
  {
  }

  // ---------- words and characters ----------

  lemma BinaryZero(u: bv64)
    ensures Binary(0, u) == u
  {
  }

  /** Words of two-digit numbers, by their digits. */
  lemma WordOfDigits(t: nat, u: nat)
    requires t < 10 && u < 10
    ensures Word(10 * t + u) == Binary(DigitWord(t), DigitWord(u))
  {
    hide Binary;
    if t == 0 {
      BinaryZero(DigitWord(u));
    } else {
      assert (10 * t + u) / 10 == t && (10 * t + u) % 10 == u;
    }
  }

  lemma DigitChar(d: nat)
    requires d < 10
    ensures DigitWord(d) < 10
    ensures CharOf(AsciiDigit(DigitWord(d))) == Digit(d)
  {
  }

  // ---------- the text ----------

  function TwoDigits(n: nat): string
    requires n < 100
  {
    [Digit(n / 10), Digit(n % 10)]
  }

  /** a, b and c as two digits each, with separators. */
  function Triple(a: nat, b: nat, c: nat, sep: char): string
    requires a < 100 && b < 100 && c < 100
  {
    TwoDigits(a) + [sep] + TwoDigits(b) + [sep] + TwoDigits(c)
  }

  /** An ASCII character; a `char` beyond them may be negative and would spill into other bytes. */
  predicate IsSeparator(c: char) {
    c as int < 128
  }

  lemma SeparatorWord(c: char)
    requires IsSeparator(c)
    ensures Word(c as int) < 128 && CharOf(Word(c as int)) == c
  {
    SmallWord(c as int);
  }

  /** The word of a number below 128, as a number again. */
  lemma SmallWord(k: nat)
    requires k < 128
    ensures Word(k) < 128 && Code(Word(k)) == k
  {
    if k < 10 {
      DigitCode(k);
    } else {
      var t, u := k / 10, k % 10;
      SmallTens(t);
      DigitCode(u);
      hide Word, DigitWord, Code, Binary;
      BinaryCode(Word(t), DigitWord(u), t);
      assert Word(k) == Binary(Word(t), DigitWord(u)) by { WordStep(k); }
    }
  }

  lemma WordStep(k: nat)
    requires k >= 10
    ensures Word(k) == Binary(Word(k / 10), DigitWord(k % 10))
  {
    hide Binary, DigitWord;
  }

  lemma SmallTens(t: nat)
    requires t < 13
    ensures Word(t) < 13 && Code(Word(t)) == t
  {
    if t < 10 {
      DigitCode(t);
    } else {
      assert Word(t) == Binary(DigitWord(1), DigitWord(t - 10)) by {
        assert t / 10 == 1 && t % 10 == t - 10;
        WordStep(t);
      }
    }
  }

  lemma DigitCode(d: nat)
    requires d < 10
    ensures DigitWord(d) < 10 && Code(DigitWord(d)) == d
  {
  }

  lemma BinaryCode(t: bv64, u: bv64, n: nat)
    requires t < 13 && u < 10 && n < 13 && Code(t) == n
    requires 10 * n + Code(u) < 128
    ensures Binary(t, u) < 128 && Code(Binary(t, u)) == 10 * n + Code(u)
  {
  }

  /** The word that the bit-lane computation produces for the words of three numbers. */
  function Computation(a: bv64, b: bv64, c: bv64, sep: bv64): bv64 {
    Separated(Spread(ToBcd(Pack(a, b, c))), sep)
  }

  lemma TripleChars(a: nat, b: nat, c: nat, sep: char)
    requires a < 100 && b < 100 && c < 100
    ensures Triple(a, b, c, sep) == [Digit(a / 10), Digit(a % 10), sep, Digit(b / 10), Digit(b % 10), sep,
                                     Digit(c / 10), Digit(c % 10)]
  {
  }

  /** The first k bytes of a word as characters. */
  function Chars(w: bv64, k: nat): string
    requires k <= 8
  {
    seq(k, i requires 0 <= i < k => CharOf(ByteAt(w, i)))
  }

  lemma DigitsOfWord(n: nat)
    requires n < 100
    ensures Word(n) == Binary(DigitWord(n / 10), DigitWord(n % 10))
    ensures DigitWord(n / 10) < 10 && DigitWord(n % 10) < 10
    ensures CharOf(AsciiDigit(DigitWord(n / 10))) == Digit(n / 10)
    ensures CharOf(AsciiDigit(DigitWord(n % 10))) == Digit(n % 10)
  {
    hide Word, Binary, CharOf, AsciiDigit, DigitWord;
    WordOfDigits(n / 10, n % 10);
    DigitChar(n / 10);
    DigitChar(n % 10);
  }

  /** Byte by byte, the word is the text. */
  lemma ComputationIsText(a: nat, b: nat, c: nat, sep: char)
    requires a < 100 && b < 100 && c < 100 && IsSeparator(sep)
    ensures Chars(Computation(Word(a), Word(b), Word(c), Word(sep as int)), 8) == Triple(a, b, c, sep)
  {
    hide Binary, Spread, ToBcd, Pack, Separated, DigitBytes, DigitWord, Word, ByteAt, CharOf, AsciiDigit, Triple;
    DigitsOfWord(a);
    DigitsOfWord(b);
    DigitsOfWord(c);
    SeparatorWord(sep);
    TripleChars(a, b, c, sep);
    var t0, u0, t1, u1, t2, u2 := DigitWord(a / 10), DigitWord(a % 10), DigitWord(b / 10), DigitWord(b % 10),
                                  DigitWord(c / 10), DigitWord(c % 10);
    Computed(t0, u0, t1, u1, t2, u2);
    Bytes(t0, u0, t1, u1, t2, u2, Word(sep as int));
  }

  /** The bytes of a word in memory order. */
  function InMemory(w: bv64, bigEndian: bool): string {
    seq(8, i requires 0 <= i < 8 => CharOf(ByteAt(w, if bigEndian then 7 - i else i)))
  }

  lemma MemoryIsText(a: nat, b: nat, c: nat, sep: char, bigEndian: bool)
    requires a < 100 && b < 100 && c < 100 && IsSeparator(sep)
    ensures var m := InMemory(Computation(Word(a), Word(b), Word(c), Word(sep as int)), bigEndian);
            && |m| == |Triple(a, b, c, sep)| == 8
            && forall k :: 0 <= k < 8 ==> m[if bigEndian then 7 - k else k] == Triple(a, b, c, sep)[k]
  {
    assert |Triple(a, b, c, sep)| == 8;
    hide Computation, ByteAt, CharOf, Word, Triple;
    ComputationIsText(a, b, c, sep);
    var w := Computation(Word(a), Word(b), Word(c), Word(sep as int));
    forall k | 0 <= k < 8
      ensures InMemory(w, bigEndian)[if bigEndian then 7 - k else k] == Triple(a, b, c, sep)[k]
    {
      assert Chars(w, 8)[k] == CharOf(ByteAt(w, k));
    }
  }

  /**
   * `write_digit2_separated`: eight characters from `offset` on are overwritten.
   * Reading the word's bytes from memory and, on a big-endian machine, reversing
   * them gives them least significant first.
   */
  method WriteDigit2Separated(buf: array<char>, offset: nat, a: nat, b: nat, c: nat, sep: char, bigEndian: bool)
    requires a < 100 && b < 100 && c < 100 && IsSeparator(sep)
    requires offset + 8 <= buf.Length
    modifies buf
    ensures buf[offset..offset + 8] == Triple(a, b, c, sep)
    ensures forall k :: 0 <= k < buf.Length && !(offset <= k < offset + 8) ==> buf[k] == old(buf[k])
  {
    hide *;
    var digits := Computation(Word(a), Word(b), Word(c), Word(sep as int));
    var memory := InMemory(digits, bigEndian);
    ghost var text := Triple(a, b, c, sep);
    MemoryIsText(a, b, c, sep, bigEndian);
    for i := 0 to 8
      invariant |text| == 8 && |memory| == 8
      invariant forall k :: 0 <= k < 8 ==> memory[if bigEndian then 7 - k else k] == text[k]
      invariant forall k :: 0 <= k < i ==> buf[offset + k] == text[k]
      invariant forall k :: 0 <= k < buf.Length && !(offset <= k < offset + i) ==> buf[k] == old(buf[k])
    {
      // memcpy, or reverse_copy from the temporary
      buf[offset + i] := memory[if bigEndian then 7 - i else i];
    }
    assert buf[offset..offset + 8] == text;
  }
}
