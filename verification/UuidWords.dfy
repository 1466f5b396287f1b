/** A 16-byte UUID as two signed 64-bit words, and back. */
module UuidWords {
  import opened Words
  import opened Squids

  const WORD_SIZE: nat := 8

  // ---------------------------------------------------------------------------
  // Base-256 numerals
  // ---------------------------------------------------------------------------

  function BigEndian(bytes: seq<byte>): nat
  {
    if bytes == [] then 0 else BigEndian(bytes[..|bytes| - 1]) * 0x100 + bytes[|bytes| - 1]
  }

  ghost function Power256(n: nat): nat
  {
    if n == 0 then 1 else 0x100 * Power256(n - 1)
  }

  /** The n low bytes of h, most significant first; negative numbers in two's complement. */
  function Digits(h: int, n: nat): (d: seq<byte>)
    ensures |d| == n
    decreases n
  {
    if n == 0 then [] else Digits(h / 0x100, n - 1) + [h % 0x100]
  }

  lemma PowerOfEight()
    ensures Power256(WORD_SIZE) == 0x1_0000_0000_0000_0000
  {
    assert Power256(4) == 0x1_0000_0000;
    assert Power256(6) == 0x1_0000_0000_0000;
  }

  /** Reading a numeral recovers its digits, whatever stands above them. */
  lemma {:induction false} DigitsOfBigEndian(above: int, bytes: seq<byte>)
    ensures Digits(above * Power256(|bytes|) + BigEndian(bytes), |bytes|) == bytes
  {
    if bytes != [] {
      var n := |bytes| - 1;
      var h := above * Power256(n) + BigEndian(bytes[..n]);
      assert above * Power256(n + 1) == 0x100 * (above * Power256(n));
      assert above * Power256(n + 1) + BigEndian(bytes) == h * 0x100 + bytes[n];
      assert (h * 0x100 + bytes[n]) / 0x100 == h && (h * 0x100 + bytes[n]) % 0x100 == bytes[n];
      DigitsOfBigEndian(above, bytes[..n]);
    }
  }

  /** A number is its low bytes plus what stands above them. */
  lemma {:induction false} BigEndianOfDigits(h: int, n: nat) returns (above: int)
    ensures h == above * Power256(n) + BigEndian(Digits(h, n))
    decreases n
  {
    if n == 0 {
      above := h;
    } else {
      above := BigEndianOfDigits(h / 0x100, n - 1);
      var d := Digits(h, n);
      assert d[..n - 1] == Digits(h / 0x100, n - 1);
      assert above * Power256(n) == 0x100 * (above * Power256(n - 1));
    }
  }

  lemma DigitsSplit(h: int, n: nat, rest: seq<byte>)
    requires n > 0
    ensures Digits(h, n) + rest == Digits(h / 0x100, n - 1) + ([h % 0x100] + rest)
  {
  }

  // ---------------------------------------------------------------------------
  // The conversions
  // ---------------------------------------------------------------------------

  /** `(word << 8) | b`: a left shift of a signed word drops the bits that leave it, and or-ing a
      byte into the zeros shifted in is adding it. */
  function ShiftIn(word: int64, b: byte): int64
  {
    WrapInt64(word * 0x100 + b)
  }

  function WordOf(bytes: seq<byte>): int64
  {
    if bytes == [] then 0 else ShiftIn(WordOf(bytes[..|bytes| - 1]), bytes[|bytes| - 1])
  }

  /** Shifting bytes into a word reads them as a base-256 numeral in two's complement. */
  lemma {:induction false} WordIsBigEndian(bytes: seq<byte>) returns (k: int)
    ensures BigEndian(bytes) - WordOf(bytes) == k * 0x1_0000_0000_0000_0000
  {
    if bytes == [] {
      k := 0;
    } else {
      var n := |bytes| - 1;
      var j := WordIsBigEndian(bytes[..n]);
      var i := ShiftInDistance(WordOf(bytes[..n]), bytes[n]);
      k := j * 0x100 + i;
    }
  }

  lemma ShiftInDistance(word: int64, b: byte) returns (k: int)
    ensures word * 0x100 + b - ShiftIn(word, b) == k * 0x1_0000_0000_0000_0000
  {
    k := WrapDistance(word * 0x100 + b);
  }

  lemma WrapDistance(x: int) returns (k: int)
    ensures x - WrapInt64(x) == k * 0x1_0000_0000_0000_0000
  {
    k := x / 0x1_0000_0000_0000_0000;
    if x % 0x1_0000_0000_0000_0000 >= 0x8000_0000_0000_0000 {
      k := k + 1;
    }
  }

  function HighWord(u: Uuid): int64
  {
    WordOf(u[..8])
  }

  function LowWord(u: Uuid): int64
  {
    WordOf(u[8..])
  }

  function WordBytes(word: int64): (d: seq<byte>)
    ensures |d| == 8
  {
    Digits(word, WORD_SIZE)
  }

  lemma WholeWord(word: int64)
    ensures WordBytes(word) == Digits(word, WORD_SIZE) + []
    ensures forall h: int, rest: seq<byte> :: Digits(h, 0) + rest == rest
  {
  }

  function FromWords(high: int64, low: int64): Uuid
  {
    WordBytes(high) + WordBytes(low)
  }

  method UuidToInt64s(u: Uuid) returns (high: int64, low: int64)
    ensures high == HighWord(u) && low == LowWord(u)
  {
    high, low := 0, 0;
    for i := 0 to 8
      invariant high == WordOf(u[..i])
      invariant low == WordOf(u[8..8 + i])
    {
      assert u[..i + 1][..i] == u[..i] && u[8..8 + (i + 1)][..i] == u[8..8 + i];
      high := ShiftIn(high, u[i]);
      low := ShiftIn(low, u[8 + i]);
    }
    assert u[8..16] == u[8..];
  }

  /** Masking a signed word with 0xff is its remainder modulo 256, and an arithmetic right shift by
      eight is division rounding down; so the bytes of negative words come out right. */
  method Int64sToUuid(high: int64, low: int64) returns (u: Uuid)
    ensures u == FromWords(high, low)
  {
    hide WordBytes;
    var h, l := high, low;
    WholeWord(high);
    WholeWord(low);
    var hs: seq<byte>, ls: seq<byte> := [], [];
    var i := WORD_SIZE;
    while i > 0
      invariant 0 <= i <= WORD_SIZE
      invariant WordBytes(high) == Digits(h, i) + hs
      invariant WordBytes(low) == Digits(l, i) + ls
    {
      DigitsSplit(h, i, hs);
      DigitsSplit(l, i, ls);
      i := i - 1;
      hs := [h % 0x100] + hs;
      h := h / 0x100;
      ls := [l % 0x100] + ls;
      l := l / 0x100;
    }
    u := hs + ls;
  }

  lemma WordsRoundTripUuid(u: Uuid)
    ensures FromWords(HighWord(u), LowWord(u)) == u
  {
    HalfRoundTrips(u[..8]);
    HalfRoundTrips(u[8..]);
  }

  lemma HalfRoundTrips(half: seq<byte>)
    requires |half| == 8
    ensures WordBytes(WordOf(half)) == half
  {
    PowerOfEight();
    hide Power256, Digits, BigEndian, WordOf;
    var k := WordIsBigEndian(half);
    DigitsOfBigEndian(-k, half);
  }

  /** Eight digits to base 256, most significant first. */
  function Numeral(d: seq<int>): int
    requires |d| == 8
  {
    d[0] * 0x100_0000_0000_0000 + d[1] * 0x1_0000_0000_0000 + d[2] * 0x100_0000_0000 + d[3] * 0x1_0000_0000
    + d[4] * 0x100_0000 + d[5] * 0x1_0000 + d[6] * 0x100 + d[7]
  }

  /** The words are what the UUID's halves spell out, most significant byte first. */
  lemma WordsAreBigEndian(u: Uuid)
    ensures ToUint64(HighWord(u)) == Numeral(u[..8])
    ensures ToUint64(LowWord(u)) == Numeral(u[8..])
  {
    HalfIsBigEndian(u[..8]);
    HalfIsBigEndian(u[8..]);
  }

  lemma HalfIsBigEndian(b: seq<byte>)
    requires |b| == 8
    ensures ToUint64(WordOf(b)) == Numeral(b)
  {
    hide WordOf, BigEndian;
    BigEndianIsNumeral(b);
    var k := WordIsBigEndian(b);
    SameUint64(ToUint64(WordOf(b)), BigEndian(b), if WordOf(b) < 0 then 1 - k else -k);
  }

  lemma BigEndianIsNumeral(b: seq<byte>)
    requires |b| == 8
    ensures BigEndian(b) == Numeral(b)
  {
    hide BigEndian;
    assert b[..8] == b;
    NothingRead(b);
    BigEndianUnfolds(b, 8);
    BigEndianUnfolds(b, 7);
    BigEndianUnfolds(b, 6);
    BigEndianUnfolds(b, 5);
    BigEndianUnfolds(b, 4);
    BigEndianUnfolds(b, 3);
    BigEndianUnfolds(b, 2);
    BigEndianUnfolds(b, 1);
  }

  lemma NothingRead(b: seq<byte>)
    ensures BigEndian(b[..0]) == 0
  {
  }

  lemma BigEndianUnfolds(b: seq<byte>, n: nat)
    requires 0 < n <= |b|
    ensures BigEndian(b[..n]) == BigEndian(b[..n - 1]) * 0x100 + b[n - 1]
  {
    assert b[..n][..n - 1] == b[..n - 1];
  }

  lemma SameUint64(x: uint64, y: uint64, k: int)
    requires x - y == k * 0x1_0000_0000_0000_0000
    ensures x == y
  {
  }

  lemma ZeroWords()
    ensures FromWords(0, 0) == seq(16, _ => 0)
  {
    ZeroDigits(8);
  }

  lemma {:induction false} ZeroDigits(n: nat)
    ensures Digits(0, n) == seq(n, _ => 0)
  {
    if n > 0 {
      ZeroDigits(n - 1);
    }
  }

  lemma UuidRoundTripWords(high: int64, low: int64)
    ensures HighWord(FromWords(high, low)) == high && LowWord(FromWords(high, low)) == low
  {
    var u := FromWords(high, low);
    assert u[..8] == WordBytes(high) && u[8..] == WordBytes(low);
    WordRoundTrips(high);
    WordRoundTrips(low);
  }

  lemma WordRoundTrips(word: int64)
    ensures WordOf(WordBytes(word)) == word
  {
    PowerOfEight();
    hide Power256, Digits, BigEndian, WordOf;
    var above := BigEndianOfDigits(word, WORD_SIZE);
    var k := WordIsBigEndian(WordBytes(word));
    SameInt64(word, WordOf(WordBytes(word)), above + k);
  }

  /** Two signed words a multiple of 2^64 apart are the same word. */
  lemma SameInt64(x: int64, y: int64, k: int)
    requires x - y == k * 0x1_0000_0000_0000_0000
    ensures x == y
  {
  }
}
