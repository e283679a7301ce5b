/** The binary digits of numbers, read with division and remainder, and what the operations on words of 32 bits
    make of them. */
module Binary {

  // --- Numbers -----------------------------------------------------------------------------------

  /** The digit at place i; as division rounds down, of a negative number that of its two's complement. */
  predicate BitAt(x: int, i: nat)
    decreases i
  {
    if i == 0 then x % 2 == 1 else BitAt(x / 2, i - 1)
  }

  function Pow2(n: nat): (p: nat)
    ensures p >= 1
  {
    if n == 0 then 1 else 2 * Pow2(n - 1)
  }

  lemma Pow2Of32()
    ensures Pow2(30) == 0x4000_0000 && Pow2(32) == 0x1_0000_0000
  {
    assert Pow2(8) == 0x100;
    assert Pow2(16) == 0x1_0000;
    assert Pow2(24) == 0x100_0000;
  }

  lemma {:induction false} BitIsQuotient(x: int, i: nat)
    ensures BitAt(x, i) <==> x / Pow2(i) % 2 == 1
    decreases i
  {
    if i > 0 {
      BitIsQuotient(x / 2, i - 1);
      DivideTwice(x, Pow2(i - 1));
    }
  }

  lemma DivideTwice(x: int, p: int)
    requires p >= 1
    ensures x / 2 / p == x / (2 * p)
  {
    var y, q := x / 2, x / 2 / p;
    assert y == p * q + y % p;
    assert x == 2 * p * q + (2 * (y % p) + x % 2);
    QuotientIs(x, 2 * p, q, 2 * (y % p) + x % 2);
  }

  lemma QuotientIs(x: int, d: int, q: int, r: int)
    requires x == d * q + r && 0 <= r < d
    ensures x / d == q && x % d == r
  {
    var k := x / d - q;
    assert d * k == r - x % d;
    Multiple(d, k);
  }

  lemma Multiple(d: int, k: int)
    requires d > 0
    ensures (k >= 1 ==> d * k >= d) && (k <= -1 ==> d * k <= -d)
  {
    if k >= 1 { assert d * (k - 1) >= 0; }
    if k <= -1 { assert d * (-1 - k) >= 0; }
  }

  /** Whole multiples of a power of two do not touch the digits below it. */
  lemma {:induction false} BitsBelow(x: int, k: int, n: nat, i: nat)
    requires i < n
    ensures BitAt(x + k * Pow2(n), i) <==> BitAt(x, i)
    decreases i
  {
    var half := k * Pow2(n - 1);
    assert k * Pow2(n) == 2 * half;
    if i > 0 {
      BitsBelow(x / 2, k, n - 1, i - 1);
      assert (x + 2 * half) / 2 == x / 2 + half;
    }
  }

  /** Nor does what is below it touch the digits from it on. */
  lemma {:induction false} BitsAbove(x: int, k: nat, n: nat, i: nat)
    requires k < Pow2(n)
    ensures BitAt(x * Pow2(n) + k, n + i) <==> BitAt(x, i)
  {
    if n > 0 {
      var upper := x * Pow2(n - 1);
      assert x * Pow2(n) == 2 * upper;
      assert (2 * upper + k) / 2 == upper + k / 2;
      BitsAbove(x, k / 2, n - 1, i);
    } else {
      assert x * Pow2(0) + k == x;
    }
  }

  lemma {:induction false} BitsOfOnes(n: nat, i: nat)
    ensures BitAt(Pow2(n) - 1, i) <==> i < n
  {
    if n == 0 {
      BitsOfZero(i);
    } else if i > 0 {
      assert (2 * Pow2(n - 1) - 1) / 2 == Pow2(n - 1) - 1;
      BitsOfOnes(n - 1, i - 1);
    }
  }

  lemma {:induction false} BitsOfZero(i: nat)
    ensures !BitAt(0, i)
  {
    if i > 0 { BitsOfZero(i - 1); }
  }

  // --- Words -------------------------------------------------------------------------------------

  type word = bv32

  // Named, so that what is proved of them need not be proved bit by bit again.

  function And(x: word, y: word): word { x & y }

  function Or(x: word, y: word): word { x | y }

  function Xor(x: word, y: word): word { x ^ y }

  function Halved(x: word): word { x >> 1 }

  function Doubled(x: word): word { x << 1 }

  function Digit(x: word): word { x & 1 }

  function Upper(x: word): bv31 { (x >> 1) as bv31 }

  function Last(x: word): bv1 { (x & 1) as bv1 }

  function Join(y: bv31, d: bv1): word { ((y as word) << 1) | (d as word) }

  lemma JoinParts(x: word)
    ensures Join(Upper(x), Last(x)) == x
    ensures Digit(x) == 1 <==> Last(x) == 1
  {}

  lemma JoinValue(y: bv31, d: bv1)
    ensures Join(y, d) as int == 2 * (y as int) + d as int && 0 <= d as int <= 1 && (d == 1 <==> d as int == 1)
  {
    Composed(y, d);
    Widened(y, d);
  }

  lemma Composed(y: bv31, d: bv1)
    ensures (((y as word) << 1) | (d as word)) as int == 2 * (y as int) + d as int
  {}

  lemma Widened(y: bv31, d: bv1)
    ensures (y as word) as int == y as int
    ensures d as int == if d == 0 then 0 else 1
  {}

  lemma UpperIsHalved(x: word)
    ensures Halved(x) as int == Upper(x) as int
  {
    HalvedValue(x);
  }

  lemma HalvedValue(x: word)
    ensures (x >> 1) as int == ((x >> 1) as bv31) as int
  {}

  lemma HalfOf(x: word)
    ensures Halved(x) as int == x as int / 2
    ensures Digit(x) == 1 <==> x as int % 2 == 1
  {
    JoinParts(x);
    JoinValue(Upper(x), Last(x));
    UpperIsHalved(x);
  }

  lemma HalvedAnd(x: word, y: word)
    ensures Halved(And(x, y)) == And(Halved(x), Halved(y))
  {}

  lemma DigitAnd(x: word, y: word)
    ensures Digit(And(x, y)) == And(Digit(x), Digit(y))
  {}

  lemma HalvedOr(x: word, y: word)
    ensures Halved(Or(x, y)) == Or(Halved(x), Halved(y))
  {}

  lemma DigitOr(x: word, y: word)
    ensures Digit(Or(x, y)) == Or(Digit(x), Digit(y))
  {}

  lemma HalvedXor(x: word, y: word)
    ensures Halved(Xor(x, y)) == Xor(Halved(x), Halved(y))
  {}

  lemma DigitXor(x: word, y: word)
    ensures Digit(Xor(x, y)) == Xor(Digit(x), Digit(y))
  {}

  lemma Digits(x: word, y: word)
    ensures (Digit(x) == 0 || Digit(x) == 1) && (Digit(y) == 0 || Digit(y) == 1)
    ensures And(Digit(x), Digit(y)) == 1 <==> Digit(x) == 1 && Digit(y) == 1
    ensures Or(Digit(x), Digit(y)) == 1 <==> Digit(x) == 1 || Digit(y) == 1
    ensures Xor(Digit(x), Digit(y)) == 1 <==> Digit(x) != Digit(y)
  {}

  /** The operations act on every digit by itself. */
  lemma {:induction false} BitsOfAnd(x: word, y: word, i: nat)
    ensures BitAt(And(x, y) as int, i) <==> BitAt(x as int, i) && BitAt(y as int, i)
    decreases i
  {
    HalvedAnd(x, y);
    DigitAnd(x, y);
    Digits(x, y);
    HalfOf(x);
    HalfOf(y);
    HalfOf(And(x, y));
    if i > 0 { BitsOfAnd(Halved(x), Halved(y), i - 1); }
  }

  lemma {:induction false} BitsOfOr(x: word, y: word, i: nat)
    ensures BitAt(Or(x, y) as int, i) <==> BitAt(x as int, i) || BitAt(y as int, i)
    decreases i
  {
    HalvedOr(x, y);
    DigitOr(x, y);
    Digits(x, y);
    HalfOf(x);
    HalfOf(y);
    HalfOf(Or(x, y));
    if i > 0 { BitsOfOr(Halved(x), Halved(y), i - 1); }
  }

  lemma {:induction false} BitsOfXor(x: word, y: word, i: nat)
    ensures BitAt(Xor(x, y) as int, i) <==> BitAt(x as int, i) != BitAt(y as int, i)
    decreases i
  {
    HalvedXor(x, y);
    DigitXor(x, y);
    Digits(x, y);
    HalfOf(x);
    HalfOf(y);
    HalfOf(Xor(x, y));
    if i > 0 { BitsOfXor(Halved(x), Halved(y), i - 1); }
  }

  // --- Numbers as words --------------------------------------------------------------------------

  lemma TopComposed(d: bv1, y: bv31)
    ensures (((d as word) << 31) | (y as word)) as int == 0x8000_0000 * (d as int) + y as int
  {}

  function Top(x: word): bv1 { (x >> 31) as bv1 }

  function Rest(x: word): bv31 { (x & 0x7FFF_FFFF) as bv31 }

  function TopJoin(d: bv1, y: bv31): word { ((d as word) << 31) | (y as word) }

  lemma TopJoinParts(x: word)
    ensures TopJoin(Top(x), Rest(x)) == x && (Top(x) == 0 ==> x < 0x8000_0000)
  {}

  lemma TopJoinValue(d: bv1, y: bv31)
    ensures TopJoin(d, y) as int == 0x8000_0000 * (d as int) + y as int
  {
    TopComposed(d, y);
    Widened(y, d);
  }

  lemma TopBit(x: word)
    requires x as int < 0x8000_0000
    ensures x < 0x8000_0000
  {
    TopJoinParts(x);
    TopJoinValue(Top(x), Rest(x));
    Widened(Rest(x), Top(x));
  }

  /** Every number of 32 bits is the value of a word. */
  lemma {:induction false} WordOf(x: nat) returns (w: word)
    requires x < 0x1_0000_0000
    ensures w as int == x
  {
    if x == 0 {
      w := 0;
    } else {
      var y := WordOf(x / 2);
      TopBit(y);
      var d: bv1 := if x % 2 == 0 then 0 else 1;
      w := (((y as bv31) as word) << 1) | (d as word);
      Composed(y as bv31, d);
      Widened(y as bv31, d);
    }
  }

  lemma WordRoundTrip(w: word)
    ensures (w as int) as word == w
  {}

  lemma NumberRoundTrip(x: nat)
    requires x < 0x1_0000_0000
    ensures (x as word) as int == x
  {
    var w := WordOf(x);
    WordRoundTrip(w);
  }
}
