/** Which transmission errors the CRC detects: every error burst of at most sixteen bits, wherever it
    starts (hence any damage inside two adjacent bytes), and every odd number of wrong bits. */
module CrcErrors {
  import opened CrcTables
  import opened Flatten
  import opened ModbusCrc
  import opened Octets

  type bit = bv1

  // --- A message as the bits that pass through the register --------------------------------------

  function Half(x: bv16): bv16 { x >> 1 }

  function LowBits(x: bv16, n: nat): (bits: seq<bit>)
    ensures |bits| == n
    decreases n
  {
    if n == 0 then [] else [(x & 1) as bit] + LowBits(Half(x), n - 1)
  }

  function Bits(b: byte): seq<bit> { LowBits(b as bv16, 8) }

  function MessageBits(msg: seq<byte>): (bits: seq<bit>)
    ensures |bits| == 8 * |msg|
  {
    FlatLength(Bits, 8, msg);
    Flat(Bits, msg)
  }

  function ShiftIn(r: bv16, b: bit): bv16 { Shift(Xor16(r, b as bv16)) }

  function ShiftAll(r: bv16, bits: seq<bit>): bv16
    decreases |bits|
  {
    if bits == [] then r else ShiftAll(ShiftIn(r, bits[0]), bits[1..])
  }

  lemma {:induction false} ShiftAllConcat(r: bv16, x: seq<bit>, y: seq<bit>)
    ensures ShiftAll(r, x + y) == ShiftAll(ShiftAll(r, x), y)
    decreases |x|
  {
    if x == [] {
      assert x + y == y;
    } else {
      ShiftAllConcat(ShiftIn(r, x[0]), x[1..], y);
      assert (x + y)[1..] == x[1..] + y;
    }
  }

  function Shifts(r: bv16, n: nat): bv16
    decreases n
  {
    if n == 0 then r else Shifts(Shift(r), n - 1)
  }

  function Halve(x: bv16, n: nat): bv16
    decreases n
  {
    if n == 0 then x else Halve(Half(x), n - 1)
  }

  lemma ShiftPeelsOneBit(r: bv16, x: bv16)
    ensures Shift(Xor16(r, x)) == Xor16(ShiftIn(r, (x & 1) as bit), Half(x))
  {}

  // Combining a word with the register at once is feeding its bits one by one.
  lemma {:induction false} ShiftsAreBits(r: bv16, x: bv16, n: nat)
    ensures Shifts(Xor16(r, x), n) == Xor16(ShiftAll(r, LowBits(x, n)), Halve(x, n))
    decreases n
  {
    if n > 0 {
      ShiftPeelsOneBit(r, x);
      ShiftsAreBits(ShiftIn(r, (x & 1) as bit), Half(x), n - 1);
      assert LowBits(x, n)[1..] == LowBits(Half(x), n - 1);
    }
  }

  lemma ShiftsEight(r: bv16)
    ensures Shifts(r, 8) == Shift8(r)
  {}

  lemma HalveByte(b: byte)
    ensures Halve(b as bv16, 8) == 0
  {}

  lemma EightBits(r: bv16, b: byte)
    ensures SerialStep(r, b) == ShiftAll(r, Bits(b))
  {
    ShiftsAreBits(r, b as bv16, 8);
    ShiftsEight(Xor16(r, b as bv16));
    HalveByte(b);
  }

  lemma {:induction false} SerialIsFlat(f: byte -> seq<bit>, r: bv16, msg: seq<byte>)
    requires forall r, b :: ShiftAll(r, f(b)) == SerialStep(r, b)
    ensures SerialFrom(r, msg) == ShiftAll(r, Flat(f, msg))
    decreases |msg|
  {
    if msg != [] {
      ShiftAllConcat(r, f(msg[0]), Flat(f, msg[1..]));
      SerialIsFlat(f, SerialStep(r, msg[0]), msg[1..]);
    }
  }

  lemma SerialIsBits(r: bv16, msg: seq<byte>)
    ensures SerialFrom(r, msg) == ShiftAll(r, MessageBits(msg))
  {
    forall r, b
      ensures ShiftAll(r, Bits(b)) == SerialStep(r, b)
    {
      EightBits(r, b);
    }
    SerialIsFlat(Bits, r, msg);
  }

  // --- The register is linear in the bits --------------------------------------------------------

  /** Where two bit strings of one length disagree. */
  function Diff(s: seq<bit>, t: seq<bit>): (d: seq<bit>)
    requires |s| == |t|
    ensures |d| == |s| && forall i :: 0 <= i < |s| ==> d[i] == s[i] ^ t[i]
  {
    if s == [] then [] else [s[0] ^ t[0]] + Diff(s[1..], t[1..])
  }

  lemma ShiftInIsLinear(x: bv16, y: bv16, a: bit, b: bit)
    ensures Xor16(ShiftIn(x, a), ShiftIn(y, b)) == ShiftIn(Xor16(x, y), a ^ b)
  {}

  lemma {:induction false} ShiftAllIsLinear(x: bv16, y: bv16, s: seq<bit>, t: seq<bit>)
    requires |s| == |t|
    ensures Xor16(ShiftAll(x, s), ShiftAll(y, t)) == ShiftAll(Xor16(x, y), Diff(s, t))
    decreases |s|
  {
    if s != [] {
      ShiftInIsLinear(x, y, s[0], t[0]);
      ShiftAllIsLinear(ShiftIn(x, s[0]), ShiftIn(y, t[0]), s[1..], t[1..]);
    }
  }

  lemma JoinedBytes(x: bv16)
    ensures Word(Register(LowByte(x), HighByte(x))) == x
  {}

  lemma XorIsZero(x: bv16, y: bv16)
    ensures Xor16(x, y) == 0 ==> x == y
    ensures x == y ==> Xor16(x, y) == 0
  {}

  lemma CompareWords(x: bv16, y: bv16)
    ensures x == y <==> LowByte(x) == LowByte(y) && HighByte(x) == HighByte(y)
    ensures x == y <==> Xor16(x, y) == 0
  {
    JoinedBytes(x);
    JoinedBytes(y);
    XorIsZero(x, y);
  }

  /** Two messages of one length have the same CRC exactly when their difference, fed into a zero
      register, leaves it zero. */
  lemma SameCrc(m: seq<byte>, m': seq<byte>)
    requires |m| == |m'|
    ensures Crc(m) == Crc(m') <==> ShiftAll(0, Diff(MessageBits(m), MessageBits(m'))) == 0
  {
    CrcIsSerialCrc(m);
    CrcIsSerialCrc(m');
    CompareWords(SerialCrc(m), SerialCrc(m'));
    SerialIsBits(0xFFFF, m);
    SerialIsBits(0xFFFF, m');
    ShiftAllIsLinear(0xFFFF, 0xFFFF, MessageBits(m), MessageBits(m'));
    CompareWords(0xFFFF, 0xFFFF);
  }

  // --- Bursts ------------------------------------------------------------------------------------

  function Pack(w: seq<bit>): byte
    requires |w| == 8
  {
    (w[0] as byte) | ((w[1] as byte) << 1) | ((w[2] as byte) << 2) | ((w[3] as byte) << 3) |
    ((w[4] as byte) << 4) | ((w[5] as byte) << 5) | ((w[6] as byte) << 6) | ((w[7] as byte) << 7)
  }

  lemma BitsOfPack(w: seq<bit>)
    requires |w| == 8
    ensures Bits(Pack(w)) == w
  {}

  lemma PackIsZero(w: seq<bit>, k: nat)
    requires |w| == 8 && k < 8 && w[k] == 1
    ensures Pack(w) != 0
  {}

  lemma PackOfBits(b: byte)
    ensures Pack(Bits(b)) == b
  {}

  lemma TwoBytesFromZero(first: byte, second: byte)
    ensures SerialStep(SerialStep(0, first), second) == 0 ==> first == 0 && second == 0
  {}

  lemma TwoBytesOfBits(x: seq<bit>, y: seq<bit>)
    requires |x| == |y| == 8
    ensures ShiftAll(0, x + y) == SerialStep(SerialStep(0, Pack(x)), Pack(y))
  {
    BitsOfPack(x);
    BitsOfPack(y);
    ShiftAllConcat(0, x, y);
    EightBits(0, Pack(x));
    EightBits(SerialStep(0, Pack(x)), Pack(y));
  }

  // Sixteen bits that are not all zero leave a zero register non-zero.
  lemma WindowIsSeen(w: seq<bit>, k: nat)
    requires |w| == 16 && k < 16 && w[k] == 1
    ensures ShiftAll(0, w) != 0
  {
    var x, y := w[..8], w[8..];
    assert w == x + y;
    TwoBytesOfBits(x, y);
    TwoBytesFromZero(Pack(x), Pack(y));
    if k < 8 { PackIsZero(x, k); } else { PackIsZero(y, k - 8); }
  }

  lemma ShiftInZero(r: bv16)
    ensures ShiftIn(r, 0) == 0 <==> r == 0
  {}

  lemma {:induction false} ZerosKeep(r: bv16, bits: seq<bit>)
    requires forall i :: 0 <= i < |bits| ==> bits[i] == 0
    ensures ShiftAll(r, bits) == 0 <==> r == 0
    decreases |bits|
  {
    if bits != [] {
      ShiftInZero(r);
      ZerosKeep(ShiftIn(r, 0), bits[1..]);
    }
  }

  lemma BurstInside(d: seq<bit>, p: nat, k: nat)
    requires p <= k < p + 16 <= |d| && d[k] == 1
    requires forall i :: 0 <= i < |d| && !(p <= i < p + 16) ==> d[i] == 0
    ensures ShiftAll(0, d) != 0
  {
    var before, window, after := d[..p], d[p..p + 16], d[p + 16..];
    assert d == before + (window + after);
    ShiftAllConcat(0, before, window + after);
    ZerosKeep(0, before);
    ShiftAllConcat(0, window, after);
    WindowIsSeen(window, k - p);
    ZerosKeep(ShiftAll(0, window), after);
  }

  /** A bit string that is zero outside sixteen places from p on, and not zero there, is seen. */
  lemma BurstIsSeen(d: seq<bit>, p: nat, k: nat)
    requires p <= k < |d| && k < p + 16 && d[k] == 1
    requires forall i :: 0 <= i < |d| && !(p <= i < p + 16) ==> d[i] == 0
    ensures ShiftAll(0, d) != 0
  {
    var padding: seq<bit> := seq(16, i => 0);
    BurstInside(d + padding, p, k);
    ShiftAllConcat(0, d, padding);
    ZerosKeep(ShiftAll(0, d), padding);
  }

  lemma {:induction false} SameFlat(f: byte -> seq<bit>, n: nat, m: seq<byte>, m': seq<byte>)
    requires |m| == |m'| && Flat(f, m) == Flat(f, m')
    requires forall b :: |f(b)| == n
    requires forall b, c :: f(b) == f(c) ==> b == c
    ensures m == m'
  {
    if m != [] {
      var b, c := m[0], m'[0];
      var x, y := f(b), f(c);
      var xs, ys := Flat(f, m[1..]), Flat(f, m'[1..]);
      assert |x| == n && |y| == n;
      assert x == (x + xs)[..n] == (y + ys)[..n] == y;
      assert xs == (x + xs)[n..] == (y + ys)[n..] == ys;
      SameFlat(f, n, m[1..], m'[1..]);
    }
  }

  lemma SameBits(m: seq<byte>, m': seq<byte>)
    requires |m| == |m'| && MessageBits(m) == MessageBits(m')
    ensures m == m'
  {
    forall b, c
      ensures Bits(b) == Bits(c) ==> b == c
    {
      PackOfBits(b);
      PackOfBits(c);
    }
    SameFlat(Bits, 8, m, m');
  }

  /** Two different messages of one length that agree outside sixteen consecutive bits, wherever those
      start, never have the same CRC. */
  lemma BurstsAreDetected(m: seq<byte>, m': seq<byte>, p: nat)
    requires |m| == |m'| && m != m'
    requires forall i :: 0 <= i < 8 * |m| && !(p <= i < p + 16) ==> MessageBits(m)[i] == MessageBits(m')[i]
    ensures Crc(m) != Crc(m')
  {
    var s, t := MessageBits(m), MessageBits(m');
    if s == t {
      SameBits(m, m');
    }
    var k :| 0 <= k < |s| && s[k] != t[k];
    var d := Diff(s, t);
    assert d[k] == 1;
    BurstIsSeen(d, p, k);
    SameCrc(m, m');
  }

  lemma MessageBitsAround(m: seq<byte>, j: nat, k: nat)
    requires j <= k <= |m|
    ensures MessageBits(m)[..8 * j] == MessageBits(m[..j])
    ensures MessageBits(m)[8 * k..] == MessageBits(m[k..])
  {
    assert m == m[..j] + m[j..] == m[..k] + m[k..];
    FlatConcat(Bits, m[..j], m[j..]);
    FlatConcat(Bits, m[..k], m[k..]);
  }

  /** In particular, damage confined to two adjacent bytes is always detected. */
  lemma AdjacentBytesAreDetected(m: seq<byte>, m': seq<byte>, j: nat)
    requires |m| == |m'| && m != m' && j < |m|
    requires forall i :: 0 <= i < |m| && i != j && i != j + 1 ==> m[i] == m'[i]
    ensures Crc(m) != Crc(m')
  {
    var s, t := MessageBits(m), MessageBits(m');
    var k := if j + 2 <= |m| then j + 2 else |m|;
    assert m[..j] == m'[..j] && m[k..] == m'[k..];
    MessageBitsAround(m, j, k);
    MessageBitsAround(m', j, k);
    forall i | 0 <= i < 8 * |m| && !(8 * j <= i < 8 * j + 16)
      ensures s[i] == t[i]
    {
      if i < 8 * j {
        assert s[i] == s[..8 * j][i] && t[i] == t[..8 * j][i];
      } else {
        assert s[i] == s[8 * k..][i - 8 * k] && t[i] == t[8 * k..][i - 8 * k];
      }
    }
    BurstsAreDetected(m, m', 8 * j);
  }

  // --- Odd numbers of wrong bits -----------------------------------------------------------------

  function Odd(x: bv16): bool { x & 1 == 1 }

  /** Whether an odd number of the n lowest bits is set. */
  function Parity(x: bv16, n: nat): bool
    decreases n
  {
    if n == 0 then false else Odd(x) != Parity(Half(x), n - 1)
  }

  lemma OddOfXor(x: bv16, y: bv16)
    ensures Odd(Xor16(x, y)) == (Odd(x) != Odd(y))
  {}

  lemma HalfOfXor(x: bv16, y: bv16)
    ensures Half(Xor16(x, y)) == Xor16(Half(x), Half(y))
  {
    assert (x ^ y) >> 1 == (x >> 1) ^ (y >> 1);
  }

  lemma {:induction false} ParityOfXor(x: bv16, y: bv16, n: nat)
    ensures Parity(Xor16(x, y), n) == (Parity(x, n) != Parity(y, n))
    decreases n
  {
    if n > 0 {
      var z := Xor16(x, y);
      assert Parity(z, n) == (Odd(z) != Parity(Half(z), n - 1));
      assert Odd(z) == (Odd(x) != Odd(y)) by { OddOfXor(x, y); }
      assert Parity(Half(z), n - 1) == (Parity(Half(x), n - 1) != Parity(Half(y), n - 1)) by {
        HalfOfXor(x, y);
        ParityOfXor(Half(x), Half(y), n - 1);
      }
    }
  }

  lemma {:induction false} ParityIgnoresZeroTop(x: bv16, n: nat)
    requires Halve(x, n) == 0
    ensures Parity(x, n + 1) == Parity(x, n)
    decreases n
  {
    if n > 0 {
      ParityIgnoresZeroTop(Half(x), n - 1);
    }
  }

  lemma {:induction false} HalveTwice(x: bv16, n: nat, k: nat)
    ensures Halve(x, n + k) == Halve(Halve(x, n), k)
    decreases n
  {
    if n > 0 {
      HalveTwice(Half(x), n - 1, k);
    }
  }

  lemma HalveEight(x: bv16)
    ensures Halve(x, 8) == x >> 8
  {}

  lemma HalfOfWord(r: bv16)
    ensures Halve(Half(r), 15) == 0
  {
    HalveTwice(r, 1, 15);
    HalveTwice(r, 8, 8);
    HalveEight(r);
    HalveEight(r >> 8);
    assert (r >> 8) >> 8 == 0;
  }

  lemma ShiftByOdd(r: bv16)
    ensures Shift(r) == if Odd(r) then Xor16(Half(r), 0xA001) else Half(r)
  {
    ShiftByCases(r);
    if !Odd(r) {
      assert r & 1 == 0;
    }
  }

  lemma ParityOfPolynomial()
    ensures Parity(0xA001, 16)
  {
    assert !Parity(0x5, 3);
    assert !Parity(0x50, 7);
    assert !Parity(0x500, 11);
    assert !Parity(0x5000, 15);
  }

  lemma ShiftKeepsParity(r: bv16)
    ensures Parity(Shift(r), 16) == Parity(r, 16)
  {
    assert Parity(r, 16) == (Odd(r) != Parity(Half(r), 15));
    assert Parity(Half(r), 16) == Parity(Half(r), 15) by {
      HalfOfWord(r);
      ParityIgnoresZeroTop(Half(r), 15);
    }
    ParityOfXor(Half(r), 0xA001, 16);
    ParityOfPolynomial();
    ShiftByOdd(r);
  }

  function Count(bits: seq<bit>): nat {
    if bits == [] then 0 else (if bits[0] == 1 then 1 else 0) + Count(bits[1..])
  }

  lemma ZeroParity(n: nat)
    ensures !Parity(0, n)
    decreases n
  {
    assert Half(0) == 0;
    if n > 0 { ZeroParity(n - 1); }
  }

  lemma ParityOfBit(b: bit)
    ensures Parity(b as bv16, 16) == (b == 1)
  {
    ZeroParity(15);
    assert Half(b as bv16) == 0;
    assert Odd(b as bv16) == (b == 1);
  }

  lemma {:induction false} ParityOfRegister(r: bv16, bits: seq<bit>)
    ensures Parity(ShiftAll(r, bits), 16) == (Parity(r, 16) != (Count(bits) % 2 == 1))
    decreases |bits|
  {
    if bits != [] {
      var b := bits[0];
      ParityOfXor(r, b as bv16, 16);
      ParityOfBit(b);
      ShiftKeepsParity(Xor16(r, b as bv16));
      ParityOfRegister(ShiftIn(r, b), bits[1..]);
    }
  }

  /** Two messages of one length that differ in an odd number of bits never have the same CRC. */
  lemma OddErrorsAreDetected(m: seq<byte>, m': seq<byte>)
    requires |m| == |m'|
    requires Count(Diff(MessageBits(m), MessageBits(m'))) % 2 == 1
    ensures Crc(m) != Crc(m')
  {
    SameCrc(m, m');
    ParityOfRegister(0, Diff(MessageBits(m), MessageBits(m')));
    ZeroParity(16);
  }
}
