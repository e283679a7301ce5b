/** The double-hashing arithmetic of BasicHashtable.h:119-142: where a collision chain starts, how far it
    steps, and which buckets it reaches. */
module HashProbe {
  import opened Binary
  import opened Residues

  /** A 32-bit hash code. */
  type hash = x: int | 0 <= x < 0x1_0000_0000

  // --- Cookies -----------------------------------------------------------------------------------

  const COLLISION: word := 0x8000_0000
  const PRESENT: word := 0x4000_0000
  const HASH_MASK: word := 0x3FFF_FFFF

  function TopTwo(h: word): word { h >> 30 }

  function TrimHash(h: word): word { (h & HASH_MASK) ^ TopTwo(h) }

  /** A trimmed hash leaves the two flag bits of a bucket's cookie alone. */
  lemma TrimmedHashFitsCookie(h: word, flags: word)
    requires flags & HASH_MASK == 0
    ensures (flags | TrimHash(h)) & HASH_MASK == TrimHash(h)
    ensures (flags | TrimHash(h)) & (COLLISION | PRESENT) == flags
  {
    assert ((h & 0x3FFF_FFFF) ^ (h >> 30)) & 0xC000_0000 == 0;
  }

  function Upper2(h: word): bv2 { (h >> 30) as bv2 }

  function Lower30(h: word): bv30 { (h & 0x3FFF_FFFF) as bv30 }

  lemma Join30(x: bv2, y: bv30)
    ensures (((x as word) << 30) | (y as word)) as int == 0x4000_0000 * (x as int) + y as int
  {}

  function Joined30(x: bv2, y: bv30): word { ((x as word) << 30) | (y as word) }

  lemma Joined30Value(x: bv2, y: bv30)
    ensures Joined30(x, y) as int == 0x4000_0000 * (x as int) + y as int
    ensures y as int < 0x4000_0000 && (x as word) as int == x as int
  {
    Join30(x, y);
  }

  lemma Joined30Parts(h: word)
    ensures Joined30(Upper2(h), Lower30(h)) == h && TopTwo(h) as int == Upper2(h) as int
  {
    WidenedTwo(h);
  }

  lemma WidenedTwo(h: word)
    ensures (h >> 30) as int == ((h >> 30) as bv2) as int
  {}

  lemma TopTwoBits(h: word, i: nat)
    ensures BitAt(TopTwo(h) as int, i) <==> BitAt(h as int, 30 + i)
  {
    Joined30Parts(h);
    Joined30Value(Upper2(h), Lower30(h));
    BitsOfTop(h as int, TopTwo(h) as int, Lower30(h) as int, i);
  }

  lemma BitsOfTop(x: int, upper: int, lower: nat, i: nat)
    requires x == 0x4000_0000 * upper + lower && lower < 0x4000_0000
    ensures BitAt(upper, i) <==> BitAt(x, 30 + i)
  {
    Pow2Of32();
    BitsAbove(upper, lower, 30, i);
  }

  lemma TrimmedAs(h: word)
    ensures TrimHash(h) == Xor(And(h, HASH_MASK), TopTwo(h))
  {}

  lemma MaskBits(i: nat)
    ensures BitAt(HASH_MASK as int, i) <==> i < 30
  {
    Pow2Of32();
    BitsOfOnes(30, i);
  }

  /** Trimming keeps what it cuts off: bit by bit, the two topmost bits of a hash are mixed into its two lowest,
      and the others stay. */
  lemma TrimmedBits(h: word, i: nat)
    ensures BitAt(TrimHash(h) as int, i) <==> i < 30 && BitAt(h as int, i) != BitAt(h as int, 30 + i)
  {
    TrimmedAs(h);
    MaskBits(i);
    BitsOfAnd(h, HASH_MASK, i);
    BitsOfXor(And(h, HASH_MASK), TopTwo(h), i);
    TopTwoBits(h, i);
    if i >= 30 { BeyondWord(h, 30 + i); }
  }

  lemma {:induction false} BeyondWord(h: word, i: nat)
    requires i >= 32
    ensures !BitAt(h as int, i)
  {
    Pow2Of32();
    BitsAbove(0, h as int, 32, i - 32);
    BitsOfZero(i - 32);
  }

  // --- Chains ------------------------------------------------------------------------------------

  function ChainStart(h: hash, count: nat): nat
    requires count > 0
  {
    h % count
  }

  /** (h >> 7) | (h << 25) in 32 bits, with the or of two halves as their sum. */
  function Rotated(h: hash): hash { h / 0x80 + (h % 0x80) * 0x200_0000 }

  function Turned(h: word): word { (h >> 7) | (h << 25) }

  lemma RotationHalvesAreDisjoint(h: word)
    ensures (h >> 7) & (h << 25) == 0 && (h >> 7) | (h << 25) == (h >> 7) + (h << 25)
  {}

  function Upper25(h: word): bv25 { (h >> 7) as bv25 }

  function Lower7(h: word): bv7 { (h & 0x7F) as bv7 }

  function Straight(x: bv25, y: bv7): word { ((x as word) << 7) | (y as word) }

  function Crossed(x: bv25, y: bv7): word { ((y as word) << 25) | (x as word) }

  lemma Join7(x: bv25, y: bv7)
    ensures (((x as word) << 7) | (y as word)) as int == 0x80 * (x as int) + y as int
  {}

  lemma Join25(x: bv25, y: bv7)
    ensures (((y as word) << 25) | (x as word)) as int == 0x200_0000 * (y as int) + x as int
  {}

  lemma JoinedValues(x: bv25, y: bv7)
    ensures Straight(x, y) as int == 0x80 * (x as int) + y as int
    ensures Crossed(x, y) as int == 0x200_0000 * (y as int) + x as int
    ensures x as int < 0x200_0000 && y as int < 0x80
  {
    Join7(x, y);
    Join25(x, y);
  }

  lemma JoinedParts(h: word)
    ensures Straight(Upper25(h), Lower7(h)) == h
    ensures Crossed(Upper25(h), Lower7(h)) == Turned(h)
  {}

  lemma RotatedParts(x: nat, y: nat)
    requires x < 0x200_0000 && y < 0x80
    ensures Rotated(0x80 * x + y) == 0x200_0000 * y + x
  {}

  /** It is the hash turned by seven bits. */
  lemma RotatedIsTurned(h: word)
    ensures Rotated(h as int) == Turned(h) as int
  {
    JoinedParts(h);
    JoinedValues(Upper25(h), Lower7(h));
    RotatedParts(Upper25(h) as int, Lower7(h) as int);
  }

  function ChainIncrement(h: hash, count: nat): nat
    requires count > 1
  {
    Rotated(h) % (count - 1) + 1
  }

  function ChainSeek(index: nat, increment: nat, count: nat): nat
    requires count > 0
  {
    (index + increment) % count
  }

  /** The k-th bucket of the chain of a hash. */
  function Probe(h: hash, count: nat, k: nat): nat
    requires count > 1
  {
    if k == 0 then ChainStart(h, count)
    else ChainSeek(Probe(h, count, k - 1), ChainIncrement(h, count), count)
  }

  lemma WalkStep(start: nat, step: nat, count: nat, k: nat, at: nat)
    requires count > 0 && Walk(start, step, count, k) == at
    ensures Walk(start, step, count, k + 1) == ChainSeek(at, step, count)
  {}

  lemma {:induction false} ProbeIsWalk(h: hash, count: nat, k: nat)
    requires count > 1
    ensures Probe(h, count, k) == Walk(ChainStart(h, count), ChainIncrement(h, count), count, k)
  {
    if k > 0 {
      ProbeIsWalk(h, count, k - 1);
      var at, step := Probe(h, count, k - 1), ChainIncrement(h, count);
      assert Probe(h, count, k) == ChainSeek(at, step, count);
      WalkStep(ChainStart(h, count), step, count, k - 1, at);
    }
  }

  lemma ClosedForm(h: nat, start: nat, steps: nat, count: nat, at: nat, r: int)
    requires at < count && start == h % count && start + steps - at == Times(count, r)
    ensures at == (h + steps) % count
  {
    var q := h / count;
    assert h == count * q + start;
    assert count * (q + r) == count * q + count * r;
    QuotientIs(h + steps, count, q + r, at);
  }

  lemma WalkClosed(start: nat, step: nat, count: nat, k: nat, h: nat)
    requires count > 0 && start == h % count
    ensures Walk(start, step, count, k) == (h + k * step) % count
  {
    var at := Walk(start, step, count, k);
    WalkIsLinear(start, step, count, k);
    var r :| start + k * step - at == Times(count, r);
    ClosedForm(h, start, k * step, count, at, r);
  }

  /** Where the chain of a hash is after any number of steps; each is one more than what the hash, turned by seven
      bits, leaves when divided by one less than the number of buckets. */
  lemma ProbeIsLinear(h: word, count: nat, k: nat)
    requires count > 1
    ensures Probe(h as int, count, k) == (h as int + k * (Turned(h) as int % (count - 1) + 1)) % count
  {
    RotatedIsTurned(h);
    ProbeIsWalk(h as int, count, k);
    WalkClosed(ChainStart(h as int, count), ChainIncrement(h as int, count), count, k, h as int);
  }

  ghost predicate Visits(h: hash, count: nat, b: nat)
    requires count > 1
  {
    exists k: nat :: k < count && Probe(h, count, k) == b
  }

  /** The first `count` buckets of a chain are pairwise different, and every bucket is one of them. */
  ghost predicate VisitsAllOnce(h: hash, count: nat)
    requires count > 1
  {
    (forall i, j :: 0 <= i < j < count ==> Probe(h, count, i) != Probe(h, count, j)) &&
    (forall b: nat :: b < count ==> Visits(h, count, b))
  }

  /** With a prime number of buckets the chain of every hash visits every bucket exactly once in its first
      `count` steps. */
  lemma PrimeChainVisitsAll(h: hash, count: nat)
    requires Prime(count)
    ensures VisitsAllOnce(h, count)
  {
    var start, step := ChainStart(h, count), ChainIncrement(h, count);
    PrimeWalk(start, step, count);
    forall i, j | 0 <= i < j < count
      ensures Probe(h, count, i) != Probe(h, count, j)
    {
      ProbeIsWalk(h, count, i);
      ProbeIsWalk(h, count, j);
    }
    forall b: nat | b < count
      ensures Visits(h, count, b)
    {
      var k := RoundReachesAll(start, step, count, b);
      ProbeIsWalk(h, count, k);
    }
  }

  /** Rotation loses nothing: every 32-bit value is the rotation of some hash. */
  lemma RotateBack(r: hash) returns (h: hash)
    ensures Rotated(h) == r
  {
    var low, high := r % 0x200_0000, r / 0x200_0000;
    h := low * 0x80 + high;
    assert h / 0x80 == low && h % 0x80 == high;
  }

  lemma SmallRemainder(x: nat, m: nat)
    requires x < m
    ensures x % m == x
  {}

  /** With a composite number of buckets some hash comes back to a bucket too early. */
  lemma CompositeChainRepeats(count: nat, d: nat) returns (h: hash)
    requires 2 <= d < count <= 0x1_0000_0000 && count % d == 0
    ensures !VisitsAllOnce(h, count)
  {
    h := RotateBack(d - 1);
    SmallRemainder(d - 1, count - 1);
    var k := CompositeWalk(ChainStart(h, count), d, count);
    ProbeIsWalk(h, count, 0);
    ProbeIsWalk(h, count, k);
    assert Probe(h, count, 0) == Probe(h, count, k);
  }

  /** Prime bucket counts are exactly those with which every hash reaches every bucket once a round. */
  lemma ChainsVisitAllIffPrime(count: nat)
    requires 2 <= count <= 0x1_0000_0000
    ensures Prime(count) <==> forall h :: VisitsAllOnce(h, count)
  {
    if Prime(count) {
      forall h
        ensures VisitsAllOnce(h, count)
      {
        PrimeChainVisitsAll(h, count);
      }
    } else {
      var d :| 2 <= d < count && count % d == 0;
      var h := CompositeChainRepeats(count, d);
    }
  }
}
