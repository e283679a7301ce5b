/** The bit masks of bitops.h: ids as bits of an array of 32-bit words, and the set of ids they stand for. */
module Bitmask {
  import opened Binary

  // --- One word ----------------------------------------------------------------------------------

  function Not(x: word): word { !x }

  /** BIT_MASK, `1 << b` for a bit b within a word, as b doublings. */
  function Mask(b: nat): word
    requires b < 32
    decreases b
  {
    if b == 0 then 1 else Doubled(Mask(b - 1))
  }

  predicate Bit(w: word, b: nat)
    requires b < 32
  {
    And(w, Mask(b)) != 0
  }

  lemma OneAndDoubled(x: word)
    ensures And(1, Doubled(x)) == 0
  {}

  lemma DoubledAnd(x: word, y: word)
    ensures And(x, y) == 0 ==> And(Doubled(x), Doubled(y)) == 0
  {}

  lemma {:induction false} MasksAreDisjoint(b: nat, c: nat)
    requires b < c < 32
    ensures And(Mask(b), Mask(c)) == 0
  {
    if b == 0 {
      OneAndDoubled(Mask(c - 1));
    } else {
      MasksAreDisjoint(b - 1, c - 1);
      DoubledAnd(Mask(b - 1), Mask(c - 1));
    }
  }

  lemma DoubledIsABit(w: word, m: word)
    ensures And(Halved(w), m) == 0 ==> And(w, Doubled(m)) == 0
    ensures And(Halved(w), m) == m ==> And(w, Doubled(m)) == Doubled(m)
  {}

  lemma OneIsABit(w: word)
    ensures And(w, 1) == 0 || And(w, 1) == 1
  {}

  lemma {:induction false} MaskIsABit(w: word, b: nat)
    requires b < 32
    ensures And(w, Mask(b)) == 0 || And(w, Mask(b)) == Mask(b)
  {
    if b == 0 {
      OneIsABit(w);
    } else {
      MaskIsABit(Halved(w), b - 1);
      DoubledIsABit(w, Mask(b - 1));
    }
  }

  lemma DoubledZero(m: word)
    ensures m == 0 ==> Doubled(m) == 0
  {}

  lemma {:induction false} MaskIsNotZero(b: nat)
    requires b < 32
    ensures Mask(b) != 0
    decreases 31 - b
  {
    if b < 31 {
      MaskIsNotZero(b + 1);
      DoubledZero(Mask(b));
    } else {
      TopMask();
    }
  }

  lemma TopMask()
    ensures Mask(31) == 0x8000_0000
  {
    assert Mask(7) == 0x80;
    assert Mask(15) == 0x8000;
    assert Mask(23) == 0x80_0000;
  }

  lemma AndOne(w: word)
    ensures And(w, 1) == Digit(w)
  {}

  lemma BitOfHalf(w: word, b: nat)
    requires 0 < b < 32
    ensures Bit(w, b) <==> Bit(Halved(w), b - 1)
  {
    MaskIsABit(Halved(w), b - 1);
    MaskIsNotZero(b - 1);
    MaskIsNotZero(b);
    DoubledIsABit(w, Mask(b - 1));
  }

  lemma BitOfUnit(w: word)
    ensures Bit(w, 0) <==> w as int % 2 == 1
  {
    AndOne(w);
    Digits(w, w);
    HalfOf(w);
  }

  /** A bit of a word is a digit of its value. */
  lemma {:induction false} BitIsDigit(w: word, b: nat)
    requires b < 32
    ensures Bit(w, b) <==> BitAt(w as int, b)
    decreases b
  {
    if b == 0 {
      BitOfUnit(w);
    } else {
      BitOfHalf(w, b);
      HalfOf(w);
      BitIsDigit(Halved(w), b - 1);
    }
  }

  lemma OrAnd(w: word, m: word, k: word)
    ensures And(Or(w, m), m) == m
    ensures And(m, k) == 0 ==> And(Or(w, m), k) == And(w, k)
  {}

  lemma AndNotAnd(w: word, m: word, k: word)
    ensures And(And(w, Not(m)), m) == 0
    ensures And(m, k) == 0 ==> And(And(w, Not(m)), k) == And(w, k)
  {}

  lemma NotAnd(w: word, m: word)
    ensures And(w, m) == 0 ==> And(Not(w), m) == m
    ensures And(w, m) == m ==> And(Not(w), m) == 0
  {}

  lemma AndCommutes(x: word, y: word)
    ensures And(x, y) == And(y, x)
  {}

  lemma Apart(b: nat, c: nat)
    requires b < 32 && c < 32 && b != c
    ensures And(Mask(b), Mask(c)) == 0
  {
    if b < c {
      MasksAreDisjoint(b, c);
    } else {
      MasksAreDisjoint(c, b);
      AndCommutes(Mask(b), Mask(c));
    }
  }

  lemma SetBit(w: word, b: nat, c: nat)
    requires b < 32 && c < 32
    ensures Bit(Or(w, Mask(b)), c) <==> Bit(w, c) || b == c
  {
    MaskIsNotZero(b);
    OrAnd(w, Mask(b), Mask(c));
    if b != c { Apart(b, c); }
  }

  lemma ClearBit(w: word, b: nat, c: nat)
    requires b < 32 && c < 32
    ensures Bit(And(w, Not(Mask(b))), c) <==> Bit(w, c) && b != c
  {
    AndNotAnd(w, Mask(b), Mask(c));
    if b != c { Apart(b, c); }
  }

  lemma ComplementBit(w: word, b: nat)
    requires b < 32
    ensures Bit(Not(w), b) <==> !Bit(w, b)
  {
    MaskIsABit(w, b);
    MaskIsNotZero(b);
    NotAnd(w, Mask(b));
  }

  /** ffs: one more than the place of the least bit set from b on, or 0. */
  function Ffs(w: word, b: nat): (r: nat)
    requires b <= 32
    ensures r <= 32 && (r == 0 || (b < r && Bit(w, r - 1)))
    ensures forall c :: b <= c < (if r == 0 then 32 else r - 1) ==> !Bit(w, c)
    decreases 32 - b
  {
    if b == 32 then 0 else if Bit(w, b) then b + 1 else Ffs(w, b + 1)
  }

  /** popcount of the bits below n. */
  function Popcount(w: word, n: nat): nat
    requires n <= 32
  {
    if n == 0 then 0 else Popcount(w, n - 1) + if Bit(w, n - 1) then 1 else 0
  }

  // --- The words ---------------------------------------------------------------------------------

  function BitsToWords(bits: nat): nat { (bits + 31) / 32 }

  /** The least number of words with room for that many bits. */
  lemma WordsAreJustEnough(bits: nat, n: nat)
    ensures BitsToWords(bits) <= n <==> bits <= 32 * n
  {}

  predicate Live(words: seq<word>, id: nat) {
    id / 32 < |words| && Bit(words[id / 32], id % 32)
  }

  /** An id is live if it is one of the digits, taken from all words, that are set. */
  lemma LiveIsDigit(words: seq<word>, id: nat)
    ensures Live(words, id) <==> id / 32 < |words| && BitAt(words[id / 32] as int, id % 32)
  {
    if id / 32 < |words| { BitIsDigit(words[id / 32], id % 32); }
  }

  /** The ids below n that are set. */
  ghost function Ids(words: seq<word>, n: nat): (r: set<nat>)
    ensures forall id: nat :: id in r <==> id < n && Live(words, id)
  {
    set id: nat | id < n && Live(words, id)
  }

  method Init(mask: array<word>, numBits: nat)
    requires BitsToWords(numBits) <= mask.Length
    modifies mask
    ensures forall id: nat :: Live(mask[..], id) <==> id >= 32 * BitsToWords(numBits) && Live(old(mask[..]), id)
  {
    ghost var was := mask[..];
    forall i | 0 <= i < BitsToWords(numBits) {
      mask[i] := 0;
    }
    forall id: nat
      ensures Live(mask[..], id) <==> id >= 32 * BitsToWords(numBits) && Live(was, id)
    {
      if id < 32 * BitsToWords(numBits) {
        NoBits(id % 32);
      } else if id / 32 < mask.Length {
        assert mask[id / 32] == was[id / 32];
      }
    }
  }

  lemma NoBits(b: nat)
    requires b < 32
    ensures !Bit(0, b)
  {
    AndZero(Mask(b));
  }

  lemma AndZero(x: word)
    ensures And(0, x) == 0
  {}

  /** The least id below numBits that is not set, or -1 if all are. */
  method Ffz(mask: array<word>, numBits: nat) returns (result: int)
    requires BitsToWords(numBits) <= mask.Length
    ensures -1 <= result < numBits
    ensures result >= 0 ==> !Live(mask[..], result)
    ensures forall id: nat :: id < (if result == -1 then numBits else result) ==> Live(mask[..], id)
  {
    var i := 0;
    while i < BitsToWords(numBits)
      invariant i <= BitsToWords(numBits)
      invariant forall id: nat :: id < 32 * i ==> Live(mask[..], id)
    {
      var bit := Ffs(Not(mask[i]), 0);
      AllLiveBefore(mask[..], i, if bit == 0 then 32 else bit - 1);
      if bit != 0 {
        ComplementBit(mask[i], bit - 1);
        result := 32 * i + (bit - 1);
        if result >= numBits {
          return -1;
        }
        return;
      }
      i := i + 1;
    }
    return -1;
  }

  /** Where ffs of the complement has found no bit, all are set. */
  lemma AllLiveBefore(words: seq<word>, i: nat, n: nat)
    requires i < |words| && n <= 32 && forall b: nat :: b < n ==> !Bit(Not(words[i]), b)
    ensures forall id: nat :: 32 * i <= id < 32 * i + n ==> Live(words, id)
  {
    forall id: nat | 32 * i <= id < 32 * i + n
      ensures Live(words, id)
    {
      assert id / 32 == i && id % 32 == id - 32 * i;
      ComplementBit(words[i], id % 32);
    }
  }

  method Set(mask: array<word>, bit: nat)
    requires bit / 32 < mask.Length
    modifies mask
    ensures forall id: nat :: Live(mask[..], id) <==> id == bit || Live(old(mask[..]), id)
  {
    ghost var was := mask[..];
    mask[bit / 32] := Or(mask[bit / 32], Mask(bit % 32));
    forall id: nat
      ensures Live(mask[..], id) <==> id == bit || Live(was, id)
    {
      SameId(id, bit);
      if id / 32 == bit / 32 { SetBit(was[id / 32], bit % 32, id % 32); }
    }
  }

  method Clear(mask: array<word>, bit: nat)
    requires bit / 32 < mask.Length
    modifies mask
    ensures forall id: nat :: Live(mask[..], id) <==> id != bit && Live(old(mask[..]), id)
  {
    ghost var was := mask[..];
    mask[bit / 32] := And(mask[bit / 32], Not(Mask(bit % 32)));
    forall id: nat
      ensures Live(mask[..], id) <==> id != bit && Live(was, id)
    {
      SameId(id, bit);
      if id / 32 == bit / 32 { ClearBit(was[id / 32], bit % 32, id % 32); }
    }
  }

  lemma SameId(id: nat, bit: nat)
    ensures id == bit <==> id / 32 == bit / 32 && id % 32 == bit % 32
  {}

  method Test(mask: array<word>, bit: nat) returns (live: bool)
    requires bit / 32 < mask.Length
    ensures live <==> Live(mask[..], bit)
  {
    live := And(mask[bit / 32], Mask(bit % 32)) != 0;
  }

  // --- Weight ------------------------------------------------------------------------------------

  /** The number of ids in the words that numBits takes up. */
  method Weight(mask: array<word>, numBits: nat) returns (weight: nat)
    requires BitsToWords(numBits) <= mask.Length
    ensures weight == |Ids(mask[..], 32 * BitsToWords(numBits))|
  {
    var i := 0;
    weight := 0;
    while i < BitsToWords(numBits)
      invariant i <= BitsToWords(numBits) && weight == |Ids(mask[..], 32 * i)|
    {
      weight := weight + Popcount(mask[i], 32);
      PopcountCounts(mask[..], i, 32);
      i := i + 1;
    }
  }

  lemma OneMoreId(words: seq<word>, id: nat)
    ensures |Ids(words, id + 1)| == |Ids(words, id)| + if Live(words, id) then 1 else 0
  {
    assert Ids(words, id + 1) == Ids(words, id) + if Live(words, id) then {id} else {};
  }

  lemma {:induction false} PopcountCounts(words: seq<word>, i: nat, n: nat)
    requires i < |words| && n <= 32
    ensures |Ids(words, 32 * i + n)| == |Ids(words, 32 * i)| + Popcount(words[i], n)
  {
    if n > 0 {
      var id := 32 * i + (n - 1);
      PopcountCounts(words, i, n - 1);
      OneMoreId(words, id);
      assert id / 32 == i && id % 32 == n - 1;
    }
  }

  /** The weight is the number of live ids below numBits exactly if no id beyond it has been set in the last
      word. */
  lemma WeightIsExact(words: seq<word>, numBits: nat)
    ensures |Ids(words, 32 * BitsToWords(numBits))| == |Ids(words, numBits)| <==>
            forall id: nat :: numBits <= id < 32 * BitsToWords(numBits) ==> !Live(words, id)
  {
    var all, some := Ids(words, 32 * BitsToWords(numBits)), Ids(words, numBits);
    var stray := all - some;
    assert all == some + stray && some !! stray;
    if stray != {} {
      var id :| id in stray;
      assert numBits <= id < 32 * BitsToWords(numBits) && Live(words, id);
    } else {
      assert forall id: nat :: numBits <= id < 32 * BitsToWords(numBits) && Live(words, id) ==> id in stray;
    }
  }

  // --- Allocating ids ----------------------------------------------------------------------------

  datatype Op = Allocate | SetId(id: nat) | ClearId(id: nat)

  ghost function FirstFree(ids: set<nat>, from: nat, numBits: nat): (r: int)
    ensures r == -1 || (from <= r < numBits && r !in ids)
    ensures forall id: nat :: from <= id < (if r == -1 then numBits else r) ==> id in ids
    decreases numBits - from
  {
    if from >= numBits then -1 else if from !in ids then from else FirstFree(ids, from + 1, numBits)
  }

  ghost function NextIds(numBits: nat, ids: set<nat>, op: Op): set<nat> {
    match op
    case Allocate => var r := FirstFree(ids, 0, numBits); if r == -1 then ids else ids + {r as nat}
    case SetId(id) => ids + {id}
    case ClearId(id) => ids - {id}
  }

  /** The live ids after a run of calls on a mask that has been initialised. */
  ghost function Run(numBits: nat, ops: seq<Op>): set<nat> {
    if ops == [] then {} else NextIds(numBits, Run(numBits, ops[..|ops| - 1]), ops[|ops| - 1])
  }

  /** What the allocation at place i of a run hands out. */
  ghost function HandedOut(numBits: nat, ops: seq<Op>, i: nat): int
    requires i <= |ops|
  {
    FirstFree(Run(numBits, ops[..i]), 0, numBits)
  }

  ghost predicate InRange(numBits: nat, ops: seq<Op>) {
    forall i :: 0 <= i < |ops| ==> ops[i].Allocate? || ops[i].id < numBits
  }

  lemma {:induction false} RunStaysInRange(numBits: nat, ops: seq<Op>)
    requires InRange(numBits, ops)
    ensures forall id: nat :: id in Run(numBits, ops) ==> id < numBits
  {
    if ops != [] {
      RunStaysInRange(numBits, ops[..|ops| - 1]);
    }
  }

  /** An id is handed out again only if it has been cleared in between. */
  lemma LiveIdsAreNotHandedOut(numBits: nat, ops: seq<Op>, i: nat, j: nat)
    requires i < j < |ops| && ops[i].Allocate? && HandedOut(numBits, ops, i) == HandedOut(numBits, ops, j) != -1
    ensures exists k :: i < k < j && ops[k] == ClearId(HandedOut(numBits, ops, i))
  {
    var id := HandedOut(numBits, ops, i);
    if forall k :: i < k < j ==> ops[k] != ClearId(id) {
      StaysLive(numBits, ops, i, j, id);
    }
  }

  lemma {:induction false} StaysLive(numBits: nat, ops: seq<Op>, i: nat, j: nat, id: nat)
    requires i < j <= |ops| && ops[i].Allocate? && HandedOut(numBits, ops, i) == id
    requires forall k :: i < k < j ==> ops[k] != ClearId(id)
    ensures id in Run(numBits, ops[..j])
    decreases j
  {
    assert ops[..j][..j - 1] == ops[..j - 1];
    if i < j - 1 {
      StaysLive(numBits, ops, i, j - 1, id);
    }
  }

  lemma UniqueFirstFree(ids: set<nat>, numBits: nat, r: int)
    requires -1 <= r < numBits && (r >= 0 ==> r !in ids)
    requires forall id: nat :: id < (if r == -1 then numBits else r) ==> id in ids
    ensures r == FirstFree(ids, 0, numBits)
  {}

  /** ffz, then set. */
  method AllocateId(mask: array<word>, numBits: nat) returns (r: int)
    requires BitsToWords(numBits) <= mask.Length
    modifies mask
    ensures r == FirstFree(Ids(old(mask[..]), 32 * BitsToWords(numBits)), 0, numBits)
    ensures forall id: nat :: Live(mask[..], id) <==> id == r || Live(old(mask[..]), id)
  {
    ghost var ids := Ids(mask[..], 32 * BitsToWords(numBits));
    r := Ffz(mask, numBits);
    forall id: nat | id < (if r == -1 then numBits else r)
      ensures id in ids
    {
      assert Live(mask[..], id);
    }
    UniqueFirstFree(ids, numBits, r);
    if r >= 0 {
      Set(mask, r);
    }
  }

  /** A run of calls on a new mask, with ids below numBits only: the mask holds the ids of the run, and they
      are what its weight counts. */
  method Replay(mask: array<word>, numBits: nat, ops: seq<Op>) returns (weight: nat)
    requires BitsToWords(numBits) <= mask.Length && InRange(numBits, ops)
    modifies mask
    ensures Ids(mask[..], 32 * BitsToWords(numBits)) == Run(numBits, ops) == Ids(mask[..], numBits)
    ensures weight == |Run(numBits, ops)|
  {
    Init(mask, numBits);
    ghost var n := 32 * BitsToWords(numBits);
    for i := 0 to |ops|
      invariant Ids(mask[..], n) == Run(numBits, ops[..i])
    {
      assert ops[..i + 1][..i] == ops[..i];
      match ops[i]
      case Allocate => var _ := AllocateId(mask, numBits);
      case SetId(id) => Set(mask, id);
      case ClearId(id) => Clear(mask, id);
    }
    assert ops[..|ops|] == ops;
    RunStaysInRange(numBits, ops);
    assert forall id: nat :: id in Ids(mask[..], numBits) <==> id in Ids(mask[..], n);
    weight := Weight(mask, numBits);
  }
}
