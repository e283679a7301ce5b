/** Walking around a ring of `count` places in equal steps. */
module Residues {
  import opened FiniteSets

  // --- Divisibility ------------------------------------------------------------------------------

  ghost predicate Divides(d: int, n: int)
    requires d > 0
  {
    exists q :: n == Times(d, q)
  }

  function Times(x: int, y: int): int { x * y }

  ghost predicate Prime(p: nat) { p >= 2 && forall d :: 2 <= d < p ==> p % d != 0 }

  lemma DividesDifference(d: int, m: int, n: int)
    requires d > 0 && Divides(d, m) && Divides(d, n)
    ensures Divides(d, m - n)
  {
    var q, r :| m == Times(d, q) && n == Times(d, r);
    assert d * q - d * r == d * (q - r);
    assert m - n == Times(d, q - r);
  }

  lemma DividesMultiple(d: int, n: int, c: int)
    requires d > 0 && Divides(d, n)
    ensures Divides(d, c * n)
  {
    var q :| n == Times(d, q);
    assert c * (d * q) == d * (c * q);
    assert c * n == Times(d, c * q);
  }

  /** A prime that divides a product of a number below it divides the other factor. */
  lemma {:induction false} EuclidBelow(p: nat, a: nat, b: int)
    requires Prime(p) && 0 < a < p && Divides(p, a * b)
    ensures Divides(p, b)
    decreases a
  {
    if a == 1 {
      assert a * b == b;
    } else {
      var q, r := p / a, p % a;
      DividesMultiple(p, a * b, q);
      assert Divides(p, p * b) by { assert p * b == Times(p, b); }
      DividesDifference(p, p * b, q * (a * b));
      SplitProduct(p, a, q, r, b);
      EuclidBelow(p, r, b);
    }
  }

  lemma SplitProduct(p: int, a: int, q: int, r: int, b: int)
    requires p == a * q + r
    ensures p * b - q * (a * b) == r * b
  {
    assert (a * q + r) * b == (a * q) * b + r * b;
    assert (a * q) * b == q * (a * b);
  }

  lemma TimesAtLeast(d: int, q: int)
    requires d > 0
    ensures q >= 1 ==> Times(d, q) >= d
    ensures q <= -1 ==> Times(d, q) <= -d
    ensures Times(d, 0) == 0
  {
    if q >= 1 { assert d * (q - 1) >= 0; }
    if q <= -1 { assert d * (-1 - q) >= 0; }
  }

  lemma NoSmallMultiple(d: int, n: int)
    requires d > 0 && Divides(d, n) && -d < n < d
    ensures n == 0
  {
    var q :| n == Times(d, q);
    TimesAtLeast(d, q);
  }

  // --- The walk ----------------------------------------------------------------------------------

  function Walk(start: nat, step: nat, count: nat, k: nat): nat
    requires count > 0
  {
    if k == 0 then start else (Walk(start, step, count, k - 1) + step) % count
  }

  lemma {:induction false} WalkIsLinear(start: nat, step: nat, count: nat, k: nat)
    requires start < count
    ensures Walk(start, step, count, k) < count
    ensures Divides(count, start + k * step - Walk(start, step, count, k))
  {
    if k == 0 {
      assert start + 0 * step - start == Times(count, 0);
    } else {
      WalkIsLinear(start, step, count, k - 1);
      var x := Walk(start, step, count, k - 1);
      var q := (x + step) / count;
      assert x + step - (x + step) % count == Times(count, q);
      assert k * step == (k - 1) * step + step;
      var lhs := start + (k - 1) * step - x;
      DividesSum(count, lhs, x + step - (x + step) % count);
    }
  }

  lemma DividesSum(d: int, m: int, n: int)
    requires d > 0 && Divides(d, m) && Divides(d, n)
    ensures Divides(d, m + n)
  {
    var q, r :| m == Times(d, q) && n == Times(d, r);
    assert d * q + d * r == d * (q + r);
    assert m + n == Times(d, q + r);
  }

  lemma SameResidue(d: int, m: int, n: int, x: int, y: int)
    requires d > 0 && Divides(d, m - x) && Divides(d, n - y) && 0 <= x < d && 0 <= y < d
    ensures x == y <==> Divides(d, n - m)
  {
    DividesDifference(d, n - y, m - x);
    assert (n - y) - (m - x) == (n - m) - (y - x);
    if Divides(d, n - m) {
      DividesDifference(d, n - m, (n - m) - (y - x));
      assert (n - m) - ((n - m) - (y - x)) == y - x;
      NoSmallMultiple(d, y - x);
    }
  }

  /** The walk is at the same place after i and after j steps exactly when the steps between make whole
      rounds. */
  lemma WalkMeets(start: nat, step: nat, count: nat, i: nat, j: nat)
    requires start < count && i <= j
    ensures Walk(start, step, count, i) == Walk(start, step, count, j) <==> Divides(count, step * (j - i))
  {
    WalkIsLinear(start, step, count, i);
    WalkIsLinear(start, step, count, j);
    SameResidue(count, start + i * step, start + j * step,
                Walk(start, step, count, i), Walk(start, step, count, j));
    assert (start + j * step) - (start + i * step) == step * (j - i);
  }

  /** The first n places are pairwise different. */
  ghost predicate NoRepeats(start: nat, step: nat, count: nat, n: nat)
    requires count > 0
  {
    forall i, j :: 0 <= i < j < n ==> Walk(start, step, count, i) != Walk(start, step, count, j)
  }

  /** With a prime number of places and a step shorter than a round, the first round has no repeats. */
  lemma PrimeWalk(start: nat, step: nat, count: nat)
    requires Prime(count) && start < count && 0 < step < count
    ensures NoRepeats(start, step, count, count)
  {
    forall i, j | 0 <= i < j < count
      ensures Walk(start, step, count, i) != Walk(start, step, count, j)
    {
      WalkMeets(start, step, count, i, j);
      if Divides(count, step * (j - i)) {
        EuclidBelow(count, step, j - i);
        NoSmallMultiple(count, j - i);
      }
    }
  }

  lemma ExactQuotient(n: nat, d: nat) returns (k: nat)
    requires 2 <= d < n && n % d == 0
    ensures d * k == n && 0 < k < n
  {
    k := n / d;
    assert n == d * k + n % d;
    TimesAtLeast(k + 1, d - 1);
  }

  /** With a step that divides the number of places, it has. */
  lemma CompositeWalk(start: nat, step: nat, count: nat) returns (k: nat)
    requires start < count && 2 <= step < count && count % step == 0
    ensures 0 < k < count && Walk(start, step, count, 0) == Walk(start, step, count, k)
  {
    k := ExactQuotient(count, step);
    assert step * (k - 0) == Times(count, 1);
    WalkMeets(start, step, count, 0, k);
  }

  // --- Every place is reached --------------------------------------------------------------------

  function Reached(start: nat, step: nat, count: nat, n: nat): set<nat>
    requires count > 0
  {
    if n == 0 then {} else Reached(start, step, count, n - 1) + {Walk(start, step, count, n - 1)}
  }

  lemma {:induction false} ReachedAt(start: nat, step: nat, count: nat, n: nat, b: nat) returns (k: nat)
    requires count > 0 && b in Reached(start, step, count, n)
    ensures k < n && Walk(start, step, count, k) == b
  {
    if b == Walk(start, step, count, n - 1) {
      k := n - 1;
    } else {
      k := ReachedAt(start, step, count, n - 1, b);
    }
  }

  lemma {:induction false} ReachedSize(start: nat, step: nat, count: nat, n: nat)
    requires count > 0 && NoRepeats(start, step, count, n)
    ensures |Reached(start, step, count, n)| == n
  {
    if n > 0 {
      ReachedSize(start, step, count, n - 1);
      var last := Walk(start, step, count, n - 1);
      if last in Reached(start, step, count, n - 1) {
        var k := ReachedAt(start, step, count, n - 1, last);
      }
    }
  }

  function Below(n: nat): (s: set<nat>)
    ensures |s| == n && forall b: nat :: b in s <==> b < n
  {
    if n == 0 then {} else Below(n - 1) + {n - 1}
  }

  /** A round without repeats reaches every place. */
  lemma RoundReachesAll(start: nat, step: nat, count: nat, b: nat) returns (k: nat)
    requires start < count && NoRepeats(start, step, count, count) && b < count
    ensures k < count && Walk(start, step, count, k) == b
  {
    var s := Reached(start, step, count, count);
    forall x | x in s
      ensures x in Below(count)
    {
      var i := ReachedAt(start, step, count, count, x);
      WalkIsLinear(start, step, count, i);
    }
    ReachedSize(start, step, count, count);
    SubsetSize(s, Below(count));
    k := ReachedAt(start, step, count, count, b);
  }
}
