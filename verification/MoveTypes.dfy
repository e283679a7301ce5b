/** Moving n objects between two ranges of one block of storage, which may overlap, as TypeHelpers.h does:
    by memmove, or object by object from the far end or from the near one. */
module MoveTypes {
  import opened Storage

  datatype Traits = Traits(trivialDtor: bool, trivialCopy: bool, trivialMove: bool)

  /** The slots on which copy constructors and destructors have run, in order. */
  datatype Calls = Calls(constructed: seq<nat>, destroyed: seq<nat>)

  predicate UsesMemmove(traits: Traits) { (traits.trivialDtor && traits.trivialCopy) || traits.trivialMove }

  /** Both ranges lie in the block, the source is live, and the rest of the destination is raw. */
  ghost predicate Movable<T>(mem: seq<Slot<T>>, d: nat, s: nat, n: nat) {
    d + n <= |mem| && s + n <= |mem| &&
    forall j :: 0 <= j < |mem| ==>
      (s <= j < s + n ==> mem[j].Live?) && (d <= j < d + n && !(s <= j < s + n) ==> mem[j].Raw?)
  }

  /** The objects from lo up to hi have been moved: their destination has them, what else they occupied is
      raw, and nothing else has changed. */
  ghost function Moved<T>(mem: seq<Slot<T>>, d: nat, s: nat, lo: nat, hi: nat): (r: seq<Slot<T>>)
    requires d + hi <= |mem| && s + hi <= |mem| && lo <= hi
  {
    seq(|mem|, j requires 0 <= j < |mem| =>
      if d + lo <= j < d + hi then mem[s + j - d] else if s + lo <= j < s + hi then Raw else mem[j])
  }

  method Memmove<T>(mem: array<Slot<T>>, d: nat, s: nat, n: nat)
    requires Movable(mem[..], d, s, n)
    modifies mem
    ensures mem[..] == Moved(old(mem[..]), d, s, 0, n)
  {
    ghost var was := mem[..];
    var copy := mem[s..s + n];
    forall j | s <= j < s + n {
      mem[j] := Raw;
    }
    forall j | d <= j < d + n {
      mem[j] := copy[j - d];
    }
    ghost var target := Moved(was, d, s, 0, n);
    forall j | 0 <= j < mem.Length
      ensures mem[j] == target[j]
    {}
  }

  /** What runs when objects are moved from the slots ss to the slots ds, in this order. */
  ghost function CallsOf(traits: Traits, ds: seq<nat>, ss: seq<nat>): Calls {
    if UsesMemmove(traits) then Calls([], [])
    else Calls(if traits.trivialCopy then [] else ds, if traits.trivialDtor then [] else ss)
  }

  /** One object: `*d = *s` or a copy constructor, then the destructor of the source unless it is trivial.  An
      object whose destructor is trivial is simply given up.  It goes wrong if the slot is in use. */
  method MoveOne<T>(mem: array<Slot<T>>, d: nat, s: nat, traits: Traits, ghost ds: seq<nat>, ghost ss: seq<nat>,
                    ghost calls: Calls)
      returns (ok: bool, ghost after: Calls)
    requires d < mem.Length && s < mem.Length && mem[s].Live?
    requires !UsesMemmove(traits) && calls == CallsOf(traits, ds, ss)
    modifies mem
    ensures ok == old(mem[d]).Raw?
    ensures ok ==> mem[..] == old(mem[..])[d := old(mem[s])][s := Raw]
    ensures ok ==> after == CallsOf(traits, ds + [d], ss + [s])
  {
    after := calls;
    if mem[d].Live? {
      return false, after;
    }
    mem[d] := mem[s];
    if !traits.trivialCopy {
      after := after.(constructed := after.constructed + [d]);
    }
    mem[s] := Raw;
    if !traits.trivialDtor {
      after := after.(destroyed := after.destroyed + [s]);
    }
    ok := true;
  }

  ghost function Upward(from: nat, n: nat): (r: seq<nat>)
    ensures |r| == n && forall i :: 0 <= i < n ==> r[i] == from + i
  {
    seq(n, i requires 0 <= i < n => from + i)
  }

  ghost function Downward(from: nat, lo: nat, hi: nat): (r: seq<nat>)
    requires lo <= hi
    ensures |r| == hi - lo && forall i :: 0 <= i < hi - lo ==> r[i] == from + hi - 1 - i
  {
    seq(hi - lo, i requires 0 <= i < hi - lo => from + hi - 1 - i)
  }

  // One more object, from either end.

  lemma StepDown<T>(mem: seq<Slot<T>>, d: nat, s: nat, k: nat, n: nat)
    requires Movable(mem, d, s, n) && k < n && (s < d || d + n <= s)
    ensures var m := Moved(mem, d, s, k + 1, n);
            m[d + k].Raw? && m[s + k].Live? && m[d + k := m[s + k]][s + k := Raw] == Moved(mem, d, s, k, n)
  {}

  lemma StepUp<T>(mem: seq<Slot<T>>, d: nat, s: nat, k: nat, n: nat)
    requires Movable(mem, d, s, n) && k < n && (d < s || s + n <= d)
    ensures var m := Moved(mem, d, s, 0, k);
            m[d + k].Raw? && m[s + k].Live? && m[d + k := m[s + k]][s + k := Raw] == Moved(mem, d, s, 0, k + 1)
  {}

  /** Nothing moved yet. */
  lemma NoneMoved<T>(mem: seq<Slot<T>>, d: nat, s: nat, k: nat)
    requires d + k <= |mem| && s + k <= |mem|
    ensures Moved(mem, d, s, k, k) == mem
  {}

  lemma DownwardStep(from: nat, k: nat, n: nat)
    requires k < n
    ensures Downward(from, k, n) == Downward(from, k + 1, n) + [from + k]
  {}

  lemma UpwardStep(from: nat, k: nat)
    ensures Upward(from, k + 1) == Upward(from, k) + [from + k]
  {}

  /** The object at place k from the far end, behind which all have been moved. */
  method MoveLower<T>(mem: array<Slot<T>>, d: nat, s: nat, k: nat, n: nat, traits: Traits,
                      ghost was: seq<Slot<T>>, ghost calls: Calls)
      returns (ok: bool, ghost after: Calls)
    requires Movable(was, d, s, n) && k < n && (k + 1 < n ==> s < d || d + n <= s) && !UsesMemmove(traits)
    requires mem[..] == Moved(was, d, s, k + 1, n)
    requires calls == CallsOf(traits, Downward(d, k + 1, n), Downward(s, k + 1, n))
    modifies mem
    ensures ok <==> s < d || d + n <= s
    ensures ok ==> mem[..] == Moved(was, d, s, k, n)
    ensures ok ==> after == CallsOf(traits, Downward(d, k, n), Downward(s, k, n))
  {
    if s < d || d + n <= s { StepDown(was, d, s, k, n); }
    assert mem[d + k] == mem[..][d + k] && mem[s + k] == mem[..][s + k];
    DownwardStep(d, k, n);
    DownwardStep(s, k, n);
    ok, after := MoveOne(mem, d + k, s + k, traits, Downward(d, k + 1, n), Downward(s, k + 1, n), calls);
  }

  /** From the far end.  `ok` says that every copy went to a raw slot; the objects arrive exactly when the
      ranges do not overlap or the destination lies ahead. */
  method MoveForward<T>(mem: array<Slot<T>>, d: nat, s: nat, n: nat, traits: Traits)
      returns (ok: bool, ghost calls: Calls)
    requires Movable(mem[..], d, s, n)
    modifies mem
    ensures ok <==> (traits.trivialDtor && traits.trivialCopy) || traits.trivialMove || n == 0 || s < d || d + n <= s
    ensures ok ==> mem[..] == Moved(old(mem[..]), d, s, 0, n)
    ensures ok ==> calls.constructed == if traits.trivialCopy || traits.trivialMove then [] else Downward(d, 0, n)
    ensures ok ==> calls.destroyed == if traits.trivialDtor || traits.trivialMove then [] else Downward(s, 0, n)
  {
    ok, calls := true, Calls([], []);
    if UsesMemmove(traits) {
      Memmove(mem, d, s, n);
      return;
    }
    ghost var was := mem[..];
    var k := n;
    NoneMoved(was, d, s, n);
    while k != 0
      invariant ok && 0 <= k <= n && (k < n ==> s < d || d + n <= s)
      invariant mem[..] == Moved(was, d, s, k, n)
      invariant calls == CallsOf(traits, Downward(d, k, n), Downward(s, k, n))
    {
      k := k - 1;
      ok, calls := MoveLower(mem, d, s, k, n, traits, was, calls);
      if !ok {
        return;
      }
    }
  }

  /** The object at place k from the near end, before which all have been moved. */
  method MoveHigher<T>(mem: array<Slot<T>>, d: nat, s: nat, k: nat, n: nat, traits: Traits,
                       ghost was: seq<Slot<T>>, ghost calls: Calls)
      returns (ok: bool, ghost after: Calls)
    requires Movable(was, d, s, n) && k < n && (0 < k ==> d < s || s + n <= d) && !UsesMemmove(traits)
    requires mem[..] == Moved(was, d, s, 0, k)
    requires calls == CallsOf(traits, Upward(d, k), Upward(s, k))
    modifies mem
    ensures ok <==> d < s || s + n <= d
    ensures ok ==> mem[..] == Moved(was, d, s, 0, k + 1)
    ensures ok ==> after == CallsOf(traits, Upward(d, k + 1), Upward(s, k + 1))
  {
    if d < s || s + n <= d { StepUp(was, d, s, k, n); }
    assert mem[d + k] == mem[..][d + k] && mem[s + k] == mem[..][s + k];
    UpwardStep(d, k);
    UpwardStep(s, k);
    ok, after := MoveOne(mem, d + k, s + k, traits, Upward(d, k), Upward(s, k), calls);
  }

  /** From the near end: the same, if the ranges do not overlap or the destination lies behind. */
  method MoveBackward<T>(mem: array<Slot<T>>, d: nat, s: nat, n: nat, traits: Traits)
      returns (ok: bool, ghost calls: Calls)
    requires Movable(mem[..], d, s, n)
    modifies mem
    ensures ok <==> (traits.trivialDtor && traits.trivialCopy) || traits.trivialMove || n == 0 || d < s || s + n <= d
    ensures ok ==> mem[..] == Moved(old(mem[..]), d, s, 0, n)
    ensures ok ==> calls.constructed == if traits.trivialCopy || traits.trivialMove then [] else Upward(d, n)
    ensures ok ==> calls.destroyed == if traits.trivialDtor || traits.trivialMove then [] else Upward(s, n)
  {
    ok, calls := true, Calls([], []);
    if UsesMemmove(traits) {
      Memmove(mem, d, s, n);
      return;
    }
    ghost var was := mem[..];
    var k := 0;
    NoneMoved(was, d, s, 0);
    while k != n
      invariant ok && k <= n && (0 < k ==> d < s || s + n <= d)
      invariant mem[..] == Moved(was, d, s, 0, k)
      invariant calls == CallsOf(traits, Upward(d, k), Upward(s, k))
    {
      ok, calls := MoveHigher(mem, d, s, k, n, traits, was, calls);
      if !ok {
        return;
      }
      k := k + 1;
    }
  }

  // --- What moving means -------------------------------------------------------------------------

  /** The destination holds the objects in their order, and no slot of either range is live but those of the
      destination; slots outside the two stay as they are. */
  lemma DestinationIsLive<T>(mem: seq<Slot<T>>, d: nat, s: nat, n: nat)
    requires Movable(mem, d, s, n)
    ensures Moved(mem, d, s, 0, n)[d..d + n] == mem[s..s + n]
    ensures forall j :: (d <= j < d + n || s <= j < s + n) ==> (Moved(mem, d, s, 0, n)[j].Live? <==> d <= j < d + n)
    ensures |Moved(mem, d, s, 0, n)| == |mem|
    ensures forall j :: 0 <= j < |mem| && !(d <= j < d + n || s <= j < s + n) ==> Moved(mem, d, s, 0, n)[j] == mem[j]
  {}

  /** Moving loses nothing: moving back restores every slot. */
  lemma MoveBackRestores<T>(mem: seq<Slot<T>>, d: nat, s: nat, n: nat)
    requires Movable(mem, d, s, n)
    ensures var there := Moved(mem, d, s, 0, n);
            Movable(there, s, d, n) && Moved(there, s, d, 0, n) == mem
  {
    var there := Moved(mem, d, s, 0, n);
    var back := Moved(there, s, d, 0, n);
    forall j | 0 <= j < |mem|
      ensures back[j] == mem[j]
    {
      if s <= j < s + n { assert there[d + j - s] == mem[j]; }
    }
  }
}
