/** The circular list of List.h: nodes linked both ways around a sentinel that holds no value. */
module RingList {
  import opened Storage

  class Node<T> {
    var val: Slot<T>
    var prev: Node?<T>
    var next: Node?<T>
    ghost var freed: bool

    constructor (val: Slot<T>)
      ensures this.val == val && !freed
    {
      this.val, prev, next, freed := val, null, null, false;
    }

    // A node that has been deleted is neither read, nor written, nor deleted again.

    function GetNext(): Node?<T>
      requires !freed
      reads this
    {
      next
    }

    function GetPrev(): Node?<T>
      requires !freed
      reads this
    {
      prev
    }

    function GetVal(): T
      requires !freed && val.Live?
      reads this
    {
      val.value
    }

    method SetVal(v: T)
      requires !freed && val.Live?
      modifies this`val
      ensures val == Live(v)
    {
      val := Live(v);
    }

    method SetNext(p: Node<T>)
      requires !freed
      modifies this`next
      ensures next == p
    {
      next := p;
    }

    method SetPrev(p: Node<T>)
      requires !freed
      modifies this`prev
      ensures prev == p
    {
      prev := p;
    }

    method Delete()
      requires !freed
      modifies this`freed
      ensures freed
    {
      freed := true;
    }
  }

  // --- The ring ----------------------------------------------------------------------------------

  /** The node at a place: the place after the last one is the sentinel's again. */
  ghost function NodeAt<T>(ring: seq<Node<T>>, i: nat): Node<T>
    requires ring != [] && i <= |ring|
  {
    if i == |ring| then ring[0] else ring[i]
  }

  ghost predicate Apart<T>(ring: seq<Node<T>>, i: nat, j: nat)
    requires i < j < |ring|
  {
    ring[i] != ring[j]
  }

  ghost predicate NoRepeats<T>(ring: seq<Node<T>>) {
    forall i, j {:trigger Apart(ring, i, j)} :: 0 <= i < j < |ring| ==> Apart(ring, i, j)
  }

  /** Places 1 to |ring| hold different nodes, and so do places 0 to |ring| - 1. */
  lemma DifferAt<T>(ring: seq<Node<T>>, i: nat, j: nat)
    requires NoRepeats(ring) && i < j <= |ring| && (i > 0 || j < |ring|)
    ensures NodeAt(ring, i) != NodeAt(ring, j)
  {
    if j < |ring| {
      assert Apart(ring, i, j);
    } else {
      assert Apart(ring, 0, i);
    }
  }

  lemma SentinelAt<T>(ring: seq<Node<T>>, i: nat)
    requires NoRepeats(ring) && 0 < i <= |ring|
    ensures NodeAt(ring, i) == ring[0] <==> i == |ring|
  {
    if i < |ring| { assert Apart(ring, 0, i); }
  }

  /** No other place holds the node at place j. */
  lemma OnlyAt<T>(ring: seq<Node<T>>, j: nat)
    requires NoRepeats(ring) && 0 < j <= |ring|
    ensures forall i {:trigger NodeAt(ring, i)} :: 0 < i <= |ring| && i != j ==> NodeAt(ring, i) != NodeAt(ring, j)
  {
    forall i | 0 < i <= |ring| && i != j
      ensures NodeAt(ring, i) != NodeAt(ring, j)
    {
      if i < j { DifferAt(ring, i, j); } else { DifferAt(ring, j, i); }
    }
  }

  /** The node at a place is one of the list's, is not deleted, holds its value, and is linked with the next. */
  ghost predicate Sound<T>(ring: seq<Node<T>>, contents: seq<T>, nodes: set<Node<T>>, i: nat)
    requires i < |ring| == |contents| + 1
    reads nodes
  {
    ring[i] in nodes && NodeAt(ring, i + 1) in nodes &&
    !ring[i].freed && ring[i].val == (if i == 0 then Raw else Live(contents[i - 1])) &&
    ring[i].next == NodeAt(ring, i + 1) && NodeAt(ring, i + 1).prev == ring[i]
  }

  /** The ring around the sentinel: next and prev are inverses, and the values are those of the list. */
  ghost predicate Ring<T>(ring: seq<Node<T>>, contents: seq<T>, nodes: set<Node<T>>)
    reads nodes
  {
    |ring| == |contents| + 1 && NoRepeats(ring) &&
    forall i :: 0 <= i < |ring| ==> Sound(ring, contents, nodes, i)
  }

  ghost function Inserted<T>(s: seq<T>, i: nat, x: T): seq<T>
    requires i <= |s|
  {
    s[..i] + [x] + s[i..]
  }

  ghost function Without<T>(s: seq<T>, i: nat, j: nat): seq<T>
    requires i <= j <= |s|
  {
    s[..i] + s[j..]
  }

  ghost predicate Deleted<T>(ring: seq<Node<T>>, nodes: set<Node<T>>, i: nat)
    requires i < |ring|
    reads ring[i]
  {
    ring[i].freed && ring[i] !in nodes
  }

  /** The nodes from place i up to place j have been deleted: once each, as a deleted node cannot be again. */
  ghost predicate AllDeleted<T>(ring: seq<Node<T>>, nodes: set<Node<T>>, i: nat, j: nat)
    requires j <= |ring|
    reads ring
  {
    forall k {:trigger Deleted(ring, nodes, k)} :: i <= k < j ==> Deleted(ring, nodes, k)
  }

  /** The elements a up to b of t, put into s at place i. */
  ghost function Spliced<X>(s: seq<X>, i: nat, t: seq<X>, a: nat, b: nat): seq<X>
    requires i <= |s| && a <= b <= |t|
  {
    s[..i] + t[a..b] + s[i..]
  }

  // What these sequences are, place by place.

  lemma InsertedPlaces<X>(s: seq<X>, i: nat, x: X)
    requires i <= |s|
    ensures var r := Inserted(s, i, x); |r| == |s| + 1 && r[..i] == s[..i] && r[i] == x && r[i + 1..] == s[i..]
  {}

  lemma WithoutPlaces<X>(s: seq<X>, i: nat, j: nat)
    requires i <= j <= |s|
    ensures var r := Without(s, i, j); |r| == |s| - (j - i) && r[..i] == s[..i] && r[i..] == s[j..]
  {}

  lemma SplicedPlaces<X>(s: seq<X>, i: nat, t: seq<X>, a: nat, b: nat)
    requires i <= |s| && a <= b <= |t|
    ensures var r, n := Spliced(s, i, t, a, b), b - a;
            |r| == |s| + n && r[..i] == s[..i] && r[i..i + n] == t[a..b] && r[i + n..] == s[i..]
  {}

  lemma SplicedStep<X>(s: seq<X>, i: nat, t: seq<X>, a: nat, b: nat)
    requires i <= |s| && a <= b < |t|
    ensures Inserted(Spliced(s, i, t, a, b), i + b - a, t[b]) == Spliced(s, i, t, a, b + 1)
  {}

  lemma SplicedSnoc<X>(s: seq<X>, i: nat, t: seq<X>, x: X)
    requires i <= |s|
    ensures Inserted(Spliced(s, i, t, 0, |t|), i + |t|, x) == Spliced(s, i, t + [x], 0, |t| + 1)
  {}

  /** Where what was at place k is once m elements have been put in at place i. */
  ghost function Shifted(i: nat, m: nat, k: nat): nat { if k < i then k else k + m }

  lemma SplicedAt<T>(s: seq<Node<T>>, i: nat, t: seq<Node<T>>, k: nat)
    requires 0 < i <= |s| && 0 < k <= |s|
    ensures Shifted(i, |t|, k) <= |Spliced(s, i, t, 0, |t|)|
    ensures NodeAt(Spliced(s, i, t, 0, |t|), Shifted(i, |t|, k)) == NodeAt(s, k)
  {}

  lemma SplicedAfter<T>(s: seq<Node<T>>, i: nat, t: seq<Node<T>>)
    requires 0 < i <= |s|
    ensures NodeAt(Spliced(s, i, t, 0, |t|), i + |t|) == NodeAt(s, i)
  {}

  lemma SplicedKeeps<X>(s: seq<X>, i: nat, t: seq<X>, a: nat, b: nat, k: nat)
    requires i <= |s| && a <= b <= |t| && k < |s|
    ensures Spliced(s, i, t, a, b)[Shifted(i, b - a, k)] == s[k]
  {}

  lemma InsertedKeeps<T>(s: seq<Node<T>>, i: nat, k: nat)
    requires i <= |s| && k < |s|
    ensures forall x :: Inserted(s, i, x)[Shifted(i, 1, k)] == s[k]
  {}

  lemma InsertedAt<T>(s: seq<Node<T>>, i: nat, x: Node<T>, k: nat)
    requires 0 < i <= k <= |s|
    ensures NodeAt(Inserted(s, i, x), k + 1) == NodeAt(s, k)
  {}

  // A range of a list r, c, of which the values from place a up to place k have been put in at place i, as the
  // nodes `made`: where the next one is found, and what putting it in leaves.

  lemma OwnNodeBefore<T>(r: seq<Node<T>>, i: nat, made: seq<Node<T>>, k: nat, ring: seq<Node<T>>, q: nat)
    requires 0 < i <= |r| && 0 < k < |r| && ring == Spliced(r, i, made, 0, |made|) && q == Shifted(i, |made|, k)
    ensures 0 < q < |ring| && ring[q] == r[k] && i + |made| <= |ring|
    ensures NodeAt(ring, i + |made|) == NodeAt(r, i)
  {
    SplicedAt(r, i, made, k);
    SplicedAfter(r, i, made);
  }

  lemma OwnNodeAfter<T>(r: seq<Node<T>>, i: nat, made: seq<Node<T>>, k: nat, ring: seq<Node<T>>, q: nat,
                        x: Node<T>, ring': seq<Node<T>>)
    requires 0 < i <= |r| && 0 < k < |r| && i != k + 1
    requires ring == Spliced(r, i, made, 0, |made|) && q == Shifted(i, |made|, k)
    requires ring' == Inserted(ring, i + |made|, x)
    ensures ring' == Spliced(r, i, made + [x], 0, |made| + 1)
    ensures Shifted(i + |made|, 1, q) + 1 <= |ring'| && NodeAt(ring', Shifted(i + |made|, 1, q) + 1) == NodeAt(r, k + 1)
  {
    SplicedSnoc(r, i, made, x);
    SplicedAt(r, i, made + [x], k + 1);
  }

  lemma OwnValueIs<T>(c: seq<T>, i: nat, a: nat, k: nat, m: nat, contents: seq<T>)
    requires 0 < i <= |c| + 1 && 0 < a <= k <= |c| && m == k - a
    requires contents == Spliced(c, i - 1, c, a - 1, k - 1)
    ensures 0 < Shifted(i, m, k) <= |contents| && contents[Shifted(i, m, k) - 1] == c[k - 1]
  {
    assert Shifted(i, m, k) - 1 == Shifted(i - 1, m, k - 1);
    SplicedKeeps(c, i - 1, c, a - 1, k - 1, k - 1);
  }

  lemma OwnValue<T>(c: seq<T>, i: nat, a: nat, k: nat, m: nat, contents: seq<T>, contents': seq<T>)
    requires 0 < i <= |c| + 1 && 0 < a <= k <= |c| && m == k - a
    requires contents == Spliced(c, i - 1, c, a - 1, k - 1) && 0 < Shifted(i, m, k) <= |contents|
    requires i + m <= |contents| + 1 && contents' == Inserted(contents, i + m - 1, contents[Shifted(i, m, k) - 1])
    ensures contents' == Spliced(c, i - 1, c, a - 1, k)
  {
    OwnValueIs(c, i, a, k, m, contents);
    SplicedStep(c, i - 1, c, a - 1, k - 1);
    assert i + m - 1 == i - 1 + (k - 1) - (a - 1);
  }

  /** The first n elements of s, and from there on those of t. */
  ghost function Overlaid<X>(s: seq<X>, t: seq<X>, n: nat): seq<X>
    requires n <= |s| && n <= |t|
  {
    s[..n] + t[n..]
  }

  lemma OverlaidStep<X>(s: seq<X>, t: seq<X>, n: nat)
    requires n < |s| && n < |t|
    ensures |Overlaid(s, t, n)| == |t| && Overlaid(s, t, n)[n := s[n]] == Overlaid(s, t, n + 1)
  {}

  /** What assignment does to the values: overlay as far as both go, then cut off or add the rest. */
  lemma OverlaidThenRest<X>(s: seq<X>, t: seq<X>)
    ensures |s| <= |t| ==> Without(Overlaid(s, t, |s|), |s|, |t|) == s
    ensures |t| <= |s| ==> Spliced(Overlaid(s, t, |t|), |t|, s, |t|, |s|) == s
  {}

  /** How often an iterator at place i of a ring of n has to be moved on until it is at place j. */
  ghost function StepsTo(n: nat, i: nat, j: nat): nat
    requires i <= n
  {
    if i <= j then j - i else j - i + n
  }

  lemma WithoutStep<X>(s: seq<X>, i: nat, k: nat)
    requires i <= k < |s|
    ensures Without(Without(s, i, k), i, i + 1) == Without(s, i, k + 1)
    ensures Without(s, i, k)[i] == s[k]
  {}

  lemma NoRepeatsInserted<T>(ring: seq<Node<T>>, i: nat, x: Node<T>)
    requires NoRepeats(ring) && 0 < i <= |ring| && forall k :: 0 <= k < |ring| ==> ring[k] != x
    ensures NoRepeats(Inserted(ring, i, x))
  {
    var r := Inserted(ring, i, x);
    forall j, k | 0 <= j < k < |r|
      ensures Apart(r, j, k)
    {
      if j != i && k != i {
        assert Apart(ring, if j < i then j else j - 1, if k < i then k else k - 1);
      }
    }
  }

  lemma NoRepeatsWithout<T>(ring: seq<Node<T>>, i: nat, j: nat)
    requires NoRepeats(ring) && i <= j <= |ring|
    ensures NoRepeats(Without(ring, i, j))
  {
    var r := Without(ring, i, j);
    forall k, m | 0 <= k < m < |r|
      ensures Apart(r, k, m)
    {
      assert Apart(ring, if k < i then k else k + j - i, if m < i then m else m + j - i);
    }
  }

  /** Puts a new node before posn. */
  method LinkBefore<T>(posn: Node<T>, newNode: Node<T>)
    requires !posn.freed && !newNode.freed && newNode != posn
    requires posn.prev != null && newNode != posn.prev && !posn.prev.freed
    modifies newNode`next, newNode`prev, posn`prev, posn.prev`next
    ensures newNode.next == posn && newNode.prev == old(posn.prev)
    ensures old(posn.prev).next == newNode && posn.prev == newNode
  {
    newNode.SetNext(posn);
    newNode.SetPrev(posn.GetPrev());
    posn.GetPrev().SetNext(newNode);
    posn.SetPrev(newNode);
  }

  /** Makes the neighbours of posn point at each other. */
  method UnlinkFrom<T>(posn: Node<T>)
    requires !posn.freed && posn.prev != null && posn.next != null && !posn.prev.freed && !posn.next.freed
    requires posn != posn.prev && posn != posn.next
    modifies posn.prev`next, posn.next`prev
    ensures old(posn.prev).next == old(posn.next) && old(posn.next).prev == old(posn.prev)
  {
    var pNext, pPrev := posn.GetNext(), posn.GetPrev();
    pPrev.SetNext(pNext);
    pNext.SetPrev(pPrev);
  }

  class List<T> {
    const middle: Node<T>
    ghost var ring: seq<Node<T>>
    ghost var contents: seq<T>
    ghost var nodes: set<Node<T>>

    ghost predicate Valid()
      reads this, nodes
    {
      Ring(ring, contents, nodes) && ring[0] == middle
    }

    constructor ()
      ensures Valid() && fresh(nodes) && contents == []
    {
      middle := new Node(Raw);
      new;
      middle.SetPrev(middle);
      middle.SetNext(middle);
      ring, contents, nodes := [middle], [], {middle};
      assert Sound(ring, contents, nodes, 0);
    }

    /** Inserts before the node at place i. */
    method Insert(posn: Node<T>, ghost i: nat, val: T) returns (newNode: Node<T>)
      requires Valid() && 0 < i <= |ring| && posn == NodeAt(ring, i)
      modifies this, nodes
      ensures Valid() && fresh(newNode) && nodes == old(nodes) + {newNode}
      ensures ring == Inserted(old(ring), i, newNode) && contents == Inserted(old(contents), i - 1, val)
    {
      assert Sound(ring, contents, nodes, i - 1);
      assert i < |ring| ==> Sound(ring, contents, nodes, i);
      assert i == |ring| ==> Sound(ring, contents, nodes, 0);
      newNode := new Node(Live(val));
      LinkBefore(posn, newNode);
      ghost var r, c := ring, contents;
      ring, contents := Inserted(ring, i, newNode), Inserted(contents, i - 1, val);
      nodes := nodes + {newNode};
      forall k | 0 <= k < |r|
        ensures r[k] != newNode
      {
        assert old(Sound(r, c, nodes, k));
      }
      NoRepeatsInserted(r, i, newNode);
      forall k | 0 <= k < |ring|
        ensures Sound(ring, contents, nodes, k)
      {
        if k < i - 1 {
          assert old(Sound(r, c, nodes, k));
          DifferAt(r, k, i - 1);
          DifferAt(r, k + 1, i);
        } else if k > i {
          assert old(Sound(r, c, nodes, k - 1));
          DifferAt(r, i - 1, k - 1);
          DifferAt(r, i, k);
        }
      }
    }

    /** Takes the node at place i out and deletes it. */
    method Erase(posn: Node<T>, ghost i: nat) returns (pNext: Node<T>)
      requires Valid() && 0 < i < |ring| && posn == ring[i]
      modifies this, nodes
      ensures Valid() && posn.freed && nodes == old(nodes) - {posn}
      ensures ring == Without(old(ring), i, i + 1) && contents == Without(old(contents), i - 1, i)
      ensures pNext == NodeAt(ring, i)
    {
      ghost var r, c := ring, contents;
      assert Sound(r, c, nodes, i - 1);
      assert Sound(r, c, nodes, i);
      assert Sound(r, c, nodes, if i + 1 == |r| then 0 else i + 1);
      DifferAt(r, i, i + 1);
      DifferAt(r, i - 1, i);
      pNext := posn.GetNext();
      UnlinkFrom(posn);
      posn.Delete();
      ring, contents := Without(r, i, i + 1), Without(c, i - 1, i);
      nodes := nodes - {posn};
      NoRepeatsWithout(r, i, i + 1);
      forall k | 0 <= k < |ring|
        ensures Sound(ring, contents, nodes, k)
      {
        if k < i - 1 {
          assert old(Sound(r, c, nodes, k));
          DifferAt(r, k, i - 1);
          DifferAt(r, k, i);
          DifferAt(r, k + 1, i);
          DifferAt(r, k + 1, i + 1);
        } else if k >= i {
          assert old(Sound(r, c, nodes, k + 1));
          DifferAt(r, i, k + 1);
          DifferAt(r, i - 1, k + 1);
          DifferAt(r, i, k + 2);
          DifferAt(r, i + 1, k + 2);
        }
      }
    }

    /** Erases the nodes from place i up to place j. */
    method EraseRange(first: Node<T>, ghost i: nat, last: Node<T>, ghost j: nat) returns (end: Node<T>)
      requires Valid() && 0 < i <= j <= |ring| && first == NodeAt(ring, i) && last == NodeAt(ring, j)
      modifies this, nodes
      ensures Valid() && nodes <= old(nodes) && AllDeleted(old(ring), nodes, i, j)
      ensures ring == Without(old(ring), i, j) && contents == Without(old(contents), i - 1, j - 1)
      ensures end == last == NodeAt(ring, i)
    {
      ghost var r, c, k := ring, contents, i;
      OnlyAt(r, j);
      var next := first;
      while next != last
        invariant Valid() && i <= k <= j && next == NodeAt(r, k) && nodes <= old(nodes)
        invariant ring == Without(r, i, k) && contents == Without(c, i - 1, k - 1)
        invariant AllDeleted(r, nodes, i, k)
        decreases j - k
      {
        var posn := next;
        assert Sound(ring, contents, nodes, i);
        next := next.GetNext();
        label before:
        var _ := Erase(posn, i);
        forall m | i <= m < k
          ensures Deleted(r, nodes, m)
        {
          assert old@before(Deleted(r, nodes, m));
        }
        WithoutStep(r, i, k);
        WithoutStep(c, i - 1, k - 1);
        k := k + 1;
      }
      return last;
    }

    /** Deletes every node but the sentinel. */
    method Clear()
      requires Valid()
      modifies this, nodes
      ensures Valid() && nodes <= old(nodes) && AllDeleted(old(ring), nodes, 1, |old(ring)|) && contents == []
    {
      ghost var r, c, k := ring, contents, 1;
      assert Sound(r, c, nodes, 0);
      OnlyAt(r, |r|);
      var pCurrent := middle.GetNext();
      while pCurrent != middle
        invariant 1 <= k <= |r| && pCurrent == NodeAt(r, k) && !middle.freed
        invariant AllDeleted(r, {}, 1, k)
        invariant forall m {:trigger Sound(r, c, nodes, m)} :: k <= m < |r| ==> Sound(r, c, nodes, m)
        modifies nodes`freed
        decreases |r| - k
      {
        assert Sound(r, c, nodes, k) && Apart(r, 0, k);
        var pNext := pCurrent.GetNext();
        label before:
        pCurrent.Delete();
        forall m | k < m < |r|
          ensures Sound(r, c, nodes, m)
        {
          assert old@before(Sound(r, c, nodes, m)) && Apart(r, k, m);
        }
        assert Deleted(r, {}, k);
        pCurrent, k := pNext, k + 1;
      }
      label deleted:
      middle.SetPrev(middle);
      middle.SetNext(middle);
      ring, contents, nodes := [middle], [], {middle};
      assert Sound(ring, contents, nodes, 0);
      forall m | 1 <= m < |r|
        ensures Deleted(r, nodes, m)
      {
        assert old@deleted(Deleted(r, {}, m)) && Apart(r, 0, m);
      }
    }

    /** The places from one iterator to another; from a later one to an earlier one the walk leads through the
        sentinel. */
    method Distance(first: Node<T>, ghost i: nat, last: Node<T>, ghost j: nat) returns (count: nat)
      requires Valid() && 0 < i <= |ring| && 0 < j <= |ring|
      requires first == NodeAt(ring, i) && last == NodeAt(ring, j)
      ensures count == if i <= j then j - i else j - i + |ring|
    {
      count := 0;
      OnlyAt(ring, j);
      var p := first;
      ghost var k := i;
      while p != last
        invariant 0 < k <= |ring| && p == NodeAt(ring, k)
        invariant count + StepsTo(|ring|, k, j) == StepsTo(|ring|, i, j)
        decreases StepsTo(|ring|, k, j)
      {
        assert Sound(ring, contents, nodes, if k == |ring| then 0 else k);
        p, count := p.GetNext(), count + 1;
        k := if k == |ring| then 1 else k + 1;
      }
    }

    method Size() returns (n: nat)
      requires Valid()
      ensures n == |contents|
    {
      assert Sound(ring, contents, nodes, 0);
      n := Distance(middle.GetNext(), 1, middle, |ring|);
    }

    method Empty() returns (b: bool)
      requires Valid()
      ensures b <==> contents == []
    {
      assert Sound(ring, contents, nodes, 0);
      if |ring| > 1 { assert Apart(ring, 0, 1); }
      b := middle.GetNext() == middle;
    }

    /** Inserts copies of the values of a list from its place a up to its place b, in order.  The list may be
        this one, unless the values go in after a and not after b: then the loop never ends, as OwnRangeNeverEnds
        shows. */
    method InsertRange(posn: Node<T>, ghost i: nat, src: List<T>, first: Node<T>, ghost a: nat,
                       last: Node<T>, ghost b: nat)
      returns (ghost made: seq<Node<T>>)
      requires Valid() && 0 < i <= |ring| && posn == NodeAt(ring, i)
      requires src.Valid() && (src == this || src.nodes !! nodes)
      requires 0 < a <= b <= |src.ring| && first == NodeAt(src.ring, a) && last == NodeAt(src.ring, b)
      requires src == this ==> !(a < i <= b)
      modifies this, nodes
      ensures Valid() && src.Valid() && fresh(nodes - old(nodes))
      ensures ring == Spliced(old(ring), i, made, 0, |made|)
      ensures contents == Spliced(old(contents), i - 1, old(src.contents), a - 1, b - 1)
    {
      if src == this {
        made := InsertOwnRange(posn, i, first, a, last, b);
      } else {
        made := InsertOtherRange(posn, i, src, first, a, last, b);
      }
    }

    /** One round of the loop: the value of p, at place k of the other list, is copied in front of posn, and p
        moves on. */
    method OtherRound(posn: Node<T>, ghost i: nat, src: List<T>, p: Node<T>, ghost k: nat, ghost r: seq<Node<T>>,
                      ghost made: seq<Node<T>>)
      returns (next: Node<T>, ghost made': seq<Node<T>>)
      requires src.Valid() && src != this && src.nodes !! nodes && 0 < k < |src.ring| && p == src.ring[k]
      requires 0 < i <= |r| && posn == NodeAt(r, i) && Valid() && ring == Spliced(r, i, made, 0, |made|)
      modifies this, nodes
      ensures Valid() && src.Valid() && fresh(nodes - old(nodes)) && next == NodeAt(src.ring, k + 1)
      ensures |made'| == |made| + 1 && ring == Spliced(r, i, made', 0, |made'|)
      ensures 0 < i + |made| <= |old(contents)| + 1
      ensures contents == Inserted(old(contents), i + |made| - 1, src.contents[k - 1])
    {
      assert Sound(src.ring, src.contents, src.nodes, k);
      SplicedAfter(r, i, made);
      var newNode := Insert(posn, i + |made|, p.GetVal());
      SplicedSnoc(r, i, made, newNode);
      assert Sound(src.ring, src.contents, src.nodes, k);
      next, made' := p.GetNext(), made + [newNode];
    }

    method InsertOtherRange(posn: Node<T>, ghost i: nat, src: List<T>, first: Node<T>, ghost a: nat,
                            last: Node<T>, ghost b: nat)
      returns (ghost made: seq<Node<T>>)
      requires Valid() && 0 < i <= |ring| && posn == NodeAt(ring, i)
      requires src.Valid() && src != this && src.nodes !! nodes
      requires 0 < a <= b <= |src.ring| && first == NodeAt(src.ring, a) && last == NodeAt(src.ring, b)
      modifies this, nodes
      ensures Valid() && src.Valid() && fresh(nodes - old(nodes))
      ensures ring == Spliced(old(ring), i, made, 0, |made|)
      ensures contents == Spliced(old(contents), i - 1, src.contents, a - 1, b - 1)
    {
      ghost var r, c, k := ring, contents, a;
      OnlyAt(src.ring, b);
      var p := first;
      made := [];
      while p != last
        invariant Valid() && src.Valid() && fresh(nodes - old(nodes)) && a <= k <= b && p == NodeAt(src.ring, k)
        invariant |made| == k - a && ring == Spliced(r, i, made, 0, |made|)
        invariant contents == Spliced(c, i - 1, src.contents, a - 1, k - 1)
        decreases b - k
      {
        assert k < b;
        SplicedStep(c, i - 1, src.contents, a - 1, k - 1);
        p, made := OtherRound(posn, i, src, p, k, r, made);
        k := k + 1;
      }
    }

    /** One round of the loop on one list: the value of p, at place q, is copied in front of posn, and p moves
        on. */
    method CopyOwn(posn: Node<T>, ghost i: nat, p: Node<T>, ghost q: nat) returns (next: Node<T>, newNode: Node<T>)
      requires Valid() && 0 < i <= |ring| && posn == NodeAt(ring, i) && 0 < q < |ring| && p == ring[q]
      modifies this, nodes
      ensures Valid() && fresh(newNode) && nodes == old(nodes) + {newNode}
      ensures ring == Inserted(old(ring), i, newNode)
      ensures contents == Inserted(old(contents), i - 1, old(contents)[q - 1])
      ensures next == NodeAt(ring, Shifted(i, 1, q) + 1)
    {
      assert Sound(ring, contents, nodes, q);
      InsertedKeeps(ring, i, q);
      newNode := Insert(posn, i, p.GetVal());
      assert Sound(ring, contents, nodes, Shifted(i, 1, q));
      next := p.GetNext();
    }

    method OwnRound(posn: Node<T>, ghost i: nat, p: Node<T>, ghost r: seq<Node<T>>, ghost made: seq<Node<T>>,
                    ghost k: nat)
      returns (next: Node<T>, ghost made': seq<Node<T>>)
      requires 0 < i <= |r| && 0 < k < |r| && i != k + 1 && posn == NodeAt(r, i) && p == r[k]
      requires Valid() && ring == Spliced(r, i, made, 0, |made|)
      modifies this, nodes
      ensures Valid() && fresh(nodes - old(nodes)) && |made'| == |made| + 1 && next == NodeAt(r, k + 1)
      ensures ring == Spliced(r, i, made', 0, |made'|)
      ensures 0 < Shifted(i, |made|, k) <= |old(contents)|
      ensures contents == Inserted(old(contents), i + |made| - 1, old(contents)[Shifted(i, |made|, k) - 1])
    {
      ghost var ring0, q := ring, Shifted(i, |made|, k);
      OwnNodeBefore(r, i, made, k, ring0, q);
      var newNode;
      next, newNode := CopyOwn(posn, i + |made|, p, q);
      OwnNodeAfter(r, i, made, k, ring0, q, newNode, ring);
      made' := made + [newNode];
    }

    method OwnStep(posn: Node<T>, ghost i: nat, p: Node<T>, ghost r: seq<Node<T>>, ghost c: seq<T>,
                   ghost made: seq<Node<T>>, ghost a: nat, ghost k: nat)
      returns (next: Node<T>, ghost made': seq<Node<T>>)
      requires 0 < i <= |r| == |c| + 1 && 0 < a <= k < |r| && |made| == k - a && i != k + 1
      requires posn == NodeAt(r, i) && p == r[k]
      requires Valid() && ring == Spliced(r, i, made, 0, |made|) && contents == Spliced(c, i - 1, c, a - 1, k - 1)
      modifies this, nodes
      ensures Valid() && fresh(nodes - old(nodes)) && |made'| == |made| + 1 && next == NodeAt(r, k + 1)
      ensures ring == Spliced(r, i, made', 0, |made'|) && contents == Spliced(c, i - 1, c, a - 1, k)
    {
      ghost var before := contents;
      next, made' := OwnRound(posn, i, p, r, made, k);
      ghost var after := contents;
      assert after == Spliced(c, i - 1, c, a - 1, k) by {
        OwnValue(c, i, a, k, |made|, before, after);
      }
    }

    /** The same loop on one list: what it inserts in front of the range moves the range along. */
    method InsertOwnRange(posn: Node<T>, ghost i: nat, first: Node<T>, ghost a: nat, last: Node<T>, ghost b: nat)
      returns (ghost made: seq<Node<T>>)
      requires Valid() && 0 < i <= |ring| && posn == NodeAt(ring, i)
      requires 0 < a <= b <= |ring| && first == NodeAt(ring, a) && last == NodeAt(ring, b)
      requires !(a < i <= b)
      modifies this, nodes
      ensures Valid() && fresh(nodes - old(nodes))
      ensures ring == Spliced(old(ring), i, made, 0, |made|)
      ensures contents == Spliced(old(contents), i - 1, old(contents), a - 1, b - 1)
    {
      ghost var r, c, k := ring, contents, a;
      OnlyAt(r, b);
      var p := first;
      made := [];
      while p != last
        invariant Valid() && fresh(nodes - old(nodes)) && a <= k <= b && p == NodeAt(r, k)
        invariant |made| == k - a && ring == Spliced(r, i, made, 0, |made|)
        invariant contents == Spliced(c, i - 1, c, a - 1, k - 1)
        decreases b - k
      {
        assert k < b;
        p, made := OwnStep(posn, i, p, r, c, made, a, k);
        k := k + 1;
      }
    }

    /** Values inserted after the start of their own range and not after its end: however often the loop has been
        through, it has not reached the end, because each time the end has moved one place further. */
    method OwnRangeNeverEnds(posn: Node<T>, ghost i: nat, first: Node<T>, ghost a: nat, last: Node<T>, ghost b: nat,
                             rounds: nat)
      returns (p: Node<T>)
      requires Valid() && 0 < a < i <= b <= |ring|
      requires posn == NodeAt(ring, i) && first == NodeAt(ring, a) && last == NodeAt(ring, b)
      modifies this, nodes
      ensures Valid() && p != last && |contents| == old(|contents|) + rounds
    {
      p := first;
      ghost var at, end := i, b;
      DifferAt(ring, a, b);
      for m := 0 to rounds
        invariant Valid() && fresh(nodes - old(nodes)) && |contents| == old(|contents|) + m
        invariant at == i + m && end == b + m <= |ring|
        invariant posn == NodeAt(ring, at) && last == NodeAt(ring, end) && p == NodeAt(ring, a + m) && p != last
      {
        ghost var before := ring;
        var newNode;
        p, newNode := CopyOwn(posn, at, p, a + m);
        InsertedAt(before, at, newNode, at);
        InsertedAt(before, at, newNode, end);
        at, end := at + 1, end + 1;
        DifferAt(ring, a + m + 1, end);
      }
    }

    constructor Copy(src: List<T>)
      requires src.Valid()
      ensures Valid() && fresh(nodes) && contents == src.contents
    {
      middle := new Node(Raw);
      new;
      middle.SetPrev(middle);
      middle.SetNext(middle);
      ring, contents, nodes := [middle], [], {middle};
      assert Sound(ring, contents, nodes, 0);
      assert Sound(src.ring, src.contents, src.nodes, 0);
      var _ := InsertRange(middle.GetNext(), 1, src, src.middle.GetNext(), 1, src.middle, |src.ring|);
    }

    method Store(p: Node<T>, ghost i: nat, v: T)
      requires Valid() && 0 < i < |ring| && p == ring[i]
      modifies this`contents, nodes`val
      ensures Valid() && contents == old(contents)[i - 1 := v]
    {
      assert Sound(ring, contents, nodes, i);
      p.SetVal(v);
      contents := contents[i - 1 := v];
      forall k | 0 <= k < |ring|
        ensures Sound(ring, contents, nodes, k)
      {
        assert old(Sound(ring, contents, nodes, k));
        if k != i { DifferAt(ring, if k < i then k else i, if k < i then i else k); }
      }
    }

    /** Copies one value over and moves both iterators on. */
    method OverwriteOne(right: List<T>, p: Node<T>, q: Node<T>, ghost k: nat, ghost c: seq<T>)
      returns (p': Node<T>, q': Node<T>)
      requires Valid() && right.Valid() && right.nodes !! nodes && |c| == |contents|
      requires 0 < k < |ring| && k < |right.ring| && p == ring[k] && q == right.ring[k]
      requires contents == Overlaid(right.contents, c, k - 1)
      modifies this`contents, nodes`val
      ensures Valid() && right.Valid() && contents == Overlaid(right.contents, c, k)
      ensures p' == NodeAt(ring, k + 1) && q' == NodeAt(right.ring, k + 1)
      ensures (p' == middle) == (k + 1 == |ring|) && (q' == right.middle) == (k + 1 == |right.ring|)
    {
      SentinelAt(ring, k + 1);
      SentinelAt(right.ring, k + 1);
      assert Sound(right.ring, right.contents, right.nodes, k);
      OverlaidStep(right.contents, c, k - 1);
      Store(p, k, q.GetVal());
      assert Sound(ring, contents, nodes, k);
      assert Sound(right.ring, right.contents, right.nodes, k);
      p', q' := p.GetNext(), q.GetNext();
    }

    /** Copies values over as long as both lists have nodes left, and says where it stopped. */
    method Overwrite(right: List<T>) returns (firstDst: Node<T>, firstSrc: Node<T>, ghost k: nat)
      requires Valid() && right.Valid() && right.nodes !! nodes
      modifies this`contents, nodes`val
      ensures Valid() && right.Valid()
      ensures k == if |ring| < |right.ring| then |ring| else |right.ring|
      ensures firstDst == NodeAt(ring, k) && firstSrc == NodeAt(right.ring, k)
      ensures (firstSrc == right.middle) == (k == |right.ring|)
      ensures contents == Overlaid(right.contents, old(contents), k - 1)
    {
      ghost var c := contents;
      k := 1;
      assert Sound(ring, contents, nodes, 0);
      assert Sound(right.ring, right.contents, right.nodes, 0);
      firstDst, firstSrc := middle.GetNext(), right.middle.GetNext();
      SentinelAt(ring, 1);
      SentinelAt(right.ring, 1);
      while firstSrc != right.middle && firstDst != middle
        invariant 1 <= k <= |ring| && k <= |right.ring| && Valid() && right.Valid() && |c| == |contents|
        invariant firstDst == NodeAt(ring, k) && firstSrc == NodeAt(right.ring, k)
        invariant (firstDst == middle) == (k == |ring|) && (firstSrc == right.middle) == (k == |right.ring|)
        invariant contents == Overlaid(right.contents, c, k - 1)
        decreases |ring| - k
      {
        firstDst, firstSrc := OverwriteOne(right, firstDst, firstSrc, k, c);
        k := k + 1;
      }
    }

    /** Assignment: the first nodes are reused, and only what the source has too few or too many of is
        deleted or made. */
    method Assign(right: List<T>)
      requires Valid() && right.Valid() && (right == this || right.nodes !! nodes)
      modifies this, nodes
      ensures Valid() && right.Valid() && fresh(nodes - old(nodes))
      ensures contents == right.contents == old(right.contents) && right.ring == old(right.ring)
      ensures right != this ==>
                var m := if |old(ring)| < |right.ring| then |old(ring)| else |right.ring|;
                ring[..m] == old(ring)[..m] && AllDeleted(old(ring), nodes, m, |old(ring)|)
    {
      if this == right {
        return;
      }
      OverlaidThenRest(right.contents, contents);
      var firstDst, firstSrc, k := Overwrite(right);
      if firstSrc == right.middle {
        var _ := EraseRange(firstDst, k, middle, |ring|);
      } else {
        var _ := InsertRange(middle, |ring|, right, firstSrc, k, right.middle, |right.ring|);
      }
    }
  }
}
