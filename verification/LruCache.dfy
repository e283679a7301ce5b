/** The cache of LruCache.h: entries that a hash table owns and that a chain of parent and child pointers
    links from oldest to youngest.  Every call is proved to act on the sequence of its pairs as LruSpec
    says. */
module LruCache {
  import opened LruSpec
  import opened Options

  /** A bucket's entry.  Its identity stands for the address of the bucket. */
  class Node<K, V> {
    const key: K
    const value: V
    var parent: Node?<K, V>
    var child: Node?<K, V>

    constructor (key: K, value: V)
      ensures this.key == key && this.value == value && parent == null && child == null
    {
      this.key, this.value, parent, child := key, value, null, null;
    }
  }

  ghost predicate OneToOne<X, Y>(m: map<X, Y>) {
    forall x, y {:trigger m[x], m[y]} :: x in m && y in m && m[x] == m[y] ==> x == y
  }

  lemma ValuesWith<X, Y>(m: map<X, Y>, x: X, y: Y)
    requires x !in m
    ensures m[x := y].Values == m.Values + {y}
    ensures OneToOne(m) && y !in m.Values ==> OneToOne(m[x := y])
  {
    var m' := m[x := y];
    forall v | v in m.Values
      ensures v in m'.Values
    {
      var k :| k in m && m[k] == v;
      assert m'[k] == v;
    }
    assert m'[x] == y;
  }

  lemma IdentityValues<X>(s: set<X>)
    ensures var m := map x | x in s :: x; m.Keys == m.Values == s && OneToOne(m)
  {
    var m := map x | x in s :: x;
    forall x | x in s
      ensures x in m.Values
    {
      assert m[x] == x;
    }
  }

  // --- The hash table, by its documented contract ------------------------------------------------

  /** BasicHashtable.h:255-338.  An index is represented by the entry it leads to.  What the documentation
      leaves open is left open here: capacities beyond the minimum, whether an entry lands in a bucket
      that counts as filled already, and whether a full table grows when one does. */
  class BasicHashtable<K(==), V> {
    var entries: set<Node<K, V>>
    var capacity: nat
    var filledBuckets: nat

    ghost predicate Valid()
      reads this
    {
      |entries| <= filledBuckets <= capacity
    }

    constructor (minimumInitialCapacity: nat)
      ensures Valid() && entries == {} && filledBuckets == 0 && capacity >= minimumInitialCapacity
    {
      var more: nat :| true;
      entries, filledBuckets, capacity := {}, 0, minimumInitialCapacity + more;
    }

    predicate HasMoreRoom()
      reads this
    {
      capacity > filledBuckets
    }

    method Find(key: K) returns (e: Node?<K, V>)
      ensures e == null <==> forall x :: x in entries ==> x.key != key
      ensures e != null ==> e in entries && e.key == key
    {
      var todo := entries;
      e := null;
      while todo != {}
        invariant todo <= entries
        invariant forall x :: x in entries && x !in todo ==> x.key != key
      {
        var x :| x in todo;
        if x.key == key {
          return x;
        }
        todo := todo - {x};
      }
    }

    /** Where the entries that were in the table are now: at places of their own, with what they held. */
    twostate predicate Carried(new moved: map<Node<K, V>, Node<K, V>>)
      reads this, entries
    {
      moved.Keys == old(entries) && moved.Values <= entries && OneToOne(moved) &&
      forall x {:trigger moved[x]} :: x in moved ==> Same(x, moved[x])
    }

    twostate predicate Same(x: Node<K, V>, new y: Node<K, V>)
      reads y
    {
      y.key == x.key && y.value == x.value && y.parent == old(x.parent) && y.child == old(x.child)
    }

    /** With room, the table only gains the entry; without, every entry may move to a new bucket, and then
        takes its links with it unchanged. */
    method Add(key: K, value: V) returns (e: Node<K, V>, ghost moved: map<Node<K, V>, Node<K, V>>)
      requires Valid()
      modifies this
      ensures Valid() && e in entries && fresh(e)
      ensures entries == moved.Values + {e} && e !in moved.Values && Carried(moved)
      ensures e.key == key && e.value == value && e.parent == null && e.child == null
      ensures old(HasMoreRoom()) || old(entries) == {} ==> entries == old(entries) + {e}
      ensures old(HasMoreRoom()) ==> capacity == old(capacity) && filledBuckets <= old(filledBuckets) + 1
    {
      e := new Node(key, value);
      moved := Settle(e);
    }

    /** The three ways in which it may find its bucket. */
    method Settle(e: Node<K, V>) returns (ghost moved: map<Node<K, V>, Node<K, V>>)
      requires Valid() && e !in entries
      modifies this
      ensures Valid() && entries == moved.Values + {e} && e !in moved.Values && Carried(moved)
      ensures old(HasMoreRoom()) || old(entries) == {} ==> entries == old(entries) + {e}
      ensures old(HasMoreRoom()) ==> capacity == old(capacity) && filledBuckets <= old(filledBuckets) + 1
    {
      var reuse: bool := *;
      if |entries| < filledBuckets && reuse {
        moved := Occupy(e, filledBuckets);
      } else if HasMoreRoom() {
        moved := Occupy(e, filledBuckets + 1);
      } else {
        moved := MoveAndOccupy(e);
      }
    }

    /** The entry goes into a bucket that the others leave free. */
    method Occupy(e: Node<K, V>, filled: nat) returns (ghost moved: map<Node<K, V>, Node<K, V>>)
      requires e !in entries && |entries| + 1 <= filled <= capacity
      modifies this`entries, this`filledBuckets
      ensures Valid() && entries == old(entries) + {e} && filledBuckets == filled
      ensures entries == moved.Values + {e} && e !in moved.Values && Carried(moved)
    {
      moved := map x | x in entries :: x;
      IdentityValues(entries);
      entries, filledBuckets := entries + {e}, filled;
    }

    /** The table grows first, and copies the others. */
    method MoveAndOccupy(e: Node<K, V>) returns (ghost moved: map<Node<K, V>, Node<K, V>>)
      requires e !in entries
      modifies this
      ensures Valid() && (old(entries) == {} ==> entries == {e})
      ensures entries == moved.Values + {e} && e !in moved.Values && Carried(moved)
    {
      var copies;
      copies, moved := Move();
      var more: nat :| true;
      entries := copies + {e};
      filledBuckets := |copies + {e}|;
      capacity := capacity + filledBuckets + more;
    }

    /** All that the cache needs of add: it calls it with room only, or on an empty table. */
    method AddInPlace(key: K, value: V) returns (e: Node<K, V>)
      requires Valid() && (HasMoreRoom() || entries == {})
      modifies this
      ensures Valid() && e in entries && fresh(e) && entries == old(entries) + {e}
      ensures e.key == key && e.value == value && e.parent == null && e.child == null
      ensures old(HasMoreRoom()) ==> capacity == old(capacity) && filledBuckets <= old(filledBuckets) + 1
    {
      ghost var moved;
      e, moved := Add(key, value);
    }

    method Move() returns (copies: set<Node<K, V>>, ghost moved: map<Node<K, V>, Node<K, V>>)
      ensures fresh(copies) && copies == moved.Values && moved.Keys == entries
      ensures OneToOne(moved)
      ensures forall x {:trigger moved[x]} :: x in moved ==> Same(x, moved[x])
    {
      var todo := entries;
      copies, moved := {}, map[];
      while todo != {}
        invariant todo <= entries && fresh(copies) && copies == moved.Values && moved.Keys == entries - todo
        invariant OneToOne(moved)
        invariant forall x {:trigger moved[x]} :: x in moved ==> Same(x, moved[x])
      {
        var x :| x in todo;
        var y := new Node(x.key, x.value);
        y.parent, y.child := x.parent, x.child;
        ValuesWith(moved, x, y);
        todo, copies, moved := todo - {x}, copies + {y}, moved[x := y];
      }
    }

    method RemoveAt(e: Node<K, V>)
      requires Valid() && e in entries
      modifies this
      ensures Valid() && entries == old(entries) - {e}
      ensures capacity == old(capacity) && filledBuckets <= old(filledBuckets)
    {
      var inChain: bool := *;
      entries := entries - {e};
      if !inChain {
        filledBuckets := filledBuckets - 1;
      }
    }

    method Clear()
      requires Valid()
      modifies this
      ensures Valid() && entries == {} && capacity == old(capacity) && filledBuckets == 0
    {
      entries, filledBuckets := {}, 0;
    }
  }

  // --- The chain ---------------------------------------------------------------------------------

  ghost function Pairs<K, V>(chain: seq<Node<K, V>>): seq<(K, V)> {
    seq(|chain|, i requires 0 <= i < |chain| => (chain[i].key, chain[i].value))
  }

  ghost function At<K, V>(chain: seq<Node<K, V>>, i: int): Node?<K, V> {
    if 0 <= i < |chain| then chain[i] else null
  }

  // The predicates that follow are used where a proof names them, and nowhere else.

  ghost predicate LinkedAt<K, V>(chain: seq<Node<K, V>>, i: nat)
    requires i < |chain|
    reads chain[i]
  {
    chain[i].parent == At(chain, i - 1) && chain[i].child == At(chain, i + 1)
  }

  ghost predicate InTable<K, V>(chain: seq<Node<K, V>>, i: nat, entries: set<Node<K, V>>)
    requires i < |chain|
  {
    chain[i] in entries
  }

  ghost predicate OnChain<K, V>(e: Node<K, V>, chain: seq<Node<K, V>>) { e in chain }

  /** The chain is what the child pointers give from the oldest, and the parent pointers from the youngest
      backwards. */
  ghost predicate Linked<K, V>(chain: seq<Node<K, V>>, entries: set<Node<K, V>>,
                               oldest: Node?<K, V>, youngest: Node?<K, V>)
    reads entries
  {
    oldest == At(chain, 0) && youngest == At(chain, |chain| - 1) &&
    forall i {:trigger LinkedAt(chain, i)} :: 0 <= i < |chain| ==> InTable(chain, i, entries) && LinkedAt(chain, i)
  }

  ghost predicate NoRepeats<K, V>(chain: seq<Node<K, V>>) {
    forall i, j :: 0 <= i < j < |chain| ==> chain[i] != chain[j]
  }

  ghost predicate Apart<K, V>(chain: seq<Node<K, V>>, i: nat, j: nat)
    requires i < j < |chain|
  {
    chain[i].key != chain[j].key
  }

  /** No key occurs twice.  The trigger keeps this from being used unless a proof asks for it. */
  ghost predicate KeysDiffer<K, V>(chain: seq<Node<K, V>>) {
    forall i, j {:trigger Apart(chain, i, j)} :: 0 <= i < j < |chain| ==> Apart(chain, i, j)
  }

  lemma KeysDifferMeans<K, V>(chain: seq<Node<K, V>>)
    requires KeysDiffer(chain)
    ensures Distinct(Pairs(chain)) && NoRepeats(chain)
  {
    forall i, j | 0 <= i < j < |chain|
      ensures chain[i].key != chain[j].key
    {
      assert Apart(chain, i, j);
    }
  }

  lemma DistinctMeans<K, V>(chain: seq<Node<K, V>>)
    requires Distinct(Pairs(chain))
    ensures KeysDiffer(chain)
  {
    forall i, j | 0 <= i < j < |chain|
      ensures Apart(chain, i, j)
    {
      assert Pairs(chain)[i].0 != Pairs(chain)[j].0;
    }
  }

  ghost function Without<K, V>(c: seq<Node<K, V>>, i: nat): seq<Node<K, V>>
    requires i < |c|
  {
    c[..i] + c[i + 1..]
  }

  lemma AtWithout<K, V>(c: seq<Node<K, V>>, i: nat, k: int)
    requires i < |c|
    ensures At(Without(c, i), k) == At(c, if k < i then k else k + 1)
  {}

  lemma NoRepeatsWithout<K, V>(c: seq<Node<K, V>>, i: nat)
    requires i < |c| && NoRepeats(c)
    ensures NoRepeats(Without(c, i))
  {}

  /** What detaching leaves: the entries on either side of place i point at each other. */
  ghost predicate Bypassed<K, V>(c: seq<Node<K, V>>, i: nat, j: nat)
    requires j < |c|
    reads c[j]
  {
    c[j].parent == At(c, if j == i + 1 then i - 1 else j - 1) &&
    c[j].child == At(c, if j == i - 1 then i + 1 else j + 1)
  }

  lemma LinkedWithout<K, V>(c: seq<Node<K, V>>, entries: set<Node<K, V>>, i: nat,
                            oldest: Node?<K, V>, youngest: Node?<K, V>)
    requires i < |c|
    requires oldest == At(c, if i == 0 then 1 else 0)
    requires youngest == At(c, if i == |c| - 1 then i - 1 else |c| - 1)
    requires forall j {:trigger Bypassed(c, i, j)} :: 0 <= j < |c| && j != i ==>
               InTable(c, j, entries) && Bypassed(c, i, j)
    ensures Linked(Without(c, i), entries, oldest, youngest)
  {
    var d := Without(c, i);
    AtWithout(c, i, 0);
    AtWithout(c, i, |d| - 1);
    forall k | 0 <= k < |d|
      ensures InTable(d, k, entries) && LinkedAt(d, k)
    {
      AtWithout(c, i, k - 1);
      AtWithout(c, i, k);
      AtWithout(c, i, k + 1);
      assert Bypassed(c, i, if k < i then k else k + 1);
    }
  }

  /** The chain visits the entries of the table, each once, and no key twice. */
  ghost predicate Visits<K, V>(chain: seq<Node<K, V>>, entries: set<Node<K, V>>) {
    (forall i {:trigger InTable(chain, i, entries)} :: 0 <= i < |chain| ==> InTable(chain, i, entries)) &&
    (forall e {:trigger OnChain(e, chain)} :: e in entries ==> OnChain(e, chain)) &&
    KeysDiffer(chain)
  }

  lemma {:induction false} VisitsAll<K, V>(c: seq<Node<K, V>>, entries: set<Node<K, V>>)
    requires Visits(c, entries)
    ensures |c| == |entries|
  {
    if c == [] {
      assert forall e :: e in entries ==> OnChain(e, c);
      assert entries == {};
    } else {
      var n := |c| - 1;
      forall i | 0 <= i < n
        ensures InTable(c[..n], i, entries - {c[n]})
      {
        assert InTable(c, i, entries) && Apart(c, i, n);
      }
      forall e | e in entries - {c[n]}
        ensures OnChain(e, c[..n])
      {
        assert OnChain(e, c);
      }
      forall i, j | 0 <= i < j < n
        ensures Apart(c[..n], i, j)
      {
        assert Apart(c, i, j);
      }
      assert InTable(c, n, entries);
      VisitsAll(c[..n], entries - {c[n]});
    }
  }

  lemma VisitsWithout<K, V>(c: seq<Node<K, V>>, entries: set<Node<K, V>>, i: nat)
    requires Visits(c, entries) && i < |c|
    ensures Visits(Without(c, i), entries - {c[i]})
    ensures Pairs(Without(c, i)) == Pairs(c)[..i] + Pairs(c)[i + 1..]
    ensures !Has(Pairs(Without(c, i)), c[i].key)
  {
    var d := Without(c, i);
    KeysDifferMeans(c);
    assert Pairs(d) == Pairs(c)[..i] + Pairs(c)[i + 1..];
    DistinctWithout(Pairs(c), i);
    DistinctMeans(d);
    assert Pairs(c)[i].0 == c[i].key;
    forall j | 0 <= j < |d|
      ensures InTable(d, j, entries - {c[i]})
    {
      assert InTable(c, if j < i then j else j + 1, entries) && Pairs(d)[j].0 != c[i].key;
    }
    forall e | e in entries && e != c[i]
      ensures OnChain(e, d)
    {
      assert OnChain(e, c);
      var j :| 0 <= j < |c| && c[j] == e;
      assert d[if j < i then j else j - 1] == e;
    }
  }

  lemma VisitsSnoc<K, V>(c: seq<Node<K, V>>, entries: set<Node<K, V>>, e: Node<K, V>)
    requires Visits(c, entries) && !Has(Pairs(c), e.key)
    ensures Visits(c + [e], entries + {e})
    ensures Pairs(c + [e]) == Pairs(c) + [(e.key, e.value)]
  {
    assert Pairs(c + [e]) == Pairs(c) + [(e.key, e.value)];
    KeysDifferMeans(c);
    DistinctSnoc(Pairs(c), (e.key, e.value));
    DistinctMeans(c + [e]);
    assert (c + [e])[|c|] == e;
    forall i | 0 <= i < |c|
      ensures InTable(c + [e], i, entries + {e})
    {
      assert InTable(c, i, entries);
    }
    forall x | x in entries
      ensures OnChain(x, c + [e])
    {
      assert OnChain(x, c);
    }
  }

  /** Detaching an entry and attaching it again does what a get of its key does. */
  lemma Moved<K, V>(cap: nat, c: seq<Node<K, V>>, entries: set<Node<K, V>>, i: nat)
    requires Visits(c, entries) && i < |c|
    ensures Visits(Without(c, i) + [c[i]], entries)
    ensures Pairs(Without(c, i) + [c[i]]) == Next(cap, Pairs(c), Op.Get(c[i].key))
    ensures Lookup(Pairs(c), c[i].key) == Some(c[i].value)
  {
    VisitsWithout(c, entries, i);
    VisitsSnoc(Without(c, i), entries - {c[i]}, c[i]);
    assert InTable(c, i, entries);
    assert entries - {c[i]} + {c[i]} == entries;
    KeysDifferMeans(c);
    DropAt(Pairs(c), i);
  }

  /** Detaching an entry and removing it from the table does what a remove of its key does. */
  lemma TakenOut<K, V>(cap: nat, c: seq<Node<K, V>>, entries: set<Node<K, V>>, i: nat)
    requires Visits(c, entries) && i < |c|
    ensures Visits(Without(c, i), entries - {c[i]})
    ensures Pairs(Without(c, i)) == Next(cap, Pairs(c), Op.Remove(c[i].key))
    ensures Reported(cap, Pairs(c), Op.Remove(c[i].key)) == [(c[i].key, c[i].value)]
    ensures Has(Pairs(c), c[i].key)
  {
    VisitsWithout(c, entries, i);
    KeysDifferMeans(c);
    DropAt(Pairs(c), i);
    assert Pairs(c)[i].0 == c[i].key;
  }

  lemma AbsentBefore<K, V>(c: seq<Node<K, V>>, i: nat)
    requires KeysDiffer(c) && i < |c|
    ensures !Has(Pairs(c)[..i], c[i].key)
    ensures Pairs(c)[..i + 1] == Pairs(c)[..i] + [(c[i].key, c[i].value)]
  {
    KeysDifferMeans(c);
    assert Pairs(c)[i].0 == c[i].key;
  }

  class LruCache<K(==), V> {
    const maxCapacity: nat
    const nullValue: V
    var table: BasicHashtable<K, V>
    var hasListener: bool
    var oldest: Node?<K, V>
    var youngest: Node?<K, V>
    ghost var chain: seq<Node<K, V>>
    ghost var calls: seq<(K, V)>

    ghost predicate Valid()
      reads this, table, table.entries
    {
      table.Valid() && Visits(chain, table.entries) && Linked(chain, table.entries, oldest, youngest) &&
      (maxCapacity == 0 || |chain| <= maxCapacity)
    }

    /** The pairs in the cache, oldest first. */
    ghost function Contents(): seq<(K, V)>
      reads this
    {
      Pairs(chain)
    }

    constructor (maxCapacity: nat, nullValue: V)
      ensures Valid() && fresh(table) && table.entries == {} && Contents() == [] && !hasListener && calls == []
      ensures this.maxCapacity == maxCapacity && this.nullValue == nullValue
    {
      this.maxCapacity, this.nullValue := maxCapacity, nullValue;
      table := new BasicHashtable<K, V>(0);
      hasListener, oldest, youngest, chain, calls := false, null, null, [], [];
    }

    method AttachToCache(e: Node<K, V>)
      requires Linked(chain, table.entries, oldest, youngest) && NoRepeats(chain)
      requires e in table.entries && e !in chain && e.parent == null && e.child == null
      modifies this`oldest, this`youngest, this`chain, table.entries
      ensures chain == old(chain) + [e] && Linked(chain, table.entries, oldest, youngest)
    {
      ghost var n := |chain|;
      if youngest == null {
        youngest, oldest := e, e;
      } else {
        assert LinkedAt(chain, n - 1);
        e.parent := youngest;
        youngest.child := e;
        youngest := e;
      }
      chain := chain + [e];
      forall i | 0 <= i <= n
        ensures InTable(chain, i, table.entries) && LinkedAt(chain, i)
      {
        if i < n { assert old(LinkedAt(chain, i)); }
      }
    }

    method DetachFromCache(e: Node<K, V>, ghost i: nat)
      requires Linked(chain, table.entries, oldest, youngest) && NoRepeats(chain)
      requires i < |chain| && chain[i] == e
      modifies this`oldest, this`youngest, this`chain, table.entries
      ensures chain == Without(old(chain), i) && Linked(chain, table.entries, oldest, youngest)
      ensures e.parent == null && e.child == null
    {
      assert LinkedAt(chain, i);
      assert i > 0 ==> LinkedAt(chain, i - 1);
      assert i < |chain| - 1 ==> LinkedAt(chain, i + 1);
      if e.parent != null {
        e.parent.child := e.child;
      } else {
        oldest := e.child;
      }
      if e.child != null {
        e.child.parent := e.parent;
      } else {
        youngest := e.parent;
      }
      e.parent, e.child := null, null;
      forall j | 0 <= j < |chain| && j != i
        ensures InTable(chain, j, table.entries) && Bypassed(chain, i, j)
      {
        assert old(LinkedAt(chain, j));
      }
      LinkedWithout(chain, table.entries, i, oldest, youngest);
      chain := Without(chain, i);
    }

    /** Calls are made to whatever listener is set: all that matters here is whether there is one. */
    method SetListener(present: bool)
      modifies this`hasListener
      ensures hasListener == present
    {
      hasListener := present;
    }

    method Size() returns (n: nat)
      requires Valid()
      ensures n == |Contents()|
    {
      VisitsAll(chain, table.entries);
      n := |table.entries|;
    }

    /** The entry of a key, and its place in the chain. */
    method Locate(key: K) returns (e: Node?<K, V>, ghost i: nat)
      requires Valid()
      ensures e == null ==> !Has(Contents(), key)
      ensures e != null ==> i < |chain| && chain[i] == e && e.key == key
    {
      e := table.Find(key);
      i := 0;
      if e != null {
        assert OnChain(e, chain);
        i :| i < |chain| && chain[i] == e;
      } else {
        forall j | 0 <= j < |chain|
          ensures Contents()[j].0 != key
        {
          assert InTable(chain, j, table.entries);
        }
      }
    }

    /** What may be modified later is new or was here before. */
    twostate predicate Grown()
      reads this, table
    {
      (table == old(table) || fresh(table)) && fresh(table.entries - old(table.entries))
    }

    /** The table has at most lost entries. */
    twostate predicate SameTable()
      reads this, table
    {
      table == old(table) && table.capacity == old(table.capacity) &&
      table.filledBuckets <= old(table.filledBuckets) && table.entries <= old(table.entries)
    }

    method Touch(e: Node<K, V>, ghost i: nat)
      requires Valid() && i < |chain| && chain[i] == e
      modifies this`oldest, this`youngest, this`chain, table.entries
      ensures Valid() && chain == Without(old(chain), i) + [e] && SameTable()
    {
      Moved(maxCapacity, chain, table.entries, i);
      KeysDifferMeans(chain);
      NoRepeatsWithout(chain, i);
      assert InTable(chain, i, table.entries);
      DetachFromCache(e, i);
      AttachToCache(e);
    }

    method Discard(e: Node<K, V>, ghost i: nat)
      requires Valid() && i < |chain| && chain[i] == e
      modifies this`oldest, this`youngest, this`chain, table, table.entries
      ensures Valid() && chain == Without(old(chain), i) && SameTable()
    {
      TakenOut(maxCapacity, chain, table.entries, i);
      KeysDifferMeans(chain);
      assert InTable(chain, i, table.entries);
      DetachFromCache(e, i);
      table.RemoveAt(e);
    }

    method Insert(key: K, value: V)
      requires Valid() && !Has(Contents(), key) && (maxCapacity == 0 || |chain| < maxCapacity)
      requires table.HasMoreRoom() || table.entries == {}
      modifies this`oldest, this`youngest, this`chain, table, table.entries
      ensures Valid() && Contents() == old(Contents()) + [(key, value)]
      ensures fresh(table.entries - old(table.entries))
      ensures old(table.HasMoreRoom()) ==>
                table.capacity == old(table.capacity) && table.filledBuckets <= old(table.filledBuckets) + 1
    {
      ghost var entries := table.entries;
      KeysDifferMeans(chain);
      var e := table.AddInPlace(key, value);
      VisitsSnoc(chain, entries, e);
      forall i | 0 <= i < |chain|
        ensures InTable(chain, i, table.entries) && LinkedAt(chain, i)
      {
        assert InTable(chain, i, entries) && old(LinkedAt(chain, i));
      }
      AttachToCache(e);
    }

    /** A hit moves the pair to the young end. */
    method Get(key: K) returns (value: V)
      requires Valid()
      modifies this, table, table.entries
      ensures Valid() && SameTable() && hasListener == old(hasListener)
      ensures Contents() == Next(maxCapacity, old(Contents()), Op.Get(key)) && calls == old(calls)
      ensures value == match Lookup(old(Contents()), key) case Some(v) => v case None => nullValue
    {
      var e, i := Locate(key);
      if e == null {
        return nullValue;
      }
      Moved(maxCapacity, chain, table.entries, i);
      Touch(e, i);
      return e.value;
    }

    /** Reports and removes the pair of a key. */
    method Remove(key: K) returns (removed: bool)
      requires Valid()
      modifies this, table, table.entries
      ensures Valid() && hasListener == old(hasListener) && SameTable()
      ensures removed <==> Has(old(Contents()), key)
      ensures Contents() == Next(maxCapacity, old(Contents()), Op.Remove(key))
      ensures calls ==
                if hasListener then old(calls) + Reported(maxCapacity, old(Contents()), Op.Remove(key)) else old(calls)
    {
      var e, i := Locate(key);
      if e == null {
        return false;
      }
      RemoveFound(e, i);
      return true;
    }

    method RemoveFound(e: Node<K, V>, ghost i: nat)
      requires Valid() && i < |chain| && chain[i] == e
      modifies this, table, table.entries
      ensures Valid() && hasListener == old(hasListener) && SameTable() && Has(old(Contents()), e.key)
      ensures Contents() == Next(maxCapacity, old(Contents()), Op.Remove(e.key))
      ensures calls ==
                if hasListener then old(calls) + Reported(maxCapacity, old(Contents()), Op.Remove(e.key))
                else old(calls)
    {
      TakenOut(maxCapacity, chain, table.entries, i);
      if hasListener {
        calls := calls + [(e.key, e.value)];
      }
      Discard(e, i);
    }

    method RemoveOldest() returns (removed: bool)
      requires Valid()
      modifies this, table, table.entries
      ensures Valid() && hasListener == old(hasListener) && SameTable()
      ensures removed <==> old(Contents()) != []
      ensures Contents() == Next(maxCapacity, old(Contents()), Op.RemoveOldest)
      ensures calls ==
                if hasListener then old(calls) + Reported(maxCapacity, old(Contents()), Op.RemoveOldest) else old(calls)
    {
      if oldest != null {
        KeysDifferMeans(chain);
        OldestByKey(maxCapacity, Contents());
        removed := Remove(oldest.key);
      } else {
        removed := false;
      }
    }

    /** Reports every pair, oldest first, and empties the cache. */
    method Clear()
      requires Valid()
      modifies this`oldest, this`youngest, this`chain, this`calls, table
      ensures Valid() && Grown() && hasListener == old(hasListener)
      ensures Contents() == Next(maxCapacity, old(Contents()), Op.Clear)
      ensures calls ==
                if hasListener then old(calls) + Reported(maxCapacity, old(Contents()), Op.Clear) else old(calls)
      ensures calls == if hasListener then old(calls) + old(Contents()) else old(calls)
    {
      ghost var s := Contents();
      if hasListener {
        var p := oldest;
        ghost var i := 0;
        while p != null
          invariant i <= |chain| && p == At(chain, i)
          invariant calls == old(calls) + s[..i]
          modifies this`calls
          decreases |chain| - i
        {
          assert LinkedAt(chain, i);
          calls := calls + [(p.key, p.value)];
          p, i := p.child, i + 1;
        }
      }
      youngest, oldest, chain := null, null, [];
      table.Clear();
    }

    /** Evicts the oldest pair of a full cache, even if the key then turns out to be present; rebuilds the
        table when it has no more room, so that the table never moves entries that are linked.  A put into
        a table with room never rebuilds it: that ends the recursion with Rehash. */
    method Put(key: K, value: V) returns (done: bool)
      requires Valid()
      modifies this, table, table.entries
      ensures Valid() && Grown() && hasListener == old(hasListener)
      ensures done <==> Accepted(maxCapacity, old(Contents()), Op.Put(key, value)) != []
      ensures Contents() == Next(maxCapacity, old(Contents()), Op.Put(key, value))
      ensures calls ==
                if hasListener then old(calls) + Reported(maxCapacity, old(Contents()), Op.Put(key, value))
                else old(calls)
      ensures old(table.HasMoreRoom()) ==>
                table == old(table) && table.capacity == old(table.capacity) &&
                table.filledBuckets <= old(table.filledBuckets) + 1
      decreases if table.HasMoreRoom() then 0 else 3, 1
    {
      var size := Size();
      if maxCapacity != 0 && size >= maxCapacity {
        var _ := RemoveOldest();
      }
      var e, i := Locate(key);
      if e != null {
        assert Contents()[i].0 == key;
        return false;
      }
      PutAbsent(key, value);
      return true;
    }

    /** The rest of a put, once its key is known to be absent. */
    method PutAbsent(key: K, value: V)
      requires Valid() && !Has(Contents(), key) && (maxCapacity == 0 || |chain| < maxCapacity)
      modifies this, table, table.entries
      ensures Valid() && Grown() && hasListener == old(hasListener) && calls == old(calls)
      ensures Contents() == old(Contents()) + [(key, value)]
      ensures old(table.HasMoreRoom()) ==>
                table == old(table) && table.capacity == old(table.capacity) &&
                table.filledBuckets <= old(table.filledBuckets) + 1
      decreases if table.HasMoreRoom() then 0 else 3, 0
    {
      if !table.HasMoreRoom() {
        VisitsAll(chain, table.entries);
        Rehash(table.capacity * 2);
      }
      Insert(key, value);
    }

    /** What a put of an absent key does in a table with room, in a cache that is not full. */
    method PutIntoRoom(key: K, value: V)
      requires Valid() && table.HasMoreRoom() && !Has(Contents(), key)
      requires maxCapacity == 0 || |chain| < maxCapacity
      modifies this, table, table.entries
      ensures Valid() && hasListener == old(hasListener) && calls == old(calls)
      ensures Contents() == old(Contents()) + [(key, value)]
      ensures table == old(table) && table.capacity == old(table.capacity)
      ensures table.filledBuckets <= old(table.filledBuckets) + 1 && fresh(table.entries - old(table.entries))
      decreases 1
    {
      var _ := Put(key, value);
    }

    /** Moves every pair to a new table, in order; nothing is evicted or reported. */
    method Rehash(newCapacity: nat)
      requires Valid() && |chain| <= newCapacity
      modifies this, table, table.entries
      ensures Valid() && fresh(table) && fresh(table.entries) && hasListener == old(hasListener)
      ensures Contents() == old(Contents()) && calls == old(calls)
      ensures table.filledBuckets <= |chain| && table.capacity >= newCapacity
      decreases 2
    {
      ghost var was, s := chain, Contents();
      var p := oldest;
      oldest, youngest, chain := null, null, [];
      table := new BasicHashtable<K, V>(newCapacity);
      ghost var i := 0;
      while p != null
        invariant i <= |was| && p == At(was, i)
        invariant forall j {:trigger LinkedAt(was, j)} :: 0 <= j < |was| ==> LinkedAt(was, j)
        invariant Valid() && fresh(table) && fresh(table.entries) && hasListener == old(hasListener)
        invariant Contents() == s[..i] && calls == old(calls)
        invariant table.filledBuckets <= i && table.capacity >= newCapacity
        decreases |was| - i
      {
        AbsentBefore(was, i);
        PutIntoRoom(p.key, p.value);
        assert LinkedAt(was, i);
        p, i := p.child, i + 1;
      }
    }

    /** One call of the cache. */
    method Execute(op: Op<K, V>)
      requires Valid()
      modifies this, table, table.entries
      ensures Valid() && Grown() && hasListener == old(hasListener)
      ensures Contents() == Next(maxCapacity, old(Contents()), op)
      ensures calls ==
                if hasListener then old(calls) + Reported(maxCapacity, old(Contents()), op) else old(calls)
    {
      match op
      case Get(key) => var _ := Get(key);
      case Put(key, value) => var _ := Put(key, value);
      case Remove(key) => var _ := Remove(key);
      case RemoveOldest => var _ := RemoveOldest();
      case Clear => Clear();
    }

    /** A run of calls on a new cache: what holds of every run of the specification holds of the pointers. */
    method Replay(ops: seq<Op<K, V>>)
      requires Valid() && Contents() == [] && calls == []
      modifies this, table, table.entries
      ensures Valid() && Contents() == Run(maxCapacity, ops)
      ensures hasListener == old(hasListener) && (hasListener ==> calls == AllReported(maxCapacity, ops))
    {
      for i := 0 to |ops|
        invariant Valid() && Grown() && hasListener == old(hasListener)
        invariant Contents() == Run(maxCapacity, ops[..i])
        invariant hasListener ==> calls == AllReported(maxCapacity, ops[..i])
      {
        assert ops[..i + 1][..i] == ops[..i];
        Execute(ops[i]);
      }
      assert ops[..|ops|] == ops;
    }
  }
}
