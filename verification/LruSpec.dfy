/** The least-recently-used cache as a sequence of pairs, oldest first, and what holds of it after every
    run of calls: distinct keys, the size bound, the order of last use, conservation of the pairs handed to
    the listener, and what keys lead to. */
module LruSpec {
  import opened FiniteSets
  import opened Options

  datatype Op<K, V> = Get(key: K) | Put(key: K, value: V) | Remove(key: K) | RemoveOldest | Clear

  // --- One call ----------------------------------------------------------------------------------

  ghost predicate Has<K, V>(s: seq<(K, V)>, k: K) { exists i :: 0 <= i < |s| && s[i].0 == k }

  /** A place of the key, or -1. */
  ghost function Place<K, V>(s: seq<(K, V)>, k: K): (i: int)
    ensures if Has(s, k) then 0 <= i < |s| && s[i].0 == k else i == -1
  {
    if Has(s, k) then
      var i :| 0 <= i < |s| && s[i].0 == k; i
    else
      -1
  }

  ghost function Lookup<K, V>(s: seq<(K, V)>, k: K): Option<V> {
    if Has(s, k) then Some(s[Place(s, k)].1) else None
  }

  ghost function Drop<K, V>(s: seq<(K, V)>, k: K): seq<(K, V)> {
    if Has(s, k) then s[..Place(s, k)] + s[Place(s, k) + 1..] else s
  }

  /** The pair of a key, as a sequence of at most one element. */
  ghost function Entry<K, V>(s: seq<(K, V)>, k: K): seq<(K, V)> {
    if Has(s, k) then [s[Place(s, k)]] else []
  }

  /** Capacity 0 stands for no limit. */
  ghost predicate Full<K, V>(cap: nat, s: seq<(K, V)>) { cap != 0 && |s| >= cap }

  ghost function Evicted<K, V>(cap: nat, s: seq<(K, V)>): seq<(K, V)> {
    if Full(cap, s) then s[..1] else []
  }

  ghost function AfterEviction<K, V>(cap: nat, s: seq<(K, V)>): seq<(K, V)> {
    if Full(cap, s) then s[1..] else s
  }

  /** The pairs after a call.  A put on a full cache drops the oldest pair before it looks the key up. */
  ghost function Next<K, V>(cap: nat, s: seq<(K, V)>, op: Op<K, V>): seq<(K, V)> {
    match op
    case Get(k) => Drop(s, k) + Entry(s, k)
    case Put(k, v) =>
      var t := AfterEviction(cap, s);
      if Has(t, k) then t else t + [(k, v)]
    case Remove(k) => Drop(s, k)
    case RemoveOldest => if s == [] then s else s[1..]
    case Clear => []
  }

  /** The pairs a call reports to the listener, in order. */
  ghost function Reported<K, V>(cap: nat, s: seq<(K, V)>, op: Op<K, V>): seq<(K, V)> {
    match op
    case Get(_) => []
    case Put(_, _) => Evicted(cap, s)
    case Remove(k) => Entry(s, k)
    case RemoveOldest => if s == [] then [] else s[..1]
    case Clear => s
  }

  /** The pair a call puts in, if it does. */
  ghost function Accepted<K, V>(cap: nat, s: seq<(K, V)>, op: Op<K, V>): seq<(K, V)> {
    if op.Put? && !Has(AfterEviction(cap, s), op.key) then [(op.key, op.value)] else []
  }

  /** The key a call uses: inserted by a put or hit by a get. */
  ghost function Used<K, V>(cap: nat, s: seq<(K, V)>, op: Op<K, V>): Option<K> {
    match op
    case Get(k) => if Has(s, k) then Some(k) else None
    case Put(k, _) => if Has(AfterEviction(cap, s), k) then None else Some(k)
    case _ => None
  }

  // --- Keys --------------------------------------------------------------------------------------

  ghost predicate Distinct<K, V>(s: seq<(K, V)>) {
    forall i, j :: 0 <= i < j < |s| ==> s[i].0 != s[j].0
  }

  /** A key at place i: dropping it closes the gap, and its pair is the one found. */
  lemma DropAt<K, V>(s: seq<(K, V)>, i: nat)
    requires Distinct(s) && i < |s|
    ensures Drop(s, s[i].0) == s[..i] + s[i + 1..]
    ensures Entry(s, s[i].0) == [s[i]]
    ensures Lookup(s, s[i].0) == Some(s[i].1)
  {
    assert Has(s, s[i].0) && Place(s, s[i].0) == i;
  }

  lemma DistinctWithout<K, V>(s: seq<(K, V)>, i: nat)
    requires Distinct(s) && i < |s|
    ensures Distinct(s[..i] + s[i + 1..]) && !Has(s[..i] + s[i + 1..], s[i].0)
  {
    var t := s[..i] + s[i + 1..];
    forall j | 0 <= j < |t|
      ensures t[j] == s[if j < i then j else j + 1]
    {}
  }

  lemma DistinctSnoc<K, V>(s: seq<(K, V)>, p: (K, V))
    requires Distinct(s) && !Has(s, p.0)
    ensures Distinct(s + [p])
  {}

  lemma NextIsDistinct<K, V>(cap: nat, s: seq<(K, V)>, op: Op<K, V>)
    requires Distinct(s)
    ensures Distinct(Next(cap, s, op))
  {
    if op.Get? || op.Remove? {
      if Has(s, op.key) {
        var i :| 0 <= i < |s| && s[i].0 == op.key;
        DropAt(s, i);
        DistinctWithout(s, i);
        DistinctSnoc(s[..i] + s[i + 1..], s[i]);
      }
    } else if op.Put? {
      var t := AfterEviction(cap, s);
      if !Has(t, op.key) { DistinctSnoc(t, (op.key, op.value)); }
    }
  }

  /** A put of a key that is present leaves the cache alone exactly if the cache is not full. */
  lemma PutOfPresentKey<K, V>(cap: nat, s: seq<(K, V)>, k: K, v: V)
    requires Has(s, k)
    ensures Next(cap, s, Put(k, v)) == s && Reported(cap, s, Put(k, v)) == [] <==> !Full(cap, s)
  {
    if Full(cap, s) {
      assert Reported(cap, s, Put(k, v)) == [s[0]];
    }
  }

  /** Nor does it put the pair in, unless it has just evicted the pair of that key. */
  lemma PutOfPresentKeyAccepted<K, V>(cap: nat, s: seq<(K, V)>, k: K, v: V)
    requires Distinct(s) && Has(s, k)
    ensures Accepted(cap, s, Put(k, v)) != [] <==> Full(cap, s) && s[0].0 == k
  {
    var i :| 0 <= i < |s| && s[i].0 == k;
    if Full(cap, s) && i > 0 {
      assert s[1..][i - 1].0 == k;
    }
  }

  /** A hit, and nothing else that is read, becomes the youngest pair; the others keep their order. */
  lemma HitBecomesYoungest<K, V>(cap: nat, s: seq<(K, V)>, k: K, i: nat)
    requires Distinct(s) && i < |s|
    ensures s[i].0 == k ==> Next(cap, s, Get(k)) == s[..i] + s[i + 1..] + [s[i]]
    ensures !Has(s, k) ==> Next(cap, s, Get(k)) == s
  {
    if s[i].0 == k { DropAt(s, i); }
  }

  /** So does a pair that is put in. */
  lemma PutBecomesYoungest<K, V>(cap: nat, s: seq<(K, V)>, k: K, v: V)
    requires !Has(s, k)
    ensures Next(cap, s, Put(k, v)) == (if cap != 0 && |s| >= cap then s[1..] else s) + [(k, v)]
  {
    if Full(cap, s) {
      assert forall i :: 0 <= i < |s| - 1 ==> s[1..][i] == s[i + 1];
    }
  }

  /** Removing the key of the oldest pair is removing the oldest pair. */
  lemma OldestByKey<K, V>(cap: nat, s: seq<(K, V)>)
    requires Distinct(s) && s != []
    ensures Has(s, s[0].0)
    ensures Next(cap, s, Remove(s[0].0)) == Next(cap, s, RemoveOldest)
    ensures Reported(cap, s, Remove(s[0].0)) == Reported(cap, s, RemoveOldest)
  {
    DropAt(s, 0);
    assert s[..0] + s[1..] == s[1..] && s[..1] == [s[0]];
  }

  // --- Runs --------------------------------------------------------------------------------------

  /** The pairs after a run of calls on a new cache. */
  ghost function Run<K, V>(cap: nat, ops: seq<Op<K, V>>): seq<(K, V)> {
    if ops == [] then [] else Next(cap, Run(cap, ops[..|ops| - 1]), ops[|ops| - 1])
  }

  ghost function AllReported<K, V>(cap: nat, ops: seq<Op<K, V>>): seq<(K, V)> {
    if ops == [] then []
    else
      var before, op := ops[..|ops| - 1], ops[|ops| - 1];
      AllReported(cap, before) + Reported(cap, Run(cap, before), op)
  }

  ghost function AllAccepted<K, V>(cap: nat, ops: seq<Op<K, V>>): seq<(K, V)> {
    if ops == [] then []
    else
      var before, op := ops[..|ops| - 1], ops[|ops| - 1];
      AllAccepted(cap, before) + Accepted(cap, Run(cap, before), op)
  }

  lemma {:induction false} RunIsDistinct<K, V>(cap: nat, ops: seq<Op<K, V>>)
    ensures Distinct(Run(cap, ops))
  {
    if ops != [] {
      var n := |ops| - 1;
      RunIsDistinct(cap, ops[..n]);
      NextIsDistinct(cap, Run(cap, ops[..n]), ops[n]);
    }
  }

  lemma NextSize<K, V>(cap: nat, s: seq<(K, V)>, op: Op<K, V>)
    requires Distinct(s)
    ensures |Next(cap, s, op)| + |Reported(cap, s, op)| == |s| + |Accepted(cap, s, op)|
  {
    if op.Get? || op.Remove? {
      if Has(s, op.key) {
        var i :| 0 <= i < |s| && s[i].0 == op.key;
        DropAt(s, i);
      }
    }
  }

  /** The size never exceeds a capacity other than 0. */
  lemma {:induction false} SizeIsBounded<K, V>(cap: nat, ops: seq<Op<K, V>>)
    requires cap != 0
    ensures |Run(cap, ops)| <= cap
  {
    if ops != [] {
      var n := |ops| - 1;
      SizeIsBounded(cap, ops[..n]);
      RunIsDistinct(cap, ops[..n]);
      NextSize(cap, Run(cap, ops[..n]), ops[n]);
    }
  }

  // --- Conservation ------------------------------------------------------------------------------

  lemma TakeOut<T>(s: seq<T>, i: nat)
    requires i < |s|
    ensures multiset(s) == multiset(s[..i] + s[i + 1..]) + multiset([s[i]])
  {
    assert s == s[..i] + [s[i]] + s[i + 1..];
  }

  lemma Rebalance<T>(a: multiset<T>, s: multiset<T>, r: multiset<T>, s': multiset<T>, r': multiset<T>, a': multiset<T>)
    requires a == s + r && s' + r' == s + a'
    ensures a + a' == s' + (r + r')
  {
    assert a + a' == r + (s + a');
    assert s' + (r + r') == r + (s' + r');
  }

  lemma NextConserves<K, V>(cap: nat, s: seq<(K, V)>, op: Op<K, V>)
    requires Distinct(s)
    ensures multiset(Next(cap, s, op)) + multiset(Reported(cap, s, op)) ==
            multiset(s) + multiset(Accepted(cap, s, op))
  {
    match op
    case Put(k, v) =>
      if Full(cap, s) { PutOut(s); }
    case RemoveOldest =>
      if s != [] { PutOut(s); }
    case Clear =>
    case _ =>
      if Has(s, op.key) {
        var i :| 0 <= i < |s| && s[i].0 == op.key;
        DropAt(s, i);
        TakeOut(s, i);
      }
  }

  lemma PutOut<T>(s: seq<T>)
    requires s != []
    ensures multiset(s) == multiset(s[1..]) + multiset(s[..1])
  {
    TakeOut(s, 0);
    assert s[..0] + s[1..] == s[1..] && s[..1] == [s[0]];
  }

  /** With a listener from the start: every pair put in successfully is either still cached or was
      reported, exactly once, over every run. */
  lemma {:induction false} PairsAreConserved<K, V>(cap: nat, ops: seq<Op<K, V>>)
    ensures multiset(AllAccepted(cap, ops)) == multiset(Run(cap, ops)) + multiset(AllReported(cap, ops))
  {
    if ops != [] {
      var n := |ops| - 1;
      var before, op := ops[..n], ops[n];
      var s := Run(cap, before);
      PairsAreConserved(cap, before);
      RunIsDistinct(cap, before);
      NextConserves(cap, s, op);
      Rebalance(multiset(AllAccepted(cap, before)), multiset(s), multiset(AllReported(cap, before)),
                multiset(Next(cap, s, op)), multiset(Reported(cap, s, op)), multiset(Accepted(cap, s, op)));
    }
  }

  // --- Recency -----------------------------------------------------------------------------------

  /** The keys used, in a run, after the last use of k. */
  ghost function UsedSince<K, V>(cap: nat, ops: seq<Op<K, V>>, k: K): set<K> {
    if ops == [] then {}
    else
      var before, op := ops[..|ops| - 1], ops[|ops| - 1];
      match Used(cap, Run(cap, before), op)
      case None => UsedSince(cap, before, k)
      case Some(u) => if u == k then {} else UsedSince(cap, before, k) + {u}
  }

  lemma {:induction false} NotUsedSinceItself<K, V>(cap: nat, ops: seq<Op<K, V>>, k: K)
    ensures k !in UsedSince(cap, ops, k)
  {
    if ops != [] {
      NotUsedSinceItself(cap, ops[..|ops| - 1], k);
    }
  }

  /** Every younger key was used after the last use of every older one. */
  ghost predicate OrderedByUse<K, V>(cap: nat, ops: seq<Op<K, V>>, s: seq<(K, V)>) {
    forall i, j :: 0 <= i < j < |s| ==> s[j].0 in UsedSince(cap, ops, s[i].0)
  }

  /** A call keeps the pairs that stay in order, and puts the one it uses last. */
  lemma NextKeepsOrder<K, V>(cap: nat, s: seq<(K, V)>, op: Op<K, V>)
    returns (rest: seq<(K, V)>, drop: nat)
    requires Distinct(s)
    ensures drop <= |s| && (rest == s || rest == [] || (drop < |s| && rest == s[..drop] + s[drop + 1..]))
    ensures match Used(cap, s, op)
            case None => Next(cap, s, op) == rest
            case Some(u) => !Has(rest, u) && |Next(cap, s, op)| == |rest| + 1 &&
                            Next(cap, s, op)[..|rest|] == rest && Next(cap, s, op)[|rest|].0 == u
  {
    rest, drop := s, 0;
    match op
    case Put(k, v) =>
      if Full(cap, s) {
        rest, drop := s[1..], 0;
      }
    case RemoveOldest =>
      if s != [] { rest := s[1..]; }
    case Clear =>
      rest := [];
    case _ =>
      if Has(s, op.key) {
        var i :| 0 <= i < |s| && s[i].0 == op.key;
        DropAt(s, i);
        DistinctWithout(s, i);
        rest, drop := s[..i] + s[i + 1..], i;
      }
  }

  lemma {:induction false} RunIsOrderedByUse<K, V>(cap: nat, ops: seq<Op<K, V>>)
    ensures OrderedByUse(cap, ops, Run(cap, ops))
  {
    if ops != [] {
      var n := |ops| - 1;
      var before, op := ops[..n], ops[n];
      var s, t := Run(cap, before), Run(cap, ops);
      RunIsOrderedByUse(cap, before);
      RunIsDistinct(cap, before);
      var rest, drop := NextKeepsOrder(cap, s, op);
      assert OrderedByUse(cap, before, rest);
      forall i, j | 0 <= i < j < |t|
        ensures t[j].0 in UsedSince(cap, ops, t[i].0)
      {
        if j < |rest| {
          assert t[i] == rest[i] && t[j] == rest[j];
        } else {
          assert t[i] == rest[i];
        }
      }
    }
  }

  ghost function KeySet<K, V>(s: seq<(K, V)>): (ks: set<K>)
    ensures forall i :: 0 <= i < |s| ==> s[i].0 in ks
    ensures forall k :: k in ks ==> exists i :: 0 <= i < |s| && s[i].0 == k
  {
    if s == [] then {} else KeySet(s[1..]) + {s[0].0}
  }

  lemma {:induction false} DistinctKeySet<K, V>(s: seq<(K, V)>)
    requires Distinct(s)
    ensures |KeySet(s)| == |s|
  {
    if s != [] {
      DistinctKeySet(s[1..]);
      assert s[0].0 !in KeySet(s[1..]);
    }
  }

  /** Recency: in a cache of capacity C, a put evicts a key only if, since that key was last inserted or hit,
      at least C - 1 different other keys have been; and the key evicted is the one used longest ago. */
  lemma EvictionIsOfTheLeastRecentlyUsed<K, V>(cap: nat, ops: seq<Op<K, V>>, put: Op<K, V>, k: K)
    requires cap != 0 && put.Put?
    requires var s := Run(cap, ops); |Evicted(cap, s)| == 1 && Evicted(cap, s)[0].0 == k
    ensures |UsedSince(cap, ops, k)| >= cap - 1 && k !in UsedSince(cap, ops, k)
    ensures forall i :: 0 <= i < |Run(cap, ops)| && Run(cap, ops)[i].0 != k ==>
              Run(cap, ops)[i].0 in UsedSince(cap, ops, k)
  {
    var s := Run(cap, ops);
    RunIsDistinct(cap, ops);
    RunIsOrderedByUse(cap, ops);
    NotUsedSinceItself(cap, ops, k);
    assert s[0].0 == k;
    var others := s[1..];
    forall x | x in KeySet(others)
      ensures x in UsedSince(cap, ops, k)
    {
      var i :| 0 <= i < |others| && others[i].0 == x;
      assert s[i + 1].0 == x;
    }
    DistinctKeySet(others);
    SubsetSize(KeySet(others), UsedSince(cap, ops, k));
  }

  /** Pairs reported by one call come in the order of their last use: the key of each was used after the last use
      of every key reported before it. */
  lemma ReportsAreOrderedByUse<K, V>(cap: nat, ops: seq<Op<K, V>>, op: Op<K, V>)
    ensures OrderedByUse(cap, ops, Reported(cap, Run(cap, ops), op))
  {
    RunIsOrderedByUse(cap, ops);
  }

  /** What leaves the cache without being asked for by its key is what was used longest ago: every key that stays
      was used after the last use of every key reported. */
  lemma OldestLeaveFirst<K, V>(cap: nat, ops: seq<Op<K, V>>, op: Op<K, V>, i: nat, j: nat)
    requires !op.Remove? && i < |Reported(cap, Run(cap, ops), op)|
    requires var t := Next(cap, Run(cap, ops), op); j < |t| && (op.Put? ==> t[j].0 != op.key)
    ensures Next(cap, Run(cap, ops), op)[j].0 in UsedSince(cap, ops, Reported(cap, Run(cap, ops), op)[i].0)
  {
    var s := Run(cap, ops);
    RunIsOrderedByUse(cap, ops);
    assert Reported(cap, s, op)[i] == s[0] && Next(cap, s, op)[j] == s[j + 1];
  }

  // --- The cache as a map ------------------------------------------------------------------------

  lemma LookupIff<K, V>(s: seq<(K, V)>, x: K, v: V)
    requires Distinct(s)
    ensures Lookup(s, x) == Some(v) <==> (x, v) in s
  {
    if (x, v) in s {
      var i :| 0 <= i < |s| && s[i] == (x, v);
      DropAt(s, i);
    }
  }

  /** What a key leads to after a call.  Only a put may change it to a value, only if the key was not there or has
      just been evicted, and then to the value put. */
  lemma NextLookup<K, V>(cap: nat, s: seq<(K, V)>, op: Op<K, V>, x: K, v: V)
    requires Distinct(s)
    ensures Lookup(Next(cap, s, op), x) == Some(v) <==>
            match op
            case Get(_) => Lookup(s, x) == Some(v)
            case Put(k, w) =>
              var evicted := Full(cap, s) && s[0].0 == x;
              if x == k && (evicted || Lookup(s, x) == None) then v == w else !evicted && Lookup(s, x) == Some(v)
            case Remove(k) => x != k && Lookup(s, x) == Some(v)
            case RemoveOldest => s != [] && s[0].0 != x && Lookup(s, x) == Some(v)
            case Clear => false
  {
    var t := Next(cap, s, op);
    NextIsDistinct(cap, s, op);
    LookupIff(s, x, v);
    LookupIff(t, x, v);
    match op
    case Get(k) => DroppedPairs(s, k, x, v);
    case Remove(k) => DroppedPairs(s, k, x, v);
    case Put(k, w) => PutPairs(cap, s, k, w, x, v);
    case RemoveOldest => if s != [] { WithoutOldest(s, x, v); }
    case Clear =>
  }

  lemma WithoutOldest<K, V>(s: seq<(K, V)>, x: K, v: V)
    requires Distinct(s) && s != []
    ensures (x, v) in s[1..] <==> (x, v) in s && s[0].0 != x
  {
    if (x, v) in s[1..] {
      var i :| 0 <= i < |s| - 1 && s[1..][i] == (x, v);
      assert s[i + 1].0 != s[0].0;
    }
    if (x, v) in s && s[0].0 != x {
      var i :| 0 <= i < |s| && s[i] == (x, v);
      assert s[1..][i - 1] == (x, v);
    }
  }

  lemma HasIff<K, V>(s: seq<(K, V)>, x: K)
    ensures Has(s, x) <==> exists v :: (x, v) in s
  {
    if Has(s, x) {
      var i :| 0 <= i < |s| && s[i].0 == x;
      assert (x, s[i].1) in s;
    }
  }

  lemma DroppedPairs<K, V>(s: seq<(K, V)>, k: K, x: K, v: V)
    requires Distinct(s)
    ensures (x, v) in Drop(s, k) <==> (x, v) in s && x != k
    ensures (x, v) in Drop(s, k) + Entry(s, k) <==> (x, v) in s
  {
    if Has(s, k) {
      var i :| 0 <= i < |s| && s[i].0 == k;
      DropAt(s, i);
      DistinctWithout(s, i);
      assert s == s[..i] + [s[i]] + s[i + 1..];
      assert (x, v) in s <==> (x, v) in s[..i] + s[i + 1..] || (x, v) == s[i];
      HasIff(s[..i] + s[i + 1..], k);
    }
  }

  lemma PutPairs<K, V>(cap: nat, s: seq<(K, V)>, k: K, w: V, x: K, v: V)
    requires Distinct(s)
    ensures var evicted := Full(cap, s) && s[0].0 == x;
            (x, v) in Next(cap, s, Put(k, w)) <==>
            if x == k && (evicted || Lookup(s, x) == None) then v == w else !evicted && (x, v) in s
  {
    var t := AfterEviction(cap, s);
    if Full(cap, s) {
      WithoutOldest(s, x, v);
      AbsentAfterEviction(s, k);
    }
    assert (x, v) in t + [(k, w)] <==> (x, v) in t || (x, v) == (k, w);
    HasIff(t, k);
  }

  lemma AbsentAfterEviction<K, V>(s: seq<(K, V)>, k: K)
    requires Distinct(s) && s != []
    ensures Has(s[1..], k) <==> Has(s, k) && s[0].0 != k
  {
    if Has(s, k) && s[0].0 != k {
      var i :| 0 <= i < |s| && s[i].0 == k;
      assert s[1..][i - 1].0 == k;
    }
    if Has(s[1..], k) {
      var i :| 0 <= i < |s| - 1 && s[1..][i].0 == k;
      assert s[i + 1].0 == k && s[i + 1].0 != s[0].0;
    }
  }

  // Over runs.

  /** What a call put in and took out. */
  datatype Record<K, V> = Record(accepted: seq<(K, V)>, reported: seq<(K, V)>)

  /** What each call of a run put in and took out. */
  ghost function Records<K, V>(cap: nat, ops: seq<Op<K, V>>): (h: seq<Record<K, V>>)
    ensures |h| == |ops|
  {
    if ops == [] then []
    else
      var before, op := ops[..|ops| - 1], ops[|ops| - 1];
      var s := Run(cap, before);
      Records(cap, before) + [Record(Accepted(cap, s, op), Reported(cap, s, op))]
  }

  /** The call at place i put the value under the key, and no later call took the pair of the key out. */
  ghost predicate LastPut<K, V>(h: seq<Record<K, V>>, i: nat, k: K, v: V)
    requires i < |h|
  {
    h[i].accepted == [(k, v)] && forall j :: i < j < |h| ==> !Has(h[j].reported, k)
  }

  ghost predicate PutBefore<K, V>(h: seq<Record<K, V>>, k: K, v: V) {
    exists i :: 0 <= i < |h| && LastPut(h, i, k, v)
  }

  lemma PutBeforeOneMore<K, V>(h: seq<Record<K, V>>, r: Record<K, V>, k: K, v: V)
    ensures PutBefore(h + [r], k, v) <==> r.accepted == [(k, v)] || (PutBefore(h, k, v) && !Has(r.reported, k))
  {
    var all := h + [r];
    if PutBefore(all, k, v) {
      var i :| 0 <= i < |all| && LastPut(all, i, k, v);
      if i < |h| {
        assert all[|h|] == r;
        assert forall j :: 0 <= j < |h| ==> all[j] == h[j];
        assert LastPut(h, i, k, v);
      }
    }
    if r.accepted == [(k, v)] {
      assert LastPut(all, |h|, k, v);
    }
    if PutBefore(h, k, v) && !Has(r.reported, k) {
      var i :| 0 <= i < |h| && LastPut(h, i, k, v);
      assert LastPut(all, i, k, v);
    }
  }

  lemma NextLookupByReports<K, V>(cap: nat, s: seq<(K, V)>, op: Op<K, V>, x: K, v: V)
    requires Distinct(s)
    ensures Lookup(Next(cap, s, op), x) == Some(v) <==>
            Accepted(cap, s, op) == [(x, v)] || (Lookup(s, x) == Some(v) && !Has(Reported(cap, s, op), x))
  {
    NextLookup(cap, s, op, x, v);
    match op
    case Put(_, _) => PutReports(cap, s, op, x, v);
    case Remove(k) => if Has(s, k) { HasOne(s[Place(s, k)], x); }
    case RemoveOldest =>
      if s != [] {
        HasOne(s[0], x);
        assert s[..1] == [s[0]];
      }
    case _ =>
  }

  lemma HasOne<K, V>(p: (K, V), x: K)
    ensures Has([p], x) <==> p.0 == x
  {
    assert [p][0] == p;
  }

  lemma PutReports<K, V>(cap: nat, s: seq<(K, V)>, op: Op<K, V>, x: K, v: V)
    requires Distinct(s) && op.Put?
    ensures Has(Reported(cap, s, op), x) <==> Full(cap, s) && s[0].0 == x
    ensures Accepted(cap, s, op) == [(x, v)] <==>
            (op.key, op.value) == (x, v) && ((Full(cap, s) && s[0].0 == x) || Lookup(s, x) == None)
  {
    if Full(cap, s) { AbsentAfterEviction(s, op.key); }
  }

  /** After every run a key leads to a value if and only if some put of that value under the key was accepted and
      its pair has not been taken out since. */
  lemma {:induction false} LookupIsTheLastPut<K, V>(cap: nat, ops: seq<Op<K, V>>, k: K, v: V)
    ensures Lookup(Run(cap, ops), k) == Some(v) <==> PutBefore(Records(cap, ops), k, v)
  {
    if ops != [] {
      var n := |ops| - 1;
      var s := Run(cap, ops[..n]);
      LookupIsTheLastPut(cap, ops[..n], k, v);
      RunIsDistinct(cap, ops[..n]);
      NextLookupByReports(cap, s, ops[n], k, v);
      PutBeforeOneMore(Records(cap, ops[..n]), Record(Accepted(cap, s, ops[n]), Reported(cap, s, ops[n])), k, v);
    }
  }
}
