/** What the calls on strong pointers come to, in every interleaving: what an sp holds when the call on it is over,
    and that every call is over after a bounded number of steps. */
module RefCountCalls {
  import opened Options
  import opened RefCount

  // --- What a call leaves ------------------------------------------------------------------------

  /** The call on the sp is under way, and will leave it with the pointer. */
  ghost predicate Heading(st: State, s: SpId, t: Thread, p: Option<ObjectId>) {
    s in st.sps && st.sps[s].home == Of(t) && s in st.ops &&
    match st.ops[s]
    case ConstructInc(o) => p == Some(o) == st.sps[s].ptr
    case AssignInc(o) => p == Some(o)
    case Drop(other, ending) => p == other && ending == Keep
    case Delete(_, other, ending) => p == other && ending == Keep
    case Store(other, ending) => p == other && ending == Keep
  }

  ghost predicate Holding(st: State, s: SpId, t: Thread, p: Option<ObjectId>) {
    s in st.sps && st.sps[s] == Sp(p, Of(t)) && s !in st.ops
  }

  lemma NextKeepsHeading(st: State, step: Step, s: SpId, t: Thread, p: Option<ObjectId>)
    requires Inv(st) && Enabled(st, step) && Heading(st, s, t, p)
    ensures Heading(Next(st, step), s, t, p) || Holding(Next(st, step), s, t, p)
  {
    assert Owns(st, t, s);
  }

  lemma NextKeepsHolding(st: State, step: Step, s: SpId, t: Thread, p: Option<ObjectId>)
    requires Inv(st) && Enabled(st, step) && Holding(st, s, t, p) && !Idle(st, t)
    ensures Holding(Next(st, step), s, t, p)
  {
    assert Owns(st, t, s);
  }

  ghost predicate OnTheWay(st: State, s: SpId, t: Thread, p: Option<ObjectId>) {
    Heading(st, s, t, p) || Holding(st, s, t, p)
  }

  /** The thread has been in calls all along the rest of the run. */
  ghost predicate BusyUntil(start: seq<Step>, more: seq<Step>, t: Thread) {
    Run(start + more).Some? &&
    forall j :: 0 <= j < |more| ==> Run(start + more[..j]).Some? && !Idle(Run(start + more[..j]).value, t)
  }

  lemma {:induction false} OnTheWayUntilIdle(start: seq<Step>, more: seq<Step>, s: SpId, t: Thread,
                                             p: Option<ObjectId>)
    requires Run(start).Some? && OnTheWay(Run(start).value, s, t, p) && BusyUntil(start, more, t)
    ensures OnTheWay(Run(start + more).value, s, t, p)
  {
    if more == [] {
      assert start + more == start;
    } else {
      var k := |more| - 1;
      assert (start + more)[..|start + more| - 1] == start + more[..k];
      assert forall j :: 0 <= j < k ==> more[..k][..j] == more[..j];
      OnTheWayUntilIdle(start, more[..k], s, t, p);
      var st := Run(start + more[..k]).value;
      EveryRunKeepsInv(start + more[..k]);
      if Heading(st, s, t, p) {
        NextKeepsHeading(st, more[k], s, t, p);
      } else {
        NextKeepsHolding(st, more[k], s, t, p);
      }
    }
  }

  /** A run goes on from a call until its thread is between calls for the first time. */
  ghost predicate CallEnds(steps: seq<Step>, call: Step, more: seq<Step>, t: Thread) {
    Run(steps).Some? && Run(steps + [call]).Some? && BusyUntil(steps + [call], more, t) &&
    Idle(Run(steps + [call] + more).value, t)
  }

  lemma CallLeaves(steps: seq<Step>, call: Step, more: seq<Step>, s: SpId, t: Thread, p: Option<ObjectId>)
    requires CallEnds(steps, call, more, t) && OnTheWay(Run(steps + [call]).value, s, t, p)
    ensures var st' := Run(steps + [call] + more).value; s in st'.sps && st'.sps[s] == Sp(p, Of(t))
  {
    var st' := Run(steps + [call] + more).value;
    OnTheWayUntilIdle(steps + [call], more, s, t, p);
    if Heading(st', s, t, p) {
      assert Owns(st', t, s);
    }
  }

  lemma RunSnoc(steps: seq<Step>, step: Step)
    requires Run(steps + [step]).Some?
    ensures Run(steps).Some? && Enabled(Run(steps).value, step)
    ensures Run(steps + [step]).value == Next(Run(steps).value, step)
  {
    assert (steps + [step])[..|steps|] == steps;
  }

  lemma CallsAreOnSps(st: State)
    requires Inv(st)
    ensures st.ops.Keys <= st.sps.Keys
  {
    forall s | s in st.ops
      ensures s in st.sps
    {
      CallsAreOfThreads(st, s);
    }
  }

  /** Once an assignment is over, the sp holds the pointer that its source had when it began. */
  lemma AssignedPointer(steps: seq<Step>, t: Thread, dst: SpId, path: seq<SpId>, more: seq<Step>)
    requires CallEnds(steps, Assign(t, dst, FromPath(path)), more, t)
    ensures path != [] && path[|path| - 1] in Run(steps).value.sps
    ensures var st' := Run(steps + [Assign(t, dst, FromPath(path))] + more).value;
            dst in st'.sps && st'.sps[dst] == Sp(Run(steps).value.sps[path[|path| - 1]].ptr, Of(t))
  {
    var call := Assign(t, dst, FromPath(path));
    RunSnoc(steps, call);
    CallLeaves(steps, call, more, dst, t, Run(steps).value.sps[path[|path| - 1]].ptr);
  }

  lemma AssignedRaw(steps: seq<Step>, t: Thread, dst: SpId, o: ObjectId, more: seq<Step>)
    requires CallEnds(steps, Assign(t, dst, FromRaw(o)), more, t)
    ensures var st' := Run(steps + [Assign(t, dst, FromRaw(o))] + more).value;
            dst in st'.sps && st'.sps[dst] == Sp(Some(o), Of(t))
  {
    var call := Assign(t, dst, FromRaw(o));
    RunSnoc(steps, call);
    CallLeaves(steps, call, more, dst, t, Some(o));
  }

  /** So does an sp that has been constructed. */
  lemma ConstructedPointer(steps: seq<Step>, t: Thread, dst: SpId, path: seq<SpId>, more: seq<Step>)
    requires CallEnds(steps, Construct(t, dst, FromPath(path)), more, t)
    ensures path != [] && path[|path| - 1] in Run(steps).value.sps
    ensures var st' := Run(steps + [Construct(t, dst, FromPath(path))] + more).value;
            dst in st'.sps && st'.sps[dst] == Sp(Run(steps).value.sps[path[|path| - 1]].ptr, Of(t))
  {
    var call := Construct(t, dst, FromPath(path));
    RunSnoc(steps, call);
    EveryRunKeepsInv(steps);
    CallsAreOnSps(Run(steps).value);
    CallLeaves(steps, call, more, dst, t, Run(steps).value.sps[path[|path| - 1]].ptr);
  }

  lemma ConstructedRaw(steps: seq<Step>, t: Thread, dst: SpId, o: ObjectId, more: seq<Step>)
    requires CallEnds(steps, Construct(t, dst, FromRaw(o)), more, t)
    ensures var st' := Run(steps + [Construct(t, dst, FromRaw(o))] + more).value;
            dst in st'.sps && st'.sps[dst] == Sp(Some(o), Of(t))
  {
    var call := Construct(t, dst, FromRaw(o));
    RunSnoc(steps, call);
    CallLeaves(steps, call, more, dst, t, Some(o));
  }

  /** An sp that has been cleared holds nothing. */
  lemma ClearedPointer(steps: seq<Step>, t: Thread, dst: SpId, more: seq<Step>)
    requires CallEnds(steps, Clear(t, dst), more, t)
    ensures var st' := Run(steps + [Clear(t, dst)] + more).value;
            dst in st'.sps && st'.sps[dst] == Sp(None, Of(t))
  {
    var call := Clear(t, dst);
    RunSnoc(steps, call);
    assert dst !in Run(steps).value.ops by { assert Owns(Run(steps).value, t, dst); }
    CallLeaves(steps, call, more, dst, t, None);
  }

  /** An sp that is being destroyed keeps its pointer until it is gone, which it is by the time its thread is between
      calls. */
  lemma DestroyedPointer(steps: seq<Step>, t: Thread, dst: SpId, more: seq<Step>) returns (n: nat)
    requires CallEnds(steps, Destroy(t, dst), more, t)
    ensures dst in Run(steps).value.sps
    ensures n <= |more| && DestroyedAfter(steps + [Destroy(t, dst)] + more[..n], dst)
    ensures forall j :: 0 <= j < n ==>
              DestroyingAfter(steps + [Destroy(t, dst)] + more[..j], dst, t, Run(steps).value.sps[dst].ptr)
  {
    var start := steps + [Destroy(t, dst)];
    RunSnoc(steps, Destroy(t, dst));
    n := DestroyedInTheEnd(start, more, dst, t, Run(steps).value.sps[dst].ptr);
    if n == |more| + 1 {
      assert more[..|more|] == more;
      assert Owns(Run(start + more).value, t, dst);
    }
  }

  /** What the steps do that are over at once: an object is made, and an sp changes hands with what it holds. */
  ghost predicate OneStepDone(st: State, st': State, call: Step) {
    match call
    case New(t, o) =>
      o !in st.objects && o in st'.objects && st'.objects[o] == Object(0, 0, Some(t)) && st'.sps == st.sps
    case HandOver(t, s, u) =>
      Owns(st, t, s) && Owns(st', u, s) && st'.sps[s].ptr == st.sps[s].ptr && st'.objects == st.objects
    case Embed(t, s, o) =>
      Owns(st, t, s) && IsMember(st', s, o) && st'.sps[s].ptr == st.sps[s].ptr && st'.objects == st.objects
    case _ => false
  }

  lemma OneStepCalls(steps: seq<Step>, call: Step)
    requires Run(steps + [call]).Some? && (call.New? || call.HandOver? || call.Embed?)
    ensures Run(steps).Some? && OneStepDone(Run(steps).value, Run(steps + [call]).value, call)
  {
    RunSnoc(steps, call);
  }

  /** What a thread between calls may do: make an object, wrap the pointer it has just made, and copy, assign, clear
      and destroy what it owns; copies may be taken of members of the objects it holds. */
  lemma ThreadsMayCall(st: State, t: Thread, s: SpId)
    requires Idle(st, t) && Owns(st, t, s)
    ensures forall o :: o !in st.objects ==> Enabled(st, New(t, o))
    ensures Enabled(st, Clear(t, s)) && Enabled(st, Destroy(t, s)) && Enabled(st, Assign(t, s, FromPath([s])))
    ensures forall dst :: dst !in st.sps ==> Enabled(st, Construct(t, dst, FromPath([s])))
    ensures forall dst :: Owns(st, t, dst) ==> Enabled(st, Assign(t, dst, FromPath([s])))
    ensures forall o, dst :: o in st.objects && st.objects[o].raw == Some(t) && dst !in st.sps ==>
              Enabled(st, Construct(t, dst, FromRaw(o)))
    ensures forall m :: m in st.sps && st.sps[s].ptr.Some? && st.sps[m].home == In(st.sps[s].ptr.value) ==>
              Enabled(st, Assign(t, s, FromPath([s, m])))
  {
    assert Path(st, t, [s]);
    forall m | m in st.sps && st.sps[s].ptr.Some? && st.sps[m].home == In(st.sps[s].ptr.value)
      ensures Enabled(st, Assign(t, s, FromPath([s, m])))
    {
      assert [s, m][..1] == [s];
    }
  }

  // --- Every call ends ---------------------------------------------------------------------------

  /** How many steps an sp can still take part in, at most: those of its call, and of its destruction if it is a
      member. */
  function Weight(st: State, s: SpId): nat {
    if s !in st.sps then 0
    else if s in st.ops then
      match st.ops[s]
      case ConstructInc(_) => 1
      case AssignInc(_) => 4
      case Drop(_, _) => 3
      case Delete(_, _, _) => 2
      case Store(_, _) => 1
    else if st.sps[s].home.In? then 4
    else 0
  }

  ghost function Pick(ss: set<SpId>): (s: SpId)
    requires ss != {}
    ensures s in ss
  {
    var s :| s in ss; s
  }

  ghost function Work(st: State, ss: set<SpId>): nat {
    if ss == {} then 0 else Weight(st, Pick(ss)) + Work(st, ss - {Pick(ss)})
  }

  lemma {:induction false} WorkAtMost(st: State, st': State, ss: set<SpId>)
    requires forall x :: x in ss ==> Weight(st', x) <= Weight(st, x)
    ensures Work(st', ss) <= Work(st, ss)
    decreases ss
  {
    if ss != {} { WorkAtMost(st, st', ss - {Pick(ss)}); }
  }

  lemma {:induction false} WorkLess(st: State, st': State, ss: set<SpId>, s: SpId)
    requires forall x :: x in ss ==> Weight(st', x) <= Weight(st, x)
    requires s in ss && Weight(st', s) < Weight(st, s)
    ensures Work(st', ss) < Work(st, ss)
    decreases ss
  {
    if s == Pick(ss) {
      WorkAtMost(st, st', ss - {s});
    } else {
      WorkLess(st, st', ss - {Pick(ss)}, s);
    }
  }

  /** A step inside a call makes less work, and no new sp objects. */
  lemma ActLightens(st: State, s: SpId, ss: set<SpId>)
    requires Inv(st) && s in st.ops && st.sps.Keys <= ss
    ensures CanProceed(st, s) && Proceed(st, s).sps.Keys <= ss && Work(Proceed(st, s), ss) < Work(st, ss)
  {
    ProceedKeepsInv(st, s);
    CallsAreOfThreads(st, s);
    var st' := Proceed(st, s);
    forall x | x in ss
      ensures Weight(st', x) <= Weight(st, x)
    {
      WeightFalls(st, s, x);
    }
    WeightFalls(st, s, s);
    WorkLess(st, st', ss, s);
  }

  lemma WeightFalls(st: State, s: SpId, x: SpId)
    requires Inv(st) && s in st.ops && CanProceed(st, s)
    ensures Weight(Proceed(st, s), x) <= Weight(st, x)
    ensures x == s ==> Weight(Proceed(st, s), x) < Weight(st, x)
  {
    CallsAreOfThreads(st, s);
    if x in st.sps { assert SpOk(st, x); }
    if x in st.ops { CallsAreOfThreads(st, x); }
  }

  ghost predicate ActsOnly(acts: seq<Step>) { forall i :: 0 <= i < |acts| ==> acts[i].Act? }

  lemma {:induction false} ActsLighten(steps: seq<Step>, acts: seq<Step>, ss: set<SpId>)
    requires Run(steps).Some? && Run(steps + acts).Some? && ActsOnly(acts) && Run(steps).value.sps.Keys <= ss
    ensures Run(steps + acts).value.sps.Keys <= ss
    ensures Work(Run(steps + acts).value, ss) + |acts| <= Work(Run(steps).value, ss)
  {
    if acts == [] {
      assert steps + acts == steps;
    } else {
      var k := |acts| - 1;
      assert steps + acts == (steps + acts[..k]) + [acts[k]];
      RunSnoc(steps + acts[..k], acts[k]);
      ActsLighten(steps, acts[..k], ss);
      EveryRunKeepsInv(steps + acts[..k]);
      ActLightens(Run(steps + acts[..k]).value, acts[k].s, ss);
    }
  }

  /** However the threads are scheduled, the calls under way take no more steps than that: no call goes on for
      ever. */
  lemma CallsAreBounded(steps: seq<Step>, acts: seq<Step>)
    requires Run(steps).Some? && Run(steps + acts).Some? && ActsOnly(acts)
    ensures |acts| <= Work(Run(steps).value, Run(steps).value.sps.Keys)
  {
    ActsLighten(steps, acts, Run(steps).value.sps.Keys);
  }

  /** And they can always be completed. */
  lemma {:induction false} CallsComplete(steps: seq<Step>, ss: set<SpId>) returns (acts: seq<Step>)
    requires Run(steps).Some? && Run(steps).value.sps.Keys <= ss
    ensures ActsOnly(acts) && Run(steps + acts).Some? && Run(steps + acts).value.ops == map[]
    decreases Work(Run(steps).value, ss)
  {
    var st := Run(steps).value;
    if st.ops == map[] {
      acts := [];
      assert steps + acts == steps;
    } else {
      var s :| s in st.ops;
      var next := steps + [Act(s)];
      assert next[..|steps|] == steps;
      EveryRunKeepsInv(steps);
      ActLightens(st, s, ss);
      var rest := CallsComplete(next, ss);
      acts := [Act(s)] + rest;
      assert steps + acts == next + rest;
    }
  }
}
