/** The atomic operations of atomic-x86.h on one shared word, by any number of threads, one atomic step at a
    time: add, inc, dec and cas are single steps; and, or are a load and a cas, repeated until the cas
    succeeds.  The steps are the same whatever the arithmetic of the word is: it is a parameter, and MACHINE
    is that of int32_t. */
module AtomicWord {
  import opened Binary
  import opened Int32

  type Thread = nat

  datatype Operations<!W> = Operations(plus: (W, W) -> W, both: (W, W) -> W, either: (W, W) -> W)

  /** The two's complement of a number. */
  function Bits(x: int32): word { (x % TWO_TO_THE_32) as word }

  function Plus(a: int32, b: int32): int32 { Wrap32(a + b) }

  function Both(a: int32, b: int32): int32 { Wrap32(Binary.And(Bits(a), Bits(b)) as int) }

  function Either(a: int32, b: int32): int32 { Wrap32(Binary.Or(Bits(a), Bits(b)) as int) }

  const MACHINE: Operations<int32> := Operations(Plus, Both, Either)

  datatype Call<W> = Add(increment: W) | Cas(expected: W, replacement: W) | And(mask: W) | Or(mask: W)

  const INC: Call<int32> := Add(1)
  const DEC: Call<int32> := Add(-1)

  /** The previous word; or, from a cas, whether it found something else than expected. */
  datatype Returned<W> = Previous(word: W) | Status(failed: bool)

  /** A call that has returned, with the length of the log when it began. */
  datatype Entry<W> = Entry(t: Thread, call: Call<W>, result: Returned<W>, began: nat)

  /** Where a thread is in a call: before its next load (or its one step), or between load and cas; `loaded`
      is the length of the log at the load, `failures` counts the cas steps that have failed. */
  datatype Pc<W> =
    | Idle
    | Calling(call: Call<W>, began: nat, failures: nat)
    | Loaded(call: Call<W>, began: nat, failures: nat, prev: W, loaded: nat)

  datatype State<W> = State(word: W, pcs: map<Thread, Pc<W>>, log: seq<Entry<W>>)

  datatype Step<W> = Begin(t: Thread, call: Call<W>) | Act(t: Thread)

  function PcOf<W>(st: State<W>, t: Thread): Pc<W> { if t in st.pcs then st.pcs[t] else Idle }

  // --- Atomic steps ------------------------------------------------------------------------------

  function Goto<W>(st: State<W>, t: Thread, pc: Pc<W>): State<W> { st.(pcs := st.pcs[t := pc]) }

  function Return<W>(st: State<W>, t: Thread, word: W, result: Returned<W>): State<W>
    requires !PcOf(st, t).Idle?
  {
    State(word, st.pcs[t := Idle], st.log + [Entry(t, PcOf(st, t).call, result, PcOf(st, t).began)])
  }

  /** The value that and, or put in the place of the one they have loaded. */
  function Combined<W>(ops: Operations<W>, call: Call<W>, prev: W): W
    requires call.And? || call.Or?
  {
    if call.And? then ops.both(prev, call.mask) else ops.either(prev, call.mask)
  }

  function Next<W(==)>(ops: Operations<W>, st: State<W>, step: Step<W>): State<W> {
    var t, pc := step.t, PcOf(st, step.t);
    if step.Begin? then
      if pc.Idle? then Goto(st, t, Calling(step.call, |st.log|, 0)) else st
    else
      match pc
      case Idle => st
      case Calling(Add(increment), _, _) => Return(st, t, ops.plus(st.word, increment), Previous(st.word))
      case Calling(Cas(expected, replacement), _, _) =>
        if st.word == expected then Return(st, t, replacement, Status(false)) else Return(st, t, st.word, Status(true))
      case Calling(call, began, failures) => Goto(st, t, Loaded(call, began, failures, st.word, |st.log|))
      case Loaded(call, began, failures, prev, _) =>
        if st.word == prev && (call.And? || call.Or?) then Return(st, t, Combined(ops, call, prev), Previous(prev))
        else Goto(st, t, Calling(call, began, failures + 1))
  }

  function Run<W(==)>(ops: Operations<W>, word: W, steps: seq<Step<W>>): State<W> {
    if steps == [] then State(word, map[], [])
    else Next(ops, Run(ops, word, steps[..|steps| - 1]), steps[|steps| - 1])
  }

  // --- What each call is meant to do, at once ----------------------------------------------------

  function Effect<W(==)>(ops: Operations<W>, call: Call<W>, word: W): W {
    match call
    case Add(increment) => ops.plus(word, increment)
    case Cas(expected, replacement) => if word == expected then replacement else word
    case And(mask) => ops.both(word, mask)
    case Or(mask) => ops.either(word, mask)
  }

  function Result<W(==)>(call: Call<W>, word: W): Returned<W> {
    if call.Cas? then Status(word != call.expected) else Previous(word)
  }

  /** The word after the calls of a log have been carried out one after the other. */
  function Fold<W(==)>(ops: Operations<W>, word: W, log: seq<Entry<W>>): W {
    if log == [] then word else Effect(ops, log[|log| - 1].call, Fold(ops, word, log[..|log| - 1]))
  }

  /** A call returned what it would have if all before it in the log had been carried out in that order. */
  ghost predicate EntryOk<W>(ops: Operations<W>, word: W, log: seq<Entry<W>>, i: nat)
    requires i < |log|
  {
    log[i].result == Result(log[i].call, Fold(ops, word, log[..i])) && log[i].began <= i
  }

  ghost predicate Sequential<W>(ops: Operations<W>, word: W, log: seq<Entry<W>>) {
    forall i :: 0 <= i < |log| ==> EntryOk(ops, word, log, i)
  }

  // --- The invariant -----------------------------------------------------------------------------

  ghost predicate PcOk<W>(ops: Operations<W>, word: W, st: State<W>, t: Thread) {
    match PcOf(st, t)
    case Idle => true
    case Calling(_, began, failures) => began + failures <= |st.log|
    case Loaded(call, began, failures, prev, loaded) =>
      (call.And? || call.Or?) && began + failures <= loaded <= |st.log| && prev == Fold(ops, word, st.log[..loaded])
  }

  ghost predicate Inv<W>(ops: Operations<W>, word: W, st: State<W>) {
    st.word == Fold(ops, word, st.log) && Sequential(ops, word, st.log) &&
    forall t: Thread :: PcOk(ops, word, st, t)
  }

  lemma SequentialSnoc<W>(ops: Operations<W>, word: W, log: seq<Entry<W>>, e: Entry<W>)
    requires Sequential(ops, word, log) && e.result == Result(e.call, Fold(ops, word, log)) && e.began <= |log|
    ensures Sequential(ops, word, log + [e])
    ensures Fold(ops, word, log + [e]) == Effect(ops, e.call, Fold(ops, word, log))
  {
    var all := log + [e];
    assert all[..|log|] == log;
    forall i | 0 <= i < |all|
      ensures EntryOk(ops, word, all, i)
    {
      if i < |log| {
        assert EntryOk(ops, word, log, i) && all[..i] == log[..i];
      }
    }
  }

  lemma OthersStayOk<W>(ops: Operations<W>, word: W, st: State<W>, st': State<W>, t: Thread)
    requires PcOk(ops, word, st, t) && PcOf(st', t) == PcOf(st, t)
    requires |st.log| <= |st'.log| && st'.log[..|st.log|] == st.log
    ensures PcOk(ops, word, st', t)
  {
    var pc := PcOf(st, t);
    if pc.Loaded? {
      assert st'.log[..pc.loaded] == st.log[..pc.loaded];
    }
  }

  lemma ReturnKeepsInv<W>(ops: Operations<W>, word: W, st: State<W>, t: Thread, w: W, result: Returned<W>)
    requires Inv(ops, word, st) && !PcOf(st, t).Idle?
    requires w == Effect(ops, PcOf(st, t).call, st.word) && result == Result(PcOf(st, t).call, st.word)
    ensures Inv(ops, word, Return(st, t, w, result))
  {
    var st', pc := Return(st, t, w, result), PcOf(st, t);
    assert PcOk(ops, word, st, t);
    SequentialSnoc(ops, word, st.log, Entry(t, pc.call, result, pc.began));
    forall u: Thread
      ensures PcOk(ops, word, st', u)
    {
      if u != t { OthersStayOk(ops, word, st, st', u); }
    }
  }

  lemma GotoKeepsInv<W>(ops: Operations<W>, word: W, st: State<W>, t: Thread, pc: Pc<W>)
    requires Inv(ops, word, st) && PcOk(ops, word, Goto(st, t, pc), t)
    ensures Inv(ops, word, Goto(st, t, pc))
  {
    forall u: Thread
      ensures PcOk(ops, word, Goto(st, t, pc), u)
    {
      if u != t { OthersStayOk(ops, word, st, Goto(st, t, pc), u); }
    }
  }

  /** A cas fails only if some call has returned since the load. */
  lemma FailedCasMeansProgress<W>(ops: Operations<W>, word: W, st: State<W>, t: Thread)
    requires Inv(ops, word, st) && PcOf(st, t).Loaded? && st.word != PcOf(st, t).prev
    ensures PcOf(st, t).loaded < |st.log|
  {
    assert PcOk(ops, word, st, t);
    assert st.log[..|st.log|] == st.log;
  }

  lemma NextKeepsInv<W>(ops: Operations<W>, word: W, st: State<W>, step: Step<W>)
    requires Inv(ops, word, st)
    ensures Inv(ops, word, Next(ops, st, step))
  {
    var t, pc := step.t, PcOf(st, step.t);
    assert PcOk(ops, word, st, t);
    if step.Begin? {
      if pc.Idle? { GotoKeepsInv(ops, word, st, t, Calling(step.call, |st.log|, 0)); }
    } else if pc.Calling? && (pc.call.And? || pc.call.Or?) {
      assert st.log[..|st.log|] == st.log;
      GotoKeepsInv(ops, word, st, t, Loaded(pc.call, pc.began, pc.failures, st.word, |st.log|));
    } else if pc.Loaded? && st.word != pc.prev {
      FailedCasMeansProgress(ops, word, st, t);
      GotoKeepsInv(ops, word, st, t, Calling(pc.call, pc.began, pc.failures + 1));
    } else if !pc.Idle? {
      ReturnKeepsInv(ops, word, st, t, Effect(ops, pc.call, st.word), Result(pc.call, st.word));
    }
  }

  lemma {:induction false} EveryRunKeepsInv<W>(ops: Operations<W>, word: W, steps: seq<Step<W>>)
    ensures Inv(ops, word, Run(ops, word, steps))
  {
    if steps == [] {
      assert forall t: Thread :: PcOk(ops, word, Run(ops, word, steps), t);
    } else {
      EveryRunKeepsInv(ops, word, steps[..|steps| - 1]);
      NextKeepsInv(ops, word, Run(ops, word, steps[..|steps| - 1]), steps[|steps| - 1]);
    }
  }

  // --- What follows, for every interleaving ------------------------------------------------------

  /** Linearizability: the word is that of the returned calls carried out one by one in the order of the log;
      each returned what it does in that order; and a call that began after another had returned comes later
      in it. */
  lemma RunsAreLinearizable<W>(ops: Operations<W>, word: W, steps: seq<Step<W>>)
    ensures var st := Run(ops, word, steps);
            st.word == Fold(ops, word, st.log) &&
            forall i :: 0 <= i < |st.log| ==>
              st.log[i].result == Result(st.log[i].call, Fold(ops, word, st.log[..i])) && st.log[i].began <= i
  {
    EveryRunKeepsInv(ops, word, steps);
    var st := Run(ops, word, steps);
    forall i | 0 <= i < |st.log|
      ensures st.log[i].result == Result(st.log[i].call, Fold(ops, word, st.log[..i])) && st.log[i].began <= i
    {
      assert EntryOk(ops, word, st.log, i);
    }
  }

  /** The word after the first n calls of the log. */
  function WordAfter<W(==)>(ops: Operations<W>, word: W, log: seq<Entry<W>>, n: nat): W
    requires n <= |log|
  {
    Fold(ops, word, log[..n])
  }

  /** What every call that has returned found and left: a cas says that it has failed exactly if it found
      something else than expected, and has then stored nothing; the others return what they found. */
  lemma CallsTellWhatTheyFound<W>(ops: Operations<W>, word: W, steps: seq<Step<W>>, i: nat)
    requires i < |Run(ops, word, steps).log|
    ensures var log := Run(ops, word, steps).log;
            var found, left := WordAfter(ops, word, log, i), WordAfter(ops, word, log, i + 1);
            match log[i].call
            case Cas(expected, replacement) =>
              (found == expected ==> log[i].result == Status(false) && left == replacement) &&
              (found != expected ==> log[i].result == Status(true) && left == found)
            case Add(increment) => log[i].result == Previous(found) && left == ops.plus(found, increment)
            case And(mask) => log[i].result == Previous(found) && left == ops.both(found, mask)
            case Or(mask) => log[i].result == Previous(found) && left == ops.either(found, mask)
  {
    var log := Run(ops, word, steps).log;
    EveryRunKeepsInv(ops, word, steps);
    assert EntryOk(ops, word, log, i);
    LogStep(ops, word, log, i);
  }

  lemma LogStep<W>(ops: Operations<W>, word: W, log: seq<Entry<W>>, i: nat)
    requires i < |log|
    ensures WordAfter(ops, word, log, i + 1) == Effect(ops, log[i].call, WordAfter(ops, word, log, i))
  {
    assert log[..i + 1][..i] == log[..i];
  }

  /** The call of the thread has returned, and nothing else has. */
  ghost predicate JustReturned<W>(st: State<W>, st': State<W>, t: Thread)
    requires !PcOf(st, t).Idle?
  {
    PcOf(st', t).Idle? && |st'.log| == |st.log| + 1 && st'.log[..|st.log|] == st.log &&
    st'.log[|st.log|].t == t && st'.log[|st.log|].call == PcOf(st, t).call
  }

  lemma CallingReturns<W>(ops: Operations<W>, st: State<W>, t: Thread)
    requires PcOf(st, t).Calling?
    ensures JustReturned(st, Next(ops, Next(ops, st, Act(t)), Act(t)), t)
  {
    var st' := Next(ops, st, Act(t));
    if PcOf(st, t).call.And? || PcOf(st, t).call.Or? {
      assert PcOf(st', t).prev == st'.word && st'.log == st.log;
    } else {
      assert PcOf(st', t).Idle?;
    }
  }

  lemma LoadedReturns<W>(ops: Operations<W>, st: State<W>, t: Thread)
    requires PcOf(st, t).Loaded? && (PcOf(st, t).call.And? || PcOf(st, t).call.Or?)
    ensures JustReturned(st, Next(ops, Next(ops, Next(ops, st, Act(t)), Act(t)), Act(t)), t)
  {
    var st' := Next(ops, st, Act(t));
    if st.word == PcOf(st, t).prev {
      assert JustReturned(st, st', t);
    } else {
      CallingReturns(ops, st', t);
    }
  }

  lemma RunSnoc<W>(ops: Operations<W>, word: W, steps: seq<Step<W>>, step: Step<W>)
    ensures Run(ops, word, steps + [step]) == Next(ops, Run(ops, word, steps), step)
  {
    assert (steps + [step])[..|steps|] == steps;
  }

  /** Three steps of a thread, with none of another in between, complete its call: its load may be stale, then
      it loads again and its cas succeeds. */
  lemma UndisturbedCallsReturn<W>(ops: Operations<W>, word: W, steps: seq<Step<W>>, t: Thread)
    requires !PcOf(Run(ops, word, steps), t).Idle?
    ensures JustReturned(Run(ops, word, steps), Run(ops, word, steps + [Act(t)] + [Act(t)] + [Act(t)]), t)
  {
    var st := Run(ops, word, steps);
    RunSnoc(ops, word, steps, Act(t));
    RunSnoc(ops, word, steps + [Act(t)], Act(t));
    RunSnoc(ops, word, steps + [Act(t)] + [Act(t)], Act(t));
    EveryRunKeepsInv(ops, word, steps);
    assert PcOk(ops, word, st, t);
    if PcOf(st, t).Calling? { CallingReturns(ops, st, t); } else { LoadedReturns(ops, st, t); }
  }

  /** The calls that a thread has begun, in order; beginning one inside another does nothing. */
  ghost function Begun<W>(ops: Operations<W>, word: W, steps: seq<Step<W>>, t: Thread): seq<Call<W>> {
    if steps == [] then []
    else
      var before, step := steps[..|steps| - 1], steps[|steps| - 1];
      Begun(ops, word, before, t) +
      if step.Begin? && step.t == t && PcOf(Run(ops, word, before), t).Idle? then [step.call] else []
  }

  /** The calls of a thread that have returned, in order. */
  function ReturnedBy<W>(log: seq<Entry<W>>, t: Thread): seq<Call<W>> {
    if log == [] then []
    else
      var e := log[|log| - 1];
      ReturnedBy(log[..|log| - 1], t) + if e.t == t then [e.call] else []
  }

  function Pending<W>(pc: Pc<W>): seq<Call<W>> { if pc.Idle? then [] else [pc.call] }

  function CallsOf<W>(st: State<W>, t: Thread): seq<Call<W>> { ReturnedBy(st.log, t) + Pending(PcOf(st, t)) }

  lemma ReturnKeepsCalls<W>(st: State<W>, u: Thread, w: W, result: Returned<W>, t: Thread)
    requires !PcOf(st, u).Idle?
    ensures CallsOf(Return(st, u, w, result), t) == CallsOf(st, t)
  {
    var log := Return(st, u, w, result).log;
    assert log[..|log| - 1] == st.log;
  }

  lemma GotoKeepsCalls<W>(st: State<W>, u: Thread, pc: Pc<W>, t: Thread)
    requires !PcOf(st, u).Idle? && !pc.Idle? && pc.call == PcOf(st, u).call
    ensures CallsOf(Goto(st, u, pc), t) == CallsOf(st, t)
  {}

  lemma ActKeepsCalls<W>(ops: Operations<W>, st: State<W>, u: Thread, t: Thread)
    ensures CallsOf(Next(ops, st, Act(u)), t) == CallsOf(st, t)
  {
    var pc, st' := PcOf(st, u), Next(ops, st, Act(u));
    if !pc.Idle? {
      if PcOf(st', u).Idle? {
        ReturnKeepsCalls(st, u, st'.word, st'.log[|st.log|].result, t);
      } else {
        GotoKeepsCalls(st, u, PcOf(st', u), t);
      }
    }
  }

  /** The log holds exactly the calls that were begun and have returned: in the order of each thread, with
      none lost and none made up; at most one more is under way. */
  lemma {:induction false} LogIsOfCallsBegun<W>(ops: Operations<W>, word: W, steps: seq<Step<W>>, t: Thread)
    ensures CallsOf(Run(ops, word, steps), t) == Begun(ops, word, steps, t)
  {
    if steps != [] {
      var before, step := steps[..|steps| - 1], steps[|steps| - 1];
      LogIsOfCallsBegun(ops, word, before, t);
      if step.Act? { ActKeepsCalls(ops, Run(ops, word, before), step.t, t); }
    }
  }

  /** A retry loop fails no more often than other calls have returned since it began: the threads together
      always make progress. */
  lemma RetriesAreBounded<W>(ops: Operations<W>, word: W, steps: seq<Step<W>>, t: Thread)
    requires !PcOf(Run(ops, word, steps), t).Idle?
    ensures var st := Run(ops, word, steps); PcOf(st, t).began + PcOf(st, t).failures <= |st.log|
  {
    EveryRunKeepsInv(ops, word, steps);
    assert PcOk(ops, word, Run(ops, word, steps), t);
  }

  // What the marks in states and logs stand for.

  /** Step n begins the call, when that many calls had returned. */
  ghost predicate BegunAt<W>(ops: Operations<W>, word: W, steps: seq<Step<W>>, n: nat, t: Thread, call: Call<W>,
                             returned: nat)
  {
    n < |steps| && steps[n] == Begin(t, call) && PcOf(Run(ops, word, steps[..n]), t).Idle? &&
    |Run(ops, word, steps[..n]).log| == returned
  }

  lemma StillBegunAt<W>(ops: Operations<W>, word: W, steps: seq<Step<W>>, k: nat, n: nat, t: Thread, call: Call<W>,
                        returned: nat)
    requires k <= |steps| && BegunAt(ops, word, steps[..k], n, t, call, returned)
    ensures BegunAt(ops, word, steps, n, t, call, returned)
  {
    assert steps[..k][..n] == steps[..n];
  }

  lemma {:induction false} PendingBegan<W>(ops: Operations<W>, word: W, steps: seq<Step<W>>, t: Thread) returns (n: nat)
    requires !PcOf(Run(ops, word, steps), t).Idle?
    ensures var pc := PcOf(Run(ops, word, steps), t); BegunAt(ops, word, steps, n, t, pc.call, pc.began)
  {
    var k := |steps| - 1;
    var st := Run(ops, word, steps[..k]);
    if PcOf(st, t).Idle? {
      n := k;
    } else {
      n := PendingBegan(ops, word, steps[..k], t);
      StillBegunAt(ops, word, steps, k, n, t, PcOf(st, t).call, PcOf(st, t).began);
    }
  }

  /** Real-time order: every entry of the log is of a call that began at a step before which exactly as many calls
      had returned as the entry says; and what is in a log stays there as the run goes on. */
  lemma {:induction false} EntriesBegan<W>(ops: Operations<W>, word: W, steps: seq<Step<W>>, i: nat) returns (n: nat)
    requires i < |Run(ops, word, steps).log|
    ensures var e := Run(ops, word, steps).log[i]; BegunAt(ops, word, steps, n, e.t, e.call, e.began)
    ensures Run(ops, word, steps).log[i].began <= i
  {
    EveryRunKeepsInv(ops, word, steps);
    assert EntryOk(ops, word, Run(ops, word, steps).log, i);
    var k := |steps| - 1;
    var st := Run(ops, word, steps[..k]);
    LogGrows(ops, word, steps, k);
    if i < |st.log| {
      n := EntriesBegan(ops, word, steps[..k], i);
      StillBegunAt(ops, word, steps, k, n, st.log[i].t, st.log[i].call, st.log[i].began);
    } else {
      var t := steps[k].t;
      n := PendingBegan(ops, word, steps[..k], t);
      StillBegunAt(ops, word, steps, k, n, t, PcOf(st, t).call, PcOf(st, t).began);
    }
  }

  lemma {:induction false} LogGrows<W>(ops: Operations<W>, word: W, steps: seq<Step<W>>, k: nat)
    requires k <= |steps|
    ensures Run(ops, word, steps[..k]).log <= Run(ops, word, steps).log
    decreases |steps|
  {
    if k == |steps| {
      assert steps[..k] == steps;
    } else {
      var n := |steps| - 1;
      assert steps[..n][..k] == steps[..k];
      LogGrows(ops, word, steps[..n], k);
    }
  }

  /** How often the cas of the call that the thread is in has failed. */
  function FailedTries<W(==)>(ops: Operations<W>, word: W, steps: seq<Step<W>>, t: Thread): nat {
    if steps == [] then 0
    else
      var before, step := steps[..|steps| - 1], steps[|steps| - 1];
      var st := Run(ops, word, before);
      if step.t != t then FailedTries(ops, word, before, t)
      else if step.Begin? && PcOf(st, t).Idle? then 0
      else if step.Act? && PcOf(st, t).Loaded? && st.word != PcOf(st, t).prev
      then FailedTries(ops, word, before, t) + 1
      else FailedTries(ops, word, before, t)
  }

  lemma {:induction false} FailuresAreCounted<W>(ops: Operations<W>, word: W, steps: seq<Step<W>>, t: Thread)
    requires !PcOf(Run(ops, word, steps), t).Idle?
    ensures PcOf(Run(ops, word, steps), t).failures == FailedTries(ops, word, steps, t)
  {
    var k := |steps| - 1;
    EveryRunKeepsInv(ops, word, steps[..k]);
    assert PcOk(ops, word, Run(ops, word, steps[..k]), t);
    if !PcOf(Run(ops, word, steps[..k]), t).Idle? { FailuresAreCounted(ops, word, steps[..k], t); }
  }

  /** So a call whose cas has failed a number of times has seen at least as many calls return since it began. */
  lemma TriesAreBounded<W>(ops: Operations<W>, word: W, steps: seq<Step<W>>, t: Thread) returns (n: nat)
    requires !PcOf(Run(ops, word, steps), t).Idle?
    ensures n < |steps| && steps[n] == Begin(t, PcOf(Run(ops, word, steps), t).call)
    ensures |Run(ops, word, steps[..n]).log| + FailedTries(ops, word, steps, t) <= |Run(ops, word, steps).log|
  {
    n := PendingBegan(ops, word, steps, t);
    FailuresAreCounted(ops, word, steps, t);
    RetriesAreBounded(ops, word, steps, t);
  }

  // --- Counting ----------------------------------------------------------------------------------

  /** The sum of the increments of a log, as a number. */
  function Total(log: seq<Entry<int32>>): int
    requires forall i :: 0 <= i < |log| ==> log[i].call.Add?
  {
    if log == [] then 0 else Total(log[..|log| - 1]) + log[|log| - 1].call.increment
  }

  lemma WrapOnce(x: int, y: int)
    ensures Wrap32(Wrap32(x) + y) == Wrap32(x + y)
  {
    var k := (x + 0x8000_0000) / TWO_TO_THE_32;
    assert Wrap32(x) == x - k * TWO_TO_THE_32;
    assert Wrap32(x) + y + 0x8000_0000 == x + y + 0x8000_0000 - k * TWO_TO_THE_32;
    ModShift(x + y + 0x8000_0000, k);
  }

  lemma ModShift(x: int, k: int)
    ensures (x - k * TWO_TO_THE_32) % TWO_TO_THE_32 == x % TWO_TO_THE_32
  {
    var q := x / TWO_TO_THE_32;
    assert x - k * TWO_TO_THE_32 == (q - k) * TWO_TO_THE_32 + x % TWO_TO_THE_32;
  }

  lemma {:induction false} FoldOfAdds(word: int32, log: seq<Entry<int32>>)
    requires forall i :: 0 <= i < |log| ==> log[i].call.Add?
    ensures Fold(MACHINE, word, log) == Wrap32(word + Total(log))
  {
    if log != [] {
      var n := |log| - 1;
      FoldOfAdds(word, log[..n]);
      WrapOnce(word + Total(log[..n]), log[n].call.increment);
    }
  }

  /** Where calls only add, no update is ever lost: the word has changed by the sum of all increments whose
      calls have returned. */
  lemma NoUpdateIsLost(word: int32, steps: seq<Step<int32>>, st: State<int32>)
    requires st == Run(MACHINE, word, steps) && forall i :: 0 <= i < |st.log| ==> st.log[i].call.Add?
    ensures st.word == Wrap32(word + Total(st.log))
  {
    assert st.word == Fold(MACHINE, word, st.log) by { RunsAreLinearizable(MACHINE, word, steps); }
    FoldOfAdds(word, st.log);
  }

  /** How many of the returned calls are this one. */
  function Number(log: seq<Entry<int32>>, call: Call<int32>): nat {
    if log == [] then 0 else Number(log[..|log| - 1], call) + if log[|log| - 1].call == call then 1 else 0
  }

  lemma {:induction false} TotalOfCounts(log: seq<Entry<int32>>)
    requires forall i :: 0 <= i < |log| ==> log[i].call == INC || log[i].call == DEC
    ensures Total(log) == Number(log, INC) - Number(log, DEC)
  {
    if log != [] {
      TotalOfCounts(log[..|log| - 1]);
    }
  }

  /** A reference count is the number of increments less the number of decrements. */
  lemma CountsAreExact(word: int32, steps: seq<Step<int32>>, st: State<int32>)
    requires st == Run(MACHINE, word, steps)
    requires forall i :: 0 <= i < |st.log| ==> st.log[i].call == INC || st.log[i].call == DEC
    ensures st.word == Wrap32(word + Number(st.log, INC) - Number(st.log, DEC))
  {
    assert st.word == Wrap32(word + Total(st.log)) by { NoUpdateIsLost(word, steps, st); }
    TotalOfCounts(st.log);
  }

  // --- Bits --------------------------------------------------------------------------------------

  lemma BitsModulo(x: int, i: nat)
    requires i < 32
    ensures BitAt(x % TWO_TO_THE_32, i) <==> BitAt(x, i)
  {
    var q, r := x / TWO_TO_THE_32, x % TWO_TO_THE_32;
    Pow2Of32();
    BitsBelow(r, q, 32, i);
    assert x == r + q * Pow2(32);
  }

  lemma BitsOfWord(x: int32, i: nat)
    requires i < 32
    ensures BitAt(Bits(x) as int, i) <==> BitAt(x, i)
  {
    NumberRoundTrip(x % TWO_TO_THE_32);
    BitsModulo(x, i);
  }

  lemma BitsOfWrapped(x: int, i: nat)
    requires i < 32
    ensures BitAt(Wrap32(x), i) <==> BitAt(x, i)
  {
    var q := (x + 0x8000_0000) / TWO_TO_THE_32;
    Pow2Of32();
    BitsBelow(x, -q, 32, i);
    assert Wrap32(x) == x + -q * Pow2(32);
  }

  /** What and, or combine: a bit of the two's complement is set if it is in both, or in one. */
  lemma CombinedBits(a: int32, b: int32, i: nat)
    requires i < 32
    ensures BitAt(Both(a, b), i) <==> BitAt(a, i) && BitAt(b, i)
    ensures BitAt(Either(a, b), i) <==> BitAt(a, i) || BitAt(b, i)
  {
    BitsOfWord(a, i);
    BitsOfWord(b, i);
    BitsOfAnd(Bits(a), Bits(b), i);
    BitsOfOr(Bits(a), Bits(b), i);
    BitsOfWrapped(Binary.And(Bits(a), Bits(b)) as int, i);
    BitsOfWrapped(Binary.Or(Bits(a), Bits(b)) as int, i);
  }

  ghost predicate SetByOne(log: seq<Entry<int32>>, i: nat)
    requires forall j :: 0 <= j < |log| ==> log[j].call.Or?
  {
    exists j :: 0 <= j < |log| && BitAt(log[j].call.mask, i)
  }

  ghost predicate KeptByAll(log: seq<Entry<int32>>, i: nat)
    requires forall j :: 0 <= j < |log| ==> log[j].call.And?
  {
    forall j :: 0 <= j < |log| ==> BitAt(log[j].call.mask, i)
  }

  lemma {:induction false} FoldOfOrs(word: int32, log: seq<Entry<int32>>, i: nat)
    requires i < 32 && forall j :: 0 <= j < |log| ==> log[j].call.Or?
    ensures BitAt(Fold(MACHINE, word, log), i) <==> BitAt(word, i) || SetByOne(log, i)
  {
    if log != [] {
      var n := |log| - 1;
      FoldOfOrs(word, log[..n], i);
      CombinedBits(Fold(MACHINE, word, log[..n]), log[n].call.mask, i);
      OneMoreMask(log, i);
    }
  }

  lemma OneMoreMask(log: seq<Entry<int32>>, i: nat)
    requires log != [] && forall j :: 0 <= j < |log| ==> log[j].call.Or?
    ensures var n := |log| - 1; SetByOne(log, i) <==> SetByOne(log[..n], i) || BitAt(log[n].call.mask, i)
  {
    var n := |log| - 1;
    if SetByOne(log, i) {
      var j :| 0 <= j < |log| && BitAt(log[j].call.mask, i);
      if j < n { assert log[..n][j] == log[j]; }
    }
    if SetByOne(log[..n], i) {
      var j :| 0 <= j < n && BitAt(log[..n][j].call.mask, i);
      assert log[..n][j] == log[j];
    }
  }

  lemma {:induction false} FoldOfAnds(word: int32, log: seq<Entry<int32>>, i: nat)
    requires i < 32 && forall j :: 0 <= j < |log| ==> log[j].call.And?
    ensures BitAt(Fold(MACHINE, word, log), i) <==> BitAt(word, i) && KeptByAll(log, i)
  {
    if log != [] {
      var n := |log| - 1;
      FoldOfAnds(word, log[..n], i);
      CombinedBits(Fold(MACHINE, word, log[..n]), log[n].call.mask, i);
      assert forall j :: 0 <= j < n ==> log[..n][j] == log[j];
    }
  }

  /** Where calls only or, a bit is set if and only if it was at first or is in the mask of some call that has
      returned: no call undoes another's. */
  lemma OrsOnlySet(word: int32, steps: seq<Step<int32>>, st: State<int32>, i: nat)
    requires st == Run(MACHINE, word, steps) && i < 32 && forall j :: 0 <= j < |st.log| ==> st.log[j].call.Or?
    ensures BitAt(st.word, i) <==>
            BitAt(word, i) || exists j :: 0 <= j < |st.log| && BitAt(st.log[j].call.mask, i)
  {
    assert st.word == Fold(MACHINE, word, st.log) by { RunsAreLinearizable(MACHINE, word, steps); }
    FoldOfOrs(word, st.log, i);
  }

  /** Where calls only and, a bit is set if and only if it was at first and is in the masks of all. */
  lemma AndsOnlyClear(word: int32, steps: seq<Step<int32>>, st: State<int32>, i: nat)
    requires st == Run(MACHINE, word, steps) && i < 32 && forall j :: 0 <= j < |st.log| ==> st.log[j].call.And?
    ensures BitAt(st.word, i) <==>
            BitAt(word, i) && forall j :: 0 <= j < |st.log| ==> BitAt(st.log[j].call.mask, i)
  {
    assert st.word == Fold(MACHINE, word, st.log) by { RunsAreLinearizable(MACHINE, word, steps); }
    FoldOfAnds(word, st.log, i);
  }
}
