/** Strong pointers over LightRefBase: threads that construct, assign, clear and destroy their own sp objects,
    one atomic step at a time, in any interleaving.  Objects may have sp members of their own, which their
    destructors release. */
module RefCount {
  import opened FiniteSets
  import opened Options

  type Thread = nat
  type SpId = nat
  type ObjectId = nat

  /** A counted object: its count, how often it has been deleted, and the thread that has made it but not
      wrapped it in an sp yet. */
  datatype Object = Object(count: int, deletes: nat, raw: Option<Thread>)

  /** An sp object is used by a thread, or is a member of an object. */
  datatype Home = Of(t: Thread) | In(o: ObjectId)

  datatype Sp = Sp(ptr: Option<ObjectId>, home: Home)

  /** What the sp object is used for after its old pointer has been dropped. */
  datatype Ending = Keep | Gone

  /** Where the call on an sp object is.  `other` is the pointer that it is to hold in the end. */
  datatype Op =
    | ConstructInc(o: ObjectId)
    | AssignInc(o: ObjectId)
    | Drop(other: Option<ObjectId>, ending: Ending)
    | Delete(victim: ObjectId, other: Option<ObjectId>, ending: Ending)
    | Store(other: Option<ObjectId>, ending: Ending)

  /** A thread is in the calls on its own sp objects.  There is more than one only while a destructor releases
      the members of an object; then the model lets them go on in any order, of which the program's is one. */
  datatype State = State(objects: map<ObjectId, Object>, sps: map<SpId, Sp>, ops: map<SpId, Op>)

  const INITIAL := State(map[], map[], map[])

  /** A copied pointer is read from the last sp of a path: an own one, then members of the objects it leads
      through. */
  datatype Source = FromPath(p: seq<SpId>) | FromRaw(o: ObjectId)

  datatype Step =
    | New(t: Thread, o: ObjectId)
    | Construct(t: Thread, dst: SpId, src: Source)
    | Assign(t: Thread, dst: SpId, src: Source)
    | Clear(t: Thread, dst: SpId)
    | Destroy(t: Thread, dst: SpId)
    | HandOver(t: Thread, s: SpId, u: Thread)
    | Embed(t: Thread, s: SpId, o: ObjectId)
    | Act(s: SpId)

  // --- What callers owe --------------------------------------------------------------------------

  predicate Owns(st: State, t: Thread, s: SpId) { s in st.sps && st.sps[s].home == Of(t) }

  /** The thread is between calls. */
  ghost predicate Idle(st: State, t: Thread) { forall s :: s in st.ops ==> !Owns(st, t, s) }

  ghost predicate Path(st: State, t: Thread, p: seq<SpId>) {
    if |p| == 0 then false
    else if |p| == 1 then Owns(st, t, p[0])
    else
      var s, m := p[|p| - 2], p[|p| - 1];
      Path(st, t, p[..|p| - 1]) && s in st.sps && m in st.sps && st.sps[s].ptr.Some? &&
      st.sps[m].home == In(st.sps[s].ptr.value)
  }

  ghost predicate PathTo(st: State, t: Thread, p: seq<SpId>, o: ObjectId) {
    Path(st, t, p) && p[|p| - 1] in st.sps && st.sps[p[|p| - 1]].ptr == Some(o)
  }

  /** The thread may use a plain pointer to the object: it has just made it, or a path leads there. */
  ghost predicate Covers(st: State, t: Thread, o: ObjectId, but: Option<SpId>) {
    o in st.objects &&
    (st.objects[o].raw == Some(t) || exists p: seq<SpId> :: PathTo(st, t, p, o) && but != Some(p[0]))
  }

  ghost predicate SourceOk(st: State, t: Thread, src: Source) {
    match src
    case FromPath(p) => Path(st, t, p) && p[|p| - 1] in st.sps
    case FromRaw(o) => Covers(st, t, o, None)
  }

  function PointerOf(st: State, src: Source): Option<ObjectId>
    requires src.FromPath? ==> src.p != [] && src.p[|src.p| - 1] in st.sps
  {
    match src case FromPath(p) => st.sps[p[|p| - 1]].ptr case FromRaw(o) => Some(o)
  }

  /** A thread does one call at a time, on sp objects of its own. */
  ghost predicate Enabled(st: State, step: Step) {
    match step
    case New(t, o) => Idle(st, t) && o !in st.objects
    case Construct(t, dst, src) => Idle(st, t) && dst !in st.sps && SourceOk(st, t, src)
    case Assign(t, dst, src) => Idle(st, t) && Owns(st, t, dst) && SourceOk(st, t, src)
    case Clear(t, dst) => Idle(st, t) && Owns(st, t, dst)
    case Destroy(t, dst) => Idle(st, t) && Owns(st, t, dst)
    case HandOver(t, s, u) => Idle(st, t) && Idle(st, u) && Owns(st, t, s)
    case Embed(t, s, o) => Idle(st, t) && Owns(st, t, s) && Covers(st, t, o, None)
    case Act(s) => s in st.ops
  }

  // --- Steps -------------------------------------------------------------------------------------

  /** Where a call goes once the new pointer has been counted: past the decrement if the sp holds none. */
  function DropOr(st: State, s: SpId, other: Option<ObjectId>, ending: Ending): Op
    requires s in st.sps
  {
    if st.sps[s].ptr.Some? then Drop(other, ending) else Store(other, ending)
  }

  function At(st: State, s: SpId, op: Op): State { st.(ops := st.ops[s := op]) }

  function Done(st: State, s: SpId): State { st.(ops := st.ops - {s}) }

  function WithObject(st: State, o: ObjectId, x: Object): State { st.(objects := st.objects[o := x]) }

  function WithSp(st: State, s: SpId, x: Sp): State { st.(sps := st.sps[s := x]) }

  /** android_atomic_inc on the count; a pointer that was raw is raw no longer. */
  function Incremented(x: Object): Object { x.(count := x.count + 1, raw := None) }

  function Decremented(x: Object): Object { x.(count := x.count - 1) }

  function Deleted(x: Object): Object { x.(deletes := x.deletes + 1) }

  function Begin(st: State, step: Step): State
    requires step.Construct? || step.Assign? || step.Clear? || step.Destroy?
    requires step.Construct? || step.dst in st.sps
    requires (step.Construct? || step.Assign?) && step.src.FromPath? ==>
               step.src.p != [] && step.src.p[|step.src.p| - 1] in st.sps
  {
    match step
    case Construct(t, dst, src) =>
      var other := PointerOf(st, src);
      var st' := WithSp(st, dst, Sp(other, Of(t)));
      if other.Some? then At(st', dst, ConstructInc(other.value)) else st'
    case Assign(t, dst, src) =>
      var other := PointerOf(st, src);
      At(st, dst, if other.Some? then AssignInc(other.value) else DropOr(st, dst, None, Keep))
    case Clear(t, dst) => if st.sps[dst].ptr.Some? then At(st, dst, Drop(None, Keep)) else st
    case Destroy(t, dst) => At(st, dst, DropOr(st, dst, None, Gone))
  }

  predicate IsMember(st: State, s: SpId, o: ObjectId) { s in st.sps && st.sps[s].home == In(o) }

  /** The destructor of an object destroys its members, one call each, in the thread that deletes it. */
  function Released(st: State, o: ObjectId, home: Home): State {
    State(st.objects,
          map s | s in st.sps :: if IsMember(st, s, o) then st.sps[s].(home := home) else st.sps[s],
          map s | s in st.ops.Keys + st.sps.Keys && (s in st.ops || IsMember(st, s, o)) ::
            if IsMember(st, s, o) then DropOr(st, s, None, Gone) else st.ops[s])
  }

  predicate CanProceed(st: State, s: SpId) {
    s in st.ops && s in st.sps &&
    match st.ops[s]
    case ConstructInc(o) => o in st.objects
    case AssignInc(o) => o in st.objects
    case Drop(_, _) => st.sps[s].ptr.Some? && st.sps[s].ptr.value in st.objects
    case Delete(victim, _, _) => victim in st.objects
    case Store(_, _) => true
  }

  /** One atomic step inside a call. */
  function Proceed(st: State, s: SpId): State
    requires CanProceed(st, s)
  {
    match st.ops[s]
    case ConstructInc(o) => Done(WithObject(st, o, Incremented(st.objects[o])), s)
    case AssignInc(o) => At(WithObject(st, o, Incremented(st.objects[o])), s, DropOr(st, s, Some(o), Keep))
    case Drop(other, ending) =>
      var v := st.sps[s].ptr.value;
      At(WithObject(st, v, Decremented(st.objects[v])), s,
         if st.objects[v].count == 1 then Delete(v, other, ending) else Store(other, ending))
    case Delete(v, other, ending) =>
      At(WithObject(Released(st, v, st.sps[s].home), v, Deleted(st.objects[v])), s, Store(other, ending))
    case Store(other, ending) =>
      if ending == Keep then Done(WithSp(st, s, st.sps[s].(ptr := other)), s)
      else Done(st.(sps := st.sps - {s}), s)
  }

  ghost function Next(st: State, step: Step): State
    requires Enabled(st, step)
  {
    match step
    case New(t, o) => WithObject(st, o, Object(0, 0, Some(t)))
    case HandOver(t, s, u) => WithSp(st, s, st.sps[s].(home := Of(u)))
    case Embed(t, s, o) => WithSp(st, s, st.sps[s].(home := In(o)))
    case Act(s) => if CanProceed(st, s) then Proceed(st, s) else st
    case _ => Begin(st, step)
  }

  // --- The invariant -----------------------------------------------------------------------------

  /** A counted reference: that of an sp object, or one that a call has counted but not stored yet. */
  datatype Token = Held(s: SpId) | InFlight(s: SpId)

  /** Not between m_ptr and the increment in a constructor, nor between the decrement and the end of a call. */
  predicate Counted(st: State, s: SpId) {
    s in st.ops ==> !st.ops[s].ConstructInc? && !st.ops[s].Delete? && !st.ops[s].Store?
  }

  predicate Carries(op: Op, o: ObjectId) { (op.Drop? || op.Delete? || op.Store?) && op.other == Some(o) }

  predicate IsToken(st: State, x: Token, o: ObjectId) {
    match x
    case Held(s) => s in st.sps && st.sps[s].ptr == Some(o) && Counted(st, s)
    case InFlight(s) => s in st.ops && Carries(st.ops[s], o)
  }

  ghost function Tokens(st: State, o: ObjectId): (r: set<Token>)
    ensures forall x :: x in r <==> IsToken(st, x, o)
  {
    var all := (set s | s in st.sps :: Held(s)) + (set s | s in st.ops :: InFlight(s));
    set x | x in all && IsToken(st, x, o)
  }

  predicate Deleting(st: State, s: SpId, o: ObjectId) { s in st.ops && st.ops[s].Delete? && st.ops[s].victim == o }

  ghost predicate BeingDeleted(st: State, o: ObjectId) { exists s: SpId :: Deleting(st, s, o) }

  ghost predicate ObjectOk(st: State, o: ObjectId)
    requires o in st.objects
  {
    var x := st.objects[o];
    x.count == |Tokens(st, o)| && x.deletes <= 1 &&
    (x.raw.Some? ==> x.count == 0 && x.deletes == 0) &&
    (x.deletes == 1 ==> x.count == 0) &&
    (x.count == 0 && x.deletes == 0 && x.raw.None? ==> BeingDeleted(st, o))
  }

  ghost predicate PointerOk(st: State, p: Option<ObjectId>) { p.Some? ==> p.value in st.objects }

  ghost predicate SpOk(st: State, s: SpId)
    requires s in st.sps
  {
    PointerOk(st, st.sps[s].ptr) &&
    (st.sps[s].home.In? ==>
       s !in st.ops && st.sps[s].home.o in st.objects && st.objects[st.sps[s].home.o].deletes == 0)
  }

  /** No other call of the same thread is under way. */
  ghost predicate Alone(st: State, s: SpId)
    requires s in st.sps
  {
    forall r :: r in st.ops && r in st.sps && st.sps[r].home == st.sps[s].home ==> r == s
  }

  ghost predicate EndOk(st: State, other: Option<ObjectId>, ending: Ending) {
    PointerOk(st, other) && (ending == Gone ==> other.None?)
  }

  ghost predicate OpOk(st: State, s: SpId)
    requires s in st.ops
  {
    s in st.sps && st.sps[s].home.Of? &&
    match st.ops[s]
    case ConstructInc(o) => st.sps[s].ptr == Some(o) && Covers(st, st.sps[s].home.t, o, Some(s)) && Alone(st, s)
    case AssignInc(o) => Covers(st, st.sps[s].home.t, o, None) && Alone(st, s)
    case Drop(other, ending) => st.sps[s].ptr.Some? && EndOk(st, other, ending)
    case Delete(v, other, ending) =>
      st.sps[s].ptr == Some(v) && EndOk(st, other, ending) && v in st.objects &&
      st.objects[v] == Object(0, 0, None) && forall r: SpId :: Deleting(st, r, v) ==> r == s
    case Store(other, ending) => EndOk(st, other, ending)
  }

  ghost predicate Inv(st: State) {
    (forall o {:trigger ObjectOk(st, o)} :: o in st.objects ==> ObjectOk(st, o)) &&
    (forall s {:trigger OpOk(st, s)} :: s in st.ops ==> OpOk(st, s)) &&
    (forall s {:trigger SpOk(st, s)} :: s in st.sps ==> SpOk(st, s))
  }

  // --- Tokens ------------------------------------------------------------------------------------

  lemma SameTokens(st: State, st': State, o: ObjectId)
    requires forall x :: IsToken(st', x, o) == IsToken(st, x, o)
    ensures Tokens(st', o) == Tokens(st, o)
  {}

  lemma OneMoreToken(st: State, st': State, o: ObjectId, token: Token)
    requires !IsToken(st, token, o) && IsToken(st', token, o)
    requires forall x :: x != token ==> IsToken(st', x, o) == IsToken(st, x, o)
    ensures |Tokens(st', o)| == |Tokens(st, o)| + 1
  {
    assert Tokens(st', o) == Tokens(st, o) + {token};
  }

  /** An object with a token is counted, owned and not about to be deleted. */
  lemma TokenKeepsAlive(st: State, x: Token, o: ObjectId)
    requires Inv(st) && IsToken(st, x, o)
    ensures o in st.objects && st.objects[o].count > 0 && st.objects[o].deletes == 0 && st.objects[o].raw.None?
    ensures !BeingDeleted(st, o)
  {
    match x {
      case Held(s) => assert SpOk(st, s);
      case InFlight(s) => assert OpOk(st, s);
    }
    assert ObjectOk(st, o) && x in Tokens(st, o);
    forall s: SpId
      ensures !Deleting(st, s, o)
    {
      if s in st.ops { assert OpOk(st, s); }
    }
  }

  // --- Paths -------------------------------------------------------------------------------------

  /** A path that starts at a counted sp holds the object at its end. */
  lemma PathHolds(st: State, t: Thread, p: seq<SpId>, o: ObjectId)
    requires Inv(st) && PathTo(st, t, p, o) && Counted(st, p[0])
    ensures IsToken(st, Held(p[|p| - 1]), o)
  {
    if |p| > 1 {
      assert SpOk(st, p[|p| - 1]);
    }
  }

  /** A member of an object that is held. */
  ghost predicate InHeld(st: State, s: SpId)
    requires s in st.sps
  {
    st.sps[s].home.In? && st.sps[s].home.o in st.objects && st.objects[st.sps[s].home.o].count > 0
  }

  ghost predicate OwnCounted(st: State, t: Thread, but: Option<SpId>) {
    forall s: SpId :: Owns(st, t, s) && but != Some(s) ==> Counted(st, s)
  }

  /** Thread t's own sp objects are as they were, and so are the members of objects that are held. */
  ghost predicate Undisturbed(st: State, st': State, t: Thread) {
    (forall s :: Owns(st, t, s) ==> s in st'.sps && st'.sps[s] == st.sps[s]) &&
    (forall s :: s in st.sps && InHeld(st, s) ==> s in st'.sps && st'.sps[s] == st.sps[s])
  }

  lemma {:induction false} PathStays(st: State, st': State, t: Thread, p: seq<SpId>)
    requires Inv(st) && Undisturbed(st, st', t) && Path(st, t, p) && Counted(st, p[0])
    ensures Path(st', t, p)
    ensures p[|p| - 1] in st.sps && p[|p| - 1] in st'.sps && st'.sps[p[|p| - 1]] == st.sps[p[|p| - 1]]
    decreases |p|
  {
    if |p| == 1 {
      assert Owns(st, t, p[0]);
    } else {
      var q := p[..|p| - 1];
      PathStays(st, st', t, q);
      var o := st.sps[p[|p| - 2]].ptr.value;
      PathHolds(st, t, q, o);
      TokenKeepsAlive(st, Held(p[|p| - 2]), o);
    }
  }

  lemma StaysCovered(st: State, st': State, t: Thread, o: ObjectId, but: Option<SpId>)
    requires Inv(st) && Undisturbed(st, st', t) && Covers(st, t, o, but) && o in st'.objects
    requires st.objects[o].raw == Some(t) ==> st'.objects[o].raw == Some(t)
    requires OwnCounted(st, t, but)
    ensures Covers(st', t, o, but)
  {
    if st.objects[o].raw != Some(t) {
      var p: seq<SpId> :| PathTo(st, t, p, o) && but != Some(p[0]);
      PathStart(st, t, p);
      PathStays(st, st', t, p);
      assert PathTo(st', t, p, o);
    }
  }

  lemma {:induction false} PathStart(st: State, t: Thread, p: seq<SpId>)
    requires Path(st, t, p)
    ensures p != [] && Owns(st, t, p[0])
    decreases |p|
  {
    if |p| > 1 { PathStart(st, t, p[..|p| - 1]); }
  }

  /** A thread that may use a plain pointer is using an object that is not deleted nor about to be. */
  lemma CoveredIsLive(st: State, t: Thread, o: ObjectId, but: Option<SpId>)
    requires Inv(st) && Covers(st, t, o, but)
    requires OwnCounted(st, t, but)
    ensures var x := st.objects[o]; x.deletes == 0 && (x.raw == Some(t) || (x.count > 0 && x.raw.None?))
    ensures !BeingDeleted(st, o)
  {
    assert ObjectOk(st, o);
    if st.objects[o].raw == Some(t) {
      forall s: SpId
        ensures !Deleting(st, s, o)
      {
        if s in st.ops { assert OpOk(st, s); }
      }
    } else {
      var p: seq<SpId> :| PathTo(st, t, p, o) && but != Some(p[0]);
      PathStart(st, t, p);
      PathHolds(st, t, p, o);
      TokenKeepsAlive(st, Held(p[|p| - 1]), o);
    }
  }

  /** In a thread between calls all sp objects are counted; during an increment, all but the one constructed. */
  lemma OwnAreCounted(st: State, s: SpId)
    requires Inv(st) && s in st.ops && (st.ops[s].ConstructInc? || st.ops[s].AssignInc?)
    ensures s in st.sps && st.sps[s].home.Of? && st.ops[s].o in st.objects
    ensures var but := if st.ops[s].ConstructInc? then Some(s) else None;
            Covers(st, st.sps[s].home.t, st.ops[s].o, but) && OwnCounted(st, st.sps[s].home.t, but)
  {
    assert OpOk(st, s);
  }

  // --- It is enough to look at the sp that steps and at the object it touches --------------------

  ghost predicate StepOf(st: State, st': State, t: Thread, s: SpId, hot: Option<ObjectId>) {
    st'.objects.Keys == st.objects.Keys &&
    (forall o :: o in st.objects && hot != Some(o) ==> st'.objects[o] == st.objects[o]) &&
    (forall x: SpId :: x != s ==> SameSp(st, st', x)) &&
    (s in st.sps ==> st.sps[s].home == Of(t)) && (s in st'.sps ==> st'.sps[s].home == Of(t)) &&
    (s in st.ops || Idle(st, t))
  }

  predicate SameSp(st: State, st': State, x: SpId) {
    (x in st'.sps <==> x in st.sps) && (x in st.sps ==> st'.sps[x] == st.sps[x]) &&
    (x in st'.ops <==> x in st.ops) && (x in st.ops ==> st'.ops[x] == st.ops[x])
  }

  /** `hot` is no other thread's, no other call is deleting it, and it has no members if it is deleted. */
  ghost predicate Exclusive(st: State, st': State, t: Thread, s: SpId, o: ObjectId)
    requires o in st.objects && o in st'.objects
  {
    (st.objects[o].raw.Some? ==> st.objects[o].raw == Some(t)) &&
    (forall r: SpId :: Deleting(st, r, o) ==> r == s) &&
    (st'.objects[o].deletes == 0 || forall x: SpId :: !IsMember(st, x, o))
  }

  lemma ObjectStaysOk(st: State, st': State, o: ObjectId)
    requires o in st.objects && o in st'.objects && st'.objects[o] == st.objects[o] && ObjectOk(st, o)
    requires forall x :: IsToken(st', x, o) == IsToken(st, x, o)
    requires forall r: SpId :: Deleting(st, r, o) ==> Deleting(st', r, o)
    ensures ObjectOk(st', o)
  {
    SameTokens(st, st', o);
    if BeingDeleted(st, o) {
      var r: SpId :| Deleting(st, r, o);
      assert Deleting(st', r, o);
    }
  }

  /** The call on another sp x. */
  lemma OtherOpStaysOk(st: State, st': State, t: Thread, s: SpId, hot: Option<ObjectId>, x: SpId)
    requires Inv(st) && StepOf(st, st', t, s, hot) && x != s && x in st'.ops
    requires hot.Some? ==> hot.value in st.objects && Exclusive(st, st', t, s, hot.value)
    requires forall o :: o in st.objects && hot != Some(o) ==> !Deleting(st', s, o)
    ensures OpOk(st', x)
  {
    assert SameSp(st, st', x) && OpOk(st, x);
    var u := st.sps[x].home.t;
    if st.ops[x].ConstructInc? || st.ops[x].AssignInc? {
      assert u != t by {
        assert Owns(st, u, x);
        if s in st.ops { assert OpOk(st, s); }
      }
      OwnAreCounted(st, x);
      forall r | Owns(st, u, r)
        ensures r in st'.sps && st'.sps[r] == st.sps[r]
      {
        assert SameSp(st, st', r);
      }
      forall r | r in st.sps && InHeld(st, r)
        ensures r in st'.sps && st'.sps[r] == st.sps[r]
      {
        assert SameSp(st, st', r);
      }
      StaysCovered(st, st', u, st.ops[x].o, if st.ops[x].ConstructInc? then Some(x) else None);
      forall r | r in st'.ops && r in st'.sps && st'.sps[r].home == Of(u)
        ensures r == x
      {
        assert SameSp(st, st', r);
      }
    } else if st.ops[x].Delete? {
      var v := st.ops[x].victim;
      assert Deleting(st, x, v);
      forall r: SpId | Deleting(st', r, v)
        ensures r == x
      {
        if r != s { assert SameSp(st, st', r) && Deleting(st, r, v); }
      }
    }
  }

  lemma LocalKeepsInv(st: State, st': State, t: Thread, s: SpId, hot: Option<ObjectId>)
    requires Inv(st) && StepOf(st, st', t, s, hot)
    requires hot.Some? ==> hot.value in st.objects && Exclusive(st, st', t, s, hot.value)
    requires forall o :: o in st.objects && hot != Some(o) ==>
               !Deleting(st, s, o) && !Deleting(st', s, o) && forall x :: IsToken(st', x, o) == IsToken(st, x, o)
    requires s in st'.ops ==> OpOk(st', s)
    requires s in st'.sps ==> PointerOk(st', st'.sps[s].ptr)
    requires hot.Some? ==> ObjectOk(st', hot.value)
    ensures Inv(st')
  {
    forall o | o in st'.objects
      ensures ObjectOk(st', o)
    {
      if hot != Some(o) {
        assert ObjectOk(st, o);
        forall r: SpId | Deleting(st, r, o)
          ensures Deleting(st', r, o)
        {
          assert SameSp(st, st', r);
        }
        ObjectStaysOk(st, st', o);
      }
    }
    forall x | x in st'.sps
      ensures SpOk(st', x)
    {
      if x != s {
        assert SameSp(st, st', x) && SpOk(st, x);
        if st.sps[x].home.In? { assert IsMember(st, x, st.sps[x].home.o); }
      }
    }
    forall x | x in st'.ops
      ensures OpOk(st', x)
    {
      if x != s { OtherOpStaysOk(st, st', t, s, hot, x); }
    }
  }

  // --- Every step keeps the invariant ------------------------------------------------------------

  lemma NewKeepsInv(st: State, t: Thread, o: ObjectId)
    requires Inv(st) && o !in st.objects
    ensures Inv(WithObject(st, o, Object(0, 0, Some(t))))
  {
    var st' := WithObject(st, o, Object(0, 0, Some(t)));
    forall p | p in st'.objects
      ensures ObjectOk(st', p)
    {
      assert forall x :: IsToken(st', x, p) == IsToken(st, x, p);
      if p == o {
        forall x
          ensures !IsToken(st, x, o)
        {
          match x
          case Held(s) => if s in st.sps { assert SpOk(st, s); }
          case InFlight(s) => if s in st.ops { assert OpOk(st, s); }
        }
        assert Tokens(st', o) == {};
      } else {
        assert ObjectOk(st, p);
        forall r: SpId | Deleting(st, r, p)
          ensures Deleting(st', r, p)
        {}
        ObjectStaysOk(st, st', p);
      }
    }
    forall s | s in st'.sps
      ensures SpOk(st', s)
    {
      assert SpOk(st, s);
    }
    forall s | s in st'.ops
      ensures OpOk(st', s)
    {
      assert OpOk(st, s);
      SameSpsSameOps(st, st', s);
    }
  }

  /** Objects that a call does not touch have been added. */
  lemma SameSpsSameOps(st: State, st': State, s: SpId)
    requires Inv(st) && s in st.ops && st'.sps == st.sps && st'.ops == st.ops
    requires forall o :: o in st.objects ==> o in st'.objects && st'.objects[o] == st.objects[o]
    ensures OpOk(st', s)
  {
    assert OpOk(st, s);
    if st.ops[s].ConstructInc? || st.ops[s].AssignInc? {
      OwnAreCounted(st, s);
      StaysCovered(st, st', st.sps[s].home.t, st.ops[s].o, if st.ops[s].ConstructInc? then Some(s) else None);
    } else if st.ops[s].Delete? {
      assert Deleting(st, s, st.ops[s].victim);
      forall r: SpId | Deleting(st', r, st.ops[s].victim)
        ensures r == s
      {
        assert Deleting(st, r, st.ops[s].victim);
      }
    }
  }

  lemma CallsAreOfThreads(st: State, s: SpId)
    requires Inv(st) && s in st.ops
    ensures s in st.sps && st.sps[s].home.Of?
  {
    assert OpOk(st, s);
  }

  /** Starting a call counts nothing. */
  lemma BeginTokens(st: State, step: Step, o: ObjectId, x: Token)
    requires Inv(st) && Enabled(st, step) && (step.Construct? || step.Assign? || step.Clear? || step.Destroy?)
    ensures IsToken(Begin(st, step), x, o) == IsToken(st, x, o)
  {
    if step.dst in st.ops { CallsAreOfThreads(st, step.dst); }
  }

  lemma BeginOpOk(st: State, step: Step)
    requires Inv(st) && Enabled(st, step)
    requires step.Construct? || step.Assign? || step.Clear? || step.Destroy?
    ensures step.dst !in st.ops
    ensures var st' := Begin(st, step); step.dst in st'.sps && PointerOk(st', st'.sps[step.dst].ptr)
    ensures step.dst in Begin(st, step).ops ==> OpOk(Begin(st, step), step.dst)
  {
    var st', t, dst := Begin(st, step), step.t, step.dst;
    if dst in st.ops { CallsAreOfThreads(st, dst); }
    if dst in st.sps { assert SpOk(st, dst); }
    if (step.Construct? || step.Assign?) && PointerOf(st, step.src).Some? {
      var o := PointerOf(st, step.src).value;
      IdleCovers(st, t, step.src, o);
      StaysCovered(st, st', t, o, None);
      if step.Construct? {
        CoversAfterConstruct(st, st', t, o, dst);
      }
      forall r | r in st'.ops && r in st'.sps && st'.sps[r].home == Of(t)
        ensures r == dst
      {
        if r != dst { assert Owns(st, t, r); }
      }
    }
  }

  lemma IdleIsCounted(st: State, t: Thread)
    requires Idle(st, t)
    ensures OwnCounted(st, t, None)
  {}

  lemma IdleCovers(st: State, t: Thread, src: Source, o: ObjectId)
    requires Inv(st) && Idle(st, t) && SourceOk(st, t, src) && PointerOf(st, src) == Some(o)
    ensures Covers(st, t, o, None) && OwnCounted(st, t, None)
  {
    if src.FromPath? {
      assert SpOk(st, src.p[|src.p| - 1]);
      assert PathTo(st, t, src.p, o);
    }
  }

  lemma CoversAfterConstruct(st: State, st': State, t: Thread, o: ObjectId, dst: SpId)
    requires Inv(st) && Covers(st, t, o, None) && OwnCounted(st, t, None) && dst !in st.sps
    requires st'.objects == st.objects && Undisturbed(st, st', t)
    ensures Covers(st', t, o, Some(dst))
  {
    if st.objects[o].raw != Some(t) {
      var p: seq<SpId> :| PathTo(st, t, p, o);
      PathStart(st, t, p);
      PathStays(st, st', t, p);
      assert PathTo(st', t, p, o);
    }
  }

  lemma BeginKeepsInv(st: State, step: Step)
    requires Inv(st) && Enabled(st, step)
    requires step.Construct? || step.Assign? || step.Clear? || step.Destroy?
    ensures Inv(Begin(st, step))
  {
    var st' := Begin(st, step);
    forall o: ObjectId, x
      ensures IsToken(st', x, o) == IsToken(st, x, o)
    {
      BeginTokens(st, step, o, x);
    }
    BeginOpOk(st, step);
    LocalKeepsInv(st, st', step.t, step.dst, None);
  }

  /** The token that an increment makes. */
  function NewToken(st: State, s: SpId): Token
    requires s in st.ops
  {
    if st.ops[s].ConstructInc? then Held(s) else InFlight(s)
  }

  lemma IncrementTokens(st: State, s: SpId, o: ObjectId, x: Token)
    requires CanProceed(st, s) && (st.ops[s].ConstructInc? || st.ops[s].AssignInc?)
    requires st.ops[s].ConstructInc? ==> st.sps[s].ptr == Some(st.ops[s].o)
    ensures IsToken(Proceed(st, s), x, o) == (IsToken(st, x, o) || (x == NewToken(st, s) && o == st.ops[s].o))
    ensures !IsToken(st, NewToken(st, s), o)
  {}

  lemma IncrementKeepsInv(st: State, s: SpId)
    requires Inv(st) && s in st.ops && (st.ops[s].ConstructInc? || st.ops[s].AssignInc?)
    ensures CanProceed(st, s) && Inv(Proceed(st, s))
  {
    OwnAreCounted(st, s);
    var st', op := Proceed(st, s), st.ops[s];
    var t, but := st.sps[s].home.t, if op.ConstructInc? then Some(s) else None;
    assert OpOk(st, s) && SpOk(st, s);
    CoveredIsLive(st, t, op.o, but);
    forall o: ObjectId, x
      ensures IsToken(st', x, o) == (IsToken(st, x, o) || (x == NewToken(st, s) && o == op.o))
      ensures !IsToken(st, NewToken(st, s), o)
    {
      IncrementTokens(st, s, o, x);
    }
    OneMoreToken(st, st', op.o, NewToken(st, s));
    assert ObjectOk(st, op.o);
    LocalKeepsInv(st, st', t, s, Some(op.o));
  }

  /** The object that a call is about to decrement has the token of its sp. */
  lemma DropIsCounted(st: State, s: SpId)
    requires Inv(st) && s in st.ops && st.ops[s].Drop?
    ensures CanProceed(st, s)
    ensures var v := st.sps[s].ptr.value; var x := st.objects[v];
            IsToken(st, Held(s), v) && x.count > 0 && x.raw.None? && x.deletes == 0 && !BeingDeleted(st, v) &&
            (st.ops[s].other == Some(v) ==> x.count > 1)
  {
    assert OpOk(st, s) && SpOk(st, s);
    var v := st.sps[s].ptr.value;
    TokenKeepsAlive(st, Held(s), v);
    assert ObjectOk(st, v);
    if st.ops[s].other == Some(v) {
      assert {Held(s), InFlight(s)} <= Tokens(st, v);
      SubsetSize({Held(s), InFlight(s)}, Tokens(st, v));
    }
  }

  lemma DropTokens(st: State, s: SpId, o: ObjectId, x: Token)
    requires CanProceed(st, s) && st.ops[s].Drop?
    ensures IsToken(Proceed(st, s), x, o) == (IsToken(st, x, o) && x != Held(s))
  {}

  lemma DropOpOk(st: State, s: SpId)
    requires Inv(st) && s in st.ops && st.ops[s].Drop? && CanProceed(st, s)
    ensures s in Proceed(st, s).ops && OpOk(Proceed(st, s), s)
  {
    var st', v := Proceed(st, s), st.sps[s].ptr.value;
    assert OpOk(st, s);
    DropIsCounted(st, s);
    if st'.ops[s].Delete? {
      forall r: SpId | Deleting(st', r, v)
        ensures r == s
      {
        if r != s { assert Deleting(st, r, v); }
      }
    }
  }

  lemma DropKeepsInv(st: State, s: SpId)
    requires Inv(st) && s in st.ops && st.ops[s].Drop?
    ensures CanProceed(st, s) && Inv(Proceed(st, s))
  {
    DropIsCounted(st, s);
    var st', v := Proceed(st, s), st.sps[s].ptr.value;
    assert OpOk(st, s) && SpOk(st, s) && ObjectOk(st, v);
    forall o: ObjectId, x
      ensures IsToken(st', x, o) == (IsToken(st, x, o) && x != Held(s))
    {
      DropTokens(st, s, o, x);
    }
    OneMoreToken(st', st, v, Held(s));
    if st'.ops[s].Delete? { assert Deleting(st', s, v); }
    DropOpOk(st, s);
    LocalKeepsInv(st, st', st.sps[s].home.t, s, Some(v));
  }

  lemma StoreTokens(st: State, s: SpId, o: ObjectId, x: Token)
    requires CanProceed(st, s) && st.ops[s].Store?
    ensures IsToken(Proceed(st, s), x, o) ==
            ((IsToken(st, x, o) && x != InFlight(s)) ||
             (x == Held(s) && st.ops[s].ending == Keep && st.ops[s].other == Some(o)))
    ensures !IsToken(st, Held(s), o)
  {}

  lemma StoreKeepsInv(st: State, s: SpId)
    requires Inv(st) && s in st.ops && st.ops[s].Store?
    ensures CanProceed(st, s) && Inv(Proceed(st, s))
  {
    CallsAreOfThreads(st, s);
    var st', op := Proceed(st, s), st.ops[s];
    assert OpOk(st, s);
    forall o: ObjectId, x
      ensures IsToken(st', x, o) ==
              ((IsToken(st, x, o) && x != InFlight(s)) || (x == Held(s) && op.ending == Keep && op.other == Some(o)))
    {
      StoreTokens(st, s, o, x);
    }
    if op.other.Some? {
      var o := op.other.value;
      StoreTokens(st, s, o, Held(s));
      TokenKeepsAlive(st, InFlight(s), o);
      assert ObjectOk(st, o) && InFlight(s) in Tokens(st, o);
      assert Tokens(st', o) == Tokens(st, o) - {InFlight(s)} + {Held(s)};
    }
    LocalKeepsInv(st, st', st.sps[s].home.t, s, op.other);
  }

  // The delete: first the members of the object become calls of the thread, then the object is gone.

  lemma ReleasedTokens(st: State, v: ObjectId, t: Thread, o: ObjectId, x: Token)
    requires Inv(st)
    ensures IsToken(Released(st, v, Of(t)), x, o) == IsToken(st, x, o)
  {
    match x
    case Held(s) => if IsMember(st, s, v) { assert SpOk(st, s); }
    case InFlight(s) => if IsMember(st, s, v) { assert SpOk(st, s); }
  }

  /** An object that is being deleted is held by nobody, so no path leads to its members. */
  lemma ReleasedKeepsOps(st: State, v: ObjectId, s: SpId, x: SpId)
    requires Inv(st) && Deleting(st, s, v) && s in st.sps && st.sps[s].home.Of?
    requires x in st.ops
    ensures x in Released(st, v, st.sps[s].home).ops && OpOk(Released(st, v, st.sps[s].home), x)
  {
    var st' := Released(st, v, st.sps[s].home);
    assert OpOk(st, s) && OpOk(st, x);
    if st.ops[x].ConstructInc? || st.ops[x].AssignInc? {
      var u := st.sps[x].home.t;
      OwnAreCounted(st, x);
      StaysCovered(st, st', u, st.ops[x].o, if st.ops[x].ConstructInc? then Some(x) else None);
    } else if st.ops[x].Delete? {
      assert Deleting(st, x, st.ops[x].victim);
      forall r: SpId | Deleting(st', r, st.ops[x].victim)
        ensures r == x
      {
        assert Deleting(st, r, st.ops[x].victim);
      }
    }
  }

  lemma ReleasedKeepsInv(st: State, v: ObjectId, s: SpId)
    requires Inv(st) && Deleting(st, s, v) && s in st.sps && st.sps[s].home.Of?
    ensures Inv(Released(st, v, st.sps[s].home))
  {
    var st' := Released(st, v, st.sps[s].home);
    forall o | o in st'.objects
      ensures ObjectOk(st', o)
    {
      assert ObjectOk(st, o);
      forall x
        ensures IsToken(st', x, o) == IsToken(st, x, o)
      {
        ReleasedTokens(st, v, st.sps[s].home.t, o, x);
      }
      forall r: SpId | Deleting(st, r, o)
        ensures Deleting(st', r, o)
      {
        CallsAreOfThreads(st, r);
      }
      ObjectStaysOk(st, st', o);
    }
    forall x | x in st'.sps
      ensures SpOk(st', x)
    {
      assert SpOk(st, x);
    }
    forall x | x in st'.ops
      ensures OpOk(st', x)
    {
      if x in st.ops {
        ReleasedKeepsOps(st, v, s, x);
      } else {
        assert SpOk(st, x);
      }
    }
  }

  lemma DeleteKeepsInv(st: State, s: SpId)
    requires Inv(st) && s in st.ops && st.ops[s].Delete?
    ensures CanProceed(st, s) && Inv(Proceed(st, s))
  {
    var v := st.ops[s].victim;
    assert OpOk(st, s) && Deleting(st, s, v);
    var mid, st' := Released(st, v, st.sps[s].home), Proceed(st, s);
    ReleasedKeepsInv(st, v, s);
    assert s in mid.ops && OpOk(mid, s) && ObjectOk(mid, v) && Deleting(mid, s, v);
    SameTokens(mid, st', v);
    LocalKeepsInv(mid, st', st.sps[s].home.t, s, Some(v));
  }

  lemma ProceedKeepsInv(st: State, s: SpId)
    requires Inv(st) && s in st.ops
    ensures CanProceed(st, s) && Inv(Proceed(st, s))
  {
    match st.ops[s]
    case Drop(_, _) => DropKeepsInv(st, s);
    case Delete(_, _, _) => DeleteKeepsInv(st, s);
    case Store(_, _) => StoreKeepsInv(st, s);
    case _ => IncrementKeepsInv(st, s);
  }

  /** An sp of a thread between calls goes to another such thread, or into an object. */
  lemma RehomedKeepsInv(st: State, t: Thread, s: SpId, home: Home)
    requires Inv(st) && Idle(st, t) && Owns(st, t, s)
    requires match home
             case Of(u) => Idle(st, u)
             case In(o) => o in st.objects && st.objects[o].deletes == 0
    ensures Inv(WithSp(st, s, st.sps[s].(home := home)))
  {
    var st' := WithSp(st, s, st.sps[s].(home := home));
    forall o | o in st'.objects
      ensures ObjectOk(st', o)
    {
      assert ObjectOk(st, o);
      forall r: SpId | Deleting(st, r, o)
        ensures Deleting(st', r, o)
      {}
      ObjectStaysOk(st, st', o);
    }
    forall x | x in st'.sps
      ensures SpOk(st', x)
    {
      assert SpOk(st, x);
    }
    forall x | x in st'.ops
      ensures OpOk(st', x)
    {
      RehomedKeepsOps(st, t, s, home, x);
    }
  }

  lemma RehomedKeepsOps(st: State, t: Thread, s: SpId, home: Home, x: SpId)
    requires Inv(st) && Idle(st, t) && Owns(st, t, s) && (home.Of? ==> Idle(st, home.t)) && x in st.ops
    ensures OpOk(WithSp(st, s, st.sps[s].(home := home)), x)
  {
    var st' := WithSp(st, s, st.sps[s].(home := home));
    assert OpOk(st, x);
    var w := st.sps[x].home.t;
    assert Owns(st, w, x);
    if st.ops[x].ConstructInc? || st.ops[x].AssignInc? {
      OwnAreCounted(st, x);
      StaysCovered(st, st', w, st.ops[x].o, if st.ops[x].ConstructInc? then Some(x) else None);
    } else if st.ops[x].Delete? {
      assert Deleting(st, x, st.ops[x].victim);
      forall r: SpId | Deleting(st', r, st.ops[x].victim)
        ensures r == x
      {
        assert Deleting(st, r, st.ops[x].victim);
      }
    }
  }

  lemma NextKeepsInv(st: State, step: Step)
    requires Inv(st) && Enabled(st, step)
    ensures Inv(Next(st, step))
  {
    match step
    case New(t, o) => NewKeepsInv(st, t, o);
    case HandOver(t, s, u) => RehomedKeepsInv(st, t, s, Of(u));
    case Embed(t, s, o) =>
      IdleIsCounted(st, t);
      CoveredIsLive(st, t, o, None);
      RehomedKeepsInv(st, t, s, In(o));
    case Act(s) => ProceedKeepsInv(st, s);
    case _ => BeginKeepsInv(st, step);
  }

  // --- Runs --------------------------------------------------------------------------------------

  /** The state after an interleaving of steps, if each is one that its thread may take. */
  ghost function Run(steps: seq<Step>): Option<State> {
    if steps == [] then Some(INITIAL)
    else
      var before, step := Run(steps[..|steps| - 1]), steps[|steps| - 1];
      if before.Some? && Enabled(before.value, step) then Some(Next(before.value, step)) else None
  }

  lemma {:induction false} EveryRunKeepsInv(steps: seq<Step>)
    requires Run(steps).Some?
    ensures Inv(Run(steps).value)
  {
    if steps != [] {
      EveryRunKeepsInv(steps[..|steps| - 1]);
      NextKeepsInv(Run(steps[..|steps| - 1]).value, steps[|steps| - 1]);
    }
  }

  ghost predicate Reachable(st: State) { exists steps :: Run(steps) == Some(st) }

  lemma ReachableStatesKeepInv(st: State)
    requires Reachable(st)
    ensures Inv(st)
  {
    var steps :| Run(steps) == Some(st);
    EveryRunKeepsInv(steps);
  }

  // --- What follows, for every interleaving ------------------------------------------------------

  /** The count is the number of owners and increments in flight.  An object that an sp has owned is
      deleted exactly once: by one call, as soon as the last of those is gone. */
  lemma CountsAndDeletions(st: State, o: ObjectId)
    requires Reachable(st) && o in st.objects
    ensures var x := st.objects[o];
            x.count == |Tokens(st, o)| && x.deletes <= 1 && !(x.deletes == 1 && BeingDeleted(st, o)) &&
            (x.raw.Some? ==> x.deletes == 0 && !BeingDeleted(st, o)) &&
            (x.raw.None? ==> (x.deletes == 1 || BeingDeleted(st, o) <==> Tokens(st, o) == {}))
    ensures forall r: SpId, s: SpId :: Deleting(st, r, o) && Deleting(st, s, o) ==> r == s
  {
    ReachableStatesKeepInv(st);
    assert ObjectOk(st, o);
    forall s: SpId | Deleting(st, s, o)
      ensures st.objects[o] == Object(0, 0, None) && forall r: SpId :: Deleting(st, r, o) ==> r == s
    {
      assert OpOk(st, s);
    }
  }

  /** No owner holds an object that is deleted or about to be, be it a thread's or a member. */
  lemma OwnersHoldLiveObjects(st: State, s: SpId)
    requires Reachable(st) && s in st.sps && Counted(st, s) && st.sps[s].ptr.Some?
    ensures var o := st.sps[s].ptr.value;
            o in st.objects && st.objects[o].deletes == 0 && st.objects[o].count > 0 && !BeingDeleted(st, o)
  {
    ReachableStatesKeepInv(st);
    TokenKeepsAlive(st, Held(s), st.sps[s].ptr.value);
  }

  /** The pointer that a call has counted stays good until the call has stored it, even where the sp it was
      read from is gone by then, as it may be with the object that was dropped. */
  lemma NewPointerStaysGood(st: State, s: SpId)
    requires Reachable(st) && s in st.ops && !st.ops[s].ConstructInc? && !st.ops[s].AssignInc?
    requires st.ops[s].other.Some?
    ensures var o := st.ops[s].other.value;
            o in st.objects && st.objects[o].deletes == 0 && st.objects[o].count > 0 && !BeingDeleted(st, o)
  {
    ReachableStatesKeepInv(st);
    TokenKeepsAlive(st, InFlight(s), st.ops[s].other.value);
  }

  /** A path leads to an object that is live, and so are all it leads through. */
  lemma PathsLeadToLiveObjects(st: State, t: Thread, p: seq<SpId>, o: ObjectId)
    requires Reachable(st) && Idle(st, t) && PathTo(st, t, p, o)
    ensures o in st.objects && st.objects[o].deletes == 0 && st.objects[o].count > 0 && !BeingDeleted(st, o)
  {
    ReachableStatesKeepInv(st);
    PathStart(st, t, p);
    PathHolds(st, t, p, o);
    TokenKeepsAlive(st, Held(p[|p| - 1]), o);
  }

  /** No call is ever stuck, and no step of one touches a deleted object: increments, decrements and deletes all
      find theirs undeleted. */
  lemma NoUseAfterDelete(st: State, s: SpId)
    requires Reachable(st) && s in st.ops
    ensures CanProceed(st, s)
    ensures forall o :: o in st.objects && Proceed(st, s).objects[o] != st.objects[o] ==> st.objects[o].deletes == 0
  {
    ReachableStatesKeepInv(st);
    ProceedKeepsInv(st, s);
    assert OpOk(st, s);
    if st.ops[s].ConstructInc? || st.ops[s].AssignInc? {
      OwnAreCounted(st, s);
      CoveredIsLive(st, st.sps[s].home.t, st.ops[s].o, if st.ops[s].ConstructInc? then Some(s) else None);
    } else if st.ops[s].Drop? {
      DropIsCounted(st, s);
    }
  }

  /** A decrement leads to the delete exactly if it leaves the object without an owner. */
  lemma LastReleaseDeletes(st: State, s: SpId)
    requires Reachable(st) && s in st.ops && st.ops[s].Drop?
    ensures CanProceed(st, s) && s in Proceed(st, s).ops
    ensures Proceed(st, s).ops[s].Delete? <==> Tokens(Proceed(st, s), st.sps[s].ptr.value) == {}
  {
    ReachableStatesKeepInv(st);
    DropIsCounted(st, s);
    DropKeepsInv(st, s);
    assert ObjectOk(Proceed(st, s), st.sps[s].ptr.value);
  }

  /** Deleting an object begins to destroy each of its members, in the same thread, and leaves it none. */
  lemma DeleteReleasesMembers(st: State, s: SpId, m: SpId)
    requires Reachable(st) && s in st.ops && st.ops[s].Delete? && IsMember(st, m, st.ops[s].victim)
    ensures CanProceed(st, s)
    ensures var st' := Proceed(st, s);
            m in st'.sps && st'.sps[m] == Sp(st.sps[m].ptr, st.sps[s].home) && m in st'.ops &&
            st'.ops[m] == DropOr(st, m, None, Gone) && !IsMember(st', m, st.ops[s].victim)
  {
    ReachableStatesKeepInv(st);
    ProceedKeepsInv(st, s);
    assert OpOk(st, s) && SpOk(st, m);
  }

  /** An sp of the thread that is being destroyed, and still points where it did. */
  ghost predicate Destroying(st: State, m: SpId, t: Thread, ptr: Option<ObjectId>) {
    m in st.sps && st.sps[m] == Sp(ptr, Of(t)) && m in st.ops &&
    match st.ops[m]
    case Drop(other, ending) => other == None && ending == Gone
    case Delete(_, other, ending) => other == None && ending == Gone
    case Store(other, ending) => other == None && ending == Gone
    case _ => false
  }

  /** It is gone, and with it its reference to any object. */
  ghost predicate Destroyed(st: State, m: SpId) {
    m !in st.sps && m !in st.ops && forall o: ObjectId :: Held(m) !in Tokens(st, o) && InFlight(m) !in Tokens(st, o)
  }

  lemma NextKeepsDestroying(st: State, step: Step, m: SpId, t: Thread, ptr: Option<ObjectId>)
    requires Inv(st) && Enabled(st, step) && Destroying(st, m, t, ptr)
    ensures Destroying(Next(st, step), m, t, ptr) || Destroyed(Next(st, step), m)
  {
    assert Owns(st, t, m);
  }

  ghost predicate DestroyingAfter(steps: seq<Step>, m: SpId, t: Thread, ptr: Option<ObjectId>) {
    Run(steps).Some? && Destroying(Run(steps).value, m, t, ptr)
  }

  ghost predicate DestroyedAfter(steps: seq<Step>, m: SpId) { Run(steps).Some? && Destroyed(Run(steps).value, m) }

  /** However a run goes on, it is being destroyed until it is gone. */
  lemma {:induction false} DestroyedInTheEnd(start: seq<Step>, more: seq<Step>, m: SpId, t: Thread,
                                              ptr: Option<ObjectId>)
    returns (n: nat)
    requires DestroyingAfter(start, m, t, ptr) && Run(start + more).Some?
    ensures forall j :: 0 <= j < n && j <= |more| ==> DestroyingAfter(start + more[..j], m, t, ptr)
    ensures n <= |more| ==> DestroyedAfter(start + more[..n], m)
    ensures n <= |more| + 1
  {
    if more == [] {
      n := 1;
      assert start + more[..0] == start;
    } else {
      var k := |more| - 1;
      assert (start + more)[..|start + more| - 1] == start + more[..k];
      n := DestroyedInTheEnd(start, more[..k], m, t, ptr);
      assert forall j :: 0 <= j <= k ==> more[..k][..j] == more[..j];
      if n == k + 1 {
        EveryRunKeepsInv(start + more[..k]);
        NextKeepsDestroying(Run(start + more[..k]).value, more[k], m, t, ptr);
        assert start + more[..k + 1] == start + more;
        if DestroyingAfter(start + more, m, t, ptr) { n := k + 2; }
      }
    }
  }

  /** The members of a deleted object are gone by the time its thread is between calls again: from the delete on,
      each is being destroyed until it is. */
  lemma MembersAreDestroyed(steps: seq<Step>, s: SpId, t: Thread, m: SpId, more: seq<Step>) returns (n: nat)
    requires Run(steps).Some?
    requires var st := Run(steps).value;
             Owns(st, t, s) && s in st.ops && st.ops[s].Delete? && IsMember(st, m, st.ops[s].victim)
    requires Run(steps + [Act(s)] + more).Some? && Idle(Run(steps + [Act(s)] + more).value, t)
    ensures n <= |more| && DestroyedAfter(steps + [Act(s)] + more[..n], m)
    ensures forall j :: 0 <= j < n ==>
              DestroyingAfter(steps + [Act(s)] + more[..j], m, t, Run(steps).value.sps[m].ptr)
  {
    var st, start := Run(steps).value, steps + [Act(s)];
    EveryRunKeepsInv(steps);
    assert OpOk(st, s) && SpOk(st, m);
    DeleteReleasesMembers(st, s, m);
    assert start[..|start| - 1] == steps;
    n := DestroyedInTheEnd(start, more, m, t, st.sps[m].ptr);
    assert more[..|more|] == more;
    if n == |more| + 1 {
      assert Owns(Run(start + more).value, t, m);
    }
  }

  /** Counting the new pointer before dropping the old one: an sp assigned to itself, or to its own pointer,
      never deletes its object, whatever other threads do meanwhile. */
  lemma SelfAssignmentIsSafe(st: State, s: SpId)
    requires Reachable(st) && s in st.ops && s in st.sps && st.ops[s].Drop? && st.ops[s].other.Some?
    requires st.sps[s].ptr == st.ops[s].other
    ensures CanProceed(st, s) && s in Proceed(st, s).ops && Proceed(st, s).ops[s].Store?
    ensures Proceed(st, s).objects[st.ops[s].other.value].count > 0
  {
    ReachableStatesKeepInv(st);
    DropIsCounted(st, s);
  }

  /** When every thread is between calls, the count is the number of sp objects that point to the object, and
      it has been deleted if and only if there are none. */
  lemma CountsAtRest(st: State, o: ObjectId, owners: set<SpId>)
    requires Reachable(st) && o in st.objects && st.ops == map[]
    requires forall s :: s in owners <==> s in st.sps && st.sps[s].ptr == Some(o)
    ensures st.objects[o].count == |owners|
    ensures st.objects[o].raw.None? ==> (st.objects[o].deletes == 1 <==> owners == {})
  {
    CountsAndDeletions(st, o);
    HeldSize(owners);
    assert Tokens(st, o) == set s | s in owners :: Held(s);
    if owners != {} {
      var s :| s in owners;
      assert Held(s) in Tokens(st, o);
    }
  }

  lemma {:induction false} HeldSize(ss: set<SpId>)
    ensures |set s | s in ss :: Held(s)| == |ss|
    decreases ss
  {
    if ss != {} {
      var x :| x in ss;
      HeldSize(ss - {x});
      assert (set s | s in ss :: Held(s)) == (set s | s in ss - {x} :: Held(s)) + {Held(x)};
    }
  }
}
