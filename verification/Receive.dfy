/** The receive side of the two serial ports (MainActivity.java:142-262, 521-582, 658-727) as a state
    machine over atomic steps, and what its verdicts mean after any history of steps. */
module Receive {
  import opened CrcTables
  import opened FrameSizes
  import opened Frames
  import opened ModbusCrc
  import opened Octets
  import opened Options

  // --- One port ----------------------------------------------------------------------------------

  /** The static fields of one port.  `reading` is false once the read thread has died of a byte it had
      no room for. */
  datatype PortState = PortState(
    receiving: bool, buffer: seq<octet>, index: nat, id: octet, func: octet, reading: bool)
  {
    predicate Valid() { |buffer| == 256 && index <= 256 }
  }

  function Idle(): PortState { PortState(false, Zeros(256), 0, 0, 0, true) }

  /** A step names the port it concerns. */
  datatype Event =
    | FrameInit(port: int, id: octet, func: octet)
    | Ready(port: int)
    | ByteArrived(port: int, b: octet)
    | Timeout(port: int)
    | OtherMessage(port: int)

  function Stop(s: PortState): PortState { s.(receiving := false, index := 0, id := 0, func := 0) }

  function Step(s: PortState, e: Event): (s': PortState)
    requires s.Valid()
    ensures s'.Valid()
  {
    match e
    case FrameInit(_, id, func) => s.(id := id, func := func)
    case Ready(_) => s.(receiving := true, index := 0)
    case ByteArrived(_, b) =>
      if !s.reading || !s.receiving then s
      else if s.index == 256 then s.(reading := false)
      else s.(buffer := s.buffer[s.index := b], index := s.index + 1)
    case Timeout(_) => if s.receiving then Stop(s) else s
    case OtherMessage(_) => Stop(s)
  }

  /** CheckReceivedData on what has been received. */
  predicate Accepts(s: PortState)
    requires s.Valid()
  {
    s.index >= 2 && s.buffer[0] == s.id && s.buffer[1] == s.func &&
    s.buffer[s.index - 2..s.index] == Check(s.buffer[..s.index - 2])
  }

  function RunPort(s: PortState, h: seq<Event>): (s': PortState)
    requires s.Valid()
    ensures s'.Valid()
  {
    if h == [] then s else Step(RunPort(s, h[..|h| - 1]), h[|h| - 1])
  }

  lemma {:induction false} RunPortConcat(s: PortState, h: seq<Event>, k: seq<Event>)
    requires s.Valid()
    ensures RunPort(s, h + k) == RunPort(RunPort(s, h), k)
  {
    if k == [] {
      assert h + k == h;
    } else {
      RunPortConcat(s, h, k[..|k| - 1]);
      assert (h + k)[..|h + k| - 1] == h + k[..|k| - 1];
    }
  }

  // --- Two ports ---------------------------------------------------------------------------------

  datatype Ports = Ports(p0: PortState, p1: PortState) {
    predicate Valid() { p0.Valid() && p1.Valid() }

    function Of(port: int): PortState
      requires port == 0 || port == 1
    {
      if port == 0 then p0 else p1
    }
  }

  /** A step on a port other than 0 and 1 changes nothing. */
  function Apply(s: Ports, e: Event): (s': Ports)
    requires s.Valid()
    ensures s'.Valid()
  {
    if e.port == 0 then s.(p0 := Step(s.p0, e))
    else if e.port == 1 then s.(p1 := Step(s.p1, e))
    else s
  }

  function Run(h: seq<Event>): (s: Ports)
    ensures s.Valid()
  {
    if h == [] then Ports(Idle(), Idle()) else Apply(Run(h[..|h| - 1]), h[|h| - 1])
  }

  function Project(h: seq<Event>, port: int): seq<Event> {
    if h == [] then []
    else Project(h[..|h| - 1], port) + if h[|h| - 1].port == port then [h[|h| - 1]] else []
  }

  /** The ports are isolated: in every interleaving the state of a port is what its own steps alone make
      of it. */
  lemma {:induction false} PortsAreIsolated(h: seq<Event>, port: int)
    requires port == 0 || port == 1
    ensures Run(h).Of(port) == RunPort(Idle(), Project(h, port))
  {
    if h != [] {
      var n := |h| - 1;
      PortsAreIsolated(h[..n], port);
      if h[n].port == port {
        assert Project(h, port)[..|Project(h, port)| - 1] == Project(h[..n], port);
      } else {
        assert Project(h, port) == Project(h[..n], port);
      }
    }
  }

  lemma {:induction false} ProjectConcat(h: seq<Event>, k: seq<Event>, port: int)
    ensures Project(h + k, port) == Project(h, port) + Project(k, port)
  {
    if k == [] {
      assert h + k == h;
    } else {
      ProjectConcat(h, k[..|k| - 1], port);
      assert (h + k)[..|h + k| - 1] == h + k[..|k| - 1];
    }
  }

  // --- What the history of a port says -----------------------------------------------------------

  /** Whether ReadyToReceive came after the last step that stops receiving. */
  function Listening(h: seq<Event>, port: int): bool {
    if h == [] then false
    else
      var before, e := h[..|h| - 1], h[|h| - 1];
      if e.port != port then Listening(before, port)
      else match e
           case Ready(_) => true
           case Timeout(_) => false
           case OtherMessage(_) => false
           case _ => Listening(before, port)
  }

  /** The bytes that arrived on the port after the last ReadyToReceive. */
  function Since(h: seq<Event>, port: int): seq<octet> {
    if h == [] then []
    else
      var before, e := h[..|h| - 1], h[|h| - 1];
      if e.port != port then Since(before, port)
      else match e
           case Ready(_) => []
           case ByteArrived(_, b) => Since(before, port) + [b]
           case _ => Since(before, port)
  }

  /** Slave address and function code of the last request built for the port. */
  function LastBuilt(h: seq<Event>, port: int): Option<(octet, octet)> {
    if h == [] then None
    else
      var before, e := h[..|h| - 1], h[|h| - 1];
      if e.port == port && e.FrameInit? then Some((e.id, e.func)) else LastBuilt(before, port)
  }

  /** Whether a request was built for the port after the last step that stopped receiving. */
  function Pending(h: seq<Event>, port: int): bool {
    if h == [] then false
    else
      var before, e := h[..|h| - 1], h[|h| - 1];
      if e.port != port then Pending(before, port)
      else match e
           case FrameInit(_, _, _) => true
           case Timeout(_) => Pending(before, port) && !Listening(before, port)
           case OtherMessage(_) => false
           case _ => Pending(before, port)
  }

  /** Whether some exchange on the port brought more than 256 bytes. */
  function Overran(h: seq<Event>, port: int): bool {
    if h == [] then false
    else
      var before, e := h[..|h| - 1], h[|h| - 1];
      Overran(before, port) ||
      (e.port == port && e.ByteArrived? && Listening(before, port) && |Since(before, port)| >= 256)
  }

  /** The header a reply must carry to be accepted. */
  function Expected(h: seq<Event>, port: int): (octet, octet) {
    match LastBuilt(h, port)
    case Some(header) => if Pending(h, port) then header else (0, 0)
    case None => (0, 0)
  }

  ghost predicate Tracks(s: PortState, h: seq<Event>, port: int) {
    s.Valid() &&
    s.receiving == Listening(h, port) &&
    (!s.receiving ==> s.index == 0) &&
    (s.id, s.func) == Expected(h, port) &&
    (Pending(h, port) ==> LastBuilt(h, port).Some?) &&
    s.reading == !Overran(h, port) &&
    (s.reading && s.receiving ==> s.index == |Since(h, port)| && s.buffer[..s.index] == Since(h, port))
  }

  lemma TracksStep(s: PortState, before: seq<Event>, e: Event, port: int)
    requires Tracks(s, before, port)
    ensures Tracks(if e.port == port then Step(s, e) else s, before + [e], port)
  {
    var h := before + [e];
    assert h[..|h| - 1] == before;
  }

  /** After every interleaving of steps on both ports: an idle port has index 0; a receiving port's buffer
      holds exactly the bytes that arrived since ReadyToReceive, unless some exchange on it brought more
      than 256 bytes; and the header it expects is that of the last request built, or zero when
      receiving has been stopped since. */
  lemma {:induction false} HistoryIsTracked(h: seq<Event>, port: int)
    requires port == 0 || port == 1
    ensures Tracks(Run(h).Of(port), h, port)
  {
    if h != [] {
      var n := |h| - 1;
      HistoryIsTracked(h[..n], port);
      TracksStep(Run(h[..n]).Of(port), h[..n], h[n], port);
      assert h[..n] + [h[n]] == h;
    }
  }

  lemma AcceptsIsCrcZero(s: PortState)
    requires s.Valid()
    ensures Accepts(s) <==> s.index >= 2 && s.buffer[0] == s.id && s.buffer[1] == s.func &&
                            Crc(Bytes(s.buffer[..s.index])) == Register(0, 0)
  {
    if s.index >= 2 {
      var msg := s.buffer[..s.index];
      TrailingCheck(msg);
      assert msg[..s.index - 2] == s.buffer[..s.index - 2];
      assert msg[s.index - 2..] == s.buffer[s.index - 2..s.index];
    }
  }

  /** The verdict at a timeout, after every history: what arrived since ReadyToReceive is accepted exactly
      when it starts with the expected header and its CRC, trailing bytes included, is zero. */
  lemma VerdictOfHistory(h: seq<Event>, port: int)
    requires port == 0 || port == 1
    requires Listening(h, port) && !Overran(h, port)
    ensures var reply := Since(h, port);
            Accepts(Run(h).Of(port)) <==>
            |reply| >= 2 && (reply[0], reply[1]) == Expected(h, port) && Crc(Bytes(reply)) == Register(0, 0)
  {
    HistoryIsTracked(h, port);
    AcceptsIsCrcZero(Run(h).Of(port));
  }

  // --- A whole exchange --------------------------------------------------------------------------

  function Arrivals(port: int, bytes: seq<octet>): (h: seq<Event>)
    ensures |h| == |bytes|
  {
    if bytes == [] then [] else Arrivals(port, bytes[..|bytes| - 1]) + [ByteArrived(port, bytes[|bytes| - 1])]
  }

  lemma {:induction false} ArrivalsAreStored(s: PortState, port: int, bytes: seq<octet>)
    requires s.Valid() && s.receiving && s.reading && s.index + |bytes| <= 256
    ensures var s' := RunPort(s, Arrivals(port, bytes));
            s' == s.(buffer := s'.buffer, index := s.index + |bytes|) &&
            s'.buffer[..s'.index] == s.buffer[..s.index] + bytes
  {
    if bytes != [] {
      var n := |bytes| - 1;
      ArrivalsAreStored(s, port, bytes[..n]);
      assert Arrivals(port, bytes)[..n] == Arrivals(port, bytes[..n]);
      var before, after := RunPort(s, Arrivals(port, bytes[..n])), RunPort(s, Arrivals(port, bytes));
      assert after.buffer[..after.index] == before.buffer[..before.index] + [bytes[n]];
      assert bytes == bytes[..n] + [bytes[n]];
    }
  }

  /** Steps in which, among whatever happens on the other port, a port is made ready and receives exactly
      the given bytes. */
  ghost predicate Receives(k: seq<Event>, port: int, bytes: seq<octet>) {
    Project(k, port) == [Ready(port)] + Arrivals(port, bytes)
  }

  lemma {:induction false} ProjectArrivals(port: int, bytes: seq<octet>)
    ensures Project(Arrivals(port, bytes), port) == Arrivals(port, bytes)
  {
    if bytes != [] {
      var n := |bytes| - 1;
      ProjectArrivals(port, bytes[..n]);
      assert Arrivals(port, bytes)[..n] == Arrivals(port, bytes[..n]);
    }
  }

  lemma ReplyIsReceived(port: int, bytes: seq<octet>)
    ensures Receives([Ready(port)] + Arrivals(port, bytes), port, bytes)
  {
    ProjectConcat([Ready(port)], Arrivals(port, bytes), port);
    assert Project([Ready(port)], port) == Project([], port) + [Ready(port)];
    ProjectArrivals(port, bytes);
  }

  lemma ReceivedState(h: seq<Event>, k: seq<Event>, port: int, bytes: seq<octet>)
    requires port == 0 || port == 1
    requires !Overran(h, port) && |bytes| <= 256 && Receives(k, port, bytes)
    ensures var s, s' := Run(h).Of(port), Run(h + k).Of(port);
            s'.receiving && s'.index == |bytes| && s'.buffer[..s'.index] == bytes &&
            s'.id == s.id && s'.func == s.func
  {
    PortsAreIsolated(h, port);
    PortsAreIsolated(h + k, port);
    ProjectConcat(h, k, port);
    HistoryIsTracked(h, port);
    var s := Run(h).Of(port);
    RunPortConcat(Idle(), Project(h, port), Project(k, port));
    RunPortConcat(s, [Ready(port)], Arrivals(port, bytes));
    assert RunPort(s, [Ready(port)]) == Step(s, Ready(port));
    ArrivalsAreStored(Step(s, Ready(port)), port, bytes);
  }

  lemma MessageHead(slave: int, r: Request)
    requires Build(slave, r).Sent? && |Build(slave, r).msg| >= 2
    ensures Build(slave, r).msg[0] == slave && Build(slave, r).msg[1] == r.Code()
  {}

  lemma FrameIsChecked(s: PortState, m: seq<octet>)
    requires s.Valid() && |m| >= 2 && s.id == m[0] && s.func == m[1]
    requires s.index == |m| + 2 && s.buffer[..s.index] == Frame(m)
    ensures Accepts(s)
  {
    var f := Frame(m);
    assert s.buffer[0] == f[0] && s.buffer[1] == f[1];
    assert s.buffer[..|m|] == f[..|m|] == m;
    assert s.buffer[|m|..s.index] == f[|m|..] == Check(m);
  }

  // What comes back of a message that has been cut before its function code.

  /** Every entry of the high table has its middle bits clear, so that its complement is more than any function
      code. */
  lemma HighEntryBits(b: byte)
    ensures Xor(0xFF, LowByte(Shift8(b as bv16))) >= 0x3E
  {
    LinearIsShift8(b as bv16);
  }

  lemma CrcOfOneByte(b: octet)
    ensures ToOctet(Crc(Bytes([b])).hi) >= 0x3E
  {
    var x := ToByte(b);
    var i := Xor(0xFF, x);
    assert Bytes([b]) == [x];
    FeedOne(MODBUS, PRESET, x);
    ModbusIsCorrect();
    HighEntryBits(i);
    assert Crc([x]).hi == Xor(0xFF, LowByte(Shift8(i as bv16)));
  }

  /** The second byte of its frame is one of the CRC's, and the function code of no builder. */
  lemma ShortFrame(m: seq<octet>)
    requires |m| < 2
    ensures |Frame(m)| >= 2 && Frame(m)[1] >= 0x3E
  {
    if m == [] {
      assert Bytes(m) == [];
    } else {
      assert m == [m[0]];
      CrcOfOneByte(m[0]);
    }
  }

  /** A dead read thread stores nothing. */
  lemma {:induction false} ArrivalsAreLost(s: PortState, port: int, bytes: seq<octet>)
    requires s.Valid() && !s.reading
    ensures RunPort(s, Arrivals(port, bytes)) == s
  {
    if bytes != [] {
      var n := |bytes| - 1;
      ArrivalsAreLost(s, port, bytes[..n]);
      assert Arrivals(port, bytes)[..n] == Arrivals(port, bytes[..n]);
    }
  }

  lemma DeadPort(h: seq<Event>, k: seq<Event>, port: int, bytes: seq<octet>)
    requires port == 0 || port == 1
    requires Overran(h, port) && Receives(k, port, bytes)
    ensures !Accepts(Run(h + k).Of(port))
  {
    PortsAreIsolated(h, port);
    PortsAreIsolated(h + k, port);
    ProjectConcat(h, k, port);
    HistoryIsTracked(h, port);
    var s := Run(h).Of(port);
    RunPortConcat(Idle(), Project(h, port), Project(k, port));
    RunPortConcat(s, [Ready(port)], Arrivals(port, bytes));
    assert RunPort(s, [Ready(port)]) == Step(s, Ready(port));
    ArrivalsAreLost(Step(s, Ready(port)), port, bytes);
  }

  lemma ShortIsRejected(s: PortState, m: seq<octet>, r: Request)
    requires s.Valid() && |m| < 2 && s.func == r.Code() && s.index == |Frame(m)| && s.buffer[..s.index] == Frame(m)
    ensures !Accepts(s)
  {
    ShortFrame(m);
    assert s.buffer[1] == Frame(m)[1];
  }

  /** When is a request answered by its own echo?  The frame sent, coming back byte by byte, whatever happens on
      the other port meanwhile, is accepted exactly if the message was not cut before its function code, and the
      port has not received more than 256 bytes at once before, which ends its read thread. */
  lemma EchoIsAccepted(h: seq<Event>, k: seq<Event>, port: int, slave: int, r: Request)
    requires port == 0 || port == 1
    requires Build(slave, r).Sent? && Receives(k, port, Frame(Build(slave, r).msg))
    ensures Accepts(Run(h + [FrameInit(port, slave, r.Code())] + k).Of(port)) <==>
            |Build(slave, r).msg| >= 2 && !Overran(h, port)
    ensures Accepts(Run(h + [FrameInit(port, slave, r.Code())] + k).Of(port)) <==>
            !Headless(r) && !Overran(h, port)
  {
    var m, built := Build(slave, r).msg, FrameInit(port, slave, r.Code());
    var h' := h + [built];
    assert h'[..|h'| - 1] == h;
    HeadlessIff(slave, r);
    if Overran(h, port) {
      DeadPort(h', k, port, Frame(m));
    } else {
      ReceivedState(h', k, port, Frame(m));
      if |m| >= 2 {
        MessageHead(slave, r);
        FrameIsChecked(Run(h' + k).Of(port), m);
      } else {
        ShortIsRejected(Run(h' + k).Of(port), m, r);
      }
    }
  }

  /** The echo of a message built after a history, with nothing in between. */
  function Echo(h: seq<Event>, port: int, slave: octet, code: octet, m: seq<octet>): seq<Event> {
    h + [FrameInit(port, slave, code)] + ([Ready(port)] + Arrivals(port, Frame(m)))
  }

  lemma EchoAtOnce(h: seq<Event>, port: int, slave: octet, r: Request, m: seq<octet>)
    requires (port == 0 || port == 1) && Build(slave, r) == Sent(m)
    ensures Accepts(Run(Echo(h, port, slave, r.Code(), m)).Of(port)) <==> !Headless(r) && !Overran(h, port)
  {
    ReplyIsReceived(port, Frame(m));
    EchoIsAccepted(h, [Ready(port)] + Arrivals(port, Frame(m)), port, slave, r);
  }

  /** Such a case: F16 with length -3 sends the slave address and the CRC, and their echo is rejected. */
  lemma EchoIsRejected(h: seq<Event>, port: int, slave: octet, m: seq<octet>)
    requires (port == 0 || port == 1) && m == [slave]
    ensures var r := PresetMultipleRegs(0, -3, []);
            Build(slave, r) == Sent(m) && !Accepts(Run(Echo(h, port, slave, r.Code(), m)).Of(port))
  {
    LengthMinusThree(slave, []);
    EchoAtOnce(h, port, slave, PresetMultipleRegs(0, -3, []), m);
  }

  // --- Which replies are accepted ----------------------------------------------------------------

  /** After the history, the port is made ready and the reply arrives. */
  ghost predicate Answers(h: seq<Event>, port: int, reply: seq<octet>)
    requires port == 0 || port == 1
  {
    Accepts(Run(h + ([Ready(port)] + Arrivals(port, reply))).Of(port))
  }

  /** No builder has function code 0. */
  ghost predicate FromBuilders(h: seq<Event>) {
    forall i :: 0 <= i < |h| && h[i].FrameInit? ==> h[i].func != 0
  }

  lemma ReplyState(h: seq<Event>, port: int, reply: seq<octet>)
    requires port == 0 || port == 1
    requires !Overran(h, port) && |reply| <= 256
    ensures var s := Run(h + ([Ready(port)] + Arrivals(port, reply))).Of(port);
            s.index == |reply| && s.buffer[..s.index] == reply && (s.id, s.func) == Expected(h, port)
  {
    var k := [Ready(port)] + Arrivals(port, reply);
    ReplyIsReceived(port, reply);
    ReceivedState(h, k, port, reply);
    HistoryIsTracked(h, port);
  }

  lemma {:induction false} LastBuiltHasCode(h: seq<Event>, port: int)
    requires FromBuilders(h)
    ensures LastBuilt(h, port).Some? ==> LastBuilt(h, port).value.1 != 0
    ensures Pending(h, port) ==> LastBuilt(h, port).Some?
  {
    if h != [] {
      LastBuiltHasCode(h[..|h| - 1], port);
    }
  }

  /** The reply no request was built for, and which is accepted nevertheless. */
  function ZeroReply(): seq<octet> { Frame([0, 0]) }

  lemma ZeroReplyIsAccepted(h: seq<Event>, port: int)
    requires port == 0 || port == 1
    requires !Overran(h, port) && !Pending(h, port)
    ensures |ZeroReply()| == 4 && Answers(h, port, ZeroReply())
  {
    ReplyState(h, port, ZeroReply());
    FrameIsChecked(Run(h + ([Ready(port)] + Arrivals(port, ZeroReply()))).Of(port), [0, 0]);
  }

  /** Exactly when are accepted replies answers to the last request built for the port?  When a request was
      built after the last stop; that is, when the port's function code is not zero. */
  lemma RepliesAnswerTheLastRequest(h: seq<Event>, port: int)
    requires port == 0 || port == 1
    requires !Overran(h, port) && FromBuilders(h)
    ensures Run(h).Of(port).func != 0 <==>
            forall reply | |reply| <= 256 && Answers(h, port, reply) ::
              |reply| >= 2 && LastBuilt(h, port) == Some((reply[0], reply[1]))
  {
    HistoryIsTracked(h, port);
    LastBuiltHasCode(h, port);
    if Pending(h, port) {
      forall reply | |reply| <= 256 && Answers(h, port, reply)
        ensures |reply| >= 2 && LastBuilt(h, port) == Some((reply[0], reply[1]))
      {
        ReplyState(h, port, reply);
      }
    } else {
      ZeroReplyIsAccepted(h, port);
      assert ZeroReply()[0] == 0 && ZeroReply()[1] == 0;
    }
  }

  /** A concrete case: nothing was ever built for port 0, as after sendRaw, and a reply is accepted. */
  lemma AcceptedWithoutRequest()
    ensures LastBuilt([], 0) == None && Answers([], 0, ZeroReply())
  {
    ZeroReplyIsAccepted([], 0);
  }
}
