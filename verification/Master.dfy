/** The Modbus master of MainActivity.java: a message buffer that the builders fill in place, the send
    path, and the two ports whose fields the builders, the read threads and the timers update. */
module Master {
  import opened Flatten
  import opened FrameSizes
  import opened Frames
  import opened Int32
  import opened ModbusCrc
  import opened Octets
  import opened Options
  import opened Receive

  /** A message: 256 bytes, of which the first `length` are meant. */
  class ModbusMessage {
    const buff: array<octet>
    var length: int

    constructor ()
      ensures fresh(this) && fresh(buff) && buff[..] == Zeros(256) && length == 0
    {
      buff := new octet[256](_ => 0);
      length := 0;
    }
  }

  /** The fields that the source keeps twice, once for each port. */
  class Port {
    var checkRcvData: bool
    const rcvData: array<octet>
    var dataIndex: nat
    var currentSendId: octet
    var currentSendFunc: octet
    var reading: bool

    constructor ()
      ensures fresh(rcvData) && rcvData.Length == 256 && State() == Idle()
    {
      rcvData := new octet[256](_ => 0);
      checkRcvData, dataIndex, currentSendId, currentSendFunc, reading := false, 0, 0, 0, true;
      new;
      assert rcvData[..] == Zeros(256);
    }

    function State(): PortState
      reads this, rcvData
    {
      PortState(checkRcvData, rcvData[..], dataIndex, currentSendId, currentSendFunc, reading)
    }
  }

  /** Stores the two bytes of a word. */
  method PutWord(buff: array<octet>, at: nat, x: int)
    requires at + 2 <= buff.Length
    modifies buff
    ensures buff[..] == old(buff[..at]) + BigEndian(x) + old(buff[at + 2..])
  {
    buff[at] := U8(x / 256);
    buff[at + 1] := U8(x);
  }

  /** The loop that stores an array of bytes; false when it runs out of either array. */
  method PutBytes(buff: array<octet>, at: nat, bytes: seq<octet>, count: int) returns (ok: bool)
    requires at <= buff.Length
    modifies buff
    ensures ok <==> count <= 0 || (count <= |bytes| && at + count <= buff.Length)
    ensures ok ==> buff[..] == old(buff[..at]) + bytes[..Count(count)] + old(buff[at + Count(count)..])
  {
    var i := 0;
    while i < count
      invariant 0 <= i <= Count(count)
      invariant i <= |bytes| && at + i <= buff.Length
      invariant forall j :: 0 <= j < i ==> buff[at + j] == bytes[j]
      invariant forall j :: 0 <= j < at || at + i <= j < buff.Length ==> buff[j] == old(buff[j])
    {
      if at + i >= buff.Length || i >= |bytes| {
        return false;
      }
      buff[at + i] := bytes[i];
      i := i + 1;
    }
    ok := true;
  }

  /** Two bytes more, after what has been stored from `at` on. */
  method PutNextWord(buff: array<octet>, k: nat, x: int32, ghost at: nat, ghost was: seq<octet>,
                     ghost done: seq<octet>)
    requires k == at + |done| && k + 2 <= buff.Length == |was|
    requires buff[..] == was[..at] + done + was[k..]
    modifies buff
    ensures buff[..] == was[..at] + (done + BigEndian(x)) + was[k + 2..]
  {
    PutWord(buff, k, x);
  }

  /** The loop that stores an array of words, two bytes each; false when it runs out of either array. */
  method PutWords(buff: array<octet>, at: nat, words: seq<int32>, count: int) returns (ok: bool)
    requires at <= buff.Length
    modifies buff
    ensures ok <==> count <= 0 || (count <= |words| && at + 2 * count <= buff.Length)
    ensures ok ==> buff[..] == old(buff[..at]) + Words(words[..Count(count)]) + old(buff[at + 2 * Count(count)..])
  {
    ghost var was := buff[..];
    var i := 0;
    assert was == was[..at] + Words(words[..0]) + was[at..];
    while i < count
      invariant 0 <= i <= Count(count)
      invariant i <= |words| && at + 2 * i <= buff.Length
      invariant buff[..] == was[..at] + Words(words[..i]) + was[at + 2 * i..]
    {
      if at + 2 * i + 2 > buff.Length || i >= |words| {
        return false;
      }
      FlatSnoc<int, octet>(BigEndian, words, i);
      PutNextWord(buff, at + 2 * i, words[i], at, was, Words(words[..i]));
      i := i + 1;
    }
    ok := true;
  }

  /** The seven bytes in front of a sub-request. */
  method PutSubHeader(buff: array<octet>, at: nat, s: SubReq)
    requires at + 7 <= buff.Length
    modifies buff
    ensures buff[..] == old(buff[..at]) + SubHeader(s) + old(buff[at + 7..])
  {
    var header := SubHeader(s);
    var _ := PutBytes(buff, at, header, 7);
    assert header[..7] == header;
  }

  // --- One port ----------------------------------------------------------------------------------

  /** The body of the loop of a read thread, once a byte has been read.  A byte beyond the 256th ends the
      thread with an exception that it does not catch. */
  method StoreByte(p: Port, b: octet)
    requires p.rcvData.Length == 256 && p.dataIndex <= 256
    modifies p`dataIndex, p`reading, p.rcvData
    ensures p.dataIndex <= 256 && p.State() == Step(old(p.State()), ByteArrived(0, b))
  {
    if p.reading && p.checkRcvData {
      if p.dataIndex >= 256 {
        p.reading := false;
      } else {
        p.rcvData[p.dataIndex] := b;
        p.dataIndex := p.dataIndex + 1;
      }
    }
  }

  method StopReceive(p: Port)
    requires p.rcvData.Length == 256
    modifies p`checkRcvData, p`dataIndex, p`currentSendId, p`currentSendFunc
    ensures p.dataIndex <= 256 && p.State() == Stop(old(p.State()))
  {
    p.checkRcvData, p.dataIndex := false, 0;
    p.currentSendId, p.currentSendFunc := 0, 0;
  }

  /** The test on what a port has received. */
  method CheckReceivedData(p: Port) returns (ok: bool)
    requires p.rcvData.Length == 256 && p.dataIndex <= 256
    ensures ok <==> Accepts(p.State())
  {
    if p.dataIndex < 2 {
      return false;
    }
    if p.currentSendId != p.rcvData[0] || p.currentSendFunc != p.rcvData[1] {
      return false;
    }
    var n := p.dataIndex - 2;
    var dataRx := new octet[n](i requires 0 <= i < n reads p.rcvData => p.rcvData[i]);
    assert dataRx[..n] == p.rcvData[..n];
    var crc := Crc16(dataRx, n);
    var check := crc.value;
    ok := p.rcvData[n] == ToOctet(check.hi) && p.rcvData[n + 1] == ToOctet(check.lo);
    assert p.rcvData[n..n + 2] == [p.rcvData[n], p.rcvData[n + 1]];
  }

  /** The timer's message: a port that is receiving is given its verdict, then stopped. */
  method HandleTimeout(p: Port) returns (verdict: Option<bool>)
    requires p.rcvData.Length == 256 && p.dataIndex <= 256
    modifies p`checkRcvData, p`dataIndex, p`currentSendId, p`currentSendFunc
    ensures p.dataIndex <= 256 && p.State() == Step(old(p.State()), Timeout(0))
    ensures verdict.Some? <==> old(p.checkRcvData)
    ensures verdict.Some? ==> (verdict.value <==> Accepts(old(p.State())))
  {
    verdict := None;
    if p.checkRcvData {
      var ok := CheckReceivedData(p);
      verdict := Some(ok);
      StopReceive(p);
    }
  }

  /** Any other message to a port's handler. */
  method HandleOther(p: Port)
    requires p.rcvData.Length == 256 && p.dataIndex <= 256
    modifies p`checkRcvData, p`dataIndex, p`currentSendId, p`currentSendFunc
    ensures p.dataIndex <= 256 && p.State() == Step(old(p.State()), OtherMessage(0))
  {
    StopReceive(p);
  }

  // --- What the builders store after frame_init ----------------------------------------------------

  method FillNothing(msg: ModbusMessage, slave: octet, code: octet)
    requires msg.buff.Length == 256 && msg.buff[..2] == [slave, code]
    modifies msg`length
    ensures Holds(msg.buff[..], msg.length, slave, code, Whole([]))
  {
    msg.length := 2;
    assert [slave, code] + [] == [slave, code];
  }

  method FillStart(msg: ModbusMessage, slave: octet, code: octet, start: int)
    requires msg.buff.Length == 256 && msg.buff[..4] == [slave, code] + BigEndian(start)
    modifies msg`length
    ensures Holds(msg.buff[..], msg.length, slave, code, Whole(BigEndian(start)))
  {
    msg.length := 4;
  }

  method FillWord(msg: ModbusMessage, slave: octet, code: octet, start: int, x: int)
    requires msg.buff.Length == 256 && msg.buff[..4] == [slave, code] + BigEndian(start)
    modifies msg, msg.buff
    ensures Holds(msg.buff[..], msg.length, slave, code, TwoWords(start, x))
  {
    PutWord(msg.buff, 4, x);
    msg.length := 6;
    assert msg.buff[..6] == [slave, code] + (BigEndian(start) + BigEndian(x));
  }

  method FillCoil(msg: ModbusMessage, slave: octet, start: int32, on: int32)
    requires msg.buff.Length == 256 && msg.buff[..4] == [slave, 0x05] + BigEndian(start)
    modifies msg, msg.buff
    ensures Holds(msg.buff[..], msg.length, slave, 0x05, CoilLayout(start, on))
  {
    ghost var front := msg.buff[..4];
    msg.buff[4] := if on == 0 then 0x00 else 0xFF;
    msg.buff[5] := 0x00;
    msg.length := 6;
    assert msg.buff[..4] == front;
    assert msg.buff[..6] == [slave, 0x05] + (BigEndian(start) + [if on == 0 then 0x00 else 0xFF, 0x00]);
  }

  method FillDiagnostics(msg: ModbusMessage, slave: octet, subfunction: int, datum: int)
    requires msg.buff.Length == 256 && msg.buff[..2] == [slave, 0x08]
    modifies msg, msg.buff
    ensures Holds(msg.buff[..], msg.length, slave, 0x08, TwoWords(subfunction, datum))
  {
    PutWord(msg.buff, 2, subfunction);
    assert msg.buff[..4] == [slave, 0x08] + BigEndian(subfunction);
    FillWord(msg, slave, 0x08, subfunction, datum);
  }

  method FillMasks(msg: ModbusMessage, slave: octet, start: int, andMask: int, orMask: int)
    requires msg.buff.Length == 256 && msg.buff[..4] == [slave, 0x16] + BigEndian(start)
    modifies msg, msg.buff
    ensures Holds(msg.buff[..], msg.length, slave, 0x16, ThreeWords(start, andMask, orMask))
  {
    PutWord(msg.buff, 4, andMask);
    assert msg.buff[..6] == [slave, 0x16] + (BigEndian(start) + BigEndian(andMask));
    PutWord(msg.buff, 6, orMask);
    msg.length := 8;
    assert msg.buff[..8] == [slave, 0x16] + (BigEndian(start) + BigEndian(andMask) + BigEndian(orMask));
  }

  method FillCoils(msg: ModbusMessage, slave: octet, start: int32, length: int32, coils: seq<octet>)
    returns (ok: bool)
    requires msg.buff.Length == 256 && msg.buff[..] == [slave, 0x0F] + BigEndian(start) + Zeros(252)
    modifies msg, msg.buff
    ensures ok <==> !CoilsLayout(start, length, coils).Overrun?
    ensures ok ==> Holds(msg.buff[..], msg.length, slave, 0x0F, CoilsLayout(start, length, coils))
  {
    var count := CoilBytes(length);
    PutWord(msg.buff, 4, length);
    msg.buff[6] := U8(count);
    ghost var header := BigEndian(start) + BigEndian(length) + [U8(count)];
    assert msg.buff[..] == [slave, 0x0F] + header + Zeros(249);
    ok := PutBytes(msg.buff, 7, coils, count);
    msg.length := 7 + count;
    if ok && count >= 0 {
      assert msg.buff[..7 + count] == [slave, 0x0F] + (header + coils[..count]);
    }
  }

  lemma WrapSmall(x: int)
    requires 0 <= x < 0x8000_0000
    ensures Wrap32(x) == x
  {}

  lemma RegistersHold(buff: seq<octet>, slave: octet, start: int32, length: int32, words: seq<int32>)
    requires |buff| == 256 && !RegistersLayout(start, length, words).Overrun?
    requires var header := BigEndian(start) + BigEndian(length) + [U8(2 * length)];
             if length < 0 then buff == [slave, 0x10] + header + Zeros(249)
             else buff[..7 + 2 * length] == [slave, 0x10] + header + Words(words[..length])
    ensures Holds(buff, Wrap32(7 + Wrap32(2 * length)), slave, 0x10, RegistersLayout(start, length, words))
  {
    if length >= 0 {
      var header := BigEndian(start) + BigEndian(length) + [U8(2 * length)];
      WrapSmall(2 * length);
      WrapSmall(7 + 2 * length);
      assert [slave, 0x10] + header + Words(words[..length]) == [slave, 0x10] + (header + Words(words[..length]));
    }
  }

  method FillRegisters(msg: ModbusMessage, slave: octet, start: int32, length: int32, words: seq<int32>)
    returns (ok: bool)
    requires msg.buff.Length == 256 && msg.buff[..] == [slave, 0x10] + BigEndian(start) + Zeros(252)
    modifies msg, msg.buff
    ensures ok <==> !RegistersLayout(start, length, words).Overrun?
    ensures ok ==> Holds(msg.buff[..], msg.length, slave, 0x10, RegistersLayout(start, length, words))
  {
    PutWord(msg.buff, 4, length);
    msg.buff[6] := U8(2 * length);
    ghost var header := BigEndian(start) + BigEndian(length) + [U8(2 * length)];
    assert msg.buff[..] == [slave, 0x10] + header + Zeros(249);
    ghost var front := msg.buff[..7];
    assert front == [slave, 0x10] + header;
    ok := PutWords(msg.buff, 7, words, length);
    msg.length := Wrap32(7 + Wrap32(2 * length));
    if ok {
      assert length >= 0 ==> msg.buff[..7 + 2 * length] == front + Words(words[..length]);
      RegistersHold(msg.buff[..], slave, start, length, words);
    }
  }

  method PutReadWriteHeader(buff: array<octet>, readAddr: int32, readNum: int32, writeAddr: int32, writeNum: int)
    requires buff.Length == 256
    modifies buff
    ensures buff[..11] == old(buff[..2]) + (BigEndian(readAddr) + BigEndian(readNum) + BigEndian(writeAddr) +
                                            BigEndian(writeNum) + [U8(2 * writeNum)])
  {
    ghost var front := buff[..2];
    PutWord(buff, 2, readAddr);
    assert buff[..4] == front + BigEndian(readAddr);
    PutWord(buff, 4, readNum);
    assert buff[..6] == front + (BigEndian(readAddr) + BigEndian(readNum));
    PutWord(buff, 6, writeAddr);
    assert buff[..8] == front + (BigEndian(readAddr) + BigEndian(readNum) + BigEndian(writeAddr));
    PutWord(buff, 8, writeNum);
    buff[10] := U8(2 * writeNum);
  }

  method FillReadWrite(msg: ModbusMessage, slave: octet, readAddr: int32, readNum: int32, writeAddr: int32,
                       words: seq<int32>)
    returns (ok: bool)
    requires msg.buff.Length == 256 && msg.buff[..2] == [slave, 0x17]
    modifies msg, msg.buff
    ensures ok <==> !ReadWriteLayout(readAddr, readNum, writeAddr, words).Overrun?
    ensures ok ==> Holds(msg.buff[..], msg.length, slave, 0x17, ReadWriteLayout(readAddr, readNum, writeAddr, words))
  {
    PutReadWriteHeader(msg.buff, readAddr, readNum, writeAddr, |words|);
    ghost var header := BigEndian(readAddr) + BigEndian(readNum) + BigEndian(writeAddr) +
                        BigEndian(|words|) + [U8(2 * |words|)];
    assert msg.buff[..11] == [slave, 0x17] + header;
    ok := PutWords(msg.buff, 11, words, |words|);
    msg.length := 11 + 2 * |words|;
    if ok {
      assert words[..|words|] == words;
      assert msg.buff[..11 + 2 * |words|] == [slave, 0x17] + (header + Words(words));
    }
  }

  method FillReadSubs(msg: ModbusMessage, slave: octet, subs: seq<SubReq>) returns (ok: bool)
    requires msg.buff.Length == 256 && msg.buff[..2] == [slave, 0x14]
    modifies msg, msg.buff
    ensures ok <==> !ReadSubsLayout(subs).Overrun?
    ensures ok ==> Holds(msg.buff[..], msg.length, slave, 0x14, ReadSubsLayout(subs))
  {
    msg.buff[2] := U8(7 * |subs|);
    ghost var head := [slave, 0x14, U8(7 * |subs|)];
    assert msg.buff[..3] == head;
    var i := 0;
    while i < |subs|
      invariant 0 <= i <= |subs| && 3 + 7 * i <= 256
      invariant msg.buff[..3 + 7 * i] == head + ReadSubs(subs[..i])
    {
      if 3 + 7 * i + 7 > 256 {
        return false;
      }
      FlatSnoc(SubHeader, subs, i);
      PutSubHeader(msg.buff, 3 + 7 * i, subs[i]);
      i := i + 1;
    }
    msg.length := 3 + 7 * |subs|;
    assert subs[..|subs|] == subs;
    assert head + ReadSubs(subs) == [slave, 0x14] + ([U8(7 * |subs|)] + ReadSubs(subs));
    ok := true;
  }

  lemma U8Add(x: int, y: int)
    ensures U8(U8(x) + y) == U8(x + y)
  {
    var q := x / 256;
    assert x == 256 * q + U8(x);
    assert (256 * q + (U8(x) + y)) % 256 == (U8(x) + y) % 256;
  }

  /** A header and words stored from `at` on, with whatever was in front of them. */
  lemma SubStored(b0: seq<octet>, b1: seq<octet>, b2: seq<octet>, at: nat, s: SubReq)
    requires |b0| == 256 && 3 <= at && at + |WriteSub(s)| <= 256 && s.regCount <= |s.data|
    requires b1 == b0[..at] + SubHeader(s) + b0[at + 7..]
    requires var ws := Words(s.data[..Count(s.regCount)]); b2 == b1[..at + 7] + ws + b1[at + 7 + |ws|..]
    ensures var n := at + |WriteSub(s)|; b2[..3] == b0[..3] && b2[3..n] == b0[3..at] + WriteSub(s)
  {
    var n := at + |WriteSub(s)|;
    assert b2[..n] == b0[..at] + WriteSub(s);
    assert b2[3..n] == b2[..n][3..];
    assert b2[..3] == b2[..n][..3];
  }

  /** The body of the F21 loop: the byte count, the header and the words of one sub-request. */
  method PutWriteSub(buff: array<octet>, at: nat, s: SubReq) returns (ok: bool)
    requires buff.Length == 256 && 3 <= at <= 256
    modifies buff
    ensures ok <==> s.regCount <= |s.data| && at + |WriteSub(s)| <= 256
    ensures ok ==> buff[..2] == old(buff[..2]) && buff[2] == U8(old(buff[2]) + 2 * s.regCount)
    ensures ok ==> buff[3..at + |WriteSub(s)|] == old(buff[3..at]) + WriteSub(s)
  {
    buff[2] := U8(buff[2] + 2 * s.regCount);
    if at + 7 > 256 {
      return false;
    }
    ghost var b0 := buff[..];
    assert b0[..2] == old(buff[..2]) && b0[3..at] == old(buff[3..at]);
    PutSubHeader(buff, at, s);
    ghost var b1 := buff[..];
    ok := PutWords(buff, at + 7, s.data, s.regCount);
    if ok {
      SubStored(b0, b1, buff[..], at, s);
      assert buff[..2] == buff[..3][..2] && buff[2] == buff[..3][2];
    }
  }

  /** The state of the F21 loop before sub-request i. */
  ghost predicate Written(buff: seq<octet>, at: nat, slave: octet, subs: seq<SubReq>, i: nat)
    requires |buff| == 256 && i <= |subs|
  {
    at == 3 + |WriteSubs(subs[..i])| <= 256 && Supplied(subs[..i]) &&
    buff[..2] == [slave, 0x15] && buff[3..at] == WriteSubs(subs[..i]) &&
    buff[2] == U8(ByteSum(subs[..i]) + 7 * (|subs| - i))
  }

  lemma WrittenNext(buff: seq<octet>, next: seq<octet>, at: nat, slave: octet, subs: seq<SubReq>, i: nat)
    requires |buff| == |next| == 256 && i < |subs| && Written(buff, at, slave, subs, i)
    requires subs[i].regCount <= |subs[i].data| && at + |WriteSub(subs[i])| <= 256
    requires next[..2] == buff[..2] && next[2] == U8(buff[2] + 2 * subs[i].regCount)
    requires next[3..at + |WriteSub(subs[i])|] == buff[3..at] + WriteSub(subs[i])
    ensures Written(next, at + |WriteSub(subs[i])|, slave, subs, i + 1)
  {
    WriteSubsGrow(subs, i);
    U8Add(ByteSum(subs[..i]) + 7 * (|subs| - i), 2 * subs[i].regCount);
    assert ByteSum(subs[..i + 1]) + 7 * (|subs| - (i + 1)) ==
           ByteSum(subs[..i]) + 7 * (|subs| - i) + 2 * subs[i].regCount;
  }

  lemma WrittenAll(buff: seq<octet>, at: nat, slave: octet, subs: seq<SubReq>)
    requires |buff| == 256 && Written(buff, at, slave, subs, |subs|)
    ensures Holds(buff, at, slave, 0x15, WriteSubsLayout(subs))
  {
    assert subs[..|subs|] == subs;
    assert buff[..at] == buff[..2] + [buff[2]] + buff[3..at];
    assert buff[..at] == [slave, 0x15] + ([U8(ByteSum(subs))] + WriteSubs(subs));
  }

  /** A sub-request that cannot be written makes the whole list one that cannot. */
  lemma WrittenNoFurther(buff: seq<octet>, at: nat, slave: octet, subs: seq<SubReq>, i: nat)
    requires |buff| == 256 && i < |subs| && Written(buff, at, slave, subs, i)
    requires !(subs[i].regCount <= |subs[i].data| && at + |WriteSub(subs[i])| <= 256)
    ensures WriteSubsLayout(subs).Overrun?
  {
    WriteSubsGrow(subs, i);
  }

  lemma NothingWritten(buff: seq<octet>, slave: octet, subs: seq<SubReq>)
    requires |buff| == 256 && buff[..2] == [slave, 0x15] && buff[2] == U8(7 * |subs|)
    ensures Written(buff, 3, slave, subs, 0)
  {
    assert subs[..0] == [];
    assert buff[3..3] == [];
  }

  method FillWriteSubs(msg: ModbusMessage, slave: octet, subs: seq<SubReq>) returns (ok: bool)
    requires msg.buff.Length == 256 && msg.buff[..2] == [slave, 0x15]
    modifies msg, msg.buff
    ensures ok <==> !WriteSubsLayout(subs).Overrun?
    ensures ok ==> Holds(msg.buff[..], msg.length, slave, 0x15, WriteSubsLayout(subs))
  {
    msg.buff[2] := U8(7 * |subs|);
    assert msg.buff[..2] == old(msg.buff[..2]);
    NothingWritten(msg.buff[..], slave, subs);
    var pduIndex: nat := 3;
    var i := 0;
    while i < |subs|
      invariant 0 <= i <= |subs|
      invariant Written(msg.buff[..], pduIndex, slave, subs, i)
    {
      ghost var before := msg.buff[..];
      ok := PutWriteSub(msg.buff, pduIndex, subs[i]);
      if !ok {
        WrittenNoFurther(before, pduIndex, slave, subs, i);
        return;
      }
      WrittenNext(before, msg.buff[..], pduIndex, slave, subs, i);
      pduIndex := pduIndex + 7 + 2 * Count(subs[i].regCount);
      i := i + 1;
    }
    msg.length := pduIndex;
    WrittenAll(msg.buff[..], pduIndex, slave, subs);
    ok := true;
  }

  // --- Runs --------------------------------------------------------------------------------------

  /** What can happen to the application. */
  datatype Call =
    | Ask(slave: int, q: Request, port: int)
    | Listen(port: int)
    | Read(port: int, b: octet)
    | Expire(port: int)
    | Other(port: int)

  /** The step of the ports that a call is; a request with an illegal argument is none. */
  function EventOf(c: Call): Option<Event> {
    match c
    case Ask(slave, q, port) =>
      if Build(slave, q).IllegalArgument? then None else Some(FrameInit(port, U8(slave), q.Code()))
    case Listen(port) => Some(Ready(port))
    case Read(port, b) => Some(ByteArrived(port, b))
    case Expire(port) => Some(Timeout(port))
    case Other(port) => Some(OtherMessage(port))
  }

  function After(s: Ports, c: Call): (s': Ports)
    requires s.Valid()
    ensures s'.Valid()
  {
    match EventOf(c) case Some(e) => Apply(s, e) case None => s
  }

  function History(calls: seq<Call>): seq<Event> {
    if calls == [] then []
    else
      History(calls[..|calls| - 1]) +
      match EventOf(calls[|calls| - 1]) case Some(e) => [e] case None => []
  }

  lemma HistorySnoc(calls: seq<Call>, c: Call)
    ensures Run(History(calls + [c])) == After(Run(History(calls)), c)
  {
    var h := History(calls);
    assert (calls + [c])[..|calls|] == calls;
    if EventOf(c).Some? {
      assert (h + [EventOf(c).value])[..|h|] == h;
    } else {
      assert History(calls + [c]) == h + [] == h;
    }
  }

  /** A buffer that holds what a request asks for is the message that the specification sends. */
  lemma HoldsBuilds(buff: seq<octet>, length: int, slave: octet, q: Request)
    requires |buff| == 256 && Holds(buff, length, slave, q.Code(), LayoutOf(q))
    requires q.Starts() ==> U16(q.start)
    ensures Build(slave, q) == if 0 <= length && length + 2 <= 256 then Sent(buff[..length]) else OutOfBounds
  {
    HoldsCompletes(buff, length, slave, q.Code(), LayoutOf(q));
  }

  class MainActivity {
    var request: ModbusMessage
    var dataTx: seq<octet>
    const port0: Port
    const port1: Port

    constructor ()
      ensures Valid() && State() == Run([])
    {
      request := new ModbusMessage();
      dataTx := [];
      port0 := new Port();
      port1 := new Port();
    }

    ghost predicate Valid()
      reads port0, port1
    {
      port0 != port1 && port0.rcvData != port1.rcvData &&
      port0.rcvData.Length == port1.rcvData.Length == 256 &&
      port0.dataIndex <= 256 && port1.dataIndex <= 256
    }

    ghost function State(): (s: Ports)
      requires Valid()
      reads port0, port1, port0.rcvData, port1.rcvData
      ensures s.Valid()
    {
      Ports(port0.State(), port1.State())
    }

    // --- Building and sending --------------------------------------------------------------------

    /** Slave address and function code are recorded on the port they concern, if there is such a port. */
    twostate predicate Recorded(ok: bool, port: int, id: octet, code: octet)
      reads port0, port1
    {
      port0.currentSendId == (if ok && port == 0 then id else old(port0.currentSendId)) &&
      port0.currentSendFunc == (if ok && port == 0 then code else old(port0.currentSendFunc)) &&
      port1.currentSendId == (if ok && port == 1 then id else old(port1.currentSendId)) &&
      port1.currentSendFunc == (if ok && port == 1 then code else old(port1.currentSendFunc))
    }

    method Record(port: int, id: octet, code: octet)
      requires port0 != port1
      modifies port0`currentSendId, port0`currentSendFunc, port1`currentSendId, port1`currentSendFunc
      ensures Recorded(true, port, id, code)
    {
      if port == 0 {
        port0.currentSendId, port0.currentSendFunc := id, code;
      } else if port == 1 {
        port1.currentSendId, port1.currentSendFunc := id, code;
      }
    }

    method FrameInit(msg: ModbusMessage, code: octet, slave: int, port: int) returns (ok: bool)
      requires msg.buff.Length == 256 && port0 != port1
      modifies port0`currentSendId, port0`currentSendFunc, port1`currentSendId, port1`currentSendFunc
      modifies msg.buff
      ensures ok <==> 0 <= slave <= 0xFF
      ensures Recorded(ok, port, U8(slave), code)
      ensures ok ==> msg.buff[..] == [slave, code] + old(msg.buff[2..])
    {
      if slave > 0xFF || slave < 0 {
        return false;
      }
      Record(port, U8(slave), code);
      msg.buff[0] := U8(slave);
      msg.buff[1] := code;
      ok := true;
    }

    /** The overload with a start address: both ranges are checked before anything is written. */
    method FrameInitAt(msg: ModbusMessage, code: octet, slave: int, start: int, port: int) returns (ok: bool)
      requires msg.buff.Length == 256 && port0 != port1
      modifies port0`currentSendId, port0`currentSendFunc, port1`currentSendId, port1`currentSendFunc
      modifies msg.buff
      ensures ok <==> 0 <= slave <= 0xFF && 0 <= start <= 0xFFFF
      ensures Recorded(ok, port, U8(slave), code)
      ensures ok ==> msg.buff[..] == [slave, code] + BigEndian(start) + old(msg.buff[4..])
    {
      if slave > 0xFF || slave < 0 || start > 0xFFFF || start < 0 {
        return false;
      }
      Record(port, U8(slave), code);
      msg.buff[0] := U8(slave);
      msg.buff[1] := code;
      PutWord(msg.buff, 2, start);
      ok := true;
    }

    /** Completes the message with its CRC, low-order byte first, and copies it out for the port. */
    method SendFrame(msg: ModbusMessage) returns (r: Outcome)
      requires msg.buff.Length == 256
      modifies this`dataTx, msg, msg.buff
      ensures r == if 0 <= old(msg.length) && old(msg.length) + 2 <= 256
                   then Sent(old(msg.buff[..msg.length])) else OutOfBounds
      ensures dataTx == if r.Sent? then Frame(r.msg) else old(dataTx)
    {
      var crc := Crc16(msg.buff, msg.length);
      if crc.IndexOutOfBounds? {
        return OutOfBounds;
      }
      var sent := msg.buff[..msg.length];
      if msg.length >= 256 {
        return OutOfBounds;
      }
      msg.buff[msg.length] := ToOctet(crc.value.hi);
      msg.length := msg.length + 1;
      if msg.length >= 256 {
        return OutOfBounds;
      }
      msg.buff[msg.length] := ToOctet(crc.value.lo);
      msg.length := msg.length + 1;
      dataTx := msg.buff[..msg.length];
      assert msg.buff[..msg.length] == sent + [ToOctet(crc.value.hi), ToOctet(crc.value.lo)];
      r := Sent(sent);
    }

    /** What every builder call does: its outcome is that of the specification; unless an argument is
        illegal it records the request on its port; a frame sent is handed over whole. */
    twostate predicate Built(slave: int, q: Request, port: int, r: Outcome)
      reads this, port0, port1
    {
      r == Build(slave, q) &&
      Recorded(!r.IllegalArgument?, port, U8(slave), q.Code()) &&
      dataTx == (if r.Sent? then Frame(r.msg) else old(dataTx))
    }

    method F1ReadCoilStatus(slave: int, start: int32, length: int32, port: int) returns (r: Outcome)
      requires port0 != port1
      modifies this, port0`currentSendId, port0`currentSendFunc, port1`currentSendId, port1`currentSendFunc
      ensures Built(slave, ReadCoilStatus(start, length), port, r)
    {
      request := new ModbusMessage();
      var ok := FrameInitAt(request, 0x01, slave, start, port);
      if !ok {
        return IllegalArgument;
      }
      FillWord(request, slave, 0x01, start, length);
      HoldsBuilds(request.buff[..], request.length, slave, ReadCoilStatus(start, length));
      r := SendFrame(request);
    }

    method F2ReadInputStatus(slave: int, start: int32, length: int32, port: int) returns (r: Outcome)
      requires port0 != port1
      modifies this, port0`currentSendId, port0`currentSendFunc, port1`currentSendId, port1`currentSendFunc
      ensures Built(slave, ReadInputStatus(start, length), port, r)
    {
      request := new ModbusMessage();
      var ok := FrameInitAt(request, 0x02, slave, start, port);
      if !ok {
        return IllegalArgument;
      }
      FillWord(request, slave, 0x02, start, length);
      HoldsBuilds(request.buff[..], request.length, slave, ReadInputStatus(start, length));
      r := SendFrame(request);
    }

    method F3ReadHoldingRegisters(slave: int, start: int32, length: int32, port: int) returns (r: Outcome)
      requires port0 != port1
      modifies this, port0`currentSendId, port0`currentSendFunc, port1`currentSendId, port1`currentSendFunc
      ensures Built(slave, ReadHoldingRegisters(start, length), port, r)
    {
      request := new ModbusMessage();
      var ok := FrameInitAt(request, 0x03, slave, start, port);
      if !ok {
        return IllegalArgument;
      }
      FillWord(request, slave, 0x03, start, length);
      HoldsBuilds(request.buff[..], request.length, slave, ReadHoldingRegisters(start, length));
      r := SendFrame(request);
    }

    method F4ReadInputRegisters(slave: int, start: int32, length: int32, port: int) returns (r: Outcome)
      requires port0 != port1
      modifies this, port0`currentSendId, port0`currentSendFunc, port1`currentSendId, port1`currentSendFunc
      ensures Built(slave, ReadInputRegisters(start, length), port, r)
    {
      request := new ModbusMessage();
      var ok := FrameInitAt(request, 0x04, slave, start, port);
      if !ok {
        return IllegalArgument;
      }
      FillWord(request, slave, 0x04, start, length);
      HoldsBuilds(request.buff[..], request.length, slave, ReadInputRegisters(start, length));
      r := SendFrame(request);
    }

    method F5ForceSingleCoil(slave: int, start: int32, on: int32, port: int) returns (r: Outcome)
      requires port0 != port1
      modifies this, port0`currentSendId, port0`currentSendFunc, port1`currentSendId, port1`currentSendFunc
      ensures Built(slave, ForceSingleCoil(start, on), port, r)
    {
      request := new ModbusMessage();
      var ok := FrameInitAt(request, 0x05, slave, start, port);
      if !ok {
        return IllegalArgument;
      }
      FillCoil(request, slave, start, on);
      HoldsBuilds(request.buff[..], request.length, slave, ForceSingleCoil(start, on));
      r := SendFrame(request);
    }

    method F6PresetSingleRegister(slave: int, start: int32, value: int32, port: int) returns (r: Outcome)
      requires port0 != port1
      modifies this, port0`currentSendId, port0`currentSendFunc, port1`currentSendId, port1`currentSendFunc
      ensures Built(slave, PresetSingleRegister(start, value), port, r)
    {
      request := new ModbusMessage();
      var ok := FrameInitAt(request, 0x06, slave, start, port);
      if !ok {
        return IllegalArgument;
      }
      FillWord(request, slave, 0x06, start, value);
      HoldsBuilds(request.buff[..], request.length, slave, PresetSingleRegister(start, value));
      r := SendFrame(request);
    }

    method F7ReadExceptionStatus(slave: int, port: int) returns (r: Outcome)
      requires port0 != port1
      modifies this, port0`currentSendId, port0`currentSendFunc, port1`currentSendId, port1`currentSendFunc
      ensures Built(slave, ReadExceptionStatus, port, r)
    {
      request := new ModbusMessage();
      var ok := FrameInit(request, 0x07, slave, port);
      if !ok {
        return IllegalArgument;
      }
      FillNothing(request, slave, 0x07);
      HoldsBuilds(request.buff[..], request.length, slave, ReadExceptionStatus);
      r := SendFrame(request);
    }

    method F8DiagnosticsQuery(slave: int, subfunction: int32, datum: int32, port: int) returns (r: Outcome)
      requires port0 != port1
      modifies this, port0`currentSendId, port0`currentSendFunc, port1`currentSendId, port1`currentSendFunc
      ensures Built(slave, DiagnosticsQuery(subfunction, datum), port, r)
    {
      request := new ModbusMessage();
      var ok := FrameInit(request, 0x08, slave, port);
      if !ok {
        return IllegalArgument;
      }
      FillDiagnostics(request, slave, subfunction, datum);
      HoldsBuilds(request.buff[..], request.length, slave, DiagnosticsQuery(subfunction, datum));
      r := SendFrame(request);
    }

    method F11FetchCommEventCounter(slave: int, port: int) returns (r: Outcome)
      requires port0 != port1
      modifies this, port0`currentSendId, port0`currentSendFunc, port1`currentSendId, port1`currentSendFunc
      ensures Built(slave, FetchCommEventCounter, port, r)
    {
      request := new ModbusMessage();
      var ok := FrameInit(request, 0x0B, slave, port);
      if !ok {
        return IllegalArgument;
      }
      FillNothing(request, slave, 0x0B);
      HoldsBuilds(request.buff[..], request.length, slave, FetchCommEventCounter);
      r := SendFrame(request);
    }

    method F12FetchCommEventLog(slave: int, port: int) returns (r: Outcome)
      requires port0 != port1
      modifies this, port0`currentSendId, port0`currentSendFunc, port1`currentSendId, port1`currentSendFunc
      ensures Built(slave, FetchCommEventLog, port, r)
    {
      request := new ModbusMessage();
      var ok := FrameInit(request, 0x0C, slave, port);
      if !ok {
        return IllegalArgument;
      }
      FillNothing(request, slave, 0x0C);
      HoldsBuilds(request.buff[..], request.length, slave, FetchCommEventLog);
      r := SendFrame(request);
    }

    method F15ForceMultipleCoils(slave: int, start: int32, length: int32, coils: seq<octet>, port: int)
        returns (r: Outcome)
      requires port0 != port1
      modifies this, port0`currentSendId, port0`currentSendFunc, port1`currentSendId, port1`currentSendFunc
      ensures Built(slave, ForceMultipleCoils(start, length, coils), port, r)
    {
      request := new ModbusMessage();
      var ok := FrameInitAt(request, 0x0F, slave, start, port);
      if !ok {
        return IllegalArgument;
      }
      ok := FillCoils(request, slave, start, length, coils);
      if !ok {
        return OutOfBounds;
      }
      HoldsBuilds(request.buff[..], request.length, slave, ForceMultipleCoils(start, length, coils));
      r := SendFrame(request);
    }

    method F16PresetMultipleRegs(slave: int, start: int32, length: int32, words: seq<int32>, port: int)
        returns (r: Outcome)
      requires port0 != port1
      modifies this, port0`currentSendId, port0`currentSendFunc, port1`currentSendId, port1`currentSendFunc
      ensures Built(slave, PresetMultipleRegs(start, length, words), port, r)
    {
      request := new ModbusMessage();
      var ok := FrameInitAt(request, 0x10, slave, start, port);
      if !ok {
        return IllegalArgument;
      }
      ok := FillRegisters(request, slave, start, length, words);
      if !ok {
        return OutOfBounds;
      }
      HoldsBuilds(request.buff[..], request.length, slave, PresetMultipleRegs(start, length, words));
      r := SendFrame(request);
    }

    method F17ReportSlaveID(slave: int, port: int) returns (r: Outcome)
      requires port0 != port1
      modifies this, port0`currentSendId, port0`currentSendFunc, port1`currentSendId, port1`currentSendFunc
      ensures Built(slave, ReportSlaveID, port, r)
    {
      request := new ModbusMessage();
      var ok := FrameInit(request, 0x11, slave, port);
      if !ok {
        return IllegalArgument;
      }
      FillNothing(request, slave, 0x11);
      HoldsBuilds(request.buff[..], request.length, slave, ReportSlaveID);
      r := SendFrame(request);
    }

    method F20ReadGeneralReference(slave: int, subs: seq<SubReq>, port: int) returns (r: Outcome)
      requires port0 != port1
      modifies this, port0`currentSendId, port0`currentSendFunc, port1`currentSendId, port1`currentSendFunc
      ensures Built(slave, ReadGeneralReference(subs), port, r)
    {
      request := new ModbusMessage();
      var ok := FrameInit(request, 0x14, slave, port);
      if !ok {
        return IllegalArgument;
      }
      ok := FillReadSubs(request, slave, subs);
      if !ok {
        return OutOfBounds;
      }
      HoldsBuilds(request.buff[..], request.length, slave, ReadGeneralReference(subs));
      r := SendFrame(request);
    }

    method F21WriteGeneralReference(slave: int, subs: seq<SubReq>, port: int) returns (r: Outcome)
      requires port0 != port1
      modifies this, port0`currentSendId, port0`currentSendFunc, port1`currentSendId, port1`currentSendFunc
      ensures Built(slave, WriteGeneralReference(subs), port, r)
    {
      request := new ModbusMessage();
      var ok := FrameInit(request, 0x15, slave, port);
      if !ok {
        return IllegalArgument;
      }
      ok := FillWriteSubs(request, slave, subs);
      if !ok {
        return OutOfBounds;
      }
      HoldsBuilds(request.buff[..], request.length, slave, WriteGeneralReference(subs));
      r := SendFrame(request);
    }

    method F22MaskWrite4XRegister(slave: int, start: int32, andMask: int32, orMask: int32, port: int)
        returns (r: Outcome)
      requires port0 != port1
      modifies this, port0`currentSendId, port0`currentSendFunc, port1`currentSendId, port1`currentSendFunc
      ensures Built(slave, MaskWrite4XRegister(start, andMask, orMask), port, r)
    {
      request := new ModbusMessage();
      var ok := FrameInitAt(request, 0x16, slave, start, port);
      if !ok {
        return IllegalArgument;
      }
      FillMasks(request, slave, start, andMask, orMask);
      HoldsBuilds(request.buff[..], request.length, slave, MaskWrite4XRegister(start, andMask, orMask));
      r := SendFrame(request);
    }

    method F23ReadWrite4XRegisters(slave: int, readAddr: int32, readNum: int32, writeAddr: int32,
                                   words: seq<int32>, port: int)
        returns (r: Outcome)
      requires port0 != port1
      modifies this, port0`currentSendId, port0`currentSendFunc, port1`currentSendId, port1`currentSendFunc
      ensures Built(slave, ReadWrite4XRegisters(readAddr, readNum, writeAddr, words), port, r)
    {
      request := new ModbusMessage();
      var ok := FrameInit(request, 0x17, slave, port);
      if !ok {
        return IllegalArgument;
      }
      ok := FillReadWrite(request, slave, readAddr, readNum, writeAddr, words);
      if !ok {
        return OutOfBounds;
      }
      HoldsBuilds(request.buff[..], request.length, slave, ReadWrite4XRegisters(readAddr, readNum, writeAddr, words));
      r := SendFrame(request);
    }

    method F24ReadFIFOQueue(slave: int, start: int32, length: int32, port: int) returns (r: Outcome)
      requires port0 != port1
      modifies this, port0`currentSendId, port0`currentSendFunc, port1`currentSendId, port1`currentSendFunc
      ensures Built(slave, ReadFIFOQueue(start, length), port, r)
    {
      request := new ModbusMessage();
      var ok := FrameInitAt(request, 0x18, slave, start, port);
      if !ok {
        return IllegalArgument;
      }
      FillStart(request, slave, 0x18, start);
      HoldsBuilds(request.buff[..], request.length, slave, ReadFIFOQueue(start, length));
      r := SendFrame(request);
    }

    /** A builder call, by what it asks for. */
    method Send(slave: int, q: Request, port: int) returns (r: Outcome)
      requires port0 != port1
      modifies this, port0`currentSendId, port0`currentSendFunc, port1`currentSendId, port1`currentSendFunc
      ensures Built(slave, q, port, r)
    {
      match q
      case ReadCoilStatus(start, length) => r := F1ReadCoilStatus(slave, start, length, port);
      case ReadInputStatus(start, length) => r := F2ReadInputStatus(slave, start, length, port);
      case ReadHoldingRegisters(start, length) => r := F3ReadHoldingRegisters(slave, start, length, port);
      case ReadInputRegisters(start, length) => r := F4ReadInputRegisters(slave, start, length, port);
      case ForceSingleCoil(start, on) => r := F5ForceSingleCoil(slave, start, on, port);
      case PresetSingleRegister(start, value) => r := F6PresetSingleRegister(slave, start, value, port);
      case ReadExceptionStatus => r := F7ReadExceptionStatus(slave, port);
      case DiagnosticsQuery(subfunction, datum) => r := F8DiagnosticsQuery(slave, subfunction, datum, port);
      case FetchCommEventCounter => r := F11FetchCommEventCounter(slave, port);
      case FetchCommEventLog => r := F12FetchCommEventLog(slave, port);
      case ForceMultipleCoils(start, length, coils) => r := F15ForceMultipleCoils(slave, start, length, coils, port);
      case PresetMultipleRegs(start, length, words) => r := F16PresetMultipleRegs(slave, start, length, words, port);
      case ReportSlaveID => r := F17ReportSlaveID(slave, port);
      case ReadGeneralReference(subs) => r := F20ReadGeneralReference(slave, subs, port);
      case WriteGeneralReference(subs) => r := F21WriteGeneralReference(slave, subs, port);
      case MaskWrite4XRegister(start, andMask, orMask) =>
        r := F22MaskWrite4XRegister(slave, start, andMask, orMask, port);
      case ReadWrite4XRegisters(readAddr, readNum, writeAddr, words) =>
        r := F23ReadWrite4XRegisters(slave, readAddr, readNum, writeAddr, words, port);
      case ReadFIFOQueue(start, length) => r := F24ReadFIFOQueue(slave, start, length, port);
    }

    /** To the state machine of the ports, a builder call is one step, or none if an argument is illegal. */
    method SendRecorded(slave: int, q: Request, port: int) returns (r: Outcome)
      requires Valid()
      modifies this, port0`currentSendId, port0`currentSendFunc, port1`currentSendId, port1`currentSendFunc
      ensures Valid() && State() == After(old(State()), Ask(slave, q, port)) && r == Build(slave, q)
      ensures dataTx == if r.Sent? then Frame(r.msg) else old(dataTx)
    {
      r := Send(slave, q, port);
      assert port0.rcvData[..] == old(port0.rcvData[..]) && port1.rcvData[..] == old(port1.rcvData[..]);
    }

    // --- Receiving -------------------------------------------------------------------------------

    method ReadyToReceive(port: int)
      requires Valid()
      modifies port0`checkRcvData, port0`dataIndex, port1`checkRcvData, port1`dataIndex
      ensures Valid() && State() == Apply(old(State()), Ready(port))
    {
      if port == 0 {
        port0.checkRcvData, port0.dataIndex := true, 0;
      } else if port == 1 {
        port1.checkRcvData, port1.dataIndex := true, 0;
      }
    }

    /** A byte read by the thread of a port. */
    method OnByte(port: int, b: octet)
      requires Valid()
      modifies port0`dataIndex, port0`reading, port0.rcvData, port1`dataIndex, port1`reading, port1.rcvData
      ensures Valid() && State() == Apply(old(State()), ByteArrived(port, b))
    {
      if port == 0 {
        StoreByte(port0, b);
        assert port1.rcvData[..] == old(port1.rcvData[..]);
      } else if port == 1 {
        StoreByte(port1, b);
        assert port0.rcvData[..] == old(port0.rcvData[..]);
      }
    }

    /** The timeout message of a port. */
    method OnTimeout(port: int) returns (verdict: Option<bool>)
      requires Valid() && (port == 0 || port == 1)
      modifies port0`checkRcvData, port0`dataIndex, port0`currentSendId, port0`currentSendFunc
      modifies port1`checkRcvData, port1`dataIndex, port1`currentSendId, port1`currentSendFunc
      ensures Valid() && State() == Apply(old(State()), Timeout(port))
      ensures verdict == if old(State()).Of(port).receiving then Some(Accepts(old(State()).Of(port))) else None
    {
      if port == 0 {
        verdict := HandleTimeout(port0);
      } else {
        verdict := HandleTimeout(port1);
      }
    }

    /** A message of another kind to the handler of a port. */
    method OnOther(port: int)
      requires Valid() && (port == 0 || port == 1)
      modifies port0`checkRcvData, port0`dataIndex, port0`currentSendId, port0`currentSendFunc
      modifies port1`checkRcvData, port1`dataIndex, port1`currentSendId, port1`currentSendFunc
      ensures Valid() && State() == Apply(old(State()), OtherMessage(port))
    {
      if port == 0 {
        HandleOther(port0);
      } else {
        HandleOther(port1);
      }
    }

    // --- Runs ------------------------------------------------------------------------------------

    method Execute(c: Call)
      requires Valid()
      modifies this, port0, port1, port0.rcvData, port1.rcvData
      ensures Valid() && State() == After(old(State()), c)
    {
      if c.Ask? {
        var _ := SendRecorded(c.slave, c.q, c.port);
      } else if c.Listen? {
        ReadyToReceive(c.port);
      } else if c.Read? {
        OnByte(c.port, c.b);
      } else if c.port == 0 || c.port == 1 {
        OnMessage(c);
      }
    }

    method OnMessage(c: Call)
      requires Valid() && (c.Expire? || c.Other?) && (c.port == 0 || c.port == 1)
      modifies port0`checkRcvData, port0`dataIndex, port0`currentSendId, port0`currentSendFunc
      modifies port1`checkRcvData, port1`dataIndex, port1`currentSendId, port1`currentSendFunc
      ensures Valid() && State() == After(old(State()), c)
    {
      if c.Expire? {
        var _ := OnTimeout(c.port);
      } else {
        OnOther(c.port);
      }
    }

    /** After any run of calls, bytes and messages, both ports are in the state that the history of the run leads
        to: what holds of every history holds of the fields. */
    method Replay(calls: seq<Call>)
      requires Valid() && State() == Run([])
      modifies this, port0, port1, port0.rcvData, port1.rcvData
      ensures Valid() && State() == Run(History(calls))
    {
      for i := 0 to |calls|
        invariant Valid() && State() == Run(History(calls[..i]))
      {
        assert calls[..i + 1][..i] == calls[..i];
        Execute(calls[i]);
        HistorySnoc(calls[..i], calls[i]);
      }
      assert calls[..|calls|] == calls;
    }
  }
}
