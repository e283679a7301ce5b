/** The Modbus RTU request frames: what each builder puts into the 256-byte buffer, for every argument a
    Java caller can pass, and the decoder a slave would apply. */
module Frames {
  import opened Flatten
  import opened Int32
  import opened ModbusCrc
  import opened Octets
  import opened Options

  // --- Bytes and words ---------------------------------------------------------------------------

  /** The cast (byte) of an int. */
  function U8(x: int): octet { x % 256 }

  /** An int truncated to 16 bits, high byte first. */
  function BigEndian(x: int): (s: seq<octet>)
    ensures |s| == 2
  {
    [U8(x / 256), U8(x)]
  }

  predicate U16(x: int) { 0 <= x <= 0xFFFF }

  function WordAt(s: seq<octet>, i: nat): (x: int)
    requires i + 2 <= |s|
    ensures 0 <= x < 0x1_0000
  {
    var upper: int := s[i];
    256 * upper + s[i + 1]
  }

  lemma WordAtBigEndian(s: seq<octet>, i: nat, x: int)
    requires i + 2 <= |s| && s[i..i + 2] == BigEndian(x)
    ensures WordAt(s, i) == x % 0x1_0000
  {
    assert s[i] == s[i..i + 2][0] && s[i + 1] == s[i..i + 2][1];
  }

  function Words(xs: seq<int32>): (s: seq<octet>)
    ensures |s| == 2 * |xs|
  {
    FlatLength<int, octet>(BigEndian, 2, xs);
    Flat<int, octet>(BigEndian, xs)
  }

  // --- Requests ----------------------------------------------------------------------------------

  /** One sub-request of the two file-record functions; `data` holds the words to write. */
  datatype SubReq = SubReq(fileNum: int32, startAddr: int32, regCount: int32, data: seq<int32>)

  /** A call of one of the eighteen builders, without the slave address and the port. */
  datatype Request =
    | ReadCoilStatus(start: int32, length: int32)
    | ReadInputStatus(start: int32, length: int32)
    | ReadHoldingRegisters(start: int32, length: int32)
    | ReadInputRegisters(start: int32, length: int32)
    | ForceSingleCoil(start: int32, on: int32)
    | PresetSingleRegister(start: int32, value: int32)
    | ReadExceptionStatus
    | DiagnosticsQuery(subfunction: int32, datum: int32)
    | FetchCommEventCounter
    | FetchCommEventLog
    | ForceMultipleCoils(start: int32, length: int32, coils: seq<octet>)
    | PresetMultipleRegs(start: int32, length: int32, words: seq<int32>)
    | ReportSlaveID
    | ReadGeneralReference(subs: seq<SubReq>)
    | WriteGeneralReference(subs: seq<SubReq>)
    | MaskWrite4XRegister(start: int32, andMask: int32, orMask: int32)
    | ReadWrite4XRegisters(readAddr: int32, readNum: int32, writeAddr: int32, words: seq<int32>)
    | ReadFIFOQueue(start: int32, length: int32)
  {
    function Code(): octet {
      match this
      case ReadCoilStatus(_, _) => 0x01
      case ReadInputStatus(_, _) => 0x02
      case ReadHoldingRegisters(_, _) => 0x03
      case ReadInputRegisters(_, _) => 0x04
      case ForceSingleCoil(_, _) => 0x05
      case PresetSingleRegister(_, _) => 0x06
      case ReadExceptionStatus => 0x07
      case DiagnosticsQuery(_, _) => 0x08
      case FetchCommEventCounter => 0x0B
      case FetchCommEventLog => 0x0C
      case ForceMultipleCoils(_, _, _) => 0x0F
      case PresetMultipleRegs(_, _, _) => 0x10
      case ReportSlaveID => 0x11
      case ReadGeneralReference(_) => 0x14
      case WriteGeneralReference(_) => 0x15
      case MaskWrite4XRegister(_, _, _) => 0x16
      case ReadWrite4XRegisters(_, _, _, _) => 0x17
      case ReadFIFOQueue(_, _) => 0x18
    }

    /** Whether the builder passes a start address to frame_init, which then checks its range. */
    predicate Starts() {
      ReadCoilStatus? || ReadInputStatus? || ReadHoldingRegisters? || ReadInputRegisters? ||
      ForceSingleCoil? || PresetSingleRegister? || ForceMultipleCoils? || PresetMultipleRegs? ||
      MaskWrite4XRegister? || ReadFIFOQueue?
    }
  }

  function SubHeader(s: SubReq): (h: seq<octet>)
    ensures |h| == 7
  {
    [6] + BigEndian(s.fileNum) + BigEndian(s.startAddr) + BigEndian(s.regCount)
  }

  function ReadSubs(subs: seq<SubReq>): (s: seq<octet>)
    ensures |s| == 7 * |subs|
  {
    FlatLength(SubHeader, 7, subs);
    Flat(SubHeader, subs)
  }

  /** A loop that runs up to a negative count does not run. */
  function Count(x: int): nat { if x < 0 then 0 else x }

  /** Every sub-request brings the words its count asks for. */
  predicate Supplied(subs: seq<SubReq>) {
    forall i :: 0 <= i < |subs| ==> subs[i].regCount <= |subs[i].data|
  }

  function WriteSub(s: SubReq): seq<octet> {
    SubHeader(s) + Words(if s.regCount <= |s.data| then s.data[..Count(s.regCount)] else s.data)
  }

  function WriteSubs(subs: seq<SubReq>): seq<octet> { Flat(WriteSub, subs) }

  /** The sum the builder accumulates in the byte count: seven bytes and two per register. */
  function ByteSum(subs: seq<SubReq>): int {
    if subs == [] then 0 else ByteSum(subs[..|subs| - 1]) + 7 + 2 * subs[|subs| - 1].regCount
  }

  // --- The message, for every argument -----------------------------------------------------------

  /** Java's division by eight, which truncates towards zero. */
  function DivEight(x: int): int { if x >= 0 then x / 8 else -(-x / 8) }

  function CoilBytes(length: int): int { DivEight(length) + 1 }

  /** What a builder leaves in the buffer behind the slave address and the function code: a whole body; a
      header after which it sets the message length from a negative count; or nothing, because it runs
      out of the buffer or out of an argument array. */
  datatype Layout = Whole(body: seq<octet>) | Cut(header: seq<octet>, size: int) | Overrun

  function TwoWords(x: int, y: int): Layout { Whole(BigEndian(x) + BigEndian(y)) }

  function ThreeWords(x: int, y: int, z: int): Layout { Whole(BigEndian(x) + BigEndian(y) + BigEndian(z)) }

  function CoilLayout(start: int32, on: int32): Layout {
    Whole(BigEndian(start) + [if on == 0 then 0x00 else 0xFF, 0x00])
  }

  function CoilsLayout(start: int32, length: int32, coils: seq<octet>): Layout {
    var n := CoilBytes(length);
    var header := BigEndian(start) + BigEndian(length) + [U8(n)];
    if n < 0 then Cut(header, 7 + n)
    else if n <= |coils| && 7 + n <= 256 then Whole(header + coils[..n])
    else Overrun
  }

  function RegistersLayout(start: int32, length: int32, words: seq<int32>): Layout {
    var header := BigEndian(start) + BigEndian(length) + [U8(2 * length)];
    if length < 0 then Cut(header, Wrap32(7 + Wrap32(2 * length)))
    else if length <= |words| && 7 + 2 * length <= 256 then Whole(header + Words(words[..length]))
    else Overrun
  }

  function ReadSubsLayout(subs: seq<SubReq>): Layout {
    if 3 + 7 * |subs| <= 256 then Whole([U8(7 * |subs|)] + ReadSubs(subs)) else Overrun
  }

  function WriteSubsLayout(subs: seq<SubReq>): Layout {
    if Supplied(subs) && 3 + |WriteSubs(subs)| <= 256
    then Whole([U8(ByteSum(subs))] + WriteSubs(subs)) else Overrun
  }

  function ReadWriteLayout(readAddr: int32, readNum: int32, writeAddr: int32, words: seq<int32>): Layout {
    if 11 + 2 * |words| <= 256
    then Whole(BigEndian(readAddr) + BigEndian(readNum) + BigEndian(writeAddr) +
               BigEndian(|words|) + [U8(2 * |words|)] + Words(words))
    else Overrun
  }

  function LayoutOf(r: Request): Layout {
    match r
    case ReadCoilStatus(start, length) => TwoWords(start, length)
    case ReadInputStatus(start, length) => TwoWords(start, length)
    case ReadHoldingRegisters(start, length) => TwoWords(start, length)
    case ReadInputRegisters(start, length) => TwoWords(start, length)
    case ForceSingleCoil(start, on) => CoilLayout(start, on)
    case PresetSingleRegister(start, value) => TwoWords(start, value)
    case ReadExceptionStatus => Whole([])
    case DiagnosticsQuery(subfunction, datum) => TwoWords(subfunction, datum)
    case FetchCommEventCounter => Whole([])
    case FetchCommEventLog => Whole([])
    case ForceMultipleCoils(start, length, coils) => CoilsLayout(start, length, coils)
    case PresetMultipleRegs(start, length, words) => RegistersLayout(start, length, words)
    case ReportSlaveID => Whole([])
    case ReadGeneralReference(subs) => ReadSubsLayout(subs)
    case WriteGeneralReference(subs) => WriteSubsLayout(subs)
    case MaskWrite4XRegister(start, andMask, orMask) => ThreeWords(start, andMask, orMask)
    case ReadWrite4XRegisters(readAddr, readNum, writeAddr, words) =>
      ReadWriteLayout(readAddr, readNum, writeAddr, words)
    case ReadFIFOQueue(start, length) => Whole(BigEndian(start))
  }

  function Zeros(n: nat): (z: seq<octet>)
    ensures |z| == n && forall i :: 0 <= i < n ==> z[i] == 0
  {
    seq(n, _ => 0)
  }

  /** The first bytes of a buffer of 256 zeros that was then given a start. */
  function FirstBytes(start: seq<octet>, size: int): Option<seq<octet>> {
    if |start| <= 256 && 0 <= size <= 256 then Some((start + Zeros(256 - |start|))[..size]) else None
  }

  /** How a builder call ends: with a message that sendFrame completes and hands to the port, or with a
      Java exception. */
  datatype Outcome = Sent(msg: seq<octet>) | IllegalArgument | OutOfBounds

  /** The message is the buffer up to the length the builder set; sendFrame appends the two octets of the
      CRC, for which the buffer must have room. */
  function Complete(slave: int, code: octet, startOk: bool, layout: Layout): Outcome {
    if !(0 <= slave <= 0xFF) || !startOk then IllegalArgument
    else match layout
         case Whole(body) => if |body| + 4 <= 256 then Sent([slave, code] + body) else OutOfBounds
         case Cut(header, size) =>
           (match FirstBytes([slave, code] + header, size)
            case Some(m) => if |m| + 2 <= 256 then Sent(m) else OutOfBounds
            case None => OutOfBounds)
         case Overrun => OutOfBounds
  }

  function Build(slave: int, r: Request): Outcome {
    Complete(slave, r.Code(), !r.Starts() || 0 <= r.start <= 0xFFFF, LayoutOf(r))
  }

  /** A buffer of 256 bytes and a message length that carry out a layout. */
  predicate Holds(buff: seq<octet>, length: int, slave: octet, code: octet, layout: Layout)
    requires |buff| == 256
  {
    match layout
    case Whole(body) => length == |body| + 2 <= 256 && buff[..length] == [slave, code] + body
    case Cut(header, size) =>
      length == size && |header| <= 254 && buff == [slave, code] + header + Zeros(254 - |header|)
    case Overrun => false
  }

  lemma HoldsCompletes(buff: seq<octet>, length: int, slave: octet, code: octet, layout: Layout)
    requires |buff| == 256 && Holds(buff, length, slave, code, layout)
    ensures Complete(slave, code, true, layout) ==
            if 0 <= length && length + 2 <= 256 then Sent(buff[..length]) else OutOfBounds
  {}

  /** What goes out on the line. */
  function Frame(msg: seq<octet>): seq<octet> { msg + Check(msg) }
}
