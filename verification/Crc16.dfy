/** The Modbus CRC: the table loop of MainActivity.java:638-656 proved against the bit-serial algorithm
    of section 6.2.2 of "MODBUS over Serial Line Specification and Implementation Guide V1.02", and the
    test for a trailing CRC. */
module ModbusCrc {
  import opened CrcTables
  import opened Octets

  // --- The table loop ----------------------------------------------------------------------------

  /** The two running bytes of the loop; `hi` is the one that a message byte is combined with. */
  datatype Register = Register(hi: byte, lo: byte)

  const PRESET := Register(0xFF, 0xFF)

  // A named exclusive or: the verifier then recognises equal applications without looking at bits.
  function Xor(a: byte, b: byte): byte { a ^ b }

  function Xor16(a: bv16, b: bv16): bv16 { a ^ b }

  /** A pair of lookup tables, as what they hold at each byte.  The loop is proved for any pair and
      applied to the two of the source. */
  datatype Tables = Tables(hi: byte -> byte, lo: byte -> byte)

  const MODBUS: Tables := (TableSizes(); Tables(i => TABLE_CRC_HI[i as int], i => TABLE_CRC_LO[i as int]))

  function Feed(t: Tables, r: Register, b: byte): Register {
    Register(Xor(r.lo, t.hi(Xor(r.hi, b))), t.lo(Xor(r.hi, b)))
  }

  function FeedAll(t: Tables, r: Register, msg: seq<byte>): Register
    decreases |msg|
  {
    if msg == [] then r else FeedAll(t, Feed(t, r, msg[0]), msg[1..])
  }

  function Crc(msg: seq<byte>): Register { FeedAll(MODBUS, PRESET, msg) }

  lemma {:induction false} FeedAllConcat(t: Tables, r: Register, x: seq<byte>, y: seq<byte>)
    ensures FeedAll(t, r, x + y) == FeedAll(t, FeedAll(t, r, x), y)
    decreases |x|
  {
    if x == [] {
      assert x + y == y;
    } else {
      FeedAllConcat(t, Feed(t, r, x[0]), x[1..], y);
      assert (x + y)[1..] == x[1..] + y;
    }
  }

  lemma FeedAllSnoc(t: Tables, r: Register, msg: seq<byte>, b: byte)
    ensures FeedAll(t, r, msg + [b]) == Feed(t, FeedAll(t, r, msg), b)
  {
    var r' := FeedAll(t, r, msg);
    FeedAllConcat(t, r, msg, [b]);
    assert FeedAll(t, r', [b]) == Feed(t, r', b);
  }

  lemma FeedOne(t: Tables, r: Register, b: byte)
    ensures FeedAll(t, r, [b]) == Feed(t, r, b)
  {
    FeedAllSnoc(t, r, [], b);
    assert [] + [b] == [b];
  }

  /** What a Java call ends in when it may read or write past the end of an array. */
  datatype Result<T> = Ok(value: T) | IndexOutOfBounds

  method CrcLoop(t: Tables, buffer: array<octet>, bufferLength: int) returns (r: Result<Register>)
    ensures r == if 0 <= bufferLength <= buffer.Length
                 then Ok(FeedAll(t, PRESET, Bytes(buffer[..bufferLength]))) else IndexOutOfBounds
  {
    var crcHi: byte, crcLo: byte := 0xFF, 0xFF;
    var index, remaining := 0, bufferLength;
    while remaining != 0
      invariant index + remaining == bufferLength && 0 <= index <= buffer.Length
      invariant 0 <= bufferLength ==> 0 <= remaining
      invariant Register(crcHi, crcLo) == FeedAll(t, PRESET, Bytes(buffer[..index]))
      decreases buffer.Length - index
    {
      if index >= buffer.Length {
        return IndexOutOfBounds;
      }
      var b := ToByte(buffer[index]);
      FeedAllSnoc(t, PRESET, Bytes(buffer[..index]), b);
      assert Bytes(buffer[..index + 1]) == Bytes(buffer[..index]) + [b];
      var i := Xor(crcHi, b);
      crcHi := Xor(crcLo, t.hi(i));
      crcLo := t.lo(i);
      index, remaining := index + 1, remaining - 1;
    }
    r := Ok(Register(crcHi, crcLo));
  }

  /** The loop counts the length down to zero, so a negative length runs off the array just as a length
      beyond the array does.  The value returned is `hi` above `lo`. */
  method Crc16(buffer: array<octet>, bufferLength: int) returns (r: Result<Register>)
    ensures r == if 0 <= bufferLength <= buffer.Length
                 then Ok(Crc(Bytes(buffer[..bufferLength]))) else IndexOutOfBounds
  {
    r := CrcLoop(MODBUS, buffer, bufferLength);
  }

  // --- The standard's bit-serial form ------------------------------------------------------------

  /** Section 6.2.2: combine a byte with the low-order byte of the register and shift eight times. */
  function SerialStep(reg: bv16, b: byte): bv16 { Shift8(Xor16(reg, b as bv16)) }

  function SerialFrom(reg: bv16, msg: seq<byte>): bv16
    decreases |msg|
  {
    if msg == [] then reg else SerialFrom(SerialStep(reg, msg[0]), msg[1..])
  }

  /** The register is preset to all ones. */
  function SerialCrc(msg: seq<byte>): bv16 { SerialFrom(0xFFFF, msg) }

  /** The register whose low-order byte is `hi` and whose high-order byte is `lo`. */
  function Word(r: Register): bv16 { ((r.lo as bv16) << 8) | (r.hi as bv16) }

  /** Every entry of the pair is the register after eight shifts of its index. */
  ghost predicate Correct(t: Tables) {
    forall b :: t.hi(b) == LowByte(Shift8(b as bv16)) && t.lo(b) == HighByte(Shift8(b as bv16))
  }

  lemma FeedShifts(t: Tables, r: Register, b: byte)
    requires Correct(t)
    ensures Word(Feed(t, r, b)) == Xor16(r.lo as bv16, Shift8(Xor(r.hi, b) as bv16))
  {
    var s := Shift8(Xor(r.hi, b) as bv16);
    assert Feed(t, r, b) == Register(Xor(r.lo, LowByte(s)), HighByte(s));
    XorIntoLowByte(r.lo, s);
  }

  lemma XorIntoLowByte(b: byte, s: bv16)
    ensures Word(Register(Xor(b, LowByte(s)), HighByte(s))) == Xor16(b as bv16, s)
  {}

  lemma ShiftIsLinear(x: bv16, y: bv16)
    ensures Shift(Xor16(x, y)) == Xor16(Shift(x), Shift(y))
  {}

  lemma Shift4IsLinear(x: bv16, y: bv16)
    ensures Shift(Shift(Shift(Shift(Xor16(x, y))))) ==
            Xor16(Shift(Shift(Shift(Shift(x)))), Shift(Shift(Shift(Shift(y)))))
  {
    ShiftIsLinear(x, y);
    ShiftIsLinear(Shift(x), Shift(y));
    ShiftIsLinear(Shift(Shift(x)), Shift(Shift(y)));
    ShiftIsLinear(Shift(Shift(Shift(x))), Shift(Shift(Shift(y))));
  }

  lemma Shift8IsLinear(x: bv16, y: bv16)
    ensures Shift8(Xor16(x, y)) == Xor16(Shift8(x), Shift8(y))
  {
    Shift4IsLinear(x, y);
    Shift4IsLinear(Shift(Shift(Shift(Shift(x)))), Shift(Shift(Shift(Shift(y)))));
  }

  lemma SplitWord(r: Register, b: byte)
    ensures Xor16(Word(r), b as bv16) == Xor16((r.lo as bv16) << 8, Xor(r.hi, b) as bv16)
  {}

  lemma ShiftUpperByte(b: byte)
    ensures Shift8((b as bv16) << 8) == b as bv16
  {}

  lemma FeedIsSerial(t: Tables, r: Register, b: byte)
    requires Correct(t)
    ensures Word(Feed(t, r, b)) == SerialStep(Word(r), b)
  {
    FeedShifts(t, r, b);
    SplitWord(r, b);
    Shift8IsLinear((r.lo as bv16) << 8, Xor(r.hi, b) as bv16);
    ShiftUpperByte(r.lo);
  }

  lemma {:induction false} FeedAllIsSerial(t: Tables, r: Register, msg: seq<byte>)
    requires Correct(t)
    ensures Word(FeedAll(t, r, msg)) == SerialFrom(Word(r), msg)
    decreases |msg|
  {
    if msg != [] {
      FeedIsSerial(t, r, msg[0]);
      FeedAllIsSerial(t, Feed(t, r, msg[0]), msg[1..]);
    }
  }

  lemma ModbusIsCorrect()
    ensures Correct(MODBUS)
  {
    forall b
      ensures MODBUS.hi(b) == LowByte(Shift8(b as bv16)) && MODBUS.lo(b) == HighByte(Shift8(b as bv16))
    {
      EntryIsEightShifts(b);
    }
  }

  /** For messages of every length the table loop computes the standard's CRC, byte-swapped: the byte on
      top of its result is the low-order byte of the standard's register. */
  lemma CrcIsSerialCrc(msg: seq<byte>)
    ensures Crc(msg) == Register(LowByte(SerialCrc(msg)), HighByte(SerialCrc(msg)))
  {
    ModbusIsCorrect();
    FeedAllIsSerial(MODBUS, PRESET, msg);
    BytesOfWord(PRESET);
    BytesOfWord(Crc(msg));
  }

  lemma SerialSteps()
    ensures SerialStep(0xFFFF, 0x02) == 0x813E && SerialStep(0x813E, 0x07) == 0x1241
  {}

  /** The example of the same section: the two bytes 02 07 are followed by 41 12. */
  lemma ExampleOfTheStandard()
    ensures Crc([0x02, 0x07]) == Register(0x41, 0x12)
  {
    SerialSteps();
    var msg: seq<byte> := [0x02, 0x07];
    assert msg[1..] == [0x07] && msg[1..][1..] == [];
    CrcIsSerialCrc(msg);
  }

  lemma BytesOfWord(r: Register)
    ensures LowByte(Word(r)) == r.hi && HighByte(Word(r)) == r.lo
    ensures Word(r) == 0xFFFF <==> r == PRESET
  {}

  // --- The trailing CRC --------------------------------------------------------------------------

  lemma ZeroEntries(t: Tables, i: byte)
    requires Correct(t)
    ensures t.lo(i) == 0 <==> i == 0
    ensures t.hi(0) == 0
  {
    ShiftsToZero(i);
  }

  lemma ShiftsToZero(i: byte)
    ensures HighByte(Shift8(i as bv16)) == 0 <==> i == 0
    ensures Shift8(0) == 0
  {}

  lemma XorToZero(a: byte, b: byte)
    ensures Xor(a, b) == 0 <==> a == b
    ensures Xor(a, 0) == a
  {}

  lemma FeedTwoToZero(t: Tables, r: Register, first: byte, second: byte)
    requires Correct(t)
    ensures Feed(t, Feed(t, r, first), second) == Register(0, 0) <==> r == Register(first, second)
  {
    var r' := Feed(t, r, first);
    var i, i' := Xor(r.hi, first), Xor(r'.hi, second);
    ZeroEntries(t, i);
    ZeroEntries(t, i');
    XorToZero(r.hi, first);
    XorToZero(r'.hi, second);
    XorToZero(r.lo, 0);
    XorToZero(r'.lo, 0);
  }

  /** A frame has CRC zero exactly when its last two bytes are the CRC of the rest, low-order byte
      first. */
  lemma TrailingCrc(body: seq<byte>, first: byte, second: byte)
    ensures Crc(body + [first, second]) == Register(0, 0) <==> Crc(body) == Register(first, second)
  {
    ModbusIsCorrect();
    FeedTwoToZero(MODBUS, Crc(body), first, second);
    assert body + [first, second] == body + [first] + [second];
    FeedAllSnoc(MODBUS, PRESET, body, first);
    FeedAllSnoc(MODBUS, PRESET, body + [first], second);
  }

  /** The two octets that sendFrame appends: the upper and the lower half of the value returned. */
  function Check(msg: seq<octet>): (c: seq<octet>)
    ensures |c| == 2
  {
    var crc := Crc(Bytes(msg));
    [ToOctet(crc.hi), ToOctet(crc.lo)]
  }

  lemma CheckIs(msg: seq<octet>, x: octet, y: octet)
    ensures Check(msg) == [x, y] <==> Crc(Bytes(msg)) == Register(ToByte(x), ToByte(y))
  {
    var crc := Crc(Bytes(msg));
    SameOctet(x, crc.hi);
    SameOctet(y, crc.lo);
    assert Check(msg)[0] == ToOctet(crc.hi) && Check(msg)[1] == ToOctet(crc.lo);
  }

  /** The test on a received message: its last two octets are the CRC of the others exactly when the CRC
      of all of it is zero. */
  lemma TrailingCheck(msg: seq<octet>)
    requires |msg| >= 2
    ensures var n := |msg| - 2;
            msg[n..] == Check(msg[..n]) <==> Crc(Bytes(msg)) == Register(0, 0)
  {
    var n := |msg| - 2;
    var x, y := msg[n], msg[n + 1];
    assert Bytes(msg) == Bytes(msg[..n]) + [ToByte(x), ToByte(y)];
    TrailingCrc(Bytes(msg[..n]), ToByte(x), ToByte(y));
    CheckIs(msg[..n], x, y);
    assert msg[n..] == [x, y];
  }
}
