/** The sizes of requests: the exact limits at which each builder stops sending, and what the builders make of
    counts that no caller should pass. */
module FrameSizes {
  import opened Flatten
  import opened Frames
  import opened Int32
  import opened Octets
  import opened Options

  // --- Limits ------------------------------------------------------------------------------------

  /** F16 sends exactly up to 123 registers. */
  lemma RegistersThatFit(slave: int, start: int32, length: int32, words: seq<int32>)
    requires 0 <= slave <= 0xFF && U16(start) && 0 <= length <= |words|
    ensures Build(slave, PresetMultipleRegs(start, length, words)).Sent? <==> length <= 123
  {}

  /** F23 sends exactly up to 121 registers. */
  lemma WritesThatFit(slave: int, readAddr: int32, readNum: int32, writeAddr: int32, words: seq<int32>)
    requires 0 <= slave <= 0xFF
    ensures Build(slave, ReadWrite4XRegisters(readAddr, readNum, writeAddr, words)).Sent? <==> |words| <= 121
  {}

  /** F20 sends exactly up to 35 sub-requests. */
  lemma ReadSubsThatFit(slave: int, subs: seq<SubReq>)
    requires 0 <= slave <= 0xFF
    ensures Build(slave, ReadGeneralReference(subs)).Sent? <==> |subs| <= 35
  {}

  /** How many registers the negative counts of a list take off the byte count. */
  function Deficit(subs: seq<SubReq>): (n: nat)
    ensures n == 0 <==> forall i :: 0 <= i < |subs| ==> subs[i].regCount >= 0
  {
    if subs == [] then 0
    else
      var count: int := subs[|subs| - 1].regCount;
      Deficit(subs[..|subs| - 1]) + if count < 0 then -count else 0
  }

  /** The byte count that F21 accumulates falls behind what it writes by the negative counts. */
  lemma {:induction false} WriteSubsLength(subs: seq<SubReq>)
    requires Supplied(subs)
    ensures |WriteSubs(subs)| == ByteSum(subs) + 2 * Deficit(subs)
    ensures |WriteSubs(subs)| == ByteSum(subs) <==> forall i :: 0 <= i < |subs| ==> subs[i].regCount >= 0
  {
    if subs != [] {
      var n := |subs| - 1;
      WriteSubsLength(subs[..n]);
      FlatSnoc(WriteSub, subs, n);
      assert subs[..n + 1] == subs;
    }
  }

  /** One more sub-request. */
  lemma WriteSubsGrow(subs: seq<SubReq>, i: nat)
    requires i < |subs|
    ensures WriteSubs(subs[..i + 1]) == WriteSubs(subs[..i]) + WriteSub(subs[i])
    ensures |WriteSubs(subs[..i])| + |WriteSub(subs[i])| <= |WriteSubs(subs)|
    ensures ByteSum(subs[..i + 1]) == ByteSum(subs[..i]) + 7 + 2 * subs[i].regCount
  {
    FlatSnoc(WriteSub, subs, i);
    FlatConcat(WriteSub, subs[..i + 1], subs[i + 1..]);
    assert subs == subs[..i + 1] + subs[i + 1..];
    assert subs[..i + 1][..i] == subs[..i];
  }

  /** F21 sends exactly when the words asked for are supplied and the sub-requests take at most 251 bytes, seven
      and two per register each.  The count byte is then the length of its payload exactly if the negative
      counts add up to a multiple of 128, as they do if there are none. */
  lemma WriteSubsThatFit(slave: int, r: Request)
    requires 0 <= slave <= 0xFF && r.WriteGeneralReference?
    ensures Build(slave, r) == if Supplied(r.subs) && ByteSum(r.subs) + 2 * Deficit(r.subs) <= 251
                               then Sent([slave, 0x15, U8(ByteSum(r.subs))] + WriteSubs(r.subs))
                               else OutOfBounds
    ensures Build(slave, r).Sent? ==>
              (U8(ByteSum(r.subs)) == |WriteSubs(r.subs)| <==> Deficit(r.subs) % 128 == 0)
  {
    if Supplied(r.subs) {
      var sum, payload := ByteSum(r.subs), WriteSubs(r.subs);
      WriteSubsLength(r.subs);
      assert [slave, 0x15] + ([U8(sum)] + payload) == [slave, 0x15, U8(sum)] + payload;
      if |payload| <= 251 { WrappedCount(sum, Deficit(r.subs)); }
    }
  }

  lemma WrappedCount(sum: int, deficit: nat)
    requires 0 <= sum + 2 * deficit < 256
    ensures U8(sum) == sum + 2 * deficit <==> deficit % 128 == 0
  {
    var q := deficit / 128;
    assert sum + 2 * deficit == sum + 2 * (deficit % 128) + 256 * q;
  }

  /** Section 6.11 of the Application Protocol: one byte for every eight coils begun. */
  function StandardCoilBytes(length: int): int { (length + 7) / 8 }

  /** F15's byte count is the standard's exactly when the number of coils is not a multiple of eight; with
      the standard's number of value bytes supplied, those are also the only requests it sends. */
  lemma CoilBytesAgree(slave: int, start: int32, length: int32, coils: seq<octet>)
    requires 0 <= slave <= 0xFF && U16(start) && 0 <= length
    requires |coils| == StandardCoilBytes(length)
    ensures CoilBytes(length) == StandardCoilBytes(length) <==> length % 8 != 0
    ensures Build(slave, ForceMultipleCoils(start, length, coils)).Sent? <==>
            length % 8 != 0 && length < 8 * 247
  {}

  // --- Negative lengths --------------------------------------------------------------------------

  /** What the F15 builder makes of a negative length.  Division truncates towards zero, so that down to -15
      the message is whole; then it is cut, and from -72 on the message length is negative. */
  lemma NegativeCoils(slave: int, start: int32, length: int32, coils: seq<octet>)
    requires 0 <= slave <= 0xFF && U16(start) && length < 0
    ensures var header := [slave, 0x0F] + BigEndian(start) + BigEndian(length) + [U8(CoilBytes(length))];
            Build(slave, ForceMultipleCoils(start, length, coils)) ==
            if length >= -7 then (if |coils| >= 1 then Sent(header + [coils[0]]) else OutOfBounds)
            else if length >= -15 then Sent(header)
            else if length >= -71 then Sent(header[..7 + CoilBytes(length)])
            else OutOfBounds
  {
    var n := CoilBytes(length);
    var fields := BigEndian(start) + BigEndian(length) + [U8(n)];
    assert [slave, 0x0F] + fields == [slave, 0x0F] + BigEndian(start) + BigEndian(length) + [U8(n)];
    if length >= -7 && |coils| >= 1 {
      assert coils[..1] == [coils[0]];
      assert [slave, 0x0F] + (fields + coils[..1]) == [slave, 0x0F] + fields + [coils[0]];
    } else if length < -15 {
      assert -71 <= length ==> -7 <= n < 0;
      assert length < -71 ==> n < -7;
    }
  }

  function ZeroWords(k: nat): (xs: seq<int32>)
    ensures |xs| == k && forall i :: 0 <= i < k ==> xs[i] == 0
  {
    seq(k, _ => 0)
  }

  lemma {:induction false} WordsOfZeros(k: nat)
    ensures Words(ZeroWords(k)) == Zeros(2 * k)
  {
    if k > 0 {
      WordsOfZeros(k - 1);
      assert ZeroWords(k)[1..] == ZeroWords(k - 1);
      assert Words(ZeroWords(k)) == BigEndian(0) + Words(ZeroWords(k - 1));
      assert Zeros(2 * k) == Zeros(2) + Zeros(2 * (k - 1));
    }
  }

  /** The least lengths differ from small ones by 2^31, which neither two bytes nor a doubled 32-bit int keep. */
  lemma LeastLengths(k: nat)
    requires k <= 123
    ensures BigEndian(k - 0x8000_0000) == BigEndian(k) && U8(2 * (k - 0x8000_0000)) == U8(2 * k)
    ensures Wrap32(7 + Wrap32(2 * (k - 0x8000_0000))) == 7 + 2 * k
  {
    assert (k - 0x8000_0000) / 256 == k / 256 - 0x80_0000;
  }

  lemma OtherLengths(length: int32)
    requires -0x8000_0000 + 123 < length < -3
    ensures var size := Wrap32(7 + Wrap32(2 * length)); size < 0 || size > 254
  {}

  /** The start itself, cut or padded. */
  lemma FirstBytesAre(start: seq<octet>, size: int)
    requires |start| <= 256 && 0 <= size <= 256
    ensures FirstBytes(start, size) ==
            Some(if size <= |start| then start[..size] else start + Zeros(size - |start|))
  {
    var buff := start + Zeros(256 - |start|);
    if size <= |start| {
      assert buff[..size] == start[..size];
    } else {
      assert buff[..size] == start + Zeros(size - |start|);
    }
  }

  /** What the F16 builder makes of a negative length.  It copies no register; -1 to -3 cut the message, the
      least 124 lengths pad it with zeros instead, and all others fail. */
  lemma NegativeRegisters(slave: int, start: int32, length: int32, words: seq<int32>)
    requires 0 <= slave <= 0xFF && U16(start) && length < 0
    ensures var header := [slave, 0x10] + BigEndian(start) + BigEndian(length) + [U8(2 * length)];
            Build(slave, PresetMultipleRegs(start, length, words)) ==
            if length >= -3 then Sent(header[..7 + 2 * length])
            else if length <= -0x8000_0000 + 123 then Sent(header + Zeros(2 * (length + 0x8000_0000)))
            else OutOfBounds
  {
    var fields := BigEndian(start) + BigEndian(length) + [U8(2 * length)];
    assert [slave, 0x10] + fields == [slave, 0x10] + BigEndian(start) + BigEndian(length) + [U8(2 * length)];
    if length >= -3 {
      FirstBytesAre([slave, 0x10] + fields, 7 + 2 * length);
    } else if length <= -0x8000_0000 + 123 {
      LeastLengths(length + 0x8000_0000);
      FirstBytesAre([slave, 0x10] + fields, 7 + 2 * (length + 0x8000_0000));
    } else {
      OtherLengths(length);
    }
  }

  /** Those 124 lengths send a request that no slave can tell from one to write that many registers with 0. */
  lemma LeastLengthsWriteZeros(slave: int, start: int32, k: nat, words: seq<int32>)
    requires 0 <= slave <= 0xFF && U16(start) && k <= 123
    ensures Build(slave, PresetMultipleRegs(start, k - 0x8000_0000, words)) ==
            Build(slave, PresetMultipleRegs(start, k, ZeroWords(k)))
    ensures Build(slave, PresetMultipleRegs(start, k, ZeroWords(k))).Sent?
  {
    var fields := BigEndian(start) + BigEndian(k) + [U8(2 * k)];
    NegativeRegisters(slave, start, k - 0x8000_0000, words);
    LeastLengths(k);
    WordsOfZeros(k);
    assert ZeroWords(k)[..k] == ZeroWords(k);
    assert [slave, 0x10] + (fields + Zeros(2 * k)) ==
           [slave, 0x10] + BigEndian(start) + BigEndian(k) + [U8(2 * k)] + Zeros(2 * k);
  }

  /** The requests whose message is cut before its function code. */
  predicate Headless(r: Request) {
    (r.ForceMultipleCoils? && -71 <= r.length <= -56) || (r.PresetMultipleRegs? && r.length == -3)
  }

  lemma HeadlessIff(slave: int, r: Request)
    requires Build(slave, r).Sent?
    ensures |Build(slave, r).msg| < 2 <==> Headless(r)
  {
    if r.ForceMultipleCoils? && r.length < 0 {
      NegativeCoils(slave, r.start, r.length, r.coils);
    } else if r.PresetMultipleRegs? && r.length < 0 {
      NegativeRegisters(slave, r.start, r.length, r.words);
    } else {
      WholeHasHeader(slave, r);
    }
  }

  lemma WholeHasHeader(slave: int, r: Request)
    requires Build(slave, r).Sent? && LayoutOf(r).Whole?
    ensures |Build(slave, r).msg| >= 2
  {}

  lemma OneSub(sub: SubReq)
    ensures WriteSubs([sub]) == WriteSub(sub) && ByteSum([sub]) == 7 + 2 * sub.regCount
    ensures Supplied([sub]) <==> sub.regCount <= |sub.data|
    ensures Deficit([sub]) == if sub.regCount < 0 then -(sub.regCount as int) else 0
  {
    assert [sub][..0] == [] && [sub][1..] == [];
    assert WriteSubs([sub]) == WriteSub(sub) + WriteSubs([]);
    assert Supplied([sub]) ==> [sub][0].regCount <= |sub.data|;
  }

  /** A negative count in a sub-request of F21: five bytes are announced, and seven follow. */
  lemma RegisterCountMinusOne()
    ensures Build(1, WriteGeneralReference([SubReq(0, 0, -1, [])])) ==
            Sent([1, 0x15, 5, 6, 0, 0, 0, 0, 0xFF, 0xFF])
  {
    var sub := SubReq(0, 0, -1, []);
    WriteSubsThatFit(1, WriteGeneralReference([sub]));
    OneSub(sub);
    assert WriteSub(sub) == [6, 0, 0, 0, 0, 0xFF, 0xFF];
  }

  // --- All outcomes ------------------------------------------------------------------------------

  /** The arguments for which the message fits the buffer together with its CRC and no argument array is too
      short. */
  predicate Fits(r: Request) {
    match r
    case ForceMultipleCoils(_, length, coils) =>
      if length < -7 then length >= -71 else (if length < 0 then 1 else length / 8 + 1) <= |coils| && length < 1976
    case PresetMultipleRegs(_, length, words) =>
      if length < 0 then length >= -3 || length <= -0x8000_0000 + 123 else length <= |words| && length <= 123
    case ReadGeneralReference(subs) => |subs| <= 35
    case WriteGeneralReference(subs) => Supplied(subs) && ByteSum(subs) + 2 * Deficit(subs) <= 251
    case ReadWrite4XRegisters(_, _, _, words) => |words| <= 121
    case _ => true
  }

  /** The start address of the functions that have one which is checked. */
  function Start(r: Request): int {
    match r
    case ReadCoilStatus(start, _) => start
    case ReadInputStatus(start, _) => start
    case ReadHoldingRegisters(start, _) => start
    case ReadInputRegisters(start, _) => start
    case ForceSingleCoil(start, _) => start
    case PresetSingleRegister(start, _) => start
    case ForceMultipleCoils(start, _, _) => start
    case PresetMultipleRegs(start, _, _) => start
    case MaskWrite4XRegister(start, _, _) => start
    case ReadFIFOQueue(start, _) => start
    case _ => 0
  }

  lemma RangesAreChecked(slave: int, r: Request)
    ensures Build(slave, r).IllegalArgument? <==> !(0 <= slave <= 0xFF && U16(Start(r)))
  {}

  /** How every call of a builder ends: refused if the slave address or the start address is out of range, sent if
      it fits, and out of bounds otherwise. */
  lemma Outcomes(slave: int, r: Request)
    ensures Build(slave, r).IllegalArgument? <==> !(0 <= slave <= 0xFF && U16(Start(r)))
    ensures Build(slave, r).Sent? <==> 0 <= slave <= 0xFF && U16(Start(r)) && Fits(r)
  {
    RangesAreChecked(slave, r);
    if 0 <= slave <= 0xFF && U16(Start(r)) {
      if r.ForceMultipleCoils? {
        CoilsFit(slave, r);
      } else if r.PresetMultipleRegs? {
        RegistersFit(slave, r);
      } else if r.WriteGeneralReference? {
        WriteSubsThatFit(slave, r);
      } else {
        OthersFit(slave, r);
      }
    }
  }

  lemma CoilsFit(slave: int, r: Request)
    requires r.ForceMultipleCoils? && 0 <= slave <= 0xFF && U16(r.start)
    ensures Build(slave, r).Sent? <==> Fits(r)
  {
    if r.length < 0 { NegativeCoils(slave, r.start, r.length, r.coils); }
  }

  lemma RegistersFit(slave: int, r: Request)
    requires r.PresetMultipleRegs? && 0 <= slave <= 0xFF && U16(r.start)
    ensures Build(slave, r).Sent? <==> Fits(r)
  {
    if r.length < 0 { NegativeRegisters(slave, r.start, r.length, r.words); }
  }

  lemma OthersFit(slave: int, r: Request)
    requires !r.ForceMultipleCoils? && !r.PresetMultipleRegs? && !r.WriteGeneralReference?
    requires 0 <= slave <= 0xFF && U16(Start(r))
    ensures Build(slave, r).Sent? <==> Fits(r)
  {}

  // Such inputs.

  lemma LengthMinusOne(c: octet)
    ensures Build(1, ForceMultipleCoils(0, -1, [c])) == Sent([1, 0x0F, 0, 0, 0xFF, 0xFF, 1, c])
  {
    NegativeCoils(1, 0, -1, [c]);
  }

  lemma LengthMinusEight()
    ensures Build(1, ForceMultipleCoils(0, -8, [])) == Sent([1, 0x0F, 0, 0, 0xFF, 0xF8, 0])
  {
    NegativeCoils(1, 0, -8, []);
  }

  lemma LengthMinusThree(slave: octet, words: seq<int32>)
    ensures Build(slave, PresetMultipleRegs(0, -3, words)) == Sent([slave])
  {
    NegativeRegisters(slave, 0, -3, words);
  }

  lemma LengthNextToTheLeast(words: seq<int32>)
    ensures Build(1, PresetMultipleRegs(0, -0x7FFF_FFFF, words)) == Sent([1, 0x10, 0, 0, 0, 1, 2, 0, 0])
  {
    NegativeRegisters(1, 0, -0x7FFF_FFFF, words);
    assert Zeros(2) == [0, 0];
  }
}
