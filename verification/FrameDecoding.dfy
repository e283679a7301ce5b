/** The frames read back as a slave reads them.  What every request's frame decodes to, for all arguments; exactly
    which requests are recovered from their frames, by a slave that looks at the data alone and by one that also
    checks the counts; and that no two requests share a frame unless they agree in every 16-bit word. */
module FrameDecoding {
  import opened Flatten
  import opened FrameSizes
  import opened Frames
  import opened Int32
  import opened Octets
  import opened Options

  // --- The decoder -------------------------------------------------------------------------------

  function UnWords(s: seq<octet>): (xs: seq<int32>)
    requires |s| % 2 == 0
    ensures |xs| == |s| / 2 && AllU16(xs)
  {
    if s == [] then [] else [WordAt(s, 0)] + UnWords(s[2..])
  }

  function UnReadSubs(s: seq<octet>): Option<seq<SubReq>> {
    if s == [] then Some([])
    else if |s| < 7 || s[0] != 6 then None
    else match UnReadSubs(s[7..])
         case None => None
         case Some(rest) => Some([SubReq(WordAt(s, 1), WordAt(s, 3), WordAt(s, 5), [])] + rest)
  }

  function UnWriteSubs(s: seq<octet>): Option<seq<SubReq>> {
    if s == [] then Some([])
    else if |s| < 7 || s[0] != 6 then None
    else
      var n := WordAt(s, 5);
      var end := 7 + 2 * n;
      if |s| < end then None
      else match UnWriteSubs(s[end..])
           case None => None
           case Some(rest) => Some([SubReq(WordAt(s, 1), WordAt(s, 3), n, UnWords(s[7..end]))] + rest)
  }

  /** What a slave makes of the bytes after the slave address and the function code. */
  function DecodeBody(code: octet, b: seq<octet>): Option<Request> {
    if code == 0x01 && |b| == 4 then Some(ReadCoilStatus(WordAt(b, 0), WordAt(b, 2)))
    else if code == 0x02 && |b| == 4 then Some(ReadInputStatus(WordAt(b, 0), WordAt(b, 2)))
    else if code == 0x03 && |b| == 4 then Some(ReadHoldingRegisters(WordAt(b, 0), WordAt(b, 2)))
    else if code == 0x04 && |b| == 4 then Some(ReadInputRegisters(WordAt(b, 0), WordAt(b, 2)))
    else if code == 0x05 && |b| == 4 && WordAt(b, 2) == 0xFF00 then Some(ForceSingleCoil(WordAt(b, 0), 1))
    else if code == 0x05 && |b| == 4 && WordAt(b, 2) == 0x0000 then Some(ForceSingleCoil(WordAt(b, 0), 0))
    else if code == 0x06 && |b| == 4 then Some(PresetSingleRegister(WordAt(b, 0), WordAt(b, 2)))
    else if code == 0x07 && b == [] then Some(ReadExceptionStatus)
    else if code == 0x08 && |b| == 4 then Some(DiagnosticsQuery(WordAt(b, 0), WordAt(b, 2)))
    else if code == 0x0B && b == [] then Some(FetchCommEventCounter)
    else if code == 0x0C && b == [] then Some(FetchCommEventLog)
    else if code == 0x0F && |b| >= 5 then Some(ForceMultipleCoils(WordAt(b, 0), WordAt(b, 2), b[5..]))
    else if code == 0x10 && |b| >= 5 && |b| % 2 == 1 then
      Some(PresetMultipleRegs(WordAt(b, 0), WordAt(b, 2), UnWords(b[5..])))
    else if code == 0x11 && b == [] then Some(ReportSlaveID)
    else if code == 0x14 && |b| >= 1 then
      match UnReadSubs(b[1..]) case None => None case Some(subs) => Some(ReadGeneralReference(subs))
    else if code == 0x15 && |b| >= 1 then
      match UnWriteSubs(b[1..]) case None => None case Some(subs) => Some(WriteGeneralReference(subs))
    else if code == 0x16 && |b| == 6 then
      Some(MaskWrite4XRegister(WordAt(b, 0), WordAt(b, 2), WordAt(b, 4)))
    else if code == 0x17 && |b| >= 9 && |b| % 2 == 1 then
      Some(ReadWrite4XRegisters(WordAt(b, 0), WordAt(b, 2), WordAt(b, 4), UnWords(b[9..])))
    else if code == 0x18 && |b| == 2 then Some(ReadFIFOQueue(WordAt(b, 0), 0))
    else None
  }

  /** The counts that a request of variable size carries beside its data agree with it and, for coils and
      registers, with each other (sections 6.11, 6.12, 6.14, 6.15 and 6.17 of the Application Protocol). */
  predicate CountsAgree(code: octet, b: seq<octet>) {
    if code == 0x0F then |b| >= 5 && b[4] == |b| - 5 == StandardCoilBytes(WordAt(b, 2))
    else if code == 0x10 then |b| >= 5 && b[4] == |b| - 5 == 2 * WordAt(b, 2)
    else if code == 0x14 || code == 0x15 then |b| >= 1 && b[0] == |b| - 1
    else if code == 0x17 then |b| >= 9 && b[8] == |b| - 9 == 2 * WordAt(b, 6)
    else true
  }

  /** A slave that also checks the counts. */
  function DecodeStrictly(code: octet, b: seq<octet>): Option<Request> {
    if CountsAgree(code, b) then DecodeBody(code, b) else None
  }

  // --- Arguments in range, and what a frame keeps of them -----------------------------------------

  ghost predicate AllU16(xs: seq<int32>) { forall i :: 0 <= i < |xs| ==> U16(xs[i]) }

  ghost predicate SubInRange(s: SubReq) {
    U16(s.fileNum) && U16(s.startAddr) && U16(s.regCount) && AllU16(s.data)
  }

  ghost predicate SubsInRange(subs: seq<SubReq>) {
    forall i :: 0 <= i < |subs| ==> SubInRange(subs[i])
  }

  /** All numeric arguments are unsigned 16-bit values, as the protocol has them. */
  ghost predicate InRange(r: Request) {
    match r
    case ReadCoilStatus(start, length) => U16(start) && U16(length)
    case ReadInputStatus(start, length) => U16(start) && U16(length)
    case ReadHoldingRegisters(start, length) => U16(start) && U16(length)
    case ReadInputRegisters(start, length) => U16(start) && U16(length)
    case ForceSingleCoil(start, on) => U16(start)
    case PresetSingleRegister(start, value) => U16(start) && U16(value)
    case ReadExceptionStatus => true
    case DiagnosticsQuery(subfunction, datum) => U16(subfunction) && U16(datum)
    case FetchCommEventCounter => true
    case FetchCommEventLog => true
    case ForceMultipleCoils(start, length, coils) => U16(start) && U16(length)
    case PresetMultipleRegs(start, length, words) => U16(start) && U16(length) && AllU16(words)
    case ReportSlaveID => true
    case ReadGeneralReference(subs) => SubsInRange(subs)
    case WriteGeneralReference(subs) => SubsInRange(subs)
    case MaskWrite4XRegister(start, andMask, orMask) => U16(start) && U16(andMask) && U16(orMask)
    case ReadWrite4XRegisters(readAddr, readNum, writeAddr, words) =>
      U16(readAddr) && U16(readNum) && U16(writeAddr) && AllU16(words)
    case ReadFIFOQueue(start, length) => U16(start)
  }

  function WithoutData(subs: seq<SubReq>): (t: seq<SubReq>)
    ensures |t| == |subs| && forall i :: 0 <= i < |subs| ==> t[i] == subs[i].(data := [])
  {
    seq(|subs|, i requires 0 <= i < |subs| => subs[i].(data := []))
  }

  function TrimSub(s: SubReq): SubReq {
    if 0 <= s.regCount <= |s.data| then s.(data := s.data[..s.regCount]) else s
  }

  function TrimSubs(subs: seq<SubReq>): (t: seq<SubReq>)
    ensures |t| == |subs| && forall i :: 0 <= i < |subs| ==> t[i] == TrimSub(subs[i])
  {
    seq(|subs|, i requires 0 <= i < |subs| => TrimSub(subs[i]))
  }

  /** The request as its frame carries it: a coil is on or off, arrays end where their count says, and
      the length that F24 ignores is gone. */
  function Carried(r: Request): Request {
    match r
    case ForceSingleCoil(start, on) => r.(on := if on == 0 then 0 else 1)
    case ForceMultipleCoils(start, length, coils) =>
      if 0 <= CoilBytes(length) <= |coils| then r.(coils := coils[..CoilBytes(length)]) else r
    case PresetMultipleRegs(start, length, words) =>
      if 0 <= length <= |words| then PresetMultipleRegs(start, length, words[..length]) else r
    case ReadGeneralReference(subs) => ReadGeneralReference(WithoutData(subs))
    case WriteGeneralReference(subs) => WriteGeneralReference(TrimSubs(subs))
    case ReadFIFOQueue(start, length) => ReadFIFOQueue(start, 0)
    case _ => r
  }

  /** A number as two bytes carry it. */
  function Word16(x: int): int32 { x % 0x1_0000 }

  function Words16(xs: seq<int32>): (t: seq<int32>)
    ensures |t| == |xs| && forall i :: 0 <= i < |xs| ==> t[i] == Word16(xs[i])
  {
    seq(|xs|, i requires 0 <= i < |xs| => Word16(xs[i]))
  }

  function Sub16(s: SubReq): SubReq {
    SubReq(Word16(s.fileNum), Word16(s.startAddr), Word16(s.regCount), Words16(s.data))
  }

  function Subs16(subs: seq<SubReq>): (t: seq<SubReq>)
    ensures |t| == |subs| && forall i :: 0 <= i < |subs| ==> t[i] == Sub16(subs[i])
  {
    seq(|subs|, i requires 0 <= i < |subs| => Sub16(subs[i]))
  }

  /** Every number cut down to the sixteen bits that a builder keeps of it. */
  function Truncated(r: Request): Request {
    match r
    case ReadCoilStatus(start, length) => ReadCoilStatus(Word16(start), Word16(length))
    case ReadInputStatus(start, length) => ReadInputStatus(Word16(start), Word16(length))
    case ReadHoldingRegisters(start, length) => ReadHoldingRegisters(Word16(start), Word16(length))
    case ReadInputRegisters(start, length) => ReadInputRegisters(Word16(start), Word16(length))
    case ForceSingleCoil(start, on) => ForceSingleCoil(Word16(start), on)
    case PresetSingleRegister(start, value) => PresetSingleRegister(Word16(start), Word16(value))
    case DiagnosticsQuery(subfunction, datum) => DiagnosticsQuery(Word16(subfunction), Word16(datum))
    case ForceMultipleCoils(start, length, coils) => ForceMultipleCoils(Word16(start), Word16(length), coils)
    case PresetMultipleRegs(start, length, words) =>
      PresetMultipleRegs(Word16(start), Word16(length), Words16(words))
    case ReadGeneralReference(subs) => ReadGeneralReference(Subs16(subs))
    case WriteGeneralReference(subs) => WriteGeneralReference(Subs16(subs))
    case MaskWrite4XRegister(start, andMask, orMask) =>
      MaskWrite4XRegister(Word16(start), Word16(andMask), Word16(orMask))
    case ReadWrite4XRegisters(readAddr, readNum, writeAddr, words) =>
      ReadWrite4XRegisters(Word16(readAddr), Word16(readNum), Word16(writeAddr), Words16(words))
    case ReadFIFOQueue(start, length) => ReadFIFOQueue(Word16(start), length)
    case _ => r
  }

  lemma SubInRangeIff(s: SubReq)
    ensures SubInRange(s) <==> Sub16(s) == s
  {
    AllU16Iff(s.data);
  }

  lemma AllU16Iff(xs: seq<int32>)
    ensures AllU16(xs) <==> Words16(xs) == xs
  {
    if Words16(xs) == xs {
      forall i | 0 <= i < |xs|
        ensures U16(xs[i])
      {
        assert Words16(xs)[i] == Word16(xs[i]);
      }
    }
  }

  lemma SubsInRangeIff(subs: seq<SubReq>)
    ensures SubsInRange(subs) <==> Subs16(subs) == subs
  {
    forall i | 0 <= i < |subs|
      ensures SubInRange(subs[i]) <==> Subs16(subs)[i] == subs[i]
    {
      SubInRangeIff(subs[i]);
    }
  }

  lemma WordsInRangeIff(r: Request)
    requires !r.PresetMultipleRegs? && !r.ReadGeneralReference?
    requires !r.WriteGeneralReference? && !r.ReadWrite4XRegisters?
    ensures InRange(r) <==> Truncated(r) == r
  {}

  /** The arguments in range are those that lose nothing. */
  lemma InRangeIff(r: Request)
    ensures InRange(r) <==> Truncated(r) == r
  {
    match r
    case PresetMultipleRegs(_, _, words) => AllU16Iff(words);
    case ReadGeneralReference(subs) => SubsInRangeIff(subs);
    case WriteGeneralReference(subs) => SubsInRangeIff(subs);
    case ReadWrite4XRegisters(_, _, _, words) => AllU16Iff(words);
    case _ => WordsInRangeIff(r);
  }

  /** No count of registers is negative. */
  ghost predicate Counted(r: Request) {
    match r
    case PresetMultipleRegs(_, length, _) => length >= 0
    case WriteGeneralReference(subs) => forall i :: 0 <= i < |subs| ==> subs[i].regCount >= 0
    case _ => true
  }

  // --- Reading lists back ------------------------------------------------------------------------

  lemma {:induction false} UnWordsOfWords(xs: seq<int32>)
    ensures UnWords(Words(xs)) == Words16(xs)
  {
    if xs != [] {
      var s := Words(xs);
      assert s == BigEndian(xs[0]) + Words(xs[1..]);
      assert s[0..2] == BigEndian(xs[0]);
      WordAtBigEndian(s, 0, xs[0]);
      assert s[2..] == Words(xs[1..]);
      UnWordsOfWords(xs[1..]);
      assert Words16(xs) == [Word16(xs[0])] + Words16(xs[1..]);
    }
  }

  lemma SubHeaderFields(s: seq<octet>, sub: SubReq)
    requires |s| >= 7 && s[..7] == SubHeader(sub)
    ensures s[0] == 6 && WordAt(s, 1) == Word16(sub.fileNum)
    ensures WordAt(s, 3) == Word16(sub.startAddr) && WordAt(s, 5) == Word16(sub.regCount)
  {
    var h := s[..7];
    assert s[0] == h[0];
    assert s[1..3] == h[1..3] == BigEndian(sub.fileNum);
    assert s[3..5] == h[3..5] == BigEndian(sub.startAddr);
    assert s[5..7] == h[5..7] == BigEndian(sub.regCount);
    WordAtBigEndian(s, 1, sub.fileNum);
    WordAtBigEndian(s, 3, sub.startAddr);
    WordAtBigEndian(s, 5, sub.regCount);
  }

  /** Any list of sub-requests to read is decoded to the same list, as far as two bytes each carry it. */
  lemma {:induction false} UnReadSubsOfReadSubs(subs: seq<SubReq>)
    ensures UnReadSubs(ReadSubs(subs)) == Some(Subs16(WithoutData(subs)))
  {
    if subs != [] {
      var s, sub := ReadSubs(subs), subs[0].(data := []);
      assert s == SubHeader(subs[0]) + ReadSubs(subs[1..]);
      assert s[..7] == SubHeader(subs[0]) && s[7..] == ReadSubs(subs[1..]);
      SubHeaderFields(s, subs[0]);
      UnReadSubsOfReadSubs(subs[1..]);
      assert Words16([]) == [];
      assert Subs16(WithoutData(subs)) == [Sub16(sub)] + Subs16(WithoutData(subs[1..]));
    }
  }

  /** One sub-request and what follows it. */
  lemma WriteSubParts(s: seq<octet>, sub: SubReq, rest: seq<octet>)
    requires 0 <= sub.regCount <= |sub.data| && U16(sub.regCount) && s == WriteSub(sub) + rest
    ensures |s| >= 7 && s[0] == 6 && s[7..] == Words(sub.data[..sub.regCount]) + rest
    ensures WordAt(s, 1) == Word16(sub.fileNum) && WordAt(s, 3) == Word16(sub.startAddr)
    ensures WordAt(s, 5) == sub.regCount
  {
    var data := sub.data[..sub.regCount];
    assert s == SubHeader(sub) + (Words(data) + rest);
    assert s[..7] == SubHeader(sub);
    SubHeaderFields(s, sub);
  }

  lemma UnWriteFirst(s: seq<octet>, data: seq<octet>, rest: seq<octet>, more: seq<SubReq>)
    requires |s| >= 7 && s[0] == 6 && |data| == 2 * WordAt(s, 5) && s[7..] == data + rest
    requires UnWriteSubs(rest) == Some(more)
    ensures UnWriteSubs(s) == Some([SubReq(WordAt(s, 1), WordAt(s, 3), WordAt(s, 5), UnWords(data))] + more)
  {
    var end := 7 + |data|;
    assert s[7..end] == s[7..][..|data|] == data;
    assert s[end..] == s[7..][|data|..] == rest;
  }

  lemma UnWriteSubsStep(s: seq<octet>, sub: SubReq, rest: seq<octet>, more: seq<SubReq>)
    requires 0 <= sub.regCount <= |sub.data| && U16(sub.regCount) && s == WriteSub(sub) + rest
    requires UnWriteSubs(rest) == Some(more)
    ensures UnWriteSubs(s) == Some([Sub16(TrimSub(sub))] + more)
  {
    var data := sub.data[..sub.regCount];
    WriteSubParts(s, sub, rest);
    assert Sub16(TrimSub(sub)) == SubReq(WordAt(s, 1), WordAt(s, 3), WordAt(s, 5), UnWords(Words(data))) by {
      UnWordsOfWords(data);
    }
    UnWriteFirst(s, Words(data), rest, more);
  }

  /** Any list of sub-requests to write, with counts of sixteen bits and the data they ask for, is decoded to
      the same list, as far as two bytes each carry it. */
  lemma {:induction false} UnWriteSubsOfWriteSubs(subs: seq<SubReq>)
    requires Supplied(subs) && forall i :: 0 <= i < |subs| ==> U16(subs[i].regCount)
    ensures UnWriteSubs(WriteSubs(subs)) == Some(Subs16(TrimSubs(subs)))
  {
    if subs != [] {
      UnWriteSubsOfWriteSubs(subs[1..]);
      assert WriteSubs(subs) == WriteSub(subs[0]) + WriteSubs(subs[1..]);
      UnWriteSubsStep(WriteSubs(subs), subs[0], WriteSubs(subs[1..]), Subs16(TrimSubs(subs[1..])));
      FirstTrimmed(subs);
    }
  }

  lemma FirstTrimmed(subs: seq<SubReq>)
    requires subs != []
    ensures Subs16(TrimSubs(subs)) == [Sub16(TrimSub(subs[0]))] + Subs16(TrimSubs(subs[1..]))
  {}

  // --- Reading bodies back -----------------------------------------------------------------------

  /** The fields at fixed places, as words. */
  lemma FixedFields(b: seq<octet>, x: int, y: int, z: int)
    ensures |b| >= 2 && b[..2] == BigEndian(x) ==> WordAt(b, 0) == Word16(x)
    ensures |b| >= 4 && b[2..4] == BigEndian(y) ==> WordAt(b, 2) == Word16(y)
    ensures |b| >= 6 && b[4..6] == BigEndian(z) ==> WordAt(b, 4) == Word16(z)
  {
    if |b| >= 2 && b[..2] == BigEndian(x) { assert b[0..2] == b[..2]; WordAtBigEndian(b, 0, x); }
    if |b| >= 4 && b[2..4] == BigEndian(y) { WordAtBigEndian(b, 2, y); }
    if |b| >= 6 && b[4..6] == BigEndian(z) { WordAtBigEndian(b, 4, z); }
  }

  /** What a body that a builder writes whole means to a slave. */
  ghost predicate Means(r: Request, x: Request) {
    LayoutOf(r).Whole? ==> DecodeBody(r.Code(), LayoutOf(r).body) == Some(x)
  }

  lemma FixedSizeMeans(r: Request)
    requires !r.ForceMultipleCoils? && !r.PresetMultipleRegs? && !r.ReadGeneralReference?
    requires !r.WriteGeneralReference? && !r.ReadWrite4XRegisters?
    ensures Means(r, Truncated(Carried(r)))
  {
    match r
    case ReadCoilStatus(start, length) => TwoWordsMean(start, length);
    case ReadInputStatus(start, length) => TwoWordsMean(start, length);
    case ReadHoldingRegisters(start, length) => TwoWordsMean(start, length);
    case ReadInputRegisters(start, length) => TwoWordsMean(start, length);
    case PresetSingleRegister(start, value) => TwoWordsMean(start, value);
    case DiagnosticsQuery(subfunction, datum) => TwoWordsMean(subfunction, datum);
    case _ => OtherFixedSizeMeans(r);
  }

  lemma TwoWordsMean(x: int, y: int)
    ensures var b := TwoWords(x, y).body; WordAt(b, 0) == Word16(x) && WordAt(b, 2) == Word16(y)
  {
    FixedFields(TwoWords(x, y).body, x, y, 0);
  }

  lemma OtherFixedSizeMeans(r: Request)
    requires r.ForceSingleCoil? || r.MaskWrite4XRegister? || r.ReadFIFOQueue? || r.ReadExceptionStatus? ||
             r.FetchCommEventCounter? || r.FetchCommEventLog? || r.ReportSlaveID?
    ensures Means(r, Truncated(Carried(r)))
  {
    var b := LayoutOf(r).body;
    match r
    case ForceSingleCoil(start, on) =>
      FixedFields(b, start, 0, 0);
      assert WordAt(b, 2) == if on == 0 then 0 else 0xFF00;
    case MaskWrite4XRegister(start, andMask, orMask) => FixedFields(b, start, andMask, orMask);
    case ReadFIFOQueue(start, _) => FixedFields(b, start, 0, 0);
    case _ =>
  }

  lemma CoilsMean(r: Request)
    requires r.ForceMultipleCoils?
    ensures Means(r, Truncated(Carried(r)))
  {
    var n := CoilBytes(r.length);
    if 0 <= n <= |r.coils| && 7 + n <= 256 {
      var b := LayoutOf(r).body;
      FixedFields(b, r.start, r.length, 0);
      assert b[5..] == r.coils[..n];
    }
  }

  lemma RegistersMean(r: Request)
    requires r.PresetMultipleRegs? && r.length >= 0
    ensures Means(r, Truncated(Carried(r)))
  {
    if r.length <= |r.words| && 7 + 2 * r.length <= 256 {
      var words, b := r.words[..r.length], LayoutOf(r).body;
      FixedFields(b, r.start, r.length, 0);
      assert b[5..] == Words(words);
      UnWordsOfWords(words);
    }
  }

  lemma ReadWriteMeans(r: Request)
    requires r.ReadWrite4XRegisters?
    ensures Means(r, Truncated(Carried(r)))
  {
    if 11 + 2 * |r.words| <= 256 {
      var b := LayoutOf(r).body;
      FixedFields(b, r.readAddr, r.readNum, r.writeAddr);
      assert b[9..] == Words(r.words);
      UnWordsOfWords(r.words);
    }
  }

  lemma ReadReferenceMeans(r: Request)
    requires r.ReadGeneralReference?
    ensures Means(r, Truncated(Carried(r)))
  {
    if 3 + 7 * |r.subs| <= 256 {
      assert LayoutOf(r).body[1..] == ReadSubs(r.subs);
      UnReadSubsOfReadSubs(r.subs);
    }
  }

  lemma WriteReferenceMeans(r: Request)
    requires r.WriteGeneralReference? && Counted(r)
    ensures Means(r, Truncated(Carried(r)))
  {
    if Supplied(r.subs) && 3 + |WriteSubs(r.subs)| <= 256 {
      assert LayoutOf(r).body[1..] == WriteSubs(r.subs);
      forall i | 0 <= i < |r.subs|
        ensures U16(r.subs[i].regCount)
      {
        WriteSubsGrow(r.subs, i);
      }
      UnWriteSubsOfWriteSubs(r.subs);
    }
  }

  lemma BodyMeans(r: Request)
    requires Counted(r)
    ensures Means(r, Truncated(Carried(r)))
  {
    if r.ForceMultipleCoils? { CoilsMean(r); }
    else if r.PresetMultipleRegs? { RegistersMean(r); }
    else if r.ReadGeneralReference? { ReadReferenceMeans(r); }
    else if r.WriteGeneralReference? { WriteReferenceMeans(r); }
    else if r.ReadWrite4XRegisters? { ReadWriteMeans(r); }
    else { FixedSizeMeans(r); }
  }

  // --- Reading frames back -----------------------------------------------------------------------

  lemma SplitMessage(slave: int, r: Request)
    requires Build(slave, r).Sent? && LayoutOf(r).Whole?
    ensures var m := Build(slave, r).msg;
            |m| >= 2 && m[0] == slave && m[1] == r.Code() && m[2..] == LayoutOf(r).body
  {}

  /** F5 writes 0xFF00 for on and 0x0000 for off (section 6.5 of the Application Protocol). */
  lemma CoilIsOnOrOff(slave: int, start: int32, on: int32)
    requires Build(slave, ForceSingleCoil(start, on)).Sent?
    ensures var m := Build(slave, ForceSingleCoil(start, on)).msg;
            |m| == 6 && WordAt(m, 4) == if on == 0 then 0x0000 else 0xFF00
  {
    MessageMeans(slave, ForceSingleCoil(start, on));
    var m := Build(slave, ForceSingleCoil(start, on)).msg;
    assert m[4] == m[2..][2] && m[5] == m[2..][3];
  }

  /** Whatever its arguments, a message that is written whole is decoded to the request it carries with every
      number cut down to sixteen bits.  F15 is written whole down to a length of -15. */
  lemma MessageMeans(slave: int, r: Request)
    requires Build(slave, r).Sent? && LayoutOf(r).Whole? && Counted(r)
    ensures var m := Build(slave, r).msg;
            |m| >= 2 && m[0] == slave && m[1] == r.Code() &&
            DecodeBody(m[1], m[2..]) == Some(Truncated(Carried(r)))
  {
    BodyMeans(r);
    SplitMessage(slave, r);
  }

  lemma {:induction false} ReadSubsInRange(s: seq<octet>)
    ensures UnReadSubs(s).Some? ==> SubsInRange(UnReadSubs(s).value)
  {
    if |s| >= 7 { ReadSubsInRange(s[7..]); }
  }

  lemma {:induction false} WriteSubsInRange(s: seq<octet>)
    ensures UnWriteSubs(s).Some? ==> SubsInRange(UnWriteSubs(s).value)
  {
    if |s| >= 7 && |s| >= 7 + 2 * WordAt(s, 5) { WriteSubsInRange(s[7 + 2 * WordAt(s, 5)..]); }
  }

  lemma DecodedIsInRange(code: octet, b: seq<octet>)
    ensures DecodeBody(code, b).Some? ==> InRange(DecodeBody(code, b).value)
  {
    if (code == 0x14 || code == 0x15) && |b| >= 1 {
      ReadSubsInRange(b[1..]);
      WriteSubsInRange(b[1..]);
    } else {
      WordsAreInRange(code, b);
    }
  }

  lemma WordsAreInRange(code: octet, b: seq<octet>)
    requires (code != 0x14 && code != 0x15) || b == []
    ensures DecodeBody(code, b).Some? ==> InRange(DecodeBody(code, b).value)
  {
    if DecodeBody(code, b).Some? {
      match DecodeBody(code, b).value
      case ForceMultipleCoils(_, _, _) =>
      case PresetMultipleRegs(_, _, _) =>
      case ReadWrite4XRegisters(_, _, _, _) =>
      case _ =>
    }
  }

  /** A message tells a slave the request it was built from. */
  ghost predicate Tells(m: seq<octet>, slave: int, r: Request) {
    |m| >= 2 && m[0] == slave && m[1] == r.Code() && DecodeBody(m[1], m[2..]) == Some(Carried(r))
  }

  /** For every builder and all arguments: what is sent is decoded to the slave address and the request it
      carries exactly if every number that the request carries is an unsigned 16-bit value. */
  lemma MessageIsRecovered(slave: int, r: Request)
    requires Build(slave, r).Sent?
    ensures Tells(Build(slave, r).msg, slave, r) <==> InRange(Carried(r))
  {
    var m := Build(slave, r).msg;
    if |m| >= 2 { DecodedIsInRange(m[1], m[2..]); }
    if InRange(Carried(r)) {
      InRangeIsWhole(slave, r);
      MessageMeans(slave, r);
      InRangeIff(Carried(r));
    }
  }

  lemma InRangeIsWhole(slave: int, r: Request)
    requires Build(slave, r).Sent? && InRange(Carried(r))
    ensures LayoutOf(r).Whole? && Counted(r)
  {
    if r.WriteGeneralReference? {
      forall i | 0 <= i < |r.subs|
        ensures r.subs[i].regCount >= 0
      {
        assert SubInRange(TrimSubs(r.subs)[i]);
      }
    }
  }

  /** The same for a slave that checks the counts as well: beyond the range, it misses exactly the requests of
      F15 whose length is a multiple of eight. */
  lemma MessageIsUnderstood(slave: int, r: Request)
    requires Build(slave, r).Sent?
    ensures var m := Build(slave, r).msg;
            Tells(m, slave, r) && DecodeStrictly(m[1], m[2..]) == Some(Carried(r)) <==>
            InRange(Carried(r)) && (r.ForceMultipleCoils? ==> r.length % 8 != 0)
  {
    MessageIsRecovered(slave, r);
    if InRange(Carried(r)) {
      InRangeIsWhole(slave, r);
      SplitMessage(slave, r);
      CountsAgreeIff(r);
    }
  }

  /** The least 124 lengths of F16 are understood, counts and all, as requests to write zeros. */
  lemma LeastLengthsAreMisread(slave: int, start: int32, k: nat, words: seq<int32>)
    requires 0 <= slave <= 0xFF && U16(start) && k <= 123
    ensures var r := PresetMultipleRegs(start, k - 0x8000_0000, words);
            Build(slave, r).Sent? && |Build(slave, r).msg| >= 2 && !Tells(Build(slave, r).msg, slave, r) &&
            DecodeStrictly(0x10, Build(slave, r).msg[2..]) == Some(PresetMultipleRegs(start, k, ZeroWords(k)))
  {
    var x := PresetMultipleRegs(start, k, ZeroWords(k));
    LeastLengthsWriteZeros(slave, start, k, words);
    MessageIsRecovered(slave, PresetMultipleRegs(start, k - 0x8000_0000, words));
    MessageIsUnderstood(slave, x);
    assert ZeroWords(k)[..k] == ZeroWords(k);
    assert Carried(x) == x && InRange(x);
  }

  /** No negative length of coils or registers is ever told, whatever is sent. */
  lemma NegativeLengthsAreLost(slave: int, r: Request)
    requires Build(slave, r).Sent? && (r.ForceMultipleCoils? || r.PresetMultipleRegs?) && r.length < 0
    ensures !Tells(Build(slave, r).msg, slave, r)
  {
    MessageIsRecovered(slave, r);
  }

  lemma CountsAgreeIff(r: Request)
    requires LayoutOf(r).Whole? && |LayoutOf(r).body| + 4 <= 256 && InRange(Carried(r)) && Counted(r)
    ensures CountsAgree(r.Code(), LayoutOf(r).body) <==> (r.ForceMultipleCoils? ==> r.length % 8 != 0)
  {
    if r.ForceMultipleCoils? {
      CoilCounts(r);
    } else if r.PresetMultipleRegs? {
      RegisterCounts(r);
    } else if r.ReadGeneralReference? || r.WriteGeneralReference? {
      SubCounts(r);
    } else if r.ReadWrite4XRegisters? {
      ReadWriteCounts(r);
    } else {
      NoCounts(r);
    }
  }

  lemma NoCounts(r: Request)
    requires !r.ForceMultipleCoils? && !r.PresetMultipleRegs? && !r.ReadGeneralReference?
    requires !r.WriteGeneralReference? && !r.ReadWrite4XRegisters?
    ensures forall b :: CountsAgree(r.Code(), b)
  {}

  lemma SubCounts(r: Request)
    requires r.ReadGeneralReference? || r.WriteGeneralReference?
    requires LayoutOf(r).Whole? && |LayoutOf(r).body| + 4 <= 256 && Counted(r)
    ensures CountsAgree(r.Code(), LayoutOf(r).body)
  {
    if r.WriteGeneralReference? {
      WriteSubsLength(r.subs);
      CountInFront(LayoutOf(r).body, WriteSubs(r.subs));
    } else {
      CountInFront(LayoutOf(r).body, ReadSubs(r.subs));
    }
  }

  lemma CountInFront(b: seq<octet>, data: seq<octet>)
    requires |data| < 256 && b == [U8(|data|)] + data
    ensures |b| >= 1 && b[0] == |b| - 1
  {}

  /** The two counts of a body that has both, and its data. */
  lemma CountFields(b: seq<octet>, start: int32, length: int32, data: seq<octet>)
    requires |data| < 256 && b == BigEndian(start) + BigEndian(length) + [U8(|data|)] + data
    ensures |b| == 5 + |data| && b[4] == |data| && WordAt(b, 2) == Word16(length)
  {
    assert b[2..4] == BigEndian(length);
    WordAtBigEndian(b, 2, length);
  }

  lemma EightsAgree(length: nat)
    ensures CoilBytes(length) == StandardCoilBytes(length) <==> length % 8 != 0
  {}

  lemma CoilCounts(r: Request)
    requires r.ForceMultipleCoils? && U16(r.length) && LayoutOf(r).Whole? && |LayoutOf(r).body| + 4 <= 256
    ensures CountsAgree(0x0F, LayoutOf(r).body) <==> r.length % 8 != 0
  {
    CountFields(LayoutOf(r).body, r.start, r.length, r.coils[..CoilBytes(r.length)]);
    EightsAgree(r.length);
  }

  lemma RegisterCounts(r: Request)
    requires r.PresetMultipleRegs? && U16(r.length) && LayoutOf(r).Whole? && |LayoutOf(r).body| + 4 <= 256
    ensures CountsAgree(0x10, LayoutOf(r).body)
  {
    CountFields(LayoutOf(r).body, r.start, r.length, Words(r.words[..r.length]));
  }

  lemma ReadWriteCounts(r: Request)
    requires r.ReadWrite4XRegisters? && LayoutOf(r).Whole? && |LayoutOf(r).body| + 4 <= 256
    ensures CountsAgree(0x17, LayoutOf(r).body)
  {
    var b, n := LayoutOf(r).body, |r.words|;
    assert b[6..8] == BigEndian(n);
    WordAtBigEndian(b, 6, n);
    assert b[8] == 2 * n == |b| - 9;
  }

  // --- Frames ------------------------------------------------------------------------------------

  lemma FrameDeterminesMessage(m: seq<octet>, m': seq<octet>)
    requires Frame(m) == Frame(m')
    ensures m == m'
  {
    assert |Frame(m)| == |m| + 2 && |Frame(m')| == |m'| + 2;
    assert m == Frame(m)[..|m|] && m' == Frame(m')[..|m'|];
  }

  // What two requests that agree in all their words put into the buffer.

  lemma {:induction false} FlatSame<T, U>(f: T -> seq<U>, xs: seq<T>, ys: seq<T>)
    requires |xs| == |ys| && forall i :: 0 <= i < |xs| ==> f(xs[i]) == f(ys[i])
    ensures Flat(f, xs) == Flat(f, ys)
  {
    if xs != [] {
      assert f(xs[0]) == f(ys[0]);
      FlatSame(f, xs[1..], ys[1..]);
    }
  }

  lemma BigEndianOf16(x: int)
    ensures BigEndian(Word16(x)) == BigEndian(x)
  {
    var q, m := x / 0x1_0000, x % 0x1_0000;
    assert x == 256 * (256 * q + m / 256) + m % 256;
    assert x / 256 == 256 * q + m / 256 && x % 256 == m % 256;
  }

  lemma WordsOf16(xs: seq<int32>)
    ensures Words(Words16(xs)) == Words(xs)
  {
    forall i | 0 <= i < |xs|
      ensures BigEndian(Words16(xs)[i]) == BigEndian(xs[i])
    {
      BigEndianOf16(xs[i]);
    }
    FlatSame<int, octet>(BigEndian, Words16(xs), xs);
  }

  lemma HeaderOf16(s: SubReq)
    ensures SubHeader(Sub16(s)) == SubHeader(s)
  {
    BigEndianOf16(s.fileNum);
    BigEndianOf16(s.startAddr);
    BigEndianOf16(s.regCount);
  }

  lemma ReadSubsOf16(subs: seq<SubReq>)
    ensures ReadSubs(Subs16(WithoutData(subs))) == ReadSubs(subs)
  {
    forall i | 0 <= i < |subs|
      ensures SubHeader(Subs16(WithoutData(subs))[i]) == SubHeader(subs[i])
    {
      HeaderOf16(WithoutData(subs)[i]);
    }
    FlatSame(SubHeader, Subs16(WithoutData(subs)), subs);
  }

  lemma WriteSubOf16(s: SubReq)
    requires 0 <= s.regCount <= |s.data| && U16(s.regCount)
    ensures WriteSub(Sub16(TrimSub(s))) == WriteSub(s)
  {
    var data, t := s.data[..s.regCount], Sub16(TrimSub(s));
    HeaderOf16(TrimSub(s));
    WordsOf16(data);
    assert t.data == Words16(data) && t.data[..Count(t.regCount)] == t.data;
  }

  lemma WriteSubsOf16(subs: seq<SubReq>)
    requires Supplied(subs) && forall i :: 0 <= i < |subs| ==> U16(subs[i].regCount)
    ensures WriteSubs(Subs16(TrimSubs(subs))) == WriteSubs(subs)
  {
    forall i | 0 <= i < |subs|
      ensures WriteSub(Subs16(TrimSubs(subs))[i]) == WriteSub(subs[i])
    {
      WriteSubOf16(subs[i]);
    }
    FlatSame(WriteSub, Subs16(TrimSubs(subs)), subs);
  }

  /** The bytes that carry a request, as far as it is carried. */
  function BodyOf(x: Request): seq<octet> {
    match x
    case ForceMultipleCoils(start, length, coils) =>
      BigEndian(start) + BigEndian(length) + [U8(|coils|)] + coils
    case PresetMultipleRegs(start, length, words) =>
      BigEndian(start) + BigEndian(length) + [U8(2 * |words|)] + Words(words)
    case ReadGeneralReference(subs) => [U8(7 * |subs|)] + ReadSubs(subs)
    case WriteGeneralReference(subs) => [U8(|WriteSubs(subs)|)] + WriteSubs(subs)
    case ReadWrite4XRegisters(readAddr, readNum, writeAddr, words) =>
      BigEndian(readAddr) + BigEndian(readNum) + BigEndian(writeAddr) +
      BigEndian(|words|) + [U8(2 * |words|)] + Words(words)
    case _ => if LayoutOf(x).Whole? then LayoutOf(x).body else []
  }

  lemma FixedBodyOf16(r: Request)
    requires !r.ForceMultipleCoils? && !r.PresetMultipleRegs? && !r.ReadGeneralReference?
    requires !r.WriteGeneralReference? && !r.ReadWrite4XRegisters?
    ensures LayoutOf(r).Whole? && LayoutOf(r).body == BodyOf(Truncated(Carried(r)))
  {
    match r
    case ReadCoilStatus(start, length) => BigEndianOf16(start); BigEndianOf16(length);
    case ReadInputStatus(start, length) => BigEndianOf16(start); BigEndianOf16(length);
    case ReadHoldingRegisters(start, length) => BigEndianOf16(start); BigEndianOf16(length);
    case ReadInputRegisters(start, length) => BigEndianOf16(start); BigEndianOf16(length);
    case ForceSingleCoil(start, _) => BigEndianOf16(start);
    case PresetSingleRegister(start, value) => BigEndianOf16(start); BigEndianOf16(value);
    case DiagnosticsQuery(subfunction, datum) => BigEndianOf16(subfunction); BigEndianOf16(datum);
    case MaskWrite4XRegister(start, andMask, orMask) =>
      BigEndianOf16(start); BigEndianOf16(andMask); BigEndianOf16(orMask);
    case ReadFIFOQueue(start, _) => BigEndianOf16(start);
    case _ =>
  }

  lemma ReadWriteBodyOf16(r: Request)
    requires r.ReadWrite4XRegisters? && LayoutOf(r).Whole?
    ensures LayoutOf(r).body == BodyOf(Truncated(Carried(r)))
  {
    BigEndianOf16(r.readAddr);
    BigEndianOf16(r.readNum);
    BigEndianOf16(r.writeAddr);
    WordsOf16(r.words);
  }

  lemma CountedBodyOf16(r: Request)
    requires r.ForceMultipleCoils? || r.PresetMultipleRegs?
    requires LayoutOf(r).Whole?
    ensures LayoutOf(r).body == BodyOf(Truncated(Carried(r)))
  {
    BigEndianOf16(r.start);
    BigEndianOf16(r.length);
    if r.PresetMultipleRegs? { WordsOf16(r.words[..r.length]); }
  }

  /** The bytes that a builder writes depend on nothing else than what the request carries, cut down to
      sixteen bits each. */
  lemma BodyIsOf16(r: Request)
    requires LayoutOf(r).Whole? && Counted(r)
    ensures LayoutOf(r).body == BodyOf(Truncated(Carried(r)))
  {
    if r.ForceMultipleCoils? || r.PresetMultipleRegs? {
      CountedBodyOf16(r);
    } else if r.ReadGeneralReference? {
      ReadSubsOf16(r.subs);
    } else if r.WriteGeneralReference? {
      forall i | 0 <= i < |r.subs|
        ensures U16(r.subs[i].regCount)
      {
        WriteSubsGrow(r.subs, i);
      }
      WriteSubsLength(r.subs);
      WriteSubsOf16(r.subs);
    } else if r.ReadWrite4XRegisters? {
      ReadWriteBodyOf16(r);
    } else {
      FixedBodyOf16(r);
    }
  }

  lemma SameCode(x: Request, x': Request)
    requires Truncated(x) == Truncated(x')
    ensures x.Code() == x'.Code()
  {}

  lemma SameWordsSameMessage(slave: int, r: Request, r': Request)
    requires Build(slave, r).Sent? && LayoutOf(r).Whole? && Counted(r)
    requires Build(slave, r').Sent? && LayoutOf(r').Whole? && Counted(r')
    requires Truncated(Carried(r)) == Truncated(Carried(r'))
    ensures Build(slave, r) == Build(slave, r')
  {
    SameCode(Carried(r), Carried(r'));
    BodyIsOf16(r);
    BodyIsOf16(r');
    WholeMessage(slave, r);
    WholeMessage(slave, r');
  }

  lemma WholeMessage(slave: int, r: Request)
    requires Build(slave, r).Sent? && LayoutOf(r).Whole?
    ensures Build(slave, r).msg == [slave, r.Code()] + LayoutOf(r).body
    ensures Carried(r).Code() == r.Code()
  {}

  /** Frames written whole are equal exactly if slave and function are, and every number that the requests
      carry, cut down to sixteen bits. */
  lemma FramesAreEqualIff(slave: int, r: Request, slave': int, r': Request)
    requires Build(slave, r).Sent? && LayoutOf(r).Whole? && Counted(r)
    requires Build(slave', r').Sent? && LayoutOf(r').Whole? && Counted(r')
    ensures Frame(Build(slave, r).msg) == Frame(Build(slave', r').msg) <==>
            slave == slave' && Truncated(Carried(r)) == Truncated(Carried(r'))
  {
    var m, m' := Build(slave, r).msg, Build(slave', r').msg;
    if Frame(m) == Frame(m') {
      FrameDeterminesMessage(m, m');
      MessageMeans(slave, r);
      MessageMeans(slave', r');
    } else if slave == slave' && Truncated(Carried(r)) == Truncated(Carried(r')) {
      SameWordsSameMessage(slave, r, r');
    }
  }

  /** A frame determines the slave, the function and the arguments it carries. */
  lemma FramesAreInjective(slave: int, r: Request, slave': int, r': Request)
    requires InRange(Carried(r)) && InRange(Carried(r'))
    requires Build(slave, r).Sent? && Build(slave', r').Sent?
    requires Frame(Build(slave, r).msg) == Frame(Build(slave', r').msg)
    ensures slave == slave' && Carried(r) == Carried(r')
  {
    FrameDeterminesMessage(Build(slave, r).msg, Build(slave', r').msg);
    MessageIsRecovered(slave, r);
    MessageIsRecovered(slave', r');
  }

  /** Beyond sixteen bits they do not: reading one coil and reading 65537 are the same frame. */
  lemma WideLengthsCollide()
    ensures Build(1, ReadCoilStatus(0, 1)) == Build(1, ReadCoilStatus(0, 0x1_0001))
    ensures Build(1, ReadCoilStatus(0, 1)).Sent?
  {
    BigEndianOf16(0x1_0001);
  }
}
