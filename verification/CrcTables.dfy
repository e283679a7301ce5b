/** The two 256-entry lookup tables of the Modbus CRC (MainActivity.java:54-111), and the proof that
    entry b of the high table is the low byte, and of the low table the high byte, of the register
    that eight single-bit shifts make of b. */
module CrcTables {

  /** One shift of the CRC register, without a branch: the negated low bit is a mask of all ones or of
      all zeros. */
  function Shift(r: bv16): bv16 { (r >> 1) ^ ((0 - (r & 1)) & 0xA001) }

  /** Section 6.2.2 states the shift by cases: right by one, and an exclusive or with the polynomial
      when a one falls out. */
  lemma ShiftByCases(r: bv16)
    ensures r & 1 == 1 ==> Shift(r) == (r >> 1) ^ 0xA001
    ensures r & 1 == 0 ==> Shift(r) == r >> 1
  {}

  function Shift8(r: bv16): bv16 {
    Shift(Shift(Shift(Shift(Shift(Shift(Shift(Shift(r))))))))
  }

  function LowByte(r: bv16): bv8 { (r & 0xFF) as bv8 }

  function HighByte(r: bv16): bv8 { (r >> 8) as bv8 }

  const TABLE_CRC_HI: seq<bv8> :=
    ([0x00, 0xC1, 0x81, 0x40, 0x01, 0xC0, 0x80, 0x41, 0x01, 0xC0, 0x80, 0x41, 0x00, 0xC1, 0x81, 0x40] +
     [0x01, 0xC0, 0x80, 0x41, 0x00, 0xC1, 0x81, 0x40, 0x00, 0xC1, 0x81, 0x40, 0x01, 0xC0, 0x80, 0x41] +
     [0x01, 0xC0, 0x80, 0x41, 0x00, 0xC1, 0x81, 0x40, 0x00, 0xC1, 0x81, 0x40, 0x01, 0xC0, 0x80, 0x41] +
     [0x00, 0xC1, 0x81, 0x40, 0x01, 0xC0, 0x80, 0x41, 0x01, 0xC0, 0x80, 0x41, 0x00, 0xC1, 0x81, 0x40]) +
    ([0x01, 0xC0, 0x80, 0x41, 0x00, 0xC1, 0x81, 0x40, 0x00, 0xC1, 0x81, 0x40, 0x01, 0xC0, 0x80, 0x41] +
     [0x00, 0xC1, 0x81, 0x40, 0x01, 0xC0, 0x80, 0x41, 0x01, 0xC0, 0x80, 0x41, 0x00, 0xC1, 0x81, 0x40] +
     [0x00, 0xC1, 0x81, 0x40, 0x01, 0xC0, 0x80, 0x41, 0x01, 0xC0, 0x80, 0x41, 0x00, 0xC1, 0x81, 0x40] +
     [0x01, 0xC0, 0x80, 0x41, 0x00, 0xC1, 0x81, 0x40, 0x00, 0xC1, 0x81, 0x40, 0x01, 0xC0, 0x80, 0x41]) +
    ([0x01, 0xC0, 0x80, 0x41, 0x00, 0xC1, 0x81, 0x40, 0x00, 0xC1, 0x81, 0x40, 0x01, 0xC0, 0x80, 0x41] +
     [0x00, 0xC1, 0x81, 0x40, 0x01, 0xC0, 0x80, 0x41, 0x01, 0xC0, 0x80, 0x41, 0x00, 0xC1, 0x81, 0x40] +
     [0x00, 0xC1, 0x81, 0x40, 0x01, 0xC0, 0x80, 0x41, 0x01, 0xC0, 0x80, 0x41, 0x00, 0xC1, 0x81, 0x40] +
     [0x01, 0xC0, 0x80, 0x41, 0x00, 0xC1, 0x81, 0x40, 0x00, 0xC1, 0x81, 0x40, 0x01, 0xC0, 0x80, 0x41]) +
    ([0x00, 0xC1, 0x81, 0x40, 0x01, 0xC0, 0x80, 0x41, 0x01, 0xC0, 0x80, 0x41, 0x00, 0xC1, 0x81, 0x40] +
     [0x01, 0xC0, 0x80, 0x41, 0x00, 0xC1, 0x81, 0x40, 0x00, 0xC1, 0x81, 0x40, 0x01, 0xC0, 0x80, 0x41] +
     [0x01, 0xC0, 0x80, 0x41, 0x00, 0xC1, 0x81, 0x40, 0x00, 0xC1, 0x81, 0x40, 0x01, 0xC0, 0x80, 0x41] +
     [0x00, 0xC1, 0x81, 0x40, 0x01, 0xC0, 0x80, 0x41, 0x01, 0xC0, 0x80, 0x41, 0x00, 0xC1, 0x81, 0x40])

  const TABLE_CRC_LO: seq<bv8> :=
    ([0x00, 0xC0, 0xC1, 0x01, 0xC3, 0x03, 0x02, 0xC2, 0xC6, 0x06, 0x07, 0xC7, 0x05, 0xC5, 0xC4, 0x04] +
     [0xCC, 0x0C, 0x0D, 0xCD, 0x0F, 0xCF, 0xCE, 0x0E, 0x0A, 0xCA, 0xCB, 0x0B, 0xC9, 0x09, 0x08, 0xC8] +
     [0xD8, 0x18, 0x19, 0xD9, 0x1B, 0xDB, 0xDA, 0x1A, 0x1E, 0xDE, 0xDF, 0x1F, 0xDD, 0x1D, 0x1C, 0xDC] +
     [0x14, 0xD4, 0xD5, 0x15, 0xD7, 0x17, 0x16, 0xD6, 0xD2, 0x12, 0x13, 0xD3, 0x11, 0xD1, 0xD0, 0x10]) +
    ([0xF0, 0x30, 0x31, 0xF1, 0x33, 0xF3, 0xF2, 0x32, 0x36, 0xF6, 0xF7, 0x37, 0xF5, 0x35, 0x34, 0xF4] +
     [0x3C, 0xFC, 0xFD, 0x3D, 0xFF, 0x3F, 0x3E, 0xFE, 0xFA, 0x3A, 0x3B, 0xFB, 0x39, 0xF9, 0xF8, 0x38] +
     [0x28, 0xE8, 0xE9, 0x29, 0xEB, 0x2B, 0x2A, 0xEA, 0xEE, 0x2E, 0x2F, 0xEF, 0x2D, 0xED, 0xEC, 0x2C] +
     [0xE4, 0x24, 0x25, 0xE5, 0x27, 0xE7, 0xE6, 0x26, 0x22, 0xE2, 0xE3, 0x23, 0xE1, 0x21, 0x20, 0xE0]) +
    ([0xA0, 0x60, 0x61, 0xA1, 0x63, 0xA3, 0xA2, 0x62, 0x66, 0xA6, 0xA7, 0x67, 0xA5, 0x65, 0x64, 0xA4] +
     [0x6C, 0xAC, 0xAD, 0x6D, 0xAF, 0x6F, 0x6E, 0xAE, 0xAA, 0x6A, 0x6B, 0xAB, 0x69, 0xA9, 0xA8, 0x68] +
     [0x78, 0xB8, 0xB9, 0x79, 0xBB, 0x7B, 0x7A, 0xBA, 0xBE, 0x7E, 0x7F, 0xBF, 0x7D, 0xBD, 0xBC, 0x7C] +
     [0xB4, 0x74, 0x75, 0xB5, 0x77, 0xB7, 0xB6, 0x76, 0x72, 0xB2, 0xB3, 0x73, 0xB1, 0x71, 0x70, 0xB0]) +
    ([0x50, 0x90, 0x91, 0x51, 0x93, 0x53, 0x52, 0x92, 0x96, 0x56, 0x57, 0x97, 0x55, 0x95, 0x94, 0x54] +
     [0x9C, 0x5C, 0x5D, 0x9D, 0x5F, 0x9F, 0x9E, 0x5E, 0x5A, 0x9A, 0x9B, 0x5B, 0x99, 0x59, 0x58, 0x98] +
     [0x88, 0x48, 0x49, 0x89, 0x4B, 0x8B, 0x8A, 0x4A, 0x4E, 0x8E, 0x8F, 0x4F, 0x8D, 0x4D, 0x4C, 0x8C] +
     [0x44, 0x84, 0x85, 0x45, 0x87, 0x47, 0x46, 0x86, 0x82, 0x42, 0x43, 0x83, 0x41, 0x81, 0x80, 0x40])

  /** Eight shifts act on the low byte as an exclusive or of one constant per set bit.  This form has
      no branches, which makes it cheap to evaluate at each table entry. */
  function Linear(b: bv16): bv16 {
    ((0 - ((b >> 0) & 1)) & 0xC0C1) ^
    ((0 - ((b >> 1) & 1)) & 0xC181) ^
    ((0 - ((b >> 2) & 1)) & 0xC301) ^
    ((0 - ((b >> 3) & 1)) & 0xC601) ^
    ((0 - ((b >> 4) & 1)) & 0xCC01) ^
    ((0 - ((b >> 5) & 1)) & 0xD801) ^
    ((0 - ((b >> 6) & 1)) & 0xF001) ^
    ((0 - ((b >> 7) & 1)) & 0xA001)
  }

  lemma LinearIsShift8(b: bv16)
    requires b < 0x100
    ensures Linear(b) == Shift8(b)
  {}

  ghost predicate HiEntry(b: bv8) { TABLE_CRC_HI[b as int] == LowByte(Linear(b as bv16)) }

  ghost predicate LoEntry(b: bv8) { TABLE_CRC_LO[b as int] == HighByte(Linear(b as bv16)) }

  lemma Hi00(b: bv8)
    requires 0x00 <= b <= 0x1F
    ensures HiEntry(b)
  {
    match b
    case 0x00 => case 0x01 => case 0x02 => case 0x03 => case 0x04 => case 0x05 => case 0x06 => case 0x07 => case 0x08 => case 0x09 => case 0x0A => case 0x0B => case 0x0C => case 0x0D => case 0x0E => case 0x0F =>
    case 0x10 => case 0x11 => case 0x12 => case 0x13 => case 0x14 => case 0x15 => case 0x16 => case 0x17 => case 0x18 => case 0x19 => case 0x1A => case 0x1B => case 0x1C => case 0x1D => case 0x1E => case 0x1F =>
  }

  lemma Hi20(b: bv8)
    requires 0x20 <= b <= 0x3F
    ensures HiEntry(b)
  {
    match b
    case 0x20 => case 0x21 => case 0x22 => case 0x23 => case 0x24 => case 0x25 => case 0x26 => case 0x27 => case 0x28 => case 0x29 => case 0x2A => case 0x2B => case 0x2C => case 0x2D => case 0x2E => case 0x2F =>
    case 0x30 => case 0x31 => case 0x32 => case 0x33 => case 0x34 => case 0x35 => case 0x36 => case 0x37 => case 0x38 => case 0x39 => case 0x3A => case 0x3B => case 0x3C => case 0x3D => case 0x3E => case 0x3F =>
  }

  lemma Hi40(b: bv8)
    requires 0x40 <= b <= 0x5F
    ensures HiEntry(b)
  {
    match b
    case 0x40 => case 0x41 => case 0x42 => case 0x43 => case 0x44 => case 0x45 => case 0x46 => case 0x47 => case 0x48 => case 0x49 => case 0x4A => case 0x4B => case 0x4C => case 0x4D => case 0x4E => case 0x4F =>
    case 0x50 => case 0x51 => case 0x52 => case 0x53 => case 0x54 => case 0x55 => case 0x56 => case 0x57 => case 0x58 => case 0x59 => case 0x5A => case 0x5B => case 0x5C => case 0x5D => case 0x5E => case 0x5F =>
  }

  lemma Hi60(b: bv8)
    requires 0x60 <= b <= 0x7F
    ensures HiEntry(b)
  {
    match b
    case 0x60 => case 0x61 => case 0x62 => case 0x63 => case 0x64 => case 0x65 => case 0x66 => case 0x67 => case 0x68 => case 0x69 => case 0x6A => case 0x6B => case 0x6C => case 0x6D => case 0x6E => case 0x6F =>
    case 0x70 => case 0x71 => case 0x72 => case 0x73 => case 0x74 => case 0x75 => case 0x76 => case 0x77 => case 0x78 => case 0x79 => case 0x7A => case 0x7B => case 0x7C => case 0x7D => case 0x7E => case 0x7F =>
  }

  lemma Hi80(b: bv8)
    requires 0x80 <= b <= 0x9F
    ensures HiEntry(b)
  {
    match b
    case 0x80 => case 0x81 => case 0x82 => case 0x83 => case 0x84 => case 0x85 => case 0x86 => case 0x87 => case 0x88 => case 0x89 => case 0x8A => case 0x8B => case 0x8C => case 0x8D => case 0x8E => case 0x8F =>
    case 0x90 => case 0x91 => case 0x92 => case 0x93 => case 0x94 => case 0x95 => case 0x96 => case 0x97 => case 0x98 => case 0x99 => case 0x9A => case 0x9B => case 0x9C => case 0x9D => case 0x9E => case 0x9F =>
  }

  lemma HiA0(b: bv8)
    requires 0xA0 <= b <= 0xBF
    ensures HiEntry(b)
  {
    match b
    case 0xA0 => case 0xA1 => case 0xA2 => case 0xA3 => case 0xA4 => case 0xA5 => case 0xA6 => case 0xA7 => case 0xA8 => case 0xA9 => case 0xAA => case 0xAB => case 0xAC => case 0xAD => case 0xAE => case 0xAF =>
    case 0xB0 => case 0xB1 => case 0xB2 => case 0xB3 => case 0xB4 => case 0xB5 => case 0xB6 => case 0xB7 => case 0xB8 => case 0xB9 => case 0xBA => case 0xBB => case 0xBC => case 0xBD => case 0xBE => case 0xBF =>
  }

  lemma HiC0(b: bv8)
    requires 0xC0 <= b <= 0xDF
    ensures HiEntry(b)
  {
    match b
    case 0xC0 => case 0xC1 => case 0xC2 => case 0xC3 => case 0xC4 => case 0xC5 => case 0xC6 => case 0xC7 => case 0xC8 => case 0xC9 => case 0xCA => case 0xCB => case 0xCC => case 0xCD => case 0xCE => case 0xCF =>
    case 0xD0 => case 0xD1 => case 0xD2 => case 0xD3 => case 0xD4 => case 0xD5 => case 0xD6 => case 0xD7 => case 0xD8 => case 0xD9 => case 0xDA => case 0xDB => case 0xDC => case 0xDD => case 0xDE => case 0xDF =>
  }

  lemma HiE0(b: bv8)
    requires 0xE0 <= b <= 0xFF
    ensures HiEntry(b)
  {
    match b
    case 0xE0 => case 0xE1 => case 0xE2 => case 0xE3 => case 0xE4 => case 0xE5 => case 0xE6 => case 0xE7 => case 0xE8 => case 0xE9 => case 0xEA => case 0xEB => case 0xEC => case 0xED => case 0xEE => case 0xEF =>
    case 0xF0 => case 0xF1 => case 0xF2 => case 0xF3 => case 0xF4 => case 0xF5 => case 0xF6 => case 0xF7 => case 0xF8 => case 0xF9 => case 0xFA => case 0xFB => case 0xFC => case 0xFD => case 0xFE => case 0xFF =>
  }

  lemma Lo00(b: bv8)
    requires 0x00 <= b <= 0x1F
    ensures LoEntry(b)
  {
    match b
    case 0x00 => case 0x01 => case 0x02 => case 0x03 => case 0x04 => case 0x05 => case 0x06 => case 0x07 => case 0x08 => case 0x09 => case 0x0A => case 0x0B => case 0x0C => case 0x0D => case 0x0E => case 0x0F =>
    case 0x10 => case 0x11 => case 0x12 => case 0x13 => case 0x14 => case 0x15 => case 0x16 => case 0x17 => case 0x18 => case 0x19 => case 0x1A => case 0x1B => case 0x1C => case 0x1D => case 0x1E => case 0x1F =>
  }

  lemma Lo20(b: bv8)
    requires 0x20 <= b <= 0x3F
    ensures LoEntry(b)
  {
    match b
    case 0x20 => case 0x21 => case 0x22 => case 0x23 => case 0x24 => case 0x25 => case 0x26 => case 0x27 => case 0x28 => case 0x29 => case 0x2A => case 0x2B => case 0x2C => case 0x2D => case 0x2E => case 0x2F =>
    case 0x30 => case 0x31 => case 0x32 => case 0x33 => case 0x34 => case 0x35 => case 0x36 => case 0x37 => case 0x38 => case 0x39 => case 0x3A => case 0x3B => case 0x3C => case 0x3D => case 0x3E => case 0x3F =>
  }

  lemma Lo40(b: bv8)
    requires 0x40 <= b <= 0x5F
    ensures LoEntry(b)
  {
    match b
    case 0x40 => case 0x41 => case 0x42 => case 0x43 => case 0x44 => case 0x45 => case 0x46 => case 0x47 => case 0x48 => case 0x49 => case 0x4A => case 0x4B => case 0x4C => case 0x4D => case 0x4E => case 0x4F =>
    case 0x50 => case 0x51 => case 0x52 => case 0x53 => case 0x54 => case 0x55 => case 0x56 => case 0x57 => case 0x58 => case 0x59 => case 0x5A => case 0x5B => case 0x5C => case 0x5D => case 0x5E => case 0x5F =>
  }

  lemma Lo60(b: bv8)
    requires 0x60 <= b <= 0x7F
    ensures LoEntry(b)
  {
    match b
    case 0x60 => case 0x61 => case 0x62 => case 0x63 => case 0x64 => case 0x65 => case 0x66 => case 0x67 => case 0x68 => case 0x69 => case 0x6A => case 0x6B => case 0x6C => case 0x6D => case 0x6E => case 0x6F =>
    case 0x70 => case 0x71 => case 0x72 => case 0x73 => case 0x74 => case 0x75 => case 0x76 => case 0x77 => case 0x78 => case 0x79 => case 0x7A => case 0x7B => case 0x7C => case 0x7D => case 0x7E => case 0x7F =>
  }

  lemma Lo80(b: bv8)
    requires 0x80 <= b <= 0x9F
    ensures LoEntry(b)
  {
    match b
    case 0x80 => case 0x81 => case 0x82 => case 0x83 => case 0x84 => case 0x85 => case 0x86 => case 0x87 => case 0x88 => case 0x89 => case 0x8A => case 0x8B => case 0x8C => case 0x8D => case 0x8E => case 0x8F =>
    case 0x90 => case 0x91 => case 0x92 => case 0x93 => case 0x94 => case 0x95 => case 0x96 => case 0x97 => case 0x98 => case 0x99 => case 0x9A => case 0x9B => case 0x9C => case 0x9D => case 0x9E => case 0x9F =>
  }

  lemma LoA0(b: bv8)
    requires 0xA0 <= b <= 0xBF
    ensures LoEntry(b)
  {
    match b
    case 0xA0 => case 0xA1 => case 0xA2 => case 0xA3 => case 0xA4 => case 0xA5 => case 0xA6 => case 0xA7 => case 0xA8 => case 0xA9 => case 0xAA => case 0xAB => case 0xAC => case 0xAD => case 0xAE => case 0xAF =>
    case 0xB0 => case 0xB1 => case 0xB2 => case 0xB3 => case 0xB4 => case 0xB5 => case 0xB6 => case 0xB7 => case 0xB8 => case 0xB9 => case 0xBA => case 0xBB => case 0xBC => case 0xBD => case 0xBE => case 0xBF =>
  }

  lemma LoC0(b: bv8)
    requires 0xC0 <= b <= 0xCF
    ensures LoEntry(b)
  {
    match b
    case 0xC0 => case 0xC1 => case 0xC2 => case 0xC3 => case 0xC4 => case 0xC5 => case 0xC6 => case 0xC7 => case 0xC8 => case 0xC9 => case 0xCA => case 0xCB => case 0xCC => case 0xCD => case 0xCE => case 0xCF =>
  }

  lemma LoD0(b: bv8)
    requires 0xD0 <= b <= 0xDF
    ensures LoEntry(b)
  {
    match b
    case 0xD0 => case 0xD1 => case 0xD2 => case 0xD3 => case 0xD4 => case 0xD5 => case 0xD6 => case 0xD7 => case 0xD8 => case 0xD9 => case 0xDA => case 0xDB => case 0xDC => case 0xDD => case 0xDE => case 0xDF =>
  }

  lemma LoE0(b: bv8)
    requires 0xE0 <= b <= 0xEF
    ensures LoEntry(b)
  {
    match b
    case 0xE0 => case 0xE1 => case 0xE2 => case 0xE3 => case 0xE4 => case 0xE5 => case 0xE6 => case 0xE7 => case 0xE8 => case 0xE9 => case 0xEA => case 0xEB => case 0xEC => case 0xED => case 0xEE => case 0xEF =>
  }

  lemma LoF0(b: bv8)
    requires 0xF0 <= b <= 0xFF
    ensures LoEntry(b)
  {
    match b
    case 0xF0 => case 0xF1 => case 0xF2 => case 0xF3 => case 0xF4 => case 0xF5 => case 0xF6 => case 0xF7 => case 0xF8 => case 0xF9 => case 0xFA => case 0xFB => case 0xFC => case 0xFD => case 0xFE => case 0xFF =>
  }

  lemma TableSizes()
    ensures |TABLE_CRC_HI| == |TABLE_CRC_LO| == 256
  {}

  /** Entry b of the high table is the low byte, and of the low table the high byte, of the register
      after eight shifts of b. */
  lemma EntryIsEightShifts(b: bv8)
    ensures |TABLE_CRC_HI| == |TABLE_CRC_LO| == 256
    ensures TABLE_CRC_HI[b as int] == LowByte(Shift8(b as bv16))
    ensures TABLE_CRC_LO[b as int] == HighByte(Shift8(b as bv16))
  {
    assert HiEntry(b) && LoEntry(b) by {
      if b < 0x20 { Hi00(b); Lo00(b); }
      else if b < 0x40 { Hi20(b); Lo20(b); }
      else if b < 0x60 { Hi40(b); Lo40(b); }
      else if b < 0x80 { Hi60(b); Lo60(b); }
      else if b < 0xA0 { Hi80(b); Lo80(b); }
      else if b < 0xC0 { HiA0(b); LoA0(b); }
      else if b < 0xE0 { HiC0(b); if b < 0xD0 { LoC0(b); } else { LoD0(b); } }
      else { HiE0(b); if b < 0xF0 { LoE0(b); } else { LoF0(b); } }
    }
    LinearIsShift8(b as bv16);
  }
}
