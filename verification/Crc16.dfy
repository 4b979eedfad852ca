/**
 The Modbus CRC-16 (crc16.cpp): a table-driven update of two bytes, proved against the shift
 register of MODBUS over Serial Line V1.02, section 6.2.2.

 The register reg is the pair (crcLo, crcHi) with crcLo as its upper half, so that getValue
 returns it with its bytes swapped, which is the order in which they are sent.
 */
module Crc {
  import opened Bytes

  /** Selects entry k of one row of 16 table entries. */
  function Row(k: bv8, v0: bv8, v1: bv8, v2: bv8, v3: bv8, v4: bv8, v5: bv8, v6: bv8, v7: bv8, 
               v8: bv8, v9: bv8, vA: bv8, vB: bv8, vC: bv8, vD: bv8, vE: bv8, vF: bv8): bv8
  {
    if k == 0x0 then v0 else if k == 0x1 then v1 else if k == 0x2 then v2 else if k == 0x3 then v3 else
    if k == 0x4 then v4 else if k == 0x5 then v5 else if k == 0x6 then v6 else if k == 0x7 then v7 else
    if k == 0x8 then v8 else if k == 0x9 then v9 else if k == 0xA then vA else if k == 0xB then vB else
    if k == 0xC then vC else if k == 0xD then vD else if k == 0xE then vE else vF
  }

  /** The table of high-order bytes. */
  function CrcHi(i: bv8): bv8 {
    var k := i & 0x0F;
    match i >> 4
    case 0x0 => Row(k, 0x00, 0xC1, 0x81, 0x40, 0x01, 0xC0, 0x80, 0x41, 0x01, 0xC0, 0x80, 0x41, 0x00, 0xC1, 0x81, 0x40)
    case 0x1 => Row(k, 0x01, 0xC0, 0x80, 0x41, 0x00, 0xC1, 0x81, 0x40, 0x00, 0xC1, 0x81, 0x40, 0x01, 0xC0, 0x80, 0x41)
    case 0x2 => Row(k, 0x01, 0xC0, 0x80, 0x41, 0x00, 0xC1, 0x81, 0x40, 0x00, 0xC1, 0x81, 0x40, 0x01, 0xC0, 0x80, 0x41)
    case 0x3 => Row(k, 0x00, 0xC1, 0x81, 0x40, 0x01, 0xC0, 0x80, 0x41, 0x01, 0xC0, 0x80, 0x41, 0x00, 0xC1, 0x81, 0x40)
    case 0x4 => Row(k, 0x01, 0xC0, 0x80, 0x41, 0x00, 0xC1, 0x81, 0x40, 0x00, 0xC1, 0x81, 0x40, 0x01, 0xC0, 0x80, 0x41)
    case 0x5 => Row(k, 0x00, 0xC1, 0x81, 0x40, 0x01, 0xC0, 0x80, 0x41, 0x01, 0xC0, 0x80, 0x41, 0x00, 0xC1, 0x81, 0x40)
    case 0x6 => Row(k, 0x00, 0xC1, 0x81, 0x40, 0x01, 0xC0, 0x80, 0x41, 0x01, 0xC0, 0x80, 0x41, 0x00, 0xC1, 0x81, 0x40)
    case 0x7 => Row(k, 0x01, 0xC0, 0x80, 0x41, 0x00, 0xC1, 0x81, 0x40, 0x00, 0xC1, 0x81, 0x40, 0x01, 0xC0, 0x80, 0x41)
    case 0x8 => Row(k, 0x01, 0xC0, 0x80, 0x41, 0x00, 0xC1, 0x81, 0x40, 0x00, 0xC1, 0x81, 0x40, 0x01, 0xC0, 0x80, 0x41)
    case 0x9 => Row(k, 0x00, 0xC1, 0x81, 0x40, 0x01, 0xC0, 0x80, 0x41, 0x01, 0xC0, 0x80, 0x41, 0x00, 0xC1, 0x81, 0x40)
    case 0xA => Row(k, 0x00, 0xC1, 0x81, 0x40, 0x01, 0xC0, 0x80, 0x41, 0x01, 0xC0, 0x80, 0x41, 0x00, 0xC1, 0x81, 0x40)
    case 0xB => Row(k, 0x01, 0xC0, 0x80, 0x41, 0x00, 0xC1, 0x81, 0x40, 0x00, 0xC1, 0x81, 0x40, 0x01, 0xC0, 0x80, 0x41)
    case 0xC => Row(k, 0x00, 0xC1, 0x81, 0x40, 0x01, 0xC0, 0x80, 0x41, 0x01, 0xC0, 0x80, 0x41, 0x00, 0xC1, 0x81, 0x40)
    case 0xD => Row(k, 0x01, 0xC0, 0x80, 0x41, 0x00, 0xC1, 0x81, 0x40, 0x00, 0xC1, 0x81, 0x40, 0x01, 0xC0, 0x80, 0x41)
    case 0xE => Row(k, 0x01, 0xC0, 0x80, 0x41, 0x00, 0xC1, 0x81, 0x40, 0x00, 0xC1, 0x81, 0x40, 0x01, 0xC0, 0x80, 0x41)
    case _ => Row(k, 0x00, 0xC1, 0x81, 0x40, 0x01, 0xC0, 0x80, 0x41, 0x01, 0xC0, 0x80, 0x41, 0x00, 0xC1, 0x81, 0x40)
  }

  /** The table of low-order bytes. */
  function CrcLo(i: bv8): bv8 {
    var k := i & 0x0F;
    match i >> 4
    case 0x0 => Row(k, 0x00, 0xC0, 0xC1, 0x01, 0xC3, 0x03, 0x02, 0xC2, 0xC6, 0x06, 0x07, 0xC7, 0x05, 0xC5, 0xC4, 0x04)
    case 0x1 => Row(k, 0xCC, 0x0C, 0x0D, 0xCD, 0x0F, 0xCF, 0xCE, 0x0E, 0x0A, 0xCA, 0xCB, 0x0B, 0xC9, 0x09, 0x08, 0xC8)
    case 0x2 => Row(k, 0xD8, 0x18, 0x19, 0xD9, 0x1B, 0xDB, 0xDA, 0x1A, 0x1E, 0xDE, 0xDF, 0x1F, 0xDD, 0x1D, 0x1C, 0xDC)
    case 0x3 => Row(k, 0x14, 0xD4, 0xD5, 0x15, 0xD7, 0x17, 0x16, 0xD6, 0xD2, 0x12, 0x13, 0xD3, 0x11, 0xD1, 0xD0, 0x10)
    case 0x4 => Row(k, 0xF0, 0x30, 0x31, 0xF1, 0x33, 0xF3, 0xF2, 0x32, 0x36, 0xF6, 0xF7, 0x37, 0xF5, 0x35, 0x34, 0xF4)
    case 0x5 => Row(k, 0x3C, 0xFC, 0xFD, 0x3D, 0xFF, 0x3F, 0x3E, 0xFE, 0xFA, 0x3A, 0x3B, 0xFB, 0x39, 0xF9, 0xF8, 0x38)
    case 0x6 => Row(k, 0x28, 0xE8, 0xE9, 0x29, 0xEB, 0x2B, 0x2A, 0xEA, 0xEE, 0x2E, 0x2F, 0xEF, 0x2D, 0xED, 0xEC, 0x2C)
    case 0x7 => Row(k, 0xE4, 0x24, 0x25, 0xE5, 0x27, 0xE7, 0xE6, 0x26, 0x22, 0xE2, 0xE3, 0x23, 0xE1, 0x21, 0x20, 0xE0)
    case 0x8 => Row(k, 0xA0, 0x60, 0x61, 0xA1, 0x63, 0xA3, 0xA2, 0x62, 0x66, 0xA6, 0xA7, 0x67, 0xA5, 0x65, 0x64, 0xA4)
    case 0x9 => Row(k, 0x6C, 0xAC, 0xAD, 0x6D, 0xAF, 0x6F, 0x6E, 0xAE, 0xAA, 0x6A, 0x6B, 0xAB, 0x69, 0xA9, 0xA8, 0x68)
    case 0xA => Row(k, 0x78, 0xB8, 0xB9, 0x79, 0xBB, 0x7B, 0x7A, 0xBA, 0xBE, 0x7E, 0x7F, 0xBF, 0x7D, 0xBD, 0xBC, 0x7C)
    case 0xB => Row(k, 0xB4, 0x74, 0x75, 0xB5, 0x77, 0xB7, 0xB6, 0x76, 0x72, 0xB2, 0xB3, 0x73, 0xB1, 0x71, 0x70, 0xB0)
    case 0xC => Row(k, 0x50, 0x90, 0x91, 0x51, 0x93, 0x53, 0x52, 0x92, 0x96, 0x56, 0x57, 0x97, 0x55, 0x95, 0x94, 0x54)
    case 0xD => Row(k, 0x9C, 0x5C, 0x5D, 0x9D, 0x5F, 0x9F, 0x9E, 0x5E, 0x5A, 0x9A, 0x9B, 0x5B, 0x99, 0x59, 0x58, 0x98)
    case 0xE => Row(k, 0x88, 0x48, 0x49, 0x89, 0x4B, 0x8B, 0x8A, 0x4A, 0x4E, 0x8E, 0x8F, 0x4F, 0x8D, 0x4D, 0x4C, 0x8C)
    case _ => Row(k, 0x44, 0x84, 0x85, 0x45, 0x87, 0x47, 0x46, 0x86, 0x82, 0x42, 0x43, 0x83, 0x41, 0x81, 0x80, 0x40)
  }

  datatype State = State(hi: bv8, lo: bv8)

  const INIT := State(0xFF, 0xFF)

  /** The table lookups of one update, with the index into both tables already formed. */
  function Lookup(lo: bv8, index: bv8): State {
    State(lo ^ CrcHi(index), CrcLo(index))
  }

  /** One table-driven update. */
  function TableStep(s: State, b: byte): State {
    Lookup(s.lo, s.hi ^ (b as bv8))
  }

  function TableRun(s: State, m: seq<byte>): State {
    if m == [] then s else TableStep(TableRun(s, m[..|m| - 1]), m[|m| - 1])
  }

  /** The checksum as the two bytes that end a frame, in the order in which they are sent. */
  function Checksum(m: seq<byte>): seq<byte> {
    var s := TableRun(INIT, m);
    [s.hi as int, s.lo as int]
  }

  lemma TableRunAppend(s: State, m: seq<byte>, b: byte)
    ensures TableRun(s, m + [b]) == TableStep(TableRun(s, m), b)
  {
    assert (m + [b])[..|m|] == m;
  }

  /** The checksum of a message as the 16-bit value that getValue returns. */
  function Value(m: seq<byte>): u16 {
    ToUInt16(Checksum(m)[0], Checksum(m)[1])
  }

  lemma LookupByHand(crcLo: bv8, index: bv8, hi: bv8, lo: bv8)
    requires hi == crcLo ^ CrcHi(index) && lo == CrcLo(index)
    ensures Lookup(crcLo, index) == State(hi, lo)
  {
    hide CrcHi, CrcLo;
  }

  /** The running checksum as the source keeps it; fed is what was added since the last reset. */
  class Crc16 {
    var crcLo: bv8
    var crcHi: bv8
    ghost var fed: seq<byte>

    ghost predicate Valid()
      reads this
    {
      State(crcHi, crcLo) == TableRun(INIT, fed)
    }

    constructor ()
      ensures Valid() && fed == []
    {
      crcLo, crcHi := 0xFF, 0xFF;
      fed := [];
    }

    method Reset()
      modifies this
      ensures Valid() && fed == []
    {
      crcLo := 0xFF;
      crcHi := 0xFF;
      fed := [];
    }

    method Add(b: byte)
      requires Valid()
      modifies this
      ensures Valid() && fed == old(fed) + [b]
    {
      hide CrcHi, CrcLo, TableRun, Lookup; // the proof needs no table entry
      TableRunAppend(INIT, fed, b);
      var index := crcHi ^ (b as bv8);
      var hi, lo := crcLo ^ CrcHi(index), CrcLo(index);
      LookupByHand(crcLo, index, hi, lo);
      crcHi, crcLo := hi, lo;
      fed := fed + [b];
    }

    method AddAll(bytes: seq<byte>)
      requires Valid()
      modifies this
      ensures Valid() && fed == old(fed) + bytes
    {
      hide Valid;
      for i := 0 to |bytes|
        invariant Valid() && fed == old(fed) + bytes[..i]
      {
        Add(bytes[i]);
        assert bytes[..i + 1] == bytes[..i] + [bytes[i]];
      }
      assert bytes[..|bytes|] == bytes;
    }

    method GetValue() returns (v: u16)
      requires Valid()
      ensures v == Value(fed)
    {
      hide TableRun;
      v := (crcHi as int) * 0x100 + crcLo as int;
    }

    /** The checksum of a whole message. */
    static method Compute(bytes: seq<byte>) returns (v: u16)
      ensures v == Value(bytes)
    {
      hide Value, TableRun;
      var crc := new Crc16();
      crc.AddAll(bytes);
      assert [] + bytes == bytes;
      v := crc.GetValue();
    }
  }

  // ---- The reference: a 16-bit shift register fed bit by bit, polynomial 0xA001. ----

  datatype Reg = Reg(v: bv16)

  function Zero(): Reg {
    Reg(0)
  }

  function Xor(a: Reg, b: Reg): Reg {
    Reg(a.v ^ b.v)
  }

  function LowBit(r: Reg): bool {
    r.v & 1 == 1
  }

  function Half(r: Reg): Reg {
    Reg(r.v >> 1)
  }

  function Polynomial(on: bool): Reg {
    Reg(if on then 0xA001 else 0)
  }

  /** One step: the bit that leaves the register, combined with the bit fed in, selects the polynomial. */
  function Step(r: Reg, bit: bool): Reg {
    Xor(Half(r), Polynomial(LowBit(r) != bit))
  }

  function BitRun(r: Reg, bits: seq<bool>): Reg {
    if bits == [] then r else Step(BitRun(r, bits[..|bits| - 1]), bits[|bits| - 1])
  }

  /** The n lowest bits of w, the least significant first. */
  function LowBits(w: Reg, n: nat): (bits: seq<bool>)
    ensures |bits| == n
    decreases n
  {
    if n == 0 then [] else [LowBit(w)] + LowBits(Half(w), n - 1)
  }

  function ByteReg(v: bv8): Reg {
    Reg(v as bv16)
  }

  function HighReg(v: bv8): Reg {
    Reg((v as bv16) << 8)
  }

  /** The bits of a byte in the order of transmission: least significant first. */
  function ByteBits(b: byte): (bits: seq<bool>)
    ensures |bits| == 8
  {
    LowBits(ByteReg(b as bv8), 8)
  }

  function Bits(m: seq<byte>): (bits: seq<bool>)
    ensures |bits| == 8 * |m|
  {
    if m == [] then [] else Bits(m[..|m| - 1]) + ByteBits(m[|m| - 1])
  }

  /** The register that the two bytes of the source stand for. */
  function Register(s: State): Reg {
    Xor(HighReg(s.lo), ByteReg(s.hi))
  }

  // ---- Tables against shift register. ----

  function Shift8(r: Reg): Reg {
    var r4 := Step(Step(Step(Step(r, false), false), false), false);
    Step(Step(Step(Step(r4, false), false), false), false)
  }

  function TableEntry(i: bv8): Reg {
    Register(State(CrcHi(i), CrcLo(i)))
  }

  /** Whether an odd number of bits is set. */
  function Odd(i: bv8): bool {
    var j := i ^ (i >> 4);
    var k := j ^ (j >> 2);
    (k ^ (k >> 1)) & 1 == 1
  }

  /** What eight shifts make of a byte. */
  function ShiftedHi(i: bv8): bv8 {
    (i << 6) ^ (i << 7) ^ if Odd(i) then 0x01 else 0
  }

  function ShiftedLo(i: bv8): bv8 {
    (i >> 2) ^ (i >> 1) ^ if Odd(i) then 0xC0 else 0
  }

  function Shifted(i: bv8): Reg {
    var r := (i as bv16) << 6;
    Reg(r ^ (r << 1) ^ if Odd(i) then 0xC001 else 0)
  }

  lemma ShiftedIsShift8(i: bv8)
    ensures Shifted(i) == Shift8(ByteReg(i))
  {
  }

  lemma ShiftedBytes(i: bv8)
    ensures Register(State(ShiftedHi(i), ShiftedLo(i))) == Shifted(i)
  {
    hide Odd;
  }

  lemma TableRow0(i: bv8)
    requires i >> 4 == 0x0
    ensures CrcHi(i) == ShiftedHi(i) && CrcLo(i) == ShiftedLo(i)
  {
    assert CrcHi(i) == ShiftedHi(i);
  }

  lemma TableRow1(i: bv8)
    requires i >> 4 == 0x1
    ensures CrcHi(i) == ShiftedHi(i) && CrcLo(i) == ShiftedLo(i)
  {
    assert CrcHi(i) == ShiftedHi(i);
  }

  lemma TableRow2(i: bv8)
    requires i >> 4 == 0x2
    ensures CrcHi(i) == ShiftedHi(i) && CrcLo(i) == ShiftedLo(i)
  {
    assert CrcHi(i) == ShiftedHi(i);
  }

  lemma TableRow3(i: bv8)
    requires i >> 4 == 0x3
    ensures CrcHi(i) == ShiftedHi(i) && CrcLo(i) == ShiftedLo(i)
  {
    assert CrcHi(i) == ShiftedHi(i);
  }

  lemma TableRow4(i: bv8)
    requires i >> 4 == 0x4
    ensures CrcHi(i) == ShiftedHi(i) && CrcLo(i) == ShiftedLo(i)
  {
    assert CrcHi(i) == ShiftedHi(i);
  }

  lemma TableRow5(i: bv8)
    requires i >> 4 == 0x5
    ensures CrcHi(i) == ShiftedHi(i) && CrcLo(i) == ShiftedLo(i)
  {
    assert CrcHi(i) == ShiftedHi(i);
  }

  lemma TableRow6(i: bv8)
    requires i >> 4 == 0x6
    ensures CrcHi(i) == ShiftedHi(i) && CrcLo(i) == ShiftedLo(i)
  {
    assert CrcHi(i) == ShiftedHi(i);
  }

  lemma TableRow7(i: bv8)
    requires i >> 4 == 0x7
    ensures CrcHi(i) == ShiftedHi(i) && CrcLo(i) == ShiftedLo(i)
  {
    assert CrcHi(i) == ShiftedHi(i);
  }

  lemma TableRow8(i: bv8)
    requires i >> 4 == 0x8
    ensures CrcHi(i) == ShiftedHi(i) && CrcLo(i) == ShiftedLo(i)
  {
    assert CrcHi(i) == ShiftedHi(i);
  }

  lemma TableRow9(i: bv8)
    requires i >> 4 == 0x9
    ensures CrcHi(i) == ShiftedHi(i) && CrcLo(i) == ShiftedLo(i)
  {
    assert CrcHi(i) == ShiftedHi(i);
  }

  lemma TableRowA(i: bv8)
    requires i >> 4 == 0xA
    ensures CrcHi(i) == ShiftedHi(i) && CrcLo(i) == ShiftedLo(i)
  {
    assert CrcHi(i) == ShiftedHi(i);
  }

  lemma TableRowB(i: bv8)
    requires i >> 4 == 0xB
    ensures CrcHi(i) == ShiftedHi(i) && CrcLo(i) == ShiftedLo(i)
  {
    assert CrcHi(i) == ShiftedHi(i);
  }

  lemma TableRowC(i: bv8)
    requires i >> 4 == 0xC
    ensures CrcHi(i) == ShiftedHi(i) && CrcLo(i) == ShiftedLo(i)
  {
    assert CrcHi(i) == ShiftedHi(i);
  }

  lemma TableRowD(i: bv8)
    requires i >> 4 == 0xD
    ensures CrcHi(i) == ShiftedHi(i) && CrcLo(i) == ShiftedLo(i)
  {
    assert CrcHi(i) == ShiftedHi(i);
  }

  lemma TableRowE(i: bv8)
    requires i >> 4 == 0xE
    ensures CrcHi(i) == ShiftedHi(i) && CrcLo(i) == ShiftedLo(i)
  {
    assert CrcHi(i) == ShiftedHi(i);
  }

  lemma TableRowF(i: bv8)
    requires i >> 4 == 0xF
    ensures CrcHi(i) == ShiftedHi(i) && CrcLo(i) == ShiftedLo(i)
  {
    assert CrcHi(i) == ShiftedHi(i);
  }

  lemma TableIsShift8(i: bv8)
    ensures TableEntry(i) == Shift8(ByteReg(i))
  {
    hide CrcHi, CrcLo, ShiftedHi, ShiftedLo, Shifted, Shift8, Register;
    ShiftedIsShift8(i);
    ShiftedBytes(i);
    match i >> 4 {
      case 0x0 => TableRow0(i);
      case 0x1 => TableRow1(i);
      case 0x2 => TableRow2(i);
      case 0x3 => TableRow3(i);
      case 0x4 => TableRow4(i);
      case 0x5 => TableRow5(i);
      case 0x6 => TableRow6(i);
      case 0x7 => TableRow7(i);
      case 0x8 => TableRow8(i);
      case 0x9 => TableRow9(i);
      case 0xA => TableRowA(i);
      case 0xB => TableRowB(i);
      case 0xC => TableRowC(i);
      case 0xD => TableRowD(i);
      case 0xE => TableRowE(i);
      case _ => TableRowF(i);
    }
  }

  /** The four laws of the bitwise exclusive or that the proofs need. */
  lemma XorComm(a: Reg, b: Reg)
    ensures Xor(a, b) == Xor(b, a)
  {
  }

  lemma XorAssoc(a: Reg, b: Reg, c: Reg)
    ensures Xor(Xor(a, b), c) == Xor(a, Xor(b, c))
  {
  }

  lemma XorZero(r: Reg)
    ensures Xor(r, Zero()) == r && Xor(r, r) == Zero()
  {
  }

  lemma XorMiddle(a: Reg, b: Reg, c: Reg, d: Reg)
    ensures Xor(Xor(a, b), Xor(c, d)) == Xor(Xor(a, c), Xor(b, d))
  {
    hide Xor;
    calc {
      Xor(Xor(a, b), Xor(c, d));
      { XorAssoc(a, b, Xor(c, d)); XorAssoc(b, c, d); }
      Xor(a, Xor(Xor(b, c), d));
      { XorComm(b, c); XorAssoc(c, b, d); }
      Xor(a, Xor(c, Xor(b, d)));
      { XorAssoc(a, c, Xor(b, d)); }
      Xor(Xor(a, c), Xor(b, d));
    }
  }

  lemma ByteRegXor(a: bv8, b: bv8)
    ensures ByteReg(a ^ b) == Xor(ByteReg(a), ByteReg(b))
  {
  }

  lemma HalfXor(r: Reg, s: Reg)
    ensures Half(Xor(r, s)) == Xor(Half(r), Half(s))
  {
  }

  lemma LowBitXor(r: Reg, s: Reg)
    ensures LowBit(Xor(r, s)) == (LowBit(r) != LowBit(s))
  {
  }

  lemma PolynomialXor(a: bool, b: bool)
    ensures Xor(Polynomial(a), Polynomial(b)) == Polynomial(a != b)
  {
  }

  /** A step is linear: differences evolve by themselves. */
  lemma StepXor(r: Reg, s: Reg, a: bool, b: bool)
    ensures Xor(Step(r, a), Step(s, b)) == Step(Xor(r, s), a != b)
  {
    hide Xor, Half, LowBit, Polynomial;
    var f, g := LowBit(r) != a, LowBit(s) != b;
    HalfXor(r, s);
    LowBitXor(r, s);
    PolynomialXor(f, g);
    XorMiddle(Half(r), Polynomial(f), Half(s), Polynomial(g));
  }

  lemma Shift8Xor(r: Reg, s: Reg)
    ensures Shift8(Xor(r, s)) == Xor(Shift8(r), Shift8(s))
  {
    hide Step, Xor;
    var r1, s1 := Step(r, false), Step(s, false);
    var r2, s2 := Step(r1, false), Step(s1, false);
    var r3, s3 := Step(r2, false), Step(s2, false);
    var r4, s4 := Step(r3, false), Step(s3, false);
    var r5, s5 := Step(r4, false), Step(s4, false);
    var r6, s6 := Step(r5, false), Step(s5, false);
    var r7, s7 := Step(r6, false), Step(s6, false);
    StepXor(r, s, false, false);
    StepXor(r1, s1, false, false);
    StepXor(r2, s2, false, false);
    StepXor(r3, s3, false, false);
    StepXor(r4, s4, false, false);
    StepXor(r5, s5, false, false);
    StepXor(r6, s6, false, false);
    StepXor(r7, s7, false, false);
  }

  lemma Shift8High(v: bv8)
    ensures Shift8(HighReg(v)) == ByteReg(v)
  {
  }

  lemma RegisterLookup(lo: bv8, h: bv8, l: bv8)
    ensures Register(State(lo ^ h, l)) == Xor(ByteReg(lo), Register(State(h, l)))
  {
    ByteRegXor(lo, h);
    hide Xor, ByteReg, HighReg;
    var a, b, c := HighReg(l), ByteReg(lo), ByteReg(h);
    XorAssoc(a, b, c);
    XorComm(a, b);
    XorAssoc(b, a, c);
  }

  /** One table-driven update adds the byte to the register and shifts by eight bits. */
  lemma LookupIsShift8(hi: bv8, lo: bv8, v: bv8)
    ensures Register(Lookup(lo, hi ^ v)) == Shift8(Xor(Register(State(hi, lo)), ByteReg(v)))
  {
    hide CrcHi, CrcLo, Shift8, Xor, ByteReg, HighReg;
    var x := hi ^ v;
    TableIsShift8(x);
    RegisterLookup(lo, CrcHi(x), CrcLo(x));
    XorAssoc(HighReg(lo), ByteReg(hi), ByteReg(v));
    ByteRegXor(hi, v);
    Shift8Xor(HighReg(lo), ByteReg(x));
    Shift8High(lo);
  }

  /** A bit added to the register acts like a bit fed in; the others move on with the shift. */
  lemma FeedBit(r: Reg, w: Reg)
    ensures Step(Xor(r, w), false) == Xor(Step(r, LowBit(w)), Half(w))
  {
    hide Xor, Half, LowBit, Polynomial;
    HalfXor(r, w);
    LowBitXor(r, w);
    var p := Polynomial(LowBit(r) != LowBit(w));
    XorAssoc(Half(r), Half(w), p);
    XorComm(Half(w), p);
    XorAssoc(Half(r), p, Half(w));
  }

  lemma BitRunAppend(r: Reg, bits: seq<bool>, bit: bool)
    ensures BitRun(r, bits + [bit]) == Step(BitRun(r, bits), bit)
  {
    assert (bits + [bit])[..|bits|] == bits;
  }

  /** Feeds the n lowest bits of w. */
  function Feed(r: Reg, w: Reg, n: nat): Reg
    decreases n
  {
    if n == 0 then r else Feed(Step(r, LowBit(w)), Half(w), n - 1)
  }

  function ShiftOut(r: Reg, n: nat): Reg
    decreases n
  {
    if n == 0 then r else ShiftOut(Step(r, false), n - 1)
  }

  function Rest(w: Reg, n: nat): Reg
    decreases n
  {
    if n == 0 then w else Rest(Half(w), n - 1)
  }

  lemma {:induction false} FeedIsShift(r: Reg, w: Reg, n: nat)
    ensures ShiftOut(Xor(r, w), n) == Xor(Feed(r, w, n), Rest(w, n))
    decreases n
  {
    hide Step, Xor, LowBit, Half;
    if n > 0 {
      FeedBit(r, w);
      FeedIsShift(Step(r, LowBit(w)), Half(w), n - 1);
    }
  }

  lemma {:induction false} FeedIsRun(r: Reg, bits: seq<bool>, w: Reg, n: nat)
    ensures BitRun(r, bits + LowBits(w, n)) == Feed(BitRun(r, bits), w, n)
    decreases n
  {
    hide Step, LowBit, Half, BitRun;
    if n == 0 {
      assert bits + [] == bits;
    } else {
      var b, rest := LowBit(w), LowBits(Half(w), n - 1);
      BitRunAppend(r, bits, b);
      FeedIsRun(r, bits + [b], Half(w), n - 1);
      assert bits + ([b] + rest) == (bits + [b]) + rest;
    }
  }

  lemma Shift8IsShiftOut(r: Reg)
    ensures ShiftOut(r, 8) == Shift8(r)
  {
    hide Step;
    var r4 := Step(Step(Step(Step(r, false), false), false), false);
    assert ShiftOut(r, 8) == ShiftOut(Step(Step(r, false), false), 6) == ShiftOut(r4, 4);
    assert ShiftOut(r4, 4) == ShiftOut(Step(Step(r4, false), false), 2);
  }

  lemma ByteRest(v: bv8)
    ensures Rest(ByteReg(v), 8) == Zero()
  {
    var w := ByteReg(v);
    var w4 := Half(Half(Half(Half(w))));
    assert Rest(w, 8) == Rest(Half(Half(w)), 6) == Rest(w4, 4);
    assert Rest(w4, 4) == Rest(Half(Half(w4)), 2);
  }

  /** Adding a byte to the register and shifting by eight is feeding the bits of the byte. */
  lemma BitRunByte(r: Reg, bits: seq<bool>, b: byte)
    ensures BitRun(r, bits + ByteBits(b)) == Shift8(Xor(BitRun(r, bits), ByteReg(b as bv8)))
  {
    hide Step, Shift8, Xor, ByteReg, LowBit, Half, Zero;
    var s, w := BitRun(r, bits), ByteReg(b as bv8);
    FeedIsRun(r, bits, w, 8);
    FeedIsShift(s, w, 8);
    Shift8IsShiftOut(Xor(s, w));
    ByteRest(b as bv8);
    XorZero(Feed(s, w, 8));
  }

  lemma TableStepIsShift8(s: State, b: byte)
    ensures Register(TableStep(s, b)) == Shift8(Xor(Register(s), ByteReg(b as bv8)))
  {
    hide Lookup, Shift8, Xor, Register;
    LookupIsShift8(s.hi, s.lo, b as bv8);
    assert s == State(s.hi, s.lo);
  }

  /** The table-driven checksum is the shift register of the standard, on every message. */
  lemma {:induction false} TableIsShiftRegister(s: State, m: seq<byte>)
    ensures Register(TableRun(s, m)) == BitRun(Register(s), Bits(m))
  {
    hide TableStep, Shift8, Register, Xor, Step, ByteBits;
    if m != [] {
      var n := |m| - 1;
      TableIsShiftRegister(s, m[..n]);
      TableStepIsShift8(TableRun(s, m[..n]), m[n]);
      BitRunByte(Register(s), Bits(m[..n]), m[n]);
    }
  }

  // ---- What the checksum detects. ----

  lemma BitvectorByte(a: bv8)
    ensures (a as int) as bv8 == a
  {
  }

  /** The checksum determines the state, and with it the register. */
  lemma ChecksumInjective(m: seq<byte>, m': seq<byte>)
    requires Checksum(m) == Checksum(m')
    ensures TableRun(INIT, m) == TableRun(INIT, m')
  {
    hide TableRun;
    var s, t := TableRun(INIT, m), TableRun(INIT, m');
    assert Checksum(m)[0] == s.hi as int && Checksum(m)[1] == s.lo as int;
    assert Checksum(m')[0] == t.hi as int && Checksum(m')[1] == t.lo as int;
    BitvectorByte(s.hi);
    BitvectorByte(t.hi);
    BitvectorByte(s.lo);
    BitvectorByte(t.lo);
  }

  lemma StepOwnByte(lo: bv8, hi: bv8)
    ensures Lookup(lo, hi ^ hi) == State(lo, 0)
  {
    assert hi ^ hi == 0;
    assert CrcHi(0) == 0 && CrcLo(0) == 0;
  }

  /** A message followed by its own checksum leaves the register at zero. */
  lemma ResidueIsZero(m: seq<byte>)
    ensures TableRun(INIT, m + Checksum(m)) == State(0, 0)
  {
    hide Lookup, TableRun, CrcHi, CrcLo;
    var s := TableRun(INIT, m);
    var c := Checksum(m);
    TableRunAppend(INIT, m, c[0]);
    TableRunAppend(INIT, m + [c[0]], c[1]);
    assert m + [c[0]] + [c[1]] == m + c;
    BitvectorByte(s.hi);
    BitvectorByte(s.lo);
    StepOwnByte(s.lo, s.hi);
    StepOwnByte(0, s.lo);
  }

  function Differences(x: seq<bool>, y: seq<bool>): (d: seq<bool>)
    requires |x| == |y|
    ensures |d| == |x|
  {
    seq(|x|, i requires 0 <= i < |x| => x[i] != y[i])
  }

  /** The difference of two runs is the run of the differences. */
  lemma {:induction false} BitRunXor(r: Reg, s: Reg, x: seq<bool>, y: seq<bool>)
    requires |x| == |y|
    ensures Xor(BitRun(r, x), BitRun(s, y)) == BitRun(Xor(r, s), Differences(x, y))
  {
    hide Step, Xor;
    if x != [] {
      var n := |x| - 1;
      BitRunXor(r, s, x[..n], y[..n]);
      assert Differences(x, y)[..n] == Differences(x[..n], y[..n]);
      StepXor(BitRun(r, x[..n]), BitRun(s, y[..n]), x[n], y[n]);
    }
  }

  /** One of the j + 1 highest bits of r is set. */
  predicate InTop(r: Reg, j: nat) {
    r.v & Top(j) != 0
  }

  function Top(j: nat): bv16 {
    if j == 0 then 0x8000 else (Top(j - 1) >> 1) | 0x8000
  }

  /** The highest bit moves down by one, or the polynomial sets the top bit. */
  lemma TopMoves(v: bv16, t: bv16)
    requires v & t != 0 && t & 1 == 0
    ensures (v >> 1) & ((t >> 1) | 0x8000) != 0
  {
  }

  lemma StepKeepsTop(r: Reg, e: bool, j: nat)
    requires j < 15 && InTop(r, j)
    ensures InTop(Step(r, e), j + 1)
  {
    hide LowBit, Xor, Top;
    TopHasNoLowBit(j);
    NextTop(j);
    if LowBit(r) != e {
      WithPolynomial(r.v, Top(j));
    } else {
      XorIsZero(Half(r));
      TopMoves(r.v, Top(j));
    }
  }

  lemma WithPolynomial(v: bv16, t: bv16)
    ensures Xor(Half(Reg(v)), Polynomial(true)).v & ((t >> 1) | 0x8000) != 0
  {
    assert (v >> 1) & 0x8000 == 0;
  }

  lemma NextTop(j: nat)
    ensures Top(j + 1) == (Top(j) >> 1) | 0x8000
  {
  }

  lemma TopHasNoLowBit(j: nat)
    requires j < 15
    ensures Top(j) & 1 == 0
  {
    assert Top(2) == 0xE000;
    assert Top(4) == 0xF800;
    assert Top(6) == 0xFE00;
    assert Top(8) == 0xFF80;
    assert Top(10) == 0xFFE0;
    assert Top(12) == 0xFFF8;
    assert Top(14) == 0xFFFE;
  }

  lemma InTopIsNotZero(r: Reg, j: nat)
    requires InTop(r, j)
    ensures r != Zero()
  {
    hide Top;
  }

  lemma HalfFacts(r: Reg)
    ensures Half(r) != Reg(0xA001)
    ensures !LowBit(r) && Half(r) == Zero() ==> r == Zero()
  {
  }

  lemma XorCancel(a: Reg, b: Reg)
    requires Xor(a, b) == Zero()
    ensures a == b
  {
  }

  lemma StepNonZero(r: Reg)
    requires r != Zero()
    ensures Step(r, false) != Zero()
  {
    hide Half, LowBit, Xor, Zero;
    HalfFacts(r);
    if Step(r, false) == Zero() {
      XorCancel(Half(r), Polynomial(LowBit(r)));
      PolynomialIsZero();
    }
  }

  lemma PolynomialIsZero()
    ensures Polynomial(false) == Zero() && Polynomial(true) == Reg(0xA001)
  {
  }

  lemma StepZero()
    ensures Step(Zero(), true) == Reg(0xA001) && Step(Zero(), false) == Zero()
  {
    hide Xor;
    assert Half(Zero()) == Zero() && !LowBit(Zero());
    XorZero(Zero());
    XorComm(Zero(), Reg(0xA001));
    XorIsZero(Reg(0xA001));
  }

  lemma TopBitIsSet()
    ensures InTop(Reg(0xA001), 0)
  {
  }

  lemma {:induction false} AllZeroRun(bits: seq<bool>)
    requires forall i | 0 <= i < |bits| :: !bits[i]
    ensures BitRun(Zero(), bits) == Zero()
  {
    hide Step, Zero;
    if bits != [] {
      AllZeroRun(bits[..|bits| - 1]);
      StepZero();
    }
  }

  /** A register that starts at zero is not zero after a burst of at most 16 bits. */
  lemma {:induction false} BurstRun(bits: seq<bool>, p: nat)
    requires p < |bits| && bits[p]
    requires forall i | 0 <= i < |bits| :: bits[i] ==> p <= i < p + 16
    ensures BitRun(Zero(), bits) != Zero()
    ensures |bits| <= p + 16 ==> InTop(BitRun(Zero(), bits), |bits| - 1 - p)
  {
    hide Step, InTop, Zero;
    var n := |bits| - 1;
    var d := BitRun(Zero(), bits[..n]);
    if n == p {
      AllZeroRun(bits[..n]);
      StepZero();
      TopBitIsSet();
    } else {
      BurstRun(bits[..n], p);
      if n < p + 16 {
        StepKeepsTop(d, bits[n], n - 1 - p);
      } else {
        StepNonZero(d);
      }
    }
    if |bits| <= p + 16 {
      InTopIsNotZero(BitRun(Zero(), bits), n - p);
    }
  }

  /**
   Two messages of the same length whose bits, in the order of transmission, differ only within 16
   consecutive positions never have the same checksum.
   */
  lemma BurstDetected(m: seq<byte>, m': seq<byte>, p: nat)
    requires |m| == |m'| && p < |Bits(m)| && Bits(m)[p] != Bits(m')[p]
    requires forall i | 0 <= i < |Bits(m)| :: Bits(m)[i] != Bits(m')[i] ==> p <= i < p + 16
    ensures Checksum(m) != Checksum(m')
  {
    hide TableRun, Checksum, Bits, BitRun, Register, Xor, Zero;
    if Checksum(m) == Checksum(m') {
      var r := Register(INIT);
      ChecksumInjective(m, m');
      TableIsShiftRegister(INIT, m);
      TableIsShiftRegister(INIT, m');
      BitRunXor(r, r, Bits(m), Bits(m'));
      XorZero(r);
      XorZero(Register(TableRun(INIT, m)));
      BurstRun(Differences(Bits(m), Bits(m')), p);
    }
  }

  lemma {:induction false} BitsAt(m: seq<byte>, k: nat, j: nat)
    requires k < |m| && j < 8
    ensures Bits(m)[8 * k + j] == ByteBits(m[k])[j]
  {
    hide ByteBits;
    var n := |m| - 1;
    assert Bits(m) == Bits(m[..n]) + ByteBits(m[n]);
    if k < n {
      BitsAt(m[..n], k, j);
      assert Bits(m)[8 * k + j] == Bits(m[..n])[8 * k + j];
    } else {
      assert 8 * k + j - |Bits(m[..n])| == j;
    }
  }

  lemma HalfAndLowBit(r: Reg, s: Reg)
    requires Half(r) == Half(s) && LowBit(r) == LowBit(s)
    ensures r == s
  {
  }

  lemma {:induction false} LowBitsInjective(r: Reg, s: Reg, n: nat)
    requires LowBits(r, n) == LowBits(s, n) && Rest(r, n) == Rest(s, n)
    ensures r == s
    decreases n
  {
    hide Half, LowBit;
    if n > 0 {
      var b, c := LowBits(Half(r), n - 1), LowBits(Half(s), n - 1);
      assert [LowBit(r)] + b == [LowBit(s)] + c;
      assert ([LowBit(r)] + b)[0] == LowBit(r) && ([LowBit(s)] + c)[0] == LowBit(s);
      assert ([LowBit(r)] + b)[1..] == b && ([LowBit(s)] + c)[1..] == c;
      LowBitsInjective(Half(r), Half(s), n - 1);
      HalfAndLowBit(r, s);
    }
  }

  lemma ByteRegInjective(a: byte, b: byte)
    requires ByteReg(a as bv8) == ByteReg(b as bv8)
    ensures a == b
  {
    var u, v := a as bv8, b as bv8;
    assert u as bv16 == v as bv16;
    assert u == v;
    IntByte(a);
    IntByte(b);
  }

  lemma Increment(v: bv8)
    requires v != 0xFF
    ensures (v + 1) as int == v as int + 1
  {
  }

  /** Every byte value is the value of a bit vector. */
  lemma BitvectorOf(a: byte) returns (v: bv8)
    ensures v as int == a
  {
    if a == 0 {
      v := 0;
    } else {
      var w := BitvectorOf(a - 1);
      Increment(w);
      v := w + 1;
    }
  }

  lemma IntByte(a: byte)
    ensures (a as bv8) as int == a
  {
    var v := BitvectorOf(a);
    BitvectorByte(v);
  }

  lemma ByteBitsInjective(a: byte, b: byte)
    requires ByteBits(a) == ByteBits(b)
    ensures a == b
  {
    hide ByteReg, LowBits, Rest, Zero;
    ByteRest(a as bv8);
    ByteRest(b as bv8);
    LowBitsInjective(ByteReg(a as bv8), ByteReg(b as bv8), 8);
    ByteRegInjective(a, b);
  }

  /** The first position, from p on, at which the messages differ, given that they differ at q. */
  lemma FirstDifference(x: seq<bool>, y: seq<bool>, p: nat, q: nat) returns (f: nat)
    requires |x| == |y| && p <= q < |x| && x[q] != y[q]
    ensures p <= f <= q && x[f] != y[f] && forall i | p <= i < f :: x[i] == y[i]
  {
    f := p;
    while x[f] == y[f]
      invariant p <= f <= q && forall i | p <= i < f :: x[i] == y[i]
      decreases q - f
    {
      f := f + 1;
    }
  }

  /** Two different messages of one length that agree outside two adjacent bytes have different checksums. */
  lemma AdjacentBytesDetected(m: seq<byte>, m': seq<byte>, k: nat)
    requires |m| == |m'| && m != m'
    requires forall i | 0 <= i < |m| && i != k && i != k + 1 :: m[i] == m'[i]
    ensures Checksum(m) != Checksum(m')
  {
    hide Checksum, ByteBits;
    var d :| 0 <= d < |m| && m[d] != m'[d];
    if forall j | 0 <= j < 8 :: ByteBits(m[d])[j] == ByteBits(m'[d])[j] {
      ByteBitsInjective(m[d], m'[d]);
    }
    var j :| 0 <= j < 8 && ByteBits(m[d])[j] != ByteBits(m'[d])[j];
    forall i | 0 <= i < |Bits(m)|
      ensures Bits(m)[i] != Bits(m')[i] ==> 8 * k <= i < 8 * k + 16
    {
      assert i == 8 * (i / 8) + i % 8;
      BitsAt(m, i / 8, i % 8);
      BitsAt(m', i / 8, i % 8);
    }
    BitsAt(m, d, j);
    BitsAt(m', d, j);
    var p := FirstDifference(Bits(m), Bits(m'), 8 * k, 8 * d + j);
    BurstDetected(m, m', p);
  }

  // ---- The influence of what was fed before. ----

  lemma {:induction false} TableRunConcat(s: State, a: seq<byte>, b: seq<byte>)
    ensures TableRun(s, a + b) == TableRun(TableRun(s, a), b)
  {
    hide TableStep;
    if b == [] {
      assert a + b == a;
    } else {
      var n := |b| - 1;
      assert a + b == (a + b[..n]) + [b[n]];
      TableRunConcat(s, a, b[..n]);
      TableRunAppend(s, a + b[..n], b[n]);
    }
  }

  lemma {:induction false} NonZeroRun(r: Reg, bits: seq<bool>)
    requires r != Zero() && forall i | 0 <= i < |bits| :: !bits[i]
    ensures BitRun(r, bits) != Zero()
  {
    hide Step, Zero;
    if bits != [] {
      NonZeroRun(r, bits[..|bits| - 1]);
      StepNonZero(BitRun(r, bits[..|bits| - 1]));
    }
  }

  lemma RegisterInjective(s: State, t: State)
    requires Xor(Register(s), Register(t)) == Zero()
    ensures s == t
  {
    XorCancel(Register(s), Register(t));
    var a, b, c, d := s.hi, s.lo, t.hi, t.lo;
    assert ((b as bv16) << 8) ^ (a as bv16) == ((d as bv16) << 8) ^ (c as bv16);
    assert a == c && b == d;
  }

  /** Different states stay different under the same message. */
  lemma RunInjective(s: State, t: State, m: seq<byte>)
    requires TableRun(s, m) == TableRun(t, m)
    ensures s == t
  {
    hide TableRun, Bits, BitRun, Register, Xor, Zero;
    var r, q := Register(s), Register(t);
    TableIsShiftRegister(s, m);
    TableIsShiftRegister(t, m);
    BitRunXor(r, q, Bits(m), Bits(m));
    XorZero(Register(TableRun(s, m)));
    if Xor(r, q) != Zero() {
      NonZeroRun(Xor(r, q), Differences(Bits(m), Bits(m)));
    }
    RegisterInjective(s, t);
  }

  /** How the first bytes of two registers compare shows in their difference. */
  lemma FirstByteOfDifference(a: State, b: State, c: State, d: State)
    requires Xor(Register(a), Register(b)) == Xor(Register(c), Register(d))
    ensures a.hi == b.hi <==> c.hi == d.hi
  {
    hide Xor, Register;
    FirstByte(a, b);
    FirstByte(c, d);
  }

  lemma FirstByte(a: State, b: State)
    ensures Xor(Register(a), Register(b)).v & 0xFF == 0 <==> a.hi == b.hi
  {
    RegisterByte(a);
    RegisterByte(b);
    hide Register;
    SameByte(Register(a).v, Register(b).v);
    ByteIsInjective(a.hi, b.hi);
  }

  lemma RegisterByte(s: State)
    ensures Register(s).v & 0xFF == s.hi as bv16
  {
  }

  lemma SameByte(x: bv16, y: bv16)
    ensures (x ^ y) & 0xFF == 0 <==> x & 0xFF == y & 0xFF
  {
  }

  lemma ByteIsInjective(a: bv8, b: bv8)
    ensures a as bv16 == b as bv16 <==> a == b
  {
  }

  /** Whether two states come to checksums with the same first byte depends on the length of the message only. */
  lemma {:induction false} FirstByteAgrees(s: State, t: State, m: seq<byte>, m': seq<byte>)
    requires |m| == |m'|
    ensures TableRun(s, m).hi == TableRun(t, m).hi <==> TableRun(s, m').hi == TableRun(t, m').hi
  {
    hide TableRun, Bits, BitRun, Register, Xor;
    TableIsShiftRegister(s, m);
    TableIsShiftRegister(t, m);
    TableIsShiftRegister(s, m');
    TableIsShiftRegister(t, m');
    var r, q := Register(s), Register(t);
    BitRunXor(r, q, Bits(m), Bits(m));
    BitRunXor(r, q, Bits(m'), Bits(m'));
    assert Differences(Bits(m), Bits(m)) == Differences(Bits(m'), Bits(m'));
    FirstByteOfDifference(TableRun(s, m), TableRun(t, m), TableRun(s, m'), TableRun(t, m'));
  }

  /** The same, for messages behind two different beginnings. */
  lemma {:induction false} ChecksumStartAgrees(p: seq<byte>, q: seq<byte>, m: seq<byte>, m': seq<byte>)
    requires |m| == |m'|
    ensures Checksum(p + m)[0] == Checksum(q + m)[0] <==> Checksum(p + m')[0] == Checksum(q + m')[0]
  {
    hide TableRun;
    var s, t := TableRun(INIT, p), TableRun(INIT, q);
    TableRunConcat(INIT, p, m);
    TableRunConcat(INIT, q, m);
    TableRunConcat(INIT, p, m');
    TableRunConcat(INIT, q, m');
    FirstByteAgrees(s, t, m, m');
    BitvectorByte(TableRun(s, m).hi);
    BitvectorByte(TableRun(t, m).hi);
    BitvectorByte(TableRun(s, m').hi);
    BitvectorByte(TableRun(t, m').hi);
  }

  /** Behind the first byte of its own checksum, the second one has become the first. */
  lemma {:induction false} OwnFirstByte(m: seq<byte>)
    ensures Checksum(m + [Checksum(m)[0]])[0] == Checksum(m)[1]
  {
    hide Lookup, CrcHi, CrcLo, TableRun;
    var s := TableRun(INIT, m);
    TableRunAppend(INIT, m, Checksum(m)[0]);
    BitvectorByte(s.hi);
    StepOwnByte(s.lo, s.hi);
  }

  /** Bytes fed before a message leave its checksum alone exactly if they lead back to the start. */
  lemma PrefixHarmless(stray: seq<byte>, m: seq<byte>)
    ensures Checksum(stray + m) == Checksum(m) <==> TableRun(INIT, stray) == INIT
  {
    hide TableStep;
    TableRunConcat(INIT, stray, m);
    if Checksum(stray + m) == Checksum(m) {
      ChecksumInjective(stray + m, m);
      RunInjective(TableRun(INIT, stray), INIT, m);
    }
  }

  lemma NoSuchShift(x: bv8)
    ensures Shift8(ByteReg(x)) != Reg(0xFF00)
  {
  }

  lemma NoSuchEntry(x: bv8)
    ensures CrcLo(x) == 0xFF ==> CrcHi(x) != 0
  {
    TableIsShift8(x);
    NoSuchShift(x);
    hide CrcHi, CrcLo, Shift8;
  }

  /** A single byte never leads back to the start. */
  lemma OneByteIsHarmful(b: byte)
    ensures TableRun(INIT, [b]) != INIT
  {
    hide Lookup, TableRun;
    OneByteRun(INIT, b);
    NoLookup(INIT.hi ^ (b as bv8));
  }

  lemma NoLookup(x: bv8)
    ensures Lookup(INIT.lo, x) != INIT
  {
    hide CrcHi, CrcLo;
    NoSuchEntry(x);
    XorOnes(CrcHi(x));
  }

  lemma XorOnes(v: bv8)
    ensures 0xFF ^ v == 0xFF ==> v == 0
  {
  }

  // ---- Two messages that differ in one byte. ----

  /** n zero bytes. */
  function ZeroRun(s: State, n: nat): State
    decreases n
  {
    if n == 0 then s else ZeroRun(TableStep(s, 0), n - 1)
  }

  lemma {:induction false} ZeroRunIs(s: State, m: seq<byte>)
    requires forall i | 0 <= i < |m| :: m[i] == 0
    ensures TableRun(s, m) == ZeroRun(s, |m|)
    decreases |m|
  {
    hide TableStep, TableRun;
    if m != [] {
      assert m == [0] + m[1..];
      TableRunConcat(s, [0], m[1..]);
      assert TableRun(s, [0]) == TableStep(s, 0) by { OneByteRun(s, 0); }
      ZeroRunIs(TableStep(s, 0), m[1..]);
    } else {
      assert TableRun(s, []) == s by { EmptyRun(s); }
    }
  }

  lemma OneByteRun(s: State, b: byte)
    ensures TableRun(s, [b]) == TableStep(s, b)
  {
    hide TableStep;
    assert [b][..0] == [];
  }

  lemma EmptyRun(s: State)
    ensures TableRun(s, []) == s
  {
  }

  /** Behind equal bytes, a difference evolves as it would by itself. */
  lemma {:induction false} DifferenceOfZeroRuns(s: State, t: State, d: State, n: nat)
    requires Xor(Register(s), Register(t)) == Register(d)
    ensures Xor(Register(ZeroRun(s, n)), Register(ZeroRun(t, n))) == Register(ZeroRun(d, n))
    decreases n
  {
    hide TableStep, Register, Xor, Shift8, ByteReg;
    if n > 0 {
      var z := ByteReg(0);
      TableStepIsShift8(s, 0);
      TableStepIsShift8(t, 0);
      TableStepIsShift8(d, 0);
      assert z == Zero() by { ByteZero(); }
      XorIsZero(Register(s));
      XorIsZero(Register(t));
      XorIsZero(Register(d));
      Shift8Xor(Register(s), Register(t));
      DifferenceOfZeroRuns(TableStep(s, 0), TableStep(t, 0), TableStep(d, 0), n - 1);
    }
  }

  lemma ByteZero()
    ensures ByteReg(0) == Zero()
  {
  }

  lemma XorIsZero(r: Reg)
    ensures Xor(r, Zero()) == r
  {
    XorZero(r);
  }

  /** The difference that the bytes 24 and 23 make. */
  lemma {:induction false} DifferenceOf24And23(s: State)
    ensures Xor(Register(TableStep(s, 24)), Register(TableStep(s, 23))) == Register(TableStep(State(0, 0), 15))
  {
    hide TableStep, Xor, Shift8, ByteReg;
    var r, a, b := Register(s), ByteReg(24), ByteReg(23);
    TableStepIsShift8(s, 24);
    TableStepIsShift8(s, 23);
    TableStepIsShift8(State(0, 0), 15);
    Shift8Xor(Xor(r, a), Xor(r, b));
    XorMiddle(r, a, r, b);
    XorZero(r);
    ByteRegXor(24, 23);
    assert (24 as bv8) ^ 23 == 15;
    NothingIsZero();
    XorComm(Zero(), ByteReg(15));
    XorComm(Zero(), Xor(a, b));
    XorIsZero(ByteReg(15));
    XorIsZero(Xor(a, b));
  }

  lemma NothingIsZero()
    ensures Register(State(0, 0)) == Zero()
  {
  }

  lemma {:induction false} TwentyFourZeros1()
    ensures ZeroRun(State(0x40, 0x04), 24) == ZeroRun(State(0x30, 0x03), 22)
  {
    hide ZeroRun;
    ZeroStep(State(0x40, 0x04), State(0x05, 0xF0), 24);
    ZeroStep(State(0x05, 0xF0), State(0x30, 0x03), 23);
  }

  lemma {:induction false} TwentyFourZeros2()
    ensures ZeroRun(State(0x30, 0x03), 22) == ZeroRun(State(0xFF, 0x00), 18)
  {
    hide ZeroRun;
    ZeroStep(State(0x30, 0x03), State(0x03, 0x14), 22);
    ZeroStep(State(0x03, 0x14), State(0x54, 0x01), 21);
    ZeroStep(State(0x54, 0x01), State(0x00, 0xFF), 20);
    ZeroStep(State(0x00, 0xFF), State(0xFF, 0x00), 19);
  }

  lemma {:induction false} TwentyFourZeros3()
    ensures ZeroRun(State(0xFF, 0x00), 18) == ZeroRun(State(0x30, 0x30), 15)
  {
    hide ZeroRun;
    ZeroStep(State(0xFF, 0x00), State(0x40, 0x40), 18);
    ZeroStep(State(0x40, 0x40), State(0x41, 0xF0), 17);
    ZeroStep(State(0x41, 0xF0), State(0x30, 0x30), 16);
  }

  lemma {:induction false} TwentyFourZeros4()
    ensures ZeroRun(State(0x30, 0x30), 15) == ZeroRun(State(0x14, 0x0F), 12)
  {
    hide ZeroRun;
    ZeroStep(State(0x30, 0x30), State(0x30, 0x14), 15);
    ZeroStep(State(0x30, 0x14), State(0x14, 0x14), 14);
    ZeroStep(State(0x14, 0x14), State(0x14, 0x0F), 13);
  }

  lemma {:induction false} TwentyFourZeros5()
    ensures ZeroRun(State(0x14, 0x0F), 12) == ZeroRun(State(0x45, 0xF4), 9)
  {
    hide ZeroRun;
    ZeroStep(State(0x14, 0x0F), State(0x0F, 0x0F), 12);
    ZeroStep(State(0x0F, 0x0F), State(0x4F, 0x04), 11);
    ZeroStep(State(0x4F, 0x04), State(0x45, 0xF4), 10);
  }

  lemma {:induction false} TwentyFourZeros6()
    ensures ZeroRun(State(0x45, 0xF4), 9) == ZeroRun(State(0x57, 0x15), 6)
  {
    hide ZeroRun;
    ZeroStep(State(0x45, 0xF4), State(0x35, 0xF3), 9);
    ZeroStep(State(0x35, 0xF3), State(0x33, 0x17), 8);
    ZeroStep(State(0x33, 0x17), State(0x57, 0x15), 7);
  }

  lemma {:induction false} TwentyFourZeros7()
    ensures ZeroRun(State(0x57, 0x15), 6) == ZeroRun(State(0xBF, 0x40), 3)
  {
    hide ZeroRun;
    ZeroStep(State(0x57, 0x15), State(0x54, 0xFE), 6);
    ZeroStep(State(0x54, 0xFE), State(0xFF, 0xFF), 5);
    ZeroStep(State(0xFF, 0xFF), State(0xBF, 0x40), 4);
  }

  lemma {:induction false} TwentyFourZeros8()
    ensures ZeroRun(State(0xBF, 0x40), 3) == ZeroRun(State(0x00, 0x24), 0)
  {
    hide ZeroRun;
    ZeroStep(State(0xBF, 0x40), State(0x01, 0xB0), 3);
    ZeroStep(State(0x01, 0xB0), State(0x71, 0xC0), 2);
    ZeroStep(State(0x71, 0xC0), State(0x00, 0x24), 1);
  }

  lemma ZeroStep(s: State, t: State, n: nat)
    requires n > 0 && s.lo ^ CrcHi(s.hi) == t.hi && CrcLo(s.hi) == t.lo
    ensures ZeroRun(s, n) == ZeroRun(t, n - 1)
  {
    hide CrcHi, CrcLo;
    assert s.hi ^ 0 == s.hi;
  }

  /** Behind any beginning, the bytes 24 and 23 followed by 24 zeros come to checksums that start alike. */
  lemma {:induction false} TwentyFourAndOneLess(p: seq<byte>, zeros: seq<byte>)
    requires |zeros| == 24 && forall i | 0 <= i < 24 :: zeros[i] == 0
    ensures Checksum(p + [24] + zeros)[0] == Checksum(p + [23] + zeros)[0]
  {
    hide TableRun, TableStep, ZeroRun, CrcHi, CrcLo, Register, Xor;
    var q := TableRun(INIT, p);
    var s, t, d := TableStep(q, 24), TableStep(q, 23), TableStep(State(0, 0), 15);
    TableRunConcat(INIT, p + [24], zeros);
    TableRunConcat(INIT, p + [23], zeros);
    TableRunAppend(INIT, p, 24);
    TableRunAppend(INIT, p, 23);
    ZeroRunIs(s, zeros);
    ZeroRunIs(t, zeros);
    DifferenceOf24And23(q);
    DifferenceOfZeroRuns(s, t, d, 24);
    FirstOfZeros(d);
    NothingIsZero();
    XorIsZero(Register(ZeroRun(d, 24)));
    FirstByteOfDifference(ZeroRun(s, 24), ZeroRun(t, 24), ZeroRun(d, 24), State(0, 0));
  }

  lemma {:induction false} FirstOfZeros(d: State)
    requires d == TableStep(State(0, 0), 15)
    ensures ZeroRun(d, 24).hi == 0
  {
    FirstStep();
    hide CrcHi, CrcLo, TableStep, ZeroRun;
    TwentyFourZeros1();
    TwentyFourZeros2();
    TwentyFourZeros3();
    TwentyFourZeros4();
    TwentyFourZeros5();
    TwentyFourZeros6();
    TwentyFourZeros7();
    TwentyFourZeros8();
    assert ZeroRun(State(0x00, 0x24), 0) == State(0x00, 0x24) by { NoZeros(State(0x00, 0x24)); }
  }

  lemma FirstStep()
    ensures TableStep(State(0, 0), 15) == State(0x40, 0x04)
  {
    assert CrcHi(15) == 0x40 && CrcLo(15) == 0x04;
    hide CrcHi, CrcLo;
    assert 0 ^ (15 as bv8) == 15;
  }

  lemma NoZeros(s: State)
    ensures ZeroRun(s, 0) == s
  {
  }

  // ---- A frame on the wire. ----

  /** One more byte, with the index into the tables and the entries worked out. */
  lemma OneStep(m: seq<byte>, s: State, b: byte, v: bv8, index: bv8, next: State, n: seq<byte>)
    requires TableRun(INIT, m) == s && b as bv8 == v && s.hi ^ v == index && n == m + [b]
    requires s.lo ^ CrcHi(index) == next.hi && CrcLo(index) == next.lo
    ensures TableRun(INIT, n) == next
  {
    hide TableRun, Lookup, CrcHi, CrcLo;
    TableRunAppend(INIT, m, b);
    LookupByHand(s.lo, index, next.hi, next.lo);
  }

  lemma AfterOne()
    ensures TableRun(INIT, [1]) == State(0x7E, 0x80)
  {
    hide TableRun;
    assert TableRun(INIT, []) == State(0xFF, 0xFF) by { EmptyRun(INIT); }
    OneStep([], State(0xFF, 0xFF), 1, 1, 0xFE, State(0x7E, 0x80), [1]);
  }

  lemma FirstHalf()
    ensures TableRun(INIT, [1, 3, 0]) == State(0x20, 0xF0)
  {
    hide TableRun;
    AfterOne();
    OneStep([1], State(0x7E, 0x80), 3, 3, 0x7D, State(0x40, 0x21), [1, 3]);
    OneStep([1, 3], State(0x40, 0x21), 0, 0, 0x40, State(0x20, 0xF0), [1, 3, 0]);
  }

  lemma SecondHalf()
    ensures TableRun(INIT, [1, 3, 0, 0, 0, 2]) == State(0xC4, 0x0B)
  {
    hide TableRun;
    FirstHalf();
    OneStep([1, 3, 0], State(0x20, 0xF0), 0, 0, 0x20, State(0xF1, 0xD8), [1, 3, 0, 0]);
    OneStep([1, 3, 0, 0], State(0xF1, 0xD8), 0, 0, 0xF1, State(0x19, 0x84), [1, 3, 0, 0, 0]);
    OneStep([1, 3, 0, 0, 0], State(0x19, 0x84), 2, 2, 0x1B, State(0xC4, 0x0B), [1, 3, 0, 0, 0, 2]);
  }

  /** A request for two registers from the first one on of unit 1 ends with C4 0B. */
  lemma KnownChecksum()
    ensures Checksum([1, 3, 0, 0, 0, 2]) == [0xC4, 0x0B]
  {
    hide TableRun;
    SecondHalf();
  }
}
