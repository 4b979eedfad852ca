/** Bytes and 16-bit words, and the big-endian conversions between them (crc16.h). */
module Bytes {

  type byte = x: int | 0 <= x < 0x100

  type u16 = x: int | 0 <= x < 0x1_0000

  function Msb(d: u16): (b: byte) {
    d / 0x100
  }

  function Lsb(d: u16): (b: byte) {
    d % 0x100
  }

  function ToUInt16(msb: byte, lsb: byte): (d: u16) {
    msb * 0x100 + lsb
  }

  /** The C++ conversion of an int to quint16. */
  function Wrap16(x: int): u16 {
    x % 0x1_0000
  }

  /** Splitting and joining are inverse to each other, so a word is its two bytes. */
  lemma JoinSplit(d: u16, msb: byte, lsb: byte)
    ensures ToUInt16(Msb(d), Lsb(d)) == d
    ensures Msb(ToUInt16(msb, lsb)) == msb && Lsb(ToUInt16(msb, lsb)) == lsb
  {
  }

  /** The concatenation of a list of byte strings. */
  function Flatten(parts: seq<seq<byte>>): seq<byte> {
    if parts == [] then [] else parts[0] + Flatten(parts[1..])
  }

  lemma FlattenAppend(a: seq<seq<byte>>, b: seq<seq<byte>>)
    ensures Flatten(a + b) == Flatten(a) + Flatten(b)
  {
    if a == [] {
      assert a + b == b;
    } else {
      assert (a + b)[0] == a[0] && (a + b)[1..] == a[1..] + b;
      FlattenAppend(a[1..], b);
    }
  }

  /** Big-endian bytes of a register list, as Modbus sends it. */
  function RegisterBytes(regs: seq<u16>): (bs: seq<byte>)
    ensures |bs| == 2 * |regs|
  {
    if regs == [] then [] else [Msb(regs[0]), Lsb(regs[0])] + RegisterBytes(regs[1..])
  }

  lemma {:induction false} RegisterByteAt(regs: seq<u16>, i: nat)
    requires i < |regs|
    ensures RegisterBytes(regs)[2 * i] == Msb(regs[i])
    ensures RegisterBytes(regs)[2 * i + 1] == Lsb(regs[i])
  {
    var tail := RegisterBytes(regs[1..]);
    assert RegisterBytes(regs) == [Msb(regs[0]), Lsb(regs[0])] + tail;
    if i > 0 {
      RegisterByteAt(regs[1..], i - 1);
      assert RegisterBytes(regs)[2 * i] == tail[2 * i - 2];
      assert RegisterBytes(regs)[2 * i + 1] == tail[2 * i - 1];
    }
  }
}
