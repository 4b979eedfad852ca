/** What the RTU and the TCP client have in common (modbus_client.h). */
module Modbus {
  import opened Bytes

  datatype Option<+T> = None | Some(value: T)

  /** What a caller asks for. */
  datatype Order =
    | ReadHolding(unit: byte, reg: u16, count: u16)
    | ReadInput(unit: byte, reg: u16, count: u16)
    | WriteSingle(unit: byte, reg: u16, value: u16)
    | WriteMultiple(unit: byte, reg: u16, values: seq<u16>)

  function FunctionOf(o: Order): byte {
    match o
    case ReadHolding(_, _, _) => 3
    case ReadInput(_, _, _) => 4
    case WriteSingle(_, _, _) => 6
    case WriteMultiple(_, _, _) => 16
  }

  /** The registers of a payload; the source reads a zero behind an odd last byte that ends its buffer. */
  function RegistersOf(data: seq<byte>): seq<u16> {
    if data == [] then []
    else if |data| == 1 then [ToUInt16(data[0], 0)]
    else [ToUInt16(data[0], data[1])] + RegistersOf(data[2..])
  }

  /** Reading the registers back from their bytes. */
  lemma {:induction false} RegistersRoundTrip(regs: seq<u16>)
    ensures RegistersOf(RegisterBytes(regs)) == regs
  {
    if regs != [] {
      var bs := RegisterBytes(regs);
      assert bs[2..] == RegisterBytes(regs[1..]);
      RegistersRoundTrip(regs[1..]);
      JoinSplit(regs[0], 0, 0);
      assert regs == [regs[0]] + regs[1..];
    }
  }

  /** An odd last byte is the upper one of a register. */
  lemma {:induction false} OddByte(regs: seq<u16>, b: byte)
    ensures RegistersOf(RegisterBytes(regs) + [b]) == regs + [256 * b]
  {
    var bs := RegisterBytes(regs);
    if regs == [] {
      assert bs + [b] == [b];
    } else {
      OddByte(regs[1..], b);
      assert (bs + [b])[2..] == RegisterBytes(regs[1..]) + [b];
      JoinSplit(regs[0], 0, 0);
      assert regs + [256 * b] == [regs[0]] + (regs[1..] + [256 * b]);
    }
  }

  /** The responses of MODBUS Application Protocol V1.1b3, sections 6.3, 6.4, 6.6, 6.12 and 7. */
  datatype Response =
    | ReadResponse(unit: byte, fn: byte, regs: seq<u16>)
    | SingleResponse(unit: byte, reg: u16, value: u16)
    | MultipleResponse(unit: byte, reg: u16, count: u16)
    | ExceptionResponse(unit: byte, fn: byte, code: byte)

  /** The function code is one a client can have sent, and the byte count fits into its byte. */
  predicate ValidResponse(r: Response) {
    match r
    case ReadResponse(_, fn, regs) => (fn == 3 || fn == 4) && |regs| <= 127
    case ExceptionResponse(_, fn, _) => fn < 0x80
    case _ => true
  }

  /** The response without address and checksum. */
  function Pdu(r: Response): (p: seq<byte>)
    requires ValidResponse(r)
    ensures 2 <= |p| <= 256
  {
    match r
    case ReadResponse(_, fn, regs) => [fn, 2 * |regs|] + RegisterBytes(regs)
    case SingleResponse(_, reg, value) => [6, Msb(reg), Lsb(reg), Msb(value), Lsb(value)]
    case MultipleResponse(_, reg, count) => [16, Msb(reg), Lsb(reg), Msb(count), Lsb(count)]
    case ExceptionResponse(_, fn, code) => [fn + 0x80, code]
  }
}
