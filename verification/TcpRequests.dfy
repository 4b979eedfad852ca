/** Request frames of the Modbus TCP client, read back as a server reads them. */
module TcpRequests {
  import opened Bytes
  import opened Modbus
  import opened TcpModel

  /** A server's view: MBAP header (section 3.1.3 of the messaging guide), then sections 6.3, 6.4, 6.6 and 6.12. */
  function DecodePdu(unit: byte, p: seq<byte>): Option<Order> {
    if |p| < 5 then None
    else
      var reg, word := ToUInt16(p[1], p[2]), ToUInt16(p[3], p[4]);
      if |p| == 5 then
        if p[0] == 3 then Some(ReadHolding(unit, reg, word))
        else if p[0] == 4 then Some(ReadInput(unit, reg, word))
        else if p[0] == 6 then Some(WriteSingle(unit, reg, word))
        else None
      else if p[0] == 16 && |p| == 6 + 2 * word && p[5] as int == 2 * word then
        Some(WriteMultiple(unit, reg, RegistersOf(p[6..])))
      else None
  }

  function Decode(w: seq<byte>): Option<(u16, Order)> {
    if |w| < 8 || w[2] != 0 || w[3] != 0 || ToUInt16(w[4], w[5]) != |w| - 6 then None
    else match DecodePdu(w[6], w[7..])
      case None => None
      case Some(o) => Some((ToUInt16(w[0], w[1]), o))
  }

  function ValuesOf(o: Order): nat {
    if o.WriteMultiple? then |o.values| else 0
  }

  function PduOf(o: Order): seq<byte> {
    [FunctionOf(o), Msb(o.reg), Lsb(o.reg)] +
    match o
    case ReadHolding(_, _, count) => [Msb(count), Lsb(count)]
    case ReadInput(_, _, count) => [Msb(count), Lsb(count)]
    case WriteSingle(_, _, value) => [Msb(value), Lsb(value)]
    case WriteMultiple(_, _, values) =>
      var n := Wrap16(|values|);
      [Msb(n), Lsb(n), Wrap8(2 * |values|)] + RegisterBytes(values)
  }

  /** The frame is the header, whose length byte is taken modulo 256, followed by the request itself. */
  lemma FrameParts(tid: u16, o: Order)
    ensures var w := Frame(tid, o);
            && w == [Msb(tid), Lsb(tid), 0, 0, 0, (|PduOf(o)| + 1) % 0x100, o.unit] + PduOf(o)
            && |PduOf(o)| == if o.WriteMultiple? then 6 + 2 * |o.values| else 5
  {
    if o.WriteMultiple? {
      assert |PduOf(o)| == 6 + 2 * |o.values|;
      LengthByte(5 + 2 * |o.values|);
    }
    hide Msb, Lsb, RegisterBytes, Wrap16;
  }

  lemma LengthByte(n: nat)
    ensures Wrap8(Wrap8(n) + 2) == (n + 2) % 0x100
  {
  }

  lemma WordsDecode(o: Order, x: u16, more: seq<byte>)
    ensures var p := [FunctionOf(o), Msb(o.reg), Lsb(o.reg)] + ([Msb(x), Lsb(x)] + more);
            && |p| == 5 + |more| && p[5..] == more
            && p[0] == FunctionOf(o) && ToUInt16(p[1], p[2]) == o.reg && ToUInt16(p[3], p[4]) == x
  {
    JoinSplit(o.reg, 0, 0);
    JoinSplit(x, 0, 0);
    hide Msb, Lsb, ToUInt16;
  }

  lemma PduDecodes(o: Order)
    requires ValuesOf(o) <= 127
    ensures DecodePdu(o.unit, PduOf(o)) == Some(o)
  {
    hide Msb, Lsb, ToUInt16, RegisterBytes, RegistersOf;
    if o.WriteMultiple? {
      var n, data := |o.values|, RegisterBytes(o.values);
      WordsDecode(o, n, [2 * n] + data);
      assert PduOf(o) == [FunctionOf(o), Msb(o.reg), Lsb(o.reg)] + ([Msb(n), Lsb(n)] + ([2 * n] + data));
      assert ([2 * n] + data)[1..] == data && PduOf(o)[6..] == PduOf(o)[5..][1..];
      assert PduOf(o)[5] == PduOf(o)[5..][0];
      RegistersRoundTrip(o.values);
    } else {
      var x := if o.WriteSingle? then o.value else o.count;
      WordsDecode(o, x, []);
      assert [Msb(x), Lsb(x)] + [] == [Msb(x), Lsb(x)];
    }
  }

  /**
   The length field of a frame counts the bytes behind it, and the frame decodes back to the id and
   the request, exactly if a multiple write has at most 124 values: one more, and the 8-bit sum in
   createFrame overflows. The 123 values that section 6.12 allows are among them.
   */
  lemma RequestRoundTrip(tid: u16, o: Order)
    ensures var w := Frame(tid, o);
            && |w| > 7
            && (ToUInt16(w[4], w[5]) == |w| - 6 <==> ValuesOf(o) <= 124)
            && (Decode(w) == Some((tid, o)) <==> ValuesOf(o) <= 124)
  {
    FrameParts(tid, o);
    var p, w := PduOf(o), Frame(tid, o);
    hide Frame, PduOf;
    JoinSplit(tid, 0, 0);
    assert w[7..] == p && w[6] == o.unit;
    assert ToUInt16(w[4], w[5]) == (|p| + 1) % 0x100;
    if ValuesOf(o) <= 124 {
      PduDecodes(o);
    }
    hide DecodePdu;
  }
}
