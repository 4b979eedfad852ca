/** Which corrupted answers the Modbus RTU client accepts (modbus_rtu_client.cpp). */
module RtuCorruption {
  import opened Bytes
  import opened Modbus
  import opened RtuModel
  import opened RtuProofs
  import opened RtuAnswers
  import Crc

  /** The client waits for an answer, and no byte has come in before it. */
  predicate Waits(c: Client) {
    Inv(c) && c.rx.state == Address && c.log.heard == [] && c.log.stray == []
  }

  /** No request is finished by the bytes w. */
  ghost predicate Refused(c: Client, w: seq<byte>, followUps: seq<Order>)
    requires Inv(c)
  {
    Feed(c, w, |w|, followUps).log.finished == c.log.finished
  }

  // ---- Feeding. ----

  lemma {:induction false} FeedAgrees(c: Client, w: seq<byte>, v: seq<byte>, n: nat, followUps: seq<Order>)
    requires Inv(c) && n <= |w| && n <= |v| && w[..n] == v[..n]
    ensures Feed(c, w, n, followUps) == Feed(c, v, n, followUps)
  {
    hide Inv, Step;
    if n > 0 {
      assert w[..n - 1] == w[..n][..n - 1] && v[..n - 1] == v[..n][..n - 1];
      assert w[n - 1] == w[..n][n - 1] && v[n - 1] == v[..n][n - 1];
      FeedAgrees(c, w, v, n - 1, followUps);
    }
  }

  /** What is finished stays so. */
  lemma {:induction false} FeedGrows(c: Client, w: seq<byte>, n: nat, m: nat, followUps: seq<Order>)
    requires Inv(c) && n <= m <= |w|
    ensures Feed(c, w, n, followUps).log.finished <= Feed(c, w, m, followUps).log.finished
    decreases m
  {
    hide Inv, Step;
    if n < m {
      var before := Feed(c, w, m - 1, followUps);
      FeedGrows(c, w, n, m - 1, followUps);
      StepKeepsInv(before, Received(w[m - 1], followUps));
    }
  }

  /** The packet that w starts with decides on the active request, unless it is not complete. */
  lemma {:induction false} FirstPacket(c: Client, w: seq<byte>, n: nat, followUps: seq<Order>)
    requires Waits(c) && n <= |w| && Complete(w[..n])
    ensures c.active.Some?
    ensures if Answers(w[..n], [], c.active.value.order) then
              c.log.finished + [Finish(c.active.value, Decode(BodyOf(w[..n])))] <= Feed(c, w, |w|, followUps).log.finished
            else
              var d := Feed(c, w, n, followUps);
              SameQueue(c, d) && d.rx.state == Address && d.log.heard == []
  {
    hide Inv, Feed, Complete, Answers, Decode, BodyOf;
    var v := w[..n];
    assert v[..n] == v;
    FeedAgrees(c, w, v, n, followUps);
    FeedComplete(c, v, followUps);
    FeedGrows(c, w, n, |w|, followUps);
  }

  // ---- Corruption that leaves the framed length alone. ----

  /** Two adjacent bytes, neither of them of the checksum, may differ from v. */
  predicate CorruptedAt(w: seq<byte>, v: seq<byte>, k: nat) {
    && |w| == |v| >= 2 && w != v && w[|w| - 2..] == v[|v| - 2..]
    && forall i | 0 <= i < |w| && i != k && i != k + 1 :: w[i] == v[i]
  }

  /**
   An answer that is corrupted in two adjacent bytes from address to data, and still announces its own
   length, is refused, whatever the request; the client goes on waiting.
   */
  lemma {:induction false} CorruptionIsRejected(c: Client, r: Response, w: seq<byte>, k: nat, followUps: seq<Order>)
    requires Waits(c) && ValidResponse(r) && CorruptedAt(w, Wire(r), k) && Complete(w)
    ensures Refused(c, w, followUps)
    ensures var d := Feed(c, w, |w|, followUps);
            SameQueue(c, d) && d.rx.state == Address && d.log.heard == []
  {
    hide Crc.Checksum, Inv, Feed, Decode;
    WireIsComplete(r);
    assert w[..|w|] == w;
    FirstPacket(c, w, |w|, followUps);
    BodiesDiffer(r, w);
    assert [] + BodyOf(w) == BodyOf(w);
    Crc.AdjacentBytesDetected(BodyOf(w), Body(r), k);
  }

  lemma BodiesDiffer(r: Response, w: seq<byte>)
    requires ValidResponse(r) && |w| == |Wire(r)| >= 2 && w != Wire(r) && w[|w| - 2..] == Wire(r)[|w| - 2..] && Complete(w)
    ensures BodyLength(w) == |Body(r)| && BodyOf(w) != Body(r) && w[BodyLength(w)..] == Crc.Checksum(Body(r))
    ensures forall i | 0 <= i < |Body(r)| :: Body(r)[i] == Wire(r)[i] && BodyOf(w)[i] == w[i]
  {
    hide Crc.Checksum;
    TwoBytes(Body(r));
    assert w == w[..|w| - 2] + w[|w| - 2..];
    assert Wire(r)[|w| - 2..] == Crc.Checksum(Body(r));
  }

  // ---- A corrupted byte count. ----

  predicate IsRead(o: Order) {
    o.ReadHolding? || o.ReadInput?
  }

  /** The answer to a read. */
  function AnswerTo(o: Order, regs: seq<u16>): seq<byte>
    requires IsRead(o) && |regs| <= 127
  {
    Wire(ReadResponse(o.unit, FunctionOf(o), regs))
  }

  function Recounted(o: Order, regs: seq<u16>, count: byte): seq<byte>
    requires IsRead(o) && |regs| <= 127
  {
    AnswerTo(o, regs)[2 := count]
  }

  function Head(o: Order, count: byte): seq<byte> {
    [o.unit, FunctionOf(o), count]
  }

  lemma AnswerParts(o: Order, regs: seq<u16>, count: byte)
    requires IsRead(o) && |regs| <= 127
    ensures var bs := RegisterBytes(regs);
            var h := Crc.Checksum(Head(o, 2 * |regs|) + bs);
            && |h| == 2 && |bs| == 2 * |regs|
            && AnswerTo(o, regs) == Head(o, 2 * |regs|) + bs + h
            && Recounted(o, regs, count) == Head(o, count) + bs + h
  {
    hide Crc.Checksum, RegisterBytes;
    var bs := RegisterBytes(regs);
    var h := Crc.Checksum(Head(o, 2 * |regs|) + bs);
    TwoBytes(Head(o, 2 * |regs|) + bs);
    BodyParts(o, regs);
    Recount(o, 2 * |regs|, count, bs + h);
    assert forall n: byte :: Head(o, n) + bs + h == Head(o, n) + (bs + h);
  }

  lemma BodyParts(o: Order, regs: seq<u16>)
    requires IsRead(o) && |regs| <= 127
    ensures Body(ReadResponse(o.unit, FunctionOf(o), regs)) == Head(o, 2 * |regs|) + RegisterBytes(regs)
  {
    hide RegisterBytes;
    InFront(o.unit, FunctionOf(o), 2 * |regs|, RegisterBytes(regs));
  }

  lemma InFront(a: byte, b: byte, c: byte, s: seq<byte>)
    ensures [a] + ([b, c] + s) == [a, b, c] + s
  {
  }

  lemma Recount(o: Order, n: byte, count: byte, rest: seq<byte>)
    ensures (Head(o, n) + rest)[2 := count] == Head(o, count) + rest
  {
  }

  lemma Pair(s: seq<byte>, i: nat)
    requires i + 2 <= |s|
    ensures s[i..i + 2] == [s[i], s[i + 1]]
  {
  }

  /** A count that is too large makes the client wait for more. */
  lemma {:induction false} LongerCountWaits(c: Client, o: Order, regs: seq<u16>, count: byte, followUps: seq<Order>)
    requires Waits(c) && IsRead(o) && |regs| <= 127 && count > 2 * |regs|
    ensures Refused(c, Recounted(o, regs, count), followUps)
  {
    hide Crc.Checksum, Inv, Feed;
    AnswerParts(o, regs, count);
    var w := Recounted(o, regs, count);
    assert w[..|w|] == w && w[1] == FunctionOf(o) && w[2] == count;
    FeedPartial(c, w, |w|, followUps);
  }

  /** The packet that a smaller count frames: it answers if and only if the two bytes behind it are its checksum. */
  lemma {:induction false} ShorterPacket(o: Order, regs: seq<u16>, count: byte)
    requires IsRead(o) && |regs| <= 127 && count < 2 * |regs|
    ensures var w, bs := Recounted(o, regs, count), RegisterBytes(regs);
            var body := Head(o, count) + bs[..count];
            var v := w[..count + 5];
            && |w| == 2 * |regs| + 5 && Complete(v) && BodyOf(v) == body && Decode(body) == Registers(RegistersOf(bs[..count]))
            && (Answers(v, [], o) <==> Crc.Checksum(body) == w[count + 3..count + 5])
            && w[count + 3] == bs[count]
            && w[count + 4] == (if count + 1 < 2 * |regs| then bs[count + 1] else Crc.Checksum(Head(o, 2 * |regs|) + bs)[0])
  {
    hide Crc.Checksum, RegistersOf;
    AnswerParts(o, regs, count);
    var w, bs := Recounted(o, regs, count), RegisterBytes(regs);
    var body := Head(o, count) + bs[..count];
    var v := w[..count + 5];
    assert v[0] == o.unit && v[1] == FunctionOf(o) && v[2] == count;
    assert BodyLength(v) == count + 3;
    assert v[..count + 3] == body;
    assert v[count + 3..] == w[count + 3..count + 5];
    assert body[3..] == bs[..count];
    assert [] + body == body;
  }

  /** A count that leaves out at least two bytes is accepted if those behind the packet happen to be its checksum. */
  lemma {:induction false} ShorterCountIsAccepted(c: Client, o: Order, regs: seq<u16>, count: byte, followUps: seq<Order>)
    requires Waits(c) && c.active.Some? && o == c.active.value.order && IsRead(o) && |regs| <= 127
    requires count + 2 <= 2 * |regs|
    requires var bs := RegisterBytes(regs); Crc.Checksum(Head(o, count) + bs[..count]) == bs[count..count + 2]
    ensures c.log.finished + [Finish(c.active.value, Registers(RegistersOf(RegisterBytes(regs)[..count])))]
            <= Feed(c, Recounted(o, regs, count), |Recounted(o, regs, count)|, followUps).log.finished
    ensures !Refused(c, Recounted(o, regs, count), followUps)
  {
    hide Crc.Checksum, Inv, Feed, RegistersOf, Complete, Decode, Answers;
    var w, bs := Recounted(o, regs, count), RegisterBytes(regs);
    ShorterPacket(o, regs, count);
    Pair(w, count + 3);
    Pair(bs, count);
    FirstPacket(c, w, count + 5, followUps);
  }

  function Zeros(n: nat): (s: seq<byte>)
    ensures |s| == n
  {
    seq(n, _ => 0)
  }

  lemma TwoBytesAreOne(bs: seq<byte>)
    requires |bs| >= 2
    ensures RegistersOf(bs) == [ToUInt16(bs[0], bs[1])] + RegistersOf(bs[2..])
  {
  }

  lemma OneIsTwoBytes(reg: u16, regs: seq<u16>)
    ensures RegisterBytes([reg] + regs) == [Msb(reg), Lsb(reg)] + RegisterBytes(regs)
  {
    assert ([reg] + regs)[1..] == regs;
  }

  lemma NoBytes()
    ensures RegistersOf([]) == [] && RegisterBytes([]) == []
  {
  }

  lemma {:induction false} BytesRoundTrip(bs: seq<byte>, n: nat)
    requires |bs| == 2 * n
    ensures |RegistersOf(bs)| == n && RegisterBytes(RegistersOf(bs)) == bs
    decreases n
  {
    hide RegistersOf, RegisterBytes, ToUInt16, Msb, Lsb;
    if n == 0 {
      NoBytes();
    } else {
      var reg, rest := ToUInt16(bs[0], bs[1]), bs[2..];
      JoinSplit(0, bs[0], bs[1]);
      BytesRoundTrip(rest, n - 1);
      TwoBytesAreOne(bs);
      OneIsTwoBytes(reg, RegistersOf(rest));
      assert bs == [bs[0], bs[1]] + rest;
    }
  }

  /** Registers for which a count that leaves out at least two bytes is accepted. */
  lemma {:induction false} SomeAreAccepted(o: Order, n: nat, count: byte) returns (regs: seq<u16>)
    requires n <= 127 && count + 2 <= 2 * n
    ensures |regs| == n
    ensures var bs := RegisterBytes(regs); |bs| == 2 * n && Crc.Checksum(Head(o, count) + bs[..count]) == bs[count..count + 2]
  {
    hide Crc.Checksum;
    var check := Crc.Checksum(Head(o, count) + Zeros(count));
    TwoBytes(Head(o, count) + Zeros(count));
    var bs := Zeros(count) + check + Zeros(2 * n - count - 2);
    BytesRoundTrip(bs, n);
    regs := RegistersOf(bs);
    assert bs[..count] == Zeros(count) && bs[count..count + 2] == check;
  }

  // ---- A count that leaves out one byte. ----

  /** Without data, the answers with this count and with one less would have checksums that start alike. */
  predicate Slips(o: Order, n: nat)
    requires 0 < n <= 127
  {
    Crc.Checksum(Head(o, 2 * n) + Zeros(2 * n))[0] == Crc.Checksum(Head(o, 2 * n - 1) + Zeros(2 * n))[0]
  }

  /** The checksum of the shorter packet is the last data byte and the first byte of the checksum that was sent. */
  lemma {:induction false} OneByteLess(o: Order, n: nat, bs: seq<byte>)
    requires 0 < n <= 127 && |bs| == 2 * n
    ensures var body := Head(o, 2 * n - 1) + bs[..2 * n - 1];
            Crc.Checksum(body) == [bs[2 * n - 1], Crc.Checksum(Head(o, 2 * n) + bs)[0]]
            <==> Slips(o, n) && Crc.Checksum(body)[0] == bs[2 * n - 1]
  {
    hide Crc.Checksum;
    var body, last := Head(o, 2 * n - 1) + bs[..2 * n - 1], bs[2 * n - 1];
    TwoBytes(body);
    TwoBytes(Head(o, 2 * n) + bs);
    Crc.ChecksumStartAgrees(Head(o, 2 * n), Head(o, 2 * n - 1), bs, Zeros(2 * n));
    Crc.OwnFirstByte(body);
    assert body + [last] == Head(o, 2 * n - 1) + bs;
    if Crc.Checksum(body)[0] == last {
      assert Crc.Checksum(body) == [last, Crc.Checksum(body)[1]];
    }
  }

  lemma {:induction false} OneByteLessIsJudged(c: Client, o: Order, regs: seq<u16>, followUps: seq<Order>)
    requires Waits(c) && c.active.Some? && o == c.active.value.order && IsRead(o) && 0 < |regs| <= 127
    ensures var n, bs := |regs|, RegisterBytes(regs);
            Refused(c, Recounted(o, regs, 2 * n - 1), followUps)
            <==> !(Slips(o, n) && Crc.Checksum(Head(o, 2 * n - 1) + bs[..2 * n - 1])[0] == bs[2 * n - 1])
  {
    hide Crc.Checksum, Inv, Feed, RegistersOf, Complete, Decode, Answers, Slips, HandleByte;
    var n, bs := |regs|, RegisterBytes(regs);
    var w := Recounted(o, regs, 2 * n - 1);
    ShorterPacket(o, regs, 2 * n - 1);
    OneByteLess(o, n, bs);
    Pair(w, 2 * n + 2);
    FirstPacket(c, w, 2 * n + 4, followUps);
    if !Answers(w[..2 * n + 4], [], o) {
      var d := Feed(c, w, 2 * n + 4, followUps);
      FeedStep(c, w, 2 * n + 5, followUps);
      assert d.log.heard + [w[2 * n + 4]] == [w[2 * n + 4]];
      ByteTakenIn(d, w[2 * n + 4], followUps);
    }
  }

  lemma {:induction false} OneSlips(o: Order, n: nat) returns (regs: seq<u16>)
    requires 0 < n <= 127
    ensures |regs| == n
    ensures var bs := RegisterBytes(regs); |bs| == 2 * n && Crc.Checksum(Head(o, 2 * n - 1) + bs[..2 * n - 1])[0] == bs[2 * n - 1]
  {
    hide Crc.Checksum;
    TwoBytes(Head(o, 2 * n - 1) + Zeros(2 * n - 1));
    var last := Crc.Checksum(Head(o, 2 * n - 1) + Zeros(2 * n - 1))[0];
    var bs := Zeros(2 * n - 1) + [last];
    BytesRoundTrip(bs, n);
    regs := RegistersOf(bs);
    assert bs[..2 * n - 1] == Zeros(2 * n - 1);
  }

  ghost predicate AlwaysRefused(c: Client, o: Order, n: nat, count: byte, followUps: seq<Order>)
    requires Inv(c) && IsRead(o) && n <= 127
  {
    forall regs | |regs| == n :: Refused(c, Recounted(o, regs, count), followUps)
  }

  /**
   A wrong byte count is refused for every payload if and only if it does not frame a shorter packet: one
   that leaves out at least two bytes, or a single one where the checksums slip.
   */
  lemma {:induction false} WrongCountIsRefused(c: Client, o: Order, n: nat, count: byte, followUps: seq<Order>)
    requires Waits(c) && c.active.Some? && o == c.active.value.order && IsRead(o) && n <= 127 && count != 2 * n
    ensures AlwaysRefused(c, o, n, count, followUps) <==> !(count + 2 <= 2 * n || (count + 1 == 2 * n && Slips(o, n)))
  {
    hide Refused, Recounted, Inv, Slips, Crc.Checksum;
    if count > 2 * n {
      forall regs: seq<u16> | |regs| == n ensures Refused(c, Recounted(o, regs, count), followUps) {
        LongerCountWaits(c, o, regs, count, followUps);
      }
    } else if count + 2 <= 2 * n {
      var regs := SomeAreAccepted(o, n, count);
      ShorterCountIsAccepted(c, o, regs, count, followUps);
      assert !AlwaysRefused(c, o, n, count, followUps);
    } else if Slips(o, n) {
      var regs := OneSlips(o, n);
      OneByteLessIsJudged(c, o, regs, followUps);
      assert !AlwaysRefused(c, o, n, count, followUps);
    } else {
      forall regs: seq<u16> | |regs| == n ensures Refused(c, Recounted(o, regs, count), followUps) {
        OneByteLessIsJudged(c, o, regs, followUps);
      }
    }
  }

  /** It does slip: some answers to a read of 12 registers are accepted with one byte less. */
  lemma {:induction false} TwelveRegistersSlip(c: Client, o: Order, followUps: seq<Order>)
    requires Waits(c) && c.active.Some? && o == c.active.value.order && IsRead(o)
    ensures Slips(o, 12) && !AlwaysRefused(c, o, 12, 23, followUps)
  {
    hide Crc.Checksum, Inv, AlwaysRefused;
    var p := [o.unit, FunctionOf(o)];
    assert p + [24] == Head(o, 24) && p + [23] == Head(o, 23);
    Crc.TwentyFourAndOneLess(p, Zeros(24));
    WrongCountIsRefused(c, o, 12, 23, followUps);
  }

  // ---- Where an answer can be corrupted unnoticed. ----

  /** An answer turned into an exception is accepted if its first two data bytes happen to be the checksum. */
  lemma {:induction false} TurnedIntoException(c: Client, o: Order, n: nat, followUps: seq<Order>) returns (regs: seq<u16>)
    requires Waits(c) && c.active.Some? && o == c.active.value.order && IsRead(o) && 0 < n <= 127
    ensures |regs| == n && |AnswerTo(o, regs)| == 2 * n + 5
    ensures !Refused(c, AnswerTo(o, regs)[1 := FunctionOf(o) + 0x80], followUps)
  {
    hide Crc.Checksum, Inv, Feed, Decode, Complete, Answers;
    var body := [o.unit, FunctionOf(o) + 0x80, 2 * n];
    var check := Crc.Checksum(body);
    TwoBytes(body);
    var bs := check + Zeros(2 * n - 2);
    BytesRoundTrip(bs, n);
    regs := RegistersOf(bs);
    AnswerParts(o, regs, 0);
    var w := AnswerTo(o, regs)[1 := FunctionOf(o) + 0x80];
    assert w[..5] == body + check;
    FramesException(o, 2 * n);
    FirstPacket(c, w, 5, followUps);
  }

  ghost predicate NoneAccepted(c: Client, o: Order, n: nat, k: nat, followUps: seq<Order>)
    requires Inv(c) && IsRead(o) && n <= 127
  {
    forall regs, w | |regs| == n && CorruptedAt(w, AnswerTo(o, regs), k) :: Refused(c, w, followUps)
  }

  /**
   Corruption of two adjacent bytes from address to data is refused for all answers of a length if and only
   if it lies behind the byte count: in front of that it can change the length that is framed.
   */
  lemma {:induction false} CorruptionByPosition(c: Client, o: Order, n: nat, k: nat, followUps: seq<Order>)
    requires Waits(c) && c.active.Some? && o == c.active.value.order && IsRead(o) && 0 < n <= 127
    ensures NoneAccepted(c, o, n, k, followUps) <==> k >= 3
  {
    hide Refused, Inv, Crc.Checksum, Feed;
    if k >= 3 {
      forall regs, w | |regs| == n && CorruptedAt(w, AnswerTo(o, regs), k) ensures Refused(c, w, followUps) {
        var r := ReadResponse(o.unit, FunctionOf(o), regs);
        AnswerParts(o, regs, 0);
        assert w[1] == Wire(r)[1] && w[2] == Wire(r)[2];
        CorruptionIsRejected(c, r, w, k, followUps);
      }
    } else if k == 0 {
      var regs := TurnedIntoException(c, o, n, followUps);
      var v := AnswerTo(o, regs);
      AnswerParts(o, regs, 0);
      IsCorrupted(v, 1, FunctionOf(o) + 0x80, k);
      assert !NoneAccepted(c, o, n, k, followUps);
    } else {
      var regs := SomeAreAccepted(o, n, 2 * n - 2);
      ShorterCountIsAccepted(c, o, regs, 2 * n - 2, followUps);
      var v := AnswerTo(o, regs);
      AnswerParts(o, regs, 0);
      IsCorrupted(v, 2, 2 * n - 2, k);
      assert !NoneAccepted(c, o, n, k, followUps);
    }
  }

  predicate IsWrite(o: Order) {
    o.WriteSingle? || o.WriteMultiple?
  }

  /** The answer to a write with these two words; the client compares neither with its request. */
  function WriteAnswer(o: Order, reg: u16, word: u16): (r: Response)
    requires IsWrite(o)
    ensures ValidResponse(r)
  {
    if o.WriteSingle? then SingleResponse(o.unit, reg, word) else MultipleResponse(o.unit, reg, word)
  }

  lemma WriteParts(o: Order, reg: u16, word: u16)
    requires IsWrite(o)
    ensures var r := WriteAnswer(o, reg, word);
            && Fits(r, o) && |Wire(r)| == 8
            && Wire(r)[..6] == [o.unit, FunctionOf(o), Msb(reg), Lsb(reg), Msb(word), Lsb(word)]
  {
    hide Crc.Checksum;
    var r := WriteAnswer(o, reg, word);
    TwoBytes(Body(r));
  }

  ghost predicate NoWriteAccepted(c: Client, o: Order, k: nat, followUps: seq<Order>)
    requires Inv(c) && IsWrite(o)
  {
    forall reg, word, w | CorruptedAt(w, Wire(WriteAnswer(o, reg, word)), k) :: Refused(c, w, followUps)
  }

  /** Turned into an exception, an answer to a write is accepted if the bytes behind that are its checksum. */
  lemma {:induction false} WriteTurnedIntoException(c: Client, o: Order, followUps: seq<Order>) returns (reg: u16, word: u16)
    requires Waits(c) && c.active.Some? && o == c.active.value.order && IsWrite(o)
    ensures var v := Wire(WriteAnswer(o, reg, word));
            |v| == 8 && v[1] == FunctionOf(o) && !Refused(c, v[1 := FunctionOf(o) + 0x80], followUps)
  {
    hide Crc.Checksum, Inv, Feed, Decode, Wire, WriteAnswer, Complete, Answers, ToUInt16;
    var body := [o.unit, FunctionOf(o) + 0x80, 0];
    var check := Crc.Checksum(body);
    TwoBytes(body);
    JoinSplit(0, 0, check[0]);
    JoinSplit(0, check[1], 0);
    reg, word := ToUInt16(0, check[0]), ToUInt16(check[1], 0);
    WriteParts(o, reg, word);
    var v := Wire(WriteAnswer(o, reg, word));
    var w := v[1 := FunctionOf(o) + 0x80];
    assert forall i | 0 <= i < 6 :: v[i] == v[..6][i];
    assert w[..5] == body + check;
    FramesException(o, 0);
    FirstPacket(c, w, 5, followUps);
  }

  lemma FramesException(o: Order, code: byte)
    ensures var body := [o.unit, FunctionOf(o) + 0x80, code];
            Complete(body + Crc.Checksum(body)) && Answers(body + Crc.Checksum(body), [], o)
  {
    hide Crc.Checksum;
    var body := [o.unit, FunctionOf(o) + 0x80, code];
    var w := body + Crc.Checksum(body);
    TwoBytes(body);
    assert w[1] == FunctionOf(o) + 0x80 && BodyLength(w) == 3;
    assert w[..3] == body && w[3..] == Crc.Checksum(body);
    assert [] + body == body;
  }

  /**
   For the answers to a write, corruption of two adjacent bytes is refused if and only if it lies behind the
   function code: turned into an exception, an answer frames a shorter packet.
   */
  lemma {:induction false} WriteCorruptionByPosition(c: Client, o: Order, k: nat, followUps: seq<Order>)
    requires Waits(c) && c.active.Some? && o == c.active.value.order && IsWrite(o)
    ensures NoWriteAccepted(c, o, k, followUps) <==> k >= 2
  {
    hide Refused, Inv, Crc.Checksum, Feed, Wire, WriteAnswer;
    if k >= 2 {
      forall reg, word, w | CorruptedAt(w, Wire(WriteAnswer(o, reg, word)), k) ensures Refused(c, w, followUps) {
        var r := WriteAnswer(o, reg, word);
        WriteParts(o, reg, word);
        assert w[1] == Wire(r)[1] == Wire(r)[..6][1];
        CorruptionIsRejected(c, r, w, k, followUps);
      }
    } else {
      var reg, word := WriteTurnedIntoException(c, o, followUps);
      IsCorrupted(Wire(WriteAnswer(o, reg, word)), 1, FunctionOf(o) + 0x80, k);
      assert !NoWriteAccepted(c, o, k, followUps);
    }
  }

  /** Fewer than five bytes finish nothing. */
  lemma {:induction false} FewBytes(c: Client, w: seq<byte>, n: nat, m: nat, followUps: seq<Order>)
    requires Inv(c) && n <= m <= |w| && m <= n + 4
    requires var d := Feed(c, w, n, followUps); d.log.stray == [] && d.log.heard == []
    ensures var d := Feed(c, w, m, followUps);
            d.log.finished == Feed(c, w, n, followUps).log.finished && |d.log.stray + d.log.heard| <= m - n
    decreases m
  {
    hide Inv, HandleByte, Answers;
    if n < m {
      FewBytes(c, w, n, m - 1, followUps);
      var before := Feed(c, w, m - 1, followUps);
      var b := w[m - 1];
      StepBytes(before, Received(b, followUps));
      ReceivedIsGood(before, b, followUps);
      FeedStep(c, w, m, followUps);
      AnswerIsLong(before.log.heard + [b], before);
    }
  }

  lemma AnswerIsLong(w: seq<byte>, c: Client)
    ensures c.active.Some? && Answers(w, c.log.stray, c.active.value.order) ==> |w| >= 5
  {
  }

  /** An exception is the shortest answer: corrupted anywhere in two adjacent bytes it is refused. */
  lemma {:induction false} CorruptedExceptionIsRefused(c: Client, r: Response, w: seq<byte>, k: nat, followUps: seq<Order>)
    requires Waits(c) && ValidResponse(r) && r.ExceptionResponse? && CorruptedAt(w, Wire(r), k)
    ensures Refused(c, w, followUps)
  {
    hide Inv, Crc.Checksum, Feed;
    TwoBytes(Body(r));
    if Complete(w) {
      CorruptionIsRejected(c, r, w, k, followUps);
    } else if KnownFunction(w[1]) {
      assert w[..|w|] == w;
      FeedPartial(c, w, |w|, followUps);
    } else {
      FeedPartial(c, w, 1, followUps);
      var d := Feed(c, w, 1, followUps);
      FeedStep(c, w, 2, followUps);
      RejectedFunction(d, w[1], followUps);
      FewBytes(c, w, 2, |w|, followUps);
    }
  }

  lemma IsCorrupted(v: seq<byte>, i: nat, b: byte, k: nat)
    requires i < |v| - 2 && v[i] != b && k <= i <= k + 1
    ensures CorruptedAt(v[i := b], v, k)
  {
    assert v[i := b][|v| - 2..] == v[|v| - 2..];
  }
}
