/** However the network splits a stream of replies, the client makes the same calls, up to one exception. */
module TcpFraming {
  import opened Bytes
  import opened Modbus
  import opened TcpModel

  /** A response under the id of its request. */
  datatype Answer = Answer(tid: u16, response: Response)

  function Mbap(tid: u16, length: u16, unit: byte): (h: seq<byte>)
    ensures |h| == 7
  {
    [Msb(tid), Lsb(tid), 0, 0, Msb(length), Lsb(length), unit]
  }

  /** The frame of MODBUS Messaging on TCP/IP V1.0b, section 3.1.3. */
  function Encode(a: Answer): (w: seq<byte>)
    requires ValidResponse(a.response)
    ensures |w| == 7 + |Pdu(a.response)|
  {
    Mbap(a.tid, |Pdu(a.response)| + 1, a.response.unit) + Pdu(a.response)
  }

  /** What a reply means to the request with its id. */
  function CallOf(a: Answer): Call {
    SetFinished(a.tid,
                match a.response
                case ReadResponse(_, _, regs) => Values(regs)
                case SingleResponse(_, _, value) => Values([value])
                case MultipleResponse(_, _, _) => Values([])
                case ExceptionResponse(_, _, code) => Error(code))
  }

  predicate AllWellFormed(answers: seq<Answer>) {
    forall i | 0 <= i < |answers| :: ValidResponse(answers[i].response)
  }

  function EncodeAll(answers: seq<Answer>): seq<byte>
    requires AllWellFormed(answers)
  {
    if answers == [] then [] else Encode(answers[0]) + EncodeAll(answers[1..])
  }

  /** The call made when the frame of a is in front; alone says that nothing is behind it. */
  function CallWithin(a: Answer, alone: bool): Call {
    if a.response.MultipleResponse? && !alone then SetFinished(a.tid, Error(PARSE_ERROR)) else CallOf(a)
  }

  lemma {:induction false} RegistersAtEncoded(buf: seq<byte>, i0: nat, regs: seq<u16>)
    requires i0 + 2 * |regs| <= |buf| && buf[i0..i0 + 2 * |regs|] == RegisterBytes(regs)
    ensures RegistersAt(buf, i0, i0 + 2 * |regs|) == regs
    decreases |regs|
  {
    if regs != [] {
      var bs := RegisterBytes(regs);
      var sub := buf[i0..i0 + 2 * |regs|];
      assert sub[0] == buf[i0] && sub[1] == buf[i0 + 1] && bs[0] == Msb(regs[0]) && bs[1] == Lsb(regs[0]);
      JoinSplit(regs[0], 0, 0);
      assert buf[i0 + 2..i0 + 2 * |regs|] == sub[2..] == bs[2..] == RegisterBytes(regs[1..]);
      RegistersAtEncoded(buf, i0 + 2, regs[1..]);
      assert regs == [regs[0]] + regs[1..];
    }
  }

  /** What the loop reads from a buffer that begins with a header. */
  lemma MbapFields(tid: u16, length: u16, unit: byte, more: seq<byte>)
    ensures var buf := Mbap(tid, length, unit) + more;
            && ToUInt16(buf[0], buf[1]) == tid && FrameLength(buf) == length + 6
            && (|more| + 1 >= length ==> HasFrame(buf))
  {
    JoinSplit(length, 0, 0);
    JoinSplit(tid, 0, 0);
    var buf := Mbap(tid, length, unit) + more;
    assert buf[0] == Msb(tid) && buf[1] == Lsb(tid) && buf[4] == Msb(length) && buf[5] == Lsb(length);
    hide ToUInt16, Msb, Lsb;
  }

  lemma HeaderOf(a: Answer, rest: seq<byte>)
    requires ValidResponse(a.response)
    ensures var buf := Encode(a) + rest;
            && HasFrame(buf) && FrameLength(buf) == |Encode(a)| && buf[|Encode(a)|..] == rest
            && ToUInt16(buf[0], buf[1]) == a.tid && |buf| == 7 + |Pdu(a.response)| + |rest|
            && forall i | 0 <= i < |Pdu(a.response)| :: buf[7 + i] == Pdu(a.response)[i]
  {
    hide Pdu, Mbap, HasFrame, FrameLength, ToUInt16;
    var h, p := Mbap(a.tid, |Pdu(a.response)| + 1, a.response.unit), Pdu(a.response);
    MbapFields(a.tid, |p| + 1, a.response.unit, p + rest);
    assert Encode(a) + rest == h + (p + rest);
  }

  /** One frame in front of the buffer leads to exactly one call. */
  lemma DispatchEncoded(a: Answer, rest: seq<byte>)
    requires ValidResponse(a.response)
    ensures HasFrame(Encode(a) + rest)
    ensures Dispatch(Encode(a) + rest) == [CallWithin(a, rest == [])]
  {
    hide *;
    HeaderOf(a, rest);
    var buf := Encode(a) + rest;
    match a.response {
      case ReadResponse(_, _, _) => DispatchRead(a, buf, rest == []);
      case SingleResponse(_, _, _) => DispatchSingle(a, buf, rest == []);
      case MultipleResponse(_, _, _) => DispatchMultiple(a, buf, rest);
      case ExceptionResponse(_, _, _) => DispatchException(a, buf, rest == []);
    }
  }

  lemma DispatchMultiple(a: Answer, buf: seq<byte>, rest: seq<byte>)
    requires a.response.MultipleResponse? && HasFrame(buf) && |buf| == 7 + |Pdu(a.response)| + |rest|
    requires ToUInt16(buf[0], buf[1]) == a.tid
    requires forall i | 0 <= i < |Pdu(a.response)| :: buf[7 + i] == Pdu(a.response)[i]
    ensures Dispatch(buf) == [CallWithin(a, rest == [])]
  {
    hide HasFrame, ToUInt16, RegistersAt, FrameLength;
    assert Pdu(a.response)[0] == 16;
    assert buf[7] == 16;
  }

  lemma DispatchException(a: Answer, buf: seq<byte>, alone: bool)
    requires ValidResponse(a.response) && a.response.ExceptionResponse? && HasFrame(buf) && |buf| >= 7 + |Pdu(a.response)|
    requires ToUInt16(buf[0], buf[1]) == a.tid
    requires forall i | 0 <= i < |Pdu(a.response)| :: buf[7 + i] == Pdu(a.response)[i]
    ensures Dispatch(buf) == [CallWithin(a, alone)]
  {
    hide HasFrame, ToUInt16, RegistersAt, FrameLength;
    assert Pdu(a.response)[0] == a.response.fn + 0x80 && Pdu(a.response)[1] == a.response.code;
    assert buf[7] == a.response.fn + 0x80 && buf[8] == a.response.code;
  }

  lemma DispatchRead(a: Answer, buf: seq<byte>, alone: bool)
    requires ValidResponse(a.response) && a.response.ReadResponse? && HasFrame(buf) && |buf| >= 7 + |Pdu(a.response)|
    requires FrameLength(buf) == 7 + |Pdu(a.response)| && ToUInt16(buf[0], buf[1]) == a.tid
    requires forall i | 0 <= i < |Pdu(a.response)| :: buf[7 + i] == Pdu(a.response)[i]
    ensures Dispatch(buf) == [CallWithin(a, alone)]
  {
    hide HasFrame, FrameLength, ToUInt16;
    var regs := a.response.regs;
    assert Pdu(a.response)[0] == a.response.fn && Pdu(a.response)[1] == 2 * |regs|;
    assert buf[7 + 0] == a.response.fn && buf[7 + 1] == 2 * |regs|;
    forall k | 0 <= k < 2 * |regs|
      ensures buf[9 + k] == RegisterBytes(regs)[k]
    {
      assert buf[7 + (k + 2)] == Pdu(a.response)[k + 2];
    }
    assert buf[9..9 + 2 * |regs|] == RegisterBytes(regs);
    RegistersAtEncoded(buf, 9, regs);
    hide RegistersAt, RegisterBytes;
  }

  lemma DispatchSingle(a: Answer, buf: seq<byte>, alone: bool)
    requires ValidResponse(a.response) && a.response.SingleResponse? && HasFrame(buf) && |buf| >= 7 + |Pdu(a.response)|
    requires ToUInt16(buf[0], buf[1]) == a.tid
    requires forall i | 0 <= i < |Pdu(a.response)| :: buf[7 + i] == Pdu(a.response)[i]
    ensures Dispatch(buf) == [CallWithin(a, alone)]
  {
    JoinSplit(a.response.value, 0, 0);
    assert Pdu(a.response)[0] == 6 && Pdu(a.response)[3] == Msb(a.response.value) && Pdu(a.response)[4] == Lsb(a.response.value);
    assert buf[7] == 6 && buf[10] == Msb(a.response.value) && buf[11] == Lsb(a.response.value);
    hide HasFrame, ToUInt16, RegistersAt, Msb, Lsb;
  }

  /** The calls for answers that are followed by tail in the buffer. */
  function CallsWithin(answers: seq<Answer>, tail: seq<byte>): (calls: seq<Call>)
    ensures |calls| == |answers|
  {
    seq(|answers|, i requires 0 <= i < |answers| => CallWithin(answers[i], i == |answers| - 1 && tail == []))
  }

  /** The loop handles the complete frames one after the other and leaves an incomplete one. */
  lemma {:induction false} DrainEncoded(answers: seq<Answer>, tail: seq<byte>)
    requires AllWellFormed(answers) && !HasFrame(tail)
    ensures Drain(EncodeAll(answers) + tail) == (CallsWithin(answers, tail), tail)
  {
    hide Encode, HasFrame, FrameLength, Pdu, Dispatch, CallWithin, ToUInt16, EncodeAll;
    if answers == [] {
      EncodeNone();
      assert [] + tail == tail;
    } else {
      var a, rest := answers[0], EncodeAll(answers[1..]) + tail;
      EncodeCons(answers);
      assert EncodeAll(answers) + tail == Encode(a) + rest;
      HeaderOf(a, rest);
      DispatchEncoded(a, rest);
      DrainEncoded(answers[1..], tail);
      assert CallsWithin(answers, tail) == [CallWithin(a, |answers| == 1 && tail == [])] + CallsWithin(answers[1..], tail);
      if |answers| > 1 {
        EncodeCons(answers[1..]);
      } else {
        EncodeNone();
      }
    }
  }

  lemma EncodeNone()
    ensures EncodeAll([]) == []
  {
  }

  lemma EncodeCons(answers: seq<Answer>)
    requires AllWellFormed(answers) && answers != []
    ensures EncodeAll(answers) == Encode(answers[0]) + EncodeAll(answers[1..])
  {
  }

  // ---- Splits. ----

  /** All calls over a list of deliveries, given the bytes that are already buffered. */
  function Calls(buf: seq<byte>, deliveries: seq<seq<byte>>): seq<Call>
    decreases deliveries
  {
    if deliveries == [] then []
    else
      var (calls, rest) := Drain(buf + deliveries[0]);
      calls + Calls(rest, deliveries[1..])
  }

  /** The positions in the stream at which deliveries end; the first one begins at position start. */
  function Cuts(start: nat, deliveries: seq<seq<byte>>): (cuts: set<nat>)
    ensures forall c | c in cuts :: c >= start
    decreases deliveries
  {
    if deliveries == [] then {}
    else
      var cut := start + |deliveries[0]|;
      {cut} + Cuts(cut, deliveries[1..])
  }

  /** The position in the stream right behind the i-th answer, if the first one begins at start. */
  function EndOf(start: nat, answers: seq<Answer>, i: nat): (e: nat)
    requires AllWellFormed(answers) && i < |answers|
    ensures e > start
    decreases i
  {
    var e := start + |Encode(answers[0])|;
    if i == 0 then e else EndOf(e, answers[1..], i - 1)
  }

  /** Every reply to a multiple write is the last thing in some delivery. */
  predicate Aligned(start: nat, answers: seq<Answer>, cuts: set<nat>)
    requires AllWellFormed(answers)
  {
    forall i | 0 <= i < |answers| :: answers[i].response.MultipleResponse? ==> EndOf(start, answers, i) in cuts
  }

  function AllCalls(answers: seq<Answer>): (calls: seq<Call>)
    ensures |calls| == |answers|
  {
    seq(|answers|, i requires 0 <= i < |answers| => CallOf(answers[i]))
  }

  lemma {:induction false} EncodeAllConcat(a: seq<Answer>, b: seq<Answer>)
    requires AllWellFormed(a) && AllWellFormed(b)
    ensures EncodeAll(a + b) == EncodeAll(a) + EncodeAll(b)
  {
    hide Encode;
    if a == [] {
      assert a + b == b;
    } else {
      assert (a + b)[0] == a[0] && (a + b)[1..] == a[1..] + b;
      EncodeAllConcat(a[1..], b);
    }
  }

  /** A proper beginning of an encoded answer is not a complete frame. */
  lemma ProperPrefixIncomplete(a: Answer, tail: seq<byte>)
    requires ValidResponse(a.response) && |tail| < |Encode(a)| && tail == Encode(a)[..|tail|]
    ensures !HasFrame(tail)
  {
    hide Encode, Pdu, ValidResponse;
    HeaderOf(a, []);
    assert Encode(a) + [] == Encode(a);
    if |tail| >= 6 {
      assert FrameLength(tail) == FrameLength(Encode(a));
    }
  }

  /** The first m bytes of a stream are n whole answers and a proper beginning of the next one. */
  lemma {:induction false} SplitStream(answers: seq<Answer>, m: nat) returns (n: nat, tail: seq<byte>)
    requires AllWellFormed(answers) && m <= |EncodeAll(answers)|
    ensures n <= |answers| && EncodeAll(answers)[..m] == EncodeAll(answers[..n]) + tail
    ensures !HasFrame(tail)
    ensures n < |answers| ==> |tail| < |Encode(answers[n])| && tail == Encode(answers[n])[..|tail|]
    ensures n == |answers| ==> tail == []
  {
    hide Encode, HasFrame, Pdu, EncodeAll, EndOf;
    EncodeNone();
    if answers == [] {
      n, tail := 0, [];
      EmptyIncomplete();
    } else {
      EncodeCons(answers);
      var w, rest := Encode(answers[0]), EncodeAll(answers[1..]);
      if m < |w| {
        n, tail := 0, w[..m];
        ProperPrefixIncomplete(answers[0], tail);
        assert (w + rest)[..m] == [] + tail;
      } else {
        n, tail := SplitStream(answers[1..], m - |w|);
        assert (w + rest)[..m] == w + rest[..m - |w|];
        EncodeCons(answers[..n + 1]);
        assert answers[..n + 1][1..] == answers[1..][..n];
        assert w + (EncodeAll(answers[1..][..n]) + tail) == (w + EncodeAll(answers[1..][..n])) + tail;
        n := n + 1;
      }
    }
  }

  lemma EmptyIncomplete()
    ensures !HasFrame([])
  {
  }

  /** Positions, relative to where the first answers begin. */
  lemma {:induction false} EndOfIs(start: nat, answers: seq<Answer>, i: nat)
    requires AllWellFormed(answers) && i < |answers|
    ensures EndOf(start, answers, i) == start + |EncodeAll(answers[..i + 1])|
    decreases i
  {
    hide Encode, EncodeAll;
    EncodeCons(answers[..i + 1]);
    assert answers[..i + 1][1..] == answers[1..][..i];
    if i > 0 {
      EndOfIs(start + |Encode(answers[0])|, answers[1..], i - 1);
    } else {
      EncodeNone();
    }
  }

  lemma EncodeAllMonotone(answers: seq<Answer>, i: nat, j: nat)
    requires AllWellFormed(answers) && i < j <= |answers|
    ensures |EncodeAll(answers[..i])| < |EncodeAll(answers[..j])|
    ensures |EncodeAll(answers[..i + 1])| == |EncodeAll(answers[..i])| + |Encode(answers[i])|
  {
    hide Encode, EncodeAll;
    EncodeLength(answers, i, j);
    EncodeLength(answers, i, i + 1);
    EncodeCons(answers[i..][..j - i]);
    EncodeCons(answers[i..][..1]);
    assert answers[i..][..1][1..] == [];
    EncodeNone();
  }

  lemma EncodeLength(a: seq<Answer>, n: nat, k: nat)
    requires AllWellFormed(a) && n <= k <= |a|
    ensures |EncodeAll(a[..k])| == |EncodeAll(a[..n])| + |EncodeAll(a[n..][..k - n])|
  {
    hide Encode, EncodeAll;
    assert a[..k] == a[..n] + a[n..][..k - n];
    EncodeAllConcat(a[..n], a[n..][..k - n]);
  }

  /** Positions do not depend on how many answers are skipped to get there. */
  lemma EndOfSkip(start: nat, answers: seq<Answer>, n: nat, i: nat)
    requires AllWellFormed(answers) && n <= i < |answers|
    ensures EndOf(start, answers, i) == EndOf(start + |EncodeAll(answers[..n])|, answers[n..], i - n)
  {
    hide Encode, EndOf, EncodeAll;
    EndOfIs(start, answers, i);
    EndOfIs(start + |EncodeAll(answers[..n])|, answers[n..], i - n);
    EncodeLength(answers, n, i + 1);
  }

  /** Among the answers completed by a delivery, only one that ends it exactly is aligned. */
  lemma AlignedInDelivery(start: nat, answers: seq<Answer>, n: nat, tail: seq<byte>, i: nat)
    requires AllWellFormed(answers) && n <= |answers| && i < n
    ensures var end := start + |EncodeAll(answers[..n])|;
            && EndOf(start, answers, i) <= end
            && (EndOf(start, answers, i) == end + |tail| <==> i == n - 1 && tail == [])
  {
    hide Encode, EndOf, EncodeAll;
    EndOfIs(start, answers, i);
    if i + 1 < n {
      EncodeAllMonotone(answers, i + 1, n);
    }
  }

  /** An answer that a delivery leaves incomplete ends behind it. */
  lemma BehindDelivery(start: nat, answers: seq<Answer>, n: nat, tail: seq<byte>, i: nat)
    requires AllWellFormed(answers) && n <= i < |answers| && |tail| < |Encode(answers[n])|
    ensures EndOf(start, answers, i) > start + |EncodeAll(answers[..n])| + |tail|
  {
    hide Encode, EndOf, EncodeAll, AllWellFormed;
    EndOfIs(start, answers, i);
    PrefixWellFormed(answers, n);
    PrefixWellFormed(answers, n + 1);
    PrefixWellFormed(answers, i + 1);
    EncodeAllMonotone(answers, n, n + 1);
    if n < i {
      EncodeAllMonotone(answers, n + 1, i + 1);
    }
  }

  lemma PrefixWellFormed(answers: seq<Answer>, n: nat)
    requires AllWellFormed(answers) && n <= |answers|
    ensures AllWellFormed(answers[..n]) && (n < |answers| ==> ValidResponse(answers[n].response))
  {
  }

  lemma AlignedSplits(start: nat, answers: seq<Answer>, n: nat, tail: seq<byte>, cuts: set<nat>)
    requires AllWellFormed(answers) && n <= |answers|
    requires n < |answers| ==> |tail| < |Encode(answers[n])|
    requires n == |answers| ==> tail == []
    requires var cut := start + |EncodeAll(answers[..n])| + |tail|; forall c | c in cuts :: c >= cut
    ensures var end := start + |EncodeAll(answers[..n])|;
            Aligned(start, answers, {end + |tail|} + cuts) <==>
            && (forall i | 0 <= i < n :: answers[i].response.MultipleResponse? ==> i == n - 1 && tail == [])
            && Aligned(end, answers[n..], cuts)
  {
    hide Encode, EndOf, EncodeAll;
    var end := start + |EncodeAll(answers[..n])|;
    var all := {end + |tail|} + cuts;
    forall i | 0 <= i < n
      ensures EndOf(start, answers, i) in all <==> i == n - 1 && tail == []
    {
      AlignedInDelivery(start, answers, n, tail, i);
    }
    forall i | n <= i < |answers|
      ensures EndOf(start, answers, i) in all <==> EndOf(end, answers[n..], i - n) in cuts
    {
      EndOfSkip(start, answers, n, i);
      BehindDelivery(start, answers, n, tail, i);
    }
    assert forall j | 0 <= j < |answers[n..]| :: answers[n..][j] == answers[n + j];
    if Aligned(start, answers, all) {
      assert forall j | 0 <= j < |answers[n..]| && answers[n..][j].response.MultipleResponse? :: EndOf(start, answers, n + j) in all;
    }
  }

  lemma CallsSplit(answers: seq<Answer>, n: nat, tail: seq<byte>, more: seq<Call>)
    requires n <= |answers|
    ensures CallsWithin(answers[..n], tail) + more == AllCalls(answers) <==>
            && (forall i | 0 <= i < n :: answers[i].response.MultipleResponse? ==> i == n - 1 && tail == [])
            && more == AllCalls(answers[n..])
  {
    var first := CallsWithin(answers[..n], tail);
    assert AllCalls(answers) == AllCalls(answers[..n]) + AllCalls(answers[n..]);
    assert forall i | 0 <= i < n ::
        first[i] == AllCalls(answers[..n])[i] <==> (answers[i].response.MultipleResponse? ==> i == n - 1 && tail == []);
    if first + more == AllCalls(answers) {
      assert (first + more)[..n] == first && (first + more)[n..] == more;
      assert AllCalls(answers)[..n] == AllCalls(answers[..n]) && AllCalls(answers)[n..] == AllCalls(answers[n..]);
    } else if first == AllCalls(answers[..n]) {
      assert more != AllCalls(answers[n..]);
    }
  }

  /**
   For every stream of well-formed replies and every way to split it into deliveries, the client makes
   the same calls as if each reply came alone if and only if every reply to a multiple write ends a
   delivery. In particular the split never matters to the other replies. buf is what is buffered.
   */
  lemma {:induction false} SplitInvariance(start: nat, answers: seq<Answer>, buf: seq<byte>, deliveries: seq<seq<byte>>)
    requires AllWellFormed(answers) && !HasFrame(buf)
    requires buf + Flatten(deliveries) == EncodeAll(answers)
    requires if answers == [] then buf == [] else |buf| < |Encode(answers[0])|
    ensures Calls(buf, deliveries) == AllCalls(answers) <==> Aligned(start, answers, Cuts(start + |buf|, deliveries))
    decreases deliveries
  {
    hide Encode, HasFrame, EndOf, Aligned, AllCalls, CallsWithin, EncodeAll, Drain, Pdu, ValidResponse;
    if deliveries == [] {
      if answers != [] {
        FirstFits(answers);
      }
      NoAnswers(start);
    } else {
      var d := deliveries[0];
      assert (buf + d) + Flatten(deliveries[1..]) == buf + Flatten(deliveries);
      var n, tail := OneDelivery(answers, buf + d, Flatten(deliveries[1..]));
      var end := start + |EncodeAll(answers[..n])|;
      SplitInvariance(end, answers[n..], tail, deliveries[1..]);
      AlignedSplits(start, answers, n, tail, Cuts(end + |tail|, deliveries[1..]));
      CallsSplit(answers, n, tail, Calls(tail, deliveries[1..]));
    }
  }

  lemma FirstFits(answers: seq<Answer>)
    requires AllWellFormed(answers) && answers != []
    ensures |EncodeAll(answers)| >= |Encode(answers[0])|
  {
  }

  /** What one delivery does: n answers are complete with it, and tail stays behind. */
  lemma OneDelivery(answers: seq<Answer>, buf: seq<byte>, more: seq<byte>) returns (n: nat, tail: seq<byte>)
    requires AllWellFormed(answers) && buf + more == EncodeAll(answers)
    ensures n <= |answers| && !HasFrame(tail) && |buf| == |EncodeAll(answers[..n])| + |tail|
    ensures Drain(buf) == (CallsWithin(answers[..n], tail), tail)
    ensures tail + more == EncodeAll(answers[n..])
    ensures if n < |answers| then |tail| < |Encode(answers[n])| else tail == []
  {
    hide Encode, HasFrame, EncodeAll, Drain, CallsWithin;
    n, tail := SplitStream(answers, |buf|);
    assert EncodeAll(answers)[..|buf|] == buf;
    DrainEncoded(answers[..n], tail);
    assert answers[..n] + answers[n..] == answers;
    EncodeAllConcat(answers[..n], answers[n..]);
    var w := EncodeAll(answers[..n]);
    assert (w + tail) + more == w + (tail + more);
    Cancel(w, tail + more, EncodeAll(answers[n..]));
  }

  lemma Cancel(a: seq<byte>, b: seq<byte>, c: seq<byte>)
    requires a + b == a + c
    ensures b == c
  {
    assert b == (a + b)[|a|..] && c == (a + c)[|a|..];
  }

  lemma NoAnswers(start: nat)
    ensures AllCalls([]) == [] && Aligned(start, [], {})
  {
  }

  /** Without replies to multiple writes, no split matters. */
  lemma SplitNeverMatters(answers: seq<Answer>, deliveries: seq<seq<byte>>)
    requires AllWellFormed(answers) && Flatten(deliveries) == EncodeAll(answers)
    requires forall i | 0 <= i < |answers| :: !answers[i].response.MultipleResponse?
    ensures Calls([], deliveries) == AllCalls(answers)
  {
    hide Encode, EndOf;
    assert [] + Flatten(deliveries) == EncodeAll(answers);
    EmptyIncomplete();
    SplitInvariance(0, answers, [], deliveries);
  }

  /** Two replies to multiple writes in one delivery: the first one is reported as a parse error. */
  lemma TwoMultipleAnswersInOneDelivery(a: Answer, b: Answer)
    requires a.response.MultipleResponse? && b.response.MultipleResponse?
    ensures Calls([], [EncodeAll([a, b])]) == [SetFinished(a.tid, Error(PARSE_ERROR)), CallOf(b)]
  {
    hide Encode;
    EmptyIncomplete();
    DrainEncoded([a, b], []);
    assert [] + EncodeAll([a, b]) == EncodeAll([a, b]) + [];
  }

  /** A frame without a function code is dropped, if nothing is behind it. */
  lemma ShortFrameIsDropped(buf: seq<byte>)
    requires 6 <= |buf| <= 7 && ToUInt16(buf[4], buf[5]) == |buf| - 6
    ensures Drain(buf) == ([], [])
  {
    assert FrameLength(buf) == |buf| && HasFrame(buf);
    var rest := buf[FrameLength(buf)..];
    assert rest == [];
    assert At(buf, 7) == 0;
    var calls := Dispatch(buf);
    assert calls == [];
    assert Drain(rest) == ([], rest);
    assert calls + [] == [];
  }

  /**
   What a frame on its own leads to when it is not a well-formed reply: a parse error, 253, if its size does not fit its
   function, or an exception has no code; nothing if its function is none of those that were asked for.
   */
  lemma MalformedFrame(buf: seq<byte>)
    requires |buf| >= 8 && ToUInt16(buf[4], buf[5]) == |buf| - 6
    ensures HasFrame(buf) && FrameLength(buf) == |buf|
    ensures var tid, fn := ToUInt16(buf[0], buf[1]), buf[7];
            && ((fn == 3 || fn == 4) && (|buf| == 8 || |buf| - 9 != buf[8]) ==> Dispatch(buf) == [SetFinished(tid, Error(253))])
            && (fn == 6 && |buf| < 12 ==> Dispatch(buf) == [SetFinished(tid, Error(253))])
            && (fn == 6 && |buf| >= 12 ==> Dispatch(buf) == [SetFinished(tid, Values([ToUInt16(buf[10], buf[11])]))])
            && (fn == 16 && |buf| != 12 ==> Dispatch(buf) == [SetFinished(tid, Error(253))])
            && (fn >= 0x80 && |buf| == 8 ==> Dispatch(buf) == [SetFinished(tid, Error(253))])
            && (fn < 0x80 && fn !in {3, 4, 6, 16} ==> Dispatch(buf) == [])
  {
    hide RegistersAt, ToUInt16;
  }
}
