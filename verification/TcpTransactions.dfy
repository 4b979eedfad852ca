/** Which reply a response finishes: the transaction table over whole runs, with 16-bit ids that wrap. */
module TcpTransactions {
  import opened Bytes
  import opened Modbus
  import opened TcpModel

  const IDS := 0x1_0000

  datatype Event =
    | Sent
    | Responded(call: Call)
    | TimedOut(s: nat)
    | Failed
    | Deleted(s: nat)

  function Step(t: Table, e: Event): Table {
    match e
    case Sent => SendFrame(t)
    case Responded(c) => Finish(t, c)
    case TimedOut(s) => TimerEvent(t, s)
    case Failed => SocketError(t)
    case Deleted(s) => if s < |t.replies| then Destroyed(t, s) else t
  }

  /** A run, its last event outermost. */
  datatype Trace = Start | Then(before: Trace, last: Event)

  function Run(r: Trace): Table {
    match r
    case Start => Table([], map[], 0)
    case Then(before, e) => Step(Run(before), e)
  }

  /** The id of the s-th reply. */
  function IdOf(s: nat): u16 {
    Wrap16(s + 1)
  }

  predicate ReplyInv(r: Reply, s: nat) {
    && r.tid == IdOf(s)
    && r.signals == (if r.result.Some? then 1 else 0)
    && (r.timer <==> r.alive && r.result.None?)
  }

  /** Every entry of the table is the latest reply with its id. */
  predicate Inv(t: Table) {
    && t.tid == Wrap16(|t.replies|)
    && (forall s | 0 <= s < |t.replies| :: ReplyInv(t.replies[s], s))
    && (forall id | id in t.pending :: t.pending[id] < |t.replies| <= t.pending[id] + IDS && IdOf(t.pending[id]) == id)
  }

  /** Results, once there, stay. */
  predicate Extends(a: Table, b: Table) {
    && |a.replies| <= |b.replies|
    && forall s | 0 <= s < |a.replies| ::
         && b.replies[s].tid == a.replies[s].tid
         && (a.replies[s].result.Some? ==> b.replies[s].result == a.replies[s].result)
  }

  lemma NextId(n: nat)
    ensures Wrap16(Wrap16(n) + 1) == IdOf(n)
    ensures Wrap16(n + 1) == IdOf(n)
    ensures IdOf(n + IDS) == IdOf(n)
  {
  }

  lemma SentKeepsInv(t: Table)
    requires Inv(t)
    ensures Inv(SendFrame(t)) && Extends(t, SendFrame(t))
  {
    hide IdOf, Wrap16;
    var n := |t.replies|;
    NextId(n);
    forall id | id in t.pending && id != IdOf(n)
      ensures n + 1 <= t.pending[id] + IDS
    {
      NextId(t.pending[id]);
    }
  }

  lemma StepKeepsInv(t: Table, e: Event)
    requires Inv(t)
    ensures Inv(Step(t, e)) && Extends(t, Step(t, e))
  {
    hide IdOf, Wrap16;
    match e {
      case Sent => SentKeepsInv(t);
      case _ =>
    }
  }

  /**
   On every run, with responses in any order, duplicated or late, with timeouts, socket errors,
   deletions and ids that wrap: no reply signals finished twice, it has signalled exactly if it has a
   result, and one that still waits has its timer running.
   */
  lemma {:induction false} RepliesOnEveryRun(r: Trace)
    ensures Inv(Run(r))
    ensures forall s | 0 <= s < |Run(r).replies| ::
              var reply := Run(r).replies[s];
              && reply.signals <= 1
              && (reply.signals == 1 <==> reply.result.Some?)
              && (reply.timer <==> reply.alive && reply.result.None?)
  {
    hide IdOf, Wrap16, Step;
    if r == Start {
      assert Inv(Table([], map[], 0)) by { InitialInv(); }
    } else {
      RepliesOnEveryRun(r.before);
      StepKeepsInv(Run(r.before), r.last);
    }
    var t := Run(r);
    forall s | 0 <= s < |t.replies|
      ensures t.replies[s].signals <= 1 && (t.replies[s].signals == 1 <==> t.replies[s].result.Some?)
    {
      assert ReplyInv(t.replies[s], s);
    }
  }

  lemma InitialInv()
    ensures Inv(Table([], map[], 0))
  {
  }

  /** A result that was reported is never revised by what happens later. */
  lemma {:induction false} ResultsStay(before: Trace, e: Event, s: nat)
    requires s < |Run(before).replies| && Run(before).replies[s].result.Some?
    ensures s < |Run(Then(before, e)).replies|
    ensures Run(Then(before, e)).replies[s].result == Run(before).replies[s].result
    ensures Run(Then(before, e)).replies[s].signals == 1
  {
    RepliesOnEveryRun(before);
    RepliesOnEveryRun(Then(before, e));
    StepKeepsInv(Run(before), e);
  }

  lemma SameIdFarApart(a: nat, b: nat)
    requires a < b && IdOf(a) == IdOf(b)
    ensures b - a >= IDS
  {
  }

  /**
   A response to the k-th request finishes that request or none, as long as fewer than 65536 requests
   were sent after it; from then on it can no longer finish that request. It finishes it, with its
   own outcome, exactly if the table still has it and it waits.
   */
  lemma ResponseFinishesItsRequest(r: Trace, k: nat, o: Outcome)
    requires k < |Run(r).replies|
    ensures var t := Run(r);
            var u := Finish(t, SetFinished(IdOf(k), o));
            && |u.replies| == |t.replies|
            && (|t.replies| - 1 - k < IDS ==> forall s | 0 <= s < |t.replies| && s != k :: u.replies[s] == t.replies[s])
            && (|t.replies| - 1 - k >= IDS ==> u.replies[k] == t.replies[k])
            && (t.replies[k].result.None? ==>
                if IdOf(k) in t.pending && t.pending[IdOf(k)] == k && t.replies[k].timer
                then u.replies[k].result == Some(o) else u.replies[k] == t.replies[k])
  {
    RepliesOnEveryRun(r);
    hide Run, IdOf;
    var t := Run(r);
    if IdOf(k) in t.pending {
      var p := t.pending[IdOf(k)];
      if p < k { SameIdFarApart(p, k); }
      if k < p { SameIdFarApart(k, p); }
    }
  }

  /**
   What takes a waiting reply out of the table other than its own response, its own deletion or a
   socket error: a new request with its id, or the deletion of another reply with its id.
   */
  lemma WhoRemovesAnEntry(t: Table, e: Event, k: nat)
    requires Inv(t) && k < |t.replies| && IdOf(k) in t.pending && t.pending[IdOf(k)] == k
    ensures var u := Step(t, e);
            !(IdOf(k) in u.pending && u.pending[IdOf(k)] == k) <==>
            match e
            case Sent => |t.replies| == k + IDS
            case Responded(c) => c.tid == IdOf(k)
            case TimedOut(_) => false
            case Failed => true
            case Deleted(s) => s < |t.replies| && IdOf(s) == IdOf(k)
  {
    hide IdOf, Wrap16;
    if e == Sent {
      var n := |t.replies|;
      NextId(n);
      NextId(k);
      if IdOf(n) == IdOf(k) { SameIdFarApart(k, n); }
    }
  }

  /** What a reply that waits becomes when it is finished. */
  predicate IsFinishedWith(r: Reply, was: Reply, o: Outcome) {
    r.tid == was.tid && !r.timer && r.result == Some(o) && r.signals == 1 && r.alive == was.alive
  }

  predicate InTable(t: Table, k: nat) {
    exists id | id in t.pending :: t.pending[id] == k
  }

  predicate Waits(t: Table, k: nat) {
    k < |t.replies| && t.replies[k].alive && t.replies[k].result.None?
  }

  /**
   What every event makes of every reply: one that waits is finished by its own response, by its timer, or by
   a socket error while it is in the table, each with its own outcome; the deleted one is gone; no other changes.
   */
  lemma {:induction false} EveryReply(t: Table, e: Event, k: nat)
    requires Inv(t) && k < |t.replies|
    ensures k < |Step(t, e).replies|
    ensures var r, u := t.replies[k], Step(t, e).replies[k];
            match e {
              case Sent => u == r
              case Responded(c) =>
                if c.tid in t.pending && t.pending[c.tid] == k && Waits(t, k) then IsFinishedWith(u, r, c.outcome) else u == r
              case TimedOut(s) => if s == k && Waits(t, k) then IsFinishedWith(u, r, Error(254)) else u == r
              case Failed => if InTable(t, k) && Waits(t, k) then IsFinishedWith(u, r, Error(255)) else u == r
              case Deleted(s) => if s == k then !u.alive && !u.timer && u.result == r.result && u.signals == r.signals else u == r
            }
  {
    hide IdOf, Wrap16;
    assert ReplyInv(t.replies[k], k);
  }

  /** What every event makes of the table, and the reply that a request adds. */
  lemma {:induction false} EveryEntry(t: Table, e: Event, id: u16)
    requires Inv(t)
    ensures var u, n := Step(t, e), |t.replies|;
            && |u.replies| == n + (if e == Sent then 1 else 0)
            && (e == Sent ==> u.replies[n] == Reply(IdOf(n), true, None, 0, true) && IdOf(n) in u.pending && u.pending[IdOf(n)] == n)
            && (id in u.pending && !(e == Sent && id == IdOf(n)) <==>
                id in t.pending && match e {
                  case Sent => id != IdOf(n)
                  case Responded(c) => id != c.tid
                  case TimedOut(_) => true
                  case Failed => false
                  case Deleted(s) => s < n ==> id != IdOf(s)
                })
            && (id in u.pending && !(e == Sent && id == IdOf(n)) ==> u.pending[id] == t.pending[id])
  {
    hide IdOf, Wrap16;
    NextId(|t.replies|);
    if e.Deleted? && e.s < |t.replies| {
      assert ReplyInv(t.replies[e.s], e.s);
    }
  }

  /** Deleting an old reply drops a younger one with the same id: its response then finishes nothing. */
  lemma DeletionDropsTheYounger(t: Table, old_: nat, k: nat, o: Outcome)
    requires Inv(t) && old_ < k < |t.replies| && IdOf(old_) == IdOf(k)
    ensures Finish(Destroyed(t, old_), SetFinished(IdOf(k), o)) == Destroyed(t, old_)
  {
    assert ReplyInv(t.replies[old_], old_);
  }

  // ---- A whole delivery. ----

  function Responses(before: Trace, calls: seq<Call>): Trace
    decreases calls
  {
    if calls == [] then before else Responses(Then(before, Responded(calls[0])), calls[1..])
  }

  /** The calls of one delivery are so many responses: everything above holds for deliveries. */
  lemma {:induction false} DeliveriesAreResponses(before: Trace, calls: seq<Call>)
    ensures FinishAll(Run(before), calls) == Run(Responses(before, calls))
    decreases calls
  {
    hide Finish;
    if calls != [] {
      DeliveriesAreResponses(Then(before, Responded(calls[0])), calls[1..]);
    }
  }
}
