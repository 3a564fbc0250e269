/**
 The client over time: how long a HIGH message can wait whatever the device does, and
 how periodic reads keep their grid when polls are late.
 */
module ClientTiming {
  import opened Arithmetic
  import opened Bytes
  import opened MessageQueue
  import opened Storage
  import opened HostClient
  import HostParser

  // ---- How long a HIGH message can wait ----

  /** What callers do over time: enqueue messages, change the set-up, and poll with the frames that have come in. */
  datatype Op =
    | Submit(m: Message)
    | SetUp(a: Action)
    | Poll(t: Clock, frames: seq<HostParser.ParsedFrame>, failed: bool, ok: bool)

  /** Everything but enqueueing, polling and clearing the queue. */
  predicate IsSetUp(a: Action) {
    a.AddPeriodic? || a.RemovePeriodic? || a.RegisterStorage? || a.ClearStorage?
  }

  /** A poll is the actions of HostClient.PollActions, with the frames that its reads produced. */
  function Acts(op: Op): seq<Action> {
    match op
    case Submit(m) => [Enqueue(m)]
    case SetUp(a) => if IsSetUp(a) then [a] else []
    case Poll(t, frames, failed, ok) => Reading(frames, failed) + Tail(t, ok)
  }

  lemma PollIsOp(p: HostParser.State, results: seq<ReadResult>, t: Clock, ok: bool)
    requires HostParser.Valid(p)
    ensures PollActions(p, results, t, ok) ==
      Acts(Poll(t, HostParser.Output(p, BytesRead(results)), ReadFails(results), ok))
  {
  }

  function NextOp(c: Core, op: Op): Core {
    NextAll(c, Acts(op))
  }

  function NextOps(c: Core, ops: seq<Op>): Core
    decreases |ops|
  {
    if ops == [] then c else NextOps(NextOp(c, ops[0]), ops[1..])
  }

  /** The core as a poll sees it when it comes to sending. */
  function BeforeFlush(c: Core, t: Clock, frames: seq<HostParser.ParsedFrame>): Core {
    Next(Next(NextAll(c, Received(frames)), CheckTimeout(t.checked)), Schedule(t.scheduled))
  }

  /** The message that an operation takes from the queue to send it, if it is a poll that takes one. */
  function Taken(c: Core, op: Op): Option<Message> {
    if op.Poll? then Flushed(BeforeFlush(c, op.t, op.frames)) else None
  }

  predicate Pops(c: Core, op: Op) {
    Taken(c, op).Some?
  }

  function PopCount(c: Core, ops: seq<Op>): nat
    decreases |ops|
  {
    if ops == [] then 0 else (if Pops(c, ops[0]) then 1 else 0) + PopCount(NextOp(c, ops[0]), ops[1..])
  }

  lemma {:induction false} LowPushesKeepHigh(q: Queue, ms: seq<Message>)
    requires forall m | m in ms :: m.priority.Low?
    ensures PushAll(q, ms).high == q.high
    decreases |ms|
  {
    if ms != [] {
      LowPushesKeepHigh(Push(q, ms[0]), ms[1..]);
    }
  }

  lemma {:induction false} DueReadsAreLow(es: seq<Periodic>, now: nat)
    ensures forall m | m in DueReads(es, now) :: m.priority.Low?
    decreases |es|
  {
    if es != [] {
      DueReadsAreLow(es[1..], now);
    }
  }

  /** A poll in its four steps: HIGH is untouched until sending; pending is only ever cleared before it. */
  lemma PollSteps(c: Core, t: Clock, frames: seq<HostParser.ParsedFrame>, failed: bool, ok: bool)
    ensures var d := BeforeFlush(c, t, frames);
      && NextOp(c, Poll(t, frames, failed, ok)) == Next(d, Flush(t.sent, ok))
      && d.queue.high == c.queue.high && d.responseTimeout == c.responseTimeout
      && (d.pending == c.pending || d.pending.None?)
      && (d.pending.Some? ==> Elapsed(t.checked, d.pending.value.sentAt) < d.pending.value.timeout)
  {
    hide NextAll, DueReads, PushAll, AdvanceAll, Pop, NextOp;
    PollChain(c, t, frames, failed, ok);
    ReceivingKeepsQueue(c, frames);
    var c2 := Next(NextAll(c, Received(frames)), CheckTimeout(t.checked));
    DueReadsAreLow(c2.periodic, t.scheduled);
    LowPushesKeepHigh(c2.queue, DueReads(c2.periodic, t.scheduled));
  }

  lemma PollChain(c: Core, t: Clock, frames: seq<HostParser.ParsedFrame>, failed: bool, ok: bool)
    ensures NextOp(c, Poll(t, frames, failed, ok)) == Next(BeforeFlush(c, t, frames), Flush(t.sent, ok))
  {
    hide NextAll, Next, Reading, Tail;
    ActConcat(c, Reading(frames, failed), Tail(t, ok));
    ReadingWritesNothing(c, frames, failed);
    TailActs(NextAll(c, Received(frames)), t, ok);
  }

  /** No timeout that is set, queued or registered exceeds T. */
  predicate TimeoutsAtMost(c: Core, T: nat) {
    && c.responseTimeout <= T
    && (c.pending.Some? ==> c.pending.value.timeout <= T)
    && LevelAtMost(c.queue.high, T) && LevelAtMost(c.queue.low, T)
    && (forall e | e in c.periodic && e.responseTimeout.Some? :: e.responseTimeout.value <= T)
  }

  predicate LevelAtMost(level: seq<Message>, T: nat) {
    forall m | m in level && m.responseTimeout.Some? :: m.responseTimeout.value <= T
  }

  /**
   From the given instant to the last clock reading of the first poll, and from the first reading of
   each poll to the last of the next, it is at most G; timeouts given along the way are at most T.
   */
  predicate Punctual(ops: seq<Op>, now: nat, G: nat, T: nat)
    decreases |ops|
  {
    ops == [] ||
    (match ops[0]
     case Submit(m) => (m.responseTimeout.Some? ==> m.responseTimeout.value <= T) && Punctual(ops[1..], now, G, T)
     case SetUp(a) => (a.AddPeriodic? && a.timeout.Some? ==> a.timeout.value <= T) && Punctual(ops[1..], now, G, T)
     case Poll(t, _, _, _) =>
       now <= t.checked <= t.scheduled <= t.sent <= now + G && Punctual(ops[1..], t.checked, G, T))
  }

  /** The instant at which the last poll began, or the given one. */
  function LastPoll(ops: seq<Op>, now: nat): nat
    decreases |ops|
  {
    if ops == [] then now else LastPoll(ops[1..], if ops[0].Poll? then ops[0].t.checked else now)
  }

  /** Until when a pending request can hold up the queue, seen from `now`. */
  function FreeBy(c: Core, now: nat): nat {
    if c.pending.Some? && c.pending.value.sentAt + c.pending.value.timeout > now
    then c.pending.value.sentAt + c.pending.value.timeout
    else now
  }

  lemma PushLevelAtMost(q: Queue, m: Message, T: nat)
    requires LevelAtMost(q.high, T) && LevelAtMost(q.low, T)
    requires m.responseTimeout.Some? ==> m.responseTimeout.value <= T
    ensures LevelAtMost(Push(q, m).high, T) && LevelAtMost(Push(q, m).low, T)
  {
    hide Position;
  }

  lemma {:induction false} PushesAtMost(q: Queue, ms: seq<Message>, T: nat)
    requires LevelAtMost(q.high, T) && LevelAtMost(q.low, T) && LevelAtMost(ms, T)
    ensures LevelAtMost(PushAll(q, ms).high, T) && LevelAtMost(PushAll(q, ms).low, T)
    decreases |ms|
  {
    hide Push;
    if ms != [] {
      assert ms[0] in ms;
      PushLevelAtMost(q, ms[0], T);
      PushesAtMost(Push(q, ms[0]), ms[1..], T);
    }
  }

  lemma {:induction false} DueReadsAtMost(es: seq<Periodic>, now: nat, T: nat)
    requires forall e | e in es && e.responseTimeout.Some? :: e.responseTimeout.value <= T
    ensures LevelAtMost(DueReads(es, now), T)
    decreases |es|
  {
    if es != [] {
      DueReadsAtMost(es[1..], now, T);
    }
  }

  lemma ActAtMost(c: Core, a: Action, T: nat)
    requires TimeoutsAtMost(c, T)
    requires a.Enqueue? && a.m.responseTimeout.Some? ==> a.m.responseTimeout.value <= T
    requires a.AddPeriodic? && a.timeout.Some? ==> a.timeout.value <= T
    ensures TimeoutsAtMost(Next(c, a), T)
  {
    hide AfterFrame, PeriodicKey, Push, Position, PushAll, DueReads;
    match a {
      case Enqueue(m) => PushLevelAtMost(c.queue, m, T);
      case Receive(f) =>
        ReceiveKeepsQueue(c, f);
        assert Next(c, a) == AfterFrame(c, f);
      case Schedule(now) =>
        DueReadsAtMost(c.periodic, now, T);
        PushesAtMost(c.queue, DueReads(c.periodic, now), T);
      case AddPeriodic(command, _, _, _) => WithoutCommandIsExact(c.periodic, command);
      case RemovePeriodic(command) => WithoutCommandIsExact(c.periodic, command);
      case _ =>
    }
  }

  lemma {:induction false} ActsAtMost(c: Core, acts: seq<Action>, T: nat)
    requires TimeoutsAtMost(c, T)
    requires forall a | a in acts && a.Enqueue? && a.m.responseTimeout.Some? :: a.m.responseTimeout.value <= T
    requires forall a | a in acts && a.AddPeriodic? && a.timeout.Some? :: a.timeout.value <= T
    ensures TimeoutsAtMost(NextAll(c, acts), T)
    decreases |acts|
  {
    hide TimeoutsAtMost, Next;
    if acts != [] {
      ActAtMost(c, acts[0], T);
      ActsAtMost(Next(c, acts[0]), acts[1..], T);
    }
  }

  lemma {:induction false} ReceivedHasNoPushes(fs: seq<HostParser.ParsedFrame>)
    ensures forall a | a in Received(fs) :: a.Receive?
    decreases |fs|
  {
    if fs != [] {
      ReceivedHasNoPushes(fs[1..]);
    }
  }

  lemma OpAtMost(c: Core, op: Op, now: nat, G: nat, T: nat)
    requires TimeoutsAtMost(c, T) && Punctual([op], now, G, T)
    ensures TimeoutsAtMost(NextOp(c, op), T)
  {
    hide TimeoutsAtMost, NextAll;
    if op.Poll? {
      ReceivedHasNoPushes(op.frames);
    }
    ActsAtMost(c, Acts(op), T);
  }

  /** What one operation does to the wait of the k-th HIGH message. */
  lemma OneOp(c: Core, op: Op, now: nat, G: nat, T: nat, k: nat)
    requires TimeoutsAtMost(c, T) && Punctual([op], now, G, T)
    requires k < |c.queue.high|
    ensures var d, at := NextOp(c, op), if op.Poll? then op.t.checked else now;
      && TimeoutsAtMost(d, T)
      && (Pops(c, op) ==> |d.queue.high| == |c.queue.high| - 1 && FreeBy(d, at) <= FreeBy(c, now) + G + T)
      && (!Pops(c, op) ==> |d.queue.high| >= |c.queue.high| && FreeBy(d, at) <= FreeBy(c, now) && at <= FreeBy(c, now))
  {
    hide NextAll, BeforeFlush;
    OpAtMost(c, op, now, G, T);
    match op {
      case Submit(m) =>
        assert NextOp(c, op) == Next(c, Enqueue(m)) by { SingleAct(c, Enqueue(m)); }
      case SetUp(a) =>
        SetUpKeepsQueue(c, a);
      case Poll(t, frames, failed, ok) =>
        PollSteps(c, t, frames, failed, ok);
        var d := BeforeFlush(c, t, frames);
        if d.pending.None? {
          FlushTakesHigh(d, t.sent, ok);
          var m := d.queue.high[0];
          assert m in c.queue.high;
        }
    }
  }

  lemma SetUpKeepsQueue(c: Core, a: Action)
    ensures NextOp(c, SetUp(a)).queue == c.queue && NextOp(c, SetUp(a)).pending == c.pending
  {
    hide NextAll;
    NoActs(c);
    SingleAct(c, a);
  }

  lemma SingleAct(c: Core, a: Action)
    ensures NextAll(c, [a]) == Next(c, a)
  {
    hide Next;
    assert [a][1..] == [];
  }

  lemma FlushTakesHigh(d: Core, now: nat, ok: bool)
    requires d.pending.None? && d.queue.high != []
    ensures Flushed(d) == Some(d.queue.high[0])
    ensures Next(d, Flush(now, ok)) ==
      d.(queue := d.queue.(high := d.queue.high[1..]),
         pending := if ok then Some(InFlight(d, d.queue.high[0], now)) else None)
  {
  }

  /**
   As long as at most k messages have been taken, and so the k-th HIGH message is still
   waiting, the last poll began no later than k waits after the link could first be free.
   */
  lemma {:induction false} StillWaiting(c: Core, ops: seq<Op>, now: nat, G: nat, T: nat, k: nat)
    requires TimeoutsAtMost(c, T) && Punctual(ops, now, G, T)
    requires k < |c.queue.high| && PopCount(c, ops) <= k
    ensures LastPoll(ops, now) <= FreeBy(c, now) + k * (T + G)
    decreases |ops|
  {
    hide TimeoutsAtMost, NextOp, Pops;
    if ops == [] {
      OneMore(k, T + G);
    } else {
      var op, rest := ops[0], ops[1..];
      assert [op][1..] == [];
      OneOp(c, op, now, G, T, k);
      var d, at := NextOp(c, op), if op.Poll? then op.t.checked else now;
      var j := if Pops(c, op) then k - 1 else k;
      OneMore(j, T + G);
      StillWaiting(d, rest, at, G, T, j);
    }
  }

  /**
   Operations that leave the k-th HIGH message waiting end with
   a poll that began no later than one G before the bound.
   */
  lemma WaitingIsBounded(c: Core, ops: seq<Op>, start: nat, G: nat, T: nat, k: nat)
    requires TimeoutsAtMost(c, T) && Punctual(ops, start, G, T)
    requires k < |c.queue.high| && (c.pending.Some? ==> c.pending.value.sentAt <= start)
    requires PopCount(c, ops) <= k
    ensures LastPoll(ops, start) + G <= start + (k + 1) * (T + G)
  {
    StillWaiting(c, ops, start, G, T, k);
    var bound := k * (T + G);
    assert FreeBy(c, start) <= start + T by { assert c.pending.Some? ==> c.pending.value.timeout <= T; }
    OneMore(k, T + G);
  }

  /** The message itself, or one that replaced it in place under the same key. */
  predicate StandsFor(m: Message, original: Message) {
    m == original || (original.coalesceKey.Some? && m.coalesceKey == original.coalesceKey)
  }

  /** While it waits, the k-th HIGH message keeps its place: k minus the messages taken, itself or its replacement. */
  lemma {:induction false} WaitingKeepsPlace(c: Core, ops: seq<Op>, k: nat, original: Message)
    requires k < |c.queue.high| && StandsFor(c.queue.high[k], original)
    requires PopCount(c, ops) <= k
    ensures var d, i := NextOps(c, ops), k - PopCount(c, ops);
      i < |d.queue.high| && StandsFor(d.queue.high[i], original)
    decreases |ops|
  {
    hide NextOp, Pops, Taken, StandsFor;
    if ops != [] {
      OpKeepsPlace(c, ops[0], k, original);
      WaitingKeepsPlace(NextOp(c, ops[0]), ops[1..], if Pops(c, ops[0]) then k - 1 else k, original);
    }
  }

  lemma OpKeepsPlace(c: Core, op: Op, k: nat, original: Message)
    requires k < |c.queue.high| && StandsFor(c.queue.high[k], original)
    ensures var d := NextOp(c, op);
      if Pops(c, op) then
        && Taken(c, op) == Some(c.queue.high[0])
        && (k > 0 ==> k - 1 < |d.queue.high| && StandsFor(d.queue.high[k - 1], original))
      else k < |d.queue.high| && StandsFor(d.queue.high[k], original)
  {
    hide NextAll, BeforeFlush;
    match op {
      case Submit(m) =>
        SingleAct(c, Enqueue(m));
      case SetUp(a) =>
        SetUpKeepsQueue(c, a);
      case Poll(t, frames, failed, ok) =>
        PollSteps(c, t, frames, failed, ok);
        var d := BeforeFlush(c, t, frames);
        if d.pending.None? {
          FlushTakesHigh(d, t.sent, ok);
        }
    }
  }

  /** The operation that takes the message with k before it. */
  lemma {:induction false} TakingOp(c: Core, ops: seq<Op>, k: nat) returns (i: nat)
    requires PopCount(c, ops) > k
    ensures i < |ops| && PopCount(c, ops[..i]) == k && Pops(NextOps(c, ops[..i]), ops[i])
    decreases |ops|
  {
    hide NextOp, Pops;
    var first := Pops(c, ops[0]);
    if first && k == 0 {
      i := 0;
    } else {
      var j := TakingOp(NextOp(c, ops[0]), ops[1..], if first then k - 1 else k);
      i := j + 1;
      assert ops[..i][1..] == ops[1..][..j];
    }
  }

  /**
   A prefix is as punctual as the whole, and the operation after
   it, if it is a poll, ends within G of the prefix's last.
   */
  lemma {:induction false} PunctualPrefix(ops: seq<Op>, i: nat, now: nat, G: nat, T: nat)
    requires Punctual(ops, now, G, T) && i < |ops|
    ensures Punctual(ops[..i], now, G, T)
    ensures ops[i].Poll? ==> ops[i].t.sent <= LastPoll(ops[..i], now) + G
    decreases |ops|
  {
    if i > 0 {
      assert ops[..i][1..] == ops[1..][..i - 1];
      PunctualPrefix(ops[1..], i - 1, if ops[0].Poll? then ops[0].t.checked else now, G, T);
    }
  }

  /**
   Real-time bound: with polls at most G apart and every timeout at most T, once polling has gone on for longer than
   (k + 1) * (T + G), the HIGH message that had k HIGH messages before it, or its replacement in place, has been taken
   to be sent by a poll within that time, and exactly k were taken before it, whatever frames came in or failed to.
   */
  lemma HighMessagesAreSentInTime(c: Core, ops: seq<Op>, start: nat, G: nat, T: nat, k: nat) returns (i: nat)
    requires TimeoutsAtMost(c, T) && Punctual(ops, start, G, T)
    requires k < |c.queue.high| && (c.pending.Some? ==> c.pending.value.sentAt <= start)
    requires LastPoll(ops, start) > start + (k + 1) * (T + G)
    ensures i < |ops| && ops[i].Poll? && ops[i].t.sent <= start + (k + 1) * (T + G)
    ensures var taken := Taken(NextOps(c, ops[..i]), ops[i]);
      taken.Some? && StandsFor(taken.value, c.queue.high[k]) && PopCount(c, ops[..i]) == k
  {
    hide PopCount, TimeoutsAtMost, Punctual, LastPoll, NextOps, BeforeFlush;
    if PopCount(c, ops) <= k {
      WaitingIsBounded(c, ops, start, G, T, k);
      assert false;
    }
    i := TakingOp(c, ops, k);
    PunctualPrefix(ops, i, start, G, T);
    WaitingIsBounded(c, ops[..i], start, G, T, k);
    var original := c.queue.high[k];
    WaitingKeepsPlace(c, ops[..i], k, original);
    OpKeepsPlace(NextOps(c, ops[..i]), ops[i], 0, original);
  }

  // ---- Periodic reads ----

  /** An entry looked at over a series of instants. */
  function EntryAfter(e: Periodic, times: seq<nat>): Periodic
    decreases |times|
  {
    if times == [] then e else EntryAfter(Advance(e, times[0]), times[1..])
  }

  /** The instants at which a read was queued for it. */
  function ReadTimes(e: Periodic, times: seq<nat>): seq<nat>
    decreases |times|
  {
    if times == [] then []
    else (if Due(e, times[0]) then [times[0]] else []) + ReadTimes(Advance(e, times[0]), times[1..])
  }

  predicate Monotone(times: seq<nat>, from: nat)
    decreases |times|
  {
    times == [] || (from <= times[0] && Monotone(times[1..], times[0]))
  }

  /** Fresh, or with a next due instant within one interval after `last`. */
  predicate OnGrid(e: Periodic, last: nat) {
    e.nextDue.Some? ==> last < e.nextDue.value <= last + e.interval
  }

  /** After every look the next read is due within (now, now + I]. */
  lemma AdvanceStaysOnGrid(e: Periodic, last: nat, now: nat)
    requires e.interval > 0 && last <= now && OnGrid(e, last)
    ensures Advance(e, now).nextDue.Some? && OnGrid(Advance(e, now), now)
  {
  }

  /** Between two reads with n reads from the first to the second there is more than n - 2 intervals. */
  lemma {:induction false} ReadsAreSpaced(e: Periodic, times: seq<nat>, last: nat, j: nat)
    requires e.interval > 0 && OnGrid(e, last) && Monotone(times, last) && j < |ReadTimes(e, times)|
    ensures e.nextDue.Some? ==> ReadTimes(e, times)[j] >= e.nextDue.value + j * e.interval
    ensures forall i | 0 <= i < j :: ReadTimes(e, times)[j] > ReadTimes(e, times)[i] + (j - i - 1) * e.interval
    decreases |times|
  {
    hide Monotone;
    var t, rest := times[0], times[1..];
    assert last <= t && Monotone(rest, t) by { MonotoneHead(times, last); }
    var d := Advance(e, t);
    AdvanceStaysOnGrid(e, last, t);
    var later := ReadTimes(d, rest);
    if Due(e, t) {
      assert ReadTimes(e, times) == [t] + later;
      if j > 0 {
        ReadsAreSpaced(d, rest, t, j - 1);
        assert later[j - 1] >= d.nextDue.value + (j - 1) * e.interval;
        assert e.nextDue.Some? ==> d.nextDue.value >= e.nextDue.value + e.interval;
        assert j * e.interval == (j - 1) * e.interval + e.interval;
        forall i | 0 <= i < j
          ensures ReadTimes(e, times)[j] > ReadTimes(e, times)[i] + (j - i - 1) * e.interval
        {
          if i > 0 {
            assert later[j - 1] > later[i - 1] + (j - 1 - (i - 1) - 1) * e.interval;
          }
        }
      }
    } else {
      assert d == e && ReadTimes(e, times) == later;
      ReadsAreSpaced(d, rest, t, j);
    }
  }

  lemma MonotoneHead(times: seq<nat>, from: nat)
    requires times != [] && Monotone(times, from)
    ensures from <= times[0] && Monotone(times[1..], times[0])
  {
  }

  function CeilDiv(a: nat, b: nat): nat
    requires b > 0
  {
    (a + b - 1) / b
  }

  /** Any window of length W holds at most ceil(W / I) + 1 reads, stalls included. */
  lemma WindowBound(e: Periodic, times: seq<nat>, last: nat, i: nat, j: nat, W: nat)
    requires e.interval > 0 && OnGrid(e, last) && Monotone(times, last)
    requires i <= j < |ReadTimes(e, times)| && ReadTimes(e, times)[j] - ReadTimes(e, times)[i] <= W
    ensures j - i + 1 <= CeilDiv(W, e.interval) + 1
  {
    if i < j {
      ReadsAreSpaced(e, times, last, j);
      var n, I := j - i - 1, e.interval;
      assert W > n * I;
      DivisionBound(W, n, I);
    }
  }

  lemma DivisionBound(W: nat, n: nat, I: nat)
    requires I > 0 && W > n * I
    ensures CeilDiv(W, I) >= n + 1
  {
    assert W + I - 1 >= (n + 1) * I;
    QuotientAtLeast(W + I - 1, n + 1, I);
  }

  /** Consecutive instants at most I apart. */
  predicate GapsAtMost(times: seq<nat>, from: nat, I: nat)
    decreases |times|
  {
    times == [] || (from <= times[0] <= from + I && GapsAtMost(times[1..], times[0], I))
  }

  /** With gaps of at most I, the n reads so far and the next due instant stay on the grid that began at t0. */
  lemma {:induction false} CountOnGrid(e: Periodic, times: seq<nat>, t0: nat, last: nat, n: nat)
    requires e.interval > 0 && e.nextDue == Some(t0 + n * e.interval) && n > 0
    requires t0 + (n - 1) * e.interval <= last < t0 + n * e.interval
    requires GapsAtMost(times, last, e.interval)
    ensures var now := if times == [] then last else times[|times| - 1];
      n + |ReadTimes(e, times)| == (now - t0) / e.interval + 1
    decreases |times|
  {
    var I := e.interval;
    assert n * I == (n - 1) * I + I;
    if times == [] {
      DivideUnique(last - t0, I, n - 1, last - t0 - (n - 1) * I);
    } else {
      var t, rest := times[0], times[1..];
      var d := Advance(e, t);
      if Due(e, t) {
        assert (n + 1) * I == n * I + I;
        CountOnGrid(d, rest, t0, t, n + 1);
      } else {
        CountOnGrid(d, rest, t0, t, n);
      }
      assert rest != [] ==> rest[|rest| - 1] == times[|times| - 1];
    }
  }

  /**
   Lateness never drifts the rate: polled at t0 first and then at
   most I apart, floor((now - t0) / I) + 1 reads are queued by now.
   */
  lemma RateHolds(e: Periodic, t0: nat, times: seq<nat>)
    requires e.interval > 0 && e.nextDue.None? && GapsAtMost(times, t0, e.interval)
    ensures var now := if times == [] then t0 else times[|times| - 1];
      now >= t0 && |ReadTimes(e, [t0] + times)| == (now - t0) / e.interval + 1
  {
    assert ([t0] + times)[1..] == times;
    assert t0 + 1 * e.interval == t0 + e.interval;
    CountOnGrid(Advance(e, t0), times, t0, t0, 1);
    GapsGoForward(times, t0, e.interval);
  }

  lemma {:induction false} GapsGoForward(times: seq<nat>, from: nat, I: nat)
    requires GapsAtMost(times, from, I)
    ensures times != [] ==> from <= times[|times| - 1]
    decreases |times|
  {
    if |times| > 1 {
      GapsGoForward(times[1..], times[0], I);
    }
  }

  /** The instants at which a run of actions looks at the schedule. */
  function ScheduleTimes(acts: seq<Action>): seq<nat> {
    if acts == [] then [] else (if acts[0].Schedule? then [acts[0].now] else []) + ScheduleTimes(acts[1..])
  }

  /** Within one registration the client's entry for a command evolves by those instants alone. */
  lemma {:induction false} EntryFollowsSchedule(c: Core, acts: seq<Action>, e: Periodic)
    requires e in c.periodic
    requires forall a | a in acts :: !((a.AddPeriodic? || a.RemovePeriodic?) && a.command == e.command)
    ensures EntryAfter(e, ScheduleTimes(acts)) in NextAll(c, acts).periodic
    decreases |acts|
  {
    hide Next, Advance;
    if acts != [] {
      var a := acts[0];
      var d := if a.Schedule? then Advance(e, a.now) else e;
      EntryStep(c, a, e);
      assert ScheduleTimes(acts) == (if a.Schedule? then [a.now] else []) + ScheduleTimes(acts[1..]);
      assert a.Schedule? ==> ScheduleTimes(acts)[1..] == ScheduleTimes(acts[1..]);
      assert !a.Schedule? ==> ScheduleTimes(acts) == ScheduleTimes(acts[1..]);
      EntryFollowsSchedule(Next(c, a), acts[1..], d);
    }
  }

  lemma {:induction false} WithoutCommandKeeps(es: seq<Periodic>, command: byte, e: Periodic)
    requires e in es && e.command != command
    ensures e in WithoutCommand(es, command)
    decreases |es|
  {
    if es[0] != e {
      WithoutCommandKeeps(es[1..], command, e);
    }
  }

  lemma EntryStep(c: Core, a: Action, e: Periodic)
    requires e in c.periodic && !((a.AddPeriodic? || a.RemovePeriodic?) && a.command == e.command)
    ensures var d := if a.Schedule? then Advance(e, a.now) else e;
      d in Next(c, a).periodic && d.command == e.command
  {
    hide PushAll, DueReads, Push, Pop;
    match a {
      case Schedule(now) =>
        var i :| 0 <= i < |c.periodic| && c.periodic[i] == e;
        assert AdvanceAll(c.periodic, now)[i] == Advance(e, now);
      case AddPeriodic(command, _, _, _) => WithoutCommandKeeps(c.periodic, command, e);
      case RemovePeriodic(command) => WithoutCommandKeeps(c.periodic, command, e);
      case _ =>
    }
  }
}
