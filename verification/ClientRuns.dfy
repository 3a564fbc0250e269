/**
 What holds of the client in every run: where every message ends up, and what every
 ring buffer holds. A run is any sequence of actions; `poll` is one such sequence (ClientObject.dfy).
 */
module ClientRuns {
  import opened Bytes
  import opened MessageQueue
  import opened Storage
  import opened HostClient
  import HostParser

  // ---- Conservation of messages ----

  datatype Outcome = Answered(f: HostParser.ParsedFrame) | GivenUp(at: nat)

  /**
   What has become of messages so far: sent ones, with the instants at which they were sent and their outcomes in order,
   and the others by how they ended.
   */
  datatype Ledger = Ledger(
    enqueued: multiset<Message>,
    replaced: multiset<Message>,
    cleared: multiset<Message>,
    lost: multiset<Message>,
    sent: seq<Message>,
    sentAt: seq<nat>,
    outcomes: seq<Outcome>)

  const NOTHING := Ledger(multiset{}, multiset{}, multiset{}, multiset{}, [], [], [])

  function NotePush(l: Ledger, q: Queue, m: Message): Ledger {
    l.(enqueued := l.enqueued + multiset{m}, replaced := l.replaced + Taken(Replaced(q, m)))
  }

  function NotePushes(l: Ledger, q: Queue, ms: seq<Message>): Ledger
    decreases |ms|
  {
    if ms == [] then l else NotePushes(NotePush(l, q, ms[0]), Push(q, ms[0]), ms[1..])
  }

  /** The ledger after an action, read off what the action did to the core and put on the transport. */
  function Note(l: Ledger, c: Core, a: Action): Ledger {
    match a
    case Enqueue(m) => NotePush(l, c.queue, m)
    case Schedule(now) => NotePushes(l, c.queue, DueReads(c.periodic, now))
    case ClearQueue => l.(cleared := l.cleared + Contents(c.queue))
    case Flush(now, ok) =>
      if Flushed(c).None? then l
      else if ok then l.(sent := l.sent + [Flushed(c).value], sentAt := l.sentAt + [now])
      else l.(lost := l.lost + multiset{Flushed(c).value})
    case Receive(f) =>
      if c.pending.Some? && Next(c, a).pending.None? then l.(outcomes := l.outcomes + [Answered(f)]) else l
    case CheckTimeout(now) =>
      if c.pending.Some? && Next(c, a).pending.None? then l.(outcomes := l.outcomes + [GivenUp(now)]) else l
    case _ => l
  }

  function NoteAll(l: Ledger, c: Core, acts: seq<Action>): Ledger
    decreases |acts|
  {
    if acts == [] then l else NoteAll(Note(l, c, acts[0]), Next(c, acts[0]), acts[1..])
  }

  /** How long a message waits for its reply: its own timeout if it has one, the client's otherwise. */
  function Patience(m: Message, responseTimeout: nat): nat {
    match m.responseTimeout case Some(own) => own case None => responseTimeout
  }

  /** Every message is in exactly one place, and every outcome belongs to the message sent at its position. */
  ghost predicate Balanced(l: Ledger, c: Core) {
    && l.enqueued == l.replaced + l.cleared + Contents(c.queue) + l.lost + multiset(l.sent)
    && |l.sentAt| == |l.sent| == |l.outcomes| + (if c.pending.Some? then 1 else 0)
    && (c.pending.Some? ==>
          var m := l.sent[|l.sent| - 1];
          && c.pending.value.frame == m.frame && c.pending.value.command == CommandOf(m.frame)
          && c.pending.value.expects == m.expects && c.pending.value.sentAt == l.sentAt[|l.sent| - 1]
          && c.pending.value.timeout == Patience(m, c.responseTimeout))
    && (forall i | 0 <= i < |l.outcomes| && l.outcomes[i].GivenUp? ::
          var t := Patience(l.sent[i], c.responseTimeout);
          t == 0 || l.outcomes[i].at >= l.sentAt[i] + t)
    && (forall i | 0 <= i < |l.outcomes| && l.outcomes[i].Answered? ::
          Completes(l.outcomes[i].f, CommandOf(l.sent[i].frame), l.sent[i].expects))
    && UniqueKeys(c.queue)
  }

  lemma NotePushBalanced(l: Ledger, c: Core, m: Message)
    requires Balanced(l, c)
    ensures Balanced(NotePush(l, c.queue, m), c.(queue := Push(c.queue, m)))
  {
    hide Contents, Replaced, Push, UniqueKeys, Completes, Taken;
    PushConserves(c.queue, m);
    PushKeepsUniqueKeys(c.queue, m);
    var gone := Taken(Replaced(c.queue, m));
    calc {
      l.enqueued + multiset{m};
      l.replaced + l.cleared + (Contents(c.queue) + multiset{m}) + l.lost + multiset(l.sent);
      l.replaced + l.cleared + (Contents(Push(c.queue, m)) + gone) + l.lost + multiset(l.sent);
      (l.replaced + gone) + l.cleared + Contents(Push(c.queue, m)) + l.lost + multiset(l.sent);
    }
  }

  lemma {:induction false} NotePushesBalanced(l: Ledger, c: Core, ms: seq<Message>)
    requires Balanced(l, c)
    ensures Balanced(NotePushes(l, c.queue, ms), c.(queue := PushAll(c.queue, ms)))
    decreases |ms|
  {
    hide Balanced, Push, NotePush;
    if ms != [] {
      NotePushBalanced(l, c, ms[0]);
      NotePushesBalanced(NotePush(l, c.queue, ms[0]), c.(queue := Push(c.queue, ms[0])), ms[1..]);
    }
  }

  lemma ClearBalanced(l: Ledger, c: Core)
    requires Balanced(l, c)
    ensures Balanced(l.(cleared := l.cleared + Contents(c.queue)), c.(queue := EMPTY))
  {
    hide Completes;
    assert Contents(EMPTY) == multiset{};
  }

  /** The balance does not look at the schedule or the store. */
  lemma BalancedElsewhere(l: Ledger, c: Core, d: Core)
    requires Balanced(l, c)
    requires d.queue == c.queue && d.pending == c.pending && d.responseTimeout == c.responseTimeout
    ensures Balanced(l, d)
  {
    hide Contents, UniqueKeys, Completes;
  }

  lemma FlushBalanced(l: Ledger, c: Core, now: nat, ok: bool)
    requires Balanced(l, c)
    ensures Balanced(Note(l, c, Flush(now, ok)), Next(c, Flush(now, ok)))
  {
    hide Contents, Pop, UniqueKeys, Completes, Balanced;
    if Flushed(c).Some? {
      PopConserves(c.queue);
      BalancedHasUniqueKeys(l, c);
      PopKeepsUniqueKeys(c.queue);
      PoppedBalanced(l, c, Flushed(c).value, now, ok);
    }
  }

  lemma BalancedHasUniqueKeys(l: Ledger, c: Core)
    requires Balanced(l, c)
    ensures UniqueKeys(c.queue)
  {
  }

  /** The message taken from the queue goes where it went: sent and pending, or lost. */
  lemma PoppedBalanced(l: Ledger, c: Core, m: Message, now: nat, ok: bool)
    requires Balanced(l, c) && c.pending.None? && Flushed(c) == Some(m)
    requires Contents(Pop(c.queue).0) + multiset{m} == Contents(c.queue) && UniqueKeys(Pop(c.queue).0)
    ensures var noted := if ok then l.(sent := l.sent + [m], sentAt := l.sentAt + [now])
                         else l.(lost := l.lost + multiset{m});
      Balanced(noted, Next(c, Flush(now, ok)))
  {
    hide Contents, Pop, UniqueKeys, Completes;
    Moved(l.enqueued, l.replaced + l.cleared, Contents(Pop(c.queue).0), l.lost, multiset(l.sent), multiset{m});
    assert multiset(l.sent + [m]) == multiset(l.sent) + multiset{m};
  }

  /** Copies taken from the queue may be added to either of the other places. */
  lemma Moved(all: multiset<Message>, gone: multiset<Message>, queued: multiset<Message>, lost: multiset<Message>,
              sent: multiset<Message>, taken: multiset<Message>)
    requires all == gone + (queued + taken) + lost + sent
    ensures all == gone + queued + lost + (sent + taken)
    ensures all == gone + queued + (lost + taken) + sent
  {
  }

  /** Clearing the pending slot, by a reply that fits it or by a timeout, settles the message sent last. */
  lemma SettledBalanced(l: Ledger, c: Core, d: Core, o: Outcome)
    requires Balanced(l, c) && c.pending.Some? && d == c.(pending := None, store := d.store)
    requires o.Answered? ==> CompletesPending(c, o.f)
    requires o.GivenUp? ==> c.pending.value.timeout == 0 || o.at >= c.pending.value.sentAt + c.pending.value.timeout
    ensures Balanced(l.(outcomes := l.outcomes + [o]), d)
  {
    hide Contents, UniqueKeys, Completes;
  }

  /** A received frame clears the pending slot exactly when it completes the pending request. */
  lemma OnlyFittingRepliesSettle(c: Core, f: HostParser.ParsedFrame)
    ensures c.pending.Some? && Next(c, Receive(f)).pending.None? <==> CompletesPending(c, f)
    ensures Next(c, Receive(f)).pending.None? || Next(c, Receive(f)).pending == c.pending
    ensures var d := Next(c, Receive(f)); d == c.(pending := d.pending, store := d.store)
  {
  }

  lemma NoteBalanced(l: Ledger, c: Core, a: Action)
    requires Balanced(l, c)
    ensures Balanced(Note(l, c, a), Next(c, a))
  {
    hide Balanced, Contents, Push, PushAll, NotePush, NotePushes, DueReads, Completes, AfterFrame;
    match a {
      case Enqueue(m) => NotePushBalanced(l, c, m);
      case Schedule(now) =>
        NotePushesBalanced(l, c, DueReads(c.periodic, now));
        BalancedElsewhere(NotePushes(l, c.queue, DueReads(c.periodic, now)),
                          c.(queue := PushAll(c.queue, DueReads(c.periodic, now))), Next(c, a));
      case ClearQueue => ClearBalanced(l, c);
      case Flush(now, ok) => FlushBalanced(l, c, now, ok);
      case Receive(f) =>
        OnlyFittingRepliesSettle(c, f);
        if CompletesPending(c, f) {
          SettledBalanced(l, c, Next(c, a), Answered(f));
        } else {
          BalancedElsewhere(l, c, Next(c, a));
        }
      case CheckTimeout(now) =>
        if Expired(c, now) {
          SettledBalanced(l, c, Next(c, a), GivenUp(now));
        }
      case ReadError =>
      case AddPeriodic(_, _, _, _) => BalancedElsewhere(l, c, Next(c, a));
      case RemovePeriodic(_) => BalancedElsewhere(l, c, Next(c, a));
      case RegisterStorage(_, _) => BalancedElsewhere(l, c, Next(c, a));
      case ClearStorage => BalancedElsewhere(l, c, Next(c, a));
    }
  }

  lemma {:induction false} RunBalanced(l: Ledger, c: Core, acts: seq<Action>)
    requires Balanced(l, c)
    ensures Balanced(NoteAll(l, c, acts), NextAll(c, acts))
    decreases |acts|
  {
    hide Balanced, Note, Next;
    if acts != [] {
      NoteBalanced(l, c, acts[0]);
      RunBalanced(Note(l, c, acts[0]), Next(c, acts[0]), acts[1..]);
    }
  }

  /**
   Conservation over every run of a new client: each enqueued message was replaced by coalescing, cleared, lost to a
   write error, sent, or is still queued, counting copies; each sent one was answered by a fitting reply or timed out,
   in send order, except the last one while it is pending; no key is queued twice at a level.
   */
  lemma MessagesAreConserved(timeout: nat, acts: seq<Action>)
    ensures Balanced(NoteAll(NOTHING, InitialCore(timeout), acts), NextAll(InitialCore(timeout), acts))
  {
    hide NoteAll, NextAll;
    RunBalanced(NOTHING, InitialCore(timeout), acts);
  }

  /** In every run, a request that is given up has waited its timeout: its own if it has one, the client's otherwise. */
  lemma GivenUpAfterItsTimeout(timeout: nat, acts: seq<Action>, i: nat)
    requires var l := NoteAll(NOTHING, InitialCore(timeout), acts); i < |l.outcomes| && l.outcomes[i].GivenUp?
    ensures NextAll(InitialCore(timeout), acts).responseTimeout == timeout
    ensures var l := NoteAll(NOTHING, InitialCore(timeout), acts);
      && i < |l.sent| == |l.sentAt|
      && var patience := if l.sent[i].responseTimeout.Some? then l.sent[i].responseTimeout.value else timeout;
        patience == 0 || (l.outcomes[i].at >= l.sentAt[i] && l.outcomes[i].at - l.sentAt[i] >= patience)
  {
    hide NoteAll, NextAll;
    MessagesAreConserved(timeout, acts);
    RunKeepsTimeout(InitialCore(timeout), acts);
  }

  lemma {:induction false} RunKeepsTimeout(c: Core, acts: seq<Action>)
    ensures NextAll(c, acts).responseTimeout == c.responseTimeout
    decreases |acts|
  {
    if acts != [] {
      hide PushAll, DueReads, AdvanceAll, Push, Pop, PeriodicKey, WithoutCommand, Expired;
      RunKeepsTimeout(Next(c, acts[0]), acts[1..]);
    }
  }

  function FramesOf(ms: seq<Message>): seq<byte> {
    if ms == [] then [] else FramesOf(ms[..|ms| - 1]) + ms[|ms| - 1].frame
  }

  /** The bytes put on the transport are the frames of the sent messages, one after the other. */
  lemma {:induction false} WritesAreSentFrames(l: Ledger, c: Core, acts: seq<Action>)
    ensures FramesOf(NoteAll(l, c, acts).sent) == FramesOf(l.sent) + WritesAll(c, acts)
    decreases |acts|
  {
    hide Next, Note, Writes, FramesOf;
    if acts != [] {
      var a, rest := acts[0], acts[1..];
      var l1, d := Note(l, c, a), Next(c, a);
      WriteIsSentFrame(l, c, a);
      WritesAreSentFrames(l1, d, rest);
      assert FramesOf(l.sent) + (Writes(c, a) + WritesAll(d, rest)) == FramesOf(l1.sent) + WritesAll(d, rest);
    }
  }

  lemma WriteIsSentFrame(l: Ledger, c: Core, a: Action)
    ensures FramesOf(Note(l, c, a).sent) == FramesOf(l.sent) + Writes(c, a)
  {
    if a.Schedule? {
      PushesSendNothing(l, c.queue, DueReads(c.periodic, a.now));
    } else if a.Flush? && a.ok && Flushed(c).Some? {
      var sent := l.sent + [Flushed(c).value];
      assert sent[..|sent| - 1] == l.sent;
    }
  }

  lemma {:induction false} PushesSendNothing(l: Ledger, q: Queue, ms: seq<Message>)
    ensures NotePushes(l, q, ms).sent == l.sent
    decreases |ms|
  {
    hide Push, Replaced;
    if ms != [] {
      PushesSendNothing(NotePush(l, q, ms[0]), Push(q, ms[0]), ms[1..]);
    }
  }

  /** Nothing is written while a request is pending, and a successful write makes the written request pending. */
  lemma OneInFlight(c: Core, a: Action)
    ensures Flushed(c).Some? ==> c.pending.None?
    ensures c.pending.Some? ==> Writes(c, a) == []
    ensures a.Flush? && a.ok && Flushed(c).Some? ==>
      Next(c, a).pending.Some? && Next(c, a).pending.value.frame == Writes(c, a)
  {
  }

  /** In every run, when a frame goes out every frame before it has been answered or given up. */
  lemma OneFrameAtATime(timeout: nat, acts: seq<Action>, i: nat)
    requires i < |acts| && Writes(NextAll(InitialCore(timeout), acts[..i]), acts[i]) != []
    ensures var l := NoteAll(NOTHING, InitialCore(timeout), acts[..i]);
      |l.sent| == |l.outcomes|
  {
    hide NoteAll, NextAll, Writes;
    MessagesAreConserved(timeout, acts[..i]);
    OneInFlight(NextAll(InitialCore(timeout), acts[..i]), acts[i]);
  }

  /** At most one queued read per command comes from periodic polling: equal keys are never queued twice at a level. */
  lemma OneQueuedReadPerCommand(timeout: nat, acts: seq<Action>, command: byte, i: nat, j: nat)
    requires var low := NextAll(InitialCore(timeout), acts).queue.low;
      && i < |low| && j < |low|
      && low[i].coalesceKey == Some(PeriodicKey(command)) && low[j].coalesceKey == Some(PeriodicKey(command))
    ensures i == j
  {
    hide NoteAll, NextAll, PeriodicKey;
    MessagesAreConserved(timeout, acts);
  }

  /** The read that periodic polling queues for a command. */
  predicate IsPeriodicRead(m: Message, command: byte) {
    && m.frame == ReadFrame(command) && m.priority.Low?
    && m.coalesceKey == Some(PeriodicKey(command)) && m.expects.ExpectData?
  }

  /** A message that a caller enqueued, or a periodic read. */
  ghost predicate Known(m: Message, acts: seq<Action>) {
    Enqueue(m) in acts || exists command :: IsPeriodicRead(m, command)
  }

  ghost predicate AllKnown(c: Core, acts: seq<Action>) {
    && (forall m | m in c.queue.high || m in c.queue.low :: Known(m, acts))
    && (forall e | e in c.periodic :: e.key == PeriodicKey(e.command))
  }

  lemma PushKeepsKnown(q: Queue, m: Message, acts: seq<Action>)
    requires Known(m, acts) && forall x | x in q.high || x in q.low :: Known(x, acts)
    ensures forall x | x in Push(q, m).high || x in Push(q, m).low :: Known(x, acts)
  {
    hide Known;
  }

  lemma {:induction false} DueReadsArePeriodic(es: seq<Periodic>, now: nat)
    requires forall e | e in es :: e.key == PeriodicKey(e.command)
    ensures forall m | m in DueReads(es, now) :: IsPeriodicRead(m, CommandOf(m.frame))
  {
    hide Due, PeriodicKey;
    if es != [] {
      var m := ReadMessageOf(es[0]);
      assert CommandOf(m.frame) == es[0].command;
      DueReadsArePeriodic(es[1..], now);
    }
  }

  lemma {:induction false} PushAllKeepsKnown(q: Queue, ms: seq<Message>, acts: seq<Action>)
    requires forall m | m in ms :: Known(m, acts)
    requires forall x | x in q.high || x in q.low :: Known(x, acts)
    ensures forall x | x in PushAll(q, ms).high || x in PushAll(q, ms).low :: Known(x, acts)
    decreases |ms|
  {
    hide Known, Push;
    if ms != [] {
      PushKeepsKnown(q, ms[0], acts);
      PushAllKeepsKnown(Push(q, ms[0]), ms[1..], acts);
    }
  }

  lemma ActKeepsKnown(c: Core, a: Action, acts: seq<Action>)
    requires AllKnown(c, acts) && a in acts
    ensures AllKnown(Next(c, a), acts)
  {
    hide Known, PeriodicKey, Push, PushAll, DueReads, WithoutCommand, EventOfFrame, Due;
    match a {
      case Enqueue(m) =>
        assert Known(m, acts) by { KnownWhenEnqueued(m, acts); }
        PushKeepsKnown(c.queue, m, acts);
      case Schedule(now) =>
        DueReadsArePeriodic(c.periodic, now);
        forall m | m in DueReads(c.periodic, now)
          ensures Known(m, acts)
        {
          KnownWhenPeriodic(m, CommandOf(m.frame), acts);
        }
        PushAllKeepsKnown(c.queue, DueReads(c.periodic, now), acts);
      case AddPeriodic(command, _, _, _) => WithoutCommandIsExact(c.periodic, command);
      case RemovePeriodic(command) => WithoutCommandIsExact(c.periodic, command);
      case _ =>
    }
  }

  lemma KnownWhenEnqueued(m: Message, acts: seq<Action>)
    requires Enqueue(m) in acts
    ensures Known(m, acts)
  {
  }

  lemma KnownWhenPeriodic(m: Message, command: byte, acts: seq<Action>)
    requires IsPeriodicRead(m, command)
    ensures Known(m, acts)
  {
  }

  lemma {:induction false} RunKeepsKnown(c: Core, rest: seq<Action>, acts: seq<Action>)
    requires AllKnown(c, acts) && forall a | a in rest :: a in acts
    ensures AllKnown(NextAll(c, rest), acts)
    decreases |rest|
  {
    hide AllKnown, Next;
    if rest != [] {
      ActKeepsKnown(c, rest[0], acts);
      RunKeepsKnown(Next(c, rest[0]), rest[1..], acts);
    }
  }

  /**
   In every run, when the k-th due read of a look at the schedule is queued, what it replaces is the periodic read of
   its own command, or a message that a caller enqueued under that command's key.
   */
  lemma PeriodicReadsReplaceTheirOwn(timeout: nat, acts: seq<Action>, now: nat, k: nat)
    requires k < |DueReads(NextAll(InitialCore(timeout), acts).periodic, now)|
    ensures var c := NextAll(InitialCore(timeout), acts);
      var due := DueReads(c.periodic, now);
      var command := CommandOf(due[k].frame);
      var before := Replaced(PushAll(c.queue, due[..k]), due[k]);
      && IsPeriodicRead(due[k], command)
      && (before.Some? ==>
            || IsPeriodicRead(before.value, command)
            || (Enqueue(before.value) in acts && before.value.coalesceKey == Some(PeriodicKey(command))))
  {
    hide NextAll, PeriodicKey, PushAll, DueReads, CommandOf, ReadFrame;
    var c := NextAll(InitialCore(timeout), acts);
    var due := DueReads(c.periodic, now);
    RunKeepsKnown(InitialCore(timeout), acts, acts);
    DueReadsArePeriodic(c.periodic, now);
    forall m | m in due ensures Known(m, acts) { KnownWhenPeriodic(m, CommandOf(m.frame), acts); }
    var q := PushAll(c.queue, due[..k]);
    PushAllKeepsKnown(c.queue, due[..k], acts);
    var replaced := Replaced(q, due[k]);
    if replaced.Some? && Enqueue(replaced.value) !in acts {
      assert replaced.value in q.low;
      var other :| IsPeriodicRead(replaced.value, other);
      PeriodicKeyIsUnique(other, CommandOf(due[k].frame));
    }
  }

  // ---- The store agrees with the events ----

  /** The payloads of the DATA events for a command since its storage was last registered or cleared. */
  function DataLog(c: Core, acts: seq<Action>, command: byte, sofar: seq<Bytestring>): seq<Bytestring>
    decreases |acts|
  {
    if acts == [] then sofar
    else
      var a := acts[0];
      var next := if Restarts(a, command) then [] else sofar + DataPayloads(Events(c, a), command);
      DataLog(Next(c, a), acts[1..], command, next)
  }

  predicate Restarts(a: Action, command: byte) {
    a.ClearStorage? || ((a.RegisterStorage? || a.AddPeriodic?) && a.command == command)
  }

  function DataPayloads(events: seq<Event>, command: byte): seq<Bytestring> {
    if events == [] then []
    else
      (if events[0].DataEvent? && events[0].command == command then [events[0].payload] else [])
      + DataPayloads(events[1..], command)
  }

  lemma OnePayload(e: Event, command: byte)
    ensures DataPayloads([e], command) == if e.DataEvent? && e.command == command then [e.payload] else []
  {
    assert [e][1..] == [];
  }

  lemma OneActLog(c: Core, a: Action, command: byte, sofar: seq<Bytestring>)
    ensures DataLog(c, [a], command, sofar) ==
            if Restarts(a, command) then [] else sofar + DataPayloads(Events(c, a), command)
  {
    hide Next, Events;
    assert [a][1..] == [];
  }

  lemma NextKeepsLog(c: Core, a: Action, command: byte, sofar: seq<Bytestring>)
    requires command in c.store ==> c.store[command].log == sofar
    ensures var next := DataLog(c, [a], command, sofar);
      command in Next(c, a).store ==> Next(c, a).store[command].log == next
  {
    hide DataLog, EventOfFrame, AfterFrame, PushAll, DueReads, AdvanceAll, Push, Pop;
    OneActLog(c, a, command, sofar);
    assert DataPayloads([], command) == [] && sofar + [] == sofar;
    match a {
      case Receive(f) =>
        OnePayload(EventOfFrame(c, f), command);
        FrameKeepsLog(c, f, command, sofar);
      case CheckTimeout(now) =>
        if Expired(c, now) {
          OnePayload(TimeoutEvent(c.pending.value.frame), command);
        }
      case ReadError =>
        OnePayload(ErrorEvent(ReadFailed), command);
      case Flush(_, _) =>
        OnePayload(ErrorEvent(WriteFailed), command);
      case _ =>
    }
  }

  lemma FrameKeepsLog(c: Core, f: HostParser.ParsedFrame, command: byte, sofar: seq<Bytestring>)
    requires command in c.store ==> c.store[command].log == sofar
    ensures var event, after := EventOfFrame(c, f), AfterFrame(c, f).store;
      command in after ==>
        after[command].log == sofar + if event.DataEvent? && event.command == command then [event.payload] else []
  {
  }

  lemma {:induction false} RunKeepsLog(c: Core, acts: seq<Action>, command: byte, sofar: seq<Bytestring>)
    requires command in c.store ==> c.store[command].log == sofar
    ensures command in NextAll(c, acts).store ==>
      NextAll(c, acts).store[command].log == DataLog(c, acts, command, sofar)
    decreases |acts|
  {
    hide Next, Events;
    if acts != [] {
      var a := acts[0];
      NextKeepsLog(c, a, command, sofar);
      OneActLog(c, a, command, sofar);
      RunKeepsLog(Next(c, a), acts[1..], command, DataLog(c, [a], command, sofar));
    }
  }

  /** The capacity given in the latest registration of storage for a command. */
  function LatestCapacity(acts: seq<Action>, command: byte, sofar: Option<nat>): Option<nat>
    decreases |acts|
  {
    if acts == [] then sofar
    else
      var a := acts[0];
      var next := if (a.RegisterStorage? || a.AddPeriodic?) && a.command == command then Some(a.capacity) else sofar;
      LatestCapacity(acts[1..], command, next)
  }

  lemma {:induction false} RunKeepsCapacity(c: Core, acts: seq<Action>, command: byte, sofar: Option<nat>)
    requires sofar == CapacityOf(c.store, command)
    ensures LatestCapacity(acts, command, sofar) == CapacityOf(NextAll(c, acts).store, command)
    decreases |acts|
  {
    hide Next;
    if acts != [] {
      ActKeepsCapacity(c, acts[0], command);
      RunKeepsCapacity(Next(c, acts[0]), acts[1..], command, CapacityOf(Next(c, acts[0]).store, command));
    }
  }

  function CapacityOf(st: Store, command: byte): Option<nat> {
    if command in st then Some(st[command].capacity) else None
  }

  lemma ActKeepsCapacity(c: Core, a: Action, command: byte)
    ensures CapacityOf(Next(c, a).store, command) ==
      if (a.RegisterStorage? || a.AddPeriodic?) && a.command == command then Some(a.capacity)
      else CapacityOf(c.store, command)
  {
    hide EventOfFrame, PushAll, DueReads, AdvanceAll, Push, Pop, PeriodicKey, WithoutCommand;
    if a.Receive? {
      FrameIsExact(c, a.f);
    }
  }

  /**
   In every run of a new client, the ring buffer of a command holds exactly the last min(capacity, n) payloads of the n
   DATA events reported for it since its latest registration or clear, late ones included, and its sequence number is n.
   The capacity is the one given in that registration, and a command has storage exactly if it was ever registered.
   */
  lemma StoreAgreesWithEvents(timeout: nat, acts: seq<Action>, command: byte)
    requires command in NextAll(InitialCore(timeout), acts).store
    ensures var ring := NextAll(InitialCore(timeout), acts).store[command];
      var log := DataLog(InitialCore(timeout), acts, command, []);
      && |ring.log| == |log|
      && LatestCapacity(acts, command, None) == Some(ring.capacity)
      && Held(ring) == (if |log| <= ring.capacity then log else log[|log| - ring.capacity..])
  {
    hide NextAll, DataLog, LatestCapacity;
    RunKeepsLog(InitialCore(timeout), acts, command, []);
    RunKeepsCapacity(InitialCore(timeout), acts, command, None);
  }
}
