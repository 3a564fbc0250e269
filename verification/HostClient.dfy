/**
 The host client: one request in flight, replies matched by command and kind, timeouts,
 and periodic reads on a fixed grid. Its behaviour is given as actions on a Core; `poll`
 is proved to be a sequence of such actions, so that what holds of every sequence of
 actions (ClientRuns.dfy) holds of every use of the client. The clock is a parameter.
 */
module HostClient {
  import opened Bytes
  import opened MessageQueue
  import opened Storage
  import opened HostParser
  import Framing

  datatype Pending = Pending(frame: seq<byte>, command: byte, sentAt: nat, timeout: nat, expects: ExpectedReply)

  datatype Periodic = Periodic(
    command: byte,
    interval: nat,
    key: string,
    nextDue: Option<nat>,
    responseTimeout: Option<nat>)

  datatype Core = Core(
    queue: Queue,
    responseTimeout: nat,
    pending: Option<Pending>,
    periodic: seq<Periodic>,
    store: Store)

  datatype Trouble =
    | MismatchedAck(expected: byte, got: byte)
    | UnexpectedAck(command: byte)
    | MismatchedNack(expected: byte, got: byte)
    | MismatchedData(expected: byte, got: byte)
    | UnexpectedData(command: byte)
    | ReadFailed
    | WriteFailed

  datatype Event =
    | AckEvent(command: byte)
    | NackEvent(command: byte)
    | DataEvent(command: byte, payload: seq<byte>)
    | NotificationEvent(payload: seq<byte>)
    | TimeoutEvent(frame: seq<byte>)
    | ErrorEvent(trouble: Trouble)

  function InitialCore(responseTimeout: nat): Core {
    Core(EMPTY, responseTimeout, None, [], map[])
  }

  // ---- Replies ----

  /** The frame ends the request: its command, and its kind unless it is a NACK, fit. */
  predicate Completes(f: ParsedFrame, command: byte, expects: ExpectedReply) {
    match f
    case Ack(c) => c == command && expects.ExpectAck?
    case Nack(c) => c == command
    case Data(c, _) => c == command && expects.ExpectData?
    case Notification(_) => false
  }

  predicate CompletesPending(c: Core, f: ParsedFrame) {
    c.pending.Some? && Completes(f, c.pending.value.command, c.pending.value.expects)
  }

  function AfterFrame(c: Core, f: ParsedFrame): Core {
    match f
    case Ack(cmd) =>
      if c.pending.None? then c
      else if c.pending.value.command != cmd then c
      else if !c.pending.value.expects.ExpectAck? then c
      else c.(pending := None)
    case Nack(cmd) =>
      if c.pending.None? then c
      else if c.pending.value.command != cmd then c
      else c.(pending := None)
    case Data(cmd, payload) =>
      var stored := c.(store := Stored(c.store, cmd, payload));
      if c.pending.None? then stored
      else if c.pending.value.command == cmd && c.pending.value.expects.ExpectData? then stored.(pending := None)
      else stored
    case Notification(_) => c
  }

  function EventOfFrame(c: Core, f: ParsedFrame): Event {
    match f
    case Ack(cmd) =>
      if c.pending.None? then AckEvent(cmd)
      else if c.pending.value.command != cmd then ErrorEvent(MismatchedAck(c.pending.value.command, cmd))
      else if !c.pending.value.expects.ExpectAck? then ErrorEvent(UnexpectedAck(cmd))
      else AckEvent(cmd)
    case Nack(cmd) =>
      if c.pending.None? then NackEvent(cmd)
      else if c.pending.value.command != cmd then ErrorEvent(MismatchedNack(c.pending.value.command, cmd))
      else NackEvent(cmd)
    case Data(cmd, payload) =>
      if c.pending.None? || CompletesPending(c, f) || cmd in c.store then DataEvent(cmd, payload)
      else if c.pending.value.command != cmd then ErrorEvent(MismatchedData(c.pending.value.command, cmd))
      else ErrorEvent(UnexpectedData(cmd))
    case Notification(payload) => NotificationEvent(payload)
  }

  /** The frame answers the pending request: a NACK for its command, or the kind of reply that it expects. */
  predicate AnswersPending(c: Core, f: ParsedFrame) {
    c.pending.Some? &&
    var p := c.pending.value;
    match f
    case Nack(command) => command == p.command
    case Ack(command) => command == p.command && p.expects == ExpectAck
    case Data(command, _) => command == p.command && p.expects == ExpectData
    case Notification(_) => false
  }

  /**
   A frame clears the pending request exactly if it answers it, and stores exactly a DATA
   payload for a command with storage. It is reported as itself, unless a request is pending
   that it does not answer: then as the trouble, unless it is DATA for a command with storage.
   */
  lemma FrameIsExact(c: Core, f: ParsedFrame)
    ensures var d := AfterFrame(c, f);
      && d == c.(pending := d.pending, store := d.store)
      && d.pending == (if AnswersPending(c, f) then None else c.pending)
      && d.store.Keys == c.store.Keys
      && forall k | k in c.store ::
           if f.Data? && f.command == k
           then d.store[k] == c.store[k].(log := c.store[k].log + [f.payload])
           else d.store[k] == c.store[k]
    ensures EventOfFrame(c, f) ==
      match f
      case Notification(payload) => NotificationEvent(payload)
      case _ =>
        var expected := if c.pending.Some? then c.pending.value.command else f.command;
        if c.pending.None? || AnswersPending(c, f) || (f.Data? && f.command in c.store) then
          if f.Ack? then AckEvent(f.command)
          else if f.Nack? then NackEvent(f.command)
          else DataEvent(f.command, f.payload)
        else if f.Ack? then
          ErrorEvent(if expected != f.command then MismatchedAck(expected, f.command) else UnexpectedAck(f.command))
        else if f.Nack? then ErrorEvent(MismatchedNack(expected, f.command))
        else if expected != f.command then ErrorEvent(MismatchedData(expected, f.command))
        else ErrorEvent(UnexpectedData(f.command))
  {
  }

  // ---- Timeouts, scheduling, sending ----

  /** Time since an instant; an instant in the future counts as now. */
  function Elapsed(now: nat, since: nat): nat {
    if now >= since then now - since else 0
  }

  predicate Expired(c: Core, now: nat) {
    c.pending.Some? && Elapsed(now, c.pending.value.sentAt) >= c.pending.value.timeout
  }

  predicate Due(e: Periodic, now: nat) {
    e.nextDue.None? || now >= e.nextDue.value
  }

  /** The entry after a look at time `now`: on the grid, or restarted from now after a stall. */
  function Advance(e: Periodic, now: nat): Periodic {
    if !Due(e, now) then e
    else
      var next := if e.nextDue.None? then now else e.nextDue.value + e.interval;
      e.(nextDue := Some(if now >= next then now + e.interval else next))
  }

  function AdvanceAll(es: seq<Periodic>, now: nat): (r: seq<Periodic>)
    ensures |r| == |es| && forall i | 0 <= i < |es| :: r[i] == Advance(es[i], now)
  {
    if es == [] then [] else [Advance(es[0], now)] + AdvanceAll(es[1..], now)
  }

  function ReadFrame(command: byte): seq<byte> {
    Framing.Encode(Framing.ToDevice(false, 0), Framing.Wire(0, 0, command, []))
  }

  function WriteFrame(command: byte, data: seq<byte>): seq<byte> {
    Framing.Encode(Framing.ToDevice(false, 0), Framing.Wire(0, 1, command, data))
  }

  function ReadMessageOf(e: Periodic): Message {
    Message(ReadFrame(e.command), Low, Some(e.key), e.responseTimeout, ExpectData)
  }

  /** The reads that become due at `now`, in registration order. */
  function DueReads(es: seq<Periodic>, now: nat): seq<Message> {
    if es == [] then []
    else (if Due(es[0], now) then [ReadMessageOf(es[0])] else []) + DueReads(es[1..], now)
  }

  function PushAll(q: Queue, ms: seq<Message>): Queue
    decreases |ms|
  {
    if ms == [] then q else PushAll(Push(q, ms[0]), ms[1..])
  }

  function CommandOf(frame: seq<byte>): byte {
    if |frame| > 2 then frame[2] else 0
  }

  function InFlight(c: Core, m: Message, now: nat): Pending {
    var timeout := if m.responseTimeout.Some? then m.responseTimeout.value else c.responseTimeout;
    Pending(m.frame, CommandOf(m.frame), now, timeout, m.expects)
  }

  // ---- Actions ----

  datatype Action =
    | Enqueue(m: Message)
    | Receive(f: ParsedFrame)
    | ReadError
    | CheckTimeout(now: nat)
    | Schedule(now: nat)
    | Flush(now: nat, ok: bool)
    | ClearQueue
    | AddPeriodic(command: byte, interval: nat, capacity: nat, timeout: Option<nat>)
    | RemovePeriodic(command: byte)
    | RegisterStorage(command: byte, capacity: nat)
    | ClearStorage

  function Digits(n: nat): string
    decreases n
  {
    (if n < 10 then [] else Digits(n / 10)) + ["0123456789"[n % 10]]
  }

  function PeriodicKey(command: byte): string {
    "periodic_" + Digits(command as int)
  }

  lemma DigitIsUnique(a: nat, b: nat)
    requires a < 10 && b < 10 && "0123456789"[a] == "0123456789"[b]
    ensures a == b
  {
  }

  lemma DigitsLast(n: nat)
    ensures Digits(n) != [] && Digits(n)[|Digits(n)| - 1] == "0123456789"[n % 10]
    ensures Digits(n)[..|Digits(n)| - 1] == if n < 10 then [] else Digits(n / 10)
  {
  }

  lemma {:induction false} DigitsAreUnique(m: nat, n: nat)
    requires Digits(m) == Digits(n)
    ensures m == n
    decreases m
  {
    hide Digits;
    DigitsLast(m);
    DigitsLast(n);
    DigitIsUnique(m % 10, n % 10);
    if m >= 10 {
      DigitsLast(m / 10);
    }
    if n >= 10 {
      DigitsLast(n / 10);
    }
    if m >= 10 && n >= 10 {
      DigitsAreUnique(m / 10, n / 10);
    }
  }

  /** Different commands have different keys. */
  lemma PeriodicKeyIsUnique(x: byte, y: byte)
    ensures PeriodicKey(x) == PeriodicKey(y) <==> x == y
  {
    hide Digits;
    if PeriodicKey(x) == PeriodicKey(y) {
      var n := |"periodic_"|;
      assert PeriodicKey(x)[n..] == Digits(x as int) && PeriodicKey(y)[n..] == Digits(y as int);
      DigitsAreUnique(x as int, y as int);
    }
  }

  /** The key is the prefix and the command in decimal, without leading zeros. */
  lemma PeriodicKeyIsDecimal(command: byte)
    ensures PeriodicKey(command) == "periodic_" + Decimal(command as int)
  {
    hide Digits, Decimal;
    DigitsAreDecimal(command as int);
  }

  function DecimalDigit(k: nat): char
    requires k < 10
  {
    ('0' as int + k) as char
  }

  /** A number below 1000 in decimal. */
  function Decimal(n: nat): string
    requires n < 1000
  {
    if n < 10 then [DecimalDigit(n)]
    else if n < 100 then [DecimalDigit(n / 10), DecimalDigit(n % 10)]
    else [DecimalDigit(n / 100), DecimalDigit((n / 10) % 10), DecimalDigit(n % 10)]
  }

  lemma DigitIsDecimal(k: nat)
    requires k < 10
    ensures "0123456789"[k] == DecimalDigit(k)
  {
    if k == 0 {} else if k == 1 {} else if k == 2 {} else if k == 3 {} else if k == 4 {}
    else if k == 5 {} else if k == 6 {} else if k == 7 {} else if k == 8 {} else {}
  }

  lemma DigitsSplit(n: nat)
    ensures Digits(n) == (if n < 10 then [] else Digits(n / 10)) + [DecimalDigit(n % 10)]
  {
    hide DecimalDigit;
    DigitIsDecimal(n % 10);
  }

  lemma DigitsAreDecimal(n: nat)
    requires n < 1000
    ensures Digits(n) == Decimal(n)
  {
    hide Digits, DecimalDigit;
    DigitsSplit(n);
    if n >= 10 {
      DigitsSplit(n / 10);
      if n >= 100 {
        DigitsSplit(n / 10 / 10);
      }
    }
  }

  function WithoutCommand(es: seq<Periodic>, command: byte): seq<Periodic> {
    if es == [] then []
    else (if es[0].command != command then [es[0]] else []) + WithoutCommand(es[1..], command)
  }

  /** The message that a flush takes from the queue. */
  function Flushed(c: Core): Option<Message> {
    if c.pending.Some? then None else Pop(c.queue).1
  }

  function Next(c: Core, a: Action): Core {
    match a
    case Enqueue(m) => c.(queue := Push(c.queue, m))
    case Receive(f) => AfterFrame(c, f)
    case ReadError => c
    case CheckTimeout(now) => if Expired(c, now) then c.(pending := None) else c
    case Schedule(now) =>
      c.(periodic := AdvanceAll(c.periodic, now), queue := PushAll(c.queue, DueReads(c.periodic, now)))
    case Flush(now, ok) =>
      (match Flushed(c)
       case None => c
       case Some(m) => c.(queue := Pop(c.queue).0, pending := if ok then Some(InFlight(c, m, now)) else None))
    case ClearQueue => c.(queue := EMPTY)
    case AddPeriodic(command, interval, capacity, timeout) =>
      var entry := Periodic(command, interval, PeriodicKey(command), None, timeout);
      c.(periodic := WithoutCommand(c.periodic, command) + [entry], store := Registered(c.store, command, capacity))
    case RemovePeriodic(command) => c.(periodic := WithoutCommand(c.periodic, command))
    case RegisterStorage(command, capacity) => c.(store := Registered(c.store, command, capacity))
    case ClearStorage => c.(store := Cleared(c.store))
  }

  function Events(c: Core, a: Action): seq<Event> {
    match a
    case Receive(f) => [EventOfFrame(c, f)]
    case ReadError => [ErrorEvent(ReadFailed)]
    case CheckTimeout(now) => if Expired(c, now) then [TimeoutEvent(c.pending.value.frame)] else []
    case Flush(_, ok) => if Flushed(c).Some? && !ok then [ErrorEvent(WriteFailed)] else []
    case _ => []
  }

  /** The bytes that an action puts on the transport. */
  function Writes(c: Core, a: Action): seq<byte> {
    if a.Flush? && a.ok && Flushed(c).Some? then Flushed(c).value.frame else []
  }

  function NextAll(c: Core, acts: seq<Action>): Core
    decreases |acts|
  {
    if acts == [] then c else NextAll(Next(c, acts[0]), acts[1..])
  }

  function EventsAll(c: Core, acts: seq<Action>): seq<Event>
    decreases |acts|
  {
    if acts == [] then [] else Events(c, acts[0]) + EventsAll(Next(c, acts[0]), acts[1..])
  }

  function WritesAll(c: Core, acts: seq<Action>): seq<byte>
    decreases |acts|
  {
    if acts == [] then [] else Writes(c, acts[0]) + WritesAll(Next(c, acts[0]), acts[1..])
  }

  // ---- Poll ----

  const READ_BUF_SIZE: nat := 4096

  /**
   What one `transport.read` returns: up to READ_BUF_SIZE bytes (none when there are none), a timeout, or an error.
   */
  datatype ReadResult = Chunk(bytes: seq<byte>) | NothingYet | Failed

  /**
   The bytes taken in by the read loop: it goes on only after a full buffer. Results that run out count as no data.
   */
  function BytesRead(results: seq<ReadResult>): seq<byte> {
    if results == [] || !results[0].Chunk? then []
    else if |results[0].bytes| < READ_BUF_SIZE then results[0].bytes
    else results[0].bytes + BytesRead(results[1..])
  }

  predicate ReadFails(results: seq<ReadResult>) {
    results != [] &&
    (results[0].Failed? || (results[0].Chunk? && |results[0].bytes| >= READ_BUF_SIZE && ReadFails(results[1..])))
  }

  function Received(fs: seq<ParsedFrame>): seq<Action> {
    if fs == [] then [] else [Receive(fs[0])] + Received(fs[1..])
  }

  /** The three instants at which a poll reads the clock. */
  datatype Clock = Clock(checked: nat, scheduled: nat, sent: nat)

  function Reading(fs: seq<ParsedFrame>, failed: bool): seq<Action> {
    Received(fs) + if failed then [ReadError] else []
  }

  function Tail(t: Clock, ok: bool): seq<Action> {
    [CheckTimeout(t.checked), Schedule(t.scheduled), Flush(t.sent, ok)]
  }

  function ReadActions(p: HostParser.State, results: seq<ReadResult>): seq<Action>
    requires HostParser.Valid(p)
  {
    Reading(Output(p, BytesRead(results)), ReadFails(results))
  }

  /** One poll cycle: read and match, check the timeout, schedule, send. */
  function PollActions(p: HostParser.State, results: seq<ReadResult>, t: Clock, ok: bool): seq<Action>
    requires HostParser.Valid(p)
  {
    ReadActions(p, results) + Tail(t, ok)
  }

  /**
   A timeout check gives up the pending request exactly when its timeout has passed since it was sent, reports exactly
   that request's frame, and changes nothing else.
   */
  lemma TimeoutIsExact(c: Core, now: nat)
    ensures var d := Next(c, CheckTimeout(now));
      && d == c.(pending := d.pending)
      && match c.pending
         case None => d.pending.None? && Events(c, CheckTimeout(now)) == []
         case Some(p) =>
           if p.timeout == 0 || (now >= p.sentAt && now - p.sentAt >= p.timeout)
           then d.pending.None? && Events(c, CheckTimeout(now)) == [TimeoutEvent(p.frame)]
           else d.pending == Some(p) && Events(c, CheckTimeout(now)) == []
  {
  }

  /** A flush sends the message at the head of the queue as it is, and waits for its reply from now on. */
  lemma SendingIsExact(c: Core, now: nat, ok: bool)
    ensures var d := Next(c, Flush(now, ok));
      if c.pending.Some? || (c.queue.high == [] && c.queue.low == [])
      then d == c && Events(c, Flush(now, ok)) == [] && Writes(c, Flush(now, ok)) == []
      else
        var m := if c.queue.high != [] then c.queue.high[0] else c.queue.low[0];
        && d == c.(queue := d.queue, pending := d.pending)
        && d.queue.high == (if c.queue.high != [] then c.queue.high[1..] else [])
        && d.queue.low == (if c.queue.high != [] then c.queue.low else c.queue.low[1..])
        && Writes(c, Flush(now, ok)) == (if ok then m.frame else [])
        && Events(c, Flush(now, ok)) == (if ok then [] else [ErrorEvent(WriteFailed)])
        && (d.pending.Some? <==> ok)
        && (ok ==>
              var p := d.pending.value;
              && p.frame == m.frame && p.sentAt == now && p.expects == m.expects
              && (|m.frame| > 2 ==> p.command == m.frame[2])
              && (m.responseTimeout.Some? ==> p.timeout == m.responseTimeout.value)
              && (m.responseTimeout.None? ==> p.timeout == c.responseTimeout))
  {
  }

  lemma NoActs(c: Core)
    ensures NextAll(c, []) == c && EventsAll(c, []) == [] && WritesAll(c, []) == []
  {
  }

  lemma FirstAct(c: Core, a: Action, rest: seq<Action>)
    ensures NextAll(c, [a] + rest) == NextAll(Next(c, a), rest)
    ensures EventsAll(c, [a] + rest) == Events(c, a) + EventsAll(Next(c, a), rest)
    ensures WritesAll(c, [a] + rest) == Writes(c, a) + WritesAll(Next(c, a), rest)
  {
    hide Next, Events, Writes;
    assert ([a] + rest)[1..] == rest;
  }

  /** What a poll does after reading, step by step. */
  lemma TailActs(c: Core, t: Clock, ok: bool)
    ensures var c1 := Next(c, CheckTimeout(t.checked));
      var c2 := Next(c1, Schedule(t.scheduled));
      && NextAll(c, Tail(t, ok)) == Next(c2, Flush(t.sent, ok))
      && EventsAll(c, Tail(t, ok)) == Events(c, CheckTimeout(t.checked)) + Events(c2, Flush(t.sent, ok))
      && WritesAll(c, Tail(t, ok)) == Writes(c2, Flush(t.sent, ok))
  {
    hide Next, NextAll, EventsAll, WritesAll;
    var a, b, f := CheckTimeout(t.checked), Schedule(t.scheduled), Flush(t.sent, ok);
    var c1 := Next(c, a);
    var c2 := Next(c1, b);
    assert Tail(t, ok) == [a] + ([b] + ([f] + []));
    FirstAct(c, a, [b] + ([f] + []));
    FirstAct(c1, b, [f] + []);
    FirstAct(c2, f, []);
    NoActs(Next(c2, f));
    assert Writes(c, a) == [] && Writes(c1, b) == [] && Events(c1, b) == [];
  }

  /** Reading writes nothing, and a read error changes nothing but the events. */
  lemma {:induction false} ReadingWritesNothing(c: Core, fs: seq<ParsedFrame>, failed: bool)
    ensures WritesAll(c, Reading(fs, failed)) == [] && NextAll(c, Reading(fs, failed)) == NextAll(c, Received(fs))
    decreases |fs|
  {
    hide NextAll, EventsAll, WritesAll;
    if fs == [] {
      NoActs(c);
      if failed {
        assert Reading(fs, failed) == [ReadError] + [];
        FirstAct(c, ReadError, []);
      } else {
        assert Reading(fs, failed) == [];
      }
    } else {
      assert Reading(fs, failed) == [Receive(fs[0])] + Reading(fs[1..], failed);
      FirstAct(c, Receive(fs[0]), Reading(fs[1..], failed));
      FirstAct(c, Receive(fs[0]), Received(fs[1..]));
      ReadingWritesNothing(Next(c, Receive(fs[0])), fs[1..], failed);
    }
  }

  lemma {:induction false} ActConcat(c: Core, a: seq<Action>, b: seq<Action>)
    ensures NextAll(c, a + b) == NextAll(NextAll(c, a), b)
    ensures EventsAll(c, a + b) == EventsAll(c, a) + EventsAll(NextAll(c, a), b)
    ensures WritesAll(c, a + b) == WritesAll(c, a) + WritesAll(NextAll(c, a), b)
    decreases |a|
  {
    hide Next, Events, Writes;
    if a == [] {
      assert a + b == b;
    } else {
      assert (a + b)[1..] == a[1..] + b;
      ActConcat(Next(c, a[0]), a[1..], b);
    }
  }

  /** Received frames touch neither queue nor schedule, and of the pending slot they can only clear it. */
  lemma {:induction false} ReceivingKeepsQueue(c: Core, fs: seq<ParsedFrame>)
    ensures var d := NextAll(c, Received(fs));
      && d.queue == c.queue && d.periodic == c.periodic && d.responseTimeout == c.responseTimeout
      && (d.pending == c.pending || d.pending.None?)
    decreases |fs|
  {
    hide Next;
    if fs != [] {
      ReceiveKeepsQueue(c, fs[0]);
      ReceivingKeepsQueue(Next(c, Receive(fs[0])), fs[1..]);
      assert Received(fs)[1..] == Received(fs[1..]);
    }
  }

  lemma ReceiveKeepsQueue(c: Core, f: ParsedFrame)
    ensures var d := Next(c, Receive(f));
      && d.queue == c.queue && d.periodic == c.periodic && d.responseTimeout == c.responseTimeout
      && (d.pending == c.pending || d.pending.None?)
  {
  }

  lemma {:induction false} ReceivedConcat(a: seq<ParsedFrame>, b: seq<ParsedFrame>)
    ensures Received(a + b) == Received(a) + Received(b)
    decreases |a|
  {
    if a == [] {
      assert a + b == b;
    } else {
      assert (a + b)[1..] == a[1..] + b;
      ReceivedConcat(a[1..], b);
    }
  }

  /** A full buffer is followed by the rest of the read loop; a short one, an error or a timeout ends it. */
  lemma ReadStep(p: HostParser.State, results: seq<ReadResult>)
    requires HostParser.Valid(p) && results != [] && results[0].Chunk?
    ensures var bytes := results[0].bytes;
      var read, fs := Received(Output(p, bytes)), BytesRead(results);
      if |bytes| < 4096
      then ReadActions(p, results) == read && fs == bytes
      else
        var q, rest := After(p, bytes), results[1..];
        ReadActions(p, results) == read + ReadActions(q, rest) && After(p, fs) == After(q, BytesRead(rest))
  {
    hide After, Output;
    var bytes := results[0].bytes;
    if |bytes| >= READ_BUF_SIZE {
      var rest := BytesRead(results[1..]);
      HostParser.RunConcat(p, bytes, rest);
      ReceivedConcat(Output(p, bytes), Output(After(p, bytes), rest));
      assert BytesRead(results) == bytes + rest;
    }
  }

  /** Without a chunk of data the read loop ends, with an error if the read failed. */
  lemma ReadEnds(c: Core, p: HostParser.State, results: seq<ReadResult>)
    requires HostParser.Valid(p) && (results == [] || !results[0].Chunk?)
    ensures BytesRead(results) == []
    ensures ReadActions(p, results) == if results != [] && results[0].Failed? then [ReadError] else []
    ensures NextAll(c, ReadActions(p, results)) == c
    ensures EventsAll(c, ReadActions(p, results)) ==
            if results != [] && results[0].Failed? then [ErrorEvent(ReadFailed)] else []
  {
    if results != [] && results[0].Failed? {
      assert [ReadError][1..] == [];
    }
  }

  // ---- Registrations ----

  lemma {:induction false} WithoutCommandIsExact(es: seq<Periodic>, command: byte)
    ensures forall e :: e in WithoutCommand(es, command) <==> e in es && e.command != command
  {
    if es != [] {
      WithoutCommandIsExact(es[1..], command);
    }
  }

  /**
   A registration leaves one entry for its command, not yet scheduled, with the interval and timeout it was given, and a
   new ring of the capacity it was given; removing it takes the command's entries away and nothing else.
   */
  lemma RegistrationIsExact(c: Core, command: byte, interval: nat, capacity: nat, timeout: Option<nat>)
    ensures var d := Next(c, AddPeriodic(command, interval, capacity, timeout));
      var e := Periodic(command, interval, PeriodicKey(command), None, timeout);
      && d == c.(periodic := d.periodic, store := d.store)
      && (forall x :: x in d.periodic <==> x == e || (x in c.periodic && x.command != command))
      && d.store == c.store[command := RingLog(capacity, [])]
    ensures var d := Next(c, RemovePeriodic(command));
      && d == c.(periodic := d.periodic)
      && (forall x :: x in d.periodic <==> x in c.periodic && x.command != command)
    ensures Next(c, RegisterStorage(command, capacity)) == c.(store := c.store[command := RingLog(capacity, [])])
  {
    hide PeriodicKey, WithoutCommand;
    WithoutCommandIsExact(c.periodic, command);
  }
}
