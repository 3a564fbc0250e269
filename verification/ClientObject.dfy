/** The client as the object it is in the runtime, each method proved to be its actions of HostClient.dfy. */
module ClientObject {
  import opened Bytes
  import opened MessageQueue
  import opened Storage
  import opened HostParser
  import opened HostClient
  import Framing

  class Client {
    const parser: FrameParser
    const queue: PriorityQueue
    const store: DataStore
    const responseTimeout: nat
    var pending: Option<Pending>
    var periodic: seq<Periodic>

    ghost predicate Ready()
      reads this, parser, queue, store, store.Repr
    {
      && HostParser.Valid(parser.Abs()) && store.Valid()
      && this !in store.Repr && parser !in store.Repr && queue !in store.Repr
    }

    ghost function Abs(): Core
      reads this, parser, queue, store, store.Repr
      requires Ready()
    {
      Core(queue.Abs(), responseTimeout, pending, periodic, store.Abs())
    }

    constructor (responseTimeout: nat)
      ensures Ready() && fresh(parser) && fresh(queue) && fresh(store) && fresh(store.Repr)
      ensures Abs() == InitialCore(responseTimeout) && parser.Abs() == Initial(false)
    {
      this.parser := new FrameParser(false);
      this.queue := new PriorityQueue();
      this.store := new DataStore();
      this.responseTimeout := responseTimeout;
      this.pending := None;
      this.periodic := [];
    }

    method ReadRequest(command: byte, priority: Priority, coalesceKey: Option<string>)
      requires Ready()
      modifies queue
      ensures Ready() && parser.Abs() == old(parser.Abs())
      ensures Abs() == Next(old(Abs()), Enqueue(Message(ReadFrame(command), priority, coalesceKey, None, ExpectData)))
    {
      hide Push, Framing.Encode, HostParser.Valid, DataStore.Valid, DataStore.Abs;
      var frame := Framing.BuildReadFrame(false, 0, command);
      queue.PushMessage(Message(frame, priority, coalesceKey, None, ExpectData));
    }

    method PushWrite(command: byte, data: seq<byte>, expects: ExpectedReply)
      requires Ready()
      modifies queue
      ensures Ready() && parser.Abs() == old(parser.Abs())
      ensures Abs() == Next(old(Abs()), Enqueue(Message(WriteFrame(command, data), High, None, None, expects)))
      ensures |data| < 65536 ==>
                var frame := [0x55, 0x01] + Framing.LongTail(command, data);
                queue.high == old(queue.high) + [Message(frame, High, None, None, expects)]
    {
      hide Framing.Encode, Framing.LongTail, HostParser.Valid, DataStore.Valid, DataStore.Abs;
      if |data| < 65536 {
        Framing.FrameBytes(0, command, data, 0);
      }
      var frame := Framing.BuildWriteFrame(false, 0, command, data);
      queue.PushMessage(Message(frame, High, None, None, expects));
    }

    method WriteRequest(command: byte, data: seq<byte>)
      requires Ready()
      modifies queue
      ensures Ready() && parser.Abs() == old(parser.Abs())
      ensures Abs() == Next(old(Abs()), Enqueue(Message(WriteFrame(command, data), High, None, None, ExpectAck)))
      ensures |data| < 65536 ==>
                var frame := [0x55, 0x01] + Framing.LongTail(command, data);
                queue.high == old(queue.high) + [Message(frame, High, None, None, ExpectAck)]
    {
      PushWrite(command, data, ExpectAck);
    }

    method QueryRequest(command: byte, data: seq<byte>)
      requires Ready()
      modifies queue
      ensures Ready() && parser.Abs() == old(parser.Abs())
      ensures Abs() == Next(old(Abs()), Enqueue(Message(WriteFrame(command, data), High, None, None, ExpectData)))
      ensures |data| < 65536 ==>
                var frame := [0x55, 0x01] + Framing.LongTail(command, data);
                queue.high == old(queue.high) + [Message(frame, High, None, None, ExpectData)]
    {
      PushWrite(command, data, ExpectData);
    }

    method HandleFrame(f: ParsedFrame) returns (event: Event)
      requires Ready()
      modifies this`pending, store.Repr
      ensures Ready() && store.Repr == old(store.Repr) && parser.Abs() == old(parser.Abs())
      ensures Abs() == Next(old(Abs()), Receive(f)) && [event] == Events(old(Abs()), Receive(f))
    {
      hide Stored, HostParser.Valid, MessageQueue.Push, DataStore.Valid, DataStore.Abs;
      match f {
        case Ack(cmd) =>
          if pending.Some? {
            if pending.value.command != cmd {
              return ErrorEvent(MismatchedAck(pending.value.command, cmd));
            }
            if !pending.value.expects.ExpectAck? {
              return ErrorEvent(UnexpectedAck(cmd));
            }
            pending := None;
          }
          return AckEvent(cmd);
        case Nack(cmd) =>
          if pending.Some? {
            if pending.value.command != cmd {
              return ErrorEvent(MismatchedNack(pending.value.command, cmd));
            }
            pending := None;
          }
          return NackEvent(cmd);
        case Data(cmd, payload) =>
          event := HandleData(cmd, payload);
        case Notification(payload) =>
          return NotificationEvent(payload);
      }
    }

    /** A DATA frame is stored whenever its command has storage, whether or not it completes the pending request. */
    method HandleData(cmd: byte, payload: seq<byte>) returns (event: Event)
      requires Ready()
      modifies this`pending, store.Repr
      ensures Ready() && store.Repr == old(store.Repr) && parser.Abs() == old(parser.Abs())
      ensures Abs() == Next(old(Abs()), Receive(Data(cmd, payload)))
      ensures event == EventOfFrame(old(Abs()), Data(cmd, payload))
    {
      hide Stored, HostParser.Valid, DataStore.Valid, DataStore.Abs;
      store.Registrations();
      NotStored(store.Abs(), Data(cmd, payload));
      if pending.Some? {
        var completes := pending.value.command == cmd && pending.value.expects.ExpectData?;
        if !completes {
          if cmd in store.buffers {
            store.StorePayload(cmd, payload);
            return DataEvent(cmd, payload);
          }
          if pending.value.command != cmd {
            return ErrorEvent(MismatchedData(pending.value.command, cmd));
          }
          return ErrorEvent(UnexpectedData(cmd));
        }
        pending := None;
      }
      if cmd in store.buffers {
        store.StorePayload(cmd, payload);
      }
      event := DataEvent(cmd, payload);
    }

    method CheckResponseTimeout(now: nat) returns (events: seq<Event>)
      requires Ready()
      modifies this`pending
      ensures Ready() && parser.Abs() == old(parser.Abs())
      ensures Abs() == Next(old(Abs()), CheckTimeout(now)) && events == Events(old(Abs()), CheckTimeout(now))
      ensures match old(pending)
              case None => pending.None? && events == []
              case Some(p) =>
                if p.timeout == 0 || now >= p.sentAt + p.timeout
                then pending.None? && events == [TimeoutEvent(p.frame)]
                else pending == Some(p) && events == []
    {
      hide HostParser.Valid, DataStore.Valid, DataStore.Abs;
      events := [];
      if pending.Some? && Elapsed(now, pending.value.sentAt) >= pending.value.timeout {
        var frame := pending.value.frame;
        pending := None;
        events := [TimeoutEvent(frame)];
      }
    }

    method EnqueuePeriodicAt(now: nat)
      modifies this`periodic, queue
      ensures periodic == AdvanceAll(old(periodic), now)
      ensures queue.Abs() == PushAll(old(queue.Abs()), DueReads(old(periodic), now))
    {
      hide Push, Framing.Encode, PushAll, AdvanceAll, DueReads;
      ghost var es, q := periodic, queue.Abs();
      var i := 0;
      NothingDue(q, now);
      while i < |periodic|
        invariant i <= |es| && |periodic| == |es|
        invariant periodic == AdvanceAll(es[..i], now) + es[i..]
        invariant queue.Abs() == PushAll(q, DueReads(es[..i], now))
      {
        var entry := periodic[i];
        var due := match entry.nextDue case Some(next) => now >= next case None => true;
        AdvanceInPlace(periodic, es, i, now);
        DueOneMore(q, es, i, now);
        if due {
          var next := match entry.nextDue case Some(n) => n + entry.interval case None => now;
          periodic := periodic[i := entry.(nextDue := Some(if now >= next then now + entry.interval else next))];
          var frame := Framing.BuildReadFrame(false, 0, entry.command);
          queue.PushMessage(Message(frame, Low, Some(entry.key), entry.responseTimeout, ExpectData));
        }
        i := i + 1;
      }
      assert es[..|es|] == es;
    }

    /** `enqueue_periodic`. */
    method EnqueuePeriodic(now: nat)
      requires Ready()
      modifies this`periodic, queue
      ensures Ready() && parser.Abs() == old(parser.Abs())
      ensures Abs() == Next(old(Abs()), Schedule(now))
    {
      hide AdvanceAll, PushAll, DueReads, HostParser.Valid, DataStore.Valid, DataStore.Abs;
      ghost var c := Abs();
      EnqueuePeriodicAt(now);
      assert store.Abs() == c.store && pending == c.pending;
      ScheduleIsAction(c, Abs(), now);
    }

    method TryFlush(now: nat, ok: bool) returns (events: seq<Event>, written: seq<byte>)
      requires Ready()
      modifies this`pending, queue
      ensures Ready() && parser.Abs() == old(parser.Abs())
      ensures Abs() == Next(old(Abs()), Flush(now, ok)) && events == Events(old(Abs()), Flush(now, ok))
      ensures written == Writes(old(Abs()), Flush(now, ok))
    {
      hide Next, Events, Writes, Sender, HostParser.Valid, DataStore.Valid, DataStore.Abs;
      ghost var c := Abs();
      events, written := SendNext(now, ok);
      assert store.Abs() == c.store && periodic == c.periodic;
      FlushIsLocal(c, now, ok);
    }

    /** The body of `try_flush`: it looks at the queue and the pending slot only. */
    method SendNext(now: nat, ok: bool) returns (events: seq<Event>, written: seq<byte>)
      modifies this`pending, queue
      ensures var c, flush := Sender(old(queue.Abs()), responseTimeout, old(pending)), Flush(now, ok);
        && queue.Abs() == Next(c, flush).queue && pending == Next(c, flush).pending
        && events == Events(c, flush) && written == Writes(c, flush)
    {
      events, written := [], [];
      if pending.Some? {
        return;
      }
      var m := queue.PopMessage();
      if m.Some? {
        if ok {
          var msg := m.value;
          written := msg.frame;
          var command := if |msg.frame| > 2 then msg.frame[2] else 0;
          pending := Some(Pending(msg.frame, command, now,
                                  if msg.responseTimeout.Some? then msg.responseTimeout.value else responseTimeout,
                                  msg.expects));
        } else {
          events := [ErrorEvent(WriteFailed)];
        }
      }
    }

    method HandleFrames(frames: seq<ParsedFrame>) returns (events: seq<Event>)
      requires Ready()
      modifies this`pending, store.Repr
      ensures Ready() && store.Repr == old(store.Repr) && parser.Abs() == old(parser.Abs())
      ensures Abs() == NextAll(old(Abs()), Received(frames))
      ensures events == EventsAll(old(Abs()), Received(frames))
    {
      hide Next, Events, HostParser.Valid, DataStore.Valid, DataStore.Abs;
      events := [];
      for i := 0 to |frames|
        invariant Ready() && store.Repr == old(store.Repr) && parser.Abs() == old(parser.Abs())
        invariant NextAll(Abs(), Received(frames[i..])) == NextAll(old(Abs()), Received(frames))
        invariant events + EventsAll(Abs(), Received(frames[i..])) == EventsAll(old(Abs()), Received(frames))
      {
        assert frames[i..] == [frames[i]] + frames[i + 1..];
        var event := HandleFrame(frames[i]);
        events := events + [event];
      }
    }

    /** One full or partial buffer of the read loop: parse it and handle its frames. */
    method TakeBytes(bytes: seq<byte>) returns (events: seq<Event>)
      requires Ready()
      modifies this`pending, parser, store.Repr
      ensures Ready() && store.Repr == old(store.Repr) && parser.Abs() == After(old(parser.Abs()), bytes)
      ensures Abs() == NextAll(old(Abs()), Received(Output(old(parser.Abs()), bytes)))
      ensures events == EventsAll(old(Abs()), Received(Output(old(parser.Abs()), bytes)))
    {
      hide After, Output, NextAll, EventsAll, Received, HostParser.Valid, DataStore.Valid, DataStore.Abs;
      ghost var c := Abs();
      var frames := parser.FeedBytes(bytes);
      assert Ready() && Abs() == c;
      events := HandleFrames(frames);
    }

    /** The read loop of `poll`. */
    method ReadIncoming(results: seq<ReadResult>) returns (events: seq<Event>)
      requires Ready()
      modifies this`pending, parser, store.Repr
      ensures Ready() && store.Repr == old(store.Repr)
      ensures parser.Abs() == After(old(parser.Abs()), BytesRead(results))
      ensures Abs() == NextAll(old(Abs()), ReadActions(old(parser.Abs()), results))
      ensures events == EventsAll(old(Abs()), ReadActions(old(parser.Abs()), results))
    {
      hide Next, Events, After, Output, Remaining, ReadActions, NextAll, EventsAll, BytesRead, Received;
      hide HostParser.Valid, DataStore.Valid, DataStore.Abs;
      ghost var p, c := parser.Abs(), Abs();
      events := [];
      var k, more := 0, true;
      ReadStart(p, c, results);
      assert results[0..] == results;
      while more
        invariant k <= |results|
        invariant Ready() && store.Repr == old(store.Repr)
        invariant Remaining(p, c, results, events, parser.Abs(), Abs(), if more then results[k..] else [])
        decreases more, |results| - k
      {
        if k == |results| || results[k].NothingYet? {
          ReadNothing(p, c, results, events, parser.Abs(), Abs(), results[k..]);
          more := false;
        } else if results[k].Failed? {
          ReadFailure(p, c, results, events, parser.Abs(), Abs(), results[k..]);
          events := events + [ErrorEvent(ReadFailed)];
          more := false;
        } else {
          var bytes := results[k].bytes;
          ReadChunk(p, c, results, events, parser.Abs(), Abs(), results[k..]);
          var handled := TakeBytes(bytes);
          assert results[k..][1..] == results[k + 1..];
          events := events + handled;
          more := |bytes| >= READ_BUF_SIZE;
          k := k + 1;
        }
      }
      ReadEnd(p, c, results, events, parser.Abs(), Abs());
    }

    /** One poll cycle, with the instants at which it reads the clock. */
    method Poll(results: seq<ReadResult>, t: Clock, ok: bool) returns (events: seq<Event>, written: seq<byte>)
      requires Ready()
      modifies this`pending, this`periodic, parser, queue, store.Repr
      ensures Ready() && store.Repr == old(store.Repr)
      ensures parser.Abs() == After(old(parser.Abs()), BytesRead(results))
      ensures Abs() == NextAll(old(Abs()), PollActions(old(parser.Abs()), results, t, ok))
      ensures events == EventsAll(old(Abs()), PollActions(old(parser.Abs()), results, t, ok))
      ensures written == WritesAll(old(Abs()), PollActions(old(parser.Abs()), results, t, ok))
    {
      hide Next, Events, Writes, NextAll, EventsAll, WritesAll, After, BytesRead, HostParser.Valid, PollActions;
      hide ReadActions;
      hide AdvanceAll, PushAll, DueReads, Sender, DataStore.Valid, DataStore.Abs;
      ghost var p, c := parser.Abs(), Abs();
      events := ReadIncoming(results);
      var timedOut := CheckResponseTimeout(t.checked);
      EnqueuePeriodic(t.scheduled);
      var failed;
      failed, written := TryFlush(t.sent, ok);
      events := events + timedOut + failed;
      PollAssembles(p, c, results, t, ok);
    }

    method RegisterPeriodic(command: byte, interval: nat, capacity: nat, timeout: Option<nat>)
      requires Ready() && capacity > 0
      modifies this, store
      ensures Ready() && parser.Abs() == old(parser.Abs()) && fresh(store.Repr - old(store.Repr))
      ensures Abs() == Next(old(Abs()), AddPeriodic(command, interval, capacity, timeout))
    {
      hide PeriodicKey, WithoutCommand, Registered, HostParser.Valid, DataStore.Abs;
      Retain(command);
      periodic := periodic + [Periodic(command, interval, PeriodicKey(command), None, timeout)];
      store.Register(command, capacity);
    }

    method UnregisterPeriodic(command: byte)
      requires Ready()
      modifies this
      ensures Ready() && parser.Abs() == old(parser.Abs())
      ensures Abs() == Next(old(Abs()), RemovePeriodic(command))
    {
      hide HostParser.Valid, DataStore.Valid, DataStore.Abs, WithoutCommand;
      Retain(command);
    }

    /** `periodic.retain`: entries for other commands, in order. */
    method Retain(command: byte)
      modifies this`periodic
      ensures periodic == WithoutCommand(old(periodic), command)
    {
      var kept, entries := [], periodic;
      for i := 0 to |entries|
        invariant kept == WithoutCommand(entries[..i], command)
      {
        assert entries[..i + 1] == entries[..i] + [entries[i]];
        WithoutConcat(entries[..i], entries[i], command);
        if entries[i].command != command {
          kept := kept + [entries[i]];
        }
      }
      assert entries[..|entries|] == entries;
      periodic := kept;
    }

    method Clear()
      requires Ready()
      modifies queue
      ensures Ready() && parser.Abs() == old(parser.Abs())
      ensures Abs() == Next(old(Abs()), ClearQueue)
    {
      hide HostParser.Valid, DataStore.Valid, DataStore.Abs;
      queue.Clear();
    }
  }

  lemma {:induction false} WithoutConcat(es: seq<Periodic>, e: Periodic, command: byte)
    ensures WithoutCommand(es + [e], command) == WithoutCommand(es, command) + if e.command != command then [e] else []
    decreases |es|
  {
    if es == [] {
      assert es + [e] == [e] && [e][1..] == [];
    } else {
      var head := if es[0].command != command then [es[0]] else [];
      var last := if e.command != command then [e] else [];
      assert (es + [e])[1..] == es[1..] + [e];
      WithoutConcat(es[1..], e, command);
      assert WithoutCommand(es + [e], command) == head + (WithoutCommand(es[1..], command) + last);
    }
  }

  lemma {:induction false} PushConcat(q: Queue, a: seq<Message>, b: seq<Message>)
    ensures PushAll(q, a + b) == PushAll(PushAll(q, a), b)
    decreases |a|
  {
    hide Push;
    if a == [] {
      assert a + b == b;
    } else {
      assert (a + b)[1..] == a[1..] + b;
      PushConcat(Push(q, a[0]), a[1..], b);
    }
  }

  lemma {:induction false} DueConcat(a: seq<Periodic>, b: seq<Periodic>, now: nat)
    ensures DueReads(a + b, now) == DueReads(a, now) + DueReads(b, now)
    decreases |a|
  {
    hide ReadMessageOf, Due;
    if a == [] {
      assert a + b == b;
    } else {
      var head := if Due(a[0], now) then [ReadMessageOf(a[0])] else [];
      assert (a + b)[1..] == a[1..] + b;
      DueConcat(a[1..], b, now);
      assert DueReads(a + b, now) == head + (DueReads(a[1..], now) + DueReads(b, now));
    }
  }

  lemma NothingDue(q: Queue, now: nat)
    ensures PushAll(q, DueReads([], now)) == q && AdvanceAll([], now) == []
  {
  }

  lemma DueOneMore(q: Queue, es: seq<Periodic>, i: nat, now: nat)
    requires i < |es|
    ensures var before := PushAll(q, DueReads(es[..i], now));
      PushAll(q, DueReads(es[..i + 1], now)) == if Due(es[i], now) then Push(before, ReadMessageOf(es[i])) else before
  {
    hide ReadMessageOf, Push, Due;
    assert es[..i + 1] == es[..i] + [es[i]];
    DueConcat(es[..i], [es[i]], now);
    var one := DueReads([es[i]], now);
    assert one == if Due(es[i], now) then [ReadMessageOf(es[i])] else [] by { assert [es[i]][1..] == []; }
    PushConcat(q, DueReads(es[..i], now), one);
  }

  /**
   How far the read loop has come: what is left to do from here
   leads to the same end as the whole loop from the start.
   */
  ghost predicate Remaining(p: State, c: Core, results: seq<ReadResult>, events: seq<Event>, p1: State, c1: Core,
                            rest: seq<ReadResult>) {
    && HostParser.Valid(p) && HostParser.Valid(p1)
    && After(p1, BytesRead(rest)) == After(p, BytesRead(results))
    && NextAll(c1, ReadActions(p1, rest)) == NextAll(c, ReadActions(p, results))
    && events + EventsAll(c1, ReadActions(p1, rest)) == EventsAll(c, ReadActions(p, results))
  }

  lemma ReadStart(p: State, c: Core, results: seq<ReadResult>)
    requires HostParser.Valid(p)
    ensures Remaining(p, c, results, [], p, c, results)
  {
  }

  lemma ReadEnd(p: State, c: Core, results: seq<ReadResult>, events: seq<Event>, p1: State, c1: Core)
    requires Remaining(p, c, results, events, p1, c1, [])
    ensures p1 == After(p, BytesRead(results))
    ensures c1 == NextAll(c, ReadActions(p, results))
    ensures events == EventsAll(c, ReadActions(p, results))
  {
  }

  lemma ReadNothing(p: State, c: Core, results: seq<ReadResult>, events: seq<Event>, p1: State, c1: Core,
                    rest: seq<ReadResult>)
    requires Remaining(p, c, results, events, p1, c1, rest) && (rest == [] || rest[0].NothingYet?)
    ensures Remaining(p, c, results, events, p1, c1, [])
  {
  }

  lemma ReadFailure(p: State, c: Core, results: seq<ReadResult>, events: seq<Event>, p1: State, c1: Core,
                    rest: seq<ReadResult>)
    requires Remaining(p, c, results, events, p1, c1, rest) && rest != [] && rest[0].Failed?
    ensures Remaining(p, c, results, events + [ErrorEvent(ReadFailed)], p1, c1, [])
  {
    FailureActions(p1, rest);
    hide Next, NextAll, EventsAll, ReadActions, BytesRead, After;
    NoReadActions(p1, c1);
    assert [ReadError] == [ReadError] + [];
    FirstAct(c1, ReadError, []);
    assert Next(c1, ReadError) == c1 by { FailureIsHarmless(c1); }
    assert events + ([ErrorEvent(ReadFailed)] + []) == events + [ErrorEvent(ReadFailed)] + [];
  }

  lemma FailureIsHarmless(c: Core)
    ensures Next(c, ReadError) == c
  {
  }

  lemma FailureActions(p: State, rest: seq<ReadResult>)
    requires HostParser.Valid(p) && rest != [] && rest[0].Failed?
    ensures ReadActions(p, rest) == [ReadError] && BytesRead(rest) == []
  {
    hide After;
  }

  lemma ReadChunk(p: State, c: Core, results: seq<ReadResult>, events: seq<Event>, p1: State, c1: Core,
                  rest: seq<ReadResult>)
    requires Remaining(p, c, results, events, p1, c1, rest) && rest != [] && rest[0].Chunk?
    ensures var bytes := rest[0].bytes;
      var read := Received(Output(p1, bytes));
      Remaining(p, c, results, events + EventsAll(c1, read), After(p1, bytes), NextAll(c1, read),
                if |bytes| >= READ_BUF_SIZE then rest[1..] else [])
  {
    hide Next, Events, NextAll, EventsAll, ReadActions, BytesRead, After, Output;
    var bytes := rest[0].bytes;
    var read, q := Received(Output(p1, bytes)), After(p1, bytes);
    ReadStep(p1, rest);
    var tail := if |bytes| >= READ_BUF_SIZE then rest[1..] else [];
    NoReadActions(q, NextAll(c1, read));
    ActConcat(c1, read, ReadActions(q, tail));
    assert read + [] == read;
    assert events + (EventsAll(c1, read) + EventsAll(NextAll(c1, read), ReadActions(q, tail)))
        == events + EventsAll(c1, read) + EventsAll(NextAll(c1, read), ReadActions(q, tail));
  }

  lemma NoReadActions(p: State, c: Core)
    requires HostParser.Valid(p)
    ensures BytesRead([]) == [] && ReadActions(p, []) == [] && After(p, []) == p && NextAll(c, []) == c
    ensures EventsAll(c, []) == []
  {
  }

  lemma AdvanceInPlace(half: seq<Periodic>, es: seq<Periodic>, i: nat, now: nat)
    requires i < |es| && half == AdvanceAll(es[..i], now) + es[i..]
    ensures half[i] == es[i] && half[i := Advance(es[i], now)] == AdvanceAll(es[..i + 1], now) + es[i + 1..]
    ensures !Due(es[i], now) ==> half == AdvanceAll(es[..i + 1], now) + es[i + 1..]
  {
    hide Due, AdvanceAll;
    var before, x := AdvanceAll(es[..i], now), Advance(es[i], now);
    assert AdvanceAll(es[..i + 1], now) == before + [x];
    assert es[i..] == [es[i]] + es[i + 1..];
    assert half == before + [es[i]] + es[i + 1..];
    assert half[i := x] == before + [x] + es[i + 1..];
    assert x == es[i] || Due(es[i], now);
  }

  /** The part of a core that sending looks at. */
  function Sender(q: Queue, responseTimeout: nat, pending: Option<Pending>): Core {
    Core(q, responseTimeout, pending, [], map[])
  }

  lemma FlushIsLocal(c: Core, now: nat, ok: bool)
    ensures var d, flush := Sender(c.queue, c.responseTimeout, c.pending), Flush(now, ok);
      && Next(c, flush) == c.(queue := Next(d, flush).queue, pending := Next(d, flush).pending)
      && Events(c, flush) == Events(d, flush) && Writes(c, flush) == Writes(d, flush)
  {
    hide Pop;
  }

  /** A payload for a command without storage changes nothing. */
  lemma NotStored(st: Store, f: ParsedFrame)
    ensures f.Data? && f.command !in st ==> Stored(st, f.command, f.payload) == st
  {
  }

  lemma ScheduleIsAction(c: Core, d: Core, now: nat)
    requires d == c.(periodic := AdvanceAll(c.periodic, now), queue := PushAll(c.queue, DueReads(c.periodic, now)))
    ensures d == Next(c, Schedule(now))
  {
  }

  lemma PollAssembles(p: State, c: Core, results: seq<ReadResult>, t: Clock, ok: bool)
    requires HostParser.Valid(p)
    ensures var c1 := NextAll(c, ReadActions(p, results));
      var c3 := Next(Next(c1, CheckTimeout(t.checked)), Schedule(t.scheduled));
      var acts := PollActions(p, results, t, ok);
      && NextAll(c, acts) == Next(c3, Flush(t.sent, ok))
      && EventsAll(c, acts) ==
         EventsAll(c, ReadActions(p, results)) + Events(c1, CheckTimeout(t.checked)) + Events(c3, Flush(t.sent, ok))
      && WritesAll(c, acts) == Writes(c3, Flush(t.sent, ok))
  {
    hide Next, Events, Writes, NextAll, EventsAll, WritesAll, BytesRead, Reading, Tail;
    TailActs(NextAll(c, ReadActions(p, results)), t, ok);
    ActConcat(c, ReadActions(p, results), Tail(t, ok));
    ReadingWritesNothing(c, Output(p, BytesRead(results)), ReadFails(results));
  }
}
