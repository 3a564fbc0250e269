/**
 The whole link: host client and device runtime joined by two lossless FIFO byte
 channels. Steps interleave freely: the application enqueues or reconfigures, the host
 polls and reads any number of the bytes that are there, the device takes one byte, and
 the device sends a whole notification frame. No response timeout and no device timeout
 fires, typed responses and callbacks stay within the payload limits, and each request is made with the call
 (read, write, query) that matches the device's message table.
 */
module Link {
  import opened Bytes
  import opened MessageQueue
  import opened Storage
  import opened Framing
  import opened HostClient
  import HostParser
  import opened DeviceRuntime
  import DeviceReplies
  import Checksum

  type Frame = HostParser.ParsedFrame

  /**
   `out`, `requests` and `answers` record the frames the device has sent, the requests the host has put on the wire, and
   what the device's callbacks answered to those it has received; `taken` is how many of the device's bytes the host has
   read. The bytes still under way to the host are those after them.
   */
  datatype Sys = Sys(
    core: Core,
    parser: HostParser.State,
    device: DeviceRuntime.State,
    toDevice: seq<byte>,
    out: seq<Wire>,
    taken: nat,
    requests: seq<Pending>,
    answers: seq<Answer>,
    events: seq<Event>)

  datatype Step =
    | Call(act: Action)
    | HostPoll(t: Clock, n: nat)
    | DeviceByte(answer: Answer)
    | Notify(payload: seq<byte>)

  const TO_HOST := ToHost(false)

  function Wired(s: Sys): seq<byte> {
    EncodeAll(TO_HOST, s.out)
  }

  function Start(c: Config, timeout: nat): Sys {
    var device := DeviceRuntime.State(Mode.Sync, 0, 0, 0, 0, seq(c.maxPayload, _ => 0));
    Sys(InitialCore(timeout), HostParser.Initial(false), device, [], [], 0, [], [], [])
  }

  // ---- Assumptions on the callers ----

  /** The frame is a READ, or a WRITE within the device's limit made with the call that its message asks for. */
  predicate Suits(c: Config, frame: seq<byte>, expects: ExpectedReply, w: Wire) {
    && w.source == 0 && frame == Encode(ToDevice(false, c.maxPayload), w)
    && (if w.kind == 0 then w.payload == [] && expects.ExpectData?
        else
          && w.kind == 1 && |w.payload| <= c.maxPayload
          && (w.command in c.writable ==> expects == if c.writable[w.command].query then ExpectData else ExpectAck))
  }

  /** The request that the device is to make of a frame. */
  function RequestFor(w: Wire): Request {
    if w.kind == 0 then Read(w.command) else Write(w.command, w.payload)
  }

  ghost predicate Suited(c: Config, m: Message) {
    exists w :: Suits(c, m.frame, m.expects, w)
  }

  ghost predicate AllSuited(c: Config, q: Queue) {
    (forall m | m in q.high :: Suited(c, m)) && (forall m | m in q.low :: Suited(c, m))
  }

  predicate Limits(c: Config) {
    ValidConfig(c) && c.maxPayload <= MAX_PAYLOAD_SIZE && DeviceReplies.TypedReadsFit(c)
  }

  /** What the link needs of a device: a payload limit that the host accepts, and typed responses within it. */
  lemma LimitsAreExact(c: Config)
    ensures Limits(c) <==>
      && c.maxPayload <= 4096
      && forall k | k in c.readable && c.readable[k].ReadTyped? :: c.readable[k].wireSize <= c.maxPayload
  {
  }

  /** The frames that a poll brings out when it reads n more bytes. */
  function Fresh(s: Sys, n: nat): seq<Frame>
    requires HostParser.Valid(s.parser) && s.taken + n <= |Wired(s)|
  {
    HostParser.Output(s.parser, Wired(s)[s.taken..s.taken + n])
  }

  /** The response timeout of the pending request has not passed. */
  predicate InTime(p: Option<Pending>, now: nat) {
    p.Some? ==> p.value.timeout > 0 && now < p.value.sentAt + p.value.timeout
  }

  lemma InTimeIsKept(core: Core, now: nat)
    requires InTime(core.pending, now)
    ensures !Expired(core, now)
  {
  }

  ghost predicate Enabled(c: Config, s: Sys, step: Step) {
    match step
    case Call(a) =>
      (match a
       case Enqueue(m) => Suited(c, m)
       case ClearQueue => true
       case AddPeriodic(_, _, _, _) => true
       case RemovePeriodic(_) => true
       case RegisterStorage(_, _) => true
       case ClearStorage => true
       case _ => false)
    case HostPoll(t, n) =>
      && HostParser.Valid(s.parser) && s.taken + n <= |Wired(s)|
      && InTime(NextAll(s.core, Received(Fresh(s, n))).pending, t.checked)
    case DeviceByte(a) => DeviceRuntime.Valid(c, s.device) && s.toDevice != [] && |a.out| <= c.maxPayload
    case Notify(payload) => |payload| <= c.maxPayload
  }

  function Apply(c: Config, s: Sys, step: Step): Sys
    requires HostParser.Valid(s.parser) && DeviceRuntime.Valid(c, s.device)
    requires step.HostPoll? ==> s.taken + step.n <= |Wired(s)|
    requires step.DeviceByte? ==> s.toDevice != []
  {
    match step
    case Call(a) => s.(core := Next(s.core, a))
    case HostPoll(t, n) =>
      var acts := Reading(Fresh(s, n), false) + Tail(t, true);
      var core := NextAll(s.core, acts);
      var written := WritesAll(s.core, acts);
      s.(core := core,
         parser := HostParser.After(s.parser, Wired(s)[s.taken..s.taken + n]),
         taken := s.taken + n,
         toDevice := s.toDevice + written,
         requests := s.requests + (if written != [] && core.pending.Some? then [core.pending.value] else []),
         events := s.events + EventsAll(s.core, acts))
    case DeviceByte(a) =>
      var (d, o) := DeviceRuntime.Step(c, s.device, s.toDevice[0]);
      var reply := match o case None => None case Some(r) => Reply(c, r, a);
      s.(device := d, toDevice := s.toDevice[1..],
         out := s.out + (match reply case None => [] case Some(w) => [w]),
         answers := s.answers + if o.Some? then [a] else [])
    case Notify(payload) => s.(out := s.out + [Wire(0, NOTIFICATION, 0, payload)])
  }

  // ---- The invariant ----

  function Replies(ws: seq<Wire>): seq<Wire> {
    if ws == [] then [] else (if ws[0].kind != NOTIFICATION then [ws[0]] else []) + Replies(ws[1..])
  }

  /** The replies that the host has received in full. */
  function Arrived(s: Sys): seq<Wire> {
    Replies(s.out[..CompleteCount(TO_HOST, s.out, s.taken)])
  }

  predicate CompletesRequest(w: Wire, p: Pending) {
    Completes(HostParser.Meaning(w), p.command, p.expects)
  }

  /**
   The request is under way to the device: i of its bytes are in the device's parser and the others in the channel.
   */
  ghost predicate InTransit(c: Config, d: DeviceRuntime.State, toDevice: seq<byte>, w: Wire, base: DeviceRuntime.State,
                            i: nat) {
    var bytes := Encode(ToDevice(false, c.maxPayload), w);
    && DeviceRuntime.Valid(c, base) && base.mode.Sync?
    && i < |bytes| && toDevice == bytes[i..] && d == DeviceRuntime.After(c, base, bytes[..i])
  }

  /** The last request is still on its way; the earlier ones have been answered. */
  ghost predicate Asking(c: Config, s: Sys) {
    && |s.requests| == |Replies(s.out)| + 1
    && (var p := s.requests[|s.requests| - 1];
        exists w, base, i :: Suits(c, p.frame, p.expects, w) && p.command == w.command
                             && InTransit(c, s.device, s.toDevice, w, base, i))
  }

  /** Every request has been answered, and nothing is on its way to the device or half received by it. */
  ghost predicate Idle(s: Sys) {
    |s.requests| == |Replies(s.out)| && s.toDevice == [] && s.device.mode.Sync?
  }

  /** The reply is the device's answer to the request that this frame carries. */
  ghost predicate AnsweredBy(c: Config, p: Pending, a: Answer, reply: Wire) {
    exists w :: Suits(c, p.frame, p.expects, w) && p.command == w.command
                && DeviceReplies.Answers(c, RequestFor(w), a, reply)
  }

  /** The event that a frame is reported as. */
  function EventOf(w: Wire): Event {
    match w.kind
    case 0 => NackEvent(w.command)
    case 1 => AckEvent(w.command)
    case 2 => DataEvent(w.command, w.payload)
    case _ => NotificationEvent(w.payload)
  }

  function EventsOf(ws: seq<Wire>): seq<Event> {
    if ws == [] then [] else [EventOf(ws[0])] + EventsOf(ws[1..])
  }

  ghost predicate Inv(c: Config, s: Sys) {
    && Limits(c) && DeviceRuntime.Valid(c, s.device)
    && (forall w | w in s.out :: ValidWire(TO_HOST, w))
    && s.taken <= |Wired(s)|
    && HostParser.Valid(s.parser) && s.parser == HostParser.After(HostParser.Initial(false), Wired(s)[..s.taken])
    && AllSuited(c, s.core.queue)
    && (Asking(c, s) || Idle(s))
    && |s.requests| == |Arrived(s)| + (if s.core.pending.Some? then 1 else 0)
    && (s.core.pending.Some? ==> s.core.pending.value == s.requests[|s.requests| - 1])
    && |s.answers| == |Replies(s.out)|
    && (forall i | 0 <= i < |Replies(s.out)| ::
          && CompletesRequest(Replies(s.out)[i], s.requests[i])
          && AnsweredBy(c, s.requests[i], s.answers[i], Replies(s.out)[i]))
    && s.events == EventsOf(s.out[..CompleteCount(TO_HOST, s.out, s.taken)])
  }

  // ---- Facts about replies ----

  lemma {:induction false} RepliesConcat(a: seq<Wire>, b: seq<Wire>)
    ensures Replies(a + b) == Replies(a) + Replies(b)
    decreases |a|
  {
    if a == [] {
      assert a + b == b;
    } else {
      assert (a + b)[1..] == a[1..] + b;
      RepliesConcat(a[1..], b);
    }
  }

  lemma {:induction false} EventsOfConcat(a: seq<Wire>, b: seq<Wire>)
    ensures EventsOf(a + b) == EventsOf(a) + EventsOf(b)
    decreases |a|
  {
    if a == [] {
      assert a + b == b;
    } else {
      assert (a + b)[1..] == a[1..] + b;
      EventsOfConcat(a[1..], b);
    }
  }

  /** The reply to a request made with the matching call completes it. */
  lemma ReplyCompletes(c: Config, w: Wire, p: Pending, a: Answer)
    requires Limits(c) && Suits(c, p.frame, p.expects, w) && p.command == w.command && |a.out| <= c.maxPayload
    ensures var reply := Reply(c, RequestFor(w), a);
      && reply.Some? && ValidWire(TO_HOST, reply.value) && reply.value.kind != NOTIFICATION
      && CompletesRequest(reply.value, p) && AnsweredBy(c, p, a, reply.value)
  {
    DeviceReplies.ReplyOnce(c, RequestFor(w), a);
  }

  /**
   One byte of a request into the device: nothing happens before
   the last byte, and the last one completes the request.
   */
  lemma TransitStep(c: Config, d: DeviceRuntime.State, toDevice: seq<byte>, w: Wire, base: DeviceRuntime.State, i: nat)
    requires ValidConfig(c) && ValidWire(ToDevice(false, c.maxPayload), w)
    requires DeviceRuntime.Valid(c, d) && InTransit(c, d, toDevice, w, base, i)
    ensures var (e, o) := DeviceRuntime.Step(c, d, toDevice[0]);
      if i + 1 < |Encode(ToDevice(false, c.maxPayload), w)|
      then o.None? && InTransit(c, e, toDevice[1..], w, base, i + 1)
      else
        && o == Some(RequestFor(w))
        && toDevice[1..] == [] && e.mode.Sync?
  {
    hide DeviceRuntime.Step, DeviceRuntime.After, DeviceRuntime.Requests, Encode, ValidWire, Head;
    var dialect := ToDevice(false, c.maxPayload);
    var bytes := Encode(dialect, w);
    assert toDevice[0] == bytes[i] && toDevice[1..] == bytes[i + 1..];
    DeviceReplies.RunSnoc(c, base, bytes, i);
    DeviceReplies.RunNothing(c, base);
    if i > 0 {
      PrefixIsIncomplete(dialect, w, i);
      DeviceReplies.UnitRun(c, base, bytes[..i]);
    } else {
      assert bytes[..0] == [];
    }
    if i + 1 < |bytes| {
      PrefixIsIncomplete(dialect, w, i + 1);
      DeviceReplies.UnitRun(c, base, bytes[..i + 1]);
      assert DeviceRuntime.Requests(c, base, bytes[..i + 1]) == [];
    } else {
      assert bytes[..i + 1] == bytes;
      EncodingIsGood(dialect, w, []);
      assert bytes + [] == bytes;
      DeviceReplies.UnitRun(c, base, bytes);
      assert bytes[..|bytes|] == bytes;
    }
    OneAsked(DeviceRuntime.Step(c, d, toDevice[0]).1);
  }

  lemma OneAsked(o: Option<Request>)
    ensures Asked(o) == [] <==> o.None?
    ensures forall r :: Asked(o) == [r] ==> o == Some(r)
  {
  }

  lemma SuitsIsValid(c: Config, frame: seq<byte>, expects: ExpectedReply, w: Wire)
    requires Limits(c) && Suits(c, frame, expects, w)
    ensures ValidWire(ToDevice(false, c.maxPayload), w)
  {
  }

  /** A frame carries one request at most. */
  lemma SuitsOnce(c: Config, frame: seq<byte>, e1: ExpectedReply, w1: Wire, e2: ExpectedReply, w2: Wire)
    requires Limits(c) && Suits(c, frame, e1, w1) && Suits(c, frame, e2, w2)
    ensures w1 == w2
  {
    hide Encode, Head;
    var d := ToDevice(false, c.maxPayload);
    EncodingIsGood(d, w1, []);
    EncodingIsGood(d, w2, []);
  }

  /**
   What a read enqueues is a request for that command: the bytes, what the device makes of them, and that they suit.
   */
  lemma ReadArrives(c: Config, d: DeviceRuntime.State, command: byte)
    requires ValidConfig(c) && DeviceRuntime.Valid(c, d) && d.mode.Sync?
    ensures ReadFrame(command) == [0x55, 0x00, command]
    ensures Requests(c, d, ReadFrame(command)) == [Read(command)]
    ensures DeviceRuntime.After(c, d, ReadFrame(command)).mode.Sync?
    ensures Suits(c, ReadFrame(command), ExpectData, Wire(0, 0, command, []))
  {
    hide Requests, DeviceRuntime.After, Checksum.Crc;
    FrameBytes(0, command, [], c.maxPayload);
    FrameBytes(0, command, [], 0);
    DeviceReplies.DeviceReads(c, d, command, [], 0);
  }

  /** What a write or query enqueues is a request with that payload. */
  lemma WriteArrives(c: Config, d: DeviceRuntime.State, command: byte, data: seq<byte>, expects: ExpectedReply)
    requires ValidConfig(c) && DeviceRuntime.Valid(c, d) && d.mode.Sync? && |data| <= c.maxPayload
    requires command in c.writable ==> expects == if c.writable[command].query then ExpectData else ExpectAck
    ensures WriteFrame(command, data) == [0x55, 0x01] + LongTail(command, data)
    ensures Requests(c, d, WriteFrame(command, data)) == [Write(command, data)]
    ensures DeviceRuntime.After(c, d, WriteFrame(command, data)).mode.Sync?
    ensures Suits(c, WriteFrame(command, data), expects, Wire(0, 1, command, data))
  {
    hide Requests, DeviceRuntime.After, Checksum.Crc, LongTail, Encode;
    FrameBytes(0, command, data, c.maxPayload);
    FrameBytes(0, command, data, 0);
    DeviceReplies.DeviceReads(c, d, command, data, 0);
  }

  // ---- What the host receives ----

  /** Frames received: notifications change nothing, and the one reply there can be completes the pending request. */
  lemma {:induction false} DeliverFrames(core: Core, ws: seq<Wire>)
    requires forall w | w in ws :: ValidWire(TO_HOST, w)
    requires |Replies(ws)| <= 1
    requires Replies(ws) != [] ==> core.pending.Some? && CompletesRequest(Replies(ws)[0], core.pending.value)
    ensures var acts := Received(HostParser.Meanings(ws));
      var d := NextAll(core, acts);
      && d.queue == core.queue && d.periodic == core.periodic
      && d.pending == (if Replies(ws) == [] then core.pending else None)
      && EventsAll(core, acts) == EventsOf(ws)
    decreases |ws|
  {
    hide ValidWire, EventsOf;
    NoFrames(core);
    if ws != [] {
      var f := HostParser.Meaning(ws[0]);
      var rest := HostParser.Meanings(ws[1..]);
      assert HostParser.Meanings(ws) == [f] + rest;
      assert Received([f] + rest) == [Receive(f)] + Received(rest) by { assert ([f] + rest)[1..] == rest; }
      FirstAct(core, Receive(f), Received(rest));
      DeliverOne(core, ws[0]);
      var d := Next(core, Receive(f));
      DeliverFrames(d, ws[1..]);
      EventsOfFirst(ws);
    }
  }

  lemma EventsOfFirst(ws: seq<Wire>)
    requires ws != []
    ensures EventsOf(ws) == EventsOf([ws[0]]) + EventsOf(ws[1..])
  {
    assert ws == [ws[0]] + ws[1..];
    EventsOfConcat([ws[0]], ws[1..]);
  }

  lemma NoFrames(core: Core)
    ensures HostParser.Meanings([]) == [] && Received([]) == [] && NextAll(core, []) == core
    ensures EventsAll(core, []) == []
    ensures EventsOf([]) == []
  {
  }

  lemma DeliverOne(core: Core, w: Wire)
    requires ValidWire(TO_HOST, w)
    requires w.kind != NOTIFICATION ==> core.pending.Some? && CompletesRequest(w, core.pending.value)
    ensures var f := HostParser.Meaning(w);
      var d := Next(core, Receive(f));
      && d.queue == core.queue && d.periodic == core.periodic
      && d.pending == (if w.kind == NOTIFICATION then core.pending else None)
      && Events(core, Receive(f)) == EventsOf([w])
  {
    assert [w][1..] == [];
  }

  // ---- Preservation, step by step ----

  lemma StartHolds(c: Config, timeout: nat)
    requires Limits(c)
    ensures Inv(c, Start(c, timeout))
  {
    assert EncodeAll(TO_HOST, [])[..0] == [];
  }

  /** What is already under way is not affected by a frame sent after it. */
  lemma OutGrows(out: seq<Wire>, w: Wire, taken: nat)
    requires taken <= |EncodeAll(TO_HOST, out)|
    ensures var longer := out + [w];
      && EncodeAll(TO_HOST, longer) == EncodeAll(TO_HOST, out) + Encode(TO_HOST, w)
      && EncodeAll(TO_HOST, longer)[..taken] == EncodeAll(TO_HOST, out)[..taken]
      && CompleteCount(TO_HOST, longer, taken) == CompleteCount(TO_HOST, out, taken)
      && longer[..CompleteCount(TO_HOST, longer, taken)] == out[..CompleteCount(TO_HOST, out, taken)]
      && Replies(longer) == Replies(out) + (if w.kind != NOTIFICATION then [w] else [])
  {
    hide Encode;
    EncodeAllConcat(TO_HOST, out, [w]);
    assert EncodeAll(TO_HOST, [w]) == Encode(TO_HOST, w) by { assert [w][1..] == []; }
    CompleteCountAppend(TO_HOST, out, w, taken);
    RepliesConcat(out, [w]);
    assert Replies([w]) == (if w.kind != NOTIFICATION then [w] else []) by { assert [w][1..] == []; }
  }

  lemma NotifyKeeps(c: Config, s: Sys, payload: seq<byte>)
    requires Inv(c, s) && Enabled(c, s, Notify(payload))
    ensures Inv(c, Apply(c, s, Notify(payload)))
  {
    hide Encode, EncodeAll, CompleteCount, Replies, EventsOf, AllSuited, Suits, InTransit, DeviceRuntime.Valid;
    hide HostParser.After, HostParser.Valid, CompletesRequest;
    var w := Wire(0, NOTIFICATION, 0, payload);
    OutGrows(s.out, w, s.taken);
    var t := Apply(c, s, Notify(payload));
    assert Replies(t.out) == Replies(s.out);
  }

  lemma CallKeeps(c: Config, s: Sys, a: Action)
    requires Inv(c, s) && Enabled(c, s, Call(a))
    ensures Inv(c, Apply(c, s, Call(a)))
  {
    hide Encode, EncodeAll, CompleteCount, Replies, EventsOf, Suits, InTransit, DeviceRuntime.Valid;
    hide HostParser.After, HostParser.Valid, CompletesRequest, Suited, PeriodicKey;
    if a.Enqueue? {
      PushKeepsSuited(c, s.core.queue, a.m);
    }
  }

  lemma PushKeepsSuited(c: Config, q: Queue, m: Message)
    requires AllSuited(c, q) && Suited(c, m)
    ensures AllSuited(c, Push(q, m))
  {
    hide Suited, Position;
  }

  lemma {:induction false} PushAllKeepsSuited(c: Config, q: Queue, ms: seq<Message>)
    requires AllSuited(c, q) && forall m | m in ms :: Suited(c, m)
    ensures AllSuited(c, PushAll(q, ms))
    decreases |ms|
  {
    hide Suited, AllSuited, Push;
    if ms != [] {
      PushKeepsSuited(c, q, ms[0]);
      PushAllKeepsSuited(c, Push(q, ms[0]), ms[1..]);
    }
  }

  lemma {:induction false} DueReadsAreSuited(c: Config, es: seq<Periodic>, now: nat)
    ensures forall m | m in DueReads(es, now) :: Suited(c, m)
    decreases |es|
  {
    hide Suited;
    if es != [] {
      ReadIsSuited(c, es[0]);
      DueReadsAreSuited(c, es[1..], now);
    }
  }

  lemma ReadIsSuited(c: Config, e: Periodic)
    ensures Suited(c, ReadMessageOf(e))
  {
    var w := Wire(0, 0, e.command, []);
    assert Suits(c, ReadMessageOf(e).frame, ExpectData, w);
  }

  lemma DeviceByteKeeps(c: Config, s: Sys, a: Answer)
    requires Inv(c, s) && Enabled(c, s, DeviceByte(a))
    ensures Inv(c, Apply(c, s, DeviceByte(a)))
  {
    var p := s.requests[|s.requests| - 1];
    var w, base, i: nat :| Suits(c, p.frame, p.expects, w) && p.command == w.command
                      && InTransit(c, s.device, s.toDevice, w, base, i);
    SuitsIsValid(c, p.frame, p.expects, w);
    TransitStep(c, s.device, s.toDevice, w, base, i);
    if i + 1 < |Encode(ToDevice(false, c.maxPayload), w)| {
      ByteOnTheWay(c, s, a, w, base, i);
    } else {
      ByteCompletes(c, s, a, w);
    }
  }

  lemma ByteOnTheWay(c: Config, s: Sys, a: Answer, w: Wire, base: DeviceRuntime.State, i: nat)
    requires Inv(c, s) && Enabled(c, s, DeviceByte(a)) && Asking(c, s)
    requires var p := s.requests[|s.requests| - 1]; Suits(c, p.frame, p.expects, w) && p.command == w.command
    requires var (e, o) := DeviceRuntime.Step(c, s.device, s.toDevice[0]);
      o.None? && InTransit(c, e, s.toDevice[1..], w, base, i + 1)
    ensures Inv(c, Apply(c, s, DeviceByte(a)))
  {
    hide Encode, EncodeAll, CompleteCount, Replies, EventsOf, AllSuited, Suits, InTransit, DeviceRuntime.Valid;
    hide DeviceRuntime.Step;
    hide HostParser.After, HostParser.Valid, CompletesRequest;
    var t := Apply(c, s, DeviceByte(a));
    assert t.out == s.out;
    assert Asking(c, t);
  }

  lemma ByteCompletes(c: Config, s: Sys, a: Answer, w: Wire)
    requires Inv(c, s) && Enabled(c, s, DeviceByte(a)) && Asking(c, s)
    requires var p := s.requests[|s.requests| - 1]; Suits(c, p.frame, p.expects, w) && p.command == w.command
    requires var (e, o) := DeviceRuntime.Step(c, s.device, s.toDevice[0]);
      && o == Some(RequestFor(w))
      && s.toDevice[1..] == [] && e.mode.Sync?
    ensures Inv(c, Apply(c, s, DeviceByte(a)))
  {
    hide Encode, EncodeAll, CompleteCount, Replies, EventsOf, AllSuited, Suits, InTransit, DeviceRuntime.Valid;
    hide DeviceRuntime.Step;
    hide HostParser.After, HostParser.Valid, CompletesRequest, Reply, ValidWire;
    var p := s.requests[|s.requests| - 1];
    ReplyCompletes(c, w, p, a);
    var reply := Reply(c, RequestFor(w), a).value;
    OutGrows(s.out, reply, s.taken);
    var t := Apply(c, s, DeviceByte(a));
    assert t.out == s.out + [reply] && t.answers == s.answers + [a];
    assert Idle(t);
  }

  // ---- A host poll ----

  /** The frames between two positions of the stream, and the replies among them. */
  lemma FreshFrames(c: Config, s: Sys, n: nat) returns (ws: seq<Wire>)
    requires Inv(c, s) && s.taken + n <= |Wired(s)|
    ensures var j, k := CompleteCount(TO_HOST, s.out, s.taken), CompleteCount(TO_HOST, s.out, s.taken + n);
      j <= k && ws == s.out[j..k] && s.out[..k] == s.out[..j] + ws
    ensures Fresh(s, n) == HostParser.Meanings(ws)
    ensures HostParser.After(s.parser, Wired(s)[s.taken..s.taken + n])
         == HostParser.After(HostParser.Initial(false), Wired(s)[..s.taken + n])
    ensures forall w | w in ws :: ValidWire(TO_HOST, w)
  {
    hide Encode, EncodeAll, CompleteCount, Replies, EventsOf, AllSuited, Suits, InTransit, DeviceRuntime.Valid;
    hide HostParser.After, HostParser.Output, HostParser.Meaning, HostParser.Meanings, CompletesRequest, ValidWire;
    var p, all := HostParser.Initial(false), Wired(s);
    CompleteCountBounds(TO_HOST, s.out, s.taken, s.taken + n);
    var j, k := CompleteCount(TO_HOST, s.out, s.taken), CompleteCount(TO_HOST, s.out, s.taken + n);
    ws := s.out[j..k];
    assert s.out[..k] == s.out[..j] + ws;
    HostParser.PrefixRun(p, s.out, s.taken);
    HostParser.PrefixRun(p, s.out, s.taken + n);
    assert all[..s.taken + n] == all[..s.taken] + all[s.taken..s.taken + n];
    HostParser.RunConcat(p, all[..s.taken], all[s.taken..s.taken + n]);
    HostParser.MeaningsConcat(s.out[..j], ws);
  }

  /** Of the frames still to come at most one is a reply, and it is the one to the pending request. */
  lemma RepliesToCome(c: Config, s: Sys, j: nat, k: nat)
    requires Inv(c, s) && j == CompleteCount(TO_HOST, s.out, s.taken) && j <= k <= |s.out|
    ensures |Replies(s.out[j..k])| <= 1
    ensures Replies(s.out[..k]) == Replies(s.out[..j]) + Replies(s.out[j..k])
    ensures Replies(s.out[j..k]) != [] ==>
      s.core.pending.Some? && CompletesRequest(Replies(s.out[j..k])[0], s.core.pending.value)
  {
    hide Encode, EncodeAll, CompleteCount, Replies, EventsOf, AllSuited, Suits, InTransit, DeviceRuntime.Valid;
    hide HostParser.After, HostParser.Valid, CompletesRequest;
    var a, b, d := s.out[..j], s.out[j..k], s.out[k..];
    assert s.out == a + (b + d) && s.out[..k] == a + b;
    RepliesConcat(a, b + d);
    RepliesConcat(b, d);
    RepliesConcat(a, b);
    if Replies(b) != [] {
      assert Replies(s.out)[|Replies(a)|] == Replies(b)[0];
    }
  }

  /** The core after the four steps of a poll in which nothing times out. */
  lemma PollCore(c: Config, core: Core, ws: seq<Wire>, t: Clock)
    requires forall w | w in ws :: ValidWire(TO_HOST, w)
    requires |Replies(ws)| <= 1
    requires Replies(ws) != [] ==> core.pending.Some? && CompletesRequest(Replies(ws)[0], core.pending.value)
    requires AllSuited(c, core.queue)
    requires !Expired(NextAll(core, Received(HostParser.Meanings(ws))), t.checked)
    ensures var acts := Reading(HostParser.Meanings(ws), false) + Tail(t, true);
      var d := NextAll(core, acts);
      && AllSuited(c, d.queue) && EventsAll(core, acts) == EventsOf(ws)
      && (if core.pending.Some? && Replies(ws) == [] then d.pending == core.pending && WritesAll(core, acts) == []
          else if WritesAll(core, acts) == [] then d.pending.None?
          else d.pending.Some? && Departs(c, d.pending.value, WritesAll(core, acts)))
  {
    hide ValidWire, Replies, EventsOf, CompletesRequest, Received, Expired, AllSuited, NextAll, EventsAll;
    hide WritesAll, Next, Events, Writes, Tail;
    var fs := HostParser.Meanings(ws);
    DeliverFrames(core, ws);
    assert Reading(fs, false) == Received(fs);
    ActConcat(core, Received(fs), Tail(t, true));
    ReadingWritesNothing(core, fs, false);
    TailDeparts(c, NextAll(core, Received(fs)), t);
    assert EventsOf(ws) + [] == EventsOf(ws);
  }

  /** The request that is now pending is the one whose frame was written, and it suits the device. */
  ghost predicate Departs(c: Config, p: Pending, written: seq<byte>) {
    p.frame == written && exists w :: Suits(c, p.frame, p.expects, w) && p.command == w.command
  }

  lemma TailDeparts(c: Config, core: Core, t: Clock)
    requires AllSuited(c, core.queue) && !Expired(core, t.checked)
    ensures var d := NextAll(core, Tail(t, true));
      && AllSuited(c, d.queue) && EventsAll(core, Tail(t, true)) == []
      && (if core.pending.Some? then d.pending == core.pending && WritesAll(core, Tail(t, true)) == []
          else if WritesAll(core, Tail(t, true)) == [] then d.pending.None?
          else d.pending.Some? && Departs(c, d.pending.value, WritesAll(core, Tail(t, true))))
  {
    hide AllSuited, Expired, DueReads, PushAll, AdvanceAll, Pop, NextAll, EventsAll, WritesAll, Departs, Tail;
    var c2 := Next(core, Schedule(t.scheduled));
    TailActs(core, t, true);
    DueReadsAreSuited(c, core.periodic, t.scheduled);
    PushAllKeepsSuited(c, core.queue, DueReads(core.periodic, t.scheduled));
    FlushDeparts(c, c2, t.sent);
  }

  lemma FlushDeparts(c: Config, core: Core, now: nat)
    requires AllSuited(c, core.queue)
    ensures var f := Flush(now, true);
      var d := Next(core, f);
      && AllSuited(c, d.queue) && Events(core, f) == []
      && (if core.pending.Some? then d.pending == core.pending && Writes(core, f) == []
          else if Writes(core, f) == [] then d.pending.None?
          else d.pending.Some? && Departs(c, d.pending.value, Writes(core, f)))
  {
    hide Suits;
    if core.pending.None? && Pop(core.queue).1.Some? {
      var m := Pop(core.queue).1.value;
      assert Suited(c, m);
      var w :| Suits(c, m.frame, m.expects, w);
      SuitedCommand(c, m, w);
    }
  }

  lemma SuitedCommand(c: Config, m: Message, w: Wire)
    requires Suits(c, m.frame, m.expects, w)
    ensures m.frame != [] && CommandOf(m.frame) == w.command
  {
  }

  /** A frame just written to an idle device is a request under way. */
  lemma NewRequest(c: Config, s: Sys)
    requires DeviceRuntime.Valid(c, s.device) && s.device.mode.Sync?
    requires |s.requests| == |Replies(s.out)| + 1 && Departs(c, s.requests[|s.requests| - 1], s.toDevice)
    ensures Asking(c, s)
  {
    hide Suits, InTransit, DeviceRuntime.Valid, Replies;
    var p := s.requests[|s.requests| - 1];
    var w :| Suits(c, p.frame, p.expects, w) && p.command == w.command;
    Departure(c, s.device, p.frame, p.expects, w);
  }

  /** What a poll does to the link: the replies that it brings in, and the frame that it sends. */
  ghost predicate PollOutcome(c: Config, s: Sys, t: Sys, n: nat, replies: seq<Wire>, sent: seq<byte>) {
    && t == s.(core := t.core, parser := t.parser, taken := s.taken + n, toDevice := s.toDevice + sent,
               requests := t.requests, events := t.events)
    && t.taken <= |Wired(t)| && HostParser.Valid(t.parser)
    && t.parser == HostParser.After(HostParser.Initial(false), Wired(t)[..t.taken])
    && t.requests == s.requests + (if sent != [] && t.core.pending.Some? then [t.core.pending.value] else [])
    && AllSuited(c, t.core.queue)
    && t.events == EventsOf(t.out[..CompleteCount(TO_HOST, t.out, t.taken)])
    && |Arrived(t)| == |Arrived(s)| + |replies| <= |Replies(t.out)|
    && |replies| <= 1 && (replies != [] ==> s.core.pending.Some?)
    && (if s.core.pending.Some? && replies == [] then t.core.pending == s.core.pending && sent == []
        else if sent == [] then t.core.pending.None?
        else t.core.pending.Some? && Departs(c, t.core.pending.value, sent))
  }

  lemma PollResult(c: Config, s: Sys, clock: Clock, n: nat) returns (replies: seq<Wire>, sent: seq<byte>)
    requires Inv(c, s) && Enabled(c, s, HostPoll(clock, n))
    ensures PollOutcome(c, s, Apply(c, s, HostPoll(clock, n)), n, replies, sent)
  {
    hide Encode, EncodeAll, CompleteCount, Replies, EventsOf, AllSuited, Suits, InTransit, DeviceRuntime.Valid;
    hide HostParser.After, HostParser.Output, HostParser.Valid, CompletesRequest, ValidWire, NextAll, EventsAll;
    hide WritesAll, Asking, Idle;
    hide Reading, Tail, Fresh, Departs, InTime, Expired, AnsweredBy, Received;
    var ws := FreshFrames(c, s, n);
    var j, k := CompleteCount(TO_HOST, s.out, s.taken), CompleteCount(TO_HOST, s.out, s.taken + n);
    RepliesToCome(c, s, j, k);
    RepliesBound(s, k);
    InTimeIsKept(NextAll(s.core, Received(HostParser.Meanings(ws))), clock.checked);
    PollCore(c, s.core, ws, clock);
    EventsOfConcat(s.out[..j], ws);
    replies := Replies(ws);
    sent := WritesAll(s.core, Reading(Fresh(s, n), false) + Tail(clock, true));
  }

  lemma PollKeeps(c: Config, s: Sys, clock: Clock, n: nat)
    requires Inv(c, s) && Enabled(c, s, HostPoll(clock, n))
    ensures Inv(c, Apply(c, s, HostPoll(clock, n)))
  {
    hide Encode, EncodeAll, CompleteCount, Replies, EventsOf, AllSuited, Suits, InTransit, DeviceRuntime.Valid;
    hide HostParser.After, HostParser.Valid, CompletesRequest, ValidWire, Departs, InTime, AnsweredBy, Apply;
    var replies, sent := PollResult(c, s, clock, n);
    var t := Apply(c, s, HostPoll(clock, n));
    if s.core.pending.Some? && replies == [] {
      assert t.toDevice == s.toDevice && t.requests == s.requests;
    } else {
      // Nothing is pending any more before sending, so nothing is on its way to the device.
      assert Idle(s);
      assert s.toDevice + sent == sent;
      if sent != [] {
        assert t.requests[|t.requests| - 1] == t.core.pending.value;
        NewRequest(c, t);
      } else {
        assert t.requests == s.requests && Idle(t);
      }
    }
  }

  /** As many replies have arrived as there are requests, so all replies have been sent. */
  lemma RepliesBound(s: Sys, k: nat)
    requires k <= |s.out|
    ensures |Replies(s.out[..k])| <= |Replies(s.out)|
  {
    assert s.out == s.out[..k] + s.out[k..];
    RepliesConcat(s.out[..k], s.out[k..]);
  }

  lemma Departure(c: Config, d: DeviceRuntime.State, frame: seq<byte>, expects: ExpectedReply, w: Wire)
    requires DeviceRuntime.Valid(c, d) && d.mode.Sync? && Suits(c, frame, expects, w)
    ensures InTransit(c, d, frame, w, d, 0)
  {
    hide DeviceRuntime.Valid;
    var bytes := Encode(ToDevice(false, c.maxPayload), w);
    assert bytes[..0] == [] && bytes[0..] == bytes;
    DeviceReplies.RunNothing(c, d);
  }

  lemma StepKeeps(c: Config, s: Sys, step: Step)
    requires Inv(c, s) && Enabled(c, s, step)
    ensures Inv(c, Apply(c, s, step))
  {
    hide Inv, Enabled, Apply;
    match step {
      case Call(a) => CallKeeps(c, s, a);
      case HostPoll(clock, n) => PollKeeps(c, s, clock, n);
      case DeviceByte(a) => DeviceByteKeeps(c, s, a);
      case Notify(payload) => NotifyKeeps(c, s, payload);
    }
  }

  // ---- Whole runs ----

  /** The step can be taken: it is enabled, and both parsers are in one of their states. */
  ghost predicate CanTake(c: Config, s: Sys, step: Step) {
    && HostParser.Valid(s.parser) && DeviceRuntime.Valid(c, s.device)
    && (step.HostPoll? ==> s.taken + step.n <= |Wired(s)|)
    && (step.DeviceByte? ==> s.toDevice != [])
    && Enabled(c, s, step)
  }

  ghost predicate Reaches(c: Config, s: Sys, steps: seq<Step>, t: Sys)
    decreases |steps|
  {
    if steps == [] then t == s
    else CanTake(c, s, steps[0]) && Reaches(c, Apply(c, s, steps[0]), steps[1..], t)
  }

  lemma {:induction false} RunKeeps(c: Config, s: Sys, steps: seq<Step>, t: Sys)
    requires Inv(c, s) && Reaches(c, s, steps, t)
    ensures Inv(c, t)
    decreases |steps|
  {
    hide Inv, Enabled, Apply;
    if steps != [] {
      StepKeeps(c, s, steps[0]);
      RunKeeps(c, Apply(c, s, steps[0]), steps[1..], t);
    }
  }

  /** The events that report a reply, in order. */
  function ReplyEvents(events: seq<Event>): seq<Event> {
    if events == [] then []
    else
      var e := events[0];
      (if e.AckEvent? || e.NackEvent? || e.DataEvent? then [e] else []) + ReplyEvents(events[1..])
  }

  predicate Undisturbed(e: Event) {
    !e.ErrorEvent? && !e.TimeoutEvent?
  }

  /** The event says that the request for this command was answered as it expects, or refused. */
  predicate Reports(e: Event, p: Pending) {
    || (e.AckEvent? && e.command == p.command && p.expects.ExpectAck?)
    || (e.NackEvent? && e.command == p.command)
    || (e.DataEvent? && e.command == p.command && p.expects.ExpectData?)
  }

  /**
   The event says what the device's callback answered: ACK exactly if a command accepted the request, DATA
   exactly if a READ or a query did, with what it put out, and NACK exactly if the request was refused.
   */
  ghost predicate ReportsAnswer(c: Config, p: Pending, a: Answer, e: Event) {
    exists w :: Suits(c, p.frame, p.expects, w) && p.command == w.command && IsOutcome(c, RequestFor(w), a, e)
  }

  predicate IsOutcome(c: Config, r: Request, a: Answer, e: Event) {
    && (e.NackEvent? <==> DeviceReplies.Refused(c, r, a))
    && (e.AckEvent? <==> a.ok && DeviceReplies.ReachesCommand(c, r))
    && (e.DataEvent? <==> a.ok && (r.Read? || DeviceReplies.ReachesQuery(c, r)) && !DeviceReplies.Refused(c, r, a))
    && (e.NackEvent? || e.AckEvent? || e.DataEvent?) && e.command == r.command
    && (e.DataEvent? ==> e.payload == DeviceReplies.Output(c, r, a))
  }

  lemma EventReportsAnswer(c: Config, p: Pending, a: Answer, reply: Wire)
    requires AnsweredBy(c, p, a, reply) && CompletesRequest(reply, p)
    ensures ReportsAnswer(c, p, a, EventOf(reply)) && Reports(EventOf(reply), p)
  {
    hide Suits, DeviceReplies.Refused, DeviceReplies.ReachesCommand, DeviceReplies.ReachesQuery;
    var w :| Suits(c, p.frame, p.expects, w) && p.command == w.command
             && DeviceReplies.Answers(c, RequestFor(w), a, reply);
    assert IsOutcome(c, RequestFor(w), a, EventOf(reply));
  }

  lemma {:induction false} EventsReportReplies(ws: seq<Wire>)
    requires forall w | w in ws :: ValidWire(TO_HOST, w)
    ensures forall e | e in EventsOf(ws) :: Undisturbed(e)
    ensures |ReplyEvents(EventsOf(ws))| == |Replies(ws)|
    ensures forall i | 0 <= i < |Replies(ws)| :: ReplyEvents(EventsOf(ws))[i] == EventOf(Replies(ws)[i])
    decreases |ws|
  {
    hide ReplyEvents;
    if ws == [] {
      EventsOfNone();
    } else {
      var e, rest := EventOf(ws[0]), EventsOf(ws[1..]);
      assert EventsOf(ws) == [e] + rest;
      assert ValidWire(TO_HOST, ws[0]);
      assert (e.AckEvent? || e.NackEvent? || e.DataEvent?) <==> ws[0].kind != NOTIFICATION;
      ReplyEventsCons(e, rest);
      EventsReportReplies(ws[1..]);
      hide EventOf, EventsOf;
      var head := if ws[0].kind != NOTIFICATION then [ws[0]] else [];
      assert Replies(ws) == head + Replies(ws[1..]);
    }
  }

  lemma ReplyEventsCons(e: Event, rest: seq<Event>)
    ensures ReplyEvents([e] + rest) ==
      (if e.AckEvent? || e.NackEvent? || e.DataEvent? then [e] else []) + ReplyEvents(rest)
  {
    assert ([e] + rest)[1..] == rest;
  }

  lemma EventsOfNone()
    ensures EventsOf([]) == [] && ReplyEvents([]) == []
  {
  }

  /** From position k on there are only notifications, and the host has read past everything before it. */
  ghost predicate OnlyNotificationsRemain(s: Sys, k: nat) {
    && k <= |s.out| && |EncodeAll(TO_HOST, s.out[..k])| <= s.taken
    && forall w | w in s.out[k..] :: w.kind == NOTIFICATION
  }

  lemma {:induction false} NoRepliesNoKinds(ws: seq<Wire>)
    requires Replies(ws) == []
    ensures forall w | w in ws :: w.kind == NOTIFICATION
    decreases |ws|
  {
    if ws != [] {
      NoRepliesNoKinds(ws[1..]);
    }
  }

  /** The events so far report a reply, of the right kind and in order, for every request that has been completed. */
  lemma EventsAnswerRequests(c: Config, s: Sys)
    requires Inv(c, s)
    ensures forall e | e in s.events :: Undisturbed(e)
    ensures |ReplyEvents(s.events)| == |Arrived(s)|
    ensures |s.requests| == |ReplyEvents(s.events)| + (if s.core.pending.Some? then 1 else 0)
    ensures |ReplyEvents(s.events)| <= |s.answers|
    ensures forall i | 0 <= i < |ReplyEvents(s.events)| ::
      && Reports(ReplyEvents(s.events)[i], s.requests[i])
      && ReportsAnswer(c, s.requests[i], s.answers[i], ReplyEvents(s.events)[i])
  {
    hide Encode, EncodeAll, CompleteCount, Replies, EventsOf, AllSuited, Suits, InTransit, DeviceRuntime.Valid;
    hide HostParser.After, HostParser.Valid, CompletesRequest, ReplyEvents, Reports, ReportsAnswer, AnsweredBy;
    hide ValidWire, EventOf;
    var k := CompleteCount(TO_HOST, s.out, s.taken);
    var a, b := s.out[..k], s.out[k..];
    assert s.out == a + b;
    RepliesConcat(a, b);
    assert forall i | 0 <= i < |Replies(a)| :: Replies(a)[i] == Replies(s.out)[i];
    EventsReportReplies(a);
    forall i | 0 <= i < |Replies(a)|
      ensures Reports(EventOf(Replies(a)[i]), s.requests[i])
      ensures ReportsAnswer(c, s.requests[i], s.answers[i], EventOf(Replies(a)[i]))
    {
      EventReportsAnswer(c, s.requests[i], s.answers[i], Replies(a)[i]);
    }
  }

  /**
   End-to-end safety, in every run of the link in which no read or write fails and no timeout expires:
   no reply is ever reported as mismatched or unexpected; the i-th request sent is answered by the i-th
   reply event, for its command and of the kind it expects or a NACK, and every request but a pending
   last one has been answered exactly once; and when nothing is pending, no byte of a request is in the
   channel or the device's parser, and no byte of a reply is in the channel or the host's parser.
   */
  lemma LinkIsSafe(c: Config, timeout: nat, steps: seq<Step>, s: Sys)
    requires Limits(c) && Reaches(c, Start(c, timeout), steps, s)
    ensures forall e | e in s.events :: Undisturbed(e)
    ensures |s.requests| == |ReplyEvents(s.events)| + (if s.core.pending.Some? then 1 else 0)
    ensures |ReplyEvents(s.events)| <= |s.answers|
    ensures forall i | 0 <= i < |ReplyEvents(s.events)| ::
      && Reports(ReplyEvents(s.events)[i], s.requests[i])
      && ReportsAnswer(c, s.requests[i], s.answers[i], ReplyEvents(s.events)[i])
    ensures s.core.pending.None? ==>
      s.toDevice == [] && s.device.mode.Sync? && exists k :: OnlyNotificationsRemain(s, k)
  {
    hide Reaches, Start, Encode, EncodeAll, CompleteCount, Replies, EventsOf, AllSuited, Suits, InTransit;
    hide DeviceRuntime.Valid, HostParser.After, HostParser.Valid, CompletesRequest, ReplyEvents, Reports, ValidWire;
    hide ReportsAnswer, AnsweredBy;
    StartHolds(c, timeout);
    RunKeeps(c, Start(c, timeout), steps, s);
    EventsAnswerRequests(c, s);
    if s.core.pending.None? {
      var k := CompleteCount(TO_HOST, s.out, s.taken);
      var a, b := s.out[..k], s.out[k..];
      assert s.out == a + b;
      RepliesConcat(a, b);
      assert Replies(b) == [];
      NoRepliesNoKinds(b);
      CompleteCountBounds(TO_HOST, s.out, s.taken, s.taken);
      assert OnlyNotificationsRemain(s, k);
    }
  }

  // ---- Progress ----

  /**
   Bytes of a request never get stuck: while one is under way the device can take its next byte, and that shortens it.
   */
  lemma DeviceTakesBytes(c: Config, s: Sys, a: Answer)
    requires Inv(c, s) && Asking(c, s) && |a.out| <= c.maxPayload
    ensures CanTake(c, s, DeviceByte(a))
    ensures |Apply(c, s, DeviceByte(a)).toDevice| == |s.toDevice| - 1
  {
    hide Encode, EncodeAll, CompleteCount, Replies, EventsOf, AllSuited, Suits, DeviceRuntime.Valid, DeviceRuntime.Step;
  }

  /** Once the device has taken them all, one poll that reads everything completes the pending request. */
  lemma PollCompletes(c: Config, s: Sys, clock: Clock)
    requires Inv(c, s) && Idle(s)
    requires Enabled(c, s, HostPoll(clock, |Wired(s)| - s.taken))
    ensures var t := Apply(c, s, HostPoll(clock, |Wired(s)| - s.taken));
      Inv(c, t) && |Arrived(t)| == |s.requests|
  {
    hide Encode, EncodeAll, CompleteCount, Replies, EventsOf, AllSuited, Suits, InTransit, DeviceRuntime.Valid;
    hide NextAll, EventsAll, WritesAll, HostParser.After, HostParser.Valid, HostParser.Output;
    PollKeeps(c, s, clock, |Wired(s)| - s.taken);
    CompleteCountBounds(TO_HOST, s.out, |Wired(s)|, |Wired(s)|);
    assert s.out[..|s.out|] == s.out;
  }

  /** The device taking one byte after another, with these answers ready. */
  function DeviceSteps(answers: seq<Answer>): seq<Step> {
    seq(|answers|, i requires 0 <= i < |answers| => DeviceByte(answers[i]))
  }

  /** As many device steps as there are bytes under way leave the link idle, with the host's side as it was. */
  lemma {:induction false} DeviceTakesAll(c: Config, s: Sys, answers: seq<Answer>) returns (t: Sys)
    requires Inv(c, s) && |answers| == |s.toDevice| && forall a | a in answers :: |a.out| <= c.maxPayload
    ensures Reaches(c, s, DeviceSteps(answers), t) && Inv(c, t) && Idle(t)
    ensures t.core == s.core && t.requests == s.requests && t.events == s.events
    ensures t.answers == s.answers + if answers == [] then [] else [answers[|answers| - 1]]
    decreases |answers|
  {
    hide Inv, Enabled, Asking, Idle, Apply, HostParser.Valid, DeviceRuntime.Valid;
    if answers == [] {
      t := s;
      NothingUnderWay(c, s);
    } else {
      var a := answers[0];
      SomethingUnderWay(c, s);
      DeviceTakesBytes(c, s, a);
      StepKeeps(c, s, DeviceByte(a));
      var next := Apply(c, s, DeviceByte(a));
      DeviceLeavesHost(c, s, a);
      AnswerCount(c, s);
      AnswerCount(c, next);
      t := DeviceTakesAll(c, next, answers[1..]);
      assert DeviceSteps(answers)[1..] == DeviceSteps(answers[1..]);
    }
  }

  lemma NothingUnderWay(c: Config, s: Sys)
    requires Inv(c, s) && s.toDevice == []
    ensures Idle(s)
  {
    hide Encode, EncodeAll, CompleteCount, Replies, EventsOf, AllSuited, Suits, DeviceRuntime.Valid, HostParser.Valid;
  }

  lemma SomethingUnderWay(c: Config, s: Sys)
    requires Inv(c, s) && s.toDevice != []
    ensures Asking(c, s)
  {
    hide Encode, EncodeAll, CompleteCount, Replies, EventsOf, AllSuited, Suits, DeviceRuntime.Valid, HostParser.Valid;
    hide InTransit;
  }

  lemma DeviceLeavesHost(c: Config, s: Sys, a: Answer)
    requires CanTake(c, s, DeviceByte(a))
    ensures var t := Apply(c, s, DeviceByte(a));
      && t.core == s.core && t.requests == s.requests && t.events == s.events
      && (t.answers == s.answers || t.answers == s.answers + [a])
  {
    hide DeviceRuntime.Step, DeviceRuntime.Valid, HostParser.Valid, Enabled;
  }

  /** Every request has been answered, except one whose bytes are under way. */
  lemma AnswerCount(c: Config, s: Sys)
    requires Inv(c, s)
    ensures |s.answers| + (if s.toDevice == [] then 0 else 1) == |s.requests|
  {
    hide Encode, EncodeAll, CompleteCount, EventsOf, AllSuited, Suits, DeviceRuntime.Valid, HostParser.Valid, Replies;
    if s.toDevice == [] {
      NothingUnderWay(c, s);
    } else {
      SomethingUnderWay(c, s);
    }
  }

  /**
   Every pending request can be completed: once the device has taken the bytes under way, whatever it answers within its
   limit, one poll before the timeout that reads all there is reports one more reply. It is this request's, and it says
   what the callback answered: to the last of those bytes, or before if none was under way.
   */
  lemma RequestCompletes(c: Config, s: Sys, answers: seq<Answer>, clock: Clock) returns (t: Sys, u: Sys)
    requires Inv(c, s) && s.core.pending.Some? && InTime(s.core.pending, clock.checked)
    requires |answers| == |s.toDevice| && forall a | a in answers :: |a.out| <= c.maxPayload
    ensures Reaches(c, s, DeviceSteps(answers), t) && t.taken <= |Wired(t)|
    ensures Reaches(c, t, [HostPoll(clock, |Wired(t)| - t.taken)], u)
    ensures |ReplyEvents(u.events)| == |ReplyEvents(s.events)| + 1 == |s.requests|
    ensures Reports(ReplyEvents(u.events)[|s.requests| - 1], s.core.pending.value)
    ensures answers == [] ==> |s.answers| == |s.requests|
    ensures var a := if answers == [] then s.answers[|s.requests| - 1] else answers[|answers| - 1];
      ReportsAnswer(c, s.core.pending.value, a, ReplyEvents(u.events)[|s.requests| - 1])
  {
    hide Encode, EncodeAll, CompleteCount, Replies, EventsOf, AllSuited, Suits, InTransit, DeviceRuntime.Valid;
    hide HostParser.After, HostParser.Valid, HostParser.Output, CompletesRequest, ReplyEvents, Reports;
    hide Received, NextAll, ReportsAnswer, AnsweredBy, Asking, Idle, Apply, DeviceSteps;
    t := DeviceTakesAll(c, s, answers);
    var n := |Wired(t)| - t.taken;
    ReceivingKeepsQueue(t.core, Fresh(t, n));
    u := Apply(c, t, HostPoll(clock, n));
    PollCompletes(c, t, clock);
    EventsAnswerRequests(c, s);
    EventsAnswerRequests(c, t);
    EventsAnswerRequests(c, u);
    AnswerCount(c, s);
    RequestsGrow(c, t, HostPoll(clock, n));
  }

  lemma RequestsGrow(c: Config, s: Sys, step: Step)
    requires CanTake(c, s, step)
    ensures s.requests <= Apply(c, s, step).requests && s.answers <= Apply(c, s, step).answers
  {
    hide DeviceRuntime.Step, DeviceRuntime.Valid, HostParser.Valid, Enabled;
  }

  /** What is reported for a write or query: the answer to exactly that command and payload. */
  lemma WriteIsReported(c: Config, p: Pending, a: Answer, e: Event, command: byte, data: seq<byte>)
    requires Limits(c) && ReportsAnswer(c, p, a, e) && p.frame == WriteFrame(command, data) && |data| <= c.maxPayload
    requires command in c.writable ==> p.expects == if c.writable[command].query then ExpectData else ExpectAck
    ensures IsOutcome(c, Write(command, data), a, e)
    ensures e == AckEvent(command) <==>
            a.ok && DeviceReplies.ReachesCallback(c, Write(command, data)) && !c.writable[command].query
    ensures e == DataEvent(command, a.out) <==>
            a.ok && DeviceReplies.ReachesCallback(c, Write(command, data)) && c.writable[command].query
  {
    hide Suits, DeviceReplies.ReachesCallback;
    var w :| Suits(c, p.frame, p.expects, w) && p.command == w.command && IsOutcome(c, RequestFor(w), a, e);
    WriteSuits(c, command, data, p.expects);
    SuitsOnce(c, p.frame, p.expects, w, p.expects, Wire(0, 1, command, data));
  }

  lemma WriteSuits(c: Config, command: byte, data: seq<byte>, expects: ExpectedReply)
    requires |data| <= c.maxPayload
    requires command in c.writable ==> expects == if c.writable[command].query then ExpectData else ExpectAck
    ensures Suits(c, WriteFrame(command, data), expects, Wire(0, 1, command, data))
  {
  }

  /** What is reported for a read: the answer to exactly that command. */
  lemma ReadIsReported(c: Config, p: Pending, a: Answer, e: Event, command: byte)
    requires Limits(c) && ReportsAnswer(c, p, a, e) && p.frame == ReadFrame(command) && p.expects.ExpectData?
    ensures IsOutcome(c, Read(command), a, e)
  {
    hide IsOutcome;
    var w :| Suits(c, p.frame, p.expects, w) && p.command == w.command && IsOutcome(c, RequestFor(w), a, e);
    SuitsOnce(c, p.frame, p.expects, w, p.expects, Wire(0, 0, command, []));
  }
}
