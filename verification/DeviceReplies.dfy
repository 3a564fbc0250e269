/**
 The device answers every complete frame exactly once: its parser follows the division
 of the incoming stream, and what it sends for a stream is one frame per completed
 request, in order, of a kind that the request allows.
 */
module DeviceReplies {
  import opened Bytes
  import opened Framing
  import opened DeviceRuntime
  import Checksum

  // ---- Running over concatenations ----

  lemma {:induction false} RunConcat(c: Config, d: State, a: seq<byte>, b: seq<byte>)
    requires Valid(c, d)
    ensures After(c, d, a + b) == After(c, After(c, d, a), b)
    ensures Requests(c, d, a + b) == Requests(c, d, a) + Requests(c, After(c, d, a), b)
    decreases |a|
  {
    hide Step;
    if a == [] {
      assert a + b == b;
    } else {
      assert (a + b)[1..] == a[1..] + b;
      RunConcat(c, Step(c, d, a[0]).0, a[1..], b);
    }
  }

  lemma RunFirst(c: Config, d: State, s: seq<byte>)
    requires Valid(c, d) && s != []
    ensures After(c, d, s) == After(c, Step(c, d, s[0]).0, s[1..])
    ensures Requests(c, d, s) == Asked(Step(c, d, s[0]).1) + Requests(c, Step(c, d, s[0]).0, s[1..])
  {
    hide Step;
  }

  lemma RunSnoc(c: Config, d: State, s: seq<byte>, k: nat)
    requires Valid(c, d) && k < |s|
    ensures After(c, d, s[..k + 1]) == Step(c, After(c, d, s[..k]), s[k]).0
    ensures Requests(c, d, s[..k + 1]) == Requests(c, d, s[..k]) + Asked(Step(c, After(c, d, s[..k]), s[k]).1)
  {
    hide Step;
    assert s[..k + 1] == s[..k] + [s[k]];
    RunConcat(c, d, s[..k], [s[k]]);
    var q := After(c, d, s[..k]);
    assert After(c, q, [s[k]]) == Step(c, q, s[k]).0;
    assert Requests(c, q, [s[k]]) == Asked(Step(c, q, s[k]).1) + Requests(c, Step(c, q, s[k]).0, []);
  }

  lemma RunOnward(c: Config, d: State, s: seq<byte>, at: nat, n: nat)
    requires Valid(c, d) && at + n <= |s|
    ensures After(c, d, s[..at + n]) == After(c, After(c, d, s[..at]), s[at..][..n])
    ensures Requests(c, d, s[..at + n]) == Requests(c, d, s[..at]) + Requests(c, After(c, d, s[..at]), s[at..][..n])
  {
    assert s[..at + n] == s[..at] + s[at..][..n];
    RunConcat(c, d, s[..at], s[at..][..n]);
  }

  // ---- One unit of the stream ----

  /** Waiting for a payload of `len` bytes, `data` of which has arrived, and its CRC. */
  predicate Receiving(c: Config, d: State, command: byte, len: nat, data: seq<byte>) {
    && Valid(c, d) && d.length == len <= c.maxPayload && d.command == command
    && d.index == |data| <= len && d.payload[..|data|] == data
    && d.mode == if |data| == len then Check else Payload
  }

  lemma PayloadStep(c: Config, d: State, command: byte, len: nat, data: seq<byte>, b: byte)
    requires Receiving(c, d, command, len, data) && |data| < len
    ensures Valid(c, d)
    ensures Receiving(c, Step(c, d, b).0, command, len, data + [b]) && Step(c, d, b).1 == None
  {
    hide Checksum.Crc;
    var q := Step(c, d, b).0;
    assert q.payload[..|data| + 1] == d.payload[..|data|] + [b];
  }

  lemma {:induction false} PayloadRun(c: Config, d: State, command: byte, len: nat, data: seq<byte>, more: seq<byte>)
    requires Valid(c, d) && Receiving(c, d, command, len, data) && |data| + |more| <= len
    ensures Receiving(c, After(c, d, more), command, len, data + more)
    ensures Requests(c, d, more) == []
    decreases |more|
  {
    hide Step, Receiving, After, Requests, Valid;
    if more == [] {
      assert data + more == data;
      RunNothing(c, d);
    } else {
      PayloadStep(c, d, command, len, data, more[0]);
      RunFirst(c, d, more);
      PayloadRun(c, Step(c, d, more[0]).0, command, len, data + [more[0]], more[1..]);
      assert data + [more[0]] + more[1..] == data + more;
    }
  }

  lemma CheckStep(c: Config, d: State, command: byte, data: seq<byte>, b: byte)
    requires Receiving(c, d, command, |data|, data)
    ensures Step(c, d, b).0.mode.Sync?
    ensures Asked(Step(c, d, b).1) == [if b == Checksum.Crc(data) then Write(command, data) else Corrupt(command)]
  {
    hide Checksum.Crc;
  }

  lemma LengthRun(c: Config, d: State, s: seq<byte>)
    requires Valid(c, d) && d.mode.LengthLo? && |s| >= 2
    ensures var len, q := Word(s[0], s[1]), After(c, d, s[..2]);
      if len > c.maxPayload then q.mode.Sync? else Receiving(c, q, d.command, len, [])
    ensures Requests(c, d, s[..2]) == []
    ensures !After(c, d, s[..1]).mode.Sync? && Requests(c, d, s[..1]) == []
  {
    hide Checksum.Crc, After, Requests;
    assert s[..0] == [];
    RunNothing(c, d);
    RunSnoc(c, d, s, 0);
    RunSnoc(c, d, s, 1);
  }

  /** Payload and CRC: exactly one request, and Sync. */
  lemma CheckedRun(c: Config, d: State, command: byte, len: nat, s: seq<byte>)
    requires Receiving(c, d, command, len, [])
    ensures |s| <= len ==> !After(c, d, s).mode.Sync? && Requests(c, d, s) == []
    ensures |s| > len ==>
      && After(c, d, s[..len + 1]).mode.Sync?
      && Requests(c, d, s[..len + 1]) ==
         [if s[len] == Checksum.Crc(s[..len]) then Write(command, s[..len]) else Corrupt(command)]
  {
    hide Checksum.Crc, Step;
    var data := if |s| <= len then s else s[..len];
    PayloadRun(c, d, command, len, [], data);
    assert [] + data == data;
    if |s| > len {
      RunSnoc(c, d, s, len);
      CheckStep(c, After(c, d, data), command, data, s[len]);
    }
  }

  lemma BodyRun(c: Config, d: State, body: seq<byte>)
    requires Valid(c, d) && d.mode.LengthLo?
    ensures |body| < 2 ==> !After(c, d, body).mode.Sync? && Requests(c, d, body) == []
    ensures |body| >= 2 ==>
      var len := Word(body[0], body[1]);
      if len > c.maxPayload then After(c, d, body[..2]).mode.Sync? && Requests(c, d, body[..2]) == []
      else if |body| < len + 3 then !After(c, d, body).mode.Sync? && Requests(c, d, body) == []
      else
        && After(c, d, body[..len + 3]).mode.Sync?
        && Requests(c, d, body[..len + 3]) ==
           [if body[len + 2] == Checksum.Crc(body[2..len + 2]) then Write(d.command, body[2..len + 2])
            else Corrupt(d.command)]
  {
    hide Checksum.Crc, Step, Word, After, Requests;
    if |body| == 0 {
      assert body == [];
      RunNothing(c, d);
    } else if |body| < 2 {
      if |body| == 1 {
        LengthRun(c, d, body + [0]);
        assert (body + [0])[..1] == body;
      }
    } else {
      LengthRun(c, d, body);
      var len, q, rest := Word(body[0], body[1]), After(c, d, body[..2]), body[2..];
      if len <= c.maxPayload {
        assert body == body[..2] + rest;
        RunConcat(c, d, body[..2], rest);
        CheckedRun(c, q, d.command, len, rest);
        if |rest| > len {
          RunOnward(c, d, body, 2, len + 1);
          assert body[2..len + 2] == rest[..len];
        }
      }
    }
  }

  /** The request that a unit of the stream stands for. */
  function RequestOf(v: Verdict): seq<Request> {
    match v
    case Incomplete => []
    case Junk(_) => []
    case BadCrc(_, command) => [Corrupt(command)]
    case Good(_, w) => [if w.kind == 0 then Read(w.command) else Write(w.command, w.payload)]
  }

  lemma LongRun(c: Config, d: State, s: seq<byte>)
    requires Valid(c, d) && d.mode.Sync? && 2 < |s| && s[0] == SYNC && s[1] == 1
    requires After(c, d, s[..3]).mode.LengthLo? && After(c, d, s[..3]).command == s[2] && Requests(c, d, s[..3]) == []
    ensures var v := Head(ToDevice(false, c.maxPayload), s);
      if v.Incomplete? then !After(c, d, s).mode.Sync? && Requests(c, d, s) == []
      else After(c, d, s[..v.n]).mode.Sync? && Requests(c, d, s[..v.n]) == RequestOf(v)
  {
    hide Checksum.Crc, Step, Word, Head, After, Requests;
    var q, body := After(c, d, s[..3]), s[3..];
    HeadOfLong(ToDevice(false, c.maxPayload), s, 1, body);
    assert s == s[..3] + body;
    RunConcat(c, d, s[..3], body);
    BodyRun(c, q, body);
    if |body| >= 2 {
      var n := if Word(body[0], body[1]) > c.maxPayload then 2 else Word(body[0], body[1]) + 3;
      if n <= |body| {
        RunOnward(c, d, s, 3, n);
        assert s[..3 + n] == s[..3] + body[..n];
      }
    }
  }

  /**
   From Sync, the bytes of the unit at the head of the stream bring the parser back to Sync and complete its request.
   */
  lemma UnitRun(c: Config, d: State, s: seq<byte>)
    requires Valid(c, d) && d.mode.Sync? && s != []
    ensures var v := Head(ToDevice(false, c.maxPayload), s);
      if v.Incomplete? then !After(c, d, s).mode.Sync? && Requests(c, d, s) == []
      else After(c, d, s[..v.n]).mode.Sync? && Requests(c, d, s[..v.n]) == RequestOf(v)
  {
    hide Checksum.Crc, After, Requests, Word;
    assert s[..0] == [] && s[..|s|] == s;
    RunNothing(c, d);
    RunSnoc(c, d, s, 0);
    if s[0] == SYNC && |s| > 1 {
      RunSnoc(c, d, s, 1);
      if s[1] <= 1 && |s| > 2 {
        RunSnoc(c, d, s, 2);
        if s[1] == 1 {
          LongRun(c, d, s);
        }
      }
    }
  }

  /** What the device makes of each frame, byte by byte, and of the heads it rejects. */
  lemma DeviceReads(c: Config, d: State, command: byte, payload: seq<byte>, b: byte)
    requires Valid(c, d) && d.mode.Sync? && |payload| <= c.maxPayload < 65536
    ensures Requests(c, d, [0x55, 0x00, command]) == [Read(command)]
    ensures After(c, d, [0x55, 0x00, command]).mode.Sync?
    ensures Requests(c, d, [0x55, 0x01] + LongTail(command, payload)) == [Write(command, payload)]
    ensures After(c, d, [0x55, 0x01] + LongTail(command, payload)).mode.Sync?
    ensures b != Checksum.Crc(payload) ==>
              var damaged := [0x55, 0x01] + LongTail(command, payload)[..3 + |payload|] + [b];
              Requests(c, d, damaged) == [Corrupt(command)] && After(c, d, damaged).mode.Sync?
  {
    hide Checksum.Crc, Requests, After, Head;
    FrameBytes(0, command, payload, c.maxPayload);
    DeviceReadsFrame(c, d, Wire(0, 0, command, []));
    DeviceReadsFrame(c, d, Wire(0, 1, command, payload));
    if b != Checksum.Crc(payload) {
      DeviceReadsDamaged(c, d, command, payload, b);
    }
  }

  lemma DeviceReadsFrame(c: Config, d: State, w: Wire)
    requires Valid(c, d) && d.mode.Sync? && ValidWire(ToDevice(false, c.maxPayload), w)
    ensures var bytes := Encode(ToDevice(false, c.maxPayload), w);
      && After(c, d, bytes).mode.Sync?
      && Requests(c, d, bytes) == [if w.kind == 0 then Read(w.command) else Write(w.command, w.payload)]
  {
    hide Requests, After, Head, Encode, ValidWire;
    var bytes := Encode(ToDevice(false, c.maxPayload), w);
    EncodingIsGood(ToDevice(false, c.maxPayload), w, []);
    assert bytes + [] == bytes && bytes[..|bytes|] == bytes;
    assert bytes != [] by { assert |Encode(ToDevice(false, c.maxPayload), w)| >= 3; }
    UnitRun(c, d, bytes);
  }

  lemma DeviceReadsDamaged(c: Config, d: State, command: byte, payload: seq<byte>, b: byte)
    requires Valid(c, d) && d.mode.Sync? && |payload| <= c.maxPayload < 65536 && b != Checksum.Crc(payload)
    ensures var damaged := [0x55, 0x01] + LongTail(command, payload)[..3 + |payload|] + [b];
      Requests(c, d, damaged) == [Corrupt(command)] && After(c, d, damaged).mode.Sync?
  {
    hide Checksum.Crc, Requests, After, Head;
    var lo, hi := (|payload| % 256) as byte, (|payload| / 256) as byte;
    var body := [lo, hi] + payload + [b];
    var damaged := [0x55, 0x01] + LongTail(command, payload)[..3 + |payload|] + [b];
    assert damaged == [0x55, 0x01, command] + body;
    assert damaged[3..] == body && body[2..|payload| + 2] == payload;
    HeadOfLong(ToDevice(false, c.maxPayload), damaged, 1, body);
    UnitRun(c, d, damaged);
    assert damaged[..|damaged|] == damaged;
  }

  // ---- Whole streams ----

  function RequestOfItem(item: Item): Request {
    match item
    case Damaged(_, _, command) => Corrupt(command)
    case Whole(_, _, w) => if w.kind == 0 then Read(w.command) else Write(w.command, w.payload)
  }

  /** The requests that the units of a stream stand for, in stream order. */
  function RequestsIn(items: seq<Item>): (rs: seq<Request>)
    ensures |rs| == |items|
  {
    if items == [] then [] else [RequestOfItem(items[0])] + RequestsIn(items[1..])
  }

  lemma RequestsInCons(item: Item, items: seq<Item>)
    ensures RequestsIn([item] + items) == [RequestOfItem(item)] + RequestsIn(items)
  {
    assert ([item] + items)[1..] == items;
  }

  /** From Sync, the requests completed by a stream are those of its division into frames, one for one. */
  lemma {:induction false} DeviceFollowsScan(c: Config, d: State, s: seq<byte>, at: nat)
    requires Valid(c, d) && d.mode.Sync?
    ensures Requests(c, d, s) == RequestsIn(Scan(ToDevice(false, c.maxPayload), s, at))
    decreases |s|
  {
    hide Step, Head, RequestsIn, Requests, After;
    if s == [] {
      RunNothing(c, d);
    } else {
      var dialect := ToDevice(false, c.maxPayload);
      var v := Head(dialect, s);
      UnitRun(c, d, s);
      if v.Incomplete? {
        RunNothing(c, d);
      } else {
        var rest := s[v.n..];
        assert s == s[..v.n] + rest;
        RunConcat(c, d, s[..v.n], rest);
        DeviceFollowsScan(c, After(c, d, s[..v.n]), rest, at + v.n);
        match v {
          case Junk(_) =>
          case BadCrc(n, command) => RequestsInCons(Damaged(at, n, command), Scan(dialect, rest, at + n));
          case Good(n, w) => RequestsInCons(Whole(at, n, w), Scan(dialect, rest, at + n));
        }
      }
    }
  }

  lemma RunNothing(c: Config, d: State)
    requires Valid(c, d)
    ensures After(c, d, []) == d && Requests(c, d, []) == RequestsIn([]) == []
  {
  }

  // ---- Replies ----

  /** Every typed READ response fits a frame: a question about the message table alone. */
  predicate TypedReadsFit(c: Config) {
    forall command | command in c.readable && c.readable[command].ReadTyped? ::
      c.readable[command].wireSize <= c.maxPayload
  }

  /** A typed READ whose response does not fit a frame. */
  predicate OversizedRead(c: Config, r: Request) {
    && r.Read? && r.command in c.readable
    && c.readable[r.command].ReadTyped? && c.readable[r.command].wireSize > c.maxPayload
  }

  /** A READ of a message without a generated encoder. */
  predicate RawRead(c: Config, r: Request) {
    r.Read? && r.command in c.readable && c.readable[r.command].ReadRaw?
  }

  /**
   The request reaches a callback: an intact frame of a known
   message, whose payload has the form the message asks for.
   */
  predicate ReachesCallback(c: Config, r: Request) {
    match r
    case Read(command) => command in c.readable
    case Write(command, payload) =>
      && command in c.writable
      && (c.writable[command].payload.BoolByte? ==> |payload| >= 1)
      && (c.writable[command].payload.NoPayload? ==> |payload| == 0)
    case Corrupt(_) => false
  }

  predicate ReachesQuery(c: Config, r: Request) {
    r.Write? && ReachesCallback(c, r) && c.writable[r.command].query
  }

  predicate ReachesCommand(c: Config, r: Request) {
    r.Write? && ReachesCallback(c, r) && !c.writable[r.command].query
  }

  /** The payload that an accepted request is answered with, if it is answered with DATA. */
  function Output(c: Config, r: Request, a: Answer): seq<byte> {
    if r.Read? && r.command in c.readable && c.readable[r.command].ReadTyped?
    then Encoded(a.out, c.readable[r.command].wireSize)
    else a.out
  }

  /** The request is refused: no callback is reached, or it does not accept, or its raw bytes do not fit. */
  predicate Refused(c: Config, r: Request, a: Answer) {
    !ReachesCallback(c, r) || !a.ok || (RawRead(c, r) && |a.out| > c.maxPayload)
  }

  /**
   The frame is the answer to the request: NACK exactly when the request is refused, ACK exactly when a command accepts
   it, DATA exactly when a READ or a query does, and then with the callback's payload.
   */
  predicate Answers(c: Config, r: Request, a: Answer, w: Wire) {
    && w.command == r.command && w.source == 0
    && (w.kind == 0 <==> Refused(c, r, a))
    && (w.kind == 1 <==> a.ok && ReachesCommand(c, r))
    && (w.kind == 2 <==> a.ok && (r.Read? || ReachesQuery(c, r)) && !Refused(c, r, a))
    && w.payload == (if w.kind == 2 then Output(c, r, a) else [])
    && w.kind <= 2 && |w.payload| <= c.maxPayload
  }

  /**
   A request is answered by exactly one frame, of exactly the right kind, unless it was accepted and is a typed
   READ whose wire size exceeds the limit, or a query whose output does: then, and only then, nothing is sent.
   */
  lemma ReplyOnce(c: Config, r: Request, a: Answer)
    requires ValidConfig(c)
    ensures Reply(c, r, a).None? <==> a.ok && (OversizedRead(c, r) || (ReachesQuery(c, r) && |a.out| > c.maxPayload))
    ensures Reply(c, r, a).Some? ==>
      && Answers(c, r, a, Reply(c, r, a).value)
      && ValidWire(ToHost(false).(maxPayload := c.maxPayload), Reply(c, r, a).value)
  {
  }

  /** There is no other answer: the request, the message table and what the callback returned determine it. */
  lemma AnswerIsUnique(c: Config, r: Request, a: Answer, v: Wire, w: Wire)
    requires Answers(c, r, a, v) && Answers(c, r, a, w)
    ensures v == w
  {
  }

  /**
   The callback that a WRITE reaches: the decoded one for a
   struct of its exact size, a bool or nothing, else the raw one.
   */
  lemma HandlerIsChosen(c: Config, command: byte, payload: seq<byte>)
    ensures HandlerOf(c, command, payload).Some? <==> ReachesCallback(c, Write(command, payload))
    ensures HandlerOf(c, command, payload) == Some(OnDecoded) <==>
            command in c.writable &&
            match c.writable[command].payload
            case StructOf(wireSize) => |payload| == wireSize
            case BoolByte => |payload| >= 1
            case NoPayload => |payload| == 0
            case RawBytes => false
    ensures HandlerOf(c, command, payload) == Some(OnBytes) <==>
            command in c.writable &&
            match c.writable[command].payload
            case StructOf(wireSize) => |payload| != wireSize
            case RawBytes => true
            case _ => false
  {
  }

  /** What is put on the wire for a reply, byte by byte, and for none. */
  lemma ReplyBytes(command: byte, payload: seq<byte>)
    requires |payload| < 65536
    ensures BytesOfReply(None) == []
    ensures BytesOfReply(Some(Wire(0, 0, command, []))) == [0x55, 0x00, command]
    ensures BytesOfReply(Some(Wire(0, 1, command, []))) == [0x55, 0x01, command]
    ensures BytesOfReply(Some(Wire(0, 2, command, payload))) == [0x55, 0x02] + LongTail(command, payload)
  {
    hide Encode, LongTail;
    FrameBytes(0, command, payload, 0);
  }

  /**
   A typed READ of three bytes on a device limited to two, and a query answered with three: both accepted, and silent.
   */
  lemma OversizedIsSilent(out: seq<byte>)
    requires |out| == 3
    ensures var c := Config(2, map[7 := ReadTyped(3)], map[9 := WriteMessage(RawBytes, true)]);
      && ValidConfig(c)
      && Reply(c, Read(7), Answer(true, out)).None?
      && Reply(c, Write(9, []), Answer(true, out)).None?
  {
  }

  /** The frames sent while the bytes s come in, when a callback reached by the i-th byte answers as answers[i]. */
  function SentFrames(c: Config, d: State, s: seq<byte>, answers: seq<Answer>): seq<Wire>
    requires Valid(c, d) && |answers| == |s|
    decreases |s|
  {
    if s == [] then []
    else
      (match Step(c, d, s[0]).1
       case None => []
       case Some(r) => (match Reply(c, r, answers[0]) case None => [] case Some(w) => [w])) +
      SentFrames(c, Step(c, d, s[0]).0, s[1..], answers[1..])
  }

  /** The answers that those requests were given, one for each completed request. */
  function GivenAnswers(c: Config, d: State, s: seq<byte>, answers: seq<Answer>): (given: seq<Answer>)
    requires Valid(c, d) && |answers| == |s|
    ensures |given| == |Requests(c, d, s)|
    decreases |s|
  {
    if s == [] then []
    else
      var (q, o) := Step(c, d, s[0]);
      (if o.Some? then [answers[0]] else []) + GivenAnswers(c, q, s[1..], answers[1..])
  }

  /**
   Over any stream, with every typed response and callback output within the payload limit: one frame per completed
   request, in order, and it is the answer to that request.
   */
  lemma {:induction false} OneReplyPerRequest(c: Config, d: State, s: seq<byte>, answers: seq<Answer>)
    requires ValidConfig(c) && TypedReadsFit(c) && Valid(c, d) && |answers| == |s|
    requires forall i | 0 <= i < |answers| :: |answers[i].out| <= c.maxPayload
    ensures |SentFrames(c, d, s, answers)| == |Requests(c, d, s)|
    ensures forall i | 0 <= i < |Requests(c, d, s)| ::
              Answers(c, Requests(c, d, s)[i], GivenAnswers(c, d, s, answers)[i], SentFrames(c, d, s, answers)[i])
    decreases |s|
  {
    hide Step, Answers;
    if s != [] {
      var (q, o) := Step(c, d, s[0]);
      OneReplyPerRequest(c, q, s[1..], answers[1..]);
      if o.Some? {
        ReplyOnce(c, o.value, answers[0]);
      }
    }
  }

  /**
   For a stream read from Sync: exactly one ACK, NACK or DATA per complete READ or WRITE frame of the stream (a WRITE
   frame with a bad CRC included), in stream order, and it is the answer to that frame.
   */
  lemma DeviceRepliesOnce(c: Config, d: State, s: seq<byte>, answers: seq<Answer>)
    requires ValidConfig(c) && TypedReadsFit(c) && Valid(c, d) && d.mode.Sync? && |answers| == |s|
    requires forall i | 0 <= i < |answers| :: |answers[i].out| <= c.maxPayload
    ensures var items, sent := Scan(ToDevice(false, c.maxPayload), s, 0), SentFrames(c, d, s, answers);
      var given := GivenAnswers(c, d, s, answers);
      && |sent| == |given| == |items|
      && forall i | 0 <= i < |items| :: Answers(c, RequestsIn(items)[i], given[i], sent[i])
  {
    DeviceFollowsScan(c, d, s, 0);
    OneReplyPerRequest(c, d, s, answers);
  }
}
