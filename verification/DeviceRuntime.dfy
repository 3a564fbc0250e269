/**
 The generated device runtime: the seven-state parser of feedByte, the dispatch of
 complete frames to the application's callbacks, and the frames it sends back.
 Callback results are inputs (Answer); sendBytes is taken to work.
 */
module DeviceRuntime {
  import opened Bytes
  import opened Framing
  import Checksum

  // ---- The message table ----

  /** A READ message with a generated encoder of fixed size, or one that fills a raw buffer. */
  datatype ReadMessage = ReadTyped(wireSize: nat) | ReadRaw

  datatype RequestPayload = StructOf(wireSize: nat) | BoolByte | NoPayload | RawBytes

  /** A WRITE message: a query answers with DATA, a command with ACK. */
  datatype WriteMessage = WriteMessage(payload: RequestPayload, query: bool)

  datatype Config = Config(maxPayload: nat, readable: map<byte, ReadMessage>, writable: map<byte, WriteMessage>)

  predicate ValidConfig(c: Config) {
    c.maxPayload < 65536
  }

  // ---- The parser ----

  datatype Mode = Sync | Type | Command | LengthLo | LengthHi | Payload | Check

  datatype State = State(mode: Mode, frameType: byte, command: byte, length: nat, index: nat, payload: seq<byte>)

  predicate Valid(c: Config, d: State) {
    && |d.payload| == c.maxPayload
    && (d.mode.Command? ==> d.frameType <= 1)
    && (d.mode.LengthLo? || d.mode.LengthHi? || d.mode.Payload? || d.mode.Check? ==> d.frameType == 1)
    && (d.mode.LengthHi? ==> d.length < 256)
    && (d.mode.Payload? ==> d.index < d.length <= c.maxPayload)
    && (d.mode.Check? ==> d.index == d.length <= c.maxPayload)
  }

  function Reset(d: State): State {
    d.(mode := Sync, length := 0, index := 0)
  }

  /** What a complete frame asks for; a WRITE frame with a bad CRC only gets a NACK. */
  datatype Request = Read(command: byte) | Write(command: byte, payload: seq<byte>) | Corrupt(command: byte)

  /** One byte through feedByte, up to the dispatch. */
  function Step(c: Config, d: State, b: byte): (r: (State, Option<Request>))
    requires Valid(c, d)
    ensures Valid(c, r.0)
  {
    match d.mode
    case Sync => (if b == SYNC then d.(mode := Type) else d, None)
    case Type =>
      var q := d.(frameType := b);
      (if b == 0x00 || b == 0x01 then q.(mode := Command) else Reset(q), None)
    case Command =>
      var q := d.(command := b);
      if d.frameType == 0x00 then (Reset(q), Some(Read(b))) else (q.(mode := LengthLo), None)
    case LengthLo => (d.(length := b as int, mode := LengthHi), None)
    case LengthHi =>
      var len := d.length + 256 * (b as int);
      var q := d.(length := len, index := 0);
      (if len > c.maxPayload then Reset(q) else if len == 0 then q.(mode := Check) else q.(mode := Payload), None)
    case Payload =>
      var q := d.(payload := d.payload[d.index := b], index := d.index + 1);
      (if q.index >= q.length then q.(mode := Check) else q, None)
    case Check =>
      var data := d.payload[..d.length];
      (Reset(d), Some(if b == Checksum.Crc(data) then Write(d.command, data) else Corrupt(d.command)))
  }

  function Asked(o: Option<Request>): seq<Request> {
    match o case None => [] case Some(r) => [r]
  }

  function After(c: Config, d: State, s: seq<byte>): (q: State)
    requires Valid(c, d)
    ensures Valid(c, q)
    decreases |s|
  {
    if s == [] then d else After(c, Step(c, d, s[0]).0, s[1..])
  }

  /** The requests completed by a sequence of bytes. */
  function Requests(c: Config, d: State, s: seq<byte>): seq<Request>
    requires Valid(c, d)
    decreases |s|
  {
    if s == [] then [] else Asked(Step(c, d, s[0]).1) + Requests(c, Step(c, d, s[0]).0, s[1..])
  }

  // ---- The dispatch ----

  /** What a callback returned: whether it accepted, and the bytes it produced or left for the response's encoder. */
  datatype Answer = Answer(ok: bool, out: seq<byte>)

  /** The encoder of a typed READ fills a buffer of exactly the wire size, whatever it is given. */
  function Encoded(out: seq<byte>, wireSize: nat): (r: seq<byte>)
    ensures |r| == wireSize && (|out| == wireSize ==> r == out)
  {
    seq(wireSize, i requires 0 <= i < wireSize => if i < |out| then out[i] else 0)
  }

  /** The callback that a WRITE reaches: one that is given a decoded request, or one that is given the bytes. */
  datatype Handler = OnDecoded | OnBytes

  function HandlerOf(c: Config, command: byte, payload: seq<byte>): Option<Handler> {
    if command !in c.writable then None
    else
      match c.writable[command].payload
      case StructOf(wireSize) => Some(if |payload| == wireSize then OnDecoded else OnBytes)
      case BoolByte => if |payload| >= 1 then Some(OnDecoded) else None
      case NoPayload => if |payload| == 0 then Some(OnDecoded) else None
      case RawBytes => Some(OnBytes)
  }

  const NACK: byte := 0
  const ACK: byte := 1
  const DATA: byte := 2
  const NOTIFICATION: byte := 3

  /** `sendData` refuses a payload over the limit without sending anything. */
  function SendData(c: Config, command: byte, out: seq<byte>): Option<Wire> {
    if |out| > c.maxPayload then None else Some(Wire(0, DATA, command, out))
  }

  function Disposition(c: Config, command: byte, query: bool, a: Answer): Option<Wire> {
    if !a.ok then Some(Wire(0, NACK, command, []))
    else if query then SendData(c, command, a.out)
    else Some(Wire(0, ACK, command, []))
  }

  function Reply(c: Config, r: Request, a: Answer): Option<Wire> {
    var nack := Some(Wire(0, NACK, r.command, []));
    match r
    case Corrupt(command) => nack
    case Read(command) =>
      if command !in c.readable then nack
      else
        (match c.readable[command]
         case ReadTyped(wireSize) => if a.ok then SendData(c, command, Encoded(a.out, wireSize)) else nack
         case ReadRaw => if a.ok && |a.out| <= c.maxPayload then SendData(c, command, a.out) else nack)
    case Write(command, payload) =>
      if command !in c.writable then nack
      else
        var m := c.writable[command];
        match m.payload
        case StructOf(_) => Disposition(c, command, m.query, a)
        case RawBytes => Disposition(c, command, m.query, a)
        case BoolByte => if |payload| >= 1 then Disposition(c, command, m.query, a) else nack
        case NoPayload => if |payload| == 0 then Disposition(c, command, m.query, a) else nack
  }

  function BytesOfReply(o: Option<Wire>): seq<byte> {
    match o case None => [] case Some(w) => Encode(ToHost(false), w)
  }

  // ---- The runtime object ----

  class Runtime {
    const config: Config
    const timeoutMs: nat
    var mode: Mode
    var startMs: nat
    var frameType: byte
    var command: byte
    var length: nat
    var index: nat
    const payload: array<byte>

    function Abs(): State
      reads this, payload
    {
      State(mode, frameType, command, length, index, payload[..])
    }

    ghost predicate Ready()
      reads this, payload
    {
      payload.Length == config.maxPayload && ValidConfig(config) && Valid(config, Abs()) && startMs < 0x1_0000_0000
    }

    /** `Runtime_init`. */
    constructor (config: Config, timeoutMs: nat, now: nat)
      requires ValidConfig(config) && now < 0x1_0000_0000
      ensures Ready() && this.config == config && this.timeoutMs == timeoutMs && startMs == now
      ensures Abs() == State(Sync, 0, 0, 0, 0, seq(config.maxPayload, _ => 0))
    {
      this.config, this.timeoutMs, this.startMs := config, timeoutMs, now;
      this.mode := Sync;
      this.frameType, this.command, this.length, this.index := 0, 0, 0, 0;
      this.payload := new byte[config.maxPayload](_ => 0);
    }

    method ResetParser()
      modifies this
      ensures Abs() == Reset(old(Abs())) && startMs == old(startMs)
    {
      mode := Sync;
      length := 0;
      index := 0;
    }

    /** `sendFrame`: header, payload and CRC as three writes; the result is what reached sendBytes. */
    method SendFrame(kind: byte, cmd: byte, data: seq<byte>) returns (ok: bool, sent: seq<byte>)
      requires ValidConfig(config)
      requires kind < 2 ==> data == []
      ensures ok == (|data| <= config.maxPayload)
      ensures sent == if ok then Encode(ToHost(false), Wire(0, kind, cmd, data)) else []
    {
      hide Checksum.Crc, Word;
      if |data| > config.maxPayload {
        return false, [];
      }
      if kind == NACK || kind == ACK {
        return true, [SYNC, kind, cmd];
      }
      var header := [SYNC, kind, cmd, LowByte(|data|), HighByte(|data|)];
      var crc := Checksum.Crc8(data);
      sent := header;
      if |data| > 0 {
        sent := sent + data;
      }
      sent := sent + [crc];
      ok := true;
    }

    method ApplyDisposition(cmd: byte, query: bool, a: Answer) returns (sent: seq<byte>)
      requires ValidConfig(config)
      ensures sent == BytesOfReply(Disposition(config, cmd, query, a))
    {
      hide Encode;
      var ok;
      if !a.ok {
        ok, sent := SendFrame(NACK, cmd, []);
      } else if query {
        ok, sent := SendFrame(DATA, cmd, a.out);
      } else {
        ok, sent := SendFrame(ACK, cmd, []);
      }
    }

    method DispatchRead(cmd: byte, a: Answer) returns (sent: seq<byte>)
      requires ValidConfig(config)
      ensures sent == BytesOfReply(Reply(config, Read(cmd), a))
    {
      hide Encode;
      var ok;
      if cmd !in config.readable {
        ok, sent := SendFrame(NACK, cmd, []);
        return;
      }
      match config.readable[cmd] {
        case ReadTyped(wireSize) =>
          if a.ok {
            ok, sent := SendFrame(DATA, cmd, Encoded(a.out, wireSize));
          } else {
            ok, sent := SendFrame(NACK, cmd, []);
          }
        case ReadRaw =>
          if a.ok && |a.out| <= config.maxPayload {
            ok, sent := SendFrame(DATA, cmd, a.out);
          } else {
            ok, sent := SendFrame(NACK, cmd, []);
          }
      }
    }

    method DispatchWrite(cmd: byte, data: seq<byte>, a: Answer) returns (sent: seq<byte>, reached: Option<Handler>)
      requires ValidConfig(config)
      ensures sent == BytesOfReply(Reply(config, Write(cmd, data), a))
      ensures reached == HandlerOf(config, cmd, data)
    {
      hide Encode;
      var ok;
      reached := None;
      if cmd !in config.writable {
        ok, sent := SendFrame(NACK, cmd, []);
        return;
      }
      var m := config.writable[cmd];
      match m.payload {
        case StructOf(wireSize) =>
          if |data| == wireSize {
            reached := Some(OnDecoded);
            sent := ApplyDisposition(cmd, m.query, a);
            return;
          }
          reached := Some(OnBytes);
          sent := ApplyDisposition(cmd, m.query, a);
        case RawBytes =>
          reached := Some(OnBytes);
          sent := ApplyDisposition(cmd, m.query, a);
        case BoolByte =>
          if |data| >= 1 {
            reached := Some(OnDecoded);
            sent := ApplyDisposition(cmd, m.query, a);
          } else {
            ok, sent := SendFrame(NACK, cmd, []);
          }
        case NoPayload =>
          if |data| == 0 {
            reached := Some(OnDecoded);
            sent := ApplyDisposition(cmd, m.query, a);
          } else {
            ok, sent := SendFrame(NACK, cmd, []);
          }
      }
    }

    /** `feedByte`: a is what the callback answers if this byte completes a frame that reaches one. */
    method FeedByte(b: byte, now: nat, a: Answer) returns (sent: seq<byte>)
      requires Ready() && now < 0x1_0000_0000
      modifies this, payload
      ensures Ready() && Abs() == Step(config, old(Abs()), b).0
      ensures sent ==
              match Step(config, old(Abs()), b).1
              case None => []
              case Some(r) => BytesOfReply(Reply(config, r, a))
      ensures startMs == if old(mode).Sync? && b == SYNC then now else old(startMs)
    {
      hide Encode, Reply, Checksum.Crc, Word;
      sent := [];
      match mode {
        case Sync =>
          if b == SYNC {
            mode := Type;
            startMs := now;
          }
        case Type =>
          frameType := b;
          if b == 0x00 || b == 0x01 {
            mode := Command;
          } else {
            ResetParser();
          }
        case Command =>
          command := b;
          if frameType == 0x00 {
            sent := DispatchRead(command, a);
            ResetParser();
          } else {
            mode := LengthLo;
          }
        case LengthLo =>
          length := b as int;
          mode := LengthHi;
        case LengthHi =>
          length := length + 256 * (b as int);
          index := 0;
          if length > config.maxPayload {
            ResetParser();
          } else if length == 0 {
            mode := Check;
          } else {
            mode := Payload;
          }
        case Payload =>
          // The source also guards against index reaching the buffer size here; index < length <= maxPayload always.
          payload[index] := b;
          index := index + 1;
          if index >= length {
            mode := Check;
          }
        case Check =>
          var data := payload[..length];
          var crc := Checksum.Crc8(data);
          if crc == b {
            var reached;
            sent, reached := DispatchWrite(command, data, a);
          } else {
            var ok;
            ok, sent := SendFrame(NACK, command, []);
            ReplyToCorrupt(config, command, a);
          }
          ResetParser();
      }
    }

    /** `tick`: a frame that has been open too long is abandoned; the difference is taken on 32 bits. */
    method Tick(now: nat)
      requires Ready() && now < 0x1_0000_0000
      modifies this
      ensures Ready() && startMs == old(startMs)
      ensures Abs() ==
              if !old(mode).Sync? && (now - old(startMs)) % 0x1_0000_0000 > timeoutMs
              then old(Abs()).(mode := Sync, length := 0, index := 0)
              else old(Abs())
    {
      if mode.Sync? {
        return;
      }
      if (now - startMs) % 0x1_0000_0000 > timeoutMs {
        ResetParser();
      }
    }
  }

  lemma ReplyToCorrupt(c: Config, command: byte, a: Answer)
    ensures Reply(c, Corrupt(command), a) == Some(Wire(0, NACK, command, []))
  {
  }
}
