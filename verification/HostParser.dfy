/**
 The host's FrameParser: an eight-state machine with a reusable buffer, fed one byte
 at a time. It is proved to follow the division of the stream in Framing.dfy on every
 byte sequence, to return to Sync within a fixed number of bytes, and to drop damaged
 frames without losing the next one.
 */
module HostParser {
  import opened Bytes
  import opened Framing
  import Checksum

  datatype ParsedFrame =
    | Nack(command: byte)
    | Ack(command: byte)
    | Data(command: byte, payload: seq<byte>)
    | Notification(payload: seq<byte>)

  datatype Mode = Sync | Source | Type | Command | LengthLo | LengthHi | Payload | Check

  datatype State = State(
    mode: Mode,
    addressing: bool,
    source: byte,
    frameType: byte,
    command: byte,
    dataLen: nat,
    received: nat,
    buf: seq<byte>)

  function Initial(addressing: bool): State {
    State(Sync, addressing, 0, 0, 0, 0, 0, [])
  }

  /** What the mode promises about the counters and the buffer; the two counters always fit 16 bits. */
  predicate Valid(p: State) {
    && (p.mode.Command? ==> p.frameType <= 3)
    && (p.mode.LengthLo? || p.mode.LengthHi? || p.mode.Payload? || p.mode.Check? ==>
          p.frameType == 2 || p.frameType == 3)
    && (p.mode.LengthHi? ==> p.dataLen < 256)
    && (p.mode.Payload? ==> |p.buf| == p.received < p.dataLen <= MAX_PAYLOAD_SIZE)
    && (p.mode.Check? ==> |p.buf| == p.received == p.dataLen <= MAX_PAYLOAD_SIZE)
    && (p.mode.Source? ==> p.addressing)
    && p.received <= MAX_PAYLOAD_SIZE && p.dataLen < 65536
  }

  /** One byte through `feed`. In LengthHi the two length bytes have no bit in common, so `|=` adds. */
  function Step(p: State, b: byte): (r: (State, Option<ParsedFrame>))
    requires Valid(p)
    ensures Valid(r.0) && r.0.addressing == p.addressing
  {
    match p.mode
    case Sync =>
      (if b == SYNC then p.(mode := if p.addressing then Source else Type) else p, None)
    case Source =>
      (p.(source := b, mode := Type), None)
    case Type =>
      (p.(frameType := b, mode := if b > 0x03 then Sync else Command), None)
    case Command =>
      if p.frameType == 0x00 then (p.(command := b, mode := Sync), Some(Nack(b)))
      else if p.frameType == 0x01 then (p.(command := b, mode := Sync), Some(Ack(b)))
      else (p.(command := b, mode := LengthLo), None)
    case LengthLo =>
      (p.(dataLen := b as int, mode := LengthHi), None)
    case LengthHi =>
      var len := p.dataLen + 256 * (b as int);
      if len == 0 then (p.(dataLen := len, received := 0, buf := [], mode := Check), None)
      else if len > MAX_PAYLOAD_SIZE then (p.(dataLen := len, mode := Sync), None)
      else (p.(dataLen := len, received := 0, buf := [], mode := Payload), None)
    case Payload =>
      var q := p.(buf := p.buf + [b], received := p.received + 1);
      (if q.received >= q.dataLen then q.(mode := Check) else q, None)
    case Check =>
      if b != Checksum.Crc(p.buf) then (p.(mode := Sync), None)
      else (p.(mode := Sync, buf := []),
            Some(if p.frameType == 0x02 then Data(p.command, p.buf) else Notification(p.buf)))
  }

  function Emitted(o: Option<ParsedFrame>): seq<ParsedFrame> {
    match o case None => [] case Some(f) => [f]
  }

  /** The state after a whole sequence of bytes. */
  function After(p: State, s: seq<byte>): (q: State)
    requires Valid(p)
    ensures Valid(q) && q.addressing == p.addressing
    decreases |s|
  {
    if s == [] then p else After(Step(p, s[0]).0, s[1..])
  }

  /** The frames emitted over a whole sequence of bytes. */
  function Output(p: State, s: seq<byte>): seq<ParsedFrame>
    requires Valid(p)
    decreases |s|
  {
    if s == [] then [] else Emitted(Step(p, s[0]).1) + Output(Step(p, s[0]).0, s[1..])
  }

  class FrameParser {
    var mode: Mode
    const addressing: bool
    var source: byte
    var frameType: byte
    var command: byte
    var dataLen: nat
    var received: nat
    var buf: seq<byte>

    function Abs(): State
      reads this
    {
      State(mode, addressing, source, frameType, command, dataLen, received, buf)
    }

    constructor (addressing: bool)
      ensures Abs() == Initial(addressing)
    {
      this.mode := Sync;
      this.addressing := addressing;
      this.source, this.frameType, this.command := 0, 0, 0;
      this.dataLen, this.received := 0, 0;
      this.buf := [];
    }

    /** Keeps the addressing mode and the last source. */
    method Reset()
      modifies this
      ensures Abs() == Initial(addressing).(source := old(source))
    {
      mode := Sync;
      frameType, command := 0, 0;
      dataLen, received := 0, 0;
      buf := [];
    }

    method Feed(b: byte) returns (frame: Option<ParsedFrame>)
      requires Valid(Abs())
      modifies this
      ensures Valid(Abs()) && (Abs(), frame) == Step(old(Abs()), b)
    {
      hide Checksum.Crc;
      frame := None;
      match mode {
        case Sync =>
          if b == SYNC {
            mode := if addressing then Source else Type;
          }
        case Source =>
          source := b;
          mode := Type;
        case Type =>
          frameType := b;
          if b > 0x03 {
            mode := Sync;
            return;
          }
          mode := Command;
        case Command =>
          frame := TakeCommand(b);
        case LengthLo =>
          dataLen := b as int;
          mode := LengthHi;
        case LengthHi =>
          TakeLength(b);
        case Payload =>
          buf := buf + [b];
          received := received + 1;
          if received >= dataLen {
            mode := Check;
          }
        case Check =>
          frame := CheckFrame(b);
      }
    }

    /** `feed` in the command byte. */
    method TakeCommand(b: byte) returns (frame: Option<ParsedFrame>)
      requires Valid(Abs()) && mode.Command?
      modifies this
      ensures Valid(Abs()) && (Abs(), frame) == Step(old(Abs()), b)
    {
      frame := None;
      command := b;
      if frameType == 0x00 {
        mode := Sync;
        frame := Some(Nack(command));
      } else if frameType == 0x01 {
        mode := Sync;
        frame := Some(Ack(command));
      } else {
        mode := LengthLo;
      }
    }

    /** `feed` in the second length byte. */
    method TakeLength(b: byte)
      requires Valid(Abs()) && mode.LengthHi?
      modifies this
      ensures Valid(Abs()) && (Abs(), None) == Step(old(Abs()), b)
    {
      dataLen := dataLen + 256 * (b as int);
      if dataLen == 0 {
        buf := [];
        received := 0;
        mode := Check;
      } else if dataLen > MAX_PAYLOAD_SIZE {
        mode := Sync;
      } else {
        buf := [];
        received := 0;
        mode := Payload;
      }
    }

    /** `feed` in the CRC byte. */
    method CheckFrame(b: byte) returns (frame: Option<ParsedFrame>)
      requires Valid(Abs()) && mode.Check?
      modifies this
      ensures Valid(Abs()) && (Abs(), frame) == Step(old(Abs()), b)
    {
      hide Checksum.Crc;
      var expected := Checksum.Crc8(buf);
      mode := Sync;
      if b != expected {
        return None;
      }
      var payload := buf;
      buf := [];
      if frameType == 0x02 {
        frame := Some(Data(command, payload));
      } else {
        frame := Some(Notification(payload));
      }
    }

    method FeedBytes(s: seq<byte>) returns (frames: seq<ParsedFrame>)
      requires Valid(Abs())
      modifies this
      ensures Valid(Abs()) && Abs() == After(old(Abs()), s)
      ensures frames == Output(old(Abs()), s)
    {
      hide Step, After, Output, Valid;
      frames := [];
      assert s[0..] == s;
      for i := 0 to |s|
        invariant Valid(Abs())
        invariant After(old(Abs()), s) == After(Abs(), s[i..])
        invariant Output(old(Abs()), s) == frames + Output(Abs(), s[i..])
      {
        assert s[i..][1..] == s[i + 1..];
        RunFirst(Abs(), s[i..]);
        var frame := Feed(s[i]);
        if frame.Some? {
          frames := frames + [frame.value];
        }
      }
      RunNone(Abs());
    }
  }

  lemma RunFirst(p: State, s: seq<byte>)
    requires Valid(p) && s != []
    ensures After(p, s) == After(Step(p, s[0]).0, s[1..])
    ensures Output(p, s) == Emitted(Step(p, s[0]).1) + Output(Step(p, s[0]).0, s[1..])
  {
    hide Step;
  }

  lemma RunNone(p: State)
    requires Valid(p)
    ensures After(p, []) == p && Output(p, []) == []
  {
  }

  // ---- Running over concatenations: chunking does not matter ----

  lemma {:induction false} RunConcat(p: State, a: seq<byte>, b: seq<byte>)
    requires Valid(p)
    ensures After(p, a + b) == After(After(p, a), b)
    ensures Output(p, a + b) == Output(p, a) + Output(After(p, a), b)
    decreases |a|
  {
    hide Step;
    if a == [] {
      assert a + b == b;
    } else {
      assert (a + b)[1..] == a[1..] + b;
      RunConcat(Step(p, a[0]).0, a[1..], b);
    }
  }

  lemma RunSnoc(p: State, s: seq<byte>, k: nat)
    requires Valid(p) && k < |s|
    ensures After(p, s[..k + 1]) == Step(After(p, s[..k]), s[k]).0
    ensures Output(p, s[..k + 1]) == Output(p, s[..k]) + Emitted(Step(After(p, s[..k]), s[k]).1)
  {
    hide Step;
    assert s[..k + 1] == s[..k] + [s[k]];
    RunConcat(p, s[..k], [s[k]]);
    var q := After(p, s[..k]);
    assert After(q, [s[k]]) == Step(q, s[k]).0;
    assert Output(q, [s[k]]) == Emitted(Step(q, s[k]).1) + Output(Step(q, s[k]).0, []);
  }

  // ---- The parser follows the division of the stream ----

  function Meaning(w: Wire): ParsedFrame {
    if w.kind == 0 then Nack(w.command)
    else if w.kind == 1 then Ack(w.command)
    else if w.kind == 2 then Data(w.command, w.payload)
    else Notification(w.payload)
  }

  function Meanings(ws: seq<Wire>): (fs: seq<ParsedFrame>)
    ensures |fs| == |ws|
    ensures forall i | 0 <= i < |ws| :: fs[i] == Meaning(ws[i])
  {
    if ws == [] then [] else [Meaning(ws[0])] + Meanings(ws[1..])
  }

  /** From Sync, k bytes of a header leave the parser in the mode that expects the next one, with nothing emitted. */
  lemma HeaderRun(p: State, s: seq<byte>)
    requires Valid(p) && p.mode.Sync? && s != [] && s[0] == SYNC
    ensures After(p, s[..1]) == p.(mode := if p.addressing then Source else Type)
    ensures Output(p, s[..1]) == []
    ensures p.addressing && |s| > 1 ==>
      After(p, s[..2]) == p.(mode := Type, source := s[1]) && Output(p, s[..2]) == []
  {
    assert s[..0] == [];
    RunSnoc(p, s, 0);
    if p.addressing && |s| > 1 {
      RunSnoc(p, s, 1);
    }
  }

  lemma StepInPayload(q: State, b: byte)
    requires Valid(q) && q.mode.Payload?
    ensures Step(q, b) == (q.(buf := q.buf + [b], received := q.received + 1,
                              mode := if q.received + 1 == q.dataLen then Check else Payload), None)
  {
  }

  /** The payload phase: the buffer takes exactly the bytes that come, and the last one moves on to the CRC. */
  lemma {:induction false} PayloadRun(q: State, data: seq<byte>)
    requires Valid(q) && q.mode.Payload? && q.received + |data| <= q.dataLen
    ensures After(q, data) == q.(buf := q.buf + data, received := q.received + |data|,
                                 mode := if q.received + |data| == q.dataLen then Check else Payload)
    ensures Output(q, data) == []
    decreases |data|
  {
    hide Step;
    if data == [] {
      assert q.buf + data == q.buf;
    } else {
      StepInPayload(q, data[0]);
      var r := Step(q, data[0]).0;
      if |data| == 1 {
        assert data[1..] == [];
        assert q.buf + data == r.buf;
      } else {
        PayloadRun(r, data[1..]);
        assert q.buf + data == r.buf + data[1..];
      }
    }
  }

  /** Waiting for a payload of `len` bytes, none of which has arrived, and its CRC. */
  predicate Receiving(r: State, len: nat) {
    && Valid(r) && r.dataLen == len && r.received == 0 && r.buf == []
    && r.mode == if len == 0 then Check else Payload
  }

  lemma LengthRun(q: State, s: seq<byte>)
    requires Valid(q) && q.mode.LengthLo? && |s| >= 2
    ensures var len, r := Word(s[0], s[1]), After(q, s[..2]);
      if len > MAX_PAYLOAD_SIZE then r.mode.Sync?
      else Receiving(r, len) && r.source == q.source && r.frameType == q.frameType && r.command == q.command
    ensures Output(q, s[..2]) == []
    ensures !After(q, s[..1]).mode.Sync? && Output(q, s[..1]) == []
  {
    hide Checksum.Crc, After, Output;
    assert s[..0] == [];
    NothingRead(q);
    RunSnoc(q, s, 0);
    RunSnoc(q, s, 1);
  }

  /** Payload and CRC: a frame when the CRC matches, nothing when it does not, and Sync in both cases. */
  lemma CheckedRun(r: State, len: nat, s: seq<byte>)
    requires Receiving(r, len)
    ensures |s| <= len ==> !After(r, s).mode.Sync? && Output(r, s) == []
    ensures |s| > len ==>
      && After(r, s[..len + 1]).mode.Sync?
      && After(r, s[..len + 1]).source == r.source
      && Output(r, s[..len + 1]) ==
         if s[len] == Checksum.Crc(s[..len]) then [Meaning(Wire(0, r.frameType, r.command, s[..len]))] else []
  {
    hide Checksum.Crc, Step;
    var data := if |s| <= len then s else s[..len];
    if len > 0 {
      PayloadRun(r, data);
    }
    assert [] + data == data;
    if |s| > len {
      RunSnoc(r, s, len);
      StepInCheck(After(r, data), s[len]);
    }
  }

  lemma StepInCheck(q: State, b: byte)
    requires Valid(q) && q.mode.Check?
    ensures Step(q, b).0.mode.Sync? && Step(q, b).0.source == q.source
    ensures Emitted(Step(q, b).1) ==
      if b == Checksum.Crc(q.buf) then [Meaning(Wire(0, q.frameType, q.command, q.buf))] else []
  {
    hide Checksum.Crc;
  }

  /** From Sync, the bytes of the unit at the head of a stream bring the parser back to Sync and emit that unit. */
  lemma UnitRun(p: State, s: seq<byte>)
    requires Valid(p) && p.mode.Sync? && s != []
    ensures var v := Head(ToHost(p.addressing), s);
      if v.Incomplete? then !After(p, s).mode.Sync? && Output(p, s) == []
      else
        && After(p, s[..v.n]).mode.Sync?
        && Output(p, s[..v.n]) == (if v.Good? then [Meaning(v.w)] else [])
        && (v.Good? && p.addressing ==> After(p, s[..v.n]).source == v.w.source)
  {
    hide Checksum.Crc, After, Output;
    var d := ToHost(p.addressing);
    var h := if d.addressing then 2 else 1;
    if s[0] != SYNC {
      assert s[..0] == [];
      NothingRead(p);
      RunSnoc(p, s, 0);
    } else {
      HeaderRun(p, s);
      if |s| <= h {
        assert s[..|s|] == s;
      } else {
        RunSnoc(p, s, h);
        assert s[..|s|] == s;
        if s[h] <= d.maxKind && |s| > h + 1 {
          RunSnoc(p, s, h + 1);
          if s[h] >= d.firstLong {
            LongRun(p, s, h);
          }
        }
      }
    }
  }

  /** The tail of UnitRun for a frame with a body. */
  lemma LongRun(p: State, s: seq<byte>, h: nat)
    requires Valid(p) && p.mode.Sync? && h == (if p.addressing then 2 else 1)
    requires h + 1 < |s| && s[0] == SYNC && 2 <= s[h] <= 3
    requires var q := After(p, s[..h + 2]);
      q.mode.LengthLo? && q.frameType == s[h] && q.command == s[h + 1] && (p.addressing ==> q.source == s[1])
    requires Output(p, s[..h + 2]) == []
    ensures var v := Head(ToHost(p.addressing), s);
      if v.Incomplete? then !After(p, s).mode.Sync? && Output(p, s) == []
      else
        && After(p, s[..v.n]).mode.Sync?
        && Output(p, s[..v.n]) == (if v.Good? then [Meaning(v.w)] else [])
        && (v.Good? && p.addressing ==> After(p, s[..v.n]).source == v.w.source)
  {
    hide Checksum.Crc, Step, Word, Head, After, Output, Valid;
    var q, body := After(p, s[..h + 2]), s[h + 2..];
    HeadOfLong(ToHost(p.addressing), s, h, body);
    assert s == s[..h + 2] + body;
    RunConcat(p, s[..h + 2], body);
    BodyRun(q, body);
    if |body| >= 2 {
      var len := Word(body[0], body[1]);
      var n := if len > MAX_PAYLOAD_SIZE then 2 else len + 3;
      if n <= |body| {
        RunOnward(p, s, h + 2, n);
      }
    }
  }

  lemma RunOnward(p: State, s: seq<byte>, at: nat, n: nat)
    requires Valid(p) && at + n <= |s|
    ensures After(p, s[..at + n]) == After(After(p, s[..at]), s[at..][..n])
    ensures Output(p, s[..at + n]) == Output(p, s[..at]) + Output(After(p, s[..at]), s[at..][..n])
  {
    assert s[..at + n] == s[..at] + s[at..][..n];
    RunConcat(p, s[..at], s[at..][..n]);
  }

  /** Length, payload and CRC of a frame, from the mode that follows COMMAND. */
  lemma BodyRun(q: State, body: seq<byte>)
    requires Valid(q) && q.mode.LengthLo?
    ensures |body| < 2 ==> !After(q, body).mode.Sync? && Output(q, body) == []
    ensures |body| >= 2 ==>
      var len := Word(body[0], body[1]);
      if len > MAX_PAYLOAD_SIZE then After(q, body[..2]).mode.Sync? && Output(q, body[..2]) == []
      else if |body| < len + 3 then !After(q, body).mode.Sync? && Output(q, body) == []
      else
        && After(q, body[..len + 3]).mode.Sync?
        && After(q, body[..len + 3]).source == q.source
        && Output(q, body[..len + 3]) ==
           if body[len + 2] == Checksum.Crc(body[2..len + 2])
           then [Meaning(Wire(0, q.frameType, q.command, body[2..len + 2]))]
           else []
  {
    hide Checksum.Crc, Step, Word, After, Output, Meaning;
    if |body| == 0 {
      assert body == [];
      NothingRead(q);
    } else if |body| == 1 {
      assert body == [body[0]];
      StepInLengthLo(q, body[0]);
    } else {
      LengthRun(q, body);
      var len, r, rest := Word(body[0], body[1]), After(q, body[..2]), body[2..];
      if len <= MAX_PAYLOAD_SIZE {
        assert body == body[..2] + rest;
        RunConcat(q, body[..2], rest);
        CheckedRun(r, len, rest);
        if |rest| > len {
          RunOnward(q, body, 2, len + 1);
          assert body[2..len + 2] == rest[..len];
        }
      }
    }
  }

  lemma StepInLengthLo(q: State, b: byte)
    requires Valid(q) && q.mode.LengthLo?
    ensures After(q, [b]).mode.LengthHi? && Output(q, [b]) == []
  {
    assert [b][1..] == [];
  }

  lemma MeaningsOfWiresCons(item: Item, items: seq<Item>)
    ensures Meanings(Wires([item] + items)) == (if item.Whole? then [Meaning(item.w)] else []) + Meanings(Wires(items))
  {
    hide Meaning;
    assert ([item] + items)[1..] == items;
    if item.Whole? {
      assert ([item.w] + Wires(items))[1..] == Wires(items);
    }
  }

  /** On every stream, read from Sync, the emitted frames are those of the division of Framing.Scan. */
  lemma {:induction false} ParserFollowsScan(p: State, s: seq<byte>, at: nat)
    requires Valid(p) && p.mode.Sync?
    ensures Output(p, s) == Meanings(Wires(Scan(ToHost(p.addressing), s, at)))
    decreases |s|
  {
    hide Step, Head, Meaning, Meanings, Wires, Output, After;
    NothingRead(p);
    if s != [] {
      var d := ToHost(p.addressing);
      var v := Head(d, s);
      UnitRun(p, s);
      if !v.Incomplete? {
        var q, rest := After(p, s[..v.n]), s[v.n..];
        assert s == s[..v.n] + rest;
        RunConcat(p, s[..v.n], rest);
        ParserFollowsScan(q, rest, at + v.n);
        match v {
          case Junk(_) =>
          case BadCrc(n, command) => MeaningsOfWiresCons(Damaged(at, n, command), Scan(d, rest, at + n));
          case Good(n, w) => MeaningsOfWiresCons(Whole(at, n, w), Scan(d, rest, at + n));
        }
      }
    }
  }

  lemma NothingRead(p: State)
    requires Valid(p)
    ensures After(p, []) == p && Output(p, []) == [] && Wires([]) == [] && Meanings([]) == []
  {
  }

  /** The i-th frame that comes out of a stream stands for a segment of it that encodes exactly that frame. */
  ghost predicate IsReadFrom(addressing: bool, s: seq<byte>, f: ParsedFrame, item: Item) {
    && item.Whole? && item.n <= |s| && item.at + item.n <= |s|
    && ValidWire(ToHost(addressing), item.w)
    && s[item.at..item.at + item.n] == Encode(ToHost(addressing), item.w)
    && f == Meaning(item.w)
  }

  /** The items of a division that are frames, in order. */
  function Wholes(items: seq<Item>): seq<Item> {
    if items == [] then [] else (if items[0].Whole? then [items[0]] else []) + Wholes(items[1..])
  }

  lemma {:induction false} WholesOfItems(items: seq<Item>)
    requires Ordered(items)
    ensures Ordered(Wholes(items)) && |Wholes(items)| == |Wires(items)| <= |items|
    ensures forall i | 0 <= i < |Wholes(items)| ::
      Wholes(items)[i] in items && Wholes(items)[i].Whole? && Wholes(items)[i].w == Wires(items)[i]
    decreases |items|
  {
    if items != [] {
      assert items == [items[0]] + items[1..];
      WholesOfItems(items[1..]);
      if items[0].Whole? {
        OrderedCons(items[0], Wholes(items[1..]));
      }
    }
  }

  /**
   Soundness: from Sync, every emitted frame is the exact encoding of its own segment of the stream, the
   segments are disjoint and in order, and there are at most |s| / 3 of them.
   */
  lemma FramesComeFromTheStream(p: State, s: seq<byte>) returns (segments: seq<Item>)
    requires Valid(p) && p.mode.Sync?
    ensures |segments| == |Output(p, s)| && 3 * |Output(p, s)| <= |s|
    ensures forall i | 0 <= i < |segments| :: IsReadFrom(p.addressing, s, Output(p, s)[i], segments[i])
    ensures Ordered(segments)
  {
    hide Step, Output, Meaning, Encode, ValidWire, Head;
    var d := ToHost(p.addressing);
    var items := Scan(d, s, 0);
    ParserFollowsScan(p, s, 0);
    ScanIsSound(d, s, 0);
    ScanIsOrdered(d, s, 0);
    ScanIsShort(d, s, 0);
    WholesOfItems(items);
    segments := Wholes(items);
    forall i | 0 <= i < |segments|
      ensures IsReadFrom(p.addressing, s, Output(p, s)[i], segments[i])
    {
      assert Sound(d, s, 0, segments[i]);
    }
  }

  /** Completeness: valid frames with SYNC-free garbage around them come out as exactly those frames. */
  lemma FramesAreParsed(p: State, parts: seq<(seq<byte>, Wire)>, tail: seq<byte>)
    requires Valid(p) && p.mode.Sync?
    requires forall i | 0 <= i < |parts| :: SyncFree(parts[i].0) && ValidWire(ToHost(p.addressing), parts[i].1)
    requires SyncFree(tail)
    ensures Output(p, Stream(ToHost(p.addressing), parts) + tail) == Meanings(Frames(parts))
  {
    hide Step, Output, Meaning, Encode, ValidWire, Head;
    var d := ToHost(p.addressing);
    ScanIsComplete(d, parts, tail, 0);
    ParserFollowsScan(p, Stream(d, parts) + tail, 0);
  }

  /** One valid frame from Sync: it comes out, with its source, and the parser is back in Sync for what follows. */
  lemma FrameRun(p: State, w: Wire, rest: seq<byte>)
    requires Valid(p) && p.mode.Sync? && ValidWire(ToHost(p.addressing), w)
    ensures var bytes := Encode(ToHost(p.addressing), w);
      && After(p, bytes).mode.Sync?
      && (p.addressing ==> After(p, bytes).source == w.source)
      && Output(p, bytes) == [Meaning(w)]
      && Output(p, bytes + rest) == [Meaning(w)] + Output(After(p, bytes), rest)
  {
    hide Step, Output, Meaning, Encode, ValidWire, Head, After;
    var d := ToHost(p.addressing);
    var bytes := Encode(d, w);
    EncodingIsGood(d, w, []);
    assert bytes + [] == bytes && bytes[..|bytes|] == bytes;
    EncodingIsNonempty(d, w);
    UnitRun(p, bytes);
    RunConcat(p, bytes, rest);
  }

  /** What the host makes of each frame, byte by byte, and of the heads it rejects. */
  lemma HostReads(p: State, command: byte, payload: seq<byte>, b: byte, lo: byte, hi: byte)
    requires Valid(p) && p.mode.Sync? && !p.addressing && |payload| <= 4096
    ensures Output(p, [0x55, 0x00, command]) == [Nack(command)]
    ensures Output(p, [0x55, 0x01, command]) == [Ack(command)]
    ensures Output(p, [0x55, 0x02] + LongTail(command, payload)) == [Data(command, payload)]
    ensures Output(p, [0x55, 0x03] + LongTail(command, payload)) == [Notification(payload)]
    ensures b != 0x55 ==> After(p, [b]) == p && Output(p, [b]) == []
    ensures b > 3 ==> After(p, [0x55, b]).mode.Sync? && Output(p, [0x55, b]) == []
    ensures lo as int + 256 * (hi as int) > 4096 ==>
              After(p, [0x55, 0x02, command, lo, hi]).mode.Sync? && Output(p, [0x55, 0x02, command, lo, hi]) == []
  {
    hide Checksum.Crc, Output, After, Encode, Step, LongTail;
    FrameBytes(0, command, payload, 0);
    HostReadsFrame(p, Wire(0, 0, command, []));
    HostReadsFrame(p, Wire(0, 1, command, []));
    HostReadsFrame(p, Wire(0, 2, command, payload));
    HostReadsFrame(p, Wire(0, 3, command, payload));
    HostRejects(p, b, command, lo, hi);
  }

  lemma HostReadsFrame(p: State, w: Wire)
    requires Valid(p) && p.mode.Sync? && ValidWire(ToHost(p.addressing), w)
    ensures Output(p, Encode(ToHost(p.addressing), w)) == [Meaning(w)]
  {
    hide Output, Encode, Meaning, ValidWire;
    FrameRun(p, w, []);
  }

  lemma HostRejects(p: State, b: byte, command: byte, lo: byte, hi: byte)
    requires Valid(p) && p.mode.Sync? && !p.addressing
    ensures b != 0x55 ==> After(p, [b]) == p && Output(p, [b]) == []
    ensures b > 3 ==> After(p, [0x55, b]).mode.Sync? && Output(p, [0x55, b]) == []
    ensures lo as int + 256 * (hi as int) > 4096 ==>
              After(p, [0x55, 0x02, command, lo, hi]).mode.Sync? && Output(p, [0x55, 0x02, command, lo, hi]) == []
  {
    hide Checksum.Crc;
    if b != 0x55 {
      assert [b][1..] == [] && Step(p, b) == (p, None);
    }
    if b > 3 {
      JunkRun(p, [0x55, b]);
    }
    if lo as int + 256 * (hi as int) > 4096 {
      JunkRun(p, [0x55, 0x02, command, lo, hi]);
    }
  }

  lemma JunkRun(p: State, s: seq<byte>)
    requires Valid(p) && p.mode.Sync? && s != [] && Head(ToHost(p.addressing), s) == Junk(|s|)
    ensures After(p, s).mode.Sync? && Output(p, s) == []
  {
    hide Output, After, Head;
    UnitRun(p, s);
    assert s[..|s|] == s;
  }

  lemma EncodingIsNonempty(d: Dialect, w: Wire)
    ensures 3 <= |Encode(d, w)|
  {
  }

  lemma MeaningsConcat(a: seq<Wire>, b: seq<Wire>)
    ensures Meanings(a + b) == Meanings(a) + Meanings(b)
  {
    hide Meaning;
  }

  lemma MeaningOfOne(w: Wire)
    ensures Meanings([w]) == [Meaning(w)]
  {
  }

  /** The first n bytes of a series of valid frames bring out exactly the frames that are complete in them. */
  lemma {:induction false} PrefixRun(p: State, ws: seq<Wire>, n: nat)
    requires Valid(p) && p.mode.Sync? && n <= |EncodeAll(ToHost(p.addressing), ws)|
    requires forall w | w in ws :: ValidWire(ToHost(p.addressing), w)
    ensures var d := ToHost(p.addressing);
      Output(p, EncodeAll(d, ws)[..n]) == Meanings(ws[..CompleteCount(d, ws, n)])
    decreases |ws|
  {
    hide Step, Output, After, Meaning, Encode, ValidWire, Head;
    var d := ToHost(p.addressing);
    NothingRead(p);
    if ws == [] {
      assert EncodeAll(d, ws)[..n] == [];
    } else {
      hide EncodeAll, CompleteCount, Meanings, Valid;
      FirstOfAll(d, ws, n);
      var bytes, rest := Encode(d, ws[0]), EncodeAll(d, ws[1..]);
      var k := |bytes|;
      if n < k {
        assert EncodeAll(d, ws)[..n] == bytes[..n];
        if n > 0 {
          PrefixIsIncomplete(d, ws[0], n);
          UnitRun(p, bytes[..n]);
        } else {
          assert bytes[..n] == [];
        }
        assert ws[..0] == [];
      } else {
        FrameRun(p, ws[0], rest[..n - k]);
        assert EncodeAll(d, ws)[..n] == bytes + rest[..n - k];
        var j := CompleteCount(d, ws[1..], n - k);
        PrefixRun(After(p, bytes), ws[1..], n - k);
        assert ws[..j + 1] == [ws[0]] + ws[1..][..j];
        MeaningOfOne(ws[0]);
        MeaningsConcat([ws[0]], ws[1..][..j]);
      }
    }
  }

  // ---- Resynchronisation ----

  /** A bound on the number of bytes until the parser is back in Sync. */
  function BytesToSync(p: State): nat
    requires Valid(p)
  {
    match p.mode
    case Sync => 0
    case Source => 4102
    case Type => 4101
    case Command => 4100
    case LengthLo => 4099
    case LengthHi => 4098
    case Payload => p.dataLen - p.received + 1
    case Check => 1
  }

  lemma BytesToSyncDecreases(p: State, b: byte)
    requires Valid(p) && !p.mode.Sync?
    ensures BytesToSync(Step(p, b).0) < BytesToSync(p)
  {
    hide Checksum.Crc;
  }

  /** From any state, that many bytes without SYNC always end in Sync; 4101 suffice, or 4102 with addressing. */
  lemma {:induction false} Resynchronises(p: State, s: seq<byte>)
    requires Valid(p) && SyncFree(s) && BytesToSync(p) <= |s|
    ensures After(p, s).mode.Sync?
    decreases |s|
  {
    if s != [] {
      if !p.mode.Sync? {
        BytesToSyncDecreases(p, s[0]);
      }
      Resynchronises(Step(p, s[0]).0, s[1..]);
    }
  }

  lemma BytesToSyncBound(p: State)
    requires Valid(p)
    ensures BytesToSync(p) <= if p.addressing then 4102 else 4101
  {
  }

  /** Whatever came before, enough SYNC-free bytes and then a valid frame: the frame comes out. */
  lemma RecoversTheNextFrame(p: State, quiet: seq<byte>, w: Wire)
    requires Valid(p) && SyncFree(quiet) && |quiet| >= if p.addressing then 4102 else 4101
    requires ValidWire(ToHost(p.addressing), w)
    ensures var bytes := Encode(ToHost(p.addressing), w);
      && After(p, quiet + bytes).mode.Sync?
      && Output(p, quiet + bytes) == Output(p, quiet) + [Meaning(w)]
  {
    hide Step, Output, After, Encode, ValidWire;
    BytesToSyncBound(p);
    Resynchronises(p, quiet);
    FrameRun(After(p, quiet), w, []);
    RunConcat(p, quiet, Encode(ToHost(p.addressing), w));
  }

  // ---- Error detection through the parser ----

  /** A DATA or NOTIFICATION frame whose payload-and-CRC region was replaced by `hit`. */
  function WithBody(d: Dialect, w: Wire, hit: seq<byte>): seq<byte> {
    Header(d, w) + [LowByte(|w.payload|), HighByte(|w.payload|)] + hit
  }

  /** A frame with a region that is no longer a code word is swallowed whole, and the parser is back in Sync. */
  lemma DamagedFrameIsDropped(p: State, w: Wire, hit: seq<byte>)
    requires Valid(p) && p.mode.Sync? && ValidWire(ToHost(p.addressing), w) && w.kind >= 2
    requires |hit| == |w.payload| + 1 && !Checksum.Valid(hit)
    ensures var bytes := WithBody(ToHost(p.addressing), w, hit);
      After(p, bytes).mode.Sync? && Output(p, bytes) == []
  {
    hide Step, Output, After, Checksum.Crc, LowByte, HighByte, Word, WithBody, Head;
    var bytes := WithBody(ToHost(p.addressing), w, hit);
    HeadOfDamaged(ToHost(p.addressing), w, hit);
    UnitRun(p, bytes);
    assert bytes[..|bytes|] == bytes;
  }

  lemma HeadOfDamaged(d: Dialect, w: Wire, hit: seq<byte>)
    requires ValidWire(d, w) && w.kind >= d.firstLong && |hit| == |w.payload| + 1 && !Checksum.Valid(hit)
    ensures WithBody(d, w, hit) != [] && Head(d, WithBody(d, w, hit)) == BadCrc(|WithBody(d, w, hit)|, w.command)
  {
    hide Checksum.Crc, LowByte, HighByte, Word, Head;
    var h := if d.addressing then 2 else 1;
    var bytes, len := WithBody(d, w, hit), |w.payload|;
    var body := [LowByte(len), HighByte(len)] + hit;
    WordOfBytes(len);
    assert bytes == Header(d, w) + body;
    assert bytes[h + 2..] == body;
    HeadOfLong(d, bytes, h, body);
    assert body[2..len + 2] == hit[..len];
  }

  /**
   A detectable pattern of bit flips - an odd number of them, a nonzero burst within eight consecutive bits, or two at
   a distance that 127 does not divide, such as any two in a payload of up to 14 bytes - in the payload-and-CRC region
   of a DATA or NOTIFICATION frame: nothing comes out for it, and the next frame is still parsed.
   */
  lemma ErrorsAreDetected(p: State, w: Wire, error: seq<bool>, hit: seq<byte>, next: Wire)
    requires Valid(p) && p.mode.Sync? && ValidWire(ToHost(p.addressing), w) && w.kind >= 2
    requires ValidWire(ToHost(p.addressing), next)
    requires Checksum.Corrupts(w.payload + [Checksum.Crc(w.payload)], error, hit)
    requires Checksum.Detectable(error) || (|w.payload| <= 14 && exists i: nat, j: nat :: Checksum.TwoBits(error, i, j))
    ensures var d := ToHost(p.addressing);
      && After(p, WithBody(d, w, hit)).mode.Sync? && Output(p, WithBody(d, w, hit)) == []
      && Output(p, WithBody(d, w, hit) + Encode(d, next)) == [Meaning(next)]
  {
    hide Step, Output, After, Checksum.Crc, Encode, ValidWire, Checksum.Detectable, Checksum.TwoBits, Meaning;
    var word := w.payload + [Checksum.Crc(w.payload)];
    assert word[..|w.payload|] == w.payload;
    if !Checksum.Detectable(error) {
      var i: nat, j: nat :| Checksum.TwoBits(error, i, j);
      Checksum.ShortPairsAreDetectable(error, i, j);
    }
    Checksum.DetectableErrorsAreDetected(word, error, hit);
    DamagedFrameIsDropped(p, w, hit);
    var d := ToHost(p.addressing);
    var bytes := WithBody(d, w, hit);
    FrameRun(After(p, bytes), next, []);
    RunConcat(p, bytes, Encode(d, next));
  }
}
