/**
 The frame layer as a language of bytes: what a frame looks like on the wire in each
 direction, and how a stream of bytes divides into frames when it is read from left
 to right. Both receivers, the host's FrameParser and the device's feedByte, are
 proved to follow this division (HostParser.dfy, DeviceRuntime.dfy).
 */
module Framing {
  import opened Arithmetic
  import opened Bytes
  import opened Checksum

  const SYNC: byte := 0x55
  const MAX_PAYLOAD_SIZE: nat := 4096

  /** A frame on the wire. `source` is 0 and absent from the bytes unless addressing is on. */
  datatype Wire = Wire(source: byte, kind: byte, command: byte, payload: seq<byte>)

  /**
   A direction of the link: whether a source address follows SYNC, the largest TYPE byte,
   the first TYPE byte whose frames carry LENGTH, DATA and CRC, and the receiver's payload limit.
   */
  datatype Dialect = Dialect(addressing: bool, maxKind: byte, firstLong: byte, maxPayload: nat)

  /** Device to host: NACK, ACK, DATA, NOTIFICATION. */
  function ToHost(addressing: bool): Dialect {
    Dialect(addressing, 3, 2, MAX_PAYLOAD_SIZE)
  }

  /** Host to device: READ, WRITE. */
  function ToDevice(addressing: bool, maxPayload: nat): Dialect {
    Dialect(addressing, 1, 1, maxPayload)
  }

  /** `[SYNC] [TYPE] [COMMAND]`, or `[SYNC] [SRC] [TYPE] [COMMAND]` with addressing. */
  function Header(d: Dialect, w: Wire): seq<byte> {
    if d.addressing then [SYNC, w.source, w.kind, w.command] else [SYNC, w.kind, w.command]
  }

  /** `[LEN_LO] [LEN_HI] [DATA...] [CRC8]`. */
  function Body(payload: seq<byte>): seq<byte> {
    [LowByte(|payload|), HighByte(|payload|)] + payload + [Crc(payload)]
  }

  function Encode(d: Dialect, w: Wire): seq<byte> {
    Header(d, w) + if w.kind < d.firstLong then [] else Body(w.payload)
  }

  /** The frames that a receiver of dialect d accepts. */
  predicate ValidWire(d: Dialect, w: Wire) {
    && w.kind <= d.maxKind
    && (!d.addressing ==> w.source == 0)
    && (w.kind < d.firstLong ==> w.payload == [])
    && |w.payload| <= d.maxPayload
    && |w.payload| < 65536
  }

  /** What follows the header of a frame with data, byte by byte. */
  function LongTail(command: byte, payload: seq<byte>): seq<byte>
    requires |payload| < 65536
  {
    [command, (|payload| % 256) as byte, (|payload| / 256) as byte] + payload + [Crc(payload)]
  }

  /** The wire format, byte by byte: the two requests, and the four frames a device sends. */
  lemma FrameBytes(source: byte, command: byte, payload: seq<byte>, limit: nat)
    requires |payload| < 65536
    ensures Encode(ToDevice(false, limit), Wire(0, 0, command, [])) == [0x55, 0x00, command]
    ensures Encode(ToDevice(true, limit), Wire(source, 0, command, [])) == [0x55, source, 0x00, command]
    ensures Encode(ToDevice(false, limit), Wire(0, 1, command, payload)) == [0x55, 0x01] + LongTail(command, payload)
    ensures Encode(ToDevice(true, limit), Wire(source, 1, command, payload)) ==
            [0x55, source, 0x01] + LongTail(command, payload)
    ensures Encode(ToHost(false), Wire(0, 0, command, [])) == [0x55, 0x00, command]
    ensures Encode(ToHost(false), Wire(0, 1, command, [])) == [0x55, 0x01, command]
    ensures Encode(ToHost(false), Wire(0, 2, command, payload)) == [0x55, 0x02] + LongTail(command, payload)
    ensures Encode(ToHost(false), Wire(0, 3, command, payload)) == [0x55, 0x03] + LongTail(command, payload)
    ensures Encode(ToHost(true), Wire(source, 2, command, payload)) == [0x55, source, 0x02] + LongTail(command, payload)
  {
    hide Crc;
    BodyBytes(command, payload);
    hide Body, LongTail;
  }

  lemma BodyBytes(command: byte, payload: seq<byte>)
    requires |payload| < 65536
    ensures LongTail(command, payload) == [command] + Body(payload)
  {
    hide Crc;
  }

  // ---- The host's frame builders ----

  /** `build_read_frame` and `build_read_frame_from`. */
  method BuildReadFrame(addressing: bool, source: byte, command: byte) returns (frame: seq<byte>)
    ensures frame == Encode(ToDevice(addressing, 0), Wire(source, 0, command, []))
  {
    frame := if addressing then [SYNC, source, 0x00, command] else [SYNC, 0x00, command];
  }

  /** `build_write_frame` and `build_write_frame_from`; the length is cut to 16 bits. */
  method BuildWriteFrame(addressing: bool, source: byte, command: byte, data: seq<byte>) returns (frame: seq<byte>)
    ensures frame == Encode(ToDevice(addressing, 0), Wire(source, 1, command, data))
  {
    hide Crc, LowByte, HighByte;
    var len := |data| % 65536;
    var crc := Crc8(data);
    frame := [SYNC];
    if addressing {
      frame := frame + [source];
    }
    frame := frame + [0x01];
    frame := frame + [command];
    LengthBytes(|data|, len);
    frame := frame + [LowByte(len)];
    frame := frame + [HighByte(len)];
    frame := frame + data;
    frame := frame + [crc];
  }

  /** Cutting a length to 16 bits does not change its two bytes. */
  lemma LengthBytes(n: nat, len: nat)
    requires len == n % 65536
    ensures LowByte(len) == LowByte(n) && HighByte(len) == HighByte(n)
  {
    var q, h := n / 65536, len / 256;
    DivideUnique(n, 256, 256 * q + h, len % 256);
    DivideUnique(256 * q + h, 256, q, h);
  }

  // ---- Reading a stream from left to right ----

  /** What the first bytes of a stream are, read from outside any frame. */
  datatype Verdict =
    | Incomplete
    | Junk(n: nat)
    | BadCrc(n: nat, command: byte)
    | Good(n: nat, w: Wire)

  function Head(d: Dialect, s: seq<byte>): (v: Verdict)
    requires s != []
    ensures !v.Incomplete? ==> 0 < v.n <= |s|
    ensures v.Good? || v.BadCrc? ==> 3 <= v.n
  {
    var h := if d.addressing then 2 else 1;
    if s[0] != SYNC then Junk(1)
    else if |s| <= h then Incomplete
    else if s[h] > d.maxKind then Junk(h + 1)
    else if |s| <= h + 1 then Incomplete
    else
      var source := if d.addressing then s[1] else 0;
      if s[h] < d.firstLong then Good(h + 2, Wire(source, s[h], s[h + 1], []))
      else if |s| <= h + 3 then Incomplete
      else
        var len := Word(s[h + 2], s[h + 3]);
        if len > d.maxPayload then Junk(h + 4)
        else if |s| <= h + 4 + len then Incomplete
        else
          var payload := s[h + 4..h + 4 + len];
          if s[h + 4 + len] == Crc(payload) then Good(h + 5 + len, Wire(source, s[h], s[h + 1], payload))
          else BadCrc(h + 5 + len, s[h + 1])
  }

  /** Head on a long frame, with everything after COMMAND taken as one piece. */
  lemma HeadOfLong(d: Dialect, s: seq<byte>, h: nat, body: seq<byte>)
    requires h == (if d.addressing then 2 else 1) && |s| >= h + 2 && s[0] == SYNC
    requires d.firstLong <= s[h] <= d.maxKind && body == s[h + 2..]
    ensures Head(d, s) ==
      if |body| < 2 then Incomplete
      else
        var len := Word(body[0], body[1]);
        if len > d.maxPayload then Junk(h + 4)
        else if |body| < len + 3 then Incomplete
        else
          var payload := body[2..len + 2];
          if body[len + 2] == Crc(payload)
          then Good(h + 5 + len, Wire(if d.addressing then s[1] else 0, s[h], s[h + 1], payload))
          else BadCrc(h + 5 + len, s[h + 1])
  {
    hide Crc, Word;
    if |body| >= 2 {
      var len := Word(body[0], body[1]);
      if |body| >= len + 3 {
        SliceOfSuffix(s, h + 2, 2, len);
        assert body[len + 2] == s[h + 4 + len];
      }
    }
  }

  /** A unit found in a stream: where it starts, how long it is, and what it is. */
  datatype Item =
    | Whole(at: nat, n: nat, w: Wire)
    | Damaged(at: nat, n: nat, command: byte)

  /** The division of a stream s that begins at position `at`. */
  function Scan(d: Dialect, s: seq<byte>, at: nat := 0): (items: seq<Item>)
    decreases |s|
  {
    if s == [] then []
    else
      match Head(d, s)
      case Incomplete => []
      case Junk(n) => Scan(d, s[n..], at + n)
      case BadCrc(n, command) => [Damaged(at, n, command)] + Scan(d, s[n..], at + n)
      case Good(n, w) => [Whole(at, n, w)] + Scan(d, s[n..], at + n)
  }

  // ---- The two directions of the correspondence between streams and frames ----

  lemma BodyInStream(s: seq<byte>, at: nat, n: nat)
    requires at + 3 <= n <= |s| && Word(s[at], s[at + 1]) == n - at - 3
    requires s[n - 1] == Crc(s[at + 2..n - 1])
    ensures s[at..n] == Body(s[at + 2..n - 1])
  {
    hide Crc, LowByte, HighByte, Word;
    BytesOfWord(s[at], s[at + 1]);
    var payload := s[at + 2..n - 1];
    assert s[at..n] == [s[at], s[at + 1]] + payload + [s[n - 1]];
  }

  /** A frame accepted at the head of a stream is, byte for byte, the encoding of what it is taken for. */
  lemma GoodIsEncoding(d: Dialect, s: seq<byte>)
    requires s != [] && Head(d, s).Good?
    ensures s[..Head(d, s).n] == Encode(d, Head(d, s).w)
    ensures ValidWire(d, Head(d, s).w)
  {
    hide Crc, Word, Body;
    var h := if d.addressing then 2 else 1;
    var w, n := Head(d, s).w, Head(d, s).n;
    assert s[..h + 2] == Header(d, w);
    if s[h] >= d.firstLong {
      BodyInStream(s, h + 2, n);
      assert s[..n] == s[..h + 2] + s[h + 2..n];
    }
  }

  /** A valid frame at the head of a stream is taken for itself, whatever follows. */
  lemma EncodingIsGood(d: Dialect, w: Wire, rest: seq<byte>)
    requires ValidWire(d, w)
    ensures Head(d, Encode(d, w) + rest) == Good(|Encode(d, w)|, w)
  {
    hide Crc, LowByte, HighByte, Word;
    var h := if d.addressing then 2 else 1;
    var s := Encode(d, w) + rest;
    assert s[0] == SYNC && s[h] == w.kind && s[h + 1] == w.command;
    if w.kind >= d.firstLong {
      var len := |w.payload|;
      WordOfBytes(len);
      assert s[h + 2] == LowByte(len) && s[h + 3] == HighByte(len);
      var front, back := Header(d, w) + [LowByte(len), HighByte(len)], [Crc(w.payload)] + rest;
      assert s == front + w.payload + back;
      Middle(front, w.payload, back);
      assert s[h + 4 + len] == Crc(w.payload);
    }
  }

  lemma Middle(a: seq<byte>, b: seq<byte>, c: seq<byte>)
    ensures (a + b + c)[|a|..|a| + |b|] == b
  {
  }

  /** A proper part of a valid frame is not yet anything. */
  lemma PrefixIsIncomplete(d: Dialect, w: Wire, i: nat)
    requires ValidWire(d, w) && 0 < i < |Encode(d, w)|
    ensures Head(d, Encode(d, w)[..i]) == Incomplete
  {
    hide Crc, LowByte, HighByte, Word;
    var h := if d.addressing then 2 else 1;
    var bytes := Encode(d, w);
    if w.kind >= d.firstLong && i > h + 3 {
      WordOfBytes(|w.payload|);
      assert bytes[..i][h + 2] == LowByte(|w.payload|) && bytes[..i][h + 3] == HighByte(|w.payload|);
    }
  }

  predicate SyncFree(s: seq<byte>) {
    forall i | 0 <= i < |s| :: s[i] != SYNC
  }

  /** An item of a stream that begins at position `at` lies inside it and, when accepted, is an exact encoding. */
  ghost predicate Sound(d: Dialect, s: seq<byte>, at: nat, item: Item) {
    && at <= item.at && 3 <= item.n && item.at + item.n <= at + |s|
    && (item.Whole? ==>
          && ValidWire(d, item.w)
          && s[item.at - at..item.at - at + item.n] == Encode(d, item.w))
  }

  lemma SoundLater(d: Dialect, s: seq<byte>, at: nat, n: nat, item: Item)
    requires n <= |s| && Sound(d, s[n..], at + n, item)
    ensures Sound(d, s, at, item) && at + n <= item.at
  {
    hide Encode, ValidWire;
    if item.Whole? {
      SliceOfSuffix(s, n, item.at - at - n, item.n);
    }
  }

  lemma SliceOfSuffix(s: seq<byte>, n: nat, i: nat, len: nat)
    requires n + i + len <= |s|
    ensures s[n..][i..i + len] == s[n + i..n + i + len]
  {
  }

  /** Every accepted unit is an exact encoding of its own segment of the stream. */
  lemma {:induction false} ScanIsSound(d: Dialect, s: seq<byte>, at: nat)
    ensures forall item | item in Scan(d, s, at) :: Sound(d, s, at, item)
    decreases |s|
  {
    hide Encode, ValidWire, Head;
    if s != [] && !Head(d, s).Incomplete? {
      var n := Head(d, s).n;
      ScanIsSound(d, s[n..], at + n);
      if Head(d, s).Good? {
        GoodIsEncoding(d, s);
      }
      forall item | item in Scan(d, s[n..], at + n)
        ensures Sound(d, s, at, item)
      {
        SoundLater(d, s, at, n, item);
      }
    }
  }

  /** The segments are disjoint and in stream order. */
  lemma {:induction false} ScanIsOrdered(d: Dialect, s: seq<byte>, at: nat)
    ensures Ordered(Scan(d, s, at))
    decreases |s|
  {
    hide Encode, ValidWire, Head;
    if s != [] && !Head(d, s).Incomplete? {
      var n := Head(d, s).n;
      var tail := Scan(d, s[n..], at + n);
      ScanIsOrdered(d, s[n..], at + n);
      ScanIsSound(d, s[n..], at + n);
      match Head(d, s) {
        case Junk(_) =>
        case BadCrc(_, command) => OrderedCons(Damaged(at, n, command), tail);
        case Good(_, w) => OrderedCons(Whole(at, n, w), tail);
      }
    }
  }

  ghost predicate Ordered(items: seq<Item>) {
    forall i, j | 0 <= i < j < |items| :: items[i].at + items[i].n <= items[j].at
  }

  lemma OrderedCons(item: Item, tail: seq<Item>)
    requires Ordered(tail)
    requires forall later | later in tail :: item.at + item.n <= later.at
    ensures Ordered([item] + tail)
  {
  }

  /** A stream of s bytes holds at most |s| / 3 units. */
  lemma {:induction false} ScanIsShort(d: Dialect, s: seq<byte>, at: nat)
    ensures 3 * |Scan(d, s, at)| <= |s|
    decreases |s|
  {
    hide Head;
    if s != [] && !Head(d, s).Incomplete? {
      ScanIsShort(d, s[Head(d, s).n..], at + Head(d, s).n);
    }
  }

  lemma {:induction false} ScanSkipsGarbage(d: Dialect, garbage: seq<byte>, s: seq<byte>, at: nat)
    requires SyncFree(garbage)
    ensures Scan(d, garbage + s, at) == Scan(d, s, at + |garbage|)
    decreases |garbage|
  {
    hide Word, Crc;
    if garbage == [] {
      assert garbage + s == s;
    } else {
      var all := garbage + s;
      assert Head(d, all) == Junk(1);
      assert all[1..] == garbage[1..] + s;
      ScanSkipsGarbage(d, garbage[1..], s, at + 1);
    }
  }

  /** Frames, each preceded by some garbage. */
  function Stream(d: Dialect, parts: seq<(seq<byte>, Wire)>): seq<byte> {
    if parts == [] then [] else parts[0].0 + Encode(d, parts[0].1) + Stream(d, parts[1..])
  }

  function EncodeAll(d: Dialect, ws: seq<Wire>): seq<byte> {
    if ws == [] then [] else Encode(d, ws[0]) + EncodeAll(d, ws[1..])
  }

  lemma {:induction false} EncodeAllConcat(d: Dialect, a: seq<Wire>, b: seq<Wire>)
    ensures EncodeAll(d, a + b) == EncodeAll(d, a) + EncodeAll(d, b)
    decreases |a|
  {
    hide Encode;
    if a == [] {
      assert a + b == b;
    } else {
      assert (a + b)[1..] == a[1..] + b;
      EncodeAllConcat(d, a[1..], b);
    }
  }

  /** How many of the frames are complete in the first n bytes of their encodings. */
  function CompleteCount(d: Dialect, ws: seq<Wire>, n: nat): (k: nat)
    ensures k <= |ws|
  {
    if ws == [] || n < |Encode(d, ws[0])| then 0 else 1 + CompleteCount(d, ws[1..], n - |Encode(d, ws[0])|)
  }

  lemma FirstOfAll(d: Dialect, ws: seq<Wire>, n: nat)
    requires ws != []
    ensures EncodeAll(d, ws) == Encode(d, ws[0]) + EncodeAll(d, ws[1..])
    ensures CompleteCount(d, ws, n) ==
      if n < |Encode(d, ws[0])| then 0 else 1 + CompleteCount(d, ws[1..], n - |Encode(d, ws[0])|)
  {
    hide Encode;
  }

  lemma {:induction false} CompleteCountBounds(d: Dialect, ws: seq<Wire>, n: nat, m: nat)
    requires n <= m <= |EncodeAll(d, ws)|
    ensures |EncodeAll(d, ws[..CompleteCount(d, ws, n)])| <= n
    ensures CompleteCount(d, ws, n) <= CompleteCount(d, ws, m)
    ensures n == |EncodeAll(d, ws)| ==> CompleteCount(d, ws, n) == |ws|
    decreases |ws|
  {
    hide Encode;
    if ws != [] && n >= |Encode(d, ws[0])| {
      var k := |Encode(d, ws[0])|;
      CompleteCountBounds(d, ws[1..], n - k, m - k);
      var j := CompleteCount(d, ws[1..], n - k);
      assert ws[..j + 1][1..] == ws[1..][..j];
    } else if ws != [] && n == |EncodeAll(d, ws)| {
      assert |EncodeAll(d, ws)| >= |Encode(d, ws[0])|;
    }
  }

  /** Frames appended later do not change what is complete in the bytes before them. */
  lemma {:induction false} CompleteCountAppend(d: Dialect, ws: seq<Wire>, w: Wire, n: nat)
    requires n <= |EncodeAll(d, ws)|
    ensures CompleteCount(d, ws + [w], n) == CompleteCount(d, ws, n)
    decreases |ws|
  {
    if ws != [] {
      assert (ws + [w])[1..] == ws[1..] + [w];
      if n >= |Encode(d, ws[0])| {
        CompleteCountAppend(d, ws[1..], w, n - |Encode(d, ws[0])|);
      }
    } else {
      assert ws + [w] == [w];
      assert 3 <= |Encode(d, w)|;
    }
  }

  function Wires(items: seq<Item>): seq<Wire> {
    if items == [] then []
    else (if items[0].Whole? then [items[0].w] else []) + Wires(items[1..])
  }

  function Frames(parts: seq<(seq<byte>, Wire)>): (ws: seq<Wire>)
    ensures |ws| == |parts|
  {
    seq(|parts|, i requires 0 <= i < |parts| => parts[i].1)
  }

  /** Valid frames, each preceded by SYNC-free garbage and followed by a SYNC-free tail, are read back exactly. */
  lemma {:induction false} ScanIsComplete(d: Dialect, parts: seq<(seq<byte>, Wire)>, tail: seq<byte>, at: nat)
    requires forall i | 0 <= i < |parts| :: SyncFree(parts[i].0) && ValidWire(d, parts[i].1)
    requires SyncFree(tail)
    ensures Wires(Scan(d, Stream(d, parts) + tail, at)) == Frames(parts)
    ensures forall i | 0 <= i < |Scan(d, Stream(d, parts) + tail, at)| :: Scan(d, Stream(d, parts) + tail, at)[i].Whole?
    decreases |parts|
  {
    hide Head, Encode, ValidWire;
    if parts == [] {
      assert Stream(d, parts) + tail == tail + [];
      ScanSkipsGarbage(d, tail, [], at);
    } else {
      var garbage, w := parts[0].0, parts[0].1;
      var rest := Stream(d, parts[1..]) + tail;
      var s := Encode(d, w) + rest;
      assert Stream(d, parts) + tail == garbage + s;
      ScanSkipsGarbage(d, garbage, s, at);
      EncodingIsGood(d, w, rest);
      var n := |Encode(d, w)|;
      assert s[n..] == rest;
      ScanIsComplete(d, parts[1..], tail, at + |garbage| + n);
      var items := Scan(d, rest, at + |garbage| + n);
      assert Scan(d, s, at + |garbage|) == [Whole(at + |garbage|, n, w)] + items;
      assert ([Whole(at + |garbage|, n, w)] + items)[1..] == items;
      assert Frames(parts) == [w] + Frames(parts[1..]);
    }
  }
}
