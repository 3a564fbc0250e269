/**
 The two-level queue of outgoing messages: HIGH drains before LOW, each level is FIFO,
 and a message with a coalesce key replaces a queued one with the same key in place.
 */
module MessageQueue {
  import opened Bytes

  datatype Priority = High | Low

  /** The reply that completes a request; a NACK completes any. */
  datatype ExpectedReply = ExpectData | ExpectAck

  datatype Message = Message(
    frame: seq<byte>,
    priority: Priority,
    coalesceKey: Option<string>,
    responseTimeout: Option<nat>,
    expects: ExpectedReply)

  datatype Queue = Queue(high: seq<Message>, low: seq<Message>)

  const EMPTY := Queue([], [])

  function Level(q: Queue, p: Priority): seq<Message> {
    if p.High? then q.high else q.low
  }

  function WithLevel(q: Queue, p: Priority, level: seq<Message>): Queue {
    if p.High? then q.(high := level) else q.(low := level)
  }

  /** The first position with the given key, or the length of the level. */
  function Position(level: seq<Message>, key: Option<string>): (i: nat)
    ensures i <= |level|
    ensures i < |level| ==> level[i].coalesceKey == key
    ensures forall j | 0 <= j < i :: level[j].coalesceKey != key
  {
    if level == [] || level[0].coalesceKey == key then 0 else 1 + Position(level[1..], key)
  }

  /** The message that a push puts out of the queue, if it coalesces. */
  function Replaced(q: Queue, m: Message): Option<Message> {
    var level := Level(q, m.priority);
    var i := Position(level, m.coalesceKey);
    if m.coalesceKey.Some? && i < |level| then Some(level[i]) else None
  }

  function PushLevel(level: seq<Message>, m: Message): seq<Message> {
    var i := Position(level, m.coalesceKey);
    if m.coalesceKey.Some? && i < |level| then level[i := m] else level + [m]
  }

  function Push(q: Queue, m: Message): Queue {
    WithLevel(q, m.priority, PushLevel(Level(q, m.priority), m))
  }

  function Pop(q: Queue): (Queue, Option<Message>) {
    if q.high != [] then (q.(high := q.high[1..]), Some(q.high[0]))
    else if q.low != [] then (q.(low := q.low[1..]), Some(q.low[0]))
    else (q, None)
  }

  class PriorityQueue {
    var high: seq<Message>
    var low: seq<Message>

    function Abs(): Queue
      reads this
    {
      Queue(high, low)
    }

    constructor ()
      ensures Abs() == EMPTY
    {
      high, low := [], [];
    }

    method PushMessage(m: Message)
      modifies this
      ensures Abs() == Push(old(Abs()), m)
    {
      var level := if m.priority.High? then high else low;
      if m.coalesceKey.Some? {
        var i := 0;
        while i < |level| && level[i].coalesceKey != m.coalesceKey
          invariant i <= |level|
          invariant forall j | 0 <= j < i :: level[j].coalesceKey != m.coalesceKey
        {
          i := i + 1;
        }
        if i < |level| {
          if m.priority.High? {
            high := high[i := m];
          } else {
            low := low[i := m];
          }
          return;
        }
      }
      if m.priority.High? {
        high := high + [m];
      } else {
        low := low + [m];
      }
    }

    method PopMessage() returns (m: Option<Message>)
      modifies this
      ensures (Abs(), m) == Pop(old(Abs()))
    {
      if high != [] {
        m := Some(high[0]);
        high := high[1..];
      } else if low != [] {
        m := Some(low[0]);
        low := low[1..];
      } else {
        m := None;
      }
    }

    method Clear()
      modifies this
      ensures Abs() == EMPTY
    {
      high := [];
      low := [];
    }
  }

  // ---- What a push and a pop do to the contents ----

  function Contents(q: Queue): multiset<Message> {
    multiset(q.high) + multiset(q.low)
  }

  function Taken(o: Option<Message>): multiset<Message> {
    match o case None => multiset{} case Some(m) => multiset{m}
  }

  lemma ReplaceInMultiset(level: seq<Message>, i: nat, m: Message)
    requires i < |level|
    ensures multiset(level[i := m]) + multiset{level[i]} == multiset(level) + multiset{m}
  {
  }

  /** A push adds the message and takes out what it replaces; nothing else enters or leaves. */
  lemma PushConserves(q: Queue, m: Message)
    ensures Contents(Push(q, m)) + Taken(Replaced(q, m)) == Contents(q) + multiset{m}
  {
    var level := Level(q, m.priority);
    LevelConserves(level, m);
    var after := PushLevel(level, m);
    if m.priority.High? {
      assert Push(q, m) == q.(high := after);
    } else {
      assert Push(q, m) == q.(low := after);
    }
  }

  lemma LevelConserves(level: seq<Message>, m: Message)
    ensures var i := Position(level, m.coalesceKey);
      multiset(PushLevel(level, m)) + (if m.coalesceKey.Some? && i < |level| then multiset{level[i]} else multiset{})
      == multiset(level) + multiset{m}
  {
    hide Position;
    var i := Position(level, m.coalesceKey);
    if m.coalesceKey.Some? && i < |level| {
      ReplaceInMultiset(level, i, m);
    }
  }

  /** What a push replaces has the same key and priority level, and gives up its place in line to the new message. */
  lemma PushKeepsPlaces(q: Queue, m: Message)
    ensures var before, after := Level(q, m.priority), Level(Push(q, m), m.priority);
      match Replaced(q, m)
      case None => after == before + [m]
      case Some(earlier) => exists i | 0 <= i < |before| ::
        before[i] == earlier && earlier.coalesceKey == m.coalesceKey && m.coalesceKey.Some? && after == before[i := m]
    ensures var other := if m.priority.High? then Low else High; Level(Push(q, m), other) == Level(q, other)
  {
    var level := Level(q, m.priority);
    var i := Position(level, m.coalesceKey);
    if m.coalesceKey.Some? && i < |level| {
      assert level[i].coalesceKey == m.coalesceKey;
    }
  }

  lemma PopConserves(q: Queue)
    ensures Contents(Pop(q).0) + Taken(Pop(q).1) == Contents(q)
  {
    if q.high != [] {
      assert q.high == [q.high[0]] + q.high[1..];
    } else if q.low != [] {
      assert q.low == [q.low[0]] + q.low[1..];
    }
  }

  // ---- Coalescing ----

  predicate UniqueLevel(level: seq<Message>) {
    forall i, j | 0 <= i < j < |level| && level[i].coalesceKey.Some? :: level[i].coalesceKey != level[j].coalesceKey
  }

  /** Each coalesce key occurs at most once per level. */
  predicate UniqueKeys(q: Queue) {
    UniqueLevel(q.high) && UniqueLevel(q.low)
  }

  lemma PushKeepsUniqueKeys(q: Queue, m: Message)
    requires UniqueKeys(q)
    ensures UniqueKeys(Push(q, m))
  {
  }

  lemma PopKeepsUniqueKeys(q: Queue)
    requires UniqueKeys(q)
    ensures UniqueKeys(Pop(q).0)
  {
  }
}
