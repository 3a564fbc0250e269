/**
 Ring buffers of received payloads, one per registered command. The abstract value of
 a buffer is its capacity and the log of everything pushed since it was created or
 cleared; what it holds is the end of that log.
 */
module Storage {
  import opened Arithmetic
  import opened Bytes

  type Bytestring = seq<byte>

  datatype RingLog = RingLog(capacity: nat, log: seq<Bytestring>)

  function Min(a: nat, b: nat): nat {
    if a < b then a else b
  }

  /** What a ring buffer holds: the last min(capacity, n) of the n payloads pushed. */
  function Held(r: RingLog): seq<Bytestring> {
    r.log[|r.log| - Min(r.capacity, |r.log|)..]
  }

  /** What `read_since(since)` returns. */
  function Since(r: RingLog, since: nat): seq<Bytestring> {
    var seq_, len := |r.log|, Min(r.capacity, |r.log|);
    if since >= seq_ then [] else r.log[seq_ - Min(seq_ - since, len)..]
  }

  class RingBuffer {
    const buf: array<Bytestring>
    var head: nat
    var len: nat
    const capacity: nat
    var seq_: nat
    ghost var log: seq<Bytestring>

    ghost predicate Valid()
      reads this, buf
    {
      && 0 < capacity == buf.Length
      && seq_ == |log| && len == Min(capacity, |log|) && head == |log| % capacity
      && forall i | |log| - len <= i < |log| :: buf[i % capacity] == log[i]
    }

    ghost function Abs(): RingLog
      reads this
    {
      RingLog(capacity, log)
    }

    /** The source panics on capacity 0. */
    constructor (capacity: nat)
      requires capacity > 0
      ensures Valid() && fresh(buf) && Abs() == RingLog(capacity, [])
    {
      this.buf := new Bytestring[capacity](_ => []);
      this.capacity := capacity;
      this.head, this.len, this.seq_ := 0, 0, 0;
      this.log := [];
    }

    method Push(payload: Bytestring)
      requires Valid()
      modifies this, buf
      ensures Valid() && Abs() == old(Abs()).(log := old(log) + [payload])
    {
      ghost var n := |log|;
      SuccessorMod(n, capacity);
      forall i | n + 1 - capacity <= i < n && 0 <= i
        ensures i % capacity != n % capacity
      {
        StepsBack(n, capacity, n - i);
      }
      buf[head] := payload;
      head := (head + 1) % capacity;
      if len < capacity {
        len := len + 1;
      }
      seq_ := seq_ + 1;
      log := log + [payload];
    }

    method Latest() returns (latest: Option<Bytestring>)
      requires Valid()
      ensures latest == if log == [] then None else Some(log[|log| - 1])
    {
      if len == 0 {
        return None;
      }
      StepsBack(|log|, capacity, 1);
      var idx := if head == 0 then capacity - 1 else head - 1;
      latest := Some(buf[idx]);
    }

    method ReadAll() returns (result: seq<Bytestring>)
      requires Valid()
      ensures result == Held(Abs())
    {
      hide Valid;
      Counters();
      if len == 0 {
        return [];
      }
      result := [];
      var start := if len < capacity then 0 else head;
      ghost var first := |log| - len;
      for i := 0 to len
        invariant result == log[first..first + i]
      {
        var idx := (start + i) % capacity;
        if len < capacity {
          DivideUnique(i, capacity, 0, i);
        } else {
          WrapsAround(|log|, capacity, i);
        }
        Slot(first + i);
        result := result + [buf[idx]];
      }
      assert log[first..first + len] == log[first..];
    }

    /** Where the i-th payload of the log is, while it is held. */
    lemma Slot(i: nat)
      requires Valid() && |log| - len <= i < |log|
      ensures i % capacity < buf.Length && buf[i % capacity] == log[i]
    {
    }

    lemma Counters()
      requires Valid()
      ensures 0 < capacity && seq_ == |log| && len <= |log| && len == Min(capacity, |log|) && head == |log| % capacity
    {
    }

    method ReadSince(since: nat) returns (result: seq<Bytestring>, current: nat)
      requires Valid()
      ensures result == Since(Abs(), since) && current == |log|
    {
      hide Valid;
      Counters();
      if len == 0 || since >= seq_ {
        return [], seq_;
      }
      var newCount := seq_ - since;
      var count := if newCount < len then newCount else len;
      result := [];
      ghost var first := |log| - count;
      for i := 0 to count
        invariant result == log[first..first + i]
      {
        var idx := if head >= count - i then head - (count - i) else capacity - (count - i - head);
        StepsBack(|log|, capacity, count - i);
        Slot(first + i);
        result := result + [buf[idx]];
      }
      assert log[first..first + count] == log[first..];
      current := seq_;
    }

    method Clear()
      requires Valid()
      modifies this, buf
      ensures Valid() && Abs() == RingLog(capacity, [])
    {
      head := 0;
      len := 0;
      seq_ := 0;
      log := [];
      for i := 0 to buf.Length
        invariant Valid() && log == []
      {
        buf[i] := [];
      }
    }
  }

  // ---- One buffer per registered command ----

  type Store = map<byte, RingLog>

  function Registered(st: Store, command: byte, capacity: nat): Store {
    st[command := RingLog(capacity, [])]
  }

  /** A payload for a command without storage is dropped. */
  function Stored(st: Store, command: byte, payload: Bytestring): Store {
    if command in st then st[command := st[command].(log := st[command].log + [payload])] else st
  }

  function Cleared(st: Store): Store {
    map command | command in st :: RingLog(st[command].capacity, [])
  }

  class DataStore {
    var buffers: map<byte, RingBuffer>
    ghost var Repr: set<object>

    ghost predicate Valid()
      reads this, Repr
    {
      && this in Repr
      && (forall c | c in buffers :: buffers[c] in Repr && buffers[c].buf in Repr && buffers[c] != this as object)
      && (forall c | c in buffers :: buffers[c].Valid())
      && (forall c, d | c in buffers && d in buffers && c != d ::
            buffers[c] != buffers[d] && buffers[c].buf != buffers[d].buf)
    }

    ghost function Abs(): Store
      reads this, Repr
      requires Valid()
    {
      map c | c in buffers :: buffers[c].Abs()
    }

    constructor ()
      ensures Valid() && fresh(Repr) && Abs() == map[]
    {
      buffers := map[];
      Repr := {this};
    }

    lemma Registrations()
      requires Valid()
      ensures buffers.Keys == Abs().Keys
    {
    }

    /** An existing buffer for the command is replaced, its data lost. */
    method Register(command: byte, capacity: nat)
      requires Valid() && capacity > 0
      modifies this
      ensures Valid() && fresh(Repr - old(Repr)) && Abs() == Registered(old(Abs()), command, capacity)
    {
      hide RingBuffer.Valid;
      var ring := new RingBuffer(capacity);
      buffers := buffers[command := ring];
      Repr := Repr + {ring, ring.buf};
    }

    method StorePayload(command: byte, payload: Bytestring)
      requires Valid()
      modifies Repr
      ensures Valid() && Repr == old(Repr) && Abs() == Stored(old(Abs()), command, payload)
    {
      hide RingBuffer.Valid;
      if command in buffers {
        buffers[command].Push(payload);
      }
    }

    method ReadAll(command: byte) returns (entries: seq<Bytestring>)
      requires Valid()
      ensures entries == if command in Abs() then Held(Abs()[command]) else []
    {
      if command in buffers {
        entries := buffers[command].ReadAll();
      } else {
        entries := [];
      }
    }

    method ReadSince(command: byte, since: nat) returns (entries: seq<Bytestring>, current: nat)
      requires Valid()
      ensures entries == if command in Abs() then Since(Abs()[command], since) else []
      ensures current == if command in Abs() then |Abs()[command].log| else 0
    {
      if command in buffers {
        entries, current := buffers[command].ReadSince(since);
      } else {
        entries, current := [], 0;
      }
    }

    method ClearAll()
      requires Valid()
      modifies Repr
      ensures Valid() && Repr == old(Repr) && Abs() == Cleared(old(Abs()))
    {
      hide RingBuffer.Valid;
      var todo := buffers.Keys;
      while todo != {}
        invariant Valid() && Repr == old(Repr) && buffers == old(buffers) && todo <= buffers.Keys
        invariant forall c | c in buffers :: buffers[c].capacity == old(buffers[c].capacity)
        invariant forall c | c in buffers :: buffers[c].log == if c in todo then old(buffers[c].log) else []
        decreases todo
      {
        var c :| c in todo;
        buffers[c].Clear();
        todo := todo - {c};
      }
    }
  }

  // ---- Incremental reading ----

  /** `read_since(s)` is the log from max(s, seq - len) on. */
  lemma SinceIsSuffix(r: RingLog, since: nat)
    ensures var oldest := |r.log| - Min(r.capacity, |r.log|);
            var from := if since >= oldest then since else oldest;
      Since(r, since) == if from <= |r.log| then r.log[from..] else []
    ensures Since(r, 0) == Held(r)
  {
  }

  /** Pushes that happen between two reads. */
  function AppendAll(r: RingLog, payloads: seq<Bytestring>): RingLog {
    r.(log := r.log + payloads)
  }

  /**
   What a reader has collected that starts at sequence number 0, feeds back the number each read returned, and reads
   after each batch of pushes.
   */
  function Collected(r: RingLog, since: nat, batches: seq<seq<Bytestring>>): seq<Bytestring>
    decreases |batches|
  {
    if batches == [] then []
    else
      var next := AppendAll(r, batches[0]);
      Since(next, since) + Collected(next, |next.log|, batches[1..])
  }

  function Concat(batches: seq<seq<Bytestring>>): seq<Bytestring> {
    if batches == [] then [] else batches[0] + Concat(batches[1..])
  }

  /** With at most `capacity` pushes between reads, the reader collects the whole log: nothing lost, nothing twice. */
  lemma {:induction false} ReaderLosesNothing(r: RingLog, batches: seq<seq<Bytestring>>)
    requires forall i | 0 <= i < |batches| :: |batches[i]| <= r.capacity
    ensures Collected(r, |r.log|, batches) == Concat(batches)
    decreases |batches|
  {
    if batches != [] {
      var next := AppendAll(r, batches[0]);
      assert Since(next, |r.log|) == batches[0];
      ReaderLosesNothing(next, batches[1..]);
    }
  }

  /** One push more than the capacity between two reads loses exactly the oldest entries. */
  lemma ReaderLosesOverflow(r: RingLog, batch: seq<Bytestring>)
    ensures Since(AppendAll(r, batch), |r.log|) == batch <==> |batch| <= r.capacity
    ensures |batch| > r.capacity ==> Since(AppendAll(r, batch), |r.log|) == batch[|batch| - r.capacity..]
  {
    var next := AppendAll(r, batch);
    if |batch| > r.capacity {
      assert Since(next, |r.log|) == next.log[|next.log| - r.capacity..];
    } else {
      assert Since(next, |r.log|) == batch;
    }
  }
}
