/**
 The periodic reads that a whole run of the client queues: each command has one entry, so
 the reads queued for it are the due instants of that entry, and the bounds on those
 instants (ClientTiming.dfy) are bounds on the run.
 */
module PeriodicRuns {
  import opened Bytes
  import opened MessageQueue
  import opened HostClient
  import opened ClientTiming

  predicate OneEntryEach(es: seq<Periodic>) {
    forall i, j | 0 <= i < j < |es| :: es[i].command != es[j].command
  }

  lemma {:induction false} WithoutCommandKeepsOrder(es: seq<Periodic>, command: byte)
    requires OneEntryEach(es)
    ensures OneEntryEach(WithoutCommand(es, command))
    decreases |es|
  {
    WithoutCommandIsExact(es, command);
    if es != [] {
      WithoutCommandIsExact(es[1..], command);
      WithoutCommandKeepsOrder(es[1..], command);
      assert forall e | e in es[1..] :: e.command != es[0].command;
    }
  }

  /** Every action keeps one entry for each command. */
  lemma ActKeepsOneEntry(c: Core, a: Action)
    requires OneEntryEach(c.periodic)
    ensures OneEntryEach(Next(c, a).periodic)
  {
    hide PushAll, DueReads, Push, Pop, WithoutCommand;
    match a {
      case AddPeriodic(command, _, _, _) =>
        WithoutCommandKeepsOrder(c.periodic, command);
        WithoutCommandIsExact(c.periodic, command);
        assert forall i | 0 <= i < |WithoutCommand(c.periodic, command)| ::
          WithoutCommand(c.periodic, command)[i].command != command;
      case RemovePeriodic(command) => WithoutCommandKeepsOrder(c.periodic, command);
      case Schedule(now) =>
        assert forall i | 0 <= i < |c.periodic| :: AdvanceAll(c.periodic, now)[i].command == c.periodic[i].command;
      case _ =>
    }
  }

  lemma {:induction false} RunKeepsOneEntry(c: Core, acts: seq<Action>)
    requires OneEntryEach(c.periodic)
    ensures OneEntryEach(NextAll(c, acts).periodic)
    decreases |acts|
  {
    hide Next, OneEntryEach;
    if acts != [] {
      ActKeepsOneEntry(c, acts[0]);
      RunKeepsOneEntry(Next(c, acts[0]), acts[1..]);
    }
  }

  // ---- The reads that a run queues ----

  /** How many of the messages are reads of the command. */
  function ReadCount(ms: seq<Message>, command: byte): nat {
    if ms == [] then 0 else (if ms[0].frame == ReadFrame(command) then 1 else 0) + ReadCount(ms[1..], command)
  }

  /** The instants at which a run's looks at the schedule queue a read of the command, one for each read. */
  function QueuedReads(c: Core, acts: seq<Action>, command: byte): seq<nat>
    decreases |acts|
  {
    if acts == [] then []
    else
      (if acts[0].Schedule? then seq(ReadCount(DueReads(c.periodic, acts[0].now), command), _ => acts[0].now) else [])
      + QueuedReads(Next(c, acts[0]), acts[1..], command)
  }

  lemma FramesDiffer(x: byte, y: byte)
    ensures ReadFrame(x) == ReadFrame(y) <==> x == y
  {
    assert ReadFrame(x)[2] == x && ReadFrame(y)[2] == y;
  }

  lemma {:induction false} ReadCountConcat(a: seq<Message>, b: seq<Message>, command: byte)
    ensures ReadCount(a + b, command) == ReadCount(a, command) + ReadCount(b, command)
    decreases |a|
  {
    if a == [] {
      assert a + b == b;
    } else {
      assert (a + b)[1..] == a[1..] + b;
      ReadCountConcat(a[1..], b, command);
    }
  }

  lemma {:induction false} NoEntryNoReads(es: seq<Periodic>, now: nat, command: byte)
    requires forall e | e in es :: e.command != command
    ensures ReadCount(DueReads(es, now), command) == 0
    decreases |es|
  {
    hide Due, ReadFrame;
    if es != [] {
      var head := if Due(es[0], now) then [ReadMessageOf(es[0])] else [];
      FramesDiffer(es[0].command, command);
      ReadCountConcat(head, DueReads(es[1..], now), command);
      NoEntryNoReads(es[1..], now, command);
    }
  }

  /** A look at the schedule queues one read of a command when its entry is due, and none otherwise. */
  lemma {:induction false} OneReadWhenDue(es: seq<Periodic>, now: nat, e: Periodic)
    requires OneEntryEach(es) && e in es
    ensures ReadCount(DueReads(es, now), e.command) == if Due(e, now) then 1 else 0
    decreases |es|
  {
    hide Due, ReadFrame;
    var head := if Due(es[0], now) then [ReadMessageOf(es[0])] else [];
    FramesDiffer(es[0].command, e.command);
    ReadCountConcat(head, DueReads(es[1..], now), e.command);
    assert head != [] ==> head[1..] == [];
    if es[0].command == e.command {
      assert es[0] == e;
      NoEntryNoReads(es[1..], now, e.command);
    } else {
      OneReadWhenDue(es[1..], now, e);
    }
  }

  predicate KeepsRegistration(acts: seq<Action>, command: byte) {
    forall a | a in acts :: !((a.AddPeriodic? || a.RemovePeriodic?) && a.command == command)
  }

  /** Within one registration, the reads a run queues for a command are the due instants of its entry. */
  lemma {:induction false} QueuedReadsAreDue(c: Core, acts: seq<Action>, e: Periodic)
    requires OneEntryEach(c.periodic) && e in c.periodic && KeepsRegistration(acts, e.command)
    ensures QueuedReads(c, acts, e.command) == ReadTimes(e, ScheduleTimes(acts))
    decreases |acts|
  {
    hide Next, Advance, Due, OneEntryEach;
    if acts != [] {
      var a, rest := acts[0], acts[1..];
      EntryStep(c, a, e);
      ActKeepsOneEntry(c, a);
      if a.Schedule? {
        OneReadWhenDue(c.periodic, a.now, e);
        assert ScheduleTimes(acts) == [a.now] + ScheduleTimes(rest);
        assert ScheduleTimes(acts)[1..] == ScheduleTimes(rest);
        QueuedReadsAreDue(Next(c, a), rest, Advance(e, a.now));
      } else {
        assert ScheduleTimes(acts) == ScheduleTimes(rest);
        QueuedReadsAreDue(Next(c, a), rest, e);
      }
    }
  }

  /** Within one registration, the entry keeps what it was registered with. */
  lemma {:induction false} EntryKeepsSettings(c: Core, acts: seq<Action>, e: Periodic) returns (f: Periodic)
    requires OneEntryEach(c.periodic) && e in c.periodic && KeepsRegistration(acts, e.command)
    ensures OneEntryEach(NextAll(c, acts).periodic) && f in NextAll(c, acts).periodic && f == e.(nextDue := f.nextDue)
    decreases |acts|
  {
    hide Next, OneEntryEach, Due;
    if acts == [] {
      f := e;
    } else {
      var a := acts[0];
      EntryStep(c, a, e);
      ActKeepsOneEntry(c, a);
      f := EntryKeepsSettings(Next(c, a), acts[1..], if a.Schedule? then Advance(e, a.now) else e);
    }
  }

  lemma {:induction false} DueReadsAreOfEntries(es: seq<Periodic>, now: nat)
    ensures forall m | m in DueReads(es, now) :: exists e | e in es :: Due(e, now) && m == ReadMessageOf(e)
  {
    hide Due, ReadMessageOf;
    if es != [] {
      DueReadsAreOfEntries(es[1..], now);
    }
  }

  // ---- The two bounds, on whole runs ----

  /** The client after a run from the start that ends with a registration of the command. */
  function Registered(timeout: nat, before: seq<Action>, command: byte, interval: nat, capacity: nat,
                      patience: Option<nat>): Core {
    Next(NextAll(InitialCore(timeout), before), AddPeriodic(command, interval, capacity, patience))
  }

  lemma RegistrationIsFresh(timeout: nat, before: seq<Action>, command: byte, interval: nat, capacity: nat,
                            patience: Option<nat>)
    returns (e: Periodic)
    ensures e in Registered(timeout, before, command, interval, capacity, patience).periodic
    ensures OneEntryEach(Registered(timeout, before, command, interval, capacity, patience).periodic)
    ensures e == Periodic(command, interval, PeriodicKey(command), None, patience)
  {
    hide NextAll, OneEntryEach, PeriodicKey, WithoutCommand;
    assert OneEntryEach(InitialCore(timeout).periodic) by { NoEntries(); }
    RunKeepsOneEntry(InitialCore(timeout), before);
    ActKeepsOneEntry(NextAll(InitialCore(timeout), before), AddPeriodic(command, interval, capacity, patience));
    e := Periodic(command, interval, PeriodicKey(command), None, patience);
  }

  lemma NoEntries()
    ensures OneEntryEach([])
  {
  }

  /**
   In every run after a registration: if the first look at the schedule is at t0 and the others follow at
   most an interval apart, floor((now - t0) / I) + 1 reads of the command have been queued by the last one.
   */
  lemma RateHoldsInRuns(timeout: nat, before: seq<Action>, command: byte, interval: nat, capacity: nat,
                        patience: Option<nat>, acts: seq<Action>, t0: nat, times: seq<nat>)
    requires interval > 0 && KeepsRegistration(acts, command)
    requires ScheduleTimes(acts) == [t0] + times && GapsAtMost(times, t0, interval)
    ensures var now := if times == [] then t0 else times[|times| - 1];
      && now >= t0
      && |QueuedReads(Registered(timeout, before, command, interval, capacity, patience), acts, command)| ==
         (now - t0) / interval + 1
  {
    hide Registered, QueuedReads, ScheduleTimes, ReadTimes, OneEntryEach, KeepsRegistration;
    var e := RegistrationIsFresh(timeout, before, command, interval, capacity, patience);
    QueuedReadsAreDue(Registered(timeout, before, command, interval, capacity, patience), acts, e);
    RateHolds(e, t0, times);
  }

  /**
   In every run after a registration, whatever the gaps: the reads of the command queued within any window of length W
   number at most ceil(W / I) + 1.
   */
  lemma WindowHoldsInRuns(timeout: nat, before: seq<Action>, command: byte, interval: nat, capacity: nat,
                          patience: Option<nat>, acts: seq<Action>, i: nat, j: nat, W: nat)
    requires interval > 0 && KeepsRegistration(acts, command) && Monotone(ScheduleTimes(acts), 0)
    requires var c := Registered(timeout, before, command, interval, capacity, patience);
             var queued := QueuedReads(c, acts, command);
      i <= j < |queued| && queued[j] - queued[i] <= W
    ensures j - i + 1 <= CeilDiv(W, interval) + 1
  {
    hide Registered, QueuedReads, ScheduleTimes, ReadTimes, OneEntryEach, KeepsRegistration, Monotone;
    var e := RegistrationIsFresh(timeout, before, command, interval, capacity, patience);
    QueuedReadsAreDue(Registered(timeout, before, command, interval, capacity, patience), acts, e);
    WindowBound(e, ScheduleTimes(acts), 0, i, j, W);
  }

  /**
   In every run after a registration, the reads that a look at the schedule queues for the command are LOW, under the
   command's key, expect DATA, and wait as long as the registration says.
   */
  lemma RegisteredReads(timeout: nat, before: seq<Action>, command: byte, interval: nat, capacity: nat,
                        patience: Option<nat>, acts: seq<Action>, now: nat, m: Message)
    requires KeepsRegistration(acts, command)
    requires var c := NextAll(Registered(timeout, before, command, interval, capacity, patience), acts);
      m in DueReads(c.periodic, now) && m.frame == ReadFrame(command)
    ensures m == Message([0x55, 0x00, command], Low, Some(PeriodicKey(command)), patience, ExpectData)
  {
    hide Registered, NextAll, OneEntryEach, KeepsRegistration, PeriodicKey, Due, DueReads, ReadFrame;
    var start := Registered(timeout, before, command, interval, capacity, patience);
    var e := RegistrationIsFresh(timeout, before, command, interval, capacity, patience);
    var f := EntryKeepsSettings(start, acts, e);
    var es := NextAll(start, acts).periodic;
    DueReadsAreOfEntries(es, now);
    var g :| g in es && Due(g, now) && m == ReadMessageOf(g);
    FramesDiffer(g.command, command);
    OnlyEntry(es, f, g);
    ReadFrameBytes(command);
  }

  lemma OnlyEntry(es: seq<Periodic>, e: Periodic, f: Periodic)
    requires OneEntryEach(es) && e in es && f in es && e.command == f.command
    ensures e == f
  {
  }

  lemma ReadFrameBytes(command: byte)
    ensures ReadFrame(command) == [0x55, 0x00, command]
  {
  }
}
