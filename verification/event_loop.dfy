/** The event loop on top of the queue: scheduling, cancelling, polling, and the
    callbacks, which may themselves schedule and cancel. */
module EventLoop {
  import opened HeapOrder
  import opened EventQueue

  const LONG_MAX := 0x7fff_ffff_ffff_ffff
  const LONG_MIN := -0x8000_0000_0000_0000
  const INT_MAX := 0x7fff_ffff
  const NANOS := 1_000_000_000

  predicate IsLong(x: int) {
    LONG_MIN <= x <= LONG_MAX
  }

  /** What clock_gettime delivers. */
  predicate Normal(t: Timespec) {
    IsLong(t.sec) && 0 <= t.nsec < NANOS
  }

  function Nanos(t: Timespec): int {
    t.sec * NANOS + t.nsec
  }

  /** The order of the queue is the order in time. */
  lemma CompareIsOrderInTime(a: Timespec, b: Timespec)
    requires Normal(a) && Normal(b)
    ensures Compare(a, b) < 0 <==> Nanos(a) < Nanos(b)
    ensures Compare(a, b) > 0 <==> Nanos(a) > Nanos(b)
    ensures Leq(a, b) <==> Nanos(a) <= Nanos(b)
  {
  }

  /** Division as in C: towards zero. */
  function Quotient(a: int, b: int): int
    requires b > 0
  {
    if a >= 0 then a / b else -(-a / b)
  }

  /** The difference of two times in milliseconds, by checked arithmetic on
      longs; out of range it is cut off at the end of the right sign. */
  function MsDiff(a: Timespec, b: Timespec): int {
    var saturated := if a.sec < b.sec then LONG_MIN else LONG_MAX;
    var diff := a.sec - b.sec;
    if !IsLong(diff) then saturated else
    if !IsLong(diff * 1000) then saturated else
    var tmp := a.nsec - b.nsec;
    if !IsLong(tmp) then saturated else
    var sum := diff * 1000 + Quotient(tmp, 1_000_000);
    if !IsLong(sum) then saturated else sum
  }

  /** The sign is never wrong, and a result of zero or less means: less than one millisecond to go. */
  lemma MsDiffKeepsOrder(a: Timespec, b: Timespec)
    requires Normal(a) && Normal(b)
    ensures IsLong(MsDiff(a, b))
    ensures MsDiff(a, b) > 0 ==> Compare(a, b) > 0
    ensures MsDiff(a, b) < 0 ==> Compare(a, b) < 0
    ensures MsDiff(a, b) <= 0 ==> Nanos(a) - Nanos(b) < 1_000_000
    ensures MsDiff(a, b) >= 0 ==> Nanos(a) - Nanos(b) > -1_000_000
  {
  }

  /** In range the error is under one millisecond; out of range the times are
      further apart than a long can count milliseconds, on the side the sign says. */
  lemma MsDiffIsClose(a: Timespec, b: Timespec)
    requires Normal(a) && Normal(b)
    ensures LONG_MIN < MsDiff(a, b) < LONG_MAX ==>
      -1_000_000 < MsDiff(a, b) * 1_000_000 - (Nanos(a) - Nanos(b)) < 1_000_000
    ensures MsDiff(a, b) == LONG_MAX ==> Nanos(a) - Nanos(b) > (LONG_MAX - 1000) * 1_000_000
    ensures MsDiff(a, b) == LONG_MIN ==> Nanos(a) - Nanos(b) < (LONG_MIN + 1000) * 1_000_000
  {
  }

  /** Seen from one moment, later times never look earlier. */
  lemma MsDiffMonotone(a: Timespec, b: Timespec, now: Timespec)
    requires Normal(a) && Normal(b) && Normal(now) && Leq(a, b)
    ensures MsDiff(a, now) <= MsDiff(b, now)
  {
  }

  /** How long to sleep: not past the next event, nor past the timeout. */
  function SleepUntil(next: Timespec, now: Timespec, timeoutMs: int): (ms: int)
    ensures timeoutMs >= 0 && MsDiff(next, now) <= timeoutMs ==> ms == (if MsDiff(next, now) < 0 then 0 else MsDiff(next, now))
    ensures 0 <= timeoutMs <= MsDiff(next, now) ==> ms == timeoutMs
  {
    var d := MsDiff(next, now);
    if d < 0 then 0 else if d >= timeoutMs then timeoutMs else d
  }

  /** A sleep before an event, in nanoseconds: none when the event is due, over less than a
      millisecond past it, and, unless it lasts the whole timeout, not a millisecond short of it. */
  ghost predicate EndsAtEvent(next: Timespec, now: Timespec, timeoutMs: int, ms: int) {
    var left := Nanos(next) - Nanos(now);
    && (left <= 0 ==> ms == 0)
    && 0 <= ms <= timeoutMs
    && (ms > 0 ==> ms * 1_000_000 < left + 1_000_000)
    && (ms < timeoutMs ==> left - 1_000_000 < ms * 1_000_000)
  }

  lemma SleepEndsAtEvent(next: Timespec, now: Timespec, timeoutMs: int)
    requires Normal(next) && Normal(now) && 0 <= timeoutMs <= INT_MAX
    ensures EndsAtEvent(next, now, timeoutMs, SleepUntil(next, now, timeoutMs))
  {
    MsDiffKeepsOrder(next, now);
    MsDiffIsClose(next, now);
  }

  /** What a callback does: it may schedule events, and cancel pending ones,
      whose own callbacks run there and then. */
  datatype Plan = Plan(acts: seq<Act>)
  datatype Act = DoSchedule(delay: int, now: Timespec, userData: int) | DoDestroy(slot: nat, callback: Plan)

  /** How an event left the queue; for a polled event also when, and what else was pending. */
  datatype Entry = Ran(ev: TimedEvent, at: Timespec, others: set<TimedEvent>) | Aborted(ev: TimedEvent)

  ghost predicate AreAccounted(pending: set<TimedEvent>, scheduled: set<TimedEvent>, log: seq<Entry>) {
    && pending <= scheduled
    && (forall i :: 0 <= i < |log| ==> log[i].ev in scheduled && log[i].ev !in pending)
    && (forall i, j :: 0 <= i < j < |log| ==> log[i].ev != log[j].ev)
    && (forall e :: e in scheduled ==> e in pending || exists i :: 0 <= i < |log| && log[i].ev == e)
  }

  ghost predicate AreOnTime(log: seq<Entry>) {
    forall i :: 0 <= i < |log| && log[i].Ran? ==> IsOnTime(log[i])
  }

  ghost predicate IsOnTime(entry: Entry)
    requires entry.Ran?
  {
    && (Normal(entry.ev.time) && Normal(entry.at) ==> Nanos(entry.ev.time) - Nanos(entry.at) < 1_000_000)
    && forall e :: e in entry.others ==> Leq(entry.ev.time, e.time)
  }

  lemma OneMoreEntry(pending: set<TimedEvent>, scheduled: set<TimedEvent>, log: seq<Entry>, entry: Entry)
    requires AreAccounted(pending, scheduled, log) && entry.ev in pending
    ensures AreAccounted(pending - {entry.ev}, scheduled, log + [entry])
  {
    var now := log + [entry];
    forall e | e in scheduled && e !in pending - {entry.ev} ensures exists i :: 0 <= i < |now| && now[i].ev == e {
      if e == entry.ev {
        assert now[|log|].ev == e;
      } else {
        var i :| 0 <= i < |log| && log[i].ev == e;
        assert now[i].ev == e;
      }
    }
  }

  class Loop {
    const q: Queue
    ghost var scheduled: set<TimedEvent>   // every event ever scheduled
    ghost var log: seq<Entry>              // every event that has left the queue, in order

    /** Each scheduled event is in exactly one place: pending, or one entry of the log. */
    ghost predicate Accounted()
      reads this, q
    {
      AreAccounted(q.pending, scheduled, log)
    }

    /** No polled event was run a millisecond or more early, or before an earlier one. */
    ghost predicate OnTime()
      reads this
    {
      AreOnTime(log)
    }

    ghost predicate Valid()
      reads this, q, q.queue, q.pending
    {
      q.Valid() && Accounted() && OnTime()
    }

    ghost function Seen(): View
      requires Valid()
      reads this, q, q.queue, q.pending
    {
      View(q.pending, q.count, q.Head(), scheduled, log)
    }

    constructor (strictGuard: bool)
      ensures Valid() && fresh(q) && fresh(q.queue) && q.strictGuard == strictGuard
      ensures Seen() == View({}, 0, null, {}, [])
    {
      hide Queue.Valid;
      q := new Queue(strictGuard);
      scheduled, log := {}, [];
    }

    method ScheduleEvent(delay: int, now: Timespec, userData: int) returns (ev: TimedEvent)
      requires Valid()
      modifies this, q, q.queue, q.pending
      ensures Valid() && (q.queue == old(q.queue) || fresh(q.queue))
      ensures fresh(ev) && ev.time == Timespec(now.sec + delay, now.nsec) && ev.userData == userData
      ensures q.pending == old(q.pending) + {ev} && scheduled == old(scheduled) + {ev} && log == old(log)
    {
      ev := new TimedEvent(Timespec(now.sec + delay, now.nsec), userData);
      q.Add(ev);
      scheduled := scheduled + {ev};
    }

    /** Moves an event from the queue to the log. */
    method Retire(ev: TimedEvent, ghost entry: Entry)
      requires Valid() && ev in q.pending && !q.TiedLast(ev) && entry.ev == ev
      requires entry.Ran? ==> Normal(ev.time) && Normal(entry.at) ==> Nanos(ev.time) - Nanos(entry.at) < 1_000_000
      requires entry.Ran? ==> forall e :: e in entry.others ==> Leq(ev.time, e.time)
      modifies this, q, q.queue, q.pending
      ensures Valid() && (q.queue == old(q.queue) || fresh(q.queue))
      ensures q.pending == old(q.pending) - {ev} && scheduled == old(scheduled) && log == old(log) + [entry]
    {
      hide AreAccounted, Queue.Valid;
      OneMoreEntry(q.pending, scheduled, log, entry);
      q.Remove(ev);
      log := log + [entry];
    }

    /** The event leaves the queue first; only then does its callback run. */
    method ExecuteAndDestroyEvent(ev: TimedEvent, ghost entry: Entry, callback: Plan)
      requires Valid() && ev in q.pending && !q.TiedLast(ev) && entry.ev == ev
      requires entry.Ran? ==> Normal(ev.time) && Normal(entry.at) ==> Nanos(ev.time) - Nanos(entry.at) < 1_000_000
      requires entry.Ran? ==> forall e :: e in entry.others ==> Leq(ev.time, e.time)
      modifies this, q, q.queue, q.pending
      ensures Valid() && (q.queue == old(q.queue) || fresh(q.queue)) && fresh(q.pending - old(q.pending))
      ensures old(scheduled) <= scheduled && old(log) + [entry] <= log
      ensures forall i :: |old(log)| < i < |log| ==> log[i].Aborted?
      decreases callback, 1
    {
      Retire(ev, entry);
      RunCallback(callback);
    }

    method RunCallback(callback: Plan)
      requires Valid()
      modifies this, q, q.queue, q.pending
      ensures Valid() && (q.queue == old(q.queue) || fresh(q.queue)) && fresh(q.pending - old(q.pending))
      ensures old(scheduled) <= scheduled && old(log) <= log
      ensures forall i :: |old(log)| <= i < |log| ==> log[i].Aborted?
      decreases callback, 0
    {
      var i := 0;
      while i < |callback.acts|
        invariant 0 <= i <= |callback.acts|
        invariant Valid() && (q.queue == old(q.queue) || fresh(q.queue)) && fresh(q.pending - old(q.pending))
        invariant old(scheduled) <= scheduled && old(log) <= log
        invariant forall j :: |old(log)| <= j < |log| ==> log[j].Aborted?
      {
        match callback.acts[i] {
          case DoSchedule(delay, now, userData) =>
            var _ := ScheduleEvent(delay, now, userData);
          case DoDestroy(slot, nested) =>
            if slot < q.count {
              var ev := q.queue[slot];
              if !q.TiedLast(ev) {  // never so with the strict guard
                DestroyEvent(ev, nested);
              }
            }
        }
        i := i + 1;
      }
    }

    method DestroyEvent(ev: TimedEvent, callback: Plan)
      requires Valid() && ev in q.pending && !q.TiedLast(ev)
      modifies this, q, q.queue, q.pending
      ensures Valid() && (q.queue == old(q.queue) || fresh(q.queue)) && fresh(q.pending - old(q.pending))
      ensures old(scheduled) <= scheduled && old(log) + [Aborted(ev)] <= log
      ensures forall i :: |old(log)| <= i < |log| ==> log[i].Aborted?
      decreases callback, 2
    {
      ExecuteAndDestroyEvent(ev, Aborted(ev), callback);
    }

    /** Cancels everything, head first; what the callbacks add is cancelled too. */
    method ClearEventQueue(callbacks: seq<Plan>)
      requires Valid()
      modifies this, q, q.queue, q.pending
      ensures Valid() && q.pending == {} && (q.queue == old(q.queue) || fresh(q.queue))
      ensures old(scheduled) <= scheduled && old(log) <= log
      ensures forall i :: |old(log)| <= i < |log| ==> log[i].Aborted?
    {
      var i := 0;
      var ev := q.Head();
      while ev != null
        invariant Valid() && (q.queue == old(q.queue) || fresh(q.queue)) && fresh(q.pending - old(q.pending))
        invariant old(scheduled) <= scheduled && old(log) <= log && ev == q.Head()
        invariant forall j :: |old(log)| <= j < |log| ==> log[j].Aborted?
        decreases |callbacks| - i, q.pending
      {
        if i < |callbacks| {
          DestroyEvent(ev, callbacks[i]);
          i := i + 1;
        } else {
          DestroyQuietly(ev);
        }
        ev := q.Head();
      }
    }

    /** Cancels an event whose callback does nothing here. */
    method DestroyQuietly(ev: TimedEvent)
      requires Valid() && ev in q.pending && !q.TiedLast(ev)
      modifies this, q, q.queue, q.pending
      ensures Valid() && (q.queue == old(q.queue) || fresh(q.queue))
      ensures q.pending == old(q.pending) - {ev} && scheduled == old(scheduled) && log == old(log) + [Aborted(ev)]
    {
      Retire(ev, Aborted(ev));
    }

    /** Polls once.  The clocks, the answer of the descriptor poll and what the
        descriptor handlers do are inputs. */
    method EventPollFull(timeoutMs: int, first: Timespec, sendBacklog: bool, inputs: int, interrupted: bool,
                         handlers: Plan, second: Timespec, callback: Plan) returns (ret: int, sleepMs: int)
      requires Valid()
      modifies this, q, q.queue, q.pending
      ensures Valid() && (q.queue == old(q.queue) || fresh(q.queue)) && fresh(q.pending - old(q.pending))
      ensures old(scheduled) <= scheduled && old(log) <= log
      ensures ret == if inputs < 0 && !interrupted then -1 else 0
      ensures sleepMs == if sendBacklog then 0 else if old(q.Head()) == null then timeoutMs
                         else SleepUntil(old(q.Head()).time, first, timeoutMs)
      ensures timeoutMs >= 0 ==> 0 <= sleepMs <= timeoutMs
      ensures 0 <= timeoutMs <= INT_MAX && !sendBacklog && old(q.Head()) != null
                && Normal(old(q.Head()).time) && Normal(first) ==>
                EndsAtEvent(old(q.Head()).time, first, timeoutMs, sleepMs)
      ensures forall i :: |old(log)| <= i < |log| && log[i].Ran? ==> i == |old(log)| && inputs == 0
      ensures inputs < 0 ==> log == old(log) && q.pending == old(q.pending)
      ensures inputs == 0 && old(q.Head()) == null ==> log == old(log) && q.pending == old(q.pending)
      ensures inputs == 0 && old(q.Head()) != null && MsDiff(old(q.Head()).time, second) > 0 ==>
        log == old(log) && q.pending == old(q.pending)
      ensures inputs == 0 && old(q.Head()) != null && MsDiff(old(q.Head()).time, second) <= 0 ==>
        old(log) + [Ran(old(q.Head()), second, old(q.pending))] <= log
    {
      var evt := q.Head();
      if evt != null {
        sleepMs := MsDiff(evt.time, first);
        if sleepMs < 0 {
          sleepMs := 0;
        } else if sleepMs >= timeoutMs {
          sleepMs := timeoutMs;
        }
      } else {
        sleepMs := timeoutMs;
      }
      if evt != null && 0 <= timeoutMs <= INT_MAX && Normal(evt.time) && Normal(first) {
        SleepEndsAtEvent(evt.time, first, timeoutMs);
      }
      if sendBacklog {
        sleepMs := 0;
      }
      if inputs < 0 {
        return if interrupted then 0 else -1, sleepMs;
      } else if inputs > 0 {
        RunCallback(handlers);
        return 0, sleepMs;
      }
      if evt == null {
        return 0, sleepMs;
      }
      if MsDiff(evt.time, second) > 0 {
        return 0, sleepMs;
      }
      if Normal(evt.time) && Normal(second) { MsDiffKeepsOrder(evt.time, second); }
      ExecuteAndDestroyEvent(evt, Ran(evt, second, q.pending), callback);
      ret := 0;
    }
  }

  /** What the rest of the program does to the loop. */
  datatype Use = Schedule(delay: int, now: Timespec, userData: int)
    | Cancel(slot: nat, callback: Plan)
    | Poll(timeoutMs: int, first: Timespec, sendBacklog: bool, inputs: int, interrupted: bool,
           handlers: Plan, second: Timespec, callback: Plan)
    | Clear(callbacks: seq<Plan>)

  /** What can be seen of a loop. */
  datatype View = View(pending: set<TimedEvent>, count: nat, head: TimedEvent?, scheduled: set<TimedEvent>, log: seq<Entry>)

  ghost predicate OnlyAborts(a: View, b: View) {
    && a.scheduled <= b.scheduled && a.log <= b.log
    && forall i :: |a.log| <= i < |b.log| ==> b.log[i].Aborted?
  }

  /** What one use does; `ev` is the event it schedules or cancels.  With the guard as coded
      no last event that is tied with its parent is cancelled: it is passed over. */
  ghost predicate Does(use: Use, strictGuard: bool, a: View, b: View, ev: TimedEvent?) {
    match use
    case Schedule(delay, now, userData) =>
      && ev != null && ev.time == Timespec(now.sec + delay, now.nsec) && ev.userData == userData
      && ev !in a.scheduled && b.scheduled == a.scheduled + {ev} && b.pending == a.pending + {ev} && b.log == a.log
    case Cancel(slot, callback) =>
      && OnlyAborts(a, b) && (ev == null ==> a == b) && (slot >= a.count ==> ev == null)
      && (slot < a.count && strictGuard ==> ev != null)
      && (ev != null ==> ev in a.pending && a.log + [Aborted(ev)] <= b.log)
    case Poll(timeoutMs, first, sendBacklog, inputs, interrupted, handlers, second, callback) =>
      if inputs < 0 || (inputs == 0 && (a.head == null || MsDiff(a.head.time, second) > 0)) then
        a.log == b.log && a.pending == b.pending
      else if inputs > 0 then
        OnlyAborts(a, b)
      else
        && a.scheduled <= b.scheduled && a.log + [Ran(a.head, second, a.pending)] <= b.log
        && forall i :: |a.log| < i < |b.log| ==> b.log[i].Aborted?
    case Clear(callbacks) =>
      OnlyAborts(a, b) && b.pending == {}
  }

  /** Over any run, from an empty loop on, every use does what it says, every scheduled event
      is accounted for exactly once, and every polled one was due and the earliest when it ran. */
  method AnyRun(strictGuard: bool, uses: seq<Use>)
    returns (loop: Loop, evs: seq<TimedEvent?>, ghost views: seq<View>)
    ensures loop.Valid() && AreOnTime(loop.log)
    ensures forall e :: e in loop.scheduled ==>
      (e in loop.q.pending <==> forall i :: 0 <= i < |loop.log| ==> loop.log[i].ev != e)
    ensures |evs| == |uses| && |views| == |uses| + 1
    ensures views[0] == View({}, 0, null, {}, []) && views[|uses|] == loop.Seen()
    ensures forall i :: 0 <= i < |uses| ==> Does(uses[i], strictGuard, views[i], views[i + 1], evs[i])
  {
    hide Queue.Valid, AreOnTime, Does;
    loop := new Loop(strictGuard);
    evs, views := [], [loop.Seen()];
    for i := 0 to |uses|
      invariant loop.Valid() && loop.q.strictGuard == strictGuard
      invariant fresh(loop) && fresh(loop.q) && fresh(loop.q.queue) && fresh(loop.q.pending)
      invariant |evs| == i && |views| == i + 1 && views[0] == View({}, 0, null, {}, []) && views[i] == loop.Seen()
      invariant forall j :: 0 <= j < i ==> Does(uses[j], strictGuard, views[j], views[j + 1], evs[j])
    {
      var ev := OneUse(loop, uses[i]);
      evs, views := evs + [ev], views + [loop.Seen()];
    }
    Account(loop.q.pending, loop.scheduled, loop.log);
  }

  lemma Account(pending: set<TimedEvent>, scheduled: set<TimedEvent>, log: seq<Entry>)
    requires AreAccounted(pending, scheduled, log)
    ensures forall e :: e in scheduled ==> (e in pending <==> forall i :: 0 <= i < |log| ==> log[i].ev != e)
  {
  }

  method OneUse(loop: Loop, use: Use) returns (ev: TimedEvent?)
    requires loop.Valid()
    modifies loop, loop.q, loop.q.queue, loop.q.pending
    ensures loop.Valid() && (loop.q.queue == old(loop.q.queue) || fresh(loop.q.queue))
    ensures fresh(loop.q.pending - old(loop.q.pending))
    ensures Does(use, loop.q.strictGuard, old(loop.Seen()), loop.Seen(), ev)
  {
    hide Queue.Valid, AreAccounted, AreOnTime, MsDiff;
    ev := null;
    match use {
      case Schedule(delay, now, userData) =>
        ev := loop.ScheduleEvent(delay, now, userData);
      case Cancel(slot, callback) =>
        if slot < loop.q.count {
          loop.q.InSlot(slot);
          if !loop.q.TiedLast(loop.q.queue[slot]) {
            ev := loop.q.queue[slot];
            loop.DestroyEvent(ev, callback);
          }
        }
      case Poll(timeoutMs, first, sendBacklog, inputs, interrupted, handlers, second, callback) =>
        var _, _ := loop.EventPollFull(timeoutMs, first, sendBacklog, inputs, interrupted, handlers, second, callback);
      case Clear(callbacks) =>
        loop.ClearEventQueue(callbacks);
    }
  }
}
