/** When hosts and services are checked next: at most one pending check each, and for an
    object with a check interval one pending or one under way. */
module CheckSchedule {
  import opened Basics

  /** The check option flags. */
  datatype Options = Options(force: bool, freshness: bool, orphan: bool, dependency: bool, postpone: bool)

  const NO_OPTIONS := Options(false, false, false, false, false)

  /** The scheduling fields of a host or a service. */
  class Checkable {
    const isHost: bool
    const checkInterval: nat
    const retryInterval: nat
    var nextCheckEvent: Option<nat>
    var nextCheck: int
    var checkOptions: Options
    var isExecuting: bool

    constructor (isHost: bool, checkInterval: nat, retryInterval: nat)
      ensures this.isHost == isHost && this.checkInterval == checkInterval && this.retryInterval == retryInterval
      ensures nextCheckEvent.None? && !isExecuting
    {
      this.isHost, this.checkInterval, this.retryInterval := isHost, checkInterval, retryInterval;
      nextCheckEvent, nextCheck, checkOptions, isExecuting := None, 0, NO_OPTIONS, false;
    }

    /** A check is pending or under way, where checks recur. */
    ghost predicate IsAlive()
      reads this
    {
      checkInterval != 0 ==> nextCheckEvent.Some? || isExecuting
    }
  }

  /** What the world answers when a check falls due: configuration, clock, dependencies,
      event broker and workers. */
  datatype World = World(executeChecks: bool, tooManyRunning: bool, isRecent: bool, checksEnabled: bool,
                         inPeriod: bool, nextSlot: int, isBlocked: bool, brokerCancels: bool,
                         brokerOverrides: bool, hasCommand: bool, workerAccepts: bool)

  /** The shorter of two intervals, where zero is none. */
  function Sooner(a: nat, b: nat): (r: nat)
    ensures (r == a || r == b) && (r == 0 <==> a == 0 && b == 0)
    ensures (a != 0 ==> r <= a) && (b != 0 ==> r <= b)
  {
    if a == 0 || (b != 0 && b < a) then b else a
  }

  /** When an immediate check, asked for now, is made: a sooner one that is pending stays. */
  ghost function AtOnce(event: Option<nat>, nextCheck: int, now: int): (r: int)
    ensures r <= now && (event.Some? ==> r <= nextCheck)
    ensures r == now || (event.Some? && r == nextCheck)
  {
    if event.Some? && nextCheck < now then nextCheck else now
  }

  class Scheduler {
    const objects: set<Checkable>
    /** The check events in the queue, each with the object it is for. */
    var pending: map<nat, Checkable>
    var nextEvent: nat

    /** Every object points to its one check event, and every check event is pointed to. */
    ghost predicate Valid()
      reads this, objects
    {
      && (forall e :: e in pending ==> e < nextEvent && pending[e] in objects && pending[e].nextCheckEvent == Some(e))
      && (forall o :: o in objects && o.nextCheckEvent.Some? ==>
            o.nextCheckEvent.value in pending && pending[o.nextCheckEvent.value] == o)
    }

    /** Which objects have a check pending or under way, or need none. */
    ghost function Alive(): set<Checkable>
      reads this, objects
    {
      set o | o in objects && o.IsAlive()
    }

    constructor (objects: set<Checkable>)
      requires forall o :: o in objects ==> o.nextCheckEvent.None?
      ensures this.objects == objects && Valid() && pending == map[]
    {
      this.objects := objects;
      pending, nextEvent := map[], 0;
    }

    /** No event that had left the queue is back in it. */
    ghost predicate NoneBack(was: map<nat, Checkable>, next: nat)
      reads this
    {
      nextEvent >= next && forall e :: e < next && e !in was ==> e !in pending
    }

    /** schedule_event for the check of one object. */
    method ScheduleEvent(o: Checkable) returns (e: nat)
      modifies this
      ensures e == old(nextEvent) && nextEvent == e + 1 && pending == old(pending)[e := o]
    {
      e := nextEvent;
      pending := pending[e := o];
      nextEvent := nextEvent + 1;
    }

    /** destroy_event: the handler runs as aborted and forgets the event. */
    method DestroyEvent(e: nat, o: Checkable)
      requires e in pending && pending[e] == o
      modifies this, o`nextCheckEvent
      ensures pending == old(pending) - {e} && nextEvent == old(nextEvent) && o.nextCheckEvent.None?
    {
      pending := pending - {e};
      o.nextCheckEvent := None;
    }

    /** schedule_next_host_check and schedule_next_service_check: a strictly sooner check
        stays unless the new one is forced or may postpone; otherwise the new one replaces
        what is there.  Either way exactly one check is pending afterwards. */
    method ScheduleNextCheck(o: Checkable, now: int, delay: int, options: Options)
      requires Valid() && o in objects
      modifies this, o`nextCheckEvent, o`nextCheck, o`checkOptions
      ensures Valid() && o.nextCheckEvent.Some? && NoneBack(old(pending), old(nextEvent))
      ensures old(o.nextCheckEvent.Some?) && old(o.nextCheck) < now + delay && !options.force && !options.postpone ==>
                && pending == old(pending) && o.nextCheckEvent == old(o.nextCheckEvent)
                && o.nextCheck == old(o.nextCheck) && o.checkOptions == old(o.checkOptions)
      ensures old(o.nextCheckEvent.None?) || old(o.nextCheck) >= now + delay || options.force || options.postpone ==>
                && o.nextCheck == now + delay && o.checkOptions == options
                && o.nextCheckEvent.value == old(nextEvent) && o.nextCheckEvent.value !in old(pending)
                && pending == (old(pending) - old(EventOf(o)))[o.nextCheckEvent.value := o]
    {
      if o.nextCheckEvent.Some? && o.nextCheck < delay + now {
        if !options.force && !options.postpone {
          return;
        }
      }
      if o.nextCheckEvent.Some? {
        DestroyEvent(o.nextCheckEvent.value, o);
      }
      o.checkOptions := options;
      o.nextCheck := delay + now;
      var e := ScheduleEvent(o);
      o.nextCheckEvent := Some(e);
    }

    ghost function EventOf(o: Checkable): set<nat>
      reads o
    {
      if o.nextCheckEvent.Some? then {o.nextCheckEvent.value} else {}
    }

    /** The event is taken off the queue before its handler runs. */
    method TakeDue(e: nat, o: Checkable)
      requires Valid() && e in pending && pending[e] == o
      modifies this, o`nextCheckEvent
      ensures Valid() && o in objects && o.nextCheckEvent.None? && pending == old(pending) - {e}
      ensures e < nextEvent
    {
      pending := pending - {e};
      o.nextCheckEvent := None;
    }

    /** The check is with a worker now. */
    method StartExecuting(o: Checkable)
      requires Valid() && o in objects
      modifies o`isExecuting
      ensures Valid() && o.isExecuting
    {
      o.isExecuting := true;
    }

    /** handle_host_check_event and run_async_host_check: whether the check starts, whether
        the attempt has failed, and when the host is checked next. */
    method HandleHostCheckEvent(e: nat, h: Checkable, now: int, w: World) returns (failed: bool, ghost putOff: bool)
      requires Valid() && e in pending && pending[e] == h && h.isHost
      modifies this, h
      ensures Valid() && h.IsAlive() && e !in pending
      ensures h.isExecuting == (old(h.isExecuting) ||
                ((old(h.checkOptions).force ||
                    (w.executeChecks && !w.isRecent && w.checksEnabled && w.inPeriod && !w.isBlocked))
                  && !w.brokerCancels && !w.brokerOverrides && w.hasCommand && w.workerAccepts))
      ensures failed == ((w.executeChecks || old(h.checkOptions).force) &&
                ((!old(h.checkOptions).force &&
                    (old(h.isExecuting) || w.isRecent || !w.checksEnabled || !w.inPeriod || w.isBlocked))
                  || w.brokerCancels || (!w.brokerOverrides && !w.hasCommand)))
      ensures putOff == (!old(h.checkOptions).force && !old(h.isExecuting) && w.executeChecks && !w.isRecent
                && w.checksEnabled && !w.inPeriod && w.nextSlot != 0)
      ensures old(h.isExecuting) ==> h.nextCheckEvent.None?
      ensures !old(h.isExecuting) && !failed ==>
                (h.nextCheckEvent.Some? <==> h.checkInterval != 0)
                && (h.checkInterval != 0 ==> h.nextCheck == now + h.checkInterval)
      ensures !old(h.isExecuting) && failed && !putOff ==>
                (h.nextCheckEvent.Some? <==> h.checkInterval != 0 || h.retryInterval != 0)
                && (h.nextCheckEvent.Some? ==> h.nextCheck == now + Sooner(h.checkInterval, h.retryInterval))
      ensures putOff ==>
                h.nextCheckEvent.Some? && h.nextCheck == if h.retryInterval != 0 && now + h.retryInterval <= w.nextSlot
                                                         then now + h.retryInterval else w.nextSlot
      ensures h.nextCheckEvent.None? ==> h.nextCheck == old(h.nextCheck)
      ensures h.nextCheckEvent.Some? ==> !h.checkOptions.force
    {
      hide Scheduler.Valid;
      TakeDue(e, h);
      var options := h.checkOptions;
      if h.checkInterval != 0 && !h.isExecuting {
        ScheduleNextCheck(h, now, h.checkInterval, NO_OPTIONS);
      }
      putOff := !options.force && !h.isExecuting && w.executeChecks && !w.isRecent && w.checksEnabled
        && !w.inPeriod && w.nextSlot != 0;
      if !w.executeChecks && !options.force {
        return false, putOff;
      }
      var ok := RunAsyncHostCheck(h, now, options, w);
      if !ok && h.retryInterval != 0 && !h.isExecuting {
        ScheduleNextCheck(h, now, h.retryInterval, NO_OPTIONS);
      }
      failed := !ok;
    }

    method RunAsyncHostCheck(h: Checkable, now: int, options: Options, w: World) returns (ok: bool)
      requires Valid() && h in objects
      modifies this, h
      ensures Valid() && NoneBack(old(pending), old(nextEvent))
      ensures h.isExecuting == (old(h.isExecuting) ||
                ((options.force || (!w.isRecent && w.checksEnabled && w.inPeriod && !w.isBlocked))
                  && !w.brokerCancels && !w.brokerOverrides && w.hasCommand && w.workerAccepts))
      ensures ok == !(w.brokerCancels || (!w.brokerOverrides && !w.hasCommand) || (!options.force &&
                (old(h.isExecuting) || w.isRecent || !w.checksEnabled || !w.inPeriod || w.isBlocked)))
      ensures var putOff := !options.force && !old(h.isExecuting) && !w.isRecent && w.checksEnabled
                && !w.inPeriod && w.nextSlot != 0;
              && (putOff ==>
                    && h.nextCheckEvent.Some? && h.nextCheck == w.nextSlot
                    && h.checkOptions == NO_OPTIONS.(postpone := true))
              && (!putOff ==>
                    && h.nextCheckEvent == old(h.nextCheckEvent) && h.nextCheck == old(h.nextCheck)
                    && h.checkOptions == old(h.checkOptions))
    {
      if !options.force {
        if h.isExecuting || w.isRecent || !w.checksEnabled {
          return false;
        }
        if !w.inPeriod {
          if w.nextSlot != 0 {
            ScheduleNextCheck(h, now, w.nextSlot - now, NO_OPTIONS.(postpone := true));
          }
          return false;
        }
        if w.isBlocked {
          return false;
        }
      }
      if w.brokerCancels {
        return false;
      }
      if w.brokerOverrides {
        return true;
      }
      if !w.hasCommand {
        return false;
      }
      if w.workerAccepts {
        StartExecuting(h);
      }
      return true;
    }

    /** handle_service_check_event and run_scheduled_service_check: whether the check starts
        and when the service is checked next. */
    method HandleServiceCheckEvent(e: nat, s: Checkable, now: int, w: World) returns (ghost putOff: bool)
      requires Valid() && e in pending && pending[e] == s && !s.isHost
      modifies this, s
      ensures Valid() && s.IsAlive() && e !in pending
      ensures s.isExecuting == (old(s.isExecuting) ||
                ((old(s.checkOptions).force || (!w.tooManyRunning && w.executeChecks && !w.isRecent
                    && w.checksEnabled && w.inPeriod && !w.isBlocked))
                  && !w.brokerCancels && !w.brokerOverrides && w.hasCommand && w.workerAccepts))
      ensures putOff == (!old(s.checkOptions).force && !w.tooManyRunning && w.executeChecks && !w.isRecent
                && w.checksEnabled && !w.inPeriod && w.nextSlot != 0)
      ensures putOff ==> s.nextCheckEvent.Some? && s.nextCheck == w.nextSlot
      ensures old(s.isExecuting) && !putOff ==> s.nextCheckEvent.None?
      ensures !old(s.isExecuting) && !putOff && (old(s.checkOptions).force || !w.tooManyRunning) ==>
                (s.nextCheckEvent.Some? <==> s.checkInterval != 0)
                && (s.checkInterval != 0 ==> s.nextCheck == now + s.checkInterval)
      ensures !old(s.isExecuting) && !old(s.checkOptions).force && w.tooManyRunning ==>
                (s.nextCheckEvent.Some? <==> s.checkInterval != 0 || s.retryInterval != 0)
                && (s.nextCheckEvent.Some? ==> s.nextCheck == now + Sooner(s.checkInterval, s.retryInterval))
      ensures s.nextCheckEvent.None? ==> s.nextCheck == old(s.nextCheck)
      ensures s.nextCheckEvent.Some? ==> !s.checkOptions.force
    {
      hide Scheduler.Valid;
      TakeDue(e, s);
      var options := s.checkOptions;
      putOff := !options.force && !w.tooManyRunning && w.executeChecks && !w.isRecent && w.checksEnabled
        && !w.inPeriod && w.nextSlot != 0;
      if s.checkInterval != 0 && !s.isExecuting {
        ScheduleNextCheck(s, now, s.checkInterval, NO_OPTIONS);
      }
      if !options.force {
        if w.tooManyRunning {
          if s.retryInterval != 0 && !s.isExecuting {
            ScheduleNextCheck(s, now, s.retryInterval, NO_OPTIONS);
          }
          return;
        }
        if !w.executeChecks || w.isRecent || !w.checksEnabled {
          return;
        }
        if !w.inPeriod {
          if w.nextSlot != 0 {
            ScheduleNextCheck(s, now, w.nextSlot - now, NO_OPTIONS.(postpone := true));
          }
          return;
        }
        if w.isBlocked {
          return;
        }
      }
      if !w.brokerCancels && !w.brokerOverrides && w.hasCommand && w.workerAccepts {
        StartExecuting(s);
      }
    }

    /** Other objects are asked for an immediate check. */
    method AskOthers(now: int, others: seq<Checkable>)
      requires Valid() && forall x :: x in others ==> x in objects
      modifies this, objects`nextCheckEvent, objects`nextCheck, objects`checkOptions
      ensures Valid() && old(Alive()) <= Alive()
      ensures forall x :: x in others ==>
                x.nextCheckEvent.Some? && x.nextCheck == AtOnce(old(x.nextCheckEvent), old(x.nextCheck), now)
      ensures forall x :: x in objects && x !in others ==>
                x.nextCheckEvent == old(x.nextCheckEvent) && x.nextCheck == old(x.nextCheck)
    {
      for i := 0 to |others|
        invariant Valid() && old(Alive()) <= Alive()
        invariant forall x :: x in others[..i] ==>
                    x.nextCheckEvent.Some? && x.nextCheck == AtOnce(old(x.nextCheckEvent), old(x.nextCheck), now)
        invariant forall x :: x in objects && x !in others[..i] ==>
                    x.nextCheckEvent == old(x.nextCheckEvent) && x.nextCheck == old(x.nextCheck)
      {
        ScheduleNextCheck(others[i], now, 0, NO_OPTIONS);
        assert others[..i + 1] == others[..i] + [others[i]];
      }
      assert others[..|others|] == others;
    }

    /** The scheduling part of a handled result: other objects are asked for an immediate
        check, a soft problem is retried, and a next check is made sure of. */
    method FinishResult(o: Checkable, now: int, isSoftProblem: bool, others: seq<Checkable>)
      requires Valid() && o in objects && forall x :: x in others ==> x in objects
      modifies this, objects`nextCheckEvent, objects`nextCheck, objects`checkOptions
      ensures Valid() && o.IsAlive() && old(Alive()) <= Alive()
      ensures isSoftProblem && o.retryInterval != 0 ==> o.nextCheckEvent.Some? && o.nextCheck == now + o.retryInterval
      ensures (!isSoftProblem || o.retryInterval == 0) && o in others ==>
                o.nextCheckEvent.Some? && o.nextCheck == AtOnce(old(o.nextCheckEvent), old(o.nextCheck), now)
      ensures (!isSoftProblem || o.retryInterval == 0) && o !in others && old(o.nextCheckEvent).Some? ==>
                o.nextCheckEvent == old(o.nextCheckEvent) && o.nextCheck == old(o.nextCheck)
      ensures (!isSoftProblem || o.retryInterval == 0) && o !in others && old(o.nextCheckEvent).None? ==>
                (o.nextCheckEvent.Some? <==> o.checkInterval != 0)
                && (o.checkInterval != 0 ==> o.nextCheck == now + o.checkInterval)
      ensures forall x :: x in others && x != o ==>
                x.nextCheckEvent.Some? && x.nextCheck == AtOnce(old(x.nextCheckEvent), old(x.nextCheck), now)
      ensures forall x :: x in objects && x !in others && x != o ==>
                x.nextCheckEvent == old(x.nextCheckEvent) && x.nextCheck == old(x.nextCheck)
    {
      AskOthers(now, others);
      if isSoftProblem && o.retryInterval != 0 {
        ScheduleNextCheck(o, now, o.retryInterval, NO_OPTIONS.(postpone := true));
      }
      if o.checkInterval != 0 && o.nextCheckEvent.None? {
        ScheduleNextCheck(o, now, o.checkInterval, NO_OPTIONS);
      }
    }

    /** A host result: a discarded freshness check gets to the rescheduling like any other. */
    method HandleHostResult(h: Checkable, now: int, isActive: bool, isAccepted: bool, isSoftProblem: bool,
                            others: seq<Checkable>)
      requires Valid() && h in objects && h.isHost && forall x :: x in others ==> x in objects
      modifies this, h, objects`nextCheckEvent, objects`nextCheck, objects`checkOptions
      ensures Valid() && old(Alive()) <= Alive() && (isActive || isAccepted ==> h.IsAlive())
      ensures isActive ==> !h.isExecuting
      ensures isActive || isAccepted ==>
                && (isSoftProblem && h.retryInterval != 0 ==>
                    h.nextCheckEvent.Some? && h.nextCheck == now + h.retryInterval)
                && (!isSoftProblem && h !in others && old(h.nextCheckEvent).Some? ==> h.nextCheck == old(h.nextCheck))
                && (!isSoftProblem && h !in others && old(h.nextCheckEvent).None? && h.checkInterval != 0 ==>
                    h.nextCheckEvent.Some? && h.nextCheck == now + h.checkInterval)
                && forall x :: x in others && x != h ==>
                    x.nextCheckEvent.Some? && x.nextCheck == AtOnce(old(x.nextCheckEvent), old(x.nextCheck), now)
    {
      if isActive {
        h.isExecuting := false;
      } else if !isAccepted {
        return;
      }
      FinishResult(h, now, isSoftProblem, others);
    }

    /** A service result: a discarded freshness check ends early. */
    method HandleServiceResult(s: Checkable, now: int, isActive: bool, isAccepted: bool, isDiscarded: bool,
                               isSoftProblem: bool, others: seq<Checkable>)
      requires Valid() && s in objects && !s.isHost && forall x :: x in others ==> x in objects
      modifies this, s, objects`nextCheckEvent, objects`nextCheck, objects`checkOptions
      ensures Valid() && old(Alive()) - {s} <= Alive()
      ensures !(isActive && isDiscarded) ==> old(Alive()) <= Alive()
      ensures isActive ==> !s.isExecuting
      ensures (isActive || isAccepted) && !isDiscarded ==> s.IsAlive()
      ensures (isActive || isAccepted) && !isDiscarded ==>
                && (isSoftProblem && s.retryInterval != 0 ==>
                    s.nextCheckEvent.Some? && s.nextCheck == now + s.retryInterval)
                && (!isSoftProblem && s !in others && old(s.nextCheckEvent).Some? ==> s.nextCheck == old(s.nextCheck))
                && (!isSoftProblem && s !in others && old(s.nextCheckEvent).None? && s.checkInterval != 0 ==>
                    s.nextCheckEvent.Some? && s.nextCheck == now + s.checkInterval)
                && forall x :: x in others && x != s ==>
                    x.nextCheckEvent.Some? && x.nextCheck == AtOnce(old(x.nextCheckEvent), old(x.nextCheck), now)
      ensures isActive && isDiscarded ==>
                (s.IsAlive() <==> s.checkInterval == 0 || old(s.nextCheckEvent).Some?)
    {
      if !isActive && !isAccepted {
        return;
      }
      if isActive {
        s.isExecuting := false;
      }
      if isDiscarded {
        return;
      }
      FinishResult(s, now, isSoftProblem, others);
    }

    /** A check whose result never came back. */
    method RescheduleOrphan(o: Checkable, now: int)
      requires Valid() && o in objects
      modifies this, o
      ensures Valid() && (old(o.IsAlive()) ==> o.IsAlive())
      ensures old(o.isExecuting) && !(o.isHost && old(o.nextCheck) == 0) ==>
                && !o.isExecuting && o.nextCheckEvent.Some?
                && o.nextCheck == AtOnce(old(o.nextCheckEvent), old(o.nextCheck), now)
      ensures !old(o.isExecuting) || (o.isHost && old(o.nextCheck) == 0) ==>
                o.isExecuting == old(o.isExecuting) && o.nextCheckEvent == old(o.nextCheckEvent) && pending == old(pending)
    {
      if o.isHost && o.nextCheck == 0 {
        return;
      }
      if !o.isExecuting {
        return;
      }
      o.isExecuting := false;
      ScheduleNextCheck(o, now, 0, NO_OPTIONS.(orphan := true));
    }

    ghost predicate IsListedOnce(list: seq<Checkable>, j: nat)
      requires j < |list|
    {
      list[j] !in list[..j] && list[j] !in list[j + 1..]
    }

    /** checks_init_hosts and checks_init_services: every host, and every service that
        recurs, gets its first check. */
    method InitChecks(list: seq<Checkable>, delays: seq<int>, now: int)
      requires Valid() && |delays| == |list|
      requires (forall o :: o in list ==> o in objects) && forall o :: o in objects ==> o in list
      modifies this, objects`nextCheckEvent, objects`nextCheck, objects`checkOptions
      ensures Valid() && Alive() == objects
      ensures forall o :: o in objects && (o.isHost || o.checkInterval != 0) ==> o.nextCheckEvent.Some?
      ensures forall j :: 0 <= j < |list| && IsListedOnce(list, j) && old(list[j].nextCheckEvent.None?) ==>
                list[j].isHost || list[j].checkInterval != 0 ==> list[j].nextCheck == now + delays[j]
    {
      for i := 0 to |list|
        invariant Valid()
        invariant forall j :: 0 <= j < i && (list[j].isHost || list[j].checkInterval != 0) ==> list[j].nextCheckEvent.Some?
        invariant forall x :: x in objects && x !in list[..i] ==>
                    x.nextCheckEvent == old(x.nextCheckEvent) && x.nextCheck == old(x.nextCheck)
        invariant forall j :: 0 <= j < i && IsListedOnce(list, j) && old(list[j].nextCheckEvent.None?) ==>
                    list[j].isHost || list[j].checkInterval != 0 ==> list[j].nextCheck == now + delays[j]
      {
        if list[i].isHost || list[i].checkInterval != 0 {
          ScheduleNextCheck(list[i], now, delays[i], NO_OPTIONS);
        }
      }
    }

    /** The step that loses an object: an active result is discarded for a recurring
        service that has nothing pending. */
    ghost predicate Loses(op: Op, x: Checkable)
      reads x
    {
      && Discards(op, x) && op.o in objects && (forall y :: y in op.others ==> y in objects)
      && x.checkInterval != 0 && x.nextCheckEvent.None?
    }

    /** One step: what was alive is alive afterwards, unless this step loses it. */
    method Step(op: Op)
      requires Valid()
      modifies this, objects
      ensures Valid()
      ensures forall x :: x in old(Alive()) ==> (x in Alive() <==> !old(Loses(op, x)))
      ensures op.Due? ==> op.e !in pending
      ensures op.Due? && op.e in old(pending) && old(!pending[op.e].isExecuting && pending[op.e].checkInterval != 0) ==>
                var x := old(pending)[op.e];
                x.nextCheckEvent.Some? && (x.nextCheck <= op.now + x.checkInterval || x.nextCheck <= op.w.nextSlot)
      ensures op.Request? && op.o in objects ==> op.o.nextCheckEvent.Some?
      ensures op.Result? && op.isActive && op.o in objects && (forall y :: y in op.others ==> y in objects) ==>
                !op.o.isExecuting && ((op.isDiscarded && !op.o.isHost) || op.o.IsAlive())
      ensures op.Orphaned? && op.o in objects && old(op.o.isExecuting && !(op.o.isHost && op.o.nextCheck == 0)) ==>
                !op.o.isExecuting && op.o.nextCheckEvent.Some?
    {
      match op
      case Due(e, now, w) =>
        if e in pending {
          if pending[e].isHost {
            var _, _ := HandleHostCheckEvent(e, pending[e], now, w);
          } else {
            var _ := HandleServiceCheckEvent(e, pending[e], now, w);
          }
        }
      case Request(o, now, delay, options) =>
        if o in objects { ScheduleNextCheck(o, now, delay, options); }
      case Result(o, now, isActive, isAccepted, isDiscarded, isSoftProblem, others) =>
        if o in objects && forall x :: x in others ==> x in objects {
          if o.isHost {
            HandleHostResult(o, now, isActive, isAccepted, isSoftProblem, others);
          } else {
            HandleServiceResult(o, now, isActive, isAccepted, isDiscarded, isSoftProblem, others);
          }
        }
      case Orphaned(o, now) =>
        if o in objects { RescheduleOrphan(o, now); }
    }

    /** Any run: one pending check event per object at most, and no object with a check
        interval ever without a check pending or under way, host or service, unless a step
        of the run loses it; only a discarded result for a service can. */
    method Run(ops: seq<Op>) returns (ghost lost: set<Checkable>)
      requires Valid()
      modifies this, objects
      ensures Valid() && old(Alive()) - lost <= Alive()
      ensures forall x :: x in lost ==> x.checkInterval != 0 && exists i :: 0 <= i < |ops| && Discards(ops[i], x)
      ensures (forall i, x :: 0 <= i < |ops| && x in objects ==> !Discards(ops[i], x)) ==> old(Alive()) <= Alive()
    {
      lost := {};
      for i := 0 to |ops|
        invariant Valid() && lost <= objects && old(Alive()) - lost <= Alive()
        invariant forall x :: x in lost ==> x.checkInterval != 0 && exists j :: 0 <= j < i && Discards(ops[j], x)
      {
        ghost var now := set x | x in objects && Loses(ops[i], x);
        Step(ops[i]);
        lost := lost + now;
      }
    }
  }

  datatype Op =
    | Due(e: nat, now: int, w: World)
    | Request(o: Checkable, now: int, delay: int, options: Options)
    | Result(o: Checkable, now: int, isActive: bool, isAccepted: bool, isDiscarded: bool,
             isSoftProblem: bool, others: seq<Checkable>)
    | Orphaned(o: Checkable, now: int)

  /** An active result is discarded for a service. */
  ghost predicate Discards(op: Op, x: Checkable) {
    op.Result? && op.o == x && !x.isHost && op.isActive && op.isDiscarded
  }

  /** The queue holds one check event for an object exactly when the object points to one. */
  lemma OnePendingCheck(sch: Scheduler, o: Checkable)
    requires sch.Valid() && o in sch.objects
    ensures o.nextCheckEvent.Some? <==> exists e :: e in sch.pending && sch.pending[e] == o
    ensures forall e, f :: e in sch.pending && f in sch.pending && sch.pending[e] == o && sch.pending[f] == o ==> e == f
  {
    if o.nextCheckEvent.Some? {
      assert sch.pending[o.nextCheckEvent.value] == o;
    }
  }

  /** How a service that recurs ends up with nothing pending and nothing under way: its next
      check falls due and is skipped while a freshness check runs, whose result is discarded. */
  method LoseService(now: int) returns (sch: Scheduler, s: Checkable)
    ensures sch.Valid() && s in sch.objects && !s.isHost && s.checkInterval != 0 && !s.IsAlive()
  {
    s := new Checkable(false, 300, 60);
    sch := new Scheduler({s});
    sch.ScheduleNextCheck(s, now, 0, NO_OPTIONS.(force := true, freshness := true));
    var idle := World(true, false, false, true, true, 0, false, false, false, true, true);
    var _ := sch.HandleServiceCheckEvent(s.nextCheckEvent.value, s, now, idle);
    assert s.nextCheckEvent.Some?;
    var recent := idle.(isRecent := true);
    var _ := sch.HandleServiceCheckEvent(s.nextCheckEvent.value, s, now + 300, recent);
    sch.HandleServiceResult(s, now + 301, true, true, true, false, []);
  }
}
