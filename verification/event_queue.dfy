/** The timed event queue: an array heap whose entries know their own place,
    in an array that grows and shrinks with hysteresis. */
module EventQueue {
  import opened Basics
  import opened HeapOrder

  class TimedEvent {
    const time: Timespec
    const userData: int
    var pos: nat

    constructor (time: Timespec, userData: int)
      ensures this.time == time && this.userData == userData
    {
      this.time, this.userData, pos := time, userData, 0;
    }
  }

  ghost predicate IsPowerOfTwo(n: nat) {
    n == 1 || (n > 1 && n % 2 == 0 && IsPowerOfTwo(n / 2))
  }

  /** The two loops of the resize. */
  ghost function Grown(size: nat, want: nat): (r: nat)
    requires IsPowerOfTwo(size)
    ensures IsPowerOfTwo(r) && r >= want && r >= size && (r > size ==> r < 2 * want)
    decreases want - size
  {
    if size < want then Grown(2 * size, want) else size
  }

  ghost function Shrunk(size: nat, want: nat): (r: nat)
    requires IsPowerOfTwo(size) && want >= 1
    ensures IsPowerOfTwo(r) && r < 3 * want && r <= size && (r < size ==> 2 * r >= 3 * want)
  {
    if size >= 3 * want then Shrunk(size / 2, want) else size
  }

  /** What the next reallocation has been prepaid, in half slots. */
  function Potential(count: nat, size: nat): nat {
    Max(NotNegative(6 * count - 4 * size), NotNegative(3 * size - 6 * count - 3))
  }

  /** A number, or zero if that is more. */
  function NotNegative(a: int): nat {
    if a > 0 then a else 0
  }

  /** An addition or removal moves the size by at most one factor of two, and
      what it copies has been paid for by the operations before it. */
  lemma ResizeIsPaid(was: nat, now: nat, room: nat)
    requires IsPowerOfTwo(room) && was <= room < 3 * Max(1, was)
    requires now == was + 1 || now + 1 == was
    ensures var r := Shrunk(Grown(room, Max(1, now)), Max(1, now));
      && r == (if now > room then 2 * room else if room >= 3 * Max(1, now) then room / 2 else room)
      && now <= r < 3 * Max(1, now)
      && 2 * CopyCost(room, r) + Potential(now, r) <= Potential(was, room) + 9
  {
    var want := Max(1, now);
    if now > room {
      GrownOnce(room, want);
    } else if room >= 3 * want {
      ShrunkOnce(room, want);
    } else {
      assert Grown(room, want) == room && Shrunk(room, want) == room;
    }
    Paid(was, now, room, if now > room then 2 * room else if room >= 3 * want then room / 2 else room);
  }

  /** The potential argument for one operation. */
  lemma Paid(was: nat, now: nat, room: nat, r: nat)
    requires 1 <= room && was <= room < 3 * Max(1, was) && (now == was + 1 || now + 1 == was)
    requires r == if now > room then 2 * room else if room >= 3 * Max(1, now) then room / 2 else room
    requires r < room ==> room % 2 == 0
    ensures now <= r < 3 * Max(1, now)
    ensures 2 * CopyCost(room, r) + Potential(now, r) <= Potential(was, room) + 9
  {
  }

  lemma GrownOnce(room: nat, want: nat)
    requires IsPowerOfTwo(room) && want == room + 1
    ensures Shrunk(Grown(room, want), want) == 2 * room
  {
    hide IsPowerOfTwo;
    Doubled(room);
    GrownStep(room, want);
    GrownStep(2 * room, want);
    ShrunkStep(2 * room, want);
  }

  lemma Doubled(n: nat)
    requires IsPowerOfTwo(n)
    ensures n >= 1 && IsPowerOfTwo(2 * n)
  {
    assert 2 * n / 2 == n;
  }

  lemma GrownStep(size: nat, want: nat)
    requires IsPowerOfTwo(size) && IsPowerOfTwo(2 * size)
    ensures Grown(size, want) == if size < want then Grown(2 * size, want) else size
  {
  }

  lemma ShrunkStep(size: nat, want: nat)
    requires IsPowerOfTwo(size) && want >= 1 && size < 3 * want
    ensures Shrunk(size, want) == size
  {
  }

  lemma ShrunkOnce(room: nat, want: nat)
    requires IsPowerOfTwo(room) && 3 * want <= room < 6 * want && want >= 1
    ensures Shrunk(Grown(room, want), want) == room / 2 && room % 2 == 0
  {
    assert Shrunk(room / 2, want) == room / 2;
  }

  function CopyCost(room: nat, r: nat): nat {
    if r == room then 0 else if r < room then r else room
  }

  class Queue {
    var queue: array<TimedEvent?>
    var count: nat
    var size: nat
    const strictGuard: bool    // the guard of the removal as its comment has it, not as its code has it
    ghost var pending: set<TimedEvent>
    ghost var times: seq<Timespec>    // the times of the pending events, slot by slot

    ghost var ops: nat                // additions and removals so far
    ghost var copied: nat             // slots copied by reallocation so far

    ghost predicate Valid()
      reads this, queue, pending
    {
      && Linked() && |times| == count && Ordered(times)
      && size == queue.Length && IsPowerOfTwo(size) && count <= size < 3 * Max(1, count)
      && 2 * copied + Potential(count, size) <= 9 * ops
    }

    constructor (strictGuard: bool)
      ensures Valid() && pending == {} && count == 0 && ops == 0 && this.strictGuard == strictGuard && fresh(queue)
    {
      this.strictGuard := strictGuard;
      size, count := 1, 0;
      queue := new TimedEvent?[1](_ => null);
      pending, times, ops, copied := {}, [], 0, 0;
    }

    /** The first slots hold the pending events, each in the slot it names. */
    ghost predicate Linked()
      reads this`queue, this`pending, this`times, queue, pending
    {
      && |times| <= queue.Length
      && (forall i :: 0 <= i < |times| ==> queue[i] != null && queue[i] in pending)
      && (forall i :: 0 <= i < |times| ==> queue[i].pos == i && queue[i].time == times[i])
      && (forall e :: e in pending ==> e.pos < |times| && queue[e.pos] == e)
    }

    /** Exchanges two slots unless the upper event is strictly earlier.  Equal
        times are exchanged too. */
    method CondSwap(low: nat, high: nat) returns (swapped: bool)
      requires Linked() && low < |times| && high < |times| && low != high
      modifies queue, pending, this`times
      ensures Linked()
      ensures swapped <==> !(Compare(old(times)[low], old(times)[high]) < 0)
      ensures times == if swapped then Exchange(old(times), low, high) else old(times)
      ensures if swapped then queue[low] == old(queue[high]) && queue[high] == old(queue[low])
              else queue[low] == old(queue[low]) && queue[high] == old(queue[high])
      ensures forall i :: 0 <= i < queue.Length && i != low && i != high ==> queue[i] == old(queue[i])
    {
      var evLow, evHigh := queue[high], queue[low];
      if Compare(evHigh.time, evLow.time) < 0 {
        return false;
      }
      queue[low] := evLow;
      queue[high] := evHigh;
      evLow.pos := low;
      evHigh.pos := high;
      times := Exchange(times, low, high);
      return true;
    }

    /** One round of the way up. */
    method BubbleStep(idx: nat) returns (swapped: bool)
      requires Linked() && 0 < idx < |times| && OrderedExceptAbove(times, idx)
      modifies queue, pending, this`times
      ensures Linked() && |times| == |old(times)|
      ensures swapped <==> Compare(old(times)[Parent(idx)], old(times)[idx]) >= 0
      ensures if swapped then OrderedExceptAbove(times, Parent(idx)) else Ordered(times)
      ensures queue[idx] == if swapped then old(queue[Parent(idx)]) else old(queue[idx])
      ensures forall i :: 0 <= i < queue.Length && i != idx && i != Parent(idx) ==> queue[i] == old(queue[i])
    {
      hide OrderedExceptAbove, Ordered;
      ghost var ts := times;
      swapped := CondSwap(Parent(idx), idx);
      if swapped {
        StepUp(ts, idx);
      } else {
        NothingAmiss(ts, idx);
      }
    }

    lemma HasRoom()
      requires Linked()
      ensures |times| <= queue.Length && forall i :: 0 <= i < |times| ==> queue[i] != null
    {
    }

    method BubbleUp(start: nat)
      requires Linked() && start < |times| && OrderedExceptAbove(times, start)
      modifies queue, pending, this`times
      ensures Linked() && Ordered(times) && |times| == |old(times)|
      ensures queue[start] ==
        if start > 0 && Compare(old(times)[Parent(start)], old(times)[start]) >= 0
        then old(queue[Parent(start)]) else old(queue[start])
      ensures forall i :: start < i < queue.Length ==> queue[i] == old(queue[i])
    {
      hide OrderedExceptAbove, Ordered, Compare, InOrder, Leq, Queue.Linked;
      HasRoom();
      var idx := start;
      while idx > 0
        invariant 0 <= idx <= start && Linked() && OrderedExceptAbove(times, idx) && |times| == |old(times)|
        invariant idx == start ==> times == old(times) && queue[..] == old(queue[..])
        invariant idx < start ==> Compare(old(times)[Parent(start)], old(times)[start]) >= 0
        invariant idx < start ==> idx <= Parent(start) && queue[start] == old(queue[Parent(start)])
        invariant forall i :: start < i < queue.Length ==> queue[i] == old(queue[i])
      {
        var parent := Parent(idx);
        var swapped := BubbleStep(idx);
        if !swapped {
          return;
        }
        idx := parent;
      }
      NothingAmiss(times, 0);
    }

    /** One round of the way down. */
    method SinkStep(idx: nat, ghost start: nat) returns (child: nat, swapped: bool)
      requires Linked() && |times| == count && Sinking(times, start, idx) && 2 * idx + 1 < count
      modifies queue, pending, this`times
      ensures Linked() && |times| == count && idx < child < count
      ensures if swapped then Sinking(times, start, child) else OrderedExceptAbove(times, start)
    {
      hide Sinking, OrderedExceptAbove;
      child := 2 * idx + 1;
      if child + 1 < count {
        if Compare(queue[child].time, queue[child + 1].time) > 0 {
          child := child + 1;
        }
      }
      assert IsSmallerChild(times, idx, child);
      ghost var ts := times;
      swapped := CondSwap(idx, child);
      if swapped {
        SinkOn(ts, start, idx, child);
      } else {
        SinkDone(ts, start, idx, child);
      }
    }

    method BubbleDown(start: nat)
      requires Linked()
      requires if start < count then |times| == count && OrderedExceptAt(times, start) else OrderedExceptAbove(times, start)
      modifies queue, pending, this`times
      ensures Linked() && |times| == |old(times)| && OrderedExceptAbove(times, start)
      ensures start >= count ==> times == old(times) && queue[..] == old(queue[..])
    {
      var idx := start;
      assert start < count ==> Sinking(times, start, idx);
      hide Sinking, OrderedExceptAbove, Queue.Linked;
      while 2 * idx + 1 < count
        invariant Linked() && |times| == |old(times)| && (start < count ==> |times| == count && Sinking(times, start, idx))
        invariant start >= count ==> idx == start && times == old(times) && queue[..] == old(queue[..])
        decreases count - idx
      {
        var child, swapped := SinkStep(idx, start);
        if !swapped {
          return;
        }
        idx := child;
      }
      if start < count {
        SinkDone(times, start, idx, 0);
      }
    }

    /** Makes room for a number of slots, or gives room back. */
    method SetSize(wanted: nat)
      requires Linked() && size == queue.Length && IsPowerOfTwo(size) && |times| <= wanted + 1
      modifies this`queue, this`size, this`copied
      ensures Linked() && (queue == old(queue) || fresh(queue))
      ensures size == queue.Length == Shrunk(Grown(old(size), Max(1, wanted)), Max(1, wanted))
      ensures forall i :: 0 <= i < |times| ==> queue[i] == old(queue[i])
      ensures count < |times| ==> Yielding() == old(Yielding())
      ensures copied == old(copied) + CopyCost(old(size), size)
    {
      hide Grown, Shrunk, IsPowerOfTwo, Queue.Yielding;
      var newSize: nat := if wanted < 1 then 1 else wanted;
      var s := Fit(newSize);
      if s != size {
        Reallocate(s);
      }
    }

    /** The size the two loops come to. */
    method Fit(newSize: nat) returns (s: nat)
      requires IsPowerOfTwo(size) && newSize >= 1
      ensures IsPowerOfTwo(s) && s == Shrunk(Grown(size, newSize), newSize)
      ensures s < size ==> 2 * s >= 3 * newSize
    {
      s := size;
      while s < newSize
        invariant IsPowerOfTwo(s) && Grown(s, newSize) == Grown(size, newSize)
        decreases newSize - s
      {
        s := s * 2;
      }
      while s >= newSize * 3
        invariant IsPowerOfTwo(s) && Shrunk(s, newSize) == Shrunk(Grown(size, newSize), newSize)
        decreases s
      {
        s := s / 2;
      }
    }

    method Reallocate(s: nat)
      requires Linked() && |times| <= s && size == queue.Length
      modifies this`queue, this`size, this`copied
      ensures Linked() && size == queue.Length == s && fresh(queue)
      ensures forall i :: 0 <= i < |times| ==> queue[i] == old(queue[i])
      ensures count < |times| ==> Yielding() == old(Yielding())
      ensures copied == old(copied) + if s < old(size) then s else old(size)
    {
      var was := queue;
      copied := copied + if s < size then s else size;
      size := s;
      queue := new TimedEvent?[s](i requires 0 <= i reads was => if i < was.Length then was[i] else null);
    }

    function Head(): (ev: TimedEvent?)
      requires Valid()
      reads this, queue, pending
      ensures ev == null <==> pending == {}
      ensures ev != null ==> ev in pending && forall e :: e in pending ==> Leq(ev.time, e.time)
    {
      if count == 0 then null else
        (forall e | e in pending ensures Leq(queue[0].time, e.time) { HeadIsMinimum(times, e.pos); } queue[0])
    }

    method Add(ev: TimedEvent)
      requires Valid() && ev !in pending
      modifies this, queue, pending, ev
      ensures Valid() && pending == old(pending) + {ev} && count == old(count) + 1 && ops == old(ops) + 1
      ensures queue == old(queue) || fresh(queue)
    {
      hide Queue.Linked, Ordered, OrderedExceptAbove, OrderedExceptAt, Grown, Shrunk, IsPowerOfTwo, Potential, CopyCost,
           Queue.Yielding, Compare;
      ResizeIsPaid(count, count + 1, size);
      SetSize(count + 1);
      Place(ev);
      ops := ops + 1;
      BubbleUp(ev.pos);
    }

    /** Puts an event into the first free slot. */
    method Place(ev: TimedEvent)
      requires Linked() && |times| == count < queue.Length && Ordered(times) && ev !in pending
      modifies this`count, this`pending, this`times, queue, ev
      ensures Linked() && |times| == count == old(count) + 1 && pending == old(pending) + {ev}
      ensures ev.pos == old(count) && OrderedExceptAbove(times, ev.pos)
    {
      ev.pos := count;
      queue[ev.pos] := ev;
      count := count + 1;
      LastMayBeTooSmall(times, ev.time);
      hide OrderedExceptAbove, Ordered;
      pending, times := pending + {ev}, times + [ev.time];
    }

    lemma LastMayBeTooSmall(ts: seq<Timespec>, t: Timespec)
      requires Ordered(ts)
      ensures OrderedExceptAbove(ts + [t], |ts|)
    {
      forall i | 0 < i < |ts| ensures InOrder(ts + [t], i) {
        assert InOrder(ts, i);
      }
    }

    /** The event that really leaves the queue when one is removed.  With the
        guard as coded, an event in the last slot whose parent has the very same
        time changes places with it first, and the parent is lost instead. */
    ghost function Leaving(ev: TimedEvent): TimedEvent
      requires Valid() && ev in pending
      reads this, queue, pending
    {
      if TiedLast(ev) then queue[Parent(ev.pos)] else ev
    }

    lemma InSlot(i: nat)
      requires Valid() && i < count
      ensures i < queue.Length && queue[i] != null && queue[i] in pending
    {
    }

    /** A condition a caller could check before the call. */
    predicate TiedLast(ev: TimedEvent)
      requires Valid() && ev in pending
      reads this, queue, pending
    {
      !strictGuard && 0 < ev.pos && ev.pos + 1 == count && Compare(queue[Parent(ev.pos)].time, ev.time) >= 0
    }

    /** Removes an event from whatever slot it is in.  The one asked for is gone
        afterwards exactly when it was not last and tied with its parent. */
    method Remove(ev: TimedEvent)
      requires Valid() && ev in pending
      modifies this, queue, pending
      ensures Valid() && pending == old(pending) - {old(Leaving(ev))} && count == old(count) - 1 && ops == old(ops) + 1
      ensures ev !in pending <==> !old(TiedLast(ev))
      ensures queue == old(queue) || fresh(queue)
    {
      RightEventLeaves(ev);
      hide Ordered, OrderedExceptAbove, OrderedExceptAt, IsPowerOfTwo, Potential;
      TakeOut(ev);
      Settle(ev);
    }

    lemma HasSlot(ev: TimedEvent)
      requires Valid() && ev in pending
      ensures ev.pos < count
    {
    }

    /** The removal up to the point where the heap is put in order again. */
    method TakeOut(ev: TimedEvent)
      requires Valid() && ev in pending
      modifies this, queue, pending
      ensures Linked() && (queue == old(queue) || fresh(queue)) && ev.pos == old(ev.pos) <= count
      ensures count == old(count) - 1 && ops == old(ops) + 1
      ensures size == queue.Length && IsPowerOfTwo(size) && count <= size < 3 * Max(1, count)
      ensures 2 * copied + Potential(count, size) <= 9 * ops
      ensures ev.pos == count ==> |times| == count + 1 && queue[count] == ev && Ordered(times)
      ensures ev.pos == count ==> pending == old(pending) && Yielding() == old(Leaving(ev))
      ensures ev.pos < count ==> pending == old(pending) - {ev} && |times| == count && OrderedExceptAt(times, ev.pos)
      ensures ev.pos < count ==> old(Leaving(ev)) == ev
    {
      hide Queue.Linked, Ordered, OrderedExceptAbove, OrderedExceptAt, Grown, Shrunk, IsPowerOfTwo, Potential, CopyCost,
           Queue.TiedLast, Queue.Leaving, Queue.Yielding;
      HasSlot(ev);
      ResizeIsPaid(count, count - 1, size);
      Vacate(ev);
      SetSize(count);
      ops := ops + 1;
    }

    /** The event in the slot behind the last one would change places with its parent. */
    ghost predicate ParentYields()
      requires Linked() && count < |times|
      reads this`queue, this`count, this`times, this`pending, queue, pending
    {
      !strictGuard && count > 0 && Compare(times[Parent(count)], times[count]) >= 0
    }

    ghost function Yielding(): (ev: TimedEvent)
      requires Linked() && count < |times|
      reads this`queue, this`count, this`times, this`pending, queue, pending
    {
      if ParentYields() then queue[Parent(count)] else queue[count]
    }

    /** The bubbling after a removal, behind its guard.  The ghost view then
        forgets the slot behind the last one. */
    method Settle(ev: TimedEvent)
      requires Linked() && ev.pos <= count
      requires if ev.pos < count then ev !in pending && |times| == count && OrderedExceptAt(times, ev.pos)
               else |times| == count + 1 && queue[count] == ev && Ordered(times)
      modifies queue, pending, this`times, this`pending
      ensures Linked() && |times| == count && Ordered(times)
      ensures pending == if old(ev.pos < count) then old(pending) else old(pending) - {old(Yielding())}
    {
      hide OrderedExceptAt, Ordered;
      Rebalance(ev.pos);
      if |times| > count {
        PrefixOrdered(times, count);
        pending, times := pending - {queue[count]}, times[..count];
      }
    }

    method Rebalance(pos: nat)
      requires Linked() && pos <= count
      requires if pos < count then |times| == count && OrderedExceptAt(times, pos)
               else |times| == count + 1 && Ordered(times)
      modifies queue, pending, this`times
      ensures Linked() && Ordered(times) && |times| == |old(times)|
      ensures pos == count ==> queue[count] == old(Yielding())
    {
      hide OrderedExceptAt, OrderedExceptAbove, Ordered;
      if pos == count { OrderedFits(times, count); }
      if if strictGuard then pos < count else pos <= count {
        BubbleDown(pos);
        BubbleUp(pos);
      }
    }

    lemma PrefixOrdered(ts: seq<Timespec>, n: nat)
      requires Ordered(ts) && n <= |ts|
      ensures Ordered(ts[..n])
    {
      forall i | 0 < i < n ensures InOrder(ts[..n], i) {
        assert InOrder(ts, i);
      }
    }

    /** The last event takes the place of the removed one.  When they are the
        same nothing has moved yet, and the slot is still counted in the ghost view. */
    method Vacate(ev: TimedEvent)
      requires Valid() && ev in pending
      modifies this`count, this`pending, this`times, queue, pending
      ensures Linked() && count == old(count) - 1 && ev.pos == old(ev.pos) <= count
      ensures ev.pos == count ==> |times| == count + 1 && queue[count] == ev && Ordered(times)
      ensures ev.pos == count ==> pending == old(pending) && Yielding() == old(Leaving(ev))
      ensures ev.pos < count ==> pending == old(pending) - {ev} && |times| == count && OrderedExceptAt(times, ev.pos)
      ensures ev.pos < count ==> old(Leaving(ev)) == ev
    {
      hide OrderedExceptAt, Ordered, IsPowerOfTwo, Potential;
      ghost var ts := times;
      queue[ev.pos] := queue[count - 1];
      queue[ev.pos].pos := ev.pos;
      count := count - 1;
      if ev.pos != count {
        PlugHole(ts, ev.pos);
        pending, times := pending - {ev}, times[..count][ev.pos := times[count]];
      }
    }

    lemma PlugHole(ts: seq<Timespec>, k: nat)
      requires Ordered(ts) && k + 1 < |ts|
      ensures OrderedExceptAt(ts[..|ts| - 1][k := ts[|ts| - 1]], k)
    {
      var us := ts[..|ts| - 1][k := ts[|ts| - 1]];
      forall i | 0 < i < |us| && i != k && Parent(i) != k ensures InOrder(us, i) {
        assert InOrder(ts, i);
      }
      forall i | 0 < i < |us| && Parent(i) == k && k > 0 ensures Leq(us[Parent(k)], us[i]) {
        assert InOrder(ts, i) && InOrder(ts, k);
      }
    }

    /** Removal takes out the event it was asked to take out, unless it is tied and last. */
    lemma RightEventLeaves(ev: TimedEvent)
      requires Valid() && ev in pending
      ensures Leaving(ev) == ev <==> !TiedLast(ev)
      ensures TiedLast(ev) <==>
                !strictGuard && 0 < ev.pos == count - 1 && queue[(ev.pos - 1) / 2].time == ev.time
      ensures TiedLast(ev) ==> Leaving(ev) == queue[(ev.pos - 1) / 2]
    {
      if 0 < ev.pos { assert InOrder(times, ev.pos); }
    }
  }

  /** The case the coded guard gets wrong: of two events with the same time the
      one in the last slot is removed, and it is the other one that is gone. */
  method TiedLastExample() returns (q: Queue, removed: TimedEvent, other: TimedEvent)
    ensures q.Valid() && removed != other && removed.time == other.time
    ensures removed in q.pending && other !in q.pending
  {
    hide Ordered, IsPowerOfTwo, Potential;
    q := new Queue(false);
    var a := new TimedEvent(Timespec(5, 0), 1);
    var b := new TimedEvent(Timespec(5, 0), 2);
    q.Add(a);
    q.Add(b);
    assert q.pending == {a, b};
    removed, other := q.queue[1], q.queue[0];
    assert q.TiedLast(removed) && q.Leaving(removed) == other;
    q.Remove(removed);
  }
}
