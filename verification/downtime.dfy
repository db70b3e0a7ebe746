/** Scheduled downtime: starting, stopping, cancelling and expiring entries that may
    trigger each other, and the count of downtimes in effect on every object. */
module Downtime {
  import opened Basics
  import opened DowntimeBook
  import DowntimeIds
  import opened DowntimeOrder
  import opened Triggers

  /** `done` holds the root and the trees of its children among the first i listed entries. */
  ghost predicate StartedUpTo(t: Links, rank: map<nat, nat>, list: seq<nat>, x: nat, i: nat, done: set<nat>)
    requires Ranked(t, rank) && i <= |list|
  {
    && {x} <= done <= Tree(t, rank, x)
    && (forall j: nat :: j < i && IsChild(t, list[j], x) ==> Tree(t, rank, list[j]) <= done)
    && (forall y :: y in done && y != x ==>
          exists j: nat :: j < i && IsChild(t, list[j], x) && Below(t, rank, y, list[j]))
  }

  lemma StartedNext(t: Links, rank: map<nat, nat>, top: nat, list: seq<nat>, x: nat, i: nat, done: set<nat>)
    requires Shape(list, t, rank, top) && x in t && i < |list| && StartedUpTo(t, rank, list, x, i, done)
    ensures IsChild(t, list[i], x) ==>
              list[i] !in done && StartedUpTo(t, rank, list, x, i + 1, done + Tree(t, rank, list[i]))
    ensures !IsChild(t, list[i], x) ==> StartedUpTo(t, rank, list, x, i + 1, done)
  {
    var c := list[i];
    if IsChild(t, c, x) {
      ChildTree(t, rank, c, x);
      if c in done {
        var j: nat :| j < i && IsChild(t, list[j], x) && Below(t, rank, c, list[j]);
        ChildTreesApart(t, rank, c, list[j], c, x);
        assert false;
      }
      forall y | y in done + Tree(t, rank, c) && y != x
        ensures exists j: nat :: j < i + 1 && IsChild(t, list[j], x) && Below(t, rank, y, list[j])
      {
        if y !in done {
          assert Below(t, rank, y, list[i]);
        } else {
          var j: nat :| j < i && IsChild(t, list[j], x) && Below(t, rank, y, list[j]);
        }
      }
    } else {
      forall y | y in done && y != x
        ensures exists j: nat :: j < i + 1 && IsChild(t, list[j], x) && Below(t, rank, y, list[j])
      {
        var j: nat :| j < i && IsChild(t, list[j], x) && Below(t, rank, y, list[j]);
      }
    }
  }

  lemma StartedAll(t: Links, rank: map<nat, nat>, top: nat, list: seq<nat>, x: nat, done: set<nat>)
    requires Shape(list, t, rank, top) && x in t && StartedUpTo(t, rank, list, x, |list|, done)
    ensures done == Tree(t, rank, x)
  {
    forall y | y in Tree(t, rank, x) ensures y in done {
      if y != x {
        InTreeOfChild(t, rank, y, x);
        var c :| IsChild(t, c, x) && Below(t, rank, y, c);
        assert c in list;
      }
    }
  }

  lemma StartedMore(ix: Index, done: set<nat>, c: nat, s: set<nat>, flex: int)
    requires c in ix && c in s
    ensures var jx := Started(ix, done, flex);
            Started(jx[c := jx[c].(flexDowntimeStart := flex)], s, flex) == Started(ix, done + s, flex)
  {
  }

  /** Where the loop that starts the triggered entries has come to. */
  ghost predicate Starting(ix0: Index, rank: map<nat, nat>, list: seq<nat>, x: nat, i: nat, done: set<nat>, ix: Index)
    requires Ranked(LinksOf(ix0), rank) && i <= |list|
  {
    && x in ix0
    && ix == Started(ix0, done, ix0[x].flexDowntimeStart)
    && StartedUpTo(LinksOf(ix0), rank, list, x, i, done)
  }

  lemma StartingBegins(ix: Index, rank: map<nat, nat>, list: seq<nat>, x: nat)
    requires Ranked(LinksOf(ix), rank) && x in ix
    ensures Starting(ix, rank, list, x, 0, {x}, ix[x := ix[x].(isInEffect := true)])
    ensures Idle(ix[x := ix[x].(isInEffect := true)]) == Idle(ix) - {x}
  {
    assert Below(LinksOf(ix), rank, x, x);
  }

  /** The next triggered entry, if it was idle, still is, and its trigger is in effect. */
  lemma StartingNext(ix0: Index, rank: map<nat, nat>, top: nat, list: seq<nat>, x: nat, i: nat, done: set<nat>, ix: Index)
    requires Shape(list, LinksOf(ix0), rank, top) && i < |list| && Starting(ix0, rank, list, x, i, done, ix)
    ensures x in ix && list[i] in ix && ix.Keys == ix0.Keys && LinksOf(ix) == LinksOf(ix0)
    ensures ix[list[i]].triggeredBy == ix0[list[i]].triggeredBy
    ensures ix[list[i]].triggeredBy != x ==> Starting(ix0, rank, list, x, i + 1, done, ix)
    ensures ix[list[i]].triggeredBy == x ==>
              var c, flex := list[i], ix[x].flexDowntimeStart;
              var jx, s := ix[c := ix[c].(flexDowntimeStart := flex)], Tree(LinksOf(ix0), rank, c);
              && ix[c] == ix0[c] && IsChild(LinksOf(ix0), c, x) && c != x && jx[x].isInEffect && LinksOf(jx) == LinksOf(ix0)
              && Starting(ix0, rank, list, x, i + 1, done + s, Started(jx, s, flex))
              && (!ix0[x].isInEffect ==> Idle(jx) < Idle(ix0))
  {
    hide StartedUpTo;
    StartedNext(LinksOf(ix0), rank, top, list, x, i, done);
    var c := list[i];
    assert IsChild(LinksOf(ix0), c, x) <==> ix[c].triggeredBy == x;
    assert x in done && c in ix0 by {
      StartedHolds(LinksOf(ix0), rank, list, x, i, done);
    }
    if ix[c].triggeredBy == x {
      assert Below(LinksOf(ix0), rank, c, x);
      assert c in Tree(LinksOf(ix0), rank, c);
      StartedMore(ix0, done, c, Tree(LinksOf(ix0), rank, c), ix0[x].flexDowntimeStart);
      var jx := ix[c := ix[c].(flexDowntimeStart := ix[x].flexDowntimeStart)];
      assert !ix0[x].isInEffect ==> x in Idle(ix0);
      assert x !in Idle(jx);
      assert forall y :: y in Idle(jx) ==> y in Idle(ix0);
    }
  }

  lemma StartedLeaves(ix0: Index, rank: map<nat, nat>, top: nat, list: seq<nat>, x: nat, i: nat, done: set<nat>, ix: Index,
                      c: nat, flex: int)
    requires Ranked(LinksOf(ix0), rank) && i <= |list| && Starting(ix0, rank, list, x, i, done, ix)
    requires IsChild(LinksOf(ix0), c, x) && c in ix
    ensures var jx := ix[c := ix[c].(flexDowntimeStart := flex)] - Tree(LinksOf(ix0), rank, c);
            forall y :: y in jx ==>
              y in ix0 && (jx[y] == ix0[y] || jx[y] == Started(ix0, Tree(LinksOf(ix0), rank, x), ix0[x].flexDowntimeStart)[y])
  {
    hide Below;
    RootInTree(LinksOf(ix0), rank, c);
  }

  /** What an idle entry triggers is idle, and apart from what is being stopped. */
  lemma IdleChild(ix: Index, rank: map<nat, nat>, closing: set<nat>, c: nat, x: nat)
    requires WellTriggered(ix, closing) && Ranked(LinksOf(ix), rank) && x in ix && IsChild(LinksOf(ix), c, x)
    requires closing !! Tree(LinksOf(ix), rank, x)
    ensures !ix[x].isInEffect ==> !ix[c].isInEffect
    ensures c !in closing && closing !! Tree(LinksOf(ix), rank, c)
  {
    ChildTree(LinksOf(ix), rank, c, x);
    IdleTree(ix, rank, closing, c, x);
  }

  lemma StartedHolds(t: Links, rank: map<nat, nat>, list: seq<nat>, x: nat, i: nat, done: set<nat>)
    requires Ranked(t, rank) && i < |list| && StartedUpTo(t, rank, list, x, i, done)
    ensures x in done
  {
  }

  lemma StartingEnds(ix0: Index, rank: map<nat, nat>, top: nat, list: seq<nat>, x: nat, done: set<nat>, ix: Index)
    requires Shape(list, LinksOf(ix0), rank, top) && Starting(ix0, rank, list, x, |list|, done, ix)
    ensures ix == Started(ix0, Tree(LinksOf(ix0), rank, x), ix0[x].flexDowntimeStart)
  {
    StartedAll(LinksOf(ix0), rank, top, list, x, done);
  }

  /** Where the loop that deals with everything triggered by x has come to: only parts of
      the tree of x are gone, and nothing else has changed.  `held` is not touched yet. */
  ghost predicate Dwindling(ix0: Index, rank: map<nat, nat>, list0: seq<nat>, x: nat, held: set<nat>,
                            ix: Index, list: seq<nat>)
    requires Ranked(LinksOf(ix0), rank)
  {
    var tree := Tree(LinksOf(ix0), rank, x);
    && Kept(LinksOf(ix0), LinksOf(ix), x)
    && ix0.Keys - ix.Keys <= tree - held
    && (forall y :: y in ix0 && (y in held || y !in tree) ==> y in ix && ix[y] == ix0[y])
    && list == Without(list0, ix0.Keys - ix.Keys)
  }

  /** A stop leaves the root for last. */
  lemma DwindlingBegins(ix: Index, rank: map<nat, nat>, list: seq<nat>, x: nat)
    requires Ranked(LinksOf(ix), rank)
    ensures Dwindling(ix, rank, list, x, {x}, ix, list)
  {
    WithoutNothing(list, {});
    assert ix.Keys - ix.Keys == {};
  }

  /** What is left of a tree is as far apart from other entries as all of it was. */
  lemma DwindlingApart(ix0: Index, rank: map<nat, nat>, list0: seq<nat>, x: nat, held: set<nat>,
                       ix: Index, list: seq<nat>, closing: set<nat>)
    requires Ranked(LinksOf(ix0), rank) && Ranked(LinksOf(ix), rank) && Dwindling(ix0, rank, list0, x, held, ix, list)
    requires closing !! Tree(LinksOf(ix0), rank, x)
    ensures closing !! Tree(LinksOf(ix), rank, x)
  {
    forall y | y in Tree(LinksOf(ix), rank, x) ensures y in Tree(LinksOf(ix0), rank, x) {
      BelowInWhole(LinksOf(ix0), LinksOf(ix), rank, y, x);
    }
  }

  /** A cancellation takes the root first. */
  lemma DwindlingByRoot(ix: Index, rank: map<nat, nat>, list: seq<nat>, x: nat)
    requires Ranked(LinksOf(ix), rank) && x in ix
    ensures Dwindling(ix, rank, list, x, {}, ix - {x}, Without(list, {x}))
  {
    RootInTree(LinksOf(ix), rank, x);
    assert ix.Keys - (ix - {x}).Keys == {x};
  }

  lemma DwindlingByStart(ix0: Index, rank: map<nat, nat>, list0: seq<nat>, x: nat, held: set<nat>,
                         ix: Index, list: seq<nat>, c: nat, flex: int)
    requires Ranked(LinksOf(ix0), rank) && Ranked(LinksOf(ix), rank) && x in ix0 && held <= {x}
    requires Dwindling(ix0, rank, list0, x, held, ix, list) && IsChild(LinksOf(ix), c, x)
    ensures Dwindling(ix0, rank, list0, x, held, Started(ix, Tree(LinksOf(ix), rank, c), flex), list)
    ensures !ix[c].isInEffect ==> Idle(Started(ix, Tree(LinksOf(ix), rank, c), flex)) < Idle(ix)
  {
    hide Below;
    KeptWithout(LinksOf(ix0), LinksOf(ix), rank, c, x);
    RootInTree(LinksOf(ix), rank, c);
    assert !ix[c].isInEffect ==> c in Idle(ix);
  }

  lemma DwindlingByStop(ix0: Index, rank: map<nat, nat>, list0: seq<nat>, x: nat, held: set<nat>,
                        ix: Index, list: seq<nat>, c: nat)
    requires Ranked(LinksOf(ix0), rank) && Ranked(LinksOf(ix), rank) && x in ix0 && held <= {x}
    requires Dwindling(ix0, rank, list0, x, held, ix, list) && IsChild(LinksOf(ix), c, x)
    ensures var s := Tree(LinksOf(ix), rank, c);
            && (ix - s).Keys < ix.Keys
            && Dwindling(ix0, rank, list0, x, held, ix - s, Without(list, s))
  {
    hide Below;
    var s := Tree(LinksOf(ix), rank, c);
    KeptWithout(LinksOf(ix0), LinksOf(ix), rank, c, x);
    RootInTree(LinksOf(ix), rank, c);
    assert LinksOf(ix - s) == LinksOf(ix) - s;
    WithoutTwice(list0, ix0.Keys - ix.Keys, s);
    assert ix0.Keys - (ix - s).Keys == (ix0.Keys - ix.Keys) + s;
  }

  /** Either way of dealing with a triggered entry gets the loop further. */
  lemma DwindlingGoesOn(ix0: Index, rank: map<nat, nat>, list0: seq<nat>, x: nat, ix: Index, list: seq<nat>, c: nat)
    requires Ranked(LinksOf(ix0), rank) && Ranked(LinksOf(ix), rank) && x in ix0
    requires Dwindling(ix0, rank, list0, x, {x}, ix, list) && c in ix && IsChild(LinksOf(ix), c, x)
    requires ix.Keys < ix0.Keys || (ix.Keys == ix0.Keys && Idle(ix) <= Idle(ix0))
    ensures x in ix && ix[x] == ix0[x]
    ensures var s := Tree(LinksOf(ix), rank, c);
            if ix[c].isInEffect then
              && Dwindling(ix0, rank, list0, x, {x}, ix - s, Without(list, s))
              && (ix - s).Keys < ix.Keys && (ix - s).Keys < ix0.Keys
            else
              var jx := Started(ix, s, ix[c].flexDowntimeStart);
              && Dwindling(ix0, rank, list0, x, {x}, jx, list)
              && Idle(jx) < Idle(ix) && jx.Keys == ix.Keys
  {
    hide Started, Tree, Idle, LinksOf, Ranked, IsChild, Kept, Without;
    if ix[c].isInEffect {
      DwindlingByStop(ix0, rank, list0, x, {x}, ix, list, c);
    } else {
      DwindlingByStart(ix0, rank, list0, x, {x}, ix, list, c, ix[c].flexDowntimeStart);
    }
  }

  lemma AddedThenRemoved(s: set<nat>, x: nat)
    requires x !in s
    ensures s + {x} - {x} == s
  {
  }

  /** Once nothing is triggered by the root any more, at most the root is left of its tree. */
  lemma DwindlingEnds(ix0: Index, rank: map<nat, nat>, list0: seq<nat>, x: nat, held: set<nat>,
                      ix: Index, list: seq<nat>)
    requires Ranked(LinksOf(ix0), rank) && x in ix0 && Dwindling(ix0, rank, list0, x, held, ix, list)
    requires forall y :: !IsChild(LinksOf(ix), y, x)
    ensures ix - {x} == ix0 - Tree(LinksOf(ix0), rank, x)
    ensures Without(list, {x}) == Without(list0, Tree(LinksOf(ix0), rank, x))
    ensures x in held ==> x in ix
  {
    hide Below;
    var tree := Tree(LinksOf(ix0), rank, x);
    forall y | y in ix && y in tree ensures y == x {
      if y != x { LeftoverHasChild(LinksOf(ix0), LinksOf(ix), rank, y, x); }
    }
    RootInTree(LinksOf(ix0), rank, x);
    WithoutTwice(list0, ix0.Keys - ix.Keys, {x});
    assert (ix0.Keys - ix.Keys) + {x} == tree;
  }

  lemma CancelledAll(ix0: Index, rank: map<nat, nat>, list0: seq<nat>, x: nat, ix: Index, list: seq<nat>)
    requires Ranked(LinksOf(ix0), rank) && x in ix0 && Dwindling(ix0, rank, list0, x, {}, ix, list)
    requires (forall y :: !IsChild(LinksOf(ix), y, x)) && x !in ix && x !in list
    ensures ix == ix0 - Tree(LinksOf(ix0), rank, x) && list == Without(list0, Tree(LinksOf(ix0), rank, x))
  {
    hide Dwindling, Tree, IsChild, LinksOf, Ranked;
    DwindlingEnds(ix0, rank, list0, x, {}, ix, list);
    WithoutNothing(list, {x});
    assert ix - {x} == ix;
  }

  /** What downtime_add is asked to add: the fields of a new entry as they arrive. */
  datatype Request = Request(hostName: Option<string>, description: Option<string>, kind: Kind,
                             startTime: int, flexDowntimeStart: int, endTime: int, isFixed: bool,
                             triggeredBy: nat, duration: nat, id: nat, isInEffect: bool)

  /** DT_EHOST, DT_ETYPE, DT_ETRIGGER, DT_ETIME and DT_ESERVICE. */
  datatype AddError = NoHost | BadType | NoTrigger | BadTime | NoService

  datatype Outcome = Added(id: nat) | Refused(error: AddError)

  /** What is wrong with a request, looked at in this order. */
  function Fault(r: Request, ix: Index, objects: set<Subject>): (e: Option<AddError>)
    ensures e.None? <==>
      && r.hostName.Some? && !r.kind.AnyDowntime? && (r.kind.HostDowntime? <==> r.description.None?)
      && (r.triggeredBy != 0 ==> r.triggeredBy in ix)
      && (r.triggeredBy == 0 ==> r.startTime < r.endTime)
      && (!r.isFixed ==> r.duration != 0)
      && SubjectOf(r) in objects
  {
    if r.hostName.None? then Some(NoHost)
    else if r.kind.HostDowntime? != r.description.None? then Some(BadType)
    else if r.kind.AnyDowntime? then Some(BadType)
    else if r.triggeredBy != 0 && r.triggeredBy !in ix then Some(NoTrigger)
    else if r.triggeredBy == 0 && r.startTime >= r.endTime then Some(BadTime)
    else if !r.isFixed && r.duration == 0 then Some(BadTime)
    else if SubjectOf(r) !in objects then Some(if r.description.None? then NoHost else NoService)
    else None
  }

  function SubjectOf(r: Request): Subject
    requires r.hostName.Some?
  {
    if r.description.None? then Host(r.hostName.value) else Service(r.hostName.value, r.description.value)
  }

  function EntryOf(r: Request): Downtime
    requires r.hostName.Some?
  {
    Downtime(SubjectOf(r), r.startTime, r.flexDowntimeStart, r.endTime, r.isFixed, r.triggeredBy, r.duration, r.isInEffect)
  }

  /** Nothing in a request is lost, changed or mixed up in its entry. */
  lemma EntryFits(r: Request)
    requires r.hostName.Some?
    ensures var d := EntryOf(r);
            && d.subject == SubjectOf(r)
            && d.startTime == r.startTime && d.flexDowntimeStart == r.flexDowntimeStart && d.endTime == r.endTime
            && d.isFixed == r.isFixed && d.duration == r.duration
            && d.triggeredBy == r.triggeredBy && d.isInEffect == r.isInEffect
    ensures r.description.None? ==> SubjectOf(r) == Host(r.hostName.value)
    ensures r.description.Some? ==> SubjectOf(r) == Service(r.hostName.value, r.description.value)
  {
  }

  /** Which error a request is refused with, when it has several faults. */
  lemma FirstFault(r: Request, ix: Index, objects: set<Subject>)
    requires Fault(r, ix, objects).Some?
    ensures var e := Fault(r, ix, objects).value;
            var isMixed := r.kind.AnyDowntime? || !(r.kind.HostDowntime? <==> r.description.None?);
            var isOrphaned := r.triggeredBy != 0 && r.triggeredBy !in ix;
            var isBadlyTimed := (r.triggeredBy == 0 && r.endTime <= r.startTime) || (!r.isFixed && r.duration == 0);
            && (e.BadType? <==> r.hostName.Some? && isMixed)
            && (e.NoTrigger? <==> r.hostName.Some? && !isMixed && isOrphaned)
            && (e.BadTime? <==> r.hostName.Some? && !isMixed && !isOrphaned && isBadlyTimed)
            && (e.NoService? <==> r.hostName.Some? && !isMixed && !isOrphaned && !isBadlyTimed && r.kind.ServiceDowntime?)
            && (e.NoHost? <==>
                  r.hostName.None? || (!isMixed && !isOrphaned && !isBadlyTimed && r.kind.HostDowntime?))
  {
  }

  /** How add_new_downtime passes a request on: by kind, with the id still to come. */
  function Filed(r: Request): Request {
    if r.kind.HostDowntime? then r.(description := None, flexDowntimeStart := 0)
    else r.(kind := ServiceDowntime, flexDowntimeStart := 0)
  }

  ghost function Expired(ix: Index, now: int): set<nat> {
    set i | i in ix && !ix[i].isInEffect && ix[i].endTime <= now
  }

  lemma IsExpired(ix: Index, x: nat, now: int)
    requires x in ix
    ensures x in Expired(ix, now) <==> !ix[x].isInEffect && ix[x].endTime <= now
  {
  }

  /** When nothing that is left has expired, everything that has is gone. */
  lemma AllExpired(list: seq<nat>, ix: Index, gone: set<nat>, now: int)
    requires gone <= Expired(ix, now) && forall x :: x in list <==> x in ix && x !in gone
    requires forall j :: 0 <= j < |list| ==> list[j] !in Expired(ix, now)
    ensures gone == Expired(ix, now)
  {
  }

  lemma LeftUnexpired(ix: Index, now: int)
    ensures forall x :: x in ix ==> (x in ix - Expired(ix, now) <==> ix[x].isInEffect || ix[x].endTime > now)
  {
  }

  datatype Op =
    | AddNew(r: Request) | Reload(r: Request) | StartDue(id: nat) | StopDue(id: nat)
    | Cancel(kind: Kind, id: nat) | Expire(now: int)

  /** A start time that a comparison can cope with. */
  predicate InRange(op: Op) {
    (op.AddNew? || op.Reload?) ==> 0 <= op.r.startTime < INT_LIMIT
  }

  predicate AllInRange(ops: seq<Op>) {
    forall i :: 0 <= i < |ops| ==> InRange(ops[i])
  }

  /** No entry has the id or names it as its trigger. */
  predicate Unused(ix: Index, id: nat) {
    id != 0 && id !in ix && forall y :: y in ix ==> ix[y].triggeredBy != id
  }

  /** What is asked of the entries in a retention file. */
  predicate LoadIsSound(r: Request, ix: Index, depth: map<Subject, nat>, next: nat) {
    && r.hostName.Some? && SubjectOf(r) in depth
    && r.id != next && Unused(ix, r.id)
    && (r.isInEffect ==> Fault(r, ix, depth.Keys).None?)
    && (r.isInEffect && r.triggeredBy in ix ==> ix[r.triggeredBy].isInEffect)
  }

  /** A request that add_new_downtime can pass on. */
  predicate IsNamed(r: Request) {
    r.hostName.Some? && (r.kind.HostDowntime? || r.description.Some?)
  }

  /** All there is to see of a table. */
  datatype Books = Books(list: seq<nat>, index: Index, depth: map<Subject, nat>, next: nat, rank: map<nat, nat>)

  ghost predicate Same(a: Books, b: Books) {
    b.list == a.list && b.index == a.index
  }

  /** One entry more, at its place when sorting is not put off. */
  ghost predicate Enters(a: Books, b: Books, id: nat, d: Downtime, isDeferred: bool) {
    && id !in a.index && b.index == a.index[id := d] && (forall y :: y in a.list ==> y in a.index)
    && (!isDeferred ==> b.list == Inserted(a.list, PlaceIn(a.list, a.index, d), id))
  }

  ghost predicate Loses(a: Books, b: Books, gone: set<nat>) {
    b.index == a.index - gone && b.list == Without(a.list, gone)
  }

  /** What one step does to list and index; the depths follow.  Passed over are new entries that
      are in effect already, loads that are not sound, and just the starts and stops that go wrong. */
  ghost predicate Does(op: Op, a: Books, b: Books, isDeferred: bool) {
    Ranked(LinksOf(a.index), a.rank) &&
    match op
    case AddNew(r) =>
      if r.isInEffect || !IsNamed(r) || Fault(Filed(r), a.index, a.depth.Keys).Some? then Same(a, b)
      else Enters(a, b, a.next, EntryOf(Filed(r)), isDeferred)
    case Reload(r) =>
      if !LoadIsSound(r, a.index, a.depth, a.next) || Fault(r, a.index, a.depth.Keys).Some? then Same(a, b)
      else Enters(a, b, r.id, EntryOf(r), isDeferred)
    case StartDue(id) =>
      if !MayStart(a.index, id) then Same(a, b)
      else
        && b.list == a.list
        && b.index == Started(a.index, Tree(LinksOf(a.index), a.rank, id), a.index[id].flexDowntimeStart)
    case StopDue(id) =>
      if id !in a.index || !MayStop(a.index, a.depth, id) then Same(a, b)
      else Loses(a, b, Tree(LinksOf(a.index), a.rank, id))
    case Cancel(kind, id) =>
      if id !in a.index || !(kind.AnyDowntime? || (kind.HostDowntime? <==> a.index[id].subject.Host?)) then Same(a, b)
      else Loses(a, b, Tree(LinksOf(a.index), a.rank, id))
    case Expire(now) =>
      Loses(a, b, Expired(a.index, now))
  }

  /** The stop handler leaves the depths right. */
  predicate MayStop(ix: Index, depth: map<Subject, nat>, id: nat)
    requires id in ix
  {
    ix[id].isInEffect || (ix[id].subject in depth && depth[ix[id].subject] == 0)
  }

  /** Every id in use, and every id named as a trigger, is behind the counter. */
  ghost predicate BehindCounter(ix: Index, next: nat) {
    DowntimeIds.Behind(ix.Keys, next) && forall y :: y in ix ==> ix[y].triggeredBy < next
  }

  lemma BehindWithout(ix: Index, s: set<nat>, next: nat)
    requires BehindCounter(ix, next)
    ensures BehindCounter(ix - s, next)
  {
  }

  lemma BehindStarted(ix: Index, s: set<nat>, flex: int, next: nat)
    requires BehindCounter(ix, next)
    ensures BehindCounter(Started(ix, s, flex), next)
  {
  }

  /** The depths without what has been counted too often. */
  ghost function Net(depth: map<Subject, nat>, over: multiset<Subject>): (net: map<Subject, nat>)
    ensures net.Keys == depth.Keys
  {
    map o | o in depth :: if over[o] <= depth[o] then depth[o] - over[o] else 0
  }

  ghost predicate Fits(depth: map<Subject, nat>, over: multiset<Subject>) {
    forall o :: o in depth ==> over[o] <= depth[o]
  }

  lemma NetRaised(depth: map<Subject, nat>, over: multiset<Subject>, s: Subject)
    requires Fits(depth, over) && s in depth
    ensures var higher := depth[s := depth[s] + 1];
            Fits(higher, over) && Net(higher, over) == Net(depth, over)[s := Net(depth, over)[s] + 1]
  {
  }

  lemma NetLowered(depth: map<Subject, nat>, over: multiset<Subject>, s: Subject)
    requires Fits(depth, over) && s in depth && Net(depth, over)[s] > 0
    ensures var lower := Lowered(depth, s);
            Fits(lower, over) && Net(lower, over) == Net(depth, over)[s := Net(depth, over)[s] - 1]
  {
  }

  lemma NetOfNothing(depth: map<Subject, nat>)
    ensures Fits(depth, multiset{}) && Net(depth, multiset{}) == depth
  {
  }

  /** One depth that is too high by one. */
  lemma NetOfOne(depth: map<Subject, nat>, s: Subject)
    requires s in depth && depth[s] > 0
    ensures Fits(depth, multiset{s}) && Net(depth, multiset{s}) == depth[s := depth[s] - 1]
  {
  }

  /** Fewer entries, or as many and fewer of them idle: how the handlers come to an end. */
  ghost predicate Less(jx: Index, ix: Index) {
    jx.Keys < ix.Keys || (jx.Keys == ix.Keys && Idle(jx) < Idle(ix))
  }

  ghost predicate NoMore(jx: Index, ix: Index) {
    jx.Keys < ix.Keys || (jx.Keys == ix.Keys && Idle(jx) <= Idle(ix))
  }

  /** What the stop handler does to the depth of its object. */
  function Lowered(depth: map<Subject, nat>, s: Subject): map<Subject, nat>
    requires s in depth
  {
    depth[s := if depth[s] > 0 then depth[s] - 1 else 0]
  }

  /** The first of the listed entries triggered by x that is in effect, or the end. */
  ghost predicate IsFirstInEffect(list: seq<nat>, ix: Index, x: nat, k: nat) {
    && NoneInEffect(list, ix, x, k)
    && (k < |list| ==> list[k] in ix && ix[list[k]].triggeredBy == x && ix[list[k]].isInEffect)
  }

  ghost predicate NoneInEffect(list: seq<nat>, ix: Index, x: nat, k: nat) {
    k <= |list| && forall j :: 0 <= j < k ==> list[j] in ix && (ix[list[j]].triggeredBy == x ==> !ix[list[j]].isInEffect)
  }

  class Table {
    /** The ids of the entries in list order, and the entries by id. */
    var list: seq<nat>
    var index: Index
    /** Every configured host and service with its scheduled_downtime_depth. */
    var depth: map<Subject, nat>
    var nextDowntimeId: nat
    var deferDowntimeSorting: bool
    ghost var rank: map<nat, nat>
    ghost var top: nat
    /** The objects whose depth is too high, each as often as it is. */
    ghost var over: multiset<Subject>

    /** No downtimes yet for the configured hosts and services. */
    constructor (objects: set<Subject>)
      ensures Exact() && IdsBehind() && InListOrder(list, index) && !deferDowntimeSorting
      ensures nextDowntimeId == 1 && list == [] && index == map[]
      ensures depth.Keys == objects && forall o :: o in objects ==> depth[o] == 0
    {
      list, index, deferDowntimeSorting := [], map[], false;
      depth := map o | o in objects :: 0;
      nextDowntimeId := 1;
      rank, top, over := map[], 0, multiset{};
      assert forall o :: Active(map[], o, {}) == {};
    }

    ghost predicate Keeps(closing: set<nat>)
      reads this
    {
      Fits(depth, over) && Coherent(list, index, Net(depth, over), rank, top, closing)
    }

    /** Every depth is the number of entries in effect, and triggers lead. */
    ghost predicate Exact()
      reads this
    {
      Coherent(list, index, depth, rank, top, {}) && over == multiset{}
    }

    lemma ExactKeeps()
      requires over == multiset{}
      ensures Keeps({}) <==> Exact()
    {
      hide Coherent;
      NetOfNothing(depth);
    }

    /** What the stop handler keeps once it has lowered the depth. */
    ghost predicate KeepsLowered(id: nat, closing: set<nat>)
      requires id in index
      reads this
    {
      && index[id].subject in depth
      && var lower := Lowered(depth, index[id].subject);
         Fits(lower, over) && Coherent(list, index, Net(lower, over), rank, top, closing + {id})
    }

    lemma LoweredInEffect(id: nat, closing: set<nat>)
      requires Keeps(closing) && id in index && index[id].isInEffect && id !in closing
      ensures KeepsLowered(id, closing)
    {
      hide Coherent;
      BeginOneStop(list, index, Net(depth, over), rank, top, closing, id);
      NetLowered(depth, over, index[id].subject);
    }

    /** An entry and everything transitively triggered by it. */
    ghost function TreeOf(id: nat): set<nat>
      reads this
      requires Ranked(LinksOf(index), rank)
    {
      Tree(LinksOf(index), rank, id)
    }

    /** Puts exactly the tree of an idle entry in effect. */
    method HandleScheduledDowntimeStart(id: nat, ghost closing: set<nat>)
      requires Keeps(closing) && Startable(index, id, closing) && closing !! TreeOf(id)
      modifies `index, `depth, `list
      ensures Keeps(closing) && list == old(list) && depth.Keys == old(depth.Keys)
      ensures index == Started(old(index), old(TreeOf(id)), old(index[id].flexDowntimeStart))
      decreases index.Keys, Idle(index), top - rank[id], 1
    {
      hide Coherent, Started, Starting, Tree, Idle, LinksOf, Ranked, Net, Fits, WellTriggered;
      ghost var ix0 := index;
      var d := index[id];
      CoherentMeans(list, index, Net(depth, over), rank, top, closing);
      PutOneInEffect(list, index, Net(depth, over), rank, top, closing, id);
      NetRaised(depth, over, d.subject);
      StartingBegins(index, rank, list, id);
      depth := depth[d.subject := depth[d.subject] + 1];
      index := index[id := d.(isInEffect := true)];
      ghost var done := {id};
      for i := 0 to |list|
        invariant list == old(list) && depth.Keys == old(depth.Keys)
        invariant Keeps(closing) && Starting(ix0, rank, list, id, i, done, index)
      {
        var c := list[i];
        StartingNext(ix0, rank, top, list, id, i, done, index);
        if index[c].triggeredBy == id {
          IdleChild(ix0, rank, closing, c, id);
          var flex := index[id].flexDowntimeStart;
          CopyFlexStart(list, index, Net(depth, over), rank, top, closing, c, flex);
          index := index[c := index[c].(flexDowntimeStart := flex)];
          HandleScheduledDowntime(c, closing);
          done := done + Tree(LinksOf(ix0), rank, c);
        }
      }
      StartingEnds(ix0, rank, top, list, id, done, index);
    }

    /** The first listed entry triggered by the given one. */
    method FindTriggered(id: nat, ghost closing: set<nat>) returns (found: bool, c: nat)
      requires Keeps(closing)
      ensures found ==> c in index && IsChild(LinksOf(index), c, id)
      ensures found && id in index ==> id in rank && c in rank && rank[id] < rank[c] < top
      ensures !found ==> forall y :: !IsChild(LinksOf(index), y, id)
    {
      for i := 0 to |list|
        invariant forall j :: 0 <= j < i ==> index[list[j]].triggeredBy != id
      {
        if index[list[i]].triggeredBy == id {
          return true, list[i];
        }
      }
      return false, 0;
    }

    /** Ends with exactly the tree of the entry deleted, whether or not parts of it had started. */
    method HandleScheduledDowntimeStop(id: nat, ghost closing: set<nat>)
      requires id in index && KeepsLowered(id, closing) && id !in closing && closing !! TreeOf(id)
      modifies `index, `depth, `list
      ensures Keeps(closing) && depth.Keys == old(depth.Keys)
      ensures index == old(index) - old(TreeOf(id)) && list == Without(old(list), old(TreeOf(id)))
      decreases index.Keys, Idle(index), top - rank[id], 1
    {
      hide Coherent, Shape, Started, Dwindling, Tree, Idle, LinksOf, Ranked, IsChild, Net, Fits, WellTriggered, Startable;
      ghost var ix0, list0 := index, list;
      LowerDepth(id, closing);
      CoherentMeans(list, index, Net(depth, over), rank, top, closing + {id});
      DwindlingBegins(index, rank, list, id);
      HandleAllTriggered(id, closing, ix0, list0);
      DwindlingEnds(ix0, rank, list0, id, {id}, index, list);
      EndDowntime(id, closing + {id});
      AddedThenRemoved(closing, id);
    }

    /** The loop over what a stopped entry triggers: each is stopped or first started, until
        none is left. */
    method HandleAllTriggered(id: nat, ghost closing: set<nat>, ghost ix0: Index, ghost list0: seq<nat>)
      requires id in index && id in ix0 && id in rank && id !in closing && Keeps(closing + {id})
      requires Ranked(LinksOf(ix0), rank) && closing !! Tree(LinksOf(ix0), rank, id)
      requires Dwindling(ix0, rank, list0, id, {id}, index, list) && NoMore(index, ix0)
      modifies `index, `depth, `list
      ensures id in index && Keeps(closing + {id}) && depth.Keys == old(depth.Keys)
      ensures Dwindling(ix0, rank, list0, id, {id}, index, list)
      ensures forall y :: !IsChild(LinksOf(index), y, id)
      decreases index.Keys, Idle(index), top - rank[id], 0
    {
      hide Coherent, Dwindling, Tree, Idle, LinksOf, Ranked, IsChild, Net, Fits;
      ghost var start := index;
      var found, c := FindTriggered(id, closing + {id});
      while found
        invariant id in index && Keeps(closing + {id}) && depth.Keys == old(depth.Keys)
        invariant Dwindling(ix0, rank, list0, id, {id}, index, list) && NoMore(index, ix0) && NoMore(index, start)
        invariant found ==> c in index && IsChild(LinksOf(index), c, id) && c in rank && rank[id] < rank[c] < top
        invariant !found ==> forall y :: !IsChild(LinksOf(index), y, id)
        decreases index.Keys, Idle(index)
      {
        HandleTriggered(c, id, closing, ix0, list0);
        found, c := FindTriggered(id, closing + {id});
      }
    }

    /** One round of the loop over what a stopped entry triggers. */
    method HandleTriggered(c: nat, ghost id: nat, ghost closing: set<nat>, ghost ix0: Index, ghost list0: seq<nat>)
      requires id in index && id in ix0 && id in rank && id !in closing && Keeps(closing + {id})
      requires Ranked(LinksOf(ix0), rank) && closing !! Tree(LinksOf(ix0), rank, id)
      requires Dwindling(ix0, rank, list0, id, {id}, index, list) && NoMore(index, ix0)
      requires c in index && IsChild(LinksOf(index), c, id) && c in rank && rank[id] < rank[c] < top
      modifies `index, `depth, `list
      ensures id in index && Keeps(closing + {id}) && depth.Keys == old(depth.Keys)
      ensures Dwindling(ix0, rank, list0, id, {id}, index, list) && NoMore(index, ix0) && Less(index, old(index))
      decreases index.Keys, Idle(index), top - rank[c], 3
    {
      hide Coherent, Shape, Started, Dwindling, Tree, Idle, LinksOf, Ranked, IsChild, Net, Fits, WellTriggered, Startable;
      CoherentMeans(list, index, Net(depth, over), rank, top, closing + {id});
      DwindlingApart(ix0, rank, list0, id, {id}, index, list, closing);
      ChildReady(list, index, Net(depth, over), rank, top, closing, id, c);
      DwindlingGoesOn(ix0, rank, list0, id, index, list, c);
      RootInTree(LinksOf(index), rank, c);
      HandleScheduledDowntime(c, closing + {id});
    }

    /** Lowers the depth of an entry's object, if it is positive. */
    method LowerDepth(id: nat, ghost closing: set<nat>)
      requires id in index && KeepsLowered(id, closing)
      modifies `depth
      ensures Keeps(closing + {id}) && depth.Keys == old(depth.Keys)
    {
      hide Coherent, Net, Fits;
      var d := index[id];
      if depth[d.subject] > 0 {
        depth := depth[d.subject := depth[d.subject] - 1];
      } else {
        assert Lowered(depth, d.subject) == depth;
      }
    }

    method CancelOne(id: nat)
      requires Keeps({}) && id in index
      modifies `index, `depth, `list
      ensures Keeps({}) && depth.Keys == old(depth.Keys)
      ensures index == old(index) - {id} && list == Without(old(list), {id})
    {
      hide Coherent, Without;
      ghost var closing: set<nat> := {};
      if index[id].isInEffect {
        LoweredInEffect(id, {});
        LowerDepth(id, {});
        closing := {} + {id};
      }
      EndDowntime(id, closing);
      assert closing - {id} == {};
    }

    /** Puts an entry out of effect and deletes it. */
    method EndDowntime(id: nat, ghost closing: set<nat>)
      requires Keeps(closing) && id in index && (index[id].isInEffect ==> id in closing)
      modifies `index, `list
      ensures Keeps(closing - {id}) && index == old(index) - {id} && list == Without(old(list), {id})
    {
      hide Coherent, Shape, Without, Net, Fits, WellTriggered, Ranked, LinksOf;
      ListedOnce(list, index, Net(depth, over), rank, top, closing, id);
      RemoveOne(list, index, Net(depth, over), rank, top, closing, id);
      assert index[id := index[id].(isInEffect := false)] - {id} == index - {id};
      index := index[id := index[id].(isInEffect := false)];
      DeleteDowntime(id);
    }

    /** delete_downtime: takes one entry out of list and index. */
    method DeleteDowntime(id: nat)
      requires id in list && forall i, j :: 0 <= i < j < |list| ==> list[i] != list[j]
      modifies `index, `list
      ensures index == old(index) - {id} && list == Without(old(list), {id})
      ensures forall k :: 0 <= k < |old(list)| && old(list)[k] == id ==> list == old(list)[..k] + old(list)[k + 1..]
    {
      var k := Position(id);
      WithoutOne(list, k);
      index := index - {id};
      list := list[..k] + list[k + 1..];
    }

    method Position(id: nat) returns (k: nat)
      requires id in list
      ensures k < |list| && list[k] == id
    {
      k := 0;
      while list[k] != id
        invariant k < |list| && id in list[k..]
        decreases |list| - k
      {
        k := k + 1;
      }
    }

    method HandleScheduledDowntime(id: nat, ghost closing: set<nat>)
      requires Keeps(closing) && id in index && id !in closing && closing !! TreeOf(id)
      requires !index[id].isInEffect ==> Startable(index, id, closing)
      modifies `index, `depth, `list
      ensures Keeps(closing) && depth.Keys == old(depth.Keys)
      ensures !old(index[id].isInEffect) ==>
                (list == old(list)
                 && index == Started(old(index), old(TreeOf(id)), old(index[id].flexDowntimeStart)))
      ensures old(index[id].isInEffect) ==>
                (list == Without(old(list), old(TreeOf(id))) && index == old(index) - old(TreeOf(id)))
      decreases index.Keys, Idle(index), top - rank[id], 2
    {
      hide Coherent, Tree, Started, Without;
      if index[id].isInEffect {
        LoweredInEffect(id, closing);
        HandleScheduledDowntimeStop(id, closing);
      } else {
        HandleScheduledDowntimeStart(id, closing);
      }
    }

    predicate FindDowntime(kind: Kind, id: nat)
      reads this
    {
      id in index && (kind.AnyDowntime? || kind == KindOf(index[id].subject))
    }

    /** Cancels an entry: it and everything transitively triggered by it go, and nothing else. */
    method UnscheduleDowntime(kind: Kind, id: nat) returns (ok: bool)
      requires Keeps({})
      modifies `index, `depth, `list
      ensures Keeps({}) && depth.Keys == old(depth.Keys)
      ensures ok == (id in old(index)
                     && (kind.AnyDowntime? || (kind.HostDowntime? <==> old(index[id].subject.Host?))))
      ensures ok ==> index == old(index) - old(TreeOf(id)) && list == Without(old(list), old(TreeOf(id)))
      ensures !ok ==> index == old(index) && list == old(list) && depth == old(depth)
      decreases index.Keys, 0
    {
      hide Coherent, Shape, Started, Dwindling, Tree, LinksOf, Ranked, IsChild, Without, Net, Fits, WellTriggered;
      if !FindDowntime(kind, id) {
        return false;
      }
      ghost var ix0, list0 := index, list;
      CoherentMeans(list, index, Net(depth, over), rank, top, {});
      DwindlingByRoot(index, rank, list, id);
      CancelOne(id);
      CancelAllTriggered(id, ix0, list0);
      CoherentMeans(list, index, Net(depth, over), rank, top, {});
      CancelledAll(ix0, rank, list0, id, index, list);
      return true;
    }

    /** The loop over what a cancelled entry triggers. */
    method CancelAllTriggered(id: nat, ghost ix0: Index, ghost list0: seq<nat>)
      requires Keeps({}) && Ranked(LinksOf(ix0), rank) && id in ix0 && id !in index
      requires Dwindling(ix0, rank, list0, id, {}, index, list)
      modifies `index, `depth, `list
      ensures Keeps({}) && depth.Keys == old(depth.Keys) && id !in index
      ensures Dwindling(ix0, rank, list0, id, {}, index, list) && forall y :: !IsChild(LinksOf(index), y, id)
      decreases index.Keys, 2
    {
      hide Coherent, Dwindling, Tree, LinksOf, Ranked, IsChild, Net, Fits;
      ghost var start := index;
      var found, c := FindTriggered(id, {});
      while found
        invariant Keeps({}) && depth.Keys == old(depth.Keys) && id !in index && index.Keys <= start.Keys
        invariant Dwindling(ix0, rank, list0, id, {}, index, list)
        invariant found ==> c in index && IsChild(LinksOf(index), c, id)
        invariant !found ==> forall y :: !IsChild(LinksOf(index), y, id)
        decreases index.Keys
      {
        CancelTriggered(c, id, ix0, list0);
        found, c := FindTriggered(id, {});
      }
    }

    /** One round of the loop: an entry triggered by the cancelled one goes, with its tree. */
    method CancelTriggered(c: nat, ghost id: nat, ghost ix0: Index, ghost list0: seq<nat>)
      requires Keeps({}) && Ranked(LinksOf(ix0), rank) && id in ix0
      requires Dwindling(ix0, rank, list0, id, {}, index, list) && c in index && IsChild(LinksOf(index), c, id)
      modifies `index, `depth, `list
      ensures Keeps({}) && depth.Keys == old(depth.Keys)
      ensures Dwindling(ix0, rank, list0, id, {}, index, list) && index.Keys < old(index.Keys)
      decreases index.Keys, 1
    {
      hide Coherent, Shape, Dwindling, Tree, LinksOf, Ranked, IsChild, Without;
      CoherentMeans(list, index, Net(depth, over), rank, top, {});
      DwindlingByStop(ix0, rank, list0, id, {}, index, list, c);
      var _ := UnscheduleDowntime(AnyDowntime, c);
    }

    /** Removes exactly the entries that never started and whose end has passed.  Entries
        triggered by one of them stay behind, with a trigger that is gone. */
    method CheckForExpiredDowntime(now: int)
      requires Keeps({})
      modifies `index, `list
      ensures Keeps({})
      ensures index == old(index) - Expired(old(index), now)
      ensures forall x :: x in old(index) ==> (x in index <==> old(index)[x].isInEffect || old(index)[x].endTime > now)
      ensures list == Without(old(list), Expired(old(index), now))
    {
      hide Coherent, Shape, Without, WellTriggered, Expired, Net, Fits, LinksOf, Ranked;
      ghost var ix0, list0, gone: set<nat> := index, list, {};
      WithoutNothing(list, {});
      var i := 0;
      while i < |list|
        invariant Keeps({}) && i <= |list|
        invariant gone <= Expired(ix0, now) && index == ix0 - gone && list == Without(list0, gone)
        invariant forall j :: 0 <= j < i ==> list[j] !in Expired(ix0, now)
        decreases |list| - i
      {
        ListedIsIndexed(list, index, Net(depth, over), rank, top, {}, i);
        var d := index[list[i]];
        IsExpired(ix0, list[i], now);
        if !d.isInEffect && d.endTime <= now {
          ghost var x := list[i];
          WithoutTwice(list0, gone, {x});
          ExpireOne(i);
          gone := gone + {x};
        } else {
          i := i + 1;
        }
      }
      CoherentMeans(list, index, Net(depth, over), rank, top, {});
      AllExpired(list, ix0, gone, now);
      LeftUnexpired(ix0, now);
    }

    method ExpireOne(i: nat)
      requires Keeps({}) && i < |list| && list[i] in index && !index[list[i]].isInEffect
      modifies `index, `list
      ensures Keeps({}) && index == old(index) - {old(list)[i]} && list == Without(old(list), {old(list)[i]})
      ensures |list| == |old(list)| - 1 && forall j :: 0 <= j < i ==> list[j] == old(list)[j]
    {
      hide Coherent, Shape, Without, Net, Fits;
      ListedOnce(list, index, Net(depth, over), rank, top, {}, list[i]);
      RemoveOne(list, index, Net(depth, over), rank, top, {}, list[i]);
      assert {} - {list[i]} == {};
      DeleteDowntime(list[i]);
    }

    /** downtime_add.  An entry added in effect is not counted here yet. */
    method Add(r: Request) returns (o: Outcome)
      requires Keeps({})
      requires Unused(index, if r.id == 0 then nextDowntimeId else r.id)
      requires r.isInEffect && r.triggeredBy in index ==> index[r.triggeredBy].isInEffect
      modifies `index, `list, `nextDowntimeId, `rank, `top
      ensures o.Refused? <==> old(Fault(r, index, depth.Keys)).Some?
      ensures o.Refused? ==> o.error == old(Fault(r, index, depth.Keys)).value && Keeps({})
      ensures o.Refused? ==> index == old(index) && list == old(list) && nextDowntimeId == old(nextDowntimeId)
      ensures o.Refused? ==> rank == old(rank) && top == old(top)
      ensures o.Added? ==> o.id == if r.id == 0 then old(nextDowntimeId) else r.id
      ensures o.Added? ==> index == old(index)[o.id := EntryOf(r)]
      ensures o.Added? ==> forall y :: y in old(list) ==> y in old(index)
      ensures o.Added? && deferDowntimeSorting ==> list == Inserted(old(list), 0, o.id)
      ensures o.Added? && !deferDowntimeSorting ==>
                list == Inserted(old(list), PlaceIn(old(list), old(index), EntryOf(r)), o.id)
      ensures o.Added? ==> nextDowntimeId == if r.id == 0 || r.id > old(nextDowntimeId) then o.id + 1
                                             else old(nextDowntimeId)
      ensures o.Added? ==> Keeps(if r.isInEffect then {o.id} else {})
    {
      hide Coherent, Shape, Fault, PlaceIn, Inserted, EntryOf;
      var fault := Fault(r, index, depth.Keys);
      if fault.Some? {
        return Refused(fault.value);
      }
      var x, d := r.id, EntryOf(r);
      if x == 0 {
        x := nextDowntimeId;
        nextDowntimeId := nextDowntimeId + 1;
      } else if x > nextDowntimeId {
        nextDowntimeId := x + 1;
      }
      CoherentMeans(list, index, Net(depth, over), rank, top, {});
      EntryFits(r);
      var p := 0;
      if !deferDowntimeSorting {
        p := FindPlace(d);
      }
      Insert(p, x, d);
      return Added(x);
    }

    method Insert(p: nat, x: nat, d: Downtime)
      requires Keeps({}) && Unused(index, x) && p <= |list| && d.triggeredBy != x && d.subject in depth
      requires d.isInEffect && d.triggeredBy in index ==> index[d.triggeredBy].isInEffect
      modifies `index, `list, `rank, `top
      ensures Keeps(if d.isInEffect then {x} else {})
      ensures index == old(index)[x := d] && list == Inserted(old(list), p, x)
    {
      hide Coherent, Inserted;
      AddOne(list, index, Net(depth, over), rank, top, p, x, d);
      InsertedIs(list, p, x);
      index := index[x := d];
      list := list[..p] + [x] + list[p..];
      rank, top := rank[x := top], top + 1;
    }

    /** The first position whose entry the new one compares less than. */
    method FindPlace(d: Downtime) returns (p: nat)
      requires forall y :: y in list ==> y in index
      ensures p == PlaceIn(list, index, d)
    {
      var k := KeyOf(d);
      ghost var keys := KeysOf(list, index);
      p := 0;
      while p < |list|
        invariant p <= |list| && forall i :: 0 <= i < p ==> Compar(k, keys[i]) >= 0
      {
        if Compar(k, KeyOf(index[list[p]])) < 0 {
          PlaceIs(keys, k, p);
          return;
        }
        p := p + 1;
      }
      PlaceIs(keys, k, p);
    }

    /** What keeps new ids unused. */
    ghost predicate IdsBehind()
      reads this
    {
      nextDowntimeId > 0 && BehindCounter(index, nextDowntimeId)
    }

    /** get_next_downtime_id. */
    method GetNextDowntimeId() returns (id: nat)
      modifies `nextDowntimeId
      ensures id == DowntimeIds.NextId(index.Keys, old(nextDowntimeId)) && nextDowntimeId == id + 1
    {
      ghost var next := nextDowntimeId;
      while true
        invariant DowntimeIds.NextId(index.Keys, next) == DowntimeIds.NextId(index.Keys, nextDowntimeId)
        decreases |DowntimeIds.Above(index.Keys, nextDowntimeId)|
      {
        id := nextDowntimeId;
        nextDowntimeId := nextDowntimeId + 1;
        if nextDowntimeId !in index {
          return;
        }
        assert DowntimeIds.Above(index.Keys, id) == DowntimeIds.Above(index.Keys, nextDowntimeId) + {nextDowntimeId};
      }
    }

    /** add_new_downtime: a new idle entry under a new id. */
    method AddNewDowntime(r: Request) returns (o: Outcome)
      requires Keeps({}) && IdsBehind() && !r.isInEffect
      modifies `index, `list, `nextDowntimeId, `rank, `top
      ensures Keeps({}) && IdsBehind()
      ensures o.Refused? <==> r.hostName.None? || (!r.kind.HostDowntime? && r.description.None?)
                              || old(Fault(Filed(r), index, depth.Keys)).Some?
      ensures o.Refused? ==> index == old(index) && list == old(list)
      ensures o.Added? ==> o.id == old(nextDowntimeId) && o.id !in old(index) && nextDowntimeId == o.id + 1
      ensures o.Added? ==> r.hostName.Some? && SubjectOf(Filed(r)) in depth
      ensures o.Added? ==> index == old(index)[o.id := EntryOf(Filed(r))]
      ensures o.Added? ==>
                && index[o.id].subject == (if r.kind.HostDowntime? then Host(r.hostName.value)
                                           else Service(r.hostName.value, r.description.value))
                && index[o.id].startTime == r.startTime && index[o.id].endTime == r.endTime
                && index[o.id].isFixed == r.isFixed && index[o.id].duration == r.duration
                && index[o.id].triggeredBy == r.triggeredBy
                && index[o.id].flexDowntimeStart == 0 && !index[o.id].isInEffect
      ensures o.Added? ==> forall y :: y in old(list) ==> y in old(index)
      ensures o.Added? && !deferDowntimeSorting ==>
                list == Inserted(old(list), PlaceIn(old(list), old(index), EntryOf(Filed(r))), o.id)
    {
      hide Coherent, Shape;
      if r.hostName.None? || (!r.kind.HostDowntime? && r.description.None?) {
        return Refused(NoHost);
      }
      if SubjectOf(Filed(r)) !in depth {
        return Refused(if r.kind.HostDowntime? then NoHost else NoService);
      }
      DowntimeIds.BehindIsFresh(index.Keys, nextDowntimeId);
      var id := GetNextDowntimeId();
      o := Add(Filed(r).(id := id));
    }

    /** An entry read back from the retention file, whose object is known to exist. */
    method Load(r: Request) returns (o: Outcome)
      requires Keeps({}) && r.hostName.Some? && SubjectOf(r) in depth
      requires Unused(index, if r.id == 0 then nextDowntimeId else r.id)
      requires r.isInEffect && r.triggeredBy in index ==> index[r.triggeredBy].isInEffect
      modifies `index, `list, `nextDowntimeId, `rank, `top, `depth
      ensures o.Added? <==> old(Fault(r, index, depth.Keys)).None?
      ensures o.Added? ==> o.id == if r.id == 0 then old(nextDowntimeId) else r.id
      ensures o.Added? ==> o.id !in old(index) && index == old(index)[o.id := EntryOf(r)]
      ensures o.Added? ==> forall y :: y in old(list) ==> y in old(index)
      ensures o.Added? && !deferDowntimeSorting ==>
                list == Inserted(old(list), PlaceIn(old(list), old(index), EntryOf(r)), o.id)
      ensures o.Refused? ==> o.error == old(Fault(r, index, depth.Keys)).value
      ensures o.Refused? ==> index == old(index) && list == old(list) && rank == old(rank) && top == old(top)
      ensures nextDowntimeId == if o.Added? && (r.id == 0 || r.id > old(nextDowntimeId)) then o.id + 1
                                else old(nextDowntimeId)
      ensures Keeps({}) <==> o.Added? || !r.isInEffect
      ensures old(IdsBehind()) && r.id != old(nextDowntimeId) ==> IdsBehind()
      ensures depth == if r.isInEffect then old(depth)[SubjectOf(r) := old(depth)[SubjectOf(r)] + 1] else old(depth)
    {
      hide Coherent, Net, Fits;
      o := Add(r);
      var s := SubjectOf(r);
      NetRaised(depth, over, s);
      if r.isInEffect {
        if o.Added? {
          CountOne(list, index, Net(depth, over), rank, top, o.id);
        } else {
          Overcounted(list, index, Net(depth, over), rank, top, s);
        }
        depth := depth[s := depth[s] + 1];
      }
    }

    /** handle_downtime_stop_event: the tree goes, whether the entry was in effect or not.  The
        depths stay right exactly when it was or its object had nothing in effect; else that
        one object's depth ends up too low by one. */
    method HandleDowntimeStopEvent(id: nat)
      requires Exact()
      modifies `index, `depth, `list
      ensures depth.Keys == old(depth.Keys)
      ensures id !in old(index) ==> index == old(index) && list == old(list) && depth == old(depth)
      ensures id in old(index) ==> index == old(index) - old(TreeOf(id)) && list == Without(old(list), old(TreeOf(id)))
      ensures Exact() <==> old(id !in index || index[id].isInEffect || depth[index[id].subject] == 0)
      ensures !Exact() ==> var s := old(index[id].subject);
                           !DepthCounts(index, depth, {})
                           && Coherent(list, index, depth[s := depth[s] + 1], rank, top, {})
    {
      hide Coherent, Tree, Without, LinksOf, Ranked, Active, KeepsLowered, DepthCounts;
      ExactKeeps();
      if id !in index {
        return;
      }
      CoherentMeans(list, index, depth, rank, top, {});
      if index[id].isInEffect || depth[index[id].subject] == 0 {
        StopIsReady(id);
        HandleScheduledDowntimeStop(id, {});
        ExactKeeps();
      } else {
        ghost var z := StopMiscounts(id);
        ghost var entry := index[z];
        HandleScheduledDowntimeStop(id, {z});
        NetOfNothing(depth);
        CountedAgain(list, index, depth, rank, top, z);
        CountsAreExact();
      }
    }

    /** handle_downtime_start_event.  An idle entry is started with its tree, even before its
        trigger; the depths stay right.  An entry in effect is counted once more: its object's
        depth ends up too high by one.  What it triggers is handled as at a first start, so
        entries that are idle start; but the first one in effect is stopped and deleted with
        all its tree.  There the model ends, as the loop goes on from an entry that is gone. */
    method HandleDowntimeStartEvent(id: nat) returns (ghost k: nat)
      requires Exact()
      modifies `index, `depth, `list, `over
      ensures depth.Keys == old(depth.Keys) && over == multiset{}
      ensures id !in old(index) ==> index == old(index) && list == old(list) && depth == old(depth)
      ensures id in old(index) && !old(index[id].isInEffect) ==>
                && index == Started(old(index), old(TreeOf(id)), old(index[id].flexDowntimeStart)) && list == old(list)
                && DepthCounts(index, depth, {})
      ensures id in old(index) && old(index[id].isInEffect) ==>
                && IsFirstInEffect(old(list), old(index), id, k)
                && var s := old(index[id].subject);
                   s in depth && depth[s] > 0 && Coherent(list, index, depth[s := depth[s] - 1], rank, top, {})
      ensures id in old(index) && old(index[id].isInEffect) ==>
                if k == |old(list)| then
                  index == Started(old(index), old(TreeOf(id)), old(index[id].flexDowntimeStart)) && list == old(list)
                else
                  && index.Keys == old(index.Keys) - Tree(LinksOf(old(index)), rank, old(list)[k])
                  && list == Without(old(list), Tree(LinksOf(old(index)), rank, old(list)[k]))
                  && LeftOver(old(index), id)
      ensures Exact() <==> id !in old(index) || MayStart(old(index), id)
    {
      hide Coherent, Tree, Started, LinksOf, Ranked, Active, DepthCounts, Net, Fits, WellTriggered, Startable, Without;
      k := 0;
      if id !in index {
        return;
      }
      CoherentMeans(list, index, depth, rank, top, {});
      if index[id].isInEffect {
        k := StartAgain(id);
      } else {
        StartIdle(id);
      }
    }

    /** Whatever is left after a start is as it was or as the start leaves it. */
    ghost predicate LeftOver(ix0: Index, id: nat)
      requires Ranked(LinksOf(ix0), rank) && id in ix0
      reads this
    {
      forall y :: y in index ==>
        y in ix0 && (index[y] == ix0[y] || index[y] == Started(ix0, Tree(LinksOf(ix0), rank, id), ix0[id].flexDowntimeStart)[y])
    }

    /** The first start of an entry, whether or not its trigger is in effect. */
    method StartIdle(id: nat)
      requires Exact() && id in index && !index[id].isInEffect
      modifies `index, `depth, `list
      ensures depth.Keys == old(depth.Keys) && list == old(list) && DepthCounts(index, depth, {})
      ensures index == Started(old(index), old(TreeOf(id)), old(index[id].flexDowntimeStart))
      ensures Exact() <==> MayStart(old(index), id)
    {
      hide Coherent, Tree, LinksOf, Ranked, Active, DepthCounts, Net, Fits, WellTriggered, Startable;
      ghost var ix0, t := index, index[id].triggeredBy;
      CoherentMeans(list, index, depth, rank, top, {});
      ExactKeeps();
      if MayStart(index, id) {
        StartIsReady(id);
        HandleScheduledDowntimeStart(id, {});
        ExactKeeps();
        CountsAreExact();
      } else {
        EarlyStartIsReady(id);
        HandleScheduledDowntimeStart(id, {t});
        NetOfNothing(depth);
        StillIdle(ix0, id);
        UncountedIdle(list, index, depth, rank, top, t);
        CountsAreExact();
        TriggerLags(id);
      }
    }

    /** The start handler for an entry that is in effect already. */
    method StartAgain(id: nat) returns (ghost k: nat)
      requires Exact() && id in index && index[id].isInEffect
      modifies `index, `depth, `list, `over
      ensures depth.Keys == old(depth.Keys) && over == multiset{} && IsFirstInEffect(old(list), old(index), id, k)
      ensures var s := old(index[id].subject);
              s in depth && depth[s] > 0 && Coherent(list, index, depth[s := depth[s] - 1], rank, top, {})
      ensures !Exact()
      ensures if k == |old(list)| then
                index == Started(old(index), old(TreeOf(id)), old(index[id].flexDowntimeStart)) && list == old(list)
              else
                && index.Keys == old(index.Keys) - Tree(LinksOf(old(index)), rank, old(list)[k])
                && list == Without(old(list), Tree(LinksOf(old(index)), rank, old(list)[k]))
                && LeftOver(old(index), id)
    {
      hide Coherent, Tree, Started, LinksOf, Ranked, Net, Fits, WellTriggered, Starting, Without, Shape,
           Table.Exact, Table.Keeps;
      ghost var ix0, list0, done := index, list, {id};
      ghost var s := index[id].subject;
      CountAgain(id);
      for i := 0 to |list|
        invariant s in depth && depth.Keys == old(depth.Keys) && over == multiset{s} && Keeps({}) && list == list0
        invariant Starting(ix0, rank, list, id, i, done, index) && NoneInEffect(list0, ix0, id, i)
      {
        var stopped;
        stopped, done := HandleTriggeredAgain(i, id, ix0, done);
        if stopped {
          k := i;
          CountedTooOften(s);
          return;
        }
      }
      k := |list|;
      StartingEnds(ix0, rank, top, list, id, done, index);
      CountedTooOften(s);
    }

    /** What the start handler does before its loop, for an entry that is in effect already. */
    method CountAgain(id: nat)
      requires Exact() && id in index && index[id].isInEffect
      modifies `index, `depth, `over
      ensures Keeps({}) && index == old(index) && depth.Keys == old(depth.Keys) && index[id].subject in depth
      ensures over == multiset{index[id].subject} && Ranked(LinksOf(index), rank) && Shape(list, LinksOf(index), rank, top)
      ensures Starting(index, rank, list, id, 0, {id}, index)
    {
      hide Coherent, Starting, LinksOf, Ranked, Shape, Net, Fits;
      InTable(id);
      var d := index[id];
      Overcount(d.subject);
      StartingBegins(index, rank, list, id);
      assert index[id := d.(isInEffect := true)] == index;
      depth := depth[d.subject := depth[d.subject] + 1];
      over := multiset{d.subject};
      index := index[id := d.(isInEffect := true)];
    }

    /** What counting one object too often leaves behind. */
    ghost method CountedTooOften(s: Subject)
      requires Keeps({}) && over == multiset{s} && s in depth
      modifies `over
      ensures over == multiset{} && !Exact()
      ensures depth[s] > 0 && Coherent(list, index, depth[s := depth[s] - 1], rank, top, {})
    {
      hide Coherent;
      TooHigh(s);
      over := multiset{};
    }

    lemma InTable(id: nat)
      requires Exact() && id in index
      ensures index[id].subject in depth && Ranked(LinksOf(index), rank) && Shape(list, LinksOf(index), rank, top)
    {
    }

    /** One round of the loop of a second start. */
    method HandleTriggeredAgain(i: nat, id: nat, ghost ix0: Index, ghost done: set<nat>)
      returns (stopped: bool, ghost now: set<nat>)
      requires Keeps({}) && i < |list| && Ranked(LinksOf(ix0), rank) && Shape(list, LinksOf(ix0), rank, top) && id in ix0
      requires Starting(ix0, rank, list, id, i, done, index)
      modifies `index, `depth, `list
      ensures Keeps({}) && depth.Keys == old(depth.Keys) && old(list)[i] in ix0
      ensures var e := ix0[old(list)[i]]; stopped <==> e.triggeredBy == id && e.isInEffect
      ensures !stopped ==> list == old(list) && Starting(ix0, rank, list, id, i + 1, now, index)
      ensures stopped ==> var tree := Tree(LinksOf(ix0), rank, old(list)[i]);
                          index.Keys == ix0.Keys - tree && list == Without(old(list), tree) && LeftOver(ix0, id)
    {
      hide Coherent, Tree, Started, LinksOf, Ranked, Net, Fits, WellTriggered, Starting, Without, Shape, IsChild,
           StartedUpTo;
      var c := list[i];
      StartingNext(ix0, rank, top, list, id, i, done, index);
      stopped, now := false, done;
      if index[c].triggeredBy == id {
        var flex := index[id].flexDowntimeStart;
        CopyFlexStart(list, index, Net(depth, over), rank, top, {}, c, flex);
        index := index[c := index[c].(flexDowntimeStart := flex)];
        stopped := index[c].isInEffect;
        if !stopped { now := done + Tree(LinksOf(ix0), rank, c); }
        ghost var jx := index;
        HandleScheduledDowntime(c, {});
        if stopped { StartedLeaves(ix0, rank, top, old(list), id, i, done, old(index), c, flex); }
      }
    }

    lemma StartIsReady(id: nat)
      requires Exact() && MayStart(index, id)
      ensures Startable(index, id, {})
    {
    }

    /** An entry whose trigger is idle is started as if the trigger were being stopped. */
    lemma EarlyStartIsReady(id: nat)
      requires Exact() && id in index && !index[id].isInEffect && !MayStart(index, id)
      ensures var t := index[id].triggeredBy;
              t in index && !index[t].isInEffect && Keeps({t}) && Startable(index, id, {t}) && {t} !! TreeOf(id)
    {
      hide Shape, Effects, Below;
      var t := index[id].triggeredBy;
      CoherentMeans(list, index, depth, rank, top, {});
      BeginOneIdleStop(list, index, depth, rank, top, {}, t);
      assert {} + {t} == {t};
      NetOfNothing(depth);
      assert IsChild(LinksOf(index), id, t);
      ChildTree(LinksOf(index), rank, id, t);
    }

    lemma StillIdle(ix0: Index, id: nat)
      requires id in ix0 && Ranked(LinksOf(ix0), rank)
      requires index == Started(ix0, Tree(LinksOf(ix0), rank, id), ix0[id].flexDowntimeStart)
      requires ix0[id].triggeredBy in ix0 && !ix0[ix0[id].triggeredBy].isInEffect
      ensures var t := ix0[id].triggeredBy;
              t in index && !index[t].isInEffect && id in index && index[id].isInEffect && index[id].triggeredBy == t
    {
      hide Below;
      RootInTree(LinksOf(ix0), rank, id);
      var t := ix0[id].triggeredBy;
      assert IsChild(LinksOf(ix0), id, t);
      ChildTree(LinksOf(ix0), rank, id, t);
    }

    lemma TriggerLags(id: nat)
      requires id in index && index[id].isInEffect && index[id].triggeredBy in index
      requires !index[index[id].triggeredBy].isInEffect
      ensures !Exact()
    {
    }

    lemma Overcount(s: Subject)
      requires Exact() && s in depth
      ensures var higher := depth[s := depth[s] + 1];
              Fits(higher, multiset{s}) && Coherent(list, index, Net(higher, multiset{s}), rank, top, {})
    {
      hide Coherent;
      var higher := depth[s := depth[s] + 1];
      NetOfOne(higher, s);
      assert higher[s := higher[s] - 1] == depth;
    }

    /** Counted once too often, the depth of one object is too high by one. */
    lemma TooHigh(s: Subject)
      requires Keeps({}) && over == multiset{s} && s in depth
      ensures depth[s] > 0 && Coherent(list, index, depth[s := depth[s] - 1], rank, top, {})
      ensures !Coherent(list, index, depth, rank, top, {})
    {
      hide Coherent;
      assert over[s] == 1;
      NetOfOne(depth, s);
      var lower := depth[s := depth[s] - 1];
      Overcounted(list, index, lower, rank, top, s);
      assert lower[s := lower[s] + 1] == depth;
    }

    lemma StopIsReady(id: nat)
      requires Exact() && id in index && index[id].subject in depth
      requires index[id].isInEffect || depth[index[id].subject] == 0
      ensures KeepsLowered(id, {})
    {
      hide Coherent;
      ExactKeeps();
      if index[id].isInEffect {
        LoweredInEffect(id, {});
      } else {
        BeginOneIdleStop(list, index, depth, rank, top, {}, id);
        assert Lowered(depth, index[id].subject) == depth;
        NetOfNothing(depth);
      }
    }

    /** The entry that is not counted any more after the depth was lowered for an idle one. */
    lemma StopMiscounts(id: nat) returns (z: nat)
      requires Exact() && id in index && !index[id].isInEffect
      requires index[id].subject in depth && depth[index[id].subject] > 0
      ensures z in index && index[z].isInEffect && index[z].subject == index[id].subject && z != id && z !in TreeOf(id)
      ensures KeepsLowered(id, {z})
    {
      var s := index[id].subject;
      assert depth[s] == |Active(index, s, {})|;
      z :| z in Active(index, s, {});
      if z in TreeOf(id) { IdleTree(index, rank, {}, z, id); }
      MiscountLowered(id, z);
    }

    lemma MiscountLowered(id: nat, z: nat)
      requires Exact() && id in index && !index[id].isInEffect
      requires z in index && index[z].isInEffect && index[z].subject == index[id].subject && index[z].subject in depth
      ensures KeepsLowered(id, {z})
    {
      hide Coherent;
      BeginOneStop(list, index, depth, rank, top, {}, z);
      var lower := Lowered(depth, index[id].subject);
      assert {} + {z} == {z};
      BeginOneIdleStop(list, index, lower, rank, top, {z}, id);
      NetOfNothing(lower);
    }

    lemma IsRanked()
      requires Exact()
      ensures Ranked(LinksOf(index), rank)
    {
    }

    lemma CountsAreExact()
      ensures Exact() ==> DepthCounts(index, depth, {}) && WellTriggered(index, {})
    {
    }

    ghost function Seen(): Books
      reads this
    {
      Books(list, index, depth, nextDowntimeId, rank)
    }

    /** Any run: whatever is added, loaded, started, stopped, cancelled or expired, in any
        order, every object's depth is its number of downtimes in effect, entries in effect
        have their triggers in effect, and a sorted list stays sorted.  Every step does what it
        says to the books. */
    method Run(ops: seq<Op>) returns (ghost books: seq<Books>)
      requires Exact() && IdsBehind()
      modifies `index, `list, `nextDowntimeId, `rank, `top, `depth
      ensures Exact() && IdsBehind()
      ensures DepthCounts(index, depth, {}) && WellTriggered(index, {})
      ensures |books| == |ops| + 1 && books[0] == old(Seen()) && books[|ops|] == Seen()
      ensures forall i :: 0 <= i < |ops| ==> Does(ops[i], books[i], books[i + 1], deferDowntimeSorting)
      ensures depth.Keys == old(depth.Keys)
      ensures !deferDowntimeSorting && old(InListOrder(list, index)) && AllInRange(ops) ==> InListOrder(list, index)
    {
      hide Coherent, InListOrder, Table.Exact, Does;
      books := [Seen()];
      for i := 0 to |ops|
        invariant Exact() && IdsBehind() && depth.Keys == old(depth.Keys)
        invariant |books| == i + 1 && books[0] == old(Seen()) && books[i] == Seen()
        invariant forall j :: 0 <= j < i ==> Does(ops[j], books[j], books[j + 1], deferDowntimeSorting)
        invariant !deferDowntimeSorting && old(InListOrder(list, index)) && AllInRange(ops) ==> InListOrder(list, index)
      {
        Step(ops[i]);
        books := books + [Seen()];
      }
      CountsAreExact();
    }

    /** The only starts and stops that are passed over are those that go wrong. */
    method Step(op: Op)
      requires Exact() && IdsBehind()
      modifies `index, `list, `nextDowntimeId, `rank, `top, `depth
      ensures Exact() && IdsBehind() && depth.Keys == old(depth.Keys)
      ensures Does(op, old(Seen()), Seen(), deferDowntimeSorting)
      ensures !deferDowntimeSorting && old(InListOrder(list, index)) && InRange(op) ==> InListOrder(list, index)
    {
      hide Coherent, InListOrder, BehindCounter, MayStart, Table.Exact;
      IsRanked();
      match op
      case AddNew(r) => StepNew(r);
      case Reload(r) => StepLoad(r);
      case StartDue(id) => if MayStart(index, id) { StepStart(id); }
      case StopDue(id) => if id in index && MayStop(index, depth, id) { StepStop(id); }
      case Cancel(kind, id) => StepCancel(kind, id);
      case Expire(now) => StepExpire(now);
    }

    method StepNew(r: Request)
      requires Exact() && IdsBehind()
      modifies `index, `list, `nextDowntimeId, `rank, `top
      ensures Exact() && IdsBehind() && Does(AddNew(r), old(Seen()), Seen(), deferDowntimeSorting)
      ensures !deferDowntimeSorting && old(InListOrder(list, index)) && InRange(AddNew(r)) ==> InListOrder(list, index)
    {
      hide Coherent, InListOrder, Inserted, BehindCounter, Fault, PlaceIn;
      ghost var list0, index0, isSorted := list, index, InListOrder(list, index);
      ExactKeeps();
      IsRanked();
      if !r.isInEffect {
        var o := AddNewDowntime(r);
        if isSorted && o.Added? && InRange(AddNew(r)) {
          InsertedInListOrder(list0, index0, o.id, EntryOf(Filed(r)));
        }
      }
      ExactKeeps();
    }

    method StepLoad(r: Request)
      requires Exact() && IdsBehind()
      modifies `index, `list, `nextDowntimeId, `rank, `top, `depth
      ensures Exact() && IdsBehind() && depth.Keys == old(depth.Keys)
      ensures Does(Reload(r), old(Seen()), Seen(), deferDowntimeSorting)
      ensures !deferDowntimeSorting && old(InListOrder(list, index)) && InRange(Reload(r)) ==> InListOrder(list, index)
    {
      hide Coherent, InListOrder, Inserted, BehindCounter, Fault, PlaceIn;
      ghost var list0, index0, isSorted := list, index, InListOrder(list, index);
      ExactKeeps();
      IsRanked();
      if LoadIsSound(r, index, depth, nextDowntimeId) {
        var o := Load(r);
        if isSorted && o.Added? && InRange(Reload(r)) {
          InsertedInListOrder(list0, index0, o.id, EntryOf(r));
        }
      }
      ExactKeeps();
    }

    method StepStart(id: nat)
      requires Exact() && IdsBehind() && MayStart(index, id)
      modifies `index, `list, `depth
      ensures Exact() && IdsBehind() && depth.Keys == old(depth.Keys)
      ensures Does(StartDue(id), old(Seen()), Seen(), deferDowntimeSorting)
      ensures old(InListOrder(list, index)) ==> InListOrder(list, index)
    {
      hide Coherent, Tree, InListOrder, Started, BehindCounter;
      CoherentMeans(list, index, depth, rank, top, {});
      ExactKeeps();
      ghost var list0, index0, tree, flex := list, index, TreeOf(id), index[id].flexDowntimeStart;
      HandleScheduledDowntimeStart(id, {});
      ExactKeeps();
      BehindStarted(index0, tree, flex, nextDowntimeId);
      if InListOrder(list0, index0) { StartedInListOrder(list0, index0, tree, flex); }
    }

    method StepStop(id: nat)
      requires Exact() && IdsBehind() && id in index && MayStop(index, depth, id)
      modifies `index, `list, `depth
      ensures Exact() && IdsBehind() && depth.Keys == old(depth.Keys)
      ensures Does(StopDue(id), old(Seen()), Seen(), deferDowntimeSorting)
      ensures old(InListOrder(list, index)) ==> InListOrder(list, index)
    {
      hide Coherent, Tree, Without, InListOrder, BehindCounter, DepthCounts, LinksOf, Ranked;
      IsRanked();
      ghost var list0, index0, tree := list, index, TreeOf(id);
      HandleDowntimeStopEvent(id);
      BehindWithout(index0, tree, nextDowntimeId);
      if InListOrder(list0, index0) { WithoutInListOrder(list0, index0, tree); }
    }

    method StepCancel(kind: Kind, id: nat)
      requires Exact() && IdsBehind()
      modifies `index, `list, `depth
      ensures Exact() && IdsBehind() && depth.Keys == old(depth.Keys)
      ensures Does(Cancel(kind, id), old(Seen()), Seen(), deferDowntimeSorting)
      ensures old(InListOrder(list, index)) ==> InListOrder(list, index)
    {
      hide Coherent, Tree, Without, InListOrder, BehindCounter, LinksOf, Ranked, Table.Keeps;
      IsRanked();
      ExactKeeps();
      ghost var list0, index0, tree := list, index, TreeOf(id);
      var _ := UnscheduleDowntime(kind, id);
      ExactKeeps();
      BehindWithout(index0, tree, nextDowntimeId);
      if InListOrder(list0, index0) { WithoutInListOrder(list0, index0, tree); }
    }

    method StepExpire(now: int)
      requires Exact() && IdsBehind()
      modifies `index, `list
      ensures Exact() && IdsBehind() && Does(Expire(now), old(Seen()), Seen(), deferDowntimeSorting)
      ensures old(InListOrder(list, index)) ==> InListOrder(list, index)
    {
      hide Coherent, Without, Expired, InListOrder, BehindCounter, LinksOf, Ranked, Table.Keeps;
      IsRanked();
      ExactKeeps();
      ghost var list0, index0, gone := list, index, Expired(index, now);
      CheckForExpiredDowntime(now);
      ExactKeeps();
      BehindWithout(index0, gone, nextDowntimeId);
      if InListOrder(list0, index0) { WithoutInListOrder(list0, index0, gone); }
    }
  }

  /** Cancelling what has just been added undoes it, when asked for under its own kind or
      under any; under the other kind it is refused. */
  method AddThenCancel(t: Table, r: Request, kind: Kind) returns (o: Outcome, ok: bool)
    requires t.Exact() && t.IdsBehind() && !r.isInEffect && !t.deferDowntimeSorting
    modifies t`index, t`list, t`nextDowntimeId, t`rank, t`top, t`depth
    ensures o.Refused? ==> !ok && t.index == old(t.index) && t.list == old(t.list)
    ensures o.Added? ==> (ok <==> kind.AnyDowntime? || (kind.HostDowntime? <==> r.kind.HostDowntime?))
    ensures o.Added? && ok ==> t.index == old(t.index) && t.list == old(t.list)
    ensures o.Added? && !ok ==> t.index.Keys == old(t.index.Keys) + {o.id}
    ensures t.Exact() && t.depth.Keys == old(t.depth.Keys)
  {
    hide Coherent, Table.Keeps, Inserted, Without, Tree, LinksOf, Ranked, Fault;
    ghost var list0, ix0 := t.list, t.index;
    t.ExactKeeps();
    CoherentMeans(t.list, t.index, t.depth, t.rank, t.top, {});
    o := t.AddNewDowntime(r);
    ok := false;
    t.ExactKeeps();
    if o.Added? {
      t.IsRanked();
      NewTree(ix0, t.index, t.rank, o.id);
      AddedIsListed(list0, o.id, PlaceIn(list0, ix0, EntryOf(Filed(r))));
      ok := t.UnscheduleDowntime(kind, o.id);
      t.ExactKeeps();
    }
  }

  /** Nothing is triggered by an entry that is new. */
  lemma NewTree(ix0: Index, ix: Index, rank: map<nat, nat>, x: nat)
    requires Ranked(LinksOf(ix), rank) && x in ix && x !in ix0 && ix - {x} == ix0
    requires ix[x].triggeredBy != x && forall y :: y in ix0 ==> ix0[y].triggeredBy != x
    ensures Tree(LinksOf(ix), rank, x) == {x}
  {
    forall y ensures !IsChild(LinksOf(ix), y, x) {
      if y in ix && y != x { assert y in ix - {x}; }
    }
    LoneTree(LinksOf(ix), rank, x);
  }

  lemma AddedIsListed(list: seq<nat>, x: nat, p: nat)
    requires p <= |list| && x !in list && forall i, j :: 0 <= i < j < |list| ==> list[i] != list[j]
    ensures Without(Inserted(list, p, x), {x}) == list
  {
    var r := Inserted(list, p, x);
    WithoutOne(r, p);
    assert r[..p] + r[p + 1..] == list;
  }

  /** Loading an entry in effect whose trigger is gone: nothing is added, but the host
      counts as being in downtime from then on. */
  method MiscountExample() returns (t: Table, host: Subject)
    ensures t.index == map[] && host in t.depth && t.depth[host] == 1 && !t.Exact()
  {
    host := Host("a");
    t := new Table({host});
    var _ := t.Load(Request(Some("a"), None, HostDowntime, 10, 0, 20, true, 7, 0, 8, true));
  }

  /** A flexible downtime of one host that triggers one of another host. */
  method TwoDowntimes(a: Subject, b: Subject) returns (t: Table)
    requires a.Host? && b.Host? && a != b
    ensures fresh(t) && t.Exact() && t.depth.Keys == {a, b} && t.index.Keys == {1, 2}
    ensures t.index[1].subject == a && t.index[1].triggeredBy == 0 && !t.index[1].isInEffect
    ensures t.index[2].subject == b && t.index[2].triggeredBy == 1
  {
    hide Coherent, Inserted, Table.Keeps;
    t := new Table({a, b});
    t.ExactKeeps();
    var x := t.AddNewDowntime(Request(Some(a.name), None, HostDowntime, 10, 0, 20, false, 0, 5, 0, false));
    assert t.index.Keys == {1};
    var y := t.AddNewDowntime(Request(Some(b.name), None, HostDowntime, 10, 0, 20, false, 1, 5, 0, false));
    t.ExactKeeps();
  }

  /** A host's downtime, which triggers another host's, is started twice: the second start
      deletes the triggered downtime while its trigger is in effect, and counts the first
      host twice. */
  method SecondStartExample() returns (t: Table, a: Subject, b: Subject)
    ensures t.index.Keys == {1} && t.index[1].isInEffect && t.index[1].subject == a
    ensures a in t.depth && b in t.depth && t.depth[a] == 2 && t.depth[b] == 0
  {
    hide Coherent, Started, Tree, Without, LinksOf, Ranked, DepthCounts, NoneInEffect;
    a, b := Host("a"), Host("b");
    t := TwoDowntimes(a, b);
    ghost var ix := t.index;
    TwoEntries(ix, t.rank, t.list, t.depth, t.top);
    ghost var k := t.HandleDowntimeStartEvent(1);
    ghost var jx := t.index;
    BothStarted(ix, jx);
    TwoEntries(jx, t.rank, t.list, t.depth, t.top);
    ghost var list := t.list;
    k := t.HandleDowntimeStartEvent(1);
    SecondIsInEffect(list, jx, k);
    FirstStays(jx, t.index);
    OneLeft(t.index, t.list, t.depth, t.rank, t.top, a, b);
  }

  lemma SecondIsInEffect(list: seq<nat>, jx: Index, k: nat)
    requires IsFirstInEffect(list, jx, 1, k) && jx.Keys == {1, 2} && 2 in list
    requires jx[1].triggeredBy == 0 && jx[2].triggeredBy == 1 && jx[2].isInEffect
    ensures k < |list| && list[k] == 2
  {
  }

  lemma FirstStays(jx: Index, kx: Index)
    requires jx.Keys == {1, 2} && jx[1].isInEffect && 1 in kx
    requires kx[1] == jx[1] || kx[1] == Started(jx, {1, 2}, jx[1].flexDowntimeStart)[1]
    ensures kx[1].isInEffect && kx[1].subject == jx[1].subject
  {
  }

  lemma TwoEntries(ix: Index, rank: map<nat, nat>, list: seq<nat>, depth: map<Subject, nat>, top: nat)
    requires Coherent(list, ix, depth, rank, top, {})
    requires ix.Keys == {1, 2} && ix[1].triggeredBy == 0 && ix[2].triggeredBy == 1
    ensures Ranked(LinksOf(ix), rank) && Tree(LinksOf(ix), rank, 1) == {1, 2} && Tree(LinksOf(ix), rank, 2) == {2}
    ensures 1 in list && 2 in list
  {
    var t := LinksOf(ix);
    assert Below(t, rank, 1, 1) && Below(t, rank, 2, 1) && Below(t, rank, 2, 2) && !Below(t, rank, 1, 2);
  }

  lemma BothStarted(ix: Index, jx: Index)
    requires ix.Keys == {1, 2} && jx == Started(ix, {1, 2}, ix[1].flexDowntimeStart)
    ensures jx.Keys == {1, 2} && jx[1].isInEffect && jx[2].isInEffect
    ensures jx[1].triggeredBy == ix[1].triggeredBy && jx[2].triggeredBy == ix[2].triggeredBy
    ensures jx[1].subject == ix[1].subject && jx[2].subject == ix[2].subject
  {
  }

  lemma OneLeft(kx: Index, list: seq<nat>, depth: map<Subject, nat>, rank: map<nat, nat>, top: nat,
                a: Subject, b: Subject)
    requires kx.Keys == {1} && kx[1].isInEffect && kx[1].subject == a && a != b && a in depth && b in depth && depth[a] > 0
    requires Coherent(list, kx, depth[a := depth[a] - 1], rank, top, {})
    ensures depth[a] == 2 && depth[b] == 0
  {
    assert Active(kx, a, {}) == {1} && Active(kx, b, {}) == {};
  }
}
