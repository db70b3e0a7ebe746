/** Downtimes over a restart: what is written to the retention file comes back, except for
    entries that stand before what they are triggered by. */
module DowntimeRestart {
  import opened Basics
  import opened DowntimeBook
  import opened DowntimeOrder
  import opened Handling = Downtime

  /** An entry as the file gives it back: as a request to add it again. */
  function Saved(id: nat, d: Downtime): Request {
    Request(Some(if d.subject.Host? then d.subject.name else d.subject.hostName),
            if d.subject.Host? then None else Some(d.subject.description),
            if d.subject.Host? then HostDowntime else ServiceDowntime,
            d.startTime, d.flexDowntimeStart, d.endTime, d.isFixed, d.triggeredBy, d.duration, id, d.isInEffect)
  }

  lemma SavedComesBack(id: nat, d: Downtime)
    ensures EntryOf(Saved(id, d)) == d && SubjectOf(Saved(id, d)) == d.subject && Saved(id, d).id == id
  {
  }

  /** What adding an entry asks of its times. */
  ghost predicate IsTimed(d: Downtime) {
    (d.triggeredBy == 0 ==> d.startTime < d.endTime) && (!d.isFixed ==> d.duration != 0)
  }

  /** The only fault of such an entry is that its trigger is not there. */
  lemma OnlyTriggerMissing(id: nat, d: Downtime, ix: Index, objects: set<Subject>)
    requires IsTimed(d) && d.subject in objects
    ensures Fault(Saved(id, d), ix, objects)
         == if d.triggeredBy == 0 || d.triggeredBy in ix then None else Some(NoTrigger)
  {
  }

  /** Every trigger stands in the list before what it triggers. */
  ghost predicate TriggersFirst(list: seq<nat>, ix: Index)
    requires forall x :: x in list ==> x in ix
  {
    forall i :: 0 <= i < |list| && ix[list[i]].triggeredBy != 0 ==> ix[list[i]].triggeredBy in list[..i]
  }

  /** The entries that come back when the list is read from front to back. */
  ghost function Back(list: seq<nat>, ix: Index): (s: set<nat>)
    requires forall x :: x in list ==> x in ix
    ensures forall x :: x in s ==> x in list
    ensures forall x :: x in s && ix[x].triggeredBy != 0 ==> ix[x].triggeredBy in s
  {
    if list == [] then {}
    else
      var s, x := Back(list[..|list| - 1], ix), list[|list| - 1];
      if ix[x].triggeredBy == 0 || ix[x].triggeredBy in s then s + {x} else s
  }

  /** The objects that entries in effect are lost for. */
  ghost function Lost(list: seq<nat>, ix: Index): multiset<Subject>
    requires forall x :: x in list ==> x in ix
  {
    if list == [] then multiset{}
    else
      var front, x := list[..|list| - 1], list[|list| - 1];
      if ix[x].isInEffect && ix[x].triggeredBy != 0 && ix[x].triggeredBy !in Back(front, ix)
      then Lost(front, ix) + multiset{ix[x].subject} else Lost(front, ix)
  }

  ghost predicate IsDistinct(list: seq<nat>) {
    forall i, j :: 0 <= i < j < |list| ==> list[i] != list[j]
  }

  /** All entries come back exactly when triggers stand first. */
  lemma {:induction false} AllBackIff(list: seq<nat>, ix: Index)
    requires IsDistinct(list) && forall x :: x in list ==> x in ix
    ensures (forall x :: x in list ==> x in Back(list, ix)) <==> TriggersFirst(list, ix)
  {
    if list != [] {
      var front, x := list[..|list| - 1], list[|list| - 1];
      AllBackIff(front, ix);
      assert forall y :: y in list <==> y in front || y == x;
      assert x !in front;
      assert forall i :: 0 <= i < |front| ==> front[..i] == list[..i];
      assert list[..|list| - 1] == front;
      if forall y :: y in front ==> y in Back(front, ix) {
        assert TriggersFirst(front, ix);
      }
    }
  }

  /** The entries with some ids. */
  ghost function Part(ix: Index, s: set<nat>): (jx: Index)
    ensures forall x :: x in jx <==> x in ix && x in s
    ensures forall x :: x in jx ==> jx[x] == ix[x]
  {
    map x | x in ix && x in s :: ix[x]
  }

  /** What a depth that is counted too often comes to. */
  lemma NetRaisedOver(depth: map<Subject, nat>, over: multiset<Subject>, s: Subject)
    requires Fits(depth, over) && s in depth
    ensures var higher, more := depth[s := depth[s] + 1], over + multiset{s};
            Fits(higher, more) && Net(higher, more) == Net(depth, over)
  {
  }

  /** Adds one entry from the file and counts it. */
  method LoadSaved(t: Table, id: nat, d: Downtime)
    requires t.Keeps({}) && IsTimed(d) && d.subject in t.depth && Unused(t.index, id)
    requires d.isInEffect && d.triggeredBy in t.index ==> t.index[d.triggeredBy].isInEffect
    modifies t
    ensures t.Keeps({}) && t.depth.Keys == old(t.depth.Keys)
    ensures t.nextDowntimeId == old(t.nextDowntimeId) || (id > old(t.nextDowntimeId) && t.nextDowntimeId == id + 1)
    ensures d.triggeredBy == 0 || d.triggeredBy in old(t.index) ==>
              t.index == old(t.index)[id := d] && t.over == old(t.over)
    ensures d.triggeredBy != 0 && d.triggeredBy !in old(t.index) ==>
              t.index == old(t.index)
              && t.over == if d.isInEffect then old(t.over) + multiset{d.subject} else old(t.over)
  {
    hide Coherent, Net, Fits, Fault, EntryOf, SubjectOf, PlaceIn, Inserted;
    SavedComesBack(id, d);
    OnlyTriggerMissing(id, d, t.index, t.depth.Keys);
    NetRaisedOver(t.depth, t.over, d.subject);
    var o := t.Load(Saved(id, d));
    if o.Refused? && d.isInEffect {
      t.over := t.over + multiset{d.subject};
    }
  }

  /** Where reading the file has come to. */
  ghost predicate ReadUpTo(t: Table, list: seq<nat>, ix: Index, i: nat)
    requires i <= |list| && forall x :: x in list ==> x in ix
    reads t
  {
    && t.Keeps({})
    && t.index == Part(ix, Back(list[..i], ix))
    && t.over == Lost(list[..i], ix)
  }

  /** What is in the file of a run that stopped: distinct ids, and entries in effect have
      their triggers in effect. */
  ghost predicate IsWritten(list: seq<nat>, ix: Index, objects: set<Subject>) {
    && IsDistinct(list) && (forall x :: x in list <==> x in ix) && 0 !in ix
    && (forall x :: x in ix ==> IsTimed(ix[x]) && ix[x].subject in objects)
    && WellTriggered(ix, {})
  }

  lemma NothingRead(list: seq<nat>, ix: Index)
    requires forall x :: x in list ==> x in ix
    ensures Back(list[..0], ix) == {} && Lost(list[..0], ix) == multiset{} && Part(ix, {}) == map[]
  {
  }

  /** What is read next can be loaded. */
  lemma ReadNext(list: seq<nat>, ix: Index, objects: set<Subject>, i: nat)
    requires IsWritten(list, ix, objects) && i < |list|
    ensures var jx, d := Part(ix, Back(list[..i], ix)), ix[list[i]];
            && IsTimed(d) && d.subject in objects && Unused(jx, list[i])
            && (d.isInEffect && d.triggeredBy in jx ==> jx[d.triggeredBy].isInEffect)
  {
    hide Back, IsTimed;
  }

  /** What comes back, and what is lost, with one entry more. */
  lemma BackNext(list: seq<nat>, ix: Index, i: nat)
    requires i < |list| && forall x :: x in list ==> x in ix
    ensures var s, n, d := Back(list[..i], ix), list[..i + 1], ix[list[i]];
            if d.triggeredBy == 0 || d.triggeredBy in s then
              Back(n, ix) == s + {list[i]} && Lost(n, ix) == Lost(list[..i], ix)
            else
              && Back(n, ix) == s
              && Lost(n, ix) == if d.isInEffect then Lost(list[..i], ix) + multiset{d.subject} else Lost(list[..i], ix)
  {
    assert list[..i + 1][..i] == list[..i] && list[..i + 1][i] == list[i];
  }

  lemma PartNext(ix: Index, s: set<nat>, x: nat)
    requires x in ix
    ensures Part(ix, s + {x}) == Part(ix, s)[x := ix[x]]
  {
  }

  lemma PartIsAllIff(ix: Index, s: set<nat>)
    ensures Part(ix, s) == ix <==> forall x :: x in ix ==> x in s
  {
    if Part(ix, s) == ix {
      forall x | x in ix ensures x in s { assert x in Part(ix, s); }
    }
  }

  lemma {:induction false} NoneLost(list: seq<nat>, ix: Index)
    requires IsDistinct(list) && (forall x :: x in list ==> x in ix) && TriggersFirst(list, ix)
    ensures Lost(list, ix) == multiset{}
  {
    if list != [] {
      var front := list[..|list| - 1];
      assert forall i :: 0 <= i < |front| ==> front[..i] == list[..i];
      assert TriggersFirst(front, ix);
      NoneLost(front, ix);
      AllBackIff(front, ix);
      assert list[..|list| - 1] == front;
    }
  }

  /** The depth of an object whose count is known. */
  lemma DepthIs(t: Table, o: Subject)
    requires t.Keeps({}) && o in t.depth
    ensures t.depth[o] == |Active(t.index, o, {})| + t.over[o]
  {
  }

  /** A restart: everything in the file is loaded, in its order.  What comes back is what
      stands behind its trigger; every object is counted once too often for each of its
      entries in effect that do not. */
  method Restart(list: seq<nat>, ix: Index, objects: set<Subject>, next: nat) returns (t: Table)
    requires IsWritten(list, ix, objects) && next > 0 && forall x :: x in ix ==> x < next
    ensures fresh(t) && t.depth.Keys == objects && t.nextDowntimeId == next
    ensures t.index == Part(ix, Back(list, ix)) && t.over == Lost(list, ix) && t.Keeps({})
    ensures t.index == ix <==> TriggersFirst(list, ix)
    ensures TriggersFirst(list, ix) ==> t.Exact()
    ensures forall o :: o in objects ==> t.depth[o] == |Active(t.index, o, {})| + t.over[o]
  {
    hide Coherent, Part, Net, Fits, IsTimed, Unused, WellTriggered, Table.Keeps, Back, Lost, TriggersFirst, IsDistinct, Active;
    t := new Table(objects);
    t.nextDowntimeId, t.deferDowntimeSorting := next, true;
    t.ExactKeeps();
    NothingRead(list, ix);
    for i := 0 to |list|
      invariant fresh(t) && t.depth.Keys == objects && t.nextDowntimeId == next
      invariant ReadUpTo(t, list, ix, i)
    {
      ReadNext(list, ix, objects, i);
      BackNext(list, ix, i);
      PartNext(ix, Back(list[..i], ix), list[i]);
      LoadSaved(t, list[i], ix[list[i]]);
    }
    assert list[..|list|] == list;
    AllBackIff(list, ix);
    PartIsAllIff(ix, Back(list, ix));
    if TriggersFirst(list, ix) {
      NoneLost(list, ix);
      t.ExactKeeps();
    }
    forall o | o in objects ensures t.depth[o] == |Active(t.index, o, {})| + t.over[o] { DepthIs(t, o); }
  }

  /** When every trigger is untriggered itself and starts no later than what it triggers, the
      order of the list has it first. */
  lemma SortedComesBack(list: seq<nat>, ix: Index)
    requires InListOrder(list, ix) && IsDistinct(list) && forall x :: x in list <==> x in ix
    requires forall x :: x in ix && ix[x].triggeredBy != 0 ==>
               && ix[x].triggeredBy in ix && ix[ix[x].triggeredBy].triggeredBy == 0
               && ix[ix[x].triggeredBy].startTime <= ix[x].startTime
    ensures TriggersFirst(list, ix)
  {
    hide InListOrder;
    forall i | 0 <= i < |list| && ix[list[i]].triggeredBy != 0 ensures ix[list[i]].triggeredBy in list[..i] {
      var j :| 0 <= j < |list| && list[j] == ix[list[i]].triggeredBy;
      if j > i { UntriggeredFirst(list, ix, i, j); }
      assert j != i;
      assert list[..i][j] == list[j];
    }
  }

  /** Not so for a trigger that is triggered itself, or starts later: the list may be in order
      and still have it behind. */
  lemma OrderIsNotEnough(a: Downtime, b: Downtime, c: Downtime)
    requires 0 <= a.startTime < INT_LIMIT && 0 <= c.startTime <= b.startTime < INT_LIMIT
    requires a.triggeredBy == 0 && b.triggeredBy == 1 && c.triggeredBy == 2 && a.startTime <= c.startTime
    ensures var list, ix := [1, 3, 2], map[1 := a, 2 := b, 3 := c];
            InListOrder(list, ix) && !TriggersFirst(list, ix) && 3 !in Back(list, ix) && {1, 2} <= Back(list, ix)
  {
    hide InListOrder, Back, Lost, KeysOf;
    InThisOrder(a, b, c);
    var list, ix := [1, 3, 2], map[1 := a, 2 := b, 3 := c];
    Prefixes(1, 3, 2);
    NothingRead(list, ix);
    BackNext(list, ix, 0);
    BackNext(list, ix, 1);
    BackNext(list, ix, 2);
    assert ix[list[1]].triggeredBy !in list[..1];
  }

  lemma Prefixes(x: nat, y: nat, z: nat)
    ensures var list := [x, y, z]; list[..0] == [] && list[..1] == [x] && list[..2] == [x, y] && list[..3] == list
  {
  }

  lemma InThisOrder(a: Downtime, b: Downtime, c: Downtime)
    requires 0 <= a.startTime <= c.startTime <= b.startTime < INT_LIMIT
    requires a.triggeredBy == 0 && b.triggeredBy != 0 && c.triggeredBy != 0
    ensures InListOrder([1, 3, 2], map[1 := a, 2 := b, 3 := c])
  {
    assert KeysOf([1, 3, 2], map[1 := a, 2 := b, 3 := c]) == [KeyOf(a), KeyOf(c), KeyOf(b)];
  }
}
