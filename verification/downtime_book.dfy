/** The scheduled downtime entries as values: their index, the in-effect counts of
    hosts and services, and what one step does to the relation between the two. */
module DowntimeBook {
  import opened DowntimeOrder
  import opened Triggers

  datatype Subject = Host(name: string) | Service(hostName: string, description: string)

  datatype Kind = HostDowntime | ServiceDowntime | AnyDowntime

  function KindOf(o: Subject): (k: Kind)
    ensures !k.AnyDowntime? && (k.HostDowntime? <==> o.Host?)
  {
    if o.Host? then HostDowntime else ServiceDowntime
  }

  datatype Downtime = Downtime(subject: Subject, startTime: int, flexDowntimeStart: int, endTime: int,
                               isFixed: bool, triggeredBy: nat, duration: nat, isInEffect: bool)

  type Index = map<nat, Downtime>

  function KeyOf(d: Downtime): Key {
    Key(d.startTime, d.triggeredBy != 0)
  }

  function KeysOf(list: seq<nat>, ix: Index): (keys: seq<Key>)
    requires forall x :: x in list ==> x in ix
    ensures |keys| == |list| && forall i :: 0 <= i < |list| ==> keys[i] == KeyOf(ix[list[i]])
  {
    seq(|list|, i requires 0 <= i < |list| => KeyOf(ix[list[i]]))
  }

  /** Where a new entry belongs in the list. */
  ghost function PlaceIn(list: seq<nat>, ix: Index, d: Downtime): (p: nat)
    requires forall x :: x in list ==> x in ix
    ensures p <= |list|
  {
    PlaceOf(KeysOf(list, ix), KeyOf(d))
  }

  ghost function LinksOf(ix: Index): (t: Links)
    ensures t.Keys == ix.Keys
  {
    map i | i in ix :: ix[i].triggeredBy
  }

  ghost function Idle(ix: Index): set<nat> {
    set i | i in ix && !ix[i].isInEffect
  }

  /** The entries in effect on one object, apart from some: those whose stop is under way. */
  ghost function Active(ix: Index, o: Subject, closing: set<nat>): set<nat> {
    set i | i in ix && ix[i].isInEffect && ix[i].subject == o && i !in closing
  }

  ghost predicate DepthCounts(ix: Index, depth: map<Subject, nat>, closing: set<nat>) {
    forall o :: o in depth ==> depth[o] == |Active(ix, o, closing)|
  }

  /** An entry in effect has its trigger in effect or being stopped, if it still has one. */
  ghost predicate WellTriggered(ix: Index, closing: set<nat>) {
    forall i :: i in ix && ix[i].isInEffect && ix[i].triggeredBy in ix ==> Leads(ix, ix[i].triggeredBy, closing)
  }

  ghost predicate Leads(ix: Index, t: nat, closing: set<nat>)
    requires t in ix
  {
    ix[t].isInEffect || t in closing
  }

  /** List and index agree, and the triggers are ranked. */
  ghost predicate Shape(list: seq<nat>, t: Links, rank: map<nat, nat>, top: nat) {
    && (forall i, j :: 0 <= i < j < |list| ==> list[i] != list[j])
    && (forall x :: x in list <==> x in t)
    && 0 !in t && Ranked(t, rank) && (forall i :: i in t ==> rank[i] < top)
  }

  ghost predicate Effects(ix: Index, depth: map<Subject, nat>, closing: set<nat>) {
    && WellTriggered(ix, closing)
    && (forall i :: i in ix ==> ix[i].subject in depth)
    && (forall a :: a in closing ==> a in ix)
    && DepthCounts(ix, depth, closing)
  }

  /** What every operation keeps.  Entries in `closing` are being stopped: no object's
      count includes them. */
  ghost predicate Coherent(list: seq<nat>, ix: Index, depth: map<Subject, nat>, rank: map<nat, nat>, top: nat,
                           closing: set<nat>)
  {
    Shape(list, LinksOf(ix), rank, top) && Effects(ix, depth, closing)
  }

  ghost function Started(ix: Index, s: set<nat>, flex: int): (jx: Index)
    ensures jx.Keys == ix.Keys && LinksOf(jx) == LinksOf(ix)
  {
    map i | i in ix :: if i in s then ix[i].(isInEffect := true, flexDowntimeStart := flex) else ix[i]
  }

  /** Entries that are started are in effect, with the flexible start they are given; nothing
      else about them changes, and nothing about the others. */
  lemma StartedFields(ix: Index, s: set<nat>, flex: int, y: nat)
    requires y in ix
    ensures var d, e := ix[y], Started(ix, s, flex)[y];
            && (e.isInEffect <==> d.isInEffect || y in s)
            && e.flexDowntimeStart == (if y in s then flex else d.flexDowntimeStart)
            && e.subject == d.subject && e.startTime == d.startTime && e.endTime == d.endTime
            && e.isFixed == d.isFixed && e.triggeredBy == d.triggeredBy && e.duration == d.duration
  {
  }

  /** A list without some of its elements, the rest in their order. */
  ghost function Without(list: seq<nat>, s: set<nat>): (r: seq<nat>)
    ensures forall x :: x in r <==> x in list && x !in s
    ensures (forall i, j :: 0 <= i < j < |list| ==> list[i] != list[j])
              ==> (forall i, j :: 0 <= i < j < |r| ==> r[i] != r[j])
  {
    if list == [] then []
    else if list[0] in s then Without(list[1..], s)
    else [list[0]] + Without(list[1..], s)
  }

  lemma {:induction false} WithoutTwice(list: seq<nat>, a: set<nat>, b: set<nat>)
    ensures Without(Without(list, a), b) == Without(list, a + b)
  {
    if list != [] {
      WithoutTwice(list[1..], a, b);
      if list[0] !in a {
        assert ([list[0]] + Without(list[1..], a))[1..] == Without(list[1..], a);
      }
    }
  }

  lemma {:induction false} WithoutNothing(list: seq<nat>, s: set<nat>)
    requires forall x :: x in list ==> x !in s
    ensures Without(list, s) == list
  {
    if list != [] { WithoutNothing(list[1..], s); }
  }

  lemma {:induction false} WithoutOne(list: seq<nat>, k: nat)
    requires k < |list| && forall i, j :: 0 <= i < j < |list| ==> list[i] != list[j]
    ensures Without(list, {list[k]}) == list[..k] + list[k + 1..]
  {
    var rest := list[1..];
    if k == 0 {
      WithoutNothing(rest, {list[0]});
    } else {
      WithoutOne(rest, k - 1);
      assert Without(list, {list[k]}) == [list[0]] + Without(rest, {list[k]});
      CutBehindHead(list, k);
    }
  }

  lemma CutBehindHead(list: seq<nat>, k: nat)
    requires 0 < k < |list|
    ensures list[..k] + list[k + 1..] == [list[0]] + (list[1..][..k - 1] + list[1..][k..])
  {
  }

  /** An idle entry has an idle tree, as long as nothing in it is being stopped. */
  lemma {:induction false} IdleTree(ix: Index, rank: map<nat, nat>, closing: set<nat>, y: nat, x: nat)
    requires WellTriggered(ix, closing) && Ranked(LinksOf(ix), rank) && Below(LinksOf(ix), rank, y, x)
    requires closing !! Tree(LinksOf(ix), rank, x)
    ensures x in ix && (!ix[x].isInEffect ==> !ix[y].isInEffect)
    decreases rank[y]
  {
    if y != x {
      IdleTree(ix, rank, closing, ix[y].triggeredBy, x);
      assert ix[y].triggeredBy in Tree(LinksOf(ix), rank, x);
    }
  }

  lemma PutInEffectCounts(ix: Index, depth: map<Subject, nat>, closing: set<nat>, x: nat)
    requires DepthCounts(ix, depth, closing) && x in ix && ix[x].subject in depth
    requires !ix[x].isInEffect && x !in closing
    ensures DepthCounts(ix[x := ix[x].(isInEffect := true)],
                        depth[ix[x].subject := depth[ix[x].subject] + 1], closing)
  {
    var s, jx := ix[x].subject, ix[x := ix[x].(isInEffect := true)];
    assert Active(jx, s, closing) == Active(ix, s, closing) + {x};
    forall o | o in depth && o != s ensures Active(jx, o, closing) == Active(ix, o, closing) {
    }
  }

  lemma PutInEffect(ix: Index, depth: map<Subject, nat>, closing: set<nat>, x: nat)
    requires Effects(ix, depth, closing) && Startable(ix, x, closing)
    ensures LinksOf(ix[x := ix[x].(isInEffect := true)]) == LinksOf(ix)
    ensures Effects(ix[x := ix[x].(isInEffect := true)],
                    depth[ix[x].subject := depth[ix[x].subject] + 1], closing)
  {
    hide DepthCounts;
    PutInEffectCounts(ix, depth, closing, x);
  }

  lemma SetFlexStart(ix: Index, depth: map<Subject, nat>, closing: set<nat>, x: nat, flex: int)
    requires Effects(ix, depth, closing) && x in ix
    ensures var jx := ix[x := ix[x].(flexDowntimeStart := flex)];
            LinksOf(jx) == LinksOf(ix) && Effects(jx, depth, closing)
  {
    hide DepthCounts;
    FlexStartCounts(ix, depth, closing, x, flex);
  }

  lemma FlexStartCounts(ix: Index, depth: map<Subject, nat>, closing: set<nat>, x: nat, flex: int)
    requires DepthCounts(ix, depth, closing) && x in ix
    ensures DepthCounts(ix[x := ix[x].(flexDowntimeStart := flex)], depth, closing)
  {
    var jx := ix[x := ix[x].(flexDowntimeStart := flex)];
    forall o | o in depth ensures Active(jx, o, closing) == Active(ix, o, closing) {
    }
  }

  lemma BeginStop(ix: Index, depth: map<Subject, nat>, closing: set<nat>, x: nat)
    requires Effects(ix, depth, closing)
    requires x in ix && ix[x].isInEffect && x !in closing
    ensures depth[ix[x].subject] > 0
    ensures Effects(ix, depth[ix[x].subject := depth[ix[x].subject] - 1], closing + {x})
  {
    assert x in Active(ix, ix[x].subject, closing);
    forall o | o in depth
      ensures Active(ix, o, closing + {x}) == Active(ix, o, closing) - if o == ix[x].subject then {x} else {}
    {
    }
  }

  /** An idle entry is not counted anyway. */
  lemma BeginIdleStop(ix: Index, depth: map<Subject, nat>, closing: set<nat>, x: nat)
    requires Effects(ix, depth, closing) && x in ix && !ix[x].isInEffect
    ensures Effects(ix, depth, closing + {x})
  {
    forall o | o in depth ensures Active(ix, o, closing + {x}) == Active(ix, o, closing) {
    }
  }

  /** Entries that are idle or already discounted can go, wherever they are. */
  lemma Remove(ix: Index, depth: map<Subject, nat>, closing: set<nat>, x: nat)
    requires Effects(ix, depth, closing)
    requires x in ix && (ix[x].isInEffect ==> x in closing)
    ensures LinksOf(ix - {x}) == LinksOf(ix) - {x}
    ensures Effects(ix - {x}, depth, closing - {x})
  {
    forall o | o in depth ensures Active(ix - {x}, o, closing - {x}) == Active(ix, o, closing) {
    }
  }

  lemma RemoveShape(list: seq<nat>, t: Links, rank: map<nat, nat>, top: nat, x: nat)
    requires Shape(list, t, rank, top)
    ensures Shape(Without(list, {x}), t - {x}, rank, top)
  {
  }

  lemma PutOneInEffect(list: seq<nat>, ix: Index, depth: map<Subject, nat>, rank: map<nat, nat>, top: nat,
                       closing: set<nat>, x: nat)
    requires Coherent(list, ix, depth, rank, top, closing) && Startable(ix, x, closing)
    ensures ix[x].subject in depth
    ensures Coherent(list, ix[x := ix[x].(isInEffect := true)],
                     depth[ix[x].subject := depth[ix[x].subject] + 1], rank, top, closing)
  {
    hide Shape, WellTriggered, DepthCounts;
    PutInEffect(ix, depth, closing, x);
  }

  lemma CopyFlexStart(list: seq<nat>, ix: Index, depth: map<Subject, nat>, rank: map<nat, nat>, top: nat,
                      closing: set<nat>, x: nat, flex: int)
    requires Coherent(list, ix, depth, rank, top, closing) && x in ix
    ensures Coherent(list, ix[x := ix[x].(flexDowntimeStart := flex)], depth, rank, top, closing)
  {
    hide Shape, Effects;
    SetFlexStart(ix, depth, closing, x, flex);
  }

  lemma BeginOneStop(list: seq<nat>, ix: Index, depth: map<Subject, nat>, rank: map<nat, nat>, top: nat,
                     closing: set<nat>, x: nat)
    requires Coherent(list, ix, depth, rank, top, closing)
    requires x in ix && ix[x].isInEffect && x !in closing
    ensures ix[x].subject in depth && depth[ix[x].subject] > 0
    ensures Coherent(list, ix, depth[ix[x].subject := depth[ix[x].subject] - 1], rank, top, closing + {x})
  {
    hide Shape, WellTriggered, DepthCounts;
    BeginStop(ix, depth, closing, x);
  }

  lemma BeginOneIdleStop(list: seq<nat>, ix: Index, depth: map<Subject, nat>, rank: map<nat, nat>, top: nat,
                         closing: set<nat>, x: nat)
    requires Coherent(list, ix, depth, rank, top, closing) && x in ix && !ix[x].isInEffect
    ensures Coherent(list, ix, depth, rank, top, closing + {x})
  {
    hide Shape, Effects;
    BeginIdleStop(ix, depth, closing, x);
  }

  lemma RemoveOne(list: seq<nat>, ix: Index, depth: map<Subject, nat>, rank: map<nat, nat>, top: nat,
                  closing: set<nat>, x: nat)
    requires Coherent(list, ix, depth, rank, top, closing)
    requires x in ix && (ix[x].isInEffect ==> x in closing)
    ensures Coherent(Without(list, {x}), ix - {x}, depth, rank, top, closing - {x})
  {
    hide Shape, Effects;
    Remove(ix, depth, closing, x);
    RemoveShape(list, LinksOf(ix), rank, top, x);
  }

  /** An entry is to be started while idle, and not before its trigger. */
  predicate MayStart(ix: Index, x: nat) {
    && x in ix && !ix[x].isInEffect
    && (ix[x].triggeredBy in ix ==> ix[ix[x].triggeredBy].isInEffect)
  }

  ghost predicate Startable(ix: Index, x: nat, closing: set<nat>) {
    && x in ix && !ix[x].isInEffect && x !in closing
    && (ix[x].triggeredBy in ix ==> Leads(ix, ix[x].triggeredBy, closing))
  }

  lemma CoherentMeans(list: seq<nat>, ix: Index, depth: map<Subject, nat>, rank: map<nat, nat>, top: nat,
                      closing: set<nat>)
    requires Coherent(list, ix, depth, rank, top, closing)
    ensures Shape(list, LinksOf(ix), rank, top) && Ranked(LinksOf(ix), rank)
    ensures WellTriggered(ix, closing)
    ensures forall x :: x in ix ==> x in rank && rank[x] < top && ix[x].subject in depth
    ensures forall a :: a in closing ==> a in ix
    ensures forall x :: x in ix <==> x in list
    ensures forall i, j :: 0 <= i < j < |list| ==> list[i] != list[j]
  {
  }

  lemma ListedOnce(list: seq<nat>, ix: Index, depth: map<Subject, nat>, rank: map<nat, nat>, top: nat,
                   closing: set<nat>, x: nat)
    requires Coherent(list, ix, depth, rank, top, closing) && x in ix
    ensures x in list && forall i, j :: 0 <= i < j < |list| ==> list[i] != list[j]
  {
  }

  lemma ListedIsIndexed(list: seq<nat>, ix: Index, depth: map<Subject, nat>, rank: map<nat, nat>, top: nat,
                        closing: set<nat>, i: nat)
    requires Coherent(list, ix, depth, rank, top, closing) && i < |list|
    ensures list[i] in ix
  {
    assert list[i] in list;
  }

  /** A triggered entry can be dealt with while its trigger is being stopped. */
  lemma ChildReady(list: seq<nat>, ix: Index, depth: map<Subject, nat>, rank: map<nat, nat>, top: nat,
                   closing: set<nat>, x: nat, c: nat)
    requires Coherent(list, ix, depth, rank, top, closing + {x}) && IsChild(LinksOf(ix), c, x)
    requires Ranked(LinksOf(ix), rank) && closing !! Tree(LinksOf(ix), rank, x)
    ensures x in ix && rank[x] < rank[c] < top
    ensures c in ix && (ix[c].isInEffect || Startable(ix, c, closing + {x})) && c !in closing + {x}
    ensures closing + {x} !! Tree(LinksOf(ix), rank, c)
  {
    hide Below;
    assert x in closing + {x};
    ChildTree(LinksOf(ix), rank, c, x);
  }

  /** A new entry under an unused id that no entry names as its trigger; its object does
      not count it yet. */
  lemma AddOne(list: seq<nat>, ix: Index, depth: map<Subject, nat>, rank: map<nat, nat>, top: nat,
               p: nat, x: nat, d: Downtime)
    requires Coherent(list, ix, depth, rank, top, {}) && p <= |list|
    requires x != 0 && x !in ix && (forall y :: y in ix ==> ix[y].triggeredBy != x) && d.triggeredBy != x
    requires d.subject in depth && (d.isInEffect && d.triggeredBy in ix ==> ix[d.triggeredBy].isInEffect)
    ensures Coherent(Inserted(list, p, x), ix[x := d], depth, rank[x := top], top + 1, if d.isInEffect then {x} else {})
  {
    hide Shape, Inserted, Effects;
    AddShape(list, LinksOf(ix), rank, top, p, x, d.triggeredBy);
    assert LinksOf(ix[x := d]) == LinksOf(ix)[x := d.triggeredBy];
    AddEffects(ix, depth, x, d);
  }

  lemma AddEffects(ix: Index, depth: map<Subject, nat>, x: nat, d: Downtime)
    requires Effects(ix, depth, {}) && x !in ix && (forall y :: y in ix ==> ix[y].triggeredBy != x)
    requires d.triggeredBy != x
    requires d.subject in depth && (d.isInEffect && d.triggeredBy in ix ==> ix[d.triggeredBy].isInEffect)
    ensures Effects(ix[x := d], depth, if d.isInEffect then {x} else {})
  {
    forall o | o in depth
      ensures Active(ix[x := d], o, if d.isInEffect then {x} else {}) == Active(ix, o, {})
    {
    }
  }

  lemma AddShape(list: seq<nat>, t: Links, rank: map<nat, nat>, top: nat, p: nat, x: nat, trigger: nat)
    requires Shape(list, t, rank, top) && p <= |list|
    requires x != 0 && x !in t && (forall y :: y in t ==> t[y] != x) && trigger != x
    ensures Shape(Inserted(list, p, x), t[x := trigger], rank[x := top], top + 1)
  {
    hide Inserted, Ranked;
    InsertedOnce(list, p, x);
    RankedWithOneMore(t, rank, top, x, trigger);
  }

  lemma InsertedOnce(list: seq<nat>, p: nat, x: nat)
    requires p <= |list| && x !in list && forall i, j :: 0 <= i < j < |list| ==> list[i] != list[j]
    ensures var r := Inserted(list, p, x);
            && (forall i, j :: 0 <= i < j < |r| ==> r[i] != r[j])
            && (forall y :: y in r <==> y == x || y in list)
  {
    var r := Inserted(list, p, x);
    assert r[p] == x;
    forall y | y in list ensures y in r {
      var i :| 0 <= i < |list| && list[i] == y;
      assert r[if i < p then i else i + 1] == y;
    }
  }

  lemma RankedWithOneMore(t: Links, rank: map<nat, nat>, top: nat, x: nat, trigger: nat)
    requires Ranked(t, rank) && (forall i :: i in t ==> rank[i] < top)
    requires x !in t && (forall y :: y in t ==> t[y] != x) && trigger != x
    ensures Ranked(t[x := trigger], rank[x := top])
  {
  }

  /** Counting an entry that was left out of its object's count. */
  lemma CountOne(list: seq<nat>, ix: Index, depth: map<Subject, nat>, rank: map<nat, nat>, top: nat, x: nat)
    requires Coherent(list, ix, depth, rank, top, {x}) && x in ix && ix[x].isInEffect
    ensures Coherent(list, ix, depth[ix[x].subject := depth[ix[x].subject] + 1], rank, top, {})
  {
    hide Shape, WellTriggered, DepthCounts;
    LeadsItself(ix, x);
    CountOneCounts(ix, depth, x);
  }

  lemma LeadsItself(ix: Index, x: nat)
    requires WellTriggered(ix, {x}) && x in ix && ix[x].isInEffect
    ensures WellTriggered(ix, {})
  {
  }

  lemma CountOneCounts(ix: Index, depth: map<Subject, nat>, x: nat)
    requires DepthCounts(ix, depth, {x}) && x in ix && ix[x].isInEffect && ix[x].subject in depth
    ensures DepthCounts(ix, depth[ix[x].subject := depth[ix[x].subject] + 1], {})
  {
    var s := ix[x].subject;
    assert Active(ix, s, {}) == Active(ix, s, {x}) + {x};
    forall o | o in depth && o != s ensures Active(ix, o, {}) == Active(ix, o, {x}) {
    }
  }

  /** Counting something that is not there breaks the equation. */
  lemma Overcounted(list: seq<nat>, ix: Index, depth: map<Subject, nat>, rank: map<nat, nat>, top: nat, s: Subject)
    requires Coherent(list, ix, depth, rank, top, {}) && s in depth
    ensures !Coherent(list, ix, depth[s := depth[s] + 1], rank, top, {})
  {
    assert depth[s] == |Active(ix, s, {})|;
  }

  /** With one entry in effect not counted everything is as it should be but one depth. */
  lemma CountedAgain(list: seq<nat>, ix: Index, depth: map<Subject, nat>, rank: map<nat, nat>, top: nat, z: nat)
    requires Coherent(list, ix, depth, rank, top, {z}) && ix[z].isInEffect
    ensures ix[z].subject in depth
    ensures Coherent(list, ix, depth[ix[z].subject := depth[ix[z].subject] + 1], rank, top, {})
    ensures !DepthCounts(ix, depth, {})
  {
    hide Shape, Leads;
    var s := ix[z].subject;
    CountOne(list, ix, depth, rank, top, z);
    assert Active(ix, s, {}) == Active(ix, s, {z}) + {z};
    assert depth[s] == |Active(ix, s, {z})|;
  }

  /** An idle entry that is set aside is not missing in any count. */
  lemma UncountedIdle(list: seq<nat>, ix: Index, depth: map<Subject, nat>, rank: map<nat, nat>, top: nat, t: nat)
    requires Coherent(list, ix, depth, rank, top, {t}) && t in ix && !ix[t].isInEffect
    ensures DepthCounts(ix, depth, {})
  {
    hide Shape, WellTriggered;
    forall o | o in depth ensures Active(ix, o, {}) == Active(ix, o, {t}) {
    }
  }

  /** The list is sorted, and every start time is one that a comparison can cope with. */
  ghost predicate InListOrder(list: seq<nat>, ix: Index) {
    && (forall x :: x in list ==> x in ix && 0 <= ix[x].startTime < INT_LIMIT)
    && Sorted(KeysOf(list, ix))
  }

  /** Of two listed entries the later one does not start earlier, and when both start at the
      same time, it is triggered if the other one is. */
  lemma UntriggeredFirst(list: seq<nat>, ix: Index, i: nat, j: nat)
    requires InListOrder(list, ix) && i < j < |list|
    ensures var d, e := ix[list[i]], ix[list[j]];
            d.startTime <= e.startTime && (d.startTime == e.startTime && d.triggeredBy != 0 ==> e.triggeredBy != 0)
  {
    assert !Before(KeysOf(list, ix)[j], KeysOf(list, ix)[i]);
  }

  lemma StartedInListOrder(list: seq<nat>, ix: Index, s: set<nat>, flex: int)
    requires InListOrder(list, ix)
    ensures InListOrder(list, Started(ix, s, flex))
  {
    assert KeysOf(list, Started(ix, s, flex)) == KeysOf(list, ix);
  }

  /** What is left of a list stands in the same order as before. */
  lemma {:induction false} WithoutKeepsOrder(list: seq<nat>, s: set<nat>, i: nat, j: nat) returns (p: nat, q: nat)
    requires i < j < |Without(list, s)|
    ensures p < q < |list| && list[p] == Without(list, s)[i] && list[q] == Without(list, s)[j]
    decreases list
  {
    var rest := list[1..];
    var w := Without(rest, s);
    if list[0] in s {
      p, q := WithoutKeepsOrder(rest, s, i, j);
      assert list[p + 1] == rest[p] && list[q + 1] == rest[q];
      p, q := p + 1, q + 1;
    } else if i > 0 {
      p, q := WithoutKeepsOrder(rest, s, i - 1, j - 1);
      assert list[p + 1] == rest[p] && list[q + 1] == rest[q];
      p, q := p + 1, q + 1;
    } else {
      assert w[j - 1] in rest;
      var k: nat :| k < |rest| && rest[k] == w[j - 1];
      p, q := 0, k + 1;
    }
  }

  lemma WithoutInListOrder(list: seq<nat>, ix: Index, s: set<nat>)
    requires InListOrder(list, ix)
    ensures InListOrder(Without(list, s), ix - s)
  {
    hide Without, Before, KeyOf;
    var r := Without(list, s);
    forall i, j | 0 <= i < j < |r| ensures !Before(KeysOf(r, ix - s)[j], KeysOf(r, ix - s)[i]) {
      var p, q := WithoutKeepsOrder(list, s, i, j);
      assert r[i] in r && r[j] in r;
      assert !Before(KeysOf(list, ix)[q], KeysOf(list, ix)[p]);
    }
  }

  lemma InsertedInListOrder(list: seq<nat>, ix: Index, x: nat, d: Downtime)
    requires InListOrder(list, ix) && x !in ix && 0 <= d.startTime < INT_LIMIT
    ensures InListOrder(Inserted(list, PlaceIn(list, ix, d), x), ix[x := d])
  {
    hide Sorted, PlaceOf, KeyOf, KeysOf, Inserted, Compar;
    var keys := KeysOf(list, ix);
    forall i | 0 <= i < |keys| ensures Near(KeyOf(d), keys[i]) { KeyHasStart(d); KeyHasStart(ix[list[i]]); }
    InsertionIsSortedAndStable(keys, KeyOf(d));
    KeysOfInserted(list, ix, PlaceOf(keys, KeyOf(d)), x, d);
  }

  lemma KeyHasStart(d: Downtime)
    ensures KeyOf(d).startTime == d.startTime
  {
  }

  lemma KeysOfInserted(list: seq<nat>, ix: Index, p: nat, x: nat, d: Downtime)
    requires p <= |list| && x !in ix && forall y :: y in list ==> y in ix
    ensures var r := Inserted(list, p, x);
            && (forall y :: y in r ==> y == x || y in list)
            && KeysOf(r, ix[x := d]) == Inserted(KeysOf(list, ix), p, KeyOf(d))
  {
    hide KeyOf;
    var r := Inserted(list, p, x);
    forall y | y in r ensures y == x || y in list {
      var i :| 0 <= i < |r| && r[i] == y;
    }
    var a, b := KeysOf(r, ix[x := d]), Inserted(KeysOf(list, ix), p, KeyOf(d));
    forall i | 0 <= i < |r| ensures a[i] == b[i] {
      if i != p { assert list[if i < p then i else i - 1] in ix; }
    }
    assert a == b;
  }
}
