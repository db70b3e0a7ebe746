/** The list of scheduled downtimes as linked nodes, and the index that goes with it. */
module DowntimeList {
  import opened DowntimeOrder

  class Node {
    const id: nat
    const key: Key
    var prev: Node?
    var next: Node?

    constructor (id: nat, key: Key)
      ensures this.id == id && this.key == key
    {
      this.id, this.key := id, key;
      prev, next := null, null;
    }
  }

  /** The keys of some nodes, in order. */
  function Keys(nodes: seq<Node>): (keys: seq<Key>)
    ensures |keys| == |nodes| && forall i :: 0 <= i < |nodes| ==> keys[i] == nodes[i].key
  {
    if nodes == [] then [] else [nodes[0].key] + Keys(nodes[1..])
  }

  ghost predicate Distinct(nodes: seq<Node>) {
    forall i, j :: 0 <= i < j < |nodes| ==> nodes[i] != nodes[j]
  }

  ghost function At(nodes: seq<Node>, i: int): Node? {
    if 0 <= i < |nodes| then nodes[i] else null
  }

  ghost predicate LinkedAt(nodes: seq<Node>, i: nat)
    requires i < |nodes|
    reads nodes[i]
  {
    nodes[i].prev == At(nodes, i - 1) && nodes[i].next == At(nodes, i + 1)
  }

  /** Forward and backward links run through exactly these nodes, in this order. */
  ghost predicate Linked(nodes: seq<Node>, head: Node?)
    reads set n | n in nodes
  {
    && Distinct(nodes) && head == At(nodes, 0)
    && (forall i :: 0 <= i < |nodes| ==> LinkedAt(nodes, i))
  }

  lemma Apart(nodes: seq<Node>, p: nat)
    requires Distinct(nodes) && p < |nodes|
    ensures forall i :: 0 <= i < |nodes| && i != p ==> nodes[i] != nodes[p]
  {
  }

  lemma DistinctRemoved(nodes: seq<Node>, p: nat)
    requires Distinct(nodes) && p < |nodes|
    ensures Distinct(nodes[..p] + nodes[p + 1..])
  {
  }

  lemma DistinctInserted(nodes: seq<Node>, p: nat, dt: Node)
    requires Distinct(nodes) && p <= |nodes| && dt !in nodes
    ensures Distinct(Inserted(nodes, p, dt))
  {
  }

  /** The index holds exactly the listed nodes, each under its id. */
  ghost predicate Indexed(nodes: seq<Node>, index: map<nat, Node>) {
    && (forall i :: 0 <= i < |nodes| ==> nodes[i].id in index && index[nodes[i].id] == nodes[i])
    && (forall x :: x in index ==> index[x] in nodes && index[x].id == x)
  }

  lemma InsertedIndexed(nodes: seq<Node>, index: map<nat, Node>, p: nat, dt: Node)
    requires Indexed(nodes, index) && p <= |nodes| && dt.id !in index
    ensures Indexed(Inserted(nodes, p, dt), index[dt.id := dt])
  {
    var r := Inserted(nodes, p, dt);
    assert r[p] == dt;
    forall x | x in index ensures index[x] in r {
      var i :| 0 <= i < |nodes| && nodes[i] == index[x];
      assert r[if i < p then i else i + 1] == index[x];
    }
  }

  lemma RemovedIndexed(nodes: seq<Node>, index: map<nat, Node>, p: nat)
    requires Distinct(nodes) && Indexed(nodes, index) && p < |nodes|
    ensures var r := nodes[..p] + nodes[p + 1..]; Indexed(r, index - {nodes[p].id})
  {
    var r := nodes[..p] + nodes[p + 1..];
    forall x | x in index && x != nodes[p].id ensures index[x] in r {
      var i :| 0 <= i < |nodes| && nodes[i] == index[x];
      assert r[if i < p then i else i - 1] == index[x];
    }
  }

  ghost predicate Rearranges(sorted: seq<Node>, nodes: seq<Node>) {
    && Distinct(sorted) && |sorted| == |nodes|
    && (forall n :: n in sorted ==> n in nodes) && (forall n :: n in nodes ==> n in sorted)
  }

  ghost predicate AllNear(nodes: seq<Node>) {
    forall n, m :: n in nodes && m in nodes ==> Near(n.key, m.key)
  }

  ghost predicate InComparOrder(nodes: seq<Node>) {
    forall i, j :: 0 <= i < j < |nodes| ==> Compar(nodes[i].key, nodes[j].key) <= 0
  }

  lemma RearrangedIndexed(sorted: seq<Node>, nodes: seq<Node>, index: map<nat, Node>)
    requires Rearranges(sorted, nodes) && Indexed(nodes, index)
    ensures Indexed(sorted, index)
  {
    forall i | 0 <= i < |sorted| ensures sorted[i].id in index && index[sorted[i].id] == sorted[i] {
      assert sorted[i] in nodes;
    }
  }

  /** Between near start times the comparison's order is the order that is meant. */
  lemma OrderIsSorted(nodes: seq<Node>)
    ensures InComparOrder(nodes) && AllNear(nodes) ==> Sorted(Keys(nodes))
  {
    if InComparOrder(nodes) && AllNear(nodes) {
      forall i, j | 0 <= i < j < |nodes| ensures !Before(Keys(nodes)[j], Keys(nodes)[i]) {
        assert nodes[i] in nodes && nodes[j] in nodes;
        ComparNear(nodes[i].key, nodes[j].key);
      }
    }
  }

  /** A sorted list with a new node at its place is sorted. */
  lemma InsertedInOrder(nodes: seq<Node>, dt: Node)
    ensures Sorted(Keys(nodes)) && NearAll(dt, nodes) ==> Sorted(Keys(Inserted(nodes, PlaceOf(Keys(nodes), dt.key), dt)))
  {
    hide Sorted, PlaceOf, Near;
    if Sorted(Keys(nodes)) && NearAll(dt, nodes) {
      InsertionIsSortedAndStable(Keys(nodes), dt.key);
      KeysInserted(nodes, PlaceOf(Keys(nodes), dt.key), dt);
    }
  }

  ghost predicate NearAll(dt: Node, nodes: seq<Node>) {
    forall n :: n in nodes ==> Near(dt.key, n.key)
  }

  lemma KeysInserted(nodes: seq<Node>, p: nat, dt: Node)
    requires p <= |nodes|
    ensures Keys(Inserted(nodes, p, dt)) == Inserted(Keys(nodes), p, dt.key)
  {
    var r, keys := Inserted(nodes, p, dt), Keys(nodes);
    var a, b := Keys(r), Inserted(keys, p, dt.key);
    hide Keys, Inserted;
    forall i | 0 <= i < |a| ensures a[i] == b[i] {
      assert a[i] == r[i].key;
      if i < p { assert keys[i] == nodes[i].key; } else if i > p { assert keys[i - 1] == nodes[i - 1].key; }
    }
    assert a == b;
  }

  /** A sorted list without one of its nodes is sorted. */
  lemma RemovedInOrder(nodes: seq<Node>, p: nat)
    requires p < |nodes|
    ensures Sorted(Keys(nodes)) ==> Sorted(Keys(nodes[..p] + nodes[p + 1..]))
  {
    hide Before, Keys;
    var keys, r := Keys(nodes), nodes[..p] + nodes[p + 1..];
    if Sorted(keys) {
      forall i, j | 0 <= i < j < |r| ensures !Before(Keys(r)[j], Keys(r)[i]) {
        var u, v := if i < p then i else i + 1, if j < p then j else j + 1;
        assert r[i] == nodes[u] && r[j] == nodes[v];
        assert !Before(keys[v], keys[u]);
      }
    }
  }

  /** Start times in one window of 2^31 seconds; any start times near each other are. */
  predicate InWindow(k: Key, lo: int) {
    lo <= k.startTime < lo + INT_LIMIT
  }

  ghost predicate AllInWindow(nodes: seq<Node>, lo: int) {
    forall n :: n in nodes ==> InWindow(n.key, lo)
  }

  lemma WindowIsNear(nodes: seq<Node>, lo: int)
    ensures AllInWindow(nodes, lo) ==> AllNear(nodes)
  {
  }

  lemma SameWindow(sorted: seq<Node>, nodes: seq<Node>, lo: int)
    requires Rearranges(sorted, nodes)
    ensures AllInWindow(nodes, lo) ==> AllInWindow(sorted, lo)
    ensures (set n | n in sorted) == (set n | n in nodes)
  {
  }

  /** An entry as it arrives: its id and what the order looks at. */
  datatype Entry = Entry(id: nat, key: Key)

  datatype Op = Enter(e: Entry) | Leave(id: nat)

  ghost predicate EntriesInWindow(entries: seq<Entry>, lo: int) {
    forall i :: 0 <= i < |entries| ==> InWindow(entries[i].key, lo)
  }

  ghost predicate OpsInWindow(ops: seq<Op>, lo: int) {
    forall i :: 0 <= i < |ops| && ops[i].Enter? ==> InWindow(ops[i].e.key, lo)
  }

  /** What an index holds: the key of every entry. */
  ghost function ById(index: map<nat, Node>): (m: map<nat, Key>)
    ensures m.Keys == index.Keys
  {
    map x | x in index :: index[x].key
  }

  lemma ByIdEntered(index: map<nat, Node>, dt: Node)
    ensures ById(index[dt.id := dt]) == ById(index)[dt.id := dt.key]
  {
  }

  lemma ByIdLeft(index: map<nat, Node>, id: nat)
    ensures ById(index - {id}) == ById(index) - {id}
  {
  }

  /** An entry comes in under an id that is not in use. */
  function Entered(m: map<nat, Key>, e: Entry): map<nat, Key> {
    if e.id in m then m else m[e.id := e.key]
  }

  /** The entries that are listed after a run, and after a load. */
  ghost function HeldAfter(m: map<nat, Key>, ops: seq<Op>): map<nat, Key> {
    if ops == [] then m
    else
      var before := HeldAfter(m, ops[..|ops| - 1]);
      match ops[|ops| - 1]
      case Enter(e) => Entered(before, e)
      case Leave(id) => before - {id}
  }

  ghost function Loaded(m: map<nat, Key>, entries: seq<Entry>): map<nat, Key> {
    if entries == [] then m else Entered(Loaded(m, entries[..|entries| - 1]), entries[|entries| - 1])
  }

  /** A sort that may stand for qsort: it rearranges, and puts in order where the comparison is one. */
  method Sort(arr: seq<Node>) returns (sorted: seq<Node>)
    requires Distinct(arr)
    ensures Rearranges(sorted, arr) && (AllNear(arr) ==> InComparOrder(sorted))
  {
    hide Distinct, Sorted, Keys, Rearranges, AllNear, InComparOrder;
    sorted := [];
    NothingToSort();
    for i := 0 to |arr|
      invariant Rearranges(sorted, arr[..i]) && (AllNear(arr) ==> Sorted(Keys(sorted)))
    {
      var p := PlaceOf(Keys(sorted), arr[i].key);
      OneMoreSorted(sorted, arr, i);
      InsertedIs(sorted, p, arr[i]);
      sorted := sorted[..p] + [arr[i]] + sorted[p..];
    }
    assert arr[..|arr|] == arr;
    SortedIsOrder(sorted);
    RearrangedNear(sorted, arr);
  }

  lemma NothingToSort()
    ensures Sorted(Keys([])) && forall nodes: seq<Node> :: Rearranges([], nodes[..0])
  {
  }

  lemma RearrangedNear(sorted: seq<Node>, nodes: seq<Node>)
    ensures Rearranges(sorted, nodes) && AllNear(nodes) ==> AllNear(sorted)
  {
  }

  /** One step of the sort. */
  lemma OneMoreSorted(sorted: seq<Node>, arr: seq<Node>, i: nat)
    requires Distinct(arr) && i < |arr| && Rearranges(sorted, arr[..i])
    ensures var r := Inserted(sorted, PlaceOf(Keys(sorted), arr[i].key), arr[i]);
            Rearranges(r, arr[..i + 1]) && (AllNear(arr) && Sorted(Keys(sorted)) ==> Sorted(Keys(r)))
  {
    hide Distinct, Sorted, Keys, PlaceOf, Near, Inserted;
    var p := PlaceOf(Keys(sorted), arr[i].key);
    Apart(arr, i);
    assert arr[..i + 1] == arr[..i] + [arr[i]] && arr[i] !in arr[..i];
    InsertedInOrder(sorted, arr[i]);
    DistinctInserted(sorted, p, arr[i]);
    InsertedHolds(sorted, p, arr[i]);
    assert AllNear(arr) ==> NearAll(arr[i], sorted);
  }

  lemma InsertedHolds(nodes: seq<Node>, p: nat, dt: Node)
    requires p <= |nodes|
    ensures Inserted(nodes, p, dt) == nodes[..p] + [dt] + nodes[p..]
    ensures dt in Inserted(nodes, p, dt) && forall n :: n in nodes ==> n in Inserted(nodes, p, dt)
    ensures forall n :: n in Inserted(nodes, p, dt) ==> n == dt || n in nodes
  {
    var r := Inserted(nodes, p, dt);
    assert r[p] == dt && nodes == nodes[..p] + nodes[p..];
  }

  lemma SortedIsOrder(nodes: seq<Node>)
    ensures Sorted(Keys(nodes)) && AllNear(nodes) ==> InComparOrder(nodes)
  {
    if Sorted(Keys(nodes)) && AllNear(nodes) {
      forall i, j | 0 <= i < j < |nodes| ensures Compar(nodes[i].key, nodes[j].key) <= 0 {
        assert nodes[i] in nodes && nodes[j] in nodes;
        assert !Before(Keys(nodes)[j], Keys(nodes)[i]);
        ComparNear(nodes[i].key, nodes[j].key);
      }
    }
  }

  class List {
    var head: Node?
    var index: map<nat, Node>
    var deferSorting: bool
    ghost var nodes: seq<Node>

    ghost predicate Valid()
      reads this, nodes
    {
      Linked(nodes, head) && Indexed(nodes, index)
    }

    constructor ()
      ensures Valid() && nodes == [] && !deferSorting
    {
      head, index, deferSorting, nodes := null, map[], false, [];
    }

    /** Where the walk stops: before the first node the new one compares less than, or behind the last. */
    method Walk(dt: Node) returns (cur: Node, before: bool)
      requires Linked(nodes, head) && head != null
      ensures before <==> PlaceOf(Keys(nodes), dt.key) < |nodes|
      ensures cur == nodes[if before then PlaceOf(Keys(nodes), dt.key) else |nodes| - 1]
    {
      hide Distinct, Compar, PlaceOf, Keys;
      cur := head;
      ghost var p := 0;
      while true
        invariant p < |nodes| && cur == nodes[p]
        invariant forall i :: 0 <= i < p ==> Compar(dt.key, Keys(nodes)[i]) >= 0
        decreases |nodes| - p
      {
        assert LinkedAt(nodes, p);
        if Compar(dt.key, cur.key) < 0 {
          PlaceIs(Keys(nodes), dt.key, p);
          return cur, true;
        }
        if cur.next == null {
          PlaceIs(Keys(nodes), dt.key, p + 1);
          return cur, false;
        }
        cur, p := cur.next, p + 1;
      }
    }

    method PushFront(dt: Node)
      requires Linked(nodes, head) && dt !in nodes
      modifies `head, dt, nodes
      ensures Linked(Inserted(nodes, 0, dt), head)
    {
      hide Distinct;
      DistinctInserted(nodes, 0, dt);
      if nodes != [] { Apart(nodes, 0); }
      if head != null {
        head.prev := dt;
      }
      dt.next := head;
      dt.prev := null;
      head := dt;
      ghost var r := Inserted(nodes, 0, dt);
      forall i | 0 <= i < |r| ensures LinkedAt(r, i) {
        if i > 0 { assert old(LinkedAt(nodes, i - 1)); }
      }
    }

    method InsertBefore(cur: Node, dt: Node, ghost p: nat)
      requires Linked(nodes, head) && dt !in nodes && 0 < p < |nodes| && cur == nodes[p]
      modifies dt, nodes
      ensures Linked(Inserted(nodes, p, dt), head)
    {
      hide Distinct;
      DistinctInserted(nodes, p, dt);
      Apart(nodes, p);
      Apart(nodes, p - 1);
      assert LinkedAt(nodes, p) && LinkedAt(nodes, p - 1);
      dt.prev := cur.prev;
      if cur.prev != null {
        cur.prev.next := dt;
      }
      dt.next := cur;
      cur.prev := dt;
      ghost var r := Inserted(nodes, p, dt);
      forall i | 0 <= i < |r| ensures LinkedAt(r, i) {
        if i < p - 1 {
          assert old(LinkedAt(nodes, i));
        } else if i > p + 1 {
          assert old(LinkedAt(nodes, i - 1));
        }
      }
    }

    method Append(cur: Node, dt: Node)
      requires Linked(nodes, head) && dt !in nodes && |nodes| > 0 && cur == nodes[|nodes| - 1]
      modifies dt, nodes
      ensures Linked(Inserted(nodes, |nodes|, dt), head)
    {
      hide Distinct;
      DistinctInserted(nodes, |nodes|, dt);
      Apart(nodes, |nodes| - 1);
      dt.next := null;
      cur.next := dt;
      dt.prev := cur;
      ghost var r := Inserted(nodes, |nodes|, dt);
      forall i | 0 <= i < |r| ensures LinkedAt(r, i) {
        if i < |nodes| { assert old(LinkedAt(nodes, i)); }
      }
    }

    method Unlink(dt: Node, ghost p: nat)
      requires Linked(nodes, head) && p < |nodes| && nodes[p] == dt
      modifies `head, nodes
      ensures Linked(nodes[..p] + nodes[p + 1..], head)
    {
      hide Distinct;
      assert LinkedAt(nodes, p);
      Apart(nodes, p);
      if p > 0 { Apart(nodes, p - 1); }
      if p + 1 < |nodes| { Apart(nodes, p + 1); }
      DistinctRemoved(nodes, p);
      if head == dt {
        head := dt.next;
        if head != null {
          head.prev := null;
        }
      } else {
        dt.prev.next := dt.next;
        if dt.next != null {
          dt.next.prev := dt.prev;
        }
      }
      ghost var r := nodes[..p] + nodes[p + 1..];
      forall i | 0 <= i < |r| ensures LinkedAt(r, i) {
        assert r[i] == nodes[if i < p then i else i + 1];
        assert old(LinkedAt(nodes, if i < p then i else i + 1));
      }
    }

    /** Links a node in where it belongs, or in front while sorting is put off. */
    method Link(dt: Node)
      requires Linked(nodes, head) && dt !in nodes
      modifies `head, dt, nodes
      ensures Linked(Inserted(nodes, old(Place(dt.key)), dt), head)
    {
      hide LinkedAt, Distinct, Inserted;
      if deferSorting || head == null || Compar(dt.key, head.key) < 0 {
        if !deferSorting { PlaceIs(Keys(nodes), dt.key, 0); }
        PushFront(dt);
      } else {
        var cur, before := Walk(dt);
        if before {
          InsertBefore(cur, dt, PlaceOf(Keys(nodes), dt.key));
        } else {
          Append(cur, dt);
        }
      }
    }

    ghost function Place(k: Key): (p: nat)
      reads this
      ensures p <= |nodes|
    {
      if deferSorting then 0 else PlaceOf(Keys(nodes), k)
    }

    /** The list part of downtime_add. */
    method Add(dt: Node)
      requires Valid() && dt !in nodes && dt.id !in index
      modifies this, dt, nodes
      ensures Valid() && deferSorting == old(deferSorting)
      ensures index == old(index)[dt.id := dt] && nodes == Inserted(old(nodes), old(Place(dt.key)), dt)
      ensures !deferSorting && old(Sorted(Keys(nodes))) && NearAll(dt, old(nodes)) ==> Sorted(Keys(nodes))
    {
      hide LinkedAt, Distinct, Indexed, Sorted, NearAll, Keys, PlaceOf;
      ghost var p := Place(dt.key);
      if !deferSorting { InsertedInOrder(nodes, dt); }
      InsertedIndexed(nodes, index, p, dt);
      Link(dt);
      index := index[dt.id := dt];
      nodes := Inserted(nodes, p, dt);
    }

    /** downtime_remove. */
    method Remove(dt: Node, ghost p: nat)
      requires Valid() && p < |nodes| && nodes[p] == dt
      modifies this, nodes
      ensures Valid() && deferSorting == old(deferSorting)
      ensures index == old(index) - {dt.id} && nodes == old(nodes)[..p] + old(nodes)[p + 1..]
      ensures old(Sorted(Keys(nodes))) ==> Sorted(Keys(nodes))
    {
      hide Indexed, LinkedAt, Sorted;
      RemovedIndexed(nodes, index, p);
      RemovedInOrder(nodes, p);
      index := index - {dt.id};
      Unlink(dt, p);
      nodes := nodes[..p] + nodes[p + 1..];
    }

    /** The nodes as sort_downtime collects them for qsort. */
    method Collect() returns (arr: seq<Node>)
      requires Linked(nodes, head)
      ensures arr == nodes && Distinct(arr)
    {
      hide Distinct;
      arr := [];
      var cur := head;
      while cur != null
        invariant |arr| <= |nodes| && arr == nodes[..|arr|] && cur == At(nodes, |arr|)
        decreases |nodes| - |arr|
      {
        assert LinkedAt(nodes, |arr|);
        arr := arr + [cur];
        cur := cur.next;
      }
    }

    /** Gives the nodes of an array the links of their order there. */
    method Relink(arr: seq<Node>)
      requires arr != [] && Distinct(arr)
      modifies `head, arr
      ensures Linked(arr, head)
    {
      hide Distinct;
      head := arr[0];
      var cur := arr[0];
      Apart(arr, 0);
      cur.prev := null;
      for i := 1 to |arr|
        invariant cur == arr[i - 1] && head == arr[0]
        invariant forall j :: 0 <= j < i - 1 ==> LinkedAt(arr, j)
        invariant cur.prev == At(arr, i - 2)
      {
        Apart(arr, i);
        Apart(arr, i - 1);
        label L:
        cur.next := arr[i];
        cur := cur.next;
        cur.prev := arr[i - 1];
        assert LinkedAt(arr, i - 1);
        assert forall j :: 0 <= j < i - 1 && old@L(LinkedAt(arr, j)) ==> LinkedAt(arr, j);
      }
      Apart(arr, |arr| - 1);
      cur.next := null;
      assert forall j :: 0 <= j < |arr| ==> LinkedAt(arr, j);
    }

    /** sort_downtime, after loading with sorting put off; `sorted` is what qsort leaves behind. */
    method SortDowntime(sorted: seq<Node>)
      requires Valid() && Rearranges(sorted, nodes)
      requires AllNear(nodes) ==> InComparOrder(sorted)
      modifies this, nodes
      ensures Valid() && !deferSorting && index == old(index)
      ensures nodes == if old(deferSorting) then sorted else old(nodes)
      ensures old(deferSorting) && AllNear(nodes) ==> Sorted(Keys(nodes))
    {
      if !deferSorting {
        return;
      }
      deferSorting := false;
      var arr := Collect();
      if arr == [] {
        return;
      }
      arr := sorted;
      assert old(nodes)[0] in sorted;
      RearrangedIndexed(sorted, nodes, index);
      Relink(arr);
      nodes := arr;
      OrderIsSorted(nodes);
    }

    ghost predicate InOrder(lo: int)
      reads this
    {
      Sorted(Keys(nodes)) && AllInWindow(nodes, lo)
    }

    ghost function All(): set<Node>
      reads this
    {
      set n | n in nodes
    }

    method Enter(e: Entry, ghost lo: int)
      requires Valid()
      modifies this, All()
      ensures Valid() && deferSorting == old(deferSorting) && fresh(All() - old(All()))
      ensures ById(index) == Entered(old(ById(index)), e)
      ensures old(AllInWindow(nodes, lo)) && InWindow(e.key, lo) ==> AllInWindow(nodes, lo)
      ensures !deferSorting && old(InOrder(lo)) && InWindow(e.key, lo) ==> InOrder(lo)
    {
      hide Linked, Indexed, Sorted, Place, ById;
      if e.id !in index {
        var dt := new Node(e.id, e.key);
        ByIdEntered(index, dt);
        Add(dt);
        InsertedHolds(old(nodes), old(Place(e.key)), dt);
      }
    }

    method Leave(id: nat, ghost lo: int)
      requires Valid()
      modifies this, All()
      ensures Valid() && deferSorting == old(deferSorting) && fresh(All() - old(All()))
      ensures ById(index) == old(ById(index)) - {id}
      ensures old(InOrder(lo)) ==> InOrder(lo)
    {
      hide Linked, Indexed, Sorted, ById;
      ByIdLeft(index, id);
      if id in index {
        var dt := index[id];
        ghost var p := PlaceOfId(id);
        Remove(dt, p);
      } else {
        assert index - {id} == index;
      }
    }

    lemma PlaceOfId(id: nat) returns (p: nat)
      requires Indexed(nodes, index) && id in index
      ensures p < |nodes| && nodes[p] == index[id] && nodes[p].id == id
    {
      p :| p < |nodes| && nodes[p] == index[id];
    }

    /** Any run of additions and removals: the links and the index stay well formed and hold
        exactly the entries that came and did not go, and a sorted list stays sorted. */
    method Run(ops: seq<Op>, ghost lo: int)
      requires Valid() && !deferSorting
      modifies this, All()
      ensures Valid() && !deferSorting && fresh(All() - old(All()))
      ensures ById(index) == HeldAfter(old(ById(index)), ops)
      ensures old(InOrder(lo)) && OpsInWindow(ops, lo) ==> InOrder(lo)
    {
      hide Linked, Indexed, Sorted, ById;
      for i := 0 to |ops|
        invariant Valid() && !deferSorting && fresh(All() - old(All()))
        invariant ById(index) == HeldAfter(old(ById(index)), ops[..i])
        invariant old(InOrder(lo)) && OpsInWindow(ops, lo) ==> InOrder(lo)
      {
        assert ops[..i + 1][..i] == ops[..i];
        match ops[i]
        case Enter(e) => Enter(e, lo);
        case Leave(id) => Leave(id, lo);
      }
      assert ops[..|ops|] == ops;
    }

    /** Loading with sorting put off, sorting, and any run after that: the list ends sorted
        and well formed, whatever order the entries were loaded in. */
    method LoadSortAndRun(entries: seq<Entry>, ops: seq<Op>, ghost lo: int)
      requires Valid()
      modifies this, All()
      ensures Valid() && !deferSorting && fresh(All() - old(All()))
      ensures ById(index) == HeldAfter(Loaded(old(ById(index)), entries), ops)
      ensures old(AllInWindow(nodes, lo)) && EntriesInWindow(entries, lo) && OpsInWindow(ops, lo) ==> InOrder(lo)
    {
      hide Linked, Indexed, Sorted, ById;
      deferSorting := true;
      for i := 0 to |entries|
        invariant Valid() && deferSorting && fresh(All() - old(All()))
        invariant ById(index) == Loaded(old(ById(index)), entries[..i])
        invariant old(AllInWindow(nodes, lo)) && EntriesInWindow(entries, lo) ==> AllInWindow(nodes, lo)
      {
        assert entries[..i + 1][..i] == entries[..i];
        Enter(entries[i], lo);
      }
      assert entries[..|entries|] == entries;
      SortLoaded(lo);
      Run(ops, lo);
    }

    method SortLoaded(ghost lo: int)
      requires Valid() && deferSorting
      modifies this, All()
      ensures Valid() && !deferSorting && index == old(index) && fresh(All() - old(All()))
      ensures old(AllInWindow(nodes, lo)) ==> InOrder(lo)
    {
      hide Linked, Indexed, Sorted, Keys, Distinct, Rearranges, InComparOrder;
      var arr := Collect();
      var sorted := Sort(arr);
      RearrangedNear(sorted, arr);
      WindowIsNear(nodes, lo);
      SortDowntime(sorted);
      SameWindow(sorted, arr, lo);
    }
  }
}
