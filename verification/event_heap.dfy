/** Heap order on plain sequences of times: what one exchange of a parent and a
    child does to it.  The event queue keeps its array in step with such a sequence. */
module HeapOrder {
  datatype Timespec = Timespec(sec: int, nsec: int)

  /** evheap_compare: seconds first, then nanoseconds. */
  function Compare(a: Timespec, b: Timespec): int {
    if a.sec < b.sec then -1
    else if a.sec > b.sec then 1
    else if a.nsec < b.nsec then -1
    else if a.nsec > b.nsec then 1
    else 0
  }

  ghost predicate Leq(a: Timespec, b: Timespec) {
    Compare(a, b) <= 0
  }

  function Parent(i: nat): (p: nat)
    requires i > 0
    ensures p < i && (i == 2 * p + 1 || i == 2 * p + 2)
  {
    (i - 1) / 2
  }

  /** The edge above position i is in order. */
  ghost predicate InOrder(ts: seq<Timespec>, i: nat)
    requires 0 < i < |ts|
  {
    Leq(ts[Parent(i)], ts[i])
  }

  ghost predicate Ordered(ts: seq<Timespec>) {
    forall i :: 0 < i < |ts| ==> InOrder(ts, i)
  }

  /** Position k may hold anything: the edges at k are free, but what hangs
      below k fits below k's parent. */
  ghost predicate OrderedExceptAt(ts: seq<Timespec>, k: nat) {
    && (forall i :: 0 < i < |ts| && i != k && Parent(i) != k ==> InOrder(ts, i))
    && FitsAround(ts, k)
  }

  /** As above, and k may only be too small: the edges below it are in order. */
  ghost predicate OrderedExceptAbove(ts: seq<Timespec>, k: nat) {
    && (forall i :: 0 < i < |ts| && i != k ==> InOrder(ts, i))
    && FitsAround(ts, k)
  }

  /** As above, and k may only be too big: the edge above it is in order. */
  ghost predicate OrderedExceptBelow(ts: seq<Timespec>, k: nat) {
    && (forall i :: 0 < i < |ts| && Parent(i) != k ==> InOrder(ts, i))
    && FitsAround(ts, k)
  }

  ghost predicate FitsAround(ts: seq<Timespec>, k: nat) {
    forall i :: 0 < i < |ts| && Parent(i) == k && k > 0 && k < |ts| ==> Leq(ts[Parent(k)], ts[i])
  }

  ghost function Exchange(ts: seq<Timespec>, i: nat, j: nat): seq<Timespec>
    requires i < |ts| && j < |ts|
  {
    ts[i := ts[j]][j := ts[i]]
  }

  lemma OrderedFits(ts: seq<Timespec>, k: nat)
    requires Ordered(ts)
    ensures OrderedExceptAbove(ts, k)
  {
    forall i | 0 < i < |ts| && Parent(i) == k && k > 0 ensures Leq(ts[Parent(k)], ts[i]) {
      assert InOrder(ts, i) && InOrder(ts, k);
    }
  }

  /** One step up: the node and its parent change places. */
  lemma StepUp(ts: seq<Timespec>, k: nat)
    requires 0 < k < |ts| && OrderedExceptAbove(ts, k) && Leq(ts[k], ts[Parent(k)])
    ensures OrderedExceptAbove(Exchange(ts, Parent(k), k), Parent(k))
  {
    var p, us := Parent(k), Exchange(ts, Parent(k), k);
    forall i | 0 < i < |us| && i != p ensures InOrder(us, i) {
      if i != k && Parent(i) == p {
        assert InOrder(ts, i);
      } else if Parent(i) == k {
        assert Leq(ts[p], ts[i]);
      } else if i != k {
        assert InOrder(ts, i);
      }
    }
    forall i | 0 < i < |us| && Parent(i) == p && p > 0 ensures Leq(us[Parent(p)], us[i]) {
      assert InOrder(ts, p);
      if i != k { assert InOrder(ts, i); }
    }
  }

  /** One step down, the first or a later one: the node and its smaller child change places. */
  lemma StepDown(ts: seq<Timespec>, k: nat, c: nat)
    requires k < c < |ts| && Parent(c) == k && Leq(ts[c], ts[k])
    requires OrderedExceptAt(ts, k)
    requires forall i :: 0 < i < |ts| && Parent(i) == k ==> Leq(ts[c], ts[i])
    ensures OrderedExceptBelow(Exchange(ts, k, c), c)
  {
    var us := Exchange(ts, k, c);
    forall i | 0 < i < |us| && Parent(i) != c ensures InOrder(us, i) {
      if i == k {
        assert Leq(ts[Parent(k)], ts[c]);
      } else if Parent(i) != k {
        assert InOrder(ts, i);
      }
    }
    forall i | 0 < i < |us| && Parent(i) == c ensures Leq(us[Parent(c)], us[i]) {
      assert InOrder(ts, i);
    }
  }

  /** A node on its way down from some start has come to position k. */
  ghost predicate Sinking(ts: seq<Timespec>, start: nat, k: nat) {
    start <= k && if k == start then OrderedExceptAt(ts, k) else OrderedExceptBelow(ts, k)
  }

  /** The child of k to compare with: the left one unless the right one is strictly earlier. */
  ghost predicate IsSmallerChild(ts: seq<Timespec>, k: nat, c: nat) {
    && (c == 2 * k + 1 || c == 2 * k + 2) && c < |ts|
    && (2 * k + 2 < |ts| ==> c == if Compare(ts[2 * k + 1], ts[2 * k + 2]) > 0 then 2 * k + 2 else 2 * k + 1)
  }

  lemma SinkOn(ts: seq<Timespec>, start: nat, k: nat, c: nat)
    requires Sinking(ts, start, k) && IsSmallerChild(ts, k, c) && k < |ts| && !(Compare(ts[k], ts[c]) < 0)
    ensures Sinking(Exchange(ts, k, c), start, c)
  {
    StepDown(ts, k, c);
  }

  lemma EdgesBelow(ts: seq<Timespec>, k: nat, c: nat)
    requires 2 * k + 1 < |ts| ==> IsSmallerChild(ts, k, c) && Compare(ts[k], ts[c]) < 0
    ensures forall i :: 0 < i < |ts| && Parent(i) == k ==> InOrder(ts, i)
  {
    forall i | 0 < i < |ts| && Parent(i) == k ensures InOrder(ts, i) {
      assert i == 2 * k + 1 || i == 2 * k + 2;
    }
  }

  /** A position with nothing amiss above it either is in order. */
  lemma NothingAmiss(ts: seq<Timespec>, k: nat)
    requires OrderedExceptAbove(ts, k) && (0 < k < |ts| ==> InOrder(ts, k))
    ensures Ordered(ts)
  {
  }

  lemma SinkDone(ts: seq<Timespec>, start: nat, k: nat, c: nat)
    requires Sinking(ts, start, k)
    requires 2 * k + 1 < |ts| ==> IsSmallerChild(ts, k, c) && Compare(ts[k], ts[c]) < 0
    ensures OrderedExceptAbove(ts, start)
  {
    hide Compare, Leq, IsSmallerChild;
    EdgesBelow(ts, k, c);
    if k > start { OrderedFits(ts, start); }
  }

  /** The head of a heap is a minimum. */
  lemma {:induction false} HeadIsMinimum(ts: seq<Timespec>, i: nat)
    requires Ordered(ts) && i < |ts|
    ensures Leq(ts[0], ts[i])
  {
    if i > 0 {
      HeadIsMinimum(ts, Parent(i));
      assert InOrder(ts, i);
    }
  }
}
