/** Which downtime triggers which: a forest given by "triggered by" links, some
    of which may lead nowhere any more. */
module Triggers {
  /** From the id of an entry to the id it is triggered by, 0 for none. */
  type Links = map<nat, nat>

  /** Triggers are older than what they trigger, so the links cannot run in a circle. */
  ghost predicate Ranked(t: Links, rank: map<nat, nat>) {
    t.Keys <= rank.Keys && forall y :: y in t && t[y] in t ==> rank[t[y]] < rank[y]
  }

  /** Going up from y one comes to x. */
  ghost predicate Below(t: Links, rank: map<nat, nat>, y: nat, x: nat)
    requires Ranked(t, rank)
    decreases if y in t then rank[y] else 0
  {
    y in t && (y == x || (t[y] in t && Below(t, rank, t[y], x)))
  }

  /** An entry and everything transitively triggered by it. */
  ghost function Tree(t: Links, rank: map<nat, nat>, x: nat): (s: set<nat>)
    requires Ranked(t, rank)
  {
    set y | y in t && Below(t, rank, y, x)
  }

  ghost predicate IsChild(t: Links, y: nat, x: nat) {
    y in t && t[y] == x
  }

  lemma {:induction false} BelowHasRank(t: Links, rank: map<nat, nat>, y: nat, x: nat)
    requires Ranked(t, rank) && Below(t, rank, y, x)
    ensures x in t && rank[x] <= rank[y] && (rank[x] == rank[y] ==> x == y)
    decreases rank[y]
  {
    if y != x { BelowHasRank(t, rank, t[y], x); }
  }

  lemma {:induction false} BelowTransitive(t: Links, rank: map<nat, nat>, z: nat, y: nat, x: nat)
    requires Ranked(t, rank) && Below(t, rank, z, y) && Below(t, rank, y, x)
    ensures Below(t, rank, z, x)
    decreases rank[z]
  {
    if z != y { BelowTransitive(t, rank, t[z], y, x); }
  }

  /** The tree of a child is part of the tree of its trigger, and does not hold the trigger. */
  lemma ChildTree(t: Links, rank: map<nat, nat>, c: nat, x: nat)
    requires Ranked(t, rank) && IsChild(t, c, x) && x in t
    ensures Tree(t, rank, c) <= Tree(t, rank, x) - {x} && c in Tree(t, rank, c) && rank[x] < rank[c]
  {
    assert Below(t, rank, x, x) && Below(t, rank, c, x);
    forall y | y in Tree(t, rank, c) ensures y in Tree(t, rank, x) && y != x {
      BelowTransitive(t, rank, y, c, x);
      BelowHasRank(t, rank, y, c);
    }
  }

  /** Part of a forest, with every trigger that was there and is not x still there. */
  ghost predicate Kept(t: Links, u: Links, x: nat) {
    && (forall y :: y in u ==> y in t && u[y] == t[y])
    && (forall y :: y in u && t[y] in t && t[y] != x ==> t[y] in u)
  }

  /** Anything left of a tree hangs from a child of its root. */
  lemma {:induction false} LeftoverHasChild(t: Links, u: Links, rank: map<nat, nat>, y: nat, x: nat)
    requires Ranked(t, rank) && Kept(t, u, x) && y in u && y != x && Below(t, rank, y, x)
    ensures exists c :: IsChild(u, c, x)
    decreases rank[y]
  {
    if t[y] == x {
      assert IsChild(u, y, x);
    } else {
      LeftoverHasChild(t, u, rank, t[y], x);
    }
  }

  /** Whatever hangs below an entry in part of a forest hangs below it in the whole. */
  lemma {:induction false} BelowInWhole(t: Links, u: Links, rank: map<nat, nat>, z: nat, y: nat)
    requires Ranked(t, rank) && Ranked(u, rank) && Below(u, rank, z, y)
    requires forall i :: i in u ==> i in t && u[i] == t[i]
    ensures Below(t, rank, z, y)
    decreases rank[z]
  {
    if z != y { BelowInWhole(t, u, rank, t[z], y); }
  }

  /** Everything in a tree but its root is in the tree of a child of the root. */
  lemma {:induction false} InTreeOfChild(t: Links, rank: map<nat, nat>, y: nat, x: nat)
    requires Ranked(t, rank) && Below(t, rank, y, x) && y != x
    ensures exists c :: IsChild(t, c, x) && Below(t, rank, y, c)
    decreases rank[y]
  {
    if t[y] == x {
      assert IsChild(t, y, x) && Below(t, rank, y, y);
    } else {
      InTreeOfChild(t, rank, t[y], x);
      var c :| IsChild(t, c, x) && Below(t, rank, t[y], c);
      assert Below(t, rank, y, c);
    }
  }

  /** The trees of two children of one entry have nothing in common. */
  lemma {:induction false} ChildTreesApart(t: Links, rank: map<nat, nat>, y: nat, c: nat, d: nat, x: nat)
    requires Ranked(t, rank) && x in t && IsChild(t, c, x) && IsChild(t, d, x)
    requires Below(t, rank, y, c) && Below(t, rank, y, d)
    ensures c == d
    decreases rank[y]
  {
    if y == c && c != d {
      BelowHasRank(t, rank, x, d);
    } else if y == d && c != d {
      BelowHasRank(t, rank, x, c);
    } else if c != d {
      ChildTreesApart(t, rank, t[y], c, d, x);
    }
  }

  /** Taking the tree of a child out of what is left of a forest keeps it a part of that kind. */
  lemma KeptWithout(t: Links, u: Links, rank: map<nat, nat>, c: nat, x: nat)
    requires Ranked(t, rank) && Ranked(u, rank) && Kept(t, u, x) && x in t && IsChild(u, c, x)
    ensures Tree(u, rank, c) <= Tree(t, rank, x) - {x}
    ensures Kept(t, u - Tree(u, rank, c), x)
  {
    ChildTree(t, rank, c, x);
    forall z | z in Tree(u, rank, c) ensures z in Tree(t, rank, c) {
      BelowInWhole(t, u, rank, z, c);
    }
    var w := u - Tree(u, rank, c);
    forall y | y in w && t[y] in t && t[y] != x ensures t[y] in w {
      if t[y] in Tree(u, rank, c) { assert Below(u, rank, y, c); }
    }
  }

  /** The tree of an entry is the least set that holds it and, with an entry, all it triggers. */
  lemma {:induction false} TreeIsLeast(t: Links, rank: map<nat, nat>, x: nat, s: set<nat>)
    requires Ranked(t, rank) && x in t
    ensures x in Tree(t, rank, x)
    ensures forall y, z :: y in Tree(t, rank, x) && IsChild(t, z, y) ==> z in Tree(t, rank, x)
    ensures x in s && (forall y, z :: y in s && IsChild(t, z, y) ==> z in s) ==> Tree(t, rank, x) <= s
  {
    RootInTree(t, rank, x);
    if x in s && forall y, z :: y in s && IsChild(t, z, y) ==> z in s {
      forall y | y in Tree(t, rank, x) ensures y in s {
        ClosedHolds(t, rank, y, x, s);
      }
    }
  }

  lemma {:induction false} ClosedHolds(t: Links, rank: map<nat, nat>, y: nat, x: nat, s: set<nat>)
    requires Ranked(t, rank) && Below(t, rank, y, x) && x in s
    requires forall y, z :: y in s && IsChild(t, z, y) ==> z in s
    ensures y in s
    decreases rank[y]
  {
    if y != x {
      ClosedHolds(t, rank, t[y], x, s);
      assert IsChild(t, y, t[y]);
    }
  }

  /** An entry that triggers nothing is all of its tree. */
  lemma LoneTree(t: Links, rank: map<nat, nat>, x: nat)
    requires Ranked(t, rank) && x in t && forall y :: !IsChild(t, y, x)
    ensures Tree(t, rank, x) == {x}
  {
    RootInTree(t, rank, x);
    forall y | y in Tree(t, rank, x) ensures y == x {
      if y != x { InTreeOfChild(t, rank, y, x); }
    }
  }

  lemma RootInTree(t: Links, rank: map<nat, nat>, x: nat)
    requires Ranked(t, rank) && x in t
    ensures x in Tree(t, rank, x)
  {
    assert Below(t, rank, x, x);
  }
}
