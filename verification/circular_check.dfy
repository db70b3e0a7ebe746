/** The circularity check run before start-up: four depth-first searches that
    share one array of marks.  The host search counts errors and goes on; the
    dependency and time period searches return at the first error and leave
    their open nodes half marked. */
module CircularCheck {
  import opened Basics
  import opened Graphs

  const UNCHECKED := 0
  const TEMP_CHECKED := 1
  const CHECKED_OK := 2

  datatype DependencyKind = Notification | Execution

  datatype Dependency = Dependency(kind: DependencyKind, dependent: nat, master: nat)

  /** The dependencies of one object type: the records, and per object the
      records it is the dependent of, one list for each kind. */
  datatype DependencyTable = DependencyTable(deps: seq<Dependency>, notify: seq<seq<nat>>, exec: seq<seq<nat>>) {
    /** Dependency d is in the list of one kind of object s. */
    ghost predicate Lists(kind: DependencyKind, s: nat, d: nat) {
      s < |notify| && s < |exec| && d in (if kind == Notification then notify[s] else exec[s])
    }

    ghost predicate Valid() {
      && |notify| == |exec|
      && (forall d :: 0 <= d < |deps| ==> deps[d].master < |notify|)
      && (forall kind, s: nat, d: nat :: Lists(kind, s, d) ==> d < |deps| && deps[d].kind == kind)
    }

    /** What the search follows: from a dependency to its master's dependencies of the same kind. */
    function Next(): (g: Graph)
      requires Valid()
    {
      seq(|deps|, d requires 0 <= d < |deps| =>
        if deps[d].kind == Notification then notify[deps[d].master] else exec[deps[d].master])
    }

    /** What an administrator means by it: from an object to the objects it depends on. */
    ghost function Masters(kind: DependencyKind): (g: Graph)
      requires Valid()
    {
      seq(|notify|, s requires 0 <= s < |notify| => MastersOf(if kind == Notification then notify[s] else exec[s]))
    }

    ghost function MastersOf(list: seq<nat>): (masters: seq<nat>)
      requires Valid()
      ensures forall m :: m in masters <==> exists d :: d in list && d < |deps| && deps[d].master == m
    {
      if list == [] then []
      else if list[0] < |deps| then [deps[list[0]].master] + MastersOf(list[1..])
      else MastersOf(list[1..])
    }
  }

  datatype Config = Config(children: Graph, services: DependencyTable, hosts: DependencyTable, exclusions: Graph) {
    ghost predicate Valid() {
      WellFormed(children) && WellFormed(exclusions) && services.Valid() && hosts.Valid()
    }

    /** None of the six relations that must be free of cycles has one. */
    ghost predicate CycleFree()
      requires Valid()
    {
      && Acyclic(children) && Acyclic(exclusions)
      && forall kind :: Acyclic(services.Masters(kind)) && Acyclic(hosts.Masters(kind))
    }
  }

  lemma NextEdge(t: DependencyTable, d: nat, e: nat)
    requires t.Valid()
    ensures Edge(t.Next(), d, e) <==> d < |t.deps| && t.Lists(t.deps[d].kind, t.deps[d].master, e)
  {
  }

  lemma MastersEdge(t: DependencyTable, kind: DependencyKind, s: nat, m: nat)
    requires t.Valid()
    ensures Edge(t.Masters(kind), s, m) <==> exists d: nat :: t.Lists(kind, s, d) && t.deps[d].master == m
  {
    if Edge(t.Masters(kind), s, m) {
      var list := if kind == Notification then t.notify[s] else t.exec[s];
      var d :| d in list && d < |t.deps| && t.deps[d].master == m;
      assert t.Lists(kind, s, d);
    }
  }

  /** From an object to the masters in its list of notification or of execution dependencies. */
  lemma MastersAre(t: DependencyTable, s: nat, m: nat)
    requires t.Valid()
    ensures Edge(t.Masters(Notification), s, m) <==>
              s < |t.notify| && exists d: nat :: d in t.notify[s] && d < |t.deps| && t.deps[d].master == m
    ensures Edge(t.Masters(Execution), s, m) <==>
              s < |t.exec| && exists d: nat :: d in t.exec[s] && d < |t.deps| && t.deps[d].master == m
  {
    MastersEdge(t, Notification, s, m);
    MastersEdge(t, Execution, s, m);
    forall d: nat | t.Lists(Notification, s, d) || t.Lists(Execution, s, d) ensures d < |t.deps| {
    }
    if s < |t.notify| {
      forall d: nat | d in t.notify[s] ensures t.Lists(Notification, s, d) {
      }
      forall d: nat | d in t.exec[s] ensures t.Lists(Execution, s, d) {
      }
    }
  }

  lemma TablesAreWellFormed(t: DependencyTable)
    requires t.Valid()
    ensures WellFormed(t.Next()) && forall kind :: WellFormed(t.Masters(kind))
  {
    forall d, e | 0 <= d < |t.Next()| && e in t.Next()[d] ensures e < |t.Next()| {
      assert Edge(t.Next(), d, e);
      NextEdge(t, d, e);
    }
    forall kind, s, m | 0 <= s < |t.Masters(kind)| && m in t.Masters(kind)[s] ensures m < |t.Masters(kind)| {
      assert Edge(t.Masters(kind), s, m);
      MastersEdge(t, kind, s, m);
    }
  }

  /** The search walks over dependencies; what matters is the relation between
      objects.  One has a cycle exactly when the other has one. */
  lemma NextAcyclicIffMastersAcyclic(t: DependencyTable)
    requires t.Valid()
    ensures Acyclic(t.Next()) <==> forall kind :: Acyclic(t.Masters(kind))
  {
    forall p | IsCycle(t.Next(), p) ensures !Acyclic(t.Masters(t.deps[p[0]].kind)) {
      CycleOfMasters(t, p);
    }
    forall kind, p | IsCycle(t.Masters(kind), p) ensures !Acyclic(t.Next()) {
      CycleOfDependencies(t, kind, p);
    }
  }

  lemma CycleOfMasters(t: DependencyTable, p: seq<nat>)
    requires t.Valid() && IsCycle(t.Next(), p)
    ensures !Acyclic(t.Masters(t.deps[p[0]].kind))
  {
    var kind := t.deps[p[0]].kind;
    var q: seq<nat> := seq(|p|, i requires 0 <= i < |p| => if p[i] < |t.deps| then t.deps[p[i]].master else 0);
    SameKindAlongPath(t, p, |p| - 1);
    SameKindAlongPath(t, p, 0);
    forall i | 0 < i < |q| ensures Edge(t.Masters(kind), q[i - 1], q[i]) {
      SameKindAlongPath(t, p, i - 1);
      SameKindAlongPath(t, p, i);
      assert Edge(t.Next(), p[i - 1], p[i]);
      NextEdge(t, p[i - 1], p[i]);
      MastersEdge(t, kind, q[i - 1], q[i]);
    }
    assert IsCycle(t.Masters(kind), q);
  }

  lemma {:induction false} SameKindAlongPath(t: DependencyTable, p: seq<nat>, i: nat)
    requires t.Valid() && IsPath(t.Next(), p) && i < |p|
    ensures p[i] < |t.deps| && t.deps[p[i]].kind == t.deps[p[0]].kind
  {
    if i > 0 {
      SameKindAlongPath(t, p, i - 1);
      assert Edge(t.Next(), p[i - 1], p[i]);
      NextEdge(t, p[i - 1], p[i]);
    }
  }

  lemma CycleOfDependencies(t: DependencyTable, kind: DependencyKind, p: seq<nat>)
    requires t.Valid() && IsCycle(t.Masters(kind), p)
    ensures !Acyclic(t.Next())
  {
    var e := DependenciesAlong(t, kind, p, |p| - 1);
    var c := e + [e[0]];
    forall i | 0 < i < |c| ensures Edge(t.Next(), c[i - 1], c[i]) {
      NextEdge(t, c[i - 1], c[i]);
    }
    assert IsCycle(t.Next(), c);
  }

  lemma DependencyOfEdge(t: DependencyTable, kind: DependencyKind, p: seq<nat>, n: nat) returns (d: nat)
    requires t.Valid() && IsPath(t.Masters(kind), p) && n + 1 < |p|
    ensures t.Lists(kind, p[n], d) && t.deps[d].master == p[n + 1]
  {
    assert Edge(t.Masters(kind), p[n], p[n + 1]);
    MastersEdge(t, kind, p[n], p[n + 1]);
    d :| t.Lists(kind, p[n], d) && t.deps[d].master == p[n + 1];
  }

  /** A dependency for each of the first n edges of a path. */
  lemma {:induction false} DependenciesAlong(t: DependencyTable, kind: DependencyKind, p: seq<nat>, n: nat)
    returns (e: seq<nat>)
    requires t.Valid() && IsPath(t.Masters(kind), p) && n < |p|
    ensures |e| == n
    ensures forall i :: 0 <= i < n ==> t.Lists(kind, p[i], e[i]) && t.deps[e[i]].master == p[i + 1]
  {
    hide DependencyTable.Valid, DependencyTable.Masters, IsPath;
    if n == 0 {
      e := [];
    } else {
      e := DependenciesAlong(t, kind, p, n - 1);
      var d := DependencyOfEdge(t, kind, p, n - 1);
      e := e + [d];
    }
  }

  /** The first n of some nodes are done. */
  ghost predicate Finished(vs: seq<nat>, n: nat, ok: set<nat>)
    requires n <= |vs|
  {
    forall j :: 0 <= j < n ==> vs[j] in ok
  }

  lemma FinishedOne(vs: seq<nat>, n: nat, before: set<nat>, after: set<nat>)
    requires n < |vs| && Finished(vs, n, before) && before <= after && vs[n] in after
    ensures Finished(vs, n + 1, after)
  {
  }

  lemma FinishedAll(vs: seq<nat>, ok: set<nat>)
    requires Finished(vs, |vs|, ok)
    ensures forall v :: v in vs ==> v in ok
  {
  }

  class Search {
    var ary: array<int>
    var errors: int
    ghost var todo: set<nat>         // the nodes still unchecked
    ghost var rank: map<nat, nat>    // the nodes found OK, numbered as they were finished
    ghost var reports: seq<nat>      // the nodes named in an error message

    constructor (alloc: nat)
      ensures ary.Length == alloc && fresh(ary) && errors == 0 && reports == []
      ensures forall v :: 0 <= v < alloc ==> ary[v] == UNCHECKED
    {
      ary := new int[alloc](_ => UNCHECKED);
      errors := 0;
      todo, rank, reports := {}, map[], [];
    }

    static ghost function Below(n: nat): (s: set<nat>)
      ensures forall v: nat :: v in s <==> v < n
    {
      if n == 0 then {} else Below(n - 1) + {n - 1}
    }

    static lemma BelowOne(n: nat, s: set<nat>)
      ensures Below(0) <= s && (Below(n) <= s && n in s ==> Below(n + 1) <= s)
    {
    }

    ghost predicate Marks(g: Graph)
      reads this`ary, this`todo, ary
    {
      && |g| <= ary.Length
      && (forall v :: v in todo ==> v < |g|)
      && (forall v :: 0 <= v < |g| ==> (ary[v] == UNCHECKED <==> v in todo))
      && (forall v :: 0 <= v < |g| ==> ary[v] in {UNCHECKED, TEMP_CHECKED, CHECKED_OK})
    }

    /** The half-marked nodes are exactly the open path. */
    ghost predicate Open(g: Graph, stack: seq<nat>)
      reads this`ary, this`todo, ary
      requires Marks(g)
    {
      && (forall v :: 0 <= v < |g| ==> (ary[v] == TEMP_CHECKED <==> v in stack))
      && (stack == [] || IsPath(g, stack))
    }

    /** The nodes marked OK are closed under successors and numbered downwards. */
    ghost predicate Closed(g: Graph)
      reads this`ary, this`todo, this`rank, ary
      requires Marks(g)
    {
      && (forall v :: v in rank ==> v < |g| && rank[v] < |rank|)
      && (forall v :: 0 <= v < |g| ==> (ary[v] == CHECKED_OK <==> v in rank))
      && Descending(g, rank)
    }

    /** Every node named in an error message does lie on a cycle. */
    ghost predicate AllOnCycles(g: Graph)
      reads this`reports
    {
      forall v :: v in reports ==> OnCycle(g, v)
    }

    ghost predicate OnTop(g: Graph, stack: seq<nat>, root: nat) {
      root < |g| && (stack == [] || Edge(g, stack[|stack| - 1], root))
    }

    /** Opens a node: it joins the path. */
    method MarkTemp(g: Graph, root: nat, ghost stack: seq<nat>, ghost clean: bool)
      requires WellFormed(g) && Marks(g) && root < |g| && ary[root] == UNCHECKED
      requires clean ==> Open(g, stack) && OnTop(g, stack, root)
      modifies this`todo, ary
      ensures Marks(g) && todo == old(todo) - {root} && root in old(todo) && ary[root] == TEMP_CHECKED
      ensures clean ==> Open(g, stack + [root])
      ensures old(Closed(g)) ==> Closed(g)
    {
      ary[root] := TEMP_CHECKED;
      todo := todo - {root};
      if clean {
        assert IsPath(g, [root]);
        if stack != [] { JoinPaths(g, stack, [root]); }
      }
    }

    /** Closes a node whose successors are all done: it gets the next number. */
    method MarkOk(g: Graph, root: nat, ghost stack: seq<nat>, ghost clean: bool, ghost done: bool)
      requires WellFormed(g) && Marks(g) && root < |g| && ary[root] == TEMP_CHECKED
      requires clean ==> Open(g, stack + [root]) && root !in stack && (stack == [] || IsPath(g, stack))
      requires done ==> Closed(g) && forall v :: v in g[root] ==> v in rank.Keys
      modifies this`rank, ary
      ensures Marks(g) && ary[root] == CHECKED_OK
      ensures clean ==> Open(g, stack)
      ensures done ==> Closed(g) && rank.Keys == old(rank.Keys) + {root}
    {
      ary[root] := CHECKED_OK;
      ghost var was := rank;
      rank := rank[root := |rank|];
      if done {
        assert root !in was;
        assert rank.Keys == was.Keys + {root};
        forall u, v | u in rank && Edge(g, u, v) ensures v in rank && rank[v] < rank[u] {
          if u != root { assert v in was; }
        }
      }
    }

    /** Searches below one host; every further error is counted. */
    method DfsHostPath(g: Graph, root: nat, ghost stack: seq<nat>)
      requires WellFormed(g) && Marks(g) && Open(g, stack) && OnTop(g, stack, root)
      requires errors == |reports| && AllOnCycles(g)
      requires errors == 0 ==> Closed(g)
      modifies this`errors, this`todo, this`rank, this`reports, ary
      ensures Marks(g) && Open(g, stack) && todo <= old(todo)
      ensures errors == |reports| >= old(errors) && AllOnCycles(g)
      ensures errors == 0 ==> Closed(g) && root in rank.Keys && old(rank.Keys) <= rank.Keys
      decreases todo, 0
    {
      if ary[root] == TEMP_CHECKED {
        BackEdgeClosesCycle(g, stack, root);
        errors := errors + 1;
        reports := reports + [root];
        return;
      } else if ary[root] != UNCHECKED {
        if ary[root] != CHECKED_OK {
          assert false;  // a further error would be counted here, but there is no such mark
        }
        return;
      }
      MarkTemp(g, root, stack, true);
      DfsHostChildren(g, root, stack + [root]);
      assert root in stack + [root];
      if ary[root] == TEMP_CHECKED {
        MarkOk(g, root, stack, true, errors == 0);
      }
      if ary[root] != CHECKED_OK {
        assert false;
      }
    }

    /** The traversal of a host's children. */
    method DfsHostChildren(g: Graph, root: nat, ghost stack: seq<nat>)
      requires WellFormed(g) && Marks(g) && Open(g, stack)
      requires root < |g| && stack != [] && stack[|stack| - 1] == root
      requires errors == |reports| && AllOnCycles(g)
      requires errors == 0 ==> Closed(g)
      modifies this`errors, this`todo, this`rank, this`reports, ary
      ensures Marks(g) && Open(g, stack) && todo <= old(todo)
      ensures errors == |reports| >= old(errors) && AllOnCycles(g)
      ensures errors == 0 ==> Closed(g) && old(rank.Keys) <= rank.Keys
      ensures errors == 0 ==> forall v :: v in g[root] ==> v in rank.Keys
      decreases todo, 1
    {
      assert Finished(g[root], 0, rank.Keys);
      hide Search.Marks, Search.Open, Search.Closed, Search.AllOnCycles, Finished;
      var i := 0;
      while i < |g[root]|
        invariant i <= |g[root]|
        invariant Marks(g) && Open(g, stack) && todo <= old(todo)
        invariant errors == |reports| >= old(errors) && AllOnCycles(g)
        invariant errors == 0 ==> Closed(g) && old(rank.Keys) <= rank.Keys && Finished(g[root], i, rank.Keys)
      {
        ghost var was := rank.Keys;
        assert Edge(g, root, g[root][i]);
        DfsHostPath(g, g[root][i], stack);
        if errors == 0 { FinishedOne(g[root], i, was, rank.Keys); }
        i := i + 1;
      }
      if errors == 0 { FinishedAll(g[root], rank.Keys); }
    }

    /** Searches below one dependency or time period; returns at the first error.
        The contract speaks of a clean start only: after an error the marks left
        behind mean nothing, and all that is kept is that the search ends. */
    method DfsPath(g: Graph, root: nat, ghost stack: seq<nat>, ghost clean: bool) returns (ret: int, ghost named: nat)
      requires WellFormed(g) && Marks(g) && root < |g|
      requires clean ==> Open(g, stack) && Closed(g) && OnTop(g, stack, root)
      modifies this`todo, this`rank, this`reports, ary
      ensures Marks(g) && todo <= old(todo) && root !in todo
      ensures ret in {0, 1} && reports == if ret == 0 then old(reports) else old(reports) + [named]
      ensures clean && ret == 0 ==> Open(g, stack) && Closed(g) && root in rank.Keys && old(rank.Keys) <= rank.Keys
      ensures clean && ret == 1 ==> OnCycle(g, named)
      decreases todo, 0
    {
      if ary[root] == TEMP_CHECKED {
        if clean { BackEdgeClosesCycle(g, stack, root); }
        reports := reports + [root];
        return 1, root;
      } else if ary[root] != UNCHECKED {
        return (if ary[root] != CHECKED_OK then 1 else 0), root;
      }
      MarkTemp(g, root, stack, clean);
      ret, named := DfsSuccessors(g, root, stack + [root], clean);
      if ret != 0 {
        return;
      }
      assert root in stack + [root];
      if ary[root] == TEMP_CHECKED {
        MarkOk(g, root, stack, clean, clean);
      }
      return (if ary[root] != CHECKED_OK then 1 else 0), root;
    }

    /** The loop over the successors of an open node. */
    method DfsSuccessors(g: Graph, root: nat, ghost stack: seq<nat>, ghost clean: bool)
      returns (ret: int, ghost named: nat)
      requires WellFormed(g) && Marks(g) && root < |g|
      requires clean ==> Open(g, stack) && Closed(g) && stack != [] && stack[|stack| - 1] == root
      modifies this`todo, this`rank, this`reports, ary
      ensures Marks(g) && todo <= old(todo)
      ensures ret in {0, 1} && reports == if ret == 0 then old(reports) else old(reports) + [named]
      ensures clean && ret == 0 ==> Open(g, stack) && Closed(g) && old(rank.Keys) <= rank.Keys
      ensures clean && ret == 0 ==> forall v :: v in g[root] ==> v in rank.Keys
      ensures clean && ret == 1 ==> OnCycle(g, named)
      decreases todo, 1
    {
      assert Finished(g[root], 0, rank.Keys);
      hide Search.Marks, Search.Open, Search.Closed, Finished;
      var i := 0;
      ret, named := 0, root;
      while i < |g[root]|
        invariant i <= |g[root]| && ret == 0
        invariant Marks(g) && todo <= old(todo) && reports == old(reports)
        invariant clean ==> Open(g, stack) && Closed(g) && old(rank.Keys) <= rank.Keys
        invariant clean ==> Finished(g[root], i, rank.Keys)
      {
        ghost var was := rank.Keys;
        assert Edge(g, root, g[root][i]);
        ret, named := DfsPath(g, g[root][i], stack, clean);
        if ret != 0 {
          return;
        }
        if clean { FinishedOne(g[root], i, was, rank.Keys); }
        i := i + 1;
      }
      if clean { FinishedAll(g[root], rank.Keys); }
    }

    /** No report yet: the marks are clean.  Otherwise the first report was true. */
    ghost predicate Sound(g: Graph)
      reads this`ary, this`todo, this`rank, this`reports, ary
      requires Marks(g)
    {
      if reports == [] then Open(g, []) && Closed(g) else OnCycle(g, reports[0])
    }

    /** Clears the marks of the previous search. */
    method Clear(ghost g: Graph)
      requires WellFormed(g) && |g| <= ary.Length
      modifies this`todo, this`rank, this`reports, ary
      ensures Marks(g) && Sound(g) && reports == []
    {
      forall i | 0 <= i < ary.Length {
        ary[i] := UNCHECKED;
      }
      todo, rank, reports := Below(|g|), map[], [];
    }

    /** Searches below each root of a list and counts the failures. */
    method DfsPaths(g: Graph, roots: seq<nat>)
      requires WellFormed(g) && Marks(g) && Sound(g)
      requires forall v :: v in roots ==> v < |g|
      modifies this`errors, this`todo, this`rank, this`reports, ary
      ensures Marks(g) && Sound(g)
      ensures errors - old(errors) == |reports| - |old(reports)| >= 0
      ensures reports == [] ==> old(rank.Keys) <= rank.Keys && forall v :: v in roots ==> v in rank.Keys
    {
      assert Finished(roots, 0, rank.Keys);
      hide Search.Marks, Search.Sound, Finished;
      var i := 0;
      while i < |roots|
        invariant i <= |roots|
        invariant Marks(g) && Sound(g)
        invariant errors - old(errors) == |reports| - |old(reports)| >= 0
        invariant reports == [] ==> old(rank.Keys) <= rank.Keys && Finished(roots, i, rank.Keys)
      {
        ghost var was := rank.Keys;
        assert roots[i] in roots;
        DfsRoot(g, roots[i]);
        if reports == [] { FinishedOne(roots, i, was, rank.Keys); }
        i := i + 1;
      }
      if reports == [] { FinishedAll(roots, rank.Keys); }
    }

    method DfsRoot(g: Graph, root: nat)
      requires WellFormed(g) && Marks(g) && Sound(g) && root < |g|
      modifies this`errors, this`todo, this`rank, this`reports, ary
      ensures Marks(g) && Sound(g)
      ensures errors - old(errors) == |reports| - |old(reports)| >= 0
      ensures reports == [] ==> old(rank.Keys) <= rank.Keys && root in rank.Keys
    {
      hide Search.Marks, Search.Open, Search.Closed, OnCycle;
      var ret, _ := DfsPath(g, root, [], reports == []);
      errors := errors + ret;
    }

    /** The check for circular paths between hosts: every host named in an error lies on a cycle. */
    method CheckHosts(g: Graph)
      requires WellFormed(g) && |g| <= ary.Length && errors == 0
      requires forall v :: 0 <= v < ary.Length ==> ary[v] == UNCHECKED
      modifies this, ary
      ensures ary == old(ary) && errors >= 0
      ensures AllOnCycles(g) && errors == |reports|
      ensures errors == 0 <==> Acyclic(g)
    {
      hide Search.Marks, Search.Open, Search.Closed, Search.AllOnCycles, Search.Below, Acyclic, WellFormed;
      todo, rank, reports := Below(|g|), map[], [];
      CleanStart(g);
      BelowOne(0, {});
      var h := 0;
      while h < |g|
        invariant 0 <= h <= |g| && ary == old(ary)
        invariant Marks(g) && Open(g, []) && errors == |reports| && AllOnCycles(g)
        invariant errors == 0 ==> Closed(g) && Below(h) <= rank.Keys
      {
        DfsHostPath(g, h, []);
        BelowOne(h, rank.Keys);
        h := h + 1;
      }
      if errors == 0 {
        AllClosed(g);
      } else {
        CyclicIfReported(g);
      }
    }

    lemma CleanStart(g: Graph)
      requires WellFormed(g) && |g| <= ary.Length && forall v :: 0 <= v < |g| ==> ary[v] == UNCHECKED
      requires todo == Below(|g|) && rank == map[] && reports == []
      ensures Marks(g) && Open(g, []) && Closed(g) && AllOnCycles(g)
    {
    }

    lemma AllClosed(g: Graph)
      requires WellFormed(g) && Marks(g) && Closed(g) && Below(|g|) <= rank.Keys
      ensures Acyclic(g)
    {
      assert forall v: nat :: v < |g| ==> v in Below(|g|);
      RankedIsAcyclic(g, rank);
    }

    lemma CyclicIfReported(g: Graph)
      requires AllOnCycles(g) && reports != []
      ensures !Acyclic(g)
    {
      assert OnCycle(g, reports[0]);
    }

    /** The check for circular dependencies of one object type. */
    method CheckDependencies(t: DependencyTable)
      requires t.Valid() && |t.deps| <= ary.Length
      modifies this, ary
      ensures ary == old(ary) && errors - old(errors) == |reports|
      ensures reports != [] ==> OnCycle(t.Next(), reports[0])
      ensures reports == [] <==> Acyclic(t.Next())
    {
      TablesAreWellFormed(t);
      var g := t.Next();
      Clear(g);
      var s := 0;
      while s < |t.notify|
        invariant 0 <= s <= |t.notify| && ary == old(ary)
        invariant Marks(g) && Sound(g) && errors - old(errors) == |reports|
        invariant reports == [] ==> Searched(t, s)
      {
        CheckObject(t, g, s);
        s := s + 1;
      }
      if reports == [] {
        forall d: nat, e: nat | Edge(g, d, e) ensures e in rank {
          NextEdge(t, d, e);
        }
        RankedIsAcyclic(g, rank);
      }
    }

    /** Every dependency in a list of the first s objects has been found OK. */
    ghost predicate Searched(t: DependencyTable, s: nat)
      reads this`rank
    {
      forall kind, r: nat, d: nat :: t.Lists(kind, r, d) && r < s ==> d in rank
    }

    /** The two loops over the dependency lists of one object. */
    method CheckObject(t: DependencyTable, g: Graph, s: nat)
      requires t.Valid() && s < |t.notify| && g == t.Next()
      requires WellFormed(g) && Marks(g) && Sound(g)
      requires reports == [] ==> Searched(t, s)
      modifies this`errors, this`todo, this`rank, this`reports, ary
      ensures Marks(g) && Sound(g)
      ensures errors - old(errors) == |reports| - |old(reports)| >= 0
      ensures reports == [] ==> Searched(t, s + 1)
    {
      hide Search.Marks, Search.Open, Search.Closed, Search.Sound;
      assert forall d: nat :: d in t.notify[s] ==> t.Lists(Notification, s, d);
      assert forall d: nat :: d in t.exec[s] ==> t.Lists(Execution, s, d);
      DfsPaths(g, t.notify[s]);
      DfsPaths(g, t.exec[s]);
    }

    /** The check for circular time period exclusions. */
    method CheckTimeperiods(g: Graph)
      requires WellFormed(g) && |g| <= ary.Length
      modifies this, ary
      ensures ary == old(ary) && errors - old(errors) == |reports|
      ensures reports != [] ==> OnCycle(g, reports[0])
      ensures reports == [] <==> Acyclic(g)
    {
      Clear(g);
      var roots: seq<nat> := seq(|g|, i => i);
      DfsPaths(g, roots);
      if reports == [] {
        forall u: nat, v: nat | Edge(g, u, v) ensures v in rank {
          assert v in g[u];
          assert roots[v] == v;
        }
        RankedIsAcyclic(g, rank);
      }
    }
  }

  /** The verdict is exact: OK just when none of the relations has a cycle. */
  method PreFlightCircularCheck(c: Config) returns (ok: bool, errors: int)
    requires c.Valid()
    ensures ok <==> c.CycleFree()
    ensures ok <==>
              && Acyclic(c.children) && Acyclic(c.exclusions)
              && Acyclic(c.hosts.Masters(Notification)) && Acyclic(c.hosts.Masters(Execution))
              && Acyclic(c.services.Masters(Notification)) && Acyclic(c.services.Masters(Execution))
    ensures ok <==> errors == 0
  {
    var alloc := Max(|c.children|, |c.services.notify|);
    alloc := Max(Max(alloc, |c.exclusions|), Max(|c.services.deps|, |c.hosts.deps|));
    NextAcyclicIffMastersAcyclic(c.services);
    NextAcyclicIffMastersAcyclic(c.hosts);
    var s := new Search(alloc);
    s.CheckHosts(c.children);
    var e0 := s.errors;
    s.CheckDependencies(c.services);
    var e1 := s.errors;
    s.CheckDependencies(c.hosts);
    var e2 := s.errors;
    s.CheckTimeperiods(c.exclusions);
    errors := s.errors;
    ok := errors <= 0;
  }
}
