/** The dependency test made before a check is run or a notification sent: one
    walk for hosts and for services, along the dependencies of one kind. */
module DependencyCheck {
  import opened Graphs
  import opened CircularCheck

  /** The bit of a failure option set that stands for "not checked yet". */
  const OPT_PENDING := 10

  /** What the walk reads of a master object. */
  datatype Status = Status(current: nat, lastHard: nat, soft: bool, checked: bool)

  /** What it reads of a dependency; options are the numbers of the set bits. */
  datatype Terms = Terms(options: set<nat>, inheritsParent: bool, inPeriod: bool)

  datatype World = World(table: DependencyTable, status: seq<Status>, terms: seq<Terms>, softStateDependencies: bool) {
    ghost predicate Valid() {
      table.Valid() && |status| == |table.notify| && |terms| == |table.deps|
    }

    /** Dependency d is a reason to fail by itself. */
    predicate Fails(d: nat)
      requires Valid() && d < |terms|
    {
      var m := status[table.deps[d].master];
      var state := if m.soft && !softStateDependencies then m.lastHard else m.current;
      state in terms[d].options || (!m.checked && OPT_PENDING in terms[d].options)
    }

    /** A chain of dependencies in force, from an object upwards: each but the
        last inherits from its parent, and the last one fails. */
    ghost predicate FailingChain(kind: DependencyKind, s: nat, chain: seq<nat>)
      requires Valid()
      decreases |chain|
    {
      && chain != []
      && table.Lists(kind, s, chain[0]) && terms[chain[0]].inPeriod
      && (if |chain| == 1 then Fails(chain[0])
          else terms[chain[0]].inheritsParent && FailingChain(kind, table.deps[chain[0]].master, chain[1..]))
    }
  }

  /** Some failing chain starts at the object. */
  ghost predicate Failing(w: World, kind: DependencyKind, s: nat)
    requires w.Valid()
  {
    exists chain :: w.FailingChain(kind, s, chain)
  }

  ghost predicate FailingVia(w: World, kind: DependencyKind, s: nat, d: nat)
    requires w.Valid()
  {
    exists chain :: w.FailingChain(kind, s, chain) && chain[0] == d
  }

  /** The chains through one dependency, by their second link. */
  lemma FailingViaOne(w: World, kind: DependencyKind, s: nat, d: nat)
    requires w.Valid() && w.table.Lists(kind, s, d)
    ensures FailingVia(w, kind, s, d) <==>
      w.terms[d].inPeriod &&
      (w.Fails(d) || (w.terms[d].inheritsParent && Failing(w, kind, w.table.deps[d].master)))
    ensures FailingVia(w, kind, s, d) ==> Failing(w, kind, s)
  {
    var master := w.table.deps[d].master;
    if chain: seq<nat> :| w.FailingChain(kind, s, chain) && chain[0] == d {
      if |chain| > 1 { assert w.FailingChain(kind, master, chain[1..]); }
    }
    if w.terms[d].inPeriod && w.Fails(d) {
      assert w.FailingChain(kind, s, [d]);
    }
    if w.terms[d].inPeriod && w.terms[d].inheritsParent && Failing(w, kind, master) {
      var rest :| w.FailingChain(kind, master, rest);
      assert ([d] + rest)[1..] == rest;
      assert w.FailingChain(kind, s, [d] + rest);
    }
  }

  /** Returns "failed" exactly when some failing chain starts at the object.  The
      walk ends because the circularity check has passed for this kind. */
  method CheckDependencies(w: World, s: nat, kind: DependencyKind) returns (failed: bool)
    requires w.Valid() && s < |w.table.notify|
    requires Acyclic(w.table.Masters(kind))
    ensures failed <==> Failing(w, kind, s)
    decreases ReachFrom(w.table, kind, s)
  {
    var list := if kind == Notification then w.table.notify[s] else w.table.exec[s];
    var i := 0;
    while i < |list|
      invariant 0 <= i <= |list|
      invariant forall j :: 0 <= j < i ==> !FailingVia(w, kind, s, list[j])
    {
      var d := list[i];
      assert w.table.Lists(kind, s, d);
      FailingViaOne(w, kind, s, d);
      if w.terms[d].inPeriod {
        if w.Fails(d) {
          return true;
        }
        if w.terms[d].inheritsParent {
          MasterIsCloser(w.table, kind, s, d);
          var above := CheckDependencies(w, w.table.deps[d].master, kind);
          if above {
            return true;
          }
        }
      }
      i := i + 1;
    }
    if chain: seq<nat> :| w.FailingChain(kind, s, chain) {
      assert FailingVia(w, kind, s, chain[0]);
    }
    return false;
  }

  /** The list of an object's dependencies that counts for a kind. */
  function ListOf(w: World, kind: DependencyKind, s: nat): seq<nat>
    requires w.Valid() && s < |w.table.notify|
  {
    match kind
    case Notification => w.table.notify[s]
    case Execution => w.table.exec[s]
  }

  /** An object with one dependency fails exactly when that is in force and its master is in
      one of the failing states, or was never checked and that is a reason to fail, or, where
      it is inherited, the master fails itself.  The state is the last hard one for a master
      in a soft state, unless soft states count, and else the current one. */
  lemma OneDependency(w: World, kind: DependencyKind, s: nat, d: nat)
    requires w.Valid() && s < |w.table.notify| && ListOf(w, kind, s) == [d]
    ensures d < |w.table.deps| && w.table.deps[d].master < |w.status|
    ensures var m, t := w.status[w.table.deps[d].master], w.terms[d];
            var above := t.inheritsParent && Failing(w, kind, w.table.deps[d].master);
            && (!t.inPeriod ==> !Failing(w, kind, s))
            && (t.inPeriod && (!m.soft || w.softStateDependencies) ==>
                  (Failing(w, kind, s) <==> m.current in t.options || (!m.checked && 10 in t.options) || above))
            && (t.inPeriod && m.soft && !w.softStateDependencies ==>
                  (Failing(w, kind, s) <==> m.lastHard in t.options || (!m.checked && 10 in t.options) || above))
  {
    assert w.table.Lists(kind, s, d);
    FailingViaOne(w, kind, s, d);
    if chain: seq<nat> :| w.FailingChain(kind, s, chain) {
      assert chain[0] == d;
      assert FailingVia(w, kind, s, d);
    }
  }

  /** An object with no dependencies of a kind never fails for it, whatever it has of the other. */
  lemma NoDependency(w: World, kind: DependencyKind, s: nat)
    requires w.Valid() && s < |w.table.notify| && ListOf(w, kind, s) == []
    ensures !Failing(w, kind, s)
  {
  }

  /** The same dependencies and the same of every master that counts. */
  ghost predicate CountsTheSame(v: World, w: World) {
    && v.table == w.table && v.terms == w.terms && |v.status| == |w.status|
    && v.softStateDependencies == w.softStateDependencies
    && forall i :: 0 <= i < |v.status| ==> SameMaster(v.status[i], w.status[i], v.softStateDependencies)
  }

  /** With soft states off, only the last hard state of a master in a soft state counts; in
      all other cases only the current one. */
  ghost predicate SameMaster(a: Status, b: Status, softStateDependencies: bool) {
    && a.soft == b.soft && a.checked == b.checked
    && (a.soft && !softStateDependencies ==> a.lastHard == b.lastHard)
    && (!a.soft || softStateDependencies ==> a.current == b.current)
  }

  /** What does not count never changes a verdict, however far up the masters are. */
  lemma OtherStatesDoNotCount(v: World, w: World, kind: DependencyKind, s: nat)
    requires v.Valid() && w.Valid() && CountsTheSame(v, w)
    ensures Failing(v, kind, s) <==> Failing(w, kind, s)
  {
    if chain: seq<nat> :| v.FailingChain(kind, s, chain) {
      SameChain(v, w, kind, s, chain);
    }
    if chain: seq<nat> :| w.FailingChain(kind, s, chain) {
      SameChain(v, w, kind, s, chain);
    }
  }

  lemma {:induction false} SameChain(v: World, w: World, kind: DependencyKind, s: nat, chain: seq<nat>)
    requires v.Valid() && w.Valid() && CountsTheSame(v, w)
    ensures v.FailingChain(kind, s, chain) <==> w.FailingChain(kind, s, chain)
    decreases |chain|
  {
    if chain != [] && v.table.Lists(kind, s, chain[0]) {
      assert SameMaster(v.status[v.table.deps[chain[0]].master], w.status[w.table.deps[chain[0]].master],
                        v.softStateDependencies);
      if |chain| > 1 { SameChain(v, w, kind, v.table.deps[chain[0]].master, chain[1..]); }
    }
  }

  ghost function ReachFrom(t: DependencyTable, kind: DependencyKind, s: nat): set<nat>
    requires t.Valid()
  {
    TablesAreWellFormed(t);
    Reach(t.Masters(kind), s)
  }

  lemma MasterIsCloser(t: DependencyTable, kind: DependencyKind, s: nat, d: nat)
    requires t.Valid() && t.Lists(kind, s, d) && Acyclic(t.Masters(kind))
    ensures ReachFrom(t, kind, t.deps[d].master) < ReachFrom(t, kind, s)
  {
    TablesAreWellFormed(t);
    MastersEdge(t, kind, s, t.deps[d].master);
    SuccessorReachesLess(t.Masters(kind), s, t.deps[d].master);
  }

  /** Start-up and run time together: once the start-up check has passed, the
      walk can be made from every object, of either type and for either kind. */
  method WalkAfterPreFlight(c: Config, w: World, s: nat, kind: DependencyKind) returns (ok: bool, failed: bool)
    requires c.Valid() && w.Valid() && w.table in {c.hosts, c.services} && s < |w.table.notify|
    ensures ok <==> c.CycleFree()
    ensures ok ==> (failed <==> Failing(w, kind, s))
  {
    var errors: int;
    ok, errors := PreFlightCircularCheck(c);
    failed := false;
    if ok {
      failed := CheckDependencies(w, s, kind);
    }
  }
}
