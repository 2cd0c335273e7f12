/** The shapes a step can have: one row rewritten, one edge changed, nodes gone, one node new.
    For each, exactly when the payload is enough for the clients of its own project, and when
    the clients of another project, who see no payload, still hold theirs. */
module Shapes {
  import opened FlowTypes
  import opened Status
  import opened Engine
  import opened Invariants
  import opened Delta

  /** The events of the step tell a client nothing. */
  ghost predicate Silent(t: Txn) {
    Dropped(t.events) == {} && EdgeEvents(t.events, DepAdded) == {} && EdgeEvents(t.events, DepRemoved) == {}
  }

  // ---- ways not to be exact -------------------------------------------------------

  /** A client keeps whatever node it is sent. */
  lemma ForeignReported(db: Db, t: Txn, s: Id, x: Id)
    requires x in t.affected && Foreign(t.db, s, x)
    ensures !ExactAt(db, t, s, s)
  {
    var client := ApplyDelta(Snapshot(db, s), Finish(t.db, s, t));
    assert x in client.nodes && x !in SnapNodes(t.db, s);
  }

  /** A node of the project comes or goes without a word. */
  lemma NodeUnreported(db: Db, t: Txn, s: Id, x: Id)
    requires InProject(db.nodes, s, x) != InProject(t.db.nodes, s, x)
    requires x !in t.affected && x !in Dropped(t.events)
    ensures !ExactAt(db, t, s, s)
  {
    var client := ApplyDelta(Snapshot(db, s), Finish(t.db, s, t));
    assert x in client.nodes <==> InProject(db.nodes, s, x);
    assert x in SnapNodes(t.db, s) <==> InProject(t.db.nodes, s, x);
  }

  lemma EdgesUnreported(db: Db, t: Txn, s: Id)
    requires Silent(t) && SnapDeps(db, s) != SnapDeps(t.db, s)
    ensures !ExactAt(db, t, s, s)
  {
    assert ApplyDelta(Snapshot(db, s), Finish(t.db, s, t)).deps == SnapDeps(db, s);
  }

  lemma ViewUnreported(db: Db, t: Txn, s: Id, x: Id)
    requires InProject(db.nodes, s, x) && InProject(t.db.nodes, s, x)
    requires x !in t.affected && x !in Dropped(t.events) && ViewOf(db, x) != ViewOf(t.db, x)
    ensures !ExactAt(db, t, s, s)
  {
    var client := ApplyDelta(Snapshot(db, s), Finish(t.db, s, t));
    assert client.nodes[x] == ViewOf(db, x) && SnapNodes(t.db, s)[x] == ViewOf(t.db, x);
  }

  /** Nothing changes, nothing foreign is reported. */
  lemma UnchangedIsExact(db: Db, t: Txn, s: Id, p: Id)
    requires Silent(t) && t.db.nodes == db.nodes && t.db.deps == db.deps && t.db.verifs == db.verifs
    requires p == s ==> forall x :: x in t.affected ==> !Foreign(db, s, x)
    ensures ExactAt(db, t, s, p)
  {
    if p == s {
      assert SnapDeps(t.db, s) == EdgesOutside(SnapDeps(db, s) - {}, {}) + {};
      AccountedIsExact(db, t, s);
    }
  }

  // ---- one row --------------------------------------------------------------------

  /** Only the row and the verification of n change, and n stays where it is. */
  ghost predicate RowStep(db: Db, after: Db, n: Id) {
    n in db.nodes && after.nodes.Keys == db.nodes.Keys && after.deps == db.deps
    && after.nodes[n].project == db.nodes[n].project && after.nodes[n].parent == db.nodes[n].parent
    && after.nodes[n].kind == db.nodes[n].kind
    && (forall x :: x in db.nodes && x != n ==> after.nodes[x] == db.nodes[x])
    && (forall x :: x != n ==> (x in after.verifs <==> x in db.verifs))
    && (forall x :: x != n && x in db.verifs && x in after.verifs ==> after.verifs[x] == db.verifs[x])
  }

  /** Declaring n so blocks or frees x: n is its only unfinished blocker, before or after. */
  predicate Flips(db: Db, n: Id, declared: Declared, x: Id) {
    n in db.nodes && x in db.nodes && Edge(n, x) in db.deps && db.nodes[x].declared == Open
    && !HeldBesides(db.nodes, db.deps, {n}, x) && (db.nodes[n].declared == Done) != (declared == Done)
  }

  lemma WaitingSplits(nodes: map<Id, Node>, deps: set<Edge>, n: Id, x: Id)
    ensures Waiting(nodes, deps, x)
            <==> HeldBesides(nodes, deps, {n}, x)
                 || (Edge(n, x) in deps && n in nodes && nodes[n].declared != Done)
  {
    if e :| e in deps && e.blocked == x && e.blocker in nodes && nodes[e.blocker].declared != Done {
      assert e == Edge(e.blocker, x);
    }
    if Edge(n, x) in deps && n in nodes && nodes[n].declared != Done {
      var e := Edge(n, x);
      assert e in deps && e.blocked == x && e.blocker in nodes && nodes[e.blocker].declared != Done;
    }
  }

  lemma HeldByRest(db: Db, after: Db, n: Id, x: Id)
    requires RowStep(db, after, n)
    ensures HeldBesides(db.nodes, db.deps, {n}, x) <==> HeldBesides(after.nodes, after.deps, {n}, x)
  {
  }

  lemma RowView(db: Db, after: Db, n: Id, x: Id)
    requires RowStep(db, after, n) && x in db.nodes && x != n
    ensures ViewOf(db, x) == ViewOf(after, x) <==> !Flips(db, n, after.nodes[n].declared, x)
  {
    WaitingSplits(db.nodes, db.deps, n, x);
    WaitingSplits(after.nodes, after.deps, n, x);
    HeldByRest(db, after, n, x);
  }

  /** The own clients: exact unless a dependent of another project is reported to them. */
  lemma RowOwn(db: Db, t: Txn, n: Id, s: Id)
    requires EndsExist(db) && RowStep(db, t.db, n) && InProject(db.nodes, s, n) && Silent(t)
    requires t.affected == {n} + Downstream(db, n)
             || (t.affected == {n} && t.db.nodes[n].declared == db.nodes[n].declared)
    ensures ExactAt(db, t, s, s) <==> forall x :: x in t.affected ==> !Foreign(db, s, x)
  {
    if x :| x in t.affected && Foreign(db, s, x) {
      ForeignReported(db, t, s, x);
    } else {
      forall x | x in db.nodes && x !in t.affected
        ensures ViewOf(db, x) == ViewOf(t.db, x)
      {
        RowView(db, t.db, n, x);
      }
      assert SnapDeps(t.db, s) == EdgesOutside(SnapDeps(db, s) - {}, {}) + {};
      AccountedIsExact(db, t, s);
    }
  }

  /** The others: exact unless one of their nodes flips. */
  lemma RowOther(db: Db, t: Txn, n: Id, s: Id, p: Id)
    requires RowStep(db, t.db, n) && Foreign(db, p, n) && p != s && HostsOwn(db.nodes, p)
    ensures ExactAt(db, t, s, p)
            <==> forall x :: InProject(db.nodes, p, x) ==> !Flips(db, n, t.db.nodes[n].declared, x)
  {
    RowSame(db, t.db, n, p);
    SnapshotExactly(t.db, db, p);
  }

  lemma RowSame(db: Db, after: Db, n: Id, p: Id)
    requires RowStep(db, after, n) && Foreign(db, p, n)
    ensures SameInProject(after, db, p)
            <==> forall x :: InProject(db.nodes, p, x) ==> !Flips(db, n, after.nodes[n].declared, x)
    ensures SnapDeps(db, p) == SnapDeps(after, p) && (HostsOwn(db.nodes, p) ==> HostsOwn(after.nodes, p))
  {
    forall x
      ensures InProject(after.nodes, p, x) <==> InProject(db.nodes, p, x)
    {
    }
    forall x | InProject(db.nodes, p, x)
      ensures ViewOf(db, x) == ViewOf(after, x) <==> !Flips(db, n, after.nodes[n].declared, x)
    {
      RowView(db, after, n, x);
    }
  }

  // ---- one edge -------------------------------------------------------------------

  /** Same nodes and verifications; one edge may come or go. */
  ghost predicate EdgeStep(db: Db, after: Db, e: Edge) {
    after.nodes == db.nodes && after.verifs == db.verifs
    && (after.deps == db.deps + {e} || after.deps == db.deps - {e})
  }

  /** Whether e is there decides between ready and blocked for its blocked end. */
  predicate Decides(db: Db, e: Edge) {
    e.blocker in db.nodes && e.blocked in db.nodes && db.nodes[e.blocked].declared == Open
    && db.nodes[e.blocker].declared != Done && !HeldBesides(db.nodes, db.deps, {e.blocker}, e.blocked)
  }

  lemma EdgeView(db: Db, after: Db, e: Edge, x: Id)
    requires EdgeStep(db, after, e) && x in db.nodes
    ensures ViewOf(db, x) == ViewOf(after, x)
            <==> !(x == e.blocked && Decides(db, e) && (e in db.deps) != (e in after.deps))
  {
    if x == e.blocked {
      WaitingSplits(db.nodes, db.deps, e.blocker, x);
      WaitingSplits(after.nodes, after.deps, e.blocker, x);
      assert e == Edge(e.blocker, x);
      assert HeldBesides(db.nodes, db.deps, {e.blocker}, x) <==> HeldBesides(after.nodes, after.deps, {e.blocker}, x);
    } else {
      assert Waiting(db.nodes, db.deps, x) <==> Waiting(after.nodes, after.deps, x);
    }
  }

  lemma EdgeOwn(db: Db, t: Txn, e: Edge, s: Id)
    requires EdgeStep(db, t.db, e) && t.affected == {e.blocked} && Dropped(t.events) == {}
    requires SnapDeps(t.db, s)
             == (SnapDeps(db, s) - EdgeEvents(t.events, DepRemoved)) + EdgeEvents(t.events, DepAdded)
             || (Foreign(db, s, e.blocked) && t.db.deps >= db.deps - {e})
    ensures ExactAt(db, t, s, s) <==> !Foreign(db, s, e.blocked)
  {
    if Foreign(db, s, e.blocked) {
      ForeignReported(db, t, s, e.blocked);
    } else {
      forall x | x in db.nodes && x != e.blocked
        ensures ViewOf(db, x) == ViewOf(t.db, x)
      {
        EdgeView(db, t.db, e, x);
      }
      var left := SnapDeps(db, s) - EdgeEvents(t.events, DepRemoved);
      assert EdgesOutside(left, {}) == left;
      AccountedIsExact(db, t, s);
    }
  }

  lemma EdgeOther(db: Db, t: Txn, e: Edge, s: Id, p: Id)
    requires EdgeStep(db, t.db, e) && p != s && HostsOwn(db.nodes, p)
    ensures ExactAt(db, t, s, p)
            <==> !((e in db.deps) != (e in t.db.deps) && InProject(db.nodes, p, e.blocked)
                   && (InProject(db.nodes, p, e.blocker) || Decides(db, e)))
  {
    forall x | InProject(db.nodes, p, x)
      ensures ViewOf(db, x) == ViewOf(t.db, x)
              <==> !(x == e.blocked && Decides(db, e) && (e in db.deps) != (e in t.db.deps))
    {
      EdgeView(db, t.db, e, x);
    }
    EdgeSnapDeps(db, t.db, e, p);
    SnapshotExactly(t.db, db, p);
  }

  lemma EdgeSnapDeps(db: Db, after: Db, e: Edge, p: Id)
    requires EdgeStep(db, after, e)
    ensures SnapDeps(db, p) == SnapDeps(after, p)
            <==> !((e in db.deps) != (e in after.deps)
                   && InProject(db.nodes, p, e.blocker) && InProject(db.nodes, p, e.blocked))
  {
    assert e in SnapDeps(db, p) <==> e in db.deps && InProject(db.nodes, p, e.blocker) && InProject(db.nodes, p, e.blocked);
    assert e in SnapDeps(after, p) <==> e in after.deps && InProject(db.nodes, p, e.blocker) && InProject(db.nodes, p, e.blocked);
  }

  // ---- nodes gone -----------------------------------------------------------------

  /** The nodes `dead` vanish with their edges; one surviving row may change its parent, kind,
      position and verification, but not its project. */
  ghost predicate Vanishes(db: Db, after: Db, dead: set<Id>, n: Id) {
    after.nodes.Keys == db.nodes.Keys - dead && dead <= db.nodes.Keys
    && (forall x :: x in after.nodes && x != n ==> after.nodes[x] == db.nodes[x])
    && (n in after.nodes ==> after.nodes[n].project == db.nodes[n].project
                             && after.nodes[n].declared == db.nodes[n].declared)
    && after.deps == EdgesOutside(db.deps, dead)
    && (forall x :: x != n && x !in dead ==> (x in after.verifs <==> x in db.verifs))
    && (forall x :: x != n && x !in dead && x in db.verifs && x in after.verifs ==> after.verifs[x] == db.verifs[x])
  }

  /** x is blocked, and by nothing outside `dead`. */
  predicate Freed(db: Db, dead: set<Id>, x: Id) {
    x in db.nodes && StatusIn(db, x) == IsBlocked && !HeldBesides(db.nodes, db.deps, dead, x)
  }

  lemma VanishWaits(db: Db, after: Db, dead: set<Id>, n: Id, x: Id)
    requires Vanishes(db, after, dead, n) && x !in dead
    ensures Waiting(after.nodes, after.deps, x) <==> HeldBesides(db.nodes, db.deps, dead, x)
  {
    if e :| e in after.deps && e.blocked == x && e.blocker in after.nodes && after.nodes[e.blocker].declared != Done {
      assert e in db.deps && e.blocker !in dead && db.nodes[e.blocker].declared != Done;
    }
    if e :| e in db.deps && e.blocked == x && e.blocker in db.nodes && db.nodes[e.blocker].declared != Done && e.blocker !in dead {
      assert e in after.deps && e.blocker in after.nodes && after.nodes[e.blocker].declared != Done;
    }
  }

  lemma VanishView(db: Db, after: Db, dead: set<Id>, n: Id, x: Id)
    requires Vanishes(db, after, dead, n) && x in after.nodes && x != n
    ensures ViewOf(db, x) == ViewOf(after, x) <==> !Freed(db, dead, x)
  {
    VanishWaits(db, after, dead, n, x);
    assert HeldBesides(db.nodes, db.deps, dead, x) ==> Waiting(db.nodes, db.deps, x);
  }

  /** Every survivor that `dead` blocked is reported. */
  lemma FreedHasEdge(db: Db, dead: set<Id>, x: Id)
    requires Freed(db, dead, x)
    ensures exists e :: e in db.deps && e.blocker in dead && e.blocked == x
  {
    var e :| e in db.deps && e.blocked == x && e.blocker in db.nodes && db.nodes[e.blocker].declared != Done;
    assert e.blocker in dead;
  }

  lemma VanishOwn(db: Db, t: Txn, dead: set<Id>, n: Id, s: Id)
    requires Vanishes(db, t.db, dead, n) && (n in t.db.nodes ==> n in t.affected && InProject(db.nodes, s, n))
    requires forall e :: e in db.deps && e.blocker in dead && e.blocked !in dead ==> e.blocked in t.affected
    requires Dropped(t.events) == dead && EdgeEvents(t.events, DepRemoved) == {} && EdgeEvents(t.events, DepAdded) == {}
    ensures ExactAt(db, t, s, s) <==> forall x :: x in t.affected ==> !Foreign(t.db, s, x)
  {
    if x :| x in t.affected && Foreign(t.db, s, x) {
      ForeignReported(db, t, s, x);
    } else {
      forall x | InProject(t.db.nodes, s, x) && x !in t.affected
        ensures ViewOf(db, x) == ViewOf(t.db, x)
      {
        VanishView(db, t.db, dead, n, x);
        if Freed(db, dead, x) { FreedHasEdge(db, dead, x); }
      }
      VanishSnapDeps(db, t.db, dead, n, s);
      AccountedIsExact(db, t, s);
    }
  }

  lemma VanishSnapDeps(db: Db, after: Db, dead: set<Id>, n: Id, p: Id)
    requires Vanishes(db, after, dead, n)
    ensures SnapDeps(after, p) == EdgesOutside(SnapDeps(db, p) - {}, dead) + {}
    ensures (forall x :: x in dead ==> !InProject(db.nodes, p, x)) ==> SnapDeps(after, p) == SnapDeps(db, p)
  {
    forall x
      ensures InProject(after.nodes, p, x) <==> InProject(db.nodes, p, x) && x !in dead
    {
    }
  }

  lemma VanishOther(db: Db, t: Txn, dead: set<Id>, n: Id, s: Id, p: Id)
    requires Vanishes(db, t.db, dead, n) && p != s && (n in t.db.nodes ==> Foreign(db, p, n))
    requires HostsOwn(db.nodes, p) && HostsOwn(t.db.nodes, p)
    ensures ExactAt(db, t, s, p)
            <==> forall x :: InProject(db.nodes, p, x) ==> x !in dead && !Freed(db, dead, x)
  {
    VanishSame(db, t.db, dead, n, p);
    SnapshotExactly(t.db, db, p);
    if SameInProject(t.db, db, p) {
      VanishSnapDeps(db, t.db, dead, n, p);
    }
  }

  lemma VanishSame(db: Db, after: Db, dead: set<Id>, n: Id, p: Id)
    requires Vanishes(db, after, dead, n) && (n in after.nodes ==> Foreign(db, p, n))
    ensures SameInProject(after, db, p)
            <==> forall x :: InProject(db.nodes, p, x) ==> x !in dead && !Freed(db, dead, x)
  {
    forall x
      ensures InProject(after.nodes, p, x) <==> InProject(db.nodes, p, x) && x !in dead
    {
    }
    forall x | InProject(after.nodes, p, x)
      ensures ViewOf(db, x) == ViewOf(after, x) <==> !Freed(db, dead, x)
    {
      VanishView(db, after, dead, n, x);
    }
  }

  // ---- a node new -----------------------------------------------------------------

  ghost predicate NodeStep(db: Db, after: Db, n: Id, row: Node) {
    n !in db.nodes && n !in db.verifs && EndsExist(db) && (forall x :: x in db.nodes ==> db.nodes[x].parent != n)
    && after.nodes == db.nodes[n := row] && after.deps == db.deps && after.verifs == db.verifs
  }

  /** A node without edges. */
  function FreshStatus(declared: Declared): Effective {
    match declared
    case Open => IsReady
    case Deferred => IsDeferred
    case Done => IsDone
  }

  lemma NodeView(db: Db, after: Db, n: Id, row: Node, x: Id)
    requires NodeStep(db, after, n, row)
    ensures x in db.nodes ==> ViewOf(db, x) == ViewOf(after, x)
    ensures EffectiveOf(after.nodes, after.deps, n) == FreshStatus(row.declared)
  {
    assert !Waiting(after.nodes, after.deps, n);
    if x in db.nodes {
      assert Waiting(db.nodes, db.deps, x) <==> Waiting(after.nodes, after.deps, x);
    }
  }

  lemma NodeOwn(db: Db, t: Txn, n: Id, row: Node, s: Id)
    requires NodeStep(db, t.db, n, row) && Silent(t) && t.affected <= {n}
    ensures ExactAt(db, t, s, s) <==> (row.project == s <==> t.affected == {n})
  {
    if row.project == s && t.affected != {n} {
      NodeUnreported(db, t, s, n);
    } else if row.project != s && t.affected == {n} {
      ForeignReported(db, t, s, n);
    } else {
      forall x | x in db.nodes
        ensures ViewOf(db, x) == ViewOf(t.db, x)
      {
        NodeView(db, t.db, n, row, x);
      }
      assert SnapDeps(t.db, s) == EdgesOutside(SnapDeps(db, s) - {}, {}) + {};
      AccountedIsExact(db, t, s);
    }
  }

  /** A new step under a task of p takes the task's place among the leaves, or joins them. */
  ghost predicate StepAdded(db: Db, after: Db, p: Id, t: Id, n: Id, row: Node) {
    NodeStep(db, after, n, row) && TaskIn(db.nodes, p, t) && row.kind == Step && row.parent == t
  }

  lemma StepAddedLeaves(db: Db, after: Db, p: Id, t: Id, n: Id, row: Node, wp: Id, l: Id)
    requires StepAdded(db, after, p, t, n, row)
    ensures LeafUnder(after.nodes, p, wp, l)
            <==> (LeafUnder(db.nodes, p, wp, l) && l != t) || (l == n && wp == db.nodes[t].parent)
  {
    assert forall x :: x in db.nodes ==> after.nodes[x] == db.nodes[x];
    assert after.nodes[n] == row;
    if l in db.nodes && l != t {
      assert HasSteps(db.nodes, l) ==> HasSteps(after.nodes, l);
      if HasSteps(after.nodes, l) {
        var s :| s in after.nodes && after.nodes[s].kind == Step && after.nodes[s].parent == l;
        assert s != n;
      }
    }
    assert HasSteps(after.nodes, t);
  }

  lemma StepAddedMoves(db: Db, after: Db, p: Id, t: Id, n: Id, row: Node, wp: Id, st: Effective)
    requires StepAdded(db, after, p, t, n, row)
    ensures Leaves(after.nodes, p, wp)
            == Leaves(db.nodes, p, wp) - {t} + if wp == db.nodes[t].parent then {n} else {}
    ensures LeavesWith(after.nodes, after.deps, p, wp, st)
            == LeavesWith(db.nodes, db.deps, p, wp, st) - {t}
               + if wp == db.nodes[t].parent && st == FreshStatus(row.declared) then {n} else {}
  {
    forall l
      ensures LeafUnder(after.nodes, p, wp, l)
              <==> (LeafUnder(db.nodes, p, wp, l) && l != t) || (l == n && wp == db.nodes[t].parent)
      ensures l in db.nodes ==> EffectiveOf(db.nodes, db.deps, l) == EffectiveOf(after.nodes, after.deps, l)
    {
      StepAddedLeaves(db, after, p, t, n, row, wp, l);
      NodeView(db, after, n, row, l);
    }
    NodeView(db, after, n, row, t);
  }

  /** The numbers stay the same exactly when it replaces a task of its own status. */
  lemma StepAddedCounts(db: Db, after: Db, p: Id, t: Id, n: Id, row: Node)
    requires StepAdded(db, after, p, t, n, row)
    ensures ProgressFor(db.nodes, db.deps, p) == ProgressFor(after.nodes, after.deps, p)
            <==> !HasSteps(db.nodes, t) && EffectiveOf(db.nodes, db.deps, t) == FreshStatus(row.declared)
  {
    var home := db.nodes[t].parent;
    var was := EffectiveOf(db.nodes, db.deps, t);
    assert after.nodes[t] == db.nodes[t];
    assert home in PackagesOf(db.nodes, p) && home in PackagesOf(after.nodes, p);
    var before, now := PackageProgress(db.nodes, db.deps, p, home), PackageProgress(after.nodes, after.deps, p, home);
    assert ProgressFor(db.nodes, db.deps, p)[home] == before && ProgressFor(after.nodes, after.deps, p)[home] == now;
    StepAddedMoves(db, after, p, t, n, row, home, was);
    if HasSteps(db.nodes, t) {
      assert t !in Leaves(db.nodes, p, home);
      assert now.total == before.total + 1;
    } else if was != FreshStatus(row.declared) {
      assert t in LeavesWith(db.nodes, db.deps, p, home, was);
      assert |LeavesWith(after.nodes, after.deps, p, home, was)| < |LeavesWith(db.nodes, db.deps, p, home, was)|;
    } else {
      TaskReplaced(db, after, p, t, n, row);
    }
  }

  lemma Swapped(s: set<Id>, t: Id, n: Id)
    requires t in s && n !in s
    ensures |s - {t} + {n}| == |s|
  {
  }

  lemma ReplacedSameSize(db: Db, after: Db, p: Id, t: Id, n: Id, row: Node, wp: Id, st: Effective)
    requires StepAdded(db, after, p, t, n, row)
    requires !HasSteps(db.nodes, t) && EffectiveOf(db.nodes, db.deps, t) == FreshStatus(row.declared)
    ensures |LeavesWith(after.nodes, after.deps, p, wp, st)| == |LeavesWith(db.nodes, db.deps, p, wp, st)|
    ensures |Leaves(after.nodes, p, wp)| == |Leaves(db.nodes, p, wp)|
  {
    StepAddedMoves(db, after, p, t, n, row, wp, st);
    var leaves, with := Leaves(db.nodes, p, wp), LeavesWith(db.nodes, db.deps, p, wp, st);
    assert n !in leaves && n !in with;
    if wp == db.nodes[t].parent {
      assert t in leaves;
      Swapped(leaves, t, n);
      if st == FreshStatus(row.declared) {
        Swapped(with, t, n);
      } else {
        assert with - {t} + {} == with;
      }
    } else {
      assert leaves - {t} + {} == leaves && with - {t} + {} == with;
    }
  }

  lemma TaskReplaced(db: Db, after: Db, p: Id, t: Id, n: Id, row: Node)
    requires StepAdded(db, after, p, t, n, row)
    requires !HasSteps(db.nodes, t) && EffectiveOf(db.nodes, db.deps, t) == FreshStatus(row.declared)
    ensures ProgressFor(db.nodes, db.deps, p) == ProgressFor(after.nodes, after.deps, p)
  {
    assert PackagesOf(db.nodes, p) == PackagesOf(after.nodes, p) by {
      assert forall x :: x in db.nodes ==> after.nodes[x] == db.nodes[x];
    }
    forall wp
      ensures PackageProgress(db.nodes, db.deps, p, wp) == PackageProgress(after.nodes, after.deps, p, wp)
    {
      forall st { ReplacedSameSize(db, after, p, t, n, row, wp, st); }
    }
  }

  /** The row would count for p without being its own. */
  predicate Lodges(nodes: map<Id, Node>, p: Id, row: Node) {
    row.project != p && row.kind == Step && TaskIn(nodes, p, row.parent)
  }

  /** The others: nothing of theirs comes, unless a step lodges with one of their tasks and
      moves its numbers. */
  lemma NodeOther(db: Db, t: Txn, n: Id, row: Node, s: Id, p: Id)
    requires NodeStep(db, t.db, n, row) && p != s
    ensures ExactAt(db, t, s, p)
            <==> row.project != p
                 && (Lodges(db.nodes, p, row) ==>
                       !HasSteps(db.nodes, row.parent)
                       && EffectiveOf(db.nodes, db.deps, row.parent) == FreshStatus(row.declared))
  {
    if row.project == p {
      assert n in SnapNodes(t.db, p) && n !in SnapNodes(db, p);
    } else {
      forall x | InProject(db.nodes, p, x)
        ensures ViewOf(db, x) == ViewOf(t.db, x)
      {
        NodeView(db, t.db, n, row, x);
      }
      SameSnapNodes(t.db, db, p);
      assert SnapDeps(db, p) == SnapDeps(t.db, p);
      if Lodges(db.nodes, p, row) {
        StepAddedCounts(db, t.db, p, row.parent, n, row);
      } else {
        NodeElsewhere(db, t.db, n, row, p);
      }
    }
  }

  lemma NodeElsewhere(db: Db, after: Db, n: Id, row: Node, p: Id)
    requires NodeStep(db, after, n, row) && !Lodges(db.nodes, p, row) && row.project != p
    ensures ProgressFor(db.nodes, db.deps, p) == ProgressFor(after.nodes, after.deps, p)
  {
    forall x
      ensures CountsFor(db.nodes, p, x) <==> CountsFor(after.nodes, p, x)
      ensures CountsFor(db.nodes, p, x) ==>
                EffectiveOf(db.nodes, db.deps, x) == EffectiveOf(after.nodes, after.deps, x)
    {
      if x in db.nodes { NodeView(db, after, n, row, x); }
    }
    ProgressIsLocal(db, after, p);
  }
}
