/** What a client of a project holds, what it does with a mutation's payload, and what its
    progress numbers depend on. */
module Delta {
  import opened FlowTypes
  import opened Status
  import opened Engine

  /** What a client of one project holds. */
  datatype Client = Client(nodes: map<Id, NodeView>, deps: set<Edge>, progress: map<Id, Progress>)

  predicate InProject(nodes: map<Id, Node>, p: Id, id: Id) {
    id in nodes && nodes[id].project == p
  }

  function SnapNodes(db: Db, p: Id): map<Id, NodeView> {
    map id | id in db.nodes && db.nodes[id].project == p :: ViewOf(db, id)
  }

  function SnapDeps(db: Db, p: Id): set<Edge> {
    set e | e in db.deps && InProject(db.nodes, p, e.blocker) && InProject(db.nodes, p, e.blocked)
  }

  function Snapshot(db: Db, p: Id): Client {
    Client(SnapNodes(db, p), SnapDeps(db, p), ProgressFor(db.nodes, db.deps, p))
  }

  // ---- applying a payload ---------------------------------------------------------

  function Dropped(events: seq<Event>): set<Id> {
    set e | e in events && e.kind == NodeDeleted && e.payload.DeletedNode? :: IdAt(e.payload.beforeObject, IdField)
  }

  function EdgeEvents(events: seq<Event>, kind: EventKind): set<Edge> {
    set e | e in events && e.kind == kind && e.payload.EdgeEnds? :: Edge(e.payload.blocker, e.payload.blocked)
  }

  /** Forget what the delete events name, take the changed nodes, follow the edge events,
      replace the progress. */
  function ApplyDelta(c: Client, m: Mutation): Client {
    var dropped := Dropped(m.events);
    Client((c.nodes - dropped) + m.changed,
           EdgesOutside(c.deps - EdgeEvents(m.events, DepRemoved), dropped) + EdgeEvents(m.events, DepAdded),
           m.progress)
  }

  // ---- other projects -------------------------------------------------------------

  predicate Foreign(db: Db, p: Id, x: Id) {
    x in db.nodes && db.nodes[x].project != p
  }

  /** The steps under the tasks of p are its own. */
  ghost predicate HostsOwn(nodes: map<Id, Node>, p: Id) {
    forall x :: x in nodes && nodes[x].kind == Step && InProject(nodes, p, nodes[x].parent) ==> nodes[x].project == p
  }

  // ---- progress is local ----------------------------------------------------------

  predicate TaskIn(nodes: map<Id, Node>, p: Id, t: Id) {
    InProject(nodes, p, t) && nodes[t].kind == Task
  }

  /** The tasks of p, and the steps under them. */
  predicate CountsFor(nodes: map<Id, Node>, p: Id, x: Id) {
    TaskIn(nodes, p, x) || (x in nodes && nodes[x].kind == Step && TaskIn(nodes, p, nodes[x].parent))
  }

  /** The same tasks and steps count for p, in the same places and with the same statuses. */
  ghost predicate SameCounted(a: Db, b: Db, p: Id) {
    forall x ::
      (CountsFor(a.nodes, p, x) <==> CountsFor(b.nodes, p, x))
      && (CountsFor(a.nodes, p, x) && CountsFor(b.nodes, p, x) ==>
            a.nodes[x].kind == b.nodes[x].kind && a.nodes[x].parent == b.nodes[x].parent
            && EffectiveOf(a.nodes, a.deps, x) == EffectiveOf(b.nodes, b.deps, x))
  }

  lemma StepsCounted(a: Db, b: Db, p: Id, t: Id)
    requires SameCounted(a, b, p) && TaskIn(a.nodes, p, t)
    ensures HasSteps(a.nodes, t) ==> HasSteps(b.nodes, t)
  {
    if HasSteps(a.nodes, t) {
      var s :| s in a.nodes && a.nodes[s].kind == Step && a.nodes[s].parent == t;
      assert CountsFor(a.nodes, p, s);
    }
  }

  lemma SameLeaf(a: Db, b: Db, p: Id, wp: Id, l: Id)
    requires SameCounted(a, b, p) && LeafUnder(a.nodes, p, wp, l)
    ensures LeafUnder(b.nodes, p, wp, l)
    ensures EffectiveOf(a.nodes, a.deps, l) == EffectiveOf(b.nodes, b.deps, l)
  {
    var t := if a.nodes[l].kind == Step then a.nodes[l].parent else l;
    assert CountsFor(a.nodes, p, t) && CountsFor(a.nodes, p, l);
    if a.nodes[l].kind == Task {
      StepsCounted(b, a, p, l);
    }
  }

  lemma SamePackages(a: Db, b: Db, p: Id)
    requires SameCounted(a, b, p)
    ensures PackagesOf(a.nodes, p) <= PackagesOf(b.nodes, p)
  {
    forall wp | wp in PackagesOf(a.nodes, p)
      ensures wp in PackagesOf(b.nodes, p)
    {
      var t :| t in a.nodes && a.nodes[t].kind == Task && a.nodes[t].project == p && a.nodes[t].parent == wp;
      assert CountsFor(a.nodes, p, t);
    }
  }

  /** A project's progress depends on nothing but its tasks, the steps under them, and their
      statuses, in any two databases. */
  lemma ProgressIsLocal(a: Db, b: Db, p: Id)
    requires SameCounted(a, b, p)
    ensures ProgressFor(a.nodes, a.deps, p) == ProgressFor(b.nodes, b.deps, p)
  {
    SamePackages(a, b, p);
    SamePackages(b, a, p);
    forall wp
      ensures PackageProgress(a.nodes, a.deps, p, wp) == PackageProgress(b.nodes, b.deps, p, wp)
    {
      forall l | LeafUnder(a.nodes, p, wp, l) { SameLeaf(a, b, p, wp, l); }
      forall l | LeafUnder(b.nodes, p, wp, l) { SameLeaf(b, a, p, wp, l); }
      assert Leaves(a.nodes, p, wp) == Leaves(b.nodes, p, wp);
      forall st
        ensures LeavesWith(a.nodes, a.deps, p, wp, st) == LeavesWith(b.nodes, b.deps, p, wp, st)
      {
      }
    }
  }

  // ---- what a snapshot depends on -------------------------------------------------

  ghost predicate SameInProject(a: Db, b: Db, p: Id) {
    (forall x :: InProject(a.nodes, p, x) <==> InProject(b.nodes, p, x))
    && (forall x :: InProject(a.nodes, p, x) && InProject(b.nodes, p, x) ==> ViewOf(a, x) == ViewOf(b, x))
  }

  lemma SeenIsCounted(a: Db, b: Db, p: Id, x: Id)
    requires HostsOwn(a.nodes, p) && SameInProject(a, b, p) && CountsFor(a.nodes, p, x)
    ensures CountsFor(b.nodes, p, x) && InProject(a.nodes, p, x) && ViewOf(a, x) == ViewOf(b, x)
  {
    assert InProject(a.nodes, p, x);
    if a.nodes[x].kind == Step {
      var t := a.nodes[x].parent;
      assert InProject(a.nodes, p, t) && ViewOf(a, t) == ViewOf(b, t);
    }
  }

  lemma SameSeenSameProgress(a: Db, b: Db, p: Id)
    requires HostsOwn(a.nodes, p) && HostsOwn(b.nodes, p) && SameInProject(a, b, p)
    ensures ProgressFor(a.nodes, a.deps, p) == ProgressFor(b.nodes, b.deps, p)
  {
    forall x
      ensures CountsFor(a.nodes, p, x) ==> CountsFor(b.nodes, p, x) && ViewOf(a, x) == ViewOf(b, x)
      ensures CountsFor(b.nodes, p, x) ==> CountsFor(a.nodes, p, x)
    {
      if CountsFor(a.nodes, p, x) { SeenIsCounted(a, b, p, x); }
      if CountsFor(b.nodes, p, x) { SeenIsCounted(b, a, p, x); }
    }
    ProgressIsLocal(a, b, p);
  }

  lemma SameSnapNodes(a: Db, b: Db, p: Id)
    ensures SnapNodes(a, p) == SnapNodes(b, p) <==> SameInProject(a, b, p)
  {
    forall x
      ensures x in SnapNodes(a, p) <==> InProject(a.nodes, p, x)
      ensures x in SnapNodes(b, p) <==> InProject(b.nodes, p, x)
    {
    }
    if SnapNodes(a, p) == SnapNodes(b, p) {
      forall x | InProject(a.nodes, p, x)
        ensures ViewOf(a, x) == ViewOf(b, x)
      {
        assert SnapNodes(a, p)[x] == SnapNodes(b, p)[x];
      }
    }
  }

  /** A project that hosts only its own steps looks the same exactly when its nodes and its
      edges do: its progress follows. */
  lemma SnapshotExactly(a: Db, b: Db, p: Id)
    requires HostsOwn(a.nodes, p) && HostsOwn(b.nodes, p)
    ensures Snapshot(a, p) == Snapshot(b, p) <==> SameInProject(a, b, p) && SnapDeps(a, p) == SnapDeps(b, p)
  {
    SameSnapNodes(a, b, p);
    if SameInProject(a, b, p) {
      SameSeenSameProgress(a, b, p);
    }
  }

  // ---- what a transaction must report ---------------------------------------------

  /** The payload reaches the clients of `scope` and brings them to the new snapshot; the
      clients of another project see none, and already hold theirs. */
  ghost predicate ExactAt(db: Db, t: Txn, scope: Id, p: Id) {
    Snapshot(t.db, p) == if p == scope then ApplyDelta(Snapshot(db, p), Finish(t.db, p, t)) else Snapshot(db, p)
  }

  /** The payload of `t` accounts for every difference a client of `p` could see. */
  ghost predicate Accounts(db: Db, t: Txn, p: Id) {
    (forall x :: x in t.affected && x in t.db.nodes ==> t.db.nodes[x].project == p)
    && (forall x :: InProject(db.nodes, p, x) ==> (x in Dropped(t.events) <==> !InProject(t.db.nodes, p, x)))
    && (forall x :: InProject(t.db.nodes, p, x) && x !in t.affected ==>
          InProject(db.nodes, p, x) && ViewOf(db, x) == ViewOf(t.db, x))
    && SnapDeps(t.db, p)
       == EdgesOutside(SnapDeps(db, p) - EdgeEvents(t.events, DepRemoved), Dropped(t.events))
          + EdgeEvents(t.events, DepAdded)
  }

  lemma AccountedNodes(db: Db, t: Txn, p: Id, x: Id)
    requires Accounts(db, t, p)
    ensures var client := ApplyDelta(Snapshot(db, p), Finish(t.db, p, t));
            (x in SnapNodes(t.db, p) <==> x in client.nodes)
            && (x in SnapNodes(t.db, p) ==> SnapNodes(t.db, p)[x] == client.nodes[x])
  {
  }

  lemma AccountedIsExact(db: Db, t: Txn, p: Id)
    requires Accounts(db, t, p)
    ensures Snapshot(t.db, p) == ApplyDelta(Snapshot(db, p), Finish(t.db, p, t))
  {
    forall x {
      AccountedNodes(db, t, p, x);
    }
    assert SnapNodes(t.db, p) == ApplyDelta(Snapshot(db, p), Finish(t.db, p, t)).nodes;
  }
}
