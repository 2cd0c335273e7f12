/** A project that no link joins to another: there the clients' answers are simply right. */
module Secluded {
  import opened FlowTypes
  import opened Graph
  import opened Forest
  import opened Status
  import opened Engine
  import opened Invariants
  import opened Delta
  import opened Shapes
  import opened Borders
  import opened Readiness
  import opened Listing
  import opened Derive
  import opened Routes
  import opened Tui
  import opened Agreement
  import opened Unblocking
  import Memory

  ghost predicate IsSecluded(db: Db, p: Id) {
    Uncrossed(db, Around(p))
  }

  lemma LinksStay(db: Db, p: Id)
    requires Inv(db) && IsSecluded(db, p)
    ensures forall e :: e in db.deps ==> (InProject(db.nodes, p, e.blocker) <==> InProject(db.nodes, p, e.blocked))
    ensures forall n :: n in db.nodes && db.nodes[n].parent in db.nodes ==>
              (InProject(db.nodes, p, n) <==> InProject(db.nodes, p, db.nodes[n].parent))
    ensures HostsOwn(db.nodes, p)
  {
    forall e | e in db.deps
      ensures InProject(db.nodes, p, e.blocker) <==> InProject(db.nodes, p, e.blocked)
    {
      assert !EdgeCrosses(db.nodes, Around(p), e);
    }
    forall n | n in db.nodes && db.nodes[n].parent in db.nodes
      ensures InProject(db.nodes, p, n) <==> InProject(db.nodes, p, db.nodes[n].parent)
    {
      assert !RowCrosses(db.nodes, Around(p), db.nodes[n]);
    }
  }

  lemma {:induction false} PathStays(db: Db, p: Id, path: seq<Id>, i: nat)
    requires Inv(db) && IsSecluded(db, p) && IsPath(db.deps, path) && InProject(db.nodes, p, path[0]) && i < |path|
    ensures InProject(db.nodes, p, path[i])
  {
    if i > 0 {
      PathStays(db, p, path, i - 1);
      LinksStay(db, p);
      assert Edge(path[i - 1], path[i]) in db.deps;
    }
  }

  lemma NoDetour(db: Db, p: Id, a: Id, b: Id)
    requires Inv(db) && IsSecluded(db, p) && InProject(db.nodes, p, a)
    ensures !Detour(db, p, a, b)
  {
    forall path | PathFromTo(db.deps, path, a, b)
      ensures !GoesOut(db, p, path)
    {
      forall i | 0 <= i < |path| { PathStays(db, p, path, i); }
    }
  }

  lemma WholeSubtree(db: Db, p: Id, n: Id)
    requires Inv(db) && IsSecluded(db, p) && InProject(db.nodes, p, n)
    ensures forall x :: x in Subtree(db.nodes, n) ==> InProject(db.nodes, p, x)
  {
    LinksStay(db, p);
    SubtreeIsTwoLevels(db.nodes, n);
  }

  lemma NotMisread(db: Db, p: Id, n: Id, x: Id)
    requires Inv(db) && IsSecluded(db, p) && InProject(db.nodes, p, n) && x in db.nodes
    ensures !Misread(db, p, n, x)
  {
    LinksStay(db, p);
    if HeldBesides(db.nodes, db.deps, {n}, x) && InProject(db.nodes, p, x) {
      HeldByOwn(db, p, {n}, x);
    }
    if Edge(n, x) in db.deps {
      var e := Edge(n, x);
      assert InProject(db.nodes, p, e.blocker) <==> InProject(db.nodes, p, e.blocked);
    }
  }

  lemma HeldByOwn(db: Db, p: Id, s: set<Id>, x: Id)
    requires Inv(db) && IsSecluded(db, p) && InProject(db.nodes, p, x)
    ensures HeldInside(db, p, s, x) <==> HeldBesides(db.nodes, db.deps, s, x)
  {
    LinksStay(db, p);
    if HeldInside(db, p, s, x) {
      HeldInsideIsHeld(db, p, s, x);
    }
    if e :| e in db.deps && e.blocked == x && e.blocker in db.nodes && db.nodes[e.blocker].declared != Done && e.blocker !in s {
      assert e == Edge(e.blocker, x);
    }
  }

  // ---- the answers ----------------------------------------------------------------

  /** Both walks say yes exactly when the engine refuses. */
  lemma CyclePreviewIsRight(db: Db, p: Id, nodes: seq<NodeView>, deps: seq<Edge>, ix: Index, e: Edge)
    requires Fresh(db, p, nodes, deps) && IndexOf(ix, nodes, deps) && IsSecluded(db, p) && InProject(db.nodes, p, e.blocked)
    ensures InsertEdge(db, e) == Failure(FailedPrecondition)
            <==> e.blocker == e.blocked || Reaches(EdgeSet(ix.blocks), e.blocked, e.blocker)
    ensures e.blocker != e.blocked ==>
              (InsertEdge(db, e) == Failure(FailedPrecondition) <==> StrictlyReaches(EdgesIn(deps), e.blocked, e.blocker))
  {
    CyclePreviewIsTheGuard(db, p, nodes, deps, ix, e);
    NoDetour(db, p, e.blocked, e.blocker);
  }

  /** The nodes other than n whose status changes are exactly the rows not shown as stuck, and
      every row ends as it says. */
  lemma CascadePreviewIsRight(db: Db, p: Id, nodes: seq<NodeView>, deps: seq<Edge>, ix: Index, author: string, n: Id, x: Id)
    requires Fresh(db, p, nodes, deps) && IndexOf(ix, nodes, deps) && IsSecluded(db, p)
    requires InProject(db.nodes, p, n) && x in db.nodes && x != n
    ensures var effects := DependentEffects(ix, n, At(ix.blocks, n));
            var after := Apply(db, MarkDone(author, n)).0;
            x in after.nodes
            && (StatusIn(after, x) != StatusIn(db, x) <==> exists e :: e in effects && e.node.id == x && !e.stuck)
            && (forall e :: e in effects && e.node.id == x ==> StatusIn(after, x) == e.becomes)
  {
    CascadePreviewIsExact(db, p, nodes, deps, ix, author, n, x);
    NotMisread(db, p, n, x);
  }

  lemma EdgesFound(db: Db, p: Id, n: Id)
    requires Inv(db) && IsSecluded(db, p) && InProject(db.nodes, p, n)
    ensures forall d :: d in db.deps && Touches(d, Subtree(db.nodes, n)) ==> d in SnapDeps(db, p)
  {
    LinksStay(db, p);
    WholeSubtree(db, p, n);
  }

  /** The dialog's numbers are the nodes of each kind and the edges that the delete removes. */
  lemma DialogIsRight(db: Db, p: Id, nodes: seq<NodeView>, deps: seq<Edge>, r: Request, kind: Kind)
    requires Fresh(db, p, nodes, deps) && IsSecluded(db, p)
    requires r.DeleteNode? && Decide(db, r).Commit? && InProject(db.nodes, p, r.node)
    ensures var t := Decide(db, r).txn;
            var sub := Subtree(RowsOf(nodes), r.node);
            CountBelow(nodes, sub, r.node, kind) == |Removed(db, t.db, r.node, kind)|
            && CountTouching(deps, sub) == |db.deps - t.db.deps|
  {
    var t := Decide(db, r).txn;
    WholeSubtree(db, p, r.node);
    ClientSubtreeIsTheServers(db, p, nodes, deps, r.node);
    EdgesFound(db, p, r.node);
    DeleteIsExact(db, r);
    RemovedIsBelow(db, r.node, t, kind);
    KindCounted(db, p, nodes, deps, r.node, kind);
    EdgesCounted(db, p, nodes, deps, r.node);
  }

  lemma ComesTrueMeans(db: Db, p: Id, n: Id, x: Id)
    requires Inv(db) && IsSecluded(db, p) && InProject(db.nodes, p, x) && x !in Subtree(db.nodes, n)
    ensures var stuck := HeldInside(db, p, Subtree(db.nodes, n), x);
            ComesTrue(db, n, stuck, x) <==> stuck || db.nodes[x].declared == Open
  {
    HeldByOwn(db, p, Subtree(db.nodes, n), x);
  }

  /** A row of the unblocked list comes true unless it promises readiness to a node that is
      done or deferred. */
  lemma UnblockedIsRight(db: Db, p: Id, nodes: seq<NodeView>, deps: seq<Edge>, ix: Index, r: Request, e: Effect)
    requires Fresh(db, p, nodes, deps) && IndexOf(ix, nodes, deps) && IsSecluded(db, p)
    requires r.DeleteNode? && Decide(db, r).Commit? && InProject(db.nodes, p, r.node)
    requires e in UnblockedBy(ix, deps, Subtree(RowsOf(nodes), r.node))
    ensures var x := e.node.id;
            x in db.nodes
            && (x in Apply(db, r).0.nodes && StatusIn(Apply(db, r).0, x) == e.becomes
                <==> e.stuck || db.nodes[x].declared == Open)
  {
    WholeSubtree(db, p, r.node);
    ClientSubtreeIsTheServers(db, p, nodes, deps, r.node);
    UnblockedRows(db, p, nodes, deps, ix, r.node, e.node.id);
    UnblockedComesTrueExactly(db, p, nodes, deps, ix, r, e);
    ComesTrueMeans(db, p, r.node, e.node.id);
  }

  /** The demo store's lists are those a refresh would bring unless its delete frees a node. */
  lemma DemoDeleteIsRight(db: Db, p: Id, nodes: seq<NodeView>, deps: seq<Edge>, r: Request)
    requires Fresh(db, p, nodes, deps) && IsSecluded(db, p)
    requires r.DeleteNode? && Decide(db, r).Commit? && InProject(db.nodes, p, r.node)
    ensures var dead := Subtree(RowsOf(nodes), r.node);
            Lists(Memory.NodesOutside(nodes, dead), Memory.DepsOutside(deps, dead), Snapshot(Apply(db, r).0, p))
            <==> forall m :: m in Memory.NodesOutside(nodes, dead) ==> !Freed(db, dead, m.id)
  {
    var dead := Subtree(RowsOf(nodes), r.node);
    WholeSubtree(db, p, r.node);
    ClientSubtreeIsTheServers(db, p, nodes, deps, r.node);
    FilterMeans(nodes, Memory.Outside(dead));
    MemoryDeleteAgrees(db, p, nodes, deps, r);
  }

  /** Every node of the project is anchored, so it has a place in the drawing. */
  lemma DrawingIsWhole(db: Db, p: Id, x: Id)
    requires Inv(db) && IsSecluded(db, p) && InProject(db.nodes, p, x)
    ensures Anchored(db.nodes, p, x)
  {
    LinksStay(db, p);
    ChainsAreShort(db.nodes, x);
    if db.nodes[x].kind == Step {
      ChainsAreShort(db.nodes, db.nodes[x].parent);
    }
  }
}
