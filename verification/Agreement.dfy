/** The clients' answers, computed from a project's lists, against what the engine does. */
module Agreement {
  import opened FlowTypes
  import opened Graph
  import opened Forest
  import opened Status
  import opened Engine
  import opened Invariants
  import opened Delta
  import opened Effects
  import opened Shapes
  import opened Readiness
  import opened Listing
  import opened Derive
  import opened Counts
  import opened Layering
  import opened Tui
  import Memory
  import Descendants
  import Layout

  /** Lists of a project of a sound database. */
  ghost predicate Fresh(db: Db, p: Id, nodes: seq<NodeView>, deps: seq<Edge>) {
    Inv(db) && Lists(nodes, deps, Snapshot(db, p))
  }

  // ---- the cycle preview ----------------------------------------------------------

  /** A chain of dependencies leads from a to b through another project. */
  ghost predicate Detour(db: Db, p: Id, a: Id, b: Id) {
    exists path :: PathFromTo(db.deps, path, a, b) && GoesOut(db, p, path)
  }

  predicate GoesOut(db: Db, p: Id, path: seq<Id>) {
    exists i :: 0 <= i < |path| && !InProject(db.nodes, p, path[i])
  }

  lemma PathStaysInside(db: Db, p: Id, path: seq<Id>)
    requires IsPath(db.deps, path) && !GoesOut(db, p, path)
    ensures IsPath(SnapDeps(db, p), path)
  {
    forall i | 0 <= i < |path| - 1
      ensures Edge(path[i], path[i + 1]) in SnapDeps(db, p)
    {
      assert InProject(db.nodes, p, path[i]) && InProject(db.nodes, p, path[i + 1]);
    }
  }

  lemma ReachesOrDetours(db: Db, p: Id, a: Id, b: Id)
    ensures Reaches(db.deps, a, b) <==> Reaches(SnapDeps(db, p), a, b) || Detour(db, p, a, b)
  {
    if Reaches(db.deps, a, b) {
      var path :| PathFromTo(db.deps, path, a, b);
      if !GoesOut(db, p, path) {
        PathStaysInside(db, p, path);
        assert PathFromTo(SnapDeps(db, p), path, a, b);
      }
    }
    if Reaches(SnapDeps(db, p), a, b) {
      ReachesMonotone(SnapDeps(db, p), db.deps, a, b);
    }
  }

  /** Both clients walk their project's edges, the web client along its index and the terminal
      client along the edge list. When one says yes the engine's guard refuses the edge as a
      cycle; the guard refuses one more kind, an edge whose ends a chain through another
      project already joins. */
  lemma CyclePreviewIsTheGuard(db: Db, p: Id, nodes: seq<NodeView>, deps: seq<Edge>, ix: Index, e: Edge)
    requires Fresh(db, p, nodes, deps) && IndexOf(ix, nodes, deps)
    ensures InsertEdge(db, e) == Failure(FailedPrecondition)
            <==> e.blocker == e.blocked || Reaches(EdgeSet(ix.blocks), e.blocked, e.blocker)
                 || Detour(db, p, e.blocked, e.blocker)
    ensures e.blocker != e.blocked ==>
              (InsertEdge(db, e) == Failure(FailedPrecondition)
               <==> StrictlyReaches(EdgesIn(deps), e.blocked, e.blocker) || Detour(db, p, e.blocked, e.blocker))
  {
    EdgeSetOfIndex(ix, nodes, deps);
    assert EdgesIn(deps) == SnapDeps(db, p);
    FollowIsReach(db.deps, {e.blocked}, e.blocker);
    ReachesOrDetours(db, p, e.blocked, e.blocker);
    ReachesSelf(db.deps, e.blocked);
    if e.blocker != e.blocked {
      StrictIsReach(EdgesIn(deps), e.blocked, e.blocker);
    }
  }

  /** Asking for a marked candidate is refused as a cycle; asking for an unmarked one adds the
      edge, unless a chain through another project closes a cycle that the dialog cannot
      see. */
  lemma UnmarkedIsAccepted(db: Db, p: Id, nodes: seq<NodeView>, deps: seq<Edge>, ix: Index, id: Id,
                           cands: seq<DepCand>, matches: NodeView -> bool, c: DepCand, meta: Meta)
    requires Fresh(db, p, nodes, deps) && IndexOf(ix, nodes, deps) && InProject(db.nodes, p, id)
    requires CandsFor(cands, Filter(nodes, Offered(deps, p, id, matches)), deps, id) && c in cands
    requires LedgerHit(db, p, meta.key).None?
    ensures var r := AddDependency(meta, c.node.id, id);
            if c.cycle || Detour(db, p, id, c.node.id) then Decide(db, r) == Reject(FailedPrecondition)
            else Decide(db, r).Commit? && Apply(db, r).0.deps == db.deps + {Edge(c.node.id, id)}
  {
    var offered := Filter(nodes, Offered(deps, p, id, matches));
    var i :| 0 <= i < |cands| && cands[i] == c;
    assert offered[i] in offered;
    FilterMeans(nodes, Offered(deps, p, id, matches));
    ListedMeans(db, p, nodes, deps);
    var e := Edge(c.node.id, id);
    CyclePreviewIsTheGuard(db, p, nodes, deps, ix, e);
    LinkDecides(db, meta, e, p);
  }

  /** With both ends there and no retry, adding an edge commits exactly when the guard lets
      the edge in. */
  lemma LinkDecides(db: Db, meta: Meta, e: Edge, p: Id)
    requires Inv(db) && InProject(db.nodes, p, e.blocker) && e.blocked in db.nodes
    requires LedgerHit(db, p, meta.key).None?
    ensures var r := AddDependency(meta, e.blocker, e.blocked);
            if InsertEdge(db, e) == Failure(FailedPrecondition) then Decide(db, r) == Reject(FailedPrecondition)
            else Decide(db, r).Commit? && Apply(db, r).0.deps == db.deps + {e}
  {
    var r := AddDependency(meta, e.blocker, e.blocked);
    LinkTxnLinks(db, r, p);
    assert Decide(db, r) == FromTxn(p, AddDependencyTxn(db, r, p));
  }

  /** The dependencies drawn inside one package of a reachable database are acyclic, and the
      two lookup maps agree on them: what the layering and the spine ask for. */
  lemma PackageIsAcyclic(db: Db, p: Id, nodes: seq<NodeView>, deps: seq<Edge>, ix: Index, own: set<Id>)
    requires Fresh(db, p, nodes, deps) && IndexOf(ix, nodes, deps)
    ensures Acyclic(OwnEdges(ix, own))
    ensures forall a, b :: a in own && b in own ==> (b in At(ix.blocks, a) <==> a in At(ix.blockers, b))
  {
    forall a, b
      ensures b in At(ix.blocks, a) <==> Edge(a, b) in deps
      ensures a in At(ix.blockers, b) <==> Edge(a, b) in deps
    {
      BlocksMeans(deps, a);
      BlockersMeans(deps, b);
      assert At(ix.blocks, a) == BlocksIn(deps, a) && At(ix.blockers, b) == BlockersIn(deps, b);
    }
    forall e | e in OwnEdges(ix, own)
      ensures e in db.deps
    {
      var x, b :| x in own && b in own && b in At(ix.blockers, x) && Edge(b, x) == e;
      assert e in EdgesIn(deps);
    }
    AcyclicSubset(OwnEdges(ix, own), db.deps);
  }

  /** So in the graph view of a sound database every dependency between two tasks of one
      expanded package runs from left to right. */
  lemma GraphGoesLeftToRight(db: Db, p: Id, nodes: seq<NodeView>, deps: seq<Edge>, ix: Index, wps: seq<NodeView>,
                             canvas: Layout.Canvas, a: Layout.Cell, b: Layout.Cell)
    requires Fresh(db, p, nodes, deps) && IndexOf(ix, nodes, deps) && Layout.Tidy(nodes, ix, wps, canvas)
    requires a in canvas.cells && b in canvas.cells && a.node.row.parent == b.node.row.parent
    requires Edge(a.node.id, b.node.id) in deps
    ensures a.rect.x + Layout.NODE_W + Layout.COL_GAP <= b.rect.x
  {
    PackageIsAcyclic(db, p, nodes, deps, ix, Layout.OwnIds(nodes, a.node.row.parent));
    BlockersMeans(deps, b.node.id);
    assert At(ix.blockers, b.node.id) == BlockersIn(deps, b.node.id);
    Layout.ArrowsGoRight(nodes, ix, wps, canvas, a, b);
  }

  // ---- deleting -------------------------------------------------------------------

  /** Every client walk below a node ends and finds part of what the engine's closure finds:
      all of it exactly when all of it is the project's. */
  lemma ClientSubtreeIsTheServers(db: Db, p: Id, nodes: seq<NodeView>, deps: seq<Edge>, n: Id)
    requires Fresh(db, p, nodes, deps) && InProject(db.nodes, p, n)
    ensures var mine, whole := Subtree(RowsOf(nodes), n), Subtree(db.nodes, n);
            mine <= whole && (forall x :: x in mine ==> InProject(db.nodes, p, x))
            && (mine == whole <==> forall x :: x in whole ==> InProject(db.nodes, p, x))
    ensures Acyclic(Descendants.LinksBelow(nodes, n)) && Descendants.Reached(nodes, n) == Subtree(RowsOf(nodes), n)
  {
    RowsOfProject(db, p, nodes, deps);
    SubtreeOfProject(db, p, n);
    Descendants.ListedEnds(db.nodes, nodes, n);
    Descendants.ReachedIsSubtree(nodes, n);
  }

  function BelowIds(nodes: seq<NodeView>, sub: set<Id>, root: Id, kind: Kind): set<Id> {
    set n | n in nodes && Below(n, sub, root, kind) :: n.id
  }

  predicate Below(n: NodeView, sub: set<Id>, root: Id, kind: Kind) {
    n.id != root && n.id in sub && n.row.kind == kind
  }

  lemma BelowIdsStep(front: seq<NodeView>, last: NodeView, sub: set<Id>, root: Id, kind: Kind)
    requires forall n :: n in front ==> n.id != last.id
    ensures |BelowIds(front + [last], sub, root, kind)|
            == |BelowIds(front, sub, root, kind)| + if Below(last, sub, root, kind) then 1 else 0
  {
    var before := BelowIds(front, sub, root, kind);
    var after := BelowIds(front + [last], sub, root, kind);
    assert last.id !in before;
    assert forall n :: n in front + [last] <==> n in front || n == last;
    var here: set<Id> := if Below(last, sub, root, kind) then {last.id} else {};
    assert after == before + here;
  }

  lemma {:induction false} BelowIsASet(nodes: seq<NodeView>, sub: set<Id>, root: Id, kind: Kind)
    requires DistinctIds(nodes)
    ensures CountBelow(nodes, sub, root, kind) == |BelowIds(nodes, sub, root, kind)|
  {
    if nodes != [] {
      var front := nodes[..|nodes| - 1];
      var last := nodes[|nodes| - 1];
      BelowIsASet(front, sub, root, kind);
      assert nodes == front + [last];
      BelowIdsStep(front, last, sub, root, kind);
    }
  }

  function Touching(deps: seq<Edge>, sub: set<Id>): set<Edge> {
    set d | d in deps && (d.blocker in sub || d.blocked in sub)
  }

  lemma TouchingStep(front: seq<Edge>, last: Edge, sub: set<Id>)
    requires last !in front
    ensures |Touching(front + [last], sub)|
            == |Touching(front, sub)| + if last.blocker in sub || last.blocked in sub then 1 else 0
  {
    assert forall d :: d in front + [last] <==> d in front || d == last;
    assert Touching(front + [last], sub) == Touching(front, sub) + Touching([last], sub);
    assert Touching([last], sub) == if last.blocker in sub || last.blocked in sub then {last} else {};
  }

  lemma {:induction false} TouchingIsASet(deps: seq<Edge>, sub: set<Id>)
    requires DistinctEdges(deps)
    ensures CountTouching(deps, sub) == |Touching(deps, sub)|
  {
    if deps != [] {
      var front := deps[..|deps| - 1];
      var last := deps[|deps| - 1];
      TouchingIsASet(front, sub);
      assert deps == front + [last];
      TouchingStep(front, last, sub);
    }
  }

  /** A committed delete removes exactly the subtree and the edges touching it, and logs one
      event for each node. */
  lemma DeleteIsExact(db: Db, r: Request)
    requires r.DeleteNode? && Decide(db, r).Commit?
    ensures Deletion(db, r.node, Decide(db, r).txn)
  {
    DeleteTxnDeletes(db, r, db.nodes[r.node].project);
  }

  /** The nodes of a kind that a step removed, other than n. */
  function Removed(db: Db, after: Db, n: Id, kind: Kind): set<Id> {
    set x | x in db.nodes && x !in after.nodes && x != n && db.nodes[x].kind == kind
  }

  function KindBelow(db: Db, n: Id, kind: Kind): set<Id> {
    set x | x in db.nodes && x in Subtree(db.nodes, n) && x != n && db.nodes[x].kind == kind
  }

  lemma RemovedIsBelow(db: Db, n: Id, t: Txn, kind: Kind)
    requires Deletion(db, n, t)
    ensures Removed(db, t.db, n, kind) == KindBelow(db, n, kind)
  {
  }

  lemma SameSizeExactly<T>(a: set<T>, b: set<T>)
    requires a <= b
    ensures |a| == |b| <==> forall x :: x in b ==> x in a
  {
    assert b == a + (b - a);
    if |a| == |b| {
      assert |b - a| == 0;
    } else {
      assert a != b;
    }
  }

  /** The dialog's number of one kind: what the client finds below n. */
  lemma KindCounted(db: Db, p: Id, nodes: seq<NodeView>, deps: seq<Edge>, n: Id, kind: Kind)
    requires Fresh(db, p, nodes, deps) && InProject(db.nodes, p, n)
    ensures var mine := Subtree(RowsOf(nodes), n);
            CountBelow(nodes, mine, n, kind) == |KindBelow(db, n, kind)|
            <==> forall x :: x in KindBelow(db, n, kind) ==> x in mine
  {
    var mine := Subtree(RowsOf(nodes), n);
    ClientSubtreeIsTheServers(db, p, nodes, deps, n);
    ListedMeans(db, p, nodes, deps);
    var found := BelowIds(nodes, mine, n, kind);
    forall x
      ensures x in found <==> x in KindBelow(db, n, kind) && x in mine
    {
      if x in KindBelow(db, n, kind) && x in mine {
        assert ViewOf(db, x) in nodes && Below(ViewOf(db, x), mine, n, kind);
      }
    }
    BelowIsASet(nodes, mine, n, kind);
    SameSizeExactly(found, KindBelow(db, n, kind));
  }

  predicate Touches(d: Edge, s: set<Id>) {
    d.blocker in s || d.blocked in s
  }

  lemma EdgesCounted(db: Db, p: Id, nodes: seq<NodeView>, deps: seq<Edge>, n: Id)
    requires Fresh(db, p, nodes, deps) && InProject(db.nodes, p, n)
    ensures var mine, whole := Subtree(RowsOf(nodes), n), Subtree(db.nodes, n);
            CountTouching(deps, mine) == |db.deps - EdgesOutside(db.deps, whole)|
            <==> forall d :: d in db.deps && Touches(d, whole) ==> d in SnapDeps(db, p) && Touches(d, mine)
  {
    var mine, whole := Subtree(RowsOf(nodes), n), Subtree(db.nodes, n);
    ClientSubtreeIsTheServers(db, p, nodes, deps, n);
    var gone := db.deps - EdgesOutside(db.deps, whole);
    forall d
      ensures d in Touching(deps, mine) <==> d in SnapDeps(db, p) && Touches(d, mine)
      ensures d in gone <==> d in db.deps && Touches(d, whole)
    {
      assert d in EdgesIn(deps) <==> d in SnapDeps(db, p);
    }
    TouchingIsASet(deps, mine);
    SameSizeExactly(Touching(deps, mine), gone);
  }

  /** The confirm dialog against the delete. The number of tasks it gives, or of steps, is the
      number removed exactly when the client finds all of them below the node; the number of
      edges is right exactly when every edge removed is one of the project's that touches what
      the client finds. The delete writes an event for every node removed and one for the
      root. */
  lemma DialogTellsTheDelete(db: Db, p: Id, nodes: seq<NodeView>, deps: seq<Edge>, r: Request, kind: Kind)
    requires Fresh(db, p, nodes, deps) && r.DeleteNode? && Decide(db, r).Commit? && InProject(db.nodes, p, r.node)
    ensures var t := Decide(db, r).txn;
            var mine := Subtree(RowsOf(nodes), r.node);
            (CountBelow(nodes, mine, r.node, kind) == |Removed(db, t.db, r.node, kind)|
             <==> forall x :: x in Removed(db, t.db, r.node, kind) ==> x in mine)
            && (CountTouching(deps, mine) == |db.deps - t.db.deps|
                <==> forall d :: d in db.deps && Touches(d, Subtree(db.nodes, r.node)) ==>
                       d in SnapDeps(db, p) && Touches(d, mine))
            && |t.events| == 1 + |Removed(db, t.db, r.node, Task)| + |Removed(db, t.db, r.node, Step)|
  {
    var t := Decide(db, r).txn;
    DeleteIsExact(db, r);
    forall k { RemovedIsBelow(db, r.node, t, k); }
    KindCounted(db, p, nodes, deps, r.node, kind);
    EdgesCounted(db, p, nodes, deps, r.node);
    SubtreeByKind(db, r.node);
  }

  lemma SubtreeByKind(db: Db, n: Id)
    requires Inv(db) && n in db.nodes
    ensures |Subtree(db.nodes, n)| == 1 + |KindBelow(db, n, Task)| + |KindBelow(db, n, Step)|
  {
    var sub := Subtree(db.nodes, n);
    var tasks, steps := KindBelow(db, n, Task), KindBelow(db, n, Step);
    SubtreeIsTwoLevels(db.nodes, n);
    forall x | x in sub && x != n
      ensures x in tasks + steps
    {
      assert Placed(db.nodes, db.nodes[x]);
    }
    assert sub == {n} + (tasks + steps);
    assert tasks !! steps;
  }

  // ---- the demo store -------------------------------------------------------------

  /** The tables after a committed delete of n. */
  ghost predicate Without(db: Db, n: Id, after: Db) {
    var dead := Subtree(db.nodes, n);
    after.nodes == db.nodes - dead && after.deps == EdgesOutside(db.deps, dead) && after.verifs == db.verifs - dead
  }

  lemma DeleteLeaves(db: Db, r: Request)
    requires r.DeleteNode? && Decide(db, r).Commit?
    ensures r.node in db.nodes && Without(db, r.node, Apply(db, r).0)
  {
    DeleteIsExact(db, r);
  }

  /** The engine shows a survivor as before exactly when the delete does not free it. */
  lemma SurvivorExactly(db: Db, n: Id, after: Db, x: Id)
    requires Without(db, n, after) && n in db.nodes && x in db.nodes && x !in Subtree(db.nodes, n)
    ensures x in after.nodes && (ViewOf(after, x) == ViewOf(db, x) <==> !Freed(db, Subtree(db.nodes, n), x))
    ensures Waiting(after.nodes, after.deps, x) <==> HeldBesides(db.nodes, db.deps, Subtree(db.nodes, n), x)
  {
    var dead := Subtree(db.nodes, n);
    assert dead <= {n} + db.nodes.Keys;
    assert Vanishes(db, after, dead, n);
    VanishView(db, after, dead, n, x);
    VanishWaits(db, after, dead, n, x);
  }

  /** The engine still has the entry, as it is. */
  ghost predicate Lasts(db: Db, n: Id, m: NodeView) {
    m.id !in Subtree(db.nodes, n) && !Freed(db, Subtree(db.nodes, n), m.id)
  }

  lemma KeptExactly(db: Db, p: Id, nodes: seq<NodeView>, deps: seq<Edge>, n: Id, after: Db, m: NodeView)
    requires Fresh(db, p, nodes, deps) && InProject(db.nodes, p, n) && Without(db, n, after)
    requires m in Memory.NodesOutside(nodes, Subtree(RowsOf(nodes), n))
    ensures InProject(db.nodes, p, m.id) && m == ViewOf(db, m.id)
    ensures Lasts(db, n, m) <==> m.id in after.nodes && m == ViewOf(after, m.id)
  {
    Memory.NodesOutsideShrinks(nodes, Subtree(RowsOf(nodes), n));
    ListedMeans(db, p, nodes, deps);
    if m.id !in Subtree(db.nodes, n) {
      SurvivorExactly(db, n, after, m.id);
    }
  }

  lemma MemoryDepAgrees(db: Db, p: Id, nodes: seq<NodeView>, deps: seq<Edge>, n: Id, after: Db, d: Edge)
    requires Fresh(db, p, nodes, deps) && InProject(db.nodes, p, n) && Without(db, n, after)
    requires forall x :: InProject(db.nodes, p, x) ==> (x in Subtree(db.nodes, n) <==> x in Subtree(RowsOf(nodes), n))
    ensures d in Memory.DepsOutside(deps, Subtree(RowsOf(nodes), n)) <==> d in SnapDeps(after, p)
  {
    Memory.DepsOutsideShrinks(deps, Subtree(RowsOf(nodes), n));
    assert d in EdgesIn(deps) <==> d in SnapDeps(db, p);
  }

  lemma MemoryDepsAgree(db: Db, p: Id, nodes: seq<NodeView>, deps: seq<Edge>, n: Id, after: Db)
    requires Fresh(db, p, nodes, deps) && InProject(db.nodes, p, n) && Without(db, n, after)
    requires forall x :: InProject(db.nodes, p, x) && x in Subtree(db.nodes, n) ==> x in Subtree(RowsOf(nodes), n)
    ensures var kept := Memory.DepsOutside(deps, Subtree(RowsOf(nodes), n));
            EdgesIn(kept) == SnapDeps(after, p) && DistinctEdges(kept)
  {
    ClientSubtreeIsTheServers(db, p, nodes, deps, n);
    Memory.DepsOutsideDistinct(deps, Subtree(RowsOf(nodes), n));
    forall d { MemoryDepAgrees(db, p, nodes, deps, n, after, d); }
  }

  /** If every entry lasts, the engine deletes nothing of the project that the client did not,
      and what it keeps it shows as listed. */
  lemma AllLastViews(db: Db, p: Id, nodes: seq<NodeView>, deps: seq<Edge>, n: Id, after: Db, x: Id)
    requires Fresh(db, p, nodes, deps) && InProject(db.nodes, p, n) && Without(db, n, after)
    requires forall m :: m in Memory.NodesOutside(nodes, Subtree(RowsOf(nodes), n)) ==> Lasts(db, n, m)
    requires InProject(db.nodes, p, x) && x !in Subtree(RowsOf(nodes), n)
    ensures x !in Subtree(db.nodes, n) && x in after.nodes && ViewOf(db, x) == ViewOf(after, x)
    ensures ViewOf(db, x) in Memory.NodesOutside(nodes, Subtree(RowsOf(nodes), n))
  {
    ListedMeans(db, p, nodes, deps);
    FilterMeans(nodes, Memory.Outside(Subtree(RowsOf(nodes), n)));
    assert ViewOf(db, x) in nodes && ViewOf(db, x).id == x;
    KeptExactly(db, p, nodes, deps, n, after, ViewOf(db, x));
  }

  lemma AllLastNodes(db: Db, p: Id, nodes: seq<NodeView>, deps: seq<Edge>, n: Id, after: Db)
    requires Fresh(db, p, nodes, deps) && InProject(db.nodes, p, n) && Without(db, n, after)
    requires forall m :: m in Memory.NodesOutside(nodes, Subtree(RowsOf(nodes), n)) ==> Lasts(db, n, m)
    ensures var kept := Memory.NodesOutside(nodes, Subtree(RowsOf(nodes), n));
            (forall m :: m in kept ==> m.id in SnapNodes(after, p) && SnapNodes(after, p)[m.id] == m)
            && (forall x :: x in SnapNodes(after, p) ==> SnapNodes(after, p)[x] in kept)
  {
    var mine := Subtree(RowsOf(nodes), n);
    ClientSubtreeIsTheServers(db, p, nodes, deps, n);
    forall x | InProject(db.nodes, p, x) && x !in mine { AllLastViews(db, p, nodes, deps, n, after, x); }
    forall m | m in Memory.NodesOutside(nodes, mine) { KeptExactly(db, p, nodes, deps, n, after, m); }
  }

  lemma AllLastAgrees(db: Db, p: Id, nodes: seq<NodeView>, deps: seq<Edge>, n: Id, after: Db)
    requires Fresh(db, p, nodes, deps) && InProject(db.nodes, p, n) && Without(db, n, after)
    requires forall m :: m in Memory.NodesOutside(nodes, Subtree(RowsOf(nodes), n)) ==> Lasts(db, n, m)
    ensures var mine := Subtree(RowsOf(nodes), n);
            Lists(Memory.NodesOutside(nodes, mine), Memory.DepsOutside(deps, mine), Snapshot(after, p))
  {
    var mine := Subtree(RowsOf(nodes), n);
    var kept := Memory.NodesOutside(nodes, mine);
    forall x | InProject(db.nodes, p, x) && x !in mine { AllLastViews(db, p, nodes, deps, n, after, x); }
    FilterMeans(nodes, Memory.Outside(mine));
    AllLastNodes(db, p, nodes, deps, n, after);
    assert forall i :: 0 <= i < |kept| ==> kept[i] in kept;
    MemoryDepsAgree(db, p, nodes, deps, n, after);
  }

  /** The demo store's in-place delete keeps the statuses it had. An entry it keeps is what the
      engine shows after the same delete exactly when the engine keeps the node and the delete
      does not free it, and the lists are those a refresh would bring exactly when that holds
      of every entry. */
  lemma MemoryDeleteAgrees(db: Db, p: Id, nodes: seq<NodeView>, deps: seq<Edge>, r: Request)
    requires Fresh(db, p, nodes, deps) && r.DeleteNode? && Decide(db, r).Commit? && InProject(db.nodes, p, r.node)
    ensures var mine := Subtree(RowsOf(nodes), r.node);
            var after := Apply(db, r).0;
            (forall m :: m in Memory.NodesOutside(nodes, mine) ==>
               (Lasts(db, r.node, m) <==> m.id in after.nodes && m == ViewOf(after, m.id)))
            && (Lists(Memory.NodesOutside(nodes, mine), Memory.DepsOutside(deps, mine), Snapshot(after, p))
                <==> forall m :: m in Memory.NodesOutside(nodes, mine) ==> Lasts(db, r.node, m))
  {
    DeleteLeaves(db, r);
    var after := Apply(db, r).0;
    var mine := Subtree(RowsOf(nodes), r.node);
    var kept := Memory.NodesOutside(nodes, mine);
    forall m | m in kept { KeptExactly(db, p, nodes, deps, r.node, after, m); }
    if forall m :: m in kept ==> Lasts(db, r.node, m) {
      AllLastAgrees(db, p, nodes, deps, r.node, after);
    }
    if Lists(kept, Memory.DepsOutside(deps, mine), Snapshot(after, p)) {
      ListedMeans(after, p, kept, Memory.DepsOutside(deps, mine));
    }
  }

  // ---- marking done ---------------------------------------------------------------

  lemma {:induction false} EffectsMean(ix: Index, n: Id, downs: seq<Id>)
    ensures forall e :: e in DependentEffects(ix, n, downs) <==>
              exists id :: id in downs && id in ix.byId && ix.byId[id].status == IsBlocked
                           && e == Effect(ix.byId[id], if HeldByOther(ix, n, id) then IsBlocked else IsReady,
                                          HeldByOther(ix, n, id))
    decreases |downs|
  {
    if downs != [] {
      EffectsMean(ix, n, downs[..|downs| - 1]);
      assert downs == downs[..|downs| - 1] + [downs[|downs| - 1]];
    }
  }

  lemma KnownIsViewed(db: Db, p: Id, nodes: seq<NodeView>, deps: seq<Edge>, ix: Index, x: Id)
    requires Fresh(db, p, nodes, deps) && IndexOf(ix, nodes, deps)
    ensures x in ix.byId <==> InProject(db.nodes, p, x)
    ensures x in ix.byId ==> ix.byId[x] == ViewOf(db, x)
  {
    FindMeans(nodes, x);
    if InProject(db.nodes, p, x) {
      assert x in SnapNodes(db, p);
      assert SnapNodes(db, p)[x] in nodes;
    }
    if x in ix.byId {
      var m := ix.byId[x];
      assert FindNode(nodes, x) == Some(m);
      var i :| 0 <= i < |nodes| && nodes[i] == m;
    }
  }

  /** Some blocker of x that is not done is the project's own, and outside s. */
  ghost predicate HeldInside(db: Db, p: Id, s: set<Id>, x: Id) {
    exists b :: InProject(db.nodes, p, b) && Edge(b, x) in db.deps && db.nodes[b].declared != Done && b !in s
  }

  /** That is what the client sees. */
  lemma HeldAsKnown(db: Db, p: Id, nodes: seq<NodeView>, deps: seq<Edge>, ix: Index, s: set<Id>, x: Id)
    requires Fresh(db, p, nodes, deps) && IndexOf(ix, nodes, deps) && InProject(db.nodes, p, x)
    ensures HeldOutside(ix, s, x) <==> HeldInside(db, p, s, x)
  {
    BlockersMeans(deps, x);
    assert At(ix.blockers, x) == BlockersIn(deps, x);
    forall b
      ensures b in At(ix.blockers, x) && b in ix.byId <==> InProject(db.nodes, p, b) && Edge(b, x) in db.deps
      ensures b in ix.byId ==> b in db.nodes && (ix.byId[b].status != IsDone <==> db.nodes[b].declared != Done)
    {
      KnownIsViewed(db, p, nodes, deps, ix, b);
      assert Edge(b, x) in EdgesIn(deps) <==> Edge(b, x) in SnapDeps(db, p);
    }
    if b :| InProject(db.nodes, p, b) && Edge(b, x) in db.deps && db.nodes[b].declared != Done && b !in s {
      HeldBy(ix, s, x, b);
    }
  }

  lemma HeldInsideIsHeld(db: Db, p: Id, s: set<Id>, x: Id)
    requires HeldInside(db, p, s, x)
    ensures HeldBesides(db.nodes, db.deps, s, x)
  {
    var b :| InProject(db.nodes, p, b) && Edge(b, x) in db.deps && db.nodes[b].declared != Done && b !in s;
    var e := Edge(b, x);
    assert e in db.deps && e.blocked == x && e.blocker in db.nodes && db.nodes[e.blocker].declared != Done && e.blocker !in s;
  }

  lemma MarkDoneRows(db: Db, author: string, n: Id)
    requires Inv(db) && n in db.nodes
    ensures var after := Apply(db, MarkDone(author, n)).0;
            after.nodes == db.nodes[n := db.nodes[n].(declared := Done)] && after.deps == db.deps
  {
  }

  /** The preview has a row for x exactly when x is a blocked direct dependent of the project,
      and it is stuck exactly when another of the project's nodes holds it. */
  lemma PreviewRow(db: Db, p: Id, nodes: seq<NodeView>, deps: seq<Edge>, ix: Index, n: Id, x: Id)
    requires Fresh(db, p, nodes, deps) && IndexOf(ix, nodes, deps)
    requires InProject(db.nodes, p, n) && x in db.nodes
    ensures var effects := DependentEffects(ix, n, At(ix.blocks, n));
            var stuck := HeldInside(db, p, {n}, x);
            var row := Effect(ViewOf(db, x), if stuck then IsBlocked else IsReady, stuck);
            (forall e :: e in effects && e.node.id == x ==> e == row)
            && (row in effects <==> Edge(n, x) in db.deps && InProject(db.nodes, p, x) && StatusIn(db, x) == IsBlocked)
  {
    var downs := At(ix.blocks, n);
    EffectsMean(ix, n, downs);
    BlocksMeans(deps, n);
    assert downs == BlocksIn(deps, n);
    forall id | id in ix.byId
      ensures ix.byId[id].id == id
    {
      KnownIsViewed(db, p, nodes, deps, ix, id);
    }
    KnownIsViewed(db, p, nodes, deps, ix, x);
    if InProject(db.nodes, p, x) {
      HeldAsKnown(db, p, nodes, deps, ix, {n}, x);
      assert Edge(n, x) in EdgesIn(deps) <==> Edge(n, x) in SnapDeps(db, p);
    }
  }

  lemma StatusAfterDone(db: Db, author: string, n: Id, x: Id)
    requires Inv(db) && n in db.nodes && x in db.nodes && x != n
    ensures var after := Apply(db, MarkDone(author, n)).0;
            var waits := HeldBesides(db.nodes, db.deps, {n}, x);
            x in after.nodes
            && (StatusIn(after, x) != StatusIn(db, x)
                <==> Edge(n, x) in db.deps && StatusIn(db, x) == IsBlocked && !waits)
            && (StatusIn(db, x) == IsBlocked ==> StatusIn(after, x) == if waits then IsBlocked else IsReady)
  {
    MarkDoneRows(db, author, n);
    var after := Apply(db, MarkDone(author, n)).0;
    WaitingSplits(db.nodes, db.deps, n, x);
    WaitingSplits(after.nodes, after.deps, n, x);
    assert HeldBesides(db.nodes, db.deps, {n}, x) <==> HeldBesides(after.nodes, after.deps, {n}, x);
  }

  /** x is a blocked direct dependent, and either the preview cannot list it, though nothing
      else holds it, or it lists it as free, though only nodes of other projects hold it. */
  ghost predicate Misread(db: Db, p: Id, n: Id, x: Id)
    requires x in db.nodes
  {
    Edge(n, x) in db.deps && StatusIn(db, x) == IsBlocked
    && if InProject(db.nodes, p, x) then HeldBesides(db.nodes, db.deps, {n}, x) && !HeldInside(db, p, {n}, x)
       else !HeldBesides(db.nodes, db.deps, {n}, x)
  }

  /** What the preview of marking n done says of another node is true exactly when it is not
      misread: its effective status changes if and only if it has a row not shown as stuck,
      and a row it has ends as it says. */
  lemma CascadePreviewIsExact(db: Db, p: Id, nodes: seq<NodeView>, deps: seq<Edge>, ix: Index, author: string, n: Id, x: Id)
    requires Fresh(db, p, nodes, deps) && IndexOf(ix, nodes, deps)
    requires InProject(db.nodes, p, n) && x in db.nodes && x != n
    ensures var effects := DependentEffects(ix, n, At(ix.blocks, n));
            var after := Apply(db, MarkDone(author, n)).0;
            x in after.nodes
            && ((StatusIn(after, x) != StatusIn(db, x) <==> exists e :: e in effects && e.node.id == x && !e.stuck)
                <==> !Misread(db, p, n, x))
            && (forall e :: e in effects && e.node.id == x ==>
                  (StatusIn(after, x) == e.becomes <==> !Misread(db, p, n, x)))
  {
    PreviewRow(db, p, nodes, deps, ix, n, x);
    StatusAfterDone(db, author, n, x);
    if HeldInside(db, p, {n}, x) {
      HeldInsideIsHeld(db, p, {n}, x);
    }
    var effects := DependentEffects(ix, n, At(ix.blocks, n));
    var stuck := HeldInside(db, p, {n}, x);
    var row := Effect(ViewOf(db, x), if stuck then IsBlocked else IsReady, stuck);
    assert row.node.id == x && row.stuck == stuck;
  }

  lemma {:induction false} PackageEffectsMean(tasks: seq<NodeView>)
    ensures forall e :: e in PackageEffects(tasks)
                        <==> e.node in tasks && e.node.status != IsDone && e == Effect(e.node, IsDone, false)
  {
    if tasks != [] {
      PackageEffectsMean(tasks[..|tasks| - 1]);
      assert tasks == tasks[..|tasks| - 1] + [tasks[|tasks| - 1]];
    }
  }

  /** The extra rows shown for a work package do not come true: every one says that its task
      will be done, and none becomes so, because the engine closes no child. */
  lemma PackageRowsStay(db: Db, p: Id, nodes: seq<NodeView>, deps: seq<Edge>, author: string, n: Id)
    requires Fresh(db, p, nodes, deps) && InProject(db.nodes, p, n)
    ensures var after := Apply(db, MarkDone(author, n)).0;
            forall e :: e in PackageEffects(Under(nodes, n, Task)) ==>
              e.becomes == IsDone && !e.stuck && e.node.id in after.nodes && StatusIn(after, e.node.id) != IsDone
  {
    MarkDoneRows(db, author, n);
    PackageEffectsMean(Under(nodes, n, Task));
    UnderMeans(nodes, n, Task);
    ListedMeans(db, p, nodes, deps);
    forall e | e in PackageEffects(Under(nodes, n, Task))
      ensures e.node.id in db.nodes && e.node.id != n && db.nodes[e.node.id].declared != Done
    {
      assert Placed(db.nodes, db.nodes[e.node.id]);
    }
  }
}
