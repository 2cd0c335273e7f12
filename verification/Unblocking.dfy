/** The delete dialog's list of nodes it says will be unblocked, against the engine. */
module Unblocking {
  import opened FlowTypes
  import opened Forest
  import opened Status
  import opened Engine
  import opened Delta
  import opened Shapes
  import opened Listing
  import opened Tui
  import opened Agreement

  function RowFor(ix: Index, sub: set<Id>, dep: NodeView): Effect {
    var stuck := HeldOutside(ix, sub, dep.id);
    Effect(dep, if stuck then dep.status else IsReady, stuck)
  }

  /** The edge leaves the subtree for a known node. */
  predicate EdgeOut(ix: Index, sub: set<Id>, d: Edge) {
    d.blocker in sub && d.blocked !in sub && d.blocked in ix.byId
  }

  lemma {:induction false} UnblockedMeans(ix: Index, deps: seq<Edge>, sub: set<Id>)
    ensures forall e :: e in UnblockedBy(ix, deps, sub)
                        <==> exists d :: d in deps && EdgeOut(ix, sub, d) && e == RowFor(ix, sub, ix.byId[d.blocked])
  {
    if deps != [] {
      UnblockedMeans(ix, deps[..|deps| - 1], sub);
      assert deps == deps[..|deps| - 1] + [deps[|deps| - 1]];
    }
  }

  /** x is a direct dependent left outside, of the same project. */
  predicate LeftOutside(db: Db, p: Id, sub: set<Id>, x: Id) {
    InProject(db.nodes, p, x) && x !in sub && exists d :: d in db.deps && d.blocker in sub && d.blocked == x
  }

  lemma LeftOutsideIsListed(db: Db, p: Id, nodes: seq<NodeView>, deps: seq<Edge>, ix: Index, sub: set<Id>, x: Id)
    requires Fresh(db, p, nodes, deps) && IndexOf(ix, nodes, deps)
    requires forall y :: y in sub ==> InProject(db.nodes, p, y)
    ensures LeftOutside(db, p, sub, x) <==> exists d :: d in deps && EdgeOut(ix, sub, d) && d.blocked == x
  {
    KnownIsViewed(db, p, nodes, deps, ix, x);
    forall d: Edge | d.blocked == x && d.blocker in sub && InProject(db.nodes, p, x)
      ensures d in deps <==> d in db.deps
    {
      assert d in EdgesIn(deps) <==> d in SnapDeps(db, p);
    }
  }

  /** There is a row for x exactly when the client sees x left outside, and then only this
      one. */
  lemma UnblockedRows(db: Db, p: Id, nodes: seq<NodeView>, deps: seq<Edge>, ix: Index, n: Id, x: Id)
    requires Fresh(db, p, nodes, deps) && IndexOf(ix, nodes, deps) && InProject(db.nodes, p, n)
    ensures var mine := Subtree(RowsOf(nodes), n);
            var rows := UnblockedBy(ix, deps, mine);
            if LeftOutside(db, p, mine, x)
            then RowFor(ix, mine, ViewOf(db, x)) in rows
                 && forall e :: e in rows && e.node.id == x ==> e == RowFor(ix, mine, ViewOf(db, x))
            else forall e :: e in rows ==> e.node.id != x
  {
    var mine := Subtree(RowsOf(nodes), n);
    ClientSubtreeIsTheServers(db, p, nodes, deps, n);
    UnblockedMeans(ix, deps, mine);
    LeftOutsideIsListed(db, p, nodes, deps, ix, mine, x);
    KnownIsViewed(db, p, nodes, deps, ix, x);
    forall e | e in UnblockedBy(ix, deps, mine)
      ensures exists d :: d in deps && EdgeOut(ix, mine, d) && d.blocked == e.node.id
                          && e == RowFor(ix, mine, ix.byId[e.node.id])
    {
      var d :| d in deps && EdgeOut(ix, mine, d) && e == RowFor(ix, mine, ix.byId[d.blocked]);
      KnownIsViewed(db, p, nodes, deps, ix, d.blocked);
    }
  }

  /** x ends as a row of this kind says: it outlives the delete, and if the row says stuck the
      delete does not free it, otherwise it is open and nothing outside the deleted subtree
      holds it. */
  ghost predicate ComesTrue(db: Db, n: Id, stuck: bool, x: Id)
    requires x in db.nodes
  {
    x !in Subtree(db.nodes, n)
    && if stuck then !Freed(db, Subtree(db.nodes, n), x)
       else db.nodes[x].declared == Open && !HeldBesides(db.nodes, db.deps, Subtree(db.nodes, n), x)
  }

  lemma RowEnds(db: Db, n: Id, after: Db, stuck: bool, x: Id)
    requires Without(db, n, after) && n in db.nodes && x in db.nodes
    ensures ComesTrue(db, n, stuck, x)
            <==> x in after.nodes && StatusIn(after, x) == if stuck then StatusIn(db, x) else IsReady
  {
    if x !in Subtree(db.nodes, n) {
      SurvivorExactly(db, n, after, x);
    }
  }

  lemma RowSays(db: Db, p: Id, nodes: seq<NodeView>, deps: seq<Edge>, ix: Index, n: Id, e: Effect)
    requires Fresh(db, p, nodes, deps) && IndexOf(ix, nodes, deps) && InProject(db.nodes, p, n)
    requires e in UnblockedBy(ix, deps, Subtree(RowsOf(nodes), n))
    ensures var x := e.node.id;
            x in db.nodes && e.node == ViewOf(db, x) && e.becomes == (if e.stuck then StatusIn(db, x) else IsReady)
            && (e.stuck <==> HeldInside(db, p, Subtree(RowsOf(nodes), n), x))
  {
    UnblockedRows(db, p, nodes, deps, ix, n, e.node.id);
    HeldAsKnown(db, p, nodes, deps, ix, Subtree(RowsOf(nodes), n), e.node.id);
  }

  /** A row is stuck exactly when one of the project's own nodes outside what the client finds
      holds its node, and comes true exactly when the node ends so: a row may promise
      readiness to a node that is done or deferred, because the list is not filtered by
      status, or that another project's node holds. */
  lemma UnblockedComesTrueExactly(db: Db, p: Id, nodes: seq<NodeView>, deps: seq<Edge>, ix: Index, r: Request, e: Effect)
    requires Fresh(db, p, nodes, deps) && IndexOf(ix, nodes, deps)
    requires r.DeleteNode? && Decide(db, r).Commit? && InProject(db.nodes, p, r.node)
    requires e in UnblockedBy(ix, deps, Subtree(RowsOf(nodes), r.node))
    ensures var x := e.node.id;
            var after := Apply(db, r).0;
            x in db.nodes && e.node == ViewOf(db, x)
            && (e.stuck <==> HeldInside(db, p, Subtree(RowsOf(nodes), r.node), x))
            && (ComesTrue(db, r.node, e.stuck, x) <==> x in after.nodes && StatusIn(after, x) == e.becomes)
  {
    DeleteLeaves(db, r);
    RowSays(db, p, nodes, deps, ix, r.node, e);
    RowEnds(db, r.node, Apply(db, r).0, e.stuck, e.node.id);
  }
}
