/** What callers are told: every node in a snapshot or an answer as the tables have it, exactly
    the nodes a request is to report, and to a retry what the first request made. */
module Answers {
  import opened FlowTypes
  import opened Forest
  import opened Status
  import opened Engine
  import opened Invariants
  import opened Commits
  import opened Delta
  import opened Effects
  import opened Undo

  /** Some direct blocker is not done. */
  ghost predicate Held(db: Db, id: Id) {
    exists b :: b in db.nodes && Edge(b, id) in db.deps && db.nodes[b].declared != Done
  }

  /** The entry tells of the node what the tables say: its row, its verification if it has one,
      and its status, from what is declared for it and for its direct blockers. */
  ghost predicate Shows(db: Db, id: Id, v: NodeView) {
    id in db.nodes && v.id == id && v.row == db.nodes[id]
    && v.verification == (if id in db.verifs then Some(db.verifs[id]) else None)
    && match db.nodes[id].declared
       case Done => v.status == IsDone
       case Deferred => v.status == IsDeferred
       case Open => v.status == if Held(db, id) then IsBlocked else IsReady
  }

  lemma ViewShows(db: Db, id: Id)
    requires id in db.nodes
    ensures Shows(db, id, ViewOf(db, id))
  {
    if e :| e in db.deps && e.blocked == id && e.blocker in db.nodes && db.nodes[e.blocker].declared != Done {
      assert e == Edge(e.blocker, id);
    }
    if b :| b in db.nodes && Edge(b, id) in db.deps && db.nodes[b].declared != Done {
      var e := Edge(b, id);
      assert e in db.deps && e.blocked == id && e.blocker in db.nodes && db.nodes[e.blocker].declared != Done;
    }
  }

  /** A snapshot has an entry for each node of the project and for nothing else, each as the
      tables have it, and the dependencies with both ends in the project. */
  lemma SnapshotShows(db: Db, p: Id)
    ensures var c := Snapshot(db, p);
            (forall id :: id in c.nodes <==> id in db.nodes && db.nodes[id].project == p)
            && (forall id :: id in c.nodes ==> Shows(db, id, c.nodes[id]))
            && (forall e :: e in c.deps <==> e in db.deps && InProject(db.nodes, p, e.blocker) && InProject(db.nodes, p, e.blocked))
  {
    forall id | InProject(db.nodes, p, id) { ViewShows(db, id); }
  }

  // ---- commits --------------------------------------------------------------------

  /** The nodes that the answer to a request is to show, told from the tables before it. */
  ghost predicate Reported(db: Db, r: Request, x: Id) {
    match r
    case CreateProject(_, _) => false
    case CreateNode(_, minted, _, _, _, _, _, _, _, _, _) => x == minted
    case DeleteNode(_, node, _) =>
      x !in Subtree(db.nodes, node) && exists b :: b in Subtree(db.nodes, node) && Edge(b, x) in db.deps
    case SetStatus(_, node, _) => x == node || Edge(node, x) in db.deps
    case AddDependency(_, _, blocked) => x == blocked
    case RemoveDependency(_, _, blocked) => x == blocked
    case MoveNode(_, node, _, _) =>
      x == node || (node in db.nodes && exists b :: b in Lost(db, r) && Edge(b, x) in db.deps)
    case Undo(_, _, _) => exists e :: Designates(db.events, r, e) && UndoReports(db, e, x)
    case _ => x == r.node
  }

  ghost predicate UndoReports(db: Db, e: Event, x: Id) {
    match e.kind
    case StatusSet => Edge(e.node, x) in db.deps
    case DepAdded => e.payload.EdgeEnds? && x == e.payload.blocked
    case DepRemoved => e.payload.EdgeEnds? && x == e.payload.blocked
    case _ => false
  }

  lemma DownstreamMeans(db: Db, n: Id)
    ensures forall x :: x in Downstream(db, n) <==> Edge(n, x) in db.deps
  {
    forall x
      ensures x in Downstream(db, n) <==> Edge(n, x) in db.deps
    {
      if Edge(n, x) in db.deps {
        var e := Edge(n, x);
        assert e in db.deps && e.blocker == n && e.blocked == x;
      }
      if x in Downstream(db, n) {
        var e :| e in db.deps && e.blocker == n && e.blocked == x;
        assert e == Edge(n, x);
      }
    }
  }

  lemma DependentsMean(db: Db, s: set<Id>)
    ensures forall x :: x in DependentsOf(db, s) <==> exists b :: b in s && Edge(b, x) in db.deps
    ensures forall x :: x in ExternalDependents(db, s) <==> x !in s && exists b :: b in s && Edge(b, x) in db.deps
  {
    forall e | e in db.deps
      ensures e == Edge(e.blocker, e.blocked)
    {
    }
    forall b, x | b in s && Edge(b, x) in db.deps
      ensures x in DependentsOf(db, s) && (x !in s ==> x in ExternalDependents(db, s))
    {
      var e := Edge(b, x);
      assert e in db.deps && e.blocker in s && e.blocked == x;
    }
  }

  lemma UndoAffects(db: Db, r: Request, e: Event, t: Txn)
    requires Inv(db) && r.Undo? && Designates(db.events, r, e) && UndoTxn(db, r, e) == Success(t)
    ensures forall x :: x in t.affected <==> Reported(db, r, x)
  {
    assert EventOk(db, e);
    DownstreamMeans(db, e.node);
    var rev := Reverse(db, e).value;
    assert t.affected == rev.affected;
    if e.kind == NodeDeleted {
      ReverseExactly(db, e);
      DownstreamMeans(rev.db, NO_ID);
      assert t.affected == {};
    }
    FindsDesignated(db.events, r);
    forall x
      ensures x in t.affected <==> UndoReports(db, e, x)
    {
    }
  }

  lemma MovementReports(db: Db, n: Id, dead: set<Id>, t: Txn)
    requires Movement(db, n, dead, t)
    ensures forall x :: x in t.affected && x in t.db.nodes
                        <==> x in t.db.nodes && (x == n || exists b :: b in dead && Edge(b, x) in db.deps)
  {
    DependentsMean(db, dead);
    MovementAffects(db, n, dead, t);
  }

  lemma MovementAffects(db: Db, n: Id, dead: set<Id>, t: Txn)
    requires Movement(db, n, dead, t)
    ensures forall x :: x in t.affected && x in t.db.nodes <==> x in t.db.nodes && (x == n || x in DependentsOf(db, dead))
  {
  }

  lemma TxnAffects(db: Db, r: Request, s: Id, t: Txn)
    requires Inv(db) && ScopeOf(db, r) == Some(s) && RunTxn(db, r, s) == Success(t)
    ensures forall x :: x in t.affected && x in t.db.nodes <==> x in t.db.nodes && Reported(db, r, x)
  {
    match r
    case CreateNode(_, _, _, _, _, _, _, _, _, _, _) => CreateTxnCreates(db, r);
    case DeleteNode(_, node, _) =>
      DeleteTxnDeletes(db, r, s);
      DependentsMean(db, Subtree(db.nodes, node));
    case SetStatus(_, node, _) => DownstreamMeans(db, node);
    case AddDependency(_, _, _) => LinkTxnLinks(db, r, s);
    case RemoveDependency(_, _, _) => UnlinkTxnUnlinks(db, r, s);
    case MoveNode(_, _, _, _) =>
      MoveTxnMoves(db, r, s);
      MovementReports(db, r.node, Lost(db, r), t);
    case Undo(_, project, seqno) =>
      FindsDesignated(db.events, r);
      UndoAffects(db, r, FindEvent(db.events, project, seqno).value, t);
    case _ =>
  }

  lemma FinishShows(after: Db, project: Id, t: Txn)
    ensures var m := Finish(after, project, t);
            (forall x :: x in m.changed <==> x in t.affected && x in after.nodes)
            && (forall x :: x in m.changed ==> Shows(after, x, m.changed[x]))
  {
    forall x | x in after.nodes { ViewShows(after, x); }
  }

  /** The answer to every commit shows exactly the nodes the request is to report that are
      still there, each as the tables then have it. */
  lemma CommitShows(db: Db, r: Request)
    requires Inv(db) && Decide(db, r).Commit?
    ensures var (after, out) := Apply(db, r);
            out.Success?
            && (forall x :: x in out.value.changed <==> x in after.nodes && Reported(db, r, x))
            && (forall x :: x in out.value.changed ==> Shows(after, x, out.value.changed[x]))
  {
    var s, t := ScopeOf(db, r).value, Decide(db, r).txn;
    assert Decide(db, r) == FromTxn(s, RunTxn(db, r, s));
    TxnAffects(db, r, s, t);
    FinishShows(t.db, s, t);
  }

  // ---- verifications --------------------------------------------------------------

  /** Nothing reported, nothing ruled: what a node without a verification starts from. */
  function Blank(): Verification {
    Verification(None, "", "", None)
  }

  /** A report is answered with the node carrying it, next to the verdict it had. */
  lemma ReportIsAnswered(db: Db, r: Request)
    requires Inv(db) && r.ReportCondition? && Decide(db, r).Commit?
    ensures var m := Apply(db, r).1.value;
            r.node in m.changed && m.changed[r.node].verification
              == Some(Verification(Some(if r.resultCode == 1 then Pass else Fail), r.meta.author, r.detail,
                                   if r.node in db.verifs then db.verifs[r.node].human else None))
  {
    CommitShows(db, r);
  }

  /** A verdict is answered with the node carrying it, next to the report it had; withdrawing
      one from a node without a verification leaves it without. */
  lemma VerdictIsAnswered(db: Db, r: Request)
    requires Inv(db) && r.SetVerdict? && Decide(db, r).Commit?
    ensures var m := Apply(db, r).1.value;
            var was := if r.node in db.verifs then db.verifs[r.node] else Blank();
            r.node in m.changed && m.changed[r.node].verification
              == if r.verdictCode == 1 then Some(was.(human := Some(Accepted)))
                 else if r.verdictCode == 2 then Some(was.(human := Some(Rejected)))
                 else if r.node in db.verifs then Some(was.(human := None)) else None
  {
    CommitShows(db, r);
  }

  // ---- retries --------------------------------------------------------------------

  /** The node a creation made, if the ledger keeps one. */
  lemma FirstIsKept(db: Db, first: Request)
    requires Inv(db) && Decide(db, first).Commit? && first.meta.key != ""
    ensures ScopeOf(db, first) == Some(Decide(db, first).project)
    ensures var k := LedgerKey(Decide(db, first).project, first.meta.key);
            var done := Apply(db, first).0;
            k in done.ledger && done.ledger[k].entity
              == if first.CreateNode? || first.CreateProject? then first.minted else NO_ID
  {
    EveryCommitShape(db, first);
    LedgerBlocks(db, first);
  }

  lemma LateLedger(db: Db, first: Request, between: seq<Request>)
    requires Inv(db) && Decide(db, first).Commit? && first.meta.key != ""
    ensures var k := LedgerKey(Decide(db, first).project, first.meta.key);
            var late := ApplyAll(Apply(db, first).0, between);
            Inv(late) && k in late.ledger
            && late.ledger[k].entity == if first.CreateNode? || first.CreateProject? then first.minted else NO_ID
  {
    FirstIsKept(db, first);
    ApplyKeeps(db, first);
    LedgerRowsStay(Apply(db, first).0, between, LedgerKey(Decide(db, first).project, first.meta.key));
    EveryRunKeepsInv(Apply(db, first).0, between);
  }

  /** Any creation under the key of one that committed, whatever it asks for and whatever ran
      in between, changes nothing and returns the first one's node as it now is, and no other;
      none once that node is gone. */
  lemma RetriedCreateReturns(db: Db, first: Request, between: seq<Request>, again: Request)
    requires Inv(db) && first.CreateNode? && Decide(db, first).Commit? && first.meta.key != ""
    requires again.CreateNode? && again.project == first.project && again.meta.key == first.meta.key
    ensures var late := ApplyAll(Apply(db, first).0, between);
            var (after, out) := Apply(late, again);
            after == late && out.Success? && out.value.events == [] && out.value.progress == map[]
            && out.value.changed.Keys == (if first.minted in late.nodes then {first.minted} else {})
            && (first.minted in late.nodes ==> Shows(late, first.minted, out.value.changed[first.minted]))
  {
    LateLedger(db, first, between);
    FirstIsKept(db, first);
    var late := ApplyAll(Apply(db, first).0, between);
    if first.minted in late.nodes {
      ViewShows(late, first.minted);
    }
  }

  /** Any project creation under the key of one that committed changes nothing and returns the
      first one's project. */
  lemma RetriedProjectReturns(db: Db, first: Request, between: seq<Request>, again: Request)
    requires Inv(db) && first.CreateProject? && Decide(db, first).Commit? && first.meta.key != ""
    requires again.CreateProject? && again.meta.key == first.meta.key
    ensures Apply(db, first).1.Success? && Apply(db, first).1.value.made == first.minted
    ensures var late := ApplyAll(Apply(db, first).0, between);
            first.minted in late.projects && Apply(late, again).0 == late
            && Apply(late, again).1.Success? && Apply(late, again).1.value.made == first.minted
  {
    LateLedger(db, first, between);
    FirstIsKept(db, first);
  }

  /** A retry of anything else returns no node. (A node creation in the empty project, under the
      key of a project's creation, looks for a node with the project's identifier.) */
  lemma OtherRetriesReturnNone(db: Db, first: Request, between: seq<Request>, again: Request)
    requires Inv(db) && Decide(db, first).Commit? && first.meta.key != "" && again.meta.key == first.meta.key
    requires again.CreateNode? ==> !first.CreateNode? && !first.CreateProject?
    requires ScopeOf(ApplyAll(Apply(db, first).0, between), again) == ScopeOf(db, first)
    ensures var late := ApplyAll(Apply(db, first).0, between);
            Apply(late, again).1.Success? && Apply(late, again).1.value.changed == map[]
            && Apply(late, again).1.value.progress == map[]
  {
    LateLedger(db, first, between);
    FirstIsKept(db, first);
    ReplayShowsNothing(ApplyAll(Apply(db, first).0, between), again,
                       LedgerKey(Decide(db, first).project, first.meta.key));
  }

  lemma ReplayShowsNothing(db: Db, again: Request, k: LedgerKey)
    requires Inv(db) && k in db.ledger && k.key != "" && again.meta.key == k.key && ScopeOf(db, again) == Some(k.scope)
    requires again.CreateNode? ==> db.ledger[k].entity == NO_ID
    ensures Apply(db, again).1.Success? && Apply(db, again).1.value.changed == map[]
    ensures Apply(db, again).1.value.progress == map[]
  {
  }
}
