/** What a commit deletes, and what the log loses with it. */
module Losses {
  import opened FlowTypes
  import opened Forest
  import opened Engine
  import opened Invariants
  import opened Commits
  import opened Effects
  import opened Undo
  import opened Edits

  /** The nodes a request deletes if it commits, told before it runs. */
  function Doomed(db: Db, r: Request): set<Id> {
    match r
    case DeleteNode(_, node, _) => if node in db.nodes then Subtree(db.nodes, node) else {}
    case MoveNode(_, node, _, _) => if node in db.nodes then Lost(db, r) else {}
    case Undo(_, project, seqno) =>
      (match FindEvent(db.events, project, seqno)
       case None => {}
       case Some(ev) =>
         if ev.kind == NodeCreated && ev.node in db.nodes then Subtree(db.nodes, ev.node) else {})
    case _ => {}
  }

  lemma SubtreeExists(nodes: map<Id, Node>, root: Id)
    requires root in nodes
    ensures Subtree(nodes, root) <= nodes.Keys
  {
    assert Subtree(nodes, root) <= {root} + nodes.Keys;
  }

  lemma UndoLoses(db: Db, r: Request, ev: Event)
    requires Inv(db) && r.Undo? && FindEvent(db.events, r.project, r.seqno) == Some(ev)
    ensures var t := UndoTxn(db, r, ev); t.Success? ==> Gone(db, t.value.db) == Doomed(db, r)
  {
    FindEventFinds(db.events, r.project, r.seqno);
    assert EventOk(db, ev);
    ReverseTables(db, r, ev);
    if ev.kind == NodeCreated && ev.node in db.nodes {
      SubtreeExists(db.nodes, ev.node);
    }
  }

  lemma DeleteLoses(db: Db, r: Request)
    requires Inv(db) && r.DeleteNode? && Decide(db, r).Commit?
    ensures Gone(db, Decide(db, r).txn.db) == Doomed(db, r)
  {
    DeleteTxnDeletes(db, r, db.nodes[r.node].project);
    SubtreeExists(db.nodes, r.node);
  }

  lemma MoveLosesSteps(db: Db, r: Request)
    requires Inv(db) && r.MoveNode? && Decide(db, r).Commit?
    ensures Gone(db, Decide(db, r).txn.db) == Doomed(db, r)
  {
    MoveMeans(db, r);
    assert Lost(db, r) <= db.nodes.Keys;
  }

  lemma UpdateLosesNothing(db: Db, r: Request)
    requires r.UpdateNode? && Decide(db, r).Commit?
    ensures Gone(db, Decide(db, r).txn.db) == {}
  {
  }

  lemma OthersLoseNothing(db: Db, r: Request, scope: Id)
    requires ScopeOf(db, r) == Some(scope)
    requires !r.DeleteNode? && !r.MoveNode? && !r.Undo? && !r.UpdateNode?
    ensures var t := RunTxn(db, r, scope); t.Success? ==> Gone(db, t.value.db) == {}
  {
    match r
    case CreateNode(_, _, _, _, _, _, _, _, _, _, _) => CreateTxnCreates(db, r);
    case AddDependency(_, _, _) => LinkTxnLinks(db, r, scope);
    case RemoveDependency(_, _, _) => UnlinkTxnUnlinks(db, r, scope);
    case _ =>
  }

  /** A commit deletes exactly the doomed nodes. */
  lemma GoneIsDoomed(db: Db, r: Request)
    requires Inv(db) && Decide(db, r).Commit?
    ensures Gone(db, Decide(db, r).txn.db) == Doomed(db, r)
  {
    if r.DeleteNode? {
      DeleteLoses(db, r);
    } else if r.MoveNode? {
      MoveLosesSteps(db, r);
    } else if r.Undo? {
      UndoLoses(db, r, FindEvent(db.events, r.project, r.seqno).value);
    } else if r.UpdateNode? {
      UpdateLosesNothing(db, r);
    } else {
      OthersLoseNothing(db, r, ScopeOf(db, r).value);
    }
  }

  lemma PrefixMembers<T>(a: seq<T>, b: seq<T>)
    ensures a <= b ==> forall x :: x in a ==> x in b
  {
  }

  /** The log is not simply append-only: a commit extends the old log exactly when no event
      in it names a node the request deletes. */
  lemma AppendOnlyExactly(db: Db, r: Request)
    requires Inv(db) && Decide(db, r).Commit?
    ensures db.events <= Apply(db, r).0.events
            <==> forall e :: e in db.events ==> e.node !in Doomed(db, r)
  {
    EveryCommitShape(db, r);
    GoneIsDoomed(db, r);
    KeptExactly(db, Decide(db, r).project, Decide(db, r).txn);
  }

  lemma KeptExactly(db: Db, project: Id, t: Txn)
    requires Inv(db) && LogGrows(db, project, t.db, t.events)
    ensures db.events <= t.db.events <==> forall e :: e in db.events ==> e.node !in Gone(db, t.db)
  {
    var gone := Gone(db, t.db);
    var kept := EventsOutside(db.events, gone);
    OutsideMembers(db.events, gone);
    if forall e :: e in db.events ==> e.node !in gone {
      OutsideNone(db.events, gone);
    } else {
      var e :| e in db.events && e.node in gone;
      assert EventOk(db, e);
      assert e !in kept && e !in t.events;
      PrefixMembers(db.events, t.db.events);
    }
  }
}
