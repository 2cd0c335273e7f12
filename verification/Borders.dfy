/** Links between projects: the schema guards a move and nothing else, and these are the
    requests that make one. */
module Borders {
  import opened FlowTypes
  import opened Forest
  import opened Engine
  import opened Invariants
  import opened Delta
  import opened Effects
  import opened Undo

  /** Which links are looked at: all of them, those that touch project p, or only the steps
      under tasks of p. */
  datatype Border = Everywhere | Around(p: Id) | StepsOf(p: Id)

  /** A row under this parent crosses the border. */
  predicate CrossesUp(b: Border, row: Node, parent: Node) {
    match b
    case Everywhere => row.project != parent.project
    case Around(p) => (row.project == p) != (parent.project == p)
    case StepsOf(p) => row.kind == Step && parent.project == p && row.project != p
  }

  predicate CrossesOver(b: Border, blocker: Node, blocked: Node) {
    match b
    case Everywhere => blocker.project != blocked.project
    case Around(p) => (blocker.project == p) != (blocked.project == p)
    case StepsOf(p) => false
  }

  predicate RowCrosses(nodes: map<Id, Node>, b: Border, row: Node) {
    row.parent in nodes && CrossesUp(b, row, nodes[row.parent])
  }

  predicate EdgeCrosses(nodes: map<Id, Node>, b: Border, e: Edge) {
    e.blocker in nodes && e.blocked in nodes && CrossesOver(b, nodes[e.blocker], nodes[e.blocked])
  }

  /** No parent link and no dependency crosses it. */
  ghost predicate Uncrossed(db: Db, b: Border) {
    (forall n :: n in db.nodes ==> !RowCrosses(db.nodes, b, db.nodes[n]))
    && forall e :: e in db.deps ==> !EdgeCrosses(db.nodes, b, e)
  }

  /** The request would make such a link: a caller can tell beforehand. */
  predicate Joins(db: Db, r: Request, b: Border) {
    match r
    case CreateNode(_, _, _, _, _, _, _, _, _, _, _) => RowCrosses(db.nodes, b, CreatedRow(r))
    case AddDependency(_, blocker, blocked) => EdgeCrosses(db.nodes, b, Edge(blocker, blocked))
    case Undo(_, project, seqno) =>
      (match FindEvent(db.events, project, seqno)
       case None => false
       case Some(ev) => ReversalJoins(db, ev, b))
    case _ => false
  }

  predicate ReversalJoins(db: Db, ev: Event, b: Border) {
    if ev.kind == DepRemoved && ev.payload.EdgeEnds?
    then EdgeCrosses(db.nodes, b, Edge(ev.payload.blocker, ev.payload.blocked))
    else ev.kind == NodeDeleted && ev.payload.DeletedNode? && RestoreJoins(db, ev.payload.beforeObject, b)
  }

  /** Restoring the kept row would. */
  predicate RestoreJoins(db: Db, obj: JsonObject, b: Border) {
    KeepsKind(obj) && IdAt(obj, IdField) !in db.nodes && RowCrosses(db.nodes, b, RowKept(obj))
  }

  // ---- statements -----------------------------------------------------------------

  /** Nothing new, and what is left stays where it was. */
  ghost predicate Shrinks(db: Db, after: Db) {
    after.nodes.Keys <= db.nodes.Keys && after.deps <= db.deps
    && forall x :: x in after.nodes ==>
         after.nodes[x].project == db.nodes[x].project && after.nodes[x].parent == db.nodes[x].parent
         && after.nodes[x].kind == db.nodes[x].kind
  }

  lemma ShrinksInside(db: Db, after: Db, b: Border)
    requires Uncrossed(db, b) && Shrinks(db, after)
    ensures Uncrossed(after, b)
  {
  }

  lemma InsertInside(db: Db, after: Db, n: Id, row: Node, b: Border)
    requires Inv(db) && Uncrossed(db, b) && n !in db.nodes && n != NO_ID && row.parent != n
    requires after.nodes == db.nodes[n := row] && after.deps == db.deps
    ensures Uncrossed(after, b) <==> !RowCrosses(db.nodes, b, row)
  {
    assert RowCrosses(db.nodes, b, row) <==> RowCrosses(after.nodes, b, after.nodes[n]);
    forall x | x in db.nodes
      ensures !RowCrosses(after.nodes, b, after.nodes[x])
    {
      assert Placed(db.nodes, db.nodes[x]);
      assert !RowCrosses(db.nodes, b, db.nodes[x]);
    }
    forall e | e in db.deps
      ensures !EdgeCrosses(after.nodes, b, e)
    {
      assert !EdgeCrosses(db.nodes, b, e);
    }
  }

  lemma LinkInside(db: Db, after: Db, e: Edge, b: Border)
    requires Uncrossed(db, b) && after.nodes == db.nodes && after.deps == db.deps + {e}
    ensures Uncrossed(after, b) <==> !EdgeCrosses(db.nodes, b, e)
  {
    assert e in after.deps;
  }

  // ---- undo -----------------------------------------------------------------------

  lemma RestoreInside(db: Db, obj: JsonObject, b: Border)
    requires Inv(db) && Uncrossed(db, b) && PayloadOk(DeletedNode(obj))
    ensures var r := RestoreNode(db, obj);
            r.Success? ==> (Uncrossed(r.value, b) <==> !RestoreJoins(db, obj, b))
  {
    if KindField in obj {
      var id, row :| id != NO_ID && RowCheck(row) && obj == NodeBeforeJson(id, row);
      KeptRowRestores(db, id, row);
      var r := InsertNode(db, id, row, true);
      if r.Success? && id !in db.nodes {
        InsertInside(db, r.value, id, row, b);
      }
    }
  }

  lemma ReverseInside(db: Db, ev: Event, b: Border)
    requires Inv(db) && Uncrossed(db, b) && EventOk(db, ev)
    ensures var rev := Reverse(db, ev);
            rev.Success? ==> (Uncrossed(rev.value.db, b) <==> !ReversalJoins(db, ev, b))
  {
    var rev := Reverse(db, ev);
    if rev.Success? {
      match ev.kind
      case StatusSet => ShrinksInside(db, rev.value.db, b);
      case DepAdded => ShrinksInside(db, rev.value.db, b);
      case DepRemoved =>
        var e := Edge(ev.payload.blocker, ev.payload.blocked);
        assert rev.value.db.deps == db.deps + {e};
        LinkInside(db, rev.value.db, e, b);
      case NodeCreated => ShrinksInside(db, rev.value.db, b);
      case NodeDeleted => RestoreInside(db, ev.payload.beforeObject, b);
    }
  }

  lemma UndoInside(db: Db, r: Request, ev: Event, b: Border)
    requires Inv(db) && Uncrossed(db, b) && r.Undo? && FindEvent(db.events, r.project, r.seqno) == Some(ev)
    ensures var t := UndoTxn(db, r, ev);
            t.Success? ==> (Uncrossed(t.value.db, b) <==> !Joins(db, r, b))
  {
    FindEventFinds(db.events, r.project, r.seqno);
    assert EventOk(db, ev);
    ReverseInside(db, ev, b);
    ReverseTables(db, r, ev);
  }

  // ---- the other requests ---------------------------------------------------------

  /** One row stays in its project and goes under a parent of the same project. */
  ghost predicate Moves(db: Db, after: Db, n: Id) {
    n in after.nodes && after.nodes.Keys <= db.nodes.Keys && after.deps <= db.deps
    && (forall x :: x in after.nodes && x != n ==> after.nodes[x] == db.nodes[x])
    && after.nodes[n].project == db.nodes[n].project
    && (after.nodes[n].parent in db.nodes ==> db.nodes[after.nodes[n].parent].project == db.nodes[n].project)
  }

  lemma MovementMoves(db: Db, n: Id, dead: set<Id>, t: Txn)
    requires Movement(db, n, dead, t)
    ensures Moves(db, t.db, n)
  {
    assert n in t.db.nodes;
  }

  lemma MovesInside(db: Db, after: Db, n: Id, b: Border)
    requires Uncrossed(db, b) && Moves(db, after, n)
    ensures Uncrossed(after, b)
  {
    forall x | x in after.nodes
      ensures !RowCrosses(after.nodes, b, after.nodes[x])
    {
      assert !RowCrosses(db.nodes, b, db.nodes[x]);
    }
    forall e | e in after.deps
      ensures !EdgeCrosses(after.nodes, b, e)
    {
      assert !EdgeCrosses(db.nodes, b, e);
    }
  }

  lemma MoveInside(db: Db, r: Request, p: Id, b: Border)
    requires Inv(db) && Uncrossed(db, b) && r.MoveNode? && r.node in db.nodes
    ensures var t := MoveNodeTxn(db, r, p); t.Success? ==> Uncrossed(t.value.db, b)
  {
    MoveTxnMoves(db, r, p);
    var t := MoveNodeTxn(db, r, p);
    if t.Success? {
      MovementMoves(db, r.node, Lost(db, r), t.value);
      MovesInside(db, t.value.db, r.node, b);
    }
  }

  lemma CreateInside(db: Db, r: Request, b: Border)
    requires Inv(db) && Uncrossed(db, b) && r.CreateNode?
    ensures var t := CreateNodeTxn(db, r);
            t.Success? ==> (Uncrossed(t.value.db, b) <==> !Joins(db, r, b))
  {
    CreateTxnCreates(db, r);
    var t := CreateNodeTxn(db, r);
    if t.Success? {
      InsertInside(db, t.value.db, r.minted, CreatedRow(r), b);
    }
  }

  lemma UpdateShrinks(db: Db, r: Request, p: Id)
    requires Inv(db) && r.UpdateNode? && r.node in db.nodes
    ensures var t := UpdateNodeTxn(db, r, p); t.Success? ==> Shrinks(db, t.value.db)
  {
    assert Placed(db.nodes, db.nodes[r.node]);
    ApplyMaskKeeps(db.nodes[r.node], r, r.mask);
  }

  lemma DeleteShrinks(db: Db, r: Request, p: Id)
    requires r.DeleteNode? && r.node in db.nodes
    ensures var t := DeleteNodeTxn(db, r, p); t.Success? ==> Shrinks(db, t.value.db)
  {
    DeleteTxnDeletes(db, r, p);
  }

  lemma StatusShrinks(db: Db, r: Request, scope: Id)
    requires r.SetStatus? && r.node in db.nodes
    ensures var t := SetStatusTxn(db, r, scope); t.Success? ==> Shrinks(db, t.value.db)
  {
  }

  lemma ReportShrinks(db: Db, r: Request, scope: Id)
    requires r.ReportCondition? && r.node in db.nodes
    ensures var t := ReportTxn(db, r, scope); t.Success? ==> Shrinks(db, t.value.db)
  {
  }

  lemma VerdictShrinks(db: Db, r: Request, scope: Id)
    requires r.SetVerdict?
    ensures var t := VerdictTxn(db, r, scope); t.Success? ==> Shrinks(db, t.value.db)
  {
  }

  lemma TxnShrinks(db: Db, r: Request, scope: Id)
    requires Inv(db) && ScopeOf(db, r) == Some(scope)
    requires !r.CreateNode? && !r.AddDependency? && !r.Undo? && !r.MoveNode?
    ensures var t := RunTxn(db, r, scope); t.Success? ==> Shrinks(db, t.value.db)
  {
    if r.UpdateNode? {
      UpdateShrinks(db, r, scope);
    } else if r.DeleteNode? {
      DeleteShrinks(db, r, scope);
    } else if r.SetStatus? {
      StatusShrinks(db, r, scope);
    } else if r.RemoveDependency? {
      UnlinkTxnUnlinks(db, r, scope);
    } else if r.ReportCondition? {
      ReportShrinks(db, r, scope);
    } else if r.SetVerdict? {
      VerdictShrinks(db, r, scope);
    }
  }

  lemma LinkTxnInside(db: Db, r: Request, scope: Id, b: Border)
    requires Inv(db) && Uncrossed(db, b) && r.AddDependency?
    ensures var t := AddDependencyTxn(db, r, scope);
            t.Success? ==> (Uncrossed(t.value.db, b) <==> !Joins(db, r, b))
  {
    LinkTxnLinks(db, r, scope);
    var t := AddDependencyTxn(db, r, scope);
    if t.Success? {
      LinkInside(db, t.value.db, Edge(r.blocker, r.blocked), b);
    }
  }

  lemma RunTxnInside(db: Db, r: Request, scope: Id, b: Border)
    requires Inv(db) && Uncrossed(db, b) && ScopeOf(db, r) == Some(scope)
    ensures var t := RunTxn(db, r, scope);
            t.Success? ==> (Uncrossed(t.value.db, b) <==> !Joins(db, r, b))
  {
    match r
    case CreateNode(_, _, _, _, _, _, _, _, _, _, _) => CreateInside(db, r, b);
    case AddDependency(_, _, _) => LinkTxnInside(db, r, scope, b);
    case Undo(_, project, seqno) => UndoInside(db, r, FindEvent(db.events, project, seqno).value, b);
    case MoveNode(_, _, _, _) => MoveInside(db, r, scope, b);
    case _ =>
      TxnShrinks(db, r, scope);
      var t := RunTxn(db, r, scope);
      if t.Success? { ShrinksInside(db, t.value.db, b); }
  }

  /** Starting from a border that nothing crosses, a committed request keeps it so exactly
      when it does not cross it itself; nothing in the schema refuses one that does. */
  lemma UncrossedExactly(db: Db, r: Request, b: Border)
    requires Inv(db) && Uncrossed(db, b) && Decide(db, r).Commit?
    ensures Uncrossed(Apply(db, r).0, b) <==> !Joins(db, r, b)
  {
    RunTxnInside(db, r, ScopeOf(db, r).value, b);
  }

  lemma HostsOwnMeans(db: Db, p: Id)
    ensures HostsOwn(db.nodes, p) <==> Uncrossed(db, StepsOf(p))
  {
    if HostsOwn(db.nodes, p) {
      assert forall n :: n in db.nodes ==> !RowCrosses(db.nodes, StepsOf(p), db.nodes[n]);
    }
    if Uncrossed(db, StepsOf(p)) {
      forall x | x in db.nodes && db.nodes[x].kind == Step && InProject(db.nodes, p, db.nodes[x].parent)
        ensures db.nodes[x].project == p
      {
        assert !RowCrosses(db.nodes, StepsOf(p), db.nodes[x]);
      }
    }
  }

  /** The same for the steps under a project's tasks. */
  lemma HostsOwnExactly(db: Db, r: Request, p: Id)
    requires Inv(db) && HostsOwn(db.nodes, p) && Decide(db, r).Commit?
    ensures HostsOwn(Apply(db, r).0.nodes, p) <==> !Joins(db, r, StepsOf(p))
  {
    HostsOwnMeans(db, p);
    HostsOwnMeans(Apply(db, r).0, p);
    UncrossedExactly(db, r, StepsOf(p));
  }
}
