/** Exactly when a mutation's payload is enough: which requests, undo included, leave a client
    of a given project with something other than a fresh snapshot. */
module Exactness {
  import opened FlowTypes
  import opened Graph
  import opened Forest
  import opened Status
  import opened Engine
  import opened Invariants
  import opened Delta
  import opened Effects
  import opened Shapes
  import opened Undo
  import opened Borders

  /** The clients of p hold a fresh snapshot after the request if they did before. */
  ghost predicate Exact(db: Db, r: Request, p: Id)
    requires Decide(db, r).Commit?
  {
    ExactAt(db, Decide(db, r).txn, Decide(db, r).project, p)
  }

  // ---- what misleads the clients of one project -----------------------------------

  /** Declaring n so: its own clients are sent every dependent, the others none. */
  predicate StatusMisleads(db: Db, n: Id, declared: Declared, p: Id)
    requires n in db.nodes
  {
    if db.nodes[n].project == p then exists x :: x in Downstream(db, n) && Foreign(db, p, x)
    else exists x :: x in db.nodes && db.nodes[x].project == p && Flips(db, n, declared, x)
  }

  /** Deleting these nodes of project s: its own clients are sent every outside dependent, the
      others none. */
  predicate LossMisleads(db: Db, dead: set<Id>, s: Id, p: Id) {
    if p == s then exists e :: e in db.deps && e.blocker in dead && e.blocked !in dead && Foreign(db, p, e.blocked)
    else exists x :: x in db.nodes && db.nodes[x].project == p && (x in dead || Freed(db, dead, x))
  }

  /** Adding or removing e under project s: its own clients are sent the blocked end, the
      others nothing. */
  predicate EdgeMisleads(db: Db, e: Edge, changes: bool, s: Id, p: Id) {
    if p == s then Foreign(db, p, e.blocked)
    else changes && InProject(db.nodes, p, e.blocked) && (InProject(db.nodes, p, e.blocker) || Decides(db, e))
  }

  /** The row takes a task's place among the leaves with another status, or joins them. */
  predicate Shifts(db: Db, row: Node)
    requires row.parent in db.nodes
  {
    HasSteps(db.nodes, row.parent) || EffectiveOf(db.nodes, db.deps, row.parent) != FreshStatus(row.declared)
  }

  /** Some client of p goes wrong, told from the request and the tables before it. */
  predicate Misleads(db: Db, r: Request, p: Id) {
    match r
    case CreateNode(_, _, _, _, _, _, _, _, _, _, _) =>
      Lodges(db.nodes, p, CreatedRow(r)) && Shifts(db, CreatedRow(r))
    case SetStatus(_, node, declaredCode) =>
      node in db.nodes && StatusMisleads(db, node, DeclaredStr(declaredCode), p)
    case DeleteNode(_, node, _) =>
      node in db.nodes && LossMisleads(db, Subtree(db.nodes, node), db.nodes[node].project, p)
    case MoveNode(_, node, _, _) =>
      node in db.nodes && LossMisleads(db, Lost(db, r), db.nodes[node].project, p)
    case AddDependency(_, blocker, blocked) =>
      blocker in db.nodes
      && EdgeMisleads(db, Edge(blocker, blocked), Edge(blocker, blocked) !in db.deps, db.nodes[blocker].project, p)
    case RemoveDependency(_, blocker, blocked) =>
      blocker in db.nodes
      && EdgeMisleads(db, Edge(blocker, blocked), Edge(blocker, blocked) in db.deps, db.nodes[blocker].project, p)
    case Undo(_, project, seqno) =>
      (match FindEvent(db.events, project, seqno)
       case None => false
       case Some(ev) => UndoMisleads(db, ev, p))
    case _ => false
  }

  /** Undo's event tells nothing: whatever it changes in its own project beyond the reported
      nodes is missed there too. */
  predicate UndoMisleads(db: Db, ev: Event, p: Id) {
    match ev.kind
    case StatusSet => ev.node in db.nodes && StatusUndoMisleads(db, ev, p)
    case DepAdded =>
      ev.payload.EdgeEnds?
      && EdgeUndoMisleads(db, Edge(ev.payload.blocker, ev.payload.blocked),
                          Edge(ev.payload.blocker, ev.payload.blocked) in db.deps, ev.project, p)
    case DepRemoved =>
      ev.payload.EdgeEnds?
      && EdgeUndoMisleads(db, Edge(ev.payload.blocker, ev.payload.blocked),
                          Edge(ev.payload.blocker, ev.payload.blocked) !in db.deps, ev.project, p)
    case NodeCreated =>
      ev.node in db.nodes && (p == ev.project || LossMisleads(db, Subtree(db.nodes, ev.node), ev.project, p))
    case NodeDeleted =>
      ev.payload.DeletedNode? && KeepsKind(ev.payload.beforeObject)
      && IdAt(ev.payload.beforeObject, IdField) !in db.nodes
      && RestoreMisleads(db, RowKept(ev.payload.beforeObject), ev.project, p)
    case _ => false
  }

  function StatusBefore(ev: Event): Declared {
    if ev.payload.StatusChange? then ev.payload.before else Open
  }

  predicate StatusUndoMisleads(db: Db, ev: Event, p: Id)
    requires ev.node in db.nodes
  {
    (p == ev.project && db.nodes[ev.node].declared != StatusBefore(ev))
    || StatusMisleads(db, ev.node, StatusBefore(ev), p)
  }

  predicate EdgeUndoMisleads(db: Db, e: Edge, changes: bool, s: Id, p: Id) {
    EdgeMisleads(db, e, changes, s, p)
    || (p == s && changes && InProject(db.nodes, p, e.blocker) && InProject(db.nodes, p, e.blocked))
  }

  predicate RestoreMisleads(db: Db, row: Node, s: Id, p: Id) {
    row.project == p || (p != s && Lodges(db.nodes, p, row) && Shifts(db, row))
  }

  // ---- one row --------------------------------------------------------------------

  lemma StatusExactly(db: Db, r: Request, s: Id, t: Txn, p: Id)
    requires Inv(db) && r.SetStatus? && ScopeOf(db, r) == Some(s) && SetStatusTxn(db, r, s) == Success(t)
    requires p != s ==> HostsOwn(db.nodes, p)
    ensures ExactAt(db, t, s, p) <==> !Misleads(db, r, p)
  {
    var declared := DeclaredStr(r.declaredCode);
    OneEventTxn(SetDeclared(db, r.node, declared), s, r.node, StatusSet, r.meta,
                StatusChange(db.nodes[r.node].declared, declared), NO_ID, {r.node} + Downstream(db, r.node));
    OneEventReads(t.events[0]);
    if p == s {
      RowOwn(db, t, r.node, s);
    } else {
      RowOther(db, t, r.node, s, p);
    }
  }

  /** Rewriting a row or a verification, and not the status, is always exact. */
  lemma QuietRow(db: Db, t: Txn, n: Id, s: Id, p: Id)
    requires Inv(db) && RowStep(db, t.db, n) && db.nodes[n].project == s
    requires t.db.nodes[n].declared == db.nodes[n].declared && t.affected == {n} && Silent(t)
    requires p != s ==> HostsOwn(db.nodes, p)
    ensures ExactAt(db, t, s, p)
  {
    if p == s {
      RowOwn(db, t, n, s);
    } else {
      RowOther(db, t, n, s, p);
    }
  }

  /** These four change one row and report it. */
  predicate Quiet(r: Request) {
    r.UpdateNode? || r.ReportCondition? || r.SetVerdict? || r.AddComment?
  }

  lemma UpdateRows(db: Db, r: Request, s: Id, t: Txn)
    requires Inv(db) && r.UpdateNode? && r.node in db.nodes && UpdateNodeTxn(db, r, s) == Success(t)
    ensures RowStep(db, t.db, r.node) && t.db.nodes[r.node].declared == db.nodes[r.node].declared
    ensures t.affected == {r.node} && Silent(t)
  {
    assert Placed(db.nodes, db.nodes[r.node]);
    ApplyMaskKeeps(db.nodes[r.node], r, r.mask);
    var row := ApplyMask(db.nodes[r.node], r, r.mask).value;
    OneEventTxn(SetRow(db, r.node, row), s, r.node, NodeUpdated, r.meta, NoPayload, NO_ID, {r.node});
    OneEventReads(t.events[0]);
  }

  lemma ReportRows(db: Db, r: Request, s: Id, t: Txn)
    requires r.ReportCondition? && r.node in db.nodes && ReportTxn(db, r, s) == Success(t)
    ensures RowStep(db, t.db, r.node) && t.db.nodes == db.nodes && t.affected == {r.node} && Silent(t)
  {
    OneEventReads(t.events[0]);
  }

  lemma VerdictRows(db: Db, r: Request, s: Id, t: Txn)
    requires r.SetVerdict? && r.node in db.nodes && VerdictTxn(db, r, s) == Success(t)
    ensures RowStep(db, t.db, r.node) && t.db.nodes == db.nodes && t.affected == {r.node} && Silent(t)
  {
    OneEventTxn(RuleOn(db, r.node, r.verdictCode), s, r.node, VerdictSet, r.meta, NoPayload, NO_ID, {r.node});
    OneEventReads(t.events[0]);
  }

  lemma CommentRows(db: Db, r: Request, s: Id, t: Txn)
    requires r.AddComment? && r.node in db.nodes && CommentTxn(db, r, s) == Success(t)
    ensures RowStep(db, t.db, r.node) && t.db.nodes == db.nodes && t.affected == {r.node} && Silent(t)
  {
    OneEventReads(t.events[0]);
  }

  lemma QuietExactly(db: Db, r: Request, s: Id, t: Txn, p: Id)
    requires Inv(db) && Quiet(r) && ScopeOf(db, r) == Some(s) && RunTxn(db, r, s) == Success(t)
    requires p != s ==> HostsOwn(db.nodes, p)
    ensures ExactAt(db, t, s, p)
  {
    if r.UpdateNode? {
      UpdateRows(db, r, s, t);
    } else if r.ReportCondition? {
      ReportRows(db, r, s, t);
    } else if r.SetVerdict? {
      VerdictRows(db, r, s, t);
    } else {
      CommentRows(db, r, s, t);
    }
    QuietRow(db, t, r.node, s, p);
  }

  // ---- nodes ----------------------------------------------------------------------

  lemma NoChildYet(db: Db, n: Id)
    requires Inv(db) && n !in db.nodes && n != NO_ID
    ensures forall x :: x in db.nodes ==> db.nodes[x].parent != n
  {
    forall x | x in db.nodes
      ensures db.nodes[x].parent != n
    {
      assert Placed(db.nodes, db.nodes[x]);
    }
  }

  lemma CreateExactly(db: Db, r: Request, t: Txn, p: Id)
    requires Inv(db) && r.CreateNode? && CreateNodeTxn(db, r) == Success(t)
    ensures ExactAt(db, t, r.project, p) <==> !Misleads(db, r, p)
  {
    CreateTxnCreates(db, r);
    NoChildYet(db, r.minted);
    if p == r.project {
      NodeOwn(db, t, r.minted, CreatedRow(r), p);
    } else {
      NodeOther(db, t, r.minted, CreatedRow(r), r.project, p);
    }
  }

  lemma LossIsForeign(db: Db, after: Db, dead: set<Id>, affected: set<Id>, s: Id)
    requires after.nodes.Keys == db.nodes.Keys - dead
    requires forall x :: x in after.nodes ==> after.nodes[x].project == db.nodes[x].project
    requires forall e :: e in db.deps && e.blocker in dead && e.blocked !in dead ==> e.blocked in affected
    requires forall x :: x in affected && Foreign(after, s, x) ==> x in DependentsOf(db, dead)
    ensures (exists x :: x in affected && Foreign(after, s, x)) <==> LossMisleads(db, dead, s, s)
  {
    if x :| x in affected && Foreign(after, s, x) {
      var e :| e in db.deps && e.blocker in dead && e.blocked == x;
    }
    if e :| e in db.deps && e.blocker in dead && e.blocked !in dead && Foreign(db, s, e.blocked) {
      assert e.blocked in affected && Foreign(after, s, e.blocked);
    }
  }

  /** The payload tells of these deletions and reports their outside dependents, and besides
      them only `first`. */
  ghost predicate GoesTold(db: Db, t: Txn, dead: set<Id>, first: set<Id>) {
    Dropped(t.events) == dead && EdgeEvents(t.events, DepRemoved) == {} && EdgeEvents(t.events, DepAdded) == {}
    && (forall e :: e in db.deps && e.blocker in dead && e.blocked !in dead ==> e.blocked in t.affected)
    && t.affected <= first + DependentsOf(db, dead)
  }

  lemma DeletionVanishes(db: Db, n: Id, t: Txn)
    requires n in db.nodes && Deletion(db, n, t)
    ensures Vanishes(db, t.db, Subtree(db.nodes, n), n) && n !in t.db.nodes
    ensures GoesTold(db, t, Subtree(db.nodes, n), {})
  {
    assert Subtree(db.nodes, n) <= {n} + db.nodes.Keys;
    DeletesReadAsDeletes(t.events);
  }

  lemma DeleteOwn(db: Db, t: Txn, n: Id, dead: set<Id>, s: Id)
    requires Vanishes(db, t.db, dead, n) && n !in t.db.nodes && GoesTold(db, t, dead, {})
    ensures ExactAt(db, t, s, s) <==> !LossMisleads(db, dead, s, s)
  {
    VanishOwn(db, t, dead, n, s);
    LossIsForeign(db, t.db, dead, t.affected, s);
  }

  lemma DeleteTxnExactly(db: Db, r: Request, s: Id, t: Txn, p: Id)
    requires Inv(db) && r.DeleteNode? && ScopeOf(db, r) == Some(s) && DeleteNodeTxn(db, r, s) == Success(t)
    requires p != s ==> HostsOwn(db.nodes, p)
    ensures ExactAt(db, t, s, p) <==> !LossMisleads(db, Subtree(db.nodes, r.node), s, p)
  {
    DeleteTxnDeletes(db, r, s);
    DeletionVanishes(db, r.node, t);
    if p == s {
      DeleteOwn(db, t, r.node, Subtree(db.nodes, r.node), s);
    } else {
      VanishOther(db, t, Subtree(db.nodes, r.node), r.node, s, p);
    }
  }

  lemma MoveKeepsHouse(db: Db, after: Db, n: Id, p: Id)
    requires HostsOwn(db.nodes, p) && Foreign(db, p, n) && Moves(db, after, n)
    ensures HostsOwn(after.nodes, p)
  {
    HostsOwnMeans(db, p);
    var b := StepsOf(p);
    var rest := db.(deps := {});
    HostsOwnMeans(rest, p);
    MovesInside(rest, after.(deps := {}), n, b);
    HostsOwnMeans(after.(deps := {}), p);
  }

  lemma MovementVanishes(db: Db, n: Id, dead: set<Id>, t: Txn)
    requires Movement(db, n, dead, t)
    ensures MoveShape(db, t, n, dead, db.nodes[n].project)
  {
    MovementMoves(db, n, dead, t);
  }

  ghost predicate MoveShape(db: Db, t: Txn, n: Id, dead: set<Id>, s: Id) {
    InProject(db.nodes, s, n) && Moves(db, t.db, n) && Vanishes(db, t.db, dead, n) && GoesTold(db, t, dead, {n})
    && n in t.affected
  }

  lemma MoveOwn(db: Db, t: Txn, n: Id, dead: set<Id>, s: Id)
    requires Vanishes(db, t.db, dead, n) && n in t.db.nodes && n in t.affected && InProject(db.nodes, s, n)
    requires GoesTold(db, t, dead, {n})
    ensures ExactAt(db, t, s, s) <==> !LossMisleads(db, dead, s, s)
  {
    VanishOwn(db, t, dead, n, s);
    LossIsForeign(db, t.db, dead, t.affected, s);
  }

  lemma MoveOther(db: Db, t: Txn, n: Id, dead: set<Id>, s: Id, p: Id)
    requires Vanishes(db, t.db, dead, n) && Moves(db, t.db, n) && Foreign(db, p, n)
    requires p != s && HostsOwn(db.nodes, p)
    ensures ExactAt(db, t, s, p) <==> !LossMisleads(db, dead, s, p)
  {
    MoveKeepsHouse(db, t.db, n, p);
    VanishOther(db, t, dead, n, s, p);
  }

  lemma MovementExactly(db: Db, n: Id, dead: set<Id>, t: Txn, s: Id, p: Id)
    requires Movement(db, n, dead, t) && InProject(db.nodes, s, n) && (p != s ==> HostsOwn(db.nodes, p))
    ensures ExactAt(db, t, s, p) <==> !LossMisleads(db, dead, s, p)
  {
    MovementVanishes(db, n, dead, t);
    if p == s {
      MoveOwn(db, t, n, dead, s);
    } else {
      MoveOther(db, t, n, dead, s, p);
    }
  }

  // ---- edges ----------------------------------------------------------------------

  lemma LinkExactly(db: Db, r: Request, s: Id, t: Txn, p: Id)
    requires Inv(db) && r.AddDependency? && ScopeOf(db, r) == Some(s) && AddDependencyTxn(db, r, s) == Success(t)
    requires p != s ==> HostsOwn(db.nodes, p)
    ensures ExactAt(db, t, s, p) <==> !Misleads(db, r, p)
  {
    var e := Edge(r.blocker, r.blocked);
    LinkTxnLinks(db, r, s);
    if p == s {
      if !Foreign(db, s, e.blocked) {
        assert SnapDeps(t.db, s) == (SnapDeps(db, s) - {}) + {e};
      }
      EdgeOwn(db, t, e, s);
    } else {
      EdgeOther(db, t, e, s, p);
    }
  }

  lemma UnlinkExactly(db: Db, r: Request, s: Id, t: Txn, p: Id)
    requires Inv(db) && r.RemoveDependency? && ScopeOf(db, r) == Some(s) && RemoveDependencyTxn(db, r, s) == Success(t)
    requires p != s ==> HostsOwn(db.nodes, p)
    ensures ExactAt(db, t, s, p) <==> !Misleads(db, r, p)
  {
    var e := Edge(r.blocker, r.blocked);
    UnlinkTxnUnlinks(db, r, s);
    assert r.blocker in db.nodes;
    if p == s {
      assert SnapDeps(t.db, s) == (SnapDeps(db, s) - {e}) + {};
      EdgeOwn(db, t, e, s);
    } else {
      EdgeOther(db, t, e, s, p);
    }
  }

  // ---- undo -----------------------------------------------------------------------

  /** What an undo leaves: the reversal's tables, and an event that tells nothing. */
  ghost predicate Undid(db: Db, ev: Event, t: Txn) {
    var rev := Reverse(db, ev);
    rev.Success? && Silent(t) && t.affected == rev.value.affected
    && t.db.nodes == rev.value.db.nodes && t.db.deps == rev.value.db.deps && t.db.verifs == rev.value.db.verifs
  }

  lemma UndoTxnUndoes(db: Db, r: Request, ev: Event)
    requires r.Undo?
    ensures var t := UndoTxn(db, r, ev); t.Success? ==> Undid(db, ev, t.value)
  {
    var rev := Reverse(db, ev);
    if rev.Success? {
      OneEventTxn(rev.value.db, ev.project, rev.value.node, rev.value.kind, r.meta, NoPayload, NO_ID,
                  rev.value.affected);
      var t := UndoTxn(db, r, ev);
      if t.Success? {
        OneEventReads(t.value.events[0]);
      }
    }
  }

  lemma NotOwnDependent(db: Db, n: Id)
    requires Inv(db)
    ensures n !in Downstream(db, n)
  {
    ReachesSelf(db.deps, n);
    NoTwoCycle(db.deps, n, n);
    forall e | e in db.deps && e.blocker == n
      ensures e.blocked != n
    {
      assert e == Edge(e.blocker, e.blocked);
    }
  }

  lemma StatusUndoExactly(db: Db, ev: Event, t: Txn, p: Id)
    requires Inv(db) && EventOk(db, ev) && ev.kind == StatusSet && Undid(db, ev, t)
    requires p != ev.project ==> HostsOwn(db.nodes, p)
    ensures ExactAt(db, t, ev.project, p) <==> !UndoMisleads(db, ev, p)
  {
    var s, n := ev.project, ev.node;
    if n !in db.nodes {
      assert Downstream(db, n) == {};
      UnchangedIsExact(db, t, s, p);
    } else if p != s {
      RowOther(db, t, n, s, p);
    } else if db.nodes[n].declared != StatusBefore(ev) {
      NotOwnDependent(db, n);
      ViewUnreported(db, t, s, n);
    } else if x :| x in Downstream(db, n) && Foreign(db, s, x) {
      ForeignReported(db, t, s, x);
    } else {
      assert t.db.nodes == db.nodes;
      UnchangedIsExact(db, t, s, s);
    }
  }

  /** An edge that comes or goes under an empty payload. */
  lemma SilentEdge(db: Db, t: Txn, e: Edge, s: Id, p: Id)
    requires EdgeStep(db, t.db, e) && t.affected == {e.blocked} && Silent(t)
    requires p != s ==> HostsOwn(db.nodes, p)
    ensures ExactAt(db, t, s, p)
            <==> !EdgeUndoMisleads(db, e, (e in db.deps) != (e in t.db.deps), s, p)
  {
    EdgeSnapDeps(db, t.db, e, p);
    if p != s {
      EdgeOther(db, t, e, s, p);
    } else if Foreign(db, s, e.blocked) {
      ForeignReported(db, t, s, e.blocked);
    } else if SnapDeps(db, s) != SnapDeps(t.db, s) {
      EdgesUnreported(db, t, s);
    } else {
      assert SnapDeps(t.db, s) == (SnapDeps(db, s) - {}) + {};
      EdgeOwn(db, t, e, s);
    }
  }

  lemma EdgeUndoExactly(db: Db, ev: Event, t: Txn, p: Id)
    requires Inv(db) && (ev.kind == DepAdded || ev.kind == DepRemoved) && Undid(db, ev, t)
    requires p != ev.project ==> HostsOwn(db.nodes, p)
    ensures ExactAt(db, t, ev.project, p) <==> !UndoMisleads(db, ev, p)
  {
    var e := Edge(ev.payload.blocker, ev.payload.blocked);
    if ev.kind == DepRemoved {
      assert t.db.deps == db.deps + {e};
    }
    SilentEdge(db, t, e, ev.project, p);
  }

  lemma CreateUndoExactly(db: Db, ev: Event, t: Txn, p: Id)
    requires Inv(db) && EventOk(db, ev) && ev.kind == NodeCreated && Undid(db, ev, t)
    requires p != ev.project ==> HostsOwn(db.nodes, p)
    ensures ExactAt(db, t, ev.project, p) <==> !UndoMisleads(db, ev, p)
  {
    if ev.node !in db.nodes {
      UnchangedIsExact(db, t, ev.project, p);
    } else if p == ev.project {
      NodeUnreported(db, t, p, ev.node);
    } else {
      var dead := Subtree(db.nodes, ev.node);
      assert dead <= {ev.node} + db.nodes.Keys;
      VanishOther(db, t, dead, ev.node, ev.project, p);
    }
  }

  lemma RestoreExactly(db: Db, t: Txn, id: Id, row: Node, s: Id, p: Id)
    requires Inv(db) && id !in db.nodes && id != NO_ID && Silent(t) && t.affected == {}
    requires t.db.nodes == db.nodes[id := row] && t.db.deps == db.deps && t.db.verifs == db.verifs
    ensures ExactAt(db, t, s, p) <==> !RestoreMisleads(db, row, s, p)
  {
    NoChildYet(db, id);
    if p == s {
      NodeOwn(db, t, id, row, p);
    } else {
      NodeOther(db, t, id, row, s, p);
    }
  }

  lemma RestoredRow(db: Db, ev: Event, t: Txn)
    requires Inv(db) && EventOk(db, ev) && ev.kind == NodeDeleted && Undid(db, ev, t)
    ensures t.affected == {} && t.db.deps == db.deps && t.db.verifs == db.verifs && ev.payload.DeletedNode?
    ensures var obj := ev.payload.beforeObject;
            if KeepsKind(obj) && IdAt(obj, IdField) !in db.nodes
            then IdAt(obj, IdField) != NO_ID && t.db.nodes == db.nodes[IdAt(obj, IdField) := RowKept(obj)]
            else t.db.nodes == db.nodes
  {
    var obj := ev.payload.beforeObject;
    assert ev.node == NO_ID && Reverse(db, ev).value.db == RestoreNode(db, obj).value;
    assert Downstream(RestoreNode(db, obj).value, NO_ID) == {};
    if KindField in obj {
      var id, row :| id != NO_ID && RowCheck(row) && obj == NodeBeforeJson(id, row);
      KeptRowRestores(db, id, row);
    }
  }

  lemma DeleteUndoExactly(db: Db, ev: Event, t: Txn, p: Id)
    requires Inv(db) && EventOk(db, ev) && ev.kind == NodeDeleted && Undid(db, ev, t)
    ensures ExactAt(db, t, ev.project, p) <==> !UndoMisleads(db, ev, p)
  {
    var obj := ev.payload.beforeObject;
    RestoredRow(db, ev, t);
    if KeepsKind(obj) && IdAt(obj, IdField) !in db.nodes {
      RestoreExactly(db, t, IdAt(obj, IdField), RowKept(obj), ev.project, p);
    } else {
      UnchangedIsExact(db, t, ev.project, p);
    }
  }

  lemma UndoExactly(db: Db, ev: Event, t: Txn, p: Id)
    requires Inv(db) && EventOk(db, ev) && Undid(db, ev, t)
    requires p != ev.project ==> HostsOwn(db.nodes, p)
    ensures ExactAt(db, t, ev.project, p) <==> !UndoMisleads(db, ev, p)
  {
    match ev.kind
    case StatusSet => StatusUndoExactly(db, ev, t, p);
    case DepAdded => EdgeUndoExactly(db, ev, t, p);
    case DepRemoved => EdgeUndoExactly(db, ev, t, p);
    case NodeCreated => CreateUndoExactly(db, ev, t, p);
    case NodeDeleted => DeleteUndoExactly(db, ev, t, p);
  }

  // ---- every request, and whole runs ----------------------------------------------

  lemma RunTxnExactly(db: Db, r: Request, s: Id, t: Txn, p: Id)
    requires Inv(db) && ScopeOf(db, r) == Some(s) && RunTxn(db, r, s) == Success(t)
    requires p != s ==> HostsOwn(db.nodes, p)
    ensures ExactAt(db, t, s, p) <==> !Misleads(db, r, p)
  {
    match r
    case CreateProject(_, _) => UnchangedIsExact(db, t, s, p);
    case CreateNode(_, _, _, _, _, _, _, _, _, _, _) => CreateExactly(db, r, t, p);
    case DeleteNode(_, _, _) => DeleteTxnExactly(db, r, s, t, p);
    case SetStatus(_, _, _) => StatusExactly(db, r, s, t, p);
    case AddDependency(_, _, _) => LinkExactly(db, r, s, t, p);
    case RemoveDependency(_, _, _) => UnlinkExactly(db, r, s, t, p);
    case MoveNode(_, node, _, _) =>
      MoveTxnMoves(db, r, s);
      MovementExactly(db, node, Lost(db, r), t, s, p);
    case Undo(_, project, seqno) =>
      FindEventFinds(db.events, project, seqno);
      var ev := FindEvent(db.events, project, seqno).value;
      assert EventOk(db, ev);
      UndoTxnUndoes(db, r, ev);
      UndoExactly(db, ev, t, p);
    case _ => QuietExactly(db, r, s, t, p);
  }

  /** After a committed mutation the clients of p hold a fresh snapshot, by applying its
      payload when it is their project's and by doing nothing when it is another's, if and
      only if it does not mislead them. Of p itself nothing is asked when the request is its
      own; for another project's requests, that the steps under its tasks be its own. */
  lemma PayloadIsExact(db: Db, r: Request, p: Id)
    requires Inv(db) && Decide(db, r).Commit?
    requires p != Decide(db, r).project ==> HostsOwn(db.nodes, p)
    ensures Exact(db, r, p) <==> !Misleads(db, r, p)
  {
    var scope := ScopeOf(db, r).value;
    var t := Decide(db, r).txn;
    assert Decide(db, r) == FromTxn(scope, RunTxn(db, r, scope));
    RunTxnExactly(db, r, scope, t, p);
  }

  /** A move's payload, then, is exact to its own project unless a step it drops blocked another
      project's node, and to another unless it loses a node, or one that such steps alone
      blocked. */
  lemma MoveExactly(db: Db, r: Request, p: Id)
    requires Inv(db) && r.MoveNode? && Decide(db, r).Commit?
    requires p != Decide(db, r).project ==> HostsOwn(db.nodes, p)
    ensures Exact(db, r, p) <==> !LossMisleads(db, Lost(db, r), db.nodes[r.node].project, p)
  {
    PayloadIsExact(db, r, p);
  }

  /** And a delete's the same, with its subtree. */
  lemma DeleteExactly(db: Db, r: Request, p: Id)
    requires Inv(db) && r.DeleteNode? && Decide(db, r).Commit?
    requires p != Decide(db, r).project ==> HostsOwn(db.nodes, p)
    ensures Exact(db, r, p) <==> !LossMisleads(db, Subtree(db.nodes, r.node), db.nodes[r.node].project, p)
  {
    PayloadIsExact(db, r, p);
  }

  /** What a client of p holds after a request: payloads reach the clients of their own
      project. */
  ghost function Received(c: Client, db: Db, r: Request, p: Id): Client {
    if Decide(db, r).Commit? && Decide(db, r).project == p then ApplyDelta(c, Apply(db, r).1.value) else c
  }

  /** The client holds a fresh snapshot now and after each of the requests. */
  ghost predicate InStep(c: Client, db: Db, requests: seq<Request>, p: Id)
    decreases |requests|
  {
    c == Snapshot(db, p)
    && (requests == [] || InStep(Received(c, db, requests[0], p), Apply(db, requests[0]).0, requests[1..], p))
  }

  /** The request commits and misleads the clients of p. */
  ghost predicate Harms(db: Db, r: Request, p: Id) {
    Decide(db, r).Commit? && Misleads(db, r, p)
  }

  /** No request harms them when its turn comes. */
  ghost predicate Harmless(db: Db, requests: seq<Request>, p: Id)
    decreases |requests|
  {
    requests == []
    || (!Harms(db, requests[0], p) && Harmless(Apply(db, requests[0]).0, requests[1..], p))
  }

  /** Up to the first request that harms p, the steps under its tasks are its own whenever
      another project's request commits. */
  ghost predicate KeepsHouse(db: Db, requests: seq<Request>, p: Id)
    decreases |requests|
  {
    requests == []
    || ((Decide(db, requests[0]).Commit? && Decide(db, requests[0]).project != p ==> HostsOwn(db.nodes, p))
        && (Harms(db, requests[0], p) || KeepsHouse(Apply(db, requests[0]).0, requests[1..], p)))
  }

  lemma StepKeepsInStep(db: Db, r: Request, p: Id)
    requires Inv(db)
    requires Decide(db, r).Commit? && Decide(db, r).project != p ==> HostsOwn(db.nodes, p)
    ensures Received(Snapshot(db, p), db, r, p) == Snapshot(Apply(db, r).0, p) <==> !Harms(db, r, p)
  {
    if Decide(db, r).Commit? && r.CreateProject? {
      NewProjectKeepsInStep(db, r, p);
    } else if Decide(db, r).Commit? {
      PayloadIsExact(db, r, p);
      var t, scope := Decide(db, r).txn, Decide(db, r).project;
      assert Apply(db, r).0 == t.db && Apply(db, r).1.value == Finish(t.db, scope, t);
    }
  }

  lemma NewProjectKeepsInStep(db: Db, r: Request, p: Id)
    requires Inv(db) && r.CreateProject? && Decide(db, r).Commit?
    ensures Received(Snapshot(db, p), db, r, p) == Snapshot(Apply(db, r).0, p)
  {
    var after := Apply(db, r).0;
    assert after.nodes == db.nodes && after.deps == db.deps && after.verifs == db.verifs;
    SameSnapNodes(after, db, p);
    if p == NO_ID {
      NobodysProject(db);
    }
  }

  lemma NobodysProject(db: Db)
    requires Inv(db)
    ensures ProgressFor(db.nodes, db.deps, NO_ID) == map[] && SnapNodes(db, NO_ID) == map[] && SnapDeps(db, NO_ID) == {}
  {
  }

  /** Over any run, undo included, a client of p that started from a snapshot and applied
      every payload of its project holds a fresh snapshot after each request, if and only if
      no request of the run harms p. */
  lemma {:induction false} ClientsNeverDrift(db: Db, requests: seq<Request>, p: Id)
    requires Inv(db) && KeepsHouse(db, requests, p)
    ensures InStep(Snapshot(db, p), db, requests, p) <==> Harmless(db, requests, p)
    decreases |requests|
  {
    if requests != [] {
      var r, rest := requests[0], requests[1..];
      ApplyKeeps(db, r);
      StepKeepsInStep(db, r, p);
      if !Harms(db, r, p) {
        ClientsNeverDrift(Apply(db, r).0, rest, p);
      }
    }
  }

  /** No request lodges a step of another project under a task of p without harming it. */
  ghost predicate NoneLodges(db: Db, requests: seq<Request>, p: Id)
    decreases |requests|
  {
    requests == [] || Harms(db, requests[0], p)
    || (!(Decide(db, requests[0]).Commit? && Joins(db, requests[0], StepsOf(p)))
        && NoneLodges(Apply(db, requests[0]).0, requests[1..], p))
  }

  /** From a project that hosts only its own steps, such as an empty one, the premise holds
      of every run in which none does. */
  lemma {:induction false} HouseIsKept(db: Db, requests: seq<Request>, p: Id)
    requires Inv(db) && HostsOwn(db.nodes, p) && NoneLodges(db, requests, p)
    ensures KeepsHouse(db, requests, p)
    decreases |requests|
  {
    if requests != [] && !Harms(db, requests[0], p) {
      var next := Apply(db, requests[0]).0;
      ApplyKeeps(db, requests[0]);
      if Decide(db, requests[0]).Commit? {
        HostsOwnExactly(db, requests[0], p);
      }
      HouseIsKept(next, requests[1..], p);
    }
  }

  /** The payload of an undone status change names the dependents but not the node itself: to
      its own project it is exact only when the status kept in the event is the one the node
      has, and no dependent is another project's. */
  lemma UndoneStatusIsNotReported(db: Db, r: Request, ev: Event)
    requires Inv(db) && r.Undo? && FindEvent(db.events, r.project, r.seqno) == Some(ev)
    requires Decide(db, r).Commit? && ev.kind == StatusSet && ev.node in db.nodes
    ensures Exact(db, r, ev.project)
            <==> db.nodes[ev.node].declared == StatusBefore(ev)
                 && forall x :: x in Downstream(db, ev.node) ==> !Foreign(db, ev.project, x)
  {
    FindEventFinds(db.events, r.project, r.seqno);
    assert EventOk(db, ev);
    PayloadIsExact(db, r, ev.project);
  }
}
