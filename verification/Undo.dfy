/** Undo against the step it reverses: the kept row restores exactly, and each undoable
    step comes back, or does not, under a condition visible before it. */
module Undo {
  import opened FlowTypes
  import opened Graph
  import opened Forest
  import opened Engine
  import opened Invariants
  import opened Commits

  /** All twelve readable fields survive the trip through the delete event. */
  lemma KeptRowRestores(db: Db, id: Id, row: Node)
    requires RowCheck(row)
    ensures RestoreNode(db, NodeBeforeJson(id, row)) == InsertNode(db, id, row, true)
    ensures var obj := NodeBeforeJson(id, row);
            KeepsKind(obj) && IdAt(obj, IdField) == id && RowKept(obj) == row
  {
    var obj := NodeBeforeJson(id, row);
    assert IdAt(obj, IdField) == id && IdAt(obj, ProjectField) == row.project && IdAt(obj, ParentField) == row.parent;
    assert obj[KindField] == JKind(row.kind) && obj[DeclaredField] == JDeclared(row.declared);
    assert TextAt(obj, TitleField) == row.title && TextAt(obj, DescriptionField) == row.description;
    assert TextAt(obj, ConditionField) == row.condition && TextAt(obj, NoteField) == row.note;
    assert TextAt(obj, ReferenceField) == row.reference;
    assert obj[PositionField] == JInt(row.position) && Wrap32(row.position) == row.position;
    assert obj[WpStateField] == if row.kind == WorkPackage && row.wp.Some? then JWpState(row.wp.value) else JNull;
  }

  /** `u` asks to undo the newest event of p, by its number or as the newest, and is not a
      retry. */
  ghost predicate UndoesNewest(db: Db, u: Request, p: Id) {
    u.Undo? && u.project == p && db.events != [] && (u.seqno <= 0 || u.seqno == LastEvent(db).seqno)
    && LedgerHit(db, p, u.meta.key).None?
  }

  ghost predicate SameGraph(a: Db, b: Db) {
    a.nodes == b.nodes && a.deps == b.deps
  }

  lemma GrownLast(base: Db, project: Id, after: Db, events: seq<Event>)
    requires LogGrows(base, project, after, events) && events != []
    ensures after.events != [] && LastEvent(after) == events[|events| - 1] && LastEvent(after).project == project
  {
  }

  lemma NewestIsLast(db: Db, r: Request)
    requires Inv(db) && Decide(db, r).Commit? && !r.CreateProject?
    ensures var t := Decide(db, r).txn;
            t.events != [] && t.db.events != [] && LastEvent(t.db) == t.events[|t.events| - 1]
            && LastEvent(t.db).project == Decide(db, r).project
            && Inv(t.db)
  {
    EveryCommitShape(db, r);
    GrownLast(db, Decide(db, r).project, Decide(db, r).txn.db, Decide(db, r).txn.events);
    ApplyKeeps(db, r);
  }

  /** Undoing the newest event commits exactly when its reversal succeeds, and leaves the
      reversal's tables. */
  lemma UndoOutcome(db: Db, r: Request, u: Request)
    requires Inv(db) && Decide(db, r).Commit? && !r.CreateProject?
    requires UndoesNewest(Apply(db, r).0, u, Decide(db, r).project)
    ensures var mid := Apply(db, r).0;
            var rev := Reverse(mid, LastEvent(mid));
            (Decide(mid, u).Commit? <==> rev.Success?)
            && (rev.Success? ==>
                  Apply(mid, u).0.nodes == rev.value.db.nodes && Apply(mid, u).0.deps == rev.value.db.deps
                  && Apply(mid, u).0.verifs == rev.value.db.verifs)
  {
    NewestIsLast(db, r);
    NewestDecides(Apply(db, r).0, u);
  }

  lemma NewestDecides(db: Db, u: Request)
    requires Inv(db) && u.Undo? && UndoesNewest(db, u, u.project) && LastEvent(db).project == u.project
    ensures var rev := Reverse(db, LastEvent(db));
            (Decide(db, u).Commit? <==> rev.Success?)
            && (rev.Success? ==>
                  Apply(db, u).0.nodes == rev.value.db.nodes && Apply(db, u).0.deps == rev.value.db.deps
                  && Apply(db, u).0.verifs == rev.value.db.verifs)
  {
    var ev := LastEvent(db);
    assert ev in db.events;
    assert FindEvent(db.events, u.project, u.seqno) == Some(ev);
    ReverseTables(db, u, ev);
  }

  lemma ReverseTables(db: Db, u: Request, ev: Event)
    requires Inv(db) && u.Undo? && EventOk(db, ev)
    ensures var rev := Reverse(db, ev);
            var t := UndoTxn(db, u, ev);
            (t.Success? <==> rev.Success?)
            && (t.Success? ==> t.value.db.nodes == rev.value.db.nodes && t.value.db.deps == rev.value.db.deps
                               && t.value.db.verifs == rev.value.db.verifs)
  {
  }

  // ---- any event of the log -------------------------------------------------------

  /** The event an undo is about: the project's one with the number asked for, or its newest
      when no positive number is given. */
  ghost predicate Designates(events: seq<Event>, u: Request, e: Event)
    requires u.Undo?
  {
    e in events && e.project == u.project
    && if u.seqno > 0 then e.seqno == u.seqno
       else forall x :: x in events && x.project == u.project ==> x.seqno <= e.seqno
  }

  /** The search finds the event designated, however many others were logged after it, and
      nothing when there is none. */
  lemma {:induction false} FindsDesignated(events: seq<Event>, u: Request)
    requires Ascending(events) && u.Undo?
    ensures match FindEvent(events, u.project, u.seqno)
            case Some(e) => Designates(events, u, e) && forall x :: Designates(events, u, x) ==> x == e
            case None => forall x :: !Designates(events, u, x)
    decreases |events|
  {
    if events != [] {
      var front, last := events[..|events| - 1], events[|events| - 1];
      assert events == front + [last];
      assert forall x :: x in front ==> x.seqno < last.seqno;
      FindsDesignated(front, u);
      SameDesignated(front, last, u);
    }
  }

  lemma SameDesignated(front: seq<Event>, last: Event, u: Request)
    requires u.Undo? && forall x :: x in front ==> x.seqno < last.seqno
    ensures forall x :: Designates(front + [last], u, x)
                        <==> if last.project == u.project && (u.seqno <= 0 || last.seqno == u.seqno) then x == last
                             else Designates(front, u, x)
  {
    var events := front + [last];
    assert forall x :: x in events <==> x in front || x == last;
  }

  /** The reversal goes through. A row kept by a delete event needs its parent, of the right
      kind, and its project; an edge needs its ends, and must close no cycle; a reversal itself
      cannot be undone when its event keeps no edge or row. */
  ghost predicate Undoable(db: Db, e: Event) {
    match e.kind
    case StatusSet => true
    case NodeCreated => true
    case DepAdded => e.payload.EdgeEnds?
    case DepRemoved =>
      e.payload.EdgeEnds? && e.payload.blocker in db.nodes && e.payload.blocked in db.nodes
      && !Reaches(db.deps, e.payload.blocked, e.payload.blocker)
    case NodeDeleted =>
      e.payload.DeletedNode? && (KeepsKind(e.payload.beforeObject) ==> Restorable(db, e.payload.beforeObject))
    case _ => false
  }

  ghost predicate Restorable(db: Db, obj: JsonObject)
    requires KeepsKind(obj)
  {
    var row := RowKept(obj);
    (row.parent != NO_ID ==> row.parent in db.nodes && db.nodes[row.parent].kind == if row.kind == Step then Task else WorkPackage)
    && (IdAt(obj, IdField) in db.nodes || row.project in db.projects)
  }

  /** What undoing the event leaves. */
  ghost predicate Reverted(db: Db, e: Event, after: Db) {
    match e.kind
    case StatusSet =>
      var before := if e.payload.StatusChange? then e.payload.before else Open;
      after.deps == db.deps && after.verifs == db.verifs
      && after.nodes == if e.node in db.nodes then db.nodes[e.node := db.nodes[e.node].(declared := before)] else db.nodes
    case NodeCreated =>
      var gone := if e.node in db.nodes then Subtree(db.nodes, e.node) else {};
      after.nodes == db.nodes - gone && after.verifs == db.verifs - gone
      && after.deps == set d | d in db.deps && d.blocker !in gone && d.blocked !in gone
    case DepAdded =>
      after.nodes == db.nodes && after.verifs == db.verifs
      && (e.payload.EdgeEnds? ==> after.deps == db.deps - {Edge(e.payload.blocker, e.payload.blocked)})
    case DepRemoved =>
      after.nodes == db.nodes && after.verifs == db.verifs
      && (e.payload.EdgeEnds? ==> after.deps == db.deps + {Edge(e.payload.blocker, e.payload.blocked)})
    case NodeDeleted =>
      after.deps == db.deps && after.verifs == db.verifs
      && after.nodes == if e.payload.DeletedNode? && KeepsKind(e.payload.beforeObject)
                           && IdAt(e.payload.beforeObject, IdField) !in db.nodes
                        then db.nodes[IdAt(e.payload.beforeObject, IdField) := RowKept(e.payload.beforeObject)]
                        else db.nodes
    case _ => true
  }

  lemma RelinkExactly(db: Db, e: Edge)
    requires Inv(db)
    ensures InsertEdge(db, e).Success?
            <==> e.blocker in db.nodes && e.blocked in db.nodes && !Reaches(db.deps, e.blocked, e.blocker)
    ensures InsertEdge(db, e).Success? ==> InsertEdge(db, e).value == db.(deps := db.deps + {e})
  {
    FollowIsReach(db.deps, {e.blocked}, e.blocker);
    if e in db.deps {
      assert db.deps + {e} == db.deps;
    }
  }

  lemma RestoreExactly(db: Db, obj: JsonObject)
    requires Inv(db) && PayloadOk(DeletedNode(obj)) && KeepsKind(obj)
    ensures RestoreNode(db, obj).Success? <==> Restorable(db, obj)
    ensures RestoreNode(db, obj).Success? ==>
              RestoreNode(db, obj).value
              == if IdAt(obj, IdField) in db.nodes then db else db.(nodes := db.nodes[IdAt(obj, IdField) := RowKept(obj)])
  {
    var id, row :| id != NO_ID && RowCheck(row) && obj == NodeBeforeJson(id, row);
    KeptRowRestores(db, id, row);
  }

  lemma ReverseExactly(db: Db, e: Event)
    requires Inv(db) && EventOk(db, e)
    ensures var rev := Reverse(db, e);
            (rev.Success? <==> Undoable(db, e)) && (rev.Success? ==> Reverted(db, e, rev.value.db))
  {
    match e.kind
    case DepRemoved =>
      if e.payload.EdgeEnds? { RelinkExactly(db, Edge(e.payload.blocker, e.payload.blocked)); }
    case NodeDeleted =>
      if e.payload.DeletedNode? && KeepsKind(e.payload.beforeObject) { RestoreExactly(db, e.payload.beforeObject); }
    case NodeCreated =>
      if e.node !in db.nodes {
        assert db.deps == set d | d in db.deps && d.blocker !in {} && d.blocked !in {};
        assert db.nodes - {} == db.nodes && db.verifs - {} == db.verifs;
      }
    case _ =>
  }

  /** The kind of event an undo of this one logs. */
  function Opposite(kind: EventKind): EventKind {
    match kind
    case DepAdded => DepRemoved
    case DepRemoved => DepAdded
    case NodeCreated => NodeDeleted
    case NodeDeleted => NodeCreated
    case other => other
  }

  /** An undo that is not a retry commits exactly when the event it designates, the newest or
      an older one, can be reversed; it leaves the reversed tables, and logs an event of the
      opposite kind that says nothing more. */
  lemma UndoMeans(db: Db, u: Request, e: Event)
    requires Inv(db) && u.Undo? && Designates(db.events, u, e)
    requires u.meta.key == "" || LedgerKey(u.project, u.meta.key) !in db.ledger
    ensures Decide(db, u).Commit? <==> Undoable(db, e)
    ensures Decide(db, u).Commit? ==>
              var after := Apply(db, u).0;
              Reverted(db, e, after) && after.events != []
              && LastEvent(after).kind == Opposite(e.kind) && LastEvent(after).project == e.project
              && LastEvent(after).payload == NoPayload && LastEvent(after).author == u.meta.author
              && LastEvent(after).node == if e.kind == NodeCreated then NO_ID else e.node
  {
    FindsDesignated(db.events, u);
    assert EventOk(db, e);
    ReverseExactly(db, e);
    UndoTxnExactly(db, u, e);
  }

  lemma UndoTxnExactly(db: Db, u: Request, e: Event)
    requires Inv(db) && u.Undo? && EventOk(db, e)
    ensures var t, rev := UndoTxn(db, u, e), Reverse(db, e);
            (t.Success? <==> rev.Success?)
            && (t.Success? ==>
                  t.value.db.nodes == rev.value.db.nodes && t.value.db.deps == rev.value.db.deps
                  && t.value.db.verifs == rev.value.db.verifs && t.value.db.events != []
                  && LastEvent(t.value.db) == Event(rev.value.db.lastSeq + 1, e.project,
                                                    if e.kind == NodeCreated then NO_ID else e.node,
                                                    Opposite(e.kind), u.meta.author, NoPayload))
  {
    ReverseTables(db, u, e);
  }

  /** With no event to designate an undo is refused, retry or not. */
  lemma UndoOfNothing(db: Db, u: Request)
    requires Inv(db) && u.Undo? && forall e :: !Designates(db.events, u, e)
    ensures Decide(db, u) == Reject(Internal)
  {
    FindsDesignated(db.events, u);
  }

  // ---- each kind of step ----------------------------------------------------------

  lemma SetStatusLogs(db: Db, r: Request)
    requires r.SetStatus? && Decide(db, r).Commit?
    ensures var mid := Apply(db, r).0;
            r.node in db.nodes && mid.nodes == db.nodes[r.node := db.nodes[r.node].(declared := DeclaredStr(r.declaredCode))]
            && mid.deps == db.deps && mid.verifs == db.verifs && mid.events != []
            && LastEvent(mid).kind == StatusSet && LastEvent(mid).node == r.node
            && LastEvent(mid).payload == StatusChange(db.nodes[r.node].declared, DeclaredStr(r.declaredCode))
  {
  }

  lemma UndoSetStatus(db: Db, r: Request, u: Request)
    requires Inv(db) && r.SetStatus? && Decide(db, r).Commit?
    requires UndoesNewest(Apply(db, r).0, u, Decide(db, r).project)
    ensures var mid := Apply(db, r).0;
            Decide(mid, u).Commit? && SameGraph(Apply(mid, u).0, db) && Apply(mid, u).0.verifs == db.verifs
  {
    UndoOutcome(db, r, u);
    SetStatusLogs(db, r);
    var mid := Apply(db, r).0;
    assert SetDeclared(mid, r.node, db.nodes[r.node].declared).nodes == db.nodes;
  }

  lemma CreateLogs(db: Db, r: Request)
    requires r.CreateNode? && Decide(db, r).Commit?
    ensures var mid := Apply(db, r).0;
            r.minted !in db.nodes && r.minted in mid.nodes && mid.nodes == db.nodes[r.minted := mid.nodes[r.minted]]
            && mid.deps == db.deps && mid.verifs == db.verifs && mid.events != []
            && LastEvent(mid).kind == NodeCreated && LastEvent(mid).node == r.minted
  {
  }

  lemma UndoCreateNode(db: Db, r: Request, u: Request)
    requires Inv(db) && r.CreateNode? && Decide(db, r).Commit?
    requires UndoesNewest(Apply(db, r).0, u, Decide(db, r).project)
    ensures var mid := Apply(db, r).0;
            Decide(mid, u).Commit? && SameGraph(Apply(mid, u).0, db) && Apply(mid, u).0.verifs == db.verifs
  {
    UndoOutcome(db, r, u);
    CreateLogs(db, r);
    ApplyKeeps(db, r);
    NewNodeDrops(db, Apply(db, r).0, r.minted);
  }

  /** A node just created has no children and no edges, so deleting it undoes exactly that. */
  lemma NewNodeDrops(db: Db, mid: Db, n: Id)
    requires Inv(db) && Inv(mid) && n !in db.nodes && n in mid.nodes && mid.nodes == db.nodes[n := mid.nodes[n]]
    requires mid.deps == db.deps && mid.verifs == db.verifs
    ensures SameGraph(DropNode(mid, n), db) && DropNode(mid, n).verifs == db.verifs
  {
    forall c | c in mid.nodes
      ensures mid.nodes[c].parent != n
    {
      assert c != n ==> Placed(db.nodes, db.nodes[c]);
      assert Placed(mid.nodes, mid.nodes[c]);
    }
    assert Children(mid.nodes, {n}) == {};
    SubtreeIsTwoLevels(mid.nodes, n);
    assert Subtree(mid.nodes, n) == {n};
    assert mid.nodes - {n} == db.nodes;
    assert EdgesOutside(mid.deps, {n}) == db.deps;
    assert mid.verifs - {n} == db.verifs;
  }

  ghost predicate EdgeLogged(db: Db, mid: Db, kind: EventKind, e: Edge) {
    mid.nodes == db.nodes && mid.events != [] && LastEvent(mid).node == NO_ID
    && LastEvent(mid).kind == kind && LastEvent(mid).payload == EdgeEnds(e.blocker, e.blocked)
    && mid.deps == if kind == DepAdded then db.deps + {e} else db.deps - {e}
  }

  lemma AddLogs(db: Db, r: Request)
    requires r.AddDependency? && Decide(db, r).Commit?
    ensures EdgeLogged(db, Apply(db, r).0, DepAdded, Edge(r.blocker, r.blocked))
  {
    var e := Edge(r.blocker, r.blocked);
    assert InsertEdge(db, e).Success? ==> InsertEdge(db, e).value == db.(deps := db.deps + {e});
  }

  lemma RemoveLogs(db: Db, r: Request)
    requires r.RemoveDependency? && Decide(db, r).Commit?
    ensures EdgeLogged(db, Apply(db, r).0, DepRemoved, Edge(r.blocker, r.blocked))
  {
  }

  /** An added edge is taken back; but adding an edge that is already there also logs an
      addition, and its undo removes the edge. */
  lemma UndoAddDependency(db: Db, r: Request, u: Request)
    requires Inv(db) && r.AddDependency? && Decide(db, r).Commit?
    requires UndoesNewest(Apply(db, r).0, u, Decide(db, r).project)
    ensures var mid := Apply(db, r).0;
            Decide(mid, u).Commit?
            && (SameGraph(Apply(mid, u).0, db) <==> Edge(r.blocker, r.blocked) !in db.deps)
  {
    UndoOutcome(db, r, u);
    AddLogs(db, r);
    var e := Edge(r.blocker, r.blocked);
    assert db.deps + {e} - {e} == db.deps - {e};
  }

  lemma RelinkAfterDrop(db: Db, mid: Db, e: Edge)
    requires Inv(db) && Inv(mid) && mid.nodes == db.nodes && mid.deps == db.deps - {e}
    ensures InsertEdge(mid, e).Success? && InsertEdge(mid, e).value.deps == db.deps <==> e in db.deps
  {
    FollowIsReach(mid.deps, {e.blocked}, e.blocker);
    AddEdgeAcyclic(mid.deps, e);
    if e in db.deps {
      assert mid.deps + {e} == db.deps;
    }
  }

  /** A removed edge comes back, never refused by the cycle guard; but removing an edge that
      is not there also logs a removal, and its undo, if it goes through, adds the edge. */
  lemma UndoRemoveDependency(db: Db, r: Request, u: Request)
    requires Inv(db) && r.RemoveDependency? && Decide(db, r).Commit?
    requires UndoesNewest(Apply(db, r).0, u, Decide(db, r).project)
    ensures var mid := Apply(db, r).0;
            Decide(mid, u).Commit? && SameGraph(Apply(mid, u).0, db) <==> Edge(r.blocker, r.blocked) in db.deps
  {
    UndoOutcome(db, r, u);
    RemoveLogs(db, r);
    ApplyKeeps(db, r);
    RelinkAfterDrop(db, Apply(db, r).0, Edge(r.blocker, r.blocked));
  }

  ghost predicate Bare(db: Db, n: Id) {
    (forall c :: c in db.nodes ==> db.nodes[c].parent != n)
    && (forall e :: e in db.deps ==> e.blocker != n && e.blocked != n)
    && n !in db.verifs
  }

  lemma DeleteLogsRoot(db: Db, r: Request)
    requires Inv(db) && r.DeleteNode? && Decide(db, r).Commit?
    ensures var mid := Apply(db, r).0;
            mid.events != [] && LastEvent(mid).kind == NodeDeleted && LastEvent(mid).node == NO_ID
            && LastEvent(mid).payload == DeletedNode(NodeBeforeJson(r.node, db.nodes[r.node]))
            && mid.projects == db.projects && mid.nodes == DropNode(db, r.node).nodes
            && mid.deps == DropNode(db, r.node).deps && mid.verifs == DropNode(db, r.node).verifs
  {
    var p := db.nodes[r.node].project;
    var sub := Subtree(db.nodes, r.node);
    var start := Txn(DropNode(db, r.node), [], ExternalDependents(db, sub));
    LogDeletesKeepTables(start, p, r.meta.author, Rows(sub - {r.node}));
  }

  lemma {:induction false} LogDeletesKeepTables(t: Txn, project: Id, author: string, ids: seq<Id>)
    ensures var r := LogDeletes(t, project, author, ids);
            r.Success? ==> r.value.db.nodes == t.db.nodes && r.value.db.deps == t.db.deps
                           && r.value.db.verifs == t.db.verifs && r.value.db.projects == t.db.projects
    decreases |ids|
  {
    if ids != [] {
      var logged := AppendEvent(t.db, project, NO_ID, NodeDeleted, author, DeletedPayload(ids[0]));
      if logged.Success? {
        LogDeletesKeepTables(t.(db := logged.value, events := t.events + [LastEvent(logged.value)]),
                             project, author, ids[1..]);
      }
    }
  }

  /** Undoing a delete always succeeds, but it brings back the one row: everything is as
      before exactly when the node had no child, no edge and no verification. */
  lemma UndoDeleteNode(db: Db, r: Request, u: Request)
    requires Inv(db) && r.DeleteNode? && Decide(db, r).Commit?
    requires UndoesNewest(Apply(db, r).0, u, Decide(db, r).project)
    ensures var mid := Apply(db, r).0;
            Decide(mid, u).Commit?
            && Apply(mid, u).0.nodes == mid.nodes[r.node := db.nodes[r.node]]
            && (SameGraph(Apply(mid, u).0, db) && Apply(mid, u).0.verifs == db.verifs <==> Bare(db, r.node))
  {
    UndoOutcome(db, r, u);
    DeleteLogsRoot(db, r);
    RestoreAfterDrop(db, Apply(db, r).0, r.node);
    DropIsBare(db, r.node);
  }

  lemma RestoreAfterDrop(db: Db, mid: Db, n: Id)
    requires Inv(db) && n in db.nodes && mid.projects == db.projects && mid.nodes == DropNode(db, n).nodes
    ensures RestoreNode(mid, NodeBeforeJson(n, db.nodes[n]))
            == Success(mid.(nodes := mid.nodes[n := db.nodes[n]]))
  {
    assert Placed(db.nodes, db.nodes[n]);
    KeptRowRestores(mid, n, db.nodes[n]);
    if db.nodes[n].parent != NO_ID {
      ParentSurvives(db, n);
    }
  }

  lemma ParentSurvives(db: Db, n: Id)
    requires Inv(db) && n in db.nodes && db.nodes[n].parent != NO_ID
    ensures db.nodes[n].parent in db.nodes && db.nodes[n].parent !in Subtree(db.nodes, n)
  {
    assert Placed(db.nodes, db.nodes[n]);
    var above := db.nodes[n].parent;
    SubtreeIsTwoLevels(db.nodes, n);
    ChainsAreShort(db.nodes, n);
    ChainsAreShort(db.nodes, above);
  }

  lemma DropIsBare(db: Db, n: Id)
    requires Inv(db) && n in db.nodes
    ensures DropNode(db, n).nodes[n := db.nodes[n]] == db.nodes && DropNode(db, n).deps == db.deps
            && DropNode(db, n).verifs == db.verifs
            <==> Bare(db, n)
  {
    var dead := Subtree(db.nodes, n);
    SubtreeIsTwoLevels(db.nodes, n);
    if Bare(db, n) {
      assert forall c :: c in db.nodes ==> c !in Children(db.nodes, {n});
      assert dead == {n};
      assert (db.nodes - dead)[n := db.nodes[n]] == db.nodes;
      assert EdgesOutside(db.deps, dead) == db.deps;
      assert db.verifs - dead == db.verifs;
    } else if c :| c in db.nodes && db.nodes[c].parent == n {
      assert c in Children(db.nodes, {n});
      ChainsAreShort(db.nodes, c);
      assert c != n;
      assert c !in DropNode(db, n).nodes[n := db.nodes[n]];
    } else if e :| e in db.deps && (e.blocker == n || e.blocked == n) {
      assert e !in DropNode(db, n).deps;
    } else {
      assert n !in DropNode(db, n).verifs;
    }
  }
}
