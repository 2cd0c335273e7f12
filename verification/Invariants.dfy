/** What every reachable database satisfies: a three-level hierarchy, an acyclic graph over
    existing nodes, verifications and events of existing nodes only, and an ordered log. */
module Invariants {
  import opened FlowTypes
  import opened Graph
  import opened Forest
  import opened Engine

  ghost predicate ProjectsOk(db: Db) {
    NO_ID !in db.projects && forall n :: n in db.nodes ==> db.nodes[n].project in db.projects
  }

  ghost predicate EndsExist(db: Db) {
    forall e :: e in db.deps ==> e.blocker in db.nodes && e.blocked in db.nodes
  }

  /** A delete event keeps either a whole row or only an identifier. */
  ghost predicate PayloadOk(payload: Payload) {
    payload.DeletedNode? && KindField in payload.beforeObject ==> KeepsRow(payload.beforeObject)
  }

  ghost predicate KeepsRow(obj: JsonObject) {
    exists id, row :: id != NO_ID && RowCheck(row) && obj == NodeBeforeJson(id, row)
  }

  /** Deletions and edges are logged without a node. */
  predicate Nodeless(kind: EventKind) {
    kind == NodeDeleted || kind == DepAdded || kind == DepRemoved
  }

  /** An event names a node of its own project, or none. */
  ghost predicate EventOk(db: Db, e: Event) {
    0 < e.seqno <= db.lastSeq && e.project in db.projects
    && (e.node == NO_ID || (e.node in db.nodes && db.nodes[e.node].project == e.project))
    && (Nodeless(e.kind) ==> e.node == NO_ID) && PayloadOk(e.payload)
  }

  /** An event of this project and kind may name this node. */
  ghost predicate MayName(db: Db, project: Id, node: Id, kind: EventKind) {
    (node in db.nodes ==> db.nodes[node].project == project) && (Nodeless(kind) ==> node == NO_ID)
  }

  ghost predicate Ascending(events: seq<Event>) {
    forall i, j :: 0 <= i < j < |events| ==> events[i].seqno < events[j].seqno
  }

  ghost predicate LogOk(db: Db) {
    db.lastSeq >= 0 && Ascending(db.events) && forall e :: e in db.events ==> EventOk(db, e)
  }

  ghost predicate LedgerOk(db: Db) {
    forall k :: k in db.ledger ==>
      db.ledger[k].seqno <= db.lastSeq && (k.scope == NO_ID ==> db.ledger[k].entity in db.projects)
  }

  ghost predicate Inv(db: Db) {
    Hierarchy(db.nodes) && ProjectsOk(db) && EndsExist(db) && Acyclic(db.deps)
    && db.verifs.Keys <= db.nodes.Keys && LogOk(db) && LedgerOk(db)
  }

  // ---- the log after a cascade ----------------------------------------------------

  lemma {:induction false} OutsideMembers(events: seq<Event>, dead: set<Id>)
    ensures forall e :: e in EventsOutside(events, dead) <==> e in events && e.node !in dead
  {
    if events != [] {
      var last := events[|events| - 1];
      OutsideMembers(events[..|events| - 1], dead);
      assert events == events[..|events| - 1] + [last];
    }
  }

  lemma {:induction false} OutsideAscends(events: seq<Event>, dead: set<Id>)
    requires Ascending(events)
    ensures Ascending(EventsOutside(events, dead))
  {
    if events != [] {
      var front := events[..|events| - 1];
      var kept := EventsOutside(front, dead);
      OutsideAscends(front, dead);
      OutsideMembers(front, dead);
      assert forall i :: 0 <= i < |kept| ==> kept[i] in kept;
    }
  }

  // ---- statements -----------------------------------------------------------------

  lemma InsertNodeKeeps(db: Db, id: Id, row: Node, orIgnore: bool)
    requires Inv(db) && id != NO_ID
    ensures var r := InsertNode(db, id, row, orIgnore); r.Success? ==> Inv(r.value)
  {
  }

  lemma PlaceNodeKeeps(db: Db, id: Id, parent: Id, kind: Kind, position: Int32)
    requires Inv(db) && id in db.nodes
    ensures var r := PlaceNode(db, id, parent, kind, position); r.Success? ==> Inv(r.value)
  {
  }

  /** Rewriting columns other than the project, the parent and the kind. */
  lemma SetRowKeeps(db: Db, id: Id, row: Node)
    requires Inv(db) && id in db.nodes && RowCheck(row)
    requires row.project == db.nodes[id].project && row.parent == db.nodes[id].parent
             && row.kind == db.nodes[id].kind
    ensures Inv(SetRow(db, id, row))
  {
  }

  lemma SetDeclaredKeeps(db: Db, id: Id, declared: Declared)
    requires Inv(db)
    ensures Inv(SetDeclared(db, id, declared))
  {
  }

  lemma DropNodeKeeps(db: Db, id: Id)
    requires Inv(db)
    ensures Inv(DropNode(db, id))
  {
    var after := DropNode(db, id);
    if id in db.nodes {
      var dead := Subtree(db.nodes, id);
      forall n | n in after.nodes
        ensures Placed(after.nodes, after.nodes[n])
      {
        assert Placed(db.nodes, db.nodes[n]);
        assert n !in Children(db.nodes, dead);
      }
      AcyclicSubset(after.deps, db.deps);
      OutsideMembers(db.events, dead);
      OutsideAscends(db.events, dead);
      forall e | e in after.events
        ensures EventOk(after, e)
      {
        assert EventOk(db, e);
      }
    }
  }

  lemma InsertEdgeKeeps(db: Db, e: Edge)
    requires Inv(db)
    ensures var r := InsertEdge(db, e); r.Success? ==> Inv(r.value)
  {
    FollowIsReach(db.deps, {e.blocked}, e.blocker);
    AddEdgeAcyclic(db.deps, e);
    var r := InsertEdge(db, e);
    if r.Success? {
      forall ev | ev in r.value.events
        ensures EventOk(r.value, ev)
      {
        assert EventOk(db, ev);
      }
    }
  }

  lemma DropEdgeKeeps(db: Db, e: Edge)
    requires Inv(db)
    ensures Inv(DropEdge(db, e))
  {
    var after := DropEdge(db, e);
    AcyclicSubset(after.deps, db.deps);
    forall ev | ev in after.events
      ensures EventOk(after, ev)
    {
      assert EventOk(db, ev);
    }
  }

  lemma VerifsKeep(db: Db, verifs: map<Id, Verification>)
    requires Inv(db) && verifs.Keys <= db.nodes.Keys
    ensures Inv(db.(verifs := verifs))
  {
  }

  lemma AppendEventKeeps(db: Db, project: Id, node: Id, kind: EventKind, author: string, payload: Payload)
    requires Inv(db) && PayloadOk(payload) && MayName(db, project, node, kind)
    ensures var r := AppendEvent(db, project, node, kind, author, payload);
            r.Success? ==> Inv(r.value) && r.value.events != [] && project != NO_ID
  {
    var r := AppendEvent(db, project, node, kind, author, payload);
    if r.Success? {
      forall e | e in r.value.events
        ensures EventOk(r.value, e)
      {
        assert e in db.events ==> EventOk(db, e);
      }
      assert forall i :: 0 <= i < |db.events| ==> db.events[i] in db.events;
    }
  }

  lemma RecordKeeps(db: Db, scope: Id, key: string, seqno: int, entity: Id)
    requires Inv(db) && seqno <= db.lastSeq && (scope == NO_ID ==> entity in db.projects)
    ensures Inv(Record(db, scope, key, seqno, entity))
  {
  }

  lemma LogAndRecordKeeps(db: Db, project: Id, node: Id, kind: EventKind, meta: Meta, payload: Payload,
                          entity: Id, affected: set<Id>)
    requires Inv(db) && PayloadOk(payload) && MayName(db, project, node, kind)
    ensures var r := LogAndRecord(db, project, node, kind, meta, payload, entity, affected);
            r.Success? ==> Inv(r.value.db)
  {
    var logged := AppendEvent(db, project, node, kind, meta.author, payload);
    AppendEventKeeps(db, project, node, kind, meta.author, payload);
    if logged.Success? {
      RecordKeeps(logged.value, project, meta.key, logged.value.lastSeq, entity);
    }
  }

  // ---- loops ----------------------------------------------------------------------

  lemma {:induction false} ApplyMaskKeeps(row: Node, r: Request, mask: seq<MaskField>)
    requires r.UpdateNode? && RowCheck(row)
    ensures var out := ApplyMask(row, r, mask);
            out.Success? ==> RowCheck(out.value) && out.value.project == row.project
                             && out.value.parent == row.parent && out.value.kind == row.kind
                             && out.value.declared == row.declared
    decreases |mask|
  {
    if mask != [] {
      match mask[0]
      case MaskTitle => ApplyMaskKeeps(row.(title := r.title), r, mask[1..]);
      case MaskDescription => ApplyMaskKeeps(row.(description := r.description), r, mask[1..]);
      case MaskCondition => ApplyMaskKeeps(row.(condition := r.condition), r, mask[1..]);
      case MaskPosition => ApplyMaskKeeps(row.(position := r.position), r, mask[1..]);
      case MaskReference => ApplyMaskKeeps(row.(reference := r.reference), r, mask[1..]);
      case MaskNote => ApplyMaskKeeps(row.(note := r.note), r, mask[1..]);
      case MaskWpState =>
        if RowCheck(row.(wp := WpStr(r.wpCode))) {
          ApplyMaskKeeps(row.(wp := WpStr(r.wpCode)), r, mask[1..]);
        }
      case MaskUnknown =>
    }
  }

  lemma {:induction false} LogDeletesKeeps(t: Txn, project: Id, author: string, ids: seq<Id>)
    requires Inv(t.db)
    ensures var r := LogDeletes(t, project, author, ids); r.Success? ==> Inv(r.value.db)
    decreases |ids|
  {
    if ids != [] {
      var payload := DeletedPayload(ids[0]);
      var logged := AppendEvent(t.db, project, NO_ID, NodeDeleted, author, payload);
      AppendEventKeeps(t.db, project, NO_ID, NodeDeleted, author, payload);
      if logged.Success? {
        LogDeletesKeeps(t.(db := logged.value, events := t.events + [LastEvent(logged.value)]),
                        project, author, ids[1..]);
      }
    }
  }

  /** Rows may be gone; those left are unchanged. */
  ghost predicate Fewer(before: map<Id, Node>, after: map<Id, Node>) {
    forall x :: x in after ==> x in before && after[x] == before[x]
  }

  lemma DropStepKeeps(t: Txn, project: Id, author: string, id: Id)
    requires Inv(t.db)
    ensures var r := DropStep(t, project, author, id);
            r.Success? ==> Inv(r.value.db) && Fewer(t.db.nodes, r.value.db.nodes)
  {
    DropNodeKeeps(t.db, id);
    AppendEventKeeps(DropNode(t.db, id), project, NO_ID, NodeDeleted, author, DeletedPayload(id));
  }

  lemma {:induction false} DropStepsKeeps(t: Txn, project: Id, author: string, ids: seq<Id>)
    requires Inv(t.db)
    ensures var r := DropSteps(t, project, author, ids);
            r.Success? ==> Inv(r.value.db) && Fewer(t.db.nodes, r.value.db.nodes)
    decreases |ids|
  {
    if ids != [] {
      DropStepKeeps(t, project, author, ids[0]);
      var next := DropStep(t, project, author, ids[0]);
      if next.Success? {
        DropStepsKeeps(next.value, project, author, ids[1..]);
      }
    }
  }

  // ---- transactions ---------------------------------------------------------------

  lemma LogSubtreeKeeps(t: Txn, r: Request, project: Id, below: seq<Id>, kept: JsonObject)
    requires Inv(t.db) && r.DeleteNode? && KeepsRow(kept)
    ensures var out := LogSubtree(t, r, project, below, kept); out.Success? ==> Inv(out.value.db)
  {
    LogDeletesKeeps(t, project, r.meta.author, below);
    var logged := LogDeletes(t, project, r.meta.author, below);
    if logged.Success? {
      AppendEventKeeps(logged.value.db, project, NO_ID, NodeDeleted, r.meta.author, DeletedNode(kept));
      var rooted := AppendEvent(logged.value.db, project, NO_ID, NodeDeleted, r.meta.author, DeletedNode(kept));
      if rooted.Success? {
        RecordKeeps(rooted.value, project, r.meta.key, rooted.value.lastSeq, NO_ID);
      }
    }
  }

  lemma DeleteNodeTxnKeeps(db: Db, r: Request, project: Id)
    requires Inv(db) && r.DeleteNode? && r.node in db.nodes
    ensures var t := DeleteNodeTxn(db, r, project); t.Success? ==> Inv(t.value.db)
  {
    var sub := Subtree(db.nodes, r.node);
    DropNodeKeeps(db, r.node);
    assert Placed(db.nodes, db.nodes[r.node]);
    assert KeepsRow(NodeBeforeJson(r.node, db.nodes[r.node]));
    LogSubtreeKeeps(Txn(DropNode(db, r.node), [], ExternalDependents(db, sub)), r, project,
                    Rows(sub - {r.node}), NodeBeforeJson(r.node, db.nodes[r.node]));
  }

  lemma MovePlaceKeeps(t: Txn, r: Request, was: Node, project: Id)
    requires Inv(t.db) && r.MoveNode? && (r.node in t.db.nodes ==> t.db.nodes[r.node].project == project)
    ensures var out := MovePlace(t, r, was, project); out.Success? ==> Inv(out.value.db)
  {
    if r.node in t.db.nodes {
      var kind := KindStr(r.kindCode);
      var position := NextPosition(t.db.nodes, r.parent);
      PlaceNodeKeeps(t.db, r.node, r.parent, kind, position);
      var placed := PlaceNode(t.db, r.node, r.parent, kind, position);
      if placed.Success? {
        var payload := Moved(was.parent, was.kind, r.parent, kind);
        AppendEventKeeps(placed.value, project, r.node, NodeUpdated, r.meta.author, payload);
        var logged := AppendEvent(placed.value, project, r.node, NodeUpdated, r.meta.author, payload);
        if logged.Success? {
          RecordKeeps(logged.value, project, r.meta.key, logged.value.lastSeq, NO_ID);
        }
      }
    }
  }

  lemma MoveNodeTxnKeeps(db: Db, r: Request, project: Id)
    requires Inv(db) && r.MoveNode? && r.node in db.nodes && project == db.nodes[r.node].project
    ensures var t := MoveNodeTxn(db, r, project); t.Success? ==> Inv(t.value.db)
  {
    var was := db.nodes[r.node];
    DropStepsKeeps(Txn(db, [], {r.node}), project, r.meta.author, Rows(Children(db.nodes, {r.node})));
    var dropped := MoveDrop(db, r, project);
    if dropped.Success? {
      VerifsKeep(dropped.value.db, dropped.value.db.verifs - {r.node});
      MovePlaceKeeps(dropped.value.(db := MoveClear(dropped.value.db, r, was)), r, was, project);
    }
  }

  lemma RestoreNodeKeeps(db: Db, obj: JsonObject)
    requires Inv(db) && PayloadOk(DeletedNode(obj))
    ensures var r := RestoreNode(db, obj); r.Success? ==> Inv(r.value)
  {
    if KindField in obj {
      forall row
        ensures var r := InsertNode(db, IdAt(obj, IdField), row, true); r.Success? ==> Inv(r.value)
      {
        InsertNodeKeeps(db, IdAt(obj, IdField), row, true);
      }
    }
  }

  lemma ReverseKeeps(db: Db, ev: Event)
    requires Inv(db) && EventOk(db, ev)
    ensures var r := Reverse(db, ev);
            r.Success? ==> Inv(r.value.db) && MayName(r.value.db, ev.project, r.value.node, r.value.kind)
  {
    match ev.kind
    case StatusSet =>
      SetDeclaredKeeps(db, ev.node, if ev.payload.StatusChange? then ev.payload.before else Open);
    case DepAdded =>
      if ev.payload.EdgeEnds? { DropEdgeKeeps(db, Edge(ev.payload.blocker, ev.payload.blocked)); }
    case DepRemoved =>
      if ev.payload.EdgeEnds? { InsertEdgeKeeps(db, Edge(ev.payload.blocker, ev.payload.blocked)); }
    case NodeCreated =>
      DropNodeKeeps(db, ev.node);
    case NodeDeleted =>
      if ev.payload.DeletedNode? { RestoreNodeKeeps(db, ev.payload.beforeObject); }
    case _ =>
  }

  lemma {:induction false} FindEventFinds(events: seq<Event>, project: Id, seqno: int)
    ensures var f := FindEvent(events, project, seqno);
            f.Some? ==> f.value in events && f.value.project == project
                        && (seqno > 0 ==> f.value.seqno == seqno)
    decreases |events|
  {
    if events != [] {
      FindEventFinds(events[..|events| - 1], project, seqno);
    }
  }

  lemma CreateKeeps(db: Db, r: Request)
    requires Inv(db) && r.CreateNode?
    ensures var t := CreateNodeTxn(db, r); t.Success? ==> Inv(t.value.db)
  {
    var wp := if r.kindCode == 1 then Some(Planned) else None;
    var row := Node(r.project, r.parent, KindStr(r.kindCode), r.title, r.description, r.condition,
                    r.note, r.reference, Open, wp, r.position);
    InsertNodeKeeps(db, r.minted, row, false);
    var inserted := InsertNode(db, r.minted, row, false);
    if inserted.Success? {
      LogAndRecordKeeps(inserted.value, r.project, r.minted, NodeCreated, r.meta, CreatedNode(r.minted, r.title),
                        r.minted, {r.minted});
    }
  }

  lemma UpdateKeeps(db: Db, r: Request, scope: Id)
    requires Inv(db) && r.UpdateNode? && r.node in db.nodes && scope == db.nodes[r.node].project
    ensures var t := UpdateNodeTxn(db, r, scope); t.Success? ==> Inv(t.value.db)
  {
    assert Placed(db.nodes, db.nodes[r.node]);
    ApplyMaskKeeps(db.nodes[r.node], r, r.mask);
    var row := ApplyMask(db.nodes[r.node], r, r.mask);
    if row.Success? {
      SetRowKeeps(db, r.node, row.value);
      LogAndRecordKeeps(SetRow(db, r.node, row.value), scope, r.node, NodeUpdated, r.meta, NoPayload, NO_ID, {r.node});
    }
  }

  lemma RuleOnKeeps(db: Db, node: Id, verdictCode: int)
    requires Inv(db) && node in db.nodes
    ensures Inv(RuleOn(db, node, verdictCode))
  {
    VerifsKeep(db, RuleOn(db, node, verdictCode).verifs);
  }

  lemma VerdictKeeps(db: Db, r: Request, scope: Id)
    requires Inv(db) && r.SetVerdict? && r.node in db.nodes && scope == db.nodes[r.node].project
    ensures var t := VerdictTxn(db, r, scope); t.Success? ==> Inv(t.value.db)
  {
    RuleOnKeeps(db, r.node, r.verdictCode);
    LogAndRecordKeeps(RuleOn(db, r.node, r.verdictCode), scope, r.node, VerdictSet, r.meta, NoPayload, NO_ID, {r.node});
  }

  lemma UndoKeeps(db: Db, r: Request)
    requires Inv(db) && r.Undo? && FindEvent(db.events, r.project, r.seqno).Some?
    ensures var t := UndoTxn(db, r, FindEvent(db.events, r.project, r.seqno).value);
            t.Success? ==> Inv(t.value.db)
  {
    FindEventFinds(db.events, r.project, r.seqno);
    var ev := FindEvent(db.events, r.project, r.seqno).value;
    assert EventOk(db, ev);
    ReverseKeeps(db, ev);
    var rev := Reverse(db, ev);
    if rev.Success? {
      LogAndRecordKeeps(rev.value.db, ev.project, rev.value.node, rev.value.kind, r.meta, NoPayload, NO_ID,
                        rev.value.affected);
    }
  }

  lemma RunTxnKeeps(db: Db, r: Request, scope: Id)
    requires Inv(db) && ScopeOf(db, r) == Some(scope)
    ensures var t := RunTxn(db, r, scope); t.Success? ==> Inv(t.value.db)
  {
    match r
    case CreateProject(meta, minted) =>
      if minted !in db.projects {
        var grown := db.(projects := db.projects + {minted});
        forall e | e in grown.events
          ensures EventOk(grown, e)
        {
          assert EventOk(db, e);
        }
        RecordKeeps(grown, NO_ID, meta.key, 0, minted);
      }
    case CreateNode(_, _, _, _, _, _, _, _, _, _, _) => CreateKeeps(db, r);
    case UpdateNode(_, _, _, _, _, _, _, _, _, _) => UpdateKeeps(db, r, scope);
    case DeleteNode(_, _, _) => DeleteNodeTxnKeeps(db, r, scope);
    case SetStatus(meta, node, declaredCode) =>
      var declared := DeclaredStr(declaredCode);
      SetDeclaredKeeps(db, node, declared);
      LogAndRecordKeeps(SetDeclared(db, node, declared), scope, node, StatusSet, meta,
                        StatusChange(db.nodes[node].declared, declared), NO_ID, {node} + Downstream(db, node));
    case AddDependency(meta, blocker, blocked) =>
      InsertEdgeKeeps(db, Edge(blocker, blocked));
      var linked := InsertEdge(db, Edge(blocker, blocked));
      if linked.Success? {
        LogAndRecordKeeps(linked.value, scope, NO_ID, DepAdded, meta, EdgeEnds(blocker, blocked), NO_ID, {blocked});
      }
    case RemoveDependency(meta, blocker, blocked) =>
      DropEdgeKeeps(db, Edge(blocker, blocked));
      LogAndRecordKeeps(DropEdge(db, Edge(blocker, blocked)), scope, NO_ID, DepRemoved, meta,
                        EdgeEnds(blocker, blocked), NO_ID, {blocked});
    case ReportCondition(meta, node, resultCode, detail) =>
      var result := if resultCode == 1 then Pass else Fail;
      var v := VerificationAt(db, node).(agent := Some(result), agentName := meta.author, detail := detail);
      VerifsKeep(db, db.verifs[node := v]);
      LogAndRecordKeeps(SetVerification(db, node, v), scope, node, AgentReported, meta,
                        Report(result, detail), NO_ID, {node});
    case SetVerdict(_, _, _) => VerdictKeeps(db, r, scope);
    case AddComment(meta, node, text) =>
      LogAndRecordKeeps(db, scope, node, Comment, meta, CommentText(text), NO_ID, {node});
    case Undo(_, _, _) => UndoKeeps(db, r);
    case MoveNode(_, _, _, _) => MoveNodeTxnKeeps(db, r, scope);
  }

  // ---- requests and runs ----------------------------------------------------------

  ghost function ApplyAll(db: Db, requests: seq<Request>): Db
    decreases |requests|
  {
    if requests == [] then db else ApplyAll(Apply(db, requests[0]).0, requests[1..])
  }

  lemma {:induction false} ApplyAllThen(db: Db, requests: seq<Request>, r: Request)
    ensures ApplyAll(db, requests + [r]) == Apply(ApplyAll(db, requests), r).0
    decreases |requests|
  {
    if requests != [] {
      assert (requests + [r])[1..] == requests[1..] + [r];
      ApplyAllThen(Apply(db, requests[0]).0, requests[1..], r);
    }
  }

  lemma ApplyKeeps(db: Db, r: Request)
    requires Inv(db)
    ensures Inv(Apply(db, r).0)
  {
    var scope := ScopeOf(db, r);
    if scope.Some? {
      RunTxnKeeps(db, r, scope.value);
    }
  }

  const EmptyDb: Db := Db({}, map[], {}, map[], [], map[], 0)

  /** Every reachable database satisfies the invariant, whatever the requests, undo
      included: its graph is acyclic and its hierarchy well formed. */
  lemma {:induction false} EveryRunKeepsInv(db: Db, requests: seq<Request>)
    requires Inv(db)
    ensures Inv(ApplyAll(db, requests))
    decreases |requests|
  {
    if requests != [] {
      ApplyKeeps(db, requests[0]);
      EveryRunKeepsInv(Apply(db, requests[0]).0, requests[1..]);
    }
  }

  lemma ReachableIsSound(requests: seq<Request>)
    ensures var db := ApplyAll(EmptyDb, requests);
            Acyclic(db.deps) && Hierarchy(db.nodes) && EndsExist(db)
            && forall n :: n in db.nodes ==>
                 Subtree(db.nodes, n)
                 == {n} + Children(db.nodes, {n}) + Children(db.nodes, Children(db.nodes, {n}))
  {
    EveryRunKeepsInv(EmptyDb, requests);
    var db := ApplyAll(EmptyDb, requests);
    forall n | n in db.nodes
      ensures Subtree(db.nodes, n)
              == {n} + Children(db.nodes, {n}) + Children(db.nodes, Children(db.nodes, {n}))
    {
      SubtreeIsTwoLevels(db.nodes, n);
    }
  }
}
