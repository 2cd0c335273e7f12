/** What a commit does to the log and the ledger: which events go, which come, and that
    each idempotency key lets one transaction through. */
module Commits {
  import opened FlowTypes
  import opened Forest
  import opened Engine
  import opened Invariants

  // ---- filtering the log ----------------------------------------------------------

  lemma {:induction false} OutsideAgree(events: seq<Event>, d1: set<Id>, d2: set<Id>)
    requires forall e :: e in events ==> (e.node in d1 <==> e.node in d2)
    ensures EventsOutside(events, d1) == EventsOutside(events, d2)
  {
    if events != [] {
      assert events[|events| - 1] in events;
      OutsideAgree(events[..|events| - 1], d1, d2);
    }
  }

  lemma {:induction false} OutsideNone(events: seq<Event>, dead: set<Id>)
    requires forall e :: e in events ==> e.node !in dead
    ensures EventsOutside(events, dead) == events
  {
    if events != [] {
      assert events[|events| - 1] in events;
      OutsideNone(events[..|events| - 1], dead);
      assert events == events[..|events| - 1] + [events[|events| - 1]];
    }
  }

  lemma {:induction false} OutsideConcat(a: seq<Event>, b: seq<Event>, dead: set<Id>)
    ensures EventsOutside(a + b, dead) == EventsOutside(a, dead) + EventsOutside(b, dead)
    decreases |b|
  {
    if b == [] {
      assert a + b == a;
    } else {
      assert (a + b)[..|a + b| - 1] == a + b[..|b| - 1];
      OutsideConcat(a, b[..|b| - 1], dead);
    }
  }

  lemma {:induction false} OutsideTwice(events: seq<Event>, d1: set<Id>, d2: set<Id>)
    ensures EventsOutside(EventsOutside(events, d1), d2) == EventsOutside(events, d1 + d2)
  {
    if events != [] {
      var last := events[|events| - 1];
      OutsideTwice(events[..|events| - 1], d1, d2);
      if last.node !in d1 {
        OutsideConcat(EventsOutside(events[..|events| - 1], d1), [last], d2);
        assert EventsOutside([last], d2) == if last.node in d2 then [] else [last];
      }
    }
  }

  // ---- the shape of a commit ------------------------------------------------------

  /** The identifiers the step removed. */
  function Gone(before: Db, after: Db): set<Id> {
    before.nodes.Keys - after.nodes.Keys
  }

  /** The log keeps the events of surviving nodes and gains the new ones, numbered on from
      the last number ever used. */
  ghost predicate LogGrows(base: Db, project: Id, after: Db, events: seq<Event>) {
    after.lastSeq == base.lastSeq + |events|
    && after.events == EventsOutside(base.events, Gone(base, after)) + events
    && forall i :: 0 <= i < |events| ==>
         events[i].seqno == base.lastSeq + 1 + i && events[i].project == project
  }

  function SeqOf(events: seq<Event>): int {
    if events == [] then 0 else events[|events| - 1].seqno
  }

  ghost predicate CommitShape(base: Db, project: Id, key: string, entity: Id, t: Txn) {
    LogGrows(base, project, t.db, t.events)
    && t.db.ledger == Record(base, project, key, SeqOf(t.events), entity).ledger
  }

  lemma NothingGone(base: Db, mid: Db)
    requires Inv(base) && mid.events == base.events && base.nodes.Keys <= mid.nodes.Keys
    requires mid.lastSeq == base.lastSeq
    ensures forall project :: LogGrows(base, project, mid, [])
  {
    OutsideNone(base.events, Gone(base, mid));
  }

  lemma DropShape(base: Db, id: Id)
    requires Inv(base)
    ensures forall project :: LogGrows(base, project, DropNode(base, id), [])
    ensures DropNode(base, id).ledger == base.ledger
  {
    var after := DropNode(base, id);
    if id in base.nodes {
      var dead := Subtree(base.nodes, id);
      forall e | e in base.events
        ensures e.node in dead <==> e.node in Gone(base, after)
      {
        assert EventOk(base, e);
        assert dead <= {id} + base.nodes.Keys;
        assert NO_ID !in base.nodes;
      }
      OutsideAgree(base.events, dead, Gone(base, after));
    } else {
      NothingGone(base, after);
    }
  }

  /** Appending one event to a partly written transaction. */
  lemma AppendShape(base: Db, project: Id, t: Txn, node: Id, kind: EventKind, author: string, payload: Payload)
    requires LogGrows(base, project, t.db, t.events)
    ensures var logged := AppendEvent(t.db, project, node, kind, author, payload);
            logged.Success? ==>
              logged.value.events != [] && logged.value.ledger == t.db.ledger
              && logged.value.nodes == t.db.nodes
              && LogGrows(base, project, logged.value, t.events + [LastEvent(logged.value)])
  {
  }

  lemma LogAndRecordShape(base: Db, mid: Db, project: Id, node: Id, kind: EventKind, meta: Meta, payload: Payload,
                          entity: Id, affected: set<Id>)
    requires LogGrows(base, project, mid, []) && mid.ledger == base.ledger
    ensures var t := LogAndRecord(mid, project, node, kind, meta, payload, entity, affected);
            t.Success? ==>
              CommitShape(base, project, meta.key, entity, t.value) && |t.value.events| == 1
              && t.value.events[0] == Event(base.lastSeq + 1, project, node, kind, meta.author, payload)
              && t.value.db.nodes == mid.nodes && t.value.db.deps == mid.deps && t.value.db.verifs == mid.verifs
              && t.value.affected == affected && t.value.db.projects == mid.projects
  {
    AppendShape(base, project, Txn(mid, [], affected), node, kind, meta.author, payload);
  }

  lemma {:induction false} LogDeletesShape(base: Db, t: Txn, project: Id, author: string, ids: seq<Id>)
    requires LogGrows(base, project, t.db, t.events) && t.db.ledger == base.ledger
    ensures var r := LogDeletes(t, project, author, ids);
            r.Success? ==>
              LogGrows(base, project, r.value.db, r.value.events) && r.value.db.ledger == base.ledger
              && r.value.db.nodes == t.db.nodes && r.value.db.deps == t.db.deps
              && r.value.db.verifs == t.db.verifs && r.value.affected == t.affected
    decreases |ids|
  {
    if ids != [] {
      var logged := AppendEvent(t.db, project, NO_ID, NodeDeleted, author, DeletedPayload(ids[0]));
      AppendShape(base, project, t, NO_ID, NodeDeleted, author, DeletedPayload(ids[0]));
      if logged.Success? {
        LogDeletesShape(base, t.(db := logged.value, events := t.events + [LastEvent(logged.value)]),
                        project, author, ids[1..]);
      }
    }
  }

  /** The root's event and the ledger row end a delete. */
  lemma RootShape(base: Db, t: Txn, r: Request, project: Id, kept: JsonObject)
    requires LogGrows(base, project, t.db, t.events) && t.db.ledger == base.ledger && r.DeleteNode?
    ensures var rooted := AppendEvent(t.db, project, NO_ID, NodeDeleted, r.meta.author, DeletedNode(kept));
            rooted.Success? ==>
              rooted.value.events != []
              && CommitShape(base, project, r.meta.key, NO_ID,
                             Txn(Record(rooted.value, project, r.meta.key, rooted.value.lastSeq, NO_ID),
                                 t.events + [LastEvent(rooted.value)], t.affected))
  {
    AppendShape(base, project, t, NO_ID, NodeDeleted, r.meta.author, DeletedNode(kept));
  }

  lemma LogSubtreeShape(base: Db, t: Txn, r: Request, project: Id, below: seq<Id>, kept: JsonObject)
    requires LogGrows(base, project, t.db, t.events) && t.db.ledger == base.ledger && r.DeleteNode?
    ensures var out := LogSubtree(t, r, project, below, kept);
            out.Success? ==> CommitShape(base, project, r.meta.key, NO_ID, out.value) && out.value.events != []
  {
    LogDeletesShape(base, t, project, r.meta.author, below);
    var logged := LogDeletes(t, project, r.meta.author, below);
    if logged.Success? {
      RootShape(base, logged.value, r, project, kept);
    }
  }

  lemma DeleteShape(db: Db, r: Request, project: Id)
    requires Inv(db) && r.DeleteNode? && r.node in db.nodes
    ensures var t := DeleteNodeTxn(db, r, project);
            t.Success? ==> CommitShape(db, project, r.meta.key, NO_ID, t.value) && t.value.events != []
  {
    var sub := Subtree(db.nodes, r.node);
    DropShape(db, r.node);
    LogSubtreeShape(db, Txn(DropNode(db, r.node), [], ExternalDependents(db, sub)), r, project,
                    Rows(sub - {r.node}), NodeBeforeJson(r.node, db.nodes[r.node]));
  }

  /** A deletion in the middle of a transaction keeps the shape: the events it has already
      written name no node. */
  lemma DropInside(base: Db, project: Id, t: Txn, id: Id)
    requires Inv(base) && Inv(t.db) && LogGrows(base, project, t.db, t.events)
    requires t.db.nodes.Keys <= base.nodes.Keys
    requires forall i :: 0 <= i < |t.events| ==> t.events[i].node == NO_ID
    ensures LogGrows(base, project, DropNode(t.db, id), t.events)
    ensures DropNode(t.db, id).ledger == t.db.ledger
  {
    if id in t.db.nodes {
      var after := DropNode(t.db, id);
      var dead := Subtree(t.db.nodes, id);
      var gone := Gone(base, t.db);
      assert dead <= {id} + t.db.nodes.Keys;
      OutsideConcat(EventsOutside(base.events, gone), t.events, dead);
      OutsideTwice(base.events, gone, dead);
      OutsideNone(t.events, dead) by {
        forall e | e in t.events
          ensures e.node !in dead
        {
          var i :| 0 <= i < |t.events| && t.events[i] == e;
          assert NO_ID !in t.db.nodes;
        }
      }
      assert Gone(base, after) == gone + dead;
    }
  }

  ghost predicate MidMove(base: Db, t: Txn, project: Id) {
    Inv(t.db) && LogGrows(base, project, t.db, t.events) && t.db.ledger == base.ledger
    && t.db.nodes.Keys <= base.nodes.Keys
    && forall i :: 0 <= i < |t.events| ==> t.events[i].node == NO_ID
  }

  lemma DropStepShape(base: Db, t: Txn, project: Id, author: string, id: Id)
    requires Inv(base) && MidMove(base, t, project)
    ensures var r := DropStep(t, project, author, id); r.Success? ==> MidMove(base, r.value, project)
  {
    DropStepKeeps(t, project, author, id);
    DropInside(base, project, t, id);
    AppendShape(base, project, t.(db := DropNode(t.db, id)), NO_ID, NodeDeleted, author, DeletedPayload(id));
  }

  lemma {:induction false} DropStepsShape(base: Db, t: Txn, project: Id, author: string, ids: seq<Id>)
    requires Inv(base) && MidMove(base, t, project)
    ensures var r := DropSteps(t, project, author, ids); r.Success? ==> MidMove(base, r.value, project)
    decreases |ids|
  {
    if ids != [] {
      DropStepShape(base, t, project, author, ids[0]);
      var next := DropStep(t, project, author, ids[0]);
      if next.Success? {
        DropStepsShape(base, next.value, project, author, ids[1..]);
      }
    }
  }

  lemma RecordShape(base: Db, project: Id, key: string, t: Txn)
    requires LogGrows(base, project, t.db, t.events) && t.events != [] && t.db.ledger == base.ledger
    ensures CommitShape(base, project, key, NO_ID, t.(db := Record(t.db, project, key, t.db.lastSeq, NO_ID)))
  {
  }

  /** The log's shape asks only which nodes are there. */
  lemma SameKeysSameShape(base: Db, mid: Db, after: Db, project: Id, added: seq<Event>)
    requires LogGrows(base, project, mid, added)
    requires after == mid.(nodes := after.nodes) && after.nodes.Keys == mid.nodes.Keys
    ensures LogGrows(base, project, after, added)
  {
    assert Gone(base, after) == Gone(base, mid);
  }

  lemma MovePlaceShape(base: Db, t: Txn, r: Request, was: Node, project: Id)
    requires LogGrows(base, project, t.db, t.events) && t.db.ledger == base.ledger && r.MoveNode?
    ensures var out := MovePlace(t, r, was, project);
            out.Success? ==> CommitShape(base, project, r.meta.key, NO_ID, out.value) && out.value.events != []
  {
    if r.node in t.db.nodes {
      var kind := KindStr(r.kindCode);
      var placed := PlaceNode(t.db, r.node, r.parent, kind, NextPosition(t.db.nodes, r.parent));
      if placed.Success? {
        SameKeysSameShape(base, t.db, placed.value, project, t.events);
        var payload := Moved(was.parent, was.kind, r.parent, kind);
        AppendShape(base, project, t.(db := placed.value), r.node, NodeUpdated, r.meta.author, payload);
        var logged := AppendEvent(placed.value, project, r.node, NodeUpdated, r.meta.author, payload);
        if logged.Success? {
          RecordShape(base, project, r.meta.key, Txn(logged.value, t.events + [LastEvent(logged.value)], t.affected));
        }
      }
    }
  }

  lemma MoveShape(db: Db, r: Request, project: Id)
    requires Inv(db) && r.MoveNode? && r.node in db.nodes
    ensures var t := MoveNodeTxn(db, r, project);
            t.Success? ==> CommitShape(db, project, r.meta.key, NO_ID, t.value) && t.value.events != []
  {
    var was := db.nodes[r.node];
    NothingGone(db, db);
    DropStepsShape(db, Txn(db, [], {r.node}), project, r.meta.author, Rows(Children(db.nodes, {r.node})));
    var dropped := MoveDrop(db, r, project);
    if dropped.Success? {
      MovePlaceShape(db, dropped.value.(db := MoveClear(dropped.value.db, r, was)), r, was, project);
    }
  }

  lemma RestoreShape(db: Db, obj: JsonObject)
    requires Inv(db)
    ensures var r := RestoreNode(db, obj);
            r.Success? ==> r.value.ledger == db.ledger && forall project :: LogGrows(db, project, r.value, [])
  {
    var r := RestoreNode(db, obj);
    if r.Success? {
      assert r.value.events == db.events && db.nodes.Keys <= r.value.nodes.Keys;
      NothingGone(db, r.value);
    }
  }

  lemma ReverseShape(db: Db, ev: Event)
    requires Inv(db)
    ensures var r := Reverse(db, ev);
            r.Success? ==> r.value.db.ledger == db.ledger && forall project :: LogGrows(db, project, r.value.db, [])
  {
    var r := Reverse(db, ev);
    if r.Success? {
      match ev.kind
      case StatusSet => NothingGone(db, r.value.db);
      case DepAdded => NothingGone(db, r.value.db);
      case DepRemoved => NothingGone(db, r.value.db);
      case NodeCreated => DropShape(db, ev.node);
      case NodeDeleted => RestoreShape(db, ev.payload.beforeObject);
    }
  }

  /** The entity a request's ledger row remembers. */
  function EntityOf(r: Request): Id {
    if r.CreateNode? || r.CreateProject? then r.minted else NO_ID
  }

  /** A transaction that changes rows but deletes none, then logs one event. */
  lemma OneEventShape(db: Db, next: Db, project: Id, node: Id, kind: EventKind, meta: Meta, payload: Payload,
                      entity: Id, affected: set<Id>)
    requires Inv(db) && db.nodes.Keys <= next.nodes.Keys
    requires next.events == db.events && next.lastSeq == db.lastSeq && next.ledger == db.ledger
    ensures var t := LogAndRecord(next, project, node, kind, meta, payload, entity, affected);
            t.Success? ==> CommitShape(db, project, meta.key, entity, t.value) && t.value.events != []
  {
    NothingGone(db, next);
    LogAndRecordShape(db, next, project, node, kind, meta, payload, entity, affected);
  }

  lemma CreateShape(db: Db, r: Request)
    requires Inv(db) && r.CreateNode?
    ensures var t := CreateNodeTxn(db, r);
            t.Success? ==> CommitShape(db, r.project, r.meta.key, r.minted, t.value) && t.value.events != []
  {
    var row := Node(r.project, r.parent, KindStr(r.kindCode), r.title, r.description, r.condition,
                    r.note, r.reference, Open, if r.kindCode == 1 then Some(Planned) else None, r.position);
    var inserted := InsertNode(db, r.minted, row, false);
    if inserted.Success? {
      OneEventShape(db, inserted.value, r.project, r.minted, NodeCreated, r.meta,
                    CreatedNode(r.minted, r.title), r.minted, {r.minted});
    }
  }

  lemma UpdateShape(db: Db, r: Request, project: Id)
    requires Inv(db) && r.UpdateNode? && r.node in db.nodes
    ensures var t := UpdateNodeTxn(db, r, project);
            t.Success? ==> CommitShape(db, project, r.meta.key, NO_ID, t.value) && t.value.events != []
  {
    var row := ApplyMask(db.nodes[r.node], r, r.mask);
    if row.Success? {
      OneEventShape(db, SetRow(db, r.node, row.value), project, r.node, NodeUpdated, r.meta, NoPayload,
                    NO_ID, {r.node});
    }
  }

  lemma VerdictShape(db: Db, r: Request, project: Id)
    requires Inv(db) && r.SetVerdict? && r.node in db.nodes
    ensures var t := VerdictTxn(db, r, project);
            t.Success? ==> CommitShape(db, project, r.meta.key, NO_ID, t.value) && t.value.events != []
  {
    OneEventShape(db, RuleOn(db, r.node, r.verdictCode), project, r.node, VerdictSet, r.meta, NoPayload, NO_ID, {r.node});
  }

  lemma UndoShape(db: Db, r: Request, ev: Event)
    requires Inv(db) && r.Undo?
    ensures var t := UndoTxn(db, r, ev);
            t.Success? ==> CommitShape(db, ev.project, r.meta.key, NO_ID, t.value) && t.value.events != []
  {
    var rev := Reverse(db, ev);
    ReverseShape(db, ev);
    if rev.Success? {
      LogAndRecordShape(db, rev.value.db, ev.project, rev.value.node, rev.value.kind, r.meta, NoPayload,
                        NO_ID, rev.value.affected);
    }
  }

  lemma RunTxnShape(db: Db, r: Request, scope: Id)
    requires Inv(db) && ScopeOf(db, r) == Some(scope)
    ensures var t := RunTxn(db, r, scope);
            t.Success? ==>
              CommitShape(db, scope, r.meta.key, EntityOf(r), t.value)
              && (!r.CreateProject? ==> t.value.events != [])
  {
    match r
    case CreateProject(_, minted) =>
      var t := RunTxn(db, r, scope);
      if t.Success? { NothingGone(db, t.value.db); }
    case CreateNode(_, _, _, _, _, _, _, _, _, _, _) => CreateShape(db, r);
    case UpdateNode(_, _, _, _, _, _, _, _, _, _) => UpdateShape(db, r, scope);
    case DeleteNode(_, _, _) => DeleteShape(db, r, scope);
    case SetStatus(meta, node, code) =>
      OneEventShape(db, SetDeclared(db, node, DeclaredStr(code)), scope, node, StatusSet, meta,
                    StatusChange(db.nodes[node].declared, DeclaredStr(code)), NO_ID,
                    {node} + Downstream(db, node));
    case AddDependency(meta, blocker, blocked) =>
      var linked := InsertEdge(db, Edge(blocker, blocked));
      if linked.Success? {
        OneEventShape(db, linked.value, scope, NO_ID, DepAdded, meta, EdgeEnds(blocker, blocked), NO_ID, {blocked});
      }
    case RemoveDependency(meta, blocker, blocked) =>
      OneEventShape(db, DropEdge(db, Edge(blocker, blocked)), scope, NO_ID, DepRemoved, meta,
                    EdgeEnds(blocker, blocked), NO_ID, {blocked});
    case ReportCondition(meta, node, resultCode, detail) =>
      var result := if resultCode == 1 then Pass else Fail;
      var v := VerificationAt(db, node).(agent := Some(result), agentName := meta.author, detail := detail);
      OneEventShape(db, SetVerification(db, node, v), scope, node, AgentReported, meta, Report(result, detail),
                    NO_ID, {node});
    case SetVerdict(_, _, _) => VerdictShape(db, r, scope);
    case AddComment(meta, node, text) =>
      OneEventShape(db, db, scope, node, Comment, meta, CommentText(text), NO_ID, {node});
    case Undo(_, project, seqno) => UndoShape(db, r, FindEvent(db.events, project, seqno).value);
    case MoveNode(_, _, _, _) => MoveShape(db, r, scope);
  }

  /** Every commit, whatever the request: old events survive exactly as long as their node
      does, new ones are numbered above everything before, all in the request's project;
      and the ledger gains this request's key and nothing else. */
  lemma EveryCommitShape(db: Db, r: Request)
    requires Inv(db) && Decide(db, r).Commit?
    ensures ScopeOf(db, r) == Some(Decide(db, r).project)
    ensures CommitShape(db, Decide(db, r).project, r.meta.key, EntityOf(r), Decide(db, r).txn)
    ensures !r.CreateProject? ==> Decide(db, r).txn.events != []
  {
    RunTxnShape(db, r, ScopeOf(db, r).value);
  }

  // ---- idempotency ----------------------------------------------------------------

  lemma {:induction false} LedgerRowsStay(db: Db, requests: seq<Request>, k: LedgerKey)
    requires Inv(db) && k in db.ledger
    ensures var after := ApplyAll(db, requests); k in after.ledger && after.ledger[k] == db.ledger[k]
    decreases |requests|
  {
    if requests != [] {
      if Decide(db, requests[0]).Commit? {
        EveryCommitShape(db, requests[0]);
      }
      ApplyKeeps(db, requests[0]);
      LedgerRowsStay(Apply(db, requests[0]).0, requests[1..], k);
    }
  }

  /** After a keyed request commits, no later request with its scope and key ever commits
      again, whatever happened in between and whatever that request asks for: it is refused
      before the ledger is read, or it changes nothing and returns the first one's seq. */
  lemma OneCommitPerKey(db: Db, first: Request, between: seq<Request>, again: Request)
    requires Inv(db) && Decide(db, first).Commit? && first.meta.key != ""
    requires again.meta.key == first.meta.key
    requires var late := ApplyAll(Apply(db, first).0, between);
             ScopeOf(late, again) == ScopeOf(db, first)
    ensures var late := ApplyAll(Apply(db, first).0, between);
            !Decide(late, again).Commit?
            && Apply(late, again).0 == late
            && Apply(late, again).1.Success?
            && Apply(late, again).1.value.seqno == Apply(db, first).1.value.seqno
            && Apply(late, again).1.value.events == []
  {
    var done := Apply(db, first).0;
    var k := LedgerKey(Decide(db, first).project, first.meta.key);
    FirstIsRecorded(db, first);
    ApplyKeeps(db, first);
    LedgerRowsStay(done, between, k);
    EveryRunKeepsInv(done, between);
    RecordedIsAnswered(ApplyAll(done, between), again, k);
  }

  lemma FirstIsRecorded(db: Db, first: Request)
    requires Inv(db) && Decide(db, first).Commit? && first.meta.key != ""
    ensures ScopeOf(db, first) == Some(Decide(db, first).project)
    ensures var k := LedgerKey(Decide(db, first).project, first.meta.key);
            var done := Apply(db, first).0;
            k in done.ledger && done.ledger[k].seqno == Apply(db, first).1.value.seqno
  {
    EveryCommitShape(db, first);
    LedgerBlocks(db, first);
  }

  lemma RecordedIsAnswered(db: Db, again: Request, k: LedgerKey)
    requires Inv(db) && k in db.ledger && k.key != "" && again.meta.key == k.key && ScopeOf(db, again) == Some(k.scope)
    ensures !Decide(db, again).Commit? && Apply(db, again).0 == db && Apply(db, again).1.Success?
    ensures Apply(db, again).1.value.seqno == db.ledger[k].seqno && Apply(db, again).1.value.events == []
  {
  }

  /** A request whose key is in the ledger does not commit. */
  lemma LedgerBlocks(db: Db, r: Request)
    requires Inv(db) && r.meta.key != "" && ScopeOf(db, r).Some?
    ensures LedgerKey(ScopeOf(db, r).value, r.meta.key) in db.ledger ==> !Decide(db, r).Commit?
  {
  }
}
