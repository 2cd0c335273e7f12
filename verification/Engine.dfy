/** The store's mutations as functions on the database value: the statements with their
    triggers, checks and foreign keys, the transactions built from them, and the decision
    each request gets. `Store` executes the same requests step by step in place. */
module Engine {
  import opened FlowTypes
  import opened Forest
  import opened Graph
  import opened Status

  // ---- enum decoding --------------------------------------------------------------

  function KindStr(code: int): Kind {
    if code == 1 then WorkPackage else if code == 2 then Task else Step
  }

  function DeclaredStr(code: int): Declared {
    if code == 1 then Open else if code == 2 then Deferred else Done
  }

  function WpStr(code: int): Option<WpState> {
    if code == 1 then Some(Planned) else if code == 2 then Some(Active)
    else if code == 3 then Some(Closed) else if code == 4 then Some(Archived) else None
  }

  function Wrap32(n: int): Int32 {
    (n + 0x8000_0000) % 0x1_0000_0000 - 0x8000_0000
  }

  // ---- statements -----------------------------------------------------------------

  /** INSERT INTO nodes: the parent-kind trigger fires first, then CHECK and primary key
      (skipped silently under OR IGNORE), then the foreign keys. */
  function InsertNode(db: Db, id: Id, row: Node, orIgnore: bool): Result<Db> {
    if row.parent != NO_ID && KindOf(db.nodes, row.parent) != ParentKindFor(row.kind) then
      Failure(FailedPrecondition)
    else if !RowCheck(row) || id in db.nodes then
      if orIgnore then Success(db) else Failure(Internal)
    else if row.project !in db.projects || (row.parent != NO_ID && row.parent !in db.nodes) then
      Failure(Internal)
    else
      Success(db.(nodes := db.nodes[id := row]))
  }

  /** UPDATE nodes SET parent_id, kind, position: the four guards of the update trigger in
      order, then CHECK. */
  function PlaceNode(db: Db, id: Id, parent: Id, kind: Kind, position: Int32): Result<Db>
    requires id in db.nodes
  {
    var row := db.nodes[id].(parent := parent, kind := kind, position := position);
    if parent == id then Failure(FailedPrecondition)
    else if parent != NO_ID && KindOf(db.nodes, parent) != ParentKindFor(kind) then
      Failure(FailedPrecondition)
    else if parent != NO_ID && parent in db.nodes && db.nodes[parent].project != row.project then
      Failure(FailedPrecondition)
    else if exists c :: c in db.nodes && db.nodes[c].parent == id
                        && Some(db.nodes[c].kind) != ChildKindFor(kind) then
      Failure(FailedPrecondition)
    else if !RowCheck(row) then Failure(Internal)
    else Success(db.(nodes := db.nodes[id := row]))
  }

  function SetRow(db: Db, id: Id, row: Node): Db {
    db.(nodes := db.nodes[id := row])
  }

  function SetDeclared(db: Db, id: Id, declared: Declared): Db {
    if id in db.nodes then SetRow(db, id, db.nodes[id].(declared := declared)) else db
  }

  function EventsOutside(events: seq<Event>, dead: set<Id>): seq<Event> {
    if events == [] then [] else
    var front := EventsOutside(events[..|events| - 1], dead);
    if events[|events| - 1].node in dead then front else front + [events[|events| - 1]]
  }

  function EdgesOutside(deps: set<Edge>, dead: set<Id>): set<Edge> {
    set e | e in deps && e.blocker !in dead && e.blocked !in dead
  }

  /** DELETE FROM nodes: the foreign keys take the subtree, and with every row of it its
      edges, its verification and its own events. */
  function DropNode(db: Db, id: Id): Db {
    if id !in db.nodes then db else
    var dead := Subtree(db.nodes, id);
    db.(nodes := db.nodes - dead,
        deps := EdgesOutside(db.deps, dead),
        verifs := db.verifs - dead,
        events := EventsOutside(db.events, dead))
  }

  /** INSERT OR IGNORE INTO dependencies: the cycle trigger, the primary key, the foreign
      keys. */
  function InsertEdge(db: Db, e: Edge): Result<Db> {
    if e.blocker in Follow(db.deps, {e.blocked}) then Failure(FailedPrecondition)
    else if e in db.deps then Success(db)
    else if e.blocker !in db.nodes || e.blocked !in db.nodes then Failure(Internal)
    else Success(db.(deps := db.deps + {e}))
  }

  function DropEdge(db: Db, e: Edge): Db {
    db.(deps := db.deps - {e})
  }

  function Downstream(db: Db, id: Id): set<Id> {
    set e | e in db.deps && e.blocker == id :: e.blocked
  }

  function AppendEvent(db: Db, project: Id, node: Id, kind: EventKind, author: string, payload: Payload): Result<Db> {
    if project !in db.projects || (node != NO_ID && node !in db.nodes) then Failure(Internal)
    else Success(db.(events := db.events + [Event(db.lastSeq + 1, project, node, kind, author, payload)],
                     lastSeq := db.lastSeq + 1))
  }

  /** INSERT OR IGNORE INTO idempotency; nothing for the empty key. */
  function Record(db: Db, scope: Id, key: string, seqno: int, entity: Id): Db {
    var k := LedgerKey(scope, key);
    if key == "" || k in db.ledger then db
    else db.(ledger := db.ledger[k := LedgerRow(seqno, entity)])
  }

  function LedgerHit(db: Db, scope: Id, key: string): Option<LedgerRow> {
    var k := LedgerKey(scope, key);
    if key != "" && k in db.ledger then Some(db.ledger[k]) else None
  }

  // ---- the row kept by a delete event ---------------------------------------------

  function NodeBeforeJson(id: Id, row: Node): JsonObject {
    map[IdField := JId(id), ProjectField := JId(row.project), ParentField := JId(row.parent),
        KindField := JKind(row.kind), TitleField := JText(row.title),
        DescriptionField := JText(row.description), ConditionField := JText(row.condition),
        NoteField := JText(row.note), ReferenceField := JText(row.reference),
        DeclaredField := JDeclared(row.declared),
        WpStateField := if row.kind == WorkPackage && row.wp.Some? then JWpState(row.wp.value) else JNull,
        PositionField := JInt(row.position)]
  }

  function IdAt(obj: JsonObject, f: Field): Id {
    if f in obj && obj[f].JId? then obj[f].id else NO_ID
  }

  function TextAt(obj: JsonObject, f: Field): string {
    if f in obj && obj[f].JText? then obj[f].text else ""
  }

  predicate KeepsKind(obj: JsonObject) {
    KindField in obj && obj[KindField].JKind?
  }

  function RowKept(obj: JsonObject): Node
    requires KeepsKind(obj)
  {
    var kind := obj[KindField].kind;
    var wp := if kind == WorkPackage && WpStateField in obj && obj[WpStateField].JWpState?
              then Some(obj[WpStateField].wp) else None;
    var declared := if DeclaredField in obj && obj[DeclaredField].JDeclared?
                    then obj[DeclaredField].declared else Open;
    var position := if PositionField in obj && obj[PositionField].JInt?
                    then Wrap32(obj[PositionField].n) else 0;
    Node(IdAt(obj, ProjectField), IdAt(obj, ParentField), kind,
         TextAt(obj, TitleField), TextAt(obj, DescriptionField), TextAt(obj, ConditionField),
         TextAt(obj, NoteField), TextAt(obj, ReferenceField), declared, wp, position)
  }

  /** INSERT OR IGNORE of the kept row. An object without a kind fails the CHECK on kind,
      which OR IGNORE turns into no row at all. */
  function RestoreNode(db: Db, obj: JsonObject): Result<Db> {
    if KeepsKind(obj) then InsertNode(db, IdAt(obj, IdField), RowKept(obj), true) else Success(db)
  }

  // ---- transactions ---------------------------------------------------------------

  /** What a transaction leaves behind: tables, the events it wrote, the nodes it reports. */
  datatype Txn = Txn(db: Db, events: seq<Event>, affected: set<Id>)

  function LastEvent(db: Db): Event
    requires db.events != []
  {
    db.events[|db.events| - 1]
  }

  /** One event and the ledger row: how every single-event mutation ends. */
  function LogAndRecord(db: Db, project: Id, node: Id, kind: EventKind, meta: Meta, payload: Payload,
                        entity: Id, affected: set<Id>): Result<Txn> {
    var logged :- AppendEvent(db, project, node, kind, meta.author, payload);
    Success(Txn(Record(logged, project, meta.key, logged.lastSeq, entity), [LastEvent(logged)], affected))
  }

  function CreateNodeTxn(db: Db, r: Request): Result<Txn>
    requires r.CreateNode?
  {
    var wp := if r.kindCode == 1 then Some(Planned) else None;
    var row := Node(r.project, r.parent, KindStr(r.kindCode), r.title, r.description, r.condition,
                    r.note, r.reference, Open, wp, r.position);
    var inserted :- InsertNode(db, r.minted, row, false);
    LogAndRecord(inserted, r.project, r.minted, NodeCreated, r.meta, CreatedNode(r.minted, r.title),
                 r.minted, {r.minted})
  }

  /** The masked columns, left to right; an unknown name or a CHECK failure stops it. */
  function ApplyMask(row: Node, r: Request, mask: seq<MaskField>): Result<Node>
    requires r.UpdateNode?
    decreases |mask|
  {
    if mask == [] then Success(row) else
    var next :- match mask[0]
      case MaskTitle => Success(row.(title := r.title))
      case MaskDescription => Success(row.(description := r.description))
      case MaskCondition => Success(row.(condition := r.condition))
      case MaskPosition => Success(row.(position := r.position))
      case MaskReference => Success(row.(reference := r.reference))
      case MaskNote => Success(row.(note := r.note))
      case MaskWpState =>
        if RowCheck(row.(wp := WpStr(r.wpCode))) then Success(row.(wp := WpStr(r.wpCode)))
        else Failure(Internal)
      case MaskUnknown => Failure(InvalidArgument);
    ApplyMask(next, r, mask[1..])
  }

  function UpdateNodeTxn(db: Db, r: Request, project: Id): Result<Txn>
    requires r.UpdateNode? && r.node in db.nodes
  {
    var row :- ApplyMask(db.nodes[r.node], r, r.mask);
    LogAndRecord(SetRow(db, r.node, row), project, r.node, NodeUpdated, r.meta, NoPayload, NO_ID, {r.node})
  }

  function DeletedPayload(id: Id): Payload {
    DeletedNode(map[IdField := JId(id)])
  }

  /** One delete event per descendant, in the given order. */
  function LogDeletes(t: Txn, project: Id, author: string, ids: seq<Id>): Result<Txn>
    decreases |ids|
  {
    if ids == [] then Success(t) else
    var logged :- AppendEvent(t.db, project, NO_ID, NodeDeleted, author, DeletedPayload(ids[0]));
    LogDeletes(t.(db := logged, events := t.events + [LastEvent(logged)]), project, author, ids[1..])
  }

  /** Dependents outside the subtree. */
  function ExternalDependents(db: Db, sub: set<Id>): set<Id> {
    set e | e in db.deps && e.blocker in sub && e.blocked !in sub :: e.blocked
  }

  /** The delete events of a subtree, the root's own last with its whole row kept. */
  function LogSubtree(t: Txn, r: Request, project: Id, below: seq<Id>, kept: JsonObject): Result<Txn>
    requires r.DeleteNode?
  {
    var logged :- LogDeletes(t, project, r.meta.author, below);
    var rooted :- AppendEvent(logged.db, project, NO_ID, NodeDeleted, r.meta.author, DeletedNode(kept));
    Success(Txn(Record(rooted, project, r.meta.key, rooted.lastSeq, NO_ID),
                logged.events + [LastEvent(rooted)], logged.affected))
  }

  function DeleteNodeTxn(db: Db, r: Request, project: Id): Result<Txn>
    requires r.DeleteNode? && r.node in db.nodes
  {
    var sub := Subtree(db.nodes, r.node);
    LogSubtree(Txn(DropNode(db, r.node), [], ExternalDependents(db, sub)), r, project,
               Rows(sub - {r.node}), NodeBeforeJson(r.node, db.nodes[r.node]))
  }

  function SetStatusTxn(db: Db, r: Request, project: Id): Result<Txn>
    requires r.SetStatus? && r.node in db.nodes
  {
    var declared := DeclaredStr(r.declaredCode);
    LogAndRecord(SetDeclared(db, r.node, declared), project, r.node, StatusSet, r.meta,
                 StatusChange(db.nodes[r.node].declared, declared), NO_ID,
                 {r.node} + Downstream(db, r.node))
  }

  function AddDependencyTxn(db: Db, r: Request, project: Id): Result<Txn>
    requires r.AddDependency?
  {
    var linked :- InsertEdge(db, Edge(r.blocker, r.blocked));
    LogAndRecord(linked, project, NO_ID, DepAdded, r.meta, EdgeEnds(r.blocker, r.blocked), NO_ID,
                 {r.blocked})
  }

  function RemoveDependencyTxn(db: Db, r: Request, project: Id): Result<Txn>
    requires r.RemoveDependency?
  {
    LogAndRecord(DropEdge(db, Edge(r.blocker, r.blocked)), project, NO_ID, DepRemoved, r.meta,
                 EdgeEnds(r.blocker, r.blocked), NO_ID, {r.blocked})
  }

  function VerificationAt(db: Db, id: Id): Verification {
    if id in db.verifs then db.verifs[id] else Verification(None, "", "", None)
  }

  function SetVerification(db: Db, id: Id, v: Verification): Db {
    db.(verifs := db.verifs[id := v])
  }

  function ReportTxn(db: Db, r: Request, project: Id): Result<Txn>
    requires r.ReportCondition? && r.node in db.nodes
  {
    var result := if r.resultCode == 1 then Pass else Fail;
    var v := VerificationAt(db, r.node).(agent := Some(result), agentName := r.meta.author, detail := r.detail);
    LogAndRecord(SetVerification(db, r.node, v), project, r.node, AgentReported, r.meta,
                 Report(result, r.detail), NO_ID, {r.node})
  }

  /** Clearing a verdict is an UPDATE: it makes no row where there is none. */
  function RuleOn(db: Db, node: Id, verdictCode: int): Db {
    var v := VerificationAt(db, node);
    if verdictCode == 1 then SetVerification(db, node, v.(human := Some(Accepted)))
    else if verdictCode == 2 then SetVerification(db, node, v.(human := Some(Rejected)))
    else if node in db.verifs then SetVerification(db, node, v.(human := None))
    else db
  }

  function VerdictTxn(db: Db, r: Request, project: Id): Result<Txn>
    requires r.SetVerdict?
  {
    LogAndRecord(RuleOn(db, r.node, r.verdictCode), project, r.node, VerdictSet, r.meta, NoPayload, NO_ID, {r.node})
  }

  function CommentTxn(db: Db, r: Request, project: Id): Result<Txn>
    requires r.AddComment? && r.node in db.nodes
  {
    LogAndRecord(db, project, r.node, Comment, r.meta, CommentText(r.text), NO_ID, {r.node})
  }

  /** The tables, the reported nodes, and the kind and node of the event that an undo of
      `ev` leaves, before that event is written. */
  datatype Reversal = Reversal(db: Db, affected: set<Id>, kind: EventKind, node: Id)

  function Reverse(db: Db, ev: Event): Result<Reversal> {
    match ev.kind
    case StatusSet =>
      var before := if ev.payload.StatusChange? then ev.payload.before else Open;
      Success(Reversal(SetDeclared(db, ev.node, before), Downstream(db, ev.node), StatusSet, ev.node))
    case DepAdded =>
      if !ev.payload.EdgeEnds? then Failure(Internal)
      else Success(Reversal(DropEdge(db, Edge(ev.payload.blocker, ev.payload.blocked)),
                            {ev.payload.blocked}, DepRemoved, ev.node))
    case DepRemoved =>
      if !ev.payload.EdgeEnds? then Failure(Internal)
      else
        var linked :- InsertEdge(db, Edge(ev.payload.blocker, ev.payload.blocked));
        Success(Reversal(linked, {ev.payload.blocked}, DepAdded, ev.node))
    case NodeCreated =>
      Success(Reversal(DropNode(db, ev.node), {}, NodeDeleted, NO_ID))
    case NodeDeleted =>
      if !ev.payload.DeletedNode? then Failure(FailedPrecondition)
      else
        var restored :- RestoreNode(db, ev.payload.beforeObject);
        Success(Reversal(restored, Downstream(restored, ev.node), NodeCreated, ev.node))
    case _ => Failure(FailedPrecondition)
  }

  function UndoTxn(db: Db, r: Request, ev: Event): Result<Txn>
    requires r.Undo?
  {
    var rev :- Reverse(db, ev);
    LogAndRecord(rev.db, ev.project, rev.node, rev.kind, r.meta, NoPayload, NO_ID, rev.affected)
  }

  /** The event to undo: the one numbered seqno, or the project's newest when seqno is not
      positive. Sequence numbers are unique, so looking from the newest finds it. */
  function FindEvent(events: seq<Event>, project: Id, seqno: int): Option<Event> {
    if events == [] then None else
    var e := events[|events| - 1];
    if e.project == project && (seqno <= 0 || e.seqno == seqno) then Some(e)
    else FindEvent(events[..|events| - 1], project, seqno)
  }

  /** One step of a demoted task goes: its dependents are collected, the step is deleted,
      the delete is logged. */
  function DropStep(t: Txn, project: Id, author: string, id: Id): Result<Txn> {
    var logged :- AppendEvent(DropNode(t.db, id), project, NO_ID, NodeDeleted, author, DeletedPayload(id));
    Success(Txn(logged, t.events + [LastEvent(logged)], t.affected + Downstream(t.db, id)))
  }

  function DropSteps(t: Txn, project: Id, author: string, ids: seq<Id>): Result<Txn>
    decreases |ids|
  {
    if ids == [] then Success(t) else
    var next :- DropStep(t, project, author, ids[0]);
    DropSteps(next, project, author, ids[1..])
  }

  function MaxPosition(nodes: map<Id, Node>, ids: seq<Id>): Option<int>
    requires forall i :: 0 <= i < |ids| ==> ids[i] in nodes
    decreases |ids|
  {
    if ids == [] then None else
    var rest := MaxPosition(nodes, ids[1..]);
    if rest.None? || rest.value < nodes[ids[0]].position then Some(nodes[ids[0]].position) else rest
  }

  /** The rows whose parent_id is this parent; none equals NULL. */
  function Siblings(nodes: map<Id, Node>, parent: Id): (ids: seq<Id>)
    ensures forall i :: 0 <= i < |ids| ==> ids[i] in nodes
    ensures forall x :: x in ids <==> x in nodes && nodes[x].parent == parent && parent != NO_ID
  {
    var siblings := if parent == NO_ID then {} else Children(nodes, {parent});
    RowsListEach(siblings);
    Rows(siblings)
  }

  /** COALESCE(MAX(position), 0) + 100 over the new siblings, cut to 32 bits. */
  function NextPosition(nodes: map<Id, Node>, parent: Id): Int32 {
    var top := MaxPosition(nodes, Siblings(nodes, parent));
    Wrap32((if top.Some? then top.value else 0) + 100)
  }

  /** First part of a move: a demoted task loses its steps. */
  function MoveDrop(db: Db, r: Request, project: Id): Result<Txn>
    requires r.MoveNode? && r.node in db.nodes
  {
    var start := Txn(db, [], {r.node});
    if db.nodes[r.node].kind == Task && r.kindCode == 3
    then DropSteps(start, project, r.meta.author, Rows(Children(db.nodes, {r.node})))
    else Success(start)
  }

  /** Second part: a kind change takes the verification with it. */
  function MoveClear(db: Db, r: Request, was: Node): Db
    requires r.MoveNode?
  {
    if KindCode(was.kind) != r.kindCode then db.(verifs := db.verifs - {r.node}) else db
  }

  /** Third part: the node takes its new place at the end of its new siblings. */
  function MovePlace(t: Txn, r: Request, was: Node, project: Id): Result<Txn>
    requires r.MoveNode?
  {
    if r.node !in t.db.nodes then Failure(Internal) else
    var kind := KindStr(r.kindCode);
    var placed :- PlaceNode(t.db, r.node, r.parent, kind, NextPosition(t.db.nodes, r.parent));
    var logged :- AppendEvent(placed, project, r.node, NodeUpdated, r.meta.author,
                              Moved(was.parent, was.kind, r.parent, kind));
    Success(Txn(Record(logged, project, r.meta.key, logged.lastSeq, NO_ID),
                t.events + [LastEvent(logged)], t.affected))
  }

  function MoveNodeTxn(db: Db, r: Request, project: Id): Result<Txn>
    requires r.MoveNode? && r.node in db.nodes
  {
    var was := db.nodes[r.node];
    var dropped :- MoveDrop(db, r, project);
    MovePlace(dropped.(db := MoveClear(dropped.db, r, was)), r, was, project)
  }

  function KindCode(kind: Kind): int {
    match kind case WorkPackage => 1 case Task => 2 case Step => 3
  }

  // ---- requests -------------------------------------------------------------------

  /** What the store does with a request: refuse it, answer it from the ledger, or commit. */
  datatype Verdict =
    | Reject(code: Code)
    | Replay(seqno: int, entity: Id)
    | Commit(project: Id, txn: Txn)

  function FromTxn(project: Id, t: Result<Txn>): Verdict {
    match t
    case Success(txn) => Commit(project, txn)
    case Failure(code) => Reject(code)
  }

  /** The ledger scope of a request, if its target exists. */
  function ScopeOf(db: Db, r: Request): Option<Id> {
    match r
    case CreateProject(_, _) => Some(NO_ID)
    case CreateNode(_, _, project, _, _, _, _, _, _, _, _) => Some(project)
    case AddDependency(_, blocker, _) => Some(if blocker in db.nodes then db.nodes[blocker].project else NO_ID)
    case RemoveDependency(_, blocker, _) => Some(if blocker in db.nodes then db.nodes[blocker].project else NO_ID)
    case Undo(_, project, seqno) =>
      (match FindEvent(db.events, project, seqno) case Some(e) => Some(e.project) case None => None)
    case _ => if r.node in db.nodes then Some(db.nodes[r.node].project) else None
  }

  /** The checks between the ledger and the transaction. */
  function Precheck(db: Db, r: Request): Option<Code>
    requires ScopeOf(db, r).Some?
  {
    match r
    case UpdateNode(_, _, mask, _, _, _, _, _, _, _) => if mask == [] then Some(InvalidArgument) else None
    case DeleteNode(_, node, failIfReferenced) =>
      if failIfReferenced && exists e :: e in db.deps && (e.blocker == node || e.blocked == node)
      then Some(FailedPrecondition) else None
    case ReportCondition(_, _, resultCode, _) =>
      if resultCode == 1 || resultCode == 2 then None else Some(InvalidArgument)
    case MoveNode(_, node, parent, kindCode) =>
      if kindCode == 0 then Some(InvalidArgument)
      else if db.nodes[node].kind == WorkPackage || kindCode == 1 then Some(FailedPrecondition)
      else if parent == node then Some(FailedPrecondition)
      else None
    case _ => None
  }

  function RunTxn(db: Db, r: Request, scope: Id): Result<Txn>
    requires ScopeOf(db, r) == Some(scope)
  {
    match r
    case CreateProject(meta, minted) =>
      if minted in db.projects then Failure(Internal)
      else Success(Txn(Record(db.(projects := db.projects + {minted}), NO_ID, meta.key, 0, minted), [], {}))
    case CreateNode(_, _, _, _, _, _, _, _, _, _, _) => CreateNodeTxn(db, r)
    case UpdateNode(_, _, _, _, _, _, _, _, _, _) => UpdateNodeTxn(db, r, scope)
    case DeleteNode(_, _, _) => DeleteNodeTxn(db, r, scope)
    case SetStatus(_, _, _) => SetStatusTxn(db, r, scope)
    case AddDependency(_, _, _) => AddDependencyTxn(db, r, scope)
    case RemoveDependency(_, _, _) => RemoveDependencyTxn(db, r, scope)
    case ReportCondition(_, _, _, _) => ReportTxn(db, r, scope)
    case SetVerdict(_, _, _) => VerdictTxn(db, r, scope)
    case AddComment(_, _, _) => CommentTxn(db, r, scope)
    case Undo(_, project, seqno) => UndoTxn(db, r, FindEvent(db.events, project, seqno).value)
    case MoveNode(_, _, _, _) => MoveNodeTxn(db, r, scope)
  }

  function Decide(db: Db, r: Request): Verdict {
    match ScopeOf(db, r)
    case None => Reject(if r.Undo? then Internal else NotFound)
    case Some(scope) =>
      match LedgerHit(db, scope, r.meta.key)
      case Some(hit) =>
        if r.CreateProject? && hit.entity !in db.projects
        then FromTxn(scope, RunTxn(db, r, scope))
        else Replay(hit.seqno, if r.CreateNode? || r.CreateProject? then hit.entity else NO_ID)
      case None =>
        match Precheck(db, r)
        case Some(code) => Reject(code)
        case None => FromTxn(scope, RunTxn(db, r, scope))
  }

  /** The answer built from a decision, read from the tables after the commit. */
  function Finish(db: Db, project: Id, txn: Txn): Mutation {
    Mutation(txn.events,
             map id | id in txn.affected && id in db.nodes :: ViewOf(db, id),
             ProgressFor(db.nodes, db.deps, project),
             if txn.events == [] then 0 else txn.events[|txn.events| - 1].seqno,
             NO_ID)
  }

  function Replayed(db: Db, seqno: int, entity: Id): Mutation {
    Mutation([], if entity in db.nodes then map[entity := ViewOf(db, entity)] else map[], map[], seqno, NO_ID)
  }

  /** Creating a project answers with the project, and nothing else. */
  function Created(seqno: int, project: Id): Mutation {
    Mutation([], map[], map[], seqno, project)
  }

  /** One request against the store. */
  function Apply(db: Db, r: Request): (Db, Result<Mutation>) {
    match Decide(db, r)
    case Reject(code) => (db, Failure(code))
    case Replay(seqno, entity) =>
      (db, Success(if r.CreateProject? then Created(seqno, entity) else Replayed(db, seqno, entity)))
    case Commit(project, txn) =>
      (txn.db, Success(if r.CreateProject? then Created(0, r.minted) else Finish(txn.db, project, txn)))
  }
}
