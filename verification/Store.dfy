/** The store itself: tables updated in place, one transaction per mutation, rolled back on
    error. Every method is held to `Engine.Apply`. */
module Store {
  import opened FlowTypes
  import opened Graph
  import opened Forest
  import opened Status
  import opened Engine

  class SqliteStore {
    var projects: set<Id>
    var nodes: map<Id, Node>
    var deps: set<Edge>
    var verifs: map<Id, Verification>
    var events: seq<Event>
    var ledger: map<LedgerKey, LedgerRow>
    var lastSeq: int

    /** The tables as one value. */
    function State(): Db
      reads this
    {
      Db(projects, nodes, deps, verifs, events, ledger, lastSeq)
    }

    constructor ()
      ensures State() == Db({}, map[], {}, map[], [], map[], 0)
    {
      projects, nodes, deps, verifs := {}, map[], {}, map[];
      events, ledger, lastSeq := [], map[], 0;
    }

    // ---- statements ---------------------------------------------------------------

    /** ROLLBACK to the state at BEGIN. */
    method Rollback(saved: Db)
      modifies this
      ensures State() == saved
    {
      projects, nodes, deps, verifs := saved.projects, saved.nodes, saved.deps, saved.verifs;
      events, ledger, lastSeq := saved.events, saved.ledger, saved.lastSeq;
    }

    method ExecInsertNode(id: Id, row: Node, orIgnore: bool) returns (failed: Option<Code>)
      modifies this`nodes
      ensures match InsertNode(old(State()), id, row, orIgnore)
              case Success(db) => failed == None && State() == db
              case Failure(code) => failed == Some(code) && State() == old(State())
    {
      if row.parent != NO_ID && KindOf(nodes, row.parent) != ParentKindFor(row.kind) {
        return Some(FailedPrecondition);
      }
      if !RowCheck(row) || id in nodes {
        return if orIgnore then None else Some(Internal);
      }
      if row.project !in projects || (row.parent != NO_ID && row.parent !in nodes) {
        return Some(Internal);
      }
      nodes := nodes[id := row];
      return None;
    }

    method ExecPlaceNode(id: Id, parent: Id, kind: Kind, position: Int32) returns (failed: Option<Code>)
      requires id in nodes
      modifies this`nodes
      ensures match PlaceNode(old(State()), id, parent, kind, position)
              case Success(db) => failed == None && State() == db
              case Failure(code) => failed == Some(code) && State() == old(State())
    {
      if parent == id {
        return Some(FailedPrecondition);
      }
      if parent != NO_ID && KindOf(nodes, parent) != ParentKindFor(kind) {
        return Some(FailedPrecondition);
      }
      if parent != NO_ID && parent in nodes && nodes[parent].project != nodes[id].project {
        return Some(FailedPrecondition);
      }
      if exists c :: c in nodes && nodes[c].parent == id && Some(nodes[c].kind) != ChildKindFor(kind) {
        return Some(FailedPrecondition);
      }
      var row := nodes[id].(parent := parent, kind := kind, position := position);
      if !RowCheck(row) {
        return Some(Internal);
      }
      nodes := nodes[id := row];
      return None;
    }

    /** DELETE FROM nodes, and everything the foreign keys cascade to. */
    method ExecDropNode(id: Id)
      modifies this`nodes, this`deps, this`verifs, this`events
      ensures State() == DropNode(old(State()), id)
    {
      if id in nodes {
        var dead := Subtree(nodes, id);
        nodes := nodes - dead;
        deps := EdgesOutside(deps, dead);
        verifs := verifs - dead;
        events := EventsOutside(events, dead);
      }
    }

    method ExecInsertEdge(e: Edge) returns (failed: Option<Code>)
      modifies this`deps
      ensures match InsertEdge(old(State()), e)
              case Success(db) => failed == None && State() == db
              case Failure(code) => failed == Some(code) && State() == old(State())
    {
      if e.blocker in Follow(deps, {e.blocked}) {
        return Some(FailedPrecondition);
      }
      if e !in deps {
        if e.blocker !in nodes || e.blocked !in nodes {
          return Some(Internal);
        }
        deps := deps + {e};
      }
      return None;
    }

    method ExecAppendEvent(project: Id, node: Id, kind: EventKind, author: string, payload: Payload)
      returns (failed: Option<Code>)
      modifies this`events, this`lastSeq
      ensures match AppendEvent(old(State()), project, node, kind, author, payload)
              case Success(db) => failed == None && State() == db && events != []
              case Failure(code) => failed == Some(code) && State() == old(State())
    {
      if project !in projects || (node != NO_ID && node !in nodes) {
        return Some(Internal);
      }
      lastSeq := lastSeq + 1;
      events := events + [Event(lastSeq, project, node, kind, author, payload)];
      return None;
    }

    method ExecRecord(scope: Id, key: string, seqno: int, entity: Id)
      modifies this`ledger
      ensures State() == Record(old(State()), scope, key, seqno, entity)
    {
      if key != "" && LedgerKey(scope, key) !in ledger {
        ledger := ledger[LedgerKey(scope, key) := LedgerRow(seqno, entity)];
      }
    }

    // ---- shared helpers -----------------------------------------------------------

    /** The answer to a committed mutation: each affected node that still exists, once. */
    method FinishMutation(project: Id, evs: seq<Event>, affected: seq<Id>) returns (m: Mutation)
      ensures m == Finish(State(), project, Txn(State(), evs, set x | x in affected))
    {
      var seen: set<Id> := {};
      var changed: map<Id, NodeView> := map[];
      for i := 0 to |affected|
        invariant seen == set x | x in affected[..i]
        invariant changed == map x | x in seen && x in nodes :: ViewOf(State(), x)
      {
        var id := affected[i];
        assert affected[..i + 1] == affected[..i] + [id];
        if id !in seen {
          seen := seen + {id};
          if id in nodes {
            changed := changed[id := ViewOf(State(), id)];
          }
        }
      }
      assert affected[..|affected|] == affected;
      m := Mutation(evs, changed, ProgressFor(nodes, deps, project),
                    if evs == [] then 0 else evs[|evs| - 1].seqno, NO_ID);
    }

    /** The end of a single-event transaction: log, record, commit, answer; or roll back. */
    method LogAndFinish(saved: Db, project: Id, node: Id, kind: EventKind, meta: Meta, payload: Payload,
                        entity: Id, affected: seq<Id>) returns (out: Result<Mutation>)
      modifies this
      ensures match LogAndRecord(old(State()), project, node, kind, meta, payload, entity, set x | x in affected)
              case Success(t) => State() == t.db && out == Success(Finish(t.db, project, t))
              case Failure(code) => State() == saved && out == Failure(code)
    {
      var failed := ExecAppendEvent(project, node, kind, meta.author, payload);
      if failed.Some? {
        Rollback(saved);
        return Failure(failed.value);
      }
      var ev := events[|events| - 1];
      ExecRecord(project, meta.key, lastSeq, entity);
      var m := FinishMutation(project, [ev], affected);
      return Success(m);
    }

    /** The rows of an unordered query, each once. */
    method QueryIds(s: set<Id>) returns (ids: seq<Id>)
      ensures ids == Rows(s) && s == set x | x in ids
    {
      ids := Rows(s);
      RowsListEach(s);
    }

    // ---- mutations ----------------------------------------------------------------

    method CreateNode(r: Request) returns (out: Result<Mutation>)
      requires r.CreateNode?
      modifies this
      ensures (State(), out) == Apply(old(State()), r)
    {
      var saved := State();
      var hit := LedgerHit(saved, r.project, r.meta.key);
      if hit.Some? {
        return Success(Replayed(saved, hit.value.seqno, hit.value.entity));
      }
      var wp := if r.kindCode == 1 then Some(Planned) else None;
      var row := Node(r.project, r.parent, KindStr(r.kindCode), r.title, r.description, r.condition,
                      r.note, r.reference, Open, wp, r.position);
      var failed := ExecInsertNode(r.minted, row, false);
      if failed.Some? {
        return Failure(failed.value);
      }
      assert {r.minted} == set x | x in [r.minted];
      out := LogAndFinish(saved, r.project, r.minted, NodeCreated, r.meta, CreatedNode(r.minted, r.title),
                          r.minted, [r.minted]);
    }

    method UpdateNode(r: Request) returns (out: Result<Mutation>)
      requires r.UpdateNode?
      modifies this
      ensures (State(), out) == Apply(old(State()), r)
      ensures out.Failure? ==> State() == old(State())
    {
      if r.node !in nodes {
        return Failure(NotFound);
      }
      var saved := State();
      var project := nodes[r.node].project;
      var hit := LedgerHit(saved, project, r.meta.key);
      if hit.Some? {
        return Success(Replayed(saved, hit.value.seqno, NO_ID));
      }
      if r.mask == [] {
        return Failure(InvalidArgument);
      }
      for i := 0 to |r.mask|
        invariant r.node in nodes && State() == SetRow(saved, r.node, nodes[r.node])
        invariant ApplyMask(saved.nodes[r.node], r, r.mask) == ApplyMask(nodes[r.node], r, r.mask[i..])
      {
        assert r.mask[i..][1..] == r.mask[i + 1..];
        var row := nodes[r.node];
        match r.mask[i] {
          case MaskTitle => row := row.(title := r.title);
          case MaskDescription => row := row.(description := r.description);
          case MaskCondition => row := row.(condition := r.condition);
          case MaskPosition => row := row.(position := r.position);
          case MaskReference => row := row.(reference := r.reference);
          case MaskNote => row := row.(note := r.note);
          case MaskWpState =>
            row := row.(wp := WpStr(r.wpCode));
            if !RowCheck(row) {
              Rollback(saved);
              return Failure(Internal);
            }
          case MaskUnknown =>
            Rollback(saved);
            return Failure(InvalidArgument);
        }
        nodes := nodes[r.node := row];
      }
      assert r.mask[|r.mask|..] == [];
      assert {r.node} == set x | x in [r.node];
      out := LogAndFinish(saved, project, r.node, NodeUpdated, r.meta, NoPayload, NO_ID, [r.node]);
    }

    method DeleteNode(r: Request) returns (out: Result<Mutation>)
      requires r.DeleteNode?
      modifies this
      ensures (State(), out) == Apply(old(State()), r)
    {
      if r.node !in nodes {
        return Failure(NotFound);
      }
      var saved := State();
      var project := nodes[r.node].project;
      var hit := LedgerHit(saved, project, r.meta.key);
      if hit.Some? {
        return Success(Replayed(saved, hit.value.seqno, NO_ID));
      }
      if r.failIfReferenced && exists e :: e in deps && (e.blocker == r.node || e.blocked == r.node) {
        return Failure(FailedPrecondition);
      }
      var before := NodeBeforeJson(r.node, nodes[r.node]);
      var sub := Subtree(nodes, r.node);
      var dependents := QueryIds(ExternalDependents(saved, sub));
      var descendants := QueryIds(sub - {r.node});
      ExecDropNode(r.node);
      var failed, evs := LogWholeSubtree(r, project, descendants, before, ExternalDependents(saved, sub));
      if failed.Some? {
        Rollback(saved);
        return Failure(failed.value);
      }
      var m := FinishMutation(project, evs, dependents);
      return Success(m);
    }

    /** The delete events, the root's own last with its whole row, and the ledger entry. */
    method LogWholeSubtree(r: Request, project: Id, below: seq<Id>, before: JsonObject, ghost reported: set<Id>)
      returns (failed: Option<Code>, evs: seq<Event>)
      requires r.DeleteNode?
      modifies this
      ensures match LogSubtree(Txn(old(State()), [], reported), r, project, below, before)
              case Success(t) => failed == None && t == Txn(State(), evs, reported)
              case Failure(code) => failed == Some(code)
    {
      failed, evs := LogDescendants(project, r.meta.author, below, reported);
      if failed.Some? {
        return;
      }
      failed := ExecAppendEvent(project, NO_ID, NodeDeleted, r.meta.author, DeletedNode(before));
      if failed.Some? {
        return;
      }
      evs := evs + [events[|events| - 1]];
      ExecRecord(project, r.meta.key, lastSeq, NO_ID);
    }

    /** One event for each node below the deleted one, carrying only its id. */
    method LogDescendants(project: Id, author: string, ids: seq<Id>, ghost reported: set<Id>)
      returns (failed: Option<Code>, evs: seq<Event>)
      modifies this`events, this`lastSeq
      ensures match LogDeletes(Txn(old(State()), [], reported), project, author, ids)
              case Success(t) => failed == None && t == Txn(State(), evs, reported)
              case Failure(code) => failed == Some(code)
    {
      evs := [];
      ghost var start := Txn(State(), [], reported);
      for i := 0 to |ids|
        invariant LogDeletes(start, project, author, ids)
                  == LogDeletes(Txn(State(), evs, reported), project, author, ids[i..])
      {
        assert ids[i..][1..] == ids[i + 1..];
        failed := ExecAppendEvent(project, NO_ID, NodeDeleted, author, DeletedPayload(ids[i]));
        if failed.Some? {
          return;
        }
        evs := evs + [events[|events| - 1]];
      }
      failed := None;
      assert ids[|ids|..] == [];
    }

    method SetStatus(r: Request) returns (out: Result<Mutation>)
      requires r.SetStatus?
      modifies this
      ensures (State(), out) == Apply(old(State()), r)
    {
      if r.node !in nodes {
        return Failure(NotFound);
      }
      var saved := State();
      var project := nodes[r.node].project;
      var hit := LedgerHit(saved, project, r.meta.key);
      if hit.Some? {
        return Success(Replayed(saved, hit.value.seqno, NO_ID));
      }
      var before := nodes[r.node].declared;
      var after := DeclaredStr(r.declaredCode);
      var dependents := QueryIds(Downstream(saved, r.node));
      nodes := nodes[r.node := nodes[r.node].(declared := after)];
      var affected := [r.node] + dependents;
      assert {r.node} + Downstream(saved, r.node) == set x | x in affected;
      out := LogAndFinish(saved, project, r.node, StatusSet, r.meta, StatusChange(before, after), NO_ID, affected);
    }

    /** The project that owns a node, or the empty scope. */
    function ProjectOf(id: Id): Id
      reads this
    {
      if id in nodes then nodes[id].project else NO_ID
    }

    method AddDependency(r: Request) returns (out: Result<Mutation>)
      requires r.AddDependency?
      modifies this
      ensures (State(), out) == Apply(old(State()), r)
    {
      var saved := State();
      var project := ProjectOf(r.blocker);
      var hit := LedgerHit(saved, project, r.meta.key);
      if hit.Some? {
        return Success(Replayed(saved, hit.value.seqno, NO_ID));
      }
      var failed := ExecInsertEdge(Edge(r.blocker, r.blocked));
      if failed.Some? {
        return Failure(failed.value);
      }
      assert {r.blocked} == set x | x in [r.blocked];
      out := LogAndFinish(saved, project, NO_ID, DepAdded, r.meta, EdgeEnds(r.blocker, r.blocked), NO_ID, [r.blocked]);
    }

    method RemoveDependency(r: Request) returns (out: Result<Mutation>)
      requires r.RemoveDependency?
      modifies this
      ensures (State(), out) == Apply(old(State()), r)
    {
      var saved := State();
      var project := ProjectOf(r.blocker);
      var hit := LedgerHit(saved, project, r.meta.key);
      if hit.Some? {
        return Success(Replayed(saved, hit.value.seqno, NO_ID));
      }
      deps := deps - {Edge(r.blocker, r.blocked)};
      assert {r.blocked} == set x | x in [r.blocked];
      out := LogAndFinish(saved, project, NO_ID, DepRemoved, r.meta, EdgeEnds(r.blocker, r.blocked), NO_ID, [r.blocked]);
    }

    method ReportCondition(r: Request) returns (out: Result<Mutation>)
      requires r.ReportCondition?
      modifies this
      ensures (State(), out) == Apply(old(State()), r)
    {
      if r.node !in nodes {
        return Failure(NotFound);
      }
      var saved := State();
      var project := nodes[r.node].project;
      var hit := LedgerHit(saved, project, r.meta.key);
      if hit.Some? {
        return Success(Replayed(saved, hit.value.seqno, NO_ID));
      }
      if r.resultCode != 1 && r.resultCode != 2 {
        return Failure(InvalidArgument);
      }
      var result := if r.resultCode == 1 then Pass else Fail;
      var v := VerificationAt(saved, r.node);
      verifs := verifs[r.node := v.(agent := Some(result), agentName := r.meta.author, detail := r.detail)];
      assert {r.node} == set x | x in [r.node];
      out := LogAndFinish(saved, project, r.node, AgentReported, r.meta, Report(result, r.detail), NO_ID, [r.node]);
    }

    method SetVerdict(r: Request) returns (out: Result<Mutation>)
      requires r.SetVerdict?
      modifies this
      ensures (State(), out) == Apply(old(State()), r)
    {
      if r.node !in nodes {
        return Failure(NotFound);
      }
      var saved := State();
      var project := nodes[r.node].project;
      var hit := LedgerHit(saved, project, r.meta.key);
      if hit.Some? {
        return Success(Replayed(saved, hit.value.seqno, NO_ID));
      }
      var v := VerificationAt(saved, r.node);
      if r.verdictCode == 1 {
        verifs := verifs[r.node := v.(human := Some(Accepted))];
      } else if r.verdictCode == 2 {
        verifs := verifs[r.node := v.(human := Some(Rejected))];
      } else if r.node in verifs {
        verifs := verifs[r.node := v.(human := None)];
      }
      assert {r.node} == set x | x in [r.node];
      out := LogAndFinish(saved, project, r.node, VerdictSet, r.meta, NoPayload, NO_ID, [r.node]);
    }

    method AddComment(r: Request) returns (out: Result<Mutation>)
      requires r.AddComment?
      modifies this
      ensures (State(), out) == Apply(old(State()), r)
    {
      if r.node !in nodes {
        return Failure(NotFound);
      }
      var saved := State();
      var project := nodes[r.node].project;
      var hit := LedgerHit(saved, project, r.meta.key);
      if hit.Some? {
        return Success(Replayed(saved, hit.value.seqno, NO_ID));
      }
      assert {r.node} == set x | x in [r.node];
      out := LogAndFinish(saved, project, r.node, Comment, r.meta, CommentText(r.text), NO_ID, [r.node]);
    }

    /** The statement that reverses one event, and the event to log for it. */
    method ExecReverse(ev: Event) returns (failed: Option<Code>, affected: seq<Id>, kind: EventKind, node: Id)
      modifies this
      ensures match Reverse(old(State()), ev)
              case Success(rev) =>
                failed == None && State() == rev.db && rev.affected == (set x | x in affected)
                && kind == rev.kind && node == rev.node
              case Failure(code) => failed == Some(code)
    {
      failed, affected, kind, node := None, [], ev.kind, ev.node;
      match ev.kind {
        case StatusSet =>
          var before := if ev.payload.StatusChange? then ev.payload.before else Open;
          affected := QueryIds(Downstream(State(), ev.node));
          if ev.node in nodes {
            nodes := nodes[ev.node := nodes[ev.node].(declared := before)];
          }
        case DepAdded =>
          if !ev.payload.EdgeEnds? {
            failed := Some(Internal);
          } else {
            deps := deps - {Edge(ev.payload.blocker, ev.payload.blocked)};
            affected, kind := [ev.payload.blocked], DepRemoved;
            assert {ev.payload.blocked} == set x | x in affected;
          }
        case DepRemoved =>
          if !ev.payload.EdgeEnds? {
            failed := Some(Internal);
          } else {
            failed := ExecInsertEdge(Edge(ev.payload.blocker, ev.payload.blocked));
            affected, kind := [ev.payload.blocked], DepAdded;
            assert {ev.payload.blocked} == set x | x in affected;
          }
        case NodeCreated =>
          ExecDropNode(ev.node);
          kind, node := NodeDeleted, NO_ID;
          assert {} == set x | x in affected;
        case NodeDeleted =>
          if !ev.payload.DeletedNode? {
            failed := Some(FailedPrecondition);
          } else {
            failed := ExecRestore(ev.payload.beforeObject);
            affected := QueryIds(Downstream(State(), ev.node));
            kind := NodeCreated;
          }
        case _ => failed := Some(FailedPrecondition);
      }
    }

    /** Re-insert the row a delete event kept. */
    method ExecRestore(obj: JsonObject) returns (failed: Option<Code>)
      modifies this`nodes
      ensures match RestoreNode(old(State()), obj)
              case Success(db) => failed == None && State() == db
              case Failure(code) => failed == Some(code) && State() == old(State())
    {
      if KindField !in obj || !obj[KindField].JKind? {
        return None;
      }
      var kind := obj[KindField].kind;
      var wp := if kind == WorkPackage && WpStateField in obj && obj[WpStateField].JWpState?
                then Some(obj[WpStateField].wp) else None;
      var declared := if DeclaredField in obj && obj[DeclaredField].JDeclared?
                      then obj[DeclaredField].declared else Open;
      var position := if PositionField in obj && obj[PositionField].JInt?
                      then Wrap32(obj[PositionField].n) else 0;
      var row := Node(IdAt(obj, ProjectField), IdAt(obj, ParentField), kind,
                      TextAt(obj, TitleField), TextAt(obj, DescriptionField), TextAt(obj, ConditionField),
                      TextAt(obj, NoteField), TextAt(obj, ReferenceField), declared, wp, position);
      failed := ExecInsertNode(IdAt(obj, IdField), row, true);
    }

    method Undo(r: Request) returns (out: Result<Mutation>)
      requires r.Undo?
      modifies this
      ensures (State(), out) == Apply(old(State()), r)
    {
      var found := FindEvent(events, r.project, r.seqno);
      if found.None? {
        return Failure(Internal);
      }
      var ev := found.value;
      var saved := State();
      var hit := LedgerHit(saved, ev.project, r.meta.key);
      if hit.Some? {
        return Success(Replayed(saved, hit.value.seqno, NO_ID));
      }
      var failed, affected, kind, node := ExecReverse(ev);
      if failed.Some? {
        Rollback(saved);
        return Failure(failed.value);
      }
      out := LogAndFinish(saved, ev.project, node, kind, r.meta, NoPayload, NO_ID, affected);
    }

    method MoveNode(r: Request) returns (out: Result<Mutation>)
      requires r.MoveNode?
      modifies this
      ensures (State(), out) == Apply(old(State()), r)
      ensures out.Failure? ==> State() == old(State())
    {
      if r.node !in nodes {
        return Failure(NotFound);
      }
      var saved := State();
      var was := nodes[r.node];
      var hit := LedgerHit(saved, was.project, r.meta.key);
      if hit.Some? {
        return Success(Replayed(saved, hit.value.seqno, NO_ID));
      }
      if r.kindCode == 0 {
        return Failure(InvalidArgument);
      }
      if was.kind == WorkPackage || r.kindCode == 1 {
        return Failure(FailedPrecondition);
      }
      if r.parent == r.node {
        return Failure(FailedPrecondition);
      }
      var failed, evs, affected := DropStepsOf(r, was);
      if failed.Some? {
        Rollback(saved);
        return Failure(failed.value);
      }
      if KindCode(was.kind) != r.kindCode {
        verifs := verifs - {r.node};
      }
      out := PlaceAndFinish(saved, r, was, evs, affected);
    }

    /** A task that becomes a step loses its own steps first, one by one. */
    method DropStepsOf(r: Request, was: Node) returns (failed: Option<Code>, evs: seq<Event>, affected: seq<Id>)
      requires r.MoveNode? && r.node in nodes && was == nodes[r.node]
      modifies this
      ensures match MoveDrop(old(State()), r, was.project)
              case Success(t) =>
                failed == None && State() == t.db && evs == t.events && t.affected == (set x | x in affected)
              case Failure(code) => failed == Some(code)
    {
      failed, evs, affected := None, [], [r.node];
      assert {r.node} == set x | x in affected;
      if was.kind == Task && r.kindCode == 3 {
        var children := QueryIds(Children(nodes, {r.node}));
        ghost var start := Txn(State(), [], {r.node});
        for i := 0 to |children|
          invariant failed == None
          invariant DropSteps(start, was.project, r.meta.author, children)
                    == DropSteps(Txn(State(), evs, set x | x in affected), was.project, r.meta.author, children[i..])
        {
          assert children[i..][1..] == children[i + 1..];
          ghost var t := Txn(State(), evs, set x | x in affected);
          var dependents := QueryIds(Downstream(State(), children[i]));
          ExecDropNode(children[i]);
          failed := ExecAppendEvent(was.project, NO_ID, NodeDeleted, r.meta.author, DeletedPayload(children[i]));
          if failed.Some? {
            assert DropStep(t, was.project, r.meta.author, children[i]).Failure?;
            return;
          }
          assert (set x | x in affected + dependents) == (set x | x in affected) + (set x | x in dependents);
          affected := affected + dependents;
          evs := evs + [events[|events| - 1]];
          assert DropStep(t, was.project, r.meta.author, children[i])
                 == Success(Txn(State(), evs, set x | x in affected));
        }
        assert children[|children|..] == [];
      }
    }

    /** The node takes its place, the move is logged last. */
    method PlaceAndFinish(saved: Db, r: Request, was: Node, dropped: seq<Event>, affected: seq<Id>)
      returns (out: Result<Mutation>)
      requires r.MoveNode?
      modifies this
      ensures match MovePlace(Txn(old(State()), dropped, set x | x in affected), r, was, was.project)
              case Success(t) => State() == t.db && out == Success(Finish(t.db, was.project, t))
              case Failure(code) => State() == saved && out == Failure(code)
    {
      if r.node !in nodes {
        Rollback(saved);
        return Failure(Internal);
      }
      var kind := KindStr(r.kindCode);
      var position := NextPosition(nodes, r.parent);
      var failed := ExecPlaceNode(r.node, r.parent, kind, position);
      if failed.Some? {
        Rollback(saved);
        return Failure(failed.value);
      }
      failed := ExecAppendEvent(was.project, r.node, NodeUpdated, r.meta.author,
                                Moved(was.parent, was.kind, r.parent, kind));
      if failed.Some? {
        Rollback(saved);
        return Failure(failed.value);
      }
      var evs := dropped + [events[|events| - 1]];
      ExecRecord(was.project, r.meta.key, lastSeq, NO_ID);
      var m := FinishMutation(was.project, evs, affected);
      return Success(m);
    }

    method CreateProject(r: Request) returns (out: Result<Mutation>)
      requires r.CreateProject?
      modifies this
      ensures (State(), out) == Apply(old(State()), r)
    {
      var saved := State();
      var hit := LedgerHit(saved, NO_ID, r.meta.key);
      if hit.Some? && hit.value.entity in projects {
        return Success(Created(hit.value.seqno, hit.value.entity));
      }
      if r.minted in projects {
        return Failure(Internal);
      }
      projects := projects + {r.minted};
      ExecRecord(NO_ID, r.meta.key, 0, r.minted);
      return Success(Created(0, r.minted));
    }
  }
}
