/** What each transaction leaves in the tables, reports, and tells in its events. */
module Effects {
  import opened FlowTypes
  import opened Forest
  import opened Engine
  import opened Invariants
  import opened Delta

  // ---- the events of a transaction, as a client reads them ------------------------

  lemma OneEventReads(e: Event)
    ensures Dropped([e]) == if e.kind == NodeDeleted && e.payload.DeletedNode?
                            then {IdAt(e.payload.beforeObject, IdField)} else {}
    ensures forall kind :: EdgeEvents([e], kind)
              == if e.kind == kind && e.payload.EdgeEnds? then {Edge(e.payload.blocker, e.payload.blocked)} else {}
  {
  }

  ghost predicate OnlyDeletes(events: seq<Event>) {
    forall e :: e in events ==> e.kind == NodeDeleted && e.payload.DeletedNode?
  }

  function IdSet(ids: seq<Id>): set<Id> {
    set x | x in ids
  }

  lemma RowsIdSet(s: set<Id>)
    ensures IdSet(Rows(s)) == s
  {
    RowsListEach(s);
  }

  lemma DroppedConcat(a: seq<Event>, b: seq<Event>)
    ensures Dropped(a + b) == Dropped(a) + Dropped(b)
    ensures forall kind :: EdgeEvents(a + b, kind) == EdgeEvents(a, kind) + EdgeEvents(b, kind)
  {
  }

  lemma DeletesReadAsDeletes(events: seq<Event>)
    requires OnlyDeletes(events)
    ensures EdgeEvents(events, DepAdded) == {} && EdgeEvents(events, DepRemoved) == {}
  {
  }

  lemma {:induction false} LogDeletesEffect(t: Txn, project: Id, author: string, ids: seq<Id>)
    requires OnlyDeletes(t.events)
    ensures var r := LogDeletes(t, project, author, ids);
            r.Success? ==>
              SameTables(t, r.value) && OnlyDeletes(r.value.events)
              && Dropped(r.value.events) == Dropped(t.events) + IdSet(ids)
              && |r.value.events| == |t.events| + |ids|
    decreases |ids|
  {
    if ids != [] {
      var logged := AppendEvent(t.db, project, NO_ID, NodeDeleted, author, DeletedPayload(ids[0]));
      if logged.Success? {
        var e := LastEvent(logged.value);
        DroppedConcat(t.events, [e]);
        OneEventReads(e);
        assert IdSet(ids) == {ids[0]} + IdSet(ids[1..]);
        LogDeletesEffect(t.(db := logged.value, events := t.events + [e]), project, author, ids[1..]);
      }
    }
  }

  ghost predicate SameTables(t: Txn, u: Txn) {
    u.db.nodes == t.db.nodes && u.db.deps == t.db.deps && u.db.verifs == t.db.verifs && u.affected == t.affected
  }

  lemma LogSubtreeEffect(t: Txn, r: Request, p: Id, below: seq<Id>, kept: JsonObject)
    requires r.DeleteNode? && t.events == []
    ensures var out := LogSubtree(t, r, p, below, kept);
            out.Success? ==>
              SameTables(t, out.value) && OnlyDeletes(out.value.events)
              && Dropped(out.value.events) == IdSet(below) + {IdAt(kept, IdField)}
              && |out.value.events| == |below| + 1
  {
    LogDeletesEffect(t, p, r.meta.author, below);
    var out := LogSubtree(t, r, p, below, kept);
    if out.Success? {
      var logged := LogDeletes(t, p, r.meta.author, below).value;
      var root := out.value.events[|out.value.events| - 1];
      assert out.value.events == logged.events + [root];
      DroppedConcat(logged.events, [root]);
      OneEventReads(root);
    }
  }

  lemma {:induction false} RowsLength(s: set<Id>)
    ensures |Rows(s)| == |s|
    decreases |s|
  {
    if s != {} {
      RowsLength(s - {Least(s)});
    }
  }

  /** The same, told of the whole subtree: one event for each of its nodes. */
  lemma LogSubtreeOf(t: Txn, r: Request, p: Id, sub: set<Id>, kept: JsonObject)
    requires r.DeleteNode? && t.events == [] && r.node in sub && IdAt(kept, IdField) == r.node
    ensures var out := LogSubtree(t, r, p, Rows(sub - {r.node}), kept);
            out.Success? ==>
              SameTables(t, out.value) && OnlyDeletes(out.value.events)
              && Dropped(out.value.events) == sub && |out.value.events| == |sub|
  {
    LogSubtreeEffect(t, r, p, Rows(sub - {r.node}), kept);
    RowsLength(sub - {r.node});
    RowsIdSet(sub - {r.node});
    assert (sub - {r.node}) + {r.node} == sub;
  }

  /** What deleting n comes to: the subtree gone, with every edge touching it, one event for
      each node of it, and the outside dependents reported. */
  ghost predicate Deletion(db: Db, n: Id, t: Txn) {
    var sub := Subtree(db.nodes, n);
    t.db.nodes == db.nodes - sub && t.db.deps == EdgesOutside(db.deps, sub) && t.db.verifs == db.verifs - sub
    && t.affected == ExternalDependents(db, sub)
    && OnlyDeletes(t.events) && Dropped(t.events) == sub && |t.events| == |sub|
  }

  lemma DeleteTxnDeletes(db: Db, r: Request, p: Id)
    requires r.DeleteNode? && r.node in db.nodes
    ensures var t := DeleteNodeTxn(db, r, p); t.Success? ==> Deletion(db, r.node, t.value)
  {
    var sub := Subtree(db.nodes, r.node);
    LogSubtreeOf(Txn(DropNode(db, r.node), [], ExternalDependents(db, sub)), r, p, sub,
                 NodeBeforeJson(r.node, db.nodes[r.node]));
  }

  // ---- moves ----------------------------------------------------------------------

  lemma StepIsLeaf(nodes: map<Id, Node>, id: Id)
    requires Hierarchy(nodes) && id in nodes && nodes[id].kind == Step
    ensures Subtree(nodes, id) == {id}
  {
    assert Children(nodes, {id}) == {} by {
      forall c | c in nodes
        ensures nodes[c].parent != id
      {
        assert Placed(nodes, nodes[c]);
      }
    }
    SubtreeIsTwoLevels(nodes, id);
  }

  /** `t` is `base` without the steps `dead`, reported with their dependents. */
  ghost predicate StepsGone(base: Db, t: Txn, dead: set<Id>) {
    t.db.nodes == base.nodes - dead && t.db.deps == EdgesOutside(base.deps, dead)
    && t.db.verifs == base.verifs - dead
    && (forall e :: e in base.deps && e.blocker in dead && e.blocked !in dead ==> e.blocked in t.affected)
    && OnlyDeletes(t.events) && Dropped(t.events) == dead
  }

  function DependentsOf(db: Db, s: set<Id>): set<Id> {
    set e | e in db.deps && e.blocker in s :: e.blocked
  }

  ghost predicate Going(base: Db, t: Txn, dead: set<Id>, first: set<Id>) {
    Inv(t.db) && StepsGone(base, t, dead) && first <= t.affected <= first + DependentsOf(base, dead)
  }

  lemma DropStepDrops(t: Txn, project: Id, author: string, c: Id)
    requires Hierarchy(t.db.nodes) && c in t.db.nodes && t.db.nodes[c].kind == Step
    ensures var r := DropStep(t, project, author, c);
            r.Success? ==>
              r.value.db.nodes == t.db.nodes - {c} && r.value.db.deps == EdgesOutside(t.db.deps, {c})
              && r.value.db.verifs == t.db.verifs - {c} && r.value.affected == t.affected + Downstream(t.db, c)
              && Dropped(r.value.events) == Dropped(t.events) + {c}
              && (OnlyDeletes(t.events) ==> OnlyDeletes(r.value.events))
  {
    StepIsLeaf(t.db.nodes, c);
    var r := DropStep(t, project, author, c);
    if r.Success? {
      var e := LastEvent(r.value.db);
      DroppedConcat(t.events, [e]);
      OneEventReads(e);
    }
  }

  /** One turn of the loop. */
  lemma DropStepEffect(base: Db, t: Txn, dead: set<Id>, first: set<Id>, project: Id, author: string, c: Id)
    requires Going(base, t, dead, first)
    requires c in t.db.nodes && t.db.nodes[c].kind == Step
    ensures var r := DropStep(t, project, author, c);
            r.Success? ==> Going(base, r.value, dead + {c}, first) && r.value.db.nodes == t.db.nodes - {c}
  {
    DropStepDrops(t, project, author, c);
    DropStepKeeps(t, project, author, c);
    var r := DropStep(t, project, author, c);
    if r.Success? {
      StepsGoneNext(base, t, dead, r.value, c);
    }
  }

  ghost predicate StepsIn(nodes: map<Id, Node>, ids: seq<Id>) {
    (forall i :: 0 <= i < |ids| ==> ids[i] in nodes && nodes[ids[i]].kind == Step)
    && forall i, j :: 0 <= i < j < |ids| ==> ids[i] < ids[j]
  }

  lemma StepsInRest(nodes: map<Id, Node>, ids: seq<Id>)
    requires StepsIn(nodes, ids) && ids != []
    ensures StepsIn(nodes - {ids[0]}, ids[1..])
  {
  }

  lemma {:induction false} DropStepsEffect(base: Db, t: Txn, dead: set<Id>, first: set<Id>,
                                           project: Id, author: string, ids: seq<Id>)
    requires Going(base, t, dead, first) && StepsIn(t.db.nodes, ids)
    ensures var r := DropSteps(t, project, author, ids);
            r.Success? ==> Going(base, r.value, dead + IdSet(ids), first)
    decreases |ids|
  {
    if ids == [] {
      assert dead + IdSet(ids) == dead;
    } else {
      DropStepEffect(base, t, dead, first, project, author, ids[0]);
      var next := DropStep(t, project, author, ids[0]);
      if next.Success? {
        StepsInRest(t.db.nodes, ids);
        DropStepsEffect(base, next.value, dead + {ids[0]}, first, project, author, ids[1..]);
        IdSetSplits(dead, ids);
      }
    }
  }

  lemma IdSetSplits(dead: set<Id>, ids: seq<Id>)
    requires ids != []
    ensures dead + {ids[0]} + IdSet(ids[1..]) == dead + IdSet(ids)
  {
  }

  lemma StepsGoneNext(base: Db, t: Txn, dead: set<Id>, next: Txn, c: Id)
    requires StepsGone(base, t, dead) && c in t.db.nodes
    requires next.db.nodes == t.db.nodes - {c} && next.db.deps == EdgesOutside(t.db.deps, {c})
    requires next.db.verifs == t.db.verifs - {c} && next.affected == t.affected + Downstream(t.db, c)
    requires OnlyDeletes(next.events) && Dropped(next.events) == Dropped(t.events) + {c}
    ensures StepsGone(base, next, dead + {c})
  {
  }

  lemma MovePlaceEffect(t: Txn, r: Request, was: Node, project: Id)
    requires r.MoveNode?
    ensures var out := MovePlace(t, r, was, project);
            out.Success? ==>
              r.node in t.db.nodes && out.value.db.nodes.Keys == t.db.nodes.Keys
              && (forall x :: x in t.db.nodes && x != r.node ==> out.value.db.nodes[x] == t.db.nodes[x])
              && out.value.db.nodes[r.node].project == t.db.nodes[r.node].project
              && out.value.db.nodes[r.node].declared == t.db.nodes[r.node].declared
              && out.value.db.deps == t.db.deps && out.value.db.verifs == t.db.verifs
              && out.value.affected == t.affected && Dropped(out.value.events) == Dropped(t.events)
              && (forall kind :: EdgeEvents(out.value.events, kind) == EdgeEvents(t.events, kind))
              && (r.parent in t.db.nodes ==> t.db.nodes[r.parent].project == t.db.nodes[r.node].project
                                             || r.parent == NO_ID)
              && out.value.db.nodes[r.node].parent == r.parent
  {
    MovePlaceLogs(t, r, was, project);
  }

  /** The one event of the placing tells a client of no deletion and no edge. */
  lemma MovePlaceLogs(t: Txn, r: Request, was: Node, project: Id)
    requires r.MoveNode?
    ensures var out := MovePlace(t, r, was, project);
            out.Success? ==>
              Dropped(out.value.events) == Dropped(t.events)
              && forall kind :: EdgeEvents(out.value.events, kind) == EdgeEvents(t.events, kind)
  {
    var out := MovePlace(t, r, was, project);
    if out.Success? {
      var e := out.value.events[|out.value.events| - 1];
      assert out.value.events == t.events + [e];
      DroppedConcat(t.events, [e]);
      OneEventReads(e);
    }
  }

  /** The steps a move deletes: those of a task that becomes a step. */
  function Lost(db: Db, r: Request): set<Id>
    requires r.MoveNode? && r.node in db.nodes
  {
    if db.nodes[r.node].kind == Task && r.kindCode == 3 then Children(db.nodes, {r.node}) else {}
  }

  lemma MoveLoses(db: Db, r: Request, project: Id)
    requires Inv(db) && r.MoveNode? && r.node in db.nodes
    ensures var d := MoveDrop(db, r, project); d.Success? ==> Going(db, d.value, Lost(db, r), {r.node})
    ensures r.node !in Lost(db, r)
  {
    var start := Txn(db, [], {r.node});
    assert Placed(db.nodes, db.nodes[r.node]);
    assert db.nodes - {} == db.nodes && EdgesOutside(db.deps, {}) == db.deps && db.verifs - {} == db.verifs;
    assert Going(db, start, {}, {r.node});
    var steps := Lost(db, r);
    if db.nodes[r.node].kind == Task && r.kindCode == 3 {
      RowsListEach(steps);
      RowsIdSet(steps);
      forall c | c in steps
        ensures db.nodes[c].kind == Step
      {
        assert Placed(db.nodes, db.nodes[c]);
      }
      DropStepsEffect(db, start, {}, {r.node}, project, r.meta.author, Rows(steps));
      assert {} + steps == steps;
    }
  }

  /** What moving n comes to, with the steps `dead` lost: n keeps its project and status, its
      new parent is of its project, and what waited for a lost step is reported. */
  ghost predicate Movement(db: Db, n: Id, dead: set<Id>, t: Txn) {
    n in db.nodes && n !in dead && dead <= db.nodes.Keys && t.db.nodes.Keys == db.nodes.Keys - dead
    && (forall x :: x in t.db.nodes && x != n ==> t.db.nodes[x] == db.nodes[x])
    && t.db.nodes[n].project == db.nodes[n].project && t.db.nodes[n].declared == db.nodes[n].declared
    && (t.db.nodes[n].parent in db.nodes ==> db.nodes[t.db.nodes[n].parent].project == db.nodes[n].project)
    && t.db.deps == EdgesOutside(db.deps, dead)
    && (forall x :: x != n && x !in dead ==> (x in t.db.verifs <==> x in db.verifs))
    && (forall x :: x != n && x !in dead && x in db.verifs ==> t.db.verifs[x] == db.verifs[x])
    && (forall e :: e in db.deps && e.blocker in dead && e.blocked !in dead ==> e.blocked in t.affected)
    && {n} <= t.affected <= {n} + DependentsOf(db, dead)
    && Dropped(t.events) == dead && EdgeEvents(t.events, DepRemoved) == {} && EdgeEvents(t.events, DepAdded) == {}
  }

  lemma MoveTxnMoves(db: Db, r: Request, p: Id)
    requires Inv(db) && r.MoveNode? && r.node in db.nodes
    ensures var t := MoveNodeTxn(db, r, p); t.Success? ==> Movement(db, r.node, Lost(db, r), t.value)
  {
    var was := db.nodes[r.node];
    MoveLoses(db, r, p);
    var dropped := MoveDrop(db, r, p);
    if dropped.Success? {
      MovePlaceEffect(dropped.value.(db := MoveClear(dropped.value.db, r, was)), r, was, p);
      DeletesReadAsDeletes(dropped.value.events);
    }
  }

  // ---- one event ------------------------------------------------------------------

  lemma OneEventTxn(mid: Db, project: Id, node: Id, kind: EventKind, meta: Meta, payload: Payload,
                    entity: Id, affected: set<Id>)
    ensures var t := LogAndRecord(mid, project, node, kind, meta, payload, entity, affected);
            t.Success? ==>
              t.value.db.nodes == mid.nodes && t.value.db.deps == mid.deps && t.value.db.verifs == mid.verifs
              && t.value.affected == affected
              && t.value.events == [Event(mid.lastSeq + 1, project, node, kind, meta.author, payload)]
  {
  }

  function CreatedRow(r: Request): Node
    requires r.CreateNode?
  {
    Node(r.project, r.parent, KindStr(r.kindCode), r.title, r.description, r.condition,
         r.note, r.reference, Open, if r.kindCode == 1 then Some(Planned) else None, r.position)
  }

  /** What creating a node comes to. */
  lemma CreateTxnCreates(db: Db, r: Request)
    requires r.CreateNode?
    ensures var t := CreateNodeTxn(db, r);
            t.Success? ==>
              InsertNode(db, r.minted, CreatedRow(r), false).Success? && r.minted !in db.nodes
              && t.value.db.nodes == db.nodes[r.minted := CreatedRow(r)]
              && t.value.db.deps == db.deps && t.value.db.verifs == db.verifs && t.value.affected == {r.minted}
              && Dropped(t.value.events) == {} && EdgeEvents(t.value.events, DepRemoved) == {}
              && EdgeEvents(t.value.events, DepAdded) == {}
  {
    var inserted := InsertNode(db, r.minted, CreatedRow(r), false);
    if inserted.Success? {
      OneEventTxn(inserted.value, r.project, r.minted, NodeCreated, r.meta, CreatedNode(r.minted, r.title),
                  r.minted, {r.minted});
      var t := CreateNodeTxn(db, r);
      if t.Success? {
        OneEventReads(t.value.events[0]);
      }
    }
  }

  /** What adding an edge comes to. */
  lemma LinkTxnLinks(db: Db, r: Request, scope: Id)
    requires r.AddDependency?
    ensures var t := AddDependencyTxn(db, r, scope);
            var e := Edge(r.blocker, r.blocked);
            t.Success? ==>
              t.value.db.nodes == db.nodes && t.value.db.verifs == db.verifs && t.value.db.deps == db.deps + {e}
              && t.value.affected == {e.blocked} && Dropped(t.value.events) == {}
              && EdgeEvents(t.value.events, DepRemoved) == {} && EdgeEvents(t.value.events, DepAdded) == {e}
              && (EndsExist(db) ==> e.blocker in db.nodes && e.blocked in db.nodes)
  {
    var e := Edge(r.blocker, r.blocked);
    var linked := InsertEdge(db, e);
    if linked.Success? {
      OneEventTxn(linked.value, scope, NO_ID, DepAdded, r.meta, EdgeEnds(r.blocker, r.blocked), NO_ID, {r.blocked});
      var t := AddDependencyTxn(db, r, scope);
      if t.Success? {
        OneEventReads(t.value.events[0]);
      }
    }
  }

  /** What removing an edge comes to. */
  lemma UnlinkTxnUnlinks(db: Db, r: Request, scope: Id)
    requires r.RemoveDependency?
    ensures var t := RemoveDependencyTxn(db, r, scope);
            var e := Edge(r.blocker, r.blocked);
            t.Success? ==>
              t.value.db.nodes == db.nodes && t.value.db.verifs == db.verifs && t.value.db.deps == db.deps - {e}
              && t.value.affected == {e.blocked} && Dropped(t.value.events) == {}
              && EdgeEvents(t.value.events, DepRemoved) == {e} && EdgeEvents(t.value.events, DepAdded) == {}
              && scope in db.projects
  {
    var e := Edge(r.blocker, r.blocked);
    OneEventTxn(DropEdge(db, e), scope, NO_ID, DepRemoved, r.meta, EdgeEnds(r.blocker, r.blocked), NO_ID, {r.blocked});
    var t := RemoveDependencyTxn(db, r, scope);
    if t.Success? {
      OneEventReads(t.value.events[0]);
    }
  }
}
