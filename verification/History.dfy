/** What the log says: every commit's events, and how much of the tables can be read back from
    them. */
module History {
  import opened FlowTypes
  import opened Forest
  import opened Engine
  import opened Invariants
  import opened Commits
  import opened Delta
  import opened Effects
  import opened Shapes
  import opened Undo
  import opened Exactness

  // ---- what a commit writes -------------------------------------------------------

  /** The newest event of a committed request, an undo apart. */
  ghost predicate Says(db: Db, r: Request, e: Event) {
    match r
    case CreateNode(_, minted, _, _, _, title, _, _, _, _, _) =>
      e.kind == NodeCreated && e.node == minted && e.payload == CreatedNode(minted, title)
    case UpdateNode(_, node, _, _, _, _, _, _, _, _) => e.kind == NodeUpdated && e.node == node && e.payload == NoPayload
    case DeleteNode(_, node, _) =>
      e.kind == NodeDeleted && e.node == NO_ID && node in db.nodes
      && e.payload == DeletedNode(NodeBeforeJson(node, db.nodes[node]))
    case SetStatus(_, node, code) =>
      e.kind == StatusSet && e.node == node && node in db.nodes
      && e.payload == StatusChange(db.nodes[node].declared, if code == 1 then Open else if code == 2 then Deferred else Done)
    case AddDependency(_, blocker, blocked) =>
      e.kind == DepAdded && e.node == NO_ID && e.payload == EdgeEnds(blocker, blocked)
    case RemoveDependency(_, blocker, blocked) =>
      e.kind == DepRemoved && e.node == NO_ID && e.payload == EdgeEnds(blocker, blocked)
    case ReportCondition(_, node, code, detail) =>
      e.kind == AgentReported && e.node == node && e.payload == Report(if code == 1 then Pass else Fail, detail)
    case SetVerdict(_, node, _) => e.kind == VerdictSet && e.node == node && e.payload == NoPayload
    case AddComment(_, node, text) => e.kind == Comment && e.node == node && e.payload == CommentText(text)
    case MoveNode(_, node, parent, code) =>
      e.kind == NodeUpdated && e.node == node && node in db.nodes
      && e.payload == Moved(db.nodes[node].parent, db.nodes[node].kind, parent,
                            if code == 1 then WorkPackage else if code == 2 then Task else Step)
    case _ => true
  }

  lemma MoveSays(db: Db, r: Request, s: Id, t: Txn)
    requires r.MoveNode? && r.node in db.nodes && MoveNodeTxn(db, r, s) == Success(t)
    ensures t.events != [] && Says(db, r, t.events[|t.events| - 1])
  {
  }

  lemma DeleteSays(db: Db, r: Request, s: Id, t: Txn)
    requires r.DeleteNode? && r.node in db.nodes && DeleteNodeTxn(db, r, s) == Success(t)
    ensures t.events != [] && Says(db, r, t.events[|t.events| - 1])
  {
  }

  lemma OneEventSays(db: Db, r: Request, s: Id, t: Txn)
    requires ScopeOf(db, r) == Some(s) && RunTxn(db, r, s) == Success(t)
    requires r.CreateNode? || r.UpdateNode? || r.SetStatus? || r.AddDependency? || r.RemoveDependency?
    ensures t.events != [] && Says(db, r, t.events[|t.events| - 1])
  {
  }

  lemma QuietSays(db: Db, r: Request, s: Id, t: Txn)
    requires ScopeOf(db, r) == Some(s) && RunTxn(db, r, s) == Success(t)
    requires r.ReportCondition? || r.SetVerdict? || r.AddComment?
    ensures t.events != [] && Says(db, r, t.events[|t.events| - 1])
  {
  }

  // ---- who wrote it ---------------------------------------------------------------

  /** All of these events carry the author, and are of these kinds. */
  ghost predicate By(events: seq<Event>, author: string, kinds: set<EventKind>) {
    forall e :: e in events ==> e.author == author && e.kind in kinds
  }

  /** These events say of a deleted node its identifier, and no more. */
  ghost predicate OnlyNames(events: seq<Event>) {
    forall e :: e in events ==>
      e.node == NO_ID && e.payload.DeletedNode?
      && e.payload.beforeObject == map[IdField := JId(IdAt(e.payload.beforeObject, IdField))]
  }

  /** The kinds of event a request may write. */
  function KindsOf(r: Request): set<EventKind> {
    match r
    case CreateProject(_, _) => {}
    case CreateNode(_, _, _, _, _, _, _, _, _, _, _) => {NodeCreated}
    case UpdateNode(_, _, _, _, _, _, _, _, _, _) => {NodeUpdated}
    case DeleteNode(_, _, _) => {NodeDeleted}
    case SetStatus(_, _, _) => {StatusSet}
    case AddDependency(_, _, _) => {DepAdded}
    case RemoveDependency(_, _, _) => {DepRemoved}
    case ReportCondition(_, _, _, _) => {AgentReported}
    case SetVerdict(_, _, _) => {VerdictSet}
    case AddComment(_, _, _) => {Comment}
    case Undo(_, _, _) => {StatusSet, DepAdded, DepRemoved, NodeCreated, NodeDeleted}
    case MoveNode(_, _, _, _) => {NodeDeleted, NodeUpdated}
  }

  lemma {:induction false} LogDeletesSigned(t: Txn, project: Id, author: string, ids: seq<Id>)
    requires By(t.events, author, {NodeDeleted}) && OnlyNames(t.events)
    ensures var r := LogDeletes(t, project, author, ids);
            r.Success? ==> By(r.value.events, author, {NodeDeleted}) && OnlyNames(r.value.events)
    decreases |ids|
  {
    if ids != [] {
      var logged := AppendEvent(t.db, project, NO_ID, NodeDeleted, author, DeletedPayload(ids[0]));
      if logged.Success? {
        LogDeletesSigned(t.(db := logged.value, events := t.events + [LastEvent(logged.value)]), project, author, ids[1..]);
      }
    }
  }

  lemma {:induction false} DropStepsSigned(t: Txn, project: Id, author: string, ids: seq<Id>)
    requires By(t.events, author, {NodeDeleted}) && OnlyNames(t.events)
    ensures var r := DropSteps(t, project, author, ids);
            r.Success? ==> By(r.value.events, author, {NodeDeleted}) && OnlyNames(r.value.events)
    decreases |ids|
  {
    if ids != [] {
      var next := DropStep(t, project, author, ids[0]);
      if next.Success? {
        DropStepsSigned(next.value, project, author, ids[1..]);
      }
    }
  }

  lemma DeleteSigned(db: Db, r: Request, s: Id, t: Txn)
    requires r.DeleteNode? && r.node in db.nodes && DeleteNodeTxn(db, r, s) == Success(t)
    ensures By(t.events, r.meta.author, {NodeDeleted}) && t.events != [] && OnlyNames(t.events[..|t.events| - 1])
  {
    var sub := Subtree(db.nodes, r.node);
    LogDeletesSigned(Txn(DropNode(db, r.node), [], ExternalDependents(db, sub)), s, r.meta.author, Rows(sub - {r.node}));
  }

  lemma MoveSigned(db: Db, r: Request, s: Id, t: Txn)
    requires r.MoveNode? && r.node in db.nodes && MoveNodeTxn(db, r, s) == Success(t)
    ensures By(t.events, r.meta.author, {NodeDeleted, NodeUpdated}) && t.events != [] && OnlyNames(t.events[..|t.events| - 1])
  {
    DropStepsSigned(Txn(db, [], {r.node}), s, r.meta.author, Rows(Children(db.nodes, {r.node})));
  }

  lemma OthersSigned(db: Db, r: Request, s: Id, t: Txn)
    requires ScopeOf(db, r) == Some(s) && RunTxn(db, r, s) == Success(t) && !r.DeleteNode? && !r.MoveNode?
    ensures By(t.events, r.meta.author, KindsOf(r)) && |t.events| <= 1
  {
  }

  lemma TxnSays(db: Db, r: Request, s: Id, t: Txn)
    requires ScopeOf(db, r) == Some(s) && RunTxn(db, r, s) == Success(t) && t.events != []
    ensures By(t.events, r.meta.author, KindsOf(r)) && Says(db, r, t.events[|t.events| - 1])
    ensures OnlyNames(t.events[..|t.events| - 1])
  {
    if r.DeleteNode? {
      DeleteSigned(db, r, s, t);
      DeleteSays(db, r, s, t);
    } else if r.MoveNode? {
      MoveSigned(db, r, s, t);
      MoveSays(db, r, s, t);
    } else {
      OthersSigned(db, r, s, t);
      if r.ReportCondition? || r.SetVerdict? || r.AddComment? {
        QuietSays(db, r, s, t);
      } else if !r.Undo? && !r.CreateProject? {
        OneEventSays(db, r, s, t);
      }
    }
  }

  lemma NewestNumber(db: Db, r: Request)
    requires Inv(db) && Decide(db, r).Commit? && !r.CreateProject?
    ensures var t := Decide(db, r).txn;
            t.events != [] && t.events[|t.events| - 1].seqno > db.lastSeq
  {
    EveryCommitShape(db, r);
  }

  lemma AnswerTells(db: Db, r: Request)
    requires Decide(db, r).Commit? && !r.CreateProject?
    ensures var t := Decide(db, r).txn;
            Apply(db, r).0 == t.db && Apply(db, r).1.Success? && Apply(db, r).1.value.events == t.events
            && Apply(db, r).1.value.seqno == SeqOf(t.events)
  {
  }

  /** Every event of a commit carries the request's author and is of a kind the request may
      write, and the newest, whose number the
      answer gives, says what was done, with the values before and after it; any others name
      the nodes deleted on the way. */
  lemma LogSays(db: Db, r: Request)
    requires Inv(db) && Decide(db, r).Commit? && !r.CreateProject?
    ensures var after, m := Apply(db, r).0, Apply(db, r).1.value;
            m.events != [] && By(m.events, r.meta.author, KindsOf(r)) && OnlyNames(m.events[..|m.events| - 1])
            && after.events != [] && LastEvent(after) == m.events[|m.events| - 1]
            && LastEvent(after).seqno == m.seqno && m.seqno > db.lastSeq && Says(db, r, LastEvent(after))
  {
    AnswerTells(db, r);
    NewestIsLast(db, r);
    NewestNumber(db, r);
    NewestSays(db, r);
  }

  lemma NewestSays(db: Db, r: Request)
    requires Inv(db) && Decide(db, r).Commit? && !r.CreateProject?
    ensures var t := Decide(db, r).txn;
            t.events != [] && By(t.events, r.meta.author, KindsOf(r)) && Says(db, r, t.events[|t.events| - 1])
            && OnlyNames(t.events[..|t.events| - 1])
  {
    NewestNumber(db, r);
    TxnIsRun(db, r, ScopeOf(db, r).value);
    TxnSays(db, r, ScopeOf(db, r).value, Decide(db, r).txn);
  }

  lemma TxnIsRun(db: Db, r: Request, s: Id)
    requires Decide(db, r).Commit? && ScopeOf(db, r) == Some(s)
    ensures RunTxn(db, r, s) == Success(Decide(db, r).txn) && Decide(db, r).project == s
  {
  }

  // ---- reading the tables back ----------------------------------------------------

  /** One event read by someone who keeps the edges. */
  function EdgesThen(deps: set<Edge>, e: Event): set<Edge> {
    if e.kind == DepAdded && e.payload.EdgeEnds? then deps + {Edge(e.payload.blocker, e.payload.blocked)}
    else if e.kind == DepRemoved && e.payload.EdgeEnds? then deps - {Edge(e.payload.blocker, e.payload.blocked)}
    else if e.kind == NodeDeleted && e.payload.DeletedNode? then EdgesOutside(deps, {IdAt(e.payload.beforeObject, IdField)})
    else deps
  }

  function EdgesTold(events: seq<Event>): set<Edge> {
    if events == [] then {} else EdgesThen(EdgesTold(events[..|events| - 1]), events[|events| - 1])
  }

  /** One event read by someone who keeps the status of node n. */
  function StatusThen(declared: Declared, n: Id, e: Event): Declared {
    if e.node != n then declared
    else if e.kind == StatusSet && e.payload.StatusChange? then e.payload.after
    else declared
  }

  /** A node is open until the log says otherwise. */
  function StatusTold(events: seq<Event>, n: Id): Declared {
    if events == [] then Open else StatusThen(StatusTold(events[..|events| - 1], n), n, events[|events| - 1])
  }

  predicate CreationTold(events: seq<Event>, n: Id) {
    exists e :: e in events && e.kind == NodeCreated && e.node == n && n != NO_ID
  }

  /** Edges, existing nodes and their statuses are what the log tells. */
  ghost predicate Retells(db: Db) {
    db.deps == EdgesTold(db.events)
    && (forall n :: n in db.nodes <==> CreationTold(db.events, n))
    && (forall n :: n in db.nodes ==> db.nodes[n].declared == StatusTold(db.events, n))
  }

  // ---- the surviving log tells the same -------------------------------------------

  /** Only node events are dropped, and no edge is told by one. */
  lemma {:induction false} SameEdgesTold(events: seq<Event>, gone: set<Id>)
    requires forall e :: e in events && e.node in gone ==> !Nodeless(e.kind)
    ensures EdgesTold(EventsOutside(events, gone)) == EdgesTold(events)
  {
    if events != [] {
      var front, last := events[..|events| - 1], events[|events| - 1];
      assert events == front + [last];
      SameEdgesTold(front, gone);
      var kept := EventsOutside(front, gone);
      if last.node !in gone {
        assert (kept + [last])[..|kept|] == kept;
      }
    }
  }

  lemma {:induction false} SameStatusTold(events: seq<Event>, gone: set<Id>, n: Id)
    requires n !in gone
    ensures StatusTold(EventsOutside(events, gone), n) == StatusTold(events, n)
  {
    if events != [] {
      var front, last := events[..|events| - 1], events[|events| - 1];
      SameStatusTold(front, gone, n);
      var kept := EventsOutside(front, gone);
      if last.node !in gone {
        assert (kept + [last])[..|kept|] == kept;
      }
    }
  }

  lemma {:induction false} EdgesToldConcat(a: seq<Event>, b: seq<Event>)
    requires EdgeEvents(b, DepAdded) == {} && EdgeEvents(b, DepRemoved) == {}
    ensures EdgesTold(a + b) == EdgesOutside(EdgesTold(a), Dropped(b))
    decreases |b|
  {
    if b == [] {
      assert a + b == a && EdgesOutside(EdgesTold(a), {}) == EdgesTold(a);
    } else {
      var front, last := b[..|b| - 1], b[|b| - 1];
      assert b == front + [last] && (a + b)[..|a + b| - 1] == a + front;
      DroppedConcat(front, [last]);
      OneEventReads(last);
      EdgesToldConcat(a, front);
      OutsideTwice(EdgesTold(a), Dropped(front), Dropped([last]));
    }
  }

  lemma OutsideTwice(deps: set<Edge>, a: set<Id>, b: set<Id>)
    ensures EdgesOutside(EdgesOutside(deps, a), b) == EdgesOutside(deps, a + b)
    ensures EdgesOutside(deps, {}) == deps
  {
  }

  lemma {:induction false} StatusToldConcat(a: seq<Event>, b: seq<Event>, n: Id)
    requires forall e :: e in b && e.node == n ==> !(e.kind == StatusSet && e.payload.StatusChange?)
    ensures StatusTold(a + b, n) == StatusTold(a, n)
    decreases |b|
  {
    if b == [] {
      assert a + b == a;
    } else {
      var front, last := b[..|b| - 1], b[|b| - 1];
      assert b == front + [last] && (a + b)[..|a + b| - 1] == a + front;
      StatusToldConcat(a, front, n);
      assert last in b;
    }
  }

  lemma {:induction false} NeverNamedIsOpen(events: seq<Event>, n: Id)
    requires forall e :: e in events ==> e.node != n
    ensures StatusTold(events, n) == Open
  {
    if events != [] {
      assert events[|events| - 1] in events;
      NeverNamedIsOpen(events[..|events| - 1], n);
    }
  }

  // ---- one commit -----------------------------------------------------------------

  /** Every node was there, with this status unless it is the one set, or is the new one. */
  ghost predicate StatusesStay(db: Db, r: Request, after: Db) {
    forall n :: n in after.nodes ==>
      if n in db.nodes then after.nodes[n].declared == db.nodes[n].declared || (r.SetStatus? && n == r.node)
      else r.CreateNode? && n == r.minted && after.nodes[n].declared == Open
  }

  /** Nothing else touches the edges than the nodes deleted. */
  ghost predicate EdgesGo(db: Db, t: Txn) {
    t.db.deps == EdgesOutside(db.deps, Dropped(t.events))
    && EdgeEvents(t.events, DepAdded) == {} && EdgeEvents(t.events, DepRemoved) == {}
  }

  lemma SilentGoes(db: Db, t: Txn)
    requires Silent(t) && t.db.deps == db.deps
    ensures EdgesGo(db, t)
  {
  }

  lemma CreateGoes(db: Db, r: Request, t: Txn)
    requires r.CreateNode? && CreateNodeTxn(db, r) == Success(t)
    ensures EdgesGo(db, t) && StatusesStay(db, r, t.db)
  {
    CreateTxnCreates(db, r);
  }

  lemma DeleteGoes(db: Db, r: Request, s: Id, t: Txn)
    requires r.DeleteNode? && r.node in db.nodes && DeleteNodeTxn(db, r, s) == Success(t)
    ensures EdgesGo(db, t) && StatusesStay(db, r, t.db)
  {
    DeleteTxnDeletes(db, r, s);
    DeletesReadAsDeletes(t.events);
  }

  lemma MovementGoes(db: Db, r: Request, dead: set<Id>, t: Txn)
    requires r.MoveNode? && Movement(db, r.node, dead, t)
    ensures EdgesGo(db, t) && StatusesStay(db, r, t.db)
  {
  }

  lemma StatusGoes(db: Db, r: Request, s: Id, t: Txn)
    requires r.SetStatus? && r.node in db.nodes && SetStatusTxn(db, r, s) == Success(t)
    ensures EdgesGo(db, t) && StatusesStay(db, r, t.db)
  {
    var declared := DeclaredStr(r.declaredCode);
    OneEventTxn(SetDeclared(db, r.node, declared), s, r.node, StatusSet, r.meta,
                StatusChange(db.nodes[r.node].declared, declared), NO_ID, {r.node} + Downstream(db, r.node));
    OneEventReads(t.events[0]);
    SilentGoes(db, t);
  }

  lemma NewStatus(db: Db, r: Request, s: Id, t: Txn)
    requires r.SetStatus? && r.node in db.nodes && SetStatusTxn(db, r, s) == Success(t)
    ensures r.node in t.db.nodes
    ensures t.db.nodes[r.node].declared == if r.declaredCode == 1 then Open else if r.declaredCode == 2 then Deferred else Done
  {
  }

  lemma QuietGoes(db: Db, r: Request, s: Id, t: Txn)
    requires Inv(db) && Quiet(r) && ScopeOf(db, r) == Some(s) && RunTxn(db, r, s) == Success(t)
    ensures EdgesGo(db, t) && StatusesStay(db, r, t.db)
  {
    if r.UpdateNode? {
      UpdateRows(db, r, s, t);
    } else if r.ReportCondition? {
      ReportRows(db, r, s, t);
    } else if r.SetVerdict? {
      VerdictRows(db, r, s, t);
    } else {
      CommentRows(db, r, s, t);
    }
    SilentGoes(db, t);
  }

  lemma EdgeStays(db: Db, r: Request, s: Id, t: Txn)
    requires r.AddDependency? || r.RemoveDependency?
    requires ScopeOf(db, r) == Some(s) && RunTxn(db, r, s) == Success(t)
    ensures var e := Edge(r.blocker, r.blocked);
            t.db.nodes == db.nodes && t.db.deps == (if r.AddDependency? then db.deps + {e} else db.deps - {e})
            && |t.events| == 1 && t.events[0].payload == EdgeEnds(r.blocker, r.blocked)
            && t.events[0].kind == if r.AddDependency? then DepAdded else DepRemoved
  {
    if r.AddDependency? {
      LinkTxnLinks(db, r, s);
    } else {
      UnlinkTxnUnlinks(db, r, s);
    }
    OneEventSays(db, r, s, t);
    OthersSigned(db, r, s, t);
  }

  lemma TxnGoes(db: Db, r: Request, s: Id, t: Txn)
    requires Inv(db) && ScopeOf(db, r) == Some(s) && RunTxn(db, r, s) == Success(t)
    requires !r.Undo? && !r.CreateProject? && !r.AddDependency? && !r.RemoveDependency?
    ensures EdgesGo(db, t) && StatusesStay(db, r, t.db)
  {
    if r.CreateNode? {
      CreateGoes(db, r, t);
    } else if r.DeleteNode? {
      DeleteGoes(db, r, s, t);
    } else if r.MoveNode? {
      MoveTxnMoves(db, r, s);
      MovementGoes(db, r, Lost(db, r), t);
    } else if r.SetStatus? {
      StatusGoes(db, r, s, t);
    } else {
      QuietGoes(db, r, s, t);
    }
  }

  lemma KeptLogTells(db: Db, gone: set<Id>)
    requires Inv(db) && gone <= db.nodes.Keys
    ensures EdgesTold(EventsOutside(db.events, gone)) == EdgesTold(db.events)
    ensures forall n :: n !in gone ==> StatusTold(EventsOutside(db.events, gone), n) == StatusTold(db.events, n)
    ensures forall n :: n !in db.nodes && n != NO_ID ==> StatusTold(db.events, n) == Open
  {
    forall e | e in db.events && e.node in gone
      ensures !Nodeless(e.kind)
    {
      assert EventOk(db, e);
    }
    SameEdgesTold(db.events, gone);
    forall n | n !in gone { SameStatusTold(db.events, gone, n); }
    forall n | n !in db.nodes && n != NO_ID
      ensures StatusTold(db.events, n) == Open
    {
      forall e | e in db.events
        ensures e.node != n
      {
        assert EventOk(db, e);
      }
      NeverNamedIsOpen(db.events, n);
    }
  }

  lemma EdgesRetold(db: Db, r: Request, s: Id, t: Txn)
    requires Inv(db) && ScopeOf(db, r) == Some(s) && RunTxn(db, r, s) == Success(t) && !r.Undo? && !r.CreateProject?
    requires db.deps == EdgesTold(db.events) && LogGrows(db, s, t.db, t.events)
    ensures t.db.deps == EdgesTold(t.db.events)
  {
    var gone := Gone(db, t.db);
    var kept := EventsOutside(db.events, gone);
    KeptLogTells(db, gone);
    if r.AddDependency? || r.RemoveDependency? {
      EdgeStays(db, r, s, t);
      assert t.events == [t.events[0]] && (kept + t.events)[..|kept|] == kept;
    } else {
      TxnGoes(db, r, s, t);
      EdgesToldConcat(kept, t.events);
    }
  }

  lemma SetRetold(db: Db, r: Request, s: Id, t: Txn)
    requires Inv(db) && ScopeOf(db, r) == Some(s) && RunTxn(db, r, s) == Success(t) && r.SetStatus?
    requires LogGrows(db, s, t.db, t.events) && t.events != []
    ensures r.node in t.db.nodes && t.db.nodes[r.node].declared == StatusTold(t.db.events, r.node)
  {
    var kept := EventsOutside(db.events, Gone(db, t.db));
    OneEventSays(db, r, s, t);
    OthersSigned(db, r, s, t);
    NewStatus(db, r, s, t);
    assert t.events == [t.events[0]];
    OneMoreStatus(kept, t.events[0], r.node);
  }

  lemma OneMoreStatus(events: seq<Event>, e: Event, n: Id)
    ensures StatusTold(events + [e], n) == StatusThen(StatusTold(events, n), n, e)
  {
    assert (events + [e])[..|events|] == events;
  }

  /** No event of the commit tells a status of n. */
  lemma UntoldStatus(db: Db, r: Request, s: Id, t: Txn, n: Id)
    requires ScopeOf(db, r) == Some(s) && RunTxn(db, r, s) == Success(t) && !r.Undo? && t.events != []
    requires !(r.SetStatus? && n == r.node)
    ensures forall e :: e in t.events && e.node == n ==> !(e.kind == StatusSet && e.payload.StatusChange?)
  {
    TxnSays(db, r, s, t);
    if r.SetStatus? {
      OthersSigned(db, r, s, t);
    }
  }

  /** What was declared for n before, or open for a new node, still is. */
  lemma UnsetStays(db: Db, r: Request, s: Id, t: Txn, n: Id)
    requires Inv(db) && ScopeOf(db, r) == Some(s) && RunTxn(db, r, s) == Success(t) && !r.Undo? && !r.CreateProject?
    requires n in t.db.nodes && !(r.SetStatus? && n == r.node)
    ensures t.db.nodes[n].declared == if n in db.nodes then db.nodes[n].declared else Open
  {
    if r.AddDependency? || r.RemoveDependency? {
      EdgeStays(db, r, s, t);
    } else {
      TxnGoes(db, r, s, t);
    }
  }

  lemma StatusRetold(db: Db, r: Request, s: Id, t: Txn, n: Id)
    requires Inv(db) && ScopeOf(db, r) == Some(s) && RunTxn(db, r, s) == Success(t) && !r.Undo? && !r.CreateProject?
    requires LogGrows(db, s, t.db, t.events) && n in t.db.nodes && n != NO_ID && t.events != []
    requires n in db.nodes ==> db.nodes[n].declared == StatusTold(db.events, n)
    ensures t.db.nodes[n].declared == StatusTold(t.db.events, n)
  {
    if r.SetStatus? && n == r.node {
      SetRetold(db, r, s, t);
    } else {
      KeptLogTells(db, Gone(db, t.db));
      UnsetStays(db, r, s, t, n);
      UntoldStatus(db, r, s, t, n);
      StatusToldConcat(EventsOutside(db.events, Gone(db, t.db)), t.events, n);
    }
  }

  lemma CreationRetold(db: Db, r: Request, s: Id, t: Txn, n: Id)
    requires Inv(db) && Inv(t.db) && ScopeOf(db, r) == Some(s) && RunTxn(db, r, s) == Success(t)
    requires !r.Undo? && !r.CreateProject? && LogGrows(db, s, t.db, t.events) && t.events != []
    requires n in db.nodes <==> CreationTold(db.events, n)
    ensures n in t.db.nodes <==> CreationTold(t.db.events, n)
  {
    var gone := Gone(db, t.db);
    OutsideMembers(db.events, gone);
    if CreationTold(t.db.events, n) {
      var e :| e in t.db.events && e.kind == NodeCreated && e.node == n && n != NO_ID;
      assert EventOk(t.db, e);
    }
    if n in t.db.nodes && n in db.nodes {
      var e :| e in db.events && e.kind == NodeCreated && e.node == n && n != NO_ID;
      assert e in EventsOutside(db.events, gone) && e in t.db.events;
    }
    if n in t.db.nodes && n !in db.nodes {
      NewNodeTold(db, r, s, t, n);
    }
  }

  lemma NewNodeTold(db: Db, r: Request, s: Id, t: Txn, n: Id)
    requires Inv(db) && ScopeOf(db, r) == Some(s) && RunTxn(db, r, s) == Success(t) && !r.Undo? && !r.CreateProject?
    requires LogGrows(db, s, t.db, t.events) && t.events != [] && n in t.db.nodes && n !in db.nodes && n != NO_ID
    ensures CreationTold(t.db.events, n)
  {
    TxnSays(db, r, s, t);
    if r.AddDependency? || r.RemoveDependency? {
      EdgeStays(db, r, s, t);
    } else {
      TxnGoes(db, r, s, t);
    }
    var e := t.events[|t.events| - 1];
    assert e in t.db.events && e.kind == NodeCreated && e.node == n;
  }

  // ---- runs -----------------------------------------------------------------------

  lemma CommitRetold(db: Db, r: Request)
    requires Inv(db) && Retells(db) && Decide(db, r).Commit? && !r.Undo? && !r.CreateProject?
    ensures Retells(Apply(db, r).0)
  {
    var s, t := ScopeOf(db, r).value, Decide(db, r).txn;
    TxnIsRun(db, r, s);
    EveryCommitShape(db, r);
    ApplyKeeps(db, r);
    EdgesRetold(db, r, s, t);
    forall n { CreationRetold(db, r, s, t, n); }
    forall n | n in t.db.nodes { StatusRetold(db, r, s, t, n); }
  }

  lemma ProjectRetold(db: Db, r: Request)
    requires Retells(db) && r.CreateProject?
    ensures Retells(Apply(db, r).0)
  {
  }

  /** As long as nothing is undone, the log tells, of every reachable database, exactly which
      nodes and edges there are and what is declared for each node, although the events of
      deleted nodes are gone from it. */
  lemma {:induction false} LogRetells(db: Db, requests: seq<Request>)
    requires Inv(db) && Retells(db) && forall i :: 0 <= i < |requests| ==> !requests[i].Undo?
    ensures Retells(ApplyAll(db, requests))
    decreases |requests|
  {
    if requests != [] {
      ApplyKeeps(db, requests[0]);
      if requests[0].CreateProject? {
        ProjectRetold(db, requests[0]);
      } else if Decide(db, requests[0]).Commit? {
        CommitRetold(db, requests[0]);
      }
      LogRetells(Apply(db, requests[0]).0, requests[1..]);
    }
  }

  lemma NothingIsRetold()
    ensures Inv(EmptyDb) && Retells(EmptyDb)
  {
  }

  /** An undo keeps the log a true account exactly when it leaves the edges and every status as
      they were and brings no node back: its own event tells nothing of it. */
  lemma UndoRetoldExactly(db: Db, u: Request)
    requires Inv(db) && Retells(db) && u.Undo? && Decide(db, u).Commit?
    ensures var after := Apply(db, u).0;
            Retells(after)
            <==> after.deps == db.deps
                 && forall n :: n in after.nodes ==> n in db.nodes && after.nodes[n].declared == db.nodes[n].declared
  {
    var s, t := ScopeOf(db, u).value, Decide(db, u).txn;
    EveryCommitShape(db, u);
    ApplyKeeps(db, u);
    UndoTellsNothing(db, u, t);
    UndoneRetold(db, t, s);
  }

  lemma UndoneRetold(db: Db, t: Txn, s: Id)
    requires Inv(db) && Inv(t.db) && Retells(db) && LogGrows(db, s, t.db, t.events)
    requires |t.events| == 1 && t.events[0].payload == NoPayload
    requires t.events[0].kind == NodeCreated ==> t.events[0].node == NO_ID
    ensures Retells(t.db)
            <==> t.db.deps == db.deps
                 && forall n :: n in t.db.nodes ==> n in db.nodes && t.db.nodes[n].declared == db.nodes[n].declared
  {
    UndoneLog(db, t, s);
    forall n { UndoneCreation(db, t, s, n); }
  }

  lemma UndoTellsNothing(db: Db, u: Request, t: Txn)
    requires Inv(db) && u.Undo? && Decide(db, u).Commit? && t == Decide(db, u).txn
    ensures |t.events| == 1 && t.events[0].payload == NoPayload && (t.events[0].kind == NodeCreated ==> t.events[0].node == NO_ID)
  {
    FindsDesignated(db.events, u);
    var e := FindEvent(db.events, u.project, u.seqno).value;
    assert EventOk(db, e);
    var rev := Reverse(db, e);
    OneEventTxn(rev.value.db, e.project, rev.value.node, rev.value.kind, u.meta, NoPayload, NO_ID, rev.value.affected);
  }

  /** What the log tells after an event that says nothing. */
  lemma UndoneLog(db: Db, t: Txn, s: Id)
    requires Inv(db) && LogGrows(db, s, t.db, t.events) && |t.events| == 1 && t.events[0].payload == NoPayload
    ensures EdgesTold(t.db.events) == EdgesTold(db.events)
    ensures forall n :: n in t.db.nodes && n in db.nodes ==> StatusTold(t.db.events, n) == StatusTold(db.events, n)
  {
    var gone := Gone(db, t.db);
    var kept := EventsOutside(db.events, gone);
    KeptLogTells(db, gone);
    assert t.events == [t.events[0]] && (kept + t.events)[..|kept|] == kept;
  }

  lemma UndoneCreation(db: Db, t: Txn, s: Id, n: Id)
    requires Inv(db) && Inv(t.db) && Retells(db) && LogGrows(db, s, t.db, t.events)
    requires |t.events| == 1 && (t.events[0].kind == NodeCreated ==> t.events[0].node == NO_ID)
    ensures CreationTold(t.db.events, n) <==> n in t.db.nodes && n in db.nodes
  {
    var gone := Gone(db, t.db);
    OutsideMembers(db.events, gone);
    if CreationTold(t.db.events, n) {
      var e :| e in t.db.events && e.kind == NodeCreated && e.node == n && n != NO_ID;
      assert EventOk(t.db, e);
      assert e in EventsOutside(db.events, gone);
      assert EventOk(db, e);
    }
    if n in t.db.nodes && n in db.nodes {
      var e :| e in db.events && e.kind == NodeCreated && e.node == n && n != NO_ID;
      assert e in EventsOutside(db.events, gone) && e in t.db.events;
    }
  }
}
