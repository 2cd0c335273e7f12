/** Small runs from the empty database in which a promise fails. */
module Witnesses {
  import opened FlowTypes
  import opened Graph
  import opened Forest
  import opened Status
  import opened Engine
  import opened Invariants
  import opened Commits
  import opened Readiness
  import opened Delta
  import opened Effects
  import opened Shapes
  import opened Undo
  import opened Borders
  import opened Exactness
  import opened Edits
  import opened History
  import opened Losses
  import opened Listing
  import opened Counts
  import opened Tui
  import opened Agreement
  import opened Unblocking
  import Memory

  // ---- runs -----------------------------------------------------------------------

  /** The rows a run leaves; the log and the ledger may be anything. */
  ghost predicate Leads(run: seq<Request>, projects: set<Id>, nodes: map<Id, Node>, deps: set<Edge>) {
    var db := ApplyAll(EmptyDb, run);
    Inv(db) && db.projects == projects && db.nodes == nodes && db.deps == deps
  }

  function NewProject(author: string, id: MintedId): Request {
    CreateProject(Meta(author, ""), id)
  }

  function NewNode(author: string, id: MintedId, project: Id, parent: Id, kindCode: int): Request {
    CreateNode(Meta(author, ""), id, project, parent, kindCode, "", "", "", "", "", 0)
  }

  function Link(author: string, blocker: Id, blocked: Id): Request {
    AddDependency(Meta(author, ""), blocker, blocked)
  }

  function PlainRow(project: Id, parent: Id, kind: Kind): Node {
    Node(project, parent, kind, "", "", "", "", "", Open, if kind == WorkPackage then Some(Planned) else None, 0)
  }

  lemma OneMore(run: seq<Request>, r: Request)
    ensures ApplyAll(EmptyDb, run + [r]) == Apply(ApplyAll(EmptyDb, run), r).0 && Inv(ApplyAll(EmptyDb, run + [r]))
  {
    ApplyAllThen(EmptyDb, run, r);
    EveryRunKeepsInv(EmptyDb, run + [r]);
  }

  lemma ProjectMade(run: seq<Request>, projects: set<Id>, nodes: map<Id, Node>, deps: set<Edge>,
                    author: string, id: MintedId)
    requires Leads(run, projects, nodes, deps) && id !in projects
    ensures Leads(run + [NewProject(author, id)], projects + {id}, nodes, deps)
  {
    OneMore(run, NewProject(author, id));
  }

  /** A new row may go there. */
  predicate RoomFor(projects: set<Id>, nodes: map<Id, Node>, id: Id, project: Id, parent: Id, kindCode: int) {
    project in projects && id !in nodes
    && if parent == NO_ID then KindStr(kindCode) == WorkPackage
       else KindStr(kindCode) != WorkPackage && KindOf(nodes, parent) == ParentKindFor(KindStr(kindCode))
  }

  lemma NodeCommits(db: Db, author: string, id: MintedId, project: Id, parent: Id, kindCode: int)
    requires RoomFor(db.projects, db.nodes, id, project, parent, kindCode)
    ensures var r := NewNode(author, id, project, parent, kindCode);
            Decide(db, r).Commit? && Decide(db, r).project == project && Apply(db, r).0.projects == db.projects
            && Apply(db, r).0.nodes == db.nodes[id := PlainRow(project, parent, KindStr(kindCode))]
            && Apply(db, r).0.deps == db.deps
  {
    var r := NewNode(author, id, project, parent, kindCode);
    assert CreatedRow(r) == PlainRow(project, parent, KindStr(kindCode));
    CreateTxnCreates(db, r);
  }

  lemma NodeMade(run: seq<Request>, projects: set<Id>, nodes: map<Id, Node>, deps: set<Edge>,
                 author: string, id: MintedId, project: Id, parent: Id, kindCode: int)
    requires Leads(run, projects, nodes, deps) && RoomFor(projects, nodes, id, project, parent, kindCode)
    ensures Leads(run + [NewNode(author, id, project, parent, kindCode)], projects,
                  nodes[id := PlainRow(project, parent, KindStr(kindCode))], deps)
  {
    OneMore(run, NewNode(author, id, project, parent, kindCode));
    NodeCommits(ApplyAll(EmptyDb, run), author, id, project, parent, kindCode);
  }

  lemma StatusCommits(db: Db, author: string, id: Id, code: int)
    requires Inv(db) && id in db.nodes
    ensures var r := SetStatus(Meta(author, ""), id, code);
            Decide(db, r).Commit? && Decide(db, r).project == db.nodes[id].project
            && Apply(db, r).0.projects == db.projects && Apply(db, r).0.deps == db.deps
            && Apply(db, r).0.nodes == db.nodes[id := db.nodes[id].(declared := DeclaredStr(code))]
  {
  }

  lemma StatusMade(run: seq<Request>, projects: set<Id>, nodes: map<Id, Node>, deps: set<Edge>,
                   author: string, id: Id, code: int)
    requires Leads(run, projects, nodes, deps) && id in nodes
    ensures Leads(run + [SetStatus(Meta(author, ""), id, code)], projects,
                  nodes[id := nodes[id].(declared := DeclaredStr(code))], deps)
  {
    OneMore(run, SetStatus(Meta(author, ""), id, code));
    StatusCommits(ApplyAll(EmptyDb, run), author, id, code);
  }

  lemma LinkCommits(db: Db, author: string, e: Edge)
    requires Inv(db) && e.blocker in db.nodes && e.blocked in db.nodes && e.blocker != e.blocked
    requires forall d :: d in db.deps ==> d.blocker != e.blocked
    ensures var r := Link(author, e.blocker, e.blocked);
            Decide(db, r).Commit? && Decide(db, r).project == db.nodes[e.blocker].project
            && Apply(db, r).0.projects == db.projects && Apply(db, r).0.nodes == db.nodes
            && Apply(db, r).0.deps == db.deps + {e}
  {
    FollowIsReach(db.deps, {e.blocked}, e.blocker);
    if Reaches(db.deps, e.blocked, e.blocker) {
      ClosedContainsReach(db.deps, {e.blocked}, e.blocked, e.blocker);
    }
    var p := db.nodes[e.blocker].project;
    LinkDecides(db, Meta(author, ""), e, p);
    LinkTxnLinks(db, Link(author, e.blocker, e.blocked), p);
    assert InsertEdge(db, e).Success?;
  }

  lemma LinkMade(run: seq<Request>, projects: set<Id>, nodes: map<Id, Node>, deps: set<Edge>, author: string, e: Edge)
    requires Leads(run, projects, nodes, deps) && e.blocker in nodes && e.blocked in nodes && e.blocker != e.blocked
    requires forall d :: d in deps ==> d.blocker != e.blocked
    ensures Leads(run + [Link(author, e.blocker, e.blocked)], projects, nodes, deps + {e})
  {
    OneMore(run, Link(author, e.blocker, e.blocked));
    LinkCommits(ApplyAll(EmptyDb, run), author, e);
  }

  const Package: Node := PlainRow(1, NO_ID, WorkPackage)
  const OpenTask: Node := PlainRow(1, 10, Task)
  const DoneTask: Node := OpenTask.(declared := Done)
  const OtherTask: Node := PlainRow(2, 20, Task)

  /** Two projects; the first has a package. */
  function OnePackage(author: string): seq<Request> {
    [] + [NewProject(author, 1)] + [NewProject(author, 2)] + [NewNode(author, 10, 1, NO_ID, 1)]
  }

  lemma OnePackageRows(author: string)
    ensures Leads(OnePackage(author), {1, 2}, map[10 := Package], {})
  {
    var r1, r2 := NewProject(author, 1), NewProject(author, 2);
    EveryRunKeepsInv(EmptyDb, []);
    ProjectMade([], {}, map[], {}, author, 1);
    assert {} + {1} == {1} && {1} + {2} == {1, 2};
    ProjectMade([] + [r1], {1}, map[], {}, author, 2);
    NodeMade([] + [r1] + [r2], {1, 2}, map[], {}, author, 10, 1, NO_ID, 1);
  }

  /** And in the package one task. */
  function OneTask(author: string): seq<Request> {
    OnePackage(author) + [NewNode(author, 11, 1, 10, 2)]
  }

  lemma OneTaskRows(author: string)
    ensures Leads(OneTask(author), {1, 2}, map[10 := Package, 11 := OpenTask], {})
  {
    OnePackageRows(author);
    NodeMade(OnePackage(author), {1, 2}, map[10 := Package], {}, author, 11, 1, 10, 2);
  }

  /** And the task is done. */
  function OneFinishedTask(author: string): seq<Request> {
    OneTask(author) + [MarkDone(author, 11)]
  }

  lemma OneFinishedTaskRows(author: string)
    ensures Leads(OneFinishedTask(author), {1, 2}, map[10 := Package, 11 := DoneTask], {})
  {
    OneTaskRows(author);
    StatusMade(OneTask(author), {1, 2}, map[10 := Package, 11 := OpenTask], {}, author, 11, 3);
  }

  /** A second task, blocked by the first. */
  function OneBlockedTask(author: string): seq<Request> {
    OneTask(author) + [NewNode(author, 12, 1, 10, 2)] + [Link(author, 11, 12)]
  }

  const TwoTasks: map<Id, Node> := map[10 := Package, 11 := OpenTask, 12 := OpenTask]

  lemma OneBlockedTaskRows(author: string)
    ensures Leads(OneBlockedTask(author), {1, 2}, TwoTasks, {Edge(11, 12)})
  {
    var second := NewNode(author, 12, 1, 10, 2);
    OneTaskRows(author);
    NodeMade(OneTask(author), {1, 2}, map[10 := Package, 11 := OpenTask], {}, author, 12, 1, 10, 2);
    assert TwoTasks[11] == OpenTask;
    LinkMade(OneTask(author) + [second], {1, 2}, TwoTasks, {}, author, Edge(11, 12));
    assert {} + {Edge(11, 12)} == {Edge(11, 12)};
  }

  // ---- a link between projects, and the client it misleads ------------------------

  /** A step created in project 2 under a finished task of project 1 is accepted, is
      announced only in project 2, and makes project 1's progress wrong at its clients. */
  lemma CrossProjectStepMisleads(author: string)
    ensures var db := ApplyAll(EmptyDb, OneFinishedTask(author));
            var r := NewNode(author, 12, 2, 11, 3);
            Decide(db, r).Commit? && Decide(db, r).project == 2 && !Exact(db, r, 1)
            && Snapshot(Apply(db, r).0, 1).progress != Snapshot(db, 1).progress
  {
    var db := ApplyAll(EmptyDb, OneFinishedTask(author));
    var r := NewNode(author, 12, 2, 11, 3);
    OneFinishedTaskRows(author);
    assert db.nodes[11] == DoneTask && db.nodes[10] == Package;
    NodeCommits(db, author, 12, 2, 11, 3);
    NoChildYet(db, 12);
    StepUnderFinished(db, Apply(db, r).0);
  }

  lemma StepUnderFinished(db: Db, after: Db)
    requires Inv(db) && db.nodes == map[10 := Package, 11 := DoneTask] && db.deps == {}
    requires after.nodes == db.nodes[12 := PlainRow(2, 11, Step)] && after.deps == {}
    ensures ProgressFor(db.nodes, db.deps, 1) != ProgressFor(after.nodes, after.deps, 1)
  {
    assert db.nodes[11] == DoneTask && db.nodes[10] == Package;
    NoChildYet(db, 12);
    StepAddedCounts(db, after.(verifs := db.verifs), 1, 11, 12, PlainRow(2, 11, Step));
  }

  /** A task of project 2 under project 1's package joins the two and misleads nobody. */
  lemma CrossProjectTaskDoesNotMislead(author: string, p: Id)
    ensures var db := ApplyAll(EmptyDb, OneTask(author));
            var r := NewNode(author, 12, 2, 10, 2);
            Decide(db, r).Commit? && Joins(db, r, Around(1)) && Joins(db, r, Around(2)) && Exact(db, r, p)
  {
    var db := ApplyAll(EmptyDb, OneTask(author));
    var r := NewNode(author, 12, 2, 10, 2);
    OneTaskRows(author);
    assert db.nodes[10] == Package && db.nodes[11] == OpenTask;
    NodeCommits(db, author, 12, 2, 10, 2);
    PayloadIsExact(db, r, p);
  }

  /** A dependent in project 2, and in project 1 one that also waits for project 2. */
  function Crossing(author: string): seq<Request> {
    OneBlockedTask(author) + [NewNode(author, 20, 2, NO_ID, 1)] + [NewNode(author, 21, 2, 20, 2)]
    + [NewNode(author, 22, 2, 20, 2)] + [Link(author, 21, 12)] + [Link(author, 11, 22)]
  }

  const FourTasks: map<Id, Node> := TwoTasks[20 := PlainRow(2, NO_ID, WorkPackage)][21 := OtherTask][22 := OtherTask]
  const ThreeEdges: set<Edge> := {Edge(11, 12)} + {Edge(21, 12)} + {Edge(11, 22)}

  lemma CrossingRows(author: string)
    ensures Leads(Crossing(author), {1, 2}, FourTasks, ThreeEdges)
  {
    var before := OneBlockedTask(author);
    var r1, r2, r3 := NewNode(author, 20, 2, NO_ID, 1), NewNode(author, 21, 2, 20, 2), NewNode(author, 22, 2, 20, 2);
    var wp := PlainRow(2, NO_ID, WorkPackage);
    OneBlockedTaskRows(author);
    NodeMade(before, {1, 2}, TwoTasks, {Edge(11, 12)}, author, 20, 2, NO_ID, 1);
    NodeMade(before + [r1], {1, 2}, TwoTasks[20 := wp], {Edge(11, 12)}, author, 21, 2, 20, 2);
    NodeMade(before + [r1] + [r2], {1, 2}, TwoTasks[20 := wp][21 := OtherTask], {Edge(11, 12)}, author, 22, 2, 20, 2);
    LinkMade(before + [r1] + [r2] + [r3], {1, 2}, FourTasks, {Edge(11, 12)}, author, Edge(21, 12));
    LinkMade(before + [r1] + [r2] + [r3] + [Link(author, 21, 12)], {1, 2}, FourTasks, {Edge(11, 12)} + {Edge(21, 12)},
             author, Edge(11, 22));
  }

  lemma CrossingMisreads(db: Db)
    requires db.nodes == FourTasks && db.deps == ThreeEdges
    ensures db.nodes[11] == OpenTask && db.nodes[12] == OpenTask && db.nodes[22] == OtherTask
    ensures Misread(db, 1, 11, 12) && !HeldInside(db, 1, {11}, 12) && Misread(db, 1, 11, 22)
  {
    assert db.nodes[11] == OpenTask && db.nodes[12] == OpenTask && db.nodes[21] == OtherTask && db.nodes[22] == OtherTask;
    var held, from, over := Edge(11, 12), Edge(21, 12), Edge(11, 22);
    assert held in db.deps && from in db.deps && over in db.deps;
    assert held.blocker == 11 && held.blocked == 12 && from.blocker == 21 && from.blocked == 12
           && over.blocker == 11 && over.blocked == 22;
  }

  /** Marking task 11 done: in project 2 a task becomes ready that project 1's preview does
      not list, and in project 1 a task stays blocked that the preview lists as ready. */
  lemma CascadePreviewMisses(author: string, nodes: seq<NodeView>, deps: seq<Edge>, ix: Index)
    requires Lists(nodes, deps, Snapshot(ApplyAll(EmptyDb, Crossing(author)), 1)) && IndexOf(ix, nodes, deps)
    ensures var db := ApplyAll(EmptyDb, Crossing(author));
            var after := Apply(db, MarkDone(author, 11)).0;
            var effects := DependentEffects(ix, 11, At(ix.blocks, 11));
            22 in db.nodes && 22 in after.nodes && StatusIn(db, 22) == IsBlocked && StatusIn(after, 22) == IsReady
            && (forall e :: e in effects ==> e.node.id != 22)
            && 12 in db.nodes && 12 in after.nodes && StatusIn(after, 12) == IsBlocked
            && Effect(ViewOf(db, 12), IsReady, false) in effects
  {
    var db := ApplyAll(EmptyDb, Crossing(author));
    CrossingRows(author);
    CrossingMisreads(db);
    PreviewRow(db, 1, nodes, deps, ix, 11, 12);
    PreviewRow(db, 1, nodes, deps, ix, 11, 22);
    StatusAfterDone(db, author, 11, 12);
    StatusAfterDone(db, author, 11, 22);
    NoForeignRow(db, 1, nodes, deps, ix, 11, 22);
  }

  lemma NoForeignRow(db: Db, p: Id, nodes: seq<NodeView>, deps: seq<Edge>, ix: Index, n: Id, x: Id)
    requires Fresh(db, p, nodes, deps) && IndexOf(ix, nodes, deps) && !InProject(db.nodes, p, x)
    ensures forall e :: e in DependentEffects(ix, n, At(ix.blocks, n)) ==> e.node.id != x
  {
    EffectsMean(ix, n, At(ix.blocks, n));
    forall id { KnownIsViewed(db, p, nodes, deps, ix, id); }
  }

  // ---- undo -----------------------------------------------------------------------

  /** Undo the newest event of project 1. */
  function UndoNewest(author: string): Request {
    Undo(Meta(author, ""), 1, 0)
  }

  lemma NewestFound(db: Db, author: string)
    requires db.events != [] && LastEvent(db).project == 1
    ensures UndoesNewest(db, UndoNewest(author), 1) && FindEvent(db.events, 1, 0) == Some(LastEvent(db))
  {
  }

  lemma NewestIsFound(db: Db, r: Request, author: string)
    requires Inv(db) && Decide(db, r).Commit? && !r.CreateProject? && Decide(db, r).project == 1
    ensures var mid := Apply(db, r).0;
            Inv(mid) && mid.events != [] && UndoesNewest(mid, UndoNewest(author), 1)
            && FindEvent(mid.events, 1, 0) == Some(LastEvent(mid)) && LastEvent(mid).project == 1
  {
    NewestIsLast(db, r);
    NewestFound(Apply(db, r).0, author);
  }

  /** Undoing the finish of a task leaves project 1's clients with a done task that is open. */
  lemma UndoneFinishMisleads(author: string)
    ensures var db := ApplyAll(EmptyDb, OneFinishedTask(author));
            Decide(db, UndoNewest(author)).Commit? && !Exact(db, UndoNewest(author), 1)
  {
    var before := ApplyAll(EmptyDb, OneTask(author));
    var r, u := MarkDone(author, 11), UndoNewest(author);
    OneTaskRows(author);
    OneFinishedTaskRows(author);
    OneMore(OneTask(author), r);
    assert before.nodes[11] == OpenTask;
    StatusCommits(before, author, 11, 3);
    NewestIsFound(before, r, author);
    SetStatusLogs(before, r);
    UndoSetStatus(before, r, u);
    var db := ApplyAll(EmptyDb, OneFinishedTask(author));
    assert db.nodes[11] == DoneTask;
    UndoneStatusIsNotReported(db, u, LastEvent(db));
  }

  lemma FinishIsTold(author: string)
    ensures Retells(ApplyAll(EmptyDb, OneFinishedTask(author)))
  {
    var p1, p2, wp := NewProject(author, 1), NewProject(author, 2), NewNode(author, 10, 1, NO_ID, 1);
    assert OneFinishedTask(author) == [p1, p2, wp, NewNode(author, 11, 1, 10, 2), MarkDone(author, 11)];
    NothingIsRetold();
    LogRetells(EmptyDb, OneFinishedTask(author));
  }

  lemma UndoReopens(author: string)
    ensures var db := ApplyAll(EmptyDb, OneFinishedTask(author));
            var u := UndoNewest(author);
            Inv(db) && Decide(db, u).Commit? && 11 in db.nodes && db.nodes[11] == DoneTask
            && 11 in Apply(db, u).0.nodes && Apply(db, u).0.nodes[11] == OpenTask
  {
    var before := ApplyAll(EmptyDb, OneTask(author));
    var r := MarkDone(author, 11);
    OneTaskRows(author);
    OneFinishedTaskRows(author);
    OneMore(OneTask(author), r);
    assert before.nodes[11] == OpenTask;
    StatusCommits(before, author, 11, 3);
    NewestIsFound(before, r, author);
    UndoSetStatus(before, r, UndoNewest(author));
  }

  /** Until then the log told everything; after the undo it still tells that the task is done. */
  lemma UndoneFinishIsUntold(author: string)
    ensures var db := ApplyAll(EmptyDb, OneFinishedTask(author));
            Retells(db) && Decide(db, UndoNewest(author)).Commit? && !Retells(Apply(db, UndoNewest(author)).0)
  {
    FinishIsTold(author);
    UndoReopens(author);
    UndoRetoldExactly(ApplyAll(EmptyDb, OneFinishedTask(author)), UndoNewest(author));
  }

  /** Adding an edge that is there already, and undoing that, removes the edge. */
  lemma UndoRemovesAnOlderEdge(author: string)
    ensures var db := ApplyAll(EmptyDb, OneBlockedTask(author));
            var mid := ApplyAll(EmptyDb, OneBlockedTask(author) + [Link(author, 11, 12)]);
            Edge(11, 12) in db.deps && Edge(11, 12) in mid.deps && Decide(mid, UndoNewest(author)).Commit?
            && Edge(11, 12) !in Apply(mid, UndoNewest(author)).0.deps
  {
    var run, r := OneBlockedTask(author), Link(author, 11, 12);
    var db := ApplyAll(EmptyDb, run);
    OneBlockedTaskRows(author);
    OneMore(run, r);
    assert db.nodes[11] == OpenTask && db.nodes[12] == OpenTask;
    LinkCommits(db, author, Edge(11, 12));
    NewestIsFound(db, r, author);
    AddLogs(db, r);
    UndoOutcome(db, r, UndoNewest(author));
  }

  // ---- deleting -------------------------------------------------------------------

  /** A deleted node's creation event disappears with it. */
  lemma DeletingForgetsCreation(author: string)
    ensures var db := ApplyAll(EmptyDb, OneTask(author));
            var after := Apply(db, DeleteNode(Meta(author, ""), 11, false)).0;
            (exists e :: e in db.events && e.kind == NodeCreated && e.node == 11 && e !in after.events)
            && !(db.events <= after.events)
  {
    var db := ApplyAll(EmptyDb, OneTask(author));
    var r := DeleteNode(Meta(author, ""), 11, false);
    OneTaskRows(author);
    assert db.nodes[11] == OpenTask;
    TaskCreationLogged(author);
    var e :| e in db.events && e.kind == NodeCreated && e.node == 11;
    DeleteGoesThrough(db, r);
    AppendOnlyExactly(db, r);
    EventIsForgotten(db, r, e);
  }

  lemma TaskCreationLogged(author: string)
    ensures var db := ApplyAll(EmptyDb, OneTask(author));
            exists e :: e in db.events && e.kind == NodeCreated && e.node == 11
  {
    var before := ApplyAll(EmptyDb, OnePackage(author));
    var r := NewNode(author, 11, 1, 10, 2);
    OneMore(OnePackage(author), r);
    OnePackageRows(author);
    NodeCommits(before, author, 11, 1, 10, 2);
    CreateLogs(before, r);
    var db := ApplyAll(EmptyDb, OneTask(author));
    assert LastEvent(db) in db.events;
  }

  lemma EventIsForgotten(db: Db, r: Request, e: Event)
    requires Inv(db) && Decide(db, r).Commit? && e in db.events && e.node in Doomed(db, r)
    ensures e !in Apply(db, r).0.events
  {
    EveryCommitShape(db, r);
    GoneIsDoomed(db, r);
    OutsideMembers(db.events, Doomed(db, r));
    assert EventOk(db, e);
  }

  lemma FirstTaskAlone(db: Db)
    requires Inv(db) && db.nodes.Keys == {10, 11, 12} && db.nodes[10] == Package && db.nodes[11] == OpenTask
    requires db.nodes[12].parent == 10 && db.nodes[12].project == 1
    ensures Subtree(db.nodes, 11) == {11}
  {
    SubtreeIsTwoLevels(db.nodes, 11);
    assert Children(db.nodes, {11}) == {};
  }

  lemma FirstTaskListedAlone(db: Db, nodes: seq<NodeView>, deps: seq<Edge>)
    requires Inv(db) && db.nodes.Keys == {10, 11, 12} && db.nodes[10] == Package && db.nodes[11] == OpenTask
    requires db.nodes[12].parent == 10 && db.nodes[12].project == 1 && Lists(nodes, deps, Snapshot(db, 1))
    ensures Subtree(RowsOf(nodes), 11) == {11} && Subtree(db.nodes, 11) == {11}
    ensures ViewOf(db, 12) in Memory.NodesOutside(nodes, {11})
  {
    FirstTaskAlone(db);
    ClientSubtreeIsTheServers(db, 1, nodes, deps, 11);
    Memory.NodesOutsideShrinks(nodes, {11});
    ListedMeans(db, 1, nodes, deps);
  }

  /** Deleting the blocker frees the blocked task: the engine shows it ready, the demo
      store's lists still blocked. */
  lemma DemoStoreStaysBlocked(author: string, nodes: seq<NodeView>, deps: seq<Edge>)
    requires Lists(nodes, deps, Snapshot(ApplyAll(EmptyDb, OneBlockedTask(author)), 1))
    ensures var db := ApplyAll(EmptyDb, OneBlockedTask(author));
            var r := DeleteNode(Meta(author, ""), 11, false);
            var dead := Subtree(RowsOf(nodes), 11);
            Decide(db, r).Commit?
            && !Lists(Memory.NodesOutside(nodes, dead), Memory.DepsOutside(deps, dead), Snapshot(Apply(db, r).0, 1))
  {
    var db := ApplyAll(EmptyDb, OneBlockedTask(author));
    var r := DeleteNode(Meta(author, ""), 11, false);
    OneBlockedTaskRows(author);
    FirstTaskFrees(db);
    FirstTaskListedAlone(db, nodes, deps);
    DeleteGoesThrough(db, r);
    MemoryDeleteAgrees(db, 1, nodes, deps, r);
    assert !Lasts(db, 11, ViewOf(db, 12));
  }

  lemma FirstTaskFrees(db: Db)
    requires db.nodes == TwoTasks && db.deps == {Edge(11, 12)}
    ensures db.nodes[11] == OpenTask && db.nodes[12] == OpenTask && db.nodes[10] == Package && Freed(db, {11}, 12)
  {
    assert db.nodes[11] == OpenTask && db.nodes[12] == OpenTask && db.nodes[10] == Package;
    assert Edge(11, 12) in db.deps;
  }

  /** And the dependent is done. */
  function BlockedThenDone(author: string): seq<Request> {
    OneBlockedTask(author) + [MarkDone(author, 12)]
  }

  lemma BlockedThenDoneRows(author: string)
    ensures Leads(BlockedThenDone(author), {1, 2}, TwoTasks[12 := DoneTask], {Edge(11, 12)})
  {
    OneBlockedTaskRows(author);
    assert TwoTasks[12] == OpenTask;
    StatusMade(OneBlockedTask(author), {1, 2}, TwoTasks, {Edge(11, 12)}, author, 12, 3);
  }

  /** The dialog's row for a done dependent of a node it deletes alone. */
  lemma DoneRow(db: Db, p: Id, nodes: seq<NodeView>, deps: seq<Edge>, ix: Index, n: Id, x: Id)
    requires Fresh(db, p, nodes, deps) && IndexOf(ix, nodes, deps) && InProject(db.nodes, p, n) && InProject(db.nodes, p, x)
    requires Subtree(RowsOf(nodes), n) == {n} && db.deps == {Edge(n, x)} && x != n
    ensures Effect(ViewOf(db, x), IsReady, false) in UnblockedBy(ix, deps, {n})
  {
    var e := Edge(n, x);
    assert e in db.deps && e.blocker == n && e.blocked == x;
    UnblockedRows(db, p, nodes, deps, ix, n, x);
    HeldAsKnown(db, p, nodes, deps, ix, {n}, x);
  }

  lemma DoneStays(db: Db, author: string)
    requires Inv(db) && 11 in db.nodes && 12 in db.nodes && db.nodes[12].declared == Done && Subtree(db.nodes, 11) == {11}
    ensures var r := DeleteNode(Meta(author, ""), 11, false);
            Decide(db, r).Commit? && 12 in Apply(db, r).0.nodes && StatusIn(Apply(db, r).0, 12) == IsDone
  {
    var r := DeleteNode(Meta(author, ""), 11, false);
    DeleteGoesThrough(db, r);
    DeleteIsExact(db, r);
  }

  /** The delete dialog for task 11 then says that task 12 will be ready; it is done, and
      stays so. */
  lemma DialogPromisesReadyToDone(author: string, nodes: seq<NodeView>, deps: seq<Edge>, ix: Index)
    requires Lists(nodes, deps, Snapshot(ApplyAll(EmptyDb, BlockedThenDone(author)), 1)) && IndexOf(ix, nodes, deps)
    ensures var db := ApplyAll(EmptyDb, BlockedThenDone(author));
            var r := DeleteNode(Meta(author, ""), 11, false);
            Decide(db, r).Commit? && 12 in db.nodes && 12 in Apply(db, r).0.nodes && StatusIn(Apply(db, r).0, 12) == IsDone
            && Effect(ViewOf(db, 12), IsReady, false) in UnblockedBy(ix, deps, Subtree(RowsOf(nodes), 11))
  {
    var db := ApplyAll(EmptyDb, BlockedThenDone(author));
    BlockedThenDoneRows(author);
    assert db.nodes[11] == OpenTask && db.nodes[12] == DoneTask && db.nodes[10] == Package;
    FirstTaskListedAlone(db, nodes, deps);
    DoneRow(db, 1, nodes, deps, ix, 11, 12);
    DoneStays(db, author);
  }

  // ---- marking a package done -----------------------------------------------------

  /** The preview of marking the package done says that its task will be done; it stays
      ready. */
  lemma PackageRowsPromise(author: string, nodes: seq<NodeView>, deps: seq<Edge>)
    requires Lists(nodes, deps, Snapshot(ApplyAll(EmptyDb, OneTask(author)), 1))
    ensures var db := ApplyAll(EmptyDb, OneTask(author));
            var after := Apply(db, MarkDone(author, 10)).0;
            11 in db.nodes && Effect(ViewOf(db, 11), IsDone, false) in PackageEffects(Under(nodes, 10, Task))
            && 11 in after.nodes && StatusIn(after, 11) == IsReady
  {
    var db := ApplyAll(EmptyDb, OneTask(author));
    OneTaskRows(author);
    assert db.nodes[11] == OpenTask && db.nodes[10] == Package;
    ListedMeans(db, 1, nodes, deps);
    UnderMeans(nodes, 10, Task);
    assert ViewOf(db, 11) in Under(nodes, 10, Task);
    PackageEffectsMean(Under(nodes, 10, Task));
    MarkDoneRows(db, author, 10);
  }
}
