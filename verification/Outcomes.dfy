/** What the store does with each request that is not a retry: when it commits, with what code
    it is refused otherwise, and what the tables are then. Masked updates and deletes are in
    `Edits`, undo is in `Undo`. */
module Outcomes {
  import opened FlowTypes
  import opened Graph
  import opened Forest
  import opened Engine
  import opened Invariants
  import opened Effects
  import opened Undo

  /** The scope's ledger has no row for the request's key. */
  predicate Unheard(db: Db, scope: Id, r: Request) {
    r.meta.key == "" || LedgerKey(scope, r.meta.key) !in db.ledger
  }

  predicate Refused(db: Db, r: Request, code: Code) {
    Decide(db, r) == Reject(code)
  }

  /** The request commits; only these three tables, the log and the ledger may change. */
  ghost predicate Leaves(db: Db, r: Request, nodes: map<Id, Node>, deps: set<Edge>, verifs: map<Id, Verification>) {
    var after := Apply(db, r).0;
    Decide(db, r).Commit? && after.nodes == nodes && after.deps == deps && after.verifs == verifs
  }

  /** Requests about a node: an unknown one is not found. */
  lemma UnknownNode(db: Db, r: Request)
    requires r.UpdateNode? || r.DeleteNode? || r.SetStatus? || r.ReportCondition? || r.SetVerdict? || r.AddComment? || r.MoveNode?
    requires r.node !in db.nodes
    ensures Refused(db, r, NotFound) && Apply(db, r).0 == db
  {
  }

  /** Code 1 makes a package, which has no parent; 2 a task, under a package; any other a step,
      under a task. A parent of the wrong kind is refused as such before anything else is
      looked at, and so is an unknown one except for a package; a parent missing or too many,
      a taken identifier and an unknown project are faults of another kind. */
  lemma CreateMeans(db: Db, r: Request)
    requires Inv(db) && r.CreateNode? && Unheard(db, r.project, r)
    ensures var kind := if r.kindCode == 1 then WorkPackage else if r.kindCode == 2 then Task else Step;
            var misfit := r.parent != NO_ID
                          && if r.kindCode == 1 then r.parent in db.nodes
                             else KindOf(db.nodes, r.parent) != Some(if r.kindCode == 2 then WorkPackage else Task);
            if misfit then Refused(db, r, FailedPrecondition)
            else if (r.kindCode == 1) != (r.parent == NO_ID) || r.minted in db.nodes || r.project !in db.projects
            then Refused(db, r, Internal)
            else Leaves(db, r,
                        db.nodes[r.minted := Node(r.project, r.parent, kind, r.title, r.description, r.condition,
                                                  r.note, r.reference, Open,
                                                  if r.kindCode == 1 then Some(Planned) else None, r.position)],
                        db.deps, db.verifs)
  {
    CreateTxnCreates(db, r);
  }

  /** Code 1 opens, 2 defers, any other finishes. */
  lemma StatusMeans(db: Db, r: Request)
    requires Inv(db) && r.SetStatus? && r.node in db.nodes && Unheard(db, db.nodes[r.node].project, r)
    ensures var declared := if r.declaredCode == 1 then Open else if r.declaredCode == 2 then Deferred else Done;
            Leaves(db, r, db.nodes[r.node := db.nodes[r.node].(declared := declared)], db.deps, db.verifs)
  {
    var scope, after := db.nodes[r.node].project, SetDeclared(db, r.node, DeclaredStr(r.declaredCode));
    OneEventTxn(after, scope, r.node, StatusSet, r.meta,
                StatusChange(db.nodes[r.node].declared, DeclaredStr(r.declaredCode)), NO_ID, {r.node} + Downstream(db, r.node));
    assert Decide(db, r) == FromTxn(scope, SetStatusTxn(db, r, scope));
  }

  /** An edge that would close a cycle is refused before its ends are looked at. */
  lemma LinkMeans(db: Db, r: Request)
    requires Inv(db) && r.AddDependency?
    requires Unheard(db, if r.blocker in db.nodes then db.nodes[r.blocker].project else NO_ID, r)
    ensures if Reaches(db.deps, r.blocked, r.blocker) then Refused(db, r, FailedPrecondition)
            else if r.blocker !in db.nodes || r.blocked !in db.nodes then Refused(db, r, Internal)
            else Leaves(db, r, db.nodes, db.deps + {Edge(r.blocker, r.blocked)}, db.verifs)
  {
    var e := Edge(r.blocker, r.blocked);
    var scope := if r.blocker in db.nodes then db.nodes[r.blocker].project else NO_ID;
    RelinkExactly(db, e);
    FollowIsReach(db.deps, {r.blocked}, r.blocker);
    LinkTxnLinks(db, r, scope);
    assert Decide(db, r) == FromTxn(scope, AddDependencyTxn(db, r, scope));
  }

  /** A removal asks only for a blocker that exists: the edge need not be there. */
  lemma UnlinkMeans(db: Db, r: Request)
    requires Inv(db) && r.RemoveDependency?
    requires Unheard(db, if r.blocker in db.nodes then db.nodes[r.blocker].project else NO_ID, r)
    ensures if r.blocker in db.nodes then Leaves(db, r, db.nodes, db.deps - {Edge(r.blocker, r.blocked)}, db.verifs)
            else Refused(db, r, Internal)
  {
  }

  lemma ReportMeans(db: Db, r: Request)
    requires Inv(db) && r.ReportCondition? && r.node in db.nodes && Unheard(db, db.nodes[r.node].project, r)
    ensures if r.resultCode != 1 && r.resultCode != 2 then Refused(db, r, InvalidArgument)
            else Leaves(db, r, db.nodes, db.deps,
                        db.verifs[r.node := Verification(Some(if r.resultCode == 1 then Pass else Fail), r.meta.author, r.detail,
                                                         if r.node in db.verifs then db.verifs[r.node].human else None)])
  {
  }

  /** Code 1 accepts, 2 rejects, any other withdraws, which makes no row. */
  lemma VerdictMeans(db: Db, r: Request)
    requires Inv(db) && r.SetVerdict? && r.node in db.nodes && Unheard(db, db.nodes[r.node].project, r)
    ensures var was := if r.node in db.verifs then db.verifs[r.node] else Verification(None, "", "", None);
            Leaves(db, r, db.nodes, db.deps,
                   if r.verdictCode == 1 then db.verifs[r.node := was.(human := Some(Accepted))]
                   else if r.verdictCode == 2 then db.verifs[r.node := was.(human := Some(Rejected))]
                   else if r.node in db.verifs then db.verifs[r.node := was.(human := None)] else db.verifs)
  {
    OneEventTxn(RuleOn(db, r.node, r.verdictCode), db.nodes[r.node].project, r.node, VerdictSet, r.meta, NoPayload,
                NO_ID, {r.node});
  }

  lemma CommentMeans(db: Db, r: Request)
    requires Inv(db) && r.AddComment? && r.node in db.nodes && Unheard(db, db.nodes[r.node].project, r)
    ensures Leaves(db, r, db.nodes, db.deps, db.verifs)
  {
  }

  lemma ProjectMeans(db: Db, r: Request)
    requires Inv(db) && r.CreateProject? && Unheard(db, NO_ID, r)
    ensures if r.minted in db.projects then Refused(db, r, Internal)
            else Leaves(db, r, db.nodes, db.deps, db.verifs) && Apply(db, r).0.projects == db.projects + {r.minted}
                 && Apply(db, r).0.events == db.events
  {
  }

  // ---- moves ----------------------------------------------------------------------

  /** The parent is one for a node of this code, in the same project. */
  predicate Welcomes(db: Db, parent: Id, project: Id, kindCode: int) {
    parent in db.nodes && db.nodes[parent].project == project
    && db.nodes[parent].kind == if kindCode == 2 then WorkPackage else Task
  }

  lemma {:induction false} DropStepsSucceeds(t: Txn, project: Id, author: string, ids: seq<Id>)
    requires project in t.db.projects
    ensures DropSteps(t, project, author, ids).Success?
            && DropSteps(t, project, author, ids).value.db.projects == t.db.projects
    decreases |ids|
  {
    if ids != [] {
      DropStepsSucceeds(DropStep(t, project, author, ids[0]).value, project, author, ids[1..]);
    }
  }

  lemma MoveDropSucceeds(db: Db, r: Request, project: Id)
    requires Inv(db) && r.MoveNode? && r.node in db.nodes && project == db.nodes[r.node].project
    ensures var d := MoveDrop(db, r, project);
            d.Success? && d.value.db.projects == db.projects && d.value.db.nodes == db.nodes - Lost(db, r)
  {
    DropStepsSucceeds(Txn(db, [], {r.node}), project, r.meta.author, Rows(Children(db.nodes, {r.node})));
    MoveLoses(db, r, project);
    if Lost(db, r) == {} {
      assert db.nodes - {} == db.nodes;
    }
  }

  /** A lost step is no parent for anything. */
  lemma LostAreSteps(db: Db, r: Request)
    requires Inv(db) && r.MoveNode? && r.node in db.nodes
    ensures forall x :: x in Lost(db, r) ==> x in db.nodes && db.nodes[x].kind == Step
  {
    forall x | x in Lost(db, r)
      ensures db.nodes[x].kind == Step
    {
      assert Placed(db.nodes, db.nodes[x]);
    }
  }

  predicate HasChildren(nodes: map<Id, Node>, n: Id) {
    exists c :: c in nodes && nodes[c].parent == n
  }

  /** The steps of a task stay in the way exactly when the code means a step but is not its
      own. */
  lemma ChildrenInTheWay(db: Db, r: Request)
    requires Inv(db) && r.MoveNode? && r.node in db.nodes
    requires db.nodes[r.node].kind != WorkPackage && r.kindCode != 1
    ensures var left := db.nodes - Lost(db, r);
            (exists c :: c in left && left[c].parent == r.node && Some(left[c].kind) != ChildKindFor(KindStr(r.kindCode)))
            <==> HasChildren(db.nodes, r.node) && r.kindCode != 2 && r.kindCode != 3
  {
    var left := db.nodes - Lost(db, r);
    forall c | c in db.nodes && db.nodes[c].parent == r.node
      ensures db.nodes[c].kind == Step && db.nodes[r.node].kind == Task && (r.kindCode == 3 <==> c !in left)
    {
      assert Placed(db.nodes, db.nodes[c]);
    }
    if HasChildren(db.nodes, r.node) && r.kindCode != 2 && r.kindCode != 3 {
      var c :| c in db.nodes && db.nodes[c].parent == r.node;
      assert c in left && left[c].parent == r.node && Some(left[c].kind) != ChildKindFor(KindStr(r.kindCode));
    }
  }

  lemma PlaceExactly(db: Db, r: Request, project: Id, mid: Db, position: Int32)
    requires Inv(db) && r.MoveNode? && r.node in db.nodes && project == db.nodes[r.node].project
    requires db.nodes[r.node].kind != WorkPackage && r.kindCode != 1 && r.parent != r.node
    requires mid.nodes == db.nodes - Lost(db, r) && r.node in mid.nodes
    ensures var placed := PlaceNode(mid, r.node, r.parent, KindStr(r.kindCode), position);
            if r.parent != NO_ID && !Welcomes(db, r.parent, project, r.kindCode)
            then placed == Failure(FailedPrecondition)
            else if HasChildren(db.nodes, r.node) && r.kindCode != 2 && r.kindCode != 3
            then placed == Failure(FailedPrecondition)
            else if r.parent == NO_ID then placed == Failure(Internal)
            else placed.Success? && placed.value.projects == mid.projects && placed.value.nodes.Keys == mid.nodes.Keys
  {
    LostAreSteps(db, r);
    ChildrenInTheWay(db, r);
    assert Placed(db.nodes, db.nodes[r.node]);
  }

  /** A move, once the plain refusals are past, commits exactly when the new parent is one for
      the node, of its project, and a task with steps is asked to stay a task or become a step
      by its own code: another code means a step too, but leaves its steps where they are. */
  lemma MoveGoesThrough(db: Db, r: Request)
    requires Inv(db) && r.MoveNode? && r.node in db.nodes && Unheard(db, db.nodes[r.node].project, r)
    ensures var steps := HasChildren(db.nodes, r.node);
            if r.kindCode == 0 then Refused(db, r, InvalidArgument)
            else if db.nodes[r.node].kind == WorkPackage || r.kindCode == 1 || r.parent == r.node
            then Refused(db, r, FailedPrecondition)
            else if r.parent != NO_ID && !Welcomes(db, r.parent, db.nodes[r.node].project, r.kindCode)
            then Refused(db, r, FailedPrecondition)
            else if steps && r.kindCode != 2 && r.kindCode != 3 then Refused(db, r, FailedPrecondition)
            else if r.parent == NO_ID then Refused(db, r, Internal)
            else Decide(db, r).Commit?
  {
    if r.kindCode != 0 && db.nodes[r.node].kind != WorkPackage && r.kindCode != 1 && r.parent != r.node {
      var project := db.nodes[r.node].project;
      MoveTxnGoesThrough(db, r, project);
      assert Decide(db, r) == FromTxn(project, MoveNodeTxn(db, r, project));
    }
  }

  lemma MoveTxnGoesThrough(db: Db, r: Request, project: Id)
    requires Inv(db) && r.MoveNode? && r.node in db.nodes && project == db.nodes[r.node].project
    requires db.nodes[r.node].kind != WorkPackage && r.kindCode != 1 && r.parent != r.node
    ensures var steps := HasChildren(db.nodes, r.node);
            var t := MoveNodeTxn(db, r, project);
            if r.parent != NO_ID && !Welcomes(db, r.parent, project, r.kindCode) then t == Failure(FailedPrecondition)
            else if steps && r.kindCode != 2 && r.kindCode != 3 then t == Failure(FailedPrecondition)
            else if r.parent == NO_ID then t == Failure(Internal)
            else t.Success?
  {
    MoveDropSucceeds(db, r, project);
    MoveLoses(db, r, project);
    var was := db.nodes[r.node];
    var dropped := MoveDrop(db, r, project).value;
    var cleared := dropped.(db := MoveClear(dropped.db, r, was));
    assert cleared.db.nodes == db.nodes - Lost(db, r) && r.node in cleared.db.nodes;
    PlaceExactly(db, r, project, cleared.db, NextPosition(cleared.db.nodes, r.parent));
    var placed := PlaceNode(cleared.db, r.node, r.parent, KindStr(r.kindCode), NextPosition(cleared.db.nodes, r.parent));
    if placed.Success? {
      assert project in placed.value.projects && r.node in placed.value.nodes;
    }
  }
}
