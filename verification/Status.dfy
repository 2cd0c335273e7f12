/** What the `node_state` view and the progress query derive from the tables. */
module Status {
  import opened FlowTypes

  /** Some direct blocker of the node is declared something other than DONE. */
  predicate Waiting(nodes: map<Id, Node>, deps: set<Edge>, id: Id) {
    exists e :: e in deps && e.blocked == id && e.blocker in nodes && nodes[e.blocker].declared != Done
  }

  /** Some direct blocker outside s is not done. */
  predicate HeldBesides(nodes: map<Id, Node>, deps: set<Edge>, s: set<Id>, id: Id) {
    exists e :: e in deps && e.blocked == id && e.blocker in nodes && nodes[e.blocker].declared != Done
                && e.blocker !in s
  }

  function EffectiveOf(nodes: map<Id, Node>, deps: set<Edge>, id: Id): Effective
    requires id in nodes
  {
    match nodes[id].declared
    case Done => IsDone
    case Deferred => IsDeferred
    case Open => if Waiting(nodes, deps, id) then IsBlocked else IsReady
  }

  function ViewOf(db: Db, id: Id): NodeView
    requires id in db.nodes
  {
    NodeView(id, db.nodes[id], EffectiveOf(db.nodes, db.deps, id),
             if id in db.verifs then Some(db.verifs[id]) else None)
  }

  function StatusIn(db: Db, id: Id): Effective
    requires id in db.nodes
  {
    EffectiveOf(db.nodes, db.deps, id)
  }

  // ---- progress -------------------------------------------------------------------

  predicate TaskUnder(nodes: map<Id, Node>, project: Id, wp: Id, t: Id) {
    t in nodes && nodes[t].kind == Task && nodes[t].project == project && nodes[t].parent == wp
  }

  predicate HasSteps(nodes: map<Id, Node>, t: Id) {
    exists s :: s in nodes && nodes[s].kind == Step && nodes[s].parent == t
  }

  /** The rows the progress query joins for one package: each step of each of its tasks,
      and each task that has no step. */
  predicate LeafUnder(nodes: map<Id, Node>, project: Id, wp: Id, l: Id) {
    l in nodes &&
    ((nodes[l].kind == Step && TaskUnder(nodes, project, wp, nodes[l].parent))
     || (TaskUnder(nodes, project, wp, l) && !HasSteps(nodes, l)))
  }

  function Leaves(nodes: map<Id, Node>, project: Id, wp: Id): set<Id> {
    set l | l in nodes && LeafUnder(nodes, project, wp, l)
  }

  function LeavesWith(nodes: map<Id, Node>, deps: set<Edge>, project: Id, wp: Id, status: Effective): set<Id> {
    set l | l in nodes && LeafUnder(nodes, project, wp, l) && EffectiveOf(nodes, deps, l) == status
  }

  function PackagesOf(nodes: map<Id, Node>, project: Id): set<Id> {
    set t | t in nodes && nodes[t].kind == Task && nodes[t].project == project :: nodes[t].parent
  }

  function PackageProgress(nodes: map<Id, Node>, deps: set<Edge>, project: Id, wp: Id): Progress {
    Progress(|Leaves(nodes, project, wp)|,
             |LeavesWith(nodes, deps, project, wp, IsDone)|,
             |LeavesWith(nodes, deps, project, wp, IsReady)|,
             |LeavesWith(nodes, deps, project, wp, IsBlocked)|,
             |LeavesWith(nodes, deps, project, wp, IsDeferred)|)
  }

  /** One row per package that has a task in the project. */
  function ProgressFor(nodes: map<Id, Node>, deps: set<Edge>, project: Id): map<Id, Progress> {
    map wp | wp in PackagesOf(nodes, project) :: PackageProgress(nodes, deps, project, wp)
  }
}
