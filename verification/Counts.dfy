/** Progress, counted four ways: by the store's query, by the web client, by the terminal
    client, and over a whole project by the terminal client's own store. */
module Counts {
  import opened FlowTypes
  import opened Forest
  import opened Status
  import opened Delta
  import opened Listing
  import opened Derive

  // ---- counting a list ------------------------------------------------------------

  function Where<T>(s: seq<T>, f: T -> bool): set<nat> {
    set i: nat | i < |s| && f(s[i])
  }

  function IdsWhere(nodes: seq<NodeView>, f: NodeView -> bool): set<Id> {
    set n | n in nodes && f(n) :: n.id
  }

  function Having(status: Effective): NodeView -> bool {
    (n: NodeView) => n.status == status
  }

  /** How many entries of the list have each status. */
  function Tally(nodes: seq<NodeView>): Progress {
    Progress(|nodes|, |Where(nodes, Having(IsDone))|, |Where(nodes, Having(IsReady))|,
             |Where(nodes, Having(IsBlocked))|, |Where(nodes, Having(IsDeferred))|)
  }

  function Bump(c: Progress, status: Effective): Progress {
    match status
    case IsDone => c.(total := c.total + 1, done := c.done + 1)
    case IsReady => c.(total := c.total + 1, ready := c.ready + 1)
    case IsBlocked => c.(total := c.total + 1, blocked := c.blocked + 1)
    case IsDeferred => c.(total := c.total + 1, deferred := c.deferred + 1)
  }

  lemma WhereAppend<T>(s: seq<T>, x: T, f: T -> bool)
    ensures |Where(s + [x], f)| == |Where(s, f)| + if f(x) then 1 else 0
  {
    var before, after := Where(s, f), Where(s + [x], f);
    assert forall i :: 0 <= i < |s| ==> (s + [x])[i] == s[i];
    if f(x) {
      assert after == before + {|s|};
    } else {
      assert after == before;
    }
  }

  lemma TallyAppend(nodes: seq<NodeView>, n: NodeView)
    ensures Tally(nodes + [n]) == Bump(Tally(nodes), n.status)
  {
    forall status: Effective
      ensures |Where(nodes + [n], Having(status))|
              == |Where(nodes, Having(status))| + if n.status == status then 1 else 0
    {
      WhereAppend(nodes, n, Having(status));
    }
  }

  lemma TallyTakes(nodes: seq<NodeView>, front: seq<NodeView>, i: nat)
    requires i < |nodes|
    ensures Tally(front + nodes[..i + 1]) == Bump(Tally(front + nodes[..i]), nodes[i].status)
  {
    assert front + nodes[..i + 1] == (front + nodes[..i]) + [nodes[i]];
    TallyAppend(front + nodes[..i], nodes[i]);
  }

  lemma TallyNothing()
    ensures Tally([]) == Progress(0, 0, 0, 0, 0)
  {
  }

  lemma IdsWhereAppend(nodes: seq<NodeView>, n: NodeView, f: NodeView -> bool)
    requires forall m :: m in nodes ==> m.id != n.id
    ensures |IdsWhere(nodes + [n], f)| == |IdsWhere(nodes, f)| + if f(n) then 1 else 0
  {
    var here: set<Id> := if f(n) then {n.id} else {};
    assert forall m :: m in nodes + [n] <==> m in nodes || m == n;
    assert IdsWhere(nodes + [n], f) == IdsWhere(nodes, f) + here;
  }

  /** Without repeated ids, counting entries is counting ids. */
  lemma {:induction false} WhereIsIds(nodes: seq<NodeView>, f: NodeView -> bool)
    requires DistinctIds(nodes)
    ensures |Where(nodes, f)| == |IdsWhere(nodes, f)|
  {
    if nodes != [] {
      var front := nodes[..|nodes| - 1];
      var last := nodes[|nodes| - 1];
      assert nodes == front + [last];
      WhereIsIds(front, f);
      WhereAppend(front, last, f);
      IdsWhereAppend(front, last, f);
    }
  }

  // ---- the leaves of a package ----------------------------------------------------

  /** The listed children of one kind. */
  function Under(nodes: seq<NodeView>, parent: Id, kind: Kind): seq<NodeView> {
    Filter(nodes, ChildOf(parent, kind))
  }

  function ChildOf(parent: Id, kind: Kind): NodeView -> bool {
    (n: NodeView) => n.row.kind == kind && n.row.parent == parent
  }

  lemma UnderMeans(nodes: seq<NodeView>, parent: Id, kind: Kind)
    ensures forall n :: n in Under(nodes, parent, kind)
                        <==> n in nodes && n.row.kind == kind && n.row.parent == parent
    ensures DistinctIds(nodes) ==> DistinctIds(Under(nodes, parent, kind))
  {
    FilterMeans(nodes, ChildOf(parent, kind));
  }

  /** A task's leaves: its steps, or itself when it has none. */
  function LeavesOfTask(nodes: seq<NodeView>, task: NodeView): seq<NodeView> {
    var steps := Under(nodes, task.id, Step);
    if steps == [] then [task] else steps
  }

  function LeavesOf(nodes: seq<NodeView>, tasks: seq<NodeView>): seq<NodeView> {
    if tasks == [] then [] else
    LeavesOf(nodes, tasks[..|tasks| - 1]) + LeavesOfTask(nodes, tasks[|tasks| - 1])
  }

  /** What both clients display for a package. */
  function PackageTally(nodes: seq<NodeView>, wp: Id): Progress {
    Tally(LeavesOf(nodes, Under(nodes, wp, Task)))
  }

  method CountStatuses(nodes: seq<NodeView>) returns (c: Progress)
    ensures c == Tally(nodes)
  {
    c := Progress(0, 0, 0, 0, 0);
    TallyNothing();
    for i := 0 to |nodes|
      invariant c == Tally(nodes[..i])
    {
      assert nodes[..i + 1] == nodes[..i] + [nodes[i]];
      TallyAppend(nodes[..i], nodes[i]);
      c := c.(total := c.total + 1);
      match nodes[i].status {
        case IsDone => c := c.(done := c.done + 1);
        case IsReady => c := c.(ready := c.ready + 1);
        case IsBlocked => c := c.(blocked := c.blocked + 1);
        case IsDeferred => c := c.(deferred := c.deferred + 1);
      }
    }
    assert nodes[..|nodes|] == nodes;
  }

  method WpCounts(nodes: seq<NodeView>, wp: Id) returns (c: Progress)
    ensures c == PackageTally(nodes, wp)
  {
    var tasks := Under(nodes, wp, Task);
    var leaves: seq<NodeView> := [];
    for i := 0 to |tasks|
      invariant leaves == LeavesOf(nodes, tasks[..i])
    {
      assert tasks[..i + 1][..i] == tasks[..i];
      var steps := Under(nodes, tasks[i].id, Step);
      if |steps| > 0 {
        leaves := leaves + steps;
      } else {
        leaves := leaves + [tasks[i]];
      }
    }
    assert tasks[..|tasks|] == tasks;
    c := CountStatuses(leaves);
  }

  // ---- what the count means -------------------------------------------------------

  predicate LeafOfTask(nodes: seq<NodeView>, t: NodeView, l: NodeView) {
    l in nodes
    && ((l.row.kind == Step && l.row.parent == t.id) || (l == t && forall s :: s in nodes ==> !StepOf(s, t.id)))
  }

  predicate StepOf(s: NodeView, task: Id) {
    s.row.kind == Step && s.row.parent == task
  }

  lemma LeavesOfTaskMeans(nodes: seq<NodeView>, t: NodeView)
    requires t in nodes && DistinctIds(nodes)
    ensures forall l :: l in LeavesOfTask(nodes, t) <==> LeafOfTask(nodes, t, l)
    ensures DistinctIds(LeavesOfTask(nodes, t))
  {
    UnderMeans(nodes, t.id, Step);
    var steps := Under(nodes, t.id, Step);
    if steps == [] {
      forall s | s in nodes
        ensures !StepOf(s, t.id)
      {
        assert s !in steps;
      }
    } else {
      assert steps[0] in steps && StepOf(steps[0], t.id);
    }
  }

  /** No leaf belongs to two tasks. */
  lemma LeavesApart(nodes: seq<NodeView>, t: NodeView, u: NodeView, l: NodeView, m: NodeView)
    requires DistinctIds(nodes) && t in nodes && u in nodes && t.id != u.id
    requires t.row.kind == Task && u.row.kind == Task
    requires LeafOfTask(nodes, t, l) && LeafOfTask(nodes, u, m)
    ensures l.id != m.id
  {
  }

  lemma {:induction false} LeavesOfMeans(nodes: seq<NodeView>, tasks: seq<NodeView>)
    requires DistinctIds(nodes) && DistinctIds(tasks)
    requires forall t :: t in tasks ==> t in nodes && t.row.kind == Task
    ensures forall l :: l in LeavesOf(nodes, tasks) <==> exists t :: t in tasks && LeafOfTask(nodes, t, l)
    ensures DistinctIds(LeavesOf(nodes, tasks))
  {
    if tasks != [] {
      var front := tasks[..|tasks| - 1];
      var last := tasks[|tasks| - 1];
      assert tasks == front + [last];
      LeavesOfMeans(nodes, front);
      LeavesOfTaskMeans(nodes, last);
      var before, here := LeavesOf(nodes, front), LeavesOfTask(nodes, last);
      forall l, m | l in before && m in here
        ensures l.id != m.id
      {
        var t :| t in front && LeafOfTask(nodes, t, l);
        var i :| 0 <= i < |front| && front[i] == t;
        LeavesApart(nodes, t, last, l, m);
      }
      ConcatDistinct(before, here);
    }
  }

  // ---- against the store's query --------------------------------------------------

  lemma ListedMeans(db: Db, p: Id, nodes: seq<NodeView>, deps: seq<Edge>)
    requires Lists(nodes, deps, Snapshot(db, p))
    ensures forall n :: n in nodes <==> InProject(db.nodes, p, n.id) && n == ViewOf(db, n.id)
  {
    forall n | n in nodes
      ensures InProject(db.nodes, p, n.id) && n == ViewOf(db, n.id)
    {
      var i :| 0 <= i < |nodes| && nodes[i] == n;
      assert n.id in SnapNodes(db, p);
    }
    forall id | InProject(db.nodes, p, id)
      ensures ViewOf(db, id) in nodes
    {
      assert id in SnapNodes(db, p);
    }
  }

  /** The steps under the package's tasks in p are p's own. */
  ghost predicate OwnSteps(nodes: map<Id, Node>, p: Id, wp: Id) {
    forall s :: s in nodes && nodes[s].kind == Step && TaskUnder(nodes, p, wp, nodes[s].parent) ==> nodes[s].project == p
  }

  /** A listed node is a leaf of some listed task of the package exactly when the query
      joins its row. */
  lemma LeafIsJoined(db: Db, p: Id, nodes: seq<NodeView>, deps: seq<Edge>, wp: Id, id: Id)
    requires OwnSteps(db.nodes, p, wp) && Lists(nodes, deps, Snapshot(db, p))
    ensures LeafUnder(db.nodes, p, wp, id)
            <==> id in db.nodes && exists t :: t in Under(nodes, wp, Task) && LeafOfTask(nodes, t, ViewOf(db, id))
  {
    ListedMeans(db, p, nodes, deps);
    UnderMeans(nodes, wp, Task);
    if LeafUnder(db.nodes, p, wp, id) {
      var t := if db.nodes[id].kind == Step then db.nodes[id].parent else id;
      assert ViewOf(db, t) in nodes;
      if db.nodes[id].kind == Step {
        assert ViewOf(db, id) in nodes;
      } else {
        forall s | s in nodes
          ensures !StepOf(s, id)
        {
          assert !HasSteps(db.nodes, id);
        }
      }
      assert ViewOf(db, t) in Under(nodes, wp, Task) && LeafOfTask(nodes, ViewOf(db, t), ViewOf(db, id));
    }
    if id in db.nodes && exists t :: t in Under(nodes, wp, Task) && LeafOfTask(nodes, t, ViewOf(db, id)) {
      var t :| t in Under(nodes, wp, Task) && LeafOfTask(nodes, t, ViewOf(db, id));
      assert TaskUnder(db.nodes, p, wp, t.id);
      StepsAreListed(db, p, nodes, deps, wp, t.id);
    }
  }

  lemma StepsAreListed(db: Db, p: Id, nodes: seq<NodeView>, deps: seq<Edge>, wp: Id, t: Id)
    requires OwnSteps(db.nodes, p, wp) && Lists(nodes, deps, Snapshot(db, p)) && TaskUnder(db.nodes, p, wp, t)
    ensures HasSteps(db.nodes, t) ==> exists s :: s in nodes && StepOf(s, t)
  {
    ListedMeans(db, p, nodes, deps);
    if HasSteps(db.nodes, t) {
      var s :| s in db.nodes && db.nodes[s].kind == Step && db.nodes[s].parent == t;
      assert ViewOf(db, s) in nodes && StepOf(ViewOf(db, s), t);
    }
  }

  lemma LeafIds(db: Db, p: Id, nodes: seq<NodeView>, deps: seq<Edge>, wp: Id)
    requires OwnSteps(db.nodes, p, wp) && Lists(nodes, deps, Snapshot(db, p))
    ensures var leaves := LeavesOf(nodes, Under(nodes, wp, Task));
            DistinctIds(leaves)
            && forall n :: n in leaves <==> LeafUnder(db.nodes, p, wp, n.id) && n == ViewOf(db, n.id)
  {
    var tasks := Under(nodes, wp, Task);
    ListedMeans(db, p, nodes, deps);
    UnderMeans(nodes, wp, Task);
    LeavesOfMeans(nodes, tasks);
    forall n
      ensures n in LeavesOf(nodes, tasks) <==> LeafUnder(db.nodes, p, wp, n.id) && n == ViewOf(db, n.id)
    {
      LeafIsJoined(db, p, nodes, deps, wp, n.id);
    }
  }

  /** On a project's own lists, what the clients count for a package is what the store's
      query returns for it, as long as no other project has a step under its tasks. */
  lemma CountsAreTheQuery(db: Db, p: Id, nodes: seq<NodeView>, deps: seq<Edge>, wp: Id)
    requires OwnSteps(db.nodes, p, wp) && Lists(nodes, deps, Snapshot(db, p))
    ensures PackageTally(nodes, wp) == PackageProgress(db.nodes, db.deps, p, wp)
  {
    var leaves := LeavesOf(nodes, Under(nodes, wp, Task));
    LeafIds(db, p, nodes, deps, wp);
    forall status: Effective
      ensures |Where(leaves, Having(status))| == |LeavesWith(db.nodes, db.deps, p, wp, status)|
    {
      WhereIsIds(leaves, Having(status));
      LeavesWithIds(db, p, wp, leaves, status);
    }
    DistinctIdsLength(leaves);
    forall l | l in Leaves(db.nodes, p, wp)
      ensures l in IdsOf(leaves)
    {
      assert ViewOf(db, l) in leaves;
    }
    assert IdsOf(leaves) == Leaves(db.nodes, p, wp);
  }

  lemma LeavesWithIds(db: Db, p: Id, wp: Id, leaves: seq<NodeView>, status: Effective)
    requires forall n :: n in leaves <==> LeafUnder(db.nodes, p, wp, n.id) && n == ViewOf(db, n.id)
    ensures IdsWhere(leaves, Having(status)) == LeavesWith(db.nodes, db.deps, p, wp, status)
  {
    forall l | l in LeavesWith(db.nodes, db.deps, p, wp, status)
      ensures l in IdsWhere(leaves, Having(status))
    {
      assert ViewOf(db, l) in leaves;
    }
  }

  lemma {:induction false} DistinctIdsLength(nodes: seq<NodeView>)
    requires DistinctIds(nodes)
    ensures |IdsOf(nodes)| == |nodes|
  {
    if nodes != [] {
      var front := nodes[..|nodes| - 1];
      var last := nodes[|nodes| - 1];
      assert nodes == front + [last];
      DistinctIdsLength(front);
      assert IdsOf(nodes) == IdsOf(front) + {last.id};
      forall n | n in front
        ensures n.id != last.id
      {
        var i :| 0 <= i < |front| && front[i] == n;
      }
    }
  }

  // ---- conservation ---------------------------------------------------------------

  /** Every leaf has exactly one status. */
  lemma ProgressAddsUp(nodes: map<Id, Node>, deps: set<Edge>, p: Id, wp: Id)
    ensures var c := PackageProgress(nodes, deps, p, wp); c.total == c.done + c.ready + c.blocked + c.deferred
  {
    var done := LeavesWith(nodes, deps, p, wp, IsDone);
    var ready := LeavesWith(nodes, deps, p, wp, IsReady);
    var blocked := LeavesWith(nodes, deps, p, wp, IsBlocked);
    var deferred := LeavesWith(nodes, deps, p, wp, IsDeferred);
    assert Leaves(nodes, p, wp) == done + ready + blocked + deferred;
    assert done !! ready && (done + ready) !! blocked && (done + ready + blocked) !! deferred;
  }

  /** A leaf of the whole project: a step of it, or a task of it without steps. */
  predicate ProjectLeaf(nodes: map<Id, Node>, p: Id, l: Id) {
    InProject(nodes, p, l) && (nodes[l].kind == Step || (nodes[l].kind == Task && !HasSteps(nodes, l)))
  }

  function ProjectLeaves(nodes: map<Id, Node>, p: Id): set<Id> {
    set l | l in nodes && ProjectLeaf(nodes, p, l)
  }

  /** The packages' numbers added up, over the packages in `wps`. */
  function SumTotal(nodes: map<Id, Node>, deps: set<Edge>, p: Id, wps: set<Id>): nat
    decreases |wps|
  {
    if wps == {} then 0 else
    var wp := Least(wps);
    PackageProgress(nodes, deps, p, wp).total + SumTotal(nodes, deps, p, wps - {wp})
  }

  function SumDone(nodes: map<Id, Node>, deps: set<Edge>, p: Id, wps: set<Id>): nat
    decreases |wps|
  {
    if wps == {} then 0 else
    var wp := Least(wps);
    PackageProgress(nodes, deps, p, wp).done + SumDone(nodes, deps, p, wps - {wp})
  }

  function LeavesIn(nodes: map<Id, Node>, p: Id, wps: set<Id>): set<Id> {
    set l | l in nodes && exists wp :: wp in wps && LeafUnder(nodes, p, wp, l)
  }

  function DoneIn(nodes: map<Id, Node>, leaves: set<Id>): set<Id> {
    set l | l in leaves && l in nodes && nodes[l].declared == Done
  }

  lemma LeavesSplit(nodes: map<Id, Node>, p: Id, wps: set<Id>, wp: Id)
    requires wp in wps
    ensures LeavesIn(nodes, p, wps) == Leaves(nodes, p, wp) + LeavesIn(nodes, p, wps - {wp})
    ensures Leaves(nodes, p, wp) !! LeavesIn(nodes, p, wps - {wp})
  {
  }

  lemma DoneSplit(nodes: map<Id, Node>, here: set<Id>, there: set<Id>)
    requires here !! there
    ensures |DoneIn(nodes, here + there)| == |DoneIn(nodes, here)| + |DoneIn(nodes, there)|
  {
    assert DoneIn(nodes, here + there) == DoneIn(nodes, here) + DoneIn(nodes, there);
  }

  lemma CountsSplit(nodes: map<Id, Node>, deps: set<Edge>, p: Id, wps: set<Id>, wp: Id)
    requires wp in wps
    ensures |LeavesIn(nodes, p, wps)| == PackageProgress(nodes, deps, p, wp).total + |LeavesIn(nodes, p, wps - {wp})|
    ensures |DoneIn(nodes, LeavesIn(nodes, p, wps))|
            == PackageProgress(nodes, deps, p, wp).done + |DoneIn(nodes, LeavesIn(nodes, p, wps - {wp}))|
  {
    LeavesSplit(nodes, p, wps, wp);
    DoneSplit(nodes, Leaves(nodes, p, wp), LeavesIn(nodes, p, wps - {wp}));
    assert LeavesWith(nodes, deps, p, wp, IsDone) == DoneIn(nodes, Leaves(nodes, p, wp));
  }

  lemma {:induction false} SumsCountLeaves(nodes: map<Id, Node>, deps: set<Edge>, p: Id, wps: set<Id>)
    ensures SumTotal(nodes, deps, p, wps) == |LeavesIn(nodes, p, wps)|
    ensures SumDone(nodes, deps, p, wps) == |DoneIn(nodes, LeavesIn(nodes, p, wps))|
    decreases |wps|
  {
    if wps == {} {
      assert LeavesIn(nodes, p, wps) == {};
    } else {
      var wp := Least(wps);
      SumsCountLeaves(nodes, deps, p, wps - {wp});
      CountsSplit(nodes, deps, p, wps, wp);
    }
  }

  /** Steps of p under another project's tasks. */
  function Astray(nodes: map<Id, Node>, p: Id): set<Id> {
    set s | s in nodes && nodes[s].kind == Step && nodes[s].project == p && !TaskIn(nodes, p, nodes[s].parent)
  }

  /** Steps of other projects under tasks of p. */
  function Lodgers(nodes: map<Id, Node>, p: Id): set<Id> {
    set s | s in nodes && nodes[s].kind == Step && nodes[s].project != p && TaskIn(nodes, p, nodes[s].parent)
  }

  /** Summed over all its packages, the query counts each leaf of a project once, less its
      steps astray, and besides them only its lodgers. */
  lemma PackagesSumToTheProject(db: Db, p: Id)
    ensures var nodes, wps := db.nodes, PackagesOf(db.nodes, p);
            SumTotal(nodes, db.deps, p, wps) + |Astray(nodes, p)| == |ProjectLeaves(nodes, p)| + |Lodgers(nodes, p)|
            && SumDone(nodes, db.deps, p, wps) + |DoneIn(nodes, Astray(nodes, p))|
               == |DoneIn(nodes, ProjectLeaves(nodes, p))| + |DoneIn(nodes, Lodgers(nodes, p))|
  {
    var nodes, wps := db.nodes, PackagesOf(db.nodes, p);
    SumsCountLeaves(nodes, db.deps, p, wps);
    forall l | l in nodes
      ensures l in LeavesIn(nodes, p, wps) + Astray(nodes, p) <==> l in ProjectLeaves(nodes, p) + Lodgers(nodes, p)
    {
      LeafHasPackage(nodes, p, l);
    }
    assert LeavesIn(nodes, p, wps) + Astray(nodes, p) == ProjectLeaves(nodes, p) + Lodgers(nodes, p);
    DoneSplit(nodes, LeavesIn(nodes, p, wps), Astray(nodes, p));
    DoneSplit(nodes, ProjectLeaves(nodes, p), Lodgers(nodes, p));
  }

  lemma LeafHasPackage(nodes: map<Id, Node>, p: Id, l: Id)
    requires l in nodes
    ensures (exists wp :: wp in PackagesOf(nodes, p) && LeafUnder(nodes, p, wp, l))
            <==> if nodes[l].kind == Step then TaskIn(nodes, p, nodes[l].parent)
                 else TaskIn(nodes, p, l) && !HasSteps(nodes, l)
  {
    var t := if nodes[l].kind == Step then nodes[l].parent else l;
    if TaskIn(nodes, p, t) {
      assert TaskUnder(nodes, p, nodes[t].parent, t);
      assert nodes[t].parent in PackagesOf(nodes, p);
      assert LeafUnder(nodes, p, nodes[t].parent, l) <==> nodes[l].kind == Step || !HasSteps(nodes, l);
    }
  }

  // ---- the whole project, from a list of every node -------------------------------

  function OwnLeaf(nodes: seq<NodeView>, p: Id): NodeView -> bool {
    (n: NodeView) => n.row.project == p
                     && (n.row.kind == Step || (n.row.kind == Task && forall s :: s in nodes ==> !StepOf(s, n.id)))
  }

  function OwnDone(nodes: seq<NodeView>, p: Id): NodeView -> bool {
    (n: NodeView) => OwnLeaf(nodes, p)(n) && n.status == IsDone
  }

  /** The list holds every node of the database, each once. */
  ghost predicate ListsAll(nodes: seq<NodeView>, db: Db) {
    DistinctIds(nodes) && forall n :: n in nodes <==> n.id in db.nodes && n == ViewOf(db, n.id)
  }

  lemma OwnLeafMeans(db: Db, nodes: seq<NodeView>, p: Id, id: Id)
    requires ListsAll(nodes, db) && id in db.nodes
    ensures OwnLeaf(nodes, p)(ViewOf(db, id)) <==> ProjectLeaf(db.nodes, p, id)
  {
    if HasSteps(db.nodes, id) {
      var s :| s in db.nodes && db.nodes[s].kind == Step && db.nodes[s].parent == id;
      assert ViewOf(db, s) in nodes && StepOf(ViewOf(db, s), id);
    }
  }

  lemma OwnLeafIds(db: Db, nodes: seq<NodeView>, p: Id)
    requires ListsAll(nodes, db)
    ensures IdsWhere(nodes, OwnLeaf(nodes, p)) == ProjectLeaves(db.nodes, p)
  {
    forall id
      ensures id in IdsWhere(nodes, OwnLeaf(nodes, p)) <==> id in ProjectLeaves(db.nodes, p)
    {
      if id in db.nodes {
        OwnLeafMeans(db, nodes, p, id);
        assert ViewOf(db, id) in nodes;
      }
    }
  }

  lemma OwnDoneIds(db: Db, nodes: seq<NodeView>, p: Id)
    requires ListsAll(nodes, db)
    ensures IdsWhere(nodes, OwnDone(nodes, p)) == DoneIn(db.nodes, ProjectLeaves(db.nodes, p))
  {
    forall id
      ensures id in IdsWhere(nodes, OwnDone(nodes, p)) <==> id in DoneIn(db.nodes, ProjectLeaves(db.nodes, p))
    {
      if id in db.nodes {
        OwnLeafMeans(db, nodes, p, id);
        assert ViewOf(db, id) in nodes;
      }
    }
  }

  /** Counting a project's leaves straight from the node list gives the packages' sums,
      exactly but for the steps astray and the lodgers. */
  lemma ProjectTotalsAgree(db: Db, nodes: seq<NodeView>, p: Id)
    requires ListsAll(nodes, db)
    ensures |Where(nodes, OwnLeaf(nodes, p))| + |Lodgers(db.nodes, p)|
            == SumTotal(db.nodes, db.deps, p, PackagesOf(db.nodes, p)) + |Astray(db.nodes, p)|
    ensures |Where(nodes, OwnDone(nodes, p))| + |DoneIn(db.nodes, Lodgers(db.nodes, p))|
            == SumDone(db.nodes, db.deps, p, PackagesOf(db.nodes, p)) + |DoneIn(db.nodes, Astray(db.nodes, p))|
  {
    PackagesSumToTheProject(db, p);
    WhereIsIds(nodes, OwnLeaf(nodes, p));
    WhereIsIds(nodes, OwnDone(nodes, p));
    OwnLeafIds(db, nodes, p);
    OwnDoneIds(db, nodes, p);
  }

  /** The progress a snapshot carries has a row for each package that a task of the project has
      for its parent, with the clients' counts in it, if the steps under the project's tasks are
      its own. */
  lemma ProgressIsTheTally(db: Db, p: Id, nodes: seq<NodeView>, deps: seq<Edge>)
    requires HostsOwn(db.nodes, p) && Lists(nodes, deps, Snapshot(db, p))
    ensures var progress := Snapshot(db, p).progress;
            forall wp :: (wp in progress <==> Under(nodes, wp, Task) != [])
                         && (wp in progress ==> progress[wp] == PackageTally(nodes, wp))
  {
    ListedMeans(db, p, nodes, deps);
    forall wp
      ensures wp in PackagesOf(db.nodes, p) <==> Under(nodes, wp, Task) != []
      ensures PackageTally(nodes, wp) == PackageProgress(db.nodes, db.deps, p, wp)
    {
      UnderMeans(nodes, wp, Task);
      if wp in PackagesOf(db.nodes, p) {
        var t :| t in db.nodes && db.nodes[t].kind == Task && db.nodes[t].project == p && db.nodes[t].parent == wp;
        assert ViewOf(db, t) in Under(nodes, wp, Task);
      }
      if Under(nodes, wp, Task) != [] {
        assert Under(nodes, wp, Task)[0] in Under(nodes, wp, Task);
      }
      CountsAreTheQuery(db, p, nodes, deps, wp);
    }
  }
}
