/** The terminal client's model: lookups rebuilt from a refresh, and the questions it
    answers from them before asking the engine to change anything. */
module Tui {
  import opened FlowTypes
  import opened Graph
  import opened Forest
  import opened Listing
  import opened Counts

  /** One downstream consequence of a pending status change. */
  datatype Effect = Effect(node: NodeView, becomes: Effective, stuck: bool)

  datatype Cascade = Cascade(effects: seq<Effect>, openSteps: nat)

  datatype Collateral = Collateral(
    taskCount: nat, stepCount: nat, edgeCount: nat, unblocked: seq<Effect>, actCount: nat)

  // ---- specifications -------------------------------------------------------------

  /** Another known blocker of `dep` is not done. */
  predicate HeldByOther(ix: Index, n: Id, dep: Id) {
    HeldOutside(ix, {n}, dep)
  }

  /** The preview's rows for the direct dependents of n, in index order. */
  function DependentEffects(ix: Index, n: Id, downs: seq<Id>): seq<Effect> {
    if downs == [] then [] else
    var front := DependentEffects(ix, n, downs[..|downs| - 1]);
    var id := downs[|downs| - 1];
    if id !in ix.byId || ix.byId[id].status != IsBlocked then front
    else
      var stuck := HeldByOther(ix, n, id);
      front + [Effect(ix.byId[id], if stuck then IsBlocked else IsReady, stuck)]
  }

  /** The extra rows shown when a work package is marked done. */
  function PackageEffects(tasks: seq<NodeView>): seq<Effect> {
    if tasks == [] then [] else
    var front := PackageEffects(tasks[..|tasks| - 1]);
    var t := tasks[|tasks| - 1];
    if t.status != IsDone then front + [Effect(t, IsDone, false)] else front
  }

  function CountNot(nodes: seq<NodeView>, status: Effective): nat {
    if nodes == [] then 0 else
    CountNot(nodes[..|nodes| - 1], status) + if nodes[|nodes| - 1].status != status then 1 else 0
  }

  function CountBelow(nodes: seq<NodeView>, sub: set<Id>, root: Id, kind: Kind): nat {
    if nodes == [] then 0 else
    var last := nodes[|nodes| - 1];
    CountBelow(nodes[..|nodes| - 1], sub, root, kind)
    + if last.id != root && last.id in sub && last.row.kind == kind then 1 else 0
  }

  function CountTouching(deps: seq<Edge>, sub: set<Id>): nat {
    if deps == [] then 0 else
    var last := deps[|deps| - 1];
    CountTouching(deps[..|deps| - 1], sub) + if last.blocker in sub || last.blocked in sub then 1 else 0
  }

  /** A known blocker of `dep` outside the subtree is not done. */
  predicate HeldOutside(ix: Index, sub: set<Id>, dep: Id) {
    exists b :: b in At(ix.blockers, dep) && b !in sub && b in ix.byId && ix.byId[b].status != IsDone
  }

  lemma HeldBy(ix: Index, sub: set<Id>, dep: Id, b: Id)
    requires b in At(ix.blockers, dep) && b !in sub && b in ix.byId && ix.byId[b].status != IsDone
    ensures HeldOutside(ix, sub, dep)
  {
  }

  /** One row for each edge that leaves the subtree, in list order. */
  function UnblockedBy(ix: Index, deps: seq<Edge>, sub: set<Id>): seq<Effect> {
    if deps == [] then [] else
    var front := UnblockedBy(ix, deps[..|deps| - 1], sub);
    var d := deps[|deps| - 1];
    if d.blocked in sub || d.blocker !in sub || d.blocked !in ix.byId then front
    else
      var dep := ix.byId[d.blocked];
      var stuck := HeldOutside(ix, sub, dep.id);
      front + [Effect(dep, if stuck then dep.status else IsReady, stuck)]
  }

  function CountAbout(activity: seq<Id>, sub: set<Id>): nat {
    if activity == [] then 0 else
    CountAbout(activity[..|activity| - 1], sub) + if activity[|activity| - 1] in sub then 1 else 0
  }

  /** A node offered as a new blocker; `cycle` marks the ones the dialog will not add. */
  datatype DepCand = DepCand(node: NodeView, cycle: bool)

  /** What the dialog lists for id: nodes of the project other than id that do not block it
      yet and match the search. */
  function Offered(deps: seq<Edge>, p: Id, id: Id, matches: NodeView -> bool): NodeView -> bool {
    (n: NodeView) => n.row.project == p && n.id != id && Edge(n.id, id) !in deps && matches(n)
  }

  ghost predicate CandsFor(cands: seq<DepCand>, offered: seq<NodeView>, deps: seq<Edge>, id: Id) {
    |cands| == |offered|
    && forall i :: 0 <= i < |cands| ==>
         cands[i].node == offered[i] && (cands[i].cycle <==> StrictlyReaches(EdgesIn(deps), id, offered[i].id))
  }

  /** The addable candidate nearest to `from` in direction dir, if there is one. */
  ghost predicate NearestAddable(cands: seq<DepCand>, from: int, dir: int, found: int) {
    0 <= found < |cands| && !cands[found].cycle && 0 < (found - from) * dir
    && forall k :: 0 <= k < |cands| && 0 < (k - from) * dir < (found - from) * dir ==> cands[k].cycle
  }

  // ---- the model ------------------------------------------------------------------

  class Model {
    var nodes: seq<NodeView>
    var deps: seq<Edge>
    var ix: Index
    var activity: seq<Id>
    var depCands: seq<DepCand>
    var depIdx: int

    constructor (nodes: seq<NodeView>, deps: seq<Edge>, activity: seq<Id>)
      ensures this.nodes == nodes && this.deps == deps && this.activity == activity && Valid()
    {
      this.nodes, this.deps, this.activity, this.depCands, this.depIdx := nodes, deps, activity, [], 0;
      new;
      Reindex();
    }

    ghost predicate Valid()
      reads this
    {
      IndexOf(ix, nodes, deps)
    }

    /** Rebuild the lookups after a refresh. */
    method Reindex()
      modifies this`ix
      ensures Valid()
    {
      ix := BuildIndex(nodes, deps);
    }

    /** Whether start can reach target by following one or more edges; ends on any graph. */
    method Reaches(start: Id, target: Id) returns (r: bool)
      requires Valid()
      ensures r <==> StrictlyReaches(EdgesIn(deps), start, target)
    {
      ghost var edges := EdgesIn(deps);
      ghost var all := {start} + Targets(edges);
      var seen := {start};
      var stack := [start];
      ReachesSelf(edges, start);
      while stack != []
        invariant start in seen && seen <= all
        invariant forall x :: x in stack ==> x in seen
        invariant forall x :: x in seen ==> Graph.Reaches(edges, start, x)
        invariant forall e :: e in edges && e.blocker in seen && e.blocker !in stack ==>
                    e.blocked in seen && e.blocked != target
        decreases all - seen, |stack|
      {
        var cur := stack[|stack| - 1];
        assert stack == stack[..|stack| - 1] + [cur];
        stack := stack[..|stack| - 1];
        var downs := At(ix.blocks, cur);
        BlocksMeans(deps, cur);
        assert At(ix.blocks, cur) == BlocksIn(deps, cur);
        ghost var known := seen;
        ghost var below := stack;
        for i := 0 to |downs|
          invariant known <= seen <= all
          invariant forall x :: x in below ==> x in stack
          invariant forall x :: x in stack ==> x in seen && (x in below || x !in known)
          invariant forall x :: x in seen && x !in known ==> x in stack
          invariant forall x :: x in seen ==> Graph.Reaches(edges, start, x)
          invariant forall x :: x in downs[..i] ==> x in seen && x != target
          invariant seen == known ==> stack == below
        {
          assert downs[..i + 1] == downs[..i] + [downs[i]];
          var next := downs[i];
          assert next in downs;
          assert Edge(cur, next) in edges;
          if next == target {
            assert StrictlyReaches(edges, start, target);
            return true;
          }
          if next !in seen {
            ReachesEdge(edges, cur, next);
            ReachesTrans(edges, start, cur, next);
            seen := seen + {next};
            stack := stack + [next];
          }
        }
        assert downs[..|downs|] == downs;
        assert forall e :: e in edges && e.blocker == cur ==> e == Edge(cur, e.blocked);
      }
      forall u | Graph.Reaches(edges, start, u)
        ensures Edge(u, target) !in edges
      {
        ClosedContainsReach(edges, seen, start, u);
        var e := Edge(u, target);
        assert e in edges ==> e.blocker in seen;
      }
      return false;
    }

    /** Refill the candidates for a new blocker of id, and land on the first addable one. */
    method BuildDepCands(p: Id, id: Id, matches: NodeView -> bool)
      requires Valid()
      modifies this`depCands, this`depIdx
      ensures CandsFor(depCands, Filter(nodes, Offered(deps, p, id, matches)), deps, id)
      ensures (forall k :: 0 <= k < |depCands| ==> depCands[k].cycle) ==> depIdx == old(depIdx)
      ensures (exists k :: 0 <= k < |depCands| && !depCands[k].cycle) ==> NearestAddable(depCands, -1, 1, depIdx)
    {
      depCands := [];
      ghost var f := Offered(deps, p, id, matches);
      for i := 0 to |nodes|
        invariant CandsFor(depCands, Filter(nodes[..i], f), deps, id)
        invariant depIdx == old(depIdx)
      {
        assert nodes[..i + 1][..i] == nodes[..i];
        var n := nodes[i];
        if n.row.project != p || n.id == id {
          continue;
        }
        if Edge(n.id, id) in deps {
          continue;
        }
        if !matches(n) {
          continue;
        }
        var cycle := Reaches(id, n.id);
        depCands := depCands + [DepCand(n, cycle)];
      }
      assert nodes[..|nodes|] == nodes;
      for i := 0 to |depCands|
        invariant depIdx == old(depIdx) && forall k :: 0 <= k < i ==> depCands[k].cycle
      {
        if !depCands[i].cycle {
          depIdx := i;
          break;
        }
      }
    }

    /** Move to the nearest addable candidate in a direction, or stay. */
    method DepSelect(dir: int)
      requires dir == 1 || dir == -1
      modifies this`depIdx
      ensures 0 <= old(depIdx) < |depCands| ==>
                NearestAddable(depCands, old(depIdx), dir, depIdx)
                || (depIdx == old(depIdx) && forall j :: !NearestAddable(depCands, depIdx, dir, j))
    {
      var n := |depCands|;
      if n == 0 {
        return;
      }
      for i := 1 to n
        invariant depIdx == old(depIdx)
        invariant forall k :: 0 <= k < n && 0 < (k - depIdx) * dir < i ==> depCands[k].cycle
      {
        var j := depIdx + dir * i;
        if j < 0 || j >= n {
          break;
        }
        if !depCands[j].cycle {
          depIdx := j;
          return;
        }
      }
    }

    /** Enter: the edge to ask the engine for. It is new and closes no cycle; there is none to
        ask for only with no candidate at the cursor, or one that the node already reaches. */
    method EnterDep(id: Id, ghost p: Id, ghost matches: NodeView -> bool) returns (add: Option<Edge>)
      requires Valid() && 0 <= depIdx
      requires CandsFor(depCands, Filter(nodes, Offered(deps, p, id, matches)), deps, id)
      ensures match add
              case Some(e) =>
                e.blocked == id && e.blocker != id && e !in deps && !StrictlyReaches(EdgesIn(deps), id, e.blocker)
                && exists n :: n in nodes && n.id == e.blocker && n.row.project == p && matches(n)
              case None =>
                depIdx >= |depCands| || StrictlyReaches(EdgesIn(deps), id, depCands[depIdx].node.id)
    {
      if depIdx < |depCands| && !depCands[depIdx].cycle {
        ghost var offered := Filter(nodes, Offered(deps, p, id, matches));
        FilterMeans(nodes, Offered(deps, p, id, matches));
        assert offered[depIdx] in offered;
        return Some(Edge(depCands[depIdx].node.id, id));
      }
      return None;
    }

    /** What marking n would do, from the lookups alone. */
    method PlanCascade(n: NodeView, to: Effective) returns (c: Cascade)
      requires Valid()
      ensures c.openSteps == if to == IsDone then CountNot(Under(nodes, n.id, Step), IsDone) else 0
      ensures c.effects
              == if to != IsDone then []
                 else DependentEffects(ix, n.id, At(ix.blocks, n.id))
                      + if n.row.kind == WorkPackage then PackageEffects(Under(nodes, n.id, Task)) else []
    {
      var openSteps := 0;
      if to == IsDone {
        var steps := ChildrenOf(n.id, Step);
        for i := 0 to |steps|
          invariant openSteps == CountNot(steps[..i], IsDone)
        {
          assert steps[..i + 1][..i] == steps[..i];
          if steps[i].status != IsDone {
            openSteps := openSteps + 1;
          }
        }
        assert steps[..|steps|] == steps;
      }
      var effects: seq<Effect> := [];
      var downs := At(ix.blocks, n.id);
      for i := 0 to |downs|
        invariant effects == if to == IsDone then DependentEffects(ix, n.id, downs[..i]) else []
      {
        assert downs[..i + 1][..i] == downs[..i];
        var id := downs[i];
        if id in ix.byId && ix.byId[id].status == IsBlocked && to == IsDone {
          var stuck := StillHeld(n.id, id);
          effects := effects + [Effect(ix.byId[id], if stuck then IsBlocked else IsReady, stuck)];
        }
      }
      assert downs[..|downs|] == downs;
      if n.row.kind == WorkPackage && to == IsDone {
        var tasks := ChildrenOf(n.id, Task);
        var rows := RowsOfPackage(tasks);
        effects := effects + rows;
      }
      c := Cascade(effects, openSteps);
    }

    /** One row for each open task. */
    method RowsOfPackage(tasks: seq<NodeView>) returns (rows: seq<Effect>)
      ensures rows == PackageEffects(tasks)
    {
      rows := [];
      for i := 0 to |tasks|
        invariant rows == PackageEffects(tasks[..i])
      {
        assert tasks[..i + 1][..i] == tasks[..i];
        if tasks[i].status != IsDone {
          rows := rows + [Effect(tasks[i], IsDone, false)];
        }
      }
      assert tasks[..|tasks|] == tasks;
    }

    /** Still blocked by someone else? */
    method StillHeld(n: Id, id: Id) returns (stuck: bool)
      ensures stuck <==> HeldByOther(ix, n, id)
    {
      var ups := At(ix.blockers, id);
      for j := 0 to |ups|
        invariant forall k :: 0 <= k < j ==> ups[k] == n || ups[k] !in ix.byId || ix.byId[ups[k]].status == IsDone
      {
        if ups[j] == n {
          continue;
        }
        if ups[j] in ix.byId && ix.byId[ups[j]].status != IsDone {
          return true;
        }
      }
      return false;
    }

    /** The ids at or below root, by repeated passes until nothing changes; ends whatever the
        parent links are. */
    method SubtreeOf(root: Id) returns (sub: set<Id>)
      requires DistinctIds(nodes)
      ensures sub == Subtree(RowsOf(nodes), root)
    {
      ghost var rows := RowsOf(nodes);
      RowsOfMeans(nodes);
      sub := {root};
      var changed := true;
      while changed
        invariant root in sub && sub <= Subtree(rows, root) && sub <= {root} + rows.Keys
        invariant !changed ==> Children(rows, sub) <= sub
        decreases {root} + rows.Keys - sub, changed
      {
        changed := false;
        ghost var start := sub;
        for i := 0 to |nodes|
          invariant start <= sub <= Subtree(rows, root) && sub <= {root} + rows.Keys
          invariant changed ==> start < sub
          invariant !changed ==> sub == start
          invariant !changed ==> forall j :: 0 <= j < i && nodes[j].row.parent in sub ==> nodes[j].id in sub
        {
          var n := nodes[i];
          if n.row.parent in sub && n.id !in sub {
            assert n.id in Children(rows, Subtree(rows, root));
            sub := sub + {n.id};
            changed := true;
          }
        }
        if !changed {
          forall c | c in Children(rows, sub)
            ensures c in sub
          {
            var i :| 0 <= i < |nodes| && nodes[i].id == c;
          }
        }
      }
      GrowLeast(rows, {root}, sub);
    }

    /** What deleting id would take with it. */
    method DeleteCollateral(id: Id) returns (col: Collateral)
      requires Valid() && DistinctIds(nodes)
      ensures var sub := Subtree(RowsOf(nodes), id);
              col == Collateral(CountBelow(nodes, sub, id, Task), CountBelow(nodes, sub, id, Step),
                                CountTouching(deps, sub), UnblockedBy(ix, deps, sub), CountAbout(activity, sub))
    {
      var sub := SubtreeOf(id);
      var taskCount, stepCount, edgeCount, actCount := 0, 0, 0, 0;
      for i := 0 to |nodes|
        invariant taskCount == CountBelow(nodes[..i], sub, id, Task)
        invariant stepCount == CountBelow(nodes[..i], sub, id, Step)
      {
        assert nodes[..i + 1][..i] == nodes[..i];
        var n := nodes[i];
        if n.id == id || n.id !in sub {
          continue;
        }
        match n.row.kind {
          case Task => taskCount := taskCount + 1;
          case Step => stepCount := stepCount + 1;
          case WorkPackage =>
        }
      }
      assert nodes[..|nodes|] == nodes;
      for i := 0 to |deps|
        invariant edgeCount == CountTouching(deps[..i], sub)
      {
        assert deps[..i + 1][..i] == deps[..i];
        if deps[i].blocker in sub || deps[i].blocked in sub {
          edgeCount := edgeCount + 1;
        }
      }
      assert deps[..|deps|] == deps;
      var unblocked := Unblocks(sub);
      for i := 0 to |activity|
        invariant actCount == CountAbout(activity[..i], sub)
      {
        assert activity[..i + 1][..i] == activity[..i];
        if activity[i] in sub {
          actCount := actCount + 1;
        }
      }
      assert activity[..|activity|] == activity;
      col := Collateral(taskCount, stepCount, edgeCount, unblocked, actCount);
    }

    /** The dependents outside the subtree, stuck when a blocker outside is not done. */
    method Unblocks(sub: set<Id>) returns (unblocked: seq<Effect>)
      ensures unblocked == UnblockedBy(ix, deps, sub)
    {
      unblocked := [];
      for i := 0 to |deps|
        invariant unblocked == UnblockedBy(ix, deps[..i], sub)
      {
        assert deps[..i + 1][..i] == deps[..i];
        var d := deps[i];
        if d.blocked !in sub && d.blocker in sub {
          if d.blocked !in ix.byId {
            continue;
          }
          var dep := ix.byId[d.blocked];
          var stuck := StuckOutside(sub, dep.id);
          unblocked := unblocked + [Effect(dep, if stuck then dep.status else IsReady, stuck)];
        }
      }
      assert deps[..|deps|] == deps;
    }

    method StuckOutside(sub: set<Id>, id: Id) returns (stuck: bool)
      ensures stuck <==> HeldOutside(ix, sub, id)
    {
      stuck := false;
      var ups := At(ix.blockers, id);
      for j := 0 to |ups|
        invariant stuck ==> HeldOutside(ix, sub, id)
        invariant !stuck ==> forall k :: 0 <= k < j ==>
                    ups[k] in sub || ups[k] !in ix.byId || ix.byId[ups[k]].status == IsDone
      {
        if ups[j] !in sub && ups[j] in ix.byId && ix.byId[ups[j]].status != IsDone {
          HeldBy(ix, sub, id, ups[j]);
          stuck := true;
        }
      }
    }

    method ChildrenOf(parent: Id, kind: Kind) returns (out: seq<NodeView>)
      ensures out == Under(nodes, parent, kind)
    {
      out := [];
      for i := 0 to |nodes|
        invariant out == Under(nodes[..i], parent, kind)
      {
        assert nodes[..i + 1][..i] == nodes[..i];
        if nodes[i].row.parent == parent && nodes[i].row.kind == kind {
          out := out + [nodes[i]];
        }
      }
      assert nodes[..|nodes|] == nodes;
    }

    /** Leaf counts under a package, counted as the leaves are met. */
    method CountLeaves(wp: Id) returns (c: Progress)
      ensures c == PackageTally(nodes, wp)
    {
      c := Progress(0, 0, 0, 0, 0);
      TallyNothing();
      var tasks := ChildrenOf(wp, Task);
      for k := 0 to |tasks|
        invariant c == Tally(LeavesOf(nodes, tasks[..k]))
      {
        assert tasks[..k + 1][..k] == tasks[..k];
        var leaves := ChildrenOf(tasks[k].id, Step);
        if |leaves| == 0 {
          leaves := [tasks[k]];
        }
        c := CountOn(c, leaves, LeavesOf(nodes, tasks[..k]));
      }
      assert tasks[..|tasks|] == tasks;
    }
  }

  /** Count some more leaves into counters that already count `before`. */
  method CountOn(start: Progress, leaves: seq<NodeView>, ghost before: seq<NodeView>) returns (c: Progress)
    requires start == Tally(before)
    ensures c == Tally(before + leaves)
  {
    c := start;
    assert before + leaves[..0] == before;
    for i := 0 to |leaves|
      invariant c == Tally(before + leaves[..i])
    {
      TallyTakes(leaves, before, i);
      c := c.(total := c.total + 1);
      match leaves[i].status {
        case IsDone => c := c.(done := c.done + 1);
        case IsReady => c := c.(ready := c.ready + 1);
        case IsBlocked => c := c.(blocked := c.blocked + 1);
        case IsDeferred => c := c.(deferred := c.deferred + 1);
      }
    }
    assert leaves[..|leaves|] == leaves;
  }

  // ---- what the functions mean ----------------------------------------------------

  lemma CandidateMeans(cands: seq<DepCand>, nodes: seq<NodeView>, deps: seq<Edge>, p: Id, id: Id,
                       matches: NodeView -> bool, n: NodeView)
    requires CandsFor(cands, Filter(nodes, Offered(deps, p, id, matches)), deps, id)
    ensures (exists k :: 0 <= k < |cands| && cands[k].node == n) <==> n in nodes && Offered(deps, p, id, matches)(n)
  {
    var offered := Filter(nodes, Offered(deps, p, id, matches));
    FilterMeans(nodes, Offered(deps, p, id, matches));
    if n in offered {
      var k :| 0 <= k < |offered| && offered[k] == n;
      assert cands[k].node == n;
    }
    if k :| 0 <= k < |cands| && cands[k].node == n {
      assert offered[k] == n;
    }
  }

  /** The candidates are exactly the project's other nodes that match and do not block the node
      already. */
  lemma CandidatesMean(cands: seq<DepCand>, nodes: seq<NodeView>, deps: seq<Edge>, p: Id, id: Id, matches: NodeView -> bool)
    requires CandsFor(cands, Filter(nodes, Offered(deps, p, id, matches)), deps, id)
    ensures forall n :: (exists k :: 0 <= k < |cands| && cands[k].node == n)
                        <==> n in nodes && n.row.project == p && n.id != id && Edge(n.id, id) !in deps && matches(n)
  {
    forall n
      ensures (exists k :: 0 <= k < |cands| && cands[k].node == n)
              <==> n in nodes && n.row.project == p && n.id != id && Edge(n.id, id) !in deps && matches(n)
    {
      CandidateMeans(cands, nodes, deps, p, id, matches, n);
      assert Offered(deps, p, id, matches)(n)
             <==> n.row.project == p && n.id != id && Edge(n.id, id) !in deps && matches(n);
    }
  }

  function Unlike(status: Effective): NodeView -> bool {
    (n: NodeView) => n.status != status
  }

  lemma {:induction false} CountNotMeans(nodes: seq<NodeView>, status: Effective)
    ensures CountNot(nodes, status) == |Where(nodes, Unlike(status))|
  {
    if nodes == [] {
      assert Where(nodes, Unlike(status)) == {};
    } else {
      var front, last := nodes[..|nodes| - 1], nodes[|nodes| - 1];
      assert nodes == front + [last];
      CountNotMeans(front, status);
      WhereAppend(front, last, Unlike(status));
    }
  }

  function Among(sub: set<Id>): Id -> bool {
    (x: Id) => x in sub
  }

  lemma {:induction false} CountAboutMeans(activity: seq<Id>, sub: set<Id>)
    ensures CountAbout(activity, sub) == |Where(activity, Among(sub))|
  {
    if activity == [] {
      assert Where(activity, Among(sub)) == {};
    } else {
      var front, last := activity[..|activity| - 1], activity[|activity| - 1];
      assert activity == front + [last];
      CountAboutMeans(front, sub);
      WhereAppend(front, last, Among(sub));
    }
  }
}
