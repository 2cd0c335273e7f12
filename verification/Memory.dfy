/** The terminal client's in-memory store: its delete works in place on its node and edge
    slices. */
module Memory {
  import opened FlowTypes
  import opened Forest
  import opened Listing
  import opened Counts

  function NodesOutside(nodes: seq<NodeView>, dead: set<Id>): seq<NodeView> {
    Filter(nodes, Outside(dead))
  }

  function Outside(dead: set<Id>): NodeView -> bool {
    (n: NodeView) => n.id !in dead
  }

  function DepsOutside(deps: seq<Edge>, dead: set<Id>): seq<Edge> {
    if deps == [] then [] else
    var last := deps[|deps| - 1];
    var front := DepsOutside(deps[..|deps| - 1], dead);
    if last.blocker in dead || last.blocked in dead then front else front + [last]
  }

  lemma {:induction false} NodesOutsideShrinks(nodes: seq<NodeView>, dead: set<Id>)
    ensures |NodesOutside(nodes, dead)| <= |nodes|
    ensures forall n :: n in NodesOutside(nodes, dead) <==> n in nodes && n.id !in dead
  {
    if nodes != [] {
      NodesOutsideShrinks(nodes[..|nodes| - 1], dead);
      assert nodes == nodes[..|nodes| - 1] + [nodes[|nodes| - 1]];
    }
  }

  lemma {:induction false} DepsOutsideShrinks(deps: seq<Edge>, dead: set<Id>)
    ensures |DepsOutside(deps, dead)| <= |deps|
    ensures forall d :: d in DepsOutside(deps, dead) <==> d in deps && d.blocker !in dead && d.blocked !in dead
  {
    if deps != [] {
      DepsOutsideShrinks(deps[..|deps| - 1], dead);
      assert deps == deps[..|deps| - 1] + [deps[|deps| - 1]];
    }
  }

  lemma {:induction false} DepsOutsideDistinct(deps: seq<Edge>, dead: set<Id>)
    requires DistinctEdges(deps)
    ensures DistinctEdges(DepsOutside(deps, dead))
  {
    if deps != [] {
      var front := deps[..|deps| - 1];
      DepsOutsideDistinct(front, dead);
      DepsOutsideShrinks(front, dead);
      var kept := DepsOutside(front, dead);
      assert forall i :: 0 <= i < |kept| ==> kept[i] in kept;
    }
  }

  /** A line of the activity feed: its number and the node it is about. */
  datatype Entry = Entry(number: nat, node: Id)

  /** A slice is a backing array and a length. */
  class MemoryStore {
    var nodes: array<NodeView>
    var nodeCount: nat
    var deps: array<Edge>
    var depCount: nat
    var pushed: nat
    var activity: seq<Entry>

    ghost predicate Valid()
      reads this
    {
      nodeCount <= nodes.Length && depCount <= deps.Length
    }

    function Nodes(): seq<NodeView>
      requires Valid()
      reads this, nodes
    {
      nodes[..nodeCount]
    }

    function Deps(): seq<Edge>
      requires Valid()
      reads this, deps
    {
      deps[..depCount]
    }

    constructor (ns: seq<NodeView>, ds: seq<Edge>)
      ensures Valid() && Nodes() == ns && Deps() == ds && fresh(nodes) && fresh(deps)
    {
      nodes := new NodeView[|ns|](i requires 0 <= i < |ns| => ns[i]);
      deps := new Edge[|ds|](i requires 0 <= i < |ds| => ds[i]);
      nodeCount, depCount, pushed, activity := |ns|, |ds|, 0, [];
    }

    /** The ids to delete: the root and, pass by pass, children of what is already marked. */
    method Mark(root: Id) returns (dead: set<Id>)
      requires Valid() && DistinctIds(Nodes())
      ensures dead == Subtree(RowsOf(Nodes()), root)
    {
      ghost var all := Nodes();
      ghost var rows := RowsOf(all);
      RowsOfMeans(all);
      dead := {root};
      var changed := true;
      while changed
        invariant root in dead && dead <= Subtree(rows, root) && dead <= {root} + rows.Keys
        invariant !changed ==> Children(rows, dead) <= dead
        decreases {root} + rows.Keys - dead, changed
      {
        changed := false;
        ghost var start := dead;
        for i := 0 to nodeCount
          invariant start <= dead <= Subtree(rows, root) && dead <= {root} + rows.Keys
          invariant changed ==> start < dead
          invariant !changed ==> dead == start
          invariant !changed ==> forall j :: 0 <= j < i && all[j].row.parent in dead ==> all[j].id in dead
        {
          var n := nodes[i];
          assert n == all[i];
          if n.row.parent in dead && n.id !in dead {
            assert n.id in Children(rows, Subtree(rows, root));
            dead := dead + {n.id};
            changed := true;
          }
        }
        if !changed {
          forall c | c in Children(rows, dead)
            ensures c in dead
          {
            var i :| 0 <= i < |all| && all[i].id == c;
          }
        }
      }
      GrowLeast(rows, {root}, dead);
    }

    /** Keep the nodes outside `dead`, in place and in order. */
    method CompactNodes(dead: set<Id>)
      requires Valid()
      modifies this`nodeCount, nodes
      ensures Valid() && Nodes() == NodesOutside(old(Nodes()), dead)
    {
      ghost var before := Nodes();
      var kept := 0;
      for i := 0 to nodeCount
        invariant Valid() && nodeCount == |before| && kept <= i
        invariant nodes[..kept] == NodesOutside(before[..i], dead)
        invariant nodes[i..nodeCount] == before[i..]
      {
        assert before[..i + 1][..i] == before[..i];
        var n := nodes[i];
        assert n == nodes[i..nodeCount][0] == before[i];
        assert nodes[i + 1..nodeCount] == before[i + 1..] by {
          assert nodes[i + 1..nodeCount] == nodes[i..nodeCount][1..];
        }
        if n.id !in dead {
          nodes[kept] := n;
          kept := kept + 1;
        }
      }
      assert before[..|before|] == before;
      nodeCount := kept;
    }

    /** Keep the edges that touch nothing in `dead`, in place and in order. */
    method CompactDeps(dead: set<Id>)
      requires Valid()
      modifies this`depCount, deps
      ensures Valid() && Deps() == DepsOutside(old(Deps()), dead)
    {
      ghost var before := Deps();
      var kept := 0;
      for i := 0 to depCount
        invariant Valid() && depCount == |before| && kept <= i
        invariant deps[..kept] == DepsOutside(before[..i], dead)
        invariant deps[i..depCount] == before[i..]
      {
        assert before[..i + 1][..i] == before[..i];
        var d := deps[i];
        assert d == deps[i..depCount][0] == before[i];
        assert deps[i + 1..depCount] == before[i + 1..] by {
          assert deps[i + 1..depCount] == deps[i..depCount][1..];
        }
        if d.blocker !in dead && d.blocked !in dead {
          deps[kept] := d;
          kept := kept + 1;
        }
      }
      assert before[..|before|] == before;
      depCount := kept;
    }

    method HasNode(id: Id) returns (found: bool)
      requires Valid()
      ensures found <==> exists n :: n in Nodes() && n.id == id
    {
      ghost var all := Nodes();
      found := false;
      for i := 0 to nodeCount
        invariant found <==> exists j :: 0 <= j < i && all[j].id == id
      {
        assert all[i] == nodes[i];
        if nodes[i].id == id {
          found := true;
        }
      }
      if n :| n in all && n.id == id {
        var j :| 0 <= j < |all| && all[j] == n;
      }
    }

    /** The newest entry goes first, under the next number. */
    method Push(node: Id)
      modifies this`pushed, this`activity
      ensures pushed == old(pushed) + 1 && activity == [Entry(pushed, node)] + old(activity)
    {
      pushed := pushed + 1;
      activity := [Entry(pushed, node)] + activity;
    }

    /** Delete a node, everything below it, and every edge touching any of that, and say so in
        the activity; an unknown node changes nothing. */
    method DeleteNode(id: Id) returns (found: bool)
      requires Valid() && DistinctIds(Nodes())
      requires nodes as object != deps as object
      modifies this`nodeCount, this`depCount, this`pushed, this`activity, nodes, deps
      ensures found <==> exists n :: n in old(Nodes()) && n.id == id
      ensures Valid() && Nodes() == if found then NodesOutside(old(Nodes()), Subtree(RowsOf(old(Nodes())), id))
                                   else old(Nodes())
      ensures Deps() == if found then DepsOutside(old(Deps()), Subtree(RowsOf(old(Nodes())), id))
                        else old(Deps())
      ensures if found then pushed == old(pushed) + 1 && activity == [Entry(pushed, id)] + old(activity)
              else pushed == old(pushed) && activity == old(activity)
    {
      found := HasNode(id);
      if !found {
        return;
      }
      var dead := Mark(id);
      CompactNodes(dead);
      CompactDeps(dead);
      Push(id);
    }

    /** Leaf counts of each project, found by scanning every node for each. */
    method Projects(projects: seq<Id>) returns (totals: seq<nat>, dones: seq<nat>)
      requires Valid()
      ensures |totals| == |projects| && |dones| == |projects|
      ensures forall k :: 0 <= k < |projects| ==> totals[k] == |Where(Nodes(), OwnLeaf(Nodes(), projects[k]))|
      ensures forall k :: 0 <= k < |projects| ==> dones[k] == |Where(Nodes(), OwnDone(Nodes(), projects[k]))|
    {
      totals, dones := [], [];
      for k := 0 to |projects|
        invariant |totals| == k && |dones| == k
        invariant forall j :: 0 <= j < k ==> totals[j] == |Where(Nodes(), OwnLeaf(Nodes(), projects[j]))|
        invariant forall j :: 0 <= j < k ==> dones[j] == |Where(Nodes(), OwnDone(Nodes(), projects[j]))|
      {
        var done, total := CountProject(projects[k]);
        totals := totals + [total];
        dones := dones + [done];
      }
    }

    method CountProject(p: Id) returns (done: nat, total: nat)
      requires Valid()
      ensures total == |Where(Nodes(), OwnLeaf(Nodes(), p))|
      ensures done == |Where(Nodes(), OwnDone(Nodes(), p))|
    {
      ghost var all := Nodes();
      done, total := 0, 0;
      for i := 0 to nodeCount
        invariant total == |Where(all[..i], OwnLeaf(all, p))|
        invariant done == |Where(all[..i], OwnDone(all, p))|
      {
        var n := nodes[i];
        assert all[i] == n && all[..i + 1] == all[..i] + [n];
        WhereAppend(all[..i], n, OwnLeaf(all, p));
        WhereAppend(all[..i], n, OwnDone(all, p));
        if n.row.project != p {
          continue;
        }
        if n.row.kind == Step {
          total := total + 1;
          if n.status == IsDone {
            done := done + 1;
          }
          continue;
        }
        if n.row.kind == Task {
          var hasStep := HasStep(n.id);
          if !hasStep {
            total := total + 1;
            if n.status == IsDone {
              done := done + 1;
            }
          }
        }
      }
      assert all[..|all|] == all;
    }

    method HasStep(task: Id) returns (found: bool)
      requires Valid()
      ensures found <==> exists s :: s in Nodes() && StepOf(s, task)
    {
      ghost var all := Nodes();
      for i := 0 to nodeCount
        invariant forall j :: 0 <= j < i ==> !StepOf(all[j], task)
      {
        if nodes[i].row.parent == task && nodes[i].row.kind == Step {
          assert StepOf(all[i], task);
          return true;
        }
      }
      return false;
    }
  }
}
