/** The web client's cycle preview, and what its walks over lists share. */
module Derive {
  import opened FlowTypes
  import opened Graph
  import opened Listing

  function EdgeSet(blocks: map<Id, seq<Id>>): set<Edge> {
    set a, b | a in blocks && b in blocks[a] :: Edge(a, b)
  }

  lemma EdgeSetOfIndex(ix: Index, nodes: seq<NodeView>, deps: seq<Edge>)
    requires IndexOf(ix, nodes, deps)
    ensures EdgeSet(ix.blocks) == EdgesIn(deps)
  {
    forall e: Edge
      ensures e in EdgeSet(ix.blocks) <==> e in EdgesIn(deps)
    {
      BlocksMeans(deps, e.blocker);
      assert At(ix.blocks, e.blocker) == BlocksIn(deps, e.blocker);
      assert e == Edge(e.blocker, e.blocked);
    }
  }

  /** Would adding blocker -> blocked close a cycle? The walk ends on any graph, cyclic ones
      included, and decides exactly that. */
  method WouldCycle(ix: Index, blocker: Id, blocked: Id) returns (r: bool)
    ensures r <==> blocker == blocked || Reaches(EdgeSet(ix.blocks), blocked, blocker)
  {
    if blocker == blocked {
      return true;
    }
    ghost var edges := EdgeSet(ix.blocks);
    ghost var all := {blocked} + Targets(edges);
    var seen: set<Id> := {};
    var stack := [blocked];
    ReachesSelf(edges, blocked);
    while stack != []
      invariant seen <= all && forall x :: x in stack ==> x in all
      invariant forall x :: x in seen || x in stack ==> Reaches(edges, blocked, x)
      invariant blocker !in seen
      invariant blocked in seen || blocked in stack
      invariant forall e :: e in edges && e.blocker in seen ==> e.blocked in seen || e.blocked in stack
      decreases all - seen, |stack|
    {
      var id := stack[|stack| - 1];
      assert stack == stack[..|stack| - 1] + [id];
      stack := stack[..|stack| - 1];
      if id == blocker {
        return true;
      }
      if id in seen {
        continue;
      }
      seen := seen + {id};
      var next := At(ix.blocks, id);
      forall x | x in next
        ensures x in all && Reaches(edges, blocked, x)
      {
        assert Edge(id, x) in edges;
        ReachesEdge(edges, id, x);
        ReachesTrans(edges, blocked, id, x);
      }
      stack := stack + next;
    }
    if Reaches(edges, blocked, blocker) {
      ClosedContainsReach(edges, seen, blocked, blocker);
    }
    return false;
  }

  // ---- ids and children of a list ---------------------------------------------------

  function IdsOf(nodes: seq<NodeView>): set<Id> {
    set n | n in nodes :: n.id
  }

  /** The nodes of the list with this parent, in list order. */
  function ChildrenIn(nodes: seq<NodeView>, parent: Id): seq<NodeView> {
    Filter(nodes, HasParent(parent))
  }

  function HasParent(parent: Id): NodeView -> bool {
    (n: NodeView) => n.row.parent == parent
  }

  lemma ChildrenInMeans(nodes: seq<NodeView>, parent: Id)
    ensures forall n :: n in ChildrenIn(nodes, parent) <==> n in nodes && n.row.parent == parent
    ensures DistinctIds(nodes) ==> DistinctIds(ChildrenIn(nodes, parent))
  {
    FilterMeans(nodes, HasParent(parent));
  }

  function Members(ids: seq<Id>): set<Id> {
    set x | x in ids
  }

  lemma SameId(nodes: seq<NodeView>, m: NodeView, n: NodeView)
    requires DistinctIds(nodes) && m in nodes && n in nodes && m.id == n.id
    ensures m == n
  {
  }

  lemma ConcatDistinct(a: seq<NodeView>, b: seq<NodeView>)
    requires DistinctIds(a) && DistinctIds(b) && IdsOf(a) !! IdsOf(b)
    ensures DistinctIds(a + b)
  {
    forall i, j | 0 <= i < |a| && 0 <= j < |b|
      ensures a[i].id != b[j].id
    {
      assert a[i].id in IdsOf(a) && b[j].id in IdsOf(b);
    }
  }

  lemma MembersOfConcat(a: seq<Id>, b: seq<Id>)
    ensures Members(a + b) == Members(a) + Members(b)
  {
  }

  lemma IdsOfConcat(a: seq<NodeView>, b: seq<NodeView>)
    ensures IdsOf(a + b) == IdsOf(a) + IdsOf(b)
  {
  }

  function IdSeq(nodes: seq<NodeView>): seq<Id> {
    seq(|nodes|, i requires 0 <= i < |nodes| => nodes[i].id)
  }

  lemma IdSeqMeans(nodes: seq<NodeView>)
    ensures |IdSeq(nodes)| == |nodes|
    ensures forall x :: x in IdSeq(nodes) <==> x in IdsOf(nodes)
  {
    forall x | x in IdsOf(nodes)
      ensures x in IdSeq(nodes)
    {
      var n :| n in nodes && n.id == x;
      var i :| 0 <= i < |nodes| && nodes[i] == n;
      assert IdSeq(nodes)[i] == x;
    }
  }
}
