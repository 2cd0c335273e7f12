/** What clients hold: lists of nodes and edges, and the lookup maps built from them. */
module Listing {
  import opened FlowTypes
  import opened Forest
  import opened Invariants
  import opened Delta

  datatype Index = Index(byId: map<Id, NodeView>, blockers: map<Id, seq<Id>>, blocks: map<Id, seq<Id>>)

  // ---- reading lists --------------------------------------------------------------

  /** The blockers of id, in list order. */
  function BlockersIn(deps: seq<Edge>, id: Id): seq<Id> {
    if deps == [] then [] else
    var last := deps[|deps| - 1];
    var front := BlockersIn(deps[..|deps| - 1], id);
    if last.blocked == id then front + [last.blocker] else front
  }

  /** What id blocks, in list order. */
  function BlocksIn(deps: seq<Edge>, id: Id): seq<Id> {
    if deps == [] then [] else
    var last := deps[|deps| - 1];
    var front := BlocksIn(deps[..|deps| - 1], id);
    if last.blocker == id then front + [last.blocked] else front
  }

  /** The last node of the list with this id. */
  function FindNode(nodes: seq<NodeView>, id: Id): Option<NodeView> {
    if nodes == [] then None
    else if nodes[|nodes| - 1].id == id then Some(nodes[|nodes| - 1])
    else FindNode(nodes[..|nodes| - 1], id)
  }

  function At(lists: map<Id, seq<Id>>, id: Id): seq<Id> {
    if id in lists then lists[id] else []
  }

  ghost predicate IndexOf(ix: Index, nodes: seq<NodeView>, deps: seq<Edge>) {
    (forall id :: id in ix.byId <==> FindNode(nodes, id).Some?)
    && (forall id :: id in ix.byId ==> FindNode(nodes, id) == Some(ix.byId[id]))
    && (forall id :: At(ix.blockers, id) == BlockersIn(deps, id))
    && (forall id :: At(ix.blocks, id) == BlocksIn(deps, id))
  }

  method BuildIndex(nodes: seq<NodeView>, deps: seq<Edge>) returns (ix: Index)
    ensures IndexOf(ix, nodes, deps)
  {
    var byId: map<Id, NodeView> := map[];
    for i := 0 to |nodes|
      invariant forall id :: id in byId <==> FindNode(nodes[..i], id).Some?
      invariant forall id :: id in byId ==> FindNode(nodes[..i], id) == Some(byId[id])
    {
      assert nodes[..i + 1][..i] == nodes[..i];
      byId := byId[nodes[i].id := nodes[i]];
    }
    assert nodes[..|nodes|] == nodes;
    var blockers: map<Id, seq<Id>> := map[];
    var blocks: map<Id, seq<Id>> := map[];
    for i := 0 to |deps|
      invariant forall id :: At(blockers, id) == BlockersIn(deps[..i], id)
      invariant forall id :: At(blocks, id) == BlocksIn(deps[..i], id)
    {
      var d := deps[i];
      assert deps[..i + 1][..i] == deps[..i];
      blockers := blockers[d.blocked := At(blockers, d.blocked) + [d.blocker]];
      blocks := blocks[d.blocker := At(blocks, d.blocker) + [d.blocked]];
    }
    assert deps[..|deps|] == deps;
    ix := Index(byId, blockers, blocks);
  }

  function EdgesIn(deps: seq<Edge>): set<Edge> {
    set d | d in deps
  }

  lemma {:induction false} BlockersMeans(deps: seq<Edge>, id: Id)
    ensures forall b :: b in BlockersIn(deps, id) <==> Edge(b, id) in deps
  {
    if deps != [] {
      var last := deps[|deps| - 1];
      BlockersMeans(deps[..|deps| - 1], id);
      assert deps == deps[..|deps| - 1] + [last];
      assert last == Edge(last.blocker, last.blocked);
    }
  }

  lemma {:induction false} BlocksMeans(deps: seq<Edge>, id: Id)
    ensures forall b :: b in BlocksIn(deps, id) <==> Edge(id, b) in deps
  {
    if deps != [] {
      var last := deps[|deps| - 1];
      BlocksMeans(deps[..|deps| - 1], id);
      assert deps == deps[..|deps| - 1] + [last];
      assert last == Edge(last.blocker, last.blocked);
    }
  }

  lemma {:induction false} FindMeans(nodes: seq<NodeView>, id: Id)
    ensures match FindNode(nodes, id)
            case Some(n) => n in nodes && n.id == id
            case None => forall n :: n in nodes ==> n.id != id
  {
    if nodes != [] {
      FindMeans(nodes[..|nodes| - 1], id);
      assert nodes == nodes[..|nodes| - 1] + [nodes[|nodes| - 1]];
    }
  }

  // ---- lists against the database -------------------------------------------------

  ghost predicate DistinctIds(nodes: seq<NodeView>) {
    forall i, j :: 0 <= i < j < |nodes| ==> nodes[i].id != nodes[j].id
  }

  ghost predicate DistinctEdges(deps: seq<Edge>) {
    forall i, j :: 0 <= i < j < |deps| ==> deps[i] != deps[j]
  }

  /** The lists hold exactly a client's state, each row once, in whatever order. */
  ghost predicate Lists(nodes: seq<NodeView>, deps: seq<Edge>, c: Client) {
    DistinctIds(nodes) && DistinctEdges(deps)
    && (forall i :: 0 <= i < |nodes| ==> nodes[i].id in c.nodes && c.nodes[nodes[i].id] == nodes[i])
    && (forall id :: id in c.nodes ==> c.nodes[id] in nodes)
    && (forall id :: id in c.nodes ==> c.nodes[id].id == id)
    && EdgesIn(deps) == c.deps
  }

  /** The rows of a list as a table. */
  function RowsOf(nodes: seq<NodeView>): map<Id, Node> {
    if nodes == [] then map[] else
    var last := nodes[|nodes| - 1];
    RowsOf(nodes[..|nodes| - 1])[last.id := last.row]
  }

  lemma {:induction false} RowsOfMeans(nodes: seq<NodeView>)
    requires DistinctIds(nodes)
    ensures forall i :: 0 <= i < |nodes| ==> nodes[i].id in RowsOf(nodes) && RowsOf(nodes)[nodes[i].id] == nodes[i].row
    ensures forall id :: id in RowsOf(nodes) ==> exists i :: 0 <= i < |nodes| && nodes[i].id == id
  {
    if nodes != [] {
      var front := nodes[..|nodes| - 1];
      RowsOfMeans(front);
      forall id | id in RowsOf(nodes)
        ensures exists i :: 0 <= i < |nodes| && nodes[i].id == id
      {
        if id in RowsOf(front) {
          var i :| 0 <= i < |front| && front[i].id == id;
          assert nodes[i].id == id;
        } else {
          assert nodes[|nodes| - 1].id == id;
        }
      }
    }
  }

  /** A listed project's table is the database's, cut to the project. */
  lemma RowsOfProject(db: Db, p: Id, nodes: seq<NodeView>, deps: seq<Edge>)
    requires Lists(nodes, deps, Snapshot(db, p))
    ensures RowsOf(nodes) == ProjectRows(db.nodes, p)
  {
    RowsOfMeans(nodes);
    forall id | id in db.nodes && db.nodes[id].project == p
      ensures id in RowsOf(nodes) && RowsOf(nodes)[id] == db.nodes[id]
    {
      assert id in SnapNodes(db, p);
      var i :| 0 <= i < |nodes| && nodes[i] == SnapNodes(db, p)[id];
      assert nodes[i].id == id;
    }
    forall id | id in RowsOf(nodes)
      ensures id in db.nodes && db.nodes[id].project == p
    {
      var i :| 0 <= i < |nodes| && nodes[i].id == id;
      assert id in SnapNodes(db, p);
    }
  }

  function ProjectRows(nodes: map<Id, Node>, p: Id): map<Id, Node> {
    map id | id in nodes && nodes[id].project == p :: nodes[id]
  }

  /** Below a node the project's table finds nothing that the database does not, and all of
      it exactly when all of it is the project's. */
  lemma SubtreeOfProject(db: Db, p: Id, n: Id)
    requires Inv(db) && InProject(db.nodes, p, n)
    ensures var mine, whole := Subtree(ProjectRows(db.nodes, p), n), Subtree(db.nodes, n);
            mine <= whole && (forall x :: x in mine ==> InProject(db.nodes, p, x))
            && (mine == whole <==> forall x :: x in whole ==> InProject(db.nodes, p, x))
  {
    var rows := ProjectRows(db.nodes, p);
    var mine, whole := Subtree(rows, n), Subtree(db.nodes, n);
    assert Children(rows, whole) <= Children(db.nodes, whole);
    GrowLeast(rows, {n}, whole);
    assert mine <= {n} + rows.Keys;
    if forall x :: x in whole ==> InProject(db.nodes, p, x) {
      forall c | c in Children(db.nodes, mine)
        ensures c in mine
      {
        assert c in Children(db.nodes, whole);
        assert c in Children(rows, mine);
      }
      GrowLeast(db.nodes, {n}, mine);
    }
  }

  // ---- filtering ------------------------------------------------------------------

  /** The entries that satisfy f, in list order. */
  function Filter(nodes: seq<NodeView>, f: NodeView -> bool): seq<NodeView> {
    if nodes == [] then [] else
    var front := Filter(nodes[..|nodes| - 1], f);
    if f(nodes[|nodes| - 1]) then front + [nodes[|nodes| - 1]] else front
  }

  lemma {:induction false} FilterMembers(nodes: seq<NodeView>, f: NodeView -> bool)
    ensures forall n :: n in Filter(nodes, f) <==> n in nodes && f(n)
  {
    if nodes != [] {
      FilterMembers(nodes[..|nodes| - 1], f);
      assert nodes == nodes[..|nodes| - 1] + [nodes[|nodes| - 1]];
    }
  }

  lemma {:induction false} FilterDistinct(nodes: seq<NodeView>, f: NodeView -> bool)
    requires DistinctIds(nodes)
    ensures DistinctIds(Filter(nodes, f))
  {
    if nodes != [] {
      var front := nodes[..|nodes| - 1];
      FilterDistinct(front, f);
      FilterMembers(front, f);
      var kept := Filter(front, f);
      forall i | 0 <= i < |kept|
        ensures kept[i].id != nodes[|nodes| - 1].id
      {
        assert kept[i] in front;
        var j :| 0 <= j < |front| && front[j] == kept[i];
      }
    }
  }

  lemma FilterMeans(nodes: seq<NodeView>, f: NodeView -> bool)
    ensures forall n :: n in Filter(nodes, f) <==> n in nodes && f(n)
    ensures DistinctIds(nodes) ==> DistinctIds(Filter(nodes, f))
  {
    FilterMembers(nodes, f);
    if DistinctIds(nodes) {
      FilterDistinct(nodes, f);
    }
  }

  // ---- list order -----------------------------------------------------------------

  /** The neighbours of an id come in the order of the list. */
  lemma {:induction false} NeighboursKeepOrder(a: seq<Edge>, b: seq<Edge>, id: Id)
    ensures BlockersIn(a + b, id) == BlockersIn(a, id) + BlockersIn(b, id)
    ensures BlocksIn(a + b, id) == BlocksIn(a, id) + BlocksIn(b, id)
  {
    if b == [] {
      assert a + b == a;
    } else {
      assert (a + b)[..|a + b| - 1] == a + b[..|b| - 1];
      NeighboursKeepOrder(a, b[..|b| - 1], id);
    }
  }

  /** Of several entries with one id the last one is found. */
  lemma {:induction false} FindIsLast(nodes: seq<NodeView>, id: Id, i: nat)
    requires i < |nodes| && nodes[i].id == id && forall j :: i < j < |nodes| ==> nodes[j].id != id
    ensures FindNode(nodes, id) == Some(nodes[i])
  {
    if i < |nodes| - 1 {
      FindIsLast(nodes[..|nodes| - 1], id, i);
    }
  }
}
