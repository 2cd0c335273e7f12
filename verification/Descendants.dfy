/** The web client's walk below a node. It keeps no set of visited nodes: it ends when no chain
    of parents below the root loops, and visits a node once when ids are not repeated. */
module Descendants {
  import opened FlowTypes
  import opened Graph
  import opened Forest
  import opened Listing
  import opened Derive

  function ParentLinks(nodes: seq<NodeView>): set<Edge> {
    set n | n in nodes :: Edge(n.row.parent, n.id)
  }

  /** The root and every id that a chain of parents leads up to it from. */
  function Reached(nodes: seq<NodeView>, root: Id): set<Id> {
    Follow(ParentLinks(nodes), {root})
  }

  function LinksBelow(nodes: seq<NodeView>, root: Id): set<Edge> {
    set n | n in nodes && n.row.parent in Reached(nodes, root) :: Edge(n.row.parent, n.id)
  }

  function Kids(nodes: seq<NodeView>, x: Id): seq<Id> {
    IdSeq(ChildrenIn(nodes, x))
  }

  // ---- why it ends ----------------------------------------------------------------

  lemma FollowShrinks(edges: set<Edge>, x: Id, y: Id)
    requires Acyclic(edges) && Edge(x, y) in edges
    ensures |Follow(edges, {y})| < |Follow(edges, {x})|
  {
    var e := Edge(x, y);
    assert !Reaches(edges, e.blocked, e.blocker);
    forall b | b in Follow(edges, {y})
      ensures b in Follow(edges, {x}) && b != x
    {
      FollowIsReach(edges, {y}, b);
      ReachesEdge(edges, x, y);
      ReachesTrans(edges, x, y, b);
      FollowIsReach(edges, {x}, b);
    }
    assert x in Follow(edges, {x}) && x !in Follow(edges, {y});
    SetSmaller(Follow(edges, {y}), Follow(edges, {x}));
  }

  /** These ids are reached, and less is reached from each than the bound. */
  ghost predicate Fit(nodes: seq<NodeView>, root: Id, ids: seq<Id>, bound: nat) {
    forall x :: x in ids ==> x in Reached(nodes, root) && |Follow(LinksBelow(nodes, root), {x})| < bound
  }

  lemma KidIsLinked(nodes: seq<NodeView>, root: Id, x: Id, k: Id)
    requires x in Reached(nodes, root) && k in Kids(nodes, x)
    ensures Edge(x, k) in LinksBelow(nodes, root) && k in Reached(nodes, root)
  {
    ChildrenInMeans(nodes, x);
    IdSeqMeans(ChildrenIn(nodes, x));
    var n :| n in ChildrenIn(nodes, x) && n.id == k;
    assert Edge(n.row.parent, n.id) in ParentLinks(nodes);
    assert Edge(x, k).blocked in Reached(nodes, root);
  }

  lemma KidsFit(nodes: seq<NodeView>, root: Id, x: Id)
    requires Acyclic(LinksBelow(nodes, root)) && x in Reached(nodes, root)
    ensures Fit(nodes, root, Kids(nodes, x), |Follow(LinksBelow(nodes, root), {x})|)
  {
    forall k | k in Kids(nodes, x)
      ensures k in Reached(nodes, root)
      ensures |Follow(LinksBelow(nodes, root), {k})| < |Follow(LinksBelow(nodes, root), {x})|
    {
      KidIsLinked(nodes, root, x, k);
      FollowShrinks(LinksBelow(nodes, root), x, k);
    }
  }

  lemma {:induction false} FilterShorter(nodes: seq<NodeView>, f: NodeView -> bool)
    ensures |Filter(nodes, f)| <= |nodes|
  {
    if nodes != [] {
      FilterShorter(nodes[..|nodes| - 1], f);
    }
  }

  /** How many visits a walk from x makes. */
  ghost function Visits(nodes: seq<NodeView>, root: Id, x: Id): nat
    requires Acyclic(LinksBelow(nodes, root)) && x in Reached(nodes, root)
    decreases |Follow(LinksBelow(nodes, root), {x})|, |nodes| + 1
  {
    KidsFit(nodes, root, x);
    FilterShorter(nodes, HasParent(x));
    1 + VisitsAll(nodes, root, Kids(nodes, x), |Follow(LinksBelow(nodes, root), {x})|)
  }

  ghost function VisitsAll(nodes: seq<NodeView>, root: Id, ids: seq<Id>, bound: nat): nat
    requires Acyclic(LinksBelow(nodes, root)) && Fit(nodes, root, ids, bound)
    decreases bound, |ids|
  {
    if ids == [] then 0 else
    VisitsAll(nodes, root, ids[..|ids| - 1], bound) + Visits(nodes, root, ids[|ids| - 1])
  }

  lemma {:induction false} VisitsConcat(nodes: seq<NodeView>, root: Id, a: seq<Id>, b: seq<Id>, bound: nat, less: nat)
    requires Acyclic(LinksBelow(nodes, root)) && Fit(nodes, root, a + b, bound) && Fit(nodes, root, b, less)
    ensures Fit(nodes, root, a, bound)
    ensures VisitsAll(nodes, root, a + b, bound) == VisitsAll(nodes, root, a, bound) + VisitsAll(nodes, root, b, less)
    decreases |b|
  {
    assert forall x :: x in a ==> x in a + b;
    if b == [] {
      assert a + b == a;
    } else {
      var front := b[..|b| - 1];
      assert (a + b)[..|a + b| - 1] == a + front;
      assert forall x :: x in a + front ==> x in a + b;
      VisitsConcat(nodes, root, a, front, bound, less);
    }
  }

  /** Taking x off and its children on leaves one visit less to make. */
  lemma OneVisitLess(nodes: seq<NodeView>, root: Id, below: seq<Id>, x: Id, bound: nat)
    requires Acyclic(LinksBelow(nodes, root)) && Fit(nodes, root, below + [x], bound)
    ensures Fit(nodes, root, below + Kids(nodes, x), bound)
    ensures VisitsAll(nodes, root, below + Kids(nodes, x), bound) + 1 == VisitsAll(nodes, root, below + [x], bound)
  {
    var kids := Kids(nodes, x);
    var less := |Follow(LinksBelow(nodes, root), {x})|;
    assert x in below + [x];
    KidsFit(nodes, root, x);
    assert forall k :: k in below + kids ==> k in kids || k in below + [x];
    VisitsConcat(nodes, root, below, kids, bound, less);
    assert (below + [x])[..|below|] == below;
  }

  // ---- what it finds --------------------------------------------------------------

  /** `out` holds the children of exactly the expanded nodes; what is collected is expanded or
      on the stack. */
  ghost predicate Collected(nodes: seq<NodeView>, root: Id, out: seq<NodeView>, stack: seq<Id>, popped: set<Id>) {
    (forall n :: n in out <==> n in nodes && n.row.parent in popped)
    && Members(stack) + popped == {root} + IdsOf(out)
    && Members(stack) + popped <= Reached(nodes, root)
  }

  /** Nothing is on the stack, or collected, twice. */
  ghost predicate Single(out: seq<NodeView>, stack: seq<Id>, popped: set<Id>) {
    DistinctIds(out) && Members(stack) !! popped && forall i, j :: 0 <= i < j < |stack| ==> stack[i] != stack[j]
  }

  lemma MembersIdSeq(nodes: seq<NodeView>)
    ensures Members(IdSeq(nodes)) == IdsOf(nodes)
  {
    IdSeqMeans(nodes);
  }

  lemma CollectedExpands(nodes: seq<NodeView>, root: Id, out: seq<NodeView>, stack: seq<Id>, popped: set<Id>, cur: Id)
    requires Collected(nodes, root, out, stack + [cur], popped)
    ensures Collected(nodes, root, out + ChildrenIn(nodes, cur), stack + Kids(nodes, cur), popped + {cur})
    ensures cur in Reached(nodes, root)
  {
    var kids := ChildrenIn(nodes, cur);
    ChildrenInMeans(nodes, cur);
    MembersOfConcat(stack, [cur]);
    MembersOfConcat(stack, Kids(nodes, cur));
    MembersIdSeq(kids);
    IdsOfConcat(out, kids);
    assert cur in Members(stack + [cur]);
    assert Members([cur]) == {cur};
    forall k | k in Kids(nodes, cur)
      ensures k in Reached(nodes, root)
    {
      KidIsLinked(nodes, root, cur, k);
    }
  }

  /** Inside what is reached, a chain of parents stays below the root. */
  lemma {:induction false} PathBelow(nodes: seq<NodeView>, root: Id, path: seq<Id>)
    requires IsPath(ParentLinks(nodes), path) && path[0] in Reached(nodes, root)
    ensures IsPath(LinksBelow(nodes, root), path)
  {
    var i := 0;
    while i < |path| - 1
      invariant 0 <= i < |path| && path[i] in Reached(nodes, root)
      invariant forall j :: 0 <= j < i ==> Edge(path[j], path[j + 1]) in LinksBelow(nodes, root)
    {
      var e := Edge(path[i], path[i + 1]);
      assert e in ParentLinks(nodes);
      i := i + 1;
    }
  }

  lemma ReachedWithin(nodes: seq<NodeView>, root: Id, cur: Id)
    requires cur in Reached(nodes, root)
    ensures Reaches(LinksBelow(nodes, root), root, cur)
  {
    FollowIsReach(ParentLinks(nodes), {root}, cur);
    var path :| PathFromTo(ParentLinks(nodes), path, root, cur);
    PathBelow(nodes, root, path);
    assert PathFromTo(LinksBelow(nodes, root), path, root, cur);
  }

  /** No child below the root is the root. */
  lemma RootIsNoKid(nodes: seq<NodeView>, root: Id, cur: Id)
    requires Acyclic(LinksBelow(nodes, root)) && cur in Reached(nodes, root)
    ensures root !in Kids(nodes, cur)
  {
    ReachedWithin(nodes, root, cur);
    var e := Edge(cur, root);
    assert e in LinksBelow(nodes, root) ==> !Reaches(LinksBelow(nodes, root), e.blocked, e.blocker);
    if root in Kids(nodes, cur) {
      KidIsLinked(nodes, root, cur, root);
    }
  }

  lemma KidsAreNew(nodes: seq<NodeView>, out: seq<NodeView>, popped: set<Id>, cur: Id)
    requires DistinctIds(nodes) && cur !in popped
    requires forall n :: n in out <==> n in nodes && n.row.parent in popped
    ensures IdsOf(out) !! IdsOf(ChildrenIn(nodes, cur))
  {
    ChildrenInMeans(nodes, cur);
    forall n, k | n in out && k in ChildrenIn(nodes, cur)
      ensures n.id != k.id
    {
      if n.id == k.id {
        SameId(nodes, n, k);
      }
    }
  }

  lemma SingleExpands(nodes: seq<NodeView>, root: Id, out: seq<NodeView>, stack: seq<Id>, popped: set<Id>, cur: Id)
    requires DistinctIds(nodes) && Acyclic(LinksBelow(nodes, root))
    requires Collected(nodes, root, out, stack + [cur], popped) && Single(out, stack + [cur], popped)
    ensures Single(out + ChildrenIn(nodes, cur), stack + Kids(nodes, cur), popped + {cur})
  {
    var kids := ChildrenIn(nodes, cur);
    var all := stack + [cur];
    assert all[|stack|] == cur && cur in Members(all);
    MembersOfConcat(stack, [cur]);
    MembersOfConcat(stack, Kids(nodes, cur));
    MembersIdSeq(kids);
    ChildrenInMeans(nodes, cur);
    RootIsNoKid(nodes, root, cur);
    KidsAreNew(nodes, out, popped, cur);
    ConcatDistinct(out, kids);
    StackStaysSingle(root, out, kids, stack, cur);
  }

  lemma StackStaysSingle(root: Id, out: seq<NodeView>, kids: seq<NodeView>, stack: seq<Id>, cur: Id)
    requires DistinctIds(kids) && IdsOf(out) !! IdsOf(kids) && root !in IdsOf(kids)
    requires Members(stack + [cur]) <= {root} + IdsOf(out)
    requires forall i, j :: 0 <= i < j < |stack + [cur]| ==> (stack + [cur])[i] != (stack + [cur])[j]
    ensures var next := stack + IdSeq(kids); forall i, j :: 0 <= i < j < |next| ==> next[i] != next[j]
    ensures cur !in Members(stack) && cur !in IdsOf(kids)
  {
    var all := stack + [cur];
    assert all[|stack|] == cur && cur in Members(all);
    forall i | 0 <= i < |stack|
      ensures stack[i] != cur && stack[i] in {root} + IdsOf(out)
    {
      assert all[i] == stack[i] && stack[i] in Members(all);
    }
    forall i, j | 0 <= i < j < |stack|
      ensures stack[i] != stack[j]
    {
      assert all[i] == stack[i] && all[j] == stack[j];
    }
    forall j | 0 <= j < |kids|
      ensures kids[j].id in IdsOf(kids)
    {
      assert kids[j] in kids;
    }
  }

  // ---- the walk -------------------------------------------------------------------

  /** The children of `cur` among the first i nodes have been kept and pushed. */
  ghost predicate Pushed(nodes: seq<NodeView>, cur: Id, i: nat, before: seq<NodeView>, below: seq<Id>,
                         out: seq<NodeView>, stack: seq<Id>)
    requires i <= |nodes|
  {
    out == before + ChildrenIn(nodes[..i], cur) && stack == below + IdSeq(ChildrenIn(nodes[..i], cur))
  }

  lemma PushStep(nodes: seq<NodeView>, cur: Id, i: nat, before: seq<NodeView>, below: seq<Id>,
                 out: seq<NodeView>, stack: seq<Id>)
    requires i < |nodes| && Pushed(nodes, cur, i, before, below, out, stack)
    ensures if nodes[i].row.parent == cur
            then Pushed(nodes, cur, i + 1, before, below, out + [nodes[i]], stack + [nodes[i].id])
            else Pushed(nodes, cur, i + 1, before, below, out, stack)
  {
    var upto := ChildrenIn(nodes[..i], cur);
    assert nodes[..i + 1][..i] == nodes[..i];
    assert IdSeq(upto + [nodes[i]]) == IdSeq(upto) + [nodes[i].id];
  }

  ghost predicate Walk(nodes: seq<NodeView>, root: Id, out: seq<NodeView>, stack: seq<Id>, popped: set<Id>, bound: nat) {
    Collected(nodes, root, out, stack, popped) && Fit(nodes, root, stack, bound)
    && (DistinctIds(nodes) ==> Single(out, stack, popped))
  }

  lemma WalkStarts(nodes: seq<NodeView>, root: Id)
    ensures Walk(nodes, root, [], [root], {}, |Follow(LinksBelow(nodes, root), {root})| + 1)
  {
    assert Members([root]) + {} == {root} + IdsOf([]);
  }

  lemma WalkExpands(nodes: seq<NodeView>, root: Id, before: seq<NodeView>, below: seq<Id>, popped: set<Id>, cur: Id,
                    out: seq<NodeView>, stack: seq<Id>, bound: nat)
    requires Acyclic(LinksBelow(nodes, root)) && Walk(nodes, root, before, below + [cur], popped, bound)
    requires Pushed(nodes, cur, |nodes|, before, below, out, stack)
    ensures Walk(nodes, root, out, stack, popped + {cur}, bound)
    ensures VisitsAll(nodes, root, stack, bound) < VisitsAll(nodes, root, below + [cur], bound)
  {
    assert nodes[..|nodes|] == nodes;
    CollectedExpands(nodes, root, before, below, popped, cur);
    if DistinctIds(nodes) {
      SingleExpands(nodes, root, before, below, popped, cur);
    }
    OneVisitLess(nodes, root, below, cur, bound);
  }

  lemma WalkEnds(nodes: seq<NodeView>, root: Id, out: seq<NodeView>, popped: set<Id>, bound: nat)
    requires Walk(nodes, root, out, [], popped, bound)
    ensures popped == Reached(nodes, root)
  {
    assert Members([]) + popped == popped;
    forall e | e in ParentLinks(nodes) && e.blocker in popped
      ensures e.blocked in popped
    {
      var n :| n in nodes && e == Edge(n.row.parent, n.id);
      assert n in out;
    }
    forall b | b in Reached(nodes, root)
      ensures b in popped
    {
      FollowIsReach(ParentLinks(nodes), {root}, b);
      ClosedContainsReach(ParentLinks(nodes), popped, root, b);
    }
  }

  /** Every listed node with a parent at or below the root, and nothing else; each once when no
      id is listed twice. */
  method DescendantsOf(nodes: seq<NodeView>, root: Id) returns (out: seq<NodeView>)
    requires Acyclic(LinksBelow(nodes, root))
    ensures forall n :: n in out <==> n in nodes && n.row.parent in Reached(nodes, root)
    ensures DistinctIds(nodes) ==> DistinctIds(out)
  {
    out := [];
    var stack := [root];
    ghost var popped: set<Id> := {};
    ghost var bound := |Follow(LinksBelow(nodes, root), {root})| + 1;
    WalkStarts(nodes, root);
    while stack != []
      invariant Walk(nodes, root, out, stack, popped, bound)
      decreases VisitsAll(nodes, root, stack, bound)
    {
      var cur := stack[|stack| - 1];
      ghost var below, before := stack[..|stack| - 1], out;
      assert stack == below + [cur];
      stack := stack[..|stack| - 1];
      for i := 0 to |nodes|
        invariant Pushed(nodes, cur, i, before, below, out, stack)
      {
        PushStep(nodes, cur, i, before, below, out, stack);
        if nodes[i].row.parent == cur {
          out := out + [nodes[i]];
          stack := stack + [nodes[i].id];
        }
      }
      WalkExpands(nodes, root, before, below, popped, cur, out, stack, bound);
      popped := popped + {cur};
    }
    WalkEnds(nodes, root, out, popped, bound);
  }

  // ---- on a list of rows with different ids ---------------------------------------

  /** There, what is reached is the subtree. */
  lemma ReachedIsSubtree(nodes: seq<NodeView>, root: Id)
    requires DistinctIds(nodes)
    ensures Reached(nodes, root) == Subtree(RowsOf(nodes), root)
  {
    var rows := RowsOf(nodes);
    RowsOfMeans(nodes);
    var sub := Subtree(rows, root);
    forall e | e in ParentLinks(nodes) && e.blocker in sub
      ensures e.blocked in sub
    {
      var n :| n in nodes && e == Edge(n.row.parent, n.id);
      var i :| 0 <= i < |nodes| && nodes[i] == n;
      assert n.id in Children(rows, sub);
    }
    forall b | b in Reached(nodes, root)
      ensures b in sub
    {
      FollowIsReach(ParentLinks(nodes), {root}, b);
      ClosedContainsReach(ParentLinks(nodes), sub, root, b);
    }
    forall c | c in Children(rows, Reached(nodes, root))
      ensures c in Reached(nodes, root)
    {
      var i :| 0 <= i < |nodes| && nodes[i].id == c;
      var e := Edge(nodes[i].row.parent, c);
      assert nodes[i] in nodes && e in ParentLinks(nodes) && e.blocker in Reached(nodes, root);
    }
    GrowLeast(rows, {root}, Reached(nodes, root));
  }

  /** Links that rise in rank cannot loop. */
  lemma {:induction false} RankRises(edges: set<Edge>, rank: Id -> int, path: seq<Id>)
    requires IsPath(edges, path) && forall e :: e in edges ==> rank(e.blocker) < rank(e.blocked)
    ensures rank(path[0]) <= rank(path[|path| - 1])
    decreases |path|
  {
    if |path| > 1 {
      assert Edge(path[0], path[1]) in edges;
      var e := Edge(path[0], path[1]);
      assert rank(e.blocker) < rank(e.blocked);
      assert IsPath(edges, path[1..]);
      RankRises(edges, rank, path[1..]);
    }
  }

  lemma RankedIsAcyclic(edges: set<Edge>, rank: Id -> int)
    requires forall e :: e in edges ==> rank(e.blocker) < rank(e.blocked)
    ensures Acyclic(edges)
  {
    forall e | e in edges
      ensures !Reaches(edges, e.blocked, e.blocker)
    {
      if path :| PathFromTo(edges, path, e.blocked, e.blocker) {
        RankRises(edges, rank, path);
        assert false;
      }
    }
  }

  function Level(rows: map<Id, Node>): Id -> int {
    (x: Id) => if x !in rows then 0 else match rows[x].kind case WorkPackage => 1 case Task => 2 case Step => 3
  }

  /** Rows of a well-formed hierarchy have no loop of parents, below any root. */
  lemma ListedEnds(rows: map<Id, Node>, nodes: seq<NodeView>, root: Id)
    requires Hierarchy(rows)
    requires forall i :: 0 <= i < |nodes| ==> nodes[i].id in rows && rows[nodes[i].id] == nodes[i].row
    ensures Acyclic(LinksBelow(nodes, root))
  {
    forall e | e in LinksBelow(nodes, root)
      ensures Level(rows)(e.blocker) < Level(rows)(e.blocked)
    {
      var n :| n in nodes && e == Edge(n.row.parent, n.id);
      var i :| 0 <= i < |nodes| && nodes[i] == n;
      assert Placed(rows, rows[n.id]);
    }
    RankedIsAcyclic(LinksBelow(nodes, root), Level(rows));
  }
}
