/** The work package / task / step hierarchy: subtrees and where a row may sit. */
module Forest {
  import opened FlowTypes
  import opened Graph

  function Children(nodes: map<Id, Node>, s: set<Id>): set<Id> {
    set n | n in nodes && nodes[n].parent in s
  }

  /** The closure of s under "child of": what a recursive walk from s collects. */
  function Grow(nodes: map<Id, Node>, s: set<Id>): (r: set<Id>)
    ensures s <= r && Children(nodes, r) <= r
    ensures r <= s + nodes.Keys
    decreases nodes.Keys - s
  {
    var found := Children(nodes, s) - s;
    if found == {} then s else
    assert nodes.Keys - (s + found) < nodes.Keys - s by {
      var c := AnyMember(found);
      assert c in nodes.Keys - s && c !in nodes.Keys - (s + found);
    }
    Grow(nodes, s + found)
  }

  /** The root and everything below it. */
  function Subtree(nodes: map<Id, Node>, root: Id): (r: set<Id>)
    ensures root in r && Children(nodes, r) <= r
  {
    Grow(nodes, {root})
  }

  /** Grow is the least closed superset. */
  lemma {:induction false} GrowLeast(nodes: map<Id, Node>, s: set<Id>, t: set<Id>)
    requires s <= t && Children(nodes, t) <= t
    ensures Grow(nodes, s) <= t
    decreases nodes.Keys - s
  {
    var found := Children(nodes, s) - s;
    assert Children(nodes, s) <= Children(nodes, t);
    if found != {} {
      assert nodes.Keys - (s + found) < nodes.Keys - s by {
        var c := AnyMember(found);
        assert c in nodes.Keys - s && c !in nodes.Keys - (s + found);
      }
      GrowLeast(nodes, s + found, t);
    }
  }

  function KindOf(nodes: map<Id, Node>, id: Id): Option<Kind> {
    if id in nodes then Some(nodes[id].kind) else None
  }

  /** The parent kind the schema's triggers ask for. */
  function ParentKindFor(kind: Kind): Option<Kind> {
    match kind
    case WorkPackage => None
    case Task => Some(WorkPackage)
    case Step => Some(Task)
  }

  /** The child kind the schema's update trigger allows. */
  function ChildKindFor(kind: Kind): Option<Kind> {
    match kind
    case WorkPackage => Some(Task)
    case Task => Some(Step)
    case Step => None
  }

  /** The table's CHECK: only work packages are roots, and only they have a state. */
  predicate RowCheck(row: Node) {
    (row.kind == WorkPackage) == (row.parent == NO_ID) && (row.kind == WorkPackage) == row.wp.Some?
  }

  /** The row sits under a parent of the right kind. */
  predicate Placed(nodes: map<Id, Node>, row: Node) {
    RowCheck(row) && KindOf(nodes, row.parent) == ParentKindFor(row.kind)
  }

  ghost predicate Hierarchy(nodes: map<Id, Node>) {
    NO_ID !in nodes && forall n :: n in nodes ==> Placed(nodes, nodes[n])
  }

  /** The parent of n, n's grandparent, and so on; at most three rows long when the
      hierarchy is well formed. */
  lemma ChainsAreShort(nodes: map<Id, Node>, n: Id)
    requires Hierarchy(nodes) && n in nodes
    ensures match nodes[n].kind
            case WorkPackage => nodes[n].parent == NO_ID
            case Task => nodes[n].parent in nodes && nodes[nodes[n].parent].kind == WorkPackage
            case Step => nodes[n].parent in nodes && nodes[nodes[n].parent].kind == Task
                         && nodes[nodes[n].parent].parent in nodes
                         && nodes[nodes[nodes[n].parent].parent].kind == WorkPackage
  {
  }

  /** In a well-formed hierarchy a subtree is the root, its children and theirs. */
  lemma SubtreeIsTwoLevels(nodes: map<Id, Node>, root: Id)
    requires Hierarchy(nodes) && root in nodes
    ensures Subtree(nodes, root)
         == {root} + Children(nodes, {root}) + Children(nodes, Children(nodes, {root}))
  {
    var one := Children(nodes, {root});
    var two := Children(nodes, one);
    var all := {root} + one + two;
    forall p | p in two
      ensures nodes[p].kind == Step
    {
      ChainsAreShort(nodes, p);
      ChainsAreShort(nodes, nodes[p].parent);
    }
    forall n | n in Children(nodes, all)
      ensures n in all
    {
      ChainsAreShort(nodes, n);
    }
    GrowLeast(nodes, {root}, all);
    var r := Subtree(nodes, root);
    assert one <= Children(nodes, r) <= r;
    assert two <= Children(nodes, r) <= r;
  }

  // ---- rows of an unordered query -------------------------------------------------

  lemma {:induction false} LeastExists(s: set<Id>)
    requires s != {}
    ensures exists x :: x in s && forall y :: y in s ==> x <= y
    decreases |s|
  {
    var x :| x in s;
    var below := set y | y in s && y < x;
    if below != {} {
      assert s == below + (s - below) && x in s - below;
      LeastExists(below);
      var z :| z in below && forall y :: y in below ==> z <= y;
      assert forall y :: y in s ==> z <= y;
    } else {
      assert forall y :: y in s ==> y !in below ==> x <= y;
    }
  }

  function Least(s: set<Id>): (x: Id)
    requires s != {}
    ensures x in s && forall y :: y in s ==> x <= y
  {
    LeastExists(s);
    var x :| x in s && forall y :: y in s ==> x <= y;
    x
  }

  /** The order in which an unordered query returns these identifiers. SQLite leaves it
      open; the model fixes one order, ascending. */
  function Rows(s: set<Id>): (r: seq<Id>)
    decreases |s|
  {
    if s == {} then [] else [Least(s)] + Rows(s - {Least(s)})
  }

  lemma {:induction false} RowsMembers(s: set<Id>)
    ensures forall x :: x in Rows(s) <==> x in s
    decreases |s|
  {
    if s != {} {
      RowsMembers(s - {Least(s)});
    }
  }

  /** The query returns every row of the set, each once. */
  lemma RowsListEach(s: set<Id>)
    ensures forall x :: x in Rows(s) <==> x in s
    ensures forall i :: 0 <= i < |Rows(s)| ==> Rows(s)[i] in s
    ensures forall i, j :: 0 <= i < j < |Rows(s)| ==> Rows(s)[i] < Rows(s)[j]
  {
  }

  // ---- the recursive query, row by row --------------------------------------------

  // The query joins with UNION ALL: nothing is deduplicated, and it ends only when a round
  // finds no row.

  /** The rows found from these, in the order found: a parent's children for each time the
      parent is listed. */
  function Round(nodes: map<Id, Node>, level: seq<Id>): seq<Id> {
    if level == [] then [] else
    Round(nodes, level[..|level| - 1]) + Rows(Children(nodes, {level[|level| - 1]}))
  }

  function RoundAt(nodes: map<Id, Node>, root: Id, k: nat): seq<Id> {
    if k == 0 then [root] else Round(nodes, RoundAt(nodes, root, k - 1))
  }

  ghost predicate NoRepeats(ids: seq<Id>) {
    forall i, j :: 0 <= i < j < |ids| ==> ids[i] != ids[j]
  }

  lemma JoinNoRepeats(a: seq<Id>, b: seq<Id>)
    requires NoRepeats(a) && NoRepeats(b) && forall x :: x in a ==> x !in b
    ensures NoRepeats(a + b)
  {
    assert forall i :: 0 <= i < |a| ==> a[i] in a;
    assert forall i :: 0 <= i < |b| ==> b[i] in b;
  }

  lemma {:induction false} RoundMeans(nodes: map<Id, Node>, level: seq<Id>)
    ensures forall c :: c in Round(nodes, level) <==> c in nodes && nodes[c].parent in level
    ensures NoRepeats(level) ==> NoRepeats(Round(nodes, level))
  {
    if level != [] {
      var front, last := level[..|level| - 1], level[|level| - 1];
      assert level == front + [last];
      RoundMeans(nodes, front);
      RowsListEach(Children(nodes, {last}));
      if NoRepeats(level) {
        assert last !in front;
        JoinNoRepeats(Round(nodes, front), Rows(Children(nodes, {last})));
      }
    }
  }

  /** On a well-formed hierarchy the query's fourth round is empty, so it ends, and its three
      rounds hold each node of the subtree once. */
  lemma QueryIsSubtree(nodes: map<Id, Node>, root: Id)
    requires Hierarchy(nodes) && root in nodes
    ensures RoundAt(nodes, root, 3) == []
    ensures var found := RoundAt(nodes, root, 0) + RoundAt(nodes, root, 1) + RoundAt(nodes, root, 2);
            NoRepeats(found) && forall x :: x in found <==> x in Subtree(nodes, root)
  {
    var one, two := RoundAt(nodes, root, 1), RoundAt(nodes, root, 2);
    assert RoundAt(nodes, root, 0) == [root] && one == Round(nodes, [root]) && two == Round(nodes, one);
    RoundMeans(nodes, [root]);
    RoundMeans(nodes, one);
    SubtreeIsTwoLevels(nodes, root);
    RoundsApart(nodes, root);
    NoFourthRound(nodes, root);
    JoinNoRepeats([root], one);
    JoinNoRepeats([root] + one, two);
  }

  lemma RoundsApart(nodes: map<Id, Node>, root: Id)
    requires Hierarchy(nodes) && root in nodes
    ensures root !in RoundAt(nodes, root, 1) && root !in RoundAt(nodes, root, 2)
    ensures forall x :: x in RoundAt(nodes, root, 1) ==> x !in RoundAt(nodes, root, 2)
  {
    RoundMeans(nodes, RoundAt(nodes, root, 0));
    RoundMeans(nodes, RoundAt(nodes, root, 1));
    forall x | x in nodes
      ensures nodes[x].parent in nodes ==> nodes[nodes[x].parent].kind != nodes[x].kind
      ensures nodes[x].parent in nodes && nodes[nodes[x].parent].parent in nodes ==>
                nodes[x].kind == Step && nodes[nodes[nodes[x].parent].parent].kind == WorkPackage
    {
      ChainsAreShort(nodes, x);
      if nodes[x].parent in nodes { ChainsAreShort(nodes, nodes[x].parent); }
    }
  }

  lemma NoFourthRound(nodes: map<Id, Node>, root: Id)
    requires Hierarchy(nodes) && root in nodes
    ensures RoundAt(nodes, root, 3) == []
  {
    var one, two := RoundAt(nodes, root, 1), RoundAt(nodes, root, 2);
    RoundMeans(nodes, RoundAt(nodes, root, 0));
    RoundMeans(nodes, one);
    RoundMeans(nodes, two);
    var three := RoundAt(nodes, root, 3);
    assert three == Round(nodes, two);
    if three != [] {
      var x := three[0];
      assert x in three;
      ChainsAreShort(nodes, x);
      assert false;
    }
  }
}
