/** The terminal client's dependency spine: every task of a package in blocker-first order,
    each under one of its direct blockers. */
module Spine {
  import opened FlowTypes
  import opened Graph
  import opened Listing
  import opened Layering

  /** A task row; `depth` is its indentation. */
  datatype Row = Row(id: Id, depth: nat)

  function RowIds(rows: seq<Row>): set<Id> {
    set r | r in rows :: r.id
  }

  ghost predicate NoRepeats(rows: seq<Row>) {
    forall i, j :: 0 <= i < j < |rows| ==> rows[i].id != rows[j].id
  }

  /** Row k hangs under row j: j is the nearest row above that is indented one step less, and
      its task blocks k's task directly. */
  ghost predicate HangsUnder(edges: set<Edge>, rows: seq<Row>, j: int, k: int) {
    0 <= j < k < |rows| && rows[j].depth + 1 == rows[k].depth && Edge(rows[j].id, rows[k].id) in edges
    && forall i :: j < i < k ==> rows[i].depth >= rows[k].depth
  }

  ghost predicate Hangs(edges: set<Edge>, rows: seq<Row>, k: int) {
    exists j :: HangsUnder(edges, rows, j, k)
  }

  /** What a walk from n at some indentation adds: n first, everything else deeper and
      hanging under a blocker. */
  ghost predicate Branch(edges: set<Edge>, rows: seq<Row>, n: Id, depth: nat) {
    rows != [] && rows[0] == Row(n, depth)
    && (forall k :: 0 < k < |rows| ==> rows[k].depth > depth)
    && forall k {:trigger Hangs(edges, rows, k)} :: 0 < k < |rows| ==> Hangs(edges, rows, k)
  }

  /** A branch grown by the branch of one more child. */
  lemma BranchGrows(edges: set<Edge>, rows: seq<Row>, more: seq<Row>, n: Id, kid: Id, depth: nat)
    requires Branch(edges, rows, n, depth) && Branch(edges, more, kid, depth + 1) && Edge(n, kid) in edges
    ensures Branch(edges, rows + more, n, depth)
  {
    var all := rows + more;
    forall k | 0 < k < |all|
      ensures all[k].depth > depth && Hangs(edges, all, k)
    {
      if k < |rows| {
        assert all[k] == rows[k] && Hangs(edges, rows, k);
        var j :| HangsUnder(edges, rows, j, k);
        assert HangsUnder(edges, all, j, k);
      } else {
        var m := k - |rows|;
        assert all[k] == more[m];
        if m == 0 {
          assert HangsUnder(edges, all, 0, k);
        } else {
          assert Hangs(edges, more, m);
          var j :| HangsUnder(edges, more, j, m);
          assert HangsUnder(edges, all, j + |rows|, k);
        }
      }
    }
  }

  /** Rows of several roots, one after another. */
  ghost predicate Spread(edges: set<Edge>, rows: seq<Row>, roots: set<Id>) {
    forall k :: 0 <= k < |rows| ==>
      if rows[k].depth == 0 then rows[k].id in roots else Hangs(edges, rows, k)
  }

  lemma SpreadGrows(edges: set<Edge>, rows: seq<Row>, more: seq<Row>, roots: set<Id>, root: Id)
    requires Spread(edges, rows, roots) && Branch(edges, more, root, 0) && root in roots
    ensures Spread(edges, rows + more, roots)
  {
    var all := rows + more;
    forall k | 0 <= k < |all|
      ensures if all[k].depth == 0 then all[k].id in roots else Hangs(edges, all, k)
    {
      if k < |rows| {
        assert all[k] == rows[k];
        if rows[k].depth != 0 {
          assert Hangs(edges, rows, k);
          var j :| HangsUnder(edges, rows, j, k);
          assert HangsUnder(edges, all, j, k);
        }
      } else {
        var m := k - |rows|;
        assert all[k] == more[m];
        if m > 0 {
          assert Hangs(edges, more, m);
          var j :| HangsUnder(edges, more, j, m);
          assert HangsUnder(edges, all, j + |rows|, k);
        }
      }
    }
  }

  lemma RowsJoin(a: seq<Row>, b: seq<Row>)
    requires NoRepeats(a) && NoRepeats(b) && RowIds(a) !! RowIds(b)
    ensures NoRepeats(a + b) && RowIds(a + b) == RowIds(a) + RowIds(b)
  {
    assert forall r :: r in a + b <==> r in a || r in b;
    forall i, j | 0 <= i < |a| && 0 <= j < |b|
      ensures a[i].id != b[j].id
    {
      assert a[i].id in RowIds(a) && b[j].id in RowIds(b);
    }
  }

  /** What a walk has done: the nodes it met, `seen` less `before`, have one row each in a
      branch, are downstream of n, and, `open` aside, have all their dependents met. */
  ghost predicate Walked(edges: set<Edge>, before: set<Id>, seen: set<Id>, rows: seq<Row>,
                         n: Id, depth: nat, open: set<Id>) {
    NoRepeats(rows) && RowIds(rows) == seen - before && Branch(edges, rows, n, depth)
    && (forall e :: e in edges && e.blocker in seen - before - open ==> e.blocked in seen)
    && forall x {:trigger Reaches(edges, n, x)} :: x in seen - before ==> Reaches(edges, n, x)
  }

  lemma WalkedMore(edges: set<Edge>, before: set<Id>, mid: set<Id>, seen: set<Id>, rows: seq<Row>,
                   more: seq<Row>, n: Id, k: Id, depth: nat)
    requires Walked(edges, before, mid, rows, n, depth, {n}) && Edge(n, k) in edges
    requires Walked(edges, mid, seen, more, k, depth + 1, {}) && before <= mid <= seen
    ensures Walked(edges, before, seen, rows + more, n, depth, {n})
  {
    RowsJoin(rows, more);
    BranchGrows(edges, rows, more, n, k, depth);
    assert seen - before == (mid - before) + (seen - mid);
    ReachesEdge(edges, n, k);
    forall x | x in seen - mid
      ensures Reaches(edges, n, x)
    {
      ReachesTrans(edges, n, k, x);
    }
  }

  lemma WalkedNone(edges: set<Edge>, before: set<Id>, n: Id, depth: nat)
    requires n !in before
    ensures Walked(edges, before, before + {n}, [Row(n, depth)], n, depth, {n})
  {
    ReachesSelf(edges, n);
    assert RowIds([Row(n, depth)]) == {n};
    assert before + {n} - before == {n};
  }

  /** When n's own dependents are met too, the branch is complete. */
  lemma WalkedAll(edges: set<Edge>, before: set<Id>, seen: set<Id>, rows: seq<Row>, n: Id, depth: nat)
    requires Walked(edges, before, seen, rows, n, depth, {n})
    requires forall e :: e in edges && e.blocker == n ==> e.blocked in seen
    ensures Walked(edges, before, seen, rows, n, depth, {})
  {
  }

  ghost predicate DownstreamOf(edges: set<Edge>, starts: set<Id>, x: Id) {
    exists r :: r in starts && Reaches(edges, r, x)
  }

  /** The spine after some roots: one row for each node met, which is downstream of a root
      and has all its dependents met. */
  ghost predicate Drawing(edges: set<Edge>, seen: set<Id>, rows: seq<Row>, starts: set<Id>) {
    NoRepeats(rows) && RowIds(rows) == seen && ClosedUnder(edges, seen) && Spread(edges, rows, starts)
    && forall x :: x in seen ==> DownstreamOf(edges, starts, x)
  }

  lemma DrawingMore(edges: set<Edge>, before: set<Id>, seen: set<Id>, rows: seq<Row>, more: seq<Row>,
                    starts: set<Id>, root: Id)
    requires Drawing(edges, before, rows, starts) && root in starts && before <= seen
    requires Walked(edges, before, seen, more, root, 0, {})
    ensures Drawing(edges, seen, rows + more, starts)
  {
    RowsJoin(rows, more);
    SpreadGrows(edges, rows, more, starts, root);
    assert seen == before + (seen - before);
  }

  /** Once every root is met, what is met is what is downstream of a root. */
  lemma DrawingDone(edges: set<Edge>, seen: set<Id>, rows: seq<Row>, starts: set<Id>)
    requires Drawing(edges, seen, rows, starts) && starts <= seen
    ensures forall x :: x in seen <==> DownstreamOf(edges, starts, x)
  {
    forall x | DownstreamOf(edges, starts, x)
      ensures x in seen
    {
      var r :| r in starts && Reaches(edges, r, x);
      ClosedContainsReach(edges, seen, r, x);
    }
  }

  // ---- the walk -------------------------------------------------------------------

  class Chain {
    const ix: Index
    const own: set<Id>
    var seen: set<Id>
    var rows: seq<Row>

    constructor (ix: Index, own: set<Id>)
      ensures this.ix == ix && this.own == own && seen == {} && rows == []
    {
      this.ix, this.own, this.seen, this.rows := ix, own, {}, [];
    }

    ghost function Edges(): set<Edge> {
      OwnEdges(ix, own)
    }

    /** The two lookup maps tell the same edges, and the package's tasks are all known. */
    ghost predicate Indexed() {
      own <= ix.byId.Keys
      && forall a, b :: a in own && b in own ==> (b in At(ix.blocks, a) <==> a in At(ix.blockers, b))
    }

    /** The children to draw under n: its dependents in the package not drawn yet. */
    method KidsOf(n: Id) returns (kids: seq<Id>)
      requires Indexed() && n in own
      ensures forall b :: b in kids ==> Edge(n, b) in Edges() && b !in seen
      ensures forall e :: e in Edges() && e.blocker == n ==> e.blocked in kids || e.blocked in seen
    {
      kids := [];
      var downs := At(ix.blocks, n);
      for i := 0 to |downs|
        invariant forall b :: b in kids ==> Edge(n, b) in Edges() && b !in seen
        invariant forall b :: b in downs[..i] && b in own ==> b in kids || b in seen
      {
        assert downs[..i + 1] == downs[..i] + [downs[i]];
        if downs[i] in own && downs[i] !in seen && downs[i] in ix.byId {
          kids := kids + [downs[i]];
        }
      }
      assert downs[..|downs|] == downs;
    }

    /** One branch of the spine. It ends on any graph; everything it meets for the first time
        gets one row, and so does everything downstream of that. */
    method Walk(n: Id, depth: nat)
      requires Indexed() && n in own && seen <= own
      modifies this
      ensures old(seen) <= seen <= own && n in seen
      ensures old(rows) <= rows && (n in old(seen) ==> rows == old(rows) && seen == old(seen))
      ensures n !in old(seen) ==> Walked(Edges(), old(seen), seen, rows[|old(rows)|..], n, depth, {})
      decreases own - seen
    {
      if n in seen {
        return;
      }
      ghost var edges := Edges();
      ghost var before, above := seen, rows;
      seen := seen + {n};
      var kids := KidsOf(n);
      rows := rows + [Row(n, depth)];
      assert rows[|above|..] == [Row(n, depth)];
      WalkedNone(edges, before, n, depth);
      for i := 0 to |kids|
        invariant before + {n} <= seen <= own && above <= rows
        invariant Walked(edges, before, seen, rows[|above|..], n, depth, {n})
        invariant forall b :: b in kids[..i] ==> b in seen
        invariant forall e :: e in edges && e.blocker == n ==> e.blocked in kids || e.blocked in seen
      {
        ghost var mid, upto := seen, rows;
        var k := kids[i];
        assert Edge(n, k) in edges by { assert k in kids; }
        assert kids[..i + 1] == kids[..i] + [k];
        Walk(k, depth + 1);
        if k !in mid {
          assert rows[|above|..] == upto[|above|..] + rows[|upto|..];
          WalkedMore(edges, before, mid, seen, upto[|above|..], rows[|upto|..], n, k, depth);
        }
      }
      assert kids[..|kids|] == kids;
      WalkedAll(edges, before, seen, rows[|above|..], n, depth);
    }

    ghost predicate IsRoot(x: Id) {
      x in own && forall e :: e in Edges() ==> e.blocked != x
    }

    ghost function Roots(): set<Id> {
      set x | x in own && IsRoot(x)
    }

    /** Tasks without a blocker in the package. */
    method FindRoots(tasks: seq<Id>) returns (roots: seq<Id>)
      requires own == (set t | t in tasks)
      ensures forall r :: r in roots <==> IsRoot(r)
    {
      roots := [];
      for i := 0 to |tasks|
        invariant forall r :: r in roots <==> r in tasks[..i] && IsRoot(r)
      {
        assert tasks[..i + 1] == tasks[..i] + [tasks[i]];
        var isRoot := true;
        var ups := At(ix.blockers, tasks[i]);
        for j := 0 to |ups|
          invariant isRoot <==> forall k :: 0 <= k < j ==> ups[k] !in own
        {
          if ups[j] in own {
            isRoot := false;
          }
        }
        RootTest(tasks[i], ups);
        if isRoot {
          roots := roots + [tasks[i]];
        }
      }
      assert tasks[..|tasks|] == tasks;
    }

    /** The package's spine: a task is drawn, once, exactly when it can be reached from a task
        without blockers in the package; in an acyclic package that is every task. Every row
        is such a root or hangs under one of its direct blockers. */
    method BuildChain(tasks: seq<Id>)
      requires Indexed() && own == (set t | t in tasks) && seen == {} && rows == []
      modifies this
      ensures NoRepeats(rows)
      ensures forall x :: x in RowIds(rows) <==> DownstreamOf(Edges(), Roots(), x)
      ensures Acyclic(Edges()) ==> RowIds(rows) == own
      ensures Spread(Edges(), rows, Roots())
    {
      ghost var edges := Edges();
      ghost var starts := Roots();
      var roots := FindRoots(tasks);
      for i := 0 to |roots|
        invariant seen <= own && Drawing(edges, seen, rows, starts)
        invariant forall r :: r in roots[..i] ==> r in seen
      {
        ghost var before, above := seen, rows;
        assert roots[i] in roots;
        assert roots[..i + 1] == roots[..i] + [roots[i]];
        Walk(roots[i], 0);
        if roots[i] !in before {
          ghost var more := rows[|above|..];
          assert rows == above + more;
          DrawingMore(edges, before, seen, above, more, starts, roots[i]);
        }
      }
      assert roots[..|roots|] == roots;
      DrawingDone(edges, seen, rows, starts);
      if Acyclic(edges) {
        AllDrawn();
      }
    }

    lemma RootTest(t: Id, ups: seq<Id>)
      requires t in own && ups == At(ix.blockers, t)
      ensures IsRoot(t) <==> forall k :: 0 <= k < |ups| ==> ups[k] !in own
    {
      if k :| 0 <= k < |ups| && ups[k] in own {
        assert Edge(ups[k], t) in Edges();
      }
    }

    lemma AllDrawn()
      requires Acyclic(Edges())
      ensures forall x :: x in own ==> DownstreamOf(Edges(), Roots(), x)
    {
      forall x | x in own
        ensures DownstreamOf(Edges(), Roots(), x)
      {
        var r := SourceUpstream(Edges(), own, x);
        assert r in Roots();
      }
    }
  }
}
