/** Columns of the graph view: the memoised depth of a task is the length of the longest
    chain of blockers inside its package. */
module Layering {
  import opened FlowTypes
  import opened Graph
  import opened Listing

  /** The dependencies among a package's own tasks. */
  function OwnEdges(ix: Index, own: set<Id>): set<Edge> {
    set x, b | x in own && b in own && b in At(ix.blockers, x) :: Edge(b, x)
  }

  ghost predicate EndsAt(edges: set<Edge>, path: seq<Id>, x: Id) {
    IsPath(edges, path) && path[|path| - 1] == x
  }

  /** d is the number of edges of a longest chain that ends at x. */
  ghost predicate IsDepth(edges: set<Edge>, x: Id, d: nat) {
    (exists path :: EndsAt(edges, path, x) && |path| == d + 1)
    && forall path :: EndsAt(edges, path, x) ==> |path| <= d + 1
  }

  lemma StrictStep(edges: set<Edge>, b: Id, x: Id, s: Id)
    requires Edge(b, x) in edges && (s == x || StrictlyReaches(edges, x, s))
    ensures StrictlyReaches(edges, b, s)
  {
    ReachesSelf(edges, b);
    if s != x {
      var u :| Reaches(edges, x, u) && Edge(u, s) in edges;
      ReachesEdge(edges, b, x);
      ReachesTrans(edges, b, x, u);
    }
  }

  // ---- depth from the blockers' depths --------------------------------------------

  lemma ExtendPath(edges: set<Edge>, path: seq<Id>, b: Id, x: Id)
    requires EndsAt(edges, path, b) && Edge(b, x) in edges
    ensures EndsAt(edges, path + [x], x)
  {
  }

  lemma LastEdge(edges: set<Edge>, path: seq<Id>, x: Id)
    requires EndsAt(edges, path, x) && |path| > 1
    ensures exists e :: e in edges && e.blocked == x
  {
    assert Edge(path[|path| - 2], path[|path| - 1]) in edges;
  }

  lemma NoBlockersIsZero(edges: set<Edge>, x: Id)
    requires forall e :: e in edges ==> e.blocked != x
    ensures IsDepth(edges, x, 0)
  {
    assert EndsAt(edges, [x], x);
    forall path | EndsAt(edges, path, x)
      ensures |path| <= 1
    {
      if |path| > 1 {
        LastEdge(edges, path, x);
        assert false;
      }
    }
  }

  /** One more than the deepest blocker. */
  lemma DeepestBlockerPlusOne(edges: set<Edge>, x: Id, depth: map<Id, nat>, d: nat)
    requires forall e :: e in edges && e.blocked == x ==>
               e.blocker in depth && IsDepth(edges, e.blocker, depth[e.blocker]) && depth[e.blocker] + 1 <= d
    requires exists e :: e in edges && e.blocked == x && depth[e.blocker] + 1 == d
    ensures IsDepth(edges, x, d)
  {
    var e :| e in edges && e.blocked == x && depth[e.blocker] + 1 == d;
    assert e == Edge(e.blocker, x);
    var longest :| EndsAt(edges, longest, e.blocker) && |longest| == depth[e.blocker] + 1;
    ExtendPath(edges, longest, e.blocker, x);
    forall path | EndsAt(edges, path, x)
      ensures |path| <= d + 1
    {
      if |path| > 1 {
        var b := path[|path| - 2];
        assert Edge(b, x) in edges;
        assert Edge(b, x).blocked == x;
        var front := path[..|path| - 1];
        assert EndsAt(edges, front, b);
      }
    }
  }

  ghost predicate Remembers(before: map<Id, nat>, after: map<Id, nat>) {
    forall k {:trigger k in before} :: k in before ==> k in after && after[k] == before[k]
  }

  /** d is one more than the depth of the deepest of these blockers, 0 without any. */
  ghost predicate Highest(own: set<Id>, depth: map<Id, nat>, ups: seq<Id>, deepest: Option<Id>, d: nat) {
    (forall b :: b in ups && b in own ==> b in depth && depth[b] + 1 <= d)
    && match deepest
       case None => d == 0
       case Some(b) => b in ups && b in own && b in depth && depth[b] + 1 == d
  }

  lemma HighestKept(own: set<Id>, before: map<Id, nat>, after: map<Id, nat>, ups: seq<Id>, deepest: Option<Id>, d: nat)
    requires Highest(own, before, ups, deepest, d) && Remembers(before, after)
    ensures Highest(own, after, ups, deepest, d)
  {
  }

  lemma HighestNext(own: set<Id>, depth: map<Id, nat>, ups: seq<Id>, deepest: Option<Id>, d: nat, b: Id)
    requires Highest(own, depth, ups, deepest, d) && (b in own ==> b in depth)
    ensures if b in own && depth[b] + 1 > d then Highest(own, depth, ups + [b], Some(b), depth[b] + 1)
            else Highest(own, depth, ups + [b], deepest, d)
  {
  }

  // ---- the memo -------------------------------------------------------------------

  class Layers {
    const ix: Index
    const own: set<Id>
    var depth: map<Id, nat>

    constructor (ix: Index, own: set<Id>)
      ensures this.ix == ix && this.own == own && depth == map[]
    {
      this.ix, this.own, this.depth := ix, own, map[];
    }

    ghost function Edges(): set<Edge> {
      OwnEdges(ix, own)
    }

    /** Everything remembered is right. */
    ghost predicate Exact()
      reads this
    {
      forall k :: k in depth ==> IsDepth(Edges(), k, depth[k])
    }

    /** What is begun and not yet remembered lies downstream of id. */
    ghost predicate Begun(id: Id, seen: set<Id>)
      reads this
    {
      forall s :: s in seen && s !in depth ==> StrictlyReaches(Edges(), id, s)
    }

    /** The recursion ends on any graph. On an acyclic package the answer is the longest
        chain, and everything begun here is remembered at the end. */
    method DepthOf(id: Id, seen: set<Id>) returns (d: nat, seen': set<Id>)
      requires id in own && seen <= own
      requires Acyclic(Edges()) ==> Exact() && Begun(id, seen)
      modifies this
      ensures seen <= seen' <= own
      ensures Remembers(old(depth), depth)
      ensures forall k :: k in depth && k !in old(depth) ==> k !in seen
      ensures id in old(depth) || id !in seen ==> id in depth && d == depth[id]
      ensures Acyclic(Edges()) ==>
                Exact() && id in depth && d == depth[id] && forall s :: s in seen' ==> s in seen || s in depth
      decreases own - seen
    {
      if id in depth {
        return depth[id], seen;
      }
      if id in seen {
        if Acyclic(Edges()) {
          NoStrictLoop(Edges(), id);
          assert false;
        }
        return 0, seen;
      }
      seen' := seen + {id};
      var ups := At(ix.blockers, id);
      d := 0;
      ghost var deepest := None;
      ghost var edges := Edges();
      for i := 0 to |ups|
        invariant seen + {id} <= seen' <= own
        invariant Remembers(old(depth), depth)
        invariant forall k :: k in depth && k !in old(depth) ==> k !in seen + {id}
        invariant Acyclic(edges) ==> Exact() && forall s :: s in seen' ==> s in seen || s == id || s in depth
        invariant Acyclic(edges) ==> Begun(id, seen)
        invariant Acyclic(edges) ==> Highest(own, depth, ups[..i], deepest, d)
      {
        var b := ups[i];
        assert ups[..i + 1] == ups[..i] + [b];
        if b in own {
          assert Edge(b, id) in edges;
          if Acyclic(edges) {
            BegunBelow(id, b, seen, seen');
          }
          ghost var memo := depth;
          var db, seenNext := DepthOf(b, seen');
          seen' := seenNext;
          if Acyclic(edges) {
            HighestKept(own, memo, depth, ups[..i], deepest, d);
            HighestNext(own, depth, ups[..i], deepest, d, b);
          }
          if db + 1 > d {
            d, deepest := db + 1, Some(b);
          }
        } else if Acyclic(edges) {
          HighestNext(own, depth, ups[..i], deepest, d, b);
        }
      }
      assert ups[..|ups|] == ups;
      if Acyclic(edges) {
        Concludes(ups, deepest, id, d);
      }
      depth := depth[id := d];
    }

    lemma BegunBelow(id: Id, b: Id, seen: set<Id>, more: set<Id>)
      requires Begun(id, seen) && Edge(b, id) in Edges()
      requires forall s :: s in more ==> s in seen || s == id || s in depth
      ensures Begun(b, more)
    {
      forall s | s in more && s !in depth
        ensures StrictlyReaches(Edges(), b, s)
      {
        StrictStep(Edges(), b, id, s);
      }
    }

    lemma Concludes(ups: seq<Id>, deepest: Option<Id>, id: Id, d: nat)
      requires id in own && ups == At(ix.blockers, id) && Exact() && Highest(own, depth, ups, deepest, d)
      ensures IsDepth(Edges(), id, d)
    {
      forall e | e in Edges() && e.blocked == id
        ensures e.blocker in ups && e.blocker in own
      {
      }
      if deepest.None? {
        NoBlockersIsZero(Edges(), id);
      } else {
        assert Edge(deepest.value, id) in Edges();
        DeepestBlockerPlusOne(Edges(), id, depth, d);
      }
    }

    /** Every task of the package gets a depth, exact when the package is acyclic. */
    method LayerAll(tasks: seq<Id>)
      requires own == (set t | t in tasks) && depth == map[]
      modifies this
      ensures forall t :: t in own ==> t in depth
      ensures Acyclic(Edges()) ==> forall t :: t in own ==> IsDepth(Edges(), t, depth[t])
    {
      for i := 0 to |tasks|
        invariant forall t :: t in tasks[..i] ==> t in depth
        invariant Acyclic(Edges()) ==> Exact()
      {
        ghost var memo := depth;
        var d, seen := DepthOf(tasks[i], {});
        assert Remembers(memo, depth);
        assert tasks[..i + 1] == tasks[..i] + [tasks[i]];
        assert forall t :: t in tasks[..i] ==> t in memo;
      }
      assert tasks[..|tasks|] == tasks;
    }
  }

  // ---- the columns ----------------------------------------------------------------

  /** Exact depths of a whole package. */
  ghost predicate Layered(edges: set<Edge>, own: set<Id>, depth: map<Id, nat>) {
    (forall e :: e in edges ==> e.blocker in own && e.blocked in own)
    && forall t :: t in own ==> t in depth && IsDepth(edges, t, depth[t])
  }

  /** A dependency inside the package points to a strictly greater depth. */
  lemma DeeperThanBlocker(edges: set<Edge>, a: Id, b: Id, da: nat, db: nat)
    requires Edge(a, b) in edges && IsDepth(edges, a, da) && IsDepth(edges, b, db)
    ensures da < db
  {
    var path :| EndsAt(edges, path, a) && |path| == da + 1;
    ExtendPath(edges, path, a, b);
  }

  /** The columns in use are 0, 1, 2 and so on without a hole. */
  lemma ColumnsHaveNoHoles(edges: set<Edge>, own: set<Id>, depth: map<Id, nat>, x: Id, d: nat)
    requires Layered(edges, own, depth) && x in own && d <= depth[x]
    ensures exists y :: y in own && depth[y] == d
  {
    var path :| EndsAt(edges, path, x) && |path| == depth[x] + 1;
    var y := path[d];
    if d < |path| - 1 {
      assert Edge(path[d], path[d + 1]) in edges;
    }
    assert y in own;
    assert EndsAt(edges, path[..d + 1], y);
    var longest :| EndsAt(edges, longest, y) && |longest| == depth[y] + 1;
    var whole := longest + path[d + 1..];
    forall i | 0 <= i < |whole| - 1
      ensures Edge(whole[i], whole[i + 1]) in edges
    {
      if i < |longest| - 1 {
        assert whole[i] == longest[i] && whole[i + 1] == longest[i + 1];
      } else {
        var k := i - |longest| + d + 1;
        assert whole[i] == path[k] && whole[i + 1] == path[k + 1];
      }
    }
    assert EndsAt(edges, whole, x);
    assert depth[y] == d;
  }
}
