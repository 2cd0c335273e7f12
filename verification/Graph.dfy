/** Reachability over the dependency edges, and what keeps a graph acyclic. */
module Graph {
  import opened FlowTypes

  ghost predicate IsPath(edges: set<Edge>, path: seq<Id>) {
    |path| >= 1 && forall i :: 0 <= i < |path| - 1 ==> Edge(path[i], path[i + 1]) in edges
  }

  ghost predicate PathFromTo(edges: set<Edge>, path: seq<Id>, a: Id, b: Id) {
    IsPath(edges, path) && path[0] == a && path[|path| - 1] == b
  }

  /** b can be reached from a along zero or more blocker-to-blocked edges. */
  ghost predicate Reaches(edges: set<Edge>, a: Id, b: Id) {
    exists path :: PathFromTo(edges, path, a, b)
  }

  /** No edge can be closed into a loop. */
  ghost predicate Acyclic(edges: set<Edge>) {
    forall e :: e in edges ==> !Reaches(edges, e.blocked, e.blocker)
  }

  ghost predicate ClosedUnder(edges: set<Edge>, s: set<Id>) {
    forall e :: e in edges && e.blocker in s ==> e.blocked in s
  }

  lemma ReachesSelf(edges: set<Edge>, a: Id)
    ensures Reaches(edges, a, a)
  {
    assert PathFromTo(edges, [a], a, a);
  }

  lemma ReachesEdge(edges: set<Edge>, a: Id, b: Id)
    requires Edge(a, b) in edges
    ensures Reaches(edges, a, b)
  {
    assert PathFromTo(edges, [a, b], a, b);
  }

  lemma ReachesTrans(edges: set<Edge>, a: Id, b: Id, c: Id)
    requires Reaches(edges, a, b) && Reaches(edges, b, c)
    ensures Reaches(edges, a, c)
  {
    var p :| PathFromTo(edges, p, a, b);
    var q :| PathFromTo(edges, q, b, c);
    var r := p + q[1..];
    forall i | 0 <= i < |r| - 1
      ensures Edge(r[i], r[i + 1]) in edges
    {
      if i < |p| - 1 {
        assert r[i] == p[i] && r[i + 1] == p[i + 1];
      } else {
        assert r[i] == q[i - |p| + 1] && r[i + 1] == q[i - |p| + 2];
      }
    }
    assert PathFromTo(edges, r, a, c);
  }

  lemma ReachesMonotone(small: set<Edge>, large: set<Edge>, a: Id, b: Id)
    requires small <= large && Reaches(small, a, b)
    ensures Reaches(large, a, b)
  {
    var p :| PathFromTo(small, p, a, b);
    assert PathFromTo(large, p, a, b);
  }

  /** A set that contains the start and is closed under the edges contains the end. */
  lemma ClosedContainsReach(edges: set<Edge>, s: set<Id>, a: Id, b: Id)
    requires ClosedUnder(edges, s) && a in s && Reaches(edges, a, b)
    ensures b in s
  {
    var p :| PathFromTo(edges, p, a, b);
    var i := 0;
    while i < |p| - 1
      invariant 0 <= i < |p|
      invariant p[i] in s
    {
      assert Edge(p[i], p[i + 1]) in edges;
      i := i + 1;
    }
  }

  /** Removing edges cannot create a cycle. */
  lemma AcyclicSubset(small: set<Edge>, large: set<Edge>)
    requires small <= large && Acyclic(large)
    ensures Acyclic(small)
  {
    forall e | e in small
      ensures !Reaches(small, e.blocked, e.blocker)
    {
      if Reaches(small, e.blocked, e.blocker) {
        ReachesMonotone(small, large, e.blocked, e.blocker);
      }
    }
  }

  /** A route in the graph plus one edge either avoids the edge or runs up to its start
      and on from its end inside the old graph. */
  lemma {:induction false} PathThroughNewEdge(edges: set<Edge>, e: Edge, path: seq<Id>)
    requires IsPath(edges + {e}, path)
    ensures Reaches(edges, path[0], path[|path| - 1])
            || (Reaches(edges, path[0], e.blocker) && Reaches(edges, e.blocked, path[|path| - 1]))
    decreases |path|
  {
    var last := path[|path| - 1];
    if |path| == 1 {
      ReachesSelf(edges, path[0]);
    } else {
      var rest := path[1..];
      assert forall i :: 0 <= i < |rest| - 1 ==> Edge(rest[i], rest[i + 1]) == Edge(path[i + 1], path[i + 2]);
      PathThroughNewEdge(edges, e, rest);
      assert Edge(path[0], path[1]) in edges + {e};
      if Edge(path[0], path[1]) in edges {
        ReachesEdge(edges, path[0], path[1]);
        if Reaches(edges, path[1], last) {
          ReachesTrans(edges, path[0], path[1], last);
        } else {
          ReachesTrans(edges, path[0], path[1], e.blocker);
        }
      } else {
        ReachesSelf(edges, e.blocker);
      }
    }
  }

  /** The guard of the schema's trigger is exact: with the blocker downstream of the
      blocked node the new edge makes a cycle, and otherwise it does not. */
  lemma AddEdgeAcyclic(edges: set<Edge>, e: Edge)
    requires Acyclic(edges)
    ensures Acyclic(edges + {e}) <==> !Reaches(edges, e.blocked, e.blocker)
  {
    var grown := edges + {e};
    if Reaches(edges, e.blocked, e.blocker) {
      ReachesMonotone(edges, grown, e.blocked, e.blocker);
      assert e in grown;
    } else {
      forall f | f in grown
        ensures !Reaches(grown, f.blocked, f.blocker)
      {
        if Reaches(grown, f.blocked, f.blocker) {
          var p :| PathFromTo(grown, p, f.blocked, f.blocker);
          PathThroughNewEdge(edges, e, p);
          if f in edges {
            assert Edge(f.blocker, f.blocked) == f;
            ReachesEdge(edges, f.blocker, f.blocked);
            ReachesTrans(edges, e.blocked, f.blocker, f.blocked);
            ReachesTrans(edges, e.blocked, f.blocked, e.blocker);
          }
          assert false;
        }
      }
    }
  }

  /** Everything downstream of s, s included: the recursive query of the cycle trigger. */
  function Follow(edges: set<Edge>, s: set<Id>): (r: set<Id>)
    ensures s <= r && ClosedUnder(edges, r)
    decreases Targets(edges) - s
  {
    var found := (set e | e in edges && e.blocker in s :: e.blocked) - s;
    if found == {} then
      assert forall e :: e in edges && e.blocker in s ==> e.blocked in found + s;
      s
    else
      assert Targets(edges) - (s + found) < Targets(edges) - s by {
        var v := AnyMember(found);
        assert v in Targets(edges) - s && v !in Targets(edges) - (s + found);
      }
      Follow(edges, s + found)
  }

  function Targets(edges: set<Edge>): set<Id> {
    set e | e in edges :: e.blocked
  }

  /** The recursive query computes reachability. */
  lemma {:induction false} FollowIsReach(edges: set<Edge>, s: set<Id>, b: Id)
    ensures b in Follow(edges, s) <==> exists a :: a in s && Reaches(edges, a, b)
    decreases Targets(edges) - s
  {
    if a :| a in s && Reaches(edges, a, b) {
      ClosedContainsReach(edges, Follow(edges, s), a, b);
    }
    var found := (set e | e in edges && e.blocker in s :: e.blocked) - s;
    if found == {} {
      ReachesSelf(edges, b);
    } else {
      var v := AnyMember(found);
      assert v in Targets(edges) - s && v !in Targets(edges) - (s + found);
      FollowIsReach(edges, s + found, b);
      if c :| c in s + found && Reaches(edges, c, b) {
        if c !in s {
          var e :| e in edges && e.blocker in s && e.blocked == c;
          assert Edge(e.blocker, c) == e;
          ReachesEdge(edges, e.blocker, c);
          ReachesTrans(edges, e.blocker, c, b);
        }
      }
    }
  }

  lemma NoTwoCycle(edges: set<Edge>, a: Id, b: Id)
    requires Acyclic(edges) && Reaches(edges, a, b)
    ensures Edge(b, a) !in edges
  {
  }

  /** In a finite acyclic graph every nonempty set of nodes has a member that no other
      member blocks, and it can be found upstream of any chosen member. */
  lemma {:induction false} SourceUpstream(edges: set<Edge>, s: set<Id>, x: Id) returns (source: Id)
    requires Acyclic(edges) && x in s
    ensures source in s && Reaches(edges, source, x)
    ensures forall e :: e in edges && e.blocked == source ==> e.blocker !in s
    decreases |s|
  {
    ReachesSelf(edges, x);
    if e :| e in edges && e.blocked == x && e.blocker in s {
      var up := set y | y in s && y != x && Reaches(edges, y, x);
      assert Edge(e.blocker, e.blocked) == e;
      ReachesEdge(edges, e.blocker, x);
      assert e.blocker != x;
      assert e.blocker in up;
      assert up < s;
      SetSmaller(up, s);
      source := SourceUpstream(edges, up, e.blocker);
      ReachesTrans(edges, source, e.blocker, x);
      NoTwoCycle(edges, source, x);
      forall f | f in edges && f.blocked == source
        ensures f.blocker !in s
      {
        if f.blocker in s {
          assert Edge(f.blocker, f.blocked) == f;
          ReachesEdge(edges, f.blocker, source);
          ReachesTrans(edges, f.blocker, source, x);
          assert false;
        }
      }
    } else {
      source := x;
    }
  }

  /** b can be reached from a along one or more edges. */
  ghost predicate StrictlyReaches(edges: set<Edge>, a: Id, b: Id) {
    exists u :: Reaches(edges, a, u) && Edge(u, b) in edges
  }

  lemma NoStrictLoop(edges: set<Edge>, a: Id)
    requires Acyclic(edges)
    ensures !StrictlyReaches(edges, a, a)
  {
  }

  /** For two different nodes both notions agree. */
  lemma StrictIsReach(edges: set<Edge>, a: Id, b: Id)
    requires a != b
    ensures StrictlyReaches(edges, a, b) <==> Reaches(edges, a, b)
  {
    if StrictlyReaches(edges, a, b) {
      var u :| Reaches(edges, a, u) && Edge(u, b) in edges;
      ReachesEdge(edges, u, b);
      ReachesTrans(edges, a, u, b);
    }
    if Reaches(edges, a, b) {
      var p :| PathFromTo(edges, p, a, b);
      var u := p[|p| - 2];
      assert PathFromTo(edges, p[..|p| - 1], a, u);
      assert Edge(u, p[|p| - 2 + 1]) in edges;
    }
  }

  lemma AnyMember<T>(s: set<T>) returns (x: T)
    requires s != {}
    ensures x in s
  {
    x :| x in s;
  }

  lemma SetSmaller<T>(small: set<T>, large: set<T>)
    requires small < large
    ensures |small| < |large|
  {
    var rest := large - small;
    assert large == small + rest;
    assert rest != {};
  }
}
