/** Nothing deadlocks: behind every blocked node stands one that can be worked on, and
    finishing ready nodes one at a time finishes everything. */
module Readiness {
  import opened FlowTypes
  import opened Graph
  import opened Status
  import opened Engine
  import opened Invariants

  ghost predicate Unfinished(db: Db, id: Id) {
    id in db.nodes && db.nodes[id].declared != Done
  }

  /** A chain of unfinished blockers from something workable, or paused, to x. */
  ghost predicate HeldUpBy(db: Db, x: Id, chain: seq<Id>) {
    |chain| >= 2 && IsPath(db.deps, chain) && chain[|chain| - 1] == x
    && (forall i :: 0 <= i < |chain| - 1 ==> Unfinished(db, chain[i]))
    && StatusIn(db, chain[0]) in {IsReady, IsDeferred}
  }

  /** Every blocked node is held up, in the end, by a ready or a deferred one. */
  lemma BlockedIsHeldUp(db: Db, x: Id)
    requires Inv(db) && x in db.nodes && StatusIn(db, x) == IsBlocked
    ensures exists chain :: HeldUpBy(db, x, chain)
  {
    var pending := set e | e in db.deps && Unfinished(db, e.blocker);
    var open := set y | y in db.nodes && Unfinished(db, y);
    AcyclicSubset(pending, db.deps);
    var source := SourceUpstream(pending, open, x);
    var chain :| PathFromTo(pending, chain, source, x);
    assert !Waiting(db.nodes, db.deps, source);
    forall i | 0 <= i < |chain| - 1
      ensures Unfinished(db, chain[i])
    {
      assert Edge(chain[i], chain[i + 1]) in pending;
    }
    assert HeldUpBy(db, x, chain);
  }

  function OpenNodes(db: Db): set<Id> {
    set n | n in db.nodes && db.nodes[n].declared == Open
  }

  ghost predicate NothingDeferred(db: Db) {
    forall n :: n in db.nodes ==> db.nodes[n].declared != Deferred
  }

  /** With nothing deferred and something open, something is ready. */
  lemma SomethingIsReady(db: Db)
    requires Inv(db) && NothingDeferred(db) && OpenNodes(db) != {}
    ensures exists n :: n in db.nodes && StatusIn(db, n) == IsReady
  {
    var x := AnyMember(OpenNodes(db));
    if StatusIn(db, x) == IsBlocked {
      BlockedIsHeldUp(db, x);
      var chain :| HeldUpBy(db, x, chain);
      assert Unfinished(db, chain[0]);
      assert StatusIn(db, chain[0]) == IsReady;
    }
  }

  function MarkDone(author: string, n: Id): Request {
    SetStatus(Meta(author, ""), n, 3)
  }

  /** A run that marks one ready node done after another, in any order. */
  ghost predicate WorksReady(db: Db, author: string, order: seq<Id>)
    decreases |order|
  {
    order == [] ||
    (order[0] in db.nodes && StatusIn(db, order[0]) == IsReady
     && WorksReady(Apply(db, MarkDone(author, order[0])).0, author, order[1..]))
  }

  function MarkAll(author: string, order: seq<Id>): seq<Request> {
    seq(|order|, i requires 0 <= i < |order| => MarkDone(author, order[i]))
  }

  ghost function AfterWork(db: Db, author: string, order: seq<Id>): Db {
    ApplyAll(db, MarkAll(author, order))
  }

  lemma AfterWorkSteps(db: Db, author: string, n: Id, rest: seq<Id>)
    ensures AfterWork(db, author, []) == db
    ensures AfterWork(db, author, [n] + rest) == AfterWork(Apply(db, MarkDone(author, n)).0, author, rest)
  {
    var all := MarkAll(author, [n] + rest);
    assert all[0] == MarkDone(author, n) && all[1..] == MarkAll(author, rest);
  }

  lemma MarkDoneWorks(db: Db, author: string, n: Id)
    requires Inv(db) && n in db.nodes && StatusIn(db, n) == IsReady
    ensures var after := Apply(db, MarkDone(author, n)).0;
            Inv(after) && after.nodes == db.nodes[n := db.nodes[n].(declared := Done)]
            && OpenNodes(after) == OpenNodes(db) - {n} && n in OpenNodes(db)
            && (NothingDeferred(db) ==> NothingDeferred(after))
  {
    ApplyKeeps(db, MarkDone(author, n));
  }

  lemma StuckIsFinished(db: Db)
    requires Inv(db) && NothingDeferred(db)
    ensures (forall n :: n in db.nodes ==> StatusIn(db, n) != IsReady) ==>
              OpenNodes(db) == {} && forall n :: n in db.nodes ==> db.nodes[n].declared == Done
  {
    if OpenNodes(db) != {} {
      SomethingIsReady(db);
    } else {
      assert forall n :: n in db.nodes ==> n !in OpenNodes(db);
    }
  }

  /** However the ready nodes are picked, each step retires one open node; and a run that
      can go no further has finished everything in as many steps as nodes were open. */
  lemma {:induction false} WorkingReadyFinishes(db: Db, author: string, order: seq<Id>)
    requires Inv(db) && NothingDeferred(db) && WorksReady(db, author, order)
    ensures var after := AfterWork(db, author, order);
            |order| + |OpenNodes(after)| == |OpenNodes(db)|
            && ((forall n :: n in after.nodes ==> StatusIn(after, n) != IsReady) ==>
                  |order| == |OpenNodes(db)| && forall n :: n in after.nodes ==> after.nodes[n].declared == Done)
    decreases |order|
  {
    AfterWorkSteps(db, author, 0, []);
    if order == [] {
      StuckIsFinished(db);
    } else {
      MarkDoneWorks(db, author, order[0]);
      var next := Apply(db, MarkDone(author, order[0])).0;
      AfterWorkSteps(db, author, order[0], order[1..]);
      assert order == [order[0]] + order[1..];
      WorkingReadyFinishes(next, author, order[1..]);
      assert OpenNodes(db) == OpenNodes(next) + {order[0]};
    }
  }

  /** Such a complete run always exists. */
  lemma {:induction false} WorkCanFinish(db: Db, author: string) returns (order: seq<Id>)
    requires Inv(db) && NothingDeferred(db)
    ensures WorksReady(db, author, order)
    ensures var after := AfterWork(db, author, order);
            forall n :: n in after.nodes ==> after.nodes[n].declared == Done
    decreases |OpenNodes(db)|
  {
    AfterWorkSteps(db, author, 0, []);
    if OpenNodes(db) == {} {
      order := [];
      assert forall n :: n in db.nodes ==> n !in OpenNodes(db);
    } else {
      SomethingIsReady(db);
      var n :| n in db.nodes && StatusIn(db, n) == IsReady;
      MarkDoneWorks(db, author, n);
      var next := Apply(db, MarkDone(author, n)).0;
      assert OpenNodes(db) == OpenNodes(next) + {n};
      var rest := WorkCanFinish(next, author);
      order := [n] + rest;
      assert order[1..] == rest;
      AfterWorkSteps(db, author, n, rest);
    }
  }
}
