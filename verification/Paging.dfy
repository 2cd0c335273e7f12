/** Reading the log: the events after a cursor, forward and backward pages. */
module Paging {
  import opened FlowTypes
  import opened Invariants

  /** A query's filter: one project, optionally one node, a range of sequence numbers. */
  datatype Query = Query(project: Id, node: Id, above: int, below: int)

  predicate Matches(q: Query, e: Event) {
    e.project == q.project && (q.node == NO_ID || e.node == q.node)
    && e.seqno > q.above && (q.below == 0 || e.seqno < q.below)
  }

  function Select(events: seq<Event>, q: Query): seq<Event> {
    if events == [] then []
    else if Matches(q, events[0]) then [events[0]] + Select(events[1..], q)
    else Select(events[1..], q)
  }

  /** `events_after`: the project's events above a cursor, oldest first. */
  function After(events: seq<Event>, project: Id, seqno: int): seq<Event> {
    Select(events, Query(project, NO_ID, seqno, 0))
  }

  function Reversed(events: seq<Event>): seq<Event> {
    if events == [] then [] else Reversed(events[1..]) + [events[0]]
  }

  function Min(a: int, b: int): int {
    if a < b then a else b
  }

  function Limit(events: seq<Event>, n: nat): seq<Event> {
    events[..Min(n, |events|)]
  }

  // ---- about Select ---------------------------------------------------------------

  lemma {:induction false} SelectMembers(events: seq<Event>, q: Query)
    ensures forall e :: e in Select(events, q) <==> e in events && Matches(q, e)
  {
    if events != [] {
      SelectMembers(events[1..], q);
      assert events == [events[0]] + events[1..];
    }
  }

  lemma {:induction false} SelectAscends(events: seq<Event>, q: Query)
    requires Ascending(events)
    ensures Ascending(Select(events, q))
  {
    if events != [] {
      SelectAscends(events[1..], q);
      SelectMembers(events[1..], q);
      var rest := Select(events[1..], q);
      assert forall i :: 0 <= i < |rest| ==> rest[i] in rest;
    }
  }

  lemma {:induction false} SelectConcat(a: seq<Event>, b: seq<Event>, q: Query)
    ensures Select(a + b, q) == Select(a, q) + Select(b, q)
  {
    if a == [] {
      assert a + b == b;
    } else {
      assert (a + b)[1..] == a[1..] + b;
      SelectConcat(a[1..], b, q);
    }
  }

  lemma {:induction false} SelectAll(events: seq<Event>, q: Query)
    requires forall e :: e in events ==> Matches(q, e)
    ensures Select(events, q) == events
  {
    if events != [] {
      assert events[0] in events;
      SelectAll(events[1..], q);
    }
  }

  lemma {:induction false} SelectNone(events: seq<Event>, q: Query)
    requires forall e :: e in events ==> !Matches(q, e)
    ensures Select(events, q) == []
  {
    if events != [] {
      assert events[0] in events;
      SelectNone(events[1..], q);
    }
  }

  /** Moving the lower bound up to an event of the selection leaves what follows it. */
  lemma {:induction false} SelectFrom(events: seq<Event>, q: Query, k: nat)
    requires Ascending(events) && 0 < k <= |Select(events, q)|
    ensures Select(events, q.(above := Select(events, q)[k - 1].seqno)) == Select(events, q)[k..]
  {
    var sel := Select(events, q);
    var cut := sel[k - 1].seqno;
    var q' := q.(above := cut);
    SelectAscends(events, q);
    SelectMembers(events, q);
    assert sel[k - 1] in sel;
    SelectTwice(events, q, q');
    SelectConcat(sel[..k], sel[k..], q');
    assert sel == sel[..k] + sel[k..];
    SelectNone(sel[..k], q');
    forall e | e in sel[k..]
      ensures Matches(q', e)
    {
      assert e in sel;
    }
    SelectAll(sel[k..], q');
  }

  /** Moving the upper bound down to an event of the selection leaves what precedes it. */
  lemma {:induction false} SelectUpTo(events: seq<Event>, q: Query, k: nat)
    requires Ascending(events) && k < |Select(events, q)| && Select(events, q)[k].seqno != 0
    ensures Select(events, q.(below := Select(events, q)[k].seqno)) == Select(events, q)[..k]
  {
    var sel := Select(events, q);
    var q' := q.(below := sel[k].seqno);
    SelectAscends(events, q);
    SelectMembers(events, q);
    assert sel[k] in sel;
    SelectTwice(events, q, q');
    SelectConcat(sel[..k], sel[k..], q');
    assert sel == sel[..k] + sel[k..];
    SelectNone(sel[k..], q');
    forall e | e in sel[..k]
      ensures Matches(q', e)
    {
      assert e in sel;
    }
    SelectAll(sel[..k], q');
  }

  /** Selecting with a stronger query can start from the weaker one's selection. */
  lemma {:induction false} SelectTwice(events: seq<Event>, q: Query, q': Query)
    requires forall e :: e in events && Matches(q', e) ==> Matches(q, e)
    ensures Select(events, q') == Select(Select(events, q), q')
  {
    if events != [] {
      assert events[0] in events;
      SelectTwice(events[1..], q, q');
      if Matches(q, events[0]) {
        var rest := Select(events[1..], q);
        assert ([events[0]] + rest)[1..] == rest;
      }
    }
  }

  /** The positions of the project's events above a number. */
  function NewsAt(events: seq<Event>, project: Id, seqno: int): set<nat> {
    set i: nat | i < |events| && events[i].project == project && events[i].seqno > seqno
  }

  lemma NewsAppend(front: seq<Event>, last: Event, project: Id, seqno: int)
    ensures |NewsAt(front + [last], project, seqno)|
            == |NewsAt(front, project, seqno)| + if last.project == project && last.seqno > seqno then 1 else 0
  {
    var before, all := NewsAt(front, project, seqno), NewsAt(front + [last], project, seqno);
    assert forall i :: 0 <= i < |front| ==> (front + [last])[i] == front[i];
    if last.project == project && last.seqno > seqno {
      assert all == before + {|front|};
    } else {
      assert all == before;
    }
  }

  /** `events_after` returns as many events as there are above the cursor. */
  lemma {:induction false} AfterCounts(events: seq<Event>, project: Id, seqno: int)
    ensures |After(events, project, seqno)| == |NewsAt(events, project, seqno)|
  {
    if events != [] {
      var n := |events| - 1;
      AfterCounts(events[..n], project, seqno);
      assert events == events[..n] + [events[n]];
      NewsAppend(events[..n], events[n], project, seqno);
      SelectConcat(events[..n], [events[n]], Query(project, NO_ID, seqno, 0));
    }
  }

  // ---- forward: poll_changes ------------------------------------------------------

  datatype Page = Page(events: seq<Event>, cursor: int)

  function PollChanges(events: seq<Event>, project: Id, after: int, limit: int): Page {
    var lim := if limit <= 0 then 1000 else limit;
    var page := Limit(After(events, project, after), lim);
    Page(page, if page == [] then after else page[|page| - 1].seqno)
  }

  /** A client that keeps polling from the cursor it was given, with any limits. */
  function PollAll(events: seq<Event>, project: Id, after: int, limits: seq<int>): Page
    decreases |limits|
  {
    if limits == [] then Page([], after) else
    var page := PollChanges(events, project, after, limits[0]);
    var rest := PollAll(events, project, page.cursor, limits[1..]);
    Page(page.events + rest.events, rest.cursor)
  }

  /** Polling loses and repeats nothing: after any polls the pages, joined, are the first
      events after the start; at least one more for every poll until there are none left;
      and polling on from the cursor yields exactly the rest. */
  lemma {:induction false} PollingIsLossless(events: seq<Event>, project: Id, after: int, limits: seq<int>)
    requires Ascending(events)
    ensures var all := After(events, project, after);
            var got := PollAll(events, project, after, limits);
            got.events == all[..Min(|got.events|, |all|)] && |got.events| <= |all|
            && |got.events| >= Min(|limits|, |all|)
            && After(events, project, got.cursor) == all[|got.events|..]
    decreases |limits|
  {
    var all := After(events, project, after);
    if limits != [] {
      var page := PollChanges(events, project, after, limits[0]);
      var n := |page.events|;
      if n > 0 {
        SelectFrom(events, Query(project, NO_ID, after, 0), n);
        assert Query(project, NO_ID, after, 0).(above := page.cursor) == Query(project, NO_ID, page.cursor, 0);
      }
      assert After(events, project, page.cursor) == all[n..];
      PollingIsLossless(events, project, page.cursor, limits[1..]);
      var rest := PollAll(events, project, page.cursor, limits[1..]);
      assert page.events + rest.events == all[..n + |rest.events|];
    }
  }

  /** A poll returns as many events as it may: all there are, up to the limit, and up to a
      thousand when the limit is not positive. */
  lemma PollFillsItsPage(events: seq<Event>, project: Id, after: int, limit: int)
    ensures var found := |PollChanges(events, project, after, limit).events|;
            var there := |NewsAt(events, project, after)|;
            found == if limit > 0 then Min(limit, there) else Min(1000, there)
  {
    AfterCounts(events, project, after);
  }

  /** Polling as often as there are events returns exactly the project's events above the
      start, oldest first. */
  lemma PollingReturns(events: seq<Event>, project: Id, after: int, limits: seq<int>)
    requires Ascending(events) && |limits| >= |NewsAt(events, project, after)|
    ensures var got := PollAll(events, project, after, limits).events;
            Ascending(got) && forall e :: e in got <==> e in events && e.project == project && e.seqno > after
  {
    PollingIsLossless(events, project, after, limits);
    AfterCounts(events, project, after);
    var all := After(events, project, after);
    assert all[..|all|] == all;
    SelectAscends(events, Query(project, NO_ID, after, 0));
    SelectMembers(events, Query(project, NO_ID, after, 0));
  }

  // ---- backward: list_events ------------------------------------------------------

  /** Newest first: one row more than asked for is read to tell whether more remain. */
  function ListEvents(events: seq<Event>, project: Id, node: Id, before: int, limit: int): (seq<Event>, bool)
    requires limit < 0x7fff_ffff
  {
    var lim := if limit < 1 then 1 else limit;
    var rows := Limit(Reversed(Select(events, Query(project, node, 0, before))), lim + 1);
    (Limit(rows, lim), |rows| > lim)
  }

  lemma {:induction false} ReversedAt(events: seq<Event>)
    ensures |Reversed(events)| == |events|
    ensures forall i :: 0 <= i < |events| ==> Reversed(events)[i] == events[|events| - 1 - i]
  {
    if events != [] {
      ReversedAt(events[1..]);
    }
  }

  lemma ReversedConcat(a: seq<Event>, b: seq<Event>)
    ensures Reversed(a + b) == Reversed(b) + Reversed(a)
    decreases |a|
  {
    if a == [] {
      assert a + b == b;
    } else {
      assert (a + b)[1..] == a[1..] + b;
      ReversedConcat(a[1..], b);
    }
  }

  /** The flag is exact, and asking again below the oldest row returned continues with
      exactly what was left. */
  lemma ListedPage(events: seq<Event>, project: Id, node: Id, before: int, limit: int)
    requires Ascending(events) && (forall e :: e in events ==> e.seqno > 0) && limit < 0x7fff_ffff
    ensures var all := Select(events, Query(project, node, 0, before));
            var (page, more) := ListEvents(events, project, node, before, limit);
            page == Reversed(all)[..|page|] && |page| == Min(if limit > 1 then limit else 1, |all|)
            && (more <==> |page| < |all|) && (all != [] ==> page != [])
            && (page != [] ==>
                  Select(events, Query(project, node, 0, page[|page| - 1].seqno)) == all[..|all| - |page|])
  {
    var q := Query(project, node, 0, before);
    var all := Select(events, q);
    var (page, more) := ListEvents(events, project, node, before, limit);
    ReversedAt(all);
    var rows := Limit(Reversed(all), (if limit < 1 then 1 else limit) + 1);
    assert page == Reversed(all)[..|page|];
    if page != [] {
      SelectMembers(events, q);
      var k := |all| - |page|;
      assert page[|page| - 1] == all[k];
      assert all[k] in all;
      SelectUpTo(events, q, k);
      assert q.(below := all[k].seqno) == Query(project, node, 0, all[k].seqno);
    }
  }

  /** A client that pages back until the flag says there is no more; it comes to an end. */
  function ListBack(events: seq<Event>, project: Id, node: Id, before: int, limit: int): seq<Event>
    requires Ascending(events) && (forall e :: e in events ==> e.seqno > 0) && limit < 0x7fff_ffff
    decreases |Select(events, Query(project, node, 0, before))|
  {
    var (page, more) := ListEvents(events, project, node, before, limit);
    ListedPage(events, project, node, before, limit);
    if !more then page
    else page + ListBack(events, project, node, page[|page| - 1].seqno, limit)
  }

  /** Paging back returns exactly the matching events, newest first. */
  lemma {:induction false} PagingBackIsComplete(events: seq<Event>, project: Id, node: Id, before: int, limit: int)
    requires Ascending(events) && (forall e :: e in events ==> e.seqno > 0) && limit < 0x7fff_ffff
    ensures ListBack(events, project, node, before, limit)
            == Reversed(Select(events, Query(project, node, 0, before)))
    decreases |Select(events, Query(project, node, 0, before))|
  {
    var all := Select(events, Query(project, node, 0, before));
    var (page, more) := ListEvents(events, project, node, before, limit);
    ListedPage(events, project, node, before, limit);
    ReversedAt(all);
    if more {
      var k := |all| - |page|;
      PagingBackIsComplete(events, project, node, page[|page| - 1].seqno, limit);
      ReversedConcat(all[..k], all[k..]);
      assert all == all[..k] + all[k..];
      ReversedAt(all[k..]);
    }
  }

  ghost predicate Descending(events: seq<Event>) {
    forall i, j :: 0 <= i < j < |events| ==> events[i].seqno > events[j].seqno
  }

  /** What paging back returns: the events of the project, of the one node unless none is
      given, below the start unless it is 0, newest first. */
  lemma PagingBackReturns(events: seq<Event>, project: Id, node: Id, before: int, limit: int)
    requires Ascending(events) && (forall e :: e in events ==> e.seqno > 0) && limit < 0x7fff_ffff
    ensures var got := ListBack(events, project, node, before, limit);
            Descending(got)
            && forall e :: e in got <==> e in events && e.project == project && (node == NO_ID || e.node == node)
                                         && (before == 0 || e.seqno < before)
  {
    var q := Query(project, node, 0, before);
    var all := Select(events, q);
    PagingBackIsComplete(events, project, node, before, limit);
    SelectMembers(events, q);
    SelectAscends(events, q);
    ReversedAt(all);
    forall e
      ensures e in Reversed(all) <==> e in all
    {
      if e in all {
        var i :| 0 <= i < |all| && all[i] == e;
        assert Reversed(all)[|all| - 1 - i] == e;
      }
    }
  }
}
