/** The Node Watch stream: one thread, so a commit and its publish are one step, but the
    stream replays before it starts to listen. */
module NodeWatch {
  import opened FlowTypes
  import opened Engine
  import opened Invariants
  import opened Paging
  import opened Watch

  datatype Stage = Fresh | Read | Listening | Aborted

  /** `queue` is the stream's own. For the claims below, `past` is every event ever committed,
      deleted since or not, `readLog` and `readAt` the log and the newest number that the
      replay read found, and `gap` and `heard` the project's events committed between the read
      and the listener, and after it. */
  datatype NodeWorld = NodeWorld(
    log: seq<Event>, lastSeq: int, past: seq<Event>, stage: Stage, queue: seq<seq<Event>>, out: seq<Response>,
    readLog: seq<Event>, readAt: int, gap: seq<Event>, heard: seq<Event>)

  datatype NodeAction =
    | Dispatch(note: Note, gone: set<Id>)
    | PollStep
    | ListenStep
    | DrainStep
    | AbortStep

  /** Between the read and the listener the stream gives way to other requests only when it
      yields a replay. */
  ghost predicate Ready(w: NodeWorld, a: NodeAction) {
    match a
    case Dispatch(note, _) => Numbered(note, w.lastSeq) && (w.stage == Read ==> w.out != [])
    case PollStep => w.stage == Fresh
    case ListenStep => w.stage == Read
    case DrainStep => w.stage == Listening && w.queue != []
    case AbortStep => w.stage == Listening
  }

  /** The replay: one page of REPLAY_LIMIT + 1 events, cut to REPLAY_LIMIT with the resync
      flag when it is full. */
  function Replay(s: Stream, log: seq<Event>): seq<Response> {
    if s.fromSeq <= 0 then [] else
    var page := PollChanges(log, s.project, s.fromSeq, REPLAY_LIMIT + 1).events;
    if page == [] then []
    else if |page| > REPLAY_LIMIT then [Response(page[..REPLAY_LIMIT], true)]
    else [Response(page, false)]
  }

  function Step(s: Stream, w: NodeWorld, a: NodeAction): NodeWorld {
    match a
    case Dispatch(note, gone) =>
      var mine := note.project == s.project;
      w.(log := EventsOutside(w.log, gone) + note.events,
         lastSeq := w.lastSeq + |note.events|, past := w.past + note.events,
         queue := if mine && w.stage == Listening then w.queue + [note.events] else w.queue,
         gap := if mine && w.stage == Read then w.gap + note.events else w.gap,
         heard := if mine && w.stage == Listening then w.heard + note.events else w.heard)
    case PollStep => w.(stage := Read, readLog := w.log, readAt := w.lastSeq, out := Replay(s, w.log))
    case ListenStep => w.(stage := Listening)
    case DrainStep =>
      if w.queue == [] then w
      else w.(queue := w.queue[1..], out := w.out + [Response(w.queue[0], false)])
    case AbortStep => w.(stage := Aborted)
  }

  function Flatten(batches: seq<seq<Event>>): seq<Event> {
    if batches == [] then [] else batches[0] + Flatten(batches[1..])
  }

  function Sent(out: seq<Response>): seq<Event> {
    if out == [] then [] else out[0].events + Sent(out[1..])
  }

  /** Everything delivered or queued, in order. */
  function Delivery(w: NodeWorld): seq<Event> {
    Sent(w.out) + Flatten(w.queue)
  }

  lemma {:induction false} FlattenAppend(batches: seq<seq<Event>>, b: seq<Event>)
    ensures Flatten(batches + [b]) == Flatten(batches) + b
  {
    if batches == [] {
      assert batches + [b] == [b];
    } else {
      assert (batches + [b])[1..] == batches[1..] + [b];
      FlattenAppend(batches[1..], b);
    }
  }

  lemma {:induction false} SentAppend(out: seq<Response>, r: Response)
    ensures Sent(out + [r]) == Sent(out) + r.events
  {
    if out == [] {
      assert out + [r] == [r];
    } else {
      assert (out + [r])[1..] == out[1..] + [r];
      SentAppend(out[1..], r);
    }
  }

  function Missed(s: Stream, w: NodeWorld): seq<Event> {
    After(w.readLog, s.project, s.fromSeq)
  }

  /** The replay is the first thousand missed events, flagged when some are cut. */
  lemma ReplayIsPrefix(s: Stream, log: seq<Event>)
    requires s.fromSeq > 0
    ensures var all := After(log, s.project, s.fromSeq);
            Sent(Replay(s, log)) == all[..Min(1000, |all|)] && |all| == |NewsAt(log, s.project, s.fromSeq)|
            && (all != [] ==> |Replay(s, log)| == 1 && (Replay(s, log)[0].resync <==> |all| > 1000))
  {
    AfterCounts(log, s.project, s.fromSeq);
  }

  // ---- the invariant --------------------------------------------------------------

  ghost predicate Below(events: seq<Event>, n: int) {
    forall i :: 0 <= i < |events| ==> events[i].seqno <= n
  }

  ghost predicate Above(events: seq<Event>, n: int) {
    forall i :: 0 <= i < |events| ==> events[i].seqno > n
  }

  /** Old events, then the gap, then what was heard: together in order. */
  ghost predicate InOrder(s: Stream, w: NodeWorld) {
    Ascending(Missed(s, w) + w.gap + w.heard) && Below(Missed(s, w) + w.gap + w.heard, w.lastSeq)
    && Above(w.gap + w.heard, w.readAt) && w.readAt <= w.lastSeq
  }

  /** The event was deleted before the replay read. */
  ghost predicate GoneBeforeRead(w: NodeWorld, e: Event) {
    e.seqno <= w.readAt && e !in w.readLog
  }

  ghost predicate Surveyed(s: Stream, w: NodeWorld) {
    forall e :: e in w.past && e.project == s.project && e.seqno > s.fromSeq ==>
      e in Missed(s, w) || e in w.gap || e in w.heard || GoneBeforeRead(w, e)
  }

  ghost predicate Fine(s: Stream, w: NodeWorld) {
    Ascending(w.log) && Below(w.log, w.lastSeq) && Below(w.past, w.lastSeq)
    && (w.stage == Fresh ==> w.queue == [] && w.gap == [] && w.heard == [] && w.out == [])
    && (w.stage == Read ==> w.queue == [] && w.heard == [] && w.out == Replay(s, w.readLog))
    && (w.stage == Read || w.stage == Listening ==>
          InOrder(s, w) && Surveyed(s, w) && Delivery(w) == Sent(Replay(s, w.readLog)) + w.heard
          && (Replay(s, w.readLog) == [] ==> w.gap == []))
  }

  lemma GrowOrder(events: seq<Event>, more: seq<Event>, n: int)
    requires Ascending(events) && Below(events, n)
    requires forall i :: 0 <= i < |more| ==> more[i].seqno == n + 1 + i
    ensures Ascending(events + more) && Below(events + more, n + |more|)
  {
  }

  lemma DispatchLog(s: Stream, w: NodeWorld, note: Note, gone: set<Id>)
    requires Fine(s, w) && Numbered(note, w.lastSeq)
    ensures var w' := Step(s, w, Dispatch(note, gone));
            Ascending(w'.log) && Below(w'.log, w'.lastSeq) && Below(w'.past, w'.lastSeq)
  {
    var kept := EventsOutside(w.log, gone);
    OutsideMembers(w.log, gone);
    OutsideAscends(w.log, gone);
    assert forall i :: 0 <= i < |kept| ==> kept[i] in kept;
    assert forall e :: e in w.log ==> e.seqno <= w.lastSeq;
    GrowOrder(kept, note.events, w.lastSeq);
  }

  lemma DispatchOrder(s: Stream, w: NodeWorld, note: Note, gone: set<Id>)
    requires Fine(s, w) && Numbered(note, w.lastSeq) && (w.stage == Read || w.stage == Listening)
    ensures InOrder(s, Step(s, w, Dispatch(note, gone)))
  {
    var w' := Step(s, w, Dispatch(note, gone));
    var known := Missed(s, w) + w.gap + w.heard;
    GrowOrder(known, note.events, w.lastSeq);
    if note.project == s.project {
      assert Missed(s, w') + w'.gap + w'.heard == known + note.events;
      assert w'.gap + w'.heard == w.gap + w.heard + note.events;
    } else {
      assert Below(known, w'.lastSeq);
    }
  }

  lemma DispatchSurveyed(s: Stream, w: NodeWorld, note: Note, gone: set<Id>)
    requires Fine(s, w) && Numbered(note, w.lastSeq) && (w.stage == Read || w.stage == Listening)
    ensures Surveyed(s, Step(s, w, Dispatch(note, gone)))
  {
    assert forall e :: e in note.events ==> e.project == note.project;
  }

  lemma DispatchFine(s: Stream, w: NodeWorld, note: Note, gone: set<Id>)
    requires Fine(s, w) && Ready(w, Dispatch(note, gone))
    ensures Fine(s, Step(s, w, Dispatch(note, gone)))
  {
    DispatchLog(s, w, note, gone);
    if w.stage == Read || w.stage == Listening {
      DispatchOrder(s, w, note, gone);
      DispatchSurveyed(s, w, note, gone);
      FlattenAppend(w.queue, note.events);
      assert Sent(w.out) + (Flatten(w.queue) + note.events) == Delivery(w) + note.events;
    }
  }

  lemma PollFine(s: Stream, w: NodeWorld)
    requires Fine(s, w) && w.stage == Fresh
    ensures Fine(s, Step(s, w, PollStep))
  {
    var w' := Step(s, w, PollStep);
    var q := Query(s.project, NO_ID, s.fromSeq, 0);
    SelectMembers(w.log, q);
    SelectAscends(w.log, q);
    var missed := Missed(s, w');
    assert forall i :: 0 <= i < |missed| ==> missed[i] in missed;
    assert missed + w'.gap + w'.heard == missed;
    assert forall e :: e in w.past ==> e.seqno <= w.lastSeq;
  }

  lemma NodeActionKeeps(s: Stream, w: NodeWorld, a: NodeAction)
    requires Fine(s, w) && Ready(w, a)
    ensures Fine(s, Step(s, w, a))
  {
    match a
    case Dispatch(note, gone) => DispatchFine(s, w, note, gone);
    case PollStep => PollFine(s, w);
    case ListenStep =>
    case DrainStep => SentAppend(w.out, Response(w.queue[0], false));
    case AbortStep =>
  }

  ghost predicate NodeCanRun(s: Stream, w: NodeWorld, actions: seq<NodeAction>)
    decreases |actions|
  {
    actions == [] || (Ready(w, actions[0]) && NodeCanRun(s, Step(s, w, actions[0]), actions[1..]))
  }

  function NodeRun(s: Stream, w: NodeWorld, actions: seq<NodeAction>): NodeWorld
    decreases |actions|
  {
    if actions == [] then w else NodeRun(s, Step(s, w, actions[0]), actions[1..])
  }

  lemma {:induction false} NodeRunKeeps(s: Stream, w: NodeWorld, actions: seq<NodeAction>)
    requires Fine(s, w) && NodeCanRun(s, w, actions)
    ensures Fine(s, NodeRun(s, w, actions))
    decreases |actions|
  {
    if actions != [] {
      NodeActionKeeps(s, w, actions[0]);
      NodeRunKeeps(s, Step(s, w, actions[0]), actions[1..]);
    }
  }

  ghost predicate Start(w: NodeWorld) {
    Ascending(w.log) && Below(w.log, w.lastSeq) && Below(w.past, w.lastSeq) && w.stage == Fresh
    && w.queue == [] && w.gap == [] && w.heard == [] && w.out == []
  }

  /** How many of the missed events the replay offers: none from cursor 0. */
  function Offered(s: Stream, w: NodeWorld): nat {
    if s.fromSeq <= 0 then 0 else Min(REPLAY_LIMIT, |Missed(s, w)|)
  }

  lemma DeliveryParts(s: Stream, w: NodeWorld)
    requires Fine(s, w) && w.stage == Listening
    ensures Offered(s, w) <= |Missed(s, w)| && Delivery(w) == Missed(s, w)[..Offered(s, w)] + w.heard
  {
    if s.fromSeq > 0 {
      ReplayIsPrefix(s, w.readLog);
    }
  }

  /** Over replay and live stream the sequence numbers strictly increase, so nothing comes
      twice. */
  lemma NodeDeliversInOrder(s: Stream, w: NodeWorld, actions: seq<NodeAction>)
    requires Start(w) && NodeCanRun(s, w, actions)
    ensures var end := NodeRun(s, w, actions);
            end.stage == Listening ==> Ascending(Delivery(end))
  {
    NodeRunKeeps(s, w, actions);
    var end := NodeRun(s, w, actions);
    if end.stage == Listening {
      DeliveryParts(s, end);
      PartsAscend(Missed(s, end), end.gap, end.heard, Offered(s, end));
    }
  }

  lemma PartsAscend(a: seq<Event>, b: seq<Event>, c: seq<Event>, n: nat)
    requires n <= |a| && Ascending(a + b + c)
    ensures Ascending(a[..n] + c)
  {
    var all, part := a + b + c, a[..n] + c;
    forall i, j | 0 <= i < j < |part|
      ensures part[i].seqno < part[j].seqno
    {
      var k := if i < n then i else i - n + |a| + |b|;
      var l := if j < n then j else j - n + |a| + |b|;
      assert part[i] == all[k] && part[j] == all[l] && k < l;
    }
  }

  /** What a listening stream has not been given of everything ever committed in its project
      above its cursor is exactly what was committed between the replay read and the listener,
      what the replay did not offer, and what was deleted before the read. When the replay cut
      some off it said resync; when it offered nothing, nothing came between. */
  lemma NodeMissesExactly(s: Stream, w: NodeWorld, actions: seq<NodeAction>)
    requires Start(w) && NodeCanRun(s, w, actions)
    ensures var end := NodeRun(s, w, actions);
            end.stage == Listening ==>
              var cut := Missed(s, end)[Offered(s, end)..];
              (forall e :: e in end.past && e.project == s.project && e.seqno > s.fromSeq ==>
                 (e !in Delivery(end) <==> e in end.gap || e in cut || GoneBeforeRead(end, e)))
              && (s.fromSeq > 0 && cut != [] ==>
                    |Replay(s, end.readLog)| == 1 && Replay(s, end.readLog)[0].resync)
              && (Replay(s, end.readLog) == [] ==> end.gap == [])
  {
    NodeRunKeeps(s, w, actions);
    var end := NodeRun(s, w, actions);
    if end.stage == Listening {
      var all := Missed(s, end);
      DeliveryParts(s, end);
      SelectMembers(end.readLog, Query(s.project, NO_ID, s.fromSeq, 0));
      PartsMissing(all, end.gap, end.heard, Offered(s, end));
      HeardIsNew(s, end);
      if s.fromSeq > 0 {
        ReplayIsPrefix(s, end.readLog);
      }
    }
  }

  lemma HeardIsNew(s: Stream, w: NodeWorld)
    requires InOrder(s, w)
    ensures forall e :: e in w.gap || e in w.heard ==> e.seqno > w.readAt
  {
    var news := w.gap + w.heard;
    assert forall e :: e in w.gap || e in w.heard ==> e in news;
  }

  lemma PartsMissing(a: seq<Event>, b: seq<Event>, c: seq<Event>, n: nat)
    requires n <= |a| && Ascending(a + b + c)
    ensures forall e :: e in a || e in b || e in c ==> (e !in a[..n] + c <==> e in b || e in a[n..])
  {
    assert a == a[..n] + a[n..];
    DisjointParts(a[..n], a[n..] + b, c) by {
      assert a[..n] + (a[n..] + b) + c == a + b + c;
    }
  }

  /** In an ascending sequence a middle part shares no element with what surrounds it. */
  lemma DisjointParts(a: seq<Event>, b: seq<Event>, c: seq<Event>)
    requires Ascending(a + b + c)
    ensures forall e :: e in b ==> e !in a && e !in c
  {
    var all := a + b + c;
    forall e | e in b
      ensures e !in a && e !in c
    {
      var j :| 0 <= j < |b| && b[j] == e;
      assert all[|a| + j] == e;
      forall i | 0 <= i < |a|
        ensures a[i] != e
      {
        assert all[i] == a[i];
      }
      forall i | 0 <= i < |c|
        ensures c[i] != e
      {
        assert all[|a| + |b| + i] == c[i];
      }
    }
  }

  /** What the action commits in the project. */
  function OwnEvents(project: Id, a: NodeAction): seq<Event> {
    if a.Dispatch? && a.note.project == project then a.note.events else []
  }

  function CommittedIn(project: Id, actions: seq<NodeAction>): seq<Event> {
    if actions == [] then [] else OwnEvents(project, actions[0]) + CommittedIn(project, actions[1..])
  }

  /** The stream listens on from w to w', and no response between says resync. */
  ghost predicate ListensOn(w: NodeWorld, w': NodeWorld) {
    w.stage == Listening && w'.stage == Listening && w'.gap == w.gap && w.out <= w'.out
    && forall i :: |w.out| <= i < |w'.out| ==> !w'.out[i].resync
  }

  lemma ListensStep(s: Stream, w: NodeWorld, a: NodeAction)
    requires w.stage == Listening && Ready(w, a) && a != AbortStep
    ensures ListensOn(w, Step(s, w, a)) && Delivery(Step(s, w, a)) == Delivery(w) + OwnEvents(s.project, a)
  {
    if a.Dispatch? && a.note.project == s.project {
      FlattenAppend(w.queue, a.note.events);
    } else if a == DrainStep {
      SentAppend(w.out, Response(w.queue[0], false));
    }
  }

  lemma ListensTrans(a: NodeWorld, b: NodeWorld, c: NodeWorld)
    requires ListensOn(a, b) && ListensOn(b, c)
    ensures ListensOn(a, c)
  {
    forall i | |a.out| <= i < |c.out|
      ensures !c.out[i].resync
    {
      if i < |b.out| {
        assert c.out[i] == b.out[i];
      }
    }
  }

  lemma {:induction false} KeepsListening(s: Stream, w: NodeWorld, actions: seq<NodeAction>)
    requires w.stage == Listening && NodeCanRun(s, w, actions) && AbortStep !in actions
    ensures ListensOn(w, NodeRun(s, w, actions))
    decreases |actions|
  {
    if actions != [] {
      var w' := Step(s, w, actions[0]);
      ListensStep(s, w, actions[0]);
      KeepsListening(s, w', actions[1..]);
      ListensTrans(w, w', NodeRun(s, w', actions[1..]));
    }
  }

  lemma Regroup(a: seq<Event>, b: seq<Event>, c: seq<Event>)
    ensures (a + b) + c == a + (b + c)
  {
  }

  lemma {:induction false} KeepsDelivering(s: Stream, w: NodeWorld, actions: seq<NodeAction>)
    requires w.stage == Listening && NodeCanRun(s, w, actions) && AbortStep !in actions
    ensures Delivery(NodeRun(s, w, actions)) == Delivery(w) + CommittedIn(s.project, actions)
    decreases |actions|
  {
    if actions != [] {
      var w' := Step(s, w, actions[0]);
      ListensStep(s, w, actions[0]);
      KeepsDelivering(s, w', actions[1..]);
      Regroup(Delivery(w), OwnEvents(s.project, actions[0]), CommittedIn(s.project, actions[1..]));
    }
  }

  /** A listening stream that nobody aborts goes on listening: it delivers or holds everything
      the project commits from then on, nothing else, in order, and says resync to none of
      it. */
  lemma NodeListensOn(s: Stream, w: NodeWorld, actions: seq<NodeAction>)
    requires w.stage == Listening && NodeCanRun(s, w, actions) && AbortStep !in actions
    ensures ListensOn(w, NodeRun(s, w, actions))
    ensures Delivery(NodeRun(s, w, actions)) == Delivery(w) + CommittedIn(s.project, actions)
  {
    KeepsListening(s, w, actions);
    KeepsDelivering(s, w, actions);
  }
}
