/** The native Watch stream as a protocol: commits, publishes that may be delayed and
    reordered, and one subscriber that subscribes first, then replays, then listens. */
module Watch {
  import opened FlowTypes
  import opened Engine
  import opened Invariants
  import opened Commits
  import opened Paging

  const CAPACITY: int := 256
  const REPLAY_LIMIT: int := 1000

  datatype Note = Note(project: Id, events: seq<Event>)
  datatype Response = Response(events: seq<Event>, resync: bool)
  datatype Phase = Idle | Subscribed | Live | Over

  /** `pending` holds committed mutations whose publish is still to come; `bus` is
      everything ever published; `start` and `cursor` are the subscriber's first and next
      position in it. For the claims below, `past` is every event ever committed, deleted
      since or not, `joined` the newest number at the subscription, and `readLog` the log the
      replay read found, if it was done. */
  datatype World = World(
    log: seq<Event>, lastSeq: int, past: seq<Event>, pending: seq<Note>, bus: seq<Note>,
    phase: Phase, joined: int, start: nat, cursor: nat, readLog: Option<seq<Event>>, out: seq<Response>)

  datatype Stream = Stream(project: Id, fromSeq: int)

  datatype Action =
    | CommitStep(note: Note, gone: set<Id>)
    | PublishStep(which: nat)
    | SubscribeStep
    | ReplayStep(ok: bool)
    | ReceiveStep
    | HeartbeatStep
    | HangUpStep

  ghost predicate Numbered(note: Note, lastSeq: int) {
    note.events != [] && forall i :: 0 <= i < |note.events| ==>
      note.events[i].seqno == lastSeq + 1 + i && note.events[i].project == note.project
  }

  ghost predicate Enabled(w: World, a: Action) {
    match a
    case CommitStep(note, _) => Numbered(note, w.lastSeq)
    case PublishStep(which) => which < |w.pending|
    case SubscribeStep => w.phase == Idle
    case ReplayStep(_) => w.phase == Subscribed
    case ReceiveStep => w.phase == Live && w.cursor < |w.bus|
    case HeartbeatStep => w.phase == Live
    case HangUpStep => w.phase == Live
  }

  function Next(s: Stream, w: World, a: Action): World {
    match a
    case CommitStep(note, gone) =>
      w.(log := EventsOutside(w.log, gone) + note.events, lastSeq := w.lastSeq + |note.events|,
         past := w.past + note.events, pending := w.pending + [note])
    case PublishStep(which) =>
      if which < |w.pending| then
        w.(bus := w.bus + [w.pending[which]], pending := w.pending[..which] + w.pending[which + 1..])
      else w
    case SubscribeStep => w.(phase := Subscribed, joined := w.lastSeq, start := |w.bus|, cursor := |w.bus|)
    case ReplayStep(ok) =>
      if s.fromSeq > 0 && ok then
        var events := After(w.log, s.project, s.fromSeq);
        w.(phase := Live, readLog := Some(w.log),
           out := if events == [] then w.out else w.out + [Response(events, |events| > REPLAY_LIMIT)])
      else w.(phase := Live)
    case ReceiveStep =>
      if w.cursor >= |w.bus| then w
      else if |w.bus| - w.cursor > CAPACITY then w.(phase := Over, out := w.out + [Response([], true)])
      else
        var note := w.bus[w.cursor];
        w.(cursor := w.cursor + 1,
           out := if note.project == s.project then w.out + [Response(note.events, false)] else w.out)
    case HeartbeatStep => w.(out := w.out + [Response([], false)])
    case HangUpStep => w.(phase := Over)
  }

  // ---- the invariant --------------------------------------------------------------

  ghost predicate Delivered(w: World, e: Event) {
    exists i :: 0 <= i < |w.out| && e in w.out[i].events
  }

  ghost predicate Waiting(notes: seq<Note>, e: Event) {
    exists i :: 0 <= i < |notes| && e in notes[i].events
  }

  /** Delivered, or still on its way to this subscriber. */
  ghost predicate Covered(w: World, e: Event) {
    Delivered(w, e) || Waiting(w.pending, e) || exists i :: w.cursor <= i < |w.bus| && e in w.bus[i].events
  }

  ghost predicate NotesOk(notes: seq<Note>) {
    forall i :: 0 <= i < |notes| ==> forall e :: e in notes[i].events ==> e.project == notes[i].project
  }

  ghost predicate Sound(w: World) {
    NotesOk(w.pending) && NotesOk(w.bus)
    && (forall e :: e in w.past ==> e.seqno <= w.lastSeq) && (forall e :: e in w.log ==> e in w.past)
  }

  /** What the replay read returned. */
  function Replayed(s: Stream, w: World): seq<Event> {
    if w.readLog.Some? then After(w.readLog.value, s.project, s.fromSeq) else []
  }

  /** The subscriber will see every event committed since it joined, deleted since or not,
      and all that was replayed. */
  ghost predicate NoGap(s: Stream, w: World) {
    w.start <= w.cursor <= |w.bus| && w.joined <= w.lastSeq
    && (forall e :: e in w.past && e.project == s.project && e.seqno > w.joined ==> Covered(w, e))
    && (forall e :: e in Replayed(s, w) ==> Covered(w, e))
  }

  /** What has been delivered is what was replayed and what was heard, no more. */
  ghost predicate Heard(s: Stream, w: World, e: Event) {
    e in Replayed(s, w)
    || exists i :: w.start <= i < w.cursor && i < |w.bus| && w.bus[i].project == s.project && e in w.bus[i].events
  }

  ghost predicate Good(s: Stream, w: World) {
    Sound(w)
    && (w.phase == Idle ==> w.out == [] && w.readLog.None?)
    && (w.phase == Subscribed ==> w.out == [] && w.readLog.None? && w.start == w.cursor)
    && (w.phase == Subscribed || w.phase == Live ==>
          NoGap(s, w) && forall e :: Delivered(w, e) <==> Heard(s, w, e))
  }

  // ---- each action keeps it -------------------------------------------------------

  lemma DeliveredAppend(w: World, w': World, r: Response)
    requires w'.out == w.out + [r]
    ensures forall e :: Delivered(w', e) <==> Delivered(w, e) || e in r.events
  {
    forall e
      ensures Delivered(w', e) <==> Delivered(w, e) || e in r.events
    {
      if Delivered(w, e) {
        var i :| 0 <= i < |w.out| && e in w.out[i].events;
        assert w'.out[i] == w.out[i];
      }
      if e in r.events {
        assert e in w'.out[|w.out|].events;
      }
    }
  }

  lemma CommitKeeps(s: Stream, w: World, note: Note, gone: set<Id>)
    requires Good(s, w) && Numbered(note, w.lastSeq)
    ensures Good(s, Next(s, w, CommitStep(note, gone)))
  {
    var w' := Next(s, w, CommitStep(note, gone));
    OutsideMembers(w.log, gone);
    forall e | Waiting(w.pending, e)
      ensures Waiting(w'.pending, e)
    {
      var i :| 0 <= i < |w.pending| && e in w.pending[i].events;
      assert w'.pending[i] == w.pending[i];
    }
    assert w'.pending[|w.pending|] == note;
    assert forall e :: Delivered(w', e) <==> Delivered(w, e);
    assert forall e :: Heard(s, w', e) <==> Heard(s, w, e);
  }

  lemma PublishKeeps(s: Stream, w: World, which: nat)
    requires Good(s, w) && which < |w.pending|
    ensures Good(s, Next(s, w, PublishStep(which)))
  {
    var w' := Next(s, w, PublishStep(which));
    var note := w.pending[which];
    assert w'.bus[|w.bus|] == note;
    if w.phase == Subscribed || w.phase == Live {
      forall e | Covered(w, e)
        ensures Covered(w', e)
      {
        if Delivered(w, e) {
          assert Delivered(w', e);
        } else if i :| 0 <= i < |w.pending| && e in w.pending[i].events {
          if i < which {
            assert w'.pending[i] == w.pending[i];
          } else if i > which {
            assert w'.pending[i - 1] == w.pending[i];
          } else {
            assert e in w'.bus[|w.bus|].events;
          }
        } else {
          var i :| w.cursor <= i < |w.bus| && e in w.bus[i].events;
          assert w'.bus[i] == w.bus[i];
        }
      }
      assert forall e :: Delivered(w', e) <==> Delivered(w, e);
      forall e
        ensures Heard(s, w', e) <==> Heard(s, w, e)
      {
        assert forall i :: w.start <= i < w.cursor ==> w'.bus[i] == w.bus[i];
      }
    }
  }

  lemma ReplayKeeps(s: Stream, w: World, ok: bool)
    requires Good(s, w) && w.phase == Subscribed
    ensures Good(s, Next(s, w, ReplayStep(ok)))
  {
    var w' := Next(s, w, ReplayStep(ok));
    var q := Query(s.project, NO_ID, s.fromSeq, 0);
    SelectMembers(w.log, q);
    assert forall e :: !Delivered(w, e);
    if s.fromSeq > 0 && ok {
      var events := After(w.log, s.project, s.fromSeq);
      if events != [] {
        DeliveredAppend(w, w', Response(events, |events| > REPLAY_LIMIT));
      }
      assert forall e :: Delivered(w', e) <==> e in events;
    } else {
      assert forall e :: !Delivered(w', e);
    }
    assert forall e :: Covered(w, e) ==> Covered(w', e);
  }

  lemma ReceiveKeeps(s: Stream, w: World)
    requires Good(s, w) && w.phase == Live && w.cursor < |w.bus|
    ensures Good(s, Next(s, w, ReceiveStep))
  {
    var w' := Next(s, w, ReceiveStep);
    if w'.phase == Live {
      var note := w.bus[w.cursor];
      if note.project == s.project {
        DeliveredAppend(w, w', Response(note.events, false));
      } else {
        assert forall e :: Delivered(w', e) <==> Delivered(w, e);
      }
      forall e: Event | e.project == s.project && Covered(w, e)
        ensures Covered(w', e)
      {
        if e in note.events {
          assert Delivered(w', e);
        } else if !Delivered(w, e) && !Waiting(w.pending, e) {
          var i :| w.cursor <= i < |w.bus| && e in w.bus[i].events;
          assert w'.cursor <= i < |w'.bus| && e in w'.bus[i].events;
        }
      }
      forall e
        ensures Heard(s, w', e) <==> Heard(s, w, e) || (note.project == s.project && e in note.events)
      {
      }
    }
  }

  lemma ActionKeeps(s: Stream, w: World, a: Action)
    requires Good(s, w) && Enabled(w, a)
    ensures Good(s, Next(s, w, a))
  {
    match a
    case CommitStep(note, gone) => CommitKeeps(s, w, note, gone);
    case PublishStep(which) => PublishKeeps(s, w, which);
    case SubscribeStep =>
      var w' := Next(s, w, a);
      assert forall e :: !Delivered(w', e) && !Heard(s, w', e);
    case ReplayStep(ok) => ReplayKeeps(s, w, ok);
    case ReceiveStep => ReceiveKeeps(s, w);
    case HeartbeatStep =>
      var w' := Next(s, w, a);
      DeliveredAppend(w, w', Response([], false));
      assert forall e :: Heard(s, w', e) <==> Heard(s, w, e);
      assert forall e :: Covered(w, e) ==> Covered(w', e);
    case HangUpStep =>
  }

  // ---- whole runs -----------------------------------------------------------------

  ghost predicate CanRun(s: Stream, w: World, actions: seq<Action>)
    decreases |actions|
  {
    actions == [] || (Enabled(w, actions[0]) && CanRun(s, Next(s, w, actions[0]), actions[1..]))
  }

  function Run(s: Stream, w: World, actions: seq<Action>): World
    decreases |actions|
  {
    if actions == [] then w else Run(s, Next(s, w, actions[0]), actions[1..])
  }

  lemma {:induction false} RunKeeps(s: Stream, w: World, actions: seq<Action>)
    requires Good(s, w) && CanRun(s, w, actions)
    ensures Good(s, Run(s, w, actions))
    decreases |actions|
  {
    if actions != [] {
      ActionKeeps(s, w, actions[0]);
      RunKeeps(s, Next(s, w, actions[0]), actions[1..]);
    }
  }

  /** Nothing more is on its way. */
  ghost predicate Quiet(w: World) {
    w.phase == Live && w.pending == [] && w.cursor == |w.bus|
  }

  /** A stream that has not begun. */
  ghost predicate Waits(w: World) {
    Sound(w) && w.phase == Idle && w.out == [] && w.readLog.None?
  }

  /** Everything ever committed in the project that this stream has not delivered was
      committed before it subscribed and, if its replay read was done, was at or below its
      cursor or no longer in the log by then. */
  ghost predicate Complete(s: Stream, w: World) {
    forall e :: e in w.past && e.project == s.project && !Delivered(w, e) ==>
      e.seqno <= w.joined && (w.readLog.Some? ==> e.seqno <= s.fromSeq || e !in w.readLog.value)
  }

  lemma QuietIsComplete(s: Stream, w: World)
    requires Good(s, w) && Quiet(w)
    ensures Complete(s, w)
  {
    if w.readLog.Some? {
      SelectMembers(w.readLog.value, Query(s.project, NO_ID, s.fromSeq, 0));
    }
    forall e: Event | e.project == s.project && Covered(w, e)
      ensures Delivered(w, e)
    {
    }
  }

  /** In every interleaving of commits and deletions, late or reordered publishes,
      subscription, replay and listening, a live stream that has caught up has delivered
      every event of its project committed since it subscribed, and every one above its
      cursor that its replay read could find. */
  lemma NothingIsLost(s: Stream, w: World, actions: seq<Action>)
    requires Waits(w) && CanRun(s, w, actions)
    ensures Quiet(Run(s, w, actions)) ==> Complete(s, Run(s, w, actions))
  {
    RunKeeps(s, w, actions);
    if Quiet(Run(s, w, actions)) {
      QuietIsComplete(s, Run(s, w, actions));
    }
  }

  /** Exactly what a live stream has delivered: its replay, and what was published after it
      subscribed and it has since received. */
  lemma DeliveredExactly(s: Stream, w: World, actions: seq<Action>, e: Event)
    requires Waits(w) && CanRun(s, w, actions)
    ensures var end := Run(s, w, actions);
            end.phase == Live ==> (Delivered(end, e) <==> Heard(s, end, e))
  {
    RunKeeps(s, w, actions);
  }

  /** A replay read that fails is passed over in silence, and from cursor 0 there is none: an
      event committed and published before the subscription is then lost, with no response to
      say so. The log before it may be any whose newest event is at the cursor. */
  lemma UnreadReplayLosesEvents(s: Stream, log: seq<Event>, e: Event, ok: bool)
    requires SeqOf(log) == s.fromSeq && (forall x :: x in log ==> x.seqno <= s.fromSeq)
    requires e.project == s.project && e.seqno == s.fromSeq + 1 && (s.fromSeq == 0 || !ok)
    ensures var w := World(log, s.fromSeq, log, [], [], Idle, 0, 0, 0, None, []);
            var actions := [CommitStep(Note(s.project, [e]), {}), PublishStep(0), SubscribeStep, ReplayStep(ok)];
            var end := Run(s, w, actions);
            Waits(w) && CanRun(s, w, actions) && Quiet(end) && e in end.log && end.out == []
  {
    var w := World(log, s.fromSeq, log, [], [], Idle, 0, 0, 0, None, []);
    var note := Note(s.project, [e]);
    var actions := [CommitStep(note, {}), PublishStep(0), SubscribeStep, ReplayStep(ok)];
    var w1 := Next(s, w, actions[0]);
    assert e in w1.log && w1.pending == [note];
    var w2 := Next(s, w1, actions[1]);
    assert w2.pending == [] && w2.bus == [note];
    var w3 := Next(s, w2, actions[2]);
    var w4 := Next(s, w3, actions[3]);
    var rest1, rest2, rest3 := actions[1..], actions[2..], actions[3..];
    assert rest1[0] == actions[1] && rest1[1..] == rest2 && rest2[0] == actions[2] && rest2[1..] == rest3;
    assert rest3[0] == actions[3] && rest3[1..] == [];
    assert Run(s, w4, []) == w4 && CanRun(s, w4, []);
    assert Run(s, w3, rest3) == w4 && CanRun(s, w3, rest3);
    assert Run(s, w2, rest2) == w4 && CanRun(s, w2, rest2);
    assert Run(s, w1, rest1) == w4 && CanRun(s, w1, rest1);
  }

  // ---- a stream that keeps up -----------------------------------------------------

  /** What a receive comes to: with at most 256 notes unread, the next one's events when it
      is the project's; with more, the end, and the word to start over. */
  lemma ReceiveExactly(s: Stream, w: World)
    requires w.phase == Live && w.cursor < |w.bus|
    ensures var w' := Next(s, w, ReceiveStep);
            var note := w.bus[w.cursor];
            if |w.bus| - w.cursor <= 256
            then w'.phase == Live && w'.cursor == w.cursor + 1
                 && w'.out == w.out + if note.project == s.project then [Response(note.events, false)] else []
            else w'.phase == Over && w'.out == w.out + [Response([], true)]
  {
  }

  /** More events wait above the cursor than a replay is meant for. */
  ghost predicate Overdue(s: Stream, log: seq<Event>) {
    s.fromSeq > 0 && |NewsAt(log, s.project, s.fromSeq)| > 1000
  }

  /** What the replay comes to, when its read is done: one response with every event of the
      project above the cursor, flagged exactly when they are more than a thousand, or none
      when there is no such event. */
  lemma ReplayExactly(s: Stream, w: World)
    requires w.phase == Subscribed && s.fromSeq > 0
    ensures var w' := Next(s, w, ReplayStep(true));
            w'.phase == Live
            && if NewsAt(w.log, s.project, s.fromSeq) == {} then w'.out == w.out
               else |w'.out| == |w.out| + 1 && w'.out[..|w.out|] == w.out
                    && (w'.out[|w.out|].resync <==> Overdue(s, w.log))
                    && forall e :: e in w'.out[|w.out|].events
                                   <==> e in w.log && e.project == s.project && e.seqno > s.fromSeq
  {
    AfterCounts(w.log, s.project, s.fromSeq);
    SelectMembers(w.log, Query(s.project, NO_ID, s.fromSeq, 0));
  }

  /** It is never more than 256 notes behind when it receives, and nobody hangs up. */
  ghost predicate KeepsUp(s: Stream, w: World, actions: seq<Action>)
    decreases |actions|
  {
    actions == []
    || (!actions[0].HangUpStep? && (actions[0].ReceiveStep? ==> |w.bus| - w.cursor <= 256)
        && KeepsUp(s, Next(s, w, actions[0]), actions[1..]))
  }

  /** Nothing but an overdue replay has told it to start over. */
  ghost predicate Untroubled(s: Stream, w: World) {
    w.phase != Over
    && (w.phase != Live ==> w.out == [] && w.readLog.None?)
    && (forall i :: 0 <= i < |w.out| && w.out[i].resync ==> i == 0 && w.readLog.Some? && Overdue(s, w.readLog.value))
    && (w.readLog.Some? && Overdue(s, w.readLog.value) ==> |w.out| > 0 && w.out[0].resync)
  }

  lemma ActionUntroubled(s: Stream, w: World, a: Action)
    requires Untroubled(s, w) && Enabled(w, a) && !a.HangUpStep?
    requires a.ReceiveStep? ==> |w.bus| - w.cursor <= 256
    ensures var w' := Next(s, w, a);
            Untroubled(s, w') && w.out <= w'.out && (w.phase == Live ==> w'.phase == Live)
            && (w.phase == Live ==> forall i :: |w.out| <= i < |w'.out| ==> !w'.out[i].resync)
  {
    match a
    case ReplayStep(ok) =>
      if ok && s.fromSeq > 0 {
        ReplayExactly(s, w);
      }
    case ReceiveStep => ReceiveExactly(s, w);
    case _ =>
  }

  /** A live stream that keeps up stays live, and none of its further responses tells the
      client to start over. */
  lemma {:induction false} KeepingUpStaysLive(s: Stream, w: World, actions: seq<Action>)
    requires w.phase == Live && Untroubled(s, w) && CanRun(s, w, actions) && KeepsUp(s, w, actions)
    ensures var end := Run(s, w, actions);
            end.phase == Live && w.out <= end.out && forall i :: |w.out| <= i < |end.out| ==> !end.out[i].resync
    decreases |actions|
  {
    if actions != [] {
      ActionUntroubled(s, w, actions[0]);
      KeepingUpStaysLive(s, Next(s, w, actions[0]), actions[1..]);
    }
  }

  lemma {:induction false} RunUntroubled(s: Stream, w: World, actions: seq<Action>)
    requires Untroubled(s, w) && CanRun(s, w, actions) && KeepsUp(s, w, actions)
    ensures Untroubled(s, Run(s, w, actions))
    decreases |actions|
  {
    if actions != [] {
      ActionUntroubled(s, w, actions[0]);
      RunUntroubled(s, Next(s, w, actions[0]), actions[1..]);
    }
  }

  /** In every interleaving, a stream that keeps up is not ended, and it is told to start over
      exactly when its replay read found more than a thousand events, by its first response. */
  lemma KeepingUpIsNotEnded(s: Stream, w: World, actions: seq<Action>)
    requires Waits(w) && CanRun(s, w, actions) && KeepsUp(s, w, actions)
    ensures var end := Run(s, w, actions);
            end.phase != Over
            && (forall i :: 0 <= i < |end.out| ==>
                  (end.out[i].resync <==> i == 0 && end.readLog.Some? && Overdue(s, end.readLog.value)))
  {
    RunUntroubled(s, w, actions);
  }

  /** Receive what is unread, then publish what is pending, one at a time. */
  function CatchUp(s: Stream, w: World): seq<Action>
    requires w.phase == Live && w.cursor <= |w.bus| && |w.bus| - w.cursor <= 256
    decreases |w.bus| - w.cursor + 2 * |w.pending|
  {
    if w.cursor < |w.bus| then [ReceiveStep] + CatchUp(s, Next(s, w, ReceiveStep))
    else if w.pending != [] then [PublishStep(0)] + CatchUp(s, Next(s, w, PublishStep(0)))
    else []
  }

  lemma {:induction false} CatchUpRuns(s: Stream, w: World)
    requires w.phase == Live && w.cursor <= |w.bus| && |w.bus| - w.cursor <= 256
    ensures CanRun(s, w, CatchUp(s, w)) && KeepsUp(s, w, CatchUp(s, w)) && Quiet(Run(s, w, CatchUp(s, w)))
    ensures Run(s, w, CatchUp(s, w)).past == w.past
    decreases |w.bus| - w.cursor + 2 * |w.pending|
  {
    if w.cursor < |w.bus| || w.pending != [] {
      var a := if w.cursor < |w.bus| then ReceiveStep else PublishStep(0);
      CatchUpRuns(s, Next(s, w, a));
      assert CatchUp(s, w)[0] == a && CatchUp(s, w)[1..] == CatchUp(s, Next(s, w, a));
    }
  }

  /** From any state that a stream that kept up can reach, it can come to have delivered
      everything it owes, though the store's work has stopped. */
  lemma KeepingUpCanFinish(s: Stream, w: World, actions: seq<Action>)
    requires Waits(w) && CanRun(s, w, actions)
    requires var mid := Run(s, w, actions); mid.phase == Live && |mid.bus| - mid.cursor <= 256
    ensures var mid := Run(s, w, actions);
            exists more :: CanRun(s, mid, more) && KeepsUp(s, mid, more)
                           && Run(s, mid, more).past == mid.past && Complete(s, Run(s, mid, more))
  {
    RunKeeps(s, w, actions);
    var mid := Run(s, w, actions);
    CatchUpRuns(s, mid);
    RunKeeps(s, mid, CatchUp(s, mid));
    QuietIsComplete(s, Run(s, mid, CatchUp(s, mid)));
  }

  // ---- the store's side -----------------------------------------------------------

  /** The cursor a snapshot carries. */
  function SnapshotSeq(db: Db): int {
    SeqOf(db.events)
  }

  ghost predicate TopIsLast(db: Db) {
    SnapshotSeq(db) == db.lastSeq
  }

  /** A snapshot's cursor is the newest sequence number ever used, in every reachable
      database, although deletions remove events: whatever commits later is above it. */
  lemma {:induction false} SnapshotSeqIsNewest(db: Db, requests: seq<Request>)
    requires Inv(db) && TopIsLast(db)
    ensures TopIsLast(ApplyAll(db, requests))
    decreases |requests|
  {
    if requests != [] {
      var r := requests[0];
      if Decide(db, r).Commit? {
        EveryCommitShape(db, r);
        if r.CreateProject? {
          var t := Decide(db, r).txn;
          assert t.db.events == db.events && t.db.lastSeq == db.lastSeq;
        }
      }
      ApplyKeeps(db, r);
      SnapshotSeqIsNewest(Apply(db, r).0, requests[1..]);
    }
  }

  // ---- the store and the stream together ------------------------------------------

  /** Either the store serves a request, or the stream or a publisher takes a step. */
  datatype Turn = Serve(r: Request) | Stir(a: Action)

  /** A commit adds its note; anything else the store does is unseen. */
  function Served(s: Stream, db: Db, w: World, r: Request): World {
    match Decide(db, r)
    case Commit(project, t) =>
      if t.events == [] then w else Next(s, w, CommitStep(Note(project, t.events), Gone(db, t.db)))
    case _ => w
  }

  function Played(s: Stream, db: Db, w: World, turns: seq<Turn>): World
    decreases |turns|
  {
    if turns == [] then w else
    match turns[0]
    case Serve(r) => Played(s, Apply(db, r).0, Served(s, db, w, r), turns[1..])
    case Stir(a) => Played(s, db, Next(s, w, a), turns[1..])
  }

  ghost predicate CanPlay(s: Stream, db: Db, w: World, turns: seq<Turn>)
    decreases |turns|
  {
    turns == [] ||
    match turns[0]
    case Serve(r) => CanPlay(s, Apply(db, r).0, Served(s, db, w, r), turns[1..])
    case Stir(a) => !a.CommitStep? && Enabled(w, a) && CanPlay(s, db, Next(s, w, a), turns[1..])
  }

  function Requests(turns: seq<Turn>): seq<Request> {
    if turns == [] then [] else
    match turns[0]
    case Serve(r) => [r] + Requests(turns[1..])
    case Stir(_) => Requests(turns[1..])
  }

  /** The stream watches this database's log. */
  ghost predicate Watches(db: Db, w: World) {
    w.log == db.events && w.lastSeq == db.lastSeq
  }

  /** Every event since `from` is above it. */
  ghost predicate NewsAbove(prior: seq<Event>, from: int, w: World) {
    from <= w.lastSeq && forall e :: e in w.past ==> e in prior || e.seqno > from
  }

  /** Serving a request is a commit step of the protocol, or no step. */
  lemma ServedFits(s: Stream, db: Db, w: World, r: Request, prior: seq<Event>, from: int)
    requires Inv(db) && Watches(db, w) && Good(s, w) && NewsAbove(prior, from, w)
    ensures var w' := Served(s, db, w, r);
            Watches(Apply(db, r).0, w') && Good(s, w') && NewsAbove(prior, from, w')
  {
    if Decide(db, r).Commit? {
      EveryCommitShape(db, r);
      var t := Decide(db, r).txn;
      if t.events != [] {
        var note := Note(Decide(db, r).project, t.events);
        CommitKeeps(s, w, note, Gone(db, t.db));
      } else {
        assert t.db.events == db.events && t.db.lastSeq == db.lastSeq;
      }
    }
  }

  lemma StirredFits(s: Stream, db: Db, w: World, a: Action, prior: seq<Event>, from: int)
    requires Watches(db, w) && Good(s, w) && NewsAbove(prior, from, w) && !a.CommitStep? && Enabled(w, a)
    ensures var w' := Next(s, w, a); Watches(db, w') && Good(s, w') && NewsAbove(prior, from, w')
  {
    ActionKeeps(s, w, a);
  }

  lemma {:induction false} PlayedFits(s: Stream, db: Db, w: World, turns: seq<Turn>, prior: seq<Event>, from: int)
    requires Inv(db) && Watches(db, w) && Good(s, w) && NewsAbove(prior, from, w) && CanPlay(s, db, w, turns)
    ensures var end := Played(s, db, w, turns);
            Watches(ApplyAll(db, Requests(turns)), end) && Good(s, end) && NewsAbove(prior, from, end)
    decreases |turns|
  {
    if turns != [] {
      match turns[0]
      case Serve(r) =>
        ServedFits(s, db, w, r, prior, from);
        ApplyKeeps(db, r);
        PlayedFits(s, Apply(db, r).0, Served(s, db, w, r), turns[1..], prior, from);
        assert Requests(turns)[0] == r && Requests(turns)[1..] == Requests(turns[1..]);
      case Stir(a) =>
        StirredFits(s, db, w, a, prior, from);
        PlayedFits(s, db, Next(s, w, a), turns[1..], prior, from);
    }
  }

  /** A snapshot of any reachable database, then Watch from its cursor: however the store's
      requests, the publishes and the stream interleave afterwards, once the stream is live,
      its replay read was done and it has caught up, it has delivered every event of the
      project committed since the snapshot, save those already gone when it read. */
  lemma SnapshotThenWatch(s: Stream, earlier: seq<Request>, w: World, turns: seq<Turn>)
    requires var db := ApplyAll(EmptyDb, earlier);
             Waits(w) && Watches(db, w) && w.past == db.events
             && s.fromSeq == SnapshotSeq(db) && CanPlay(s, db, w, turns)
    ensures var db := ApplyAll(EmptyDb, earlier);
            var end := Played(s, db, w, turns);
            end.log == ApplyAll(db, Requests(turns)).events
            && (Quiet(end) && end.readLog.Some? ==>
                  forall e :: e in end.past && e.project == s.project && e !in db.events ==>
                    Delivered(end, e) || (e.seqno <= end.joined && e !in end.readLog.value))
  {
    var db := ApplyAll(EmptyDb, earlier);
    EveryRunKeepsInv(EmptyDb, earlier);
    SnapshotSeqIsNewest(EmptyDb, earlier);
    PlayedFits(s, db, w, turns, db.events, db.lastSeq);
    var end := Played(s, db, w, turns);
    if Quiet(end) {
      QuietIsComplete(s, end);
    }
  }

  ghost predicate KeepsUpPlaying(s: Stream, db: Db, w: World, turns: seq<Turn>)
    decreases |turns|
  {
    turns == [] ||
    match turns[0]
    case Serve(r) => KeepsUpPlaying(s, Apply(db, r).0, Served(s, db, w, r), turns[1..])
    case Stir(a) =>
      !a.HangUpStep? && (a.ReceiveStep? ==> |w.bus| - w.cursor <= 256)
      && KeepsUpPlaying(s, db, Next(s, w, a), turns[1..])
  }

  /** Whatever the store serves meanwhile, a stream that keeps up is not ended, and is told to
      start over only by an overdue replay. */
  lemma {:induction false} PlayedUntroubled(s: Stream, db: Db, w: World, turns: seq<Turn>)
    requires Untroubled(s, w) && CanPlay(s, db, w, turns) && KeepsUpPlaying(s, db, w, turns)
    ensures Untroubled(s, Played(s, db, w, turns))
    decreases |turns|
  {
    if turns != [] {
      match turns[0]
      case Serve(r) => PlayedUntroubled(s, Apply(db, r).0, Served(s, db, w, r), turns[1..]);
      case Stir(a) =>
        ActionUntroubled(s, w, a);
        PlayedUntroubled(s, db, Next(s, w, a), turns[1..]);
    }
  }
}
