# Flow: a verified model of the task-graph engine and its clients

Flow keeps projects as trees of work packages, tasks and steps, with dependency edges between
any of them, an event log, and an idempotency ledger. One SQLite store holds everything; a
native daemon and a Node daemon stream its changes; a web client and a terminal client read
lists from it and predict what it will do. This project models that store, both streams, and
the client code that has to agree with the store, and proves what the whole promises.

## How it is laid out

- `FlowTypes`, `Graph`, `Forest`, `Status`: the tables, paths and cycles, the hierarchy, and
  what the `node_state` view and the progress query derive.
- `Engine`: every mutation as a function of the whole database, statement by statement, with
  the schema's triggers, checks and foreign keys; `Apply` is one request.
- `Store`: the same mutations as a class that updates its tables in place and rolls back;
  each method is proved to do exactly what `Apply` says, for every input.
- `Invariants`, `Commits`, `Outcomes`, `Edits`, `Losses`, `Undo`, `Readiness`: what holds in
  every reachable database, what a commit does to the log and the ledger, when each request
  commits and what it leaves, what the log loses, what undo does and when it inverts, and why
  work can always finish.
- `Answers`, `History`: what snapshots, answers and retries show of the tables, and how much of
  the tables the log tells.
- `Delta`, `Effects`, `Shapes`, `Exactness`: what clients hold and do with a payload, what each
  transaction leaves and tells, and exactly which requests leave a client of a given project
  without a fresh snapshot. `Borders`: which requests make a link that crosses a project's
  border. `Witnesses`: runs from the empty database in which a promise fails.
- `Paging`, `Watch`, `NodeWatch`: the paged reads and the two streams, the latter as state
  machines over interleaved steps.
- `Listing`, `Derive`, `Descendants`, `Counts`, `Layering`, `Layout`, `Routes`: the web client's index, cycle
  preview, subtree walk, counts and graph view.
- `Tui`, `Spine`, `Memory`: the terminal client's model, its chain view, and its in-memory
  store, which deletes in place over slices.
- `Agreement`, `Unblocking`: the clients' answers against what the engine does, in any sound
  database. `Secluded`: the same for a project that no link joins to another.

## What the model fixes

- Identifiers are numbers and the empty identifier is 0; texts are opaque. A minted
  identifier is an arbitrary non-empty one, possibly taken.
- Queries without ORDER BY return rows in ascending order of identifier.
- COMMIT always succeeds. A transaction is one step of the database; `Store` shows the steps
  inside it and the rollback.
- Error codes are those after `classify`. Enum fields of requests are raw numbers: any kind
  code other than 1 and 2 is a step, any status code other than 1 and 2 is done.
- The protobuf states DONE of a work package is called `Closed`.
- A rollup's key in the graph view is the pair of its ends rather than their joined text.

## Where the code and its documentation differ

- The log is described as append-only, but `events.node_id` cascades: deleting a node removes
  the events that name it. `Losses.AppendOnlyExactly` says exactly which commits only append;
  `Witnesses.DeletingForgetsCreation` is a run that ends in one that does not.
- Tasks and steps are meant to stay in their parent's project, but the insert trigger does
  not compare projects and dependencies have no such guard; only a move is checked.
  `Borders.UncrossedExactly` says which requests cross a border, and `Exactness.PayloadIsExact`
  which of them, and which others, mislead a client. A task under another project's package
  misleads nobody (`Witnesses.CrossProjectTaskDoesNotMislead`); a step under another project's
  task does (`Witnesses.CrossProjectStepMisleads`).
- Clients compute their previews from one project's lists. With a link to another project the
  cascade preview misses nodes and shows wrong ones (`Agreement.CascadePreviewIsExact`,
  `Witnesses.CascadePreviewMisses`), the cycle preview passes an edge that the engine refuses
  (`Agreement.CyclePreviewIsTheGuard`), and the delete dialog's numbers fall short
  (`Agreement.DialogTellsTheDelete`). Each lemma gives the exact condition.
- The log is called the record of what happened. Without undo it is one for edges, statuses and
  existing nodes (`History.LogRetells`); an undo's event says nothing of what it changed
  (`History.UndoRetoldExactly`, `Witnesses.UndoneFinishIsUntold`).
- A move to a kind code other than the three defined ones means a step, but it does not delete
  the steps of a task as code 3 does, so it is refused when there are any
  (`Outcomes.MoveGoesThrough`).
- A mutation's payload is meant to be all a client needs. Undo's is not: its event carries an
  empty payload, so clients miss every node and edge that it adds or removes, and an undone
  status change does not report the node itself (`Exactness.UndoneStatusIsNotReported`,
  `Witnesses.UndoneFinishMisleads`).
- Undo removes an edge that an earlier request had added, when the undone request added it
  again (`Witnesses.UndoRemovesAnOlderEdge`); it can add an edge that never was, when the
  undone request removed nothing; and of a deleted subtree it brings back one row. The lemmas
  of `Undo` give the exact conditions.
- A stream whose replay read fails goes on without it and says nothing, and a stream from
  cursor 0 has no replay (`Watch.UnreadReplayLosesEvents`).
- The terminal client's own store is said to mirror the engine's delete, but it leaves
  statuses as they were: a node that the delete frees stays blocked there
  (`Agreement.MemoryDeleteAgrees`, `Witnesses.DemoStoreStaysBlocked`).
- The delete dialog promises readiness to dependents that are done or deferred
  (`Unblocking.UnblockedComesTrueExactly`, `Witnesses.DialogPromisesReadyToDone`).
- The cascade preview of a work package lists its open tasks as going to be done; the engine
  closes no child (`Agreement.PackageRowsStay`, `Witnesses.PackageRowsPromise`).
- A comment calls a node deferred when an ancestor is; `node_state` looks at the node alone.

## Model

| member | source | states |
|---|---|---|
| Graph.AddEdgeAcyclic | flowcore/migrations/0001_initial_schema.sql:186-200 | adding an edge to an acyclic graph keeps it acyclic exactly when the blocker cannot be reached from the blocked node: the trigger refuses no edge it need not |
| Graph.FollowIsReach | flowcore/migrations/0001_initial_schema.sql:191-195 | the trigger's recursive query returns exactly the nodes joined by a path of edges to the start |
| Forest.GrowLeast | flowcore/src/store.rs:412-430 | the recursive subtree query's result is contained in every set that holds the root and is closed under children |
| Forest.SubtreeIsTwoLevels | flowcore/src/store.rs:412-430 | in a well-formed hierarchy a subtree is the root, its children and their children |
| Forest.QueryIsSubtree | flowcore/src/store.rs:412-430 | the recursive query, which joins with UNION ALL and drops no duplicate, ends on a well-formed hierarchy and returns each node of the subtree exactly once |
| Forest.ChainsAreShort | flowcore/migrations/0001_initial_schema.sql:76-95 | parent chains have at most three rows, of the kinds step, task, work package |
| Invariants.ApplyKeeps | flowcore/src/store.rs:252-945 | every request, refused, replayed or committed, keeps the hierarchy well formed, dependencies acyclic with both ends present, log numbers ascending and within the counter, every event naming an existing node of its own project or none, and verifications attached to existing rows |
| Invariants.EveryRunKeepsInv | flowcore/src/store.rs:252-945 | the same over any run of requests |
| Invariants.ReachableIsSound | flowcore/src/store.rs:823-921 | every database reached from the empty one has an acyclic dependency graph and a well-formed hierarchy, through moves, deletes and undos |
| Invariants.MoveNodeTxnKeeps | flowcore/src/store.rs:849-921 | a move, with the steps dropped by a demotion and the kind change in between, keeps the invariant |
| Invariants.ReverseKeeps | flowcore/src/store.rs:732-807 | undoing any logged event, re-inserted edges and rows included, keeps the invariant |
| Store.SqliteStore.CreateNode | flowcore/src/store.rs:252-307 | in place: the new tables and the answer are exactly those of `Apply`, and a failure leaves every table as it was |
| Store.SqliteStore.UpdateNode | flowcore/src/sql.rs:193-208 | the same for an update, whose transaction has written mask entries to the table when a later one fails: every table is put back |
| Store.SqliteStore.DeleteNode | flowcore/src/store.rs:389-463 | the same, with one delete event per node of the subtree written in a loop |
| Store.SqliteStore.SetStatus | flowcore/src/store.rs:465-502 | the same for a status change |
| Store.SqliteStore.AddDependency | flowcore/src/store.rs:504-537 | the same for a new edge, cycle refusals included |
| Store.SqliteStore.RemoveDependency | flowcore/src/store.rs:539-575 | the same for removing an edge |
| Store.SqliteStore.ReportCondition | flowcore/src/store.rs:577-621 | the same for an agent report, the human half of the verification untouched |
| Store.SqliteStore.SetVerdict | flowcore/src/store.rs:623-667 | the same for a verdict, the agent half untouched |
| Store.SqliteStore.AddComment | flowcore/src/store.rs:669-699 | the same for a comment |
| Store.SqliteStore.Undo | flowcore/src/store.rs:701-821 | the same for undo, branch by branch over the kind of event |
| Store.SqliteStore.MoveNode | flowcore/src/store.rs:823-921 | the same for a move, with steps already deleted, and logged, when a guard refuses put back |
| Store.SqliteStore.CreateProject | flowcore/src/store.rs:923-945 | the same for a project, whose retries are recorded under the empty scope |
| Store.SqliteStore.FinishMutation | flowcore/src/store.rs:1112-1135 | the payload holds each affected node that still exists once, with its status and verification after the commit, and the project's progress |
| Answers.CommitShows | flowcore/src/store.rs:1112-1135 | the answer to every commit shows exactly the nodes the request is to report, told from the tables before it, that are still there, each with its row, its verification if it has one, and its status from what is declared for it and its direct blockers |
| Answers.SnapshotShows | flowcore/src/store.rs:102-131 | a snapshot has an entry for exactly the project's nodes, each with row, verification and status as the tables have them, and exactly the dependencies with both ends in the project |
| Answers.ReportIsAnswered | flowcore/src/store.rs:1205-1217 | the answer to a report shows result, author and detail, next to the verdict the node had |
| Answers.VerdictIsAnswered | flowcore/src/store.rs:1205-1217 | the answer to a verdict shows it next to the report the node had; withdrawing one where there was nothing shows nothing |
| Commits.EveryCommitShape | flowcore/src/store.rs:1316-1346 | a commit keeps the events of exactly the surviving nodes, appends its own, numbered consecutively above every number ever used and all in its project, and adds at most its own ledger row |
| Commits.LedgerRowsStay | flowcore/src/store.rs:1151-1163 | a ledger row is never changed or removed by any run |
| Commits.OneCommitPerKey | flowcore/src/store.rs:1137-1163 | after a keyed request commits, no later request with its scope and key commits, whatever ran in between: one that reaches the ledger changes nothing and returns the first one's seq |
| Answers.RetriedCreateReturns | flowcore/src/store.rs:252-269 | after a keyed creation commits and anything runs, any creation with its project and key, whatever it asks for, changes nothing and returns exactly the first one's node, with its present row, status and verification, or no node once that one is gone |
| Answers.RetriedProjectReturns | flowcore/src/store.rs:923-933 | a retried project creation changes nothing and returns the first one's project, which is still there |
| Answers.OtherRetriesReturnNone | flowcore/src/store.rs:1137-1149 | a retry of anything else returns no node |
| Losses.GoneIsDoomed | flowcore/src/store.rs:389-463 | a commit deletes exactly what can be told before it: the subtree of a deleted node, the steps of a demoted task, the subtree of a node whose creation is undone, and nothing otherwise |
| Losses.AppendOnlyExactly | flowcore/migrations/0001_initial_schema.sql:213-217 | a commit extends the old log if and only if no event in it names a node the request deletes |
| History.LogSays | flowcore/src/store.rs:1316-1346 | every event of a commit carries the request's author and is of a kind the request may write, and the newest, whose number the answer gives, tells what was done: identifiers, statuses and places before and after, results, texts |
| History.LogRetells | flowcore/src/store.rs:1316-1346 | over any run without undo the log tells exactly which nodes and edges exist and what is declared for each node, although the events of deleted nodes are gone |
| History.UndoRetoldExactly | flowcore/src/store.rs:800-821 | an undo keeps that so if and only if it leaves edges and statuses as they were and brings no node back |
| Edits.UpdateMeans | flowcore/src/store.rs:309-387 | an update commits if and only if every mask name is known and a state goes to a work package only, and then changes exactly the masked fields of the one row, in whatever order and however often they are named |
| Edits.EmptyMaskRefused | flowcore/src/store.rs:309-330 | an update without a mask, or with an unknown name first, is refused as an invalid argument |
| Edits.MoveMeans | flowcore/src/store.rs:849-921 | a committed move deletes exactly the steps of a demoted task, with their edges and verifications, changes only parent, kind and position of the node, and drops its verification if and only if its kind changed |
| Edits.MovedGoesLast | flowcore/src/store.rs:889-894 | the new position is above every new sibling's, while positions stay small enough not to wrap |
| Edits.NextPositionMeans | flowcore/src/store.rs:889-894 | the new position is a hundred above the highest sibling's, or a hundred when there is none, cut to 32 bits |
| Edits.DeleteGoesThrough | flowcore/src/store.rs:389-411 | a delete of a known node that is not a retry commits unless it was asked to spare referenced nodes and the node itself is an end of an edge |
| Edits.ReportKeepsVerdict | flowcore/src/store.rs:577-621 | a report replaces the agent half and leaves the human verdict |
| Edits.VerdictKeepsReport | flowcore/src/store.rs:623-667 | a verdict replaces the human half and leaves the report, and clearing one makes no row |
| Outcomes.UnknownNode | flowcore/src/store.rs:309-330 | a request about a node that does not exist is refused as not found |
| Outcomes.CreateMeans | flowcore/migrations/0001_initial_schema.sql:76-95 | when a creation commits, with what code it is refused otherwise, and the row it makes, field by field |
| Outcomes.StatusMeans | flowcore/src/store.rs:465-502 | a status change always commits and changes that one column: code 1 opens, 2 defers, any other finishes |
| Outcomes.LinkMeans | flowcore/src/store.rs:504-537 | an edge whose blocked end already reaches its blocker is refused as such, one with a missing end otherwise, and any other is added |
| Outcomes.UnlinkMeans | flowcore/src/store.rs:539-575 | a removal commits if and only if the blocker exists, whether or not the edge does |
| Outcomes.ReportMeans | flowcore/src/store.rs:577-621 | a report with a code other than pass and fail is refused; any other sets exactly the agent half of the one verification |
| Outcomes.VerdictMeans | flowcore/src/store.rs:623-667 | a verdict always commits and sets, or withdraws, exactly the human half of the one verification |
| Outcomes.CommentMeans | flowcore/src/store.rs:669-699 | a comment commits and changes no table but the log |
| Outcomes.ProjectMeans | flowcore/src/store.rs:923-945 | a project is created unless its identifier is taken, and logs nothing |
| Outcomes.MoveGoesThrough | flowcore/migrations/0001_initial_schema.sql:97-127 | when a move commits and with what code it is refused otherwise: kind code, packages, own parent, a parent of the wrong kind or project, steps in the way, no parent, in this order |
| Undo.KeptRowRestores | flowcore/src/store.rs:1372-1423 | restoring the row kept by a delete event inserts all twelve fields as they were |
| Undo.UndoOutcome | flowcore/src/store.rs:701-821 | undoing a project's newest event, by its number or as the newest, commits if and only if its reversal succeeds, and leaves the reversal's tables |
| Undo.UndoMeans | flowcore/src/store.rs:701-821 | an undo of any logged event, by its number or as the project's newest whatever other projects logged since, commits if and only if that event can be reversed, a condition on it and the tables; it leaves the tables reversed, branch by branch, and logs an event of the opposite kind with the request's author and no payload |
| Undo.UndoOfNothing | flowcore/src/store.rs:704-717 | an undo is refused when the project has no such event |
| Undo.UndoSetStatus | flowcore/src/store.rs:733-748 | undoing a status change just made always restores nodes, edges and verifications |
| Undo.UndoCreateNode | flowcore/src/store.rs:777-784 | undoing a creation just made always restores them |
| Undo.UndoAddDependency | flowcore/src/store.rs:749-762 | undoing an addition always goes through, and restores the graph if and only if the edge was absent before |
| Undo.UndoRemoveDependency | flowcore/src/store.rs:763-776 | undoing a removal goes through and restores the graph if and only if the edge was there; then the cycle guard cannot refuse it |
| Undo.UndoDeleteNode | flowcore/src/store.rs:785-800 | undoing a delete always brings the one row back, and restores everything if and only if the node had no child, no edge and no verification |
| Readiness.BlockedIsHeldUp | flowcore/migrations/0001_initial_schema.sql:247-264 | every blocked node has a chain of blockers, none done, that starts at a ready or deferred node |
| Readiness.SomethingIsReady | flowd/tests/prop_cascade.rs:103-128 | with nothing deferred and something open, some node is ready |
| Readiness.WorkingReadyFinishes | flowcore/src/store.rs:465-502 | marking ready nodes done in any order retires one open node a step, and a run that can go no further has finished everything in exactly as many steps as nodes were open |
| Readiness.WorkCanFinish | flowcore/src/store.rs:465-502 | such a complete run always exists |
| Delta.ProgressIsLocal | flowcore/src/store.rs:1175-1203 | in any two databases a project's progress is the same if its tasks, the steps under them and their statuses are |
| Effects.DeleteTxnDeletes | flowcore/src/store.rs:412-462 | a delete removes exactly the subtree, its edges and verifications, logs one event per node naming it, and reports exactly the dependents outside |
| Borders.UncrossedExactly | flowcore/migrations/0001_initial_schema.sql:86-121 | for all links, for those that touch one project, or for the steps under one project's tasks: while none crosses its border, a committed request keeps it so if and only if it does not itself make one that does |
| Borders.HostsOwnExactly | flowcore/migrations/0001_initial_schema.sql:86-121 | while the steps under a project's tasks are its own, a committed request keeps it so if and only if it does not create or restore another project's step there |
| Exactness.PayloadIsExact | flowcore/src/store.rs:1112-1135 | in any sound database and for any project: after a committed mutation, undo included, the clients of that project hold the new snapshot, by applying the payload if it is their project's and by doing nothing if it is another's, if and only if the request does not mislead them, a condition on the request and the tables before it; for another project's request the steps under the project's own tasks must be its own |
| Exactness.MoveExactly | flowcore/src/store.rs:849-921 | a committed move's payload is exact to its own project unless a step it drops blocked another project's node, and to another project unless one of its nodes was such a step or was blocked by such steps alone |
| Exactness.DeleteExactly | flowcore/src/store.rs:389-463 | the same for a delete and its subtree |
| Shapes.StepAddedCounts | flowcore/src/store.rs:1175-1203 | a new step leaves its task's progress numbers as they were if and only if the task had no step and the status of the new one |
| Exactness.ClientsNeverDrift | flowcore/src/store.rs:252-921 | over any run, a project's client that started from a snapshot and applied its project's payloads holds a fresh one after every request, nodes, edges and progress, if and only if no request of the run misleads the clients of that project; whenever another project's request commits before the first that does, the steps under the project's tasks must be its own |
| Exactness.HouseIsKept | flowcore/migrations/0001_initial_schema.sql:86-121 | that premise holds of every run, from a project without such steps, in which no request creates or restores one harmlessly |
| Exactness.UndoneStatusIsNotReported | flowcore/src/store.rs:733-748 | to the clients of its own project an undone status change is exact if and only if the status kept in the undone event is the one the node has and no dependent is another project's |
| Witnesses.CrossProjectStepMisleads | flowcore/migrations/0001_initial_schema.sql:86-95 | a run from the empty database after which a step, created in one project under a finished task of another, is accepted and makes the other project's progress wrong at its clients |
| Witnesses.CrossProjectTaskDoesNotMislead | flowcore/migrations/0001_initial_schema.sql:86-95 | after a run from the empty database a task under another project's package joins the two, and its payload is exact for the clients of every project |
| Witnesses.CascadePreviewMisses | flowcli/internal/ui/cascade.go:61-87 | a run from the empty database after which marking a task done makes another project's task ready that the preview does not list, and leaves blocked one that it lists as ready |
| Witnesses.UndoneFinishMisleads | flowcore/src/store.rs:733-748 | a run from the empty database after which undoing the finish of a task commits and its clients keep a done task |
| Witnesses.UndoneFinishIsUntold | flowcore/src/store.rs:733-748 | a run from the empty database whose log tells everything until the finish of a task is undone, and then still tells that it is done |
| Witnesses.UndoRemovesAnOlderEdge | flowcore/src/store.rs:749-762 | a run from the empty database after which undoing the repeated addition of an edge removes it |
| Witnesses.DeletingForgetsCreation | flowcore/migrations/0001_initial_schema.sql:213-217 | a run from the empty database after which deleting a task removes its creation event, so the log does not only grow |
| Witnesses.DialogPromisesReadyToDone | flowcli/internal/ui/update.go:666-695 | a run from the empty database after which the delete dialog says that a done task will be ready, and it stays done |
| Witnesses.PackageRowsPromise | flowcli/internal/ui/cascade.go:89-97 | a run from the empty database after which the preview says that marking a package done makes its task done, and it stays ready |
| Witnesses.DemoStoreStaysBlocked | flowcli/internal/store/memory.go:408-455 | after a run from the empty database the terminal store's delete of a blocker leaves lists that a refresh would not bring |
| Paging.PollingIsLossless | flowcore/src/store.rs:174-194 | whatever the limits, following the cursor yields the project's events after the start, in order, none twice, at least one more for every poll while any is left, and the rest stays reachable from the cursor |
| Paging.PollFillsItsPage | flowcore/src/store.rs:174-194 | a poll returns all the events there are above the cursor up to its limit, up to a thousand when the limit is not positive |
| Paging.PollingReturns | flowcore/src/store.rs:174-194 | polling often enough returns exactly the project's events above the start, in ascending order |
| Paging.ListedPage | flowcore/src/store.rs:196-221 | a page is the newest matching events, as many as asked for or all there are, `has_more` is true if and only if older ones remain, and asking below the oldest row continues with exactly those |
| Paging.PagingBackIsComplete | flowcore/src/store.rs:196-221 | paging back until `has_more` is false returns exactly the matching events in reverse |
| Paging.PagingBackReturns | flowcore/src/store.rs:196-221 | which are exactly the events of the project, of the node unless none is given, below the start unless it is 0, in strictly descending order |
| Watch.NothingIsLost | flowd/src/grpc/mod.rs:116-200 | in every interleaving of commits, deletions, late and reordered publishes, subscription, replay and receives, a live stream that has caught up has delivered every event of its project ever committed since it subscribed, deleted since or not; what it has not delivered is older and, if its replay read was done, was at or below its cursor or already gone from the log |
| Watch.DeliveredExactly | flowd/src/grpc/mod.rs:116-200 | a live stream has delivered exactly its replay and the project's notes it received after subscribing, nothing invented |
| Watch.ReceiveExactly | flowd/src/grpc/mod.rs:166-196 | with at most 256 notes unread a receive delivers the next note's events if it is the project's, nothing otherwise, and stays live; with more it says resync and ends |
| Watch.ReplayExactly | flowd/src/grpc/mod.rs:123-144 | a replay that is read delivers every event of the project above the cursor in one response, which says resync if and only if they are more than a thousand |
| Watch.KeepingUpStaysLive | flowd/src/grpc/mod.rs:148-200 | a live stream that never finds more than 256 notes unread and that nobody hangs up on stays live, and no further response says resync |
| Watch.KeepingUpIsNotEnded | flowd/src/grpc/mod.rs:116-200 | in every interleaving such a stream is not ended, and it is told to resync if and only if its replay read found more than a thousand events, by its first response |
| Watch.KeepingUpCanFinish | flowd/src/grpc/mod.rs:116-200 | and from wherever it is, once commits stop, it can come to have delivered everything it owes |
| Watch.PlayedUntroubled | flowd/src/grpc/mod.rs:116-200 | the same while the store serves requests: not ended, no resync but for an overdue replay |
| Watch.UnreadReplayLosesEvents | flowd/src/grpc/mod.rs:123-144 | from any log whose newest event is at the cursor: when the replay read fails, or the cursor is 0, an event committed and published before the subscription is lost without any response |
| Watch.SnapshotThenWatch | flowcore/src/store.rs:147-149 | a snapshot of any reachable database, then Watch from its cursor: however the store's requests, the publishes and the stream's steps interleave, a stream that read its replay and caught up has delivered every event of the project committed since the snapshot, save those already gone when it read |
| Watch.SnapshotSeqIsNewest | flowcore/src/store.rs:147-149 | although deletions remove events, the snapshot's cursor stays the newest number ever used in every reachable database |
| NodeWatch.ReplayIsPrefix | flowdjs/src/service.ts:84-108 | the replay is the first thousand of the project's events above the cursor, marked resync if and only if there are more |
| NodeWatch.NodeDeliversInOrder | flowdjs/src/service.ts:76-148 | across replay and live stream delivered numbers strictly increase, so nothing comes twice |
| NodeWatch.NodeMissesExactly | flowdjs/src/service.ts:76-148 | of all the project's events ever committed above the cursor, those not delivered are exactly those committed between the replay read and the listener, those the replay did not offer, and those deleted before the read; a cut replay said resync, and when there was nothing to replay nothing came between |
| NodeWatch.NodeListensOn | flowdjs/src/service.ts:110-148 | a listening stream that nobody aborts goes on listening, delivers or holds exactly what the project commits from then on, in order, and says resync to none of it |
| Listing.BuildIndex | flowui/src/lib/derive.ts:9-18 | the maps hold, for every id, the last node with it and its blockers and dependents in list order |
| Listing.NeighboursKeepOrder | flowui/src/lib/derive.ts:9-18 | the neighbour lists keep the order of the dependencies |
| Listing.FindIsLast | flowui/src/lib/derive.ts:9-18 | of several entries with one id the last is the one indexed |
| Derive.WouldCycle | flowui/src/lib/derive.ts:125-137 | ends on any graph and says yes if and only if the new edge would close a cycle |
| Descendants.DescendantsOf | flowui/src/lib/derive.ts:140-153 | ends when no chain of parents below the root loops, and returns exactly the listed nodes with a parent at or below the root, each once when no id is listed twice, though it keeps no visited set |
| Descendants.ReachedIsSubtree | flowui/src/lib/derive.ts:140-153 | on rows with different ids what it reaches is the least set with the root closed under children |
| Descendants.ListedEnds | flowcore/migrations/0001_initial_schema.sql:86-95 | rows of a well-formed hierarchy have no loop of parents, so the walk ends on them |
| Counts.CountStatuses | flowui/src/lib/derive.ts:51-62 | each counter is the number of entries with its status, and the total their number |
| Counts.WpCounts | flowui/src/lib/derive.ts:65-74 | the counts of a package are those of its leaves: the steps of each task, or the task where there is none |
| Counts.CountsAreTheQuery | flowcore/src/store.rs:1175-1203 | on a project's lists, in any order, the clients' counts of a package equal the store's joined and grouped query, if no other project has a step under the package's tasks |
| Counts.ProgressIsTheTally | flowcore/src/store.rs:1175-1203 | a snapshot's progress has a row for exactly the packages that a task of the project has for its parent, with the clients' counts in it, if the steps under the project's tasks are its own |
| Counts.ProgressAddsUp | flowcore/src/store.rs:1175-1203 | done, ready, blocked and deferred add up to the total |
| Counts.PackagesSumToTheProject | flowcore/src/store.rs:1175-1203 | in any tables: summed over its packages the query counts each leaf of a project once, all of them and the done ones, except exactly its steps under other projects' tasks, and besides them exactly other projects' steps under its own |
| Counts.ProjectTotalsAgree | flowcli/internal/store/memory.go:216-252 | the terminal store's direct scan of all nodes gives the packages' sums, in any tables, but for those same steps |
| Layering.Layers.DepthOf | flowui/src/lib/derive.ts:246-254 | the memoised recursion ends on any graph, cyclic ones included; on an acyclic package its answer is the length of the longest chain of blockers inside it |
| Layering.Layers.LayerAll | flowui/src/lib/derive.ts:255-255 | every task of the package gets a depth, the exact one when the package is acyclic |
| Layering.ColumnsHaveNoHoles | flowui/src/lib/derive.ts:257-262 | the depths in use are 0, 1, 2 and so on |
| Layering.DeepestBlockerPlusOne | flowui/src/lib/derive.ts:250-251 | one more than the deepest blocker's depth is the longest chain |
| Layout.PlaceClusters | flowui/src/lib/derive.ts:241-284 | for any lists: clusters are stacked without overlap, cells are disjoint and each inside its own package's cluster, the cells hold exactly the tasks of the expanded packages, each once when ids are distinct, and in an acyclic package a cell's column is its longest chain of blockers |
| Layout.Measures | flowui/src/lib/derive.ts:212-284 | cells, columns, rows and clusters in pixels |
| Layout.ColumnsOf | flowui/src/lib/derive.ts:257-262 | the columns are the tasks grouped by depth, shallowest first, in list order |
| Layout.ArrowsGoRight | flowui/src/lib/derive.ts:241-284 | a dependency between two tasks of one acyclic package runs from left to right with at least the column gap between |
| Routes.WorkPackagesMeans | flowui/src/lib/derive.ts:20-21 | the listed packages are exactly those of the list, each once |
| Routes.WorkPackagesSorted | flowui/src/lib/derive.ts:20-39 | priorities do not fall along them, and packages of one priority keep the order they had |
| Routes.PackagesInStateOrder | flowui/src/lib/derive.ts:20-39 | active packages come first, then planned, then closed, then the rest |
| Routes.EverythingFits | flowui/src/lib/derive.ts:361-368 | clusters, cells and boxes lie inside the drawing's width and height, and only a cell and its cluster overlap |
| Routes.SizeIsTight | flowui/src/lib/derive.ts:286-294 | the boxes' rectangles in pixels, and a size that ends where the clusters and boxes do |
| Routes.RouteEdges | flowui/src/lib/derive.ts:321-344 | the lines are the dependencies between two drawn tasks, in order; each rollup counts exactly the dependencies with its pair of ends and joins their rectangles |
| Routes.RoutesConserve | flowui/src/lib/derive.ts:318-344 | lines plus rollup counts equal the dependencies whose ends are drawn in different places |
| Routes.EveryNodeIsDrawn | flowui/src/lib/derive.ts:300-316 | on a project's lists a node resolves if and only if its task and its package are the project's too, and then to itself, its task or its package according to what is expanded |
| Routes.ResolvePlaces | flowui/src/lib/derive.ts:300-316 | a node resolves to the rectangle of its cell when it is drawn as a task, and to that of the cluster or box with its key otherwise |
| Routes.LinesTell | flowui/src/lib/derive.ts:321-344 | a line is drawn satisfied if and only if its blocker is done |
| Routes.NoDependencyIsDropped | flowui/src/lib/derive.ts:318-344 | so on any project's lists lines plus rollup counts are exactly the dependencies between such nodes with different stand-ins |
| Routes.LayoutGraph | flowui/src/lib/derive.ts:231-370 | the whole drawing: sound placement, everything on the canvas, one box for each collapsed package, and every dependency routed; it asks only that going up from step to step does not loop where a dependency ends |
| Routes.ProjectStepsEnd | flowui/src/lib/derive.ts:300-316 | which a project's own lists never do |
| Spine.Chain.KidsOf | flowcli/internal/ui/chain.go:90-98 | the children of a row are its dependents in the package not drawn yet, and no dependent is left out |
| Spine.Chain.Walk | flowcli/internal/ui/chain.go:75-150 | ends on any graph; everything met for the first time gets one row, hangs under a direct blocker one level up, and has all its dependents met |
| Spine.Chain.FindRoots | flowcli/internal/ui/chain.go:59-71 | the roots are exactly the tasks without a blocker in the package |
| Spine.Chain.BuildChain | flowcli/internal/ui/chain.go:38-157 | a task has a row, exactly one, if and only if it can be reached from a root, which in an acyclic package is every task; every other row hangs under one of its direct blockers |
| Tui.Model.Reindex | flowcli/internal/ui/model.go:244-254 | the lookups are those of the lists |
| Tui.Model.Reaches | flowcli/internal/ui/dep.go:57-74 | ends on any graph and says yes if and only if the target is reached by one or more edges |
| Tui.Model.BuildDepCands | flowcli/internal/ui/dep.go:80-112 | the candidates are the project's other nodes that do not block the node yet and match, in order, each marked if and only if the node already reaches it; the cursor lands on the first unmarked one |
| Tui.CandidatesMean | flowcli/internal/ui/dep.go:80-112 | the candidates are exactly the listed nodes of the project, other than the node, that match and do not block it yet |
| Tui.Model.DepSelect | flowcli/internal/ui/dep.go:116-132 | the cursor moves to the nearest unmarked candidate in the direction, or stays when there is none |
| Tui.Model.EnterDep | flowcli/internal/ui/dep.go:158-165 | an edge it asks for is new and closes no cycle, and its blocker is a matching node of the project; it asks for none only without a candidate at the cursor or at one that the node already reaches |
| Tui.Model.PlanCascade | flowcli/internal/ui/cascade.go:49-100 | the preview holds one row for each blocked dependent, stuck when another blocker is not done, and the package's open tasks |
| Tui.Model.SubtreeOf | flowcli/internal/ui/update.go:707-720 | ends on any parent links and returns the least set with the root closed under children |
| Tui.Model.DeleteCollateral | flowcli/internal/ui/update.go:636-704 | the numbers are those of tasks, steps, edges and activity entries of the subtree, and the list has one row for each edge that leaves it, stuck when a known blocker outside is not done |
| Tui.Model.CountLeaves | flowcli/internal/ui/model.go:352-373 | the terminal client counts the same leaves as the web client |
| Memory.MemoryStore.Mark | flowcli/internal/store/memory.go:424-434 | repeated passes over the slice mark exactly the subtree |
| Memory.MemoryStore.CompactNodes | flowcli/internal/store/memory.go:436-442 | compaction in place keeps exactly the other nodes in order |
| Memory.MemoryStore.DeleteNode | flowcli/internal/store/memory.go:408-455 | a known node goes with its subtree and every edge touching it, and a new activity entry about it comes first; an unknown one changes nothing and is reported |
| Memory.MemoryStore.Projects | flowcli/internal/store/memory.go:211-254 | each project's totals are the numbers of its leaves and of its done leaves |
| Agreement.CyclePreviewIsTheGuard | flowcore/src/store.rs:504-515 | on a project's lists the engine refuses an edge as a cycle if and only if the client's walk, either client's, says yes or a chain through another project joins the ends |
| Agreement.UnmarkedIsAccepted | flowcli/internal/ui/dep.go:80-112 | a request for a marked candidate that is not a retry is refused; one for an unmarked candidate commits and adds the edge, unless a chain through another project joins the ends, when it is refused too |
| Agreement.PackageIsAcyclic | flowcli/internal/ui/chain.go:52-71 | on the lists of any project of a sound database the dependencies inside a package are acyclic, so the spine and the layering are complete there |
| Agreement.GraphGoesLeftToRight | flowui/src/lib/derive.ts:241-284 | in the graph view of any project of a sound database every dependency between two tasks of one expanded package runs from left to right |
| Agreement.ClientSubtreeIsTheServers | flowcore/src/store.rs:421-430 | every client's walk below a node ends and finds part of what the engine deletes: all of it if and only if all of it is the project's |
| Agreement.DialogTellsTheDelete | flowcli/internal/ui/update.go:636-665 | the dialog's number of tasks, or of steps, is the number a committed delete removes if and only if the client finds all of them below the node; its number of edges is right if and only if every edge removed is the project's and touches what the client finds; the delete writes one event for every node removed |
| Agreement.MemoryDeleteAgrees | flowcli/internal/store/memory.go:408-455 | an entry the terminal store keeps is what the engine shows after the same delete if and only if the engine keeps the node and the delete does not free it, and its lists are those a refresh would bring if and only if that holds of every entry |
| Unblocking.UnblockedRows | flowcli/internal/ui/update.go:666-695 | the dialog has a row for a node if and only if it is a direct dependent, of the project, outside what the client finds below the deleted node |
| Unblocking.UnblockedComesTrueExactly | flowcli/internal/ui/update.go:666-695 | after the delete a row has come true if and only if the engine keeps its node and, if the row is stuck, the delete does not free it, otherwise it is open and nothing left holds it |
| Secluded.CyclePreviewIsRight | flowcli/internal/ui/dep.go:57-74 | for a project that no link joins to another: both walks say yes if and only if the engine would refuse the edge as a cycle |
| Secluded.CascadePreviewIsRight | flowcli/internal/ui/cascade.go:61-87 | there: the other nodes whose status changed are exactly the rows not shown as stuck, and every row ends as it says |
| Secluded.DialogIsRight | flowcli/internal/ui/update.go:636-665 | there: the dialog's numbers are the tasks, the steps and the edges that the delete removes |
| Secluded.UnblockedIsRight | flowcli/internal/ui/update.go:666-695 | there: a row comes true if and only if it is stuck or its node was neither done nor deferred |
| Secluded.DemoDeleteIsRight | flowcli/internal/store/memory.go:408-455 | there: the terminal store's lists are those of a refresh if and only if the delete frees no node |
| Secluded.DrawingIsWhole | flowui/src/lib/derive.ts:300-316 | there: a node's task and package are the project's too, which is what a place in the drawing takes |
| Agreement.CascadePreviewIsExact | flowcli/internal/ui/cascade.go:61-87 | after marking a node done, another node's status has changed if and only if it has a row not shown as stuck, and its row has come true, exactly unless it is a blocked direct dependent that is another project's with nothing else holding it, or the project's and held besides by other projects' nodes only |
| Agreement.PackageRowsStay | flowcli/internal/ui/cascade.go:89-97 | on the lists of any project every extra row of a work package says its task will be done, and after the change none is |

## Left out

- Exactness.PayloadIsExact: for another project's requests it asks that the steps under the project's tasks be its own; while a step of another project sits there, the project's numbers follow that step's status, which is told only in the other project, and no claim is made about such requests.
- Exactness.ClientsNeverDrift: makes the same exception, for a run's requests of other projects before the first that misleads.
- Counts.CountsAreTheQuery: asks that no other project have a step under the package's tasks, which the clients cannot see; the equality can also hold by accident.
- Commits.OneCommitPerKey: promises the first seq only to a request that reaches the ledger; a retried delete is refused with not-found before it.
- Watch.NothingIsLost: promises delivery, not order, because publishes are not ordered between writers; a stream told to resync or closed promises nothing more.
- Watch.SnapshotThenWatch: promises nothing from cursor 0 or after a failed replay read, which `Watch.UnreadReplayLosesEvents` shows.
- Paging.ListedPage: asks for a limit below the largest 32-bit number, where the code's `lim + 1` overflows.
- Tui.Model.PlanCascade: the package title beside a row of another package is presentation.
- Tui.Model.DeleteCollateral: the titles it carries are presentation.
- Spine.Chain.BuildChain: the branch characters, notes and spacer lines are presentation; rows carry their depth instead. The focused chain is not part of this model.
- Counts.CountStatuses: the rounded percentage is floating point for display.
- Memory.MemoryStore.DeleteNode: the text, author and time of an activity entry are presentation.
- Answers.OtherRetriesReturnNone: leaves aside a node created in the empty project under a project creation's key, which would look for a node with the project's identifier; identifiers of projects and nodes never meet in the code.
- Watch.ReceiveExactly: the changed nodes and the progress that travel with a note are those of `Answers.CommitShows` and are not carried along again.
- The recent events of a snapshot: the newest 25, a page like any other.
- Clock columns and the stale flag of a verification: one-second resolution, display only.
- Event summaries, project names, project update and archive, and full-text search: no property here depends on them.
- Text contents and JSON syntax: payloads are values, and the fields read back are kept.
- Protobuf decoding, HTTP and MCP wrappers, rendering and key handling: plumbing.
- Heartbeats of the Node stream and the bounded channel to the client: a response that carries no events changes nothing proved here.
- Path curves, colours and step labels of the graph view: presentation.
- The terminal client's snapshot cache ignores the project, so its lists are taken as those of one refresh.
- Daemon start-up and the lock file: best effort by design.
