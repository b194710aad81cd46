# The desk app's bounded state machines, verified

The chat window, its live stream and its browser mirror rest on a dozen small
state machines with explicit bounds, epochs and merge rules. This project models
them in Dafny and proves what they keep, over every input and every run.

The harder half:

- **The live event pipeline.** `AgentEvents` says what one event does to a list,
  by reading the list from its tail: a frame is open for its key until a later
  event closes it. `AgentEventBatch` is the code as it runs, with the index map,
  the id set and the newest-sequence map that follow every tail move, and is
  proved to compute exactly that. `StreamLaws` says, by the fields of the events
  alone, which deltas make one frame and which events end it. `BatchLaws` proves
  that a batch can be cut anywhere and that frames can be merged in a queue before
  they land; `BatchMemory`, `BatchAccepted` and `OpenRuns` prove exactly when.
  `OpenRuns` says what a merged frame shows. `DisplayScheduler`, `QueueMeetings`
  and `SchedulerLaws` put the frame and timer scheduler on top: whatever the
  interleaving, the window is the one that landing every event alone would give.
  `PushLaws` says which pushes deliver at once and which wait.
- **The browser mirror.** `MirrorPage` has the page, which forgets what changed
  with every answer it gives, and proves exactly when the list built from its
  answers covers it. `MirrorProtocol` adds the background worker and the offscreen
  document, every stretch between two awaits as one atomic step, and all messages
  in flight in no particular order. `MirrorSafety` proves over every interleaving
  that an accepted frame was painted with a redaction list sent for the
  generation it is accepted under and what that list covers, what happens after
  an invalidation, and the order in which the host sees frames; `MirrorDelivery`
  what becomes of a frame that is accepted.
- **Conversation reconciliation.** `PendingSends` proves the greedy matching of
  optimistic sends stable, monotone, and of maximum size exactly when rows of the
  same text come oldest first. `UndeliveredSends` applies it session by session,
  and `SendRuns` follows one chat over time. `Projections` merges stored and live
  rows, and `ProjectionLaws` says which rows come out, where, and in which order;
  `TranscriptBranch` selects the active branch and folds worker results into their
  panels, and `FoldTwice` proves when folding again changes nothing.
- **The browser workspace.** `BrowserWorkspace` has tabs, closed tabs and a
  bounded history against a back/forward list that never forgets,
  `WorkspaceLaws` what each action shows;
  `BrowserRestore` the repairing restore and the round trip through storage.

And the algorithms that refine a simple specification: `EditDistance` (the row
buffer computes the least number of edits), `FileTree` and
`FileRows` (build, sort, collapse, and the rows shown),
`ForestCache` and `CacheRecency` (least recently used, with byte accounting),
`InvokeQueue` (bounded concurrency, first in first out), `ForestPoll` (digest-gated
polling), `ComposerDrafts` (one composer, a draft per chat) and `BridgeFences`
(streaming fence removal). `Wrappers`, `InsertionMap`, `Sorting` and `Text` are
shared.

Classes and methods with loops are used where the app updates variables in
place; each method's contract ties its result, or the new state, to a function of
the old one, and the lemmas are about that function.

## Promises that hold under a condition

Each has a lemma with a failing input and, where there is one, the exact
condition under which the promise holds.

- Two progress frames of an item, neither with a text, blank the text on screen
  if they meet in the queue (`OpenRuns.TextlessProgressBlanks`,
  `OpenRuns.InvisibleIffSpeaksUp`, `BatchLaws.Fusion`).
- A delta with a durable id is forgotten by the merge, and taken for new when it
  is replayed in a later batch (`OpenRuns.DurableDeltaIsReplayed`,
  `BatchAccepted.SplitsIffNothingForgotten`).
- Sends are matched to as many turns as possible only if rows of the same text
  come oldest first (`PendingSends.GreedyIsMaximumIffOrdered`).
- A send stamped with the watermark can still be answered at once, by an earlier
  row whose time cannot be read (`PendingSends.NewSendStaysPending`).
- Two live rows under one identity: one can be lost while the other streams into
  a stored thought (`Projections.SharedIdentityLosesARow`,
  `Projections.ShownOrCoveredIff`).
- A sensitive element that the same answer mentions again as a plain region is
  dropped from the redaction list (`MirrorPage.PlainMentionUncovers`,
  `MirrorPage.ReportedIsCovered`).
- An answer clears what had changed even if the worker discards it, so a delta
  answer after a discarded one leaves regions uncovered. A failed attach is such a
  case: nothing asks for a full answer again (`MirrorSafety.DiscardedAnswerUncovers`,
  `MirrorPage.CoversIffUnbroken`).
- A frame that is accepted while no port is connected counts as in flight though
  it was posted nowhere, and nothing is posted any more until the tab is detached
  or the port is lost again (`MirrorDelivery.LostFrameStalls`,
  `MirrorDelivery.NewestIsOnItsWay`).
- A panel that a result joined reads as a result itself, so folding a second time
  can join it to an earlier spawn of its worker (`FoldTwice.FoldingTwiceByPosition`).
- A turn that answered a send is forgotten with it and can answer another one
  (`SendRuns.ReuseIffSettled`, `SendRuns.ReconcilesAgainIff`).
- Creating a tab with an empty id twice gives two tabs one name
  (`BrowserWorkspace.ReduceValid`).
- Back does nothing at the oldest entry kept, where an unbounded history would go
  on (`BrowserWorkspace.HistoryFollows`).
- An address of at most 2,048 characters is read, but its canonical form may be
  longer and is then refused the next time, so a page that was restored is lost
  (`BrowserRestore.LongAddressIsLost`, `BrowserRestore.RestoreIsIdempotent`).
- The backend shortens long texts as far as a frame demands, so keeping the old
  entries of an unchanged forest can show texts cut at another length
  (`ForestPoll.MergeShowsNextIff`).
- The cache does not refill room that a shrinking value frees
  (`CacheRecency.ShrinkingLeavesRoom`, `CacheRecency.RunIsLongest`).

## Model

| member | source | states |
|---|---|---|
| AgentEvents.Tail | src/agentEvents.ts:40-42 | the text itself up to 256,000 characters, else exactly its last 256,000 |
| AgentEventBatch.ShiftDown | src/agentEvents.ts:96-98 | every index behind the removed position moves down by one, all others stay |
| AgentEventBatch.ClearItem | src/agentEvents.ts:44-51 | exactly the keys of the closed item, of that session and of any kind, are forgotten |
| AgentEventBatch.Note | src/agentEvents.ts:65-67 | the map keeps, for every session, the newest positive sequence seen |
| AgentEventBatch.IndexCurrent | src/agentEvents.ts:68-73 | for every key the map holds the position of its last frame with no closing event behind it, and nothing else |
| AgentEventBatch.IndexMoves | src/agentEvents.ts:95-100 | taking a frame out and pushing the merged one at the tail keeps the index map right for every key |
| AgentEventBatch.Land | src/agentEvents.ts:79-110 | one accepted event joins the list as the specification says, and the index map stays right across the tail move |
| AgentEventBatch.Receive | src/agentEvents.ts:74-110 | one pass of the loop: a durable id already seen is skipped, anything else lands, and ids, indexes and newest sequences all follow |
| AgentEventBatch.ReceiveAll | src/agentEvents.ts:58-111 | the indexed loop computes the same list as reading the list from its tail for each event |
| AgentEventBatch.Evict | src/agentEvents.ts:113-120 | the single backward pass finds the longest tail within both budgets |
| AgentEventBatch.EvictedFits | src/agentEvents.ts:112-120 | what stays is a tail within the count and both budgets |
| AgentEventBatch.LongerIsEvicted | src/agentEvents.ts:112-120 | every longer tail exceeds the count or a budget |
| AgentEventBatch.Append | src/agentEvents.ts:53-121 | the whole function equals its specification: merge the batch in order, then keep the longest tail that fits |
| StreamLaws.ReplayIsIgnored | src/agentEvents.ts:74-77 | an event whose positive id its session already has changes nothing, an event of no stream is added as it is, any other comes last |
| StreamLaws.EndedStreamOpensAnew | src/agentEvents.ts:44-51 | after a turn or reasoning event without an item the session's next live thought, and after any event of no stream that names an item the item's next delta of each kind, opens a frame with only its own text, whatever of other streams came between |
| StreamLaws.OpenStreamJoins | src/agentEvents.ts:80-100 | until such an event the next delta joins the frame its stream left, wherever it is, and takes it to the end: texts put together (a progress text replaced), data laid over, the anchor kept, all else the delta's own |
| StreamLaws.FirstOfStreamOpens | src/agentEvents.ts:101-110 | a delta whose stream nothing belonged to before opens a frame of its own |
| StreamLaws.TwoDeltasOneFrame | src/agentEvents.ts:28-34 | two deltas become one frame if and only if session and kind agree and they name the same item, or are thoughts of which each names none or the live one |
| BatchLaws.BatchSplits | src/agentEvents.ts:53-111 | one batch or two: the merged list is the same when mergeable frames carry no id and no sequence |
| BatchLaws.Fusion | src/agentEvents.ts:82-108 | merging two frames of a key and landing the result equals landing them in turn, if and only if they are not two text-less snapshots over a shown text |
| BatchLaws.DropsCommute | src/agentEvents.ts:95-100 | tail moves of two different keys do not interfere |
| BatchLaws.QueueThenLand | src/agentEvents.ts:126-128 | queueing one more held-back frame and then landing the queue is landing the queue and then the frame |
| BatchLaws.QueueIsInvisible | src/agentEvents.ts:126-128 | a queue of held-back frames, merged among themselves, lands on any window as the frames one by one |
| BatchLaws.QueueWithLastIsInvisible | src/displayScheduler.ts:47-51 | the same when an event that may not wait ends the batch: nothing of the batch is merged behind it |
| BatchMemory.SplitsIffRemembered | src/agentEvents.ts:58-81 | a batch may be cut after its first part, whatever follows, if and only if the list still shows every durable id and newest sequence accepted so far |
| BatchMemory.TransientIsRemembered | src/agentEvents.ts:55-58 | with id-less deltas that is always so |
| BatchAccepted.SplitsIffNothingForgotten | src/agentEvents.ts:58-111 | a batch may be cut after its first part, whatever follows, if and only if among the events accepted by then every durable id, and the newest sequence of every session, is on one that no later event merged over |
| BatchAccepted.SparedBatchSplits | src/agentEvents.ts:74-92 | so it may be cut wherever no accepted event merges over one that has an id or a sequence |
| OpenRuns.OpenFrame | src/agentEvents.ts:82-109 | an open frame shows the tail of everything its run streamed (the latest text for snapshots), the latest value of every data field, and the newest durable sequence of its own session when the run began |
| OpenRuns.InvisibleIffSpeaksUp | src/agentEvents.ts:84-86 | held-back frames can be queued and merged unseen, by every window and wherever the batch is cut, if and only if no item sends two progress frames without a text between them |
| OpenRuns.TextlessProgressBlanks | src/agentEvents.ts:84-86 | a concrete pair of text-less progress frames that blanks a shown text |
| OpenRuns.DurableDeltaIsReplayed | src/agentEvents.ts:75-77 | a concrete delta with a durable id that is merged twice when its batch is cut |
| DisplayScheduler.Scheduler.constructor | src/displayScheduler.ts:18-23 | starts empty, with nothing armed |
| DisplayScheduler.Scheduler.Cancel | src/displayScheduler.ts:24-28 | both callbacks are withdrawn from the clock, nothing else changes |
| DisplayScheduler.Scheduler.FlushQueue | src/displayScheduler.ts:29-35 | the whole queue is delivered as one batch, once, unless disposed or empty |
| DisplayScheduler.Scheduler.TrimSessions | src/displayScheduler.ts:44 | the oldest sessions beyond 256 are forgotten |
| DisplayScheduler.Scheduler.Join | src/displayScheduler.ts:39-50 | a full queue goes out first, the event joins, and whether it may wait is decided on the map as it was then |
| DisplayScheduler.Scheduler.PushEvent | src/displayScheduler.ts:37-56 | the new state of every variable after a push |
| DisplayScheduler.Scheduler.OnFrame | src/displayScheduler.ts:53 | a frame callback, late or not, only flushes |
| DisplayScheduler.Scheduler.OnTimeout | src/displayScheduler.ts:54-55 | a timer callback, late or not, only flushes |
| DisplayScheduler.Scheduler.DisposeAll | src/displayScheduler.ts:58 | queue and session map are emptied and both callbacks withdrawn |
| SchedulerLaws.RunSound | src/displayScheduler.ts:24-58 | over every run: at most 255 pending, a non-empty queue has both wake-ups armed, frame and timer are armed together or not at all, at most 256 sessions |
| SchedulerLaws.QueuedSound | src/displayScheduler.ts:45-47 | the count cap of the queue never evicts an event |
| QueueMeetings.SlotsAreEntries | src/displayScheduler.ts:45-47 | a queue of held-back frames has one entry for every item and one for every frame of no item |
| QueueMeetings.SpeakingUpNeverMeets | src/displayScheduler.ts:49-51 | two text-less progress frames of an item never meet in the queue if a text, or an event that may not wait, is between them |
| SchedulerLaws.BatchingIsInvisible | src/displayScheduler.ts:29-56 | for every interleaving of pushes, frames, timers and flushes, the delivered batches and then the pending queue give exactly the window that appending each event alone gives, if no two text-less progress frames of an item can meet in the queue |
| PushLaws.PushGoesOutIff | src/displayScheduler.ts:37-56 | over every run, told by the events pushed: push returns with the event delivered and nothing waiting if and only if it is no delta, its session is not among the 256 last heard of, or it is a text and none of its session was shown since its last turn started or it was first heard of; otherwise it waits as the newest, both wake-ups are armed, and at most a queue of 255 went out |
| SchedulerLaws.DisposedIsSilent | src/displayScheduler.ts:31-38 | after disposal nothing is delivered, nothing waits, no session is remembered and no wake-up is armed, whatever still fires |
| SchedulerLaws.NewestSurvives | src/agentEvents.ts:115-119 | the newest event survives the budgets if and only if it fits them alone; otherwise the whole list goes |
| SchedulerLaws.FirstContentIsImmediate | src/displayScheduler.ts:40-51 | the first visible text after a turn started has been delivered when push returns, even if its session was evicted from the 256-session map in between |
| MirrorPage.ReportedIsCovered | browser-extension/background.js:125-137 | every id an answer mentions as sensitive is on the list if and only if none of them is mentioned as plain at the end; with the bounds mentioned, if and only if the last mention repeats them |
| MirrorPage.PlainMentionUncovers | browser-extension/background.js:127-134 | a family of answers in which a sensitive element is mentioned again as a plain region and drops off the list |
| MirrorPage.HonestAnswerCovers | browser-extension/background.js:125-134 | reading an answer that reports truly all it is about leaves every sensitive region of the page on the list if and only if no sensitive id is mentioned as plain at the end |
| MirrorPage.CoversIffUnbroken | browser-extension/content.js:129-136 | whatever the page changes, the list covers what it showed at its last answer if and only if there is a full answer that was read and everything after it is a delta answer that was read too: none discarded, and the list never cleared |
| MirrorProtocol.BackgroundWorker.ReadPage | browser-extension/background.js:123-140 | after the page answered: nothing changes if the tab, lease or generation moved on or the answer failed, else the sensitive regions are rebuilt and the list sent |
| MirrorProtocol.BackgroundWorker.OnUpdateAnswered | browser-extension/background.js:141-144 | a generation is acknowledged only if it is still current |
| MirrorProtocol.BackgroundWorker.OnDomDirty | browser-extension/background.js:344-345 | a new generation, not ready, nothing acknowledged |
| MirrorProtocol.BackgroundWorker.OnNavigation | browser-extension/background.js:321-324 | the same for the attached tab, and its regions are forgotten |
| MirrorProtocol.BackgroundWorker.CommitAttach | browser-extension/background.js:90-91 | a new tab and lease start under a new generation |
| MirrorProtocol.BackgroundWorker.CommitDetach | browser-extension/background.js:111-113 | the tab, the lease, the waiting frame and the acknowledgement go |
| MirrorProtocol.BackgroundWorker.QueueFrame | browser-extension/background.js:38-42 | one frame in flight; a newer one replaces the one that waits |
| MirrorProtocol.BackgroundWorker.OnLiveFrame | browser-extension/background.js:335-339 | a frame is queued if and only if a tab is attached, the snapshot is ready and the frame carries the acknowledged epoch |
| MirrorProtocol.BackgroundWorker.OnFrameAck | browser-extension/background.js:311-316 | the waiting frame, if any, goes out |
| MirrorProtocol.BackgroundWorker.OnDisconnect | browser-extension/background.js:63-67 | nothing is in flight or waiting without a port |
| MirrorProtocol.OffscreenDocument.OnUpdateRedactions | browser-extension/offscreen.js:71-75 | the list and its epoch are replaced together |
| MirrorProtocol.OffscreenDocument.Send | browser-extension/offscreen.js:52 | the message carries the epoch it was painted with, though the list may have changed while it was encoded |
| MirrorSafety.SentAsPainted | browser-extension/offscreen.js:36-52 | over every run, whatever arrives between painting and sending, a frame is sent with the list and the epoch of the moment it was painted |
| MirrorSafety.RunSafe | browser-extension/background.js:85-147 | in every interleaving: attached and ready imply that the acknowledged epoch is the current generation, every message in flight was made from a published list, every frame accepted, posted or waiting carries the epoch it was painted for, and while the answers are unbroken the worker holds all that a delta answer will not repeat |
| MirrorSafety.AcceptedFramesAreRedacted | browser-extension/background.js:335-337 | every frame ever accepted was painted with a list that was sent for the very generation it was accepted under; the list covers what the answer it was built from reported, if the last mention of each region there repeats what was said of it as sensitive, and all that the page showed then, if its answers up to that one are unbroken |
| MirrorSafety.DiscardedAnswerUncovers | browser-extension/background.js:85-147 | a concrete run, a discarded full answer and a delta answer, after which a frame is accepted that covers nothing of a page with a sensitive region |
| MirrorSafety.NothingAcceptedUnacknowledged | browser-extension/background.js:344-345 | between an invalidation and the next acknowledgement no frame is accepted |
| MirrorSafety.AcceptedIsNewer | browser-extension/background.js:321-349 | whatever is accepted after an invalidation was painted for a strictly newer generation |
| MirrorSafety.AtMostOneStaleFrame | browser-extension/background.js:311-316 | after an invalidation no older frame reaches the host but the one that was already waiting |
| MirrorSafety.HostSeesInOrder | browser-extension/background.js:38-42 | over every run the host gets accepted frames only, each at most as often as it was accepted, and in that order |
| MirrorDelivery.NewestIsOnItsWay | browser-extension/background.js:38-42 | over every run the newest frame accepted while connected is the one waiting or the last one posted, unless the tab was detached or the port lost since |
| MirrorDelivery.AckPostsNewest | browser-extension/background.js:311-316 | an acknowledgement posts exactly that frame if it was waiting, and nothing if it was posted |
| MirrorDelivery.AckPostsNothing | browser-extension/background.js:311-316 | with nothing waiting an acknowledgement only frees the slot |
| MirrorDelivery.TakenIsPostedWhenIdle | browser-extension/background.js:335-339 | an accepted frame is posted at once, with the lease and generation of the moment, if none is in flight, and replaces the one that waits otherwise |
| MirrorDelivery.ReadyIff | browser-extension/background.js:141-144 | the worker becomes ready exactly by an answer for the tab, lease and generation it has, and stays so until an invalidation |
| MirrorDelivery.NothingAcceptedDetached | browser-extension/background.js:105-115 | after a detach the worker has no tab, no lease and no frame waiting, and accepts nothing, until a tab is attached again |
| MirrorDelivery.HeldIsOfThisPage | browser-extension/background.js:324 | over every run each region the worker holds was reported as sensitive by an answer that came since the last attach, or navigation of the attached tab |
| MirrorDelivery.SentListIsOfThisPage | browser-extension/background.js:125-137 | and a list sent is what the worker holds then, so it names no region of a page that was left |
| MirrorDelivery.SentFramesAreNumbered | browser-extension/offscreen.js:52 | over every run a frame that is sent has a higher number than any frame under way |
| MirrorDelivery.LostFrameStalls | browser-extension/background.js:34-42 | after a frame was accepted without a port nothing is posted, connected again or not, until an acknowledgement, a detach or another disconnect |
| MirrorDelivery.LostFrameExample | browser-extension/background.js:63-67 | a run that gets there |
| PendingSends.AnsweredPending | src/conversation.ts:133-151 | the loop with its claimed set gives each send the first unclaimed row that answers it |
| PendingSends.FirstFree | src/conversation.ts:139-145 | the row found is unclaimed, answers the send, and no earlier row does; none is found only if there is none |
| PendingSends.AssignIsStable | src/conversation.ts:126-128 | each row answers one send at most and only one it may answer, and an unanswered send has all its rows claimed by earlier sends |
| PendingSends.MoreRowsAnswerMore | src/conversation.ts:133-151 | appending rows never takes an answer back or moves one |
| PendingSends.GreedyIsMaximum | src/conversation.ts:133-151 | with rows of a text oldest first, no matching answers more sends, in whatever order the sends were made |
| PendingSends.DisorderCosts | src/conversation.ts:139-145 | for any rows out of order there are sends of which a better matching answers more |
| PendingSends.GreedyIsMaximumIffOrdered | src/conversation.ts:133-151 | greedy is maximum for every list of sends if and only if rows of a text come oldest first, unreadable stamps last |
| PendingSends.UserTurnWatermark | src/conversation.ts:109-120 | the greatest readable stamp of the user turns that already say this text, over all projections, or none if there is none |
| PendingSends.NewSendStaysPending | src/conversation.ts:101-108 | a send stamped with the watermark is answered by the rows that were there if and only if one of them says the same without a readable stamp |
| UndeliveredSends.UndeliveredPending | src/conversation.ts:194-214 | grouping by session and reconciling each group with its own live rows, and the selected one with its stored rows too, drops exactly the delivered sends and keeps the order |
| UndeliveredSends.GroupBySession | src/conversation.ts:200-205 | each group holds the positions of one session's sends, in order |
| UndeliveredSends.EachSessionAlone | src/conversation.ts:183-189 | what stays of a session is what would stay if no other session existed |
| UndeliveredSends.LoneSendLeavesIff | src/conversation.ts:206-212 | a chat's only send goes away if and only if a live user turn of that chat answers it, or the chat is the selected one and a stored user turn does |
| UndeliveredSends.DeliveredStaysDelivered | src/conversation.ts:194-214 | for one list of sends, a send that is delivered is delivered on any rows with more appended |
| SendRuns.ReuseIffSettled | src/conversation.ts:129-131 | over every run of sending, arriving and reconciling: a send that an earlier reconciliation left goes away on a turn that already answered another if and only if some turn that was there then answers it and no earlier pending send takes it; a send made since does so only on a turn without a readable stamp |
| SendRuns.ReconcilesAgainIff | src/conversation.ts:129-131 | reconciling again without new turns drops nothing if and only if no turn answers a send that was left |
| Projections.BuildTables | src/conversation.ts:293-333 | the first loops gather identities, anchors, first shadows, texts, the newest stored thought and the last live row streaming into it |
| Projections.MergeProjections | src/conversation.ts:292-371 | the loops compute the placed stored rows and the live rows not yet shown, sorted by sequence |
| Projections.MergeKeepsStored | src/conversation.ts:335-370 | every stored row comes out exactly once, no later than it was and changed in nothing but sequence and identity; the output is in order |
| Projections.ShownOrCoveredIff | src/conversation.ts:357-368 | a live row appears unchanged or a stored row has its identity, its text, or a thought its streamed text opens, if and only if it does not share the arriving identity or a stored row has its text or such a thought |
| Projections.NothingLiveIsLostIff | src/conversation.ts:357-368 | no live row is lost if and only if every one that shares the arriving identity is repeated by a stored row in that way |
| Projections.LiveIsShownOrCovered | src/conversation.ts:357-368 | with an identity to each live row, each one is shown unchanged or covered |
| ProjectionLaws.LiveComesOutIff | src/conversation.ts:357-368 | a live row comes out as often as it came in, unless a stored row has its identity, or it is streaming or without an id and a stored row has its text, or it has the identity of the last live row streaming into the newest stored thought; then not at all |
| ProjectionLaws.TwinMovesUp | src/conversation.ts:335-352 | a stored row with a live row under its identity sits at the earlier of its own place and that of the last such row |
| ProjectionLaws.ThoughtStandsForArriving | src/conversation.ts:346-354 | the newest stored thought sits no later than the live row that streams into it, and answers to its identity |
| ProjectionLaws.TextTwinIsStoodFor | src/conversation.ts:346-354 | any other stored row sits no later than the first live row, streaming or without an id, with its text, and answers to its identity |
| ProjectionLaws.OthersStay | src/conversation.ts:335-354 | a stored row that no live row matches comes out as it is |
| ProjectionLaws.TiesKeepOrder | src/conversation.ts:340-369 | at each sequence the stored rows come first and then the live rows that no stored row stands for, both in the order they came in |
| Projections.ThoughtAnswersToArriving | src/conversation.ts:324-333 | the stored thought a live row streams into comes out under that row's identity, unless a live row already has its own |
| Projections.SharedIdentityLosesARow | src/conversation.ts:362-366 | a family of inputs in which a live row that shares an identity is neither shown nor covered |
| TranscriptBranch.SelectActiveBranch | src/conversation.ts:30-48 | the loop over parents computes the branch of the leaf's own session |
| TranscriptBranch.BranchIsPath | src/conversation.ts:40-47 | the branch ends at the leaf, each entry is the parent of the next, none comes twice even if parents form a cycle, and it goes up as far as it can |
| TranscriptBranch.BranchTakesNewest | src/conversation.ts:32-38 | the session is that of the first entry with the leaf's id, and of entries of that session that share an id the last one is on the branch |
| TranscriptBranch.BranchIgnoresOrder | src/conversation.ts:29-39 | the order of the entries does not matter when an id names one entry |
| TranscriptBranch.FoldWorkerDelegations | src/conversation.ts:408-466 | reading facet and worker off the data as it is, updating panels in place gives each spawn with every result of its worker up to the next spawn, every other row in its place |
| TranscriptBranch.FoldingLosesNoRow | src/conversation.ts:448-450 | every row stays in its place under its own key, but for results whose worker was spawned before them |
| TranscriptBranch.PanelKeepsKey | src/conversation.ts:408-463 | a panel keeps its key, its worker and an objective it has, and loses no data field; if no result joins it, it stays what it was, and if one does it reads as a result |
| TranscriptBranch.PanelShows | src/conversation.ts:452-461 | a panel shows the last status and the last title its worker's results carried, the latest value of every data field, and its objective or else the first text of a result that is no summary |
| TranscriptBranch.FacetsByField | src/conversation.ts:408-418 | a row is a spawn or a result by which of the four fields its data has, and only if it names its worker by a string that is not empty |
| TranscriptBranch.SummaryHasWords | src/conversation.ts:374-379 | a text is a summary if and only if it begins with the prefix and a character that is not white space follows |
| FoldTwice.FoldingTwice | src/conversation.ts:432-466 | folding what was folded changes something if and only if some worker was respawned: its first spawn is not followed by a result before the next spawn, and one comes after that |
| FoldTwice.FoldingTwiceByPosition | src/conversation.ts:432-466 | the same by position: two spawns of a worker, no result of it between them, and one behind |
| EditDistance.Compute | src/harnessShortcut.ts:21-35 | the two rows overwritten in place compute the distance of the whole words |
| EditDistance.DistIsLeast | src/harnessShortcut.ts:21-35 | no sequence of insertions, deletions and substitutions, anywhere in the word, is shorter than the distance |
| EditDistance.DistIsReached | src/harnessShortcut.ts:21-35 | that many edits do turn one word into the other |
| EditDistance.DistIsSymmetric | src/harnessShortcut.ts:21-35 | the distance is the same both ways |
| EditDistance.TriangleInequality | src/harnessShortcut.ts:21-35 | going through a third word is never shorter |
| EditDistance.ZeroMeansEqual | src/harnessShortcut.ts:21-35 | no edits are needed if and only if the words are equal |
| EditDistance.ClosestHarnessShortcut | src/harnessShortcut.ts:38-48 | an id comes back if and only if it is strictly closer than every other and within the threshold |
| EditDistance.ThresholdIsThird | src/harnessShortcut.ts:44 | the distance allowed is a third of the length, rounded up, and at least one |
| BrowserWorkspace.NearestEntry | src/browserWorkspace.ts:127-130 | the scan finds the equal history entry nearest to the shown one, the earlier of two as near, and none only if there is none |
| BrowserWorkspace.NavigateOk | src/browserWorkspace.ts:77-85 | navigating keeps a tab's history within 50 and its indexed entry equal to its address |
| BrowserWorkspace.ReduceValid | src/browserWorkspace.ts:87-146 | every action keeps 1 to 20 uniquely named tabs with the active one among them, at most 10 uniquely named closed ones, and sound histories, if and only if it does not create a second tab with an empty id |
| BrowserWorkspace.ReachedValid | src/browserWorkspace.ts:70-75 | every workspace reached from the default one is valid |
| BrowserWorkspace.ReopenUndoesClose | src/browserWorkspace.ts:98-115 | reopening right after closing brings the same tab back, with its history and name, at the end |
| WorkspaceLaws.CloseShowsNeighbour | src/browserWorkspace.ts:98-108 | closing the shown tab shows its right neighbour, or the left one of the last, or a blank tab; closing another leaves the shown one; the rest keep their order |
| WorkspaceLaws.ClosedIsRemembered | src/browserWorkspace.ts:107 | the closed tab becomes the newest closed one, once, and of eleven the oldest is forgotten |
| WorkspaceLaws.SelectShowsNamed | src/browserWorkspace.ts:96-100 | selecting shows the named tab and changes nothing else; a name no tab has selects and closes nothing |
| WorkspaceLaws.CreateShowsNew | src/browserWorkspace.ts:89-95 | a new tab comes last and is shown, blank or on its address, unless there are 20 or its name is taken |
| WorkspaceLaws.ReopenShowsNewest | src/browserWorkspace.ts:110-115 | the newest closed tab comes back last and is shown, under a new name if its own is taken |
| WorkspaceLaws.ActsOnItsTab | src/browserWorkspace.ts:116-144 | any other action changes the tab it names in place and nothing else: navigation cuts what was ahead and keeps 50 entries, back and forward move by one, a traverse goes to the equal entry nearest the shown one, a title is cut to 160, an address over 2,048 characters is not followed |
| WorkspaceLaws.DefaultShowsAddress | src/browserWorkspace.ts:70-75 | a fresh workspace has one tab, on its address if that is one |
| BrowserWorkspace.HistoryFollows | src/browserWorkspace.ts:77-139 | one action on the bounded history and on an unbounded one keeps the first the newest part of the second with the same page shown, if and only if it is not Back at the oldest entry kept |
| BrowserWorkspace.RunFollows | src/browserWorkspace.ts:77-139 | over whole runs from a blank tab the bounded history is at every moment the newest part of the unbounded one, with the same page shown, if and only if Back is never asked for at the oldest entry kept while the unbounded one goes on |
| BrowserRestore.ParseTabs | src/browserWorkspace.ts:189-194 | tabs that can be restored, each name once, with the shared id set extended by exactly their names |
| BrowserRestore.Restore | src/browserWorkspace.ts:184-200 | nothing, or the restored tabs, the stored active tab if it is among them, and the last closed tabs under other names |
| BrowserRestore.KeptIndex | src/browserWorkspace.ts:177-179 | dropping unusable entries keeps the chosen one under the number of usable ones before it |
| BrowserRestore.RestoredTabOk | src/browserWorkspace.ts:163-182 | any value gives no tab or a sound one: blank, or at most 50 entries with the indexed one equal to the address |
| BrowserRestore.RestoredIsValid | src/browserWorkspace.ts:184-200 | any stored value gives nothing or a workspace that meets every reducer invariant |
| BrowserRestore.RestoredWorkspaceIs | src/browserWorkspace.ts:184-199 | the first 20 stored tabs are read for open ones and the last 10 for closed ones, each name from the first value that gives it; nothing is restored without version 1 or without an open tab |
| BrowserRestore.RestoredShows | src/browserWorkspace.ts:198 | the stored active tab is shown if it was restored, the first tab otherwise |
| BrowserRestore.RestoredIsPublic | src/browserWorkspace.ts:150-161 | no address or entry of a restored workspace is the canonical form of one with credentials or a secret |
| BrowserRestore.RestoredTitle | src/browserWorkspace.ts:181 | a page keeps its title, cut to 160 characters, and a blank tab has none |
| BrowserRestore.TabIsReadIff | src/browserWorkspace.ts:163-166 | a value gives a tab, under its own name, if and only if it is a record with an address and a name of 1 to 100 letters, digits, hyphens or underscores |
| BrowserRestore.WorkspaceRoundTrip | src/browserWorkspace.ts:150-217 | a workspace of storable tabs under distinct names comes back from storage as it went in, whatever the URL parser, if the empty string is no address |
| BrowserRestore.RestoreIsIdempotent | src/browserWorkspace.ts:38-41 | restoring what was restored changes nothing if and only if every address and history entry it keeps has at most 2,048 characters |
| BrowserRestore.WriteThenRead | src/browserWorkspace.ts:202-217 | storage gives a valid workspace back if and only if every tab is storable (each entry is read as itself) and no name is both open and closed |
| BrowserRestore.LongAddressIsLost | src/browserWorkspace.ts:150-168 | a tab whose short address has a canonical form over 2,048 characters is restored with that form, and as a blank tab the next time |
| BrowserRestore.LongAddressExample | src/browserWorkspace.ts:38-41 | a parser and an address of 1,014 characters for which that happens |
| FileTree.BuildFileTree | src/fileTree.ts:17-37 | the loops over paths and segments, and the sort, compute the specified tree |
| FileTree.InsertAdds | src/fileTree.ts:23-33 | inserting a path adds that file and no other |
| FileTree.GrownHolds | src/fileTree.ts:17-34 | the files are exactly the paths with a segment, no directory is empty, no siblings are the same, and every path joins the names on the way |
| FileTree.SortTreeSorts | src/fileTree.ts:39-47 | every level is sorted, directories first, and the tree stays tidy |
| FileTree.BuiltTree | src/fileTree.ts:17-47 | both at once for the tree that is shown |
| FileTree.FindTip | src/fileTree.ts:57-62 | the loop walks to the end of a chain of single directories, joining names |
| FileTree.CollapseChains | src/fileTree.ts:54-65 | the rows computed are the collapsed tree |
| FileTree.CollapsingKeepsFiles | src/fileTree.ts:54-65 | the files and their order are unchanged |
| FileTree.CollapsingLeavesNoChains | src/fileTree.ts:54-65 | no row is a directory whose only child is a directory |
| FileTree.CollapsingIsIdempotent | src/fileTree.ts:54-65 | collapsing again changes nothing |
| FileTree.CollapsingJoinsNames | src/fileTree.ts:61-63 | every path is still the names on the way to it, joined |
| FileTree.TreeIsShownInOrder | src/fileTree.ts:39-65 | at every level directories come before files and each kind is in order of names; collapsed, no directory holds nothing but one directory |
| FileTree.SegmentsAreParted | src/fileTree.ts:20 | the segments are what the slashes part, without the empty ones |
| FileRows.InsertCounts | src/fileTree.ts:23-33 | inserting a path makes one more file row, or none if the file was there |
| FileRows.RowsShown | src/fileTree.ts:17-65 | the rows shown for a list of paths have exactly its distinct files, as many as there are, no chain of lone directories, and on every row a path that is the names on the way to it |
| ForestCache.Cache.constructor | src/forestCache.ts:6-9 | starts empty |
| ForestCache.Cache.Get | src/forestCache.ts:10-16 | a hit moves to the recent end and is returned, a miss changes nothing, and the byte count stays exact |
| ForestCache.Cache.Set | src/forestCache.ts:17-31 | replaces, refuses an oversized value, and evicts from the old end until both limits hold; the byte count stays exact and the loop ends |
| ForestCache.LongerDoesNotFit | src/forestCache.ts:26-30 | no longer recent stretch would have fitted |
| ForestCache.SetThenGet | src/forestCache.ts:17-31 | a value is kept when it is set if and only if it fits on its own |
| ForestCache.RunKeepsNewest | src/forestCache.ts:6-31 | over every run both limits hold and the cache is the recent end of everything still wanted |
| ForestCache.HitIsLastSet | src/forestCache.ts:10-16 | over every run a hit returns what was last set under that id |
| CacheRecency.LongestIff | src/forestCache.ts:26-30 | the cache is the longest recent stretch that fits if and only if the newest evicted entry would not fit beside it |
| CacheRecency.RunIsLongest | src/forestCache.ts:6-31 | so it is at all times while values only grow |
| CacheRecency.ShrinkingLeavesRoom | src/forestCache.ts:17-31 | whenever two values do not fit together and the second is replaced by one small enough, the first would fit again and is not there |
| InvokeQueue.Queue.constructor | src/invokeQueue.ts:3-5 | starts idle |
| InvokeQueue.Queue.EnqueueJob | src/invokeQueue.ts:20-21 | a job starts if a slot is free and waits otherwise |
| InvokeQueue.Queue.Finish | src/invokeQueue.ts:11-18 | a job that resolves or rejects frees its slot and starts the first one waiting |
| InvokeQueue.StepValid | src/invokeQueue.ts:7-23 | each step keeps the invariant, and a settled job keeps its outcome |
| InvokeQueue.RunValid | src/invokeQueue.ts:1-24 | over every run at most the allowed number run, a job waits only when all slots are busy, jobs start once and in arrival order, and the active ones are those not settled |
| InvokeQueue.OutcomesAreRecorded | src/invokeQueue.ts:11-15 | over every run every job asked for arrived, in order, and every start that settled has its own outcome |
| InvokeQueue.Drains | src/invokeQueue.ts:16-18 | while work is left some job is running, and every settlement leaves one job less |
| ForestPoll.MergeShowsNextIff | src/forest.ts:6-23 | for two reads of branches of an append-only log, each with its texts cut at its own cap, the merge shows what the new snapshot has if and only if, where it takes the entries for unchanged, both caps cut every payload alike |
| ForestPoll.MergeShowsNext | src/forest.ts:6-23 | so with one cap for both it always shows what the new snapshot has |
| ForestPoll.MergeKeepsEntries | src/forest.ts:15-22 | the entries on screen are kept when as many came and the last one has the same id and sequence, and all else is what came |
| ForestPoll.SkipIsSafe | src/forest.ts:41-55 | over every run a skipped poll would have fetched what is shown, and at most nine are skipped in a row |
| ForestPoll.PollSkipsIff | src/forest.ts:42-48 | over every run a poll ends without a fetch if and only if its digest could be read, is the one read before the last snapshot came, and fewer than nine polls went without a fetch since |
| ForestPoll.PolledForest.OnDigest | src/forest.ts:42-48 | the stretch from the digest to the fetch or the skip |
| ForestPoll.PolledForest.OnSnapshot | src/forest.ts:49-54 | the stretch after the fetch; the digest remembered is the one read before it |
| ComposerDrafts.RestoreThenTake | src/composerDrafts.ts:25-69 | taking a restored send out of its own merge leaves the later typing up to leading white space, and the other attachments |
| ComposerDrafts.TextComesBack | src/composerDrafts.ts:25-59 | the exact text that leaves, also when either side is blank |
| ComposerDrafts.RestoreHoldsBoth | src/composerDrafts.ts:25-39 | a restored draft holds the words and images of both sides, the failed ones first |
| ComposerDrafts.OnlyWholeWordsGo | src/composerDrafts.ts:50-59 | the sent words go only from the front and only where white space or nothing follows, which goes too |
| ComposerDrafts.OtherWordsStay | src/composerDrafts.ts:50-54 | a draft that does not begin with the sent words stays as it is |
| ComposerDrafts.DraftStore.PutDraft | src/composerDrafts.ts:82-85 | an empty draft is forgotten rather than stored |
| ComposerDrafts.DraftStore.Take | src/composerDrafts.ts:87-91 | hands the draft over and forgets it |
| ComposerDrafts.DraftStore.Retain | src/composerDrafts.ts:98-100 | exactly the drafts of the named chats stay |
| ComposerDrafts.Composer.SelectChat | src/App.tsx:415-425 | the draft on screen goes to the store under its chat, and the new chat's comes out of it |
| ComposerDrafts.Composer.SeedDraft | src/App.tsx:431-439 | the chat's draft is replaced wherever it lives |
| ComposerDrafts.Composer.ConsumeDraft | src/App.tsx:441-448 | only the named chat loses what was sent |
| ComposerDrafts.Composer.RestoreFailedSend | src/App.tsx:450-457 | only the named chat gets the failed send back |
| ComposerDrafts.EachChatKeepsItsDraft | src/App.tsx:403-457 | over every run each chat has the draft it would have with a composer to itself, up to blank ones, and the chat on screen has nothing in the store |
| ComposerDrafts.StoreHoldsNoEmpty | src/composerDrafts.ts:80-83 | over every run the store holds no draft without words and images |
| BridgeFences.StripBridgeFences | src/humanize.ts:85-109 | the scan with its two cursors computes the kept lines, joined and trimmed |
| BridgeFences.KeptHasNoFence | src/humanize.ts:89-107 | no kept line opens a bridge fence |
| BridgeFences.StreamingOnlyAppends | src/humanize.ts:79-83 | the lines kept of any whole-line prefix, also one ending inside an open fence, are a prefix of those kept of the whole text |
| BridgeFences.ProseAroundStays | src/humanize.ts:89-107 | of lines in front of a fence, the fence and lines behind it, those in front are kept and then what is kept of those behind; of an open fence those in front |
| BridgeFences.OpensFenceIff | src/humanize.ts:90-91 | a line opens a fence if and only if, white space around it apart, it is three or more backticks, blanks, and `bridge-` in any case |
| BridgeFences.ClosesFenceIff | src/humanize.ts:95 | a line closes a fence exactly when it begins with three backticks, white space apart |
| BridgeFences.LineEnds | src/humanize.ts:86 | each of the three line ends ends a line |
| BridgeFences.StrippingIsIdempotent | src/humanize.ts:85-109 | stripping the joined and trimmed text again changes nothing, and no line of it opens a fence |

## Left out

- SchedulerLaws.BatchingIsInvisible: requires that mergeable frames are transient, that no two text-less progress frames of an item can meet in the queue, that nothing is evicted and that there was no disposal; `OpenRuns.InvisibleIffSpeaksUp` says what such a meeting does, `BatchAccepted.SplitsIffNothingForgotten` what durable frames do, and eviction is by design not independent of batching.
- BatchLaws.BatchSplits: is about the list before eviction, because what a budget removed between two batches can no longer merge.
- Projections.ShownOrCoveredIff: the direction from shown to the condition is for live rows whose key no stored row has.
- UndeliveredSends.DeliveredStaysDelivered: is about one list of sends; the list that shrinks with every reconciliation is followed in `SendRuns`, for one chat and one list of turns.
- MirrorPage.HonestAnswerCovers: takes an answer to mention all it is about, which the page does up to its caps on elements and regions; text and values are not modelled.
- MirrorPage.CoversIffUnbroken: answers are read in the order they were given, and every change is one the page's observer notices; in `MirrorProtocol` a change that is not noticed, such as a shift of place, breaks the answers until the next full one.
- ForestCache.RunKeepsNewest: says recent end and not longest, which holds at each set and, over runs, under the condition of `CacheRecency.RunIsLongest`.
- BrowserWorkspace.HistoryFollows: leaves out the traverse event, which picks the nearest equal entry and can differ between the two histories when the nearest one was forgotten.
- BrowserWorkspace.ReduceValid: takes generated tab ids to be new.
- MirrorSafety.RunSafe: messages may be reordered and attach or detach may happen at any moment, which allows more runs than the browser does; a page answers in the step that reads or discards the answer; painting is a set of regions, without the viewport scale.
- TranscriptBranch.FoldWorkerDelegations: a panel is an index into the output instead of a shared object.
- FileTree.BuildFileTree: nodes are values, so updating child arrays in place and aliasing are not captured.
- InvokeQueue.Drains: says that every settlement shortens the work left; that jobs do settle is up to them.
- ForestPoll.SkipIsSafe: assumes that a digest names one version of the backend and is not empty.
- Merge keys, durable keys and item keys are tuples, not strings joined with NUL: ids that contain NUL are not modelled.
- JSON sizes, URL parsing and canonical form, collation, case folding and row identity are parameters or fields; parsing a canonical form is assumed to give the same address again, and collation to be a total preorder. What the omnibox makes of its input is a parameter as a whole.
- Row texts are given trimmed in the conversation modules; `Text` models trimming itself for drafts and fences, with the white space of JavaScript.
- Chat ids and row ids are numbers compared for equality; the empty string as a chat id is not modelled.
- Snapshot refresh timers and retries, the host command queue, screenshots, the debugger, how the page finds its elements, and restarts of the service worker.
- Delivery notes, tool call display, worker result parsing, attachment URIs and reduction of events to rows in the conversation module.
- Parsing of the shortcut text, ancestor paths, fuzzy ranking, the other humanizing functions, and archiving a chat with its descendants.
- React batching and rendering, storage limits and failures, and wall-clock delays.
