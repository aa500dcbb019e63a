# TuxInDrive: verified models of its synchronization core

This project models the stateful parts of TuxInDrive and proves what they keep over every input, run
or interleaving. `dafny verify dfyconfig.toml` checks all of it.

* **Collaborative text** (`collaboration.py`): immutable insert and delete operations, the `after`
  forest, the explicit-stack walk, editing by difference. A document reads in the lexicographic order
  of its root paths of sort keys, siblings ascending. The walk is proved to compute that order exactly
  when the graph is a forest, the order to be the recursive pre-order, merging to be order-independent
  and never to reorder what a replica already has. Typing and deleting have exact placement laws, and
  several devices that save, crash and exchange operations in any portions always keep documents on which
  these hold.
* **Change monitor** (`callbacks.py`): one loop iteration is a method whose environment (events, file
  states, provider answers, transfer outcome, clock, other monitors of the folder) is an argument. Full
  readings come from the listing kept for five seconds when it is young enough. Ghost events record what
  was reported, transferred, reconciled and dropped; the invariants hold over every run.
* **Bandwidth** (`bandwidth.py`): the admission gate as interleaved arrivals, wake-ups, timeouts and
  releases; the byte-rate clock; the algebra of upload:download limits down to their printed text.
* **Offline rules** (`engine.py`, `nautilus_support.py`): two compact rule lists against the last
  successful word spoken about each path, for calls one after another and for calls that overlap.
* **Job admission** (`engine.py`): lock-protected sets and queues shared by full runs, incremental
  runs, mounts, monitors (stopped ones included), mode changes and cancellation; each critical section is
  a step and a method.
* **Cache eviction, audit file, block deltas** (`cache_manager.py`, `audit.py`, `delta.py`, `engine.py`,
  `peer.py`): oldest-first removal to a need, backward block reading with compaction, and delta upload
  into the peer's directory of transactions, inspected in any order, retried, lost or damaged.

Objects the program updates in place are classes; their methods are proved against specification
functions about which the lemmas speak. Time and rates are exact reals, paths are opaque or sequences
of components, exceptions are results, and threads are interleaved steps.

## Where the code differs from its description

* Siblings ascend, so an insertion lands *behind* the subtrees of smaller-key children of its anchor.
  After one uninterrupted run (an imported file, for instance) the same author's next insertion at any
  position shows at the end (`RunAlwaysAppends`); "ac" edited to "abc" reads "acb" (`MisplacedInsertion`).
  A replacement shows the requested text exactly when the displaced characters and the new middle commute
  (`ReplaceExact`), in particular when either is empty.
* With two or more slots, a waiter that reaches the head of the line because an earlier one was admitted
  is not notified: it can sleep beside enough free slots until the next release or timeout
  (`LostWakeup`). It never sleeps when no transfer is under way, and with one slot never beside a free one.
* Typing does not look at the operation limit that merging enforces: a document typed past it shows
  locally but cannot be merged elsewhere (`Recorded` in `CreatedReplicates` says exactly when it can).
* A comment promises that the full scan stays due at the same deadline after a targeted check. It does if
  and only if there is no backoff table (`TargetedDeadline`, example in `DeadlineMoves`); targeted checks
  cannot push it beyond the first delay plus its jitter, however many there are (`TargetsCannotPostpone`).
* The backoff after provider failures counts from the last full scan that succeeded. A failure makes the
  loop wait only while that delay is not over; 300 seconds after that scan, and after any failure at a
  delay of 300 seconds or more, the provider is asked again at once in every iteration (`RetryStorm`, `LongDelaysStorm`).
* While the provider baseline is unknown and no local change waits, a provider edit is swallowed: the next
  reading becomes the baseline and nothing ever reports the edit (`NoticedExactly`, `SwallowedForGood`).
* A full reading may be a listing kept for up to five seconds, and no transfer forgets it. An untouched,
  transferred path is, with known baselines, mentioned again if and only if a reading is a kept listing
  that shows it otherwise than it was read back (`MentionedExactly`, `EchoExactly`). Then an uploaded file can be reported deleted
  at the provider and the local one be removed although nobody touched it (`EchoDeletes`, `EchoHappens`).
  Once every kept listing is from after the transfer or shows the path so, it never is
  (`NoEchoOnceListingsAreOld`). The check before an upload compares the remembered state with that reading:
  a provider edit younger than the listing is not seen (`BlindExactly`), and can be deleted
  (`OldListingHidesEdit`).
* Making a job a streaming one stops its monitors and waits for them no longer than a timeout. A mount can
  be started beside an incremental run of the job if and only if a stopped monitor is in a run, holds a
  reading, or has yet to read in its last iteration while a young listing of the folder is kept
  (`OverlapExactly`, `StaleMonitorOverlaps`). Full and incremental runs never meet.
* A cancellation between the queue and the start of the run's process is lost and the run goes on
  (`CancelReachesExactly`, `CancelIsLost`).
* Offline calls for different paths may overlap. A failed hydration restores the lists it had found and
  wipes out what other calls asked for in between (`RollbackExactly`, `RollbackWipesOut`). As long as every
  rollback finds the rules as its own call had set them, the lists mean what was asked for
  (`OverlappingCallsRefine`).
* A release of an offline path that fails while removing pins or cached files has already changed the
  rules and leaves verified rules unconfigured (`FailedReleaseExactly`, `FailedReleaseShows`).
* The peer inspects delta transactions in any order and keeps refused ones. Two pending deltas can leave
  the older file (`OlderDeltaWins`), and a refused one can return in the place of a newer file
  (`RefusedReturns`). The last upload wins if and only if no other pending transaction with another
  content fits it (`LastUploadWins`). A manifest is not renewed by a full transfer or by the peer's own
  edits, so a delta can be refused although every upload succeeded (`StaleManifest`). The peer never
  installs anything but a signed file (`OnlyWholeVersions`).
* Reconfiguring a limit forgets what the byte clock was ahead, so the rate can be exceeded across a
  reconfiguration, and is exactly if the next caller would have waited (`RestartForgives`).
* `recent` with a limit below one still returns one event (`ReverseLines.Recent`).
* A read error ends the audit history silently. Compaction then keeps only the lines read so far: it loses
  lines it should keep if and only if reading failed before the limit was reached (`AuditTimeline.Compact`),
  even the event just recorded (`AuditTimeline.Record`).

## Model

| member | source | states |
|---|---|---|
| Decimal.ValueOfPad | src/tuxindrive/collaboration.py:131 | zero-padding a counter does not change the number it denotes |
| Decimal.IdInjective | src/tuxindrive/collaboration.py:128-133 | different (actor, counter) pairs have different operation identifiers |
| SiblingOrder.SiblingsInOrder | src/tuxindrive/collaboration.py:115-117 | of two characters behind the same one the first is the one with the smaller counter, then with the actor, then with the identifier that is spelt first |
| SiblingOrder.FirstNameFirst | src/tuxindrive/collaboration.py:144-152 | two authors each type one character: that of the author whose name is spelt first is shown first |
| SiblingOrder.IdsSortLikeCounters | src/tuxindrive/collaboration.py:131 | up to twenty digits the identifiers of an actor have one length and come in the order of the counters |
| TextOperations.LexBetween | src/tuxindrive/collaboration.py:115-117 | the paths between an anchor and a new child of it are exactly those through a smaller-key child |
| PathOrder.SortedUnique | src/tuxindrive/collaboration.py:135-155 | a set of characters has at most one listing in path order |
| OperationForest.RootPathUnique | src/tuxindrive/collaboration.py:135-141 | a character has at most one chain of parents to ROOT |
| OperationForest.Order | src/tuxindrive/collaboration.py:135-155 | in a forest: every insert exactly once, in lexicographic order of root paths, ancestors first |
| OrderedWalk.SortByKeyAscends | src/tuxindrive/collaboration.py:144-152 | the siblings come out strictly ascending by key |
| OrderedWalk.WalkStep | src/tuxindrive/collaboration.py:146-153 | popping a character and pushing its sorted children keeps listed and waiting characters in reading order |
| OrderedWalk.WalkEnd | src/tuxindrive/collaboration.py:146-155 | with an empty stack the list holds exactly the characters whose chain ends, in reading order |
| Walker.GroupByParent | src/tuxindrive/collaboration.py:136-140 | every insert is grouped once under its parent, or under ROOT when the parent is missing |
| Walker.NoRevisit | src/tuxindrive/collaboration.py:148-149 | popping a listed character proves the graph is no forest |
| Walker.StackEnd | src/tuxindrive/collaboration.py:154-155 | the final count is right exactly for forests, and then the list is the reading order |
| Walker.OrderedIds | src/tuxindrive/collaboration.py:135-155 | terminates; succeeds exactly when every chain ends and no insert is named ROOT; then returns the reading order |
| PreOrder.WalkCompletes | src/tuxindrive/collaboration.py:142-155 | at any point of the walk, what is listed followed by the recursive walk of the stack is the whole order |
| PreOrder.OrderIsPreOrder | src/tuxindrive/collaboration.py:135-155 | the reading order is the recursive key-sorted pre-order of the forest |
| Convergence.MergeExact | src/tuxindrive/collaboration.py:119-126 | a merge succeeds exactly when one dictionary can hold everything within the limit, and then it is that dictionary |
| Convergence.MergeAllFlat | src/tuxindrive/collaboration.py:119-126 | merging batch by batch equals merging all at once |
| Convergence.Converge | src/tuxindrive/collaboration.py:119-126 | the same operations in any order, grouping and repetition: both merges fail or both give equal documents |
| Convergence.OrderStable | src/tuxindrive/collaboration.py:135-155 | the order of a sub-document is the larger order without the other characters |
| Convergence.MergeOfReplicas | src/tuxindrive/collaboration.py:119-155 | merging one replica into another fails exactly on a conflicting identifier or past the limit, else makes the union; of parent-closed forests that is a forest with both orders kept |
| Convergence.PartOfForest | src/tuxindrive/collaboration.py:135-155 | whatever part of a forest has arrived is a forest: it never fails to show |
| Editing.BeforeNewChar | src/tuxindrive/collaboration.py:165-175 | a new character follows exactly its anchor, what precedes the anchor, and the subtrees of smaller-key siblings |
| Editing.PlaceNewChar | src/tuxindrive/collaboration.py:165-175 | a new character splits the old order in two and stands between the parts |
| Editing.PlaceWord | src/tuxindrive/collaboration.py:165-175 | a typed word stays together and lands at that place |
| Editing.TypingLaw | src/tuxindrive/collaboration.py:165-175 | the word appears unbroken at the position plus the number of visible characters it overtakes |
| Replacing.DeletesMerge | src/tuxindrive/collaboration.py:177-181 | recording deletions fails exactly past the operation limit |
| Replacing.DeletesKeepOrder | src/tuxindrive/collaboration.py:157-159 | deletions change neither order nor paths |
| Replacing.DeletingLaw | src/tuxindrive/collaboration.py:177-181 | deleting a slice removes exactly that slice from what is visible |
| Replacing.TypedText | src/tuxindrive/collaboration.py:161-175 | the text after typing is the old text with the word at the slot of the typing law |
| Replacing.AppendExact | src/tuxindrive/collaboration.py:165-175 | typing at the end shows old text followed by the word, in every document |
| Replacing.ReplacedText | src/tuxindrive/collaboration.py:183-193 | what a replacement shows: the displaced characters slip in front of the new ones |
| Replacing.ReplaceExact | src/tuxindrive/collaboration.py:183-193 | the requested text is shown exactly when displaced characters and new middle commute; always when the middle, the common suffix or the displaced part is empty |
| TypedRuns.RunAlwaysAppends | src/tuxindrive/collaboration.py:165-175 | after one run the same author's next word shows at the end, wherever it was typed |
| TypedRuns.RunEditExact | src/tuxindrive/collaboration.py:165-175 | such an edit is where it was typed exactly when it commutes with the rest of the run |
| TypedRuns.MisplacedInsertion | src/tuxindrive/collaboration.py:183-193 | "ac" with "b" inserted in the middle reads "acb" |
| TypedRuns.CaughtUpIsFresh | src/tuxindrive/collaboration.py:109-113 | with canonical identifiers a caught-up counter makes unused ones if and only if no operation refers to one yet to be made |
| TypedRuns.MergeKeepsEditable | src/tuxindrive/collaboration.py:119-126 | a merge keeps a document editable if and only if what it received is harmless and the whole is a forest |
| CollaborativeText.CreatedReplicates | src/tuxindrive/collaboration.py:119-133 | a replica that merges the typed operations reaches the same document if and only if that is within the limit or nothing was typed |
| CollaborativeText.TextCRDT.constructor | src/tuxindrive/collaboration.py:109-113 | an empty document, ready for exact edits |
| CollaborativeText.TextCRDT.Load | src/tuxindrive/collaboration.py:109-113 | loads exactly the mergeable operations; with canonical identifiers the document is editable if and only if it is a forest of single characters without references to identifiers yet to be made |
| CollaborativeText.TextCRDT.CatchUp | src/tuxindrive/collaboration.py:113 | the counter becomes the largest own counter, 0 without one |
| CollaborativeText.TextCRDT.MergeOperations | src/tuxindrive/collaboration.py:119-126 | the merge, failures included; an editable document stays so exactly under harmless operations that keep it a forest |
| CollaborativeText.TextCRDT.TakeOperations | src/tuxindrive/collaboration.py:119-126 | the loop is the merge function, failures included |
| CollaborativeText.TextCRDT.VisibleIds | src/tuxindrive/collaboration.py:157-159 | the reading order without deleted characters, failing exactly on non-forests |
| CollaborativeText.TextCRDT.GetText | src/tuxindrive/collaboration.py:161-163 | the characters of the visible identifiers, in order |
| CollaborativeText.TextCRDT.TypeBehind | src/tuxindrive/collaboration.py:169-175 | one chained operation per character; the counter grows by their number |
| CollaborativeText.TextCRDT.InsertText | src/tuxindrive/collaboration.py:165-175 | clamps the position, types there, meets the typing law; the returned operations reproduce the document elsewhere within the limit |
| CollaborativeText.SliceExactly | src/tuxindrive/collaboration.py:178 | a slice holds exactly the positions from start up to end that exist |
| CollaborativeText.TextCRDT.DeleteText | src/tuxindrive/collaboration.py:177-181 | removes exactly the clamped slice, or fails at the limit |
| CollaborativeText.TextCRDT.ReplaceBounds | src/tuxindrive/collaboration.py:184-190 | longest common prefix, then longest common suffix that does not reach into it |
| CollaborativeText.TextCRDT.ReplaceText | src/tuxindrive/collaboration.py:183-193 | the document after a replacement, the exact relation of its text to the requested one, and returned operations that reproduce it elsewhere within the limit |
| Replicas.TypingMakes | src/tuxindrive/collaboration.py:165-175 | typing adds to all operations ever made only own, canonical ones and keeps the whole a forest |
| Replicas.MergeWithin | src/tuxindrive/collaboration.py:119-126 | a merge of operations made somewhere, even one that stops half-way, holds only operations made somewhere |
| Replicas.StepKeeps | src/tuxindrive/collaboration.py:106-193 | typing, removing, saving, exchanging what is saved, and restarting from it keep every device within what was made, with counters not behind |
| Replicas.EveryReplicaStaysEditable | src/tuxindrive/collaboration.py:106-193 | in every run, with operations arriving in any portions and order and with crashes that lose unsaved ones, every device keeps a document on which all edit laws hold |
| Replicas.FreshExactly | src/tuxindrive/collaboration.py:109-113 | a device makes unused identifiers if and only if its counter is not behind any operation it ever made |
| Replicas.ReplicasAgreeOnOrder | src/tuxindrive/collaboration.py:135-155 | two parent-closed devices read their common characters in one order |
| Replicas.ReceivingAllConverges | src/tuxindrive/collaboration.py:119-126 | once everything is saved, every device that receives all of it shows one and the same text |
| MonitorSteps.Diff | src/tuxindrive/callbacks.py:80-87 | exactly the paths whose state differs, flagged deleted when absent now |
| MonitorAnswers.ReportsWhatWasObserved | src/tuxindrive/callbacks.py:600-630 | after a listing exactly the paths that differ are reported, after events exactly the touched ones that do, else none |
| MonitorAnswers.RemembersWhatWasObserved | src/tuxindrive/callbacks.py:604-758 | afterwards each path is remembered as it was observed, or as read after its download |
| MonitorAnswers.AskedExactly | src/tuxindrive/callbacks.py:643-692 | the provider is asked if and only if a path is open, the full scan or a recovery look is due; what a failure defers and how it stretches the delay |
| MonitorAnswers.ScanExactly | src/tuxindrive/callbacks.py:416-459 | a full scan serves a kept listing for five seconds, else the provider's answer, and fails if and only if there is neither |
| MonitorAnswers.ReadsExactly | src/tuxindrive/callbacks.py:650-692 | when a targeted check is tried, what it reads, and when a failure is followed by one more scan |
| MonitorAnswers.DecidesExactly | src/tuxindrive/callbacks.py:706-729 | when open paths are left to the full reconciliation, when they are applied and when nothing happens |
| MonitorAnswers.RescanReconciles | src/tuxindrive/callbacks.py:604-642 | after an overflow or a change of directories everything is left to the full reconciliation |
| MonitorAnswers.BaselineExactly | src/tuxindrive/callbacks.py:693-768 | the baseline stays known if and only if every uploaded file was read back; what it then shows, and what counts as a scan |
| MonitorAnswers.RecoveryExactly | src/tuxindrive/callbacks.py:714-776 | when a recovery look is set, kept and dropped |
| MonitorAnswers.BackoffExactly | src/tuxindrive/callbacks.py:696-775 | the position in the backoff table and the delay after each reading |
| MonitorAnswers.QuietRunBacksOff | src/tuxindrive/callbacks.py:769-775 | after n readings that find nothing the delay is the n-th next entry of the table, or the last |
| MonitorRuns.StepConsistent | src/tuxindrive/callbacks.py:631-767 | deferred deletion flags agree with the current snapshots; an unknown baseline defers nothing remote |
| MonitorRuns.SettleConserves | src/tuxindrive/callbacks.py:706-768 | what a settled iteration leaves open is exactly what it defers |
| MonitorRuns.StepConserves | src/tuxindrive/callbacks.py:600-768 | each reported path is applied, reconciled, dropped by mode, or still deferred; nothing else is deferred |
| MonitorSafety.StepGuarded | src/tuxindrive/callbacks.py:643-729 | a two-way transfer has disjoint sides, a known baseline, and for each local path a provider state equal to the remembered one, answered in this iteration or by a listing at most five seconds old |
| MonitorSafety.StepExact | src/tuxindrive/callbacks.py:724-729 | a transfer moves all open changes of the permitted directions; only forbidden directions are dropped |
| MonitorSafety.RunSafe | src/tuxindrive/callbacks.py:585-776 | conservation, flags, guarded and exact transfers over every run |
| MonitorSafety.StartSafe | src/tuxindrive/callbacks.py:528-583 | the start state satisfies them; the startup difference is deferred |
| MonitorEcho.StepQuiet | src/tuxindrive/callbacks.py:585-776 | a settled, untouched path that the reading shows as it was read back is neither reported nor transferred nor deferred |
| MonitorEcho.MentionedExactly | src/tuxindrive/callbacks.py:422-705 | with a known baseline an iteration mentions a settled, untouched path if and only if its reading is a kept listing that shows it otherwise |
| MonitorEcho.EchoExactly | src/tuxindrive/callbacks.py:585-776 | over every run with known baselines such a path is never mentioned if and only if no reading shows it otherwise than it was read back |
| MonitorEcho.NoEcho | src/tuxindrive/callbacks.py:729-768 | after a successful transfer an untouched path is never mentioned as long as no kept listing shows it otherwise, also when the read-back failed; with known baselines that is the exact condition |
| MonitorEcho.NoEchoOnceListingsAreOld | src/tuxindrive/callbacks.py:422-705 | it is never mentioned once every listing served is from after the transfer or shows it so |
| MonitorEcho.StaleBaselineEchoes | src/tuxindrive/callbacks.py:696-705 | with an unknown baseline an old listing becomes the baseline silently, and the next listing reports the path |
| MonitorEcho.EchoDeletes | src/tuxindrive/callbacks.py:415-459 | a new file is uploaded, another one saved within five seconds: the kept listing has the untouched first one deleted here |
| MonitorEcho.EchoHappens | src/tuxindrive/callbacks.py:415-459 | such a run exists from the empty folder |
| MonitorEcho.ReadingTells | src/tuxindrive/callbacks.py:650-692 | a reading shows a path as the provider held it when it was asked or when the kept listing was made, or as remembered when a targeted check leaves it out |
| MonitorEcho.BlindExactly | src/tuxindrive/callbacks.py:707-729 | the state remembered for an uploaded path is the one at the provider if and only if the reading shows that one |
| MonitorEcho.OldListingHidesEdit | src/tuxindrive/callbacks.py:415-459 | a deletion within five seconds of the last listing is applied over a provider edit the listing does not show |
| MonitorEcho.NoticedExactly | src/tuxindrive/callbacks.py:696-722 | a provider difference is reported or reconciled if and only if the baseline was known, or local changes wait in two-way mode |
| MonitorEcho.SwallowedForGood | src/tuxindrive/callbacks.py:696-701 | with an unknown baseline and nothing waiting a provider edit becomes the baseline and is never mentioned |
| MonitorSchedule.RunStaysIndexed | src/tuxindrive/callbacks.py:769-775 | over every run the backoff index stays inside the table |
| MonitorSchedule.RecoveryFollows | src/tuxindrive/callbacks.py:635-759 | after a reconciliation or transfer, an iteration ten seconds later reads the provider again |
| MonitorSchedule.RetryStorm | src/tuxindrive/callbacks.py:589-692 | 300 seconds after that scan a failing provider is asked in every iteration without waiting |
| MonitorSchedule.LongDelaysStorm | src/tuxindrive/callbacks.py:677-692 | a failure at a delay of 300 seconds or more shortens it and starts that at once |
| MonitorSchedule.TargetedDeadline | src/tuxindrive/callbacks.py:652-775 | after a targeted check the full scan stays due at the same time for every jitter if and only if there is no backoff table |
| MonitorSchedule.DeadlineMoves | src/tuxindrive/callbacks.py:652-775 | one saved file moves the full scan from 300 to 60 seconds |
| MonitorSchedule.TargetsCannotPostpone | src/tuxindrive/callbacks.py:652-775 | over any run of targeted checks the full scan stays due at the old time or within the first delay plus its jitter |
| MonitorLoop.ChangeMonitor.constructor | src/tuxindrive/callbacks.py:528-583 | the start state, with everything a run keeps |
| MonitorLoop.ChangeMonitor.WriteStates | src/tuxindrive/callbacks.py:614-619 | the loop writes each state and removes missing paths |
| MonitorLoop.ChangeMonitor.RemoteSnapshot | src/tuxindrive/callbacks.py:416-459 | a kept listing of at most five seconds, else a new one, which is kept |
| MonitorLoop.ChangeMonitor.ObserveLocal | src/tuxindrive/callbacks.py:600-634 | the new local snapshot and the deferred changes overlaid by the new ones |
| MonitorLoop.ChangeMonitor.SettleReading | src/tuxindrive/callbacks.py:693-776 | the rest of an iteration that read the provider |
| MonitorLoop.ChangeMonitor.ReadBack | src/tuxindrive/callbacks.py:736-752 | uploaded paths are read back; a failure makes the baseline unknown |
| MonitorLoop.ChangeMonitor.Iterate | src/tuxindrive/callbacks.py:585-776 | one iteration is the step function, and keeps everything a run keeps |
| MonitorLoop.ChangeMonitor.RunLoop | src/tuxindrive/callbacks.py:585-776 | so does any number of iterations |
| TransferGate.StepKeeps | src/tuxindrive/bandwidth.py:188-212 | every step keeps the gate's invariant |
| TransferGate.EveryInterleaving | src/tuxindrive/bandwidth.py:188-212 | slots conserved, an exclusive holder alone, a sleeping first-in-line implies a holder, and with one slot no free slot |
| TransferGate.AdmissionIsFair | src/tuxindrive/bandwidth.py:194-198 | everyone earlier who still waits has a worse priority |
| GateRequests.RequestsAreKept | src/tuxindrive/bandwidth.py:188-197 | in every interleaving a waiting thread has the priority of its own request, and waits for or holds all slots or one as it asked |
| GateRequests.AdmittedInOrder | src/tuxindrive/bandwidth.py:192-198 | whoever is admitted asked for no worse priority than anyone left waiting, and for a better one than those who asked before |
| GateRequests.UrgentOvertakes | src/tuxindrive/bandwidth.py:192-198 | a later request of priority 0 is admitted before an ordinary one |
| TransferGate.LostWakeup | src/tuxindrive/bandwidth.py:191-212 | for each size of two or more: a run whose first-in-line sleeps beside enough free slots |
| TransferGate.OversleepingNeedsTwoSlots | src/tuxindrive/bandwidth.py:191-212 | such a run exists if and only if there are at least two slots |
| TransferGate.AdmissionGate.constructor | src/tuxindrive/bandwidth.py:111-132 | at least one slot, all free |
| TransferGate.AdmissionGate.LookAgain | src/tuxindrive/bandwidth.py:193-206 | one pass of the waiting loop: admitted, timed out or asleep |
| TransferGate.AdmissionGate.Arrive | src/tuxindrive/bandwidth.py:188-206 | joining the line and the first look |
| TransferGate.AdmissionGate.Release | src/tuxindrive/bandwidth.py:209-212 | slots are returned and everybody is woken |
| RateClock.ClockAhead | src/tuxindrive/bandwidth.py:242-249 | the clock is ahead of each earlier start by the bytes since |
| RateClock.RateBound | src/tuxindrive/bandwidth.py:238-252 | bytes of calls i to j-1 are at most the rate times the distance of the starts |
| RateClock.StartIsExact | src/tuxindrive/bandwidth.py:242-252 | a start is not before its call, and waits no longer than some earlier call's bytes demand |
| RateClock.RestartForgives | src/tuxindrive/bandwidth.py:134-160 | after a reconfiguration the next caller starts at once; the rate holds across it if and only if that caller would not have waited |
| RateClock.Throttle.Reserve | src/tuxindrive/bandwidth.py:238-252 | books one direction, returns the sleep; unlimited directions book nothing |
| BandwidthLimits.NormalizedParts | src/tuxindrive/bandwidth.py:17-31 | an accepted limit has a parsable rate in each direction |
| LimitReadings.ParsesExactly | src/tuxindrive/bandwidth.py:13-30 | accepted are exactly off in any case, digits with an optional fraction, and those with a unit |
| LimitReadings.ReadsAmount | src/tuxindrive/bandwidth.py:14-47 | an amount counts KiB, or powers of 1024 by its unit in either case |
| LimitReadings.DecimalNumber | src/tuxindrive/bandwidth.py:44 | shifted by its decimals a fraction is the number its digits denote |
| LimitReadings.NormalizesExactly | src/tuxindrive/bandwidth.py:17-31 | accepted are exactly an empty text, one rate, and two rates with a colon between |
| LimitReadings.StripExactly | src/tuxindrive/bandwidth.py:19 | the space around a limit is dropped, and nothing else |
| BandwidthLimits.EffectiveIsMin | src/tuxindrive/bandwidth.py:50-77 | the combined text reads back as the per-direction minimum, off and empty being unlimited |
| BandwidthLimits.EffectiveOtherwise | src/tuxindrive/bandwidth.py:52-60 | what counts when a limit is missing or cannot be read |
| LimitReadings.EffectiveSpelling | src/tuxindrive/bandwidth.py:62-77 | each direction keeps the spelling of the limit it was taken from, the job's on a tie; alike ones are written once |
| BandwidthLimits.EffectiveAlgebra | src/tuxindrive/bandwidth.py:50-77 | combining is commutative, associative and idempotent up to rates |
| BandwidthLimits.PrintedBytesParse | src/tuxindrive/bandwidth.py:34-47 | a printed byte rate parses back to itself |
| BandwidthLimits.ProtectedMeans | src/tuxindrive/bandwidth.py:80-105 | the protected text reads back as the reduced rate in each direction |
| BandwidthLimits.ProtectedWithin | src/tuxindrive/bandwidth.py:80-105 | for every percentage and budget: the largest whole number of bytes with which all consumers stay within the rate minus 0 to 80 percent, but at least one |
| LimitReadings.ProtectedSpelling | src/tuxindrive/bandwidth.py:94-105 | a protected limit names one rate if and only if the limit does |
| BandwidthLimits.ConsumersStayWithin | src/tuxindrive/bandwidth.py:92-101 | n consumers at the protected rate use at most max(n, rate x (100 - headroom) / 100), and with one byte more each they would exceed it |
| OfflineRules.MaxCandidate | src/tuxindrive/nautilus_support.py:62 | the loop finds the most specific candidate, online-only winning ties |
| OfflineRules.IsAvailableOffline | src/tuxindrive/nautilus_support.py:48-62 | some offline rule matches and every matching online-only rule is less specific |
| OfflinePaths.MostSpecificDecides | src/tuxindrive/nautilus_support.py:43-62 | available exactly if some prefix of the path is an offline rule and no prefix as long or longer is an online-only rule |
| OfflinePaths.ForeignRule | src/tuxindrive/nautilus_support.py:43-45 | a rule for a path beside or below has no say |
| OfflineRules.KeepOfflineMeans | src/tuxindrive/engine.py:1357-1372 | keeping a path offline sets exactly its subtree |
| OfflineRules.ReleaseMeans | src/tuxindrive/engine.py:1405-1416 | releasing a path clears exactly its subtree |
| OfflinePaths.KeepsSubtree | src/tuxindrive/engine.py:1357-1372 | a kept path and every continuation of it is available |
| OfflinePaths.ReleasesSubtree | src/tuxindrive/engine.py:1405-1416 | a released path and every continuation of it is not |
| OfflinePaths.LeavesTheRest | src/tuxindrive/engine.py:1357-1416 | a path that is shorter or parts from that one keeps its answer |
| OfflinePaths.ReleasesByRule | src/tuxindrive/engine.py:1415-1416 | a release leaves an online-only rule if and only if the folder around was available |
| OfflineRules.RulesRefineLastFlag | src/tuxindrive/engine.py:1346-1431 | after any calls one after another the lists mean the last word that changed them on each path, and are disjoint |
| OfflinePaths.LastCallDecides | src/tuxindrive/engine.py:1346-1431 | a path is available if and only if some call on it or on a folder around it made it so and no later one changed it |
| OfflineRules.SuccessfulCallsDecide | src/tuxindrive/engine.py:1346-1431 | calls one after another: as long as no release fails half-way that is the last successful call, and verified rules are configured |
| OfflineRules.FailedReleaseExactly | src/tuxindrive/engine.py:1405-1431 | a half-failed release is invisible if and only if nothing there was available, and harmless to the verified rules if and only if none was there |
| OfflineRules.FailedReleaseShows | src/tuxindrive/engine.py:1405-1431 | kept, then released in vain: unavailable without a successful release, and still verified |
| OfflineRules.VerifiedFollows | src/tuxindrive/nautilus_support.py:65-84 | a successful call verifies the path, or leaves nothing verified at or below it |
| OfflinePaths.VerifiedExactly | src/tuxindrive/nautilus_support.py:65-84 | exactly which paths are verified after a successful call |
| OfflineOverlap.ReportExactly | src/tuxindrive/app.py:6314-6323 | only a successful call changes the verified rules when it is heard of, and how |
| OfflineRules.OfflineJob.BeginOffline | src/tuxindrive/engine.py:1357-1416 | the lists found and the lists set at the beginning of a call |
| OfflineRules.OfflineJob.RollBack | src/tuxindrive/engine.py:1401-1404 | the lists found come back |
| OfflineRules.OfflineJob.SetOffline | src/tuxindrive/engine.py:1346-1431 | a call that no other overlaps: the new lists and the result; a failed hydration restores both lists, a failed removal does not |
| OfflineOverlap.OverlappingCallsRefine | src/tuxindrive/engine.py:1346-1431 | in every interleaving of calls on different paths the lists are disjoint, and mean what the calls asked for as long as each rollback finds the rules as its call had set them |
| OfflineOverlap.RollbackExactly | src/tuxindrive/engine.py:1401-1404 | a rollback leaves exactly what the other calls asked for if and only if the paths they spoke about are again as it found them and nothing taken back meanwhile reappears |
| OfflineOverlap.RollbackWipesOut | src/tuxindrive/app.py:6274-6290 | two calls overlap and the first one fails: the other path is unavailable although its call succeeded, and stays verified without a rule |
| JobAdmission.StepKeeps | src/tuxindrive/engine.py:1566-1578 | every critical section keeps the agreement of sets, queue and threads |
| JobAdmission.EveryInterleaving | src/tuxindrive/engine.py:1534-1671 | in every interleaving, mode changes included, a job is in one full run or mount start, in one incremental run, and never in a full and an incremental run; the queue's records agree; exactly jobs cancelled in the queue are skipped |
| JobAdmission.StartsWhenFree | src/tuxindrive/engine.py:1566-1572 | a start is accepted if and only if no thread of the job is under way |
| ModeChanges.WaitingModesNeverOverlap | src/tuxindrive/app.py:5177-5194 | when mode changes wait for the monitors, every job has at most one thread in every interleaving |
| ModeChanges.OverlapExactly | src/tuxindrive/app.py:5177-5194 | making a job a streaming one, after its monitors were stopped, can lead to a mount beside an incremental run if and only if one of them is in a run, holds a reading, or has yet to read while a young listing is kept |
| ModeChanges.StaleMonitorOverlaps | src/tuxindrive/engine.py:2005-2009 | a run begun before the mode change stands beside the mount start |
| ModeChanges.StoppedMonitorUsesListing | src/tuxindrive/callbacks.py:422-430 | a monitor stopped before it could read can still lead to the overlap if and only if a young listing is kept |
| LockedEngine.CancelDooms | src/tuxindrive/engine.py:1656-1662 | after a cancellation every queued run of the job is doomed |
| LockedEngine.CancelReachesExactly | src/tuxindrive/engine.py:1656-1671 | a cancellation reaches a run if and only if it is queued or has a registered process; any other is unaffected |
| LockedEngine.CancelIsLost | src/tuxindrive/engine.py:1628-1671 | a run cancelled between leaving the queue and starting its process goes on |
| LockedEngine.SyncEngine.RunAsync | src/tuxindrive/engine.py:1566-1578 | starts exactly when no thread of the job is under way; all records appear together |
| LockedEngine.SyncEngine.StartMount | src/tuxindrive/engine.py:1548-1557 | starts exactly when the job is neither active nor mounted |
| LockedEngine.SyncEngine.BeginIncremental | src/tuxindrive/engine.py:2046-2053 | starts exactly when no thread of the job is under way |
| LockedEngine.SyncEngine.Unqueue | src/tuxindrive/engine.py:1629-1633 | the records of the queue forget the job together |
| LockedEngine.SyncEngine.LeaveQueue | src/tuxindrive/engine.py:1628-1635 | all records disappear together; the work is skipped exactly when the job was cancelled in the queue |
| LockedEngine.SyncEngine.CloseRun | src/tuxindrive/engine.py:1646-1654 | nothing of the job is left behind |
| LockedEngine.SyncEngine.CloseMount | src/tuxindrive/engine.py:1605-1607 | the mount start is over |
| LockedEngine.SyncEngine.EndIncremental | src/tuxindrive/engine.py:2057-2059 | the incremental run is over |
| LockedEngine.SyncEngine.Register | src/tuxindrive/engine.py:2498 | a process is registered for a running thread |
| LockedEngine.SyncEngine.Forget | src/tuxindrive/engine.py:2674 | the process is forgotten and the job has none left |
| LockedEngine.SyncEngine.Cancel | src/tuxindrive/engine.py:1656-1671 | marks queued jobs only; the answer tells whether something is stopped |
| CacheEviction.PinnedPaths | src/tuxindrive/cache_manager.py:43-70 | all listed paths, or nothing when one marker or entry is doubtful |
| CacheEviction.PinsKnownExactly | src/tuxindrive/cache_manager.py:50-66 | known exactly if every marker can be read and lists no empty, absolute or ".." path |
| CacheEviction.PinnedHoweverSpelled | src/tuxindrive/cache_manager.py:57-65 | however a pin is spelled, it protects exactly the file with those components |
| CacheEviction.Collect | src/tuxindrive/cache_manager.py:90-119 | exactly the eligible files, the total of all files, and both counts of skipped ones |
| CacheEviction.TotalAdds | src/tuxindrive/cache_manager.py:105 | the total is the sum of the sizes of all files, pinned or not |
| CacheEviction.CountsExactly | src/tuxindrive/cache_manager.py:96-119 | how many items are counted as pinned and as uncertain |
| CacheEviction.OldestFirstSorts | src/tuxindrive/cache_manager.py:128 | oldest first, a permutation of the candidates |
| CacheEviction.EvictionAscends | src/tuxindrive/cache_manager.py:128 | the last uses never fall from one candidate to the next, on a tie the sizes, then the paths |
| CacheEviction.Evict | src/tuxindrive/cache_manager.py:126-152 | takes the cleared part of the shortest prefix that reaches the need; what was planned, and that every other candidate looked at is counted as uncertain |
| CacheEviction.Enforce | src/tuxindrive/cache_manager.py:72-161 | takes nothing when the limit is off or anything is unknown, else that prefix; every field of the report |
| CacheEviction.EvictionIsSafe | src/tuxindrive/cache_manager.py:102-143 | a removed file was listed with that size and use and, on both looks, not pinned, without write-back record and, when mounted, unused for the inactivity time and at least a minute |
| CacheEviction.OldestGoFirst | src/tuxindrive/cache_manager.py:128 | no kept candidate that could have gone was used before a removed one, or at the same time and is smaller |
| CacheEviction.EvictionIsMinimal | src/tuxindrive/cache_manager.py:127-152 | the need is met with an overshoot smaller than the last file, or everything that could go went |
| CacheEviction.ShortfallTakesAll | src/tuxindrive/cache_manager.py:128-150 | if the need is not met, every file that both looks allow to go has gone |
| CacheEviction.ShortestIsUnique | src/tuxindrive/cache_manager.py:127-152 | only one set of files is such a prefix |
| CacheEviction.PlanIsWhatIsRemoved | src/tuxindrive/cache_manager.py:163-176 | when no removal fails the recommendation is exactly what enforcement removes |
| CacheEviction.UndisturbedEviction | src/tuxindrive/cache_manager.py:127-152 | when nothing changes between the looks, a shortest prefix of the sorted candidates goes |
| ReverseLines.BlockStep | src/tuxindrive/audit.py:25-33 | the lines behind a block's first piece are final |
| ReverseLines.ReverseFileLines | src/tuxindrive/audit.py:17-37 | for every file and block size: the non-empty lines reversed; a prefix of them when a read fails |
| ReverseLines.Recent | src/tuxindrive/audit.py:73-85 | the newest matching events, up to the limit but at least one |
| ReverseLines.MatchingNext | src/tuxindrive/audit.py:76-84 | line by line: an event counts if the line parses and the event belongs to the job asked for |
| ReverseLines.CompactionKeepsNewest | src/tuxindrive/audit.py:121-132 | reading the compacted file gives the newest lines, unchanged and in order |
| ReverseLines.AppendedIsNewest | src/tuxindrive/audit.py:66-67 | an appended event is the newest line and changes no other |
| ReverseLines.RecentAfterCompaction | src/tuxindrive/audit.py:73-132 | recent events after a compaction are a prefix of those before, and equal exactly when the limit is reached or nothing matching was dropped |
| ReverseLines.AuditTimeline.constructor | src/tuxindrive/audit.py:56-59 | an empty timeline that keeps at least 100 lines |
| ReverseLines.AuditTimeline.RecentEvents | src/tuxindrive/audit.py:73-85 | the newest matching events of the file; a prefix of them when a read fails |
| ReverseLines.AuditTimeline.Compact | src/tuxindrive/audit.py:121-136 | the history becomes the newest of the lines that could be read; nothing it should keep is lost if and only if the limit was reached or everything was read |
| ReverseLines.AuditTimeline.Record | src/tuxindrive/audit.py:61-71 | the event becomes the newest line; beyond 5 MiB only the newest lines remain that could be read |
| BlockDelta.Signatures | src/tuxindrive/delta.py:21-28 | the reading loop yields the block signatures |
| BlockDelta.SignaturesTile | src/tuxindrive/delta.py:21-28 | every signature describes its bytes, and every byte has exactly one |
| BlockDelta.UnsentMeans | src/tuxindrive/delta.py:31-33 | a block is unsent exactly when the earlier file has the same whole block there |
| BlockDelta.TransferCounts | src/tuxindrive/delta.py:36-37 | the transferred bytes are the number of bytes in changed blocks |
| BlockDelta.WriteBlocks | src/tuxindrive/engine.py:1494-1497 | one file per changed block, holding its bytes, and no other |
| BlockDelta.Prepare | src/tuxindrive/engine.py:1485-1506 | the transaction sent for a source and the last manifest, and the new manifest |
| BlockDelta.ApplyDelta | src/tuxindrive/peer.py:1100-1165 | the peer's limits, bounds, block and file checks around laying blocks over its file |
| DeltaChecks.AcceptsExactly | src/tuxindrive/peer.py:1100-1165 | any transaction on any file is installed if and only if it keeps the limits, every block is within bounds and intact, and the file laid byte by byte has the digest named |
| DeltaChecks.RefusesExactly | src/tuxindrive/peer.py:1105-1156 | the limits, then the first bad block, then the digest decide the error |
| BlockDelta.ReconstructsExactly | src/tuxindrive/peer.py:1100-1165 | a delta is installed if and only if it is within the limits and the base agrees wherever nothing was sent |
| BlockDelta.ManifestFits | src/tuxindrive/engine.py:1481-1486 | with a manifest of the peer's file the base always agrees |
| BlockDelta.NoManifestFits | src/tuxindrive/engine.py:1481-1486 | without a manifest everything is sent, so any base agrees |
| BlockDelta.OnlyWholeVersions | src/tuxindrive/peer.py:1008-1029 | over every run of uploads, damage, inspections in any order, retries, full transfers and edits the peer's file is some whole version |
| BlockDelta.LastsExactly | src/tuxindrive/peer.py:1008-1029 | an installed version lasts under every order of inspections if and only if no pending transaction with another content fits it |
| BlockDelta.LastUploadWins | src/tuxindrive/peer.py:1008-1029 | so does the last upload, whenever it is its turn |
| BlockDelta.RefusedReturns | src/tuxindrive/peer.py:1008-1032 | a refused delta replaces a later full transfer if and only if it fits it |
| BlockDelta.OlderDeltaWins | src/tuxindrive/peer.py:1008-1029 | two deltas inspected in the other order leave the older file |
| BlockDelta.DeltasFollow | src/tuxindrive/peer.py:1008-1029 | with one delta at a time in the directory, the peer has or is about to get exactly what was uploaded last |
| BlockDelta.StaleManifest | src/tuxindrive/engine.py:2170-2175 | after a full transfer a delta is refused although uploaded, stays, and later puts its old content in the place of a newer file |

## Left out

- Actor validation, the checks of `from_dict`, the workspace directory, presence, reviews and the ODF adapters: single-character inserts and colon-free actors are assumed where a law needs them.
- Replicas.EveryReplicaStaysEditable: every operation is made by one of the devices; a device saves its operations so that what one of them refers to is saved first, and a restart finds all it saved. Files written by anything else are not modelled.
- Timestamps of operations come from a clock function of the counter; two replicas never share an actor and counter.
- Change lists are maps from path to deletion flag, so the order of the list handed to apply is not modelled.
- Who else lists a folder, and when its kept listing is forgotten, are inputs; a change of rclone options, excluded patterns or remote counts as forgetting it.
- The local polling deadline, the number of known files, stop requests and thread lifetimes are inputs or absent; Unicode spelling and exclusions are assumed canonical.
- A failing read-back after an upload may have written any subset of the refreshed states; the model lets the environment choose it.
- Edits that race between a transfer and the following state read: the echo properties speak of paths left untouched.
- BandwidthLimits.EffectiveIsMin: a zero rate counts as the slowest one, as in the code; the throttle treats it as unlimited, and that difference is not related here.
- Float rounding: rates, delays and shares are exact reals; digits, letter case and space are ASCII.
- The control-plane and interactive locks, and rclone's own process limits.
- OfflineRules.IsAvailableOffline: rules and paths are component sequences, so spellings such as a doubled or trailing slash are not modelled.
- OfflineOverlap.OverlappingCallsRefine: setting the lists at the beginning of a call is one step; what overlapping calls do to verified rules is shown by example only (`RollbackWipesOut`).
- OfflineRules.OfflineJob.SetOffline: the rule lists and the outcome only; hydration and the removal of pins and cached files are oracles; the empty and the absolute path are not modelled.
- LockedEngine.SyncEngine.RunAsync: the log path, the callback and the refusal of provider mounts are not modelled.
- Waiting for a slot is one step there; the gate itself is TransferGate.
- CacheEviction.Enforce: the directory clean-up afterwards, and other processes beyond what the second look sees; path comparison is any strict total order.
- Decoding with replacement and parsing are functions of the line; decoding is assumed to be idempotent and to keep lines whole.
- ReverseLines.AuditTimeline.Record: an event is one line of proper text; a file whose last line is unfinished is not modelled.
- BlockDelta.ApplyDelta: signer authorization, path confinement and the atomic replacement are not modelled; digests are injective where a law needs it.
- A source that changes while it is being read for a delta.
- Foreign processes, the user interface, inotify, encryption, configuration, GitHub and Proton integration, and the small helpers around them.
