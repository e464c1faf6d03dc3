# Verification of the Holonight file manager

This project models the parts of the Holonight file manager in which state, failure and two threads meet, and proves
what they promise. It has four groups.

**Copy, move and trash over a filesystem.** `World` is a kernel: a tree of directories, files, links and special
files, each with a device and an inode number. Every call may be refused with any errno, reads and writes may be
short, finitely many are interrupted, and the cancel flag may be raised at any check. Looking up, listing and removing
are refused only at an arbitrary set of `troubled` paths, so that it can be said what a failed removal leaves. The
kernel keeps a ghost record of every state the disk passes through, and of the entries whose times, mode, sync and
close were done. In an `undisturbed` kernel no call is refused and nobody cancels: there the contracts say exactly
when an operation is complete, and what a merge skips, reports and copies. `CopyService`, `MoveService` and
`TrashService` run the program's loops over that kernel, and their contracts speak of *every* recorded state: nothing
that existed is touched, what is new is a staging temporary or a full copy of its source entry, a move loses neither
an entry of the source nor what it overwrites before the full copy is in its place, a trashed payload always has its
record. `Names` models the chain of `QString::arg` calls behind "name (2).ext" and says exactly for which names it
yields that, and that the search for a free name ends for all. `TaskWorker` adds the loops over the sources of a task,
decided as the user answers, and says through which states the disk passes in all.

**The task queue, prompt and cancel protocol.** `TaskProtocol` is a state machine whose steps are the accesses of the
GUI thread and of the worker thread to the shared flag, semaphore, answer cell and prompt counter, with a FIFO of
deliveries from the worker to the GUI. Its invariant holds after every interleaving. `TaskRuns` follows every task
from the request to its start, or to the step that gives it up. `TaskOutcomes` says what the user's word does to the
running job and that a job goes through all its items. `TaskManager` is the object with the program's fields; each of
its methods is proved to be the corresponding step.

**The listing and the edit lock.** `Listing` says what a load and a refresh make of the rows. `DirectoryModel` is the
object that applies batches of a walk, with its in-place diff and its backwards removal loop. `DirectoryRuns` runs it
through loads, refreshes, suspensions and late deliveries in any order. `ProxyOrder` is the comparison that puts the
placeholder of a new entry next to its anchor. `VimMode`, `Editing` and `EditingSession` are the modes, the edit lock
and the search results; `EditingOutcomes` tells from the steps of a run what it leaves behind.

**History, places and persisted state.** `JumpList` and `Navigation` are the history and what is displayed, `Places`
the sidebar and its background checks, `Toml` and `State` the content of the state file and how it reads, `StateFile`
its atomic replacement on the disk.

Paths are sequences of names (`Paths`). What the program takes from code that is not part of this model is a
parameter: the fuzzy matcher, the comparison of names, the cleaning of a path, the test for a directory.

## Results that say where the program does not keep a promise

- `Names.NamesExactly`: the numbered names read "stem (n).ext" exactly when the stem carries no place marker numbered 3 or
  less. `Names.MarkerInStemIsReplaced` is a short case: pasting over an entry named `%2` first tries `2 (2)`.
- `TrashService.PairedAfter`: payloads and records of a trash directory stay paired exactly when the trashed entry was
  not itself a payload, a record or the record directory of that trash directory.
- `Editing.CommitSearchNeedsSearch`, `Editing.CancelSearchNeedsNoInsert` and `Editing.CancelInsertNeedsNoSearch`: three
  operations do not check the mode; over the states that runs reach, each keeps the edit lock and the search results
  in step exactly in the modes its lemma names (`Editing.CommittedRun` and `Editing.SearchRun` are the runs for the others). The runs of `Editing.RunStaysInStep` call them where the window does: from the text field of
  their own mode.

## Model

| member | source | states |
|---|---|---|
| `CopyService.WriteChunk` | apps/files/operations/file_operation_service.cpp:175-194 | writes a chunk through short writes and interruptions; at every moment the staged file is a prefix of the source, and on completion it has grown by exactly the chunk |
| `CopyService.WriteOnce` | apps/files/operations/file_operation_service.cpp:183-191 | one write call grows the staged file by exactly what was taken, and by nothing when it fails |
| `CopyService.StreamFile` | apps/files/operations/file_operation_service.cpp:196-218 | under any short reads, short writes and interruptions the staged file is at every moment a prefix of the source; a complete result means it equals the source; undisturbed it is complete |
| `CopyService.DropTemporary` | apps/files/operations/file_operation_service.cpp:151-152 | removing the temporary after a failure gives back the state before, unless the removal itself is refused |
| `CopyService.RenameTemporary` | apps/files/operations/file_operation_service.cpp:145-150 | the rename of a commit: the temporary has become the destination, or nothing has happened; undisturbed it fails only if something stands in the way |
| `CopyService.CommitTemporary` | apps/files/operations/file_operation_service.cpp:142-157 | the finished temporary becomes the destination in one step, replacing only an overwritten leaf; otherwise it is removed and nothing has changed |
| `CopyService.CopySymlink` | apps/files/operations/file_operation_service.cpp:159-173 | a link is copied as a link with the same target; a target that fills the buffer is refused |
| `CopyService.OpenSource` | apps/files/operations/file_operation_service.cpp:222-233 | opens exactly the file that was looked up; one whose identity or type changed is refused |
| `CopyService.CopyRegularFile` | apps/files/operations/file_operation_service.cpp:220-241 | a file whose identity changed since it was looked up is not copied; otherwise the outcome is that of a copy, complete when undisturbed and the destination is free |
| `CopyService.FillAndCommit` | apps/files/operations/file_operation_service.cpp:242-259 | stream, set metadata, sync, close, commit: each state on the way is faithful, each failure removes the temporary, and what is committed is finished |
| `CopyService.FinishFile` | apps/files/operations/file_operation_service.cpp:244-253 | a complete result means that times and mode were set, the contents as they stand were brought to the disk and the file was closed without an error; a call that fails turns a complete result into a failure and leaves any other alone |
| `CopyService.FinishDirectory` | apps/files/operations/file_operation_service.cpp:330-337 | a directory that was made has its times and its mode, or is reported |
| `CopyService.CopyListed` | apps/files/operations/file_operation_service.cpp:295-338 | the children, and then the times and the mode of a directory that was made |
| `CopyService.PrepareDestinationDirectory` | apps/files/operations/file_operation_service.cpp:266-280 | merges into an existing directory only when overwriting, else makes exactly one new directory |
| `CopyService.DestinationExists` | apps/files/operations/file_operation_service.cpp:392-395 | a positive answer means the entry is there; undisturbed a negative one means it is not; a refused lookup reads as absent |
| `CopyService.CopyChild` | apps/files/operations/file_operation_service.cpp:312-328 | a child whose name is taken is skipped and recorded, any other is copied; the directory stays accounted for, and undisturbed exactly: this child alone is recorded if its name is taken, and otherwise all below it that can be copied is |
| `CopyService.CopyNext` | apps/files/operations/file_operation_service.cpp:295-311 | one turn of the directory loop: end, read error, cancellation or a child, each with the outcome it must have |
| `CopyService.ListingEnds` | apps/files/operations/file_operation_service.cpp:295-303 | at the end of the listing all children are dealt with, and a listing that fails is recorded |
| `CopyService.CopyChildren` | apps/files/operations/file_operation_service.cpp:295-329 | the whole loop keeps every state faithful and ends in a copy outcome, undisturbed in the exact one |
| `CopyService.CopyContents` | apps/files/operations/file_operation_service.cpp:289-338 | the listing, the children and the metadata of a directory whose destination is there |
| `CopyService.CopyDirectoryTree` | apps/files/operations/file_operation_service.cpp:282-338 | a directory is copied child by child with nested skips; the recursion ends because the source below shrinks |
| `CopyService.CopyEntryImpl` | apps/files/operations/file_operation_service.cpp:340-362 | dispatches on the type of the source; undisturbed the result is exact for whatever is below it |
| `CopyService.CopyLeaf` | apps/files/operations/file_operation_service.cpp:351-361 | links, files and special files: the last are refused and nothing is changed |
| `CopyService.DestinationWithinSource` | apps/files/operations/file_operation_service.cpp:90-110 | walking up from the destination to the first existing ancestor decides exactly whether the destination lies inside the source |
| `CopyService.ValidateEndpoints` | apps/files/operations/file_operation_service.cpp:112-135 | what passes is a source that is no directory containing the destination; each refusal names its reason truthfully; undisturbed exactly the allowed endpoints pass |
| `CopyService.CopyEntry` | apps/files/operations/file_operation_service.cpp:409-420 | main result: with the cancel flag already up nothing is touched and the result is cancelled; every state of the disk on the way is faithful; the result accounts for every source entry; `destination_copies_exist` is true exactly when something at the destination changed; no temporary remains unless its removal was refused; a complete copy of a file has its times and mode and was brought to the disk; undisturbed, `skipped_children` holds exactly the children whose names were taken, `nested_failures` exactly what cannot be reproduced, and all the rest is copied, so that the copy is complete exactly when the endpoints are allowed, the destination is free for it, no name clashes and the source holds only what can be copied |
| `CopyService.CompleteMeansClean` | apps/files/operations/file_operation_service.cpp:409-420 | a complete copy shows that the destination was free, that no name clashed and that the source held only directories, files and links of admissible length |
| `CopyService.ChildFits` | apps/files/operations/file_operation_service.cpp:308-318 | a child whose name is free has a directory to be copied into |
| `TransferSpec.ChildMerges` | apps/files/operations/file_operation_service.cpp:316-328 | an exact result of a child leaves the directory exact: reports and copies below it are those of the child |
| `TransferSpec.SkipMerges` | apps/files/operations/file_operation_service.cpp:312-315 | a child is recorded as skipped exactly when its name was taken at the start |
| `TransferSpec.MergedIsExact` | apps/files/operations/file_operation_service.cpp:295-338 | when all children are dealt with the whole merge is exact |
| `TransferSpec.LeafIsExact` | apps/files/operations/file_operation_service.cpp:347-361 | a leaf that can be reproduced is copied, any other is reported and nothing is changed |
| `TransferSpec.TakenIsNotCopied` | apps/files/operations/file_operation_service.cpp:312-315 | what has a taken name is left alone, with all below it |
| `TransferSpec.SourceIntact` | apps/files/operations/file_operation_service.cpp:112-135 | once a destination inside the source is ruled out, no faithful state touches the source tree, even when the source lies below the merged destination |
| `TransferSpec.LiftFaithful` | apps/files/operations/file_operation_service.cpp:316-319 | what a child's copy does is, seen from the whole directory, still a faithful state |
| `TransferSpec.ChildDone` | apps/files/operations/file_operation_service.cpp:318-328 | taking a child's result in keeps every finished child copied or named as skipped or failed |
| `TransferSpec.ChildSkipped` | apps/files/operations/file_operation_service.cpp:312-315 | a skipped child is accounted for by its entry in `skipped_children` |
| `TransferSpec.ChildCancelled` | apps/files/operations/file_operation_service.cpp:322-325 | a cancellation inside a child ends the directory with a truthful outcome |
| `TransferSpec.DirectoryDone` | apps/files/operations/file_operation_service.cpp:295-303 | at the end of the listing, or when it fails and the directory is recorded, every source entry is accounted for |
| `TransferSpec.CommitOutcome` | apps/files/operations/file_operation_service.cpp:142-157 | the state after a commit is the outcome of a copy of one leaf |
| `TransferSpec.ChildSeparate` | apps/files/operations/file_operation_service.cpp:316-318 | copying a child never becomes a copy of a directory into itself |
| `MoveService.RemoveDirectoryRecursively` | apps/files/operations/file_operation_service.cpp:34-74 | best effort: whatever set of paths the system refuses to look up, list or remove, nothing is left but what is at, below or above one of them; keeps the first errno; only entries at or below the path disappear, at every moment; success means all have; undisturbed it succeeds |
| `MoveService.RemoveChildren` | apps/files/operations/file_operation_service.cpp:44-66 | the loop over the children goes on past a failure: nothing is left of any of them but what is held up by a refused path; undisturbed all of them are gone |
| `MoveService.RestIsHeldUp` | apps/files/operations/file_operation_service.cpp:44-72 | when every child has been tried, what is left below the directory is held up by a refused path, and then so is the directory |
| `MoveService.Emptied` | apps/files/operations/file_operation_service.cpp:67-72 | a directory whose children are gone is empty |
| `MoveService.RemoveChild` | apps/files/operations/file_operation_service.cpp:44-66 | one child: a directory by recursion, anything else by unlink; the first errno is kept |
| `MoveService.RemoveCompletedSource` | apps/files/operations/file_operation_service.cpp:423-444 | nothing is left at or below the source but what is held up by a refused path; success means nothing is left at all; undisturbed it succeeds |
| `MoveService.CopyOutsideSource` | apps/files/operations/file_operation_service.cpp:478-491 | after a complete copy no copied entry lies inside the source, so removing the source cannot remove a copy |
| `MoveService.NewAreCopies` | apps/files/operations/file_operation_service.cpp:478-491 | after a complete copy everything new is a copy of its source entry |
| `MoveService.RemovalLosesNothing` | apps/files/operations/file_operation_service.cpp:478-496 | every state of removing the source of a complete copy still holds each source entry or its equal, and at the destination the full copy or what stood there |
| `MoveService.RenameLosesNothing` | apps/files/operations/file_operation_service.cpp:466-473 | an atomic rename moves the whole subtree, replaces the destination by it in the same step, and changes nothing else |
| `MoveService.RemoveOriginal` | apps/files/operations/file_operation_service.cpp:491-496 | removing the source of a complete copy loses nothing at any moment; only its failure is added to the result |
| `MoveService.CopyThenRemove` | apps/files/operations/file_operation_service.cpp:478-496 | nothing is touched with the cancel flag up; the source is removed only after a complete, uncancelled copy; at every moment the destination is what stood there or the full copy; undisturbed the whole is complete exactly when the copy can be |
| `MoveService.RenameWhole` | apps/files/operations/file_operation_service.cpp:466-473 | the rename itself: all or nothing; undisturbed it fails exactly across devices and without a directory to rename into |
| `MoveService.RenameEntry` | apps/files/operations/file_operation_service.cpp:465-477 | with the cancel flag up nothing is touched and the result is cancelled; otherwise the rename moves the whole subtree or nothing; undisturbed it gives way to a copy exactly across devices |
| `MoveService.RenamesWhenMovable` | apps/files/operations/file_operation_service.cpp:464-473 | allowed endpoints on one device can always be renamed |
| `MoveService.MoveEntry` | apps/files/operations/file_operation_service.cpp:448-497 | main result: with the cancel flag already up nothing is touched and the result is cancelled; in every state of the disk each source entry is at its source path or has its equal at the destination, what stood at the destination stands there or is overwritten by the full copy, what is new is a copy or a staging temporary, and nothing else is touched; no temporary remains unless its removal was refused; `source_retained` means the source tree is unchanged; a complete move has emptied the source and copied all of it; a removal that fails has left nothing of the source but what is held up by a refused path; a retained source and a published copy are reported exactly as they are; undisturbed, it is complete exactly when the rename is possible or, across devices and into an existing directory, the copy is |
| `Names.NumberedIs` | apps/files/operations/file_operation_service.cpp:402 | three chained substitutions give stem, number and extension in order when the stem has no low place marker |
| `Names.NumberedExactly` | apps/files/operations/file_operation_service.cpp:402 | they do so for every number exactly when the lowest place marker of the stem is above 3 |
| `Names.NamesExactly` | apps/files/operations/file_operation_service.cpp:398-402 | the same for the stem and extension of a file name |
| `Names.MarkerInStemIsReplaced` | apps/files/operations/file_operation_service.cpp:402 | for the stem `%2` the first candidate is `2 (2)` |
| `Names.NumberedInjective` | apps/files/operations/file_operation_service.cpp:401-402 | different numbers give different names |
| `Names.StemAndExtension` | apps/files/operations/file_operation_service.cpp:398-400 | splitting at the last dot loses nothing; a leading dot starts no extension |
| `Names.NumberedIsFrame` | apps/files/operations/file_operation_service.cpp:402 | whatever place markers a stem carries, from 10 on the number stands whole in every candidate, always in the same places (written without digit grouping) |
| `Names.NumberedDistinct` | apps/files/operations/file_operation_service.cpp:401-402 | so from 10 on different numbers give different names, for every stem |
| `Names.SearchEnds` | apps/files/operations/file_operation_service.cpp:401-406 | the search ends for every name: at most as many candidates are taken as there are names in use, and eight more for a stem with a low place marker |
| `Names.AutoRenameCandidate` | apps/files/operations/file_operation_service.cpp:397-407 | for every name the loop ends and returns the first candidate from 2 that is not in use; undisturbed the name is free |
| `TrashService.UniqueTrashName` | apps/files/operations/trash_service.cpp:159-174 | the name itself if nothing in the trash holds it, and otherwise the first candidate from 2 that is free both as payload and as record; for every name |
| `TrashService.WriteTrashInfo` | apps/files/operations/trash_service.cpp:176-196 | success adds exactly the record with its contents; failure leaves nothing unless the removal is refused; the record never follows the payload |
| `TrashService.FillRecord` | apps/files/operations/trash_service.cpp:185-195 | a record that cannot be written whole and brought to the disk is taken back |
| `TrashService.RemoveTrashInfo` | apps/files/operations/trash_service.cpp:198-200 | taking the record back restores the tree, or leaves just a record whose removal was refused |
| `TrashService.RenamedPieces` | apps/files/operations/trash_service.cpp:248-250 | where every payload and record stands after the rename into the trash |
| `TrashService.PairedAfter` | apps/files/operations/trash_service.cpp:242-250 | payloads and records stay in one-to-one correspondence exactly when the source was no piece of the trash directory itself |
| `TrashService.RenamedIsSafe` | apps/files/operations/trash_service.cpp:248-250 | the rename into the trash leaves everything else, and nothing is new but the payload and its record |
| `TrashService.MoveToTrash` | apps/files/operations/trash_service.cpp:248-250 | the rename moves all of the source or nothing |
| `TrashService.MoveOrRollBack` | apps/files/operations/trash_service.cpp:245-257 | cancelled or refused, the record is taken back and the source is where it was; at every moment all of the source is in its place or in the trash and nothing else is touched |
| `TrashService.TrashEntry` | apps/files/operations/trash_service.cpp:230-259 | main result: with the cancel flag already up nothing is touched and the result is cancelled; at every moment each payload has its record, each entry of the source is in its place or in the trash, everything else that was there is untouched, and nothing is new but the payload and its record; a result that is not complete leaves the tree as it was, or with just a record whose removal was refused; a complete one has moved the whole source, under its own name or the first free one; undisturbed, it is complete exactly for an entry on the device of the trash directory that does not contain it, whatever its name |
| `TrashService.RenamesWhenTrashable` | apps/files/operations/trash_service.cpp:248-250 | the rename into the trash is possible exactly for such an entry |
| `TaskWorker.WaitForPromptAnswer` | apps/files/operations/task_manager.cpp:19-26 | the number in the answer cell is the code of what the user answered, or the task was cancelled |
| `TaskWorker.ResolveConflictIfAny` | apps/files/operations/task_manager.cpp:54-84 | a free name is used as it is; a taken one is skipped, cancels the task, is overwritten or gets the first free numbered name exactly as the user answered; undisturbed the user is asked exactly when the name is taken |
| `TaskWorker.Transfer` | apps/files/operations/task_manager.cpp:111-113 | a copy task copies and a move task moves; the result is truthful about the disk at every state, and undisturbed complete exactly when it can be |
| `TaskWorker.CountResult` | apps/files/operations/task_manager.cpp:114-127 | the counters, reasons and skipped children after one result are those of the specified count, of which `TaskWorker.SummaryTells` says what it means |
| `TaskWorker.TallyAddsUp` | apps/files/operations/task_manager.cpp:374-388 | succeeded, incomplete and skipped add up to the decided items, and details are listed exactly when something is incomplete |
| `TaskWorker.SummaryTells` | apps/files/operations/task_manager.cpp:105-131 | main result: the four counters are the numbers of decisions that are complete, incomplete, failed or with failures below, and skipped by the user; a failure is listed exactly if it is the source and reason of an incomplete item or a nested failure of some result; a path is listed as skipped exactly if some result skipped it |
| `TaskWorker.WorkThrough` | apps/files/operations/task_manager.cpp:90-131 | the loop: a prefix is decided, only its last turn may have been interrupted, and a flag that is up stops it before anything is touched |
| `TaskWorker.ProcessItem` | apps/files/operations/task_manager.cpp:91-131 | one turn of the loop: decided as the user answered, carried out truthfully (undisturbed: exactly when it can be) and counted, or stopped by a cancellation; with the cancel flag up nothing is touched |
| `TaskWorker.KeptAppend` | apps/files/operations/task_manager.cpp:91-131 | a truthful turn decided as answered keeps the books of the whole task |
| `TaskWorker.ProcessCopyMoveTask` | apps/files/operations/task_manager.cpp:86-134 | main result: a prefix of the sources is decided, each as the user answered about it; the prefix is proper only after a cancellation, at a prompt exactly where the user answered Cancel to a taken name; undisturbed each transfer is complete exactly when it can be; the summary tells the truth about these decisions (see `TaskWorker.SummaryTells`); and the disk passed through the states of these turns, each faithful or never losing anything, and through no other |
| `TaskWorker.CopyTaskKeeps` | apps/files/operations/task_manager.cpp:68-83 | over a whole copy task, at its end and at every moment, what was there is the old entry or the full copy of a source about which the user answered Overwrite for that very name |
| `TaskWorker.MoveTaskKeeps` | apps/files/operations/task_manager.cpp:68-83 | likewise over a whole move task for everything outside the sources |
| `TaskWorker.TrashItem` | apps/files/operations/task_manager.cpp:139-156 | one turn of the trash loop: carried out truthfully (undisturbed: exactly what can be trashed) and counted, or stopped by a cancellation with nothing changed |
| `TaskWorker.TrashTallyAddsUp` | apps/files/operations/task_manager.cpp:136-159 | the counts of a trash task add up |
| `TaskWorker.TrashSummaryTells` | apps/files/operations/task_manager.cpp:136-159 | the counters of a trash task are the numbers of trashed and of failed items, and exactly the failed ones are listed with their reasons |
| `TaskWorker.ProcessTrashTask` | apps/files/operations/task_manager.cpp:136-159 | main result: the summary tells the truth about a decided prefix of the sources, proper only after a cancellation; undisturbed exactly what can be trashed is; the disk passed through the states of these calls, each with all of the source in place or in the trash and nothing else touched, and through no other; each payload always has its record, and the two stay paired unless a removal is refused |
| `TaskProtocol.RunKeepsInv` | apps/files/operations/task_manager.cpp:187-372 | the invariant of queue, prompt, cells and deliveries holds after every interleaving of the two threads |
| `TaskProtocol.NoAnswerIsLost` | apps/files/operations/task_manager.cpp:19-26 | while the worker waits on a request of a live task exactly one holds: its notice is queued, its prompt is shown, one token is released with its answer stored |
| `TaskProtocol.NoticeIsShown` | apps/files/operations/task_manager.cpp:344-358 | a live conflict is never dropped by the guard on prompt numbers |
| `TaskProtocol.TokenMeansAnswer` | apps/files/operations/task_manager.cpp:226-238 | an uncancelled worker that gets a token finds the answer to its own request |
| `TaskProtocol.DecisionIsTheUsers` | apps/files/operations/task_manager.cpp:54-84 | an item that met a conflict is treated as the user answered that very prompt; the sentinel -1 is never taken for an answer |
| `TaskProtocol.AnswersComeFromPrompts` | apps/files/operations/task_manager.cpp:226-238 | only resolving the shown prompt stores an answer, and an answer is never changed |
| `TaskProtocol.StartsOnlyWhenIdle` | apps/files/operations/task_manager.cpp:275-303 | a task starts only when no job is on the worker |
| `TaskProtocol.StartsInOrder` | apps/files/operations/task_manager.cpp:187-209 | at most one job is on the worker; tasks start in the order they were enqueued, each at most once |
| `TaskProtocol.TrashNeedsConsent` | apps/files/operations/task_manager.cpp:211-224 | a trash task starts only on a yes to the prompt number issued for it |
| `TaskProtocol.NumbersAreNew` | apps/files/operations/task_manager.cpp:279-286 | a prompt number is given out once and stays with its task |
| `TaskProtocol.CancelIsLocal` | apps/files/operations/task_manager.cpp:240-251 | steps that cancel nothing raise no flag: a flag that is up at the end was up before |
| `TaskProtocol.CancelDropsTheQueue` | apps/files/operations/task_manager.cpp:240-251 | what was queued before a cancellation never starts |
| `TaskProtocol.NothingAfterShutdown` | apps/files/operations/task_manager.cpp:253-265 | nothing starts after shutdown |
| `TaskProtocol.QueueIsServed` | apps/files/operations/task_manager.cpp:360-372 | no queued task is stranded: while tasks are queued one runs or a prompt asks |
| `TaskProtocol.CancelledJobEnds` | apps/files/operations/task_manager.cpp:19-26 | a cancelled job leaves the worker within seven of its own steps, whatever the GUI does meanwhile |
| `TaskProtocol.AnswerIsTaken` | apps/files/operations/task_manager.cpp:19-26 | main result: once an answer is stored and its token released, the worker has decoded it after four of its own steps at most, whatever the GUI does meanwhile short of cancelling, and has decided as the user answered |
| `TaskProtocol.ResolvedIsAnswered` | apps/files/operations/task_manager.cpp:226-238 | resolving the shown prompt and releasing the semaphore stores such an answer |
| `TaskRuns.StepConserves` | apps/files/operations/task_manager.cpp:187-289 | one step: what started stays first, what waits and is not given up keeps its order, an accepted task comes last |
| `TaskRuns.NoTaskIsLost` | apps/files/operations/task_manager.cpp:187-303 | main result: over every run the accepted tasks, numbered in the order of the requests, are the started, the waiting and the given-up ones, each counted once |
| `TaskRuns.EveryTaskHasOneFate` | apps/files/operations/task_manager.cpp:187-303 | main result: an accepted task has neither started nor waits if and only if a step gave it up: a cancellation or shutdown while it waited, or a no to its own trash prompt; it never both waits and has started |
| `TaskRuns.LineIsKept` | apps/files/operations/task_manager.cpp:187-303 | while nobody cancels or says no, nothing leaves the line of tasks and nothing overtakes |
| `TaskRuns.CancelSparesLaterTasks` | apps/files/operations/task_manager.cpp:240-251 | main result: a task enqueued after a cancellation has started in its turn or still waits for it, and its flag is down |
| `TaskOutcomes.CancelReachesJob` | apps/files/operations/task_manager.cpp:226-265 | the user calls the running job off by the cancel command, by Cancel at the shown prompt or by closing the window: its flag is up at once, whatever it is doing, no prompt and no waiting task is left, and a token is owed to it |
| `TaskOutcomes.ReleaseGivesToken` | apps/files/operations/task_manager.cpp:236-244 | the token goes to the semaphore of the current task and to no other |
| `TaskOutcomes.CalledOffJobEnds` | apps/files/operations/task_manager.cpp:86-134 | main result: over every run, a job the user calls off begins no item after the one it is at, and has left the worker after seven of its own steps at most |
| `TaskOutcomes.RunGoesNoFurther` | apps/files/operations/task_manager.cpp:91-94 | a job whose flag is up goes past no further item, whatever the GUI does |
| `TaskOutcomes.ConsentStarts` | apps/files/operations/task_manager.cpp:211-224 | a yes to the trash prompt starts at once the very task it asks about, with a fresh flag |
| `TaskOutcomes.RefusalDrops` | apps/files/operations/task_manager.cpp:211-224 | a no drops that task; what may start instead is the next one, and no trash task |
| `TaskOutcomes.OtherAnswersAreIgnored` | apps/files/operations/task_manager.cpp:211-230 | an answer that is not to the prompt on the screen changes nothing |
| `TaskOutcomes.IdleStartsAtOnce` | apps/files/operations/task_manager.cpp:187-201 | a copy or a move starts at once when nothing runs and nothing is asked |
| `TaskOutcomes.JobsAreDiligent` | apps/files/operations/task_manager.cpp:86-134 | main result: in every run a job that comes to its end has been through all its items, or was called off |
| `TaskOutcomes.ItemsOneByOne` | apps/files/operations/task_manager.cpp:91-131 | items are taken one after the other, each reported before the next, and the end is reported once |
| `TaskOutcomes.CollisionIsAsked` | apps/files/operations/task_manager.cpp:62-84 | over every run, an item whose name is found taken is not worked on before the user was asked about it |
| `TaskOutcomes.ItemTakesItsCourse` | apps/files/operations/task_manager.cpp:91-131 | main result: whatever the GUI does meanwhile short of cancelling, each item is taken step by step through its whole course: looked up, worked on and reported, or put to the user if its name is taken |
| `TaskOutcomes.DeliveriesAreTaken` | apps/files/operations/task_manager.cpp:328-372 | every delivery leaves the queue; that an item began or ended changes nothing else; the end of a task leaves the worker free or at the next task; a conflict of a live task is shown |
| `TaskOutcomes.RunNamesTask` | apps/files/operations/task_manager.cpp:211-303 | in every run the active task is the running one, or the one the trash prompt is about, and none when nothing runs and nothing is asked |
| `TaskManagerModel.TaskManager.Enqueue` | apps/files/operations/task_manager.cpp:187-209 | enqueueing a copy, a move or a trash request is one step of the protocol and keeps its invariant |
| `TaskManagerModel.TaskManager.RespondToTrashConfirm` | apps/files/operations/task_manager.cpp:211-224 | answering the trash prompt is one step of the protocol; an answer to another number changes nothing |
| `TaskManagerModel.TaskManager.ResolveConflict` | apps/files/operations/task_manager.cpp:226-238 | storing an answer, or cancelling, up to the release of the semaphore, is one step of the protocol |
| `TaskManagerModel.TaskManager.CancelCurrentTask` | apps/files/operations/task_manager.cpp:240-251 | cancelling, up to the release of the semaphore, is one step of the protocol, of which `TaskOutcomes.CancelReachesJob` says what it does |
| `TaskManagerModel.TaskManager.ReleaseSemaphore` | apps/files/operations/task_manager.cpp:236 | releasing the semaphore is a step of its own |
| `TaskManagerModel.TaskManager.Shutdown` | apps/files/operations/task_manager.cpp:253-265 | shutting down is one step of the protocol |
| `TaskManagerModel.TaskManager.DispatchNextTask` | apps/files/operations/task_manager.cpp:275-289 | prompts for a trash task or starts any other, when nothing runs and nothing is asked |
| `TaskManagerModel.TaskManager.StartTask` | apps/files/operations/task_manager.cpp:291-326 | a fresh flag, semaphore and answer cell for every task |
| `TaskManagerModel.TaskManager.OnConflictDetected` | apps/files/operations/task_manager.cpp:344-358 | shows the prompt unless the task is over, cancelled or the number old |
| `TaskManagerModel.TaskManager.OnTaskFinished` | apps/files/operations/task_manager.cpp:360-372 | clears the prompt and dispatches the next task |
| `TaskManagerModel.TaskManager.DeliverNext` | apps/files/operations/task_manager.cpp:328-372 | taking one delivery from the queue is one step of the protocol |
| `Listing.MergedShape` | apps/files/browsing/directory_model.cpp:347-364 | merging replaces known rows in place and appends the new entries in their order |
| `Listing.RefreshShape` | apps/files/browsing/directory_model.cpp:347-386 | after a finished refresh come the rows still there, in their old order and with new details, then the new ones |
| `Listing.RefreshRefinesReload` | apps/files/browsing/directory_model.cpp:97-130 | a finished refresh shows exactly the entries a reload would show, each once |
| `DirectoryModel.Model.LoadPath` | apps/files/browsing/directory_model.cpp:97-116 | starts an empty listing of a new generation and stops the walk before |
| `DirectoryModel.Model.RefreshPath` | apps/files/browsing/directory_model.cpp:117-130 | a new generation over the same rows; nothing when stopping, suspended or without a path |
| `DirectoryModel.Model.SuspendUpdates` | apps/files/browsing/directory_model.cpp:131-138 | stops the walk and holds the rows |
| `DirectoryModel.Model.ResumeUpdates` | apps/files/browsing/directory_model.cpp:139-145 | ends a suspension with a refresh |
| `DirectoryModel.Model.Shutdown` | apps/files/browsing/directory_model.cpp:164-176 | stops the walk for good |
| `DirectoryModel.Model.InsertPlaceholderRow` | apps/files/browsing/directory_model.cpp:146-155 | the placeholder is appended, so no row changes its index |
| `DirectoryModel.Model.RemovePlaceholderRow` | apps/files/browsing/directory_model.cpp:156-163 | removes the placeholder and nothing else; another row number changes nothing |
| `DirectoryModel.Model.AppendEntries` | apps/files/browsing/directory_model.cpp:335-346 | appends the batch and indexes it |
| `DirectoryModel.Model.ApplyDiffEntries` | apps/files/browsing/directory_model.cpp:347-364 | the loop computes the merge and records what was seen |
| `DirectoryModel.Model.RemoveUnseen` | apps/files/browsing/directory_model.cpp:366-379 | the backwards removal of runs equals the filter of the rows by what was seen |
| `DirectoryModel.Model.FinishDiff` | apps/files/browsing/directory_model.cpp:365-386 | rows not seen are gone and the index maps every identity to its row |
| `DirectoryModel.Model.RebuildIndex` | apps/files/browsing/directory_model.cpp:381-384 | maps every identity to its row and nothing else |
| `DirectoryModel.Model.ApplyBatch` | apps/files/browsing/directory_model.cpp:295-334 | one delivery: ignored when stale, suspended or stopping; else taken, and an error removes no row |
| `DirectoryRuns.RunKeepsInv` | apps/files/browsing/directory_model.cpp:97-386 | over any interleaving of loads, refreshes, suspensions, placeholders and late deliveries the rows show what the newest walk has delivered |
| `DirectoryRuns.FinishedWalkIsShown` | apps/files/browsing/directory_model.cpp:295-334 | main result: once an error-free walk of the current generation finishes, the rows are exactly its entries, in the order of the walk or of the refresh |
| `DirectoryRuns.UnfinishedRefreshRemovesNothing` | apps/files/browsing/directory_model.cpp:310-318 | until a refresh ends cleanly, and for good when it fails, every row is still at its index |
| `DirectoryRuns.DeliveryIsWellFormed` | apps/files/browsing/directory_model.cpp:221-286 | every delivery of a run meets what the class demands |
| `DirectoryRuns.ResumeStartsAnew` | apps/files/browsing/directory_model.cpp:117-145 | resuming begins a new walk exactly when the model was suspended, has a path and is not shutting down, and never touches the rows |
| `DirectoryRuns.StartsHonest` | apps/files/browsing/directory_model.cpp:97-145 | main result: in every run the model says it is scanning exactly while the newest walk is under way, and gives the error that walk met and no other |
| `DirectoryRuns.ProgressIsHonest` | apps/files/browsing/directory_model.cpp:295-334 | so from every state of a run on |
| `ProxyOrder.LessIsIrreflexive` | apps/files/browsing/directory_proxy_model.cpp:24-53 | no row is before itself, with or without the placeholder |
| `ProxyOrder.LessIsTotal` | apps/files/browsing/directory_proxy_model.cpp:24-53 | of two different rows exactly one is less |
| `ProxyOrder.LessIsTransitive` | apps/files/browsing/directory_proxy_model.cpp:24-53 | the comparison is transitive with the placeholder present |
| `ProxyOrder.SortedIsUnique` | apps/files/browsing/directory_proxy_model.cpp:24-53 | there is one sorted list of the same rows |
| `ProxyOrder.BesideAnchor` | apps/files/browsing/directory_proxy_model.cpp:48-51 | against its anchor the placeholder stands on the side asked for, in both sort directions |
| `ProxyOrder.PlaceholderIsBesideAnchor` | apps/files/browsing/directory_proxy_model.cpp:16-53 | main result: the sorted list is the list without the placeholder, with it directly below or above its anchor |
| `VimMode.VimModeController.RefreshSearch` | apps/files/application/vim_mode_controller.cpp:155-174 | the loop finds all matching rows from the top, and the best row is the one row that is topmost among those with the greatest score |
| `VimMode.MatchRowsAre` | apps/files/application/vim_mode_controller.cpp:157-166 | the rows are exactly those that match a non-empty query, ascending |
| `VimMode.BestRowIsBest` | apps/files/application/vim_mode_controller.cpp:160-170 | the best row is the topmost of those with the greatest score; a match with the least possible score is never the best |
| `VimMode.BestRowExactly` | apps/files/application/vim_mode_controller.cpp:160-170 | and it is the only row of which that is true |
| `VimMode.VimModeController.AdvanceSearchMatch` | apps/files/application/vim_mode_controller.cpp:176-194 | the next match below or the first; the next above or the last; none without matches |
| `VimMode.PreviousUndoesNext` | apps/files/application/vim_mode_controller.cpp:176-194 | from a match, going to the previous undoes going to the next |
| `VimMode.NextCycles` | apps/files/application/vim_mode_controller.cpp:176-194 | as many steps as there are matches visit each and end where they began |
| `VimMode.VimModeController.EnterSearch` | apps/files/application/vim_mode_controller.cpp:138-145 | an empty query with no results |
| `VimMode.VimModeController.SetSearchQuery` | apps/files/application/vim_mode_controller.cpp:147-153 | a new query with its results, only while searching |
| `VimMode.VimModeController.CommitSearch` | apps/files/application/vim_mode_controller.cpp:196-202 | the query becomes the committed one; its results stay |
| `VimMode.VimModeController.CancelSearch` | apps/files/application/vim_mode_controller.cpp:204-214 | query and results are dropped and the old row returned |
| `VimMode.VimModeController.ResetSearch` | apps/files/application/vim_mode_controller.cpp:223-231 | both queries and the results are dropped |
| `Editing.RunStaysInStep` | apps/files/application/editing_session.cpp:14-181 | main result: after every run, until shutdown begins, a name is being edited exactly when the rows are locked and the listing suspended, the placeholder exists exactly while a new entry is named and is the last row, and results of the current revision are those of a fresh search |
| `Editing.EditKeepsRows` | apps/files/application/editing_session.cpp:14-133 | main result: from the moment a name is edited to the moment it is not, whatever is delivered or asked for meanwhile, the rows stand as they stood, but for the placeholder behind them; committed or abandoned, they are the rows of before |
| `Editing.RowsAreHeld` | apps/files/application/directory_controller.cpp:335-346 | while a name is edited no step moves, adds or removes a row |
| `Editing.PlaceholderIsShownBesideAnchor` | apps/files/application/editing_session.cpp:27-50 | main result: from the moment an entry is to be created until its name is committed or abandoned, whatever is delivered meanwhile, it is shown directly below or above the row that was under the cursor, as asked |
| `Editing.CreatePinsToCursor` | apps/files/application/editing_session.cpp:34-43 | the placeholder is pinned to the row under the cursor, on the side asked for, and to none without such a row |
| `Editing.StartsInStep` | apps/files/application/editing_session.cpp:14-181 | so it is in every run of the program, from its start |
| `Editing.JumpSeesFreshResults` | apps/files/application/directory_controller.cpp:453-461 | jumping to a match always uses results of the names shown |
| `Editing.CancelInsertKeepsInv` | apps/files/application/editing_session.cpp:128-133 | abandoning an insert undoes the lock and the placeholder |
| `Editing.CommitInsertKeepsInv` | apps/files/application/editing_session.cpp:60-127 | a failed or invalid commit keeps everything; a successful one undoes the lock and the placeholder |
| `Editing.NavigateKeepsInv` | apps/files/application/directory_controller.cpp:335-346 | navigating away ends every mode, drops the placeholder and unlocks |
| `Editing.BeginCreateKeepsInv` | apps/files/application/editing_session.cpp:27-50 | the placeholder is appended, pinned to its anchor, and the rows are held |
| `Editing.DeliverKeepsInv` | apps/files/application/editing_session.cpp:134-142 | a delivery that changes rows makes older results stale, or refreshes them while searching |
| `Editing.CommittedRun` | apps/files/application/editing_session.cpp:134-170 | runs from the start that end in each mode but Search with results of a committed query |
| `Editing.CommitSearchNeedsSearch` | apps/files/application/editing_session.cpp:170 | over the states that runs reach, committing a search keeps everything in step exactly in Search mode |
| `Editing.CancelSearchNeedsNoInsert` | apps/files/application/editing_session.cpp:171-181 | over the states that runs reach, cancelling a search keeps everything in step exactly outside Insert mode |
| `Editing.CancelInsertNeedsNoSearch` | apps/files/application/editing_session.cpp:128-133 | over the states that runs reach, abandoning an insert keeps everything in step exactly outside Search mode |
| `EditingSessionModel.EditingSession.BeginRenaming` | apps/files/application/editing_session.cpp:14-26 | renaming needs a row under the cursor; then rows and listing are held |
| `EditingSessionModel.EditingSession.BeginCreating` | apps/files/application/editing_session.cpp:27-50 | hold, pin to the row under the cursor, append, announce, enter Insert: the specified state |
| `EditingSessionModel.EditingSession.RemoveActivePlaceholderIfAny` | apps/files/application/editing_session.cpp:51-58 | drops the placeholder and the pin if there is one |
| `EditingSessionModel.EditingSession.CommitInsertEditing` | apps/files/application/editing_session.cpp:60-127 | the specified state for an invalid, a failed and a successful commit |
| `EditingSessionModel.EditingSession.CancelInsertEditing` | apps/files/application/editing_session.cpp:128-133 | the specified state after abandoning |
| `EditingSessionModel.EditingSession.ListingChanged` | apps/files/application/editing_session.cpp:134-142 | a new revision; fresh results while searching |
| `EditingSessionModel.EditingSession.EnsureSearchCurrent` | apps/files/application/editing_session.cpp:143-153 | refreshes results of an older revision and no others |
| `EditingSessionModel.EditingSession.UpdateSearchQuery` | apps/files/application/editing_session.cpp:154-169 | the query and its results, and the row of the best match |
| `EditingSessionModel.EditingSession.CommitSearchEditing` | apps/files/application/editing_session.cpp:170 | the specified state after committing |
| `EditingSessionModel.EditingSession.CancelSearchEditing` | apps/files/application/editing_session.cpp:171-181 | results become stale; the cursor returns to the entry it was on, wherever that is now, else to its old row |
| `EditingSessionModel.EditingSession.GoToMatch` | apps/files/application/directory_controller.cpp:453-461 | the next or previous match of a fresh search |
| `EditingSessionModel.EditingSession.BeginSearching` | apps/files/application/directory_controller.cpp:448-452 | remembers the name under the cursor |
| `EditingSessionModel.EditingSession.ResetForNavigation` | apps/files/application/directory_controller.cpp:335-346 | the specified state after a reset |
| `EditingSessionModel.EditingSession.Open` | apps/files/application/navigation_session.cpp:20-33 | reset, then load |
| `EditingOutcomes.CommitExactly` | apps/files/application/editing_session.cpp:60-127 | a successful commit leaves Insert, drops the placeholder, unlocks and reads the listing anew; an invalid or failed one changes nothing |
| `EditingOutcomes.AbandonExactly` | apps/files/application/editing_session.cpp:128-133 | abandoning does the same without a commit |
| `EditingOutcomes.RenameExactly` | apps/files/application/editing_session.cpp:14-26 | renaming enters Insert and holds the rows exactly when there is a row under the cursor |
| `EditingOutcomes.AnnouncedNamesAreShown` | apps/files/application/editing_session.cpp:134-142 | which steps replace the names on the screen, and by which |
| `EditingOutcomes.RearrangeKeepsModel` | apps/files/application/editing_session.cpp:134-142 | rearranging the rows touches no row of the listing, and is refused while a name is edited |
| `EditingOutcomes.RunRemembers` | apps/files/application/directory_controller.cpp:335-346 | main result: in every run the committed query is what was typed in the search committed last since a directory was opened, however many were abandoned since; the query and the row to return to are those of the open search field; the listing is of the directory opened last |
| `EditingOutcomes.StepQueries` | apps/files/application/vim_mode_controller.cpp:138-231 | what each step does to the typed and to the committed query |
| `EditingOutcomes.SearchIsLive` | apps/files/application/editing_session.cpp:134-169 | main result: in every run, while the search field is open, its results are at every moment those of what is typed among the names shown |
| `EditingOutcomes.StepMode` | apps/files/application/editing_session.cpp:14-181 | which mode each step leaves: among them, a visual selection ends by itself exactly when the rows announced are none |
| `EditingOutcomes.EndSearchExactly` | apps/files/application/vim_mode_controller.cpp:196-214 | committing a search keeps its results; abandoning one drops them; neither touches the listing |
| `EditingOutcomes.RefreshAndSwitchExactly` | apps/files/browsing/directory_model.cpp:117-130 | a refresh asked for reads the listing anew unless it is held; another view makes the results stale |
| `EditingOutcomes.OpenExactly` | apps/files/application/directory_controller.cpp:335-346 | opening a directory ends every mode, empties the listing, forgets both queries and begins a walk of it |
| `JumpListModel.JumpList.RecordVisit` | apps/files/browsing/jump_list.cpp:9-22 | a visit to the current path changes nothing; any other saves the outgoing name, puts its path last, leaves every other entry in its order and drops the oldest only from a full list |
| `JumpListModel.RecordMovesToEnd` | apps/files/browsing/jump_list.cpp:9-22 | the same of the specification: only an earlier entry of the same path, or the oldest of a full list, goes |
| `JumpListModel.VisitKeepsLeft` | apps/files/browsing/jump_list.cpp:13-20 | the entry left stays in the list with the outgoing name, unless it is the oldest of a full list |
| `JumpListModel.JumpList.Traverse` | apps/files/browsing/jump_list.cpp:24-73 | the two loops compute the specified list, index and report: rejected entries in the order examined, and the landing |
| `JumpListModel.JumpList.Examine` | apps/files/browsing/jump_list.cpp:33-46 | the scan marks exactly the rejected examined entries and lands on the farthest accepted one |
| `JumpListModel.JumpList.Compact` | apps/files/browsing/jump_list.cpp:47-64 | one pass removes the marked entries while index and landing follow their entries |
| `JumpListModel.TraverseLands` | apps/files/browsing/jump_list.cpp:36-72 | main result: lands on the min(max(1, count), available)-th accepted entry in the direction, or stays on the same entry |
| `JumpListModel.TraverseKeepsWellFormed` | apps/files/browsing/jump_list.cpp:24-73 | paths stay distinct, at most a hundred, and the index in range |
| `JumpListModel.RecordKeepsWellFormed` | apps/files/browsing/jump_list.cpp:9-22 | the same for a visit, and the visited path becomes the current one |
| `JumpListModel.RoundTrip` | apps/files/browsing/jump_list.cpp:24-73 | back over k directories and forward k returns to the entry left, with the name saved on leaving |
| `JumpListModel.BackReaches` | apps/files/browsing/jump_list.cpp:36-46 | after going back k entries the one left is k entries ahead with only directories between |
| `JumpListModel.TraverseRemovesExactly` | apps/files/browsing/jump_list.cpp:33-64 | a traversal removes exactly the entries it looks at and finds to be no directory: those in its direction with fewer directories than wanted before them |
| `Navigation.NavigationSession.OpenInternal` | apps/files/application/navigation_session.cpp:11-40 | a navigation displays the cleaned path, counts, and awaits the restore of the given name; recorded or not |
| `Navigation.LeavingKeepsName` | apps/files/application/navigation_session.cpp:41-47 | leaving for another path keeps, with the entry left, the name the cursor is on, and no name when the listing has not settled or the cursor is on no row |
| `Navigation.NavigationSession.TraverseHistory` | apps/files/application/navigation_session.cpp:48-67 | only a landing navigates, to its path and with its saved name |
| `Navigation.TraverseForgetsMissing` | apps/files/application/navigation_session.cpp:48-67 | whether or not it lands, a traversal forgets exactly the entries it looks at and finds to be no directory |
| `Navigation.NavigationSession.NavigateParent` | apps/files/application/navigation_session.cpp:101-108 | to the parent, with the directory left as the name to be restored; not from the root |
| `Navigation.NavigationSession.CancelPendingRestore` | apps/files/application/navigation_session.cpp:68-71 | forgets a pending restore |
| `Navigation.NavigationSession.MaybeApplyPendingRestore` | apps/files/application/navigation_session.cpp:72-90 | once, when the load has settled: the first row with the name, else row 0 |
| `Navigation.NavigationSession.ActivateBookmark` | apps/files/application/navigation_session.cpp:159-167 | remembers the serial at which a check began |
| `Navigation.NavigationSession.HandleBookmarkRecheckResolved` | apps/files/application/navigation_session.cpp:168-180 | navigates only on a favourable answer of the same serial with nothing in the way |
| `Navigation.NavigationSession.OpenRestoreCandidate` | apps/files/application/navigation_session.cpp:181-185 | remembers the candidate and the serial |
| `Navigation.NavigationSession.HandleRestoreValidated` | apps/files/application/navigation_session.cpp:186-196 | a verdict on the latest candidate navigates there or home, unless something was opened since |
| `Navigation.HistoryIsInStep` | apps/files/application/navigation_session.cpp:11-67 | main result: in every reachable state the history's current path is the displayed path |
| `Navigation.FreshIsInStep` | apps/files/application/navigation_session.cpp:11-67 | so it is in every run of the program, from its start |
| `Navigation.BackAndForth` | apps/files/application/navigation_session.cpp:48-67 | back and forth shows the same path with the cursor to be restored to its entry |
| `Navigation.SerialCountsOpens` | apps/files/application/navigation_session.cpp:24 | in every run the serial is the number of openings, where an opening is a visit, a traversal that lands, and an answer or verdict that comes before anything else was opened |
| `Navigation.LateAnswersAreIgnored` | apps/files/application/navigation_session.cpp:159-196 | main result: in every run each step navigates exactly when it is an opening: a bookmark answer if it is favourable, unhindered and nothing was opened since its check began; a verdict if it is for the last candidate and nothing was opened since it was asked for; any other leaves what is displayed; an opening displays its destination and leaves its name to be restored: the one asked for with a visit, the one saved with the entry a traversal lands on, none for a bookmark or a stored location |
| `Navigation.RestoreComesBack` | apps/files/application/navigation_session.cpp:72-90 | main result: in every run, when the listing settles with nothing in between, the cursor goes to the first row with the name the last opening left to be restored, or to row 0 |
| `Navigation.RestoresOnce` | apps/files/application/navigation_session.cpp:68-90 | after the listing has settled or the cursor was moved nothing is restored until something is opened |
| `Places.BuildPlaces` | apps/files/browsing/places_model.cpp:32-76 | standard places, then the bookmarks that repeat none of them and no earlier bookmark; the first of those starts the section |
| `Places.UnrepeatedAreDistinct` | apps/files/browsing/places_model.cpp:56-75 | no two kept bookmarks share a path |
| `Places.UnrepeatedMissNone` | apps/files/browsing/places_model.cpp:56-75 | every bookmark's path is shown by some row |
| `Places.UnrepeatedAreFirst` | apps/files/browsing/places_model.cpp:56-75 | kept are exactly the first bookmarks with their paths, in order |
| `Places.RowsAreTheirs` | apps/files/browsing/places_model.cpp:32-76 | each row carries its own name, path and origin and is being checked; the section starts at the first bookmark |
| `Places.PlacesModel.RowForId` | apps/files/browsing/places_model.cpp:100-107 | the row of an id, or none |
| `Places.PlacesModel.DeliverResult` | apps/files/browsing/places_model.cpp:109-147 | one answer: ignored when its row is gone or it is not the newest; else the specified change and announcement |
| `Places.PlacesModel.RecheckBookmark` | apps/files/browsing/places_model.cpp:149-160 | only a bookmark is rechecked, with a new generation |
| `Places.FreshestAnswerWins` | apps/files/browsing/places_model.cpp:78-147 | main result: for any order of answers each status is that of the last answer that was to the newest check of its place when it came, and Checking before the first; exactly the user directories found missing at startup are gone, in unchanged order; Home is never unavailable; no recheck is announced twice |
| `Places.OnlyTheNewestCounts` | apps/files/browsing/places_model.cpp:109-147 | every delivery, to a startup check or a recheck, changes a row exactly when no newer check of its place was begun, and then only that row; exactly then a recheck is announced |
| `Places.RecheckBegins` | apps/files/browsing/places_model.cpp:149-160 | every bookmark, and nothing else, can be checked again: a new check begins that is later than all others |
| `Places.RecheckIsAnswered` | apps/files/browsing/places_model.cpp:109-160 | main result: whatever else is answered or checked in between, the answer to the latest recheck of a bookmark is announced and shown by its row |
| `Toml.ReadingUndoesQuoting` | apps/files/settings/toml_document.cpp:214-246 | main result: for every string, reading the quoted string as a TOML basic string gives it back, whatever follows |
| `Toml.ReadsQuotedChar` | apps/files/settings/toml_document.cpp:218-243 | each character's escape reads back as the character |
| `Toml.QuotingUnitsIsQuoting` | apps/files/settings/toml_document.cpp:218-243 | quoting UTF-16 code units one by one is quoting the characters; no surrogate is ever escaped |
| `Toml.QuoteString` | apps/files/settings/toml_document.cpp:214-246 | the loop writes the quoted units between quotation marks |
| `Toml.QuotedUnitsAreQuote` | apps/files/settings/toml_document.cpp:214-246 | what the loop writes for a string is the quoted string |
| `StateFile.MakeStateDirectory` | apps/files/state/state_store.cpp:24-45 | makes the missing directories of a path and changes nothing else; undisturbed it succeeds exactly when all of the path that exists is directories |
| `StateFile.SaveFile` | apps/files/state/state_store.cpp:91-98 | at every moment the file is the old one or the whole new one; a temporary remains only if its removal was refused |
| `StateFile.StateStore.Save` | apps/files/state/state_store.cpp:77-100 | main result: whatever calls are refused, at every moment the state file is the old one or the whole new one and nothing else that was there is touched; undisturbed it is saved exactly where directories can be made and no directory has its name |
| `StateFile.SavedOrAsBefore` | apps/files/state/state_store.cpp:50-100 | in every state a save passes through, what is stored is what was stored before or the location being saved, never anything in between |
| `StateFile.SavedIsFound` | apps/files/state/state_store.cpp:50-100 | after a completed save a load finds the location if it is absolute, cleaned |
| `StateFile.StateStore.Load` | apps/files/state/state_store.cpp:50-75 | what the file stores, or nothing and a warning when a file is there that cannot be used |
| `State.ParsesContent` | apps/files/state/state_store.cpp:86-91 | the written document reads as its version and its location |
| `State.OtherVersionsAreRefused` | apps/files/state/state_store.cpp:63-66 | a file that gives another version is not read, whatever location it holds |
| `State.LoadUndoesSave` | apps/files/state/state_store.cpp:50-100 | main result: what was saved is loaded exactly when it is absolute, and then cleaned; a clean absolute path comes back unchanged |

## Left out

- Real threads, timers, file watchers and Qt's event loop: they appear as explicit steps and a FIFO of deliveries; timeouts and throughput are not modelled.
- Values of permissions, times and ownership: that the calls which set them succeeded, and on which contents, is recorded, not what they set. Contents of trash records and dates are parameters.
- Symbolic links among the ancestors of a path: paths are taken as already resolved, and resolving never fails.
- Inode numbers are never given out twice, random temporary names never spell the destination and are new in an undisturbed kernel, and `readdir` lists neither "." nor "..".
- Changes made by other processes during an operation, except that any call may be refused.
- Choosing the trash directory (`selectTrashDir`, `findTopdir`): the directory is a parameter of `TrashService.TrashEntry`.
- AutoRenameCandidate: for stems that carry a low place marker the candidate is the first free one, but how it is spelled is not said, because its names are then not numbered names (`Names.NamesExactly`); the same holds for `TrashService.UniqueTrashName`.
- NumberedIsFrame: does not model that a marker `%L` makes `QString::arg` write a number with the locale's digit grouping from 1000 on, because the locale is not part of this model; the same holds for `Names.NumberedDistinct`. Digits outside ASCII are left out as well.
- The worker's steps in `TaskProtocol` work on the queue, the cells and the deliveries; what they do to the disk is in `TaskWorker`, with the answers of the user as a parameter. That the number the worker decodes is the code of the user's answer is `TaskProtocol.DecisionIsTheUsers`.
- Progress fields, texts of messages and summaries, and the list of affected directories.
- The end of the directory model's worker thread (`walk_in_flight_`) and the classification of a loaded path.
- Splitting a walk into batches is any splitting of a listing with distinct identities; the walk itself is not part of this model. A walk of the empty path, which names no directory, is taken to list nothing.
- Validating and composing a typed name, and the system call a commit makes: `EditingSession` takes their outcome as a parameter.
- Which rows the proxy shows and in which order it announces them: the shown names are a parameter of each step that changes rows.
- Visual selection beyond its mode, motions, icon view geometry, clipboard and drag and drop.
- The other value types, comments, dotted and quoted keys of TOML: the reader in `State` rejects them. Lone surrogates, which UTF-8 cannot write.
- Symbolic links to the state file or on the way to it, and how UTF-8 writes a character: `StateFile` takes the encoding as a pair of functions that undo each other.
- Settings, the bookmark file, the location classifier, size formatting, previews and devices: they supply values that the modelled parts take as given, such as the bookmarks of `Places`, or display what is there; nothing modelled here depends on how they compute it.
