# A verified model of ISDE's algorithms and protocols

This project models the parts of the ISDE desktop that are algorithms or protocols, and proves what they
keep, what they compute and where they fall short. Each module follows one component.

- **Calculator** (`Calc`, `CalcTheory`). The two-stack infix engine as a class over its arrays, and what it
  computes for whole expressions. An arriving operator carries out at most one pending operator; with
  operators about which nothing is known, the result is standard exactly when that is enough.
- **File operations** (`Paths`, `Conflict`, `Rename`, `CopyTheory`, `Steps`, `MoveTheory`, `RenameList`,
  `JobTheory`, `FileOps`). A file system is a map from paths to files, links and directories. `World` is what
  a job sees of it: every call may fail, the cancel flag may rise at any time and never falls, and every state
  the file system goes through is recorded in `log`, so contracts speak about all intermediate states. Failing
  calls are counted in `faults`, so "nothing failed" is said of one operation and not of the whole history; those
  that could have succeeded are counted again in `chosen`, so that an operation during which none did
  (`Undisturbed`) fails only for a reason in the file system, which its contract names. A
  failing `readdir` looks to the program like the end of the directory, so a copy may report success and miss
  entries: `ListDir`, and nothing else, records in `ends` what each early-ended read left out. A copy that
  reports success is exact if and only if `ends` did not grow, and only what was recorded there can be lost by
  a move, a trash or a restore.
- **Trash** (`TrashInfo`, `Trash`). The percent encoding, the reader with its PATH_MAX buffer, and trash and
  restore as operations on the same `World`.
- **Job queue** (`JobList`, `JobProtocol`). The linked lists as the critical sections change them, each method
  being a step, or a run of steps, of the protocol; and the two threads as a state machine whose steps are
  critical sections, pipe operations and frees. Runs are arbitrary interleavings.
- **Devices** (`DeviceTable`, `Mountd`, `Replication`). The daemon's table and the file manager's copy of it,
  the signals between them in one queue, and the file manager's own updates when a call returns. `refused`
  counts the system calls of the daemon that could succeed and failed.
- **Display manager** (`Framing`, `DisplayManager`). Cutting the greeter's stream into lines in a bounded
  buffer while handlers may close the connection, and the session, lock and greeter state against the signals
  sent, over every run of the event loop: `Turn` says what one turn does, and `Run` is a chain of turns. `born`
  are the processes made in a turn, `verdicts` what the password check was asked and answered.
- **Taskbar** (`Taskbar`). A linked list of groups and a box whose children must stay in step with it.
- **Smaller parts** (`Md5`, `ProfileKey`, `Calendar`).

Methods carry the loops and updates of the source and are proved against functions on values; the main results
are lemmas about those functions, about all runs, or iff statements that say when the code meets a property.

What is taken as given, and why:

- Tests for the existence of a path (`lstat` in the search for a free name) tell the truth; every other file
  call may fail. A directory listing is a snapshot taken when the directory is opened, in any order.
- Nothing else changes the file system while a job runs, and paths lead through no linked directories.
- `bound` parameters of the recursive methods are a bound on the path lengths below an item; it serves as the
  recursion's measure, and their callers pass the longest path there is.
- `copy_recursive` and `copy_recursive_cb` differ only in progress and cancellation; one method with the flag
  `job` stands for both, likewise for deleting.
- Where a new name is needed, one of the numbered names must be free; `Conflict.ResolvedFreeIff` says that
  this is so exactly when fewer than 999 of them are taken, whatever else is in the directory. For a job
  (`RoomFor`), names that earlier items of the job may take count as taken; items that want different names
  need nothing of each other, however many there are (`MoveTheory.NoRivals`).
- Which places lie on different file systems is a parameter (`across`); there a rename is refused with EXDEV.
- Device paths, labels and file system types fit the fixed fields, which are equally long in both programs.
- The choice among outcomes the program cannot influence (a failing call, a password check, a fork) is
  nondeterministic. A fork gives an id that none of the program's own children has who was not waited for.

Where the code does less than its callers might expect, the exact condition is stated:
`CalcTheory.StandardIffOneReduction`, `CopyTheory.ExactIffNoEarlyEnd`, `Conflict.ResolvedFreeIff`,
`RenameList.AllArriveIff`, `MoveTheory.OthersStayIff` (a move over an existing name), `TrashInfo.ReadsBack`,
`Trash.TrashThenRestore` (a stale info file), `JobProtocol.ClosesIffPipeHasRoom` (quitting with a full pipe),
`Mountd.MountDaemon.HandleEject` and `MonitorDispatch` (changes nobody is told about),
`Replication.ClashMatters`, `Replication.MissedAddStaysMissed`, `Replication.MissedMountSettles`,
`Framing.SplitIffNoNul`. That the bad cases do happen is shown by `CalcTheory.TenMinusSixMinusFour`,
`CalcTheory.OpenParenTakesNumberTwice`, `CalcTheory.OverflowAtParenIsSilent`, `RenameList.EarlyEndLosesAll`,
`RenameList.LaterItemReplacesEarlier`, `RenameList.TangledCountsTwice`, `JobProtocol.HangIsReachable` and
`DisplayManager.LockedOut` (a locked session whose greeter exits gets no other one).

## Model

| member | source | states |
|---|---|---|
| Calc.Engine.constructor | calc/src/math.c:871-875 | the engine starts with empty stacks, the display holding the number |
| Calc.Engine.DoPushOp | calc/src/math.c:879-888 | pushes one slot, or raises the error flag when 32 are there, and nothing else changes |
| Calc.Engine.DoPopOp | calc/src/math.c:891-901 | takes the top operator and leaves the rest; an empty stack yields none and the error flag |
| Calc.Engine.DoPushNum | calc/src/math.c:921-936 | pushes one number, or raises the error flag when 32 are there |
| Calc.Engine.DoPopNum | calc/src/math.c:939-955 | takes the top number; an empty stack yields zero and the error flag |
| Calc.Engine.TwoOpPressed | calc/src/math.c:475-543 | an operator key does to both stacks, display and flags what the key-by-key specification says, in every branch |
| Calc.Engine.TwoOpAfter | calc/src/math.c:497-538 | the branches after a previous operator: restore a parenthesis, stack, or carry out one operator |
| Calc.Engine.EqualsPressed | calc/src/math.c:600-653 | `=` does all pending operators and leaves the last result on the number stack |
| Calc.Engine.DoAllPending | calc/src/math.c:616-649 | the loop of `=` reaches the fixed point of its one-operator step |
| Calc.Engine.LParenPressed | calc/src/math.c:655-662 | `(` pushes a parenthesis and counts it |
| Calc.Engine.RParenPressed | calc/src/math.c:680-734 | `)` closes one level and leaves its value as the current number |
| Calc.Engine.CloseGroup | calc/src/math.c:698-728 | the loop of `)` stops at the first left parenthesis and removes it |
| Calc.PressAllConcat | calc/src/math.c:475-734 | keys typed in two portions act as one sequence |
| CalcTheory.PriorityIsClass | calc/src/math.c:992-1010 | one operator binds tighter than another if and only if it stands in an earlier of the classes power; multiply, divide, modulus; add, subtract; shifts; and; exclusive or; or |
| CalcTheory.LastOperatorCounts | calc/src/math.c:483-488 | of two operator keys in a row the second counts, for any operators |
| CalcTheory.KeysWithoutEffect | calc/src/math.c:680-688 | `)` without `(`, `)` and `=` right after an operator, and every key after an overflow leave the result of whatever is typed next as it would have been |
| CalcTheory.OpenParenTakesNumberTwice | calc/src/math.c:614-649 | `=` with one parenthesis open loses the number typed after it and takes the one before it twice: 2 * ( 5 = gives 4 |
| CalcTheory.OperatorReplacesParen | calc/src/math.c:483-488 | an operator key right after `(` takes the parenthesis off the stack and leaves it counted |
| CalcTheory.TypingAnExpression | calc/src/math.c:475-734 | keying in any expression on top of whatever already waits leaves exactly the operators and operands that the one-reduction rule leaves, and touches nothing below |
| CalcTheory.EvaluatesKeyed | calc/src/math.c:600-653 | after `=` the operator stack is empty, all parentheses are closed, and one more number is on the number stack |
| CalcTheory.TypedIsLocal | calc/src/math.c:496-538 | what waits at one parenthesis level never disturbs what waits below it |
| CalcTheory.UninterpretedOperators | calc/src/math.c:475-734 | for every standard expression whose operators each find at most one reduction to do, over any operators whatever, keys and `=` give the standard left-associative precedence value, within the stacks |
| CalcTheory.StandardIffOneReduction | calc/src/math.c:511-538 | with operators that only build trees the result is the standard one if and only if no arriving operator should have carried out two |
| CalcTheory.MissedReductionLeansRight | calc/src/math.c:511-538 | every missed reduction makes the computed tree lean strictly further right than the standard tree |
| CalcTheory.TenMinusSixMinusFour | calc/src/math.c:511-538 | 10 - 2 * 3 - 4 gives 8 |
| CalcTheory.SumsOfProducts | calc/src/math.c:475-734 | sums and products with parentheses give the mathematical value for any associative addition, although sums are nested to the right |
| CalcTheory.SumsAndProductsInvariant | calc/src/math.c:496-538 | each parenthesis level holds pending sums followed by at most one pending product |
| CalcTheory.RoomForThirtyTwoResults | calc/src/math.c:614-649 | each `=` leaves a number behind, so exactly the 33rd one overflows the number stack |
| CalcTheory.OverflowAtParenIsSilent | calc/src/math.c:692-733 | with the number stack full, `)` loses a waiting number and reports nothing, where `=` reports the overflow |
| CalcTheory.SmallFits | calc/src/math.c:877-936 | any expression of up to 31 operators and pairs of parentheses fits the stacks, however it is nested |
| Conflict.DecRoundTrip | fm/src/fileops.c:58-68 | the printed counter reads back as the number and has no slash |
| Conflict.CandidatesDiffer | fm/src/fileops.c:52-74 | the names with (2) to (999) are pairwise distinct |
| Conflict.CandidateText | fm/src/fileops.c:38-68 | a candidate is the name up to its first dot, a space, the number in parentheses, and the rest, in the same directory |
| Conflict.ResolvedIsFirst | fm/src/fileops.c:34-75 | the name itself when it is free, else the first free number from 2 on, and the taken name again when all 998 are taken |
| Conflict.CandidateFitsBuffer | fm/src/fileops.c:54-67 | every candidate and its terminator fit the allocated length |
| Conflict.ResolvedFreeIff | fm/src/fileops.c:31-76 | the search yields a free name if and only if fewer than 999 of the name and its numbered variants are taken |
| Conflict.ResolvedIsFree | fm/src/fileops.c:31-76 | so a directory with fewer than 999 entries always yields a free name |
| MoveTheory.NoRivals | fm/src/jobqueue.c:115-126 | any number of items find free names when no two want the same one and each finds one at the start |
| Conflict.ResolvedStaysInDirectory | fm/src/fileops.c:38-68 | the chosen name lies in the directory that was asked for |
| CopyTheory.ExactIffNoEarlyEnd | fm/src/fileops.c:208-236 | a copy that reports success is exact if and only if no directory read ended early while it was made |
| CopyTheory.ExactIffNothingLost | fm/src/fileops.c:208-236 | a copy without the skipped entries equals its source if and only if none was skipped |
| Paths.DirectoryLeaves | fm/src/fileops.c:159-177 | counting entry by entry counts the files of the whole subtree |
| FileOps.World.ListDir | fm/src/fileops.c:160-176 | a directory read gives distinct entries; an early end looks like the end, and what it left out is recorded; undisturbed it gives all |
| FileOps.World.ResolveConflict | fm/src/fileops.c:31-76 | the search loop returns the first free candidate |
| FileOps.World.WriteBlock | fm/src/fileops.c:114-126 | writes the whole block in any number of calls, or a part of it and reports failure, which only a failing write causes |
| FileOps.World.CopyBytes | fm/src/fileops.c:105-129 | on success the destination holds all bytes; on failure an error was seen or the job was cancelled; undisturbed it succeeds, and a job cancelled before writes nothing |
| FileOps.World.CopyFile | fm/src/fileops.c:80-138 | success means an equal file, whether the destination is new or replaced; after a cancellation no partial file is left unless the clean-up itself failed; undisturbed a file is copied wherever a directory is and no directory or link has the name |
| FileOps.World.CopyRecursive | fm/src/fileops.c:182-261 | whatever call fails and whenever cancellation strikes: only the destination changes, in every intermediate state; success means the destination is the source without what early-ended directory reads left out, and equals the source if and only if there were none; absent read and write errors no partial file survives; the file counter grows by at most the number of files, and by exactly it when nothing failed. Undisturbed, any file, link or directory that exists is copied without a fault to any place a directory leads to; a job cancelled before copies nothing |
| FileOps.World.CopyDirectory | fm/src/fileops.c:197-236 | the same for a directory, with its entries |
| FileOps.World.CopyEntries | fm/src/fileops.c:208-235 | the loop over entries keeps what is copied, names still free, and the count in step; undisturbed every entry is copied |
| FileOps.World.CopyTo | fm/src/fileops.c:766-776 | the destination is a new path, exact as for CopyRecursive, and nothing that existed before is changed in any intermediate state; undisturbed it succeeds if and only if the source exists and a directory leads to the destination; without either nothing changes |
| FileOps.World.CountFiles | fm/src/fileops.c:148-178 | at most the number of files, and the number of files of an existing item when no call failed, which undisturbed none does |
| FileOps.World.DeleteRecursive | fm/src/fileops.c:265-317 | only the subtree changes, nothing appears, success means it is gone, and the counter grows by at most the number of files; undisturbed whatever exists is deleted without a fault, its entries first; a job cancelled before deletes nothing |
| FileOps.World.DeleteDirectory | fm/src/fileops.c:277-306 | the same for a directory: all its entries go, so that it can be removed |
| FileOps.World.DoRename | fm/src/fileops.c:522-533 | rename moves a subtree within one file system, fails without effect, or reports two file systems; undisturbed it moves exactly what may be moved |
| MoveTheory.TargetText | fm/src/jobqueue.c:153-159 | an item keeps its name: it is asked to go to the target directory, a slash and the last part of its path |
| FileOps.World.MoveOne | fm/src/jobqueue.c:150-185 | in every intermediate state each file of the item is intact at the source or at its place, except what directory reads of this call left out, so all of it when none ended early, whatever other call fails; success means the item arrived, failure that the original is whole; absent read and write errors nothing partial is left; without failures the original is gone. Undisturbed it succeeds if and only if the item is in place, or exists and may be renamed, or copied to where a directory leads; and the state is then the renamed one, on one file system or two |
| FileOps.World.MoveAcross | fm/src/jobqueue.c:171-181 | copy, then delete only after the copy reported success: the same, and lost is only what the copy's directory reads left out; undisturbed copy and delete amount to a rename, or change nothing |
| FileOps.World.ExecCopy | fm/src/jobqueue.c:106-136 | in every state of the job nothing that existed is changed, and what is new is at a source's name or a numbered variant of it; each source whose copy did not fail is at a new path of its own, complete but for what directory reads left out, whatever happens to the others; unless cancelled every source has its turn, and undisturbed, with a target directory, each one that exists is copied; absent read and write errors everything new is complete, also after failures and a cancellation; the counter only rises, never passes the number of files, nor the total if the counting pass was clean, and equals it when nothing failed or was cancelled; a job cancelled before changes nothing |
| FileOps.World.ExecDelete | fm/src/jobqueue.c:189-205 | in every state of the job only what lies in the sources has changed; nothing appears; when no item failed and the job was not cancelled, and always when undisturbed, all sources are gone; undisturbed no disjoint sources that exist fail; the counter only rises, never passes the number of files, nor the total if the counting pass was clean, and equals it for disjoint items when nothing failed or was cancelled; a job cancelled before changes nothing |
| FileOps.World.ExecMove | fm/src/jobqueue.c:138-187 | for any list of items: in every state of the job only what lies in the sources, or at their names in the target directory and numbered variants of those, has changed; the counter only rises, never passes the number of files, nor the total if the counting pass was clean, when all items lie outside the target directory or are out of each other's way, and equals the total when nothing failed or was cancelled; then, absent read and write errors, everything is an old thing in its old place or a complete copy; when no later item goes to an earlier one's name, or to a numbered name that one may have got, every file of every item survives every state of the whole job, except what directory reads left out, every item is at its place when none failed, and the originals are gone when nothing failed; undisturbed, the result is that of each item in turn being moved if it can be (SentAll, on one file system MovedAll), and the job fails if and only if one of them cannot; a job cancelled before changes nothing |
| MoveTheory.CopiedSurvives | fm/src/jobqueue.c:171-181 | while the original is deleted the copy is whole |
| MoveTheory.GoneIffSkipped | fm/src/jobqueue.c:171-181 | once the original is gone, exactly the entries skipped by directory reads are nowhere |
| RenameList.EarlyEndLosesAll | fm/src/jobqueue.c:171-181 | for every directory there is an early end after which copy and delete succeed and nothing that was in it is anywhere |
| MoveTheory.OthersStayIff | fm/src/jobqueue.c:162-170 | a rename leaves everything else as it was if and only if the name is free, the kernel refuses, the item is there already, or the same node is there |
| JobTheory.CopiesNext | fm/src/jobqueue.c:115-135 | copying one more item keeps the earlier copies, and its own place is new and apart from theirs |
| JobTheory.AllWholeNext | fm/src/jobqueue.c:115-186 | one more item copied or moved whole leaves everything whole |
| JobTheory.NumberedBecause | fm/src/jobqueue.c:162-181 | an item gets a numbered name only if its own was taken at the start or may have been taken by an item before it |
| JobTheory.MoveFrameNext | fm/src/jobqueue.c:147-186 | moving one more item changes nothing outside the sources and the places they may take, in any state |
| JobTheory.KeptNext | fm/src/jobqueue.c:147-186 | moving one more item keeps the earlier ones at their places, and the later ones as they were, in every state |
| RenameList.LaterItemReplacesEarlier | fm/src/jobqueue.c:150-181 | an item copied to a numbered name is lost when a later item, of another name, that is just the numbered one, is renamed over it |
| RenameList.TangledCountsTwice | fm/src/jobqueue.c:147-170 | a list whose items are in each other's way moves files twice, and counts more than there are |
| RenameList.AllArriveIff | fm/src/jobqueue.c:147-170 | on one file system every item of a list is at its place in the end if and only if items of the same name hold the same and each rename is acceptable or needless |
| RenameList.DifferentItemsNeedDifferentNames | fm/src/jobqueue.c:147-170 | items with different contents whose renames are acceptable all arrive if and only if their names are pairwise distinct |
| Rename.RenamedWellFormed | fm/src/fileops.c:522-533 | renaming keeps every path inside existing directories |
| Rename.RenameBack | fm/src/fileops.c:593-644 | moving a subtree to a free place and back changes nothing |
| TrashInfo.UrlEncode | fm/src/fileops.c:458-479 | the encoding loop computes the percent encoding, within three bytes per byte and a terminator |
| TrashInfo.DecodeValue | fm/src/fileops.c:575-586 | the decoding loop, for any input |
| TrashInfo.DecodeEncode | fm/src/fileops.c:458-479 | decoding undoes encoding for every path without NUL |
| TrashInfo.EncodedAs | fm/src/fileops.c:466-476 | each byte is encoded on its own: letters, digits, slash, dash, underscore, dot and tilde as they are, any other as a percent sign and two upper-case hexadecimal digits |
| TrashInfo.BothCases | fm/src/fileops.c:576-580 | escapes are read with digits of either case |
| TrashInfo.EncodedIsPlain | fm/src/fileops.c:466-476 | the encoding has no newline: only unreserved characters and percent signs |
| TrashInfo.ReadTrashInfoPath | fm/src/fileops.c:558-591 | the reading loop over pieces of at most 4095 bytes finds the first one that starts with `Path=` |
| TrashInfo.DecodeCut | fm/src/fileops.c:566-586 | a cut encoding decodes to the whole path exactly for an escaped percent sign at the very end, or a 2 after it |
| TrashInfo.ReadsBack | fm/src/fileops.c:536-591 | what was written is read back if and only if the encoded path has at most 4090 characters, or the cut goes unnoticed |
| Trash.TrashNameIsFree | fm/src/fileops.c:481-504 | a trash of fewer than 9999 entries has a free name |
| Trash.TrashCandidateText | fm/src/fileops.c:490-503 | in the trash a numbered name is the name up to its first dot, a dot, the number, and the rest |
| Trash.TrashNameIsFirst | fm/src/fileops.c:485-505 | the name itself when it is free in the trash, else the first free number, and the taken name again when all are taken |
| Trash.TrashedArrives | fm/src/fileops.c:518-551 | trashing leaves the whole item in the trash and the path and date beside it, and touches nothing else |
| Trash.TrashThenRestore | fm/src/fileops.c:506-644 | trashing and restoring gives back the file system without the info file, and is the identity if and only if no stale info file had that name |
| Trash.ParentsLead | fm/src/fileops.c:605-618 | after the missing parents are made directories lead to the path if and only if nothing else was in the way |
| Trash.RestoredArrives | fm/src/fileops.c:593-644 | from any state in which nothing but directories is on the way, also when some are gone, restoring puts the whole entry at the recorded path or the first free number of it, removes it and its info file from the trash, keeps everything else, and makes only the missing directories |
| Trash.TrashedComesBack | fm/src/fileops.c:506-644 | whatever else happened since an item was trashed, restoring brings back all of it, as long as its path fits the reader's line and only directories are on the way |
| Trash.TrashCan.UniqueTrashName | fm/src/fileops.c:481-504 | the search loop returns the first free name |
| Trash.TrashCan.EnsureTrashDirs | fm/src/fileops.c:441-456 | only the three trash directories are new, and they exist on success, which undisturbed they do unless something else has one of their names |
| Trash.TrashCan.Relocate | fm/src/fileops.c:522-533 | rename, or copy and delete: success means the item arrived, failure that it is whole, and only what directory reads of this call left out is missing from any state; without failures both amount to a rename; undisturbed an item that exists goes wherever a directory leads |
| Trash.TrashCan.WriteInfo | fm/src/fileops.c:535-551 | only the info file changes, and it holds the text when nothing failed; undisturbed it is written wherever a directory leads |
| Trash.TrashCan.Trash | fm/src/fileops.c:506-556 | in every intermediate state each file is intact at the source or in the trash, except what directory reads of this call left out, and everything else but the info file is as it was; success means the item arrived under a new name, failure that the original is whole; without failures the result is the specified one; undisturbed, with a trash that can be made, whatever exists is trashed |
| Trash.TrashCan.MakeParents | fm/src/fileops.c:605-618 | only missing directories above the recorded path are made; undisturbed, where nothing else is in the way, directories lead to it afterwards |
| Trash.TrashCan.MoveBack | fm/src/fileops.c:620-638 | success means the entry arrived at a free name, failure that it is whole, and nothing else is overwritten in any state; undisturbed it succeeds where directories lead |
| Trash.TrashCan.Restore | fm/src/fileops.c:593-644 | in every intermediate state the entry survives, except what directory reads of this call left out, and everything else but the info file is as it was; success means it arrived at a new path, failure that it is whole; without failures the result is the specified one; undisturbed, an entry with a readable path to which nothing but directories, or nothing, lies on the way is restored |
| JobList.Queue.EnqueuePending | fm/src/jobqueue.c:53-64 | appends one job; both lists stay linked and no job is on two lists; the protocol's Submit |
| JobList.Queue.TakePending | fm/src/jobqueue.c:66-82 | takes the first job and clears its link, or finds none; the protocol's Look |
| JobList.Queue.EnqueueDone | fm/src/jobqueue.c:87-93 | puts the job in front of the done list; the protocol's EnqueueDone |
| JobList.Queue.DrainDone | fm/src/jobqueue.c:95-102 | the whole done list changes hands, newest first; the protocol's Drain |
| JobList.Queue.FreeBatch | fm/src/jobqueue.c:270-298 | each job of the batch is freed once, in list order, its link read before; a run of the protocol back to the event loop |
| JobList.Queue.FreeRemaining | fm/src/jobqueue.c:331-349 | what is left on either list is freed once; a run of the protocol to its end |
| JobProtocol.InvKept | fm/src/jobqueue.c:53-102 | every step of either thread keeps order, places, batches, wakeups and phases |
| JobProtocol.ExactlyOnce | fm/src/jobqueue.c:233-258 | in every run each submitted job is in exactly one place; jobs are executed once, in order of submission; after the join all are; after closing each is freed once |
| JobProtocol.BatchesAreReversedStretches | fm/src/jobqueue.c:262-298 | the drained batches, each turned round, are the completed jobs in order up to the done list |
| JobProtocol.NoLostWakeup | fm/src/jobqueue.c:55-102 | the worker sleeps only with nothing pending and the queue running; a finished job has a byte on its way to an idle main thread |
| JobProtocol.ShutdownProgresses | fm/src/jobqueue.c:322-350 | after shutdown every step decreases the remaining work |
| JobProtocol.ShutdownTerminates | fm/src/jobqueue.c:322-350 | after shutdown no run is longer than the remaining work |
| JobProtocol.StuckWhenLeaving | fm/src/jobqueue.c:322-329 | a shut-down queue stops only when closed, or with the worker blocked on a full pipe |
| JobProtocol.ClosesIffPipeHasRoom | fm/src/jobqueue.c:251-255 | shutdown completes, with every job executed and freed once, if and only if the pipe has room for every byte still owed |
| JobProtocol.HangIsReachable | fm/src/jobqueue.c:251-255 | for every pipe size, one job more than it holds, submitted before a shutdown, can hang the program |
| DeviceTable.ApplyKeepsDistinct | fm/src/fm_mountd.c:34-126 | every signal keeps one entry per device and the bound of 64 |
| DeviceTable.SignalSays | fm/src/fm_mountd.c:34-126 | what each signal does, entry by entry: one entry more, the one entry gone, or the mount fields of the one device set or cleared, and all others as before; a signal about an unknown device does nothing |
| DeviceTable.EarlyUpdate | fm/src/places.c:738-805 | an update ahead of its signal makes no difference if and only if a signal on its way settles that entry or it was right already |
| Mountd.MountDaemon.FindDevice | mountd/src/devices.c:16-24 | the first entry for the path |
| Mountd.MountDaemon.AddDevice | mountd/src/devices.c:26-53 | appends an unknown device while there is room, and only then |
| Mountd.MountDaemon.RemoveDevice | mountd/src/devices.c:55-67 | the last entry takes the place of the removed one; an unknown device changes nothing |
| Mountd.MountDaemon.Unlock | mountd/src/mount_ops.c:194-231 | success means unlocked with a known file system inside; what signals tell is unchanged; with a passphrase and a name only a refused call makes it fail |
| Mountd.MountDaemon.DoMount | mountd/src/mount_ops.c:174-297 | success means an unmounted tracked device is now mounted, with an allowed file system and unlocked if encrypted; failure shows nothing; when no call is refused it succeeds if and only if the device is tracked, not mounted, of an allowed type inside, and an encrypted one comes with a passphrase |
| Mountd.MountDaemon.DoUnmount | mountd/src/mount_ops.c:301-351 | success means a mounted device is not mounted any more, and locked again if the daemon had unlocked it; failure changes nothing; when no call is refused it succeeds if and only if the device is mounted |
| Mountd.MountDaemon.DoEject | mountd/src/mount_ops.c:355-395 | success unmounts and removes; failure changes nothing, or unmounts a device that was mounted; when no call is refused it succeeds if and only if the device is tracked |
| Mountd.MountDaemon.HandleMount | mountd/src/dbus.c:126-174 | the signals sent say exactly what changed, and are those the file manager's side is proved against; when it succeeds as for DoMount |
| Mountd.MountDaemon.HandleUnmount | mountd/src/dbus.c:178-203 | the signals sent say exactly what changed, and are those the file manager's side is proved against; when it succeeds as for DoUnmount |
| Mountd.MountDaemon.HandleEject | mountd/src/dbus.c:207-234 | both signals on success and none on failure; a failure at most unmounts the device; the signals say exactly what changed if and only if the call succeeded, or the device was not mounted before, or still is; when it succeeds as for DoEject |
| Mountd.MountDaemon.MonitorDispatch | mountd/src/platform_linux.c:223-308 | which signal each event sends; the table is the one the signal tells, or with the new device mounted by the daemon itself; the signals say exactly what changed if and only if there were none or the device is not mounted afterwards, so always without auto-mount; afterwards a removed device is not tracked, and an added one is while there is room, mounted if the daemon mounts on its own, the type is allowed and no call is refused |
| Replication.DeviceList.constructor | fm/src/fm_mountd.c:187-239 | the copy starts as the listed devices, at most 64 |
| Replication.DeviceList.SignalFilter | fm/src/fm_mountd.c:17-129 | each signal changes the copy as specified: append, swap-remove, set or clear the mount |
| Replication.DeviceList.CallReturned | fm/src/places.c:738-805 | the update after a successful call, looked up by label first and by path second; unless a label is another device's path, entry by entry: the device is mounted at the result after a mount, not mounted after an unmount or eject, and all others are as before |
| Replication.ReturnSays | fm/src/places.c:738-805 | the same of the table: exactly the entry of the device the call was about is written, with the result cut at 255 bytes |
| Replication.StepKeepsInv | fm/src/places.c:738-805 | every step keeps agreement, updates ahead of signals included |
| Replication.ReplicaAgrees | fm/src/fm_mountd.c:17-129 | in every reachable state the daemon's table is the copy with all signals in flight applied, in the same array order |
| Replication.AgreesFromStart | fm/src/fm_mountd.c:187-239 | so it does in every run from the state after ListDevices |
| Replication.NothingDropped | fm/src/fm_mountd.c:41-47 | a delivered DeviceAdded is always appended: the bound of 64 drops none |
| Replication.ClashMatters | fm/src/places.c:744-760 | when a label is another device's path the copy still agrees if and only if the wrongly written entry is settled by a signal on its way or said so already |
| Replication.MissedAddStaysMissed | fm/src/fm_mountd.c:174-251 | with a device added between the list and the subscription, copy and daemon track the same devices if and only if the daemon has removed that device since |
| Replication.MissedRemoval | fm/src/fm_mountd.c:174-251 | a device removed in between stays in the copy for good, one entry too many through all later additions and removals that find room |
| Replication.MissedMountSettles | fm/src/fm_mountd.c:174-251 | a mount or unmount missed in between is made good if and only if a later signal about the device other than an addition comes, or nothing had changed |
| Framing.LinesJoin | dm/src/ipc.c:309-318 | the lines and what is left over make up the stream, nothing lost or added |
| Framing.LinesCut | dm/src/ipc.c:309-318 | without NULs no line holds a newline and neither does the rest |
| Framing.ChunkIndependent | dm/src/ipc.c:306-326 | the same lines come out however the stream is split |
| Framing.SplitIffNoNul | dm/src/ipc.c:309-318 | the lines that come out are the first newline-separated lines of the stream, and all of them if and only if no NUL comes before a newline |
| Framing.NulBlocks | dm/src/ipc.c:310-318 | once a NUL waits before any newline no further line comes out |
| Framing.StreamIsDispatched | dm/src/ipc.c:279-326 | for a connection that no handler closes (Dm.Handle does what Receive says): a stream without NULs whose lines fit is dispatched line by line, in any split, and the connection stays open |
| DisplayManager.LocksAreSeparated | dm/src/dm.c:422-450 | between two Locked signals there is an Unlocked or a SessionEnded |
| DisplayManager.UnlockHasLock | dm/src/dm.c:452-469 | every Unlocked has a Locked before it and no SessionEnded in between |
| DisplayManager.NoStartWhileLocked | dm/src/ipc.c:178-190 | no session starts while one is locked |
| DisplayManager.Dm.GreeterStart | dm/src/greeter_proc.c:17-69 | a running greeter stays; otherwise one is there unless the fork failed |
| DisplayManager.Dm.GreeterStop | dm/src/greeter_proc.c:71-104 | the greeter is gone and its connection closed with an empty buffer |
| DisplayManager.Dm.SessionStart | dm/src/session.c:241-386 | success sets pid, user and desktop and announces the user; failure keeps the session as it was and is due to the user, the desktop file or the fork |
| DisplayManager.Dm.SessionCleanup | dm/src/session.c:388-402 | announces the end for the right user, clears pid, user and lock, and restarts the greeter |
| DisplayManager.Dm.LockSession | dm/src/dm.c:422-450 | locks exactly when a session is there and not locked, with a greeter up |
| DisplayManager.Dm.DbusDispatch | dm/src/dbus.c:108-120 | the requests in order: a session is locked afterwards if one asked for it, with one signal, and the loop ends exactly if an allowed power request was among them |
| DisplayManager.Dm.UnlockSession | dm/src/dm.c:452-469 | unlocks exactly when locked, and the greeter goes |
| DisplayManager.Dm.HandleAuth | dm/src/ipc.c:129-191 | the password check is asked once, about the name before the first space and the rest, when both fit; a wrong password changes nothing; a right one unlocks its user's session and no other, or, when none is locked, ends the greeter and starts a session, unless there is no such user or desktop, or no process |
| DisplayManager.Dm.DispatchMessage | dm/src/ipc.c:252-277 | which message changes what: AUTH as for HandleAuth, SESSION the desktop, CANCEL_LOCK the lock, SHUTDOWN and REBOOT end the loop exactly if allowed, and no other message changes anything |
| DisplayManager.Dm.Accept | dm/src/ipc.c:78-96 | a new connection starts with an empty buffer |
| DisplayManager.Dm.ProcessLines | dm/src/ipc.c:306-318 | all non-empty complete lines are dispatched in order, also when a handler closes the connection |
| DisplayManager.Dm.Handle | dm/src/ipc.c:279-326 | for each outcome of the read: an open connection has 0 to 4095 bytes waiting, and they are the incomplete line; all complete lines are dispatched; a full buffer, an end of file or a handler of AUTH or CANCEL_LOCK closes the connection, and nothing else does |
| DisplayManager.Dm.HandleStream | dm/src/ipc.c:279-326 | a stream without NULs whose lines fit, read in any pieces: what was read is dispatched line by line, an open connection has read all of it, and without AUTH and CANCEL_LOCK lines the connection stays open and exactly the non-empty newline-separated lines are dispatched |
| DisplayManager.Dm.ReapChildren | dm/src/dm.c:137-159 | each exited process clears its own state and no other, a running greeter stays, and the session's end is announced once |
| DisplayManager.Dm.KeepAlive | dm/src/dm.c:369-383 | at the end of an iteration, spawns succeeding, X is up and no session means a greeter |
| DisplayManager.Dm.constructor | dm/src/dm.c:243-268 | the state after a successful start satisfies what holds between iterations |
| DisplayManager.Dm.Iteration | dm/src/dm.c:270-384 | any iteration, also after failed forks, keeps session state, buffer and signals consistent, takes back no signal, ends with a greeter or a session unless a fork failed in it, and is a Turn: the end of an exited session is announced, no exited process is kept, what was read is dispatched line by line, a lock request leaves the session locked, power requests end the loop exactly if allowed, and without AUTH and CANCEL_LOCK lines session, lock, signals and connection are otherwise as before |
| DisplayManager.Dm.Run | dm/src/dm.c:270-384 | every run of the loop is a chain of such turns, one for each wakeup until the loop ends |
| DisplayManager.EndsAreAnnounced | dm/src/dm.c:147-157 | in every run, when a session's process exits its end is announced in the same turn and stays announced |
| DisplayManager.LockHolds | dm/src/dm.c:422-469 | in every run, a locked session stays locked, without a signal, until its process exits or a message that can unlock it is read |
| DisplayManager.LockedOut | dm/src/dm.c:368-375 | in every run, when the greeter of a locked session is gone none is started until a session or X server process exits or such a message is read |
| DisplayManager.GreeterLostWhileLocked | dm/src/dm.c:368-375 | a quiet turn of a locked session ends without a greeter if and only if it began without one or the greeter exited |
| Taskbar.Panel.Unlink | panel/src/taskbar.c:397-402 | one group leaves the list, the others keep their order |
| Taskbar.Panel.Link | panel/src/taskbar.c:404-420 | one group enters the list at the chosen place |
| Taskbar.Panel.MoveChildTo | panel/src/taskbar.c:347-374 | the child moves to the target and the others keep their order |
| Taskbar.Panel.TogglePin | panel/src/taskbar.c:386-427 | the group goes to the end of the pinned ones and its button with it; pinned groups stay in front, buttons in step, the others in order |
| Taskbar.Panel.FindGroup | panel/src/taskbar.c:632-640 | the first group of the class |
| Taskbar.Panel.AddGroup | panel/src/taskbar.c:642-769 | a new unpinned group at the tail with its button last |
| Taskbar.Panel.Init | panel/src/taskbar.c:847-856 | one pinned group for each class, in order |
| Taskbar.Panel.AddWindow | panel/src/panel-x11.c:355-371 | a window is added once |
| Taskbar.Panel.Prune | panel/src/panel-x11.c:300-325 | exactly the unpinned groups without windows go, with their buttons, and the others keep their order |
| Taskbar.Panel.Update | panel/src/panel-x11.c:251-326 | afterwards every eligible window is in exactly one group, of its own class, only pinned groups are empty, and survivors keep their order |
| Md5.OrderAt | fm/src/thumbs.c:76-79 | the index formulas give the word order of section 3.4 of RFC 1321 |
| Md5.SameShift | fm/src/thumbs.c:47-52 | the shift table is the four amounts of each round |
| Md5.SameRotation | fm/src/thumbs.c:54-57 | the shift-and-or is a circular shift for all amounts used |
| Md5.SameOperation | fm/src/thumbs.c:76-82 | the program's step computes the operation of section 3.4 of RFC 1321 |
| Md5.TurnShifts | fm/src/thumbs.c:81-82 | shifting the registers is the rotating-operand form seen from renamed registers |
| Md5.Steps | fm/src/thumbs.c:73-83 | 64 program steps are 64 steps of section 3.4 of RFC 1321 |
| Md5.PaddedLength | fm/src/thumbs.c:64-69 | the buffer length is that of the padding of sections 3.1 and 3.2 of RFC 1321 |
| Md5.LeastMultiple | fm/src/thumbs.c:64 | the buffer length is the least multiple of 64 with room for nine more bytes |
| Md5.Pad | fm/src/thumbs.c:64-69 | the buffer holds the padded message |
| Md5.LengthInBits | fm/src/thumbs.c:68-69 | the last eight bytes are the number of bits of the message modulo 2^64, low-order word and byte first, as section 3.2 of RFC 1321 has it |
| Md5.InitialBytes | fm/src/thumbs.c:61-62 | the registers start with the bytes of section 3.3 of RFC 1321 |
| Md5.Hash | fm/src/thumbs.c:59-92 | the digest is that of RFC 1321, for every byte string |
| ProfileKey.KeyFits | displayd/src/main.c:121-125 | the key and its terminator fill the computed length exactly |
| ProfileKey.FirstDifferenceDecides | displayd/src/main.c:51-54 | the order of the hashes: a prefix comes first, otherwise the first character that differs decides |
| ProfileKey.JoinConcat | displayd/src/main.c:126-131 | between the joins of two lists there is one comma, and one hash is its own join |
| ProfileKey.HashesConcat | displayd/src/main.c:85-106 | the hashes are collected output by output |
| ProfileKey.JoinInjective | displayd/src/main.c:126-131 | the joined string determines the list, for hashes without commas |
| ProfileKey.SortedUnique | displayd/src/main.c:119 | there is one way to sort |
| ProfileKey.SameKeyIffSameMonitors | displayd/src/main.c:59-134 | two sets of monitors have the same key if and only if their hashes are equal as multisets |
| ProfileKey.BuildProfileKey | displayd/src/main.c:59-134 | no key exactly when no connected monitor has a hash; otherwise the sorted join, of the computed length |
| Calendar.DowFirstCounts | panel/src/calendar.c:38-46 | from year 1 on the first of the month falls on the day of the week that counting days from 1 January of year 1 gives |
| Calendar.PageIsConsecutive | panel/src/calendar.c:61-101 | from year 1 on the 42 cells are consecutive days, columns are days of the week, and the whole month is among them |
| Calendar.FollowingBegins | panel/src/calendar.c:122-131 | the following month is one month later in every year, and from year 1 on begins when all days of this one have passed |
| Calendar.Panel.Populate | panel/src/calendar.c:48-109 | the loop writes these labels |
| Calendar.Panel.NextMonth | panel/src/calendar.c:122-131 | the page of the following month |
| Calendar.Panel.PrevMonth | panel/src/calendar.c:111-120 | the page of the month that the shown one follows, so next and previous undo each other |

## Left out

- Widgets, layout, themes, menus, graphs, audio and drag and drop.
- Floating point, display editing, functions of one argument and RPN mode of the calculator; arithmetic is a parameter.
- Calculator keys where the program is not well behaved: `=` with open parentheses and an operator right after `(` are specified key by key and shown by examples, but no expression theorem covers them.
- File modes, times, special files, byte counters and the error code kept in a job.
- Emptying the trash, the job that trashes several items one after the other, and trashing a directory that holds the trash itself.
- Paths of PATH_MAX bytes or more, which the program cuts and the kernel refuses.
- Names once the name and all its numbered variants are taken (999, in the trash 9999): the program then falls back to the taken name.
- An info path that is a symbolic link: writing through it is taken as a failing open.
- FileOps.World.ExecMove: survival and arrival of every source are stated for lists in which no item is in another's way or goes to a name that an earlier one has, or may have got; other lists may lose items (RenameList.LaterItemReplacesEarlier), but need not.
- FileOps.World.CopyFile: a symbolic link at the destination, through which open would write, is not modelled; the program only asks for names where nothing is.
- JobProtocol: jobs are numbers and their execution is one step.
- The passing of signals by D-Bus beyond one queue in order, and vendor and ejectability, which signals do not carry.
- Mountd.MountDaemon.DoMount: the mount point is a parameter; the making of its name from the user and the label is not modelled.
- Mountd.MountDaemon.MonitorDispatch: which devices are removable, and how labels are read, are parameters.
- The state read from /proc/mounts at start-up, and the FreeBSD platform file.
- DisplayManager.Dm.DispatchMessage: replies to the greeter, the list of sessions, suspending, the killing of processes before a power off, and the seat are not modelled; what PAM answers is nondeterministic.
- DisplayManager.Dm.SessionStart: what the child process does.
- Desktop entries, icons and menus of a taskbar group; the window manager's list is a parameter, with one class for each window.
- Md5.Digest: the sine table is taken as printed, not derived; the program's host is little-endian.
- ProfileKey.BuildProfileKey: reading EDID data; qsort is modelled by a sort of its own.
- The date of today and its highlighting in the calendar; years before 1 have pages, but no theorem about their weekdays.
- Navigation history, thumbnails other than their key, monitor planning and the remaining daemons.
