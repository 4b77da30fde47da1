# Reference monitor: a verified model

A Linux kernel module keeps a list of protected paths. While it is switched on, four hooks refuse to
open those paths for writing, to create or remove directories in them and to unlink them, mark the
inodes concerned read-only and immutable, and record every refusal in an append-only log kept by a
small single-file file system. An administrator switches the monitor between ON, OFF, REC_ON and
REC_OFF, changes the list and changes the password, either through three system calls claimed in the
system-call table or by writing a line of text to a file under `/proc`.

The project has five parts.

- **The list as pointers** (`RcuList`, `RcuRuns`, `Lookups`): lock-free readers, one lock holder that inserts, or
  unlinks, waits for a grace period and frees; every interleaving of their single steps.
- **The monitor as a state machine** (`PathList`, `InodeMark`, `Monitor`, `Removal`, `Syscalls`,
  `CallOutcomes`, `OpenFlags`, `Hooks`, `HookPromises`, `OpenScenarios`, `Audit`, `System`, `OpenRuns`): calls, hook firings and deferred work as one-step transitions, invariants over every
  run, and `MonitorModule`, a class with the module's globals whose methods and loops are proved to take
  exactly those steps. `Calls` cuts the calls into the steps at which they read and write shared data, and
  `LoneCalls` shows that the steps of a call that runs alone come to the call in one step;
  `Overlaps` does the same for hooks, additions, removals and state changes and what they do to inodes.
- **Buffers** (`CString`, `PathSolver`, `PathBuffer`): the in-place rewriting of names before lookup.
- **The log** (`BlockStore`): the block write loop against a byte sequence that only grows at its end.
- **Two front ends and the table** (`Tokens`, `Decimal`, `TextProtocol`, `TextOrder`, `TextRoundTrip`,
  `TextLines`, `TextCrash`, `TextBuffer`, `TextModule`, `SyscallTable`, `SyscallSlots`): the text protocol against the direct
  calls, and the claiming of table slots against the entries published to user space.

## Main results

1. No reader ever touches freed memory; a lookup's "listed" was true at a moment of its own read
   section, its "not listed" is right about every entry that was linked throughout, and while nobody
   changes the list both are right; the list in memory is always the one that the operations give when
   carried out one at a time.
2. Over every run, hard-link aliases and arbitrary memory behind the paths included, hooks are on exactly
   in ON and REC_ON and an inode differs from its own attributes only while it is listed, marked and the
   hooks are on. A removal keeps this, and restoring still works after it, if and only if a condition on
   the list holds; the condition holds without aliases, and a counterexample with aliases is given. When
   hooks and calls overlap, exactly the named overlaps break it, and runs show how.
3. Every denial is counted once and dropped, queued or written; the log is its header followed by whole
   records of finished works in queue order.
4. A write appends the whole buffer or leaves the visible file as it was, whatever fails and when.
5. Every attempt to open a protected file for writing fails, whatever name leads to it and whatever its
   memory holds when it is read again, if and only if the name is not exempt and the path the hook is left
   with leads to that inode, or no path to the inode can be protected. The whole handler denies just what
   it sets out to if and only if a condition on the name and the memory behind it holds. Runs from loading
   on show what passes: a link under "/tmp", a protected file whose own name looks like a backup, and a
   directory whose path is spoilt by the name of a new file in it. The directory hooks protect an inode
   if and only if no other path to it can be protected.
6. Printing a command and writing it to the access point does what the direct call does, for list changes
   if and only if the memory behind the path lets its canonical form take its place, with a path that
   fails; options are a set up to letter case; pairs may come in any order; a line crashes the kernel if
   and only if its last word acts as an option flag.
7. In every interleaving of calls each change was guarded, though the guards were read at different
   moments; two runs show what that permits.
8. Claimed slots are the first places of the first repeated value; loading and unloading restores the
   table; they are the published entries if and only if the not-implemented address repeats first.

## What the model takes as given

- Path lookup is a function of the name that does not change during a run, and what it returns looks up
  to itself (`Monitor.Canonical`). There is one file system, and nobody else changes inode modes.
- `err` is tested before it is assigned in `add_path` and `del_path`
  (`reference-monitor/lib/reference_rcu_restrict_list.c:91`, `:148`); it is taken to be zero.
- The password digest is an arbitrary function of the password.
- `synchronize_rcu` waits for every read section in progress, although it is called under a spinlock.
- The parser's fixed arrays are preconditions: fewer than sixteen words, fewer than nine options behind an
  option flag, and behind a path flag a word that fits a path buffer (`TextModule.LineFits`).
- The device is smaller than 8 TiB, and requests are at most as long as the VFS lets through.
- A path buffer holds a terminated string when a call or the open hook receives it. If copying a canonical
  path into it removes the last NUL, the string is taken to end with the buffer.
- Disabling a hook does not wait for handlers that have already begun, and an inode's mode and flags are
  saved in one step and marked in one step (`Overlaps`). In the code these are separate loads and stores,
  so that an addition may save half a mark.
- A name below six characters is looked up alike as it stands and from the working directory
  (`HookPromises.OpenHookExactIff`).

## Where code and documentation differ

- The header comment of `do_change_path` allows an operation joined with a state; the code refuses it
  (`reference-monitor/lib/reference_syscalls.c:169-174`), and so does the model.
- The specification asks that every attempt to open a listed path for writing fails; the code exempts names
  by their first characters, wherever they lead, and takes names that end like swap files for other names.
  `HookPromises.WriteOpenFailsIff` says when the promise holds.
- The header comment of `do_change_path` exempts "/usr" (`reference-monitor/lib/include/reference_syscalls.h:43`);
  the code does not, and exempts "/tmp", "/etc", "/lib", "/" itself and the log in addition
  (`reference-monitor/lib/reference_rcu_restrict_list.c:194-212`), and so does the model.
- Removal is documented as removing a path; the code removes the first entry that begins with the
  request. `Removal.RemovalIsExactIff` says when the two agree.
- The documentation says that the calls take a path; what they work on also depends on the memory behind
  it. `Syscalls.BufferCallIsNameCallIff` says exactly when it does not.
- The documentation promises one line per record; a program path may contain a newline.
  `Audit.OneLinePerRecordIff` says when the promise holds.

## Model

| member | source | states |
|---|---|---|
| `RcuList.StepKeepsInv` | reference-monitor/lib/reference_rcu_restrict_list.c:129-189 | every single step of readers, inserter, remover and restorer keeps the pointers spelling one acyclic doubly linked list, the scan's progress, and every reader on a linked node or on the unlinked one whose grace period includes it |
| `RcuList.UnlinkKeepsChain` | reference-monitor/lib/reference_rcu_restrict_list.c:181-181 | unlinking through back and forward pointers leaves a well-formed chain of all nodes but that one, in the same order |
| `RcuRuns.ReadersNeverTouchFreedNodes` | reference-monitor/lib/reference_rcu_restrict_list.c:155-189 | in every interleaving, with memory reused, no step touches unallocated memory and each reader's node is linked or still waited for |
| `RcuRuns.NobodyIsStuck` | reference-monitor/lib/reference_rcu_restrict_list.c:155-189 | in every run a reader can always take its next step, and the lock holder can unless it waits for a reader that is inside its read section right now |
| `RcuRuns.StepRefinesList` | reference-monitor/lib/reference_rcu_restrict_list.c:129-189 | each pointer-level step is one insertion at the head, one removal of the first entry beginning with the request, or no change |
| `RcuRuns.RunRefinesList` | reference-monitor/lib/reference_rcu_restrict_list.c:129-189 | over every run the list in memory is the result of those operations carried out one at a time |
| `RcuRuns.FoundEntryWasLinked` | reference-monitor/lib/reference_rcu_restrict_list.c:31-40 | a lookup that finds an entry has a moment in its own read section at which that entry was linked, and the entry has the path or the inode asked for |
| `RcuRuns.MissMeansNoLastingMatch` | reference-monitor/lib/reference_rcu_restrict_list.c:227-250 | a lookup that finds nothing was right about every entry linked during its whole read section, whatever ran meanwhile: none has the path or the inode asked for |
| `RcuRuns.LinkedStaysAhead` | reference-monitor/lib/reference_rcu_restrict_list.c:227-250 | a node with the path or inode asked for that stays linked stays ahead of the reader's cursor until an answer is found |
| `Lookups.QuietLookupIsListed` | reference-monitor/lib/reference_rcu_restrict_list.c:214-250 | in every interleaving, a lookup of a path and, for an open, of the inode it leads to, during which the entries stay the same, answers "listed" if and only if the one-step test on the list of that time does |
| `Lookups.MissMeansNotLasting` | reference-monitor/lib/reference_rcu_restrict_list.c:227-250 | whatever changes meanwhile, a lookup that finds nothing was right about every entry linked throughout: it has neither the path nor, for an open, the inode the path leads to |
| `Lookups.MatchIffListed` | reference-monitor/lib/reference_rcu_restrict_list.c:229-246 | some entry of a list satisfies a lookup just if the path, or with the open flag its inode, is listed |
| `PathList.FirstMatch` | reference-monitor/lib/reference_rcu_restrict_list.c:156-158 | the first entry whose path begins with the request, and none before it does |
| `Monitor.RestoreGivesOldest` | reference-monitor/lib/reference_rcu_restrict_list.c:51-70 | restoring from head to tail gives each inode what its oldest entry saved and leaves unlisted inodes alone |
| `Monitor.RestoreGivesBase` | reference-monitor/lib/reference_rcu_restrict_list.c:43-74 | from any state of the invariant, aliases included, restoring brings back every inode's own attributes |
| `Monitor.OffMeansUntouched` | reference-monitor/lib/reference_syscalls.c:126-131 | in OFF and REC_OFF every inode has its own attributes |
| `Monitor.SetStateKeepsInv` | reference-monitor/lib/reference_syscalls.c:120-131 | a state change keeps hooks, entries and inodes in step |
| `Monitor.AddKeepsInv` | reference-monitor/lib/reference_rcu_restrict_list.c:87-131 | an addition keeps the invariant, also of an inode already listed and marked and of a path that is not canonical |
| `Monitor.InsertKeepsInv` | reference-monitor/lib/reference_rcu_restrict_list.c:123-131 | inserting an entry saved earlier keeps the invariant if it saved the inode's own attributes or the inode is already listed |
| `Monitor.MarkKeepsInv` | reference-monitor/lib/reference_path_solver.c:175-182 | marking a listed inode while the hooks are on keeps the invariant |
| `InodeMark.MarkedIff` | reference-monitor/lib/reference_path_solver.c:175-182 | an inode is left without write bits, immutable and with every other bit as before, and there is no other value like that |
| `Monitor.LoadedInv` | reference-monitor/reference_monitor.c:424-449 | the freshly loaded module satisfies the invariant |
| `CallOutcomes.UntilFirstSwitch` | reference-monitor/reference_monitor.c:424-449 | over every run, until the first state change succeeds the monitor is OFF with its hooks off, nothing is listed, denied or touched, and path calls are refused with -ECANCELED |
| `CallOutcomes.LoadedRefusesPaths` | reference-monitor/reference_monitor.c:96-96 | right after loading, additions and removals with the right password are refused with -ECANCELED |
| `Monitor.UnloadRestores` | reference-monitor/reference_monitor.c:528-536 | unloading restores every inode and empties the list |
| `Removal.SafeRemovalKeepsInv` | reference-monitor/lib/reference_rcu_restrict_list.c:158-184 | a removal whose next alias, if any, saved the same attributes keeps the invariant |
| `Removal.RemovalKeepsInvIff` | reference-monitor/lib/reference_rcu_restrict_list.c:158-184 | a removal keeps the invariant if and only if that condition, readable off the list, holds |
| `Removal.RestoreAfterRemovalIff` | reference-monitor/lib/reference_rcu_restrict_list.c:51-184 | after a removal, restoring still brings back every inode if and only if the removed entry was not its inode's oldest or the next alias saved the same |
| `Removal.AliasRemovalLeavesMark` | reference-monitor/lib/reference_rcu_restrict_list.c:123-184 | with two paths to one inode, adding both around a marking and removing both in that order leaves the inode marked and the list empty |
| `Removal.DistinctSavesBase` | reference-monitor/lib/reference_rcu_restrict_list.c:123-127 | without aliases every entry holds its inode's own attributes |
| `Removal.RemovalIsExactIff` | reference-monitor/lib/reference_rcu_restrict_list.c:154-192 | removal deletes at most one entry and is removal of exactly the requested path if and only if no earlier entry properly extends it |
| `MonitorModule.ReferenceMonitor.RestoreBlackListEntries` | reference-monitor/lib/reference_rcu_restrict_list.c:43-74 | the loop over the list writes saved attributes back from head to tail and skips paths that do not resolve |
| `MonitorModule.ReferenceMonitor.DoChangeState` | reference-monitor/lib/reference_syscalls.c:48-138 | guards in order, then state, hooks and inodes as `Monitor.ChangeState` says, with the same error |
| `CallOutcomes.StateCallAnswer` | reference-monitor/lib/reference_syscalls.c:61-107 | a state change succeeds exactly for the administrator with the password, to another of the four states, and each of the four errors comes back exactly when it is due |
| `CallOutcomes.StateCallEffect` | reference-monitor/lib/reference_syscalls.c:100-135 | one that succeeds sets the state and all four hooks and restores inodes when they are off; one that fails changes nothing |
| `LoneCalls.LoneCallIsExecute` | reference-monitor/lib/reference_syscalls.c:48-291 | in every run of interleaved calls, a call that runs alone from its entry to its return leaves the state, digest and list and returns the error of the call in one step |
| `MonitorModule.ReferenceMonitor.IsPathIn` | reference-monitor/lib/reference_rcu_restrict_list.c:24-41 | answers whether the path is listed |
| `MonitorModule.ReferenceMonitor.InsertPath` | reference-monitor/lib/reference_rcu_restrict_list.c:76-135 | refuses a listed path, otherwise inserts at the head with the inode's present attributes |
| `MonitorModule.ReferenceMonitor.DeletePath` | reference-monitor/lib/reference_rcu_restrict_list.c:137-192 | removes the first entry beginning with the request and restores its inode; reports an unlisted path |
| `MonitorModule.ReferenceMonitor.DoChangePath` | reference-monitor/lib/reference_syscalls.c:147-238 | guards in order, lookup in the caller's buffer, then the addition or removal of the path left there, with the same error |
| `CallOutcomes.PathCallWasAdmitted` | reference-monitor/lib/reference_syscalls.c:157-235 | a list change that changes anything or reports success was made by the administrator with the password in REC_ON or REC_OFF |
| `CallOutcomes.PathCallRefusals` | reference-monitor/lib/reference_syscalls.c:157-193 | which guard answers what, in order, changing nothing |
| `CallOutcomes.AdditionAnswer` | reference-monitor/lib/reference_syscalls.c:195-225 | an admitted addition by what is found in the buffer: an error, -EEXIST for a listed path, or the path at the head of the list with its inode's present attributes and nothing else changed |
| `CallOutcomes.RemovalAnswer` | reference-monitor/lib/reference_rcu_restrict_list.c:154-192 | an admitted removal by what is found: an error, -ENOENT without a matching entry, or the first matching entry gone and its inode restored |
| `CallOutcomes.LookupAnswer` | reference-monitor/lib/reference_syscalls.c:195-214 | what a path call finds: nothing, an exempt path, one that leads nowhere, or the path left in the buffer with its inode |
| `CallOutcomes.ExemptIff` | reference-monitor/lib/reference_rcu_restrict_list.c:193-212 | exempt are the root, the log and everything that begins with one of eight names |
| `CallOutcomes.ExemptIsLeftAlone` | reference-monitor/lib/reference_hooks.c:92-94 | an exempt name is never denied by the open hook, and a call on an exempt path is refused with -EINVAL and changes nothing |
| `Syscalls.BufferCallIsNameCallIff` | reference-monitor/lib/reference_syscalls.c:195-214 | for every buffer, password and operation, the call on the buffer does in all states of the invariant what it is meant to do on the name, if and only if the canonical path can take the name's place or the call is refused either way |
| `Syscalls.SameLookupIff` | reference-monitor/lib/reference_path_solver.c:70-109 | the path found in a buffer is the canonical path of the name in it under exactly that condition, and is longer otherwise |
| `MonitorModule.ReferenceMonitor.DoChangePassword` | reference-monitor/lib/reference_syscalls.c:241-291 | succeeds exactly for the administrator with the old password and a different new one of more than eight characters; then the new password is accepted, and otherwise nothing changes |
| `Monitor.NewPasswordReplacesOld` | reference-monitor/lib/reference_syscalls.c:257-288 | the old password is accepted afterwards only if it has the same digest, and changing back undoes the change if and only if the old password is long enough |
| `MonitorModule.ReferenceMonitor.CheckBlackList` | reference-monitor/lib/reference_rcu_restrict_list.c:214-251 | answers whether the path, or with the open flag its inode, is listed |
| `MonitorModule.ReferenceMonitor.MarkInodeReadOnly` | reference-monitor/lib/reference_path_solver.c:175-182 | the three write bits are clear, the immutable flag is set, every other bit and every other inode is as before |
| `MonitorModule.ReferenceMonitor.SolveName` | reference-monitor/lib/reference_hooks.c:120-146 | swap stripping, lookup, parent and second lookup in one buffer give what `Hooks.SolveOpen` says |
| `MonitorModule.ReferenceMonitor.PreDoFilpOpen` | reference-monitor/lib/reference_hooks.c:60-205 | the handler's decision, marking and error, and exactly one call of the top half for each refusal |
| `OpenFlags.WantsWriteIff` | reference-monitor/lib/reference_hooks.c:170-170 | the hook's mask tests just the bits 0x1, 0x2, 0x200 and 0x400 |
| `MonitorModule.ReferenceMonitor.PreVfsMkRmdir` | reference-monitor/lib/reference_hooks.c:209-257 | refuses in a listed parent, marks it and calls the top half once |
| `MonitorModule.ReferenceMonitor.PreVfsUnlink` | reference-monitor/lib/reference_hooks.c:259-318 | refuses a listed file or a file in a listed parent, marks it and calls the top half once |
| `OpenScenarios.OpenMarks` | reference-monitor/lib/reference_hooks.c:148-185 | an open that is refused marks the inode looked at and nothing else, unless refused for a swap name; one that is not refused changes nothing |
| `OpenScenarios.DirHookMarks` | reference-monitor/lib/reference_hooks.c:234-246 | a directory operation that is refused marks the listed directory and nothing else |
| `OpenScenarios.UnlinkHookMarks` | reference-monitor/lib/reference_hooks.c:283-307 | an unlink that is refused marks the listed file, or else the listed directory, and nothing else |
| `OpenScenarios.WritingFails` | reference-monitor/lib/reference_hooks.c:168-178 | with any of the bits 0x1, 0x2, 0x200 and 0x400 a protected file named in full is not opened, and is marked |
| `OpenScenarios.ReadingPasses` | reference-monitor/lib/reference_hooks.c:148-186 | with none of them, no swap name and no creation of a missing file, every open is let through unchanged |
| `OpenScenarios.SwapNameFails` | reference-monitor/lib/reference_hooks.c:163-166 | a protected file is not opened under any of its three swap names, whatever the flags, and is not marked |
| `OpenScenarios.CreatingFails` | reference-monitor/lib/reference_hooks.c:153-161 | in a protected directory no missing file is created or opened for writing, and the directory is marked |
| `OpenScenarios.NoMemoryFails` | reference-monitor/lib/reference_hooks.c:100-105 | without memory for the buffer every open that would be looked at fails |
| `OpenScenarios.NothingToLookAt` | reference-monitor/lib/reference_hooks.c:88-98 | without a name or without its pointer the hook does nothing |
| `System.HooksFireIff` | reference-monitor/lib/reference_syscalls.c:111-131 | the hooks fire in ON and REC_ON and in no other state, with the effect their handlers decide on and one denial on the account for each refusal |
| `MonitorModule.ReferenceMonitor.DeferTopHalf` | reference-monitor/lib/reference_defer.c:118-190 | one more denial on the account, as a snapshot behind all queued ones or, without memory or program file, as a dropped one; queued works, the log and the account's invariant stay |
| `MonitorModule.ReferenceMonitor.DeferBottomHalf` | reference-monitor/lib/reference_defer.c:24-116 | takes the oldest work and appends its whole line to the block store, always if there is a digest, room and no fault, or leaves the file as it was |
| `Hooks.SolveOpenFinds` | reference-monitor/lib/reference_hooks.c:120-146 | what the hook looks at is the named file, or the parent of a missing one, with exactly the swap flag of a found name |
| `Hooks.OpenDecisionExact` | reference-monitor/lib/reference_hooks.c:148-204 | in any state, on a name that is not exempt and whose canonical path is unspoilt, the decision is to deny exactly listed targets opened under a swap name, for writing, or for creation of a missing file |
| `HookPromises.WriteOpenFailsIff` | reference-monitor/lib/reference_hooks.c:88-204 | for every name that leads to a target and every memory read again at its pointer, in all states of the invariant every open of the protected target for writing fails, if and only if the name is not exempt, the pointer is there and the path left in the buffer leads to the target's inode, or no path to it can be protected |
| `HookPromises.OpenHookExactIff` | reference-monitor/lib/reference_hooks.c:88-204 | for every buffer, exempt and short names included, the whole handler denies in all states of the invariant and for all flags just what it sets out to, if and only if an aim it skips, because the name is exempt or short and missing, cannot be protected, and otherwise the name is short or the path left in the buffer leads to the same inode as the aim, or neither can be protected |
| `HookPromises.DirHookByInodeIff` | reference-monitor/lib/reference_hooks.c:229-246 | creating and removing in a directory is denied just while its inode is on the list, in all states of the invariant, if and only if no other path to it can be protected |
| `HookPromises.UnlinkHookByInodeIff` | reference-monitor/lib/reference_hooks.c:281-307 | unlinking is denied just while the file's or the directory's inode is on the list, if and only if no further path to either can be protected |
| `Hooks.UnspoiltIsHarmless` | reference-monitor/lib/reference_hooks.c:120-146 | a buffer in which the canonical path can take the place of the name satisfies that condition |
| `Hooks.PaddedUnspoiltIff` | reference-monitor/lib/reference_hooks.c:130-143 | with NULs behind the name only the parent of a missing file can be spoilt, exactly when its canonical path is longer than the parent as given and shorter than the whole name |
| `Hooks.SpoiltParentExample` | reference-monitor/lib/reference_hooks.c:130-143 | in a state of the invariant with "/long/dir" listed and "/l" leading to it, creating "/l/newfile" for writing is let through because the hook looks at "/long/dire" |
| `OpenRuns.UnwatchedRun` | reference-monitor/lib/reference_hooks.c:88-204 | whenever the hook does not watch a target's inode under the name given, two calls after loading the whole handler lets the protected target be opened for writing without a trace |
| `OpenRuns.SpoiltOpenRun` | reference-monitor/lib/reference_hooks.c:120-204 | the same whenever the path left in a buffer does not lead to what the name in it aims at, a file or the directory of a missing one, though the handler should deny it |
| `OpenRuns.ExemptLinkRun` | reference-monitor/lib/reference_hooks.c:92-94 | such a run for the protected "/home/f" opened through the link "/tmp/x" |
| `OpenRuns.BackupNameRun` | reference-monitor/lib/reference_path_solver.c:127-158 | such a run for the protected "/home/f~" while "/home/f" does not exist |
| `OpenRuns.SpoiltParentRun` | reference-monitor/lib/reference_hooks.c:130-143 | such a run for "/l/newfile" and the protected "/long/dir" |
| `Hooks.ShortNameDecision` | reference-monitor/lib/reference_path_solver.c:122-125 | for names below six characters the hook goes by the name as given and its inode, and only for writing |
| `Hooks.ShortNameMisses` | reference-monitor/lib/reference_path_solver.c:122-125 | in a state of the invariant a short name is denied exactly when it should be, except for a missing file in a protected directory, which is let through |
| `PathSolver.SwapFormsReduce` | reference-monitor/lib/reference_path_solver.c:122-158 | `d/.f.swp`, `d/.f.swpx` and `d/f~` become `d/f` |
| `PathSolver.PlainNameStays` | reference-monitor/lib/reference_path_solver.c:122-132 | other names, and names below six characters, stay |
| `PathSolver.RelativeSwapKeepsDot` | reference-monitor/lib/reference_path_solver.c:134-148 | without a slash the leading dot stays |
| `PathSolver.ParentOfChild` | reference-monitor/lib/reference_path_solver.c:22-41 | the parent of `d/f` is `d` |
| `PathSolver.ParentOfTop` | reference-monitor/lib/reference_path_solver.c:22-41 | a name without a slash, or with a leading one only, stays |
| `PathSolver.AbsoluteIn` | reference-monitor/lib/reference_path_solver.c:43-68 | a relative name is completed to a file of the working directory, cut off when too long; a name from the root stays |
| `PathSolver.FillFinds` | reference-monitor/lib/reference_path_solver.c:70-109 | a found name is replaced by exactly its canonical path if and only if that path is no longer or meets a NUL, and else by that path and what stands behind it; a name that leads nowhere is completed and stays |
| `CString.PutHoldsIff` | reference-monitor/lib/reference_path_solver.c:101-102 | clearing a string and copying another without terminator leaves the other if and only if it is no longer or meets a NUL |
| `PathBuffer.StripSwap` | reference-monitor/lib/reference_path_solver.c:122-158 | the in-place scan, move and clearing leave the unswapped name and report a swap name |
| `PathBuffer.GetParentPath` | reference-monitor/lib/reference_path_solver.c:22-41 | the in-place cut leaves the parent path |
| `PathBuffer.FillAbsolutePath` | reference-monitor/lib/reference_path_solver.c:43-109 | the buffer after completion and lookup, and the error |
| `Audit.RecordRoundTripIff` | reference-monitor/lib/reference_defer.c:85-86 | splitting a line at its commas gives back the six fields if and only if neither the program path nor the digest contains a comma |
| `Audit.LineReadsTask` | reference-monitor/lib/reference_defer.c:85-190 | the line of a denial reads back as the task's thread group, thread, user, effective user and program and the digest |
| `Audit.OneLinePerRecordIff` | reference-monitor/lib/reference_defer.c:85-94 | the log has one line per appended record if and only if no recorded program path contains a newline |
| `Audit.BottomHalfKeepsInv` | reference-monitor/lib/reference_defer.c:24-116 | running a work keeps the account of denials, the queue order and the log made of whole lines |
| `System.StepKeepsInvIff` | reference-monitor/lib/reference_syscalls.c:48-291 | a call, hook firing or work of any kind keeps the invariant of the whole module if and only if it does not remove an entry that is unsafe to remove; refused calls always keep it |
| `System.RunKeepsInv` | reference-monitor/lib/reference_syscalls.c:109-135 | over every run of calls, hook firings and deferred work with safe removals, whatever stands behind the paths, hooks are on exactly in ON and REC_ON, inodes are their own or listed and marked, oldest entries hold the originals, no path is listed twice and no exempt path is listed |
| `System.DistinctRun` | reference-monitor/lib/reference_rcu_restrict_list.c:51-184 | in runs without aliases every entry holds its inode's own attributes and with the monitor off every inode has them |
| `System.AliasedRunRestores` | reference-monitor/lib/reference_rcu_restrict_list.c:51-131 | in runs with aliases and without removals, restoring or unloading brings back every inode |
| `System.AuditConserved` | reference-monitor/lib/reference_hooks.c:188-318 | over every run the denials are the hooks' -EACCES decisions, each dropped, queued or finished, and the log holds the finished works' lines in queue order |
| `System.LogGrowsByOldestWork` | reference-monitor/lib/reference_defer.c:85-100 | a work that runs with a digest, without a fault and with room lengthens the log by the oldest queued work's line, and nothing else lengthens it |
| `System.StepKeepsInodes` | reference-monitor/lib/reference_syscalls.c:48-291 | every event can follow every state: no inode is ever forgotten |
| `Overlaps.StepKeepsInvIff` | reference-monitor/lib/reference_syscalls.c:109-131 | when hooks look up and mark, additions save and insert, and state changes disable and restore in separate steps, a step keeps the invariant if and only if it is not a switch to off during a hook, a removal of an inode's only entry during a hook that found it or an addition that saved its mark, or an unsafe removal |
| `Overlaps.UndisturbedAdd` | reference-monitor/lib/reference_rcu_restrict_list.c:87-131 | saving and inserting without a step of anyone else is the one-step addition |
| `Overlaps.UndisturbedMark` | reference-monitor/lib/reference_hooks.c:148-185 | firing, finding and marking without a step of anyone else is the one-step mark |
| `Overlaps.OffMeansUntouchedOverRuns` | reference-monitor/lib/reference_syscalls.c:120-131 | in every run without these overlaps every inode has its own attributes once a switch to OFF or REC_OFF has finished |
| `Overlaps.MarkedWhileOff` | reference-monitor/lib/reference_hooks.c:148-185 | whenever a hook has found an inode listed, switching off before it marks leaves the inode marked with the monitor off |
| `Overlaps.FiredMarksWhileOff` | reference-monitor/lib/reference_hooks.c:148-185 | the same for a hook that has only fired, and any listed inode it may find |
| `Overlaps.MarkedUnlisted` | reference-monitor/lib/reference_rcu_restrict_list.c:158-184 | whenever a hook has found an inode listed, removing its only entry before it marks leaves the inode marked, off the list and beyond every restoration |
| `Overlaps.MarkSavedForGood` | reference-monitor/lib/reference_rcu_restrict_list.c:123-131 | whenever an addition has saved a mark, removing the inode's only entry before it inserts makes the mark outlast restoring |
| `Overlaps.MarkedWhileOffRun` | reference-monitor/lib/reference_hooks.c:148-185 | from loading on, a run that ends with the monitor off and a file marked |
| `Overlaps.SavedMarkRun` | reference-monitor/lib/reference_rcu_restrict_list.c:123-184 | from loading on, a run with two hard links, one removed while the other is added, that ends the same way |
| `BlockStore.Store.constructor` | singlefile-FS/singlefilemakefs.c:29-99 | the formatted device: metadata blocks, then the header as visible contents |
| `BlockStore.Store.WriteBlocks` | singlefile-FS/file.c:117-141 | however the loop ends, the device is the old one with a part of the buffer laid over it from the end of the file |
| `BlockStore.Store.Write` | singlefile-FS/file.c:92-155 | appends the whole buffer whatever the offset and stays below the limit, or reports an error and leaves visible contents and size; metadata and all bytes below the old end never change |
| `BlockStore.Store.Read` | singlefile-FS/file.c:36-90 | returns exactly the visible bytes from the offset, no more than asked for, there, or left of the block; each error exactly when the block cannot be read or the copy fails |
| `BlockStore.ReadIsMaximal` | singlefile-FS/file.c:55-69 | a read gets all that was asked for, reaches the end of the file or ends at a block boundary, and never crosses one |
| `BlockStore.ReaderHoldsPrefix` | singlefile-FS/file.c:46-161 | reads from offset 0, mixed with appends, attempts to seek and failures in any order, hold a prefix of the current log |
| `BlockStore.ReadsReachEnd` | singlefile-FS/file.c:46-89 | without further appends and failures, as many non-empty reads as bytes are left reach the end with the whole log |
| `Calls.ListChangeWasGuarded` | reference-monitor/lib/reference_syscalls.c:157-235 | in every interleaving a list change belongs to an administrator's path call whose password matched at a moment of the call and which later in the call saw REC_ON or REC_OFF |
| `Calls.SecretChangeWasGuarded` | reference-monitor/lib/reference_syscalls.c:61-135 | the same for changes of the monitor's state and of the digest |
| `Calls.RefusedCallChangedNothing` | reference-monitor/lib/reference_syscalls.c:157-193 | a call that returns an error changed nothing at any of its steps |
| `Calls.SerialisedAddsKeepUnique` | reference-monitor/lib/reference_rcu_restrict_list.c:87-131 | additions of one path that do not overlap keep the list free of duplicates over every run |
| `Calls.DuplicateRun` | reference-monitor/lib/reference_rcu_restrict_list.c:87-131 | a run of two overlapping additions that lists a path twice |
| `Calls.LateInsertionRun` | reference-monitor/lib/reference_syscalls.c:184-217 | a run in which the list changes while the monitor is ON, after the call had seen REC_ON |
| `TextProtocol.OptionsAreASet` | reference-monitor/lib/reference_path_based_syscall.c:59-111 | options with the same upper-cased tokens mean the same, whatever their order and repetition |
| `TextProtocol.JoinedOptionsAreASet` | reference-monitor/lib/reference_path_based_syscall.c:59-111 | names joined with bars mean the same whatever their letter case, order and number |
| `TextProtocol.TokenMeansFirstName` | reference-monitor/lib/reference_path_based_syscall.c:90-104 | any beginning of an option name stands for the first name it begins, other words for nothing |
| `TextOrder.StateFlagsAnyOrder` | reference-monitor/lib/reference_path_based_syscall.c:127-151 | both orders of the pairs of a state change call the same operation |
| `TextOrder.PathFlagsAnyOrder` | reference-monitor/lib/reference_path_based_syscall.c:172-207 | all six orders of the pairs of a list change call the same operation |
| `TextOrder.PasswordFlagsAnyOrder` | reference-monitor/lib/reference_path_based_syscall.c:222-253 | both orders of the pairs of a password change call the same operation |
| `TextRoundTrip.OptionRoundTrip` | user/lib/ref_syscall.c:61-94 | a printed option reads back as its number and an invalid one as zero |
| `TextRoundTrip.StateRoundTrip` | user/lib/ref_syscall.c:96-115 | a printed state change has the effect and error of the direct call, for null passwords and invalid states too |
| `TextRoundTrip.PathRoundTripIff` | user/lib/ref_syscall.c:117-137 | for every path pointer, password and operation, null arguments and invalid operations included, the printed list change has the effect and error of the direct call in all states of the invariant if and only if the memory behind the path lets its canonical form take its place, or the call is refused before |
| `TextRoundTrip.PathRoundTrip` | user/lib/ref_syscall.c:117-137 | with nothing behind the path the two always agree, in every state |
| `TextRoundTrip.SpoiltCallExample` | reference-monitor/reference_monitor.c:195-206 | with "/l" leading to "/long/dir" and text behind it in memory, the printed addition succeeds and the direct one does not find the path |
| `TextCrash.CrashIff` | reference-monitor/lib/reference_path_based_syscall.c:127-191 | a line makes the kernel read through a null pointer if and only if it is a state or path command with the right number of words whose last word acts as an option flag, with no path flag before it that ends the call |
| `TextCrash.StateCrashIff` | reference-monitor/lib/reference_path_based_syscall.c:119-136 | the same for the words of a state command: a flag acts as one unless it is the value of the flag before it |
| `TextCrash.PathCrashIff` | reference-monitor/lib/reference_path_based_syscall.c:162-191 | the same for the words of a path command, after no earlier refusal |
| `TextCrash.CrashingLine` | reference-monitor/lib/reference_path_based_syscall.c:127-136 | "cngst -pwd x y -opt" crashes |
| `TextCrash.FlagAsValueLine` | reference-monitor/lib/reference_path_based_syscall.c:127-136 | "cngst -pwd x -opt -opt" ends in an option flag and does not |
| `TextRoundTrip.PasswordRoundTripIff` | user/lib/ref_syscall.c:139-157 | a printed password change has the effect and error of the direct call, in all states of the invariant and for all callers, if and only if neither password is a null pointer |
| `TextBuffer.CutAt` | reference-monitor/lib/reference_path_based_syscall.c:301-309 | cutting in place leaves NULs for separators and pointers to the pieces of the text |
| `TextBuffer.ParseOptAt` | reference-monitor/lib/reference_path_based_syscall.c:59-111 | upper-casing, cutting and comparing in place give the OR of the options, change nothing outside the argument and leave its first option there |
| `TextModule.StateWrapper` | reference-monitor/lib/reference_path_based_syscall.c:113-151 | scanning pointers into the shared buffer, rewritten as it goes, gives the request that the words mean |
| `TextModule.PathWrapper` | reference-monitor/lib/reference_path_based_syscall.c:153-210 | the same, with the path copied to its own NUL-padded buffer |
| `TextModule.PasswordWrapper` | reference-monitor/lib/reference_path_based_syscall.c:212-254 | the same for the two passwords |
| `TextModule.FindCommand` | reference-monitor/lib/reference_path_based_syscall.c:33-57 | the first command whose name begins with the word |
| `TextLines.FirstWordDecides` | reference-monitor/lib/reference_path_based_syscall.c:271-335 | too long a line and a first word that begins no command name are answered with an error and change nothing; any beginning of a command name stands for the command |
| `TextLines.WrongNumberOfWords` | reference-monitor/lib/reference_path_based_syscall.c:119-125 | a line with too few or too many words is refused and changes nothing |
| `TextLines.NewlineParsesAlike` | reference-monitor/lib/reference_path_based_syscall.c:294-299 | a newline at the end of a line does not count |
| `TextLines.StateFlagTails` | reference-monitor/lib/reference_path_based_syscall.c:127-136 | only the first four characters of a flag count in a state command |
| `TextLines.PathFlagTails` | reference-monitor/lib/reference_path_based_syscall.c:172-191 | the same in a path command |
| `TextLines.PasswordFlagTails` | reference-monitor/lib/reference_path_based_syscall.c:222-230 | the same in a password command |
| `TextModule.SyscallProcWrite` | reference-monitor/lib/reference_path_based_syscall.c:256-347 | a write has the effect and error that the line means, and reports the whole line as written otherwise; it has no result exactly for the lines that crash |
| `SyscallTable.GetEntries` | reference-monitor/lib/scth.c:89-171 | succeeds exactly when the first repeated value stands often enough, and returns its first places in order and that value |
| `SyscallTable.TwoEntriesIff` | reference-monitor/lib/scth.c:116-153 | two entries can be had if and only if any value repeats |
| `SyscallSlots.Install` | reference-monitor/reference_monitor.c:412-415 | each slot holds its handler and no other entry changes |
| `SyscallSlots.Unload` | reference-monitor/reference_monitor.c:73-79 | each slot holds the not-implemented address again and no other entry changes |
| `SyscallSlots.LoadAndUnload` | reference-monitor/reference_monitor.c:397-415 | for every table and all handlers, loading and unloading leaves the table exactly as it was |
| `SyscallSlots.ValidateTable` | System_call_discover/usctm.c:113-125 | accepts exactly the tables with the pattern and a good area |
| `SyscallSlots.AcceptedIff` | System_call_discover/usctm.c:80-125 | a table is accepted if and only if entry 134 is an aligned kernel address that stands at the six other known places and, entry 0 apart, nowhere before its own |
| `SyscallSlots.FreeEntries` | System_call_discover/usctm.c:227-236 | collects the first places of the not-implemented address, fifteen at most |
| `SyscallSlots.PublishedAreClaimedIff` | System_call_discover/usctm.c:227-236 | on an accepted table the first three published entries are the claimed slots if and only if the not-implemented address is the first value that repeats |
| `SyscallSlots.ParameterRoundTrip` | user/lib/ref_syscall.c:33-39 | each published number reads back from the parameter file |
| `SyscallSlots.CallNumbers.Number` | user/lib/ref_syscall.c:12-45 | reads the file once, answers from the cache ever after, and reports a bad index or a missing file |
| `SyscallSlots.CallReachesHandler` | user/lib/ref_syscall.c:47-59 | on such tables every call of the library reaches its own handler |

## Left out

- Page-table walking, memory scanning for the table, CR0 writes and inline assembly: hardware access.
- SHA-512 and salting: an arbitrary deterministic function stands for them.
- The NO_LOCK build: it is not the default target.
- Allocation failures outside the open hook and the top half, reference counts and the freeing loop of
  module cleanup: unloading is modelled as restoring the inodes and emptying the list.
- Remounting the log: sizes are not written back to the device, so all claims are about one mount.
- Renames of listed paths, changes of modes by others and inode numbers of several file systems.
- The return value that the directory hooks force on permitted operations.
- `syscall_proc_read`, the directory and superblock operations, the interactive program and the tests.
- `Calls.DuplicateRun`, like all of `Calls`, tests membership in one step; the traversal itself is the subject of `RcuRuns`.
- `Overlaps.StepKeepsInvIff`, like all of `Overlaps`, leaves out the guards of the calls and takes additions of one path to be serialised; both are the subject of `Calls`.
