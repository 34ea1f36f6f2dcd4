# Libre VMM: verified models

Dafny models of the parts of Libre VMM that carry an algorithm or a protocol of their
own: port allocation, the XML extractors, the snapshot forest, authentication limits,
policy files, background tasks, migration progress, the codecs and descriptors, guest
paths, and the retention policies. Code that works step by step is modelled by methods
with loops and by classes with fields, each proved against a function of its inputs or
of the old state; the properties are lemmas about those functions and about the runs
built from them. `dafny verify dfyconfig.toml` checks everything.

What libvirt, `virsh`, `iptables`, the guest agent or the file system answers is a
parameter of the step that asks: a failed command leaves the modelled chain, list or
file unchanged, and a successful guest write takes the whole chunk. Hash map iteration
order is a parameter as well.

| file | system part |
|---|---|
| `PortForward.dfy`, `PortDispatch.dfy`, `PortOrder.dfy`, `AutoForwards.dfy` | the automatic forward table, its host port pool and the iptables chain |
| `XmlStream.dfy`, `XmlRead.dfy` | the three one-pass extractors over domain XML |
| `SnapshotTree.dfy` | the snapshot forest and its display list |
| `Text.dfy`, `Markup.dfy`, `SnapshotXml.dfy` | string search, escaping, value extraction, the snapshot document |
| `RateLimiter.dfy`, `RateBound.dfy`, `RateCause.dfy` | API key check, sliding window and lockout |
| `PolicyStore.dfy`, `PolicyRuns.dfy`, `PolicyEffects.dfy` | policy files under concurrent writers, crashes and power loss |
| `Tasks.dfy`, `TaskRuns.dfy` | the task manager, alone and interleaved with its workers |
| `Migration.dfy`, `MigrationRecord.dfy` | the migration thread, its poller, and the record they share |
| `Base64.dfy`, `Base64Decode.dfy`, `GuestTransfer.dfy` | two encoders, four decoders, chunked file transfer |
| `Decimal.dfy`, `Ovf.dfy`, `OvfTags.dfy`, `OvfItems.dfy`, `OvfRoundTrip.dfy`, `OvfExport.dfy`, `OvfDisk.dfy`, `OvfForeign.dfy` | the OVF descriptor, written and read back, and descriptors of other origin |
| `GuestPath.dfy` | lexical validation of guest paths |
| `Retention.dfy`, `RetentionOrder.dfy`, `RetentionRuns.dfy` | automatic snapshots, rollback points and backups |
| `Wrappers.dfy`, `Collections.dfy` | options and results, sizes of sets |

## Findings

Where the code does less than its documentation suggests, the model follows the code, a
concrete input shows the failure, and the exact condition is proved:

- A failed rule removal leaves the rule in the chain while the table forgets it; a later
  owner of the host port is shadowed (`PortDispatch.StaleRuleShadows`). Table and chain
  agree exactly when no removal failed (`PortForward.ChainMirrorsTable`); which rule
  answers a port after any failures is given exactly (`PortOrder.AnsweredExactly`).
- The ten-failures limit holds exactly while at most one request is in flight
  (`RateBound.TenExactly`); with m in flight the tight bound is
  min(m - 1, 9) + 10 + (m - 1) (`RateBound.AtMostBound`, `RateBound.BoundIsMet`).
- A save that leaves its temporary file blocks the same process from saving that VM's
  policy until the file is removed (`PolicyRuns.StaleBlocksSaves`); the steps that leave
  one are given exactly (`PolicyRuns.BecomesStaleExactly`), the failing clean-up after a
  failed rename among them.
- `completed` is set before the final percentage is published
  (`Migration.CompletedTooEarly`); the record is final exactly once the thread has ended
  (`Migration.FinalExactly`). A migration the poller gave up on can still end at
  100 percent with an error (`Migration.SucceededWithError`, with the run
  `Migration.GivenUpThenSucceeds`).
- A VM whose name contains `OperatingSystemSection` is imported with OS `Other`, since
  the word is then met first in the file reference (`OvfExport.ImportedValues`); names
  with XML special characters come back escaped.
- A disk element inside the wanted disk can mislead the depth counter; which children
  do is given exactly (`XmlStream.ReadableExactly`, with the instances
  `XmlStream.NestedChildEndsScan` and `XmlStream.NestedGrandchildEscapes`).
- Pruning oldest first and cutting off newest first differ exactly when the cut falls
  between items of one time (`Retention.PoliciesAgree`), as for two such items with one
  to keep (`RetentionOrder.TieKeepsDifferent`).
- Backup retention deletes its newest victim first and stops at the first failure: of
  backups at times 3, 2 and 1 with one to keep, it loses 2 and keeps 1 if 1 cannot be
  deleted (`RetentionOrder.BackupKeepsOlder`). Nothing lost is newer than what stays
  exactly if it deleted none or all of its victims, or they have one time
  (`RetentionOrder.BackupLosesOldest`).
- Rollback pruning and the scheduler's pruning go on after a refused deletion, and so can
  lose a newer snapshot and keep an older one (`RetentionOrder.RollbackKeepsOlder`,
  `RetentionOrder.CheckKeepsOlder`). Nothing lost is newer than what stays exactly if no
  deleted victim is newer than a refused one (`RetentionOrder.RollbackLosesOldest`) and,
  for the scheduler, none than the snapshot just made (`RetentionOrder.CheckedLosesOldest`).
- A resolved guest path can lead to a node although the written path passes through a
  directory that does not exist; the two agree in every tree exactly for direct paths
  (`GuestPath.MeaningExactly`, with the instance `GuestPath.ResolveSkipsMissing`).
- A clock set back makes a snapshot due at once, whatever the interval, and one dated by
  that clock is not spaced (`RetentionRuns.ClockSetBack`, `RetentionRuns.DueExactly`).
  Over runs whose snapshots are dated no earlier than their checks, spacing holds exactly
  while the clock is never so far behind that the new snapshot falls within the interval
  of the latest one (`RetentionRuns.AllSpacedExactly`).

## Model

| member | source | states |
|---|---|---|
| PortForward.PickHostPort | vmm-core/src/port_forward.rs:522-527 | the chosen port is the guest port when free, else the lowest free port of 30000-39999; there is none exactly when the guest port and the whole pool are taken |
| PortForward.PickSucceeds | vmm-core/src/port_forward.rs:522-527 | pigeonhole: with fewer than 10000 used host ports a choice always exists |
| PortForward.RunAllocated | vmm-core/src/port_forward.rs:407-553 | after every run of syncs and clears over any VMs, with any failing commands, no two (VM, guest port) entries share a host port, and each host port equals its guest port or lies in the pool |
| PortForward.SyncFrame | vmm-core/src/port_forward.rs:407-515 | one sync, whatever fails, leaves other VMs alone, lets survivors keep their host port, drops exactly the ports no longer live, and tracks nothing outside the live set |
| PortForward.SyncReachesLive | vmm-core/src/port_forward.rs:351-515 | if the entries of other VMs and the live set total at most 10000 and the apply commands succeed, one sync makes the tracked ports equal the live set (guest port 0 is never a listener and is refused by the rule check) |
| PortForward.SyncIdempotent | vmm-core/src/port_forward.rs:420-502 | once the tracked ports equal the live set, a sync with that set changes neither table nor chain |
| PortForward.ChainIsTablePlusLeaked | vmm-core/src/port_forward.rs:407-553 | conservation over every run with fixed guest IPs: the chain is, as a multiset, the rules of the table plus the rules whose removal did not reach iptables; so the table's rules are always in the chain |
| PortForward.ChainMirrorsTable | vmm-core/src/port_forward.rs:110-231 | chain and table are equal exactly when every removal of the run had a resolved IP and a successful command |
| PortDispatch.DispatchIsLookup | vmm-core/src/port_forward.rs:110-231 | where no leaked rule claims a host port, first-match dispatch on it answers a rule exactly when the table holds that entry |
| PortDispatch.UnownedExactly | vmm-core/src/port_forward.rs:110-231 | a host port the table does not hold is answered exactly if a leaked rule is on it |
| PortDispatch.OwnedExactly | vmm-core/src/port_forward.rs:110-231 | a host port the table holds, none of whose leaked rules repeats the owner's, is answered by the owner's rule exactly if no leaked rule is on it |
| PortOrder.ChainIsRemaining | vmm-core/src/port_forward.rs:110-231 | over every run with fixed guest IPs, whatever fails: the chain, in order, is the list of all rules ever appended, less for each rule as many of its earliest copies as deletions of it succeeded |
| PortOrder.AnsweredExactly | vmm-core/src/port_forward.rs:110-231 | a host port, leaked copies of its owner's rule or not, is answered by a rule exactly if that rule is the first appended on the port with at least as many copies before it as the run deleted |
| PortDispatch.RunOwnersLast | vmm-core/src/port_forward.rs:110-231 | over every run with fixed guest IPs, whatever fails, the last rule of the chain on each host port of the table is its owner's |
| PortDispatch.StaleRuleShadows | vmm-core/src/port_forward.rs:442-489 | a concrete run in which one failed removal lets a stale rule shadow the new owner of a host port |
| AutoForwards.AutoForwardState.ApplyPortForward | vmm-core/src/port_forward.rs:110-176 | appends the rule when both ports are non-zero and the command succeeds; otherwise nothing changes |
| AutoForwards.AutoForwardState.RemovePortForward | vmm-core/src/port_forward.rs:179-231 | deletes the first equal rule; a missing rule or a failed command changes nothing |
| AutoForwards.AutoForwardState.ApplyRemovals | vmm-core/src/port_forward.rs:434-454 | the removal loop over the nested table refines the removals of the flat state machine and reports every port visited |
| AutoForwards.AutoForwardState.ApplyAdditions | vmm-core/src/port_forward.rs:456-502 | the addition loop, which recomputes the used ports before each pick, refines the additions of the flat state machine and reports exactly the recorded ports |
| AutoForwards.AutoForwardState.KeptPorts | vmm-core/src/port_forward.rs:504-509 | collects, once each, the ports tracked before and still live |
| AutoForwards.AutoForwardState.DiffAndApply | vmm-core/src/port_forward.rs:407-515 | the imperative sync refines one step of the flat machine, and its three report lists satisfy `Reports` |
| AutoForwards.AutoForwardState.ClearAutoForwards | vmm-core/src/port_forward.rs:531-553 | the imperative clear refines one step of the flat machine, leaves nothing tracked and reports the former ports in order |
| AutoForwards.ReportsHold | vmm-core/src/port_forward.rs:504-515 | added, removed and kept are ascending, without repeats, and list exactly new minus old, old minus live, and old and live |
| AutoForwards.SortPorts | vmm-core/src/port_forward.rs:511-513 | sorting a list without repeats gives the ascending list with the same members |
| XmlStream.Extract | vmm-core/src/connection.rs:998-1054 | the event loop with flag and saturating depth, for the three extractors, computes `Scan`, whose meaning `XmlRead` gives |
| XmlStream.SelectsDisk | vmm-core/src/connection.rs:1009-1017 | the attribute loop accepts a disk exactly if it has `type='file'` and `device='disk'`, or `device='cdrom'` for the two CD-ROM extractors |
| XmlStream.FindValue | vmm-core/src/connection.rs:1028-1035 | the attribute loop finds the first non-empty value of the wanted attribute |
| XmlRead.DiskPathRead | vmm-core/src/connection.rs:998-1054 | for every forest without a disk inside a disk: `extract_disk_path` returns v exactly if below the first `disk` element with `type='file'` and `device='disk'` the first self-closing `source` with a non-empty `file` has v there |
| XmlRead.CdromTargetRead | vmm-core/src/connection.rs:1112-1161 | the same for `parse_cdrom_target`: first `disk` with `device='cdrom'`, first `target` with a non-empty `dev` |
| XmlRead.CdromMediaRead | vmm-core/src/connection.rs:1167-1217 | the same for `parse_cdrom_media`: first `disk` with `device='cdrom'`, first `source` with a non-empty `file` |
| XmlStream.ScanIsSearchExactly | vmm-core/src/connection.rs:998-1217 | for every forest and whatever follows its events: the one-pass scan equals the recursive search (first wanted non-self-closing disk in document order, then its first self-closing descendant with a non-empty attribute) exactly when that disk is readable, or a scan that ran past its end finds nothing there, or there is no such disk and nothing is read from what follows |
| XmlStream.ReadableExactly | vmm-core/src/connection.rs:1009-1045 | the condition on the disk alone: every document whose first wanted disk has these children is read right, whatever follows, exactly if the children leave the counter at 1, or a value is found, or the scan stops early and there was none to find |
| XmlStream.ScanInside | vmm-core/src/connection.rs:1018-1045 | from any counter value the scan of a forest is what the recursion over its elements says, where a disk start tag does not raise the counter and its end tag lowers it, or stops at 1 |
| XmlStream.ScanIsSearch | vmm-core/src/connection.rs:998-1217 | in particular a first wanted disk that holds no further disk is always read right |
| XmlStream.FirstDiskDecides | vmm-core/src/connection.rs:1038-1043 | if the first wanted disk is readable and has no value, the answer is none, whatever disks follow |
| XmlStream.CutShort | vmm-core/src/connection.rs:1046-1049 | a document cut short or unreadable from some event on gives the full answer or none, never another value |
| XmlStream.NestedChildEndsScan | vmm-core/src/connection.rs:1018-1043 | an instance of the failing half: a disk directly inside the wanted one stops the scan before the value |
| XmlStream.NestedGrandchildEscapes | vmm-core/src/connection.rs:1018-1045 | an instance of the failing half: a deeper disk leaves the counter at 0, and the value of an unrelated element is returned |
| SnapshotTree.BuildIndex | vmm-core/src/snapshot.rs:46-59 | the one-pass index equals filtering the list by parent name, for every name; the roots are the parentless snapshots |
| SnapshotTree.BuildSnapshotTree | vmm-core/src/snapshot.rs:45-101 | the forest is, level by level and in list order, the one the parent names describe, cut at depth 256 |
| SnapshotTree.LevelAgrees | vmm-core/src/snapshot.rs:61-87 | the recursion over the index builds what the recursion over the filtered list builds |
| SnapshotTree.LevelIsTree | vmm-core/src/snapshot.rs:61-87 | every node built sits at its depth over exactly the snapshots that name it as parent, siblings in list order |
| SnapshotTree.FlattenTree | vmm-core/src/snapshot.rs:104-118 | pushing into one shared vector gives the preorder listing |
| SnapshotTree.Walk | vmm-core/src/snapshot.rs:107-112 | walking one node appends the node's preorder listing |
| SnapshotTree.SubtreeContiguous | vmm-core/src/snapshot.rs:104-118 | a node's descendants are exactly the deeper entries directly after it, and the siblings' listing follows |
| SnapshotTree.FlattenInjective | vmm-core/src/snapshot.rs:104-118 | two forests with the same (snapshot, depth) list are equal |
| SnapshotTree.DisplayDeterminesForest | vmm-core/src/snapshot.rs:45-118 | the same for the forests built from any two lists |
| SnapshotTree.ParentsComeFirst | vmm-core/src/snapshot.rs:61-118 | every displayed entry is a root or is preceded by its parent with only deeper or equal entries between them |
| SnapshotTree.DisplayedExactlyOnce | vmm-core/src/snapshot.rs:45-118 | with distinct names, a snapshot is displayed at depth d exactly once if its parent chain reaches a root in d <= 255 steps, and not at all otherwise |
| SnapshotTree.NothingElseDisplayed | vmm-core/src/snapshot.rs:45-118 | every displayed entry is a snapshot of the list |
| SnapshotTree.CyclesVanish | vmm-core/src/snapshot.rs:61-87 | a snapshot on a parent cycle has no distance to a root, so it is never displayed |
| Text.FindSpec | vmm-core/src/snapshot.rs:476-492 | substring search finds the first occurrence and none earlier, or there is none |
| Text.XmlEscapeIsOnePass | vmm-core/src/snapshot.rs:455-461 | the five chained replacements equal one pass that maps each character on its own |
| Text.UnescapeInverts | vmm-core/src/snapshot.rs:455-461 | decoding the predefined entities (XML 1.0, section 4.6) gives every string back |
| Text.EscapedFree | vmm-core/src/snapshot.rs:455-461 | escaped text holds no angle bracket and no quote |
| Text.EscapeIdentity | vmm-core/src/ova.rs:567-573 | escaping leaves a string alone exactly when it has none of the five special characters |
| SnapshotXml.NameReadBack | vmm-core/src/snapshot.rs:441-492 | for every name and description, reading `name` from the written document gives the escaped name |
| SnapshotXml.DescriptionReadBack | vmm-core/src/snapshot.rs:441-492 | the same for `description`, whatever the name contains |
| RateLimiter.SameKey | vmm-api/src/auth.rs:124-133 | the accumulator loop with its 0xFF and 0xFE padding accepts exactly the expected key |
| RateLimiter.Limiter.Check | vmm-api/src/auth.rs:91-117 | rejects during a lockout without changing state, resets after one, and otherwise keeps exactly the failures less than 60 s old |
| RateLimiter.Limiter.RecordFailure | vmm-api/src/auth.rs:152-181 | records, keeps only failures less than 60 s old, and locks for 300 s exactly when ten stand |
| RateLimiter.Limiter.Authenticate | vmm-api/src/auth.rs:90-147 | 429 exactly during a lockout, acceptance exactly for the right key outside one, 401 otherwise, with the state after each |
| RateLimiter.AtMostTenPerWindow | vmm-api/src/auth.rs:91-181 | under every interleaving of requests, any half-open 60 s window holds at most ten 401 answers, not counting requests that a lockout overtook between check and failure |
| RateBound.AtMostBound | vmm-api/src/auth.rs:91-181 | every run with at most m >= 1 requests in flight: a half-open 60 s window holds at most min(m - 1, 9) + 10 + (m - 1) answers of 401 (failures overtaken by an expired lockout and forgotten at its reset, the ten that count, those the next lockout overtakes) |
| RateBound.BoundIsMet | vmm-api/src/auth.rs:91-181 | for every m there is a run with at most m requests in flight and a window that holds exactly that many |
| RateBound.TenExactly | vmm-api/src/auth.rs:91-181 | ten is a bound for all runs with at most m requests in flight exactly if m is 1 |
| RateBound.SequentialAtMostTen | vmm-api/src/auth.rs:91-181 | when requests run one after the other, any half-open 60 s window holds at most ten 401 answers |
| RateBound.NoBoundWithoutLimit | vmm-api/src/auth.rs:91-181 | without a limit on requests in flight some window of some run holds any number of 401 answers |
| RateLimiter.LockoutHolds | vmm-api/src/auth.rs:103-173 | for 300 s after the failure that locks, every check is answered 429 whatever its key, and only requests already in flight can still be answered 401 |
| RateCause.BlockedOnlyAfterTen | vmm-api/src/auth.rs:91-181 | the converse, over every run: a check answered 429 at time t follows a failure at some t0 <= t < t0 + 300 s, and at least ten failures of the run, that one included, lie in (t0 - 60 s, t0] |
| RateCause.NeverBlocked | vmm-api/src/auth.rs:91-181 | so a run without ten failures within 60 s answers no request 429 |
| PolicyStore.StepKeepsInv | vmm-core/src/restricted.rs:121-210 | every step of save, load and delete, every failure (the ignored one of the clean-up included), crash and power loss keeps the file-system invariant |
| PolicyRuns.PolicyNeverPartial | vmm-core/src/restricted.rs:138-210 | in every interleaving the policy path is absent or names the whole serialisation of a policy saved for that VM |
| PolicyRuns.LoadReturnsSaved | vmm-core/src/restricted.rs:121-129 | a load that returns a policy returns one that was saved for its VM, however its reads interleave with renames and deletions |
| PolicyRuns.RenameFindsOwnFile | vmm-core/src/restricted.rs:150-189 | a writer about to rename always finds its own, complete and synced temporary file at the path |
| PolicyEffects.SaveTakesEffect | vmm-core/src/restricted.rs:138-200 | from the rename of a save on, until the next rename for that VM, deletion or power loss, the policy path holds exactly the text saved, an existing policy being replaced |
| PolicyEffects.DeleteTakesEffect | vmm-core/src/restricted.rs:204-210 | from a deletion on, until the next such step, there is no policy file |
| PolicyEffects.LoadReturnsOpened | vmm-core/src/restricted.rs:119-129 | a load that ends returns exactly the policy that was current when it opened the file, whatever happens meanwhile without a power loss; it is not readable exactly if there was none then |
| PolicyEffects.LoadReturnsCurrent | vmm-core/src/restricted.rs:119-129 | a load whose check, open and reads see no rename, deletion or power loss returns the current policy, or its absence |
| PolicyEffects.LoadAfterSave | vmm-core/src/restricted.rs:119-200 | a load between a save's rename and the next rename, deletion or power loss returns exactly the policy saved |
| PolicyEffects.LoadAfterDelete | vmm-core/src/restricted.rs:119-210 | a load between a deletion and the next such step finds none |
| PolicyEffects.SaveGoesThrough | vmm-core/src/restricted.rs:138-200 | a save whose temporary path is free can take its five steps one after the other, after which the VM has its policy |
| PolicyEffects.LoadGoesThrough | vmm-core/src/restricted.rs:119-129 | a load can begin at any moment and go through, with no policy or the current one |
| PolicyRuns.StaleBlocksSaves | vmm-core/src/restricted.rs:150-182 | a stale temporary file is never published and, until a power loss, stops every later save of that VM by the same process id |
| PolicyRuns.BecomesStaleExactly | vmm-core/src/restricted.rs:150-190 | which steps of a run make a temporary file stale: exactly a failed write or a failed clean-up of its holder, the death of its process while a save holds it, or a power loss that leaves it in the directory |
| PolicyRuns.StaleSince | vmm-core/src/restricted.rs:150-190 | a temporary file is stale exactly if some such step left it and no power loss since took it from the directory |
| PolicyRuns.BlockedExactly | vmm-core/src/restricted.rs:158-182 | a save cannot create its temporary file exactly while the file is stale or another save of that VM by the same process holds it |
| PolicyRuns.FailureGoesStale | vmm-core/src/restricted.rs:158-190 | a save whose write fails, or whose clean-up after a failed rename fails, leaves such a file behind |
| Tasks.TaskManager.PruneHistory | vmm-core/src/task.rs:343-365 | the list becomes exactly the survivors |
| Tasks.RemoveDescending | vmm-core/src/task.rs:358-364 | removing collected positions one by one from the highest down drops exactly the first flagged items |
| Tasks.TaskManager.TerminalPositions | vmm-core/src/task.rs:344-357 | the collected indices are the positions of the terminal tasks |
| Tasks.SurvivorsDrop | vmm-core/src/task.rs:358-364 | dropping the surplus oldest terminal tasks is the order-preserving subsequence of active tasks and the last 50 terminal ones |
| Tasks.SurvivorsMembers | vmm-core/src/task.rs:343-365 | every active task survives, and every terminal task with at most 50 terminal ones from it on |
| Tasks.SurvivorsSize | vmm-core/src/task.rs:343-365 | the number of survivors is the number of active tasks plus at most 50 |
| Tasks.TaskManager.ClearHistory | vmm-core/src/task.rs:320-325 | keeps exactly the active tasks, in order |
| Tasks.TaskManager.Cancel | vmm-core/src/task.rs:313-317 | cancels the first task with the id if it is active; every other task, a later one with the same id included, keeps its status |
| Tasks.TaskManager.Spawn | vmm-core/src/task.rs:210-281 | refuses at 64 active tasks; otherwise registers the task and leaves the pruned list; a thread that cannot start leaves a failed task |
| Tasks.TaskManager.ActiveCount | vmm-core/src/task.rs:301-309 | counts the tasks that are running or pending |
| Tasks.TaskHandle.RequestCancel | vmm-core/src/task.rs:166-172 | only an active task becomes cancelled |
| Tasks.TaskHandle.SetCompleted | vmm-core/src/task.rs:122-127 | overwrites any status, a cancelled one included, and sets the fraction to 1; the message stays |
| Tasks.TaskHandle.SetProgress | vmm-core/src/task.rs:113-118 | sets fraction and message and leaves the status alone |
| Tasks.TaskHandle.SetFailed | vmm-core/src/task.rs:131-135 | overwrites any status, a cancelled one included |
| TaskRuns.StepKeepsInv | vmm-core/src/task.rs:113-365 | each worker update, each cancellation through any handle at any moment, and each single status read of the manager keeps the run invariant and makes no task active again |
| TaskRuns.Bounds | vmm-core/src/task.rs:210-365 | in every interleaving at most 64 tasks are active at any moment, at most 114 are held between manager calls, and every active task is held |
| TaskRuns.NeverActiveAgain | vmm-core/src/task.rs:113-172 | a task that has left Running and Pending never becomes active again |
| TaskRuns.StartedRuns | vmm-core/src/task.rs:210-281 | a task whose thread started is Running, and held, until its own worker ends or it is cancelled, whatever the manager and other tasks do |
| TaskRuns.StatusStays | vmm-core/src/task.rs:113-172 | a task's status stays until its next own step |
| TaskRuns.StatusStep | vmm-core/src/task.rs:122-172 | what each own step makes of the status: completion and failure overwrite any, cancellation only Running and Pending |
| TaskRuns.RefusedOnlyWhenFull | vmm-core/src/task.rs:210-235 | a spawn is refused only if 64 tasks were active when it began to count, though workers end between its reads |
| TaskRuns.ClearedExactly | vmm-core/src/task.rs:320-326 | a clearing pass leaves only tasks active when it began, and every one still active when it ends |
| TaskRuns.PrunedOnlyOld | vmm-core/src/task.rs:343-365 | a pruning pass forgets only a task that has ended and that at least fifty later ended ones follow |
| Migration.ExtractExactly | vmm-core/src/migration.rs:660-707 | a line that ends in a number and a unit is read exactly if the number is not negative, the unit is known, and the product is at most 2^50, and then as the largest whole multiple of the unit up to the product |
| Migration.FractionsAreLost | vmm-core/src/migration.rs:697-707 | an instance: 1.5 KiB is read as 1024 bytes |
| Migration.Percent | vmm-core/src/migration.rs:643-650 | the percentage is 20 plus the whole eightieths of the bytes transferred, at most 99 |
| Migration.SharedProgress.ParseDomjobinfo | vmm-core/src/migration.rs:608-657 | parsing one output under the lock, with its early return, computes `Parsed`, and keeps every sum within u64 |
| Migration.ParsedCounts | vmm-core/src/migration.rs:608-640 | each of the three counts becomes that of the last readable line of its own kind before the first line that ends the parse, else it stays |
| Migration.LastCountAt | vmm-core/src/migration.rs:608-640 | by position: the count of a readable line that no readable line of its kind follows |
| Migration.ParsedPercent | vmm-core/src/migration.rs:608-656 | if no line ends the parse and there are any bytes, the percentage p is 99 or has (p - 20) * total <= 80 * transferred < (p - 19) * total; otherwise it stays |
| Migration.StepKeepsInv | vmm-core/src/migration.rs:374-657 | every step of either thread keeps the protocol invariant, and `completed` is never unset |
| Migration.CompletedStays | vmm-core/src/migration.rs:496-605 | once set, `completed` stays set in every interleaving |
| Migration.FinalValueStands | vmm-core/src/migration.rs:496-543 | when the migration thread has ended, `completed` is set, the percentage is 100 exactly if virsh succeeded, a failure carries an error, and no step of either thread remains that could overwrite this |
| Migration.NeverOutOfRange | vmm-core/src/migration.rs:608-707 | at every moment the percentage is within 0..100 and transferred plus remaining is at most 2^51 |
| Migration.FlagsExactly | vmm-core/src/migration.rs:479-605 | in every interleaving `completed` is set exactly once the poller has given up or the thread has marked it, and an error exactly if the poller has given up or the thread ended without success |
| Migration.SucceededWithError | vmm-core/src/migration.rs:496-589 | a migration that ends at 100 percent carries an error exactly if the poller had given up on it |
| Migration.CompletedBeforeFinal | vmm-core/src/migration.rs:496-589 | a completed record before the thread's end shows less than 100 percent, and the thread is joining the poller, about to publish, or the poller has given up while it works; without an error, 100 percent is shown exactly at the end |
| Migration.FinalExactly | vmm-core/src/migration.rs:496-589 | at every moment of every interleaving: no continuation by either thread ever changes the record, exactly if the migration thread has ended |
| Migration.CompletedTooEarly | vmm-core/src/migration.rs:496-520 | a run in which a reader sees a completed, error-free migration at 20 percent |
| Migration.GivenUpThenSucceeds | vmm-core/src/migration.rs:496-589 | a run that ends at 100 percent with the error of the poller that gave up |
| MigrationRecord.PercentByPhase | vmm-core/src/migration.rs:384-543 | in every interleaving the percentage is 0, 5 or 10 before the poller starts, 10 if virsh never started, 100 after success, and else between 20 and 99 |
| MigrationRecord.AnswersShow | vmm-core/src/migration.rs:590-650 | from one answered query until the next, the record shows the counts of that output |
| MigrationRecord.ErrorIsLastReported | vmm-core/src/migration.rs:466-589 | the error shown is the message reported last, by the start, the poller giving up, or the failed end |
| MigrationRecord.PollerLeavesCompleted | vmm-core/src/migration.rs:548-563 | the poller leaves only a completed migration, and leaves one when it next checks |
| Base64.EncodeEncryption | vmm-core/src/encryption.rs:477-509 | the zero-filling loop computes the RFC 4648 encoding |
| Base64.EncodeHostGuest | vmm-core/src/host_guest.rs:842-872 | the group loop with its two-way tail computes the same encoding |
| Base64.BuildTable | vmm-core/src/host_guest.rs:876-885 | filling the table from the alphabet gives every ASCII character its value, or the invalid mark |
| Base64Decode.EncodeLength | vmm-core/src/encryption.rs:477-509 | the text has 4 * ceil(n / 3) characters |
| Base64Decode.EncodeBits | vmm-core/src/encryption.rs:477-509 | RFC 4648 section 4, bit for bit: the characters carry the bits of the data in order and zero bits complete the last group |
| Base64.AlphabetOfRfc | vmm-core/src/host_guest.rs:843 | RFC 4648, table 1: A to Z, a to z, 0 to 9, `+`, `/`, and `=` for padding |
| Base64Decode.DecodeAgent | vmm-core/src/guest_agent.rs:482-527 | for every input: drops what is neither alphabet nor padding, then decodes groups of four, a trailing partial group being ignored, padded bytes not pushed |
| Base64Decode.DecodeFile | vmm-core/src/guest_file_manager.rs:381-415 | for every input: drops line breaks, then decodes groups of four, padded bytes not pushed |
| Base64Decode.DecodeHostGuest | vmm-core/src/host_guest.rs:875-935 | for every input: drops padding, decodes whole groups, and gets one or two bytes from a tail of two or three characters |
| Base64Decode.DecodeTools | vmm-core/src/guest_tools.rs:591-639 | for every input: the tail that pushes, pops and pushes again gives the same bytes as `Base64Decode.DecodeHostGuest` |
| Base64Decode.DecodersInvertEncode | vmm-core/src/host_guest.rs:842-935 | all four decoders return the encoded bytes, for every byte string |
| Base64Decode.WrappedTextDecodes | vmm-core/src/guest_file_manager.rs:381-415 | line breaks anywhere in the text do not disturb the two decoders that skip them |
| Base64Decode.NoisyTextDecodes | vmm-core/src/guest_agent.rs:482-527 | any bytes outside the alphabet, anywhere in the text, do not disturb the guest agent's decoder |
| GuestTransfer.WriteChunks | vmm-core/src/host_guest.rs:244-262 | after the 1 MiB chunk loop the guest file holds exactly the chunks written before the first failure |
| GuestTransfer.TransferFile | vmm-core/src/host_guest.rs:190-281 | a transfer succeeds exactly when stat, size, read, open and all writes are fine, then the guest file equals the host file; each failure gives its own error; on every path that opened a handle exactly one close command is sent, and the handle is closed if the guest obeys it |
| GuestTransfer.AgentDecoderInverts | vmm-core/src/guest_agent.rs:482-527 | a decoder of the repository meets what the transfer asks of the guest |
| Ovf.ParseOvf | vmm-core/src/ova.rs:493-545 | the item loop with its running CPU count and memory computes `ParsedOf`; without a name element the VM is called "Imported VM" |
| OvfForeign.HardwareOf | vmm-core/src/ova.rs:496-520 | any descriptor: the last item of type 3 gives the CPU count, at most 1024, the last of type 4 the memory; without one there are 2 CPUs and 4096 MiB |
| OvfForeign.NumberInText | vmm-core/src/ova.rs:504-511 | a number in an item is read through white space, a plus sign and leading zeros; anything else, or one too large, is 0 |
| OvfForeign.OsOfSection | vmm-core/src/ova.rs:523-533 | any descriptor: the first id after the first mention of OperatingSystemSection decides, 36, 94, 96, 101 being Linux, 67, 69, 70, 112 Windows, 42 FreeBSD, any other Other |
| OvfForeign.OsWithoutId | vmm-core/src/ova.rs:523-537 | without the section, or without an id after it, the OS is Linux |
| OvfForeign.SplitExactly | vmm-core/src/ova.rs:500-502 | the pieces joined by the pattern are the text, and no piece holds the pattern |
| OvfDisk.FileElementStands | vmm-core/src/ova.rs:421-423 | every descriptor holds the file element with image name, id `file1` and size in bytes |
| OvfDisk.DiskElementStands | vmm-core/src/ova.rs:425-428 | every descriptor holds the disk element with its capacity in units of 2^30 bytes |
| OvfDisk.OsIdStands | vmm-core/src/ova.rs:407-413 | every descriptor's OS section carries 101 for Linux and macOS, 67 for Windows, 42 for FreeBSD, 1 for the rest |
| OvfExport.ExportThenImport | vmm-core/src/ova.rs:406-545 | for every configuration and image size: importing the exported descriptor gives the escaped name, the CPU count capped at 1024, the memory, and the OS with macOS as Linux, or Other when the name contains OperatingSystemSection (DMTF DSP0243, clause 8 for the hardware section) |
| OvfExport.ImportedValues | vmm-core/src/ova.rs:406-545 | each value survives exactly under its own condition: the name iff free of special characters, the CPU count iff at most 1024, the memory always, the OS iff not macOS and either Other or the name lacks that word |
| OvfExport.VmdkWord | vmm-core/src/ova.rs:43-46 | the image name contains OperatingSystemSection exactly where the VM name does, through file name sanitising |
| OvfExport.SanitizeFilename | vmm-core/src/ova.rs:597-607 | character by character, alphanumerics, `-` and `_` stay and anything else becomes `_` |
| OvfExport.NameRead | vmm-core/src/ova.rs:493-500 | the first Name element of the descriptor is the escaped VM name |
| OvfExport.HardwareRead | vmm-core/src/ova.rs:502-528 | splitting at items and reading kinds and quantities gives CPU count and memory, and the disk item changes nothing |
| OvfExport.OsReadLoud | vmm-core/src/ova.rs:530-545 | a word in the image name makes the parser read the file's id in place of the OS id |
| Decimal.ParseDigits | vmm-core/src/ova.rs:513-520 | printing a number in decimal and parsing it gives it back exactly when the type can hold it |
| Decimal.ParseExactly | vmm-core/src/ova.rs:504-511 | a text is parsed as n exactly if it is an optional plus sign, any zeros and the digits of n, and the type holds n |
| Decimal.TrimExactly | vmm-core/src/ova.rs:504-511 | white space around a text is cut off, and nothing else |
| GuestPath.ValidateGuestPath | vmm-core/src/guest_file_manager.rs:23-97 | the checks in order, then the push and pop loop, compute `Validated`: the rendering of the resolved components |
| GuestPath.AcceptedExactly | vmm-core/src/guest_file_manager.rs:23-85 | a path is accepted exactly if it is absolute, at most 4096 bytes, free of control bytes, and holds neither `%2e` nor `%00`, in either case, anywhere |
| GuestPath.Normalize | vmm-core/src/guest_file_manager.rs:56-85 | the component loop gives no result exactly when a component is an encoded traversal, else the rendering of the resolved components |
| GuestPath.MeaningExactly | vmm-core/src/guest_file_manager.rs:56-85 | the resolved names lead where the input leads, walkable or not, in every rooted tree exactly if the path is direct: after each component the names resolved so far begin the names resolved in the end |
| GuestPath.DirectKeepsMeaning | vmm-core/src/guest_file_manager.rs:56-85 | that half over trees with any kind of node |
| GuestPath.DetourSeparates | vmm-core/src/guest_file_manager.rs:56-85 | for a path that is not direct, the tree that holds only the resolved names tells the two apart |
| GuestPath.ResolveKeepsMeaning | vmm-core/src/guest_file_manager.rs:56-85 | for any path: in every rooted tree where the input can be walked, with the root its own parent, the resolved names lead to the same node |
| GuestPath.ResolveSkipsMissing | vmm-core/src/guest_file_manager.rs:56-85 | an instance of the failing half: into any directory and back |
| GuestPath.ValidatedMeaningExactly | vmm-core/src/guest_file_manager.rs:23-97 | an accepted path and its result lead to the same place in every rooted tree exactly if the path is direct |
| GuestPath.ValidatedKeepsMeaning | vmm-core/src/guest_file_manager.rs:23-97 | for any accepted path, in every rooted tree where it can be walked |
| GuestPath.ValidatedIsNormal | vmm-core/src/guest_file_manager.rs:23-97 | an accepted result has no `.` or `..`, is no longer than the input, and is accepted again unchanged |
| Retention.SortIsStable | vmm-core/src/auto_snapshot.rs:178-180 | the stable sort permutes, orders, and keeps equal times in order, in both directions |
| Retention.Domain.PruneAutoSnapshots | vmm-core/src/auto_snapshot.rs:167-190 | the deletion loop removes exactly the victims libvirt does not refuse |
| Retention.Domain.CheckVmSnapshot | vmm-core/src/auto_snapshot.rs:103-165 | one scheduler check, with each early return, has the effect of `Checked` |
| RetentionRuns.CheckKeepsRecent | vmm-core/src/auto_snapshot.rs:103-165 | a listed check with times in range, where libvirt makes the snapshot dated no earlier than the check: if there is no automatic snapshot, or the clock is behind the latest or more than the interval after it, the new `auto-` snapshot is there afterwards, else nothing changes; either way there is one afterwards, and the latest is no more than the interval behind the clock |
| RetentionRuns.CheckWithoutCreation | vmm-core/src/auto_snapshot.rs:117-163 | a check that lists nothing, or whose snapshot libvirt does not make, changes nothing |
| Retention.CheckedCount | vmm-core/src/auto_snapshot.rs:103-190 | after a creation there are old count plus one minus the deletions automatic snapshots; with no refusals, max(1, min(old count + 1, retention)) |
| Retention.CheckedKeeps | vmm-core/src/auto_snapshot.rs:103-190 | a check keeps the snapshot it made and, in order, everything without the `auto-` prefix |
| RetentionOrder.CheckedLosesOldest | vmm-core/src/auto_snapshot.rs:103-190 | a check that makes a snapshot loses no automatic snapshot newer than one there is afterwards, exactly if no victim it deletes is newer than a refused one or than the snapshot made |
| RetentionOrder.CheckKeepsOlder | vmm-core/src/auto_snapshot.rs:167-190 | an instance of the failing half: of two snapshots, one to keep, the older refused, the newer goes and the older stays |
| RetentionRuns.CountStaysBounded | vmm-core/src/auto_snapshot.rs:103-190 | over any run, whatever the clock does, with retention at most r and at most q refusals a check, the automatic snapshots never exceed max(first count, max(r, 1) + q) |
| RetentionRuns.SnapshotsAreSpaced | vmm-core/src/auto_snapshot.rs:124-137 | over a run with a monotone clock any two snapshots created are more than the later one's interval apart |
| RetentionRuns.DueExactly | vmm-core/src/auto_snapshot.rs:124-137 | for clock readings and times in range: a snapshot is due exactly if there is none, the clock is behind the latest one, or it is more than the interval after it |
| RetentionRuns.AllSpacedExactly | vmm-core/src/auto_snapshot.rs:124-137 | over any run whose snapshots are dated no earlier than their checks, all are spaced exactly if none was made while the clock was behind the latest and dated within the interval of it |
| RetentionRuns.ClockSetBack | vmm-core/src/auto_snapshot.rs:124-137 | an instance of the failing half: a clock behind the latest snapshot makes one due at once, whatever the interval |
| Retention.Domain.PruneRollbackPoints | vmm-core/src/rollback.rs:66-135 | removes the oldest surplus rollback points that are not refused and returns their number |
| Retention.RollbackKeepsNewest | vmm-core/src/rollback.rs:105-135 | the points that are no victims of rollback pruning number min(n, keep), and no victim is newer than one of them |
| Retention.RollbackKeepsOthers | vmm-core/src/rollback.rs:66-135 | rollback pruning keeps, in order, everything without the `libre-vmm-rollback-` prefix |
| RetentionOrder.RollbackCount | vmm-core/src/rollback.rs:105-135 | whatever is refused: min(n, keep) points are left, and one more for each refused victim |
| RetentionOrder.RollbackLosesOldest | vmm-core/src/rollback.rs:105-135 | rollback pruning loses no point newer than one there is afterwards, exactly if no victim deleted is newer than one refused |
| RetentionOrder.RollbackKeepsOlder | vmm-core/src/rollback.rs:117-127 | an instance of the failing half with three points |
| Retention.BackupDirectory.ApplyRetention | vmm-core/src/backup.rs:251-383 | deletes the tail of the newest-first list up to the first refusal; returns the count, or no count when a deletion failed |
| Retention.BackupKeepsNewest | vmm-core/src/backup.rs:371-383 | the backups that are no victims of retention number min(n, keep), and no victim is newer than one of them |
| RetentionOrder.BackupCount | vmm-core/src/backup.rs:371-383 | whatever is refused: min(n, keep) backups are left, and one more for each victim from the first refusal on |
| RetentionOrder.BackupLosesOldest | vmm-core/src/backup.rs:371-383 | backup retention loses no backup newer than one there is afterwards, exactly if it deleted none or all of its victims, or they all have one time |
| RetentionOrder.BackupKeepsOlder | vmm-core/src/backup.rs:371-383 | an instance of the failing half: backups at times 3, 2 and 1, one to keep, the oldest refused |
| Retention.PoliciesAgree | vmm-core/src/backup.rs:371-383 | dropping the oldest prefix and dropping the newest-first suffix keep the same items exactly when the cut does not fall between items of one time |
| Retention.DistinctTimesAgree | vmm-core/src/rollback.rs:105-135 | for distinct times the two always keep the same items |
| Retention.PruningIsSeparate | vmm-core/src/auto_snapshot.rs:103-190 | automatic and rollback pruning never touch each other's snapshots |

## Left out

- `vmm-types`, `xml_builder`, `import`, `vfio`, `usb`, `tpm`, the HTTP layer, GUI, CLI, notifications and recording: plumbing around external commands.
- Name, host and path allowlists, restriction flag lookup, distribution and ISO detection: each is settled by reading one branch.
- `normalize_path` and `percent_decode`, which bring a request path into canonical form before the key check, are left out: every modelled request requires a key.
- `parse_listener_output` and the listener filter of `sync_auto_forwards`, which turn the guest's socket listing into a set of ports, are left out: the live set is a parameter of a sync.
- Concurrent `sync_auto_forwards` calls and manual forwards: the lock is released between choosing a host port and recording it, so the allocator's claims are about completed calls; rules of `sync_forwards` are not in the modelled chain.
- Guest IP changes: the chain properties take one guest IP per VM.
- The XML tokenizer: a document is its sequence of events; the u32 depth counter is unbounded.
- JSON, file permissions and directory creation in policy files; a policy is its serialisation.
- Thread handles and their reaping, poisoned mutexes.
- Floating point in migration progress: fractions are reals, with an extra value for what is not finite; phase texts and elapsed time are left out.
- Migration output lines come as their prefix and words, each word with its value where it parses as a number: splitting and float parsing are left out.
- The fixed text of the OVF descriptor besides what is read back or named above (namespaces, network, virtual system type): written out, but no claim depends on it.
- Lossy UTF-8 conversion after decoding, and the wiping of buffers.
- The compile-time tables of three decoders: the lookup is a function, and `Base64.BuildTable` shows the loop that fills such a table computes it.
- Archive, manifest and disk conversion around the OVF descriptor; which non-ASCII characters are alphanumeric is a parameter.
- Backup creation times are kept as numbers; the source compares fixed-width stamps of local time as strings. Local time can step back, so "newest" here and there means newest by local stamp, not latest made.
- Time stamps of libvirt for new automatic snapshots are parameters; the claims about spacing take them no earlier than the check's own clock reading.
- PortDispatch.OwnedExactly: speaks of ports without a leaked copy of the owner's own rule; `PortOrder.AnsweredExactly` settles those too, by the order of additions.
- Tasks.TaskHandle.SetCompleted: terminal statuses are not fixed in the source, so none is claimed to be.
