# Password-cracker coordinator

A Dafny model of the master of a distributed MD5 password cracker
(`PasswordCrackerMasterServiceHandler` and its `FindPasswordMethodCallback`).
The master holds an ordered registry of worker addresses. It also keeps a
ledger from each worker address to the search tasks that worker holds, the
last heartbeat time of each worker, and a table of outstanding jobs, keyed by
the encrypted password.

- `decrypt` opens a job and dispatches it. The candidate range from offset 0
  is cut into `NUMBER_OF_WORKER` contiguous subranges of `SUB_RANGE_SIZE`.
  Subrange `i` goes to registry index `i % |registry|`.
- `checkHeartBeat` declares a worker dead when its heartbeat is more than
  5000 ms old. `redistributeFailedTask` removes the dead workers from the
  registry, highest position first. It then moves every task they held to
  survivor `workerId % |survivors|` and re-issues the search there.
- A completion that found the password broadcasts termination to every
  registered worker. It fills the job's result slot and purges the job's
  tasks from every ledger list.

A task (`PasswordTask`, the datatype `Tasks.Task`) records the bounds
of its subrange, the job it belongs to and the registry index of its worker.
The code updates that index in place on reassignment; the model gives the
moved task a new value instead.

The model is the class `Master.Coordinator`. Its fields are `registry`
(a `seq<string>`), `ledger` (`map<string, seq<Task>>`), `lastSeen`,
`jobs` and `sent`. Each Java method is a Dafny method with the same loops.
Each method is proved against specification functions in five modules:

- `Registry`: positional removal.
- `Dispatch`: the round robin.
- `Liveness`: the heartbeat test.
- `Redistribution`: draining the failed workers.
- `Completion`: the purge and the broadcast.

Lemmas about those functions state what the coordinator guarantees:

- subranges are contiguous, disjoint and covering;
- counts are 4/3/3 for three workers and ten tasks;
- descending removal keeps the surviving workers reachable;
- redistribution loses and duplicates no task, and leaves no task under a dead address;
- the purge is idempotent and removes exactly the job's tasks.

Outbound RPCs (`startFindPasswordInRange`, `reportTermination`) are not
sent. Each is appended as a `Call` value to `sent`, in issue order.
`System.currentTimeMillis()` becomes a `now` parameter.

## Model

| member | source | states |
|---|---|---|
| Tasks.Append | PasswordCrackerMaster/src/PasswordCrackerMaster/PasswordCrackerMasterServiceHandler.java:86-87 | `putIfAbsent` then `add`: the task is appended at the end of the address's list, creating the list if absent |
| Tasks.Get | PasswordCrackerMaster/src/PasswordCrackerMaster/PasswordCrackerMasterServiceHandler.java:119-121 | the task list of an address; an address without an entry has none |
| Tasks.TotalAppend | PasswordCrackerMaster/src/PasswordCrackerMaster/PasswordCrackerMasterServiceHandler.java:86-87 | appending a task to one worker's list adds exactly one task to the ledger |
| Tasks.TotalDrop | PasswordCrackerMaster/src/PasswordCrackerMaster/PasswordCrackerMasterServiceHandler.java:119-120 | removing a worker's entry loses exactly the tasks of its list |
| Registry.PickedDescending | PasswordCrackerMaster/src/PasswordCrackerMaster/PasswordCrackerMasterServiceHandler.java:109-112 | the addresses at the failed positions, highest position first (the reversed list of line 109) |
| Registry.Without | PasswordCrackerMaster/src/PasswordCrackerMaster/PasswordCrackerMasterServiceHandler.java:109-114 | the registry with a set of positions deleted, the other entries kept in their original order |
| Registry.RemoveAt | PasswordCrackerMaster/src/PasswordCrackerMaster/PasswordCrackerMasterServiceHandler.java:113 | removing position i keeps the entries before i and shifts every later entry down by one |
| Registry.PickedDescendingAt | PasswordCrackerMaster/src/PasswordCrackerMaster/PasswordCrackerMasterServiceHandler.java:109-112 | the dead addresses are collected in reverse order of the ascending failed positions |
| Registry.PickedDescendingElems | PasswordCrackerMaster/src/PasswordCrackerMaster/PasswordCrackerMasterServiceHandler.java:109-112 | an address is collected exactly when it sits at one of the failed positions |
| Registry.WithoutRemoveAt | PasswordCrackerMaster/src/PasswordCrackerMaster/PasswordCrackerMasterServiceHandler.java:107-113 | removing positions highest first: the next (lower) position still holds its original worker, and removing it yields the registry without all positions removed so far |
| Registry.RemoveAtDistinct | PasswordCrackerMaster/src/PasswordCrackerMaster/PasswordCrackerMasterServiceHandler.java:113 | removing one entry of a duplicate-free registry removes exactly that address and keeps every other one |
| Registry.FailOneAndThreeOfFour | PasswordCrackerMaster/src/PasswordCrackerMaster/PasswordCrackerMasterServiceHandler.java:109-114 | failing positions 1 and 3 of four workers leaves the original workers 0 and 2, in order |
| Dispatch.AssignedTo | PasswordCrackerMaster/src/PasswordCrackerMaster/PasswordCrackerMasterServiceHandler.java:75-77 | the tasks among the first k that round robin gives to index j, in order |
| Dispatch.DispatchCalls | PasswordCrackerMaster/src/PasswordCrackerMaster/PasswordCrackerMasterServiceHandler.java:82-84 | the search calls of the first k tasks, in task order |
| Dispatch.DispatchLedger | PasswordCrackerMaster/src/PasswordCrackerMaster/PasswordCrackerMasterServiceHandler.java:75-88 | the ledger after the first k tasks are each appended to the list of registry[i % n] |
| Dispatch.DispatchTask | PasswordCrackerMaster/src/PasswordCrackerMaster/PasswordCrackerMasterServiceHandler.java:76-87 | task i of a dispatch: subrange [begin + i*size, begin + i*size + size), worker index i % n, the job |
| Dispatch.SameWorkerEveryN | PasswordCrackerMaster/src/PasswordCrackerMaster/PasswordCrackerMasterServiceHandler.java:76-80 | tasks i and i + n of a dispatch go to the same registry index, and task i + n's subrange starts n subranges later |
| Dispatch.Contiguous | PasswordCrackerMaster/src/PasswordCrackerMaster/PasswordCrackerMasterServiceHandler.java:79-80 | each subrange has the configured width and starts where the previous one ends |
| Dispatch.Disjoint | PasswordCrackerMaster/src/PasswordCrackerMaster/PasswordCrackerMasterServiceHandler.java:79-80 | two subranges of one dispatch share no candidate |
| Dispatch.Cover | PasswordCrackerMaster/src/PasswordCrackerMaster/PasswordCrackerMasterServiceHandler.java:75-80 | every candidate in [begin, begin + k*size) lies in subrange (x - begin) / size, one of the k dispatched |
| Dispatch.AssignedCount | PasswordCrackerMaster/src/PasswordCrackerMaster/PasswordCrackerMasterServiceHandler.java:75-77 | round robin gives index j of n exactly k / n tasks, plus one when j < k % n |
| Dispatch.AssignedShape | PasswordCrackerMaster/src/PasswordCrackerMaster/PasswordCrackerMasterServiceHandler.java:76-87 | every task given to index j records worker id j, the job, and the bounds of its task number |
| Dispatch.DispatchPlacement | PasswordCrackerMaster/src/PasswordCrackerMaster/PasswordCrackerMasterServiceHandler.java:75-88 | the list of registry[j] ends up as its old tasks followed by exactly the round-robin tasks of index j, in task order |
| Dispatch.DispatchOthers | PasswordCrackerMaster/src/PasswordCrackerMaster/PasswordCrackerMasterServiceHandler.java:86-87 | dispatch leaves the ledger entry of every unregistered address untouched |
| Dispatch.DispatchKeys | PasswordCrackerMaster/src/PasswordCrackerMaster/PasswordCrackerMasterServiceHandler.java:86 | dispatch creates ledger entries only for registered addresses |
| Dispatch.DispatchTotal | PasswordCrackerMaster/src/PasswordCrackerMaster/PasswordCrackerMasterServiceHandler.java:75-88 | dispatching k tasks adds exactly k tasks to the ledger |
| Dispatch.DispatchCallsAt | PasswordCrackerMaster/src/PasswordCrackerMaster/PasswordCrackerMasterServiceHandler.java:82-84 | one search call per task, in task order, to the worker whose list records that task, carrying its bounds and job |
| Dispatch.ThreeWorkersTenTasks | PasswordCrackerMaster/src/PasswordCrackerMaster/PasswordCrackerMasterServiceHandler.java:75-88 | three workers and ten tasks give per-worker counts 4, 3 and 3 |
| Liveness.Stale | PasswordCrackerMaster/src/PasswordCrackerMaster/PasswordCrackerMasterServiceHandler.java:171-175 | a worker is failed when its heartbeat is more than 5000 ms old, or when it never sent one |
| Liveness.StalePositions | PasswordCrackerMaster/src/PasswordCrackerMaster/PasswordCrackerMasterServiceHandler.java:168-180 | the positions of the stale workers, in registry order |
| Liveness.StalePositionsExact | PasswordCrackerMaster/src/PasswordCrackerMaster/PasswordCrackerMasterServiceHandler.java:171-180 | the stale positions are strictly ascending, and position j is listed exactly when the worker there is stale |
| Liveness.StalePositionsSet | PasswordCrackerMaster/src/PasswordCrackerMaster/PasswordCrackerMasterServiceHandler.java:168-180 | as a set, the stale positions are exactly the positions of stale workers |
| Liveness.HeartbeatBoundary | PasswordCrackerMaster/src/PasswordCrackerMaster/PasswordCrackerMasterServiceHandler.java:165-174 | a heartbeat at t keeps its worker alive through t + 5000 ms and no later |
| Liveness.HeartbeatIsolated | PasswordCrackerMaster/src/PasswordCrackerMaster/PasswordCrackerMasterServiceHandler.java:63 | one worker's heartbeat does not change whether another worker is stale |
| Redistribution.ReissueCalls | PasswordCrackerMaster/src/PasswordCrackerMaster/PasswordCrackerMasterServiceHandler.java:135-140 | one re-issued search per moved task, to its new worker, with its bounds and job, in move order |
| Redistribution.MovedTo | PasswordCrackerMaster/src/PasswordCrackerMaster/PasswordCrackerMasterServiceHandler.java:123-133 | the drained tasks whose recomputed index is j, retargeted, in order |
| Redistribution.Drained | PasswordCrackerMaster/src/PasswordCrackerMaster/PasswordCrackerMasterServiceHandler.java:118-121 | the tasks held by the dead addresses, in the order they are drained |
| Redistribution.DrainAll | PasswordCrackerMaster/src/PasswordCrackerMaster/PasswordCrackerMasterServiceHandler.java:118-149 | every dead address drained in the given order |
| Redistribution.DrainOne | PasswordCrackerMaster/src/PasswordCrackerMaster/PasswordCrackerMasterServiceHandler.java:119-133 | one dead address: its list taken (absent is empty), its entry removed, and every task of the list moved |
| Redistribution.RehomeAll | PasswordCrackerMaster/src/PasswordCrackerMaster/PasswordCrackerMasterServiceHandler.java:121-133 | the tasks of one list moved one after the other, in list order |
| Redistribution.Rehome | PasswordCrackerMaster/src/PasswordCrackerMaster/PasswordCrackerMasterServiceHandler.java:123-133 | one task moved, with worker id recomputed, to the end of the list of survivor workerId % n |
| Redistribution.Retarget | PasswordCrackerMaster/src/PasswordCrackerMaster/PasswordCrackerMasterServiceHandler.java:123-129 | a moved task's worker id becomes its old id modulo the survivor count; its bounds and job are kept |
| Redistribution.RehomeAllPlacement | PasswordCrackerMaster/src/PasswordCrackerMaster/PasswordCrackerMasterServiceHandler.java:121-133 | moving a list of tasks appends to survivor j exactly the tasks whose recomputed index is j, in order |
| Redistribution.RehomeAllOthers | PasswordCrackerMaster/src/PasswordCrackerMaster/PasswordCrackerMasterServiceHandler.java:121-133 | moving tasks touches no address outside the survivors |
| Redistribution.RehomeAllTotal | PasswordCrackerMaster/src/PasswordCrackerMaster/PasswordCrackerMasterServiceHandler.java:121-133 | moving a list of tasks adds exactly its length to the ledger |
| Redistribution.DrainAllOthers | PasswordCrackerMaster/src/PasswordCrackerMaster/PasswordCrackerMasterServiceHandler.java:118-149 | addresses that neither failed nor survive keep their ledger entries |
| Redistribution.DrainAllKeys | PasswordCrackerMaster/src/PasswordCrackerMaster/PasswordCrackerMasterServiceHandler.java:118-149 | after redistribution no dead address has a ledger entry, and every entry belongs to a survivor or was there before |
| Redistribution.DrainAllPlacement | PasswordCrackerMaster/src/PasswordCrackerMaster/PasswordCrackerMasterServiceHandler.java:118-149 | each survivor ends with its own tasks followed by the drained tasks that map to it, in drain order; since each drained task maps to one index, it appears under one survivor only |
| Redistribution.MovedToComplete | PasswordCrackerMaster/src/PasswordCrackerMaster/PasswordCrackerMasterServiceHandler.java:121-133 | every task of a moved list appears, retargeted, among the tasks moved to the survivor its recomputed index names |
| Redistribution.DrainedHolds | PasswordCrackerMaster/src/PasswordCrackerMaster/PasswordCrackerMasterServiceHandler.java:118-121 | every task held by a dead address is among the drained tasks |
| Redistribution.DrainAllComplete | PasswordCrackerMaster/src/PasswordCrackerMaster/PasswordCrackerMasterServiceHandler.java:118-149 | every task a dead worker held appears after redistribution, with its worker index recomputed, in the list of survivor workerId % n |
| Redistribution.DrainAllTotal | PasswordCrackerMaster/src/PasswordCrackerMaster/PasswordCrackerMasterServiceHandler.java:118-149 | redistribution neither loses nor duplicates a task |
| Redistribution.MovedToShape | PasswordCrackerMaster/src/PasswordCrackerMaster/PasswordCrackerMasterServiceHandler.java:123-133 | every task moved to survivor j carries worker id j and comes from a drained task with the same bounds and job |
| Redistribution.DrainedSoFar | PasswordCrackerMaster/src/PasswordCrackerMaster/PasswordCrackerMasterServiceHandler.java:118-120 | a dead address not yet drained still holds its original list, because the dead addresses are distinct and no survivor is dead |
| Redistribution.StoppedAt | PasswordCrackerMaster/src/PasswordCrackerMaster/PasswordCrackerMasterServiceHandler.java:118-123 | with no survivor, the redistribution stopped at the first dead address holding a task, with the entries of the dead addresses up to and including it removed and the rest of the ledger as it was |
| Redistribution.RedistributingStuck | PasswordCrackerMaster/src/PasswordCrackerMaster/PasswordCrackerMasterServiceHandler.java:121-123 | with no survivor the loop stops at the first dead address that holds a task, having sent nothing |
| Redistribution.RedistributingDone | PasswordCrackerMaster/src/PasswordCrackerMaster/PasswordCrackerMasterServiceHandler.java:118-149 | at the end of the loop no task is lost, no dead address keeps an entry, and every entry is a survivor's |
| Completion.TerminateCalls | PasswordCrackerMaster/src/PasswordCrackerMaster/PasswordCrackerMasterServiceHandler.java:241-255 | one termination call per registered worker, in registry order |
| Completion.KeepOthers | PasswordCrackerMaster/src/PasswordCrackerMaster/PasswordCrackerMasterServiceHandler.java:214-220 | the iterator keeps exactly the tasks of other jobs and never lengthens the list |
| Completion.PurgeLedger | PasswordCrackerMaster/src/PasswordCrackerMaster/PasswordCrackerMasterServiceHandler.java:213-221 | the purge keeps every ledger entry and filters each list |
| Completion.TerminateCallsAt | PasswordCrackerMaster/src/PasswordCrackerMaster/PasswordCrackerMasterServiceHandler.java:241-255 | the termination broadcast sends one call to every registered worker, in registry order |
| Completion.KeepOthersConcat | PasswordCrackerMaster/src/PasswordCrackerMaster/PasswordCrackerMasterServiceHandler.java:214-220 | the filter works segment by segment, so kept tasks stay in their order |
| Completion.KeepOthersUntouched | PasswordCrackerMaster/src/PasswordCrackerMaster/PasswordCrackerMasterServiceHandler.java:214-220 | a list with no task of the job is left exactly as it was |
| Completion.KeepOthersSplit | PasswordCrackerMaster/src/PasswordCrackerMaster/PasswordCrackerMasterServiceHandler.java:214-220 | the kept tasks and the removed tasks of the job together are the original list as a multiset: no task is lost or duplicated |
| Completion.OnlyJob | PasswordCrackerMaster/src/PasswordCrackerMaster/PasswordCrackerMasterServiceHandler.java:216-218 | the tasks the iterator removes: exactly the list's tasks of the job, in order |
| Completion.PurgeRemovesJob | PasswordCrackerMaster/src/PasswordCrackerMaster/PasswordCrackerMasterServiceHandler.java:213-221 | after the purge no list holds a task of the job, and every task of another job is still held |
| Completion.PurgeIdempotent | PasswordCrackerMaster/src/PasswordCrackerMaster/PasswordCrackerMasterServiceHandler.java:213-221 | a second completion's purge for the same job changes nothing |
| Completion.PurgeUnrelated | PasswordCrackerMaster/src/PasswordCrackerMaster/PasswordCrackerMasterServiceHandler.java:213-221 | purging a job that holds no task leaves the ledger unchanged |
| Master.Coordinator.constructor | PasswordCrackerMaster/src/PasswordCrackerMaster/PasswordCrackerMasterServiceHandler.java:32-39 | the coordinator starts with the given registry, an empty ledger, no heartbeats, no jobs and nothing sent |
| Master.Coordinator.Decrypt | PasswordCrackerMaster/src/PasswordCrackerMaster/PasswordCrackerMasterServiceHandler.java:46-49 | installs an empty result slot for the credential, then dispatches from offset 0; fails, having changed nothing else, exactly when there are tasks but no workers |
| Master.Coordinator.AwaitPassword | PasswordCrackerMaster/src/PasswordCrackerMaster/PasswordCrackerMasterServiceHandler.java:51-53 | once the result slot is filled, returns the password and removes the job; until then changes nothing |
| Master.Coordinator.ReportHeartBeat | PasswordCrackerMaster/src/PasswordCrackerMaster/PasswordCrackerMasterServiceHandler.java:61-64 | records the time for this worker and no other |
| Master.Coordinator.RequestFindPassword | PasswordCrackerMaster/src/PasswordCrackerMaster/PasswordCrackerMasterServiceHandler.java:69-98 | the ledger and the sent calls are the round-robin dispatch of the job's subranges; it fails with the state unchanged exactly when there are tasks but no workers |
| Master.Coordinator.CollectFailed | PasswordCrackerMaster/src/PasswordCrackerMaster/PasswordCrackerMasterServiceHandler.java:164-180 | the failed positions are ascending, in range, exactly the positions of stale workers, and equal to the stale-position list |
| Master.Coordinator.RemoveFailed | PasswordCrackerMaster/src/PasswordCrackerMaster/PasswordCrackerMasterServiceHandler.java:109-114 | the registry loses exactly the failed positions; the dead addresses come out highest first, distinct and no longer registered, and every old worker survives or is dead |
| Master.Coordinator.MoveTasks | PasswordCrackerMaster/src/PasswordCrackerMaster/PasswordCrackerMasterServiceHandler.java:121-148 | one dead worker's list moves task by task to the survivors with searches re-issued; with no survivor the first task fails and nothing moves |
| Master.Coordinator.Reassign | PasswordCrackerMaster/src/PasswordCrackerMaster/PasswordCrackerMasterServiceHandler.java:118-149 | the ledger and the sent calls are the drain of the dead addresses onto the survivors; with no survivor it fails exactly when a dead worker held a task, stopping at the first such worker |
| Master.Coordinator.RedistributeFailedTask | PasswordCrackerMaster/src/PasswordCrackerMaster/PasswordCrackerMasterServiceHandler.java:105-150 | the registry loses the failed positions; on success no task is lost, no dead address keeps an entry, and with survivors the ledger and the sent calls are the drain of the dead addresses (highest position first) and its re-issued searches; it fails exactly when no worker survives and a dead worker held a task. Without survivors it sends nothing: on success the dead entries are removed; on failure it stops at the first dead worker holding a task, with the entries up to and including that worker removed |
| Master.Coordinator.CheckHeartBeat | PasswordCrackerMaster/src/PasswordCrackerMaster/PasswordCrackerMasterServiceHandler.java:163-184 | the registry loses exactly its stale workers; on success no task is lost and no stale worker keeps a ledger entry; with survivors the ledger and the sent calls are the drain of the stale workers, highest position first, onto the survivors and its re-issued searches; it fails exactly when every worker is stale and one of them held a task, having sent nothing and removed the entries up to the first stale worker holding a task |
| Master.Coordinator.JobTermination | PasswordCrackerMaster/src/PasswordCrackerMaster/PasswordCrackerMasterServiceHandler.java:238-264 | sends one termination call for the job to every registered worker |
| Master.Coordinator.PurgeJob | PasswordCrackerMaster/src/PasswordCrackerMaster/PasswordCrackerMasterServiceHandler.java:213-221 | the ledger becomes the purge of the job |
| Master.Coordinator.OnComplete | PasswordCrackerMaster/src/PasswordCrackerMaster/PasswordCrackerMasterServiceHandler.java:199-228 | a not-found result changes nothing. A found result broadcasts termination, fills the result slot only if it is still empty, and purges the job's tasks. A job no longer in the table fails after the broadcast. It runs in any state, and keeps the registry and ledger invariant when it held before |
| Master.DecryptFound | PasswordCrackerMaster/src/PasswordCrackerMaster/PasswordCrackerMasterServiceHandler.java:46-54 | with a worker registered, a job that a worker solves yields that worker's password; afterwards the job is out of the table and no worker holds its tasks |
| Master.PurgeList | PasswordCrackerMaster/src/PasswordCrackerMaster/PasswordCrackerMasterServiceHandler.java:214-220 | the iterator loop over one list leaves exactly the filtered list |

## Left out

- Thrift transport: asynchronous clients, sockets and callbacks are not modelled. Issued calls are recorded in `sent`, and a completion arrives as a call to `OnComplete`.
- IOException and TException: in the code, a failed connection or send ends the dispatch loop (lines 90-94) or the termination broadcast (lines 258-263) at that task, and the failed task is not recorded in the ledger, since lines 86-87 come after line 84. In the redistribution loop (lines 142-147) a failed send only skips that call. The model assumes every call is issued.
- `onError`: it only logs, so it is not modelled. Logging (`println`, `printStackTrace`) is left out everywhere.
- Concurrency: the lock, `ConcurrentHashMap`, the worker and heartbeat thread pools and the periodic timer are left out. Each operation runs to completion before the next begins. Races between callbacks and redistribution, and the lock never released after the division at line 123 throws, are not captured.
- Blocking: `PasswordDecrypterJob` is not part of this model. Its blocking `getPassword` is split out of `Decrypt` as `AwaitPassword`, which returns nothing until the slot is filled. Its `setPassword` is modelled as a one-shot slot: the first password is kept.
- The Java `jobInfoMap` holds job objects. Here `jobs` maps each credential to its result slot (`Option<string>`).
- `PasswordCrackerConts` is not part of this model. `NUMBER_OF_WORKER` and `SUB_RANGE_SIZE` are constructor parameters (`taskCount`, `subRangeSize`).
- `workersSocketList` is never used by the handler and is not modelled.
- Integers: bounds are unbounded integers, so 64-bit overflow of `rangeBegin + taskId * subRangeSize` is not modelled. Every operand of `%` is non-negative, so Java's and Dafny's remainders agree.
- Task identity: `task.workerId = workerId` mutates the shared `PasswordTask` object. Here the moved task is a new value. No other holder of the same object exists in the code, so no aliasing is lost.
- Line 172: a registered worker with no recorded heartbeat throws a NullPointerException there (unboxing null). Here a worker with no recorded heartbeat is treated as failed.
- Line 121: a dead worker with no ledger entry throws a NullPointerException there. Here its list counts as empty.
- Lines 206-207: a completion for a job already removed from `jobInfoMap` throws a NullPointerException after the broadcast. Here it returns `UnknownJob` after the broadcast, with ledger and jobs unchanged. The broadcast to every worker happens before the lookup, so it is kept.
- Line 76: dispatch with an empty registry throws before any state changes. Here it returns `NoWorkers` with ledger and calls unchanged. `Decrypt` has already installed the job's slot, as line 48 does.
- Line 123: redistribution with no survivor divides by zero at the first task to move. Here it returns `NoSurvivors` at that point, with the registry shrunk and the drained entries already removed, as in the code. The model reports the condition only through the status.
- Registry addresses are assumed distinct (`Valid`, required by the constructor). The Java list accepts a repeated address; since `latestHeartbeatInMillis` is keyed by address, all copies go stale together, line 112 lists the address twice in `badAddresses`, and the second pass of lines 119-121 finds its entry already removed and throws a NullPointerException at line 121. That behaviour is not modelled.
- Heartbeat times are not updated for workers that are removed. The code keeps them too.
