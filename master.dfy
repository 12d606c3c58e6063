/** The coordinator (`PasswordCrackerMasterServiceHandler`): the worker
    registry, the task ledger, the heartbeat table and the job table, updated
    in place by operations that each run to completion before the next. */
module Master {
  import opened Tasks
  import opened Registry
  import opened Dispatch
  import opened Liveness
  import opened Redistribution
  import opened Completion

  datatype Option<T> = None | Some(value: T)

  /** How an operation ended. The three failures are where the coordinator
      throws: the division by an empty registry in `requestFindPassword`
      (NoWorkers) and in `redistributeFailedTask` (NoSurvivors), and the
      completion of a job no longer in the job table (UnknownJob). */
  datatype Status = Ok | NoWorkers | NoSurvivors | UnknownJob

  class Coordinator {
    /** `workersAddressList`: position is the routing index. */
    var registry: seq<string>
    /** `taskMap`: worker address to its outstanding tasks. */
    var ledger: Ledger
    /** `latestHeartbeatInMillis`: worker address to its last heartbeat time. */
    var lastSeen: map<string, int>
    /** `jobInfoMap`: job id (the encrypted password) to its result slot. */
    var jobs: map<string, Option<string>>
    /** The RPCs issued to workers, oldest first. */
    var sent: seq<Call>
    /** `NUMBER_OF_WORKER`: the number of tasks dispatched per job. */
    const taskCount: nat
    /** `SUB_RANGE_SIZE`: the width of one task's subrange. */
    const subRangeSize: int

    /** Addresses are registered once, and only registered workers hold ledger entries. */
    ghost predicate Valid()
      reads this
    {
      Distinct(registry) && forall a :: a in ledger ==> a in registry
    }

    constructor (workers: seq<string>, taskCount: nat, subRangeSize: int)
      requires Distinct(workers)
      ensures Valid()
      ensures registry == workers && ledger == map[] && lastSeen == map[] && jobs == map[] && sent == []
      ensures this.taskCount == taskCount && this.subRangeSize == subRangeSize
    {
      registry := workers;
      ledger := map[];
      lastSeen := map[];
      jobs := map[];
      sent := [];
      this.taskCount := taskCount;
      this.subRangeSize := subRangeSize;
    }

    /** `decrypt`, up to the blocking wait: install an empty result slot for
        the credential and dispatch the job from offset 0. */
    method Decrypt(credential: string) returns (r: Status)
      requires Valid()
      modifies this`jobs, this`ledger, this`sent
      ensures Valid()
      ensures jobs == old(jobs)[credential := None]
      ensures r == Ok || r == NoWorkers
      ensures r == NoWorkers <==> taskCount > 0 && registry == []
      ensures r == NoWorkers ==> ledger == old(ledger) && sent == old(sent)
      ensures r == Ok ==>
        && ledger == DispatchLedger(old(ledger), registry, credential, 0, subRangeSize, taskCount)
        && sent == old(sent) + DispatchCalls(registry, credential, 0, subRangeSize, taskCount)
    {
      jobs := jobs[credential := None];
      r := RequestFindPassword(credential, 0, subRangeSize);
    }

    /** `decrypt`, after the wait: once the slot holds a password, remove the
        job and return the password; until then nothing changes. */
    method AwaitPassword(credential: string) returns (password: Option<string>)
      modifies this`jobs
      ensures credential in old(jobs) && old(jobs)[credential].Some? ==>
        password == old(jobs)[credential] && jobs == old(jobs) - {credential}
      ensures !(credential in old(jobs) && old(jobs)[credential].Some?) ==>
        password == None && jobs == old(jobs)
    {
      if credential in jobs && jobs[credential].Some? {
        password := jobs[credential];
        jobs := jobs - {credential};
      } else {
        password := None;
      }
    }

    /** `reportHeartBeat`: record `now` for this worker and no other. */
    method ReportHeartBeat(workerAddress: string, now: int)
      modifies this`lastSeen
      ensures workerAddress in lastSeen && lastSeen[workerAddress] == now
      ensures forall a :: a != workerAddress ==>
        (a in lastSeen <==> a in old(lastSeen)) && (a in lastSeen ==> lastSeen[a] == old(lastSeen)[a])
    {
      lastSeen := lastSeen[workerAddress := now];
    }

    /** `requestFindPassword`: task `taskId` covers
        [rangeBegin + taskId*size, rangeBegin + taskId*size + size), goes to
        registry index taskId % |registry|, is sent there and is appended to
        that worker's ledger list. */
    method RequestFindPassword(job: string, rangeBegin: int, size: int) returns (r: Status)
      requires Valid()
      modifies this`ledger, this`sent
      ensures Valid()
      ensures r == Ok || r == NoWorkers
      ensures r == NoWorkers <==> taskCount > 0 && registry == []
      ensures r == NoWorkers ==> ledger == old(ledger) && sent == old(sent)
      ensures r == Ok ==>
        && ledger == DispatchLedger(old(ledger), registry, job, rangeBegin, size, taskCount)
        && sent == old(sent) + DispatchCalls(registry, job, rangeBegin, size, taskCount)
    {
      var taskId := 0;
      while taskId < taskCount
        invariant 0 <= taskId <= taskCount
        invariant taskId > 0 ==> |registry| > 0
        invariant ledger == DispatchLedger(old(ledger), registry, job, rangeBegin, size, taskId)
        invariant sent == old(sent) + DispatchCalls(registry, job, rangeBegin, size, taskId)
      {
        if |registry| == 0 {
          // `taskId % workersAddressList.size()` divides by zero
          return NoWorkers;
        }
        var workerId := taskId % |registry|;
        var workerAddress := registry[workerId];
        var subRangeBegin := rangeBegin + taskId * size;
        var subRangeEnd := subRangeBegin + size;
        var task := Task(subRangeBegin, subRangeEnd, workerId, job);
        DispatchStep(old(ledger), registry, job, rangeBegin, size, taskId);
        CallsAssoc(old(sent), DispatchCalls(registry, job, rangeBegin, size, taskId),
          [StartSearch(workerAddress, subRangeBegin, subRangeEnd, job)]);
        sent := sent + [StartSearch(workerAddress, subRangeBegin, subRangeEnd, job)];
        ledger := ledger[workerAddress := Get(ledger, workerAddress) + [task]];
        taskId := taskId + 1;
      }
      r := Ok;
      assert Valid() by {
        DispatchKeys(old(ledger), registry, job, rangeBegin, size, taskCount);
      }
    }

    /** The first loop of `checkHeartBeat`: the registry positions whose
        worker is stale at `now`, in ascending order. */
    method CollectFailed(now: int) returns (failed: seq<nat>)
      ensures StrictlyAscending(failed)
      ensures forall k :: 0 <= k < |failed| ==> failed[k] < |registry|
      ensures forall j :: 0 <= j < |registry| ==> (j in failed <==> Stale(lastSeen, registry[j], now))
      ensures failed == StalePositions(registry, lastSeen, now)
    {
      failed := [];
      var workerId := 0;
      while workerId < |registry|
        invariant 0 <= workerId <= |registry|
        invariant failed == StalePositions(registry[..workerId], lastSeen, now)
      {
        var addr := registry[workerId];
        if addr !in lastSeen || now - lastSeen[addr] > Threshold {
          failed := failed + [workerId];
        }
        assert registry[..workerId + 1][..workerId] == registry[..workerId];
        workerId := workerId + 1;
      }
      assert registry[..workerId] == registry;
      StalePositionsExact(registry, lastSeen, now);
    }

    /** The first half of `redistributeFailedTask`: remove the failed positions
        from the registry, highest first, collecting their addresses. */
    method RemoveFailed(failed: seq<nat>) returns (bad: seq<string>)
      requires Valid()
      requires StrictlyAscending(failed)
      requires forall k :: 0 <= k < |failed| ==> failed[k] < |registry|
      modifies this`registry
      ensures registry == Without(old(registry), set k | 0 <= k < |failed| :: failed[k])
      ensures bad == PickedDescending(old(registry), failed)
      ensures Distinct(registry) && Distinct(bad)
      ensures forall a :: a in bad ==> a !in registry
      ensures forall a :: a in old(registry) ==> a in registry || a in bad
    {
      bad := [];
      ghost var gone: set<nat> := {};
      WithoutNothing(registry, gone);
      var k := |failed|;
      while k > 0
        invariant 0 <= k <= |failed|
        invariant RemovalState(old(registry), failed, k, gone, registry, bad)
      {
        RemoveStep(old(registry), failed, k, gone, registry, bad);
        k := k - 1;
        var i := failed[k];
        bad := bad + [registry[i]];
        registry := registry[..i] + registry[i + 1..];
        gone := gone + {i};
      }
      assert failed[0..] == failed;
    }

    /** The inner loop of `redistributeFailedTask`: move the tasks of one
        failed worker, in order, each to survivor `workerId % |registry|`
        with its worker index recomputed, re-issuing its search. With no
        survivor the first task divides by zero and nothing is moved. */
    method MoveTasks(tasks: seq<Task>) returns (r: Status)
      modifies this`ledger, this`sent
      ensures r == Ok || r == NoSurvivors
      ensures r == NoSurvivors <==> |registry| == 0 && tasks != []
      ensures |registry| == 0 ==> ledger == old(ledger) && sent == old(sent)
      ensures |registry| > 0 ==>
        && ledger == RehomeAll(old(ledger), registry, tasks)
        && sent == old(sent) + ReissueCalls(tasks, registry)
    {
      var i := 0;
      while i < |tasks|
        invariant 0 <= i <= |tasks|
        invariant |registry| == 0 ==> i == 0 && ledger == old(ledger) && sent == old(sent)
        invariant |registry| > 0 ==>
          && ledger == RehomeAll(old(ledger), registry, tasks[..i])
          && sent == old(sent) + ReissueCalls(tasks[..i], registry)
      {
        if |registry| == 0 {
          // `task.workerId % workersAddressList.size()` divides by zero
          return NoSurvivors;
        }
        var task := tasks[i];
        var workerId := task.workerId % |registry|;
        var newWorkerAddress := registry[workerId];
        var moved := task.(workerId := workerId);
        ledger := ledger[newWorkerAddress := Get(ledger, newWorkerAddress) + [moved]];
        sent := sent + [StartSearch(newWorkerAddress, moved.lower, moved.upper, moved.job)];
        assert tasks[..i + 1][..i] == tasks[..i];
        i := i + 1;
      }
      assert tasks[..i] == tasks;
      r := Ok;
    }

    /** The second half of `redistributeFailedTask`: drain the ledger list of
        each failed address in turn (an absent entry counts as empty), and move
        each task to survivor `workerId % |registry|`, re-issuing its search.
        With no survivor the division fails at the first task to move. */
    method Reassign(bad: seq<string>) returns (r: Status)
      requires Distinct(registry) && Distinct(bad)
      requires forall a :: a in bad ==> a !in registry
      requires forall a :: a in ledger ==> a in registry || a in bad
      modifies this`ledger, this`sent
      ensures r == Ok || r == NoSurvivors
      ensures r == Ok ==> Valid() && Total(ledger) == Total(old(ledger))
      ensures r == Ok ==> forall a :: a in bad ==> a !in ledger
      ensures |registry| > 0 ==>
        && r == Ok
        && ledger == DrainAll(old(ledger), registry, bad)
        && sent == old(sent) + ReissueCalls(Drained(old(ledger), bad), registry)
      ensures r == NoSurvivors <==>
        |registry| == 0 && exists a :: a in bad && Get(old(ledger), a) != []
      ensures |registry| == 0 && r == Ok ==> ledger == old(ledger) - Elems(bad) && sent == old(sent)
      ensures r == NoSurvivors ==> sent == old(sent)
      ensures r == NoSurvivors ==> StoppedAt(old(ledger), bad, ledger)
    {
      ghost var m0, c0 := ledger, sent;
      RedistributingStart(m0, c0, registry, bad);
      var b := 0;
      while b < |bad|
        invariant 0 <= b <= |bad|
        invariant Redistributing(m0, c0, registry, bad, b, ledger, sent)
      {
        var addr := bad[b];
        ghost var before, sentBefore := ledger, sent;
        var tasks := Get(ledger, addr);
        ledger := ledger - {addr};
        var status := MoveTasks(tasks);
        if status == NoSurvivors {
          RedistributingStuck(m0, c0, registry, bad, b, before, sentBefore);
          assert addr in bad;
          return NoSurvivors;
        }
        RedistributingStep(m0, c0, registry, bad, b, before, sentBefore, ledger, sent);
        b := b + 1;
      }
      RedistributingDone(m0, c0, registry, bad, ledger, sent);
      r := Ok;
    }

    /** `redistributeFailedTask`: remove the failed positions (ascending, as
        `checkHeartBeat` builds them) highest first, then move the tasks of the
        removed workers to the survivors. */
    method RedistributeFailedTask(failed: seq<nat>) returns (r: Status)
      requires Valid()
      requires StrictlyAscending(failed)
      requires forall k :: 0 <= k < |failed| ==> failed[k] < |registry|
      modifies this`registry, this`ledger, this`sent
      ensures registry == Without(old(registry), set k | 0 <= k < |failed| :: failed[k])
      ensures r == Ok || r == NoSurvivors
      ensures r == Ok ==> Valid() && Total(ledger) == Total(old(ledger))
      ensures r == Ok ==> forall a :: a in PickedDescending(old(registry), failed) ==> a !in ledger
      ensures |registry| > 0 ==>
        var bad := PickedDescending(old(registry), failed);
        && r == Ok
        && ledger == DrainAll(old(ledger), registry, bad)
        && sent == old(sent) + ReissueCalls(Drained(old(ledger), bad), registry)
      ensures r == NoSurvivors <==>
        |registry| == 0 && exists a :: a in PickedDescending(old(registry), failed) && Get(old(ledger), a) != []
      ensures |registry| == 0 && r == Ok ==>
        ledger == old(ledger) - Elems(PickedDescending(old(registry), failed)) && sent == old(sent)
      ensures r == NoSurvivors ==> sent == old(sent)
      ensures r == NoSurvivors ==> StoppedAt(old(ledger), PickedDescending(old(registry), failed), ledger)
    {
      var bad := RemoveFailed(failed);
      assert ledger == old(ledger);
      r := Reassign(bad);
    }

    /** `checkHeartBeat`: find the workers whose heartbeat is stale at `now`
        and redistribute their tasks: the registry loses them, and their
        tasks are drained, in descending position order, onto the survivors. */
    method CheckHeartBeat(now: int) returns (r: Status)
      requires Valid()
      modifies this`registry, this`ledger, this`sent
      ensures registry == Without(old(registry),
        set j | 0 <= j < |old(registry)| && Stale(old(lastSeen), old(registry)[j], now))
      ensures r == Ok || r == NoSurvivors
      ensures r == Ok ==> Valid() && Total(ledger) == Total(old(ledger))
      ensures r == Ok ==> forall a :: a in old(registry) && Stale(old(lastSeen), a, now) ==> a !in ledger
      ensures |registry| > 0 ==>
        var bad := PickedDescending(old(registry), StalePositions(old(registry), old(lastSeen), now));
        && r == Ok
        && ledger == DrainAll(old(ledger), registry, bad)
        && sent == old(sent) + ReissueCalls(Drained(old(ledger), bad), registry)
      ensures r == NoSurvivors <==>
        registry == [] && exists a :: a in old(registry) && Stale(old(lastSeen), a, now) && Get(old(ledger), a) != []
      ensures |registry| == 0 && r == Ok ==>
        ledger == old(ledger) - Elems(PickedDescending(old(registry), StalePositions(old(registry), old(lastSeen), now)))
        && sent == old(sent)
      ensures r == NoSurvivors ==> sent == old(sent)
      ensures r == NoSurvivors ==>
        StoppedAt(old(ledger), PickedDescending(old(registry), StalePositions(old(registry), old(lastSeen), now)), ledger)
    {
      ghost var reg0 := registry;
      var failed := CollectFailed(now);
      PickedDescendingElems(reg0, failed);
      assert forall a :: a in PickedDescending(reg0, failed) <==> a in reg0 && Stale(lastSeen, a, now);
      assert ledger == old(ledger);
      StalePositionsSet(reg0, lastSeen, now);
      ghost var bad := PickedDescending(reg0, failed);
      assert bad == PickedDescending(old(registry), StalePositions(old(registry), old(lastSeen), now));
      r := RedistributeFailedTask(failed);
    }

    /** `jobTermination`: one termination call to every registered worker. */
    method JobTermination(jobId: string)
      modifies this`sent
      ensures sent == old(sent) + TerminateCalls(registry, jobId)
    {
      var i := 0;
      while i < |registry|
        invariant 0 <= i <= |registry|
        invariant sent == old(sent) + TerminateCalls(registry[..i], jobId)
      {
        sent := sent + [Terminate(registry[i], jobId)];
        assert registry[..i + 1][..i] == registry[..i];
        i := i + 1;
      }
      assert registry[..i] == registry;
    }

    /** The purge of `onComplete`: remove the job's tasks from every ledger list. */
    method PurgeJob(jobId: string)
      modifies this`ledger
      ensures ledger == PurgeLedger(old(ledger), jobId)
    {
      var pending := ledger.Keys;
      while pending != {}
        invariant pending <= ledger.Keys
        invariant ledger.Keys == old(ledger).Keys
        invariant forall a :: a in ledger ==>
          ledger[a] == if a in pending then old(ledger)[a] else KeepOthers(old(ledger)[a], jobId)
        decreases pending
      {
        var a :| a in pending;
        var kept := PurgeList(ledger[a], jobId);
        ledger := ledger[a := kept];
        pending := pending - {a};
      }
    }

    /** `FindPasswordMethodCallback.onComplete`. A search that found nothing
        changes nothing. A found password broadcasts termination of the job,
        fills the job's result slot if still empty, and purges the job's tasks
        from every ledger list; a job already gone from the job table stops
        after the broadcast. */
    method OnComplete(jobId: string, result: Option<string>) returns (r: Status)
      modifies this`sent, this`ledger, this`jobs
      ensures old(Valid()) ==> Valid()
      ensures result == None ==> r == Ok && ledger == old(ledger) && jobs == old(jobs) && sent == old(sent)
      ensures result != None ==> sent == old(sent) + TerminateCalls(registry, jobId)
      ensures result != None ==> (r == UnknownJob <==> jobId !in old(jobs))
      ensures result != None && jobId !in old(jobs) ==> ledger == old(ledger) && jobs == old(jobs)
      ensures result != None && jobId in old(jobs) ==>
        && r == Ok
        && ledger == PurgeLedger(old(ledger), jobId)
        && jobs == old(jobs)[jobId := if old(jobs)[jobId] == None then result else old(jobs)[jobId]]
    {
      if result == None {
        return Ok;
      }
      JobTermination(jobId);
      if jobId !in jobs {
        return UnknownJob;
      }
      if jobs[jobId] == None {
        jobs := jobs[jobId := result];
      }
      PurgeJob(jobId);
      r := Ok;
    }
  }

  /** A job whose search succeeds: `decrypt` installs and dispatches it, a
      worker reports the password, and the waiting `decrypt` returns that
      password; afterwards the job is gone from the job table and no worker
      holds a task of it. */
  method DecryptFound(c: Coordinator, credential: string, password: string) returns (answer: Option<string>)
    requires c.Valid() && |c.registry| > 0
    modifies c
    ensures answer == Some(password)
    ensures credential !in c.jobs
    ensures forall a, t :: a in c.ledger && t in c.ledger[a] ==> t.job != credential
    ensures c.registry == old(c.registry) && c.Valid()
  {
    var dispatched := c.Decrypt(credential);
    ghost var pending := c.ledger;
    var completed := c.OnComplete(credential, Some(password));
    answer := c.AwaitPassword(credential);
    PurgeRemovesJob(pending, credential);
  }

  /** The state of the removal loop of `redistributeFailedTask` once the
      failed positions failed[k..] are deleted (highest first) from `s0`. */
  ghost predicate RemovalState(s0: seq<string>, failed: seq<nat>, k: nat, gone: set<nat>, reg: seq<string>, bad: seq<string>)
    requires k <= |failed|
    requires forall q :: 0 <= q < |failed| ==> failed[q] < |s0|
  {
    && gone == (set q | k <= q < |failed| :: failed[q])
    && reg == Without(s0, gone)
    && bad == PickedDescending(s0, failed[k..])
    && Distinct(reg) && Distinct(bad)
    && (forall a :: a in bad ==> a !in reg)
    && (forall a :: a in s0 ==> a in reg || a in bad)
  }

  /** Deleting the next failed position keeps the removal state. */
  lemma RemoveStep(s0: seq<string>, failed: seq<nat>, k: nat, gone: set<nat>, reg: seq<string>, bad: seq<string>)
    requires StrictlyAscending(failed)
    requires forall q :: 0 <= q < |failed| ==> failed[q] < |s0|
    requires 0 < k <= |failed|
    requires RemovalState(s0, failed, k, gone, reg, bad)
    ensures failed[k - 1] < |reg|
    ensures RemovalState(s0, failed, k - 1, gone + {failed[k - 1]},
      reg[..failed[k - 1]] + reg[failed[k - 1] + 1..], bad + [reg[failed[k - 1]]])
  {
    var i := failed[k - 1];
    assert forall d :: d in gone ==> d > i;
    WithoutRemoveAt(s0, gone, i);
    RemoveAtDistinct(reg, i);
    assert failed[k - 1..][1..] == failed[k..];
    assert gone + {i} == set q | k - 1 <= q < |failed| :: failed[q];
    var reg', bad' := reg[..i] + reg[i + 1..], bad + [reg[i]];
    assert reg' == Without(s0, gone + {i});
    assert bad' == PickedDescending(s0, failed[k - 1..]);
    assert Distinct(reg');
    assert reg[i] !in bad by {
      assert reg[i] in reg;
    }
    assert forall q :: 0 <= q < |bad| ==> bad'[q] == bad[q] && bad[q] in bad;
    assert forall a :: a in bad' ==> a !in reg';
    assert forall a :: a in s0 ==> a in reg' || a in bad';
  }

  /** The iterator loop of `onComplete` over one ledger list: keep the tasks
      of other jobs, in order. */
  method PurgeList(tasks: seq<Task>, jobId: string) returns (kept: seq<Task>)
    ensures kept == KeepOthers(tasks, jobId)
  {
    kept := [];
    var i := 0;
    while i < |tasks|
      invariant 0 <= i <= |tasks|
      invariant kept == KeepOthers(tasks[..i], jobId)
    {
      if tasks[i].job != jobId {
        kept := kept + [tasks[i]];
      }
      assert tasks[..i + 1][..i] == tasks[..i];
      i := i + 1;
    }
    assert tasks[..i] == tasks;
  }
}
