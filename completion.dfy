/** What a successful search completion does to the coordinator
    (`FindPasswordMethodCallback.onComplete` and `jobTermination`): the
    termination broadcast and the purge of the job's tasks from every list. */
module Completion {
  import opened Tasks

  /** One ledger list with the tasks of `job` removed by the iterator; the
      other tasks keep their order. */
  function KeepOthers(ts: seq<Task>, job: string): (r: seq<Task>)
    ensures |r| <= |ts|
    ensures forall t :: t in r <==> t in ts && t.job != job
  {
    if ts == [] then []
    else KeepOthers(ts[..|ts| - 1], job) + (if ts[|ts| - 1].job == job then [] else [ts[|ts| - 1]])
  }

  /** `taskMap.forEach`: every list purged of the job; every entry is kept. */
  function PurgeLedger(m: Ledger, job: string): (r: Ledger)
    ensures r.Keys == m.Keys
    ensures forall a :: a in m ==> r[a] == KeepOthers(m[a], job)
  {
    map a | a in m :: KeepOthers(m[a], job)
  }

  /** `jobTermination`: one termination call to every registered worker, in registry order. */
  function TerminateCalls(reg: seq<string>, job: string): seq<Call>
  {
    if reg == [] then [] else TerminateCalls(reg[..|reg| - 1], job) + [Terminate(reg[|reg| - 1], job)]
  }

  /** The broadcast reaches every registered worker, whether or not it holds a task of the job. */
  lemma {:induction false} TerminateCallsAt(reg: seq<string>, job: string)
    ensures |TerminateCalls(reg, job)| == |reg|
    ensures forall i :: 0 <= i < |reg| ==> TerminateCalls(reg, job)[i] == Terminate(reg[i], job)
  {
    if reg != [] {
      TerminateCallsAt(reg[..|reg| - 1], job);
    }
  }

  /** The purge works list segment by list segment, so the kept tasks stay in order. */
  lemma {:induction false} KeepOthersConcat(xs: seq<Task>, ys: seq<Task>, job: string)
    ensures KeepOthers(xs + ys, job) == KeepOthers(xs, job) + KeepOthers(ys, job)
  {
    if ys != [] {
      assert (xs + ys)[..|xs + ys| - 1] == xs + ys[..|ys| - 1];
      KeepOthersConcat(xs, ys[..|ys| - 1], job);
    } else {
      assert xs + ys == xs;
    }
  }

  /** A list holding no task of the job is left exactly as it was. */
  lemma {:induction false} KeepOthersUntouched(ts: seq<Task>, job: string)
    requires forall i :: 0 <= i < |ts| ==> ts[i].job != job
    ensures KeepOthers(ts, job) == ts
  {
    if ts != [] {
      var init := ts[..|ts| - 1];
      KeepOthersUntouched(init, job);
      assert ts == init + [ts[|ts| - 1]];
    }
  }

  /** The purged and the kept tasks together are the list, task for task:
      nothing is lost or duplicated. */
  lemma {:induction false} KeepOthersSplit(ts: seq<Task>, job: string)
    ensures multiset(KeepOthers(ts, job)) + multiset(OnlyJob(ts, job)) == multiset(ts)
    ensures |KeepOthers(ts, job)| + |OnlyJob(ts, job)| == |ts|
  {
    if ts != [] {
      var init, last := ts[..|ts| - 1], ts[|ts| - 1];
      KeepOthersSplit(init, job);
      assert ts == init + [last];
    }
  }

  /** The tasks of `job` in a list, in order: the tasks the iterator removes. */
  function OnlyJob(ts: seq<Task>, job: string): (r: seq<Task>)
    ensures forall t :: t in r <==> t in ts && t.job == job
  {
    if ts == [] then []
    else OnlyJob(ts[..|ts| - 1], job) + (if ts[|ts| - 1].job == job then [ts[|ts| - 1]] else [])
  }

  /** After the purge no list holds a task of the job, and every other task is still held. */
  lemma PurgeRemovesJob(m: Ledger, job: string)
    ensures forall a, t :: a in PurgeLedger(m, job) && t in PurgeLedger(m, job)[a] ==> t.job != job
    ensures forall a, t :: a in m && t in m[a] && t.job != job ==> t in PurgeLedger(m, job)[a]
  {
  }

  /** A second purge for the same job changes nothing. */
  lemma PurgeIdempotent(m: Ledger, job: string)
    ensures PurgeLedger(PurgeLedger(m, job), job) == PurgeLedger(m, job)
  {
    var once := PurgeLedger(m, job);
    forall a | a in once
      ensures KeepOthers(once[a], job) == once[a]
    {
      assert forall i :: 0 <= i < |once[a]| ==> once[a][i] in once[a];
      KeepOthersUntouched(once[a], job);
    }
  }

  /** Purging one job leaves the lists of a ledger without that job unchanged. */
  lemma PurgeUnrelated(m: Ledger, job: string)
    requires forall a, t :: a in m && t in m[a] ==> t.job != job
    ensures PurgeLedger(m, job) == m
  {
    forall a | a in m
      ensures KeepOthers(m[a], job) == m[a]
    {
      assert forall i :: 0 <= i < |m[a]| ==> m[a][i] in m[a];
      KeepOthersUntouched(m[a], job);
    }
  }
}
