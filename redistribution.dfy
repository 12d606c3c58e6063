/** Redistribution of the failed workers' tasks (`redistributeFailedTask`,
    second half): each failed address is drained in turn, and each drained
    task is given the worker index `workerId % |survivors|` and appended to that
    survivor's ledger list. */
module Redistribution {
  import opened Tasks
  import opened Registry

  /** `task.workerId = workerId`: the task with its worker index recomputed
      against `n` survivors; bounds and job are kept. */
  function Retarget(t: Task, n: nat): (r: Task)
    requires n > 0
    ensures r.workerId < n && r.workerId == t.workerId % n
    ensures r.lower == t.lower && r.upper == t.upper && r.job == t.job
  {
    t.(workerId := t.workerId % n)
  }

  /** One task moved to its new worker's list. */
  function Rehome(m: Ledger, surv: seq<string>, t: Task): Ledger
    requires |surv| > 0
  {
    Append(m, surv[t.workerId % |surv|], Retarget(t, |surv|))
  }

  /** The tasks `ts` moved one after the other. */
  function RehomeAll(m: Ledger, surv: seq<string>, ts: seq<Task>): Ledger
    requires |surv| > 0
  {
    if ts == [] then m
    else Rehome(RehomeAll(m, surv, ts[..|ts| - 1]), surv, ts[|ts| - 1])
  }

  /** One failed address: take its list (an absent entry is an empty list),
      drop its entry, and move every task of the list. */
  function DrainOne(m: Ledger, surv: seq<string>, a: string): Ledger
    requires |surv| > 0
  {
    RehomeAll(m - {a}, surv, Get(m, a))
  }

  /** All failed addresses, in the order given. */
  function DrainAll(m: Ledger, surv: seq<string>, bad: seq<string>): Ledger
    requires |surv| > 0
  {
    if bad == [] then m
    else DrainOne(DrainAll(m, surv, bad[..|bad| - 1]), surv, bad[|bad| - 1])
  }

  /** The tasks held by the failed addresses, in the order they are drained. */
  function Drained(m: Ledger, bad: seq<string>): seq<Task>
  {
    if bad == [] then [] else Drained(m, bad[..|bad| - 1]) + Get(m, bad[|bad| - 1])
  }

  /** The tasks of `ts` whose recomputed index is `j`, retargeted, in order. */
  function MovedTo(ts: seq<Task>, n: nat, j: nat): seq<Task>
    requires n > 0
  {
    if ts == [] then []
    else
      MovedTo(ts[..|ts| - 1], n, j)
      + (if ts[|ts| - 1].workerId % n == j then [Retarget(ts[|ts| - 1], n)] else [])
  }

  /** The search calls re-issued for the moved tasks, in order. */
  function ReissueCalls(ts: seq<Task>, surv: seq<string>): seq<Call>
    requires |surv| > 0
  {
    if ts == [] then []
    else
      var t := ts[|ts| - 1];
      ReissueCalls(ts[..|ts| - 1], surv) + [StartSearch(surv[t.workerId % |surv|], t.lower, t.upper, t.job)]
  }

  // ---- moving a list of tasks ----

  lemma {:induction false} MovedToConcat(xs: seq<Task>, ys: seq<Task>, n: nat, j: nat)
    requires n > 0
    ensures MovedTo(xs + ys, n, j) == MovedTo(xs, n, j) + MovedTo(ys, n, j)
  {
    if ys != [] {
      assert (xs + ys)[..|xs + ys| - 1] == xs + ys[..|ys| - 1];
      MovedToConcat(xs, ys[..|ys| - 1], n, j);
    } else {
      assert xs + ys == xs;
    }
  }

  lemma {:induction false} ReissueCallsConcat(xs: seq<Task>, ys: seq<Task>, surv: seq<string>)
    requires |surv| > 0
    ensures ReissueCalls(xs + ys, surv) == ReissueCalls(xs, surv) + ReissueCalls(ys, surv)
  {
    if ys != [] {
      assert (xs + ys)[..|xs + ys| - 1] == xs + ys[..|ys| - 1];
      ReissueCallsConcat(xs, ys[..|ys| - 1], surv);
    } else {
      assert xs + ys == xs;
    }
  }

  /** Moving tasks appends to survivor j exactly the tasks whose recomputed index is j. */
  lemma {:induction false} RehomeAllPlacement(m: Ledger, surv: seq<string>, ts: seq<Task>, j: nat)
    requires Distinct(surv) && j < |surv|
    ensures Get(RehomeAll(m, surv, ts), surv[j]) == Get(m, surv[j]) + MovedTo(ts, |surv|, j)
  {
    if ts != [] {
      RehomeAllPlacement(m, surv, ts[..|ts| - 1], j);
    }
  }

  /** Moving tasks touches no address outside the survivors. */
  lemma {:induction false} RehomeAllOthers(m: Ledger, surv: seq<string>, ts: seq<Task>, a: string)
    requires |surv| > 0 && a !in surv
    ensures a in RehomeAll(m, surv, ts) <==> a in m
    ensures Get(RehomeAll(m, surv, ts), a) == Get(m, a)
  {
    if ts != [] {
      RehomeAllOthers(m, surv, ts[..|ts| - 1], a);
    }
  }

  /** Moving tasks adds exactly their number to the ledger. */
  lemma {:induction false} RehomeAllTotal(m: Ledger, surv: seq<string>, ts: seq<Task>)
    requires |surv| > 0
    ensures Total(RehomeAll(m, surv, ts)) == Total(m) + |ts|
  {
    if ts != [] {
      var t := ts[|ts| - 1];
      RehomeAllTotal(m, surv, ts[..|ts| - 1]);
      TotalAppend(RehomeAll(m, surv, ts[..|ts| - 1]), surv[t.workerId % |surv|], Retarget(t, |surv|));
    }
  }

  // ---- draining the failed addresses ----

  /** Addresses that neither failed nor survive keep their entries. */
  lemma {:induction false} DrainAllOthers(m: Ledger, surv: seq<string>, bad: seq<string>, a: string)
    requires |surv| > 0 && a !in surv && a !in bad
    ensures a in DrainAll(m, surv, bad) <==> a in m
    ensures Get(DrainAll(m, surv, bad), a) == Get(m, a)
  {
    if bad != [] {
      var prev := DrainAll(m, surv, bad[..|bad| - 1]);
      DrainAllOthers(m, surv, bad[..|bad| - 1], a);
      RehomeAllOthers(prev - {bad[|bad| - 1]}, surv, Get(prev, bad[|bad| - 1]), a);
    }
  }

  /** No failed address keeps a ledger entry, and every entry left belonged to
      the ledger before or to a survivor. */
  lemma {:induction false} DrainAllKeys(m: Ledger, surv: seq<string>, bad: seq<string>)
    requires |surv| > 0
    requires forall a :: a in bad ==> a !in surv
    ensures forall a :: a in bad ==> a !in DrainAll(m, surv, bad)
    ensures forall a :: a in DrainAll(m, surv, bad) ==> a in m || a in surv
  {
    if bad != [] {
      var init := bad[..|bad| - 1];
      var last := bad[|bad| - 1];
      var prev := DrainAll(m, surv, init);
      DrainAllKeys(m, surv, init);
      forall a | a in bad
        ensures a !in DrainAll(m, surv, bad)
      {
        RehomeAllOthers(prev - {last}, surv, Get(prev, last), a);
        if a != last {
          assert a in init;
        }
      }
      forall a | a in DrainAll(m, surv, bad)
        ensures a in m || a in surv
      {
        if a !in surv {
          RehomeAllOthers(prev - {last}, surv, Get(prev, last), a);
        }
      }
    }
  }

  /** Draining one more failed address extends the drain by that address's list. */
  lemma DrainAllSnoc(m: Ledger, surv: seq<string>, bad: seq<string>, b: nat)
    requires |surv| > 0 && b < |bad|
    ensures DrainAll(m, surv, bad[..b + 1]) == DrainOne(DrainAll(m, surv, bad[..b]), surv, bad[b])
    ensures Drained(m, bad[..b + 1]) == Drained(m, bad[..b]) + Get(m, bad[b])
  {
    assert bad[..b + 1][..b] == bad[..b];
  }

  /** A failed address not yet drained still holds its original list. */
  lemma DrainedSoFar(m: Ledger, surv: seq<string>, bad: seq<string>, b: nat)
    requires |surv| > 0 && Distinct(bad) && b < |bad|
    requires forall a :: a in bad ==> a !in surv
    ensures Get(DrainAll(m, surv, bad[..b]), bad[b]) == Get(m, bad[b])
  {
    DrainAllOthers(m, surv, bad[..b], bad[b]);
  }

  /** One round of the redistribution loop with survivors: after draining
      bad[..b], draining bad[b] gives the drain of bad[..b + 1]. */
  lemma DrainStep(m0: Ledger, surv: seq<string>, bad: seq<string>, b: nat, m: Ledger)
    requires |surv| > 0 && Distinct(bad) && b < |bad|
    requires forall a :: a in bad ==> a !in surv
    requires m == DrainAll(m0, surv, bad[..b])
    ensures Get(m, bad[b]) == Get(m0, bad[b])
    ensures RehomeAll(m - {bad[b]}, surv, Get(m, bad[b])) == DrainAll(m0, surv, bad[..b + 1])
  {
    DrainedSoFar(m0, surv, bad, b);
    DrainAllSnoc(m0, surv, bad, b);
  }

  /** The calls re-issued for bad[b]'s list extend those re-issued for bad[..b]. */
  lemma ReissueStep(m0: Ledger, surv: seq<string>, bad: seq<string>, b: nat)
    requires |surv| > 0 && b < |bad|
    ensures ReissueCalls(Drained(m0, bad[..b + 1]), surv)
         == ReissueCalls(Drained(m0, bad[..b]), surv) + ReissueCalls(Get(m0, bad[b]), surv)
  {
    DrainAllSnoc(m0, surv, bad, b);
    ReissueCallsConcat(Drained(m0, bad[..b]), Get(m0, bad[b]), surv);
  }

  /** One round of the redistribution loop without survivors, for a failed
      address with no tasks: its entry goes, and the ledger loses no task. */
  lemma ClearStep(m0: Ledger, bad: seq<string>, b: nat, m: Ledger)
    requires Distinct(bad) && b < |bad|
    requires forall q :: 0 <= q < b ==> Get(m0, bad[q]) == []
    requires m == m0 - Elems(bad[..b]) && Total(m) == Total(m0)
    ensures Get(m, bad[b]) == Get(m0, bad[b])
    ensures m - {bad[b]} == m0 - Elems(bad[..b + 1])
    ensures Get(m0, bad[b]) == [] ==> Total(m - {bad[b]}) == Total(m0)
  {
    assert bad[b] !in bad[..b];
    assert Elems(bad[..b]) + {bad[b]} == Elems(bad[..b + 1]);
    TotalDrop(m, bad[b]);
  }

  // ---- the state of the redistribution loop ----

  /** The loop after the first `b` failed addresses. With survivors, those
      addresses are drained and the searches of their tasks re-issued; without,
      their lists were all empty, their entries are gone and nothing was sent. */
  ghost predicate Redistributing(m0: Ledger, c0: seq<Call>, surv: seq<string>, bad: seq<string>, b: nat,
                                 m: Ledger, c: seq<Call>)
    requires b <= |bad|
  {
    if |surv| > 0 then
      m == DrainAll(m0, surv, bad[..b]) && c == c0 + ReissueCalls(Drained(m0, bad[..b]), surv)
    else
      && (forall q :: 0 <= q < b ==> Get(m0, bad[q]) == [])
      && m == m0 - Elems(bad[..b]) && c == c0 && Total(m) == Total(m0)
  }

  lemma RedistributingStart(m0: Ledger, c0: seq<Call>, surv: seq<string>, bad: seq<string>)
    ensures Redistributing(m0, c0, surv, bad, 0, m0, c0)
  {
    assert bad[..0] == [];
    assert m0 - Elems([]) == m0;
  }

  /** One round of the loop: the list of bad[b] is taken, its entry dropped
      and each of its tasks moved to a survivor. */
  lemma RedistributingStep(m0: Ledger, c0: seq<Call>, surv: seq<string>, bad: seq<string>, b: nat,
                           m: Ledger, c: seq<Call>, m': Ledger, c': seq<Call>)
    requires Distinct(bad) && b < |bad|
    requires forall a :: a in bad ==> a !in surv
    requires Redistributing(m0, c0, surv, bad, b, m, c)
    requires |surv| > 0 ==>
      m' == RehomeAll(m - {bad[b]}, surv, Get(m, bad[b])) && c' == c + ReissueCalls(Get(m, bad[b]), surv)
    requires |surv| == 0 ==> Get(m, bad[b]) == [] && m' == m - {bad[b]} && c' == c
    ensures Redistributing(m0, c0, surv, bad, b + 1, m', c')
  {
    if |surv| > 0 {
      var xs, ys := ReissueCalls(Drained(m0, bad[..b]), surv), ReissueCalls(Get(m0, bad[b]), surv);
      assert Get(m, bad[b]) == Get(m0, bad[b]) && m' == DrainAll(m0, surv, bad[..b + 1]) by {
        DrainStep(m0, surv, bad, b, m);
      }
      assert c' == c0 + ReissueCalls(Drained(m0, bad[..b + 1]), surv) by {
        ReissueStep(m0, surv, bad, b);
        CallsAssoc(c0, xs, ys);
      }
    } else {
      ClearStep(m0, bad, b, m);
    }
  }

  /** Redistribution without survivors stopped at the first failed address
      that holds a task: the entries of the failed addresses up to and
      including it are gone, and the rest of `m0` is as it was. */
  ghost predicate StoppedAt(m0: Ledger, bad: seq<string>, m: Ledger)
  {
    exists k :: 0 <= k < |bad| && Get(m0, bad[k]) != []
      && (forall q :: 0 <= q < k ==> Get(m0, bad[q]) == [])
      && m == m0 - Elems(bad[..k + 1])
  }

  /** Without survivors the loop stops at the first failed address that holds
      a task: the entries of bad[..b + 1] are gone and nothing was sent. */
  lemma RedistributingStuck(m0: Ledger, c0: seq<Call>, surv: seq<string>, bad: seq<string>, b: nat,
                            m: Ledger, c: seq<Call>)
    requires Distinct(bad) && b < |bad| && |surv| == 0
    requires Redistributing(m0, c0, surv, bad, b, m, c)
    requires Get(m, bad[b]) != []
    ensures c == c0 && Get(m0, bad[b]) != []
    ensures forall q :: 0 <= q < b ==> Get(m0, bad[q]) == []
    ensures m - {bad[b]} == m0 - Elems(bad[..b + 1])
    ensures StoppedAt(m0, bad, m - {bad[b]})
  {
    ClearStep(m0, bad, b, m);
  }

  /** The end of the loop. With survivors every failed list is drained onto
      them; without, every failed list was empty. Either way no task is lost,
      no failed address keeps an entry, and every entry left is a survivor's. */
  lemma RedistributingDone(m0: Ledger, c0: seq<Call>, surv: seq<string>, bad: seq<string>, m: Ledger, c: seq<Call>)
    requires forall a :: a in bad ==> a !in surv
    requires forall a :: a in m0 ==> a in surv || a in bad
    requires Redistributing(m0, c0, surv, bad, |bad|, m, c)
    ensures |surv| > 0 ==> m == DrainAll(m0, surv, bad) && c == c0 + ReissueCalls(Drained(m0, bad), surv)
    ensures |surv| == 0 ==> m == m0 - Elems(bad) && c == c0 && forall a :: a in bad ==> Get(m0, a) == []
    ensures Total(m) == Total(m0)
    ensures forall a :: a in bad ==> a !in m
    ensures forall a :: a in m ==> a in surv
  {
    assert bad[..|bad|] == bad;
    if |surv| > 0 {
      DrainAllKeys(m0, surv, bad);
      DrainAllTotal(m0, surv, bad);
    }
  }

  /** Every drained task lands, retargeted, on survivor `oldWorkerId % |surv|`:
      survivor j ends with its own tasks followed by the drained tasks whose
      recomputed index is j, in drain order. */
  lemma {:induction false} DrainAllPlacement(m: Ledger, surv: seq<string>, bad: seq<string>, j: nat)
    requires Distinct(surv) && j < |surv| && Distinct(bad)
    requires forall a :: a in bad ==> a !in surv
    ensures Get(DrainAll(m, surv, bad), surv[j]) == Get(m, surv[j]) + MovedTo(Drained(m, bad), |surv|, j)
  {
    if bad != [] {
      var init, last := bad[..|bad| - 1], bad[|bad| - 1];
      var n := |surv|;
      var prev := DrainAll(m, surv, init);
      var early := MovedTo(Drained(m, init), n, j);
      var late := MovedTo(Get(m, last), n, j);
      DistinctInitLast(bad);
      assert Get(prev, surv[j]) == Get(m, surv[j]) + early by {
        DrainAllPlacement(m, surv, init, j);
      }
      assert Get(prev, last) == Get(m, last) by {
        DrainAllOthers(m, surv, init, last);
      }
      assert Get(DrainAll(m, surv, bad), surv[j]) == Get(prev, surv[j]) + late by {
        RehomeAllPlacement(prev - {last}, surv, Get(m, last), j);
        assert Get(prev - {last}, surv[j]) == Get(prev, surv[j]);
      }
      assert MovedTo(Drained(m, bad), n, j) == early + late by {
        MovedToConcat(Drained(m, init), Get(m, last), n, j);
      }
    }
  }

  /** Redistribution neither loses nor duplicates a task. */
  lemma {:induction false} DrainAllTotal(m: Ledger, surv: seq<string>, bad: seq<string>)
    requires |surv| > 0
    ensures Total(DrainAll(m, surv, bad)) == Total(m)
  {
    if bad != [] {
      var prev := DrainAll(m, surv, bad[..|bad| - 1]);
      var last := bad[|bad| - 1];
      DrainAllTotal(m, surv, bad[..|bad| - 1]);
      RehomeAllTotal(prev - {last}, surv, Get(prev, last));
      TotalDrop(prev, last);
    }
  }

  /** Every moved task carries its new worker's index, with bounds and job kept. */
  lemma {:induction false} MovedToShape(ts: seq<Task>, n: nat, j: nat)
    requires n > 0
    ensures forall t :: t in MovedTo(ts, n, j) ==>
      t.workerId == j && exists u :: u in ts && u.workerId % n == j && t == Retarget(u, n)
  {
    if ts != [] {
      MovedToShape(ts[..|ts| - 1], n, j);
    }
  }

  /** Every task of `ts` is moved, retargeted, to the survivor its recomputed
      index names. */
  lemma {:induction false} MovedToComplete(ts: seq<Task>, n: nat)
    requires n > 0
    ensures forall t :: t in ts ==> Retarget(t, n) in MovedTo(ts, n, t.workerId % n)
  {
    if ts != [] {
      MovedToComplete(ts[..|ts| - 1], n);
      forall t | t in ts
        ensures Retarget(t, n) in MovedTo(ts, n, t.workerId % n)
      {
        if t != ts[|ts| - 1] {
          assert t in ts[..|ts| - 1];
        }
      }
    }
  }

  /** A task held by a failed address is among the drained tasks. */
  lemma {:induction false} DrainedHolds(m: Ledger, bad: seq<string>, a: string, t: Task)
    requires a in bad && t in Get(m, a)
    ensures t in Drained(m, bad)
  {
    var init, last := bad[..|bad| - 1], bad[|bad| - 1];
    if a != last {
      assert a in init;
      DrainedHolds(m, init, a, t);
    }
  }

  /** Every task a failed worker held appears after redistribution, with its
      worker index recomputed, in the list of survivor `workerId % |surv|`. */
  lemma DrainAllComplete(m: Ledger, surv: seq<string>, bad: seq<string>, a: string, t: Task)
    requires Distinct(surv) && |surv| > 0 && Distinct(bad)
    requires forall b :: b in bad ==> b !in surv
    requires a in bad && t in Get(m, a)
    ensures Retarget(t, |surv|) in Get(DrainAll(m, surv, bad), surv[t.workerId % |surv|])
  {
    var j := t.workerId % |surv|;
    DrainedHolds(m, bad, a, t);
    MovedToComplete(Drained(m, bad), |surv|);
    DrainAllPlacement(m, surv, bad, j);
  }
}
