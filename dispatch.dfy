/** Dispatch of one job (`requestFindPassword`): the search space
    [begin, begin + k*size) is cut into k equal, contiguous subranges, and
    subrange i goes to registry index i % n, round robin. */
module Dispatch {
  import opened Tasks
  import opened Registry

  /** Task `i` of a dispatch over `n` registered workers. */
  function DispatchTask(job: string, begin: int, size: int, i: nat, n: nat): Task
    requires n > 0
  {
    Task(begin + i * size, begin + i * size + size, i % n, job)
  }

  /** The ledger after recording the first `k` tasks of a dispatch. */
  function DispatchLedger(m: Ledger, reg: seq<string>, job: string, begin: int, size: int, k: nat): Ledger
    requires k == 0 || |reg| > 0
  {
    if k == 0 then m
    else
      var t := DispatchTask(job, begin, size, k - 1, |reg|);
      Append(DispatchLedger(m, reg, job, begin, size, k - 1), reg[t.workerId], t)
  }

  /** The search calls of the first `k` tasks of a dispatch, in order. */
  function DispatchCalls(reg: seq<string>, job: string, begin: int, size: int, k: nat): seq<Call>
    requires k == 0 || |reg| > 0
  {
    if k == 0 then []
    else
      var t := DispatchTask(job, begin, size, k - 1, |reg|);
      DispatchCalls(reg, job, begin, size, k - 1) + [StartSearch(reg[t.workerId], t.lower, t.upper, job)]
  }

  /** The tasks among the first `k` that round robin over `n` workers gives to index `j`, in order. */
  function AssignedTo(job: string, begin: int, size: int, n: nat, j: nat, k: nat): seq<Task>
    requires n > 0
  {
    if k == 0 then []
    else
      AssignedTo(job, begin, size, n, j, k - 1)
      + (if (k - 1) % n == j then [DispatchTask(job, begin, size, k - 1, n)] else [])
  }

  predicate Covers(t: Task, x: int)
  {
    t.lower <= x < t.upper
  }

  // ---- arithmetic of the round robin ----

  lemma {:induction false} MulAtLeast(d: int, n: int)
    requires d >= 1 && n >= 0
    ensures d * n >= n
  {
    if d > 1 {
      MulAtLeast(d - 1, n);
    }
  }

  /** Euclidean division by a positive divisor has one quotient and remainder. */
  lemma DivModUnique(a: int, n: int, q: int, r: int)
    requires n > 0 && 0 <= r < n && a == q * n + r
    ensures a / n == q && a % n == r
  {
    var q', r' := a / n, a % n;
    assert a == q' * n + r';
    if q' < q {
      assert (q - q') * n == r' - r;
      MulAtLeast(q - q', n);
      assert false;
    } else if q < q' {
      assert (q' - q) * n == r - r';
      MulAtLeast(q' - q, n);
      assert false;
    }
  }

  lemma DivModStep(k: nat, n: nat)
    requires n > 0
    ensures k % n == n - 1 ==> (k + 1) % n == 0 && (k + 1) / n == k / n + 1
    ensures k % n < n - 1 ==> (k + 1) % n == k % n + 1 && (k + 1) / n == k / n
  {
    var q, r := k / n, k % n;
    if r == n - 1 {
      DivModUnique(k + 1, n, q + 1, 0);
    } else {
      DivModUnique(k + 1, n, q, r + 1);
    }
  }

  /** Tasks i and i + n land on the same worker, and task i + n's subrange
      lies n subranges further on. */
  lemma SameWorkerEveryN(job: string, begin: int, size: int, i: nat, n: nat)
    requires n > 0
    ensures DispatchTask(job, begin, size, i + n, n).workerId == DispatchTask(job, begin, size, i, n).workerId
    ensures DispatchTask(job, begin, size, i + n, n).lower == DispatchTask(job, begin, size, i, n).lower + n * size
  {
    DivModUnique(i + n, n, i / n + 1, i % n);
  }

  // ---- the subranges ----

  /** Each subrange has the configured size and begins where the previous one ends. */
  lemma Contiguous(job: string, begin: int, size: int, i: nat, n: nat)
    requires n > 0
    ensures DispatchTask(job, begin, size, i, n).upper - DispatchTask(job, begin, size, i, n).lower == size
    ensures DispatchTask(job, begin, size, i + 1, n).lower == DispatchTask(job, begin, size, i, n).upper
  {
  }

  /** Two different subranges of one dispatch never overlap. */
  lemma Disjoint(job: string, begin: int, size: int, i: nat, j: nat, n: nat, x: int)
    requires n > 0 && size >= 0 && i != j
    ensures !(Covers(DispatchTask(job, begin, size, i, n), x) && Covers(DispatchTask(job, begin, size, j, n), x))
  {
    if i < j {
      MulAtLeast(j - i, size);
      assert (j - i) * size == j * size - i * size;
    } else {
      MulAtLeast(i - j, size);
      assert (i - j) * size == i * size - j * size;
    }
  }

  /** Together the first `k` subranges cover [begin, begin + k*size): the point `x`
      lies in subrange (x - begin) / size. */
  lemma Cover(job: string, begin: int, size: int, k: nat, n: nat, x: int)
    requires n > 0 && size > 0
    requires begin <= x < begin + k * size
    ensures 0 <= (x - begin) / size < k
    ensures Covers(DispatchTask(job, begin, size, (x - begin) / size, n), x)
  {
    var i := (x - begin) / size;
    assert x - begin == i * size + (x - begin) % size;
    if i >= k {
      assert false;
    }
  }

  // ---- the ledger after a dispatch ----

  /** Round-robin counts: index j of n gets k / n tasks, one more when j < k % n. */
  lemma {:induction false} AssignedCount(job: string, begin: int, size: int, n: nat, j: nat, k: nat)
    requires j < n
    ensures |AssignedTo(job, begin, size, n, j, k)| == k / n + (if j < k % n then 1 else 0)
  {
    if k > 0 {
      var q, r := (k - 1) / n, (k - 1) % n;
      var prev := |AssignedTo(job, begin, size, n, j, k - 1)|;
      AssignedCount(job, begin, size, n, j, k - 1);
      assert prev == q + (if j < r then 1 else 0);
      DivModStep(k - 1, n);
      if r == n - 1 {
        assert k % n == 0 && k / n == q + 1;
        if j == r {
          assert |AssignedTo(job, begin, size, n, j, k)| == prev + 1;
        } else {
          assert j < r && |AssignedTo(job, begin, size, n, j, k)| == prev;
        }
      } else {
        assert k % n == r + 1 && k / n == q;
        if j == r {
          assert |AssignedTo(job, begin, size, n, j, k)| == prev + 1;
        } else {
          assert |AssignedTo(job, begin, size, n, j, k)| == prev;
        }
      }
    }
  }

  /** Every task given to index j has worker id j and the bounds of its task number. */
  lemma {:induction false} AssignedShape(job: string, begin: int, size: int, n: nat, j: nat, k: nat)
    requires n > 0
    ensures forall t :: t in AssignedTo(job, begin, size, n, j, k) ==>
      t.workerId == j && t.job == job && exists i :: 0 <= i < k && t == DispatchTask(job, begin, size, i, n)
  {
    if k > 0 {
      AssignedShape(job, begin, size, n, j, k - 1);
    }
  }

  /** Dispatch appends to the list of registry[j] exactly the tasks round robin
      gives to index j, in task order, after the tasks it already held. */
  lemma {:induction false} DispatchPlacement(m: Ledger, reg: seq<string>, job: string, begin: int, size: int, k: nat, j: nat)
    requires Distinct(reg) && j < |reg|
    ensures Get(DispatchLedger(m, reg, job, begin, size, k), reg[j])
         == Get(m, reg[j]) + AssignedTo(job, begin, size, |reg|, j, k)
  {
    if k > 0 {
      DispatchPlacement(m, reg, job, begin, size, k - 1, j);
    }
  }

  /** Dispatch leaves the entry of every unregistered address as it was. */
  lemma {:induction false} DispatchOthers(m: Ledger, reg: seq<string>, job: string, begin: int, size: int, k: nat, a: string)
    requires k == 0 || |reg| > 0
    requires a !in reg
    ensures a in DispatchLedger(m, reg, job, begin, size, k) <==> a in m
    ensures Get(DispatchLedger(m, reg, job, begin, size, k), a) == Get(m, a)
  {
    if k > 0 {
      DispatchOthers(m, reg, job, begin, size, k - 1, a);
    }
  }

  /** Task k of a dispatch: its subrange, its worker index k % |reg|, the
      append to that worker's list and the search call sent there. */
  lemma DispatchStep(m: Ledger, reg: seq<string>, job: string, begin: int, size: int, k: nat)
    requires |reg| > 0
    ensures var a, t := reg[k % |reg|], Task(begin + k * size, begin + k * size + size, k % |reg|, job);
      && DispatchLedger(m, reg, job, begin, size, k + 1)
         == DispatchLedger(m, reg, job, begin, size, k)[a := Get(DispatchLedger(m, reg, job, begin, size, k), a) + [t]]
      && DispatchCalls(reg, job, begin, size, k + 1)
         == DispatchCalls(reg, job, begin, size, k) + [StartSearch(a, t.lower, t.upper, job)]
  {
  }

  /** Dispatch adds entries only for registered addresses. */
  lemma {:induction false} DispatchKeys(m: Ledger, reg: seq<string>, job: string, begin: int, size: int, k: nat)
    requires k == 0 || |reg| > 0
    ensures forall a :: a in DispatchLedger(m, reg, job, begin, size, k) ==> a in m || a in reg
  {
    if k > 0 {
      DispatchKeys(m, reg, job, begin, size, k - 1);
    }
  }

  /** Dispatch records exactly one task per task number. */
  lemma {:induction false} DispatchTotal(m: Ledger, reg: seq<string>, job: string, begin: int, size: int, k: nat)
    requires k == 0 || |reg| > 0
    ensures Total(DispatchLedger(m, reg, job, begin, size, k)) == Total(m) + k
  {
    if k > 0 {
      DispatchTotal(m, reg, job, begin, size, k - 1);
      var t := DispatchTask(job, begin, size, k - 1, |reg|);
      TotalAppend(DispatchLedger(m, reg, job, begin, size, k - 1), reg[t.workerId], t);
    }
  }

  /** One call per task, each to the worker that records it. */
  lemma {:induction false} DispatchCallsAt(reg: seq<string>, job: string, begin: int, size: int, k: nat)
    requires k == 0 || |reg| > 0
    ensures |DispatchCalls(reg, job, begin, size, k)| == k
    ensures forall i :: 0 <= i < k ==>
      var t := DispatchTask(job, begin, size, i, |reg|);
      DispatchCalls(reg, job, begin, size, k)[i] == StartSearch(reg[i % |reg|], t.lower, t.upper, job)
  {
    if k > 0 {
      DispatchCallsAt(reg, job, begin, size, k - 1);
    }
  }

  /** Three workers and ten tasks: the per-worker counts are 4, 3 and 3. */
  lemma ThreeWorkersTenTasks(w0: string, w1: string, w2: string, job: string, begin: int, size: int)
    requires w0 != w1 && w1 != w2 && w0 != w2
    ensures |Get(DispatchLedger(map[], [w0, w1, w2], job, begin, size, 10), w0)| == 4
    ensures |Get(DispatchLedger(map[], [w0, w1, w2], job, begin, size, 10), w1)| == 3
    ensures |Get(DispatchLedger(map[], [w0, w1, w2], job, begin, size, 10), w2)| == 3
  {
    var reg := [w0, w1, w2];
    DivModUnique(10, 3, 3, 1);
    DispatchPlacement(map[], reg, job, begin, size, 10, 0);
    AssignedCount(job, begin, size, 3, 0, 10);
    DispatchPlacement(map[], reg, job, begin, size, 10, 1);
    AssignedCount(job, begin, size, 3, 1, 10);
    DispatchPlacement(map[], reg, job, begin, size, 10, 2);
    AssignedCount(job, begin, size, 3, 2, 10);
  }
}
