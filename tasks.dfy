/** The task record of the coordinator, the outbound calls it issues, and the
    per-worker task ledger (`taskMap`) with its total task count. */
module Tasks {

  /** A `PasswordTask`: the half-open subrange [lower, upper) of the candidate
      space searched for the job `job` (the encrypted password), and the
      registry index of the worker the task was last assigned to. */
  datatype Task = Task(lower: int, upper: int, workerId: nat, job: string)

  /** An outbound RPC to a worker, recorded instead of being sent. */
  datatype Call =
    | StartSearch(addr: string, lower: int, upper: int, job: string)
    | Terminate(addr: string, job: string)

  /** Calls logged in two rounds are the calls of both rounds, in order. */
  lemma CallsAssoc(c0: seq<Call>, xs: seq<Call>, ys: seq<Call>)
    ensures (c0 + xs) + ys == c0 + (xs + ys)
  {
  }

  /** Worker address to the worker's outstanding tasks, oldest first. */
  type Ledger = map<string, seq<Task>>

  /** The list of `addr`; an address without an entry has no tasks. */
  function Get(m: Ledger, addr: string): seq<Task>
  {
    if addr in m then m[addr] else []
  }

  /** `putIfAbsent(addr, new LinkedList())` followed by `get(addr).add(t)`. */
  function Append(m: Ledger, addr: string, t: Task): Ledger
  {
    m[addr := Get(m, addr) + [t]]
  }

  /** The number of tasks held across all ledger lists. */
  ghost function Total(m: Ledger): nat
    decreases m.Keys
  {
    if m == map[] then 0
    else
      var a :| a in m;
      |m[a]| + Total(m - {a})
  }

  /** Total does not depend on which entry is counted first. */
  lemma {:induction false} TotalRemove(m: Ledger, a: string)
    requires a in m
    ensures Total(m) == |m[a]| + Total(m - {a})
    decreases m.Keys
  {
    var b :| b in m && Total(m) == |m[b]| + Total(m - {b});
    if b != a {
      TotalRemove(m - {b}, a);
      TotalRemove(m - {a}, b);
      assert m - {b} - {a} == m - {a} - {b};
    }
  }

  /** Dropping an entry loses exactly its tasks. */
  lemma TotalDrop(m: Ledger, addr: string)
    ensures Total(m - {addr}) + |Get(m, addr)| == Total(m)
  {
    if addr in m {
      TotalRemove(m, addr);
    } else {
      assert m - {addr} == m;
    }
  }

  /** Appending one task to one list adds exactly one task to the ledger. */
  lemma TotalAppend(m: Ledger, addr: string, t: Task)
    ensures Total(Append(m, addr, t)) == Total(m) + 1
  {
    var r := Append(m, addr, t);
    TotalRemove(r, addr);
    assert r - {addr} == m - {addr};
    TotalDrop(m, addr);
  }
}
