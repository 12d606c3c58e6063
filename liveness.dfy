/** The heartbeat test of `checkHeartBeat`. */
module Liveness {
  import opened Registry

  /** `thresholdAge`: a worker silent for longer than this many milliseconds is dead. */
  const Threshold: int := 5000

  /** A registered worker is failed when its last heartbeat is more than
      Threshold ms old at `now`, or when it never reported one. */
  predicate Stale(lastSeen: map<string, int>, addr: string, now: int)
  {
    addr !in lastSeen || now - lastSeen[addr] > Threshold
  }

  /** A heartbeat recorded at `t` keeps its worker alive up to and including
      `t + Threshold`, and no longer. */
  lemma HeartbeatBoundary(lastSeen: map<string, int>, addr: string, t: int, now: int)
    ensures Stale(lastSeen[addr := t], addr, now) <==> now > t + Threshold
  {
  }

  /** A heartbeat of one worker decides nothing about another. */
  lemma HeartbeatIsolated(lastSeen: map<string, int>, addr: string, t: int, other: string, now: int)
    requires other != addr
    ensures Stale(lastSeen[addr := t], other, now) == Stale(lastSeen, other, now)
  {
  }

  /** The registry positions whose worker is stale at `now`, ascending: the
      list the first loop of `checkHeartBeat` fills. */
  function StalePositions(reg: seq<string>, lastSeen: map<string, int>, now: int): (r: seq<nat>)
    ensures forall k :: 0 <= k < |r| ==> r[k] < |reg|
  {
    if reg == [] then []
    else
      StalePositions(reg[..|reg| - 1], lastSeen, now)
      + (if Stale(lastSeen, reg[|reg| - 1], now) then [|reg| - 1] else [])
  }

  /** The stale positions are ascending, and position j is listed exactly when
      the worker there is stale. */
  lemma {:induction false} StalePositionsExact(reg: seq<string>, lastSeen: map<string, int>, now: int)
    ensures StrictlyAscending(StalePositions(reg, lastSeen, now))
    ensures forall j :: 0 <= j < |reg| ==> (j in StalePositions(reg, lastSeen, now) <==> Stale(lastSeen, reg[j], now))
  {
    if reg != [] {
      var init := reg[..|reg| - 1];
      StalePositionsExact(init, lastSeen, now);
      assert forall j :: 0 <= j < |init| ==> init[j] == reg[j];
    }
  }

  /** The stale positions, as a set: the positions the registry loses. */
  lemma StalePositionsSet(reg: seq<string>, lastSeen: map<string, int>, now: int)
    ensures var f := StalePositions(reg, lastSeen, now);
      (set k | 0 <= k < |f| :: f[k]) == set j | 0 <= j < |reg| && Stale(lastSeen, reg[j], now)
  {
    StalePositionsExact(reg, lastSeen, now);
  }
}
