/** The ordered worker registry (`workersAddressList`): positional removal and
    the reference meaning of "the registry with some positions deleted". */
module Registry {

  /** No address is registered twice. */
  predicate Distinct(s: seq<string>)
  {
    forall i, j :: 0 <= i < j < |s| ==> s[i] != s[j]
  }

  /** Dropping the last entry keeps a sequence duplicate-free, and the last
      entry does not occur before it. */
  lemma DistinctInitLast(s: seq<string>)
    requires Distinct(s) && s != []
    ensures Distinct(s[..|s| - 1])
    ensures s[|s| - 1] !in s[..|s| - 1]
    ensures forall a :: a in s[..|s| - 1] ==> a in s
  {
  }

  /** The addresses listed in `s`. */
  function Elems(s: seq<string>): set<string>
  {
    set a | a in s
  }

  /** Every index is below the next one. */
  predicate StrictlyAscending(s: seq<nat>)
  {
    forall i, j :: 0 <= i < j < |s| ==> s[i] < s[j]
  }

  /** `LinkedList.remove(int index)`: later entries shift down by one. */
  function RemoveAt(s: seq<string>, i: nat): (r: seq<string>)
    requires i < |s|
    ensures |r| == |s| - 1
    ensures forall k :: 0 <= k < i ==> r[k] == s[k]
    ensures forall k :: i <= k < |r| ==> r[k] == s[k + 1]
  {
    s[..i] + s[i + 1..]
  }

  /** The entries of `s` whose positions are not in `dead`, in their original order. */
  function Without(s: seq<string>, dead: set<nat>): seq<string>
  {
    if s == [] then []
    else Without(s[..|s| - 1], dead) + (if |s| - 1 in dead then [] else [s[|s| - 1]])
  }

  /** The addresses at the positions `failed`, highest position first. */
  function PickedDescending(s: seq<string>, failed: seq<nat>): seq<string>
    requires forall k :: 0 <= k < |failed| ==> failed[k] < |s|
  {
    if failed == [] then [] else PickedDescending(s, failed[1..]) + [s[failed[0]]]
  }

  /** The picked list lists `s[failed[q]]` in reverse order of `failed`. */
  lemma {:induction false} PickedDescendingAt(s: seq<string>, failed: seq<nat>)
    requires forall k :: 0 <= k < |failed| ==> failed[k] < |s|
    ensures |PickedDescending(s, failed)| == |failed|
    ensures forall q :: 0 <= q < |failed| ==> PickedDescending(s, failed)[q] == s[failed[|failed| - 1 - q]]
  {
    if failed != [] {
      PickedDescendingAt(s, failed[1..]);
    }
  }

  /** An address is picked exactly when it sits at one of the positions. */
  lemma PickedDescendingElems(s: seq<string>, failed: seq<nat>)
    requires forall k :: 0 <= k < |failed| ==> failed[k] < |s|
    ensures forall a :: a in PickedDescending(s, failed) <==> exists k :: 0 <= k < |failed| && s[failed[k]] == a
  {
    PickedDescendingAt(s, failed);
    var p := PickedDescending(s, failed);
    forall a | a in p
      ensures exists k :: 0 <= k < |failed| && s[failed[k]] == a
    {
      var q :| 0 <= q < |p| && p[q] == a;
      assert s[failed[|failed| - 1 - q]] == a;
    }
    forall k | 0 <= k < |failed|
      ensures s[failed[k]] in p
    {
      assert p[|failed| - 1 - k] == s[failed[k]];
    }
  }

  /** Deleting no position below |s| leaves `s` as it is. */
  lemma {:induction false} WithoutNothing(s: seq<string>, dead: set<nat>)
    requires forall d :: d in dead ==> d >= |s|
    ensures Without(s, dead) == s
  {
    if s != [] {
      WithoutNothing(s[..|s| - 1], dead);
    }
  }

  /** Index stability under descending removal: when every position already
      deleted lies above `i`, the entry at `i` is still the original `s[i]`, and
      removing it there gives the registry with `i` deleted as well. */
  lemma {:induction false} WithoutRemoveAt(s: seq<string>, dead: set<nat>, i: nat)
    requires i < |s| && i !in dead
    requires forall d :: d in dead ==> d > i
    ensures i < |Without(s, dead)|
    ensures Without(s, dead)[i] == s[i]
    ensures Without(s, dead + {i}) == RemoveAt(Without(s, dead), i)
  {
    var p := s[..|s| - 1];
    if i == |s| - 1 {
      WithoutNothing(p, dead);
      WithoutNothing(p, dead + {i});
      assert Without(s, dead) == p + [s[i]];
      assert Without(s, dead + {i}) == p;
    } else {
      WithoutRemoveAt(p, dead, i);
      var w := Without(p, dead);
      var tail := if |s| - 1 in dead then [] else [s[|s| - 1]];
      assert Without(s, dead) == w + tail;
      assert Without(s, dead + {i}) == Without(p, dead + {i}) + tail;
      assert (w + tail)[..i] == w[..i];
      assert (w + tail)[i + 1..] == w[i + 1..] + tail;
    }
  }

  /** Removing one entry from a duplicate-free registry keeps it duplicate-free,
      takes out exactly that address and keeps every other one. */
  lemma RemoveAtDistinct(s: seq<string>, i: nat)
    requires i < |s| && Distinct(s)
    ensures Distinct(RemoveAt(s, i))
    ensures s[i] !in RemoveAt(s, i)
    ensures forall x :: x in s ==> x in RemoveAt(s, i) || x == s[i]
    ensures forall x :: x in RemoveAt(s, i) ==> x in s
  {
    var r := RemoveAt(s, i);
    forall x | x in s
      ensures x in r || x == s[i]
    {
      var k :| 0 <= k < |s| && s[k] == x;
      if k < i {
        assert r[k] == x;
      } else if k > i {
        assert r[k - 1] == x;
      }
    }
  }

  /** Failing positions 1 and 3 of a four-worker registry leaves the original
      workers 0 and 2, in that order. */
  lemma {:induction false} FailOneAndThreeOfFour(w0: string, w1: string, w2: string, w3: string)
    ensures Without([w0, w1, w2, w3], {3}) == RemoveAt([w0, w1, w2, w3], 3)
    ensures Without([w0, w1, w2, w3], {3, 1}) == RemoveAt(RemoveAt([w0, w1, w2, w3], 3), 1)
    ensures Without([w0, w1, w2, w3], {1, 3}) == [w0, w2]
  {
    var s := [w0, w1, w2, w3];
    WithoutNothing(s, {});
    WithoutRemoveAt(s, {}, 3);
    assert {} + {3} == {3};
    WithoutRemoveAt(s, {3}, 1);
    assert {3} + {1} == {3, 1} == {1, 3};
  }
}
