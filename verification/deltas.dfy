/** Index lists and the per-validator reward vectors they update.

    The reward loops of the state transition walk a list of validator
    indices and add a per-validator amount at each index in turn. `AddEach`
    is that loop; `AddEachCount` says what it adds up to at each position:
    the amount times the number of times the index occurs in the list.
 */
module Deltas {
  import opened BeaconTypes
  import opened Helpers

  /** The loop `for i in indices: r[i] += amounts[i]`. */
  function AddEach(r: seq<int>, indices: seq<nat>, amounts: seq<int>): (s: seq<int>)
    requires |amounts| == |r| && AllBelow(indices, |r|)
    ensures |s| == |r|
    decreases |indices|
  {
    if |indices| == 0 then r
    else
      var i := indices[0];
      AddEach(r[i := r[i] + amounts[i]], indices[1..], amounts)
  }

  /** After the loop, position `i` has gained `amounts[i]` once per
      occurrence of `i` in the list; positions not listed are unchanged. */
  lemma {:induction false} AddEachCount(r: seq<int>, indices: seq<nat>, amounts: seq<int>, i: nat)
    requires |amounts| == |r| && AllBelow(indices, |r|) && i < |r|
    ensures AddEach(r, indices, amounts)[i] == r[i] + multiset(indices)[i] * amounts[i]
    decreases |indices|
  {
    if |indices| > 0 {
      var j := indices[0];
      var next := r[j := r[j] + amounts[j]];
      AddEachCount(next, indices[1..], amounts, i);
      assert indices == [j] + indices[1..];
      var c := multiset(indices[1..])[i];
      assert multiset(indices)[i] == c + (if j == i then 1 else 0);
      if j == i {
        MulSucc(c, amounts[i]);
      }
    }
  }

  lemma MulSucc(c: nat, a: int)
    ensures (c + 1) * a == c * a + a
  {
  }

  /** The members of `indices` that are (`keep`) or are not (`!keep`) in `s`,
      in their order: the two list comprehensions that split the active
      validators into participants and non-participants. */
  function Filter(indices: seq<nat>, s: set<nat>, keep: bool): (r: seq<nat>)
    ensures forall x :: multiset(r)[x] == if (x in s) == keep then multiset(indices)[x] else 0
    ensures forall n :: AllBelow(indices, n) ==> AllBelow(r, n)
    ensures |r| <= |indices|
    decreases |indices|
  {
    if |indices| == 0 then []
    else
      var rest := Filter(indices[1..], s, keep);
      assert indices == [indices[0]] + indices[1..];
      assert multiset(indices) == multiset{indices[0]} + multiset(indices[1..]);
      forall n
        ensures AllBelow(indices, n) <==> indices[0] < n && AllBelow(indices[1..], n)
      {
        AllBelowCons(indices[0], indices[1..], n);
      }
      if (indices[0] in s) == keep then
        assert multiset([indices[0]] + rest) == multiset{indices[0]} + multiset(rest);
        forall n
          ensures AllBelow([indices[0]] + rest, n) <==> indices[0] < n && AllBelow(rest, n)
        {
          AllBelowCons(indices[0], rest, n);
        }
        [indices[0]] + rest
      else rest
  }

  /** An index list is in range exactly when its head and tail are. */
  lemma AllBelowCons(x: nat, t: seq<nat>, n: nat)
    ensures AllBelow([x] + t, n) <==> x < n && AllBelow(t, n)
  {
    var c := [x] + t;
    assert c[0] == x;
    if AllBelow(t, n) && x < n {
      forall k | 0 <= k < |c|
        ensures c[k] < n
      {
        if k > 0 { assert c[k] == t[k - 1]; }
      }
    }
    if AllBelow(c, n) {
      forall k | 0 <= k < |t|
        ensures t[k] < n
      {
        assert c[k + 1] == t[k];
      }
    }
  }

  /** A strictly increasing list split by `Filter` puts each of its members
      into exactly one of the two parts, once. */
  lemma FilterOfIncreasing(indices: seq<nat>, s: set<nat>, keep: bool, x: nat)
    requires StrictlyIncreasing(indices)
    ensures multiset(Filter(indices, s, keep))[x] == if x in indices && (x in s) == keep then 1 else 0
  {
    StrictlyIncreasingCount(indices, x);
  }
}
