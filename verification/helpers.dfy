/** The helpers the state transition calls.

    Those that compute from the registry alone (the active-validator list,
    total deposits, integer square root, the reward quotients) are defined
    here by their usual meaning. The ones whose results depend on hashing,
    shuffling, block history or signatures are not part of this model: they
    are the function-valued fields of `Oracle`, and every operation takes the
    oracle as an argument, so every property proved holds whatever they
    return.
 */
module Helpers {
  import opened Results
  import opened Bitfields
  import opened BeaconTypes

  const WeiPerEth: nat := 1_000_000_000_000_000_000

  /** The results of the helpers whose bodies are outside this model.
      An `Option` result of `None` means that the helper raised; the helpers
      with a plain result are taken never to raise. */
  datatype Oracle = Oracle(
    /** (position of the parent's proposer in its committee, shard id) */
    proposerPosition: (Block, CrystallizedState) -> (nat, nat),
    /** the parent hashes an attestation signs, oblique ones included */
    signedParentHashes: (ActiveState, Block, Attestation) -> seq<Hash>,
    /** the committee (validator indices) an attestation speaks for */
    attestationIndices: (CrystallizedState, Attestation) -> Option<seq<nat>>,
    /** the shard committees assigned to a slot */
    shardsAndCommitteesForSlot: (CrystallizedState, int) -> Option<seq<ShardAndCommittee>>,
    /** (old hashes, parent slot, block slot, parent hash) to the new window */
    newRecentBlockHashes: (seq<Hash>, nat, nat, Hash) -> seq<Hash>,
    /** (seed, validators, dynasty, first shard) to a new committee schedule */
    newShuffling: (Hash, seq<Validator>, nat, nat) -> seq<seq<ShardAndCommittee>>,
    /** the message digest and aggregate signature check, given the voters'
        public keys, the signed parent hashes and the attestation */
    verifyAggregate: (seq<PubKey>, seq<Hash>, Attestation) -> bool)

  predicate IsActive(v: Validator, dynasty: nat) {
    v.startDynasty <= dynasty < v.endDynasty
  }

  predicate StrictlyIncreasing(s: seq<nat>) {
    forall k, l :: 0 <= k < l < |s| ==> s[k] < s[l]
  }

  function ActiveFrom(dynasty: nat, validators: seq<Validator>, from: nat): seq<nat>
    requires from <= |validators|
    decreases |validators| - from
  {
    if from == |validators| then []
    else
      var rest := ActiveFrom(dynasty, validators, from + 1);
      if IsActive(validators[from], dynasty) then [from] + rest else rest
  }

  /** The active validators from position `from` on, in increasing order. */
  lemma {:induction false} ActiveFromSpec(dynasty: nat, validators: seq<Validator>, from: nat)
    requires from <= |validators|
    ensures var r := ActiveFrom(dynasty, validators, from);
      && (forall k :: 0 <= k < |r| ==> from <= r[k] < |validators|)
      && (forall i :: i in r <==> from <= i < |validators| && IsActive(validators[i], dynasty))
      && StrictlyIncreasing(r)
    decreases |validators| - from
  {
    if from < |validators| {
      ActiveFromSpec(dynasty, validators, from + 1);
    }
  }

  /** The indices of the validators active in `dynasty`, in increasing order. */
  function ActiveValidatorIndices(dynasty: nat, validators: seq<Validator>): (r: seq<nat>)
    ensures AllBelow(r, |validators|)
  {
    ActiveFromSpec(dynasty, validators, 0);
    ActiveFrom(dynasty, validators, 0)
  }

  /** Validator `i` is in the active list exactly when it is active in
      `dynasty`. */
  lemma ActiveIndexAt(dynasty: nat, validators: seq<Validator>, i: nat)
    ensures i in ActiveValidatorIndices(dynasty, validators) <==> i < |validators| && IsActive(validators[i], dynasty)
  {
    ActiveFromSpec(dynasty, validators, 0);
  }

  /** The active list is in increasing order, so it holds each index once. */
  lemma ActiveIncreasing(dynasty: nat, validators: seq<Validator>)
    ensures StrictlyIncreasing(ActiveValidatorIndices(dynasty, validators))
  {
    ActiveFromSpec(dynasty, validators, 0);
  }

  /** A strictly increasing list holds each of its elements exactly once. */
  lemma {:induction false} StrictlyIncreasingCount(s: seq<nat>, i: nat)
    requires StrictlyIncreasing(s)
    ensures multiset(s)[i] == if i in s then 1 else 0
  {
    if |s| > 0 {
      assert s == [s[0]] + s[1..];
      assert StrictlyIncreasing(s[1..]);
      StrictlyIncreasingCount(s[1..], i);
      if i == s[0] {
        assert i !in s[1..];
      }
    }
  }

  /** The summed balance of the validators active in the current dynasty. */
  function TotalDeposits(cs: CrystallizedState): nat {
    BalanceSum(cs.validators, ActiveValidatorIndices(cs.currentDynasty, cs.validators))
  }

  /** The integer square root: the largest `r` with `r * r <= n`. */
  function IntSqrt(n: nat): (r: nat)
    ensures r * r <= n < (r + 1) * (r + 1)
  {
    if n == 0 then 0
    else
      var r := IntSqrt(n - 1);
      if (r + 1) * (r + 1) <= n then r + 1 else r
  }

  datatype RewardContext = RewardContext(rewardQuotient: nat, quadraticPenaltyQuotient: nat)

  /** The two reward quotients for a registry holding `totalDeposits` wei.
      The source asserts a positive total. */
  function GetRewardContext(totalDeposits: nat, config: Config): (r: Result<RewardContext>)
    ensures r.Failure? <==> totalDeposits == 0
    ensures r.Failure? ==> r.error == Raised(AssertionError)
    ensures r.Success? ==>
      && (r.value.rewardQuotient == 0 <==> config.baseRewardQuotient == 0 || totalDeposits < WeiPerEth)
      && r.value.quadraticPenaltyQuotient == config.quadraticPenaltyQuotient
  {
    if totalDeposits == 0 then Failure(Raised(AssertionError))
    else
      var root := IntSqrt(totalDeposits / WeiPerEth);
      assert root == 0 <==> totalDeposits < WeiPerEth;
      Success(RewardContext(config.baseRewardQuotient * root, config.quadraticPenaltyQuotient))
  }
}
