/** Applying the cycle's rewards and penalties to the registry
    (`apply_rewards_and_penalties`).

    Both amounts are computed against the registry as it was; then every
    active validator's balance moves by its FFG amount plus its crosslink
    amount and is held at zero if it would go negative. Inactive validators
    are not touched.
 */
module Balances {
  import opened Results
  import opened BeaconTypes
  import opened Helpers
  import opened Rewards
  import opened CrosslinkAmounts

  /** A balance moved by `delta`, held at zero. */
  function Clamp(balance: nat, delta: int): (b: nat)
    ensures b >= balance + delta && b >= 0
    ensures b == 0 || b == balance + delta
  {
    if balance + delta < 0 then 0 else balance + delta
  }

  /** The loop over `indices` moving each listed validator's balance by its
      two amounts. */
  function UpdateBalances(validators: seq<Validator>, indices: seq<nat>, ffg: seq<int>, crosslink: seq<int>): (r: seq<Validator>)
    requires |ffg| == |validators| && |crosslink| == |validators| && AllBelow(indices, |validators|)
    ensures |r| == |validators|
    decreases |indices|
  {
    if |indices| == 0 then validators
    else
      var i := indices[0];
      var v := validators[i];
      UpdateBalances(validators[i := v.(balance := Clamp(v.balance, ffg[i] + crosslink[i]))], indices[1..], ffg, crosslink)
  }

  /** With each index listed at most once, the loop moves exactly the listed
      validators' balances, each once, and changes nothing else. */
  lemma {:induction false} UpdateBalancesAt(validators: seq<Validator>, indices: seq<nat>, ffg: seq<int>, crosslink: seq<int>, j: nat)
    requires |ffg| == |validators| && |crosslink| == |validators| && AllBelow(indices, |validators|)
    requires StrictlyIncreasing(indices) && j < |validators|
    ensures UpdateBalances(validators, indices, ffg, crosslink)[j] ==
      if j in indices then validators[j].(balance := Clamp(validators[j].balance, ffg[j] + crosslink[j]))
      else validators[j]
    decreases |indices|
  {
    if |indices| > 0 {
      var i := indices[0];
      var v := validators[i];
      var next := validators[i := v.(balance := Clamp(v.balance, ffg[i] + crosslink[i]))];
      assert StrictlyIncreasing(indices[1..]);
      assert AllBelow(indices[1..], |validators|);
      UpdateBalancesAt(next, indices[1..], ffg, crosslink, j);
      assert indices == [i] + indices[1..];
      if j == i {
        assert j !in indices[1..];
      }
    }
  }

  /** The reward context of the registry's total deposits; `get_reward_context`
      asserts a positive total. */
  function RewardContextOf(cs: CrystallizedState, config: Config): (r: Result<RewardContext>)
    ensures r.Failure? <==> TotalDeposits(cs) == 0
  {
    GetRewardContext(TotalDeposits(cs), config)
  }

  /** `apply_rewards_and_penalties`: the FFG amounts, then the crosslink
      amounts, then the updated registry. Both source calculations start by
      computing the reward context of the same total, so it is computed here
      once. */
  function ApplyRewardsAndPenalties(cs: CrystallizedState, active: ActiveState, block: Block, config: Config,
                                    oracle: Oracle): (r: Result<seq<Validator>>)
    ensures TotalDeposits(cs) == 0 ==> r == Failure(Raised(AssertionError))
    ensures r.Success? ==> |r.value| == |cs.validators|
  {
    var ctx :- RewardContextOf(cs, config);
    var ffg :- FfgRewards(cs, active, block, config, ctx);
    var crosslink :- CrosslinkRewards(cs, active, block, config, oracle, ctx);
    Success(UpdateBalances(cs.validators, ActiveValidatorIndices(cs.currentDynasty, cs.validators), ffg, crosslink))
  }

  /** After the update an active validator's balance is its old balance plus
      its FFG and crosslink amounts, held at zero; every inactive validator
      is unchanged; and no other field of any validator changes. */
  lemma ApplyRewardsAndPenaltiesSpec(cs: CrystallizedState, active: ActiveState, block: Block, config: Config,
                                     oracle: Oracle, i: nat)
    requires ApplyRewardsAndPenalties(cs, active, block, config, oracle).Success?
    requires i < |cs.validators|
    ensures RewardContextOf(cs, config).Success?
    ensures FfgRewards(cs, active, block, config, RewardContextOf(cs, config).value).Success?
    ensures CrosslinkRewards(cs, active, block, config, oracle, RewardContextOf(cs, config).value).Success?
    ensures var ctx := RewardContextOf(cs, config).value;
      var v := cs.validators[i];
      var after := ApplyRewardsAndPenalties(cs, active, block, config, oracle).value[i];
      && after.pubkey == v.pubkey && after.startDynasty == v.startDynasty && after.endDynasty == v.endDynasty
      && (IsActive(v, cs.currentDynasty) ==>
            after.balance == Clamp(v.balance, FfgRewards(cs, active, block, config, ctx).value[i] +
                                              CrosslinkRewards(cs, active, block, config, oracle, ctx).value[i]))
      && (!IsActive(v, cs.currentDynasty) ==> after == v)
  {
    var ctx := RewardContextOf(cs, config).value;
    var ffg := FfgRewards(cs, active, block, config, ctx).value;
    var crosslink := CrosslinkRewards(cs, active, block, config, oracle, ctx).value;
    ActiveIndexAt(cs.currentDynasty, cs.validators, i);
    ActiveIncreasing(cs.currentDynasty, cs.validators);
    UpdateBalancesAt(cs.validators, ActiveValidatorIndices(cs.currentDynasty, cs.validators), ffg, crosslink, i);
  }
}
