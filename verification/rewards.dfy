/** Rewards and penalties at the start of a new cycle
    (`calculate_ffg_rewards`, `calculate_crosslink_rewards`,
    `apply_rewards_and_penalties`).

    Both calculations return one signed amount per validator. Every division
    is Python's floor division; all divisors here are non-negative, and for a
    positive divisor Dafny's `/` is the same floor division. A zero divisor
    raises `ZeroDivisionError`, but only when a loop actually divides by it,
    that is when the list it walks is non-empty.
 */
module Rewards {
  import opened Results
  import opened Bitfields
  import opened BeaconTypes
  import opened Helpers
  import opened Deltas

  // ---------------------------------------------------------------------
  // Per-validator amounts

  /** The reward (or, below half participation, the penalty) of a
      participant with `balance`, when `participated` of `total` deposits
      took part. */
  function Share(balance: nat, rewardQuotient: nat, participated: nat, total: nat): int
    requires rewardQuotient > 0 && total > 0
  {
    ((balance / rewardQuotient) * (2 * participated - total)) / total
  }

  /** The penalty of an absent validator while finality is recent. */
  function BasePenalty(balance: nat, rewardQuotient: nat): int
    requires rewardQuotient > 0
  {
    balance / rewardQuotient
  }

  /** The penalty of an absent validator `elapsed` slots after the last
      finalization or confirmation. */
  function QuadraticPenalty(balance: nat, rewardQuotient: nat, elapsed: int, quadraticPenaltyQuotient: nat): int
    requires rewardQuotient > 0 && quadraticPenaltyQuotient > 0
  {
    balance / rewardQuotient + (balance * elapsed) / quadraticPenaltyQuotient
  }

  /** With at most full participation, a participant's share lies between
      the penalty and the reward of one base unit, and it is not negative
      once half of the deposits took part. So taking part
      never costs more than staying away. */
  lemma ShareBounds(balance: nat, rewardQuotient: nat, participated: nat, total: nat)
    requires rewardQuotient > 0 && total > 0 && participated <= total
    ensures -BasePenalty(balance, rewardQuotient) <= Share(balance, rewardQuotient, participated, total)
    ensures Share(balance, rewardQuotient, participated, total) <= BasePenalty(balance, rewardQuotient)
    ensures 2 * participated >= total ==> Share(balance, rewardQuotient, participated, total) >= 0
  {
    var b := balance / rewardQuotient;
    var d := 2 * participated - total;
    assert -(total as int) <= d <= total;
    MulBounds(b, d, total);
    DivBounds(b * d, b, total);
  }

  lemma MulBounds(b: nat, d: int, t: nat)
    requires -(t as int) <= d <= t
    ensures -(b * t) <= b * d <= b * t
    ensures d >= 0 ==> b * d >= 0
  {
  }

  lemma DivBounds(x: int, b: nat, t: nat)
    requires t > 0 && -(b * t) <= x <= b * t
    ensures -(b as int) <= x / t <= b
    ensures x >= 0 ==> x / t >= 0
  {
    var q := x / t;
    assert q * t <= x < q * t + t;
    assert (q - b) * t == q * t - b * t;
    assert (q + b + 1) * t == q * t + t + b * t;
    SignOfProduct(q - b, t);
    SignOfProduct(-(q + b + 1), t);
  }

  lemma SignOfProduct(a: int, t: int)
    requires t > 0
    ensures a * t <= 0 <==> a <= 0
  {
  }

  /** Which of the three per-validator amounts a loop adds, with its
      divisors and other parameters. */
  datatype Amount =
    | ShareOf(rewardQuotient: nat, participated: nat, total: nat)
    | BasePenaltyOf(rewardQuotient: nat)
    | QuadraticPenaltyOf(rewardQuotient: nat, elapsed: int, quadraticPenaltyQuotient: nat)

  /** The divisors of the amount are non-zero. */
  predicate Divisible(a: Amount) {
    match a
    case ShareOf(rq, _, total) => rq > 0 && total > 0
    case BasePenaltyOf(rq) => rq > 0
    case QuadraticPenaltyOf(rq, _, qpq) => rq > 0 && qpq > 0
  }

  /** The signed amount for a validator with `balance`. */
  function AmountOf(a: Amount, balance: nat): int
    requires Divisible(a)
  {
    match a
    case ShareOf(rq, participated, total) => Share(balance, rq, participated, total)
    case BasePenaltyOf(rq) => -BasePenalty(balance, rq)
    case QuadraticPenaltyOf(rq, elapsed, qpq) => -QuadraticPenalty(balance, rq, elapsed, qpq)
  }

  function Amounts(validators: seq<Validator>, a: Amount): (s: seq<int>)
    requires Divisible(a)
    ensures |s| == |validators|
    ensures forall i :: 0 <= i < |s| ==> s[i] == AmountOf(a, validators[i].balance)
  {
    seq(|validators|, i requires 0 <= i < |validators| => AmountOf(a, validators[i].balance))
  }

  /** The loop `for index in indices: r[index] += amount(index)` of the
      reward calculations: a listed validator outside the registry raises
      `IndexError`, and a zero divisor raises `ZeroDivisionError` as soon as
      the loop divides, that is when the list is non-empty. */
  function AddToEach(r: seq<int>, validators: seq<Validator>, indices: seq<nat>, a: Amount): (s: Result<seq<int>>)
    requires |r| == |validators|
    ensures s.Failure? <==> !AllBelow(indices, |validators|) || (|indices| > 0 && !Divisible(a))
    ensures s.Failure? ==> s.error == Raised(IndexError) || s.error == Raised(ZeroDivisionError)
    ensures s.Success? ==> |s.value| == |r|
  {
    if !AllBelow(indices, |validators|) then Failure(Raised(IndexError))
    else if |indices| == 0 then Success(r)
    else if !Divisible(a) then Failure(Raised(ZeroDivisionError))
    else Success(AddEach(r, indices, Amounts(validators, a)))
  }

  /** After the loop each validator has gained its amount once per
      occurrence of its index in the list, and a validator not listed has
      gained nothing. */
  lemma AddToEachAt(r: seq<int>, validators: seq<Validator>, indices: seq<nat>, a: Amount, i: nat)
    requires |r| == |validators| && i < |r|
    requires AddToEach(r, validators, indices, a).Success?
    ensures i in indices ==> Divisible(a)
    ensures AddToEach(r, validators, indices, a).value[i] ==
      r[i] + if i in indices then multiset(indices)[i] * AmountOf(a, validators[i].balance) else 0
  {
    if |indices| > 0 {
      AddEachCount(r, indices, Amounts(validators, a), i);
    }
  }

  function Zeros(n: nat): (r: seq<int>)
    ensures |r| == n && forall i :: 0 <= i < n ==> r[i] == 0
  {
    seq(n, _ => 0)
  }

  /** The slots of the cycle before `lastStateRecalc` (never before slot 0):
      `first, ..., lastStateRecalc - 1`. */
  function CycleStart(cs: CrystallizedState, config: Config): (first: nat)
    ensures first <= cs.lastStateRecalc
  {
    Max(cs.lastStateRecalc - config.cycleLength, 0)
  }

  // ---------------------------------------------------------------------
  // FFG rewards

  datatype SlotVotes = SlotVotes(voters: set<nat>, deposits: nat)

  /** The voters and voted deposits of the chain's block at `slot`; no block
      there means no votes, and a block the cache does not know raises
      `KeyError`. */
  function SlotVotesAt(active: ActiveState, slot: nat): (r: Result<SlotVotes>)
    ensures r.Failure? ==> r.error == Raised(KeyError)
  {
    match BlockBySlot(active.chain.blocks, slot)
    case None => Success(SlotVotes({}, 0))
    case Some(b) =>
      if b.hash in active.blockVoteCache then
        var entry := active.blockVoteCache[b.hash];
        Success(SlotVotes(entry.voterIndices, entry.totalVoterDeposits))
      else Failure(Raised(KeyError))
  }

  /** The votes at `slot`, read as none when looking them up raises. */
  function VotesOf(active: ActiveState, slot: nat): SlotVotes {
    match SlotVotesAt(active, slot)
    case Success(v) => v
    case Failure(_) => SlotVotes({}, 0)
  }

  /** The divisors the FFG amount of one validator for one slot needs are
      non-zero. */
  predicate FfgDeltaDefined(ctx: RewardContext, total: nat, recent: bool, voted: bool) {
    && total > 0
    && ((recent || !voted) ==> ctx.rewardQuotient > 0)
    && ((!recent && !voted) ==> ctx.quadraticPenaltyQuotient > 0)
  }

  /** Validator `i` meets non-zero divisors at each of the first `n` slots
      from `first`. */
  predicate DefinedThrough(active: ActiveState, ctx: RewardContext, total: nat, recent: bool, first: nat, n: nat, i: nat) {
    n == 0 ||
    (DefinedThrough(active, ctx, total, recent, first, n - 1, i) &&
     FfgDeltaDefined(ctx, total, recent, i in VotesOf(active, first + n - 1).voters))
  }

  lemma {:induction false} DefinedThroughSpec(active: ActiveState, ctx: RewardContext, total: nat, recent: bool, first: nat, n: nat, i: nat)
    ensures DefinedThrough(active, ctx, total, recent, first, n, i) <==>
      forall slot: nat :: first <= slot < first + n ==> FfgDeltaDefined(ctx, total, recent, i in VotesOf(active, slot).voters)
  {
    if n > 0 {
      DefinedThroughSpec(active, ctx, total, recent, first, n - 1, i);
    }
  }

  /** What one slot adds to the FFG reward of an active validator: while
      finality is recent a voter gets its share and an absentee loses the
      base penalty; afterwards voters get nothing and absentees lose the
      quadratic penalty. */
  function FfgDelta(v: Validator, voted: bool, votes: SlotVotes, total: nat, elapsed: int, ctx: RewardContext, recent: bool): int
    requires FfgDeltaDefined(ctx, total, recent, voted)
  {
    if recent then
      if voted then Share(v.balance, ctx.rewardQuotient, votes.deposits, total)
      else -BasePenalty(v.balance, ctx.rewardQuotient)
    else if voted then 0
    else -QuadraticPenalty(v.balance, ctx.rewardQuotient, elapsed, ctx.quadraticPenaltyQuotient)
  }

  /** The body of the slot loop of `calculate_ffg_rewards`: the active
      validators are split into those in the slot's voter set and the rest,
      and the two lists are rewarded and penalized in that order. */
  function FfgSlot(r: seq<int>, validators: seq<Validator>, activeIndices: seq<nat>, votes: SlotVotes, total: nat,
                   elapsed: int, ctx: RewardContext, recent: bool): Result<seq<int>>
    requires |r| == |validators|
  {
    var participants := Filter(activeIndices, votes.voters, true);
    var absentees := Filter(activeIndices, votes.voters, false);
    if recent then
      var rewarded :- AddToEach(r, validators, participants, ShareOf(ctx.rewardQuotient, votes.deposits, total));
      AddToEach(rewarded, validators, absentees, BasePenaltyOf(ctx.rewardQuotient))
    else AddToEach(r, validators, absentees, QuadraticPenaltyOf(ctx.rewardQuotient, elapsed, ctx.quadraticPenaltyQuotient))
  }

  /** One slot of the FFG loop moves each active validator by its
      `FfgDelta`, exactly once, and leaves every other validator alone. */
  lemma FfgSlotSpec(r: seq<int>, validators: seq<Validator>, activeIndices: seq<nat>, votes: SlotVotes, total: nat,
                    elapsed: int, ctx: RewardContext, recent: bool, i: nat)
    requires |r| == |validators| && total > 0 && i < |r|
    requires StrictlyIncreasing(activeIndices)
    requires FfgSlot(r, validators, activeIndices, votes, total, elapsed, ctx, recent).Success?
    ensures |FfgSlot(r, validators, activeIndices, votes, total, elapsed, ctx, recent).value| == |r|
    ensures i in activeIndices ==> FfgDeltaDefined(ctx, total, recent, i in votes.voters)
    ensures FfgSlot(r, validators, activeIndices, votes, total, elapsed, ctx, recent).value[i] ==
      r[i] + if i in activeIndices then FfgDelta(validators[i], i in votes.voters, votes, total, elapsed, ctx, recent) else 0
  {
    var participants: seq<nat> := Filter(activeIndices, votes.voters, true);
    var absentees: seq<nat> := Filter(activeIndices, votes.voters, false);
    FilterOfIncreasing(activeIndices, votes.voters, true, i);
    FilterOfIncreasing(activeIndices, votes.voters, false, i);
    assert i in participants <==> i in activeIndices && i in votes.voters;
    assert i in absentees <==> i in activeIndices && i !in votes.voters;
    if recent {
      var share := ShareOf(ctx.rewardQuotient, votes.deposits, total);
      AddToEachAt(r, validators, participants, share, i);
      var rewarded := AddToEach(r, validators, participants, share).value;
      AddToEachAt(rewarded, validators, absentees, BasePenaltyOf(ctx.rewardQuotient), i);
    } else {
      AddToEachAt(r, validators, absentees, QuadraticPenaltyOf(ctx.rewardQuotient, elapsed, ctx.quadraticPenaltyQuotient), i);
    }
  }

  /** The FFG loop over the first `n` slots from `first`, for the registry
      `validators` with active indices `activeIndices` and total deposits
      `total`. */
  function FfgFold(validators: seq<Validator>, activeIndices: seq<nat>, total: nat, active: ActiveState,
                   ctx: RewardContext, elapsed: int, recent: bool, first: nat, n: nat): (r: Result<seq<int>>)
    ensures r.Success? ==> |r.value| == |validators|
  {
    if n == 0 then Success(Zeros(|validators|))
    else
      var r :- FfgFold(validators, activeIndices, total, active, ctx, elapsed, recent, first, n - 1);
      var votes :- SlotVotesAt(active, first + n - 1);
      FfgSlot(r, validators, activeIndices, votes, total, elapsed, ctx, recent)
  }

  /** The FFG amounts of validator `i` summed over the first `n` slots from
      `first`: the closed form of the loop. */
  function FfgReference(validators: seq<Validator>, total: nat, active: ActiveState, ctx: RewardContext, elapsed: int,
                        recent: bool, first: nat, n: nat, i: nat): int
    requires i < |validators|
    requires DefinedThrough(active, ctx, total, recent, first, n, i)
  {
    if n == 0 then 0
    else
      var votes := VotesOf(active, first + n - 1);
      FfgReference(validators, total, active, ctx, elapsed, recent, first, n - 1, i) +
      FfgDelta(validators[i], i in votes.voters, votes, total, elapsed, ctx, recent)
  }

  /** The FFG loop gives an inactive validator nothing. */
  lemma {:induction false} FfgFoldInactive(validators: seq<Validator>, activeIndices: seq<nat>, total: nat, active: ActiveState,
                                           ctx: RewardContext, elapsed: int, recent: bool, first: nat, n: nat, i: nat)
    requires total > 0 && StrictlyIncreasing(activeIndices) && i < |validators| && i !in activeIndices
    requires FfgFold(validators, activeIndices, total, active, ctx, elapsed, recent, first, n).Success?
    ensures FfgFold(validators, activeIndices, total, active, ctx, elapsed, recent, first, n).value[i] == 0
    decreases n
  {
    if n > 0 {
      FfgFoldInactive(validators, activeIndices, total, active, ctx, elapsed, recent, first, n - 1, i);
      var r := FfgFold(validators, activeIndices, total, active, ctx, elapsed, recent, first, n - 1).value;
      var votes := SlotVotesAt(active, first + n - 1).value;
      FfgSlotSpec(r, validators, activeIndices, votes, total, elapsed, ctx, recent, i);
    }
  }

  /** One slot of the FFG loop, unfolded. */
  lemma FfgFoldStep(validators: seq<Validator>, activeIndices: seq<nat>, total: nat, active: ActiveState,
                    ctx: RewardContext, elapsed: int, recent: bool, first: nat, n: nat)
    requires n > 0
    requires FfgFold(validators, activeIndices, total, active, ctx, elapsed, recent, first, n).Success?
    ensures FfgFold(validators, activeIndices, total, active, ctx, elapsed, recent, first, n - 1).Success?
    ensures SlotVotesAt(active, first + n - 1).Success?
    ensures VotesOf(active, first + n - 1) == SlotVotesAt(active, first + n - 1).value
    ensures FfgFold(validators, activeIndices, total, active, ctx, elapsed, recent, first, n) ==
      FfgSlot(FfgFold(validators, activeIndices, total, active, ctx, elapsed, recent, first, n - 1).value,
              validators, activeIndices, SlotVotesAt(active, first + n - 1).value, total, elapsed, ctx, recent)
  {
  }

  /** An active validator meets only non-zero divisors in the FFG loop. */
  lemma {:induction false} FfgFoldDefined(validators: seq<Validator>, activeIndices: seq<nat>, total: nat, active: ActiveState,
                                          ctx: RewardContext, elapsed: int, recent: bool, first: nat, n: nat, i: nat)
    requires total > 0 && StrictlyIncreasing(activeIndices) && i < |validators| && i in activeIndices
    requires FfgFold(validators, activeIndices, total, active, ctx, elapsed, recent, first, n).Success?
    ensures DefinedThrough(active, ctx, total, recent, first, n, i)
    decreases n
  {
    if n > 0 {
      FfgFoldStep(validators, activeIndices, total, active, ctx, elapsed, recent, first, n);
      FfgFoldDefined(validators, activeIndices, total, active, ctx, elapsed, recent, first, n - 1, i);
      var r := FfgFold(validators, activeIndices, total, active, ctx, elapsed, recent, first, n - 1).value;
      var votes := SlotVotesAt(active, first + n - 1).value;
      FfgSlotSpec(r, validators, activeIndices, votes, total, elapsed, ctx, recent, i);
    }
  }

  /** The FFG loop gives an active validator the sum of its per-slot
      amounts. */
  lemma {:induction false} FfgFoldActive(validators: seq<Validator>, activeIndices: seq<nat>, total: nat, active: ActiveState,
                                         ctx: RewardContext, elapsed: int, recent: bool, first: nat, n: nat, i: nat)
    requires total > 0 && StrictlyIncreasing(activeIndices) && i < |validators| && i in activeIndices
    requires FfgFold(validators, activeIndices, total, active, ctx, elapsed, recent, first, n).Success?
    ensures DefinedThrough(active, ctx, total, recent, first, n, i)
    ensures FfgFold(validators, activeIndices, total, active, ctx, elapsed, recent, first, n).value[i] ==
      FfgReference(validators, total, active, ctx, elapsed, recent, first, n, i)
    decreases n
  {
    FfgFoldDefined(validators, activeIndices, total, active, ctx, elapsed, recent, first, n, i);
    if n > 0 {
      FfgFoldStep(validators, activeIndices, total, active, ctx, elapsed, recent, first, n);
      FfgFoldActive(validators, activeIndices, total, active, ctx, elapsed, recent, first, n - 1, i);
      var r := FfgFold(validators, activeIndices, total, active, ctx, elapsed, recent, first, n - 1).value;
      var votes := SlotVotesAt(active, first + n - 1).value;
      FfgSlotSpec(r, validators, activeIndices, votes, total, elapsed, ctx, recent, i);
    }
  }

  /** Slots since the last finalization at `block`. */
  function SinceFinality(cs: CrystallizedState, block: Block): int {
    block.slotNumber - cs.lastFinalizedSlot
  }

  /** Finality counts as recent for `3 * cycleLength` slots. */
  predicate FinalityRecent(cs: CrystallizedState, block: Block, config: Config) {
    SinceFinality(cs, block) <= 3 * config.cycleLength
  }

  /** The number of slots the FFG loop walks. */
  function CycleSlots(cs: CrystallizedState, config: Config): nat {
    cs.lastStateRecalc - CycleStart(cs, config)
  }

  /** `calculate_ffg_rewards`: the amounts of every validator for the cycle
      before `lastStateRecalc`. The reward context `ctx` is the one of the
      registry's total deposits (see `ApplyRewardsAndPenalties`). */
  function FfgRewards(cs: CrystallizedState, active: ActiveState, block: Block, config: Config, ctx: RewardContext): (r: Result<seq<int>>)
    ensures r.Success? ==> |r.value| == |cs.validators|
  {
    FfgFold(cs.validators, ActiveValidatorIndices(cs.currentDynasty, cs.validators), TotalDeposits(cs), active, ctx,
            SinceFinality(cs, block), FinalityRecent(cs, block, config), CycleStart(cs, config), CycleSlots(cs, config))
  }

  /** The FFG loop in closed form, per validator: see `FfgFoldInactive`
      and `FfgFoldActive`. */
  lemma FfgFoldAt(validators: seq<Validator>, activeIndices: seq<nat>, total: nat, active: ActiveState,
                  ctx: RewardContext, elapsed: int, recent: bool, first: nat, n: nat, i: nat)
    requires total > 0 && StrictlyIncreasing(activeIndices) && i < |validators|
    requires FfgFold(validators, activeIndices, total, active, ctx, elapsed, recent, first, n).Success?
    ensures i !in activeIndices ==> FfgFold(validators, activeIndices, total, active, ctx, elapsed, recent, first, n).value[i] == 0
    ensures i in activeIndices ==>
      && DefinedThrough(active, ctx, total, recent, first, n, i)
      && FfgFold(validators, activeIndices, total, active, ctx, elapsed, recent, first, n).value[i] ==
         FfgReference(validators, total, active, ctx, elapsed, recent, first, n, i)
  {
    if i in activeIndices {
      FfgFoldActive(validators, activeIndices, total, active, ctx, elapsed, recent, first, n, i);
    } else {
      FfgFoldInactive(validators, activeIndices, total, active, ctx, elapsed, recent, first, n, i);
    }
  }

  /** The FFG amounts in closed form: an inactive validator gets nothing; an
      active one gets, summed over the slots of the cycle, its share where it
      voted and the base penalty where it did not while finality is recent,
      and otherwise nothing where it voted and the quadratic penalty where it
      did not. */
  lemma FfgRewardsSpec(cs: CrystallizedState, active: ActiveState, block: Block, config: Config, ctx: RewardContext, i: nat)
    requires TotalDeposits(cs) > 0
    requires FfgRewards(cs, active, block, config, ctx).Success?
    requires i < |cs.validators|
    ensures !IsActive(cs.validators[i], cs.currentDynasty) ==> FfgRewards(cs, active, block, config, ctx).value[i] == 0
    ensures IsActive(cs.validators[i], cs.currentDynasty) ==>
      && DefinedThrough(active, ctx, TotalDeposits(cs), FinalityRecent(cs, block, config), CycleStart(cs, config),
                        CycleSlots(cs, config), i)
      && FfgRewards(cs, active, block, config, ctx).value[i] ==
         FfgReference(cs.validators, TotalDeposits(cs), active, ctx, SinceFinality(cs, block), FinalityRecent(cs, block, config),
                      CycleStart(cs, config), CycleSlots(cs, config), i)
  {
    ActiveIndexAt(cs.currentDynasty, cs.validators, i);
    ActiveIncreasing(cs.currentDynasty, cs.validators);
    FfgFoldAt(cs.validators, ActiveValidatorIndices(cs.currentDynasty, cs.validators), TotalDeposits(cs), active, ctx,
              SinceFinality(cs, block), FinalityRecent(cs, block, config), CycleStart(cs, config), CycleSlots(cs, config), i);
  }

  /** Once finality is old, the per-slot FFG amounts only penalize. */
  lemma {:induction false} FfgReferenceNotPositive(validators: seq<Validator>, total: nat, active: ActiveState, ctx: RewardContext,
                                                   elapsed: int, first: nat, n: nat, i: nat)
    requires elapsed >= 0 && i < |validators|
    requires DefinedThrough(active, ctx, total, false, first, n, i)
    ensures FfgReference(validators, total, active, ctx, elapsed, false, first, n, i) <= 0
    decreases n
  {
    if n > 0 {
      FfgReferenceNotPositive(validators, total, active, ctx, elapsed, first, n - 1, i);
      if i !in VotesOf(active, first + n - 1).voters {
        assert validators[i].balance * elapsed >= 0;
      }
    }
  }

  /** Once finality is more than `3 * cycleLength` slots old, no validator
      gains from the FFG amounts. */
  lemma FfgRewardsLate(cs: CrystallizedState, active: ActiveState, block: Block, config: Config, ctx: RewardContext, i: nat)
    requires TotalDeposits(cs) > 0
    requires FfgRewards(cs, active, block, config, ctx).Success?
    requires i < |cs.validators|
    requires block.slotNumber - cs.lastFinalizedSlot > 3 * config.cycleLength
    ensures FfgRewards(cs, active, block, config, ctx).value[i] <= 0
  {
    FfgRewardsSpec(cs, active, block, config, ctx, i);
    if IsActive(cs.validators[i], cs.currentDynasty) {
      FfgReferenceNotPositive(cs.validators, TotalDeposits(cs), active, ctx, SinceFinality(cs, block),
                              CycleStart(cs, config), CycleSlots(cs, config), i);
    }
  }
}
