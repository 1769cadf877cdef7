# Beacon chain state transition: a Dafny model

This project models the per-block and per-cycle state transition of the
`atc_chain` beacon chain prototype, as written in
`atc_chain/state/state_transition.py`. A block is checked against its parent
and against the crystallized state: the parent's proposer must attest in it,
and each attestation must fall in the slot window, build on a justified
block, carry a well-formed bitfield and a valid aggregate signature. Its
votes then go into the block vote cache. Once the block's slot has passed a
whole cycle after the last state recalculation, the cycle is recalculated,
once per cycle due. The recalculation has these parts:

- the justification and finalization sweep;
- the crosslink update;
- pruning of old pending attestations;
- FFG and crosslink rewards and penalties;
- possibly a dynasty transition.

Every operation is a pure function over immutable records. The
crystallized state, the active state, crosslink records, validators and
attestations are datatypes. The vote cache is a `map` from block hash to
voter set and voted deposits. Python's exceptions are values of a `Result`
type: a `ValidationError` carries its reason, and `IndexError`, `KeyError`,
`ZeroDivisionError` and `AssertionError` are raised where the Python code
would raise them. One precondition excludes inputs the source handles: the
cycle loop, and with it StateTransition.CycleTransitions,
StateTransition.ComputeStateTransition and the lemmas about them, requires a
positive cycle length or a block slot before the last recalculation (see
"## Left out"). Every other precondition only ties a helper's loop counter
or sizes to its inputs, or restates a check its caller makes first.

Modules, one per concern, in dependency order:

| module | file | models |
|---|---|---|
| `Results` | results.dfy | errors, `Result`, floor division |
| `Bitfields` | bitfields.dfy | attester bitfields, their OR |
| `BeaconTypes` | types.dfy | the records; chain lookups by hash and slot |
| `Helpers` | helpers.dfy | active validators, total deposits, integer square root, reward context, and the `Oracle` |
| `Validation` | validation.dfy | `validate_parent_block_proposer`, `validate_attestation` |
| `VoteCache` | vote_cache.dfy | `get_updated_block_vote_cache` |
| `Justification` | justification.dfy | the sweep at the start of `initialize_new_cycle` |
| `Crosslinks` | crosslinks.dfy | `process_updated_crosslinks` |
| `Deltas` | deltas.dfy | the index loops and list filters of the reward calculations |
| `Rewards` | rewards.dfy | `calculate_ffg_rewards` |
| `CrosslinkAmounts` | crosslink_rewards.dfy | `calculate_crosslink_rewards` |
| `Balances` | balances.dfy | `apply_rewards_and_penalties` |
| `Dynasty` | dynasty.dfy | `ready_for_dynasty_transition`, `compute_dynasty_transition` |
| `StateTransition` | state_transition.dfy | `fill_recent_block_hashes`, `process_block`, `initialize_new_cycle`, `compute_cycle_transitions`, `compute_state_transition` |

Some helpers depend on hashing, shuffling, signatures or block history:
`get_proposer_position`, `get_signed_parent_hashes`,
`get_attestation_indices`, `get_shards_and_committees_for_slot`,
`get_new_recent_block_hashes`, `get_new_shuffling`, and `bls.verify` with
`blake`. These are the function-valued fields of `Helpers.Oracle`. Every
operation takes the oracle as an argument, so each proved property holds
whatever those helpers return. An `Option` result of `None` stands for a
helper that raised.

## Model

| member | source | states |
|---|---|---|
| Validation.ValidateParentBlockProposer | atc_chain/state/state_transition.py:83-119 | A block at slot 0 always passes. A later block with no attestations is rejected as empty. A later block passes exactly when its first attestation is for the parent's proposer's shard and the parent's slot and has the proposer's bit set. Any failure is one of those two rejections. |
| Validation.ValidateAttestation | atc_chain/state/state_transition.py:131-216 | A slot above the parent's is rejected as too high. A slot below `max(parent - cycleLength + 1, 0)` is rejected as too low. A justified slot past the last justified slot is rejected. An attestation passes exactly when every condition holds: it is in the window; its justified block is on the chain at the justified slot; its committee resolves; its bitfield has the committee's length with no bit set past the committee; every voter is in the registry; and the aggregate signature verifies. |
| Validation.PaddingCheckIsTrailingCheck | atc_chain/state/state_transition.py:191-196 | For a bitfield of the right length, the source's loop over the padding bits of the last byte finds nothing exactly when no bit at position `len(committee)` or later is set. |
| Validation.VoterPubKeys | atc_chain/state/state_transition.py:201-205 | Collecting voters' public keys succeeds exactly when every voting committee member indexes the registry. Otherwise it raises `IndexError`. |
| BeaconTypes.BlockByHash | atc_chain/state/state_transition.py:159-164 | A block is found exactly when some chain block has the hash, and the block found has it. |
| BeaconTypes.BlockBySlot | atc_chain/state/state_transition.py:476-483 | A block is found exactly when some chain block is at the slot, and the block found is at it. |
| VoteCache.VotedSet | atc_chain/state/state_transition.py:247-249 | The voters of an attestation are exactly the committee members whose bit is set. |
| VoteCache.AddVoter | atc_chain/state/state_transition.py:248-253 | A voter already in the entry changes nothing. A new voter is added with its balance added to the total. A new voter outside the registry raises `IndexError`. |
| VoteCache.AddVotesVoters | atc_chain/state/state_transition.py:247-253 | The committee loop adds exactly the committee's voters to an entry. The total never decreases, and every added voter is a registry index. |
| VoteCache.AddVoterConsistent | atc_chain/state/state_transition.py:248-253 | Adding a voter keeps an entry's total equal to the summed balance of its voter set. Each voter is counted once. |
| VoteCache.AddVotesConsistent | atc_chain/state/state_transition.py:247-253 | The committee loop keeps an entry's total equal to its voters' summed balance. |
| VoteCache.AddVotesSucceeds | atc_chain/state/state_transition.py:247-253 | If every voting member is a registry index, the committee loop cannot raise. |
| VoteCache.UpdateHashesSpec | atc_chain/state/state_transition.py:239-253 | After the parent-hash loop, the cache's keys are the old keys plus the signed non-oblique hashes. Each of those hashes gains exactly the attestation's voters. Every other entry is unchanged, and no total decreases. |
| VoteCache.UpdateHashesConsistent | atc_chain/state/state_transition.py:239-253 | If every total matched its voters' balance before the loop, it still does after. |
| VoteCache.UpdateHashesSucceeds | atc_chain/state/state_transition.py:239-253 | If every voting member is a registry index, the parent-hash loop cannot raise. |
| VoteCache.UpdatedBlockVoteCache | atc_chain/state/state_transition.py:219-255 | A committee lookup that raises makes the update raise, so a successful update had a committee to count. |
| VoteCache.UpdatedBlockVoteCacheSpec | atc_chain/state/state_transition.py:219-255 | Restated on the attestation: each signed non-oblique hash's voters become the old voters plus the members whose bit is set. Oblique and unsigned hashes keep their entries. Voter sets and totals only grow, and consistency with the balances is kept. |
| StateTransition.FillRecentBlockHashes | atc_chain/state/state_transition.py:424-437 | Only the recent block hashes change, to the helper's window for the parent's slot, the block's slot and the parent hash. The pending attestations, the cache and the chain are kept. |
| StateTransition.ProcessAttestationSucceeds | atc_chain/state/state_transition.py:267-281 | One attestation is processed without raising exactly when it validates: validation checks every registry index the cache update reads. |
| StateTransition.ProcessAttestationsSucceed | atc_chain/state/state_transition.py:267-281 | The attestation loop succeeds exactly when every attestation of the block validates. |
| StateTransition.ProcessAttestationsGrow | atc_chain/state/state_transition.py:267-281 | The loop only adds to the cache: keys and voter sets grow, and consistency with the balances is kept. |
| StateTransition.ProcessBlock | atc_chain/state/state_transition.py:258-295 | A processed block keeps the recent block hashes. |
| StateTransition.ProcessBlockSpec | atc_chain/state/state_transition.py:258-295 | A block is accepted exactly when the proposer check passes and every attestation validates. Its attestations are then appended to the pending ones, and it becomes the chain's head and last block. The cache only grows and stays consistent. |
| Justification.SweepJustified | atc_chain/state/state_transition.py:355-365 | Across the sweep the last justified slot never decreases. It is at least every supermajority slot (`3*vote >= 2*total`), and it changes only to such a slot. |
| Justification.SweepStreakStep | atc_chain/state/state_transition.py:364-371 | Each slot raises the streak by one on a supermajority and resets it to zero otherwise. It finalizes `max(old, slot - cycleLength - 1)` exactly when the streak reaches `cycleLength + 1`. |
| Justification.SweepStreakUnbroken | atc_chain/state/state_transition.py:364-368 | When every swept slot had a supermajority, the streak grows by the number of slots. |
| Justification.SweepStreakBroken | atc_chain/state/state_transition.py:364-368 | After the last slot without a supermajority, the streak counts the slots that follow it. |
| Justification.SweepFinalized | atc_chain/state/state_transition.py:370-371 | The last finalized slot never decreases. It is at least `slot - cycleLength - 1` for every slot after which the streak had reached `cycleLength + 1`, and it moves only to such a value. |
| Justification.SweepFinalizedNotAfterJustified | atc_chain/state/state_transition.py:355-371 | The sweep never finalizes past the last justified slot if that held before. |
| Justification.CycleVotes | atc_chain/state/state_transition.py:355-362 | Reading the cycle's votes succeeds exactly when there are at least `cycleLength` recent hashes. Otherwise it raises `IndexError`. The vote read at position `i` is the cached total for hash `i`, or 0 when the cache has no entry. |
| Justification.SweepCycleSpec | atc_chain/state/state_transition.py:345-371 | The sweep over the cycle before `lastStateRecalc` has the properties above, stated on the states. Justified and finalized slots never decrease. Every supermajority slot `lastStateRecalc - cycleLength + k` is covered, and the justified slot moves only to one. Finality does not overtake justification. |
| Crosslinks.CrosslinkStepSpec | atc_chain/state/state_transition.py:306-336 | One attestation adds its voted balance to its own (shard, hash) total only, and the list keeps its length. Only the attestation's shard can change, only from an older dynasty, only on a supermajority, and only to the current dynasty's crosslink. On a supermajority the shard is current afterwards. |
| Crosslinks.CrosslinkFoldTotals | atc_chain/state/state_transition.py:302-326 | The running total for each (shard, hash) is the prefix sum of the voted balances of its attestations. |
| Crosslinks.CrosslinkFoldReplaced | atc_chain/state/state_transition.py:304-337 | Every changed entry had an older dynasty. It now holds the new crosslink for the hash of the first attestation for that shard that reached two thirds of its committee. After that one makes the shard current, the dynasty test turns every later one away. |
| Crosslinks.CrosslinkFoldMonotone | atc_chain/state/state_transition.py:328-336 | The loop never lowers a crosslink's dynasty. |
| Crosslinks.CrosslinkFoldComplete | atc_chain/state/state_transition.py:328-336 | Every shard that an attestation brought to two thirds of its committee ends with a crosslink of the current dynasty or later. |
| Crosslinks.ProcessUpdatedCrosslinksSpec | atc_chain/state/state_transition.py:298-337 | The result has the same length as the old list. A changed entry is `(currentDynasty, lastStateRecalc + cycleLength, hash)`, replaced an entry from an earlier dynasty, and carries the hash of the first qualifying attestation for that shard. Every qualifying shard ends current. |
| StateTransition.FilterPendingCount | atc_chain/state/state_transition.py:380-384 | The pruned pending list holds each attestation of slot `>= lastStateRecalc` as often as before, and no older one. |
| StateTransition.Drop | atc_chain/state/state_transition.py:393-397 | Python's `s[n:]`: length `max(|s| - n, 0)`, and entry `k` is `s[n + k]`. |
| StateTransition.InitializeNewCycle | atc_chain/state/state_transition.py:340-421 | A recalculation moves `lastStateRecalc` forward by exactly `cycleLength`. Its finality fields are those of the sweep. |
| StateTransition.InitializeNewCycleSucceeds | atc_chain/state/state_transition.py:340-421 | A recalculation fails exactly when one of its parts fails: there are fewer recent hashes than a cycle, the crosslink update raises, or the rewards raise. |
| StateTransition.InitializeNewCycleState | atc_chain/state/state_transition.py:373-421 | The dynasty, its seed and its start are kept. Crosslinks and validators are the updated ones. The schedule is the part after the first cycle, twice. Pending attestations are exactly those of slot `>= lastStateRecalc`. The recent hashes, the cache and the chain are kept. |
| StateTransition.MaybeDynastyTransition | atc_chain/state/state_transition.py:699-704 | The optional dynasty transition keeps `lastStateRecalc`. |
| StateTransition.CycleStep | atc_chain/state/state_transition.py:691-704 | One loop iteration moves `lastStateRecalc` forward by `cycleLength`. |
| StateTransition.CycleTransitions | atc_chain/state/state_transition.py:686-706 | The loop ends with `lastStateRecalc` at the recalculation point that whole cycles reach from the old one. It terminates for a positive cycle length. |
| StateTransition.RecalcAfterSpec | atc_chain/state/state_transition.py:691 | That point is the old `lastStateRecalc` plus a whole number of cycles. The block's slot lies before the cycle after it, and it is either the old point or not past the slot. |
| StateTransition.CycleStepSpec | atc_chain/state/state_transition.py:691-704 | An iteration never lowers the justified slot, the finalized slot or the dynasty. It keeps the chain and the cache, only drops pending attestations, and keeps none older than the cycle before the new point. |
| StateTransition.CycleTransitionsMonotone | atc_chain/state/state_transition.py:686-706 | The same guarantees hold across the whole loop. |
| StateTransition.ComputeStateTransition | atc_chain/state/state_transition.py:709-743 | After a transition, the block's slot lies before `lastStateRecalc + cycleLength`. |
| StateTransition.ComputeStateTransitionSpec | atc_chain/state/state_transition.py:709-743 | A transition succeeds only if the proposer check passes and every attestation validates against the filled active state. The block is then the chain's head and last block, and the justified and finalized slots have not decreased. Every pending attestation was pending before or came with the block. |
| Deltas.AddEachCount | atc_chain/state/state_transition.py:495-512 | The loop `r[i] += amount[i]` over an index list adds each validator's amount once per occurrence of its index. Unlisted validators are unchanged. |
| Deltas.Filter | atc_chain/state/state_transition.py:485-492 | The two filters keep exactly the indices in or out of the voter set, with their multiplicities. |
| Deltas.FilterOfIncreasing | atc_chain/state/state_transition.py:485-492 | Splitting the increasing active list puts each active validator in exactly one of the two lists, once. |
| Rewards.ShareBounds | atc_chain/state/state_transition.py:583-587 | Given voted deposits `p` at most the deposits `t`, a participant's share `balance // rq * (2p - t) // t` lies between minus and plus the base penalty, and is non-negative once `2p >= t`. Only the crosslink tallies are known to meet `p <= t` (see CrosslinkAmounts.CycleParticipantAmountBounds). |
| Rewards.AddToEach | atc_chain/state/state_transition.py:495-512 | A reward loop raises `IndexError` for a listed index outside the registry, and `ZeroDivisionError` for a zero divisor met on a non-empty list. Otherwise it succeeds. |
| Rewards.AddToEachAt | atc_chain/state/state_transition.py:495-512 | After a reward loop, a validator gains its amount once per listing, and an unlisted validator gains nothing. |
| Rewards.SlotVotesAt | atc_chain/state/state_transition.py:476-483 | Looking up a slot's votes fails only with `KeyError` (a chain block missing from the cache). |
| Rewards.FfgSlotSpec | atc_chain/state/state_transition.py:485-512 | One slot moves each active validator by exactly one FFG amount and leaves the others alone. While finality is recent, that amount is the share for a voter and the base penalty for an absentee. Afterwards it is 0 for a voter and the quadratic penalty for an absentee. |
| Rewards.FfgFoldInactive | atc_chain/state/state_transition.py:475-512 | An inactive validator gets no FFG amount. |
| Rewards.DefinedThroughSpec | atc_chain/state/state_transition.py:494-512 | A validator meets non-zero divisors throughout the slots exactly when it meets them at every slot. |
| Rewards.FfgFoldDefined | atc_chain/state/state_transition.py:475-512 | If the FFG loop succeeds, every divisor an active validator's amounts use is non-zero. |
| Rewards.FfgFoldActive | atc_chain/state/state_transition.py:475-512 | An active validator's FFG amount is the sum, over the cycle's slots, of its per-slot amounts. |
| Rewards.FfgFoldAt | atc_chain/state/state_transition.py:475-512 | The two cases above combined. |
| Rewards.FfgRewardsSpec | atc_chain/state/state_transition.py:456-514 | `calculate_ffg_rewards` in closed form per validator: 0 when inactive, and otherwise the per-slot sum over slots `max(lsr - cycleLength, 0) .. lsr - 1`. |
| Rewards.FfgReferenceNotPositive | atc_chain/state/state_transition.py:507-512 | With stale finality the per-slot FFG amounts only penalize. |
| Rewards.FfgRewardsLate | atc_chain/state/state_transition.py:494-512 | More than `3 * cycleLength` slots after finality, no validator gains from FFG rewards. |
| CrosslinkAmounts.MatchingBitfieldsComplete | atc_chain/state/state_transition.py:547-554 | A bit set by a pending attestation for the slot and shard is set in one of the gathered bitfields. |
| CrosslinkAmounts.MatchingBitfieldsSound | atc_chain/state/state_transition.py:547-554 | A bit set in a gathered bitfield was set by such an attestation. |
| Bitfields.OrBitfieldsVoted | atc_chain/state/state_transition.py:552-555 | A bit is set in the OR of bitfields exactly when it is set in one of them. |
| Bitfields.EmptyBitfieldUnset | atc_chain/state/state_transition.py:556-557 | No bit is set in an empty bitfield. |
| CrosslinkAmounts.CommitteeBitfieldVoted | atc_chain/state/state_transition.py:547-562 | A committee position counts as voted exactly when some pending attestation for the slot and shard has its bit set. |
| CrosslinkAmounts.TallyCommitteeSucceeds | atc_chain/state/state_transition.py:560-570 | The committee loop succeeds exactly when every member is a registry index. It then lists each member once, and voted deposits do not exceed deposits. |
| CrosslinkAmounts.TallyCommitteeListsAll | atc_chain/state/state_transition.py:560-570 | Every member with its bit set is listed as a participant, and every other member as an absentee. |
| CrosslinkAmounts.TallyCommitteeListsOnly | atc_chain/state/state_transition.py:560-570 | Only committee members are listed, as participants only when their bit is set and as absentees only when it is not. |
| CrosslinkAmounts.TallyCommitteeDeposits | atc_chain/state/state_transition.py:560-570 | A committee's deposits are the voted balance and the full committee balance. |
| CrosslinkAmounts.AddTallyDistinct | atc_chain/state/state_transition.py:539-546 | Adding a committee's tally keeps one entry per shard. |
| CrosslinkAmounts.AddTallySpec | atc_chain/state/state_transition.py:539-559 | Adding a tally extends the shard's existing entry in place, or appends a new entry the first time the shard is met. Other shards' entries stay where they were. |
| CrosslinkAmounts.AddTallyWellFormed | atc_chain/state/state_transition.py:559-570 | Adding a well-formed tally keeps every tally listing registry members only, with voted deposits at most the deposits. |
| CrosslinkAmounts.TallyWellFormed | atc_chain/state/state_transition.py:560-570 | A committee's tally lists registry members only and has voted deposits at most its deposits. |
| CrosslinkAmounts.TallyCommitteesDistinct | atc_chain/state/state_transition.py:538-570 | The committees of a slot keep one tally per shard. |
| CrosslinkAmounts.TallyCommitteesWellFormed | atc_chain/state/state_transition.py:538-570 | The committees of a slot keep every tally well formed. |
| CrosslinkAmounts.TallySlotInvariant | atc_chain/state/state_transition.py:533-570 | One slot of the first phase keeps one well-formed tally per shard. |
| CrosslinkAmounts.TallySlotsInvariant | atc_chain/state/state_transition.py:532-570 | The whole first phase yields one well-formed tally per shard. |
| CrosslinkAmounts.ApplyTallyAt | atc_chain/state/state_transition.py:573-593 | One shard adds nothing for a shard crosslinked in the current dynasty. Otherwise it adds the share once per participant listing and the quadratic penalty since the shard's last crosslink once per absentee listing. |
| CrosslinkAmounts.ApplyTalliesAt | atc_chain/state/state_transition.py:573-593 | The second phase gives each validator the sum of what every shard tally adds for it. |
| CrosslinkAmounts.CrosslinkRewardsSpec | atc_chain/state/state_transition.py:517-595 | `calculate_crosslink_rewards` in closed form per validator, over the tallies of the cycle. |
| CrosslinkAmounts.CrosslinkReferenceUnlisted | atc_chain/state/state_transition.py:573-593 | A validator listed in no shard's tally, on either side, gets no crosslink amount. |
| CrosslinkAmounts.ListedSetSpec | atc_chain/state/state_transition.py:538-570 | The validators gathered on one side of a shard's tallies are exactly those some entry for that shard lists on that side. |
| CrosslinkAmounts.CommitteeSeatsSpec | atc_chain/state/state_transition.py:560-568 | A committee's seats on one side are the members at positions whose bit has that value. |
| CrosslinkAmounts.SlotSeatsSpec | atc_chain/state/state_transition.py:538-568 | A slot's seats for a shard are the seats of its committees serving that shard. |
| CrosslinkAmounts.SeatsAtSpec | atc_chain/state/state_transition.py:533-568 | A validator has a seat in a slot exactly when a committee of that slot for the shard holds it at a position whose bit in the committee's bitfield has the side's value. |
| CrosslinkAmounts.SeatsWithinSpec | atc_chain/state/state_transition.py:533 | A validator has a seat within a run of slots exactly when it has one in some slot of the run. |
| CrosslinkAmounts.TallyCommitteeListed | atc_chain/state/state_transition.py:560-568 | The committee loop lists on each side exactly the members at positions whose bit has that value. |
| CrosslinkAmounts.AddTallyListed | atc_chain/state/state_transition.py:539-546 | Adding a committee's tally adds its listed validators to that shard's side and changes no other shard's. |
| CrosslinkAmounts.TallyCommitteesListed | atc_chain/state/state_transition.py:538-568 | A slot's committee loop adds to each shard's side exactly the seats of that slot's committees for the shard. |
| CrosslinkAmounts.TallySlotListed | atc_chain/state/state_transition.py:533-568 | One slot of the first phase adds exactly its committees' seats. |
| CrosslinkAmounts.TallySlotsListed | atc_chain/state/state_transition.py:533-570 | The first phase keeps one tally per shard and lists on each side of each shard exactly the seats of the slots' committees for that shard. |
| CrosslinkAmounts.FindShardAt | atc_chain/state/state_transition.py:539-558 | With one entry per shard, the lookup of an entry's shard finds that entry, as the dict lookup by key does. |
| CrosslinkAmounts.CommitteeTallyDeposits | atc_chain/state/state_transition.py:560-570 | A committee's tally holds the committee's voted balance and its full balance. |
| CrosslinkAmounts.AddTallyDeposits | atc_chain/state/state_transition.py:539-570 | Adding a committee's tally adds its deposits to that shard's entry and leaves every other shard's deposits alone. |
| CrosslinkAmounts.TallyCommitteesDeposits | atc_chain/state/state_transition.py:538-570 | A slot's committee loop keeps one entry per shard and adds to each shard's entry exactly the deposits of that slot's committees for the shard. |
| CrosslinkAmounts.TallySlotsDeposits | atc_chain/state/state_transition.py:533-570 | The first phase keeps one entry per shard, and each shard's deposits are the sums over the slots of its committees' voted balances and balances. |
| CrosslinkAmounts.CycleTalliesDeposits | atc_chain/state/state_transition.py:533-587 | Each shard tally of the cycle has as `total_participated_v_deposits` the voted balance, and as `total_v_deposits` the balance, of that shard's committees summed over slots `max(lsr - cycleLength, 0) .. lsr - 1`. These are the two deposits the participant share divides. |
| CrosslinkAmounts.CycleTalliesListed | atc_chain/state/state_transition.py:533-570 | A validator is listed as a participant (absentee) of a shard exactly when some committee of that shard, in a slot from `max(lsr - cycleLength, 0)` to `lsr - 1`, holds it at a position whose bit is set (clear). |
| CrosslinkAmounts.CrosslinkRewardsUnseated | atc_chain/state/state_transition.py:517-593 | A validator in no committee of the cycle's slots gets no crosslink amount. |
| CrosslinkAmounts.ParticipantAmountBounds | atc_chain/state/state_transition.py:583-587 | A crosslink participant's share from a well-formed tally lies between minus and plus the base penalty. |
| CrosslinkAmounts.CycleParticipantAmountBounds | atc_chain/state/state_transition.py:532-587 | Every participant share of the cycle's own tallies lies between minus and plus the base penalty. |
| Helpers.ActiveIndexAt | atc_chain/state/state_transition.py:619-622 | A validator is in the active list exactly when it is active in the dynasty. |
| Helpers.IntSqrt | atc_chain/state/state_transition.py:446 | The integer square root: `r*r <= n < (r+1)*(r+1)`. |
| Helpers.GetRewardContext | atc_chain/state/state_transition.py:440-453 | Zero total deposits fail the assertion. Otherwise the reward quotient is zero exactly when the base quotient is zero or the total is below one ether, and the penalty quotient is the configured one. |
| Balances.RewardContextOf | atc_chain/state/state_transition.py:524-525 | The reward context fails exactly when the registry's total deposits are zero. |
| Balances.Clamp | atc_chain/state/state_transition.py:626-632 | The new balance is `max(0, balance + delta)`. |
| Balances.UpdateBalancesAt | atc_chain/state/state_transition.py:624-632 | With each index listed at most once, exactly the listed validators have their balance moved, each once. Nothing else changes. |
| Balances.ApplyRewardsAndPenalties | atc_chain/state/state_transition.py:598-634 | Zero total deposits raise `AssertionError`. Otherwise the registry keeps its size. |
| Balances.ApplyRewardsAndPenaltiesSpec | atc_chain/state/state_transition.py:598-634 | An active validator's balance becomes `max(0, old + ffg[i] + crosslink[i])`. An inactive validator is unchanged, and no other field of any validator changes. |
| Dynasty.SlotShardsSpec | atc_chain/state/state_transition.py:650-651 | The shards gathered from a slot are exactly its committees' shards. |
| Dynasty.RequiredShardsSpec | atc_chain/state/state_transition.py:647-651 | The required shards are exactly the shards of every committee in the schedule. |
| Dynasty.CrosslinkedSinceSpec | atc_chain/state/state_transition.py:653-657 | The crosslink loop passes exactly when every required shard with a record was crosslinked after the dynasty start. |
| Dynasty.ReadyForDynastyTransitionSpec | atc_chain/state/state_transition.py:637-659 | A transition is due exactly when the dynasty has lasted `minDynastyLength` slots, a slot after its start is finalized, and every scheduled shard with a record was crosslinked after the start. |
| Dynasty.ReplaceFrom | atc_chain/state/state_transition.py:676 | Python's `s[n:] = t`: the first `min(n, |s|)` entries are kept and `t` follows. |
| Dynasty.NextStartShard | atc_chain/state/state_transition.py:671-674 | The next start shard exists exactly when the schedule and its last slot are non-empty and there is a shard. It is then below the shard count. Otherwise the lookup raises `IndexError` or `ZeroDivisionError`. |
| Dynasty.ComputeDynastyTransition | atc_chain/state/state_transition.py:662-683 | The transition fails exactly when the next start shard does, and it keeps `lastStateRecalc`. |
| Dynasty.ComputeDynastyTransitionSpec | atc_chain/state/state_transition.py:662-683 | The dynasty goes up by one and starts at `lastStateRecalc`. The schedule keeps its first cycle, followed by the new dynasty's shuffling from the next start shard. Validators, finality fields, crosslinks and the seed are unchanged. |

## Left out

- The hashing, shuffling, committee and signature helpers (`get_proposer_position`, `get_signed_parent_hashes`, `get_attestation_indices`, `get_shards_and_committees_for_slot`, `get_new_recent_block_hashes`, `get_new_shuffling`, `bls`, `blake`) are fields of `Oracle`. Their bodies are not part of this model. The message hashed for the signature check is folded into `verifyAggregate`.
- `get_active_validator_indices`, `int_sqrt`, `total_deposits` and the bitfield utilities are not part of this model's source either. They are defined by their usual meaning: active means `startDynasty <= d < endDynasty`; total deposits are the summed balance of the active validators; bit `i` is the most significant-first bit `i % 8` of byte `i / 8`.
- Bitfields.HasVoted: a position past the end of the bitfield reads as unset, where the bitfield utility may raise `IndexError`.
- Bitfields.OrBitfields: bitfields of different lengths are ORed as if zero-extended. The utility's own rule is not part of this model.
- `get_reward_context` computes the quadratic penalty quotient as `(sqrt_e_drop_time / slot_duration) ** 2` in floating point and asserts that it is an integer. The model takes that integer from the configuration, so the float and its assertion are left out.
- Balances.ApplyRewardsAndPenalties computes the reward context once and passes it to both calculations. Both source functions call `get_reward_context` with the same total before anything else can raise, so the result is the same.
- `validate_block_pre_processing_conditions` always returns true, so the transition does not call it.
- `deepcopy` is left out: immutable values make the copies implicit.
- Where several errors could apply, the model reports the one the source raises first. The contracts state which errors are possible, and only some state which one comes first.
- StateTransition.CycleTransitions, StateTransition.ComputeStateTransition, StateTransition.ComputeStateTransitionSpec and StateTransition.CycleTransitionsMonotone require a positive cycle length, or a block slot before the last recalculation. With a zero cycle length and a later block the source's loop never advances, so it runs forever unless an iteration raises (for example the reward context's assertion on zero deposits, or an error from the crosslink update). That raise is not modelled. For ComputeStateTransition the precondition also excludes blocks that the source would reject in `process_block`, before reaching the loop.
- The oracle's `proposerPosition`, `signedParentHashes`, `newRecentBlockHashes` and `newShuffling` (`get_proposer_position`, `get_signed_parent_hashes`, `get_new_recent_block_hashes`, `get_new_shuffling`) return plain values and are assumed not to raise. In particular an error from `get_proposer_position`, which the source calls before it checks for an empty attestation list, is not modelled.
- CrosslinkAmounts.CycleTalliesListed states who is listed on which side of which shard's tally, not how many times. The number of listings is stated per committee (TallyCommitteeSucceeds) and per tally entry (ApplyTallyAt), not across the whole cycle.
- Rewards.ShareBounds assumes the voted deposits are at most the deposits. For the FFG loop nothing establishes this: the voted deposits come from the vote cache, recorded when the votes were cast, and the total is the current one. So an FFG share can exceed the base penalty: for example, a balance of 100, a reward quotient of 1, cached deposits of 3 and a total of 1 give a share of 500.
- StateTransition.FilterPendingCount states the pruned list by multiplicity. It does not state that the list keeps the source's order, although the definition does.
- The committee schedule's duplication in `initialize_new_cycle` (the slots after the first cycle, twice) is modelled as written. It is a placeholder in the source, and no property beyond its shape is proved.
- Every number is an unbounded integer, as in Python. Balances and slots are `nat`, and a subtraction that can go negative is computed in `int`.
- The tests under `tests/state/` exercise modules that are not part of this model and are not modelled.
