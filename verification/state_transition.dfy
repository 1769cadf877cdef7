/** The block-level state transition: processing a block against the active
    state (`process_block`, `fill_recent_block_hashes`), the cycle
    recalculation (`initialize_new_cycle`), the loop that runs as many cycle
    recalculations as the block's slot calls for (`compute_cycle_transitions`)
    and the whole transition (`compute_state_transition`).
 */
module StateTransition {
  import opened Results
  import opened BeaconTypes
  import opened Helpers
  import opened Validation
  import opened VoteCache
  import opened Justification
  import opened Crosslinks
  import opened Balances
  import opened Dynasty

  /** The pair of states the transition works on. */
  datatype BeaconState = BeaconState(crystallized: CrystallizedState, active: ActiveState)

  // ---------------------------------------------------------------------
  // Processing one block

  /** `fill_recent_block_hashes`: the window of recent block hashes is
      brought up to the block's slot by the hash helper; nothing else
      changes. */
  function FillRecentBlockHashes(active: ActiveState, parent: Block, block: Block, oracle: Oracle): (r: ActiveState)
    ensures r.recentBlockHashes ==
      oracle.newRecentBlockHashes(active.recentBlockHashes, parent.slotNumber, block.slotNumber, block.parentHash)
    ensures r.pendingAttestations == active.pendingAttestations
    ensures r.blockVoteCache == active.blockVoteCache && r.chain == active.chain
  {
    active.(recentBlockHashes := oracle.newRecentBlockHashes(active.recentBlockHashes, parent.slotNumber,
                                                            block.slotNumber, block.parentHash))
  }

  /** One iteration of the attestation loop of `process_block`: validate the
      attestation, then record its votes in the running cache. Both steps
      see the active state the block is processed against. */
  function ProcessAttestation(cs: CrystallizedState, active: ActiveState, a: Attestation, block: Block, parent: Block,
                              config: Config, oracle: Oracle, cache: BlockVoteCache): Result<BlockVoteCache> {
    match ValidateAttestation(cs, active, a, block, parent, config, oracle)
    case Fail(e) => Failure(e)
    case Pass => UpdatedBlockVoteCache(cs, active, a, block, cache, oracle)
  }

  /** The attestation loop over the first `n` attestations, in order, from
      the active state's cache. */
  function ProcessAttestations(cs: CrystallizedState, active: ActiveState, block: Block, parent: Block,
                               config: Config, oracle: Oracle, n: nat): Result<BlockVoteCache>
    requires n <= |block.attestations|
  {
    if n == 0 then Success(active.blockVoteCache)
    else
      var cache :- ProcessAttestations(cs, active, block, parent, config, oracle, n - 1);
      ProcessAttestation(cs, active, block.attestations[n - 1], block, parent, config, oracle, cache)
  }

  /** Every attestation of the block is valid. */
  predicate AttestationsValid(cs: CrystallizedState, active: ActiveState, block: Block, parent: Block,
                              config: Config, oracle: Oracle, n: nat)
    requires n <= |block.attestations|
  {
    forall k :: 0 <= k < n ==> ValidateAttestation(cs, active, block.attestations[k], block, parent, config, oracle).Pass?
  }

  /** One attestation is processed exactly when it is valid: validation
      already checks everything the cache update needs. */
  lemma ProcessAttestationSucceeds(cs: CrystallizedState, active: ActiveState, a: Attestation, block: Block, parent: Block,
                                   config: Config, oracle: Oracle, cache: BlockVoteCache)
    ensures ProcessAttestation(cs, active, a, block, parent, config, oracle, cache).Success? <==>
      ValidateAttestation(cs, active, a, block, parent, config, oracle).Pass?
  {
    if ValidateAttestation(cs, active, a, block, parent, config, oracle).Pass? {
      UpdateHashesSucceeds(cache, oracle.signedParentHashes(active, block, a), a.obliqueParentHashes,
                           cs.validators, oracle.attestationIndices(cs, a).value, a.attesterBitfield);
    }
  }

  /** The loop succeeds exactly when every attestation it visits is valid. */
  lemma {:induction false} ProcessAttestationsSucceed(cs: CrystallizedState, active: ActiveState, block: Block, parent: Block,
                                                      config: Config, oracle: Oracle, n: nat)
    requires n <= |block.attestations|
    ensures ProcessAttestations(cs, active, block, parent, config, oracle, n).Success? <==>
      AttestationsValid(cs, active, block, parent, config, oracle, n)
  {
    if n > 0 {
      ProcessAttestationsSucceed(cs, active, block, parent, config, oracle, n - 1);
      var r := ProcessAttestations(cs, active, block, parent, config, oracle, n - 1);
      if r.Success? {
        ProcessAttestationSucceeds(cs, active, block.attestations[n - 1], block, parent, config, oracle, r.value);
      }
      AttestationsValidStep(cs, active, block, parent, config, oracle, n);
    }
  }

  /** The first `n` attestations are valid exactly when the first `n - 1`
      and the `n`-th are. */
  lemma AttestationsValidStep(cs: CrystallizedState, active: ActiveState, block: Block, parent: Block,
                              config: Config, oracle: Oracle, n: nat)
    requires 0 < n <= |block.attestations|
    ensures AttestationsValid(cs, active, block, parent, config, oracle, n) <==>
      && AttestationsValid(cs, active, block, parent, config, oracle, n - 1)
      && ValidateAttestation(cs, active, block.attestations[n - 1], block, parent, config, oracle).Pass?
  {
    if !AttestationsValid(cs, active, block, parent, config, oracle, n - 1) {
      var k :| 0 <= k < n - 1 && !ValidateAttestation(cs, active, block.attestations[k], block, parent, config, oracle).Pass?;
      assert !AttestationsValid(cs, active, block, parent, config, oracle, n);
    }
  }

  /** The loop only adds: every hash keeps its entry or gains voters, and a
      cache whose totals match its voters' balances keeps that property. */
  lemma {:induction false} ProcessAttestationsGrow(cs: CrystallizedState, active: ActiveState, block: Block, parent: Block,
                                                   config: Config, oracle: Oracle, n: nat)
    requires n <= |block.attestations|
    requires ProcessAttestations(cs, active, block, parent, config, oracle, n).Success?
    ensures var r := ProcessAttestations(cs, active, block, parent, config, oracle, n).value;
      && active.blockVoteCache.Keys <= r.Keys
      && (forall h | h in active.blockVoteCache :: active.blockVoteCache[h].voterIndices <= r[h].voterIndices)
      && (Consistent(active.blockVoteCache, cs.validators) ==> Consistent(r, cs.validators))
  {
    if n > 0 {
      ProcessAttestationsGrow(cs, active, block, parent, config, oracle, n - 1);
      var cache := ProcessAttestations(cs, active, block, parent, config, oracle, n - 1).value;
      UpdatedBlockVoteCacheSpec(cs, active, block.attestations[n - 1], block, cache, oracle);
    }
  }

  /** `process_block`: the parent's proposer check, the attestation loop,
      then the new active state with the block's attestations pending and
      the block appended to the chain as its head. */
  function ProcessBlock(cs: CrystallizedState, active: ActiveState, block: Block, parent: Block,
                        config: Config, oracle: Oracle): (r: Result<ActiveState>)
    ensures r.Success? ==> r.value.recentBlockHashes == active.recentBlockHashes
  {
    match ValidateParentBlockProposer(block, parent, cs, oracle)
    case Fail(e) => Failure(e)
    case Pass =>
      var cache :- ProcessAttestations(cs, active, block, parent, config, oracle, |block.attestations|);
      Success(ActiveState(active.pendingAttestations + block.attestations, active.recentBlockHashes, cache,
                          Chain(Some(block), active.chain.blocks + [block])))
  }

  /** A block is accepted exactly when its parent's proposer attested to it
      (or it is the genesis slot) and every one of its attestations is valid.
      Then its attestations join the pending ones after them, it becomes the
      chain's head and last block, and the vote cache only grows, staying
      consistent with the registry balances if it was. */
  lemma ProcessBlockSpec(cs: CrystallizedState, active: ActiveState, block: Block, parent: Block,
                         config: Config, oracle: Oracle)
    ensures var r := ProcessBlock(cs, active, block, parent, config, oracle);
      r.Success? <==>
        ValidateParentBlockProposer(block, parent, cs, oracle).Pass? &&
        AttestationsValid(cs, active, block, parent, config, oracle, |block.attestations|)
    ensures var r := ProcessBlock(cs, active, block, parent, config, oracle);
      r.Success? ==>
        && r.value.pendingAttestations == active.pendingAttestations + block.attestations
        && r.value.chain.head == Some(block)
        && r.value.chain.blocks == active.chain.blocks + [block]
        && active.blockVoteCache.Keys <= r.value.blockVoteCache.Keys
        && (forall h | h in active.blockVoteCache ::
              active.blockVoteCache[h].voterIndices <= r.value.blockVoteCache[h].voterIndices)
        && (Consistent(active.blockVoteCache, cs.validators) ==> Consistent(r.value.blockVoteCache, cs.validators))
  {
    ProcessAttestationsSucceed(cs, active, block, parent, config, oracle, |block.attestations|);
    if ProcessBlock(cs, active, block, parent, config, oracle).Success? {
      ProcessAttestationsGrow(cs, active, block, parent, config, oracle, |block.attestations|);
    }
  }

  // ---------------------------------------------------------------------
  // The cycle recalculation

  /** The pending attestations of slot `lastStateRecalc` or later, in their
      order. */
  function FilterPending(pending: seq<Attestation>, lastStateRecalc: nat): (r: seq<Attestation>)
    ensures |r| <= |pending|
    decreases |pending|
  {
    if |pending| == 0 then []
    else if pending[0].slot >= lastStateRecalc then [pending[0]] + FilterPending(pending[1..], lastStateRecalc)
    else FilterPending(pending[1..], lastStateRecalc)
  }

  /** The filter keeps every attestation of a recent enough slot as often as
      it was pending, and drops every older one. */
  lemma {:induction false} FilterPendingCount(pending: seq<Attestation>, lastStateRecalc: nat, a: Attestation)
    ensures multiset(FilterPending(pending, lastStateRecalc))[a] ==
      if a.slot >= lastStateRecalc then multiset(pending)[a] else 0
    decreases |pending|
  {
    if |pending| > 0 {
      FilterPendingCount(pending[1..], lastStateRecalc, a);
      assert pending == [pending[0]] + pending[1..];
    }
  }

  /** Python's `s[n:]`: `s` without its first `n` entries (empty when it has
      no more than `n`). */
  function Drop<T>(s: seq<T>, n: nat): (r: seq<T>)
    ensures |r| == if n <= |s| then |s| - n else 0
    ensures forall k :: 0 <= k < |r| ==> r[k] == s[n + k]
  {
    if n <= |s| then s[n..] else []
  }

  /** `initialize_new_cycle`: the justification sweep over the last cycle,
      the crosslink update, the pending-attestation filter and the rewards,
      in that order, all read off the states as they were. The committee
      schedule loses its first cycle and the rest is repeated. */
  function InitializeNewCycle(cs: CrystallizedState, active: ActiveState, block: Block, config: Config,
                              oracle: Oracle): (r: Result<BeaconState>)
    ensures r.Success? ==> r.value.crystallized.lastStateRecalc == cs.lastStateRecalc + config.cycleLength
    ensures r.Success? ==>
      && SweepCycle(cs, active, config.cycleLength).Success?
      && FinalityOf(r.value.crystallized) == SweepCycle(cs, active, config.cycleLength).value
  {
    var finality :- SweepCycle(cs, active, config.cycleLength);
    var crosslinks :- ProcessUpdatedCrosslinks(cs, active, config, oracle);
    var pending := FilterPending(active.pendingAttestations, cs.lastStateRecalc);
    var validators :- ApplyRewardsAndPenalties(cs, active, block, config, oracle);
    var rest := Drop(cs.shardAndCommitteeForSlots, config.cycleLength);
    Success(BeaconState(
      CrystallizedState(validators, cs.lastStateRecalc + config.cycleLength, rest + rest,
                        finality.lastJustifiedSlot, finality.justifiedStreak, finality.lastFinalizedSlot,
                        cs.currentDynasty, crosslinks, cs.dynastySeed, cs.dynastyStart),
      ActiveState(pending, active.recentBlockHashes, active.blockVoteCache, active.chain)))
  }

  /** The recalculation fails exactly when one of its parts does: the sweep
      (fewer recent hashes than a cycle), the crosslink update, or the
      rewards. */
  lemma InitializeNewCycleSucceeds(cs: CrystallizedState, active: ActiveState, block: Block, config: Config, oracle: Oracle)
    ensures InitializeNewCycle(cs, active, block, config, oracle).Success? <==>
      && |active.recentBlockHashes| >= config.cycleLength
      && ProcessUpdatedCrosslinks(cs, active, config, oracle).Success?
      && ApplyRewardsAndPenalties(cs, active, block, config, oracle).Success?
  {
  }

  /** The rest of the recalculated state: the dynasty and its seed and start
      are kept; the crosslinks and validators are the updated ones; the
      schedule is what followed the first cycle, twice over; the pending
      attestations are exactly those of slot `lastStateRecalc` or later; the
      recent hashes, the vote cache and the chain are kept. */
  lemma InitializeNewCycleState(cs: CrystallizedState, active: ActiveState, block: Block, config: Config, oracle: Oracle)
    requires InitializeNewCycle(cs, active, block, config, oracle).Success?
    ensures var r := InitializeNewCycle(cs, active, block, config, oracle).value;
      var rest := Drop(cs.shardAndCommitteeForSlots, config.cycleLength);
      && r.crystallized.currentDynasty == cs.currentDynasty
      && r.crystallized.dynastySeed == cs.dynastySeed
      && r.crystallized.dynastyStart == cs.dynastyStart
      && r.crystallized.crosslinkRecords == ProcessUpdatedCrosslinks(cs, active, config, oracle).value
      && r.crystallized.validators == ApplyRewardsAndPenalties(cs, active, block, config, oracle).value
      && |r.crystallized.shardAndCommitteeForSlots| == 2 * |rest|
      && r.crystallized.shardAndCommitteeForSlots[..|rest|] == rest
      && r.crystallized.shardAndCommitteeForSlots[|rest|..] == rest
      && (forall a :: multiset(r.active.pendingAttestations)[a] ==
            if a.slot >= cs.lastStateRecalc then multiset(active.pendingAttestations)[a] else 0)
      && r.active.recentBlockHashes == active.recentBlockHashes
      && r.active.blockVoteCache == active.blockVoteCache
      && r.active.chain == active.chain
  {
    forall a {
      FilterPendingCount(active.pendingAttestations, cs.lastStateRecalc, a);
    }
  }

  // ---------------------------------------------------------------------
  // The cycle loop and the whole transition

  /** The dynasty transition of one loop iteration, when it is due. */
  function MaybeDynastyTransition(cs: CrystallizedState, block: Block, config: Config, oracle: Oracle): (r: Result<CrystallizedState>)
    ensures r.Success? ==> r.value.lastStateRecalc == cs.lastStateRecalc
  {
    if ReadyForDynastyTransition(cs, block, config) then ComputeDynastyTransition(cs, block, config, oracle)
    else Success(cs)
  }

  /** Where the last recalculation stands once a block at `slot` has been
      reached: whole cycles are added while the slot lies past the cycle
      after it. */
  function RecalcAfter(lastStateRecalc: nat, slot: nat, cycleLength: nat): nat
    requires cycleLength > 0 || slot < lastStateRecalc
    decreases slot - lastStateRecalc
  {
    if slot < lastStateRecalc + cycleLength then lastStateRecalc
    else RecalcAfter(lastStateRecalc + cycleLength, slot, cycleLength)
  }

  /** One more cycle: the recalculation point reached from `lastStateRecalc`
      is the one reached from `next`, a cycle later, when the slot lies
      past the cycle after `lastStateRecalc`. */
  lemma RecalcAfterStep(lastStateRecalc: nat, next: nat, slot: nat, cycleLength: nat)
    requires cycleLength > 0 && next == lastStateRecalc + cycleLength <= slot
    ensures RecalcAfter(lastStateRecalc, slot, cycleLength) == RecalcAfter(next, slot, cycleLength)
  {
  }

  /** One iteration of the loop of `compute_cycle_transitions`: a cycle
      recalculation, then the dynasty transition if it is due. */
  function CycleStep(cs: CrystallizedState, active: ActiveState, block: Block, config: Config,
                     oracle: Oracle): (r: Result<BeaconState>)
    ensures r.Success? ==> r.value.crystallized.lastStateRecalc == cs.lastStateRecalc + config.cycleLength
  {
    var s :- InitializeNewCycle(cs, active, block, config, oracle);
    var next :- MaybeDynastyTransition(s.crystallized, block, config, oracle);
    Success(BeaconState(next, s.active))
  }

  /** `compute_cycle_transitions`: recalculate cycles, each possibly followed
      by a dynasty transition, until the block's slot lies within the cycle
      after the last recalculation. With a zero cycle length and a block at
      or after the last recalculation the source's loop never advances and
      runs forever unless an iteration raises; that case is excluded. */
  function CycleTransitions(cs: CrystallizedState, active: ActiveState, block: Block, config: Config,
                            oracle: Oracle): (r: Result<BeaconState>)
    requires config.cycleLength > 0 || block.slotNumber < cs.lastStateRecalc
    ensures r.Success? ==>
      r.value.crystallized.lastStateRecalc == RecalcAfter(cs.lastStateRecalc, block.slotNumber, config.cycleLength)
    decreases block.slotNumber - cs.lastStateRecalc
  {
    if block.slotNumber < cs.lastStateRecalc + config.cycleLength then Success(BeaconState(cs, active))
    else
      var step := CycleStep(cs, active, block, config, oracle);
      if step.Failure? then Failure(step.error)
      else
        var next := step.value;
        RecalcAfterStep(cs.lastStateRecalc, next.crystallized.lastStateRecalc, block.slotNumber, config.cycleLength);
        CycleTransitions(next.crystallized, next.active, block, config, oracle)
  }

  /** The number of whole cycles from `lastStateRecalc` that the slot has
      passed, counted one at a time. */
  function CyclesDue(lastStateRecalc: nat, slot: nat, cycleLength: nat): nat
    requires cycleLength > 0 || slot < lastStateRecalc
    decreases slot - lastStateRecalc
  {
    if slot < lastStateRecalc + cycleLength then 0 else 1 + CyclesDue(lastStateRecalc + cycleLength, slot, cycleLength)
  }

  /** The recalculation point reached from `lastStateRecalc` is that many
      whole cycles later, and the slot lies in the cycle after it (or, when
      no cycle was due, before it). */
  lemma {:induction false} RecalcAfterSpec(lastStateRecalc: nat, slot: nat, cycleLength: nat)
    requires cycleLength > 0 || slot < lastStateRecalc
    ensures RecalcAfter(lastStateRecalc, slot, cycleLength) ==
      lastStateRecalc + CyclesDue(lastStateRecalc, slot, cycleLength) * cycleLength
    ensures slot < RecalcAfter(lastStateRecalc, slot, cycleLength) + cycleLength
    ensures RecalcAfter(lastStateRecalc, slot, cycleLength) == lastStateRecalc ||
      RecalcAfter(lastStateRecalc, slot, cycleLength) <= slot
    decreases slot - lastStateRecalc
  {
    if slot >= lastStateRecalc + cycleLength {
      var next := lastStateRecalc + cycleLength;
      RecalcAfterSpec(next, slot, cycleLength);
      var q := CyclesDue(next, slot, cycleLength);
      assert (1 + q) * cycleLength == cycleLength + q * cycleLength;
    }
  }

  /** One iteration keeps the last justified and last finalized slots, the
      dynasty, the chain and the vote cache or moves them forward, and keeps
      only pending attestations of the cycle before the new recalculation
      point. */
  lemma CycleStepSpec(cs: CrystallizedState, active: ActiveState, block: Block, config: Config, oracle: Oracle)
    requires CycleStep(cs, active, block, config, oracle).Success?
    ensures var r := CycleStep(cs, active, block, config, oracle).value;
      && r.crystallized.lastJustifiedSlot >= cs.lastJustifiedSlot
      && r.crystallized.lastFinalizedSlot >= cs.lastFinalizedSlot
      && r.crystallized.currentDynasty >= cs.currentDynasty
      && r.active.chain == active.chain
      && r.active.blockVoteCache == active.blockVoteCache
      && (forall a :: multiset(r.active.pendingAttestations)[a] <= multiset(active.pendingAttestations)[a])
      && (forall a | a in r.active.pendingAttestations :: a.slot + config.cycleLength >= r.crystallized.lastStateRecalc)
  {
    var s := InitializeNewCycle(cs, active, block, config, oracle).value;
    SweepCycleSpec(cs, active, config.cycleLength);
    InitializeNewCycleState(cs, active, block, config, oracle);
    if ReadyForDynastyTransition(s.crystallized, block, config) {
      ComputeDynastyTransitionSpec(s.crystallized, block, config, oracle);
    }
    var r := CycleStep(cs, active, block, config, oracle).value;
    forall a | a in r.active.pendingAttestations
      ensures a.slot + config.cycleLength >= r.crystallized.lastStateRecalc
    {
      assert multiset(s.active.pendingAttestations)[a] > 0;
    }
  }

  /** Through the loop the last justified and last finalized slots and the
      dynasty never decrease, the chain and the vote cache are kept, and
      every attestation still pending was pending before; once a cycle has
      been recalculated, none is older than the cycle before the last
      recalculation. */
  lemma {:induction false} CycleTransitionsMonotone(cs: CrystallizedState, active: ActiveState, block: Block, config: Config,
                                                    oracle: Oracle)
    requires config.cycleLength > 0 || block.slotNumber < cs.lastStateRecalc
    requires CycleTransitions(cs, active, block, config, oracle).Success?
    ensures var r := CycleTransitions(cs, active, block, config, oracle).value;
      && r.crystallized.lastJustifiedSlot >= cs.lastJustifiedSlot
      && r.crystallized.lastFinalizedSlot >= cs.lastFinalizedSlot
      && r.crystallized.currentDynasty >= cs.currentDynasty
      && r.active.chain == active.chain
      && r.active.blockVoteCache == active.blockVoteCache
      && (forall a :: multiset(r.active.pendingAttestations)[a] <= multiset(active.pendingAttestations)[a])
      && (r.crystallized.lastStateRecalc != cs.lastStateRecalc ==>
            forall a | a in r.active.pendingAttestations :: a.slot + config.cycleLength >= r.crystallized.lastStateRecalc)
    decreases block.slotNumber - cs.lastStateRecalc
  {
    if block.slotNumber >= cs.lastStateRecalc + config.cycleLength {
      var next := CycleStep(cs, active, block, config, oracle).value;
      CycleStepSpec(cs, active, block, config, oracle);
      CycleTransitionsMonotone(next.crystallized, next.active, block, config, oracle);
      var r := CycleTransitions(cs, active, block, config, oracle).value;
      assert r == CycleTransitions(next.crystallized, next.active, block, config, oracle).value;
      forall a | a in r.active.pendingAttestations && r.crystallized.lastStateRecalc != cs.lastStateRecalc
        ensures a.slot + config.cycleLength >= r.crystallized.lastStateRecalc
      {
        if r.crystallized.lastStateRecalc == next.crystallized.lastStateRecalc {
          assert multiset(r.active.pendingAttestations)[a] > 0;
        }
      }
    }
  }

  /** `compute_state_transition` after the pre-processing checks: fill the
      recent block hashes, process the block against the crystallized state
      it was built on, then run the cycle loop. */
  function ComputeStateTransition(cs: CrystallizedState, active: ActiveState, parent: Block, block: Block,
                                  config: Config, oracle: Oracle): (r: Result<BeaconState>)
    requires config.cycleLength > 0 || block.slotNumber < cs.lastStateRecalc
    ensures r.Success? ==> block.slotNumber < r.value.crystallized.lastStateRecalc + config.cycleLength
  {
    RecalcAfterSpec(cs.lastStateRecalc, block.slotNumber, config.cycleLength);
    var filled := FillRecentBlockHashes(active, parent, block, oracle);
    var processed :- ProcessBlock(cs, filled, block, parent, config, oracle);
    CycleTransitions(cs, processed, block, config, oracle)
  }

  /** A transition succeeds only for a block whose proposer check and
      attestations are valid against the filled active state; afterwards
      the block is the chain's head and last block, the last justified and
      finalized slots have not decreased, the block's slot lies in the cycle
      after the last recalculation, and every pending attestation was
      pending before or came with the block. */
  lemma ComputeStateTransitionSpec(cs: CrystallizedState, active: ActiveState, parent: Block, block: Block,
                                   config: Config, oracle: Oracle)
    requires config.cycleLength > 0 || block.slotNumber < cs.lastStateRecalc
    requires ComputeStateTransition(cs, active, parent, block, config, oracle).Success?
    ensures var filled := FillRecentBlockHashes(active, parent, block, oracle);
      && ValidateParentBlockProposer(block, parent, cs, oracle).Pass?
      && AttestationsValid(cs, filled, block, parent, config, oracle, |block.attestations|)
    ensures var r := ComputeStateTransition(cs, active, parent, block, config, oracle).value;
      && r.active.chain.head == Some(block)
      && r.active.chain.blocks == active.chain.blocks + [block]
      && r.crystallized.lastJustifiedSlot >= cs.lastJustifiedSlot
      && r.crystallized.lastFinalizedSlot >= cs.lastFinalizedSlot
      && (forall a :: multiset(r.active.pendingAttestations)[a] <=
            multiset(active.pendingAttestations + block.attestations)[a])
  {
    var filled := FillRecentBlockHashes(active, parent, block, oracle);
    ProcessBlockSpec(cs, filled, block, parent, config, oracle);
    var processed := ProcessBlock(cs, filled, block, parent, config, oracle).value;
    CycleTransitionsMonotone(cs, processed, block, config, oracle);
  }
}
