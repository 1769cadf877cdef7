/** Block and attestation validity checks (`validate_parent_block_proposer`
    and `validate_attestation`).
 */
module Validation {
  import opened Results
  import opened Bitfields
  import opened BeaconTypes
  import opened Helpers

  /** The earliest slot an attestation in a child of `parent` may attest to:
      one cycle back from the parent, but never before slot 0. */
  function LowestAttestableSlot(parent: Block, cycleLength: nat): int {
    Max(parent.slotNumber - cycleLength + 1, 0)
  }

  /** The slot window of a child of `parent`. */
  predicate InSlotWindow(a: Attestation, parent: Block, cycleLength: nat) {
    LowestAttestableSlot(parent, cycleLength) <= a.slot <= parent.slotNumber
  }

  /** `a` carries the vote of the committee member at `position` of `shard`
      for the slot of `parent`. */
  predicate IsProposerAttestation(a: Attestation, parent: Block, position: nat, shard: nat) {
    a.shardId == shard && a.slot == parent.slotNumber && HasVoted(a.attesterBitfield, position)
  }

  /** Every block after genesis must open with an attestation that includes
      the vote of its parent's proposer. */
  function ValidateParentBlockProposer(block: Block, parent: Block, cs: CrystallizedState, oracle: Oracle): (r: Outcome)
    ensures block.slotNumber == 0 ==> r.Pass?
    ensures block.slotNumber > 0 && |block.attestations| == 0 ==> r == Fail(Rejected(EmptyAttestations))
    ensures r.Pass? && block.slotNumber > 0 ==>
      && |block.attestations| > 0
      && var (position, shard) := oracle.proposerPosition(parent, cs);
         IsProposerAttestation(block.attestations[0], parent, position, shard)
    ensures (&& block.slotNumber > 0
             && |block.attestations| > 0
             && var (position, shard) := oracle.proposerPosition(parent, cs);
                IsProposerAttestation(block.attestations[0], parent, position, shard)) ==> r.Pass?
    ensures r.Fail? ==> r.error.Rejected? && r.error.reason in {EmptyAttestations, NotProposerAttestation}
  {
    if block.slotNumber == 0 then Pass
    else
      var (position, shard) := oracle.proposerPosition(parent, cs);
      if |block.attestations| == 0 then Fail(Rejected(EmptyAttestations))
      else if IsProposerAttestation(block.attestations[0], parent, position, shard) then Pass
      else Fail(Rejected(NotProposerAttestation))
  }

  /** The number of padding bits after a committee of `n` in its last byte. */
  function PaddingBits(n: nat): nat {
    if n % 8 == 0 then 0 else 8 - n % 8
  }

  /** Whether one of the padding bits `n + i`, `i < PaddingBits(n)`, is set
      (the loop of the source). */
  predicate PaddingBitSet(bitfield: Bitfield, n: nat) {
    exists p: nat :: n <= p < n + PaddingBits(n) && HasVoted(bitfield, p)
  }

  /** For a bitfield of the right length, checking the padding bits of the
      last byte is the same as checking that no bit past the committee is
      set. */
  lemma PaddingCheckIsTrailingCheck(bitfield: Bitfield, n: nat)
    requires |bitfield| == BitfieldLength(n)
    ensures !PaddingBitSet(bitfield, n) <==> TrailingBitsZero(bitfield, n)
  {
    assert 8 * |bitfield| == n + PaddingBits(n);
  }

  /** The public keys of the committee members (from position `from` on)
      whose bit is set; a voter outside the registry raises `IndexError`. */
  function VoterPubKeys(validators: seq<Validator>, indices: seq<nat>, bitfield: Bitfield, from: nat): (r: Result<seq<PubKey>>)
    ensures r.Success? <==> forall k :: from <= k < |indices| && HasVoted(bitfield, k) ==> indices[k] < |validators|
    decreases |indices| - from
  {
    if from >= |indices| then Success([])
    else if !HasVoted(bitfield, from) then VoterPubKeys(validators, indices, bitfield, from + 1)
    else if indices[from] >= |validators| then Failure(Raised(IndexError))
    else
      var rest :- VoterPubKeys(validators, indices, bitfield, from + 1);
      Success([validators[indices[from]].pubkey] + rest)
  }

  /** Every attestation included in a block must attest to a slot of the last
      cycle before the parent, build on an already justified block, carry a
      bitfield sized to its committee with no bit set past the committee, and
      carry a valid aggregate signature. */
  function ValidateAttestation(cs: CrystallizedState, active: ActiveState, a: Attestation, block: Block,
                               parent: Block, config: Config, oracle: Oracle): (r: Outcome)
    ensures a.slot > parent.slotNumber ==> r == Fail(Rejected(SlotTooHigh))
    ensures a.slot <= parent.slotNumber && a.slot < LowestAttestableSlot(parent, config.cycleLength) ==>
      r == Fail(Rejected(SlotTooLow))
    ensures InSlotWindow(a, parent, config.cycleLength) && a.justifiedSlot > cs.lastJustifiedSlot ==>
      r == Fail(Rejected(JustifiedSlotTooHigh))
    ensures r.Pass? ==>
      && InSlotWindow(a, parent, config.cycleLength)
      && a.justifiedSlot <= cs.lastJustifiedSlot
      && (exists k :: 0 <= k < |active.chain.blocks| && active.chain.blocks[k].hash == a.justifiedBlockHash)
      && BlockByHash(active.chain.blocks, a.justifiedBlockHash).value.slotNumber == a.justifiedSlot
      && oracle.attestationIndices(cs, a).Some?
      && var committee := oracle.attestationIndices(cs, a).value;
         && |a.attesterBitfield| == BitfieldLength(|committee|)
         && TrailingBitsZero(a.attesterBitfield, |committee|)
         && VoterPubKeys(cs.validators, committee, a.attesterBitfield, 0).Success?
         && (forall k :: 0 <= k < |committee| && HasVoted(a.attesterBitfield, k) ==> committee[k] < |cs.validators|)
         && oracle.verifyAggregate(VoterPubKeys(cs.validators, committee, a.attesterBitfield, 0).value,
                                   oracle.signedParentHashes(active, block, a), a)
    ensures (&& InSlotWindow(a, parent, config.cycleLength)
             && a.justifiedSlot <= cs.lastJustifiedSlot
             && BlockByHash(active.chain.blocks, a.justifiedBlockHash).Some?
             && BlockByHash(active.chain.blocks, a.justifiedBlockHash).value.slotNumber == a.justifiedSlot
             && oracle.attestationIndices(cs, a).Some?
             && var committee := oracle.attestationIndices(cs, a).value;
                && |a.attesterBitfield| == BitfieldLength(|committee|)
                && TrailingBitsZero(a.attesterBitfield, |committee|)
                && (forall k :: 0 <= k < |committee| && HasVoted(a.attesterBitfield, k) ==> committee[k] < |cs.validators|)
                && oracle.verifyAggregate(VoterPubKeys(cs.validators, committee, a.attesterBitfield, 0).value,
                                          oracle.signedParentHashes(active, block, a), a)) ==> r.Pass?
  {
    if !(a.slot <= parent.slotNumber) then Fail(Rejected(SlotTooHigh))
    else if !(a.slot >= LowestAttestableSlot(parent, config.cycleLength)) then Fail(Rejected(SlotTooLow))
    else if a.justifiedSlot > cs.lastJustifiedSlot then Fail(Rejected(JustifiedSlotTooHigh))
    else match BlockByHash(active.chain.blocks, a.justifiedBlockHash)
      case None => Fail(Rejected(UnknownJustifiedBlock))
      case Some(justified) =>
        if justified.slotNumber != a.justifiedSlot then Fail(Rejected(JustifiedSlotMismatch))
        else
          var parentHashes := oracle.signedParentHashes(active, block, a);
          match oracle.attestationIndices(cs, a)
          case None => Fail(Raised(HelperError))
          case Some(committee) =>
            if |a.attesterBitfield| != BitfieldLength(|committee|) then Fail(Rejected(BitfieldLengthMismatch))
            else if PaddingBitSet(a.attesterBitfield, |committee|) then Fail(Rejected(NonZeroTrailingBits))
            else
              PaddingCheckIsTrailingCheck(a.attesterBitfield, |committee|);
              match VoterPubKeys(cs.validators, committee, a.attesterBitfield, 0)
              case Failure(e) => Fail(e)
              case Success(keys) =>
                if oracle.verifyAggregate(keys, parentHashes, a) then Pass
                else Fail(Rejected(BadAggregateSignature))
  }
}
