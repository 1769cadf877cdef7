/** The records the state transition reads and writes: validators, committee
    assignments, crosslinks, attestations, blocks, the chain of processed
    blocks, the per-block vote cache, and the two halves of the beacon state
    (the crystallized state, recomputed once per cycle, and the active state,
    updated with every block).
 */
module BeaconTypes {
  import opened Results
  import opened Bitfields

  /** A 32-byte digest; the digest function itself is not modelled. */
  type Hash = seq<bv8>

  type PubKey = nat

  /** A validator is active in every dynasty `d` with
      `startDynasty <= d < endDynasty`. */
  datatype Validator = Validator(
    pubkey: PubKey,
    balance: nat,
    startDynasty: nat,
    endDynasty: nat)

  datatype ShardAndCommittee = ShardAndCommittee(shardId: nat, committee: seq<nat>)

  datatype CrosslinkRecord = CrosslinkRecord(dynasty: nat, slot: nat, hash: Hash)

  datatype Attestation = Attestation(
    slot: nat,
    shardId: nat,
    obliqueParentHashes: seq<Hash>,
    shardBlockHash: Hash,
    attesterBitfield: Bitfield,
    justifiedSlot: nat,
    justifiedBlockHash: Hash)

  /** A block; `hash` is its (opaque) content digest. */
  datatype Block = Block(
    hash: Hash,
    parentHash: Hash,
    slotNumber: nat,
    attestations: seq<Attestation>)

  /** The blocks processed so far, with the latest as head. */
  datatype Chain = Chain(head: Option<Block>, blocks: seq<Block>)

  /** The distinct validators that voted for one block, with their summed
      balance. */
  datatype VoteRecord = VoteRecord(voterIndices: set<nat>, totalVoterDeposits: nat)

  const EmptyVoteRecord := VoteRecord({}, 0)

  type BlockVoteCache = map<Hash, VoteRecord>

  datatype CrystallizedState = CrystallizedState(
    validators: seq<Validator>,
    lastStateRecalc: nat,
    shardAndCommitteeForSlots: seq<seq<ShardAndCommittee>>,
    lastJustifiedSlot: nat,
    justifiedStreak: nat,
    lastFinalizedSlot: nat,
    currentDynasty: nat,
    crosslinkRecords: seq<CrosslinkRecord>,
    dynastySeed: Hash,
    dynastyStart: nat)

  datatype ActiveState = ActiveState(
    pendingAttestations: seq<Attestation>,
    recentBlockHashes: seq<Hash>,
    blockVoteCache: BlockVoteCache,
    chain: Chain)

  /** The configuration entries the state transition reads.
      `quadraticPenaltyQuotient` is the already-squared integer quotient. */
  datatype Config = Config(
    cycleLength: nat,
    shardCount: nat,
    minDynastyLength: nat,
    baseRewardQuotient: nat,
    quadraticPenaltyQuotient: nat)

  /** The first block of `blocks` with hash `h`, if any. */
  function BlockByHash(blocks: seq<Block>, h: Hash): (r: Option<Block>)
    ensures r.Some? <==> exists k :: 0 <= k < |blocks| && blocks[k].hash == h
    ensures r.Some? ==> r.value in blocks && r.value.hash == h
  {
    if |blocks| == 0 then None
    else if blocks[0].hash == h then Some(blocks[0])
    else
      var r := BlockByHash(blocks[1..], h);
      assert (exists k :: 0 <= k < |blocks| && blocks[k].hash == h)
        <==> (exists k :: 0 <= k < |blocks[1..]| && blocks[1..][k].hash == h) by {
        if exists k :: 0 <= k < |blocks| && blocks[k].hash == h {
          var k :| 0 <= k < |blocks| && blocks[k].hash == h;
          assert blocks[1..][k - 1] == blocks[k];
        }
      }
      r
  }

  /** The first block of `blocks` at slot `slot`, if any. */
  function BlockBySlot(blocks: seq<Block>, slot: nat): (r: Option<Block>)
    ensures r.Some? <==> exists k :: 0 <= k < |blocks| && blocks[k].slotNumber == slot
    ensures r.Some? ==> r.value in blocks && r.value.slotNumber == slot
  {
    if |blocks| == 0 then None
    else if blocks[0].slotNumber == slot then Some(blocks[0])
    else
      var r := BlockBySlot(blocks[1..], slot);
      assert (exists k :: 0 <= k < |blocks| && blocks[k].slotNumber == slot)
        <==> (exists k :: 0 <= k < |blocks[1..]| && blocks[1..][k].slotNumber == slot) by {
        if exists k :: 0 <= k < |blocks| && blocks[k].slotNumber == slot {
          var k :| 0 <= k < |blocks| && blocks[k].slotNumber == slot;
          assert blocks[1..][k - 1] == blocks[k];
        }
      }
      r
  }

  /** Every index in `indices` names a validator of a registry of size `n`. */
  predicate AllBelow(indices: seq<nat>, n: nat) {
    forall k :: 0 <= k < |indices| ==> indices[k] < n
  }

  /** The summed balance of the validators listed in `indices` (with
      repetition). */
  function BalanceSum(validators: seq<Validator>, indices: seq<nat>): nat
    requires AllBelow(indices, |validators|)
  {
    if |indices| == 0 then 0
    else validators[indices[0]].balance + BalanceSum(validators, indices[1..])
  }

  /** The summed balance of the committee members (at positions `k` of
      `indices`) whose bit is set in `bitfield`. */
  function VotedBalanceSum(validators: seq<Validator>, indices: seq<nat>, bitfield: Bitfield, from: nat): nat
    requires AllBelow(indices, |validators|)
    decreases |indices| - from
  {
    if from >= |indices| then 0
    else
      var own := if HasVoted(bitfield, from) then validators[indices[from]].balance else 0;
      own + VotedBalanceSum(validators, indices, bitfield, from + 1)
  }
}
