/** Dynasty changes (`ready_for_dynasty_transition`,
    `compute_dynasty_transition`).

    A new dynasty may start once the current one has lasted
    `minDynastyLength` slots, something has been finalized since it started,
    and every shard that appears in the committee schedule has been
    crosslinked since it started. The transition bumps the dynasty, records
    where it started, and replaces the schedule after the first cycle with a
    new shuffling that starts at the shard after the schedule's last one.
 */
module Dynasty {
  import opened Results
  import opened BeaconTypes
  import opened Helpers

  /** Some committee of the schedule serves shard `s`. */
  predicate Scheduled(schedule: seq<seq<ShardAndCommittee>>, s: nat) {
    exists j, k :: 0 <= j < |schedule| && 0 <= k < |schedule[j]| && schedule[j][k].shardId == s
  }

  /** The shards of one slot's committees, from position `from` on. */
  function SlotShards(committees: seq<ShardAndCommittee>, from: nat): set<nat>
    decreases |committees| - from
  {
    if from >= |committees| then {} else {committees[from].shardId} + SlotShards(committees, from + 1)
  }

  /** The shards of the schedule from slot `from` on: the nested loop that
      gathers `required_shards`. */
  function RequiredShards(schedule: seq<seq<ShardAndCommittee>>, from: nat): set<nat>
    decreases |schedule| - from
  {
    if from >= |schedule| then {} else SlotShards(schedule[from], 0) + RequiredShards(schedule, from + 1)
  }

  lemma {:induction false} SlotShardsSpec(committees: seq<ShardAndCommittee>, from: nat, s: nat)
    ensures s in SlotShards(committees, from) <==> exists k :: from <= k < |committees| && committees[k].shardId == s
    decreases |committees| - from
  {
    if from < |committees| {
      SlotShardsSpec(committees, from + 1, s);
    }
  }

  /** The gathered shards are exactly the scheduled ones. */
  lemma {:induction false} RequiredShardsSpec(schedule: seq<seq<ShardAndCommittee>>, from: nat, s: nat)
    ensures s in RequiredShards(schedule, from) <==>
      exists j, k :: from <= j < |schedule| && 0 <= k < |schedule[j]| && schedule[j][k].shardId == s
    decreases |schedule| - from
  {
    if from < |schedule| {
      RequiredShardsSpec(schedule, from + 1, s);
      SlotShardsSpec(schedule[from], 0, s);
      if exists j, k :: from <= j < |schedule| && 0 <= k < |schedule[j]| && schedule[j][k].shardId == s {
        var j, k :| from <= j < |schedule| && 0 <= k < |schedule[j]| && schedule[j][k].shardId == s;
        if j == from {
          assert s in SlotShards(schedule[from], 0);
        }
      }
    }
  }

  /** The loop over the crosslink records from shard `from` on: false at the
      first required shard whose crosslink is not after `start`. */
  function CrosslinkedSince(records: seq<CrosslinkRecord>, required: set<nat>, start: nat, from: nat): bool
    decreases |records| - from
  {
    if from >= |records| then true
    else if from in required && records[from].slot <= start then false
    else CrosslinkedSince(records, required, start, from + 1)
  }

  lemma {:induction false} CrosslinkedSinceSpec(records: seq<CrosslinkRecord>, required: set<nat>, start: nat, from: nat)
    ensures CrosslinkedSince(records, required, start, from) <==>
      forall s :: from <= s < |records| && s in required ==> records[s].slot > start
    decreases |records| - from
  {
    if from < |records| {
      CrosslinkedSinceSpec(records, required, start, from + 1);
    }
  }

  /** `ready_for_dynasty_transition`, in the order of its checks. */
  predicate ReadyForDynastyTransition(cs: CrystallizedState, block: Block, config: Config) {
    if block.slotNumber - cs.dynastyStart < config.minDynastyLength then false
    else if cs.lastFinalizedSlot <= cs.dynastyStart then false
    else CrosslinkedSince(cs.crosslinkRecords, RequiredShards(cs.shardAndCommitteeForSlots, 0), cs.dynastyStart, 0)
  }

  /** A dynasty transition is due exactly when the dynasty is old enough,
      a slot after its start has been finalized, and every scheduled shard
      that has a crosslink record was crosslinked after the start. */
  lemma ReadyForDynastyTransitionSpec(cs: CrystallizedState, block: Block, config: Config)
    ensures ReadyForDynastyTransition(cs, block, config) <==>
      && block.slotNumber - cs.dynastyStart >= config.minDynastyLength
      && cs.lastFinalizedSlot > cs.dynastyStart
      && forall s :: 0 <= s < |cs.crosslinkRecords| && Scheduled(cs.shardAndCommitteeForSlots, s) ==>
           cs.crosslinkRecords[s].slot > cs.dynastyStart
  {
    var required := RequiredShards(cs.shardAndCommitteeForSlots, 0);
    CrosslinkedSinceSpec(cs.crosslinkRecords, required, cs.dynastyStart, 0);
    forall s
      ensures s in required <==> Scheduled(cs.shardAndCommitteeForSlots, s)
    {
      RequiredShardsSpec(cs.shardAndCommitteeForSlots, 0, s);
    }
  }

  /** Python's slice assignment `s[n:] = t`: keep the first `n` entries (all
      of them when there are fewer) and put `t` after them. */
  function ReplaceFrom<T>(s: seq<T>, n: nat, t: seq<T>): (r: seq<T>)
    ensures |r| == (if n <= |s| then n else |s|) + |t|
    ensures forall k :: 0 <= k < |r| ==> r[k] == if k < n && k < |s| then s[k] else t[k - (if n <= |s| then n else |s|)]
  {
    if n <= |s| then s[..n] + t else s + t
  }

  /** The first shard of the new shuffling: the one after the schedule's
      last committee, modulo the shard count. The source raises
      `IndexError` on an empty schedule or last slot and
      `ZeroDivisionError` for zero shards. */
  function NextStartShard(schedule: seq<seq<ShardAndCommittee>>, shardCount: nat): (r: Result<nat>)
    ensures r.Success? <==> |schedule| > 0 && |schedule[|schedule| - 1]| > 0 && shardCount > 0
    ensures r.Failure? ==> r.error == Raised(IndexError) || r.error == Raised(ZeroDivisionError)
    ensures r.Success? ==> r.value < shardCount
  {
    if |schedule| == 0 then Failure(Raised(IndexError))
    else
      var last := schedule[|schedule| - 1];
      if |last| == 0 then Failure(Raised(IndexError))
      else if shardCount == 0 then Failure(Raised(ZeroDivisionError))
      else Success((last[|last| - 1].shardId + 1) % shardCount)
  }

  /** `compute_dynasty_transition`. */
  function ComputeDynastyTransition(cs: CrystallizedState, block: Block, config: Config, oracle: Oracle): (r: Result<CrystallizedState>)
    ensures r.Success? <==> NextStartShard(cs.shardAndCommitteeForSlots, config.shardCount).Success?
    ensures r.Success? ==> r.value.lastStateRecalc == cs.lastStateRecalc
  {
    var next :- NextStartShard(cs.shardAndCommitteeForSlots, config.shardCount);
    var dynasty := cs.currentDynasty + 1;
    var shuffling := oracle.newShuffling(block.parentHash, cs.validators, dynasty, next);
    Success(cs.(currentDynasty := dynasty,
                dynastyStart := cs.lastStateRecalc,
                shardAndCommitteeForSlots := ReplaceFrom(cs.shardAndCommitteeForSlots, config.cycleLength, shuffling)))
  }

  /** The transition starts the next dynasty at the last state
      recalculation, keeps the first cycle of the schedule and appends the
      new dynasty's shuffling (from the shard after the schedule's last),
      and changes nothing else: not the validators, the finality fields, the
      crosslinks or the dynasty seed. */
  lemma ComputeDynastyTransitionSpec(cs: CrystallizedState, block: Block, config: Config, oracle: Oracle)
    requires ComputeDynastyTransition(cs, block, config, oracle).Success?
    ensures var r := ComputeDynastyTransition(cs, block, config, oracle).value;
      var old_ := cs.shardAndCommitteeForSlots;
      var kept := if config.cycleLength <= |old_| then config.cycleLength else |old_|;
      var next := NextStartShard(old_, config.shardCount).value;
      && r.currentDynasty == cs.currentDynasty + 1
      && r.dynastyStart == cs.lastStateRecalc
      && r.shardAndCommitteeForSlots[..kept] == old_[..kept]
      && r.shardAndCommitteeForSlots[kept..] == oracle.newShuffling(block.parentHash, cs.validators, cs.currentDynasty + 1, next)
      && r.validators == cs.validators
      && r.lastStateRecalc == cs.lastStateRecalc
      && r.lastJustifiedSlot == cs.lastJustifiedSlot
      && r.justifiedStreak == cs.justifiedStreak
      && r.lastFinalizedSlot == cs.lastFinalizedSlot
      && r.crosslinkRecords == cs.crosslinkRecords
      && r.dynastySeed == cs.dynastySeed
  {
    var r := ComputeDynastyTransition(cs, block, config, oracle).value;
    var old_ := cs.shardAndCommitteeForSlots;
    var kept := if config.cycleLength <= |old_| then config.cycleLength else |old_|;
    var next := NextStartShard(old_, config.shardCount).value;
    var shuffling := oracle.newShuffling(block.parentHash, cs.validators, cs.currentDynasty + 1, next);
    assert r.shardAndCommitteeForSlots == ReplaceFrom(old_, config.cycleLength, shuffling);
    assert r.shardAndCommitteeForSlots[kept..] == shuffling;
  }
}
