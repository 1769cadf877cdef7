/** The crosslink rewards of a new cycle (`calculate_crosslink_rewards`).

    The calculation has two phases. The first walks the slots of the cycle
    before `lastStateRecalc` and, for every shard committee of every slot,
    splits the committee into the members whose bit is set in the OR of the
    pending attestations for that slot and shard and the rest; it keeps one
    tally per shard, in the order the shards were first met. The second
    walks the tallies: a shard whose crosslink was already made in the
    current dynasty is skipped; otherwise the participants get their share
    of the base reward and the absentees lose the base penalty plus a
    penalty growing with the slots since the shard's last crosslink.
 */
module CrosslinkAmounts {
  import opened Results
  import opened Bitfields
  import opened BeaconTypes
  import opened Helpers
  import opened Rewards

  // ---------------------------------------------------------------------
  // Committee participation

  /** Participation gathered for one shard: who took part, who did not,
      and the deposits of each group. */
  datatype Tally = Tally(participants: seq<nat>, absentees: seq<nat>, participated: nat, total: nat)

  const EmptyTally := Tally([], [], 0, 0)

  /** Adding a later committee's tally to a shard's: the lists are extended
      in order and the deposits added. */
  function Merge(a: Tally, b: Tally): Tally {
    Tally(a.participants + b.participants, a.absentees + b.absentees, a.participated + b.participated, a.total + b.total)
  }

  /** The bitfields of the pending attestations for `slot` and `shardId`, in
      their order. */
  function MatchingBitfields(pending: seq<Attestation>, slot: nat, shardId: nat): (r: seq<Bitfield>)
    ensures |r| <= |pending|
  {
    if |pending| == 0 then []
    else
      var rest := MatchingBitfields(pending[1..], slot, shardId);
      var a := pending[0];
      if a.slot == slot && a.shardId == shardId then [a.attesterBitfield] + rest else rest
  }

  /** Some bitfield of the list has bit `i` set. */
  predicate SomeVoted(bitfields: seq<Bitfield>, i: nat) {
    exists k :: 0 <= k < |bitfields| && HasVoted(bitfields[k], i)
  }

  /** Some pending attestation for `slot` and `shardId` has bit `i` set. */
  predicate AttestedBit(pending: seq<Attestation>, slot: nat, shardId: nat, i: nat) {
    exists a :: a in pending && a.slot == slot && a.shardId == shardId && HasVoted(a.attesterBitfield, i)
  }

  /** A bit set by a matching attestation is set in a matching bitfield. */
  lemma {:induction false} MatchingBitfieldsComplete(pending: seq<Attestation>, slot: nat, shardId: nat, i: nat)
    requires AttestedBit(pending, slot, shardId, i)
    ensures SomeVoted(MatchingBitfields(pending, slot, shardId), i)
    decreases |pending|
  {
    var rest := MatchingBitfields(pending[1..], slot, shardId);
    var r := MatchingBitfields(pending, slot, shardId);
    var a := pending[0];
    var b :| b in pending && b.slot == slot && b.shardId == shardId && HasVoted(b.attesterBitfield, i);
    if b == a {
      assert r[0] == a.attesterBitfield;
    } else {
      assert pending == [a] + pending[1..];
      assert b in pending[1..];
      MatchingBitfieldsComplete(pending[1..], slot, shardId, i);
      var k :| 0 <= k < |rest| && HasVoted(rest[k], i);
      if a.slot == slot && a.shardId == shardId {
        assert r[k + 1] == rest[k];
      } else {
        assert r[k] == rest[k];
      }
    }
  }

  /** A bit set in a matching bitfield was set by a matching attestation. */
  lemma {:induction false} MatchingBitfieldsSound(pending: seq<Attestation>, slot: nat, shardId: nat, i: nat)
    requires SomeVoted(MatchingBitfields(pending, slot, shardId), i)
    ensures AttestedBit(pending, slot, shardId, i)
    decreases |pending|
  {
    var rest := MatchingBitfields(pending[1..], slot, shardId);
    var r := MatchingBitfields(pending, slot, shardId);
    var a := pending[0];
    var matches := a.slot == slot && a.shardId == shardId;
    var k :| 0 <= k < |r| && HasVoted(r[k], i);
    if matches && k == 0 {
      assert a in pending;
    } else {
      var j := if matches then k - 1 else k;
      assert rest[j] == r[k];
      MatchingBitfieldsSound(pending[1..], slot, shardId, i);
      var b :| b in pending[1..] && b.slot == slot && b.shardId == shardId && HasVoted(b.attesterBitfield, i);
      assert b in pending;
    }
  }

  /** The bitfield a committee is judged by: the OR of the matching
      attestations' bitfields, or an empty one of the committee's size when
      there are none. */
  function CommitteeBitfield(pending: seq<Attestation>, slot: nat, shardId: nat, size: nat): Bitfield {
    var matching := MatchingBitfields(pending, slot, shardId);
    if |matching| > 0 then OrBitfields(matching) else EmptyBitfield(size)
  }

  /** A committee position counts as voted exactly when a pending
      attestation for the same slot and shard has its bit set. */
  lemma CommitteeBitfieldVoted(pending: seq<Attestation>, slot: nat, shardId: nat, size: nat, i: nat)
    ensures HasVoted(CommitteeBitfield(pending, slot, shardId, size), i) <==> AttestedBit(pending, slot, shardId, i)
  {
    OrBitfieldsVoted(MatchingBitfields(pending, slot, shardId), i);
    EmptyBitfieldUnset(size, i);
    if AttestedBit(pending, slot, shardId, i) {
      MatchingBitfieldsComplete(pending, slot, shardId, i);
    }
    if SomeVoted(MatchingBitfields(pending, slot, shardId), i) {
      MatchingBitfieldsSound(pending, slot, shardId, i);
    }
  }

  /** The `enumerate` loop over the committee from position `from`: a
      member outside the registry raises `IndexError`. */
  function TallyCommittee(validators: seq<Validator>, committee: seq<nat>, bitfield: Bitfield, from: nat): (r: Result<Tally>)
    ensures r.Failure? ==> r.error == Raised(IndexError)
    decreases |committee| - from
  {
    if from >= |committee| then Success(EmptyTally)
    else if committee[from] >= |validators| then Failure(Raised(IndexError))
    else
      var rest :- TallyCommittee(validators, committee, bitfield, from + 1);
      var index := committee[from];
      var balance := validators[index].balance;
      if HasVoted(bitfield, from) then
        Success(Tally([index] + rest.participants, rest.absentees, balance + rest.participated, balance + rest.total))
      else
        Success(Tally(rest.participants, [index] + rest.absentees, rest.participated, balance + rest.total))
  }

  /** The committee loop succeeds exactly when every member from `from` on
      is in the registry; it then lists each member once, and the voting
      deposits are part of the deposits. */
  lemma {:induction false} TallyCommitteeSucceeds(validators: seq<Validator>, committee: seq<nat>, bitfield: Bitfield, from: nat)
    requires from <= |committee|
    ensures var r := TallyCommittee(validators, committee, bitfield, from);
      && (r.Success? <==> forall k :: from <= k < |committee| ==> committee[k] < |validators|)
      && (r.Success? ==>
            && |r.value.participants| + |r.value.absentees| == |committee| - from
            && r.value.participated <= r.value.total)
    decreases |committee| - from
  {
    if from < |committee| {
      TallyCommitteeSucceeds(validators, committee, bitfield, from + 1);
    }
  }

  /** The committee loop lists every member whose bit is set as a
      participant and every other member as an absentee. */
  lemma {:induction false} TallyCommitteeListsAll(validators: seq<Validator>, committee: seq<nat>, bitfield: Bitfield, from: nat)
    requires TallyCommittee(validators, committee, bitfield, from).Success?
    ensures var t := TallyCommittee(validators, committee, bitfield, from).value;
      && (forall k :: from <= k < |committee| && HasVoted(bitfield, k) ==> committee[k] in t.participants)
      && (forall k :: from <= k < |committee| && !HasVoted(bitfield, k) ==> committee[k] in t.absentees)
    decreases |committee| - from
  {
    if from < |committee| {
      TallyCommitteeListsAll(validators, committee, bitfield, from + 1);
    }
  }

  /** The committee loop lists nobody but members of the committee, as a
      participant only for a position whose bit is set and as an absentee
      only for one whose bit is clear. */
  lemma {:induction false} TallyCommitteeListsOnly(validators: seq<Validator>, committee: seq<nat>, bitfield: Bitfield, from: nat)
    requires TallyCommittee(validators, committee, bitfield, from).Success?
    ensures var t := TallyCommittee(validators, committee, bitfield, from).value;
      && (forall x :: x in t.participants ==> exists k :: from <= k < |committee| && committee[k] == x && HasVoted(bitfield, k))
      && (forall x :: x in t.absentees ==> exists k :: from <= k < |committee| && committee[k] == x && !HasVoted(bitfield, k))
    decreases |committee| - from
  {
    if from < |committee| {
      TallyCommitteeListsOnly(validators, committee, bitfield, from + 1);
      var t := TallyCommittee(validators, committee, bitfield, from).value;
      var rest := TallyCommittee(validators, committee, bitfield, from + 1).value;
      forall x | x in t.participants
        ensures exists k :: from <= k < |committee| && committee[k] == x && HasVoted(bitfield, k)
      {
        if x !in rest.participants {
          assert committee[from] == x;
        }
      }
      forall x | x in t.absentees
        ensures exists k :: from <= k < |committee| && committee[k] == x && !HasVoted(bitfield, k)
      {
        if x !in rest.absentees {
          assert committee[from] == x;
        }
      }
    }
  }

  /** With every member in the registry, the deposits of the committee loop
      are the voted balance and the full balance of the committee. */
  lemma {:induction false} TallyCommitteeDeposits(validators: seq<Validator>, committee: seq<nat>, bitfield: Bitfield, from: nat)
    requires from <= |committee| && AllBelow(committee, |validators|)
    ensures TallyCommittee(validators, committee, bitfield, from).Success?
    ensures TallyCommittee(validators, committee, bitfield, from).value.participated == VotedBalanceSum(validators, committee, bitfield, from)
    ensures TallyCommittee(validators, committee, bitfield, from).value.total == BalanceSum(validators, committee[from..])
    decreases |committee| - from
  {
    if from < |committee| {
      TallyCommitteeDeposits(validators, committee, bitfield, from + 1);
      assert committee[from..][1..] == committee[from + 1..];
    }
  }

  // ---------------------------------------------------------------------
  // Phase one: the tallies per shard

  datatype ShardTally = ShardTally(shardId: nat, tally: Tally)

  /** The shard tallies, one per shard, in the order of first appearance. */
  predicate DistinctShards(tallies: seq<ShardTally>) {
    forall k, l :: 0 <= k < l < |tallies| ==> tallies[k].shardId != tallies[l].shardId
  }

  /** Every tally lists registry members only and has no more participating
      deposits than deposits. */
  predicate WellFormedTallies(tallies: seq<ShardTally>, size: nat) {
    forall k :: 0 <= k < |tallies| ==>
      && AllBelow(tallies[k].tally.participants, size)
      && AllBelow(tallies[k].tally.absentees, size)
      && tallies[k].tally.participated <= tallies[k].tally.total
  }

  /** The position of the tally for `shardId`, if there is one. The search
      runs from the end; since the tallies keep one entry per shard, it finds
      the same entry a lookup from the front would (`FindShardAt`). */
  function FindShard(tallies: seq<ShardTally>, shardId: nat): (r: Option<nat>)
    ensures r.Some? <==> exists k :: 0 <= k < |tallies| && tallies[k].shardId == shardId
    ensures r.Some? ==> r.value < |tallies| && tallies[r.value].shardId == shardId
  {
    if |tallies| == 0 then None
    else if tallies[|tallies| - 1].shardId == shardId then Some(|tallies| - 1)
    else FindShard(tallies[..|tallies| - 1], shardId)
  }

  /** Adding a committee's tally to its shard's entry, creating the entry at
      the end the first time the shard is met. */
  function AddTally(tallies: seq<ShardTally>, shardId: nat, t: Tally): (r: seq<ShardTally>)
    ensures |r| == |tallies| || |r| == |tallies| + 1
  {
    match FindShard(tallies, shardId)
    case Some(k) => tallies[k := ShardTally(shardId, Merge(tallies[k].tally, t))]
    case None => tallies + [ShardTally(shardId, t)]
  }

  /** Adding a tally keeps one entry per shard. */
  lemma AddTallyDistinct(tallies: seq<ShardTally>, shardId: nat, t: Tally)
    requires DistinctShards(tallies)
    ensures DistinctShards(AddTally(tallies, shardId, t))
  {
  }

  /** Adding a tally keeps the other shards' entries in place; the shard's
      entry is the old one extended by `t`, or `t` appended at the end. */
  lemma AddTallySpec(tallies: seq<ShardTally>, shardId: nat, t: Tally)
    requires DistinctShards(tallies)
    ensures var r := AddTally(tallies, shardId, t);
      && DistinctShards(r)
      && (forall k :: 0 <= k < |tallies| && tallies[k].shardId != shardId ==> r[k] == tallies[k])
      && (exists k :: 0 <= k < |r| && r[k].shardId == shardId)
      && (forall k :: 0 <= k < |tallies| && tallies[k].shardId == shardId ==> r[k] == ShardTally(shardId, Merge(tallies[k].tally, t)))
      && ((forall k :: 0 <= k < |tallies| ==> tallies[k].shardId != shardId) ==> r == tallies + [ShardTally(shardId, t)])
  {
    AddTallyDistinct(tallies, shardId, t);
    var r := AddTally(tallies, shardId, t);
    match FindShard(tallies, shardId)
    case Some(k) =>
      assert r[k].shardId == shardId;
    case None =>
      assert r[|tallies|].shardId == shardId;
  }

  /** The tally of committee `sac` of `slot`. */
  function CommitteeTally(validators: seq<Validator>, pending: seq<Attestation>, slot: nat, sac: ShardAndCommittee): Result<Tally> {
    TallyCommittee(validators, sac.committee, CommitteeBitfield(pending, slot, sac.shardId, |sac.committee|), 0)
  }

  /** The committee loop for the first `m` committees of `slot`. */
  function TallyCommittees(validators: seq<Validator>, pending: seq<Attestation>, slot: nat,
                           committees: seq<ShardAndCommittee>, tallies: seq<ShardTally>, m: nat): Result<seq<ShardTally>>
    requires m <= |committees|
  {
    if m == 0 then Success(tallies)
    else
      var before :- TallyCommittees(validators, pending, slot, committees, tallies, m - 1);
      var sac := committees[m - 1];
      var t :- CommitteeTally(validators, pending, slot, sac);
      Success(AddTally(before, sac.shardId, t))
  }

  /** The first-phase loop body for one slot; a slot whose committees
      cannot be looked up raises. */
  function TallySlot(cs: CrystallizedState, active: ActiveState, oracle: Oracle, slot: nat, tallies: seq<ShardTally>): Result<seq<ShardTally>> {
    match oracle.shardsAndCommitteesForSlot(cs, slot)
    case None => Failure(Raised(HelperError))
    case Some(committees) =>
      TallyCommittees(cs.validators, active.pendingAttestations, slot, committees, tallies, |committees|)
  }

  /** The slot loop of the first phase over the first `n` slots from
      `first`. */
  function TallySlots(cs: CrystallizedState, active: ActiveState, oracle: Oracle, first: nat, n: nat): Result<seq<ShardTally>> {
    if n == 0 then Success([])
    else
      var before :- TallySlots(cs, active, oracle, first, n - 1);
      TallySlot(cs, active, oracle, first + n - 1, before)
  }

  /** The tallies of the cycle before `lastStateRecalc`. */
  function CycleTallies(cs: CrystallizedState, active: ActiveState, config: Config, oracle: Oracle): Result<seq<ShardTally>> {
    TallySlots(cs, active, oracle, CycleStart(cs, config), CycleSlots(cs, config))
  }

  /** One committee of the loop, unfolded. */
  lemma TallyCommitteesStep(validators: seq<Validator>, pending: seq<Attestation>, slot: nat,
                            committees: seq<ShardAndCommittee>, tallies: seq<ShardTally>, m: nat)
    requires 0 < m <= |committees|
    requires TallyCommittees(validators, pending, slot, committees, tallies, m).Success?
    ensures TallyCommittees(validators, pending, slot, committees, tallies, m - 1).Success?
    ensures CommitteeTally(validators, pending, slot, committees[m - 1]).Success?
    ensures TallyCommittees(validators, pending, slot, committees, tallies, m).value ==
      AddTally(TallyCommittees(validators, pending, slot, committees, tallies, m - 1).value, committees[m - 1].shardId,
               CommitteeTally(validators, pending, slot, committees[m - 1]).value)
  {
  }

  /** The committee loop keeps one tally per shard. */
  lemma {:induction false} TallyCommitteesDistinct(validators: seq<Validator>, pending: seq<Attestation>, slot: nat,
                                                   committees: seq<ShardAndCommittee>, tallies: seq<ShardTally>, m: nat)
    requires m <= |committees| && DistinctShards(tallies)
    requires TallyCommittees(validators, pending, slot, committees, tallies, m).Success?
    ensures DistinctShards(TallyCommittees(validators, pending, slot, committees, tallies, m).value)
  {
    if m > 0 {
      TallyCommitteesStep(validators, pending, slot, committees, tallies, m);
      TallyCommitteesDistinct(validators, pending, slot, committees, tallies, m - 1);
      var before := TallyCommittees(validators, pending, slot, committees, tallies, m - 1).value;
      var sac := committees[m - 1];
      AddTallyDistinct(before, sac.shardId, CommitteeTally(validators, pending, slot, sac).value);
    }
  }

  /** Adding a well-formed tally keeps every tally well formed. */
  lemma AddTallyWellFormed(tallies: seq<ShardTally>, shardId: nat, t: Tally, size: nat)
    requires WellFormedTallies(tallies, size)
    requires AllBelow(t.participants, size) && AllBelow(t.absentees, size) && t.participated <= t.total
    ensures WellFormedTallies(AddTally(tallies, shardId, t), size)
  {
    match FindShard(tallies, shardId)
    case Some(k) =>
      var merged := Merge(tallies[k].tally, t);
      assert AllBelow(merged.participants, size) && AllBelow(merged.absentees, size);
    case None =>
  }

  /** The committee loop keeps every tally well formed. */
  lemma {:induction false} TallyCommitteesWellFormed(validators: seq<Validator>, pending: seq<Attestation>, slot: nat,
                                                     committees: seq<ShardAndCommittee>, tallies: seq<ShardTally>, m: nat)
    requires m <= |committees| && WellFormedTallies(tallies, |validators|)
    requires TallyCommittees(validators, pending, slot, committees, tallies, m).Success?
    ensures WellFormedTallies(TallyCommittees(validators, pending, slot, committees, tallies, m).value, |validators|)
  {
    if m > 0 {
      TallyCommitteesStep(validators, pending, slot, committees, tallies, m);
      TallyCommitteesWellFormed(validators, pending, slot, committees, tallies, m - 1);
      TallyCommitteesWellFormedStep(validators, pending, slot, committees[m - 1],
                                    TallyCommittees(validators, pending, slot, committees, tallies, m - 1).value,
                                    CommitteeTally(validators, pending, slot, committees[m - 1]).value);
    }
  }

  /** The inductive step of `TallyCommitteesWellFormed`, for committee
      `sac` and its tally `t`. */
  lemma TallyCommitteesWellFormedStep(validators: seq<Validator>, pending: seq<Attestation>, slot: nat, sac: ShardAndCommittee,
                                      before: seq<ShardTally>, t: Tally)
    requires WellFormedTallies(before, |validators|)
    requires CommitteeTally(validators, pending, slot, sac) == Success(t)
    ensures WellFormedTallies(AddTally(before, sac.shardId, t), |validators|)
  {
    TallyWellFormed(validators, sac.committee, CommitteeBitfield(pending, slot, sac.shardId, |sac.committee|));
    AddTallyWellFormed(before, sac.shardId, t, |validators|);
  }

  /** A committee's tally names registry members only, and its voting
      deposits are part of its deposits. */
  lemma TallyWellFormed(validators: seq<Validator>, committee: seq<nat>, bitfield: Bitfield)
    requires TallyCommittee(validators, committee, bitfield, 0).Success?
    ensures var t := TallyCommittee(validators, committee, bitfield, 0).value;
      && AllBelow(t.participants, |validators|)
      && AllBelow(t.absentees, |validators|)
      && t.participated <= t.total
  {
    TallyCommitteeSucceeds(validators, committee, bitfield, 0);
    TallyCommitteeListsOnly(validators, committee, bitfield, 0);
    var t := TallyCommittee(validators, committee, bitfield, 0).value;
    forall j | 0 <= j < |t.participants|
      ensures t.participants[j] < |validators|
    {
      assert t.participants[j] in t.participants;
    }
    forall j | 0 <= j < |t.absentees|
      ensures t.absentees[j] < |validators|
    {
      assert t.absentees[j] in t.absentees;
    }
  }

  /** One slot of the first phase keeps one well-formed tally per shard. */
  lemma TallySlotInvariant(cs: CrystallizedState, active: ActiveState, oracle: Oracle, slot: nat, tallies: seq<ShardTally>)
    requires DistinctShards(tallies) && WellFormedTallies(tallies, |cs.validators|)
    requires TallySlot(cs, active, oracle, slot, tallies).Success?
    ensures DistinctShards(TallySlot(cs, active, oracle, slot, tallies).value)
    ensures WellFormedTallies(TallySlot(cs, active, oracle, slot, tallies).value, |cs.validators|)
  {
    var committees := oracle.shardsAndCommitteesForSlot(cs, slot).value;
    TallyCommitteesDistinct(cs.validators, active.pendingAttestations, slot, committees, tallies, |committees|);
    TallyCommitteesWellFormed(cs.validators, active.pendingAttestations, slot, committees, tallies, |committees|);
  }

  /** The first phase keeps one well-formed tally per shard. */
  lemma {:induction false} TallySlotsInvariant(cs: CrystallizedState, active: ActiveState, oracle: Oracle, first: nat, n: nat)
    requires TallySlots(cs, active, oracle, first, n).Success?
    ensures DistinctShards(TallySlots(cs, active, oracle, first, n).value)
    ensures WellFormedTallies(TallySlots(cs, active, oracle, first, n).value, |cs.validators|)
  {
    if n > 0 {
      TallySlotsInvariant(cs, active, oracle, first, n - 1);
      TallySlotInvariant(cs, active, oracle, first + n - 1, TallySlots(cs, active, oracle, first, n - 1).value);
    }
  }

  // ---------------------------------------------------------------------
  // Phase one: who is listed where

  /** The side of a tally that `voted` selects: the participants or the
      absentees. */
  function Side(t: Tally, voted: bool): seq<nat> {
    if voted then t.participants else t.absentees
  }

  /** The validators a list names. */
  function Elems(indices: seq<nat>): set<nat> {
    set x | x in indices
  }

  /** Validator `i` is listed on side `voted` of shard `s`'s tally. */
  predicate ListedFor(tallies: seq<ShardTally>, s: nat, i: nat, voted: bool) {
    exists k :: 0 <= k < |tallies| && tallies[k].shardId == s && i in Side(tallies[k].tally, voted)
  }

  /** Some committee of `slot` serves shard `s` and holds `i` at a position
      whose bit in the committee's bitfield is `voted`. */
  predicate SeatedAt(cs: CrystallizedState, active: ActiveState, oracle: Oracle, slot: nat, s: nat, i: nat, voted: bool) {
    match oracle.shardsAndCommitteesForSlot(cs, slot)
    case None => false
    case Some(committees) =>
      exists c, k :: 0 <= c < |committees| && committees[c].shardId == s && 0 <= k < |committees[c].committee| &&
        committees[c].committee[k] == i &&
        HasVoted(CommitteeBitfield(active.pendingAttestations, slot, s, |committees[c].committee|), k) == voted
  }

  /** The validators listed on side `voted` of shard `s`'s tally. */
  function ListedSet(tallies: seq<ShardTally>, s: nat, voted: bool): set<nat> {
    if |tallies| == 0 then {}
    else
      var last := tallies[|tallies| - 1];
      ListedSet(tallies[..|tallies| - 1], s, voted) + if last.shardId == s then Elems(Side(last.tally, voted)) else {}
  }

  lemma {:induction false} ListedSetSpec(tallies: seq<ShardTally>, s: nat, voted: bool, i: nat)
    ensures i in ListedSet(tallies, s, voted) <==> ListedFor(tallies, s, i, voted)
  {
    if |tallies| > 0 {
      var init := tallies[..|tallies| - 1];
      ListedSetSpec(init, s, voted, i);
      if ListedFor(tallies, s, i, voted) {
        var k :| 0 <= k < |tallies| && tallies[k].shardId == s && i in Side(tallies[k].tally, voted);
        if k < |init| {
          assert init[k] == tallies[k];
        }
      }
      if ListedFor(init, s, i, voted) {
        var k :| 0 <= k < |init| && init[k].shardId == s && i in Side(init[k].tally, voted);
        assert tallies[k] == init[k];
      }
    }
  }

  /** The members the committee holds, from position `from` on, at
      positions whose bit in `bitfield` is `voted`. */
  function CommitteeSeats(committee: seq<nat>, bitfield: Bitfield, from: nat, voted: bool): set<nat>
    decreases |committee| - from
  {
    if from >= |committee| then {}
    else (if HasVoted(bitfield, from) == voted then {committee[from]} else {}) + CommitteeSeats(committee, bitfield, from + 1, voted)
  }

  lemma {:induction false} CommitteeSeatsSpec(committee: seq<nat>, bitfield: Bitfield, from: nat, voted: bool, i: nat)
    ensures i in CommitteeSeats(committee, bitfield, from, voted) <==>
      exists k :: from <= k < |committee| && committee[k] == i && HasVoted(bitfield, k) == voted
    decreases |committee| - from
  {
    if from < |committee| {
      CommitteeSeatsSpec(committee, bitfield, from + 1, voted, i);
    }
  }

  /** The seats on side `voted` of the committees of shard `s` among the
      first `m` committees of `slot`. */
  function SlotSeats(pending: seq<Attestation>, slot: nat, committees: seq<ShardAndCommittee>, m: nat, s: nat, voted: bool): set<nat>
    requires m <= |committees|
  {
    if m == 0 then {}
    else
      var sac := committees[m - 1];
      SlotSeats(pending, slot, committees, m - 1, s, voted) +
      if sac.shardId == s then CommitteeSeats(sac.committee, CommitteeBitfield(pending, slot, s, |sac.committee|), 0, voted) else {}
  }

  lemma {:induction false} SlotSeatsSpec(pending: seq<Attestation>, slot: nat, committees: seq<ShardAndCommittee>, m: nat, s: nat,
                                         voted: bool, i: nat)
    requires m <= |committees|
    ensures i in SlotSeats(pending, slot, committees, m, s, voted) <==>
      exists c :: 0 <= c < m && committees[c].shardId == s &&
        i in CommitteeSeats(committees[c].committee, CommitteeBitfield(pending, slot, s, |committees[c].committee|), 0, voted)
  {
    if m > 0 {
      SlotSeatsSpec(pending, slot, committees, m - 1, s, voted, i);
    }
  }

  /** The seats on side `voted` of the committees of shard `s` in `slot`. */
  function SeatsAt(cs: CrystallizedState, active: ActiveState, oracle: Oracle, slot: nat, s: nat, voted: bool): set<nat> {
    match oracle.shardsAndCommitteesForSlot(cs, slot)
    case None => {}
    case Some(committees) => SlotSeats(active.pendingAttestations, slot, committees, |committees|, s, voted)
  }

  lemma SeatsAtSpec(cs: CrystallizedState, active: ActiveState, oracle: Oracle, slot: nat, s: nat, voted: bool, i: nat)
    ensures i in SeatsAt(cs, active, oracle, slot, s, voted) <==> SeatedAt(cs, active, oracle, slot, s, i, voted)
  {
    match oracle.shardsAndCommitteesForSlot(cs, slot)
    case None =>
    case Some(committees) =>
      var pending := active.pendingAttestations;
      SlotSeatsSpec(pending, slot, committees, |committees|, s, voted, i);
      forall c | 0 <= c < |committees|
        ensures i in CommitteeSeats(committees[c].committee, CommitteeBitfield(pending, slot, s, |committees[c].committee|), 0, voted) <==>
          exists k :: 0 <= k < |committees[c].committee| && committees[c].committee[k] == i &&
            HasVoted(CommitteeBitfield(pending, slot, s, |committees[c].committee|), k) == voted
      {
        CommitteeSeatsSpec(committees[c].committee, CommitteeBitfield(pending, slot, s, |committees[c].committee|), 0, voted, i);
      }
  }

  /** The seats on side `voted` of the committees of shard `s` in the `n`
      slots from `first`. */
  function SeatsWithin(cs: CrystallizedState, active: ActiveState, oracle: Oracle, first: nat, n: nat, s: nat, voted: bool): set<nat> {
    if n == 0 then {}
    else SeatsWithin(cs, active, oracle, first, n - 1, s, voted) + SeatsAt(cs, active, oracle, first + n - 1, s, voted)
  }

  lemma {:induction false} SeatsWithinSpec(cs: CrystallizedState, active: ActiveState, oracle: Oracle, first: nat, n: nat, s: nat,
                                           voted: bool, i: nat)
    ensures i in SeatsWithin(cs, active, oracle, first, n, s, voted) <==>
      exists slot :: first <= slot < first + n && i in SeatsAt(cs, active, oracle, slot, s, voted)
  {
    if n > 0 {
      SeatsWithinSpec(cs, active, oracle, first, n - 1, s, voted, i);
      if exists slot :: first <= slot < first + n && i in SeatsAt(cs, active, oracle, slot, s, voted) {
        var slot :| first <= slot < first + n && i in SeatsAt(cs, active, oracle, slot, s, voted);
        if slot < first + n - 1 {
          assert first <= slot < first + n - 1 && i in SeatsAt(cs, active, oracle, slot, s, voted);
        }
      }
    }
  }

  /** A committee's tally lists on side `voted` exactly the members at
      positions whose bit is `voted`. */
  lemma {:induction false} TallyCommitteeListed(validators: seq<Validator>, committee: seq<nat>, bitfield: Bitfield, from: nat,
                                                voted: bool)
    requires TallyCommittee(validators, committee, bitfield, from).Success?
    ensures Elems(Side(TallyCommittee(validators, committee, bitfield, from).value, voted)) ==
      CommitteeSeats(committee, bitfield, from, voted)
    decreases |committee| - from
  {
    if from < |committee| {
      TallyCommitteeListed(validators, committee, bitfield, from + 1, voted);
      var rest := TallyCommittee(validators, committee, bitfield, from + 1).value;
      var t := TallyCommittee(validators, committee, bitfield, from).value;
      if HasVoted(bitfield, from) == voted {
        assert Side(t, voted) == [committee[from]] + Side(rest, voted);
      } else {
        assert Side(t, voted) == Side(rest, voted);
      }
    }
  }

  lemma AddTallyListedAt(tallies: seq<ShardTally>, shardId: nat, t: Tally, s: nat, i: nat, voted: bool)
    requires DistinctShards(tallies)
    ensures ListedFor(AddTally(tallies, shardId, t), s, i, voted) <==>
      ListedFor(tallies, s, i, voted) || (s == shardId && i in Side(t, voted))
  {
    var r := AddTally(tallies, shardId, t);
    AddTallySpec(tallies, shardId, t);
    match FindShard(tallies, shardId)
    case Some(j) =>
      assert Side(r[j].tally, voted) == Side(tallies[j].tally, voted) + Side(t, voted);
      if ListedFor(r, s, i, voted) {
        var k :| 0 <= k < |r| && r[k].shardId == s && i in Side(r[k].tally, voted);
        if k != j {
          assert r[k] == tallies[k];
        }
      }
      if ListedFor(tallies, s, i, voted) {
        var k :| 0 <= k < |tallies| && tallies[k].shardId == s && i in Side(tallies[k].tally, voted);
        if k != j {
          assert r[k] == tallies[k];
        }
      }
    case None =>
      assert r[|tallies|] == ShardTally(shardId, t);
      if ListedFor(r, s, i, voted) {
        var k :| 0 <= k < |r| && r[k].shardId == s && i in Side(r[k].tally, voted);
        if k < |tallies| {
          assert r[k] == tallies[k];
        }
      }
      if ListedFor(tallies, s, i, voted) {
        var k :| 0 <= k < |tallies| && tallies[k].shardId == s && i in Side(tallies[k].tally, voted);
        assert r[k] == tallies[k];
      }
  }

  /** Adding a committee's tally for `shardId` adds the validators its side
      lists to that shard's side, and changes no other shard's. */
  lemma AddTallyListed(tallies: seq<ShardTally>, shardId: nat, t: Tally, s: nat, voted: bool)
    requires DistinctShards(tallies)
    ensures ListedSet(AddTally(tallies, shardId, t), s, voted) ==
      ListedSet(tallies, s, voted) + if s == shardId then Elems(Side(t, voted)) else {}
  {
    forall i
      ensures i in ListedSet(AddTally(tallies, shardId, t), s, voted) <==>
        i in ListedSet(tallies, s, voted) || (s == shardId && i in Side(t, voted))
    {
      ListedSetSpec(AddTally(tallies, shardId, t), s, voted, i);
      ListedSetSpec(tallies, s, voted, i);
      AddTallyListedAt(tallies, shardId, t, s, i, voted);
    }
  }

  /** The committee loop of one slot adds to shard `s`'s side `voted`
      exactly the seats of that slot's committees for shard `s`. */
  lemma {:induction false} TallyCommitteesListed(validators: seq<Validator>, pending: seq<Attestation>, slot: nat,
                                                 committees: seq<ShardAndCommittee>, tallies: seq<ShardTally>, m: nat,
                                                 s: nat, voted: bool)
    requires m <= |committees| && DistinctShards(tallies)
    requires TallyCommittees(validators, pending, slot, committees, tallies, m).Success?
    ensures DistinctShards(TallyCommittees(validators, pending, slot, committees, tallies, m).value)
    ensures ListedSet(TallyCommittees(validators, pending, slot, committees, tallies, m).value, s, voted) ==
      ListedSet(tallies, s, voted) + SlotSeats(pending, slot, committees, m, s, voted)
  {
    if m > 0 {
      TallyCommitteesStep(validators, pending, slot, committees, tallies, m);
      TallyCommitteesListed(validators, pending, slot, committees, tallies, m - 1, s, voted);
      TallyCommitteesListedStep(validators, pending, slot, committees, tallies, m, s, voted,
                                TallyCommittees(validators, pending, slot, committees, tallies, m - 1).value,
                                CommitteeTally(validators, pending, slot, committees[m - 1]).value);
    }
  }

  /** The inductive step of `TallyCommitteesListed`, stated over the loop's
      state before committee `m - 1` and that committee's tally. */
  lemma TallyCommitteesListedStep(validators: seq<Validator>, pending: seq<Attestation>, slot: nat,
                                  committees: seq<ShardAndCommittee>, tallies: seq<ShardTally>, m: nat, s: nat, voted: bool,
                                  before: seq<ShardTally>, t: Tally)
    requires 0 < m <= |committees| && DistinctShards(before)
    requires ListedSet(before, s, voted) == ListedSet(tallies, s, voted) + SlotSeats(pending, slot, committees, m - 1, s, voted)
    requires CommitteeTally(validators, pending, slot, committees[m - 1]) == Success(t)
    ensures DistinctShards(AddTally(before, committees[m - 1].shardId, t))
    ensures ListedSet(AddTally(before, committees[m - 1].shardId, t), s, voted) ==
      ListedSet(tallies, s, voted) + SlotSeats(pending, slot, committees, m, s, voted)
  {
    var sac := committees[m - 1];
    AddTallyDistinct(before, sac.shardId, t);
    AddTallyListed(before, sac.shardId, t, s, voted);
    TallyCommitteeListed(validators, sac.committee, CommitteeBitfield(pending, slot, sac.shardId, |sac.committee|), 0, voted);
  }

  /** One slot of the first phase adds exactly the seats of its
      committees. */
  lemma TallySlotListed(cs: CrystallizedState, active: ActiveState, oracle: Oracle, slot: nat, tallies: seq<ShardTally>,
                        s: nat, voted: bool)
    requires DistinctShards(tallies)
    requires TallySlot(cs, active, oracle, slot, tallies).Success?
    ensures ListedSet(TallySlot(cs, active, oracle, slot, tallies).value, s, voted) ==
      ListedSet(tallies, s, voted) + SeatsAt(cs, active, oracle, slot, s, voted)
  {
    var committees := oracle.shardsAndCommitteesForSlot(cs, slot).value;
    TallyCommitteesListed(cs.validators, active.pendingAttestations, slot, committees, tallies, |committees|, s, voted);
  }

  /** One slot of the slot loop, unfolded. */
  lemma TallySlotsStep(cs: CrystallizedState, active: ActiveState, oracle: Oracle, first: nat, n: nat)
    requires n > 0
    requires TallySlots(cs, active, oracle, first, n).Success?
    ensures TallySlots(cs, active, oracle, first, n - 1).Success?
    ensures TallySlots(cs, active, oracle, first, n) ==
      TallySlot(cs, active, oracle, first + n - 1, TallySlots(cs, active, oracle, first, n - 1).value)
  {
  }

  /** The first phase over `n` slots from `first` keeps one tally per
      shard and lists on shard `s`'s side `voted` exactly the seats of those
      slots' committees for shard `s`. */
  lemma {:induction false} TallySlotsListed(cs: CrystallizedState, active: ActiveState, oracle: Oracle, first: nat, n: nat,
                                            s: nat, voted: bool)
    requires TallySlots(cs, active, oracle, first, n).Success?
    ensures DistinctShards(TallySlots(cs, active, oracle, first, n).value)
    ensures ListedSet(TallySlots(cs, active, oracle, first, n).value, s, voted) == SeatsWithin(cs, active, oracle, first, n, s, voted)
  {
    if n > 0 {
      TallySlotsStep(cs, active, oracle, first, n);
      TallySlotsListed(cs, active, oracle, first, n - 1, s, voted);
      TallySlotsListedStep(cs, active, oracle, first, n, s, voted, TallySlots(cs, active, oracle, first, n - 1).value,
                           TallySlots(cs, active, oracle, first, n).value);
    }
  }

  /** The inductive step of `TallySlotsListed`, stated over the loop's
      states before and after slot `first + n - 1`. */
  lemma TallySlotsListedStep(cs: CrystallizedState, active: ActiveState, oracle: Oracle, first: nat, n: nat, s: nat, voted: bool,
                             before: seq<ShardTally>, after: seq<ShardTally>)
    requires n > 0 && DistinctShards(before)
    requires ListedSet(before, s, voted) == SeatsWithin(cs, active, oracle, first, n - 1, s, voted)
    requires TallySlot(cs, active, oracle, first + n - 1, before) == Success(after)
    ensures DistinctShards(after)
    ensures ListedSet(after, s, voted) == SeatsWithin(cs, active, oracle, first, n, s, voted)
  {
    var slot := first + n - 1;
    var committees := oracle.shardsAndCommitteesForSlot(cs, slot).value;
    TallyCommitteesDistinct(cs.validators, active.pendingAttestations, slot, committees, before, |committees|);
    TallySlotListed(cs, active, oracle, slot, before, s, voted);
  }

  /** The cycle's tallies list `i` as a participant (an absentee) of shard
      `s` exactly when a committee of shard `s` in a slot from `CycleStart`
      up to `lastStateRecalc` holds `i` at a position whose bit is set
      (clear) in the committee's bitfield. */
  lemma CycleTalliesListed(cs: CrystallizedState, active: ActiveState, config: Config, oracle: Oracle, s: nat, i: nat,
                           voted: bool)
    requires CycleTallies(cs, active, config, oracle).Success?
    ensures ListedFor(CycleTallies(cs, active, config, oracle).value, s, i, voted) <==>
      exists slot :: CycleStart(cs, config) <= slot < cs.lastStateRecalc && SeatedAt(cs, active, oracle, slot, s, i, voted)
  {
    var first := CycleStart(cs, config);
    var n := CycleSlots(cs, config);
    ListedSetSpec(CycleTallies(cs, active, config, oracle).value, s, voted, i);
    TallySlotsListed(cs, active, oracle, first, n, s, voted);
    SeatsWithinSpec(cs, active, oracle, first, n, s, voted, i);
    forall slot
      ensures i in SeatsAt(cs, active, oracle, slot, s, voted) <==> SeatedAt(cs, active, oracle, slot, s, i, voted)
    {
      SeatsAtSpec(cs, active, oracle, slot, s, voted, i);
    }
  }

  // ---------------------------------------------------------------------
  // Phase one: the deposits per shard

  /** Voted deposits and deposits, summed apart from any tally. */
  datatype Deposits = Deposits(participated: nat, total: nat)

  const NoDeposits := Deposits(0, 0)

  function Plus(a: Deposits, b: Deposits): Deposits {
    Deposits(a.participated + b.participated, a.total + b.total)
  }

  /** Adding no deposits changes nothing. */
  lemma PlusNone(a: Deposits)
    ensures Plus(a, NoDeposits) == a
  {
    var Deposits(p, t) := a;
  }

  function DepositsOf(t: Tally): Deposits {
    Deposits(t.participated, t.total)
  }

  /** With one entry per shard, the lookup finds the entry for the shard. */
  lemma FindShardAt(tallies: seq<ShardTally>, k: nat)
    requires DistinctShards(tallies) && k < |tallies|
    ensures FindShard(tallies, tallies[k].shardId) == Some(k)
  {
  }

  /** The deposits of shard `s`'s entry, or none without one. */
  function ShardDeposits(tallies: seq<ShardTally>, s: nat): Deposits {
    match FindShard(tallies, s)
    case None => NoDeposits
    case Some(k) => DepositsOf(tallies[k].tally)
  }

  /** The voted balance and the balance of committee `sac` of `slot`; none
      when the committee names a validator outside the registry. */
  function CommitteeDeposits(validators: seq<Validator>, pending: seq<Attestation>, slot: nat, sac: ShardAndCommittee): Deposits {
    if AllBelow(sac.committee, |validators|) then
      Deposits(VotedBalanceSum(validators, sac.committee, CommitteeBitfield(pending, slot, sac.shardId, |sac.committee|), 0),
               BalanceSum(validators, sac.committee))
    else NoDeposits
  }

  /** The deposits of the committees for shard `s` among the first `m`
      committees of `slot`. */
  function SlotDeposits(validators: seq<Validator>, pending: seq<Attestation>, slot: nat, committees: seq<ShardAndCommittee>,
                        m: nat, s: nat): Deposits
    requires m <= |committees|
  {
    if m == 0 then NoDeposits
    else
      var sac := committees[m - 1];
      var before := SlotDeposits(validators, pending, slot, committees, m - 1, s);
      if sac.shardId == s then Plus(before, CommitteeDeposits(validators, pending, slot, sac)) else before
  }

  /** The deposits of the committees for shard `s` in `slot`. */
  function DepositsAt(cs: CrystallizedState, active: ActiveState, oracle: Oracle, slot: nat, s: nat): Deposits {
    match oracle.shardsAndCommitteesForSlot(cs, slot)
    case None => NoDeposits
    case Some(committees) => SlotDeposits(cs.validators, active.pendingAttestations, slot, committees, |committees|, s)
  }

  /** The deposits of the committees for shard `s` in the `n` slots from
      `first`. */
  function DepositsWithin(cs: CrystallizedState, active: ActiveState, oracle: Oracle, first: nat, n: nat, s: nat): Deposits {
    if n == 0 then NoDeposits
    else Plus(DepositsWithin(cs, active, oracle, first, n - 1, s), DepositsAt(cs, active, oracle, first + n - 1, s))
  }

  /** A committee's tally holds the committee's voted balance and balance. */
  lemma CommitteeTallyDeposits(validators: seq<Validator>, pending: seq<Attestation>, slot: nat, sac: ShardAndCommittee)
    requires CommitteeTally(validators, pending, slot, sac).Success?
    ensures DepositsOf(CommitteeTally(validators, pending, slot, sac).value) == CommitteeDeposits(validators, pending, slot, sac)
  {
    var bitfield := CommitteeBitfield(pending, slot, sac.shardId, |sac.committee|);
    TallyCommitteeSucceeds(validators, sac.committee, bitfield, 0);
    TallyCommitteeDeposits(validators, sac.committee, bitfield, 0);
    assert sac.committee[0..] == sac.committee;
  }

  /** Adding a committee's tally for `shardId` adds its deposits to that
      shard's entry and changes no other shard's. */
  lemma AddTallyDeposits(tallies: seq<ShardTally>, shardId: nat, t: Tally, s: nat)
    requires DistinctShards(tallies)
    ensures ShardDeposits(AddTally(tallies, shardId, t), s) ==
      if s == shardId then Plus(ShardDeposits(tallies, s), DepositsOf(t)) else ShardDeposits(tallies, s)
  {
    var r := AddTally(tallies, shardId, t);
    AddTallyDistinct(tallies, shardId, t);
    match FindShard(tallies, shardId)
    case Some(j) =>
      FindShardAt(r, j);
      FindShardAt(tallies, j);
      if s != shardId {
        FindShardOther(tallies, r, j, s);
      }
    case None =>
      FindShardAt(r, |tallies|);
      if s != shardId {
        FindShardOther(tallies, r, |tallies|, s);
      }
  }

  /** Two tally lists that agree everywhere but at entry `j`, whose shard is
      not `s`, find the same entry for `s`. */
  lemma FindShardOther(tallies: seq<ShardTally>, r: seq<ShardTally>, j: nat, s: nat)
    requires DistinctShards(tallies) && DistinctShards(r)
    requires |tallies| <= |r| <= |tallies| + 1 && j < |r| && r[j].shardId != s
    requires forall k :: 0 <= k < |tallies| && k != j ==> r[k] == tallies[k]
    requires j < |tallies| ==> tallies[j].shardId == r[j].shardId
    requires |r| == |tallies| + 1 ==> j == |tallies|
    ensures FindShard(r, s) == FindShard(tallies, s)
  {
    match FindShard(r, s)
    case Some(k) =>
      assert r[k] == tallies[k];
      FindShardAt(tallies, k);
    case None =>
      match FindShard(tallies, s)
      case Some(k) =>
        assert false;
      case None =>
  }

  /** The committee loop of one slot keeps one tally per shard and adds to
      shard `s`'s entry exactly the deposits of that slot's committees for
      shard `s`. */
  lemma {:induction false} TallyCommitteesDeposits(validators: seq<Validator>, pending: seq<Attestation>, slot: nat,
                                                   committees: seq<ShardAndCommittee>, tallies: seq<ShardTally>, m: nat, s: nat)
    requires m <= |committees| && DistinctShards(tallies)
    requires TallyCommittees(validators, pending, slot, committees, tallies, m).Success?
    ensures DistinctShards(TallyCommittees(validators, pending, slot, committees, tallies, m).value)
    ensures ShardDeposits(TallyCommittees(validators, pending, slot, committees, tallies, m).value, s) ==
      Plus(ShardDeposits(tallies, s), SlotDeposits(validators, pending, slot, committees, m, s))
  {
    if m > 0 {
      TallyCommitteesStep(validators, pending, slot, committees, tallies, m);
      TallyCommitteesDeposits(validators, pending, slot, committees, tallies, m - 1, s);
      TallyCommitteesDepositsStep(validators, pending, slot, committees, tallies, m, s,
                                  TallyCommittees(validators, pending, slot, committees, tallies, m - 1).value,
                                  CommitteeTally(validators, pending, slot, committees[m - 1]).value);
    } else {
      PlusNone(ShardDeposits(tallies, s));
    }
  }

  /** The inductive step of `TallyCommitteesDeposits`, stated over the
      loop's state before committee `m - 1` and that committee's tally. */
  lemma TallyCommitteesDepositsStep(validators: seq<Validator>, pending: seq<Attestation>, slot: nat,
                                    committees: seq<ShardAndCommittee>, tallies: seq<ShardTally>, m: nat, s: nat,
                                    before: seq<ShardTally>, t: Tally)
    requires 0 < m <= |committees| && DistinctShards(before)
    requires ShardDeposits(before, s) == Plus(ShardDeposits(tallies, s), SlotDeposits(validators, pending, slot, committees, m - 1, s))
    requires CommitteeTally(validators, pending, slot, committees[m - 1]) == Success(t)
    ensures DistinctShards(AddTally(before, committees[m - 1].shardId, t))
    ensures ShardDeposits(AddTally(before, committees[m - 1].shardId, t), s) ==
      Plus(ShardDeposits(tallies, s), SlotDeposits(validators, pending, slot, committees, m, s))
  {
    AddTallyDistinct(before, committees[m - 1].shardId, t);
    AddTallyDeposits(before, committees[m - 1].shardId, t, s);
    CommitteeTallyDeposits(validators, pending, slot, committees[m - 1]);
  }

  /** The inductive step of `TallySlotsDeposits`, stated over the loop's
      states before and after slot `first + n - 1`. */
  lemma TallySlotsDepositsStep(cs: CrystallizedState, active: ActiveState, oracle: Oracle, first: nat, n: nat, s: nat,
                               before: seq<ShardTally>, after: seq<ShardTally>)
    requires n > 0 && DistinctShards(before)
    requires ShardDeposits(before, s) == DepositsWithin(cs, active, oracle, first, n - 1, s)
    requires TallySlot(cs, active, oracle, first + n - 1, before) == Success(after)
    ensures DistinctShards(after)
    ensures ShardDeposits(after, s) == DepositsWithin(cs, active, oracle, first, n, s)
  {
    var slot := first + n - 1;
    var committees := oracle.shardsAndCommitteesForSlot(cs, slot).value;
    TallyCommitteesDeposits(cs.validators, active.pendingAttestations, slot, committees, before, |committees|, s);
  }

  /** The first phase over `n` slots from `first` keeps one tally per
      shard, and shard `s`'s entry holds exactly the summed deposits of the
      slots' committees for shard `s`. */
  lemma {:induction false} TallySlotsDeposits(cs: CrystallizedState, active: ActiveState, oracle: Oracle, first: nat, n: nat,
                                              s: nat)
    requires TallySlots(cs, active, oracle, first, n).Success?
    ensures DistinctShards(TallySlots(cs, active, oracle, first, n).value)
    ensures ShardDeposits(TallySlots(cs, active, oracle, first, n).value, s) == DepositsWithin(cs, active, oracle, first, n, s)
  {
    if n > 0 {
      TallySlotsStep(cs, active, oracle, first, n);
      TallySlotsDeposits(cs, active, oracle, first, n - 1, s);
      TallySlotsDepositsStep(cs, active, oracle, first, n, s, TallySlots(cs, active, oracle, first, n - 1).value,
                             TallySlots(cs, active, oracle, first, n).value);
    }
  }

  /** Each shard tally of the cycle holds, as voted deposits and deposits,
      the voted balance and the balance of that shard's committees summed
      over the slots from `CycleStart` up to `lastStateRecalc`. */
  lemma CycleTalliesDeposits(cs: CrystallizedState, active: ActiveState, config: Config, oracle: Oracle, k: nat)
    requires CycleTallies(cs, active, config, oracle).Success?
    requires k < |CycleTallies(cs, active, config, oracle).value|
    ensures var e := CycleTallies(cs, active, config, oracle).value[k];
      DepositsOf(e.tally) == DepositsWithin(cs, active, oracle, CycleStart(cs, config), CycleSlots(cs, config), e.shardId)
  {
    var tallies := CycleTallies(cs, active, config, oracle).value;
    TallySlotsDeposits(cs, active, oracle, CycleStart(cs, config), CycleSlots(cs, config), tallies[k].shardId);
    FindShardAt(tallies, k);
  }

  // ---------------------------------------------------------------------
  // Phase two: the amounts per shard

  /** The amount `a` for `balance`, or nothing when its divisors are zero
      (a case in which the loop adding it raises). */
  function AmountIfDefined(a: Amount, balance: nat): int {
    if Divisible(a) then AmountOf(a, balance) else 0
  }

  function ParticipantAmount(ctx: RewardContext, t: Tally): Amount {
    ShareOf(ctx.rewardQuotient, t.participated, t.total)
  }

  function AbsenteeAmount(ctx: RewardContext, block: Block, c: CrosslinkRecord): Amount {
    QuadraticPenaltyOf(ctx.rewardQuotient, block.slotNumber - c.slot, ctx.quadraticPenaltyQuotient)
  }

  /** The shard's crosslink was already made in the current dynasty. */
  predicate Crosslinked(cs: CrystallizedState, shardId: nat)
    requires shardId < |cs.crosslinkRecords|
  {
    cs.crosslinkRecords[shardId].dynasty == cs.currentDynasty
  }

  /** The second-phase loop body for one shard: the shard's crosslink record
      must exist; a shard crosslinked in the current dynasty is skipped. */
  function ApplyTally(r: seq<int>, cs: CrystallizedState, block: Block, ctx: RewardContext, e: ShardTally): Result<seq<int>>
    requires |r| == |cs.validators|
  {
    if e.shardId >= |cs.crosslinkRecords| then Failure(Raised(IndexError))
    else if Crosslinked(cs, e.shardId) then Success(r)
    else
      var c := cs.crosslinkRecords[e.shardId];
      var rewarded :- AddToEach(r, cs.validators, e.tally.participants, ParticipantAmount(ctx, e.tally));
      AddToEach(rewarded, cs.validators, e.tally.absentees, AbsenteeAmount(ctx, block, c))
  }

  /** What the shard's tally adds for validator `i`: nothing for a shard
      crosslinked this dynasty; otherwise the share once per listing as a
      participant and the penalty once per listing as an absentee. */
  function TallyDelta(cs: CrystallizedState, block: Block, ctx: RewardContext, e: ShardTally, i: nat): int
    requires i < |cs.validators|
  {
    if e.shardId >= |cs.crosslinkRecords| || Crosslinked(cs, e.shardId) then 0
    else
      var balance := cs.validators[i].balance;
      multiset(e.tally.participants)[i] * AmountIfDefined(ParticipantAmount(ctx, e.tally), balance) +
      multiset(e.tally.absentees)[i] * AmountIfDefined(AbsenteeAmount(ctx, block, cs.crosslinkRecords[e.shardId]), balance)
  }

  /** One shard's loop body adds `TallyDelta` to each validator; it fails
      exactly for a shard without a crosslink record or, for a shard not yet
      crosslinked, for a listed validator outside the registry or a zero
      divisor met. */
  lemma ApplyTallyAt(r: seq<int>, cs: CrystallizedState, block: Block, ctx: RewardContext, e: ShardTally, i: nat)
    requires |r| == |cs.validators| && i < |r|
    requires ApplyTally(r, cs, block, ctx, e).Success?
    ensures |ApplyTally(r, cs, block, ctx, e).value| == |r|
    ensures ApplyTally(r, cs, block, ctx, e).value[i] == r[i] + TallyDelta(cs, block, ctx, e, i)
  {
    if !Crosslinked(cs, e.shardId) {
      var c := cs.crosslinkRecords[e.shardId];
      var p := ParticipantAmount(ctx, e.tally);
      AddToEachAt(r, cs.validators, e.tally.participants, p, i);
      var rewarded := AddToEach(r, cs.validators, e.tally.participants, p).value;
      AddToEachAt(rewarded, cs.validators, e.tally.absentees, AbsenteeAmount(ctx, block, c), i);
      if i !in e.tally.participants {
        assert multiset(e.tally.participants)[i] == 0;
      }
      if i !in e.tally.absentees {
        assert multiset(e.tally.absentees)[i] == 0;
      }
    }
  }

  /** The second-phase loop over the first `n` tallies. */
  function ApplyTallies(cs: CrystallizedState, block: Block, ctx: RewardContext, tallies: seq<ShardTally>, n: nat): (r: Result<seq<int>>)
    requires n <= |tallies|
    ensures r.Success? ==> |r.value| == |cs.validators|
  {
    if n == 0 then Success(Zeros(|cs.validators|))
    else
      var r :- ApplyTallies(cs, block, ctx, tallies, n - 1);
      ApplyTally(r, cs, block, ctx, tallies[n - 1])
  }

  /** The crosslink amount of validator `i` summed over the first `n`
      tallies: the closed form of the second phase. */
  function CrosslinkReference(cs: CrystallizedState, block: Block, ctx: RewardContext, tallies: seq<ShardTally>, n: nat, i: nat): int
    requires n <= |tallies| && i < |cs.validators|
  {
    if n == 0 then 0
    else CrosslinkReference(cs, block, ctx, tallies, n - 1, i) + TallyDelta(cs, block, ctx, tallies[n - 1], i)
  }

  lemma {:induction false} ApplyTalliesAt(cs: CrystallizedState, block: Block, ctx: RewardContext, tallies: seq<ShardTally>, n: nat, i: nat)
    requires n <= |tallies| && i < |cs.validators|
    requires ApplyTallies(cs, block, ctx, tallies, n).Success?
    ensures ApplyTallies(cs, block, ctx, tallies, n).value[i] == CrosslinkReference(cs, block, ctx, tallies, n, i)
  {
    if n > 0 {
      ApplyTalliesAt(cs, block, ctx, tallies, n - 1, i);
      var r := ApplyTallies(cs, block, ctx, tallies, n - 1).value;
      ApplyTallyAt(r, cs, block, ctx, tallies[n - 1], i);
    }
  }

  /** `calculate_crosslink_rewards`, given the reward context of the
      registry's total deposits. */
  function CrosslinkRewards(cs: CrystallizedState, active: ActiveState, block: Block, config: Config, oracle: Oracle,
                            ctx: RewardContext): (r: Result<seq<int>>)
    ensures r.Success? ==> |r.value| == |cs.validators|
  {
    var tallies :- CycleTallies(cs, active, config, oracle);
    ApplyTallies(cs, block, ctx, tallies, |tallies|)
  }

  /** The crosslink amounts in closed form: each validator gets the sum of
      what every shard tally of the cycle adds for it. */
  lemma CrosslinkRewardsSpec(cs: CrystallizedState, active: ActiveState, block: Block, config: Config, oracle: Oracle,
                             ctx: RewardContext, i: nat)
    requires CrosslinkRewards(cs, active, block, config, oracle, ctx).Success?
    requires i < |cs.validators|
    ensures CycleTallies(cs, active, config, oracle).Success?
    ensures var tallies := CycleTallies(cs, active, config, oracle).value;
      CrosslinkRewards(cs, active, block, config, oracle, ctx).value[i] ==
      CrosslinkReference(cs, block, ctx, tallies, |tallies|, i)
  {
    var tallies := CycleTallies(cs, active, config, oracle).value;
    ApplyTalliesAt(cs, block, ctx, tallies, |tallies|, i);
  }

  /** A validator listed in no tally of the cycle gets no crosslink amount. */
  lemma {:induction false} CrosslinkReferenceUnlisted(cs: CrystallizedState, block: Block, ctx: RewardContext,
                                                      tallies: seq<ShardTally>, n: nat, i: nat)
    requires n <= |tallies| && i < |cs.validators|
    requires forall k :: 0 <= k < n ==> i !in tallies[k].tally.participants && i !in tallies[k].tally.absentees
    ensures CrosslinkReference(cs, block, ctx, tallies, n, i) == 0
  {
    if n > 0 {
      CrosslinkReferenceUnlisted(cs, block, ctx, tallies, n - 1, i);
      assert multiset(tallies[n - 1].tally.participants)[i] == 0;
      assert multiset(tallies[n - 1].tally.absentees)[i] == 0;
    }
  }

  /** A participant's share for one shard lies between the base penalty and
      the base reward, because a tally never has more participating deposits
      than deposits. */
  lemma ParticipantAmountBounds(ctx: RewardContext, t: Tally, balance: nat)
    requires t.participated <= t.total
    ensures -(balance / Max(ctx.rewardQuotient, 1)) <= AmountIfDefined(ParticipantAmount(ctx, t), balance)
    ensures AmountIfDefined(ParticipantAmount(ctx, t), balance) <= balance / Max(ctx.rewardQuotient, 1)
  {
    if Divisible(ParticipantAmount(ctx, t)) {
      ShareBounds(balance, ctx.rewardQuotient, t.participated, t.total);
    }
  }

  /** Validator `i` sits in some committee of `slot`. */
  predicate InCommitteeAt(cs: CrystallizedState, oracle: Oracle, slot: nat, i: nat) {
    match oracle.shardsAndCommitteesForSlot(cs, slot)
    case None => false
    case Some(committees) => exists c :: 0 <= c < |committees| && i in committees[c].committee
  }

  /** A validator in no committee of the cycle's slots gets no crosslink
      amount. */
  lemma CrosslinkRewardsUnseated(cs: CrystallizedState, active: ActiveState, block: Block, config: Config, oracle: Oracle,
                                 ctx: RewardContext, i: nat)
    requires CrosslinkRewards(cs, active, block, config, oracle, ctx).Success?
    requires i < |cs.validators|
    requires forall slot :: CycleStart(cs, config) <= slot < cs.lastStateRecalc ==> !InCommitteeAt(cs, oracle, slot, i)
    ensures CrosslinkRewards(cs, active, block, config, oracle, ctx).value[i] == 0
  {
    CrosslinkRewardsSpec(cs, active, block, config, oracle, ctx, i);
    var tallies := CycleTallies(cs, active, config, oracle).value;
    forall k, voted | 0 <= k < |tallies|
      ensures i !in Side(tallies[k].tally, voted)
    {
      if i in Side(tallies[k].tally, voted) {
        var s := tallies[k].shardId;
        assert ListedFor(tallies, s, i, voted);
        CycleTalliesListed(cs, active, config, oracle, s, i, voted);
        var slot :| CycleStart(cs, config) <= slot < cs.lastStateRecalc && SeatedAt(cs, active, oracle, slot, s, i, voted);
        var committees := oracle.shardsAndCommitteesForSlot(cs, slot).value;
        var c, j :| 0 <= c < |committees| && committees[c].shardId == s && 0 <= j < |committees[c].committee| &&
          committees[c].committee[j] == i &&
          HasVoted(CommitteeBitfield(active.pendingAttestations, slot, s, |committees[c].committee|), j) == voted;
        assert i in committees[c].committee;
        assert InCommitteeAt(cs, oracle, slot, i);
        assert false;
      }
    }
    forall k | 0 <= k < |tallies|
      ensures i !in tallies[k].tally.participants && i !in tallies[k].tally.absentees
    {
      assert i !in Side(tallies[k].tally, true);
      assert i !in Side(tallies[k].tally, false);
    }
    CrosslinkReferenceUnlisted(cs, block, ctx, tallies, |tallies|, i);
  }

  /** Every participant share of the cycle's tallies lies between the base
      penalty and the base reward. */
  lemma CycleParticipantAmountBounds(cs: CrystallizedState, active: ActiveState, config: Config, oracle: Oracle,
                                     ctx: RewardContext, k: nat, balance: nat)
    requires CycleTallies(cs, active, config, oracle).Success?
    requires k < |CycleTallies(cs, active, config, oracle).value|
    ensures var t := CycleTallies(cs, active, config, oracle).value[k].tally;
      && -(balance / Max(ctx.rewardQuotient, 1)) <= AmountIfDefined(ParticipantAmount(ctx, t), balance)
      && AmountIfDefined(ParticipantAmount(ctx, t), balance) <= balance / Max(ctx.rewardQuotient, 1)
  {
    TallySlotsInvariant(cs, active, oracle, CycleStart(cs, config), CycleSlots(cs, config));
    ParticipantAmountBounds(ctx, CycleTallies(cs, active, config, oracle).value[k].tally, balance);
  }
}
