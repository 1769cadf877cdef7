/** The block vote cache (`get_updated_block_vote_cache`): for every block
    hash an attestation signs, the set of distinct validators that voted for
    it and their summed balance.
 */
module VoteCache {
  import opened Results
  import opened Bitfields
  import opened BeaconTypes
  import opened Helpers

  /** The validators of `committee` (from position `from` on) whose bit is
      set. */
  function VotedSet(committee: seq<nat>, bitfield: Bitfield, from: nat): (s: set<nat>)
    ensures forall v :: v in s <==> exists k :: from <= k < |committee| && HasVoted(bitfield, k) && committee[k] == v
    decreases |committee| - from
  {
    if from >= |committee| then {}
    else
      var rest := VotedSet(committee, bitfield, from + 1);
      if HasVoted(bitfield, from) then {committee[from]} + rest else rest
  }

  /** The summed balance of a set of registry indices. */
  ghost function BalanceOfSet(validators: seq<Validator>, s: set<nat>): nat
    requires forall v | v in s :: v < |validators|
    decreases s
  {
    if s == {} then 0
    else
      var v :| v in s;
      validators[v].balance + BalanceOfSet(validators, s - {v})
  }

  /** The sum does not depend on which element is taken out first. */
  lemma BalanceOfSetRemove(validators: seq<Validator>, s: set<nat>, v: nat)
    requires forall x | x in s :: x < |validators|
    requires v in s
    ensures BalanceOfSet(validators, s) == validators[v].balance + BalanceOfSet(validators, s - {v})
    decreases s
  {
    var w :| w in s && BalanceOfSet(validators, s) == validators[w].balance + BalanceOfSet(validators, s - {w});
    if w != v {
      BalanceOfSetRemove(validators, s - {w}, v);
      BalanceOfSetRemove(validators, s - {v}, w);
      assert s - {w} - {v} == s - {v} - {w};
    }
  }

  /** The cache's running totals agree with the balances of its voters. */
  ghost predicate Consistent(cache: BlockVoteCache, validators: seq<Validator>) {
    forall h | h in cache :: EntryConsistent(cache[h], validators)
  }

  /** One voter: counted (with its balance) the first time only. */
  function AddVoter(entry: VoteRecord, v: nat, validators: seq<Validator>): (r: Result<VoteRecord>)
    ensures v in entry.voterIndices ==> r == Success(entry)
    ensures v !in entry.voterIndices && v < |validators| ==>
      r == Success(VoteRecord(entry.voterIndices + {v}, entry.totalVoterDeposits + validators[v].balance))
    ensures v !in entry.voterIndices && v >= |validators| ==> r == Failure(Raised(IndexError))
  {
    if v in entry.voterIndices then Success(entry)
    else if v >= |validators| then Failure(Raised(IndexError))
    else Success(VoteRecord(entry.voterIndices + {v}, entry.totalVoterDeposits + validators[v].balance))
  }

  /** The committee loop for one parent hash. */
  function AddVotes(entry: VoteRecord, validators: seq<Validator>, committee: seq<nat>, bitfield: Bitfield, from: nat): Result<VoteRecord>
    decreases |committee| - from
  {
    if from >= |committee| then Success(entry)
    else if HasVoted(bitfield, from) then
      var next :- AddVoter(entry, committee[from], validators);
      AddVotes(next, validators, committee, bitfield, from + 1)
    else AddVotes(entry, validators, committee, bitfield, from + 1)
  }

  /** The committee loop adds exactly the voters whose bit is set and only
      grows the total. */
  lemma {:induction false} AddVotesVoters(entry: VoteRecord, validators: seq<Validator>, committee: seq<nat>, bitfield: Bitfield, from: nat)
    requires AddVotes(entry, validators, committee, bitfield, from).Success?
    ensures var r := AddVotes(entry, validators, committee, bitfield, from).value;
      && r.voterIndices == entry.voterIndices + VotedSet(committee, bitfield, from)
      && r.totalVoterDeposits >= entry.totalVoterDeposits
      && (forall v | v in r.voterIndices && v !in entry.voterIndices :: v < |validators|)
    decreases |committee| - from
  {
    if from < |committee| {
      if HasVoted(bitfield, from) {
        var next := AddVoter(entry, committee[from], validators).value;
        AddVotesVoters(next, validators, committee, bitfield, from + 1);
      } else {
        AddVotesVoters(entry, validators, committee, bitfield, from + 1);
      }
    }
  }

  /** Entry whose total is the balance of its (registered) voters. */
  ghost predicate EntryConsistent(entry: VoteRecord, validators: seq<Validator>) {
    && (forall v | v in entry.voterIndices :: v < |validators|)
    && entry.totalVoterDeposits == BalanceOfSet(validators, entry.voterIndices)
  }

  /** Adding one voter keeps the total equal to the voters' balance: a new
      voter's balance is added once, a known voter's not at all. */
  lemma AddVoterConsistent(entry: VoteRecord, v: nat, validators: seq<Validator>)
    requires AddVoter(entry, v, validators).Success?
    requires EntryConsistent(entry, validators)
    ensures EntryConsistent(AddVoter(entry, v, validators).value, validators)
  {
    if v !in entry.voterIndices {
      var next := AddVoter(entry, v, validators).value;
      BalanceOfSetRemove(validators, next.voterIndices, v);
      assert next.voterIndices - {v} == entry.voterIndices;
    }
  }

  /** The committee loop keeps the total equal to the voters' balance. */
  lemma {:induction false} AddVotesConsistent(entry: VoteRecord, validators: seq<Validator>, committee: seq<nat>, bitfield: Bitfield, from: nat)
    requires AddVotes(entry, validators, committee, bitfield, from).Success?
    requires EntryConsistent(entry, validators)
    ensures EntryConsistent(AddVotes(entry, validators, committee, bitfield, from).value, validators)
    decreases |committee| - from
  {
    if from < |committee| {
      if HasVoted(bitfield, from) {
        AddVoterConsistent(entry, committee[from], validators);
        var next := AddVoter(entry, committee[from], validators).value;
        AddVotesConsistent(next, validators, committee, bitfield, from + 1);
      } else {
        AddVotesConsistent(entry, validators, committee, bitfield, from + 1);
      }
    }
  }

  /** A committee whose voters are all registry indices never makes the loop
      raise. */
  lemma {:induction false} AddVotesSucceeds(entry: VoteRecord, validators: seq<Validator>, committee: seq<nat>, bitfield: Bitfield, from: nat)
    requires forall k :: from <= k < |committee| && HasVoted(bitfield, k) ==> committee[k] < |validators|
    ensures AddVotes(entry, validators, committee, bitfield, from).Success?
    decreases |committee| - from
  {
    if from < |committee| {
      if HasVoted(bitfield, from) {
        AddVotesSucceeds(AddVoter(entry, committee[from], validators).value, validators, committee, bitfield, from + 1);
      } else {
        AddVotesSucceeds(entry, validators, committee, bitfield, from + 1);
      }
    }
  }

  /** The parent-hash loop, skipping oblique hashes. */
  function UpdateHashes(cache: BlockVoteCache, parentHashes: seq<Hash>, oblique: seq<Hash>,
                        validators: seq<Validator>, committee: seq<nat>, bitfield: Bitfield): Result<BlockVoteCache>
    decreases |parentHashes|
  {
    if |parentHashes| == 0 then Success(cache)
    else
      var h := parentHashes[0];
      if h in oblique then UpdateHashes(cache, parentHashes[1..], oblique, validators, committee, bitfield)
      else
        var entry := if h in cache then cache[h] else EmptyVoteRecord;
        var updated :- AddVotes(entry, validators, committee, bitfield, 0);
        UpdateHashes(cache[h := updated], parentHashes[1..], oblique, validators, committee, bitfield)
  }

  /** The hashes whose entries an attestation updates. */
  function Voted(parentHashes: seq<Hash>, oblique: seq<Hash>): set<Hash> {
    set h | h in parentHashes && h !in oblique
  }

  /** What the parent-hash loop does to the cache: the entry of every signed,
      non-oblique hash gains exactly the attestation's voters; every other
      entry, oblique hashes included, is left as it was; and entries only
      grow. */
  lemma {:induction false} UpdateHashesSpec(cache: BlockVoteCache, parentHashes: seq<Hash>, oblique: seq<Hash>,
                                            validators: seq<Validator>, committee: seq<nat>, bitfield: Bitfield)
    requires UpdateHashes(cache, parentHashes, oblique, validators, committee, bitfield).Success?
    ensures var r := UpdateHashes(cache, parentHashes, oblique, validators, committee, bitfield).value;
      && r.Keys == cache.Keys + Voted(parentHashes, oblique)
      && (forall h | h in cache && h !in Voted(parentHashes, oblique) :: r[h] == cache[h])
      && (forall h | h in Voted(parentHashes, oblique) ::
            r[h].voterIndices == (if h in cache then cache[h].voterIndices else {}) + VotedSet(committee, bitfield, 0))
      && (forall h | h in cache :: cache[h].totalVoterDeposits <= r[h].totalVoterDeposits)
    decreases |parentHashes|
  {
    if |parentHashes| > 0 {
      var h := parentHashes[0];
      var rest := parentHashes[1..];
      assert Voted(parentHashes, oblique) == (if h in oblique then {} else {h}) + Voted(rest, oblique);
      if h in oblique {
        UpdateHashesSpec(cache, rest, oblique, validators, committee, bitfield);
      } else {
        var entry := if h in cache then cache[h] else EmptyVoteRecord;
        AddVotesVoters(entry, validators, committee, bitfield, 0);
        var updated := AddVotes(entry, validators, committee, bitfield, 0).value;
        UpdateHashesSpec(cache[h := updated], rest, oblique, validators, committee, bitfield);
      }
    }
  }

  /** The parent-hash loop keeps every total equal to its voters' balance. */
  lemma {:induction false} UpdateHashesConsistent(cache: BlockVoteCache, parentHashes: seq<Hash>, oblique: seq<Hash>,
                                                  validators: seq<Validator>, committee: seq<nat>, bitfield: Bitfield)
    requires UpdateHashes(cache, parentHashes, oblique, validators, committee, bitfield).Success?
    requires Consistent(cache, validators)
    ensures Consistent(UpdateHashes(cache, parentHashes, oblique, validators, committee, bitfield).value, validators)
    decreases |parentHashes|
  {
    if |parentHashes| > 0 {
      var h := parentHashes[0];
      var rest := parentHashes[1..];
      if h in oblique {
        UpdateHashesConsistent(cache, rest, oblique, validators, committee, bitfield);
      } else {
        var entry := if h in cache then cache[h] else EmptyVoteRecord;
        assert EntryConsistent(entry, validators);
        AddVotesConsistent(entry, validators, committee, bitfield, 0);
        var updated := AddVotes(entry, validators, committee, bitfield, 0).value;
        UpdateHashesConsistent(cache[h := updated], rest, oblique, validators, committee, bitfield);
      }
    }
  }

  /** `get_updated_block_vote_cache`: record the votes of attestation `a` for
      every parent hash it signs. */
  function UpdatedBlockVoteCache(cs: CrystallizedState, active: ActiveState, a: Attestation, block: Block,
                                 cache: BlockVoteCache, oracle: Oracle): (r: Result<BlockVoteCache>)
    ensures oracle.attestationIndices(cs, a).None? ==> r == Failure(Raised(HelperError))
    ensures r.Success? ==> oracle.attestationIndices(cs, a).Some?
  {
    var parentHashes := oracle.signedParentHashes(active, block, a);
    match oracle.attestationIndices(cs, a)
    case None => Failure(Raised(HelperError))
    case Some(committee) =>
      UpdateHashes(cache, parentHashes, a.obliqueParentHashes, cs.validators, committee, a.attesterBitfield)
  }

  /** The cache update of one attestation, stated on the attestation itself:
      each signed non-oblique parent hash gains exactly the validators whose
      bit is set (a validator already present is not added or counted twice),
      oblique and unsigned hashes keep their entries, and totals stay equal to
      the voters' balances. */
  lemma UpdatedBlockVoteCacheSpec(cs: CrystallizedState, active: ActiveState, a: Attestation, block: Block,
                                  cache: BlockVoteCache, oracle: Oracle)
    requires UpdatedBlockVoteCache(cs, active, a, block, cache, oracle).Success?
    ensures var r := UpdatedBlockVoteCache(cs, active, a, block, cache, oracle).value;
      var signed := Voted(oracle.signedParentHashes(active, block, a), a.obliqueParentHashes);
      var committee := oracle.attestationIndices(cs, a).value;
      && r.Keys == cache.Keys + signed
      && (forall h | h in a.obliqueParentHashes && h in cache :: r[h] == cache[h])
      && (forall h | h in cache && h !in signed :: r[h] == cache[h])
      && (forall h | h in signed :: forall v ::
            v in r[h].voterIndices <==>
            (h in cache && v in cache[h].voterIndices) ||
            exists k :: 0 <= k < |committee| && HasVoted(a.attesterBitfield, k) && committee[k] == v)
      && (forall h | h in cache :: cache[h].voterIndices <= r[h].voterIndices)
      && (forall h | h in cache :: cache[h].totalVoterDeposits <= r[h].totalVoterDeposits)
      && (Consistent(cache, cs.validators) ==> Consistent(r, cs.validators))
  {
    var committee := oracle.attestationIndices(cs, a).value;
    var parentHashes := oracle.signedParentHashes(active, block, a);
    UpdateHashesSpec(cache, parentHashes, a.obliqueParentHashes, cs.validators, committee, a.attesterBitfield);
    if Consistent(cache, cs.validators) {
      UpdateHashesConsistent(cache, parentHashes, a.obliqueParentHashes, cs.validators, committee, a.attesterBitfield);
    }
  }

  /** A committee whose voters are all registry indices (which attestation
      validation checks) never makes the update raise. */
  lemma {:induction false} UpdateHashesSucceeds(cache: BlockVoteCache, parentHashes: seq<Hash>, oblique: seq<Hash>,
                                               validators: seq<Validator>, committee: seq<nat>, bitfield: Bitfield)
    requires forall k :: 0 <= k < |committee| && HasVoted(bitfield, k) ==> committee[k] < |validators|
    ensures UpdateHashes(cache, parentHashes, oblique, validators, committee, bitfield).Success?
    decreases |parentHashes|
  {
    if |parentHashes| > 0 {
      var h := parentHashes[0];
      if h in oblique {
        UpdateHashesSucceeds(cache, parentHashes[1..], oblique, validators, committee, bitfield);
      } else {
        var entry := if h in cache then cache[h] else EmptyVoteRecord;
        AddVotesSucceeds(entry, validators, committee, bitfield, 0);
        var updated := AddVotes(entry, validators, committee, bitfield, 0).value;
        UpdateHashesSucceeds(cache[h := updated], parentHashes[1..], oblique, validators, committee, bitfield);
      }
    }
  }
}
