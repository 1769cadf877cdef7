/** Crosslink updates at the start of a new cycle
    (`process_updated_crosslinks`).

    The pending attestations are walked in order. Each adds the balance of
    its voters to a running total kept per (shard, shard block hash); when
    that total reaches two thirds of the balance of the attestation's
    committee and the shard's crosslink is from an earlier dynasty, the
    crosslink is replaced by one for the current dynasty.
 */
module Crosslinks {
  import opened Results
  import opened Bitfields
  import opened BeaconTypes
  import opened Helpers
  import opened Justification

  type TallyKey = (nat, Hash)

  function Key(a: Attestation): TallyKey {
    (a.shardId, a.shardBlockHash)
  }

  /** The crosslinks so far and the running attested balance per key. */
  datatype CrosslinkTally = CrosslinkTally(crosslinks: seq<CrosslinkRecord>, attested: map<TallyKey, nat>)

  function Attested(t: CrosslinkTally, key: TallyKey): nat {
    if key in t.attested then t.attested[key] else 0
  }

  /** The crosslink a supermajority installs during the cycle after
      `lastStateRecalc`. */
  function NewCrosslink(cs: CrystallizedState, config: Config, h: Hash): CrosslinkRecord {
    CrosslinkRecord(cs.currentDynasty, cs.lastStateRecalc + config.cycleLength, h)
  }

  /** The committee of `a`, or `[]` when its lookup would raise or name a
      validator outside the registry. */
  function CommitteeOf(cs: CrystallizedState, oracle: Oracle, a: Attestation): (c: seq<nat>)
    ensures AllBelow(c, |cs.validators|)
  {
    match oracle.attestationIndices(cs, a)
    case None => []
    case Some(c) => if AllBelow(c, |cs.validators|) then c else []
  }

  /** The balance of `a`'s committee. */
  function CommitteeBalanceOf(cs: CrystallizedState, oracle: Oracle, a: Attestation): nat {
    BalanceSum(cs.validators, CommitteeOf(cs, oracle, a))
  }

  /** The balance of the members of `a`'s committee that voted. */
  function VotedBalanceOf(cs: CrystallizedState, oracle: Oracle, a: Attestation): nat {
    VotedBalanceSum(cs.validators, CommitteeOf(cs, oracle, a), a.attesterBitfield, 0)
  }

  /** The balance attested to `key` by the first `n` attestations. */
  function RunningAttested(cs: CrystallizedState, oracle: Oracle, atts: seq<Attestation>, n: nat, key: TallyKey): nat
    requires n <= |atts|
  {
    if n == 0 then 0
    else
      var own := if Key(atts[n - 1]) == key then VotedBalanceOf(cs, oracle, atts[n - 1]) else 0;
      RunningAttested(cs, oracle, atts, n - 1, key) + own
  }

  /** Attestation `k` brings its (shard, hash) to two thirds of its
      committee's balance. */
  predicate Qualifies(cs: CrystallizedState, oracle: Oracle, atts: seq<Attestation>, k: nat)
    requires k < |atts|
  {
    Supermajority(RunningAttested(cs, oracle, atts, k + 1, Key(atts[k])), CommitteeBalanceOf(cs, oracle, atts[k]))
  }

  /** Attestation `k` is the first of `atts` to bring a (shard, hash) of its
      shard to two thirds: no earlier attestation for the same shard
      qualifies. Once that one has made the shard current, the dynasty test
      turns every later one away. */
  predicate FirstQualifying(cs: CrystallizedState, oracle: Oracle, atts: seq<Attestation>, k: nat)
    requires k < |atts|
  {
    && Qualifies(cs, oracle, atts, k)
    && forall k' :: 0 <= k' < k && atts[k'].shardId == atts[k].shardId ==> !Qualifies(cs, oracle, atts, k')
  }

  /** One iteration of the loop, for attestation `a`. */
  function CrosslinkStep(cs: CrystallizedState, config: Config, oracle: Oracle, t: CrosslinkTally, a: Attestation): Result<CrosslinkTally> {
    match oracle.attestationIndices(cs, a)
    case None => Failure(Raised(HelperError))
    case Some(committee) =>
      if !AllBelow(committee, |cs.validators|) then Failure(Raised(IndexError))
      else
        var committeeBalance := BalanceSum(cs.validators, committee);
        var attested := Attested(t, Key(a)) + VotedBalanceSum(cs.validators, committee, a.attesterBitfield, 0);
        var tally := t.attested[Key(a) := attested];
        if !Supermajority(attested, committeeBalance) then Success(CrosslinkTally(t.crosslinks, tally))
        else if a.shardId >= |t.crosslinks| then Failure(Raised(IndexError))
        else if cs.currentDynasty > t.crosslinks[a.shardId].dynasty then
          Success(CrosslinkTally(t.crosslinks[a.shardId := NewCrosslink(cs, config, a.shardBlockHash)], tally))
        else Success(CrosslinkTally(t.crosslinks, tally))
  }

  /** The loop over the first `n` attestations of `atts`. */
  function CrosslinkFold(cs: CrystallizedState, config: Config, oracle: Oracle, atts: seq<Attestation>, n: nat): Result<CrosslinkTally>
    requires n <= |atts|
  {
    if n == 0 then Success(CrosslinkTally(cs.crosslinkRecords, map[]))
    else
      var before :- CrosslinkFold(cs, config, oracle, atts, n - 1);
      CrosslinkStep(cs, config, oracle, before, atts[n - 1])
  }

  /** `process_updated_crosslinks`. */
  function ProcessUpdatedCrosslinks(cs: CrystallizedState, active: ActiveState, config: Config, oracle: Oracle): Result<seq<CrosslinkRecord>> {
    var t :- CrosslinkFold(cs, config, oracle, active.pendingAttestations, |active.pendingAttestations|);
    Success(t.crosslinks)
  }

  /** One iteration adds the attestation's voted balance to its own key only,
      keeps the length, changes at most the attestation's shard (and then from
      an older dynasty to the current one, on a supermajority), and leaves
      that shard current whenever the new total is a supermajority. */
  lemma CrosslinkStepSpec(cs: CrystallizedState, config: Config, oracle: Oracle, t: CrosslinkTally, a: Attestation)
    requires CrosslinkStep(cs, config, oracle, t, a).Success?
    ensures var r := CrosslinkStep(cs, config, oracle, t, a).value;
      && (forall key :: Attested(r, key) == Attested(t, key) + if key == Key(a) then VotedBalanceOf(cs, oracle, a) else 0)
      && |r.crosslinks| == |t.crosslinks|
      && (forall j :: 0 <= j < |r.crosslinks| && r.crosslinks[j] != t.crosslinks[j] ==>
            && j == a.shardId
            && t.crosslinks[j].dynasty < cs.currentDynasty
            && r.crosslinks[j] == NewCrosslink(cs, config, a.shardBlockHash)
            && Supermajority(Attested(r, Key(a)), CommitteeBalanceOf(cs, oracle, a)))
      && (Supermajority(Attested(r, Key(a)), CommitteeBalanceOf(cs, oracle, a)) ==>
            a.shardId < |r.crosslinks| && r.crosslinks[a.shardId].dynasty >= cs.currentDynasty)
  {
    assert CommitteeOf(cs, oracle, a) == oracle.attestationIndices(cs, a).value;
  }

  /** The running totals of the loop are the prefix sums of the voted
      balances. */
  lemma {:induction false} CrosslinkFoldTotals(cs: CrystallizedState, config: Config, oracle: Oracle, atts: seq<Attestation>, n: nat)
    requires n <= |atts|
    requires CrosslinkFold(cs, config, oracle, atts, n).Success?
    ensures forall key :: Attested(CrosslinkFold(cs, config, oracle, atts, n).value, key) == RunningAttested(cs, oracle, atts, n, key)
  {
    if n > 0 {
      CrosslinkFoldTotals(cs, config, oracle, atts, n - 1);
      CrosslinkStepSpec(cs, config, oracle, CrosslinkFold(cs, config, oracle, atts, n - 1).value, atts[n - 1]);
    }
  }

  /** An entry the loop changes had a dynasty older than the current one and
      now holds the current dynasty's crosslink for the shard block hash of
      the first attestation for that shard that brought its total to two
      thirds of its committee. */
  lemma {:induction false} CrosslinkFoldReplaced(cs: CrystallizedState, config: Config, oracle: Oracle, atts: seq<Attestation>, n: nat)
    requires n <= |atts|
    requires CrosslinkFold(cs, config, oracle, atts, n).Success?
    ensures var r := CrosslinkFold(cs, config, oracle, atts, n).value.crosslinks;
      && |r| == |cs.crosslinkRecords|
      && (forall j :: 0 <= j < |r| && r[j] != cs.crosslinkRecords[j] ==>
            && cs.crosslinkRecords[j].dynasty < cs.currentDynasty
            && exists k :: 0 <= k < n && atts[k].shardId == j && FirstQualifying(cs, oracle, atts, k) &&
                 r[j] == NewCrosslink(cs, config, atts[k].shardBlockHash))
  {
    if n > 0 {
      var before := CrosslinkFold(cs, config, oracle, atts, n - 1).value;
      var r := CrosslinkFold(cs, config, oracle, atts, n).value;
      CrosslinkFoldReplaced(cs, config, oracle, atts, n - 1);
      CrosslinkFoldTotals(cs, config, oracle, atts, n);
      CrosslinkStepSpec(cs, config, oracle, before, atts[n - 1]);
      forall j | 0 <= j < |r.crosslinks| && r.crosslinks[j] != cs.crosslinkRecords[j]
        ensures exists k :: 0 <= k < n && atts[k].shardId == j && FirstQualifying(cs, oracle, atts, k) &&
                  r.crosslinks[j] == NewCrosslink(cs, config, atts[k].shardBlockHash)
      {
        if r.crosslinks[j] != before.crosslinks[j] {
          assert Qualifies(cs, oracle, atts, n - 1);
          forall k' | 0 <= k' < n - 1 && atts[k'].shardId == j
            ensures !Qualifies(cs, oracle, atts, k')
          {
            if Qualifies(cs, oracle, atts, k') {
              CrosslinkFoldComplete(cs, config, oracle, atts, n - 1, k');
              assert false;
            }
          }
          assert FirstQualifying(cs, oracle, atts, n - 1);
        } else {
          var k :| 0 <= k < n - 1 && atts[k].shardId == j && FirstQualifying(cs, oracle, atts, k) &&
                   before.crosslinks[j] == NewCrosslink(cs, config, atts[k].shardBlockHash);
        }
      }
    }
  }

  /** The loop never lowers the dynasty of a crosslink. */
  lemma {:induction false} CrosslinkFoldMonotone(cs: CrystallizedState, config: Config, oracle: Oracle, atts: seq<Attestation>, m: nat, n: nat)
    requires m <= n <= |atts|
    requires CrosslinkFold(cs, config, oracle, atts, n).Success?
    ensures CrosslinkFold(cs, config, oracle, atts, m).Success?
    ensures var early := CrosslinkFold(cs, config, oracle, atts, m).value.crosslinks;
      var late := CrosslinkFold(cs, config, oracle, atts, n).value.crosslinks;
      && |late| == |early|
      && forall j :: 0 <= j < |late| ==> late[j].dynasty >= early[j].dynasty
    decreases n - m
  {
    if m < n {
      CrosslinkFoldMonotone(cs, config, oracle, atts, m, n - 1);
      CrosslinkStepSpec(cs, config, oracle, CrosslinkFold(cs, config, oracle, atts, n - 1).value, atts[n - 1]);
    }
  }

  /** Every shard an attestation brought to two thirds of its committee ends
      the loop with a crosslink of the current dynasty or later. */
  lemma CrosslinkFoldComplete(cs: CrystallizedState, config: Config, oracle: Oracle, atts: seq<Attestation>, n: nat, k: nat)
    requires k < n <= |atts|
    requires CrosslinkFold(cs, config, oracle, atts, n).Success?
    requires Qualifies(cs, oracle, atts, k)
    ensures var r := CrosslinkFold(cs, config, oracle, atts, n).value.crosslinks;
      atts[k].shardId < |r| && r[atts[k].shardId].dynasty >= cs.currentDynasty
  {
    CrosslinkFoldMonotone(cs, config, oracle, atts, k + 1, n);
    CrosslinkFoldTotals(cs, config, oracle, atts, k + 1);
    CrosslinkStepSpec(cs, config, oracle, CrosslinkFold(cs, config, oracle, atts, k).value, atts[k]);
  }

  /** The crosslink update on the state itself: same number of shards; a
      shard's crosslink is replaced only by the current dynasty's crosslink
      (slot `lastStateRecalc + cycleLength`), only when the old one is from an
      earlier dynasty, and only for the hash of the first pending attestation
      for that shard that reached two thirds of its committee's balance; every shard
      that reached it ends with a current crosslink. */
  lemma ProcessUpdatedCrosslinksSpec(cs: CrystallizedState, active: ActiveState, config: Config, oracle: Oracle)
    requires ProcessUpdatedCrosslinks(cs, active, config, oracle).Success?
    ensures var r := ProcessUpdatedCrosslinks(cs, active, config, oracle).value;
      var atts := active.pendingAttestations;
      && |r| == |cs.crosslinkRecords|
      && (forall j :: 0 <= j < |r| && r[j] != cs.crosslinkRecords[j] ==>
            && cs.crosslinkRecords[j].dynasty < cs.currentDynasty
            && r[j].dynasty == cs.currentDynasty
            && r[j].slot == cs.lastStateRecalc + config.cycleLength
            && exists k :: 0 <= k < |atts| && atts[k].shardId == j && FirstQualifying(cs, oracle, atts, k) &&
                 r[j].hash == atts[k].shardBlockHash)
      && (forall k :: 0 <= k < |atts| && Qualifies(cs, oracle, atts, k) ==>
            atts[k].shardId < |r| && r[atts[k].shardId].dynasty >= cs.currentDynasty)
  {
    var atts := active.pendingAttestations;
    CrosslinkFoldReplaced(cs, config, oracle, atts, |atts|);
    forall k | 0 <= k < |atts| && Qualifies(cs, oracle, atts, k)
      ensures atts[k].shardId < |ProcessUpdatedCrosslinks(cs, active, config, oracle).value|
      ensures ProcessUpdatedCrosslinks(cs, active, config, oracle).value[atts[k].shardId].dynasty >= cs.currentDynasty
    {
      CrosslinkFoldComplete(cs, config, oracle, atts, |atts|, k);
    }
  }
}
