/** The justification and finalization sweep at the start of a new cycle
    (the first loop of `initialize_new_cycle`).

    The sweep walks the `cycleLength` slots before the last state
    recalculation. A slot whose block gathered votes worth at least two
    thirds of the total deposits is justified: the last justified slot moves
    up to it and the justified streak grows by one; any other slot resets the
    streak. Once the streak reaches `cycleLength + 1`, the slot
    `cycleLength + 1` before the current one is finalized.
 */
module Justification {
  import opened Results
  import opened BeaconTypes
  import opened Helpers

  datatype Finality = Finality(lastJustifiedSlot: nat, justifiedStreak: nat, lastFinalizedSlot: nat)

  /** The two-thirds rule, in integers: `3 * vote >= 2 * total`. */
  predicate Supermajority(vote: nat, total: nat) {
    3 * vote >= 2 * total
  }

  /** One iteration of the sweep, for the block at `slot` with `vote`
      deposits behind it. */
  function SweepStep(f: Finality, slot: int, vote: nat, total: nat, cycleLength: nat): Finality {
    var justified := Supermajority(vote, total);
    var lastJustified := if justified then Max(f.lastJustifiedSlot, slot) else f.lastJustifiedSlot;
    var streak := if justified then f.justifiedStreak + 1 else 0;
    var lastFinalized :=
      if streak >= cycleLength + 1 then Max(f.lastFinalizedSlot, slot - cycleLength - 1)
      else f.lastFinalizedSlot;
    Finality(lastJustified, streak, lastFinalized)
  }

  /** The sweep over consecutive slots `firstSlot, firstSlot + 1, ...`, one
      per entry of `votes`, in order. */
  function Sweep(f: Finality, firstSlot: int, votes: seq<nat>, total: nat, cycleLength: nat): Finality
    decreases |votes|
  {
    if |votes| == 0 then f
    else
      var n := |votes|;
      SweepStep(Sweep(f, firstSlot, votes[..n - 1], total, cycleLength), firstSlot + n - 1, votes[n - 1], total, cycleLength)
  }

  /** The last justified slot after the sweep is the larger of the old one
      and the latest slot with a supermajority: it never decreases, it is at
      least every supermajority slot, and it changes only to such a slot. */
  lemma {:induction false} SweepJustified(f: Finality, firstSlot: int, votes: seq<nat>, total: nat, cycleLength: nat)
    ensures var r := Sweep(f, firstSlot, votes, total, cycleLength);
      && r.lastJustifiedSlot >= f.lastJustifiedSlot
      && (forall k :: 0 <= k < |votes| && Supermajority(votes[k], total) ==> r.lastJustifiedSlot >= firstSlot + k)
      && (r.lastJustifiedSlot == f.lastJustifiedSlot ||
          exists k :: 0 <= k < |votes| && Supermajority(votes[k], total) && r.lastJustifiedSlot == firstSlot + k)
    decreases |votes|
  {
    if |votes| > 0 {
      var n := |votes|;
      var prefix := votes[..n - 1];
      SweepJustified(f, firstSlot, prefix, total, cycleLength);
      assert forall k :: 0 <= k < n - 1 ==> prefix[k] == votes[k];
    }
  }

  /** Sweeping one more slot moves the streak up by one on a supermajority
      and resets it to zero otherwise, and finalizes the slot
      `cycleLength + 1` before it exactly when the streak reaches
      `cycleLength + 1`. */
  lemma SweepStreakStep(f: Finality, firstSlot: int, votes: seq<nat>, vote: nat, total: nat, cycleLength: nat)
    ensures var before := Sweep(f, firstSlot, votes, total, cycleLength);
      var after := Sweep(f, firstSlot, votes + [vote], total, cycleLength);
      var slot := firstSlot + |votes|;
      && after.justifiedStreak == (if Supermajority(vote, total) then before.justifiedStreak + 1 else 0)
      && after.lastFinalizedSlot ==
           (if after.justifiedStreak >= cycleLength + 1 then Max(before.lastFinalizedSlot, slot - cycleLength - 1)
            else before.lastFinalizedSlot)
  {
    assert (votes + [vote])[..|votes|] == votes;
  }

  /** When every swept slot had a supermajority, the streak grows by the
      number of slots. */
  lemma {:induction false} SweepStreakUnbroken(f: Finality, firstSlot: int, votes: seq<nat>, total: nat, cycleLength: nat)
    requires forall k :: 0 <= k < |votes| ==> Supermajority(votes[k], total)
    ensures Sweep(f, firstSlot, votes, total, cycleLength).justifiedStreak == f.justifiedStreak + |votes|
    decreases |votes|
  {
    if |votes| > 0 {
      var prefix := votes[..|votes| - 1];
      assert forall k :: 0 <= k < |prefix| ==> prefix[k] == votes[k];
      SweepStreakUnbroken(f, firstSlot, prefix, total, cycleLength);
    }
  }

  /** When slot `m` was the last without a supermajority, the streak counts
      the slots after it. */
  lemma {:induction false} SweepStreakBroken(f: Finality, firstSlot: int, votes: seq<nat>, total: nat, cycleLength: nat, m: nat)
    requires m < |votes| && !Supermajority(votes[m], total)
    requires forall k :: m < k < |votes| ==> Supermajority(votes[k], total)
    ensures Sweep(f, firstSlot, votes, total, cycleLength).justifiedStreak == |votes| - 1 - m
    decreases |votes|
  {
    var prefix := votes[..|votes| - 1];
    if m < |votes| - 1 {
      assert forall k :: 0 <= k < |prefix| ==> prefix[k] == votes[k];
      SweepStreakBroken(f, firstSlot, prefix, total, cycleLength, m);
    }
  }

  /** The streak right after slot `firstSlot + k` has been swept. */
  function StreakAfter(f: Finality, firstSlot: int, votes: seq<nat>, total: nat, cycleLength: nat, k: nat): nat
    requires k < |votes|
  {
    Sweep(f, firstSlot, votes[..k + 1], total, cycleLength).justifiedStreak
  }

  /** The last finalized slot never decreases, and it moves only to
      `slot - cycleLength - 1` for a slot after which the streak had reached
      `cycleLength + 1` (and to the latest such). */
  lemma {:induction false} SweepFinalized(f: Finality, firstSlot: int, votes: seq<nat>, total: nat, cycleLength: nat)
    ensures var r := Sweep(f, firstSlot, votes, total, cycleLength);
      && r.lastFinalizedSlot >= f.lastFinalizedSlot
      && (forall k: nat :: k < |votes| && StreakAfter(f, firstSlot, votes, total, cycleLength, k) >= cycleLength + 1 ==>
            r.lastFinalizedSlot >= firstSlot + k - cycleLength - 1)
      && (r.lastFinalizedSlot == f.lastFinalizedSlot ||
          exists k: nat :: k < |votes| && StreakAfter(f, firstSlot, votes, total, cycleLength, k) >= cycleLength + 1 &&
            r.lastFinalizedSlot == firstSlot + k - cycleLength - 1)
    decreases |votes|
  {
    if |votes| > 0 {
      var n := |votes|;
      var prefix := votes[..n - 1];
      SweepFinalized(f, firstSlot, prefix, total, cycleLength);
      forall k: nat | k < n - 1
        ensures StreakAfter(f, firstSlot, prefix, total, cycleLength, k) == StreakAfter(f, firstSlot, votes, total, cycleLength, k)
      {
        assert prefix[..k + 1] == votes[..k + 1];
      }
      assert votes[..n] == votes;
      var before := Sweep(f, firstSlot, prefix, total, cycleLength);
      var r := Sweep(f, firstSlot, votes, total, cycleLength);
      assert StreakAfter(f, firstSlot, votes, total, cycleLength, n - 1) == r.justifiedStreak;
      if r.lastFinalizedSlot != before.lastFinalizedSlot {
        assert r.lastFinalizedSlot == firstSlot + (n - 1) - cycleLength - 1;
      } else if r.lastFinalizedSlot != f.lastFinalizedSlot {
        var k: nat :| k < n - 1 && StreakAfter(f, firstSlot, prefix, total, cycleLength, k) >= cycleLength + 1 &&
          before.lastFinalizedSlot == firstSlot + k - cycleLength - 1;
        assert StreakAfter(f, firstSlot, votes, total, cycleLength, k) >= cycleLength + 1;
      }
    }
  }

  /** The sweep never finalizes past the last justified slot. */
  lemma {:induction false} SweepFinalizedNotAfterJustified(f: Finality, firstSlot: int, votes: seq<nat>, total: nat, cycleLength: nat)
    requires f.lastFinalizedSlot <= f.lastJustifiedSlot
    ensures var r := Sweep(f, firstSlot, votes, total, cycleLength);
      r.lastFinalizedSlot <= r.lastJustifiedSlot
    decreases |votes|
  {
    if |votes| > 0 {
      SweepFinalizedNotAfterJustified(f, firstSlot, votes[..|votes| - 1], total, cycleLength);
    }
  }

  /** The deposits that voted for the block with hash `h` (none when the
      cache has no entry for it). */
  function VoteBalance(cache: BlockVoteCache, h: Hash): nat {
    if h in cache then cache[h].totalVoterDeposits else 0
  }

  /** The votes for the `cycleLength` recent block hashes the sweep reads; the
      source raises `IndexError` when there are fewer hashes than that. */
  function CycleVotes(active: ActiveState, cycleLength: nat): (r: Result<seq<nat>>)
    ensures r.Success? <==> |active.recentBlockHashes| >= cycleLength
    ensures r.Success? ==>
      && |r.value| == cycleLength
      && forall i :: 0 <= i < cycleLength ==> r.value[i] == VoteBalance(active.blockVoteCache, active.recentBlockHashes[i])
  {
    if |active.recentBlockHashes| < cycleLength then Failure(Raised(IndexError))
    else Success(seq(cycleLength, i requires 0 <= i < cycleLength => VoteBalance(active.blockVoteCache, active.recentBlockHashes[i])))
  }

  /** The finality fields of a crystallized state. */
  function FinalityOf(cs: CrystallizedState): Finality {
    Finality(cs.lastJustifiedSlot, cs.justifiedStreak, cs.lastFinalizedSlot)
  }

  /** The sweep over the cycle ending just before `lastStateRecalc`. */
  function SweepCycle(cs: CrystallizedState, active: ActiveState, cycleLength: nat): Result<Finality> {
    var votes :- CycleVotes(active, cycleLength);
    Success(Sweep(FinalityOf(cs), cs.lastStateRecalc - cycleLength, votes, TotalDeposits(cs), cycleLength))
  }

  /** The finality fields after the sweep over the last cycle: the last
      justified and last finalized slots never decrease; the last justified
      slot covers every slot of the cycle whose recent block hash gathered
      two thirds of the deposits, and moves only to such a slot; and
      finality does not overtake justification. */
  lemma SweepCycleSpec(cs: CrystallizedState, active: ActiveState, cycleLength: nat)
    requires SweepCycle(cs, active, cycleLength).Success?
    ensures var r := SweepCycle(cs, active, cycleLength).value;
      var first := cs.lastStateRecalc - cycleLength;
      var total := TotalDeposits(cs);
      && r.lastJustifiedSlot >= cs.lastJustifiedSlot
      && r.lastFinalizedSlot >= cs.lastFinalizedSlot
      && (forall k :: (0 <= k < cycleLength &&
                       Supermajority(VoteBalance(active.blockVoteCache, active.recentBlockHashes[k]), total)) ==>
            r.lastJustifiedSlot >= first + k)
      && (r.lastJustifiedSlot == cs.lastJustifiedSlot ||
          exists k :: 0 <= k < cycleLength &&
            Supermajority(VoteBalance(active.blockVoteCache, active.recentBlockHashes[k]), total) &&
            r.lastJustifiedSlot == first + k)
      && (cs.lastFinalizedSlot <= cs.lastJustifiedSlot ==> r.lastFinalizedSlot <= r.lastJustifiedSlot)
  {
    var votes := CycleVotes(active, cycleLength).value;
    var first := cs.lastStateRecalc - cycleLength;
    SweepJustified(FinalityOf(cs), first, votes, TotalDeposits(cs), cycleLength);
    SweepFinalized(FinalityOf(cs), first, votes, TotalDeposits(cs), cycleLength);
    if cs.lastFinalizedSlot <= cs.lastJustifiedSlot {
      SweepFinalizedNotAfterJustified(FinalityOf(cs), first, votes, TotalDeposits(cs), cycleLength);
    }
  }
}
