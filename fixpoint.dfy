/**
 * The pair loop itself (minish_hat.py:441-539, minish-hat.py:357-434, minish-ruleset.py:244-323):
 * rounds of the expansion step and the pairing step run until a round neither expands nor
 * merges anything. In minish_hat.py a table left empty after the expansion step ends the
 * loop with "Program has no fundamental rules".
 */
module Fixpoint {
  import opened Wrappers
  import opened Implicants
  import opened Pipeline
  import opened Expansion
  import opened Pairing

  /** How the loop ends. */
  datatype Outcome =
    | Converged  // a round with `adj_count + exp_count == 0`
    | NoRules    // minish_hat.py only: the table is empty after the expansion step (`somerules = False`)
    | OutOfFuel  // the bound on rounds was reached first

  /** The expansion step runs: minish-ruleset.py always, the other two scripts when `have_aggr`. */
  predicate Expands(v: Variant, haveAggr: bool)
  {
    v == Ruleset || haveAggr
  }

  /** The unmarked keys of `entries` are exactly the keys `ks`. */
  ghost predicate UnmarkedKeys(entries: map<nat, Implicant>, ks: seq<nat>)
  {
    forall k :: k in ks <==> k in entries && !entries[k].marked
  }

  /**
   * The table `entries` is a fixpoint of a round: the expansion step over the pairs of its
   * unmarked keys `expKeys`, and the pairing step over its unmarked keys `pairKeys`, both
   * leave it as it is.
   */
  ghost predicate Settled(v: Variant, haveAggr: bool, entries: map<nat, Implicant>, expKeys: seq<nat>, pairKeys: seq<nat>)
  {
    && UnmarkedKeys(entries, expKeys) && UnmarkedKeys(entries, pairKeys)
    && (Expands(v, haveAggr) ==> Expansion.Expansion(entries, Combinations(expKeys), PairLoopChecks(v)) == entries)
    && MergePairs(entries, Candidates(v, pairKeys), AdjacentCheck(v)).entries == entries
  }

  /**
   * The `while (adj_count + exp_count) > 0` loop, for at most `maxRounds` rounds. The table
   * stays well formed and covers the same minterms throughout; when the loop converges, the
   * table is a fixpoint of a round, with `expKeys` and `pairKeys` the unmarked keys in the
   * table's order as the last round's two steps read them.
   */
  method PairLoop(table: MintermTable, v: Variant, haveAggr: bool, maxRounds: nat, ghost n: nat)
    returns (outcome: Outcome, rounds: nat, ghost expKeys: seq<nat>, ghost pairKeys: seq<nat>)
    requires table.Valid(n)
    modifies table
    ensures table.Valid(n)
    ensures AllCovers(table.entries) == AllCovers(old(table.entries))
    ensures rounds <= maxRounds
    ensures outcome == Converged ==> rounds > 0 && Settled(v, haveAggr, table.entries, expKeys, pairKeys)
    ensures outcome == NoRules ==> v == Hat && table.entries == map[]
    ensures outcome == OutOfFuel ==> rounds == maxRounds
  {
    var adjCount, expCount := 1, 1;
    rounds := 0;
    expKeys, pairKeys := [], [];
    while adjCount + expCount > 0
      invariant table.Valid(n)
      invariant AllCovers(table.entries) == AllCovers(old(table.entries))
      invariant rounds <= maxRounds
      invariant adjCount + expCount == 0 ==> rounds > 0 && Settled(v, haveAggr, table.entries, expKeys, pairKeys)
      decreases maxRounds - rounds
    {
      if rounds == maxRounds {
        return OutOfFuel, rounds, expKeys, pairKeys;
      }
      expCount, adjCount := 0, 0;
      ghost var s0 := table.entries;
      expKeys := table.Unmarked();
      if Expands(v, haveAggr) {
        expCount := ExpansionStep(table, v, n);
        if expCount == 0 {
          ScanIdle(s0, Combinations(expKeys), PairLoopChecks(v));
        }
      }
      if v == Hat && |table.order| == 0 {
        assert table.entries == map[];
        return NoRules, rounds, expKeys, pairKeys;
      }
      ghost var s1 := table.entries;
      pairKeys := table.Unmarked();
      adjCount := PairStep(table, v, n);
      if adjCount == 0 {
        MergePairsIdle(s1, Candidates(v, pairKeys), AdjacentCheck(v));
      }
      rounds := rounds + 1;
    }
    outcome := Converged;
  }
}
