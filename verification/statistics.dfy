/** Per-pool statistics collected across runs: `StatsSet` and `PoolStats`.
    Samples are kept as exact integers in the ledgers' units; the conversion
    of rewards to whole coins and the mean and deviation computed for
    printing are not modelled. */
module Statistics {
  import opened Ledger

  /** `StatsSet`: the samples of one quantity, one per run, oldest first. The
      set's name is only printed and is omitted. */
  datatype StatsSet = StatsSet(values: seq<int>)

  /** `StatsSet::addValue`: the set only grows at its end; earlier samples
      stay where they were. */
  function AddValue(s: StatsSet, v: int): (r: StatsSet)
    ensures |r.values| == |s.values| + 1
    ensures r.values[..|s.values|] == s.values
    ensures r.values[|s.values|] == v
  {
    StatsSet(s.values + [v])
  }

  /** `PoolStats`: a configured pool's hash rate with its block-count and
      reward samples. */
  datatype PoolStats = PoolStats(hashrate: real, blockCounts: StatsSet, blockRewards: StatsSet)

  /** `PoolStats::accumulate`: one more sample of each kind, taken from the
      ledger a run left behind; the hash rate stays. */
  function Accumulate(ps: PoolStats, pool: Pool): (r: PoolStats)
    ensures r.hashrate == ps.hashrate
    ensures var n := |ps.blockCounts.values|;
            |r.blockCounts.values| == n + 1 && r.blockCounts.values[..n] == ps.blockCounts.values
            && r.blockCounts.values[n] == pool.blocks
    ensures var n := |ps.blockRewards.values|;
            |r.blockRewards.values| == n + 1 && r.blockRewards.values[..n] == ps.blockRewards.values
            && r.blockRewards.values[n] == pool.rewards
  {
    PoolStats(ps.hashrate, AddValue(ps.blockCounts, pool.blocks), AddValue(ps.blockRewards, pool.rewards))
  }

  /** The configured hash rates, in configuration order: the lottery shares
      `getPool` hands to a run. */
  function Shares(stats: seq<PoolStats>): (shares: seq<real>)
    ensures |shares| == |stats|
  {
    if |stats| == 0 then []
    else [stats[0].hashrate] + Shares(stats[1..])
  }

  /** The share at index `i` is the hash rate configured at index `i`. */
  lemma {:induction false} SharesAreHashrates(stats: seq<PoolStats>)
    ensures forall i :: 0 <= i < |stats| ==> Shares(stats)[i] == stats[i].hashrate
  {
    if |stats| > 0 {
      SharesAreHashrates(stats[1..]);
      assert forall i :: 1 <= i < |stats| ==> stats[i] == stats[1..][i - 1];
    }
  }

  /** The final loop of `simulateUntilTailEmission`: the statistics at index
      `i` take their samples from the ledger at the same index. */
  function AccumulateAll(stats: seq<PoolStats>, pools: seq<Pool>): (r: seq<PoolStats>)
    requires |stats| == |pools|
    ensures |r| == |stats|
    ensures forall i :: 0 <= i < |stats| ==> r[i] == Accumulate(stats[i], pools[i])
  {
    if |stats| == 0 then []
    else
      var n := |stats| - 1;
      AccumulateAll(stats[..n], pools[..n]) + [Accumulate(stats[n], pools[n])]
  }
}
