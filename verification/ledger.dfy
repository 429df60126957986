/** Blocks, pool ledgers, and tallies over the blocks a run has mined. */
module Ledger {
  import opened Emission
  import opened Lottery

  /** A mined block: the index of the winning pool (`None` for the residual
      network share), the reward it carries and the height it was mined at. */
  datatype Block = Block(minedBy: Option<nat>, reward: U64, height: Height)

  /** `Block()`, the virtual block that precedes a run: nobody mined it, it
      sits at height 0 and carries the curve's reward at zero supply. */
  function SentinelBlock(): (b: Block)
    ensures b.minedBy.None? && b.height == 0
    ensures b.reward == BaseReward(0) > TAIL_EMISSION
  {
    Block(None, BaseReward(0), 0)
  }

  /** A pool's ledger; the pool's name is only used for printing and is omitted. */
  datatype Pool = Pool(hashrate: real, rewards: U64, blocks: Height)

  /** `Pool(name, hashrate)`, as `PoolStats::getPool` builds it for each run:
      the given hash rate and an empty ledger. */
  function FreshPool(hashrate: real): (p: Pool)
    ensures p.hashrate == hashrate && p.rewards == 0 && p.blocks == 0
  {
    Pool(hashrate, 0, 0)
  }

  /** `after` is `before` credited with one block paying `reward`. */
  ghost predicate CreditedOnce(before: Pool, after: Pool, reward: nat)
  {
    && after.hashrate == before.hashrate
    && after.rewards == before.rewards + reward
    && after.blocks == before.blocks + 1
  }

  /** Crediting `reward` to `p` fits in the ledger's integer widths. */
  predicate CreditFits(p: Pool, reward: U64)
  {
    p.rewards + reward <= U64_MAX && p.blocks < HEIGHT_MAX
  }

  /** `Pool::addBlock`: `rewards_ += reward; ++blocks_` on the C++ widths. */
  function AddBlock(p: Pool, b: Block): (q: Pool)
    ensures q.hashrate == p.hashrate
    ensures CreditFits(p, b.reward) ==> CreditedOnce(p, q, b.reward)
    ensures p.rewards + b.reward > U64_MAX ==> q.rewards < p.rewards
  {
    Pool(p.hashrate, AddU64(p.rewards, b.reward), IncHeight(p.blocks))
  }

  /** `Pool::addBlock` in every case, room or not: both counters step as C++
      unsigned integers do, wrapping at their widths. */
  lemma {:induction false} AddBlockWraps(p: Pool, b: Block)
    ensures AddBlock(p, b).rewards == (p.rewards + b.reward) % U64_MODULUS
    ensures AddBlock(p, b).blocks == (p.blocks + 1) % HEIGHT_MODULUS
  {
  }

  /** The lottery shares of the pools, in list order. */
  function Hashrates(pools: seq<Pool>): (shares: seq<real>)
    ensures |shares| == |pools|
    ensures forall i :: 0 <= i < |pools| ==> shares[i] == pools[i].hashrate
  {
    if |pools| == 0 then []
    else Hashrates(pools[..|pools| - 1]) + [pools[|pools| - 1].hashrate]
  }

  /** Total rewards recorded across all pool ledgers. */
  function SumRewards(pools: seq<Pool>): nat
  {
    if |pools| == 0 then 0 else SumRewards(pools[..|pools| - 1]) + pools[|pools| - 1].rewards
  }

  /** Total block count recorded across all pool ledgers. */
  function SumBlocks(pools: seq<Pool>): nat
  {
    if |pools| == 0 then 0 else SumBlocks(pools[..|pools| - 1]) + pools[|pools| - 1].blocks
  }

  /** Replacing one ledger changes the totals by exactly that ledger's change. */
  lemma {:induction false} SumsAfterUpdate(pools: seq<Pool>, w: nat, q: Pool)
    requires w < |pools|
    ensures SumRewards(pools[w := q]) == SumRewards(pools) - pools[w].rewards + q.rewards
    ensures SumBlocks(pools[w := q]) == SumBlocks(pools) - pools[w].blocks + q.blocks
    decreases |pools|
  {
    var n := |pools| - 1;
    var updated := pools[w := q];
    if w == n {
      assert updated[..n] == pools[..n];
    } else {
      assert updated[..n] == pools[..n][w := q];
      SumsAfterUpdate(pools[..n], w, q);
    }
  }

  /** Ledgers that recorded nothing add up to nothing. */
  lemma {:induction false} EmptyLedgersSumZero(pools: seq<Pool>)
    requires forall i :: 0 <= i < |pools| ==> pools[i].rewards == 0 && pools[i].blocks == 0
    ensures SumRewards(pools) == 0 && SumBlocks(pools) == 0
  {
    if |pools| > 0 {
      var n := |pools| - 1;
      assert forall i :: 0 <= i < n ==> pools[..n][i] == pools[i];
      EmptyLedgersSumZero(pools[..n]);
    }
  }

  /** No single ledger exceeds the totals. */
  lemma {:induction false} LedgerBelowSums(pools: seq<Pool>, w: nat)
    requires w < |pools|
    ensures pools[w].rewards <= SumRewards(pools)
    ensures pools[w].blocks <= SumBlocks(pools)
    decreases |pools|
  {
    var n := |pools| - 1;
    if w < n {
      assert pools[..n][w] == pools[w];
      LedgerBelowSums(pools[..n], w);
    }
  }

  /** Total reward carried by a sequence of mined blocks. */
  function TraceReward(trace: seq<Block>): nat
  {
    if |trace| == 0 then 0 else TraceReward(trace[..|trace| - 1]) + trace[|trace| - 1].reward
  }

  /** Number of blocks in `trace` mined by `owner` (`None`: the residual share). */
  function BlocksOf(trace: seq<Block>, owner: Option<nat>): nat
  {
    if |trace| == 0 then 0
    else BlocksOf(trace[..|trace| - 1], owner) + (if trace[|trace| - 1].minedBy == owner then 1 else 0)
  }

  /** Reward of the blocks in `trace` mined by `owner`. */
  function RewardsOf(trace: seq<Block>, owner: Option<nat>): nat
  {
    if |trace| == 0 then 0
    else RewardsOf(trace[..|trace| - 1], owner) + (if trace[|trace| - 1].minedBy == owner then trace[|trace| - 1].reward else 0)
  }

  /** Appending a block adds its reward to the total. */
  lemma {:induction false} TraceRewardAppend(trace: seq<Block>, b: Block)
    ensures TraceReward(trace + [b]) == TraceReward(trace) + b.reward
  {
    assert (trace + [b])[..|trace|] == trace;
  }

  /** The pools' ledgers record exactly the blocks of `trace` they won, and the
      ledgers plus the residual share account for every block and every coin. */
  ghost predicate LedgersMatch(pools: seq<Pool>, trace: seq<Block>)
  {
    && (forall k :: 0 <= k < |trace| && trace[k].minedBy.Some? ==> trace[k].minedBy.value < |pools|)
    && (forall i :: 0 <= i < |pools| ==> pools[i].blocks == BlocksOf(trace, Some(i)))
    && (forall i :: 0 <= i < |pools| ==> pools[i].rewards == RewardsOf(trace, Some(i)))
    && SumBlocks(pools) + BlocksOf(trace, None) == |trace|
    && SumRewards(pools) + RewardsOf(trace, None) == TraceReward(trace)
  }

  /** Ledgers that match the mined blocks hold together what the blocks paid
      to pools, which is no more than the blocks paid in total, and no more
      blocks than were mined; the residual share accounts for the rest. */
  lemma {:induction false} LedgersWithinMined(pools: seq<Pool>, trace: seq<Block>)
    requires LedgersMatch(pools, trace)
    ensures SumRewards(pools) == TraceReward(trace) - RewardsOf(trace, None) <= TraceReward(trace)
    ensures SumBlocks(pools) == |trace| - BlocksOf(trace, None) <= |trace|
  {
  }
}
