/** One simulation run, `simulateUntilTailEmission`: mine blocks from fresh
    pool ledgers until a block pays no more than the tail emission. */
module Simulation {
  import opened Emission
  import opened Lottery
  import opened Ledger
  import opened Mining
  import opened Statistics

  /** The pools of one run, one fresh ledger per configured hash rate. */
  function FreshPools(hashrates: seq<real>): (pools: seq<Pool>)
    ensures |pools| == |hashrates|
    ensures forall i :: 0 <= i < |pools| ==> pools[i] == FreshPool(hashrates[i])
    ensures Hashrates(pools) == hashrates
    ensures SumRewards(pools) == 0 && SumBlocks(pools) == 0
  {
    if |hashrates| == 0 then []
    else
      var pools := [FreshPool(hashrates[0])] + FreshPools(hashrates[1..]);
      assert forall i :: 0 <= i < |pools| ==> pools[i] == FreshPool(hashrates[i]);
      EmptyLedgersSumZero(pools);
      pools
  }

  /** What a run leaves behind: the final chain state and the blocks mined,
      oldest first. */
  datatype Outcome = Outcome(net: Network, blocks: seq<Block>)

  /** The mining loop of `simulateUntilTailEmission`, from the state after
      `last` was mined with `k` pivots used so far: while the most recent block
      paid more than the floor, mine another with the next pivot. A block above
      the floor always raises the supply, so the loop ends. */
  function MineOn(net: Network, last: Block, pivots: nat -> real, k: nat): (r: Outcome)
    ensures last.reward <= TAIL_EMISSION ==> r == Outcome(net, [])
    ensures last.reward > TAIL_EMISSION ==> |r.blocks| >= 1 && r.blocks[|r.blocks| - 1].reward <= TAIL_EMISSION
    ensures forall j :: 0 <= j < |r.blocks| - 1 ==> r.blocks[j].reward > TAIL_EMISSION
    decreases last.reward > TAIL_EMISSION, U64_MAX - net.supply
  {
    if last.reward <= TAIL_EMISSION then Outcome(net, [])
    else
      var m := MineBlock(net, pivots(k));
      if m.block.reward > TAIL_EMISSION then
        AboveFloorKeepsHeadroom(net.supply);
        var rest := MineOn(m.net, m.block, pivots, k + 1);
        Outcome(rest.net, [m.block] + rest.blocks)
      else
        Outcome(m.net, [m.block])
  }

  /** While the most recent block paid more than the floor, mining on with `k`
      pivots used is one block with pivot `k` followed by mining on from that
      block with `k + 1` pivots used: the same final state, and that block
      ahead of the blocks mined on. */
  lemma {:induction false} MineOnUnfolds(net: Network, last: Block, pivots: nat -> real, k: nat)
    requires last.reward > TAIL_EMISSION
    ensures var m := MineBlock(net, pivots(k));
            var rest := MineOn(m.net, m.block, pivots, k + 1);
            var r := MineOn(net, last, pivots, k);
            r.net == rest.net && r.blocks == [m.block] + rest.blocks
  {
    var m := MineBlock(net, pivots(k));
    if m.block.reward <= TAIL_EMISSION {
      assert MineOn(m.net, m.block, pivots, k + 1).blocks == [];
    }
  }

  /** Appending one element and then a tail is appending both at once. */
  lemma AppendOneThenRest<T>(front: seq<T>, x: T, rest: seq<T>)
    ensures front + ([x] + rest) == (front + [x]) + rest
  {
  }

  /** `simulateUntilTailEmission` up to the statistics: fresh ledgers at the
      configured height and supply, then mining on from the sentinel block,
      which pays more than the floor. The k-th mined block (from 0) uses the
      k-th pivot the run's generator draws. */
  function RunUntilTailEmission(hashrates: seq<real>, pivots: nat -> real, startHeight: Height, startSupply: U64): (r: Outcome)
    ensures |r.blocks| >= 1 && r.blocks[|r.blocks| - 1].reward <= TAIL_EMISSION
    ensures forall k :: 0 <= k < |r.blocks| - 1 ==> r.blocks[k].reward > TAIL_EMISSION
  {
    var pools := FreshPools(hashrates);
    MineOn(Network(startHeight, startSupply, pools), SentinelBlock(), pivots, 0)
  }

  /** The block mined after the blocks of `prefix`: it went to the winner of
      the next pivot, sits at the next height and pays the block reward of the
      supply the earlier blocks left behind, which has not wrapped. */
  ghost predicate MinedNext(hashrates: seq<real>, pivots: nat -> real, startHeight: Height, startSupply: U64,
                            prefix: seq<Block>, b: Block)
  {
    && b.minedBy == Winner(hashrates, pivots(|prefix|))
    && b.height == HeightAfter(startHeight, |prefix| + 1)
    && startSupply + TraceReward(prefix) <= U64_MAX
    && b.reward == BlockReward(startSupply + TraceReward(prefix))
  }

  /** The block at index `k` of `trace` was mined as `MinedNext` describes. */
  ghost predicate MinedAt(hashrates: seq<real>, pivots: nat -> real, startHeight: Height, startSupply: U64,
                          trace: seq<Block>, k: nat)
  {
    k < |trace| && MinedNext(hashrates, pivots, startHeight, startSupply, trace[..k], trace[k])
  }

  /** What mining keeps about the blocks: `last` is the most recent block (the
      sentinel before the first), every block was mined as `MinedNext` says,
      and the blocks pay at least the floor each. */
  ghost predicate TraceState(hashrates: seq<real>, pivots: nat -> real, startHeight: Height, startSupply: U64,
                             trace: seq<Block>, last: Block)
  {
    && (|trace| == 0 ==> last == SentinelBlock())
    && (|trace| > 0 ==> last == trace[|trace| - 1])
    && (forall k: nat :: k < |trace| ==> MinedAt(hashrates, pivots, startHeight, startSupply, trace, k))
    && |trace| * TAIL_EMISSION <= TraceReward(trace)
  }

  /** What mining keeps about the chain state: the height and the ledgers
      follow the mined blocks; with headroom at the start the supply is the
      start plus every reward, and without it the one block mined wrapped it;
      a block above the floor means the run started with headroom and there
      is headroom for one more. */
  ghost predicate ChainState(hashrates: seq<real>, startHeight: Height, startSupply: U64,
                             net: Network, trace: seq<Block>, last: Block)
  {
    && net.height == HeightAfter(startHeight, |trace|)
    && Hashrates(net.pools) == hashrates
    && LedgersMatch(net.pools, trace)
    && (|trace| == 0 ==> net.supply == startSupply)
    && (HasHeadroom(startSupply) ==> net.supply == startSupply + TraceReward(trace))
    && (!HasHeadroom(startSupply) && |trace| > 0 ==>
          |trace| == 1 && net.supply == startSupply + TAIL_EMISSION - U64_MODULUS)
    && (last.reward > TAIL_EMISSION && |trace| > 0 ==> HasHeadroom(startSupply) && HasHeadroom(net.supply))
  }

  /** Mining from a chain state that has not wrapped yields the block
      `MinedNext` describes. */
  lemma {:induction false} MineYieldsNext(hashrates: seq<real>, pivots: nat -> real, startHeight: Height, startSupply: U64,
                                          net: Network, trace: seq<Block>)
    requires net.height == HeightAfter(startHeight, |trace|)
    requires net.supply == startSupply + TraceReward(trace)
    requires Hashrates(net.pools) == hashrates
    ensures MinedNext(hashrates, pivots, startHeight, startSupply, trace, MineBlock(net, pivots(|trace|)).block)
  {
    HeightAfterStep(startHeight, |trace|);
  }

  /** One more block after one paying above the floor keeps `TraceState`. */
  lemma {:induction false} MineExtendsTrace(hashrates: seq<real>, pivots: nat -> real, startHeight: Height, startSupply: U64,
                                            net: Network, trace: seq<Block>, last: Block)
    requires TraceState(hashrates, pivots, startHeight, startSupply, trace, last)
    requires ChainState(hashrates, startHeight, startSupply, net, trace, last)
    requires last.reward > TAIL_EMISSION
    ensures var m := MineBlock(net, pivots(|trace|));
            TraceState(hashrates, pivots, startHeight, startSupply, trace + [m.block], m.block)
  {
    var b := MineBlock(net, pivots(|trace|)).block;
    var trace' := trace + [b];
    MineYieldsNext(hashrates, pivots, startHeight, startSupply, net, trace);
    forall k: nat | k < |trace'|
      ensures MinedAt(hashrates, pivots, startHeight, startSupply, trace', k)
    {
      if k < |trace| {
        assert MinedAt(hashrates, pivots, startHeight, startSupply, trace, k);
        assert trace'[..k] == trace[..k] && trace'[k] == trace[k];
      } else {
        assert trace'[..k] == trace;
      }
    }
    TraceRewardAppend(trace, b);
  }

  /** One more block after one paying above the floor keeps `ChainState`, and
      strictly raises the supply if it pays above the floor itself. */
  lemma {:induction false} MineAdvancesChain(hashrates: seq<real>, startHeight: Height, startSupply: U64,
                                             net: Network, trace: seq<Block>, last: Block, pivot: real)
    requires ChainState(hashrates, startHeight, startSupply, net, trace, last)
    requires last.reward > TAIL_EMISSION
    requires |trace| * TAIL_EMISSION <= TraceReward(trace)
    ensures var m := MineBlock(net, pivot);
            && ChainState(hashrates, startHeight, startSupply, m.net, trace + [m.block], m.block)
            && (m.block.reward > TAIL_EMISSION ==> m.net.supply > net.supply)
  {
    var m := MineBlock(net, pivot);
    HeightAfterStep(startHeight, |trace|);
    TraceRewardAppend(trace, m.block);
    if HasHeadroom(net.supply) {
      RewardFits(net.supply);
      if |trace| > 0 {
        assert |trace| * TAIL_EMISSION <= net.supply;
      }
      MineKeepsLedgers(net, trace, pivot);
      if m.block.reward > TAIL_EMISSION {
        AboveFloorKeepsHeadroom(net.supply);
      }
    } else {
      NoHeadroomPaysFloor(net.supply);
      MineKeepsLedgers(net, trace, pivot);
    }
  }

  /** A run starts at the configured height and supply with fresh ledgers. */
  lemma {:induction false} RunStarts(hashrates: seq<real>, pivots: nat -> real, startHeight: Height, startSupply: U64)
    ensures TraceState(hashrates, pivots, startHeight, startSupply, [], SentinelBlock())
    ensures ChainState(hashrates, startHeight, startSupply,
                       Network(startHeight, startSupply, FreshPools(hashrates)), [], SentinelBlock())
  {
    var pools := FreshPools(hashrates);
    assert LedgersMatch(pools, []) by {
      forall i | 0 <= i < |pools|
        ensures pools[i].blocks == BlocksOf([], Some(i)) && pools[i].rewards == RewardsOf([], Some(i))
      {
        assert pools[i] == FreshPool(hashrates[i]);
      }
    }
  }

  /** What the state left by a run says: how every block was mined, and the
      final chain state and ledgers. */
  ghost predicate RunResults(hashrates: seq<real>, pivots: nat -> real, startHeight: Height, startSupply: U64,
                             net: Network, trace: seq<Block>)
  {
    && (forall k: nat :: k < |trace| ==> MinedAt(hashrates, pivots, startHeight, startSupply, trace, k))
    && net.height == HeightAfter(startHeight, |trace|)
    && (HasHeadroom(startSupply) ==> net.supply == startSupply + TraceReward(trace))
    && (HasHeadroom(startSupply) ==> |trace| * TAIL_EMISSION <= U64_MAX - startSupply)
    && (!HasHeadroom(startSupply) && |trace| > 0 ==>
          |trace| == 1 && net.supply == startSupply + TAIL_EMISSION - U64_MODULUS)
    && Hashrates(net.pools) == hashrates
    && LedgersMatch(net.pools, trace)
  }

  /** The loop state at any point meets `RunResults`. */
  lemma {:induction false} StateGivesResults(hashrates: seq<real>, pivots: nat -> real, startHeight: Height, startSupply: U64,
                                             net: Network, trace: seq<Block>, last: Block)
    requires TraceState(hashrates, pivots, startHeight, startSupply, trace, last)
    requires ChainState(hashrates, startHeight, startSupply, net, trace, last)
    ensures RunResults(hashrates, pivots, startHeight, startSupply, net, trace)
  {
  }

  /** Mining on from any loop state ends in a state meeting `RunResults` for
      the blocks so far followed by the blocks mined on. */
  lemma {:induction false} MineOnFollows(hashrates: seq<real>, pivots: nat -> real, startHeight: Height, startSupply: U64,
                                         net: Network, trace: seq<Block>, last: Block)
    requires TraceState(hashrates, pivots, startHeight, startSupply, trace, last)
    requires ChainState(hashrates, startHeight, startSupply, net, trace, last)
    ensures var r := MineOn(net, last, pivots, |trace|);
            RunResults(hashrates, pivots, startHeight, startSupply, r.net, trace + r.blocks)
    decreases last.reward > TAIL_EMISSION, U64_MAX - net.supply
  {
    var r := MineOn(net, last, pivots, |trace|);
    if last.reward <= TAIL_EMISSION {
      assert trace + r.blocks == trace;
      StateGivesResults(hashrates, pivots, startHeight, startSupply, net, trace, last);
    } else {
      MineExtendsTrace(hashrates, pivots, startHeight, startSupply, net, trace, last);
      MineAdvancesChain(hashrates, startHeight, startSupply, net, trace, last, pivots(|trace|));
      var m := MineBlock(net, pivots(|trace|));
      var rest := MineOn(m.net, m.block, pivots, |trace| + 1);
      MineOnUnfolds(net, last, pivots, |trace|);
      AppendOneThenRest(trace, m.block, rest.blocks);
      MineOnFollows(hashrates, pivots, startHeight, startSupply, m.net, trace + [m.block], m.block);
    }
  }

  /** Everything a run promises: every block was mined as `MinedNext` says;
      the height advanced once per block; with headroom at the start the
      supply grew by exactly the rewards, which fit below the top, and
      without it the run mined one floor block and the supply wrapped; the
      pools' ledgers hold exactly the blocks and rewards they won, so
      together they hold no more than was mined. */
  lemma {:induction false} RunUntilTailEmissionResults(hashrates: seq<real>, pivots: nat -> real,
                                                       startHeight: Height, startSupply: U64, r: Outcome)
    requires r == RunUntilTailEmission(hashrates, pivots, startHeight, startSupply)
    ensures forall k: nat :: k < |r.blocks| ==> MinedAt(hashrates, pivots, startHeight, startSupply, r.blocks, k)
    ensures r.net.height == HeightAfter(startHeight, |r.blocks|)
    ensures HasHeadroom(startSupply) ==> r.net.supply == startSupply + TraceReward(r.blocks)
    ensures HasHeadroom(startSupply) ==> |r.blocks| * TAIL_EMISSION <= U64_MAX - startSupply
    ensures !HasHeadroom(startSupply) ==>
              |r.blocks| == 1 && r.net.supply == startSupply + TAIL_EMISSION - U64_MODULUS
    ensures Hashrates(r.net.pools) == hashrates
    ensures LedgersMatch(r.net.pools, r.blocks)
    ensures SumRewards(r.net.pools) <= TraceReward(r.blocks)
    ensures SumBlocks(r.net.pools) <= |r.blocks|
  {
    var start := Network(startHeight, startSupply, FreshPools(hashrates));
    assert r == MineOn(start, SentinelBlock(), pivots, 0);
    RunStarts(hashrates, pivots, startHeight, startSupply);
    MineOnFollows(hashrates, pivots, startHeight, startSupply, start, [], SentinelBlock());
    assert [] + r.blocks == r.blocks;
    LedgersWithinMined(r.net.pools, r.blocks);
  }

  /** The loop `for (Block b; b.getReward() > tailEmission; b = net.mineBlock())`
      run on `net` from the sentinel block: it leaves the chain state the
      reference definition `MineOn` describes. */
  method MineUntilTailEmission(net: Network, pivots: nat -> real) returns (final: Network)
    ensures final == MineOn(net, SentinelBlock(), pivots, 0).net
  {
    final := net;
    var last := SentinelBlock();
    var k := 0;
    while last.reward > TAIL_EMISSION
      invariant MineOn(final, last, pivots, k).net == MineOn(net, SentinelBlock(), pivots, 0).net
      decreases last.reward > TAIL_EMISSION, U64_MAX - final.supply
    {
      MineOnUnfolds(final, last, pivots, k);
      var m := MineBlock(final, pivots(k));
      if m.block.reward > TAIL_EMISSION {
        AboveFloorKeepsHeadroom(final.supply);
      }
      final, last, k := m.net, m.block, k + 1;
    }
  }

  /** `simulateUntilTailEmission`: fresh ledgers from the statistics' hash
      rates, mine until a block pays no more than the floor, then append to
      the statistics at each index the block count and reward total of the
      ledger at the same index. The k-th mined block (from 0) uses the k-th
      pivot the run's generator draws. */
  method SimulateUntilTailEmission(stats: seq<PoolStats>, pivots: nat -> real, startHeight: Height, startSupply: U64)
    returns (stats': seq<PoolStats>)
    ensures |stats'| == |stats|
    ensures var blocks := RunUntilTailEmission(Shares(stats), pivots, startHeight, startSupply).blocks;
            forall i :: 0 <= i < |stats| ==>
              && stats'[i].hashrate == stats[i].hashrate
              && stats'[i].blockCounts == AddValue(stats[i].blockCounts, BlocksOf(blocks, Some(i)))
              && stats'[i].blockRewards == AddValue(stats[i].blockRewards, RewardsOf(blocks, Some(i)))
  {
    var hashrates := Shares(stats);
    var pools := FreshPools(hashrates);
    var final := MineUntilTailEmission(Network(startHeight, startSupply, pools), pivots);
    ghost var run := RunUntilTailEmission(hashrates, pivots, startHeight, startSupply);
    RunUntilTailEmissionResults(hashrates, pivots, startHeight, startSupply, run);
    stats' := AccumulateAll(stats, final.pools);
  }
}
