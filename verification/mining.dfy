/** `Network`: the chain state of one run and its one-block mining step. */
module Mining {
  import opened Emission
  import opened Lottery
  import opened Ledger

  /** Height and circulating supply of the chain, and the competing pools in
      lottery order. The random generator is replaced by the pivot argument of
      `MineBlock`. */
  datatype Network = Network(height: Height, supply: U64, pools: seq<Pool>)

  datatype Mined = Mined(net: Network, block: Block)

  /** `Network::mineBlock` for an already drawn pivot: pick the winner, mint a
      block at the next height with the current block reward, add the reward
      to the supply and credit the winner's ledger. */
  function MineBlock(net: Network, pivot: real): (m: Mined)
    // the block
    ensures m.block.minedBy == Winner(Hashrates(net.pools), pivot)
    ensures m.block.reward == BlockReward(net.supply)
    ensures m.block.height == m.net.height
    // the chain state
    ensures net.height < HEIGHT_MAX ==> m.net.height == net.height + 1
    ensures net.height == HEIGHT_MAX ==> m.net.height == 0
    ensures HasHeadroom(net.supply) ==> m.net.supply == net.supply + m.block.reward
    ensures !HasHeadroom(net.supply) ==> m.net.supply == net.supply + TAIL_EMISSION - U64_MODULUS
    // the ledgers: the winner's alone is credited, all others stay as they were
    ensures |m.net.pools| == |net.pools|
    ensures Hashrates(m.net.pools) == Hashrates(net.pools)
    ensures forall i :: 0 <= i < |net.pools| && m.block.minedBy != Some(i) ==> m.net.pools[i] == net.pools[i]
    ensures m.block.minedBy.Some? && CreditFits(net.pools[m.block.minedBy.value], m.block.reward) ==>
              CreditedOnce(net.pools[m.block.minedBy.value], m.net.pools[m.block.minedBy.value], m.block.reward)
  {
    var winner := Winner(Hashrates(net.pools), pivot);
    var height := IncHeight(net.height);
    var b := Block(winner, BlockReward(net.supply), height);
    var supply := AddU64(net.supply, b.reward);
    var pools := if winner.Some? then net.pools[winner.value := AddBlock(net.pools[winner.value], b)] else net.pools;
    if HasHeadroom(net.supply) then RewardFits(net.supply); Mined(Network(height, supply, pools), b)
    else NoHeadroomPaysFloor(net.supply); Mined(Network(height, supply, pools), b)
  }

  /** The winner's new ledger is `Pool::addBlock` applied to its old ledger
      and the mined block, whether or not its counters wrap. */
  lemma {:induction false} MineBlockCreditsWinner(net: Network, pivot: real)
    ensures var m := MineBlock(net, pivot);
            m.block.minedBy.Some? ==>
              m.net.pools[m.block.minedBy.value] == AddBlock(net.pools[m.block.minedBy.value], m.block)
  {
  }

  /** Mining one block extends the ledgers' agreement with the mined blocks to
      the new block, as long as neither the winner's reward total nor its block
      count can wrap. */
  lemma {:induction false} MineKeepsLedgers(net: Network, trace: seq<Block>, pivot: real)
    requires LedgersMatch(net.pools, trace)
    requires TraceReward(trace) + BlockReward(net.supply) <= U64_MAX
    requires |trace| < HEIGHT_MAX
    ensures LedgersMatch(MineBlock(net, pivot).net.pools, trace + [MineBlock(net, pivot).block])
  {
    var m := MineBlock(net, pivot);
    var trace' := trace + [m.block];
    var pools, pools' := net.pools, m.net.pools;
    assert trace'[..|trace|] == trace;
    forall k | 0 <= k < |trace'| && trace'[k].minedBy.Some?
      ensures trace'[k].minedBy.value < |pools'|
    {
      if k < |trace| {
        assert trace'[k] == trace[k];
      }
    }
    match m.block.minedBy
    case None =>
      assert pools' == pools;
    case Some(w) =>

      LedgerBelowSums(pools, w);
      assert CreditFits(pools[w], m.block.reward);
      assert pools' == pools[w := pools'[w]];
      SumsAfterUpdate(pools, w, pools'[w]);
  }
}
