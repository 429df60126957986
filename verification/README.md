# mining-simulation: the emission curve and the mining loop, in Dafny

`mining-simulation.cpp` simulates mining until Monero's block reward decays to
its tail emission. The chain keeps a `uint64_t` coin supply. The block reward
is `(UINT64_MAX - supply) >> 18`, clamped from below at the tail emission of
0.6 coins. Each mined block goes to a pool chosen by a weighted lottery over
the pools' hash rates, or to nobody (the residual network share). Each run
starts with fresh pool ledgers and mines until a block pays no more than the
tail emission. It then appends every pool's block count and reward total to
that pool's statistics.

This project models that core as pure functions over immutable data:

- `emission.dfy`, module `Emission`:
  - the `uint64_t` supply as the subset type `U64`, and the 32-bit `Height`, each with its wrap-around written out;
  - the base reward and the clamped block reward.
- `lottery.dfy`, module `Lottery`: the winner selection of `Network::mineBlock`, a running probe over the hash rates.
- `ledger.dfy`, module `Ledger`:
  - `Block`, `Pool` and `Pool::addBlock`;
  - tallies over a sequence of mined blocks;
  - `LedgersMatch`, the agreement between the pools' ledgers and the blocks mined.
- `mining.dfy`, module `Mining`: the chain state `Network` and the one-block step `MineBlock`.
- `statistics.dfy`, module `Statistics`: `StatsSet::addValue`, `PoolStats::accumulate` and the per-index accumulation loop.
- `simulation.dfy`, module `Simulation`:
  - `simulateUntilTailEmission`, with its loop both as a reference function (`MineOn`) and as a method (`MineUntilTailEmission`);
  - the inductive invariant that proves what a run delivers.

The random generator is replaced by an explicit function `pivots: nat -> real`. The k-th block mined in a run (from 0) uses `pivots(k)`. Hash rates and pivots are modelled as exact reals.

## Model

| member | source | states |
|---|---|---|
| Emission.AddU64 | mining-simulation.cpp:183 | `uint64_t` addition: the exact sum when it fits, otherwise the sum minus 2^64, which lands below the first operand |
| Emission.IncHeight | mining-simulation.cpp:181 | `++height_` on a 32-bit height: the successor, except that the largest height wraps to 0 |
| Emission.HeightAfterStep | mining-simulation.cpp:181 | the height after n+1 increments is one `IncHeight` after the height after n increments, wrap included |
| Emission.BaseReward | mining-simulation.cpp:20-22 | the base reward is the floor of the distance to `UINT64_MAX` divided by 2^18, so it never exceeds that distance and adding it to the supply cannot wrap |
| Emission.BaseRewardNonIncreasing | mining-simulation.cpp:20-22 | a larger supply never gets a larger base reward |
| Emission.BlockReward | mining-simulation.cpp:160-166 | the block reward is the larger of the base reward and the tail emission: at least both, one of them, and the tail emission exactly when the base reward is at most the tail emission |
| Emission.BlockRewardNonIncreasing | mining-simulation.cpp:160-166 | a larger supply never gets a larger block reward |
| Emission.RewardFits | mining-simulation.cpp:183 | when the supply leaves room for one tail-emission block, adding the block reward to it does not wrap |
| Emission.AboveFloorKeepsHeadroom | mining-simulation.cpp:20-22 | a base reward above the tail emission fits in the supply and still leaves room for one more tail-emission block |
| Emission.NoHeadroomPaysFloor | mining-simulation.cpp:160-166 | when the supply leaves no room for one tail-emission block, the base reward is below the tail emission and the block pays exactly the tail emission |
| Lottery.WinnerFrom | mining-simulation.cpp:173-179 | the selection loop resumed at pool i returns the first pool whose running sum reaches the pivot, or none when no running sum does |
| Lottery.Winner | mining-simulation.cpp:169-179 | a winner is the first pool, in list order, whose running sum of hash rates is `>=` the pivot; there is no winner exactly when every running sum stays below the pivot |
| Lottery.WinnerIsTheFirstReaching | mining-simulation.cpp:173-179 | for every index i: the lottery picks i if and only if i is the first pool whose running sum reaches the pivot |
| Lottery.CoveredPivotHasWinner | mining-simulation.cpp:173-179 | with at least one pool and a total hash rate reaching the pivot, some pool wins |
| Lottery.UnitPivotHasWinner | mining-simulation.cpp:170-179 | hash rates summing to at least 1 always produce a winner for a pivot below 1, as every draw from [0, 1) is |
| Lottery.PrefixSumMonotone | mining-simulation.cpp:173-174 | with non-negative hash rates the running sum never decreases |
| Lottery.ResidualWinsIffTotalBelowPivot | mining-simulation.cpp:169-179 | with non-negative hash rates the block goes to nobody if and only if there are no pools or the total hash rate is below the pivot |
| Ledger.SentinelBlock | mining-simulation.cpp:30-33 | the default block was mined by nobody, sits at height 0 and pays the base reward at zero supply, which is above the tail emission |
| Ledger.FreshPool | mining-simulation.cpp:53-55 | a new pool has the configured hash rate, no rewards and no blocks |
| Ledger.AddBlock | mining-simulation.cpp:57-60 | crediting a block keeps the hash rate; when the counters have room it adds exactly the block's reward and one block; a reward total that passes the top wraps below its old value |
| Ledger.AddBlockWraps | mining-simulation.cpp:57-60 | in every case, room or not, the reward total becomes the old total plus the reward modulo 2^64 and the block count the old count plus one modulo 2^32, as `rewards_ += reward; ++blocks_` do on C++ unsigned integers |
| Ledger.SumsAfterUpdate | mining-simulation.cpp:185-187 | replacing one pool's ledger changes the totals over all pools by exactly that ledger's change |
| Ledger.LedgerBelowSums | mining-simulation.cpp:185-187 | no single pool's ledger exceeds the totals over all pools |
| Ledger.TraceRewardAppend | mining-simulation.cpp:183 | mining one more block adds exactly its reward to the total paid |
| Ledger.LedgersWithinMined | mining-simulation.cpp:185-187 | ledgers that match the mined blocks hold together exactly the blocks and rewards not won by the residual share, so no more than was mined |
| Mining.MineBlock | mining-simulation.cpp:168-190 | the mined block goes to the lottery's winner at the next height (wrapping at 2^32) and pays the current block reward; the supply grows by exactly that reward, or wraps when there was no room for it; the pool list keeps its length and hash rates; only the winner's ledger changes, and when its counters have room it gains exactly one block and that reward |
| Mining.MineBlockCreditsWinner | mining-simulation.cpp:185-187 | the winner's new ledger is `Pool::addBlock` of its old ledger and the mined block, whether or not its counters wrap |
| Mining.MineKeepsLedgers | mining-simulation.cpp:185-187 | if the ledgers matched the blocks mined so far, they match them plus the new block, as long as the total paid and the block count stay within the counters' widths |
| Simulation.FreshPools | mining-simulation.cpp:201-205 | pool i of a run is a fresh pool with the i-th configured hash rate; all pools start at zero rewards and zero blocks |
| Simulation.MineOn | mining-simulation.cpp:209-211 | mining stops right after the first block paying at most the tail emission; every earlier block paid more; nothing is mined if the last block already paid at most the tail emission |
| Simulation.MineOnUnfolds | mining-simulation.cpp:209-211 | while the last block paid more than the tail emission, the loop with k pivots used is one `mineBlock` with pivot k, followed by the rest of the loop from the new state: the same final state, and that block ahead of the blocks mined after it |
| Simulation.RunUntilTailEmission | mining-simulation.cpp:207-211 | because the default block pays more than the tail emission, every run mines at least one block; it ends with the first block paying at most the tail emission, and all earlier blocks paid more |
| Simulation.MineYieldsNext | mining-simulation.cpp:181-183 | from a state whose height, supply and pools follow the blocks so far, the next block goes to the winner of the next pivot at the next height, with the reward for the supply so far |
| Simulation.MineExtendsTrace | mining-simulation.cpp:209 | after a block above the tail emission, mining one more keeps every block described by the pivot used, its height and the supply before it, and keeps the total paid at least one tail emission per block |
| Simulation.MineAdvancesChain | mining-simulation.cpp:209 | after a block above the tail emission, mining one more keeps the height, supply and ledgers in step with the blocks mined; a new block above the tail emission strictly raises the supply, which bounds the loop |
| Simulation.RunStarts | mining-simulation.cpp:201-209 | a run starts at the configured height and supply with fresh ledgers, before any block, after the default block |
| Simulation.StateGivesResults | mining-simulation.cpp:209-211 | every loop state already meets the results a run promises, for the blocks mined so far |
| Simulation.MineOnFollows | mining-simulation.cpp:209-211 | from any loop state, running the loop to its end yields a final state that meets the promised results for all blocks mined |
| Simulation.RunUntilTailEmissionResults | mining-simulation.cpp:200-211 | each block of a run went to the winner of its pivot, at the next height, for the reward of the supply before it. The final height is the start plus the block count (mod 2^32). With room for one tail-emission block at the start, the supply grows by exactly the rewards, so it never wraps and the block count is bounded by the distance to the top. Without room, the run mines one tail-emission block and the supply wraps to the start plus the tail emission minus 2^64. The ledgers hold exactly what each pool won, and together no more than was mined |
| Simulation.MineUntilTailEmission | mining-simulation.cpp:209-211 | the loop leaves the chain state the reference definition `MineOn` describes; it terminates because each block above the tail emission raises the supply |
| Simulation.SimulateUntilTailEmission | mining-simulation.cpp:200-216 | after a run, the statistics at index i gain exactly one block-count sample and one reward sample. The samples are the number of blocks and the reward total that pool i won in that run. Earlier samples and the hash rate stay |
| Statistics.SharesAreHashrates | mining-simulation.cpp:201-205 | the lottery share at index i of a run is the hash rate configured at index i, for every i |
| Statistics.AddValue | mining-simulation.cpp:89-91 | adding a sample appends it and keeps every earlier sample in place |
| Statistics.Accumulate | mining-simulation.cpp:126-129 | accumulating a ledger appends its block count to one sample set and its reward total to the other, keeping earlier samples and the hash rate |
| Statistics.AccumulateAll | mining-simulation.cpp:213-215 | the statistics at index i accumulate the ledger at the same index, for every i |

## Left out

- The random generator (`std::mt19937` with `std::uniform_real_distribution`, mining-simulation.cpp:151-158 and 196-197) is a library PRNG. It is replaced by the parameter `pivots`. The k-th block of a run uses `pivots(k)`.
- The `_xmr` literal (mining-simulation.cpp:16-18) is a `long double` conversion. The tail emission is the integer 600000000000 it evaluates to.
- Hash rates, pivots and the running sum are doubles in the source; here they are exact reals, so rounding in the running sum is not modelled.
- `Height` is `uint_fast32_t`, which is at least 32 bits wide. It is modelled at exactly 32 bits, so wrap-around happens at 2^32.
- `StatsSet`'s mean, variance and printing, `PoolStats::printStats` and `main` (mining-simulation.cpp:93-107, 131-135 and 218-236) are floating-point numerics and output. Pool and statistics names are only printed and are omitted.
- Statistics.Accumulate records the reward total in the ledger's integer units. The source divides it by 10^12 into a double (mining-simulation.cpp:128); that conversion is not modelled.
- `Block::minedBy_` is a pool pointer in the source. Here it is the pool's index in the run's pool list, with `None` for the null pointer.
- `Block::getReward` and the `Pool` getters are plain field reads: the datatypes' fields.
