/** The integer emission curve: machine-width arithmetic and the block reward
    as a function of the coins already in circulation. */
module Emission {

  /** Largest value of a C++ `uint64_t`; also the asymptotic money supply. */
  const U64_MAX: nat := 0xFFFF_FFFF_FFFF_FFFF
  const U64_MODULUS: nat := 0x1_0000_0000_0000_0000

  /** `Height` is a `uint_fast32_t`; it is modelled at the narrowest width the
      C++ type allows, 32 bits. */
  const HEIGHT_MAX: nat := 0xFFFF_FFFF
  const HEIGHT_MODULUS: nat := 0x1_0000_0000

  type U64 = x: int | 0 <= x <= U64_MAX
  type Height = x: int | 0 <= x <= HEIGHT_MAX

  /** A right shift by 18 bits divides an unsigned value by 2^18. */
  const REWARD_DIVISOR: nat := 0x4_0000

  /** The floor reward, 0.6 coins of 10^12 minimal units each. */
  const TAIL_EMISSION: U64 := 600_000_000_000

  /** `a + b` on `uint64_t`: exact unless the sum passes the top, then it wraps. */
  function AddU64(a: U64, b: U64): (r: U64)
    ensures a + b <= U64_MAX ==> r == a + b
    ensures a + b > U64_MAX ==> r == a + b - U64_MODULUS && r < a
  {
    (a + b) % U64_MODULUS
  }

  /** `++h` on a 32-bit height: the successor, except that the top wraps to 0. */
  function IncHeight(h: Height): (r: Height)
    ensures h < HEIGHT_MAX ==> r == h + 1
    ensures h == HEIGHT_MAX ==> r == 0
  {
    (h + 1) % HEIGHT_MODULUS
  }

  /** The height reached from `start` after `n` increments. */
  function HeightAfter(start: Height, n: nat): (r: Height)
    ensures start + n <= HEIGHT_MAX ==> r == start + n
  {
    (start + n) % HEIGHT_MODULUS
  }

  /** Each increment moves `HeightAfter` on by one `IncHeight`, wrap included. */
  lemma {:induction false} HeightAfterStep(start: Height, n: nat)
    ensures HeightAfter(start, n + 1) == IncHeight(HeightAfter(start, n))
  {
    var a := start + n;
    var q := a / HEIGHT_MODULUS;
    assert a == q * HEIGHT_MODULUS + a % HEIGHT_MODULUS;
    if a % HEIGHT_MODULUS == HEIGHT_MAX {
      assert a + 1 == (q + 1) * HEIGHT_MODULUS;
    }
  }

  /** Reward of the decaying curve before the floor is applied:
      `(moneySupply - totalSupply) >> 18`. The subtraction cannot wrap because
      every `uint64_t` is at most `moneySupply`. */
  function BaseReward(supply: U64): (r: U64)
    ensures r * REWARD_DIVISOR <= U64_MAX - supply < (r + 1) * REWARD_DIVISOR
    ensures r <= U64_MAX - supply
  {
    (U64_MAX - supply) / REWARD_DIVISOR
  }

  /** More coins in circulation never raise the base reward. */
  lemma {:induction false} BaseRewardNonIncreasing(s1: U64, s2: U64)
    requires s1 <= s2
    ensures BaseReward(s2) <= BaseReward(s1)
  {
    var r1, r2 := BaseReward(s1), BaseReward(s2);
    assert r2 * REWARD_DIVISOR <= U64_MAX - s2 <= U64_MAX - s1 < (r1 + 1) * REWARD_DIVISOR;
  }

  /** `Network::getBlockReward`: the base reward clamped from below at the floor. */
  function BlockReward(supply: U64): (r: U64)
    ensures r >= TAIL_EMISSION && r >= BaseReward(supply)
    ensures r == TAIL_EMISSION || r == BaseReward(supply)
    ensures r == TAIL_EMISSION <==> BaseReward(supply) <= TAIL_EMISSION
  {
    var reward := BaseReward(supply);
    if reward < TAIL_EMISSION then TAIL_EMISSION else reward
  }

  /** The clamped reward is non-increasing in the supply as well. */
  lemma {:induction false} BlockRewardNonIncreasing(s1: U64, s2: U64)
    requires s1 <= s2
    ensures BlockReward(s2) <= BlockReward(s1)
  {
    BaseRewardNonIncreasing(s1, s2);
  }

  /** There is room for a floor-sized reward above `supply`. */
  predicate HasHeadroom(supply: U64)
  {
    supply + TAIL_EMISSION <= U64_MAX
  }

  /** With headroom for the floor, adding the block reward to the supply cannot
      wrap: either the reward is the base reward, which is at most the distance
      to the top, or it is the floor, which fits by assumption. */
  lemma {:induction false} RewardFits(supply: U64)
    requires HasHeadroom(supply)
    ensures supply + BlockReward(supply) <= U64_MAX
  {
  }

  /** A block that pays more than the floor leaves headroom for one more
      floor-sized block: the reward is only 2^-18 of the distance to the top. */
  lemma {:induction false} AboveFloorKeepsHeadroom(supply: U64)
    requires BaseReward(supply) > TAIL_EMISSION
    ensures supply + BaseReward(supply) <= U64_MAX
    ensures HasHeadroom(supply + BaseReward(supply))
  {
    var b := BaseReward(supply);
    assert b * REWARD_DIVISOR <= U64_MAX - supply;
    assert b * (REWARD_DIVISOR - 1) >= b;
  }

  /** Without headroom the base reward has already fallen below the floor, so
      the next block pays exactly the floor. */
  lemma {:induction false} NoHeadroomPaysFloor(supply: U64)
    requires !HasHeadroom(supply)
    ensures BlockReward(supply) == TAIL_EMISSION
    ensures BaseReward(supply) < TAIL_EMISSION
  {
  }
}
