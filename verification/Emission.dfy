/**
 Token emission with halving eras: the reward loop of `settle_compressed_batch`
 (sns-program/programs/sns-program/src/lib.rs:83-111), proved against the plain
 per-request definition of how many tokens have been issued.
 */
module Emission {
  import opened Common

  const INITIAL_REWARD: nat := 10 * 1_000_000_000
  const HALVING_INTERVAL: nat := 100_000_000

  /** The last request count whose era still has a u64 end: floor(2^64 / interval) * interval. */
  const COUNT_LIMIT: nat := 184_467_440_737 * 100_000_000

  /** The sum of all era rewards, 2 * 10^10 - 11. */
  const ALL_ERAS: nat := 19_999_999_989

  /** The two ways the reward loop can stop early: the program's own error, or
      the runtime abort that `overflow-checks = true` puts on plain arithmetic. */
  datatype LoopError = CheckedOverflow | PlainOverflow
  datatype LoopResult = Paid(total: nat, newCount: nat) | Stopped(error: LoopError)

  /** `x >> k` on unsigned integers. */
  function Shr(x: nat, k: nat): nat {
    if k == 0 then x else Shr(x / 2, k - 1)
  }

  function EraReward(era: nat): nat {
    if era >= 64 then 0 else Shr(INITIAL_REWARD, era)
  }

  /** Tokens issued for the first `n` requests, one request at a time. */
  function Emitted(n: nat): nat {
    if n == 0 then 0 else Emitted(n - 1) + EraReward((n - 1) / HALVING_INTERVAL)
  }

  ghost function EraSum(e: nat): nat {
    if e == 0 then 0 else EraSum(e - 1) + EraReward(e - 1)
  }

  /** x + (x >> 1) + ... + (x >> (k - 1)). */
  ghost function HalvingSum(x: nat, k: nat): nat {
    if k == 0 then 0 else x + HalvingSum(x / 2, k - 1)
  }

  lemma {:induction false} ShrZero(k: nat)
    ensures Shr(0, k) == 0
  {
    if k > 0 {
      ShrZero(k - 1);
    }
  }

  lemma {:induction false} ShrSplit(x: nat, i: nat, j: nat)
    ensures Shr(x, i + j) == Shr(Shr(x, i), j)
    decreases i
  {
    if i > 0 {
      ShrSplit(x / 2, i - 1, j);
    }
  }

  lemma {:induction false} HalvingSumSplit(x: nat, i: nat, j: nat)
    ensures HalvingSum(x, i + j) == HalvingSum(x, i) + HalvingSum(Shr(x, i), j)
    decreases i
  {
    if i > 0 {
      HalvingSumSplit(x / 2, i - 1, j);
    }
  }

  lemma {:induction false} EraSumIsHalvingSum(e: nat)
    requires e <= 64
    ensures EraSum(e) == HalvingSum(INITIAL_REWARD, e)
  {
    hide HalvingSum, Shr;
    if e == 0 {
      HalvingSumZero(INITIAL_REWARD);
    } else {
      EraSumIsHalvingSum(e - 1);
      HalvingSumSplit(INITIAL_REWARD, e - 1, 1);
      HalvingSumOne(Shr(INITIAL_REWARD, e - 1));
    }
  }

  lemma HalvingSumZero(x: nat)
    ensures HalvingSum(x, 0) == 0 && Shr(x, 0) == x
  {
  }

  lemma HalvingSumOne(x: nat)
    ensures HalvingSum(x, 1) == x
  {
  }

  lemma OneHalving(y: nat, b: nat, k: nat)
    requires b < 2
    ensures HalvingSum(2 * y + b, k + 1) == 2 * y + b + HalvingSum(y, k)
    ensures Shr(2 * y + b, k + 1) == Shr(y, k)
  {
    assert (2 * y + b) / 2 == y;
  }

  /** Four halvings at a time, on the base-16 digit `b`. */
  lemma FourHalvings(y: nat, b: nat, k: nat)
    requires b < 16
    ensures HalvingSum(16 * y + b, k + 4) == 30 * y + b + b / 2 + b / 4 + b / 8 + HalvingSum(y, k)
    ensures Shr(16 * y + b, k + 4) == Shr(y, k)
  {
    hide *;
    OneHalving(8 * y + b / 2, b % 2, k + 3);
    OneHalving(4 * y + b / 4, b / 2 % 2, k + 2);
    OneHalving(2 * y + b / 8, b / 4 % 2, k + 1);
    OneHalving(y, b / 8, k);
  }

  lemma TenBillionHalved(x: nat, k: nat)
    requires x == 10_000_000_000 && k >= 33
    ensures HalvingSum(x, k) == 19_999_999_988 + HalvingSum(1, k - 33)
    ensures Shr(x, k) == Shr(1, k - 33)
  {
    hide *;
    FourHalvings(625_000_000, 0, k - 4);
    FourHalvings(39_062_500, 0, k - 8);
    FourHalvings(2_441_406, 4, k - 12);
    FourHalvings(152_587, 14, k - 16);
    FourHalvings(9_536, 11, k - 20);
    FourHalvings(596, 0, k - 24);
    FourHalvings(37, 4, k - 28);
    FourHalvings(2, 5, k - 32);
    OneHalving(1, 0, k - 33);
  }

  /** The 34 eras that pay anything, added up; the last pays a single unit. */
  lemma AllErasAddUp()
    ensures EraSum(34) == ALL_ERAS
    ensures EraReward(33) == 1 && Shr(INITIAL_REWARD, 34) == 0
  {
    TenBillionHalved(INITIAL_REWARD, 33);
    TenBillionHalved(INITIAL_REWARD, 34);
    HalvingSumZero(1);
    HalvingSumOne(1);
    HalvingSumZero(0);
    OneHalving(0, 1, 0);
    EraSumIsHalvingSum(34);
  }

  /** From era 34 on the halved reward has reached zero. */
  lemma NoRewardFromEra34(era: nat)
    requires era >= 34
    ensures EraReward(era) == 0
  {
    ShrSplit(INITIAL_REWARD, 34, era - 34);
    AllErasAddUp();
    ShrZero(era - 34);
  }

  /** Inside one era the emission is linear. */
  lemma {:induction false} EmittedWithinEra(g: nat, m: nat)
    requires m == 0 || (g + m - 1) / HALVING_INTERVAL == g / HALVING_INTERVAL
    ensures Emitted(g + m) == Emitted(g) + m * EraReward(g / HALVING_INTERVAL)
    decreases m
  {
    hide EraReward;
    if m > 0 {
      assert m == 1 || (g + m - 2) / HALVING_INTERVAL == g / HALVING_INTERVAL;
      EmittedWithinEra(g, m - 1);
      var r := EraReward(g / HALVING_INTERVAL);
      assert (m - 1) * r + r == m * r;
    }
  }

  lemma {:induction false} EmittedMonotone(a: nat, b: nat)
    requires a <= b
    ensures Emitted(a) <= Emitted(b)
    decreases b
  {
    if a < b {
      EmittedMonotone(a, b - 1);
    }
  }

  lemma NothingEmittedYet()
    ensures Emitted(0) == 0
  {
  }

  lemma {:induction false} EmittedAtEra(e: nat)
    ensures Emitted(e * HALVING_INTERVAL) == HALVING_INTERVAL * EraSum(e)
  {
    hide EraReward, Emitted;
    if e == 0 {
      NothingEmittedYet();
    } else {
      EmittedAtEra(e - 1);
      EmittedWithinEra((e - 1) * HALVING_INTERVAL, HALVING_INTERVAL);
    }
  }

  lemma {:induction false} EmittedTail(g: nat)
    requires g >= 34 * HALVING_INTERVAL
    ensures Emitted(g) == Emitted(34 * HALVING_INTERVAL)
    decreases g
  {
    if g > 34 * HALVING_INTERVAL {
      NoRewardFromEra34((g - 1) / HALVING_INTERVAL);
      EmittedTail(g - 1);
    }
  }

  /** The whole emission is capped, the cap is met exactly from request 34 * 10^8
      on, and it fits in 64 bits with the eras' sum 2 * 10^10 - 11. */
  lemma EmissionCap(g: nat)
    ensures Emitted(g) <= HALVING_INTERVAL * ALL_ERAS <= MAX_U64
    ensures Emitted(g) == HALVING_INTERVAL * ALL_ERAS <==> g >= 34 * HALVING_INTERVAL
  {
    EmittedAtEra(34);
    AllErasAddUp();
    var last := 34 * HALVING_INTERVAL - 1;
    if g > last {
      EmittedTail(g);
    } else {
      EmittedMonotone(g, last);
      LastRequestIsPaid();
    }
  }

  /** The last request of era 33 still gets its unit. */
  lemma LastRequestIsPaid()
    ensures Emitted(34 * HALVING_INTERVAL) == Emitted(34 * HALVING_INTERVAL - 1) + 1
  {
    hide EraReward;
    AllErasAddUp();
    EmittedWithinEra(34 * HALVING_INTERVAL - 1, 1);
  }

  /** Reward due for `n` requests that follow the first `g`. */
  function Reward(g: nat, n: nat): nat {
    EmittedMonotone(g, g + n);
    Emitted(g + n) - Emitted(g)
  }

  /** The reward is additive, nothing from era 34 on, and fits a u64. */
  lemma RewardAdditive(g: nat, a: nat, b: nat)
    ensures Reward(g, a + b) == Reward(g, a) + Reward(g + a, b)
    ensures g >= 34 * HALVING_INTERVAL ==> Reward(g, a) == 0
    ensures Reward(g, a) <= MAX_U64
  {
    assert g + (a + b) == (g + a) + b;
    EmissionCap(g);
    EmissionCap(g + a);
  }

  /** What the loop comes to for `n` requests that follow the first `g`: the
      per-request emission, or the abort past the last era end that fits a u64. */
  function SettleResult(g: nat, n: nat): LoopResult {
    if n == 0 || g + n <= COUNT_LIMIT then Paid(Reward(g, n), g + n) else Stopped(PlainOverflow)
  }

  /** A batch settled in two parts: it goes through exactly when both parts do, one
      continuing from the count the other leaves, and pays and counts the same. */
  lemma SettlingInParts(g: nat, a: nat, b: nat)
    ensures var whole, first := SettleResult(g, a + b), SettleResult(g, a);
            && (whole.Paid? <==> first.Paid? && SettleResult(first.newCount, b).Paid?)
            && (whole.Paid? ==>
                  var second := SettleResult(first.newCount, b);
                  && whole.total == first.total + second.total <= MAX_U64
                  && whole.newCount == second.newCount)
  {
    RewardAdditive(g, a, b);
    RewardAdditive(g, a + b, 0);
  }

  /** The number of eras that `n > 0` requests after the first `g` touch. */
  function ErasTouched(g: nat, n: nat): nat {
    if n == 0 then 0 else (g + n - 1) / HALVING_INTERVAL - g / HALVING_INTERVAL + 1
  }

  lemma NothingTouchedYet(g: nat)
    ensures ErasTouched(g, 0) == 0
  {
  }

  /** An era's end fits in a u64 exactly when the era lies below the limit. */
  lemma EraEndFits(g: nat)
    ensures (g / HALVING_INTERVAL + 1) * HALVING_INTERVAL <= MAX_U64 <==> g < COUNT_LIMIT
    ensures g < (g / HALVING_INTERVAL + 1) * HALVING_INTERVAL
  {
  }

  /** What one loop iteration pays: the emission over the part of the batch that
      still lies in the current era, so never more than fits. */
  lemma IterationPays(g: nat, m: nat)
    requires 0 < m <= (g / HALVING_INTERVAL + 1) * HALVING_INTERVAL - g
    ensures Emitted(g + m) == Emitted(g) + m * EraReward(g / HALVING_INTERVAL)
    ensures Emitted(g + m) <= MAX_U64
  {
    EmittedWithinEra(g, m);
    EmissionCap(g + m);
  }

  lemma IterationTouchesOneEra(global: nat, g: nat, m: nat)
    requires global <= g && (g > global ==> g % HALVING_INTERVAL == 0)
    requires 0 < m <= (g / HALVING_INTERVAL + 1) * HALVING_INTERVAL - g
    ensures ErasTouched(global, g + m - global) == ErasTouched(global, g - global) + 1
  {
  }

  /** The reward loop, operation by operation on u64 values. It stops early in
      exactly one case, never through the checked operations, and otherwise
      issues the per-request emission after one iteration for each era touched. */
  method SettleRewards(global: u64, receiptCount: u64) returns (r: LoopResult, iterations: nat)
    ensures r == SettleResult(global, receiptCount)
    ensures r.Paid? ==> iterations == ErasTouched(global, receiptCount)
  {
    hide Emitted, Shr, ErasTouched;
    NothingTouchedYet(global);
    var totalReward: nat := 0;
    var current: nat := global;
    var remaining: nat := receiptCount;
    iterations := 0;
    while remaining > 0
      invariant global <= current && (global < current ==> current <= COUNT_LIMIT)
      invariant current + remaining == global + receiptCount
      invariant Emitted(global) + totalReward == Emitted(current)
      invariant remaining > 0 && current > global ==> current % HALVING_INTERVAL == 0
      invariant iterations == ErasTouched(global, current - global)
    {
      var era := current / HALVING_INTERVAL;
      EraEndFits(current);
      if (era + 1) * HALVING_INTERVAL > MAX_U64 {
        return Stopped(PlainOverflow), iterations;
      }
      var nextHalving := (era + 1) * HALVING_INTERVAL;
      var canFill := nextHalving - current;
      var toProcess := if canFill < remaining then canFill else remaining;
      var eraReward := if era >= 64 then 0 else Shr(INITIAL_REWARD, era);
      IterationPays(current, toProcess);
      IterationTouchesOneEra(global, current, toProcess);
      var due := toProcess * eraReward;
      if due > MAX_U64 {
        return Stopped(CheckedOverflow), iterations;
      }
      if totalReward + due > MAX_U64 {
        return Stopped(CheckedOverflow), iterations;
      }
      totalReward := totalReward + due;
      if current + toProcess > MAX_U64 {
        return Stopped(PlainOverflow), iterations;
      }
      current := current + toProcess;
      remaining := remaining - toProcess;
      iterations := iterations + 1;
    }
    return Paid(totalReward, current), iterations;
  }
}
