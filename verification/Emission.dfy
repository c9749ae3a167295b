/**
 The emission schedule of include/core/transaction.hpp and the coinbase check of
 src/consensus/ponw_engine.cpp: a fixed reward, plus one base unit for the last blocks of each year.
 */
module Emission {
  import opened Arith

  const U64_MAX := 0xFFFF_FFFF_FFFF_FFFF
  const BLOCKS_PER_YEAR := 525_600
  const BASE_UNITS_PER_CERT := 1_000_000
  const ANNUAL_EMISSION_CAP := 100_000_000_000 * BASE_UNITS_PER_CERT
  const BLOCK_REWARD := ANNUAL_EMISSION_CAP / BLOCKS_PER_YEAR
  const COMPLEXITY_FRAGS := ANNUAL_EMISSION_CAP % BLOCKS_PER_YEAR
  const CAP_CERTS := ANNUAL_EMISSION_CAP / BASE_UNITS_PER_CERT

  function CalculateReward(height: nat): nat {
    var yearPosition := height % BLOCKS_PER_YEAR;
    if yearPosition >= BLOCKS_PER_YEAR - COMPLEXITY_FRAGS then BLOCK_REWARD + 1 else BLOCK_REWARD
  }

  function CumulativeSupply(height: nat): nat {
    var fullYears, remaining := height / BLOCKS_PER_YEAR, height % BLOCKS_PER_YEAR;
    var cfragStart := BLOCKS_PER_YEAR - COMPLEXITY_FRAGS;
    var supply := fullYears * ANNUAL_EMISSION_CAP + remaining * BLOCK_REWARD +
                  (if remaining > cfragStart then remaining - cfragStart else 0);
    if supply > U64_MAX then U64_MAX else supply
  }

  /** 64-bit product, which wraps. */
  function CumulativeSupplyCerts(height: nat): nat {
    height / BLOCKS_PER_YEAR * CAP_CERTS % (U64_MAX + 1)
  }

  function InflationRateMillipct(height: nat): nat {
    var supplyCerts := CumulativeSupplyCerts(height);
    if supplyCerts == 0 then 0 else CAP_CERTS * 100_000 / supplyCerts
  }

  // ------------------------------------------------ the closed form is the sum

  /** What the blocks from lo up to and excluding hi emit. */
  ghost function Emitted(lo: nat, hi: nat): nat
    requires lo <= hi
    decreases hi - lo
  {
    if lo == hi then 0 else Emitted(lo, hi - 1) + CalculateReward(hi - 1)
  }

  /** The supply formula without its saturation. */
  ghost function Supply(height: nat): nat {
    var years, rem := height / BLOCKS_PER_YEAR, height % BLOCKS_PER_YEAR;
    var start := BLOCKS_PER_YEAR - COMPLEXITY_FRAGS;
    years * ANNUAL_EMISSION_CAP + rem * BLOCK_REWARD + (if rem > start then rem - start else 0)
  }

  lemma NextHeight(h: nat)
    ensures if h % BLOCKS_PER_YEAR == BLOCKS_PER_YEAR - 1
            then (h + 1) / BLOCKS_PER_YEAR == h / BLOCKS_PER_YEAR + 1 && (h + 1) % BLOCKS_PER_YEAR == 0
            else (h + 1) / BLOCKS_PER_YEAR == h / BLOCKS_PER_YEAR &&
                 (h + 1) % BLOCKS_PER_YEAR == h % BLOCKS_PER_YEAR + 1
  {
  }

  lemma SupplyGrowsByReward(h: nat)
    ensures Supply(h + 1) == Supply(h) + CalculateReward(h)
  {
    NextHeight(h);
    var years, rem := h / BLOCKS_PER_YEAR, h % BLOCKS_PER_YEAR;
    assert BLOCKS_PER_YEAR * BLOCK_REWARD + COMPLEXITY_FRAGS == ANNUAL_EMISSION_CAP;
    if rem == BLOCKS_PER_YEAR - 1 {
      Distribute(years, -1, ANNUAL_EMISSION_CAP);
    }
  }

  /** The closed form, saturated at 64 bits, is the sum of all rewards below the height. */
  lemma {:induction false} SupplyIsSumOfRewards(height: nat)
    ensures Supply(height) == Emitted(0, height)
    ensures CumulativeSupply(height) == if Emitted(0, height) > U64_MAX then U64_MAX else Emitted(0, height)
  {
    if height > 0 {
      SupplyIsSumOfRewards(height - 1);
      SupplyGrowsByReward(height - 1);
    }
  }

  lemma {:induction false} EmittedSplits(lo: nat, mid: nat, hi: nat)
    requires lo <= mid <= hi
    ensures Emitted(lo, hi) == Emitted(lo, mid) + Emitted(mid, hi)
    decreases hi - mid
  {
    if mid < hi { EmittedSplits(lo, mid, hi - 1); }
  }

  /** Any BLOCKS_PER_YEAR consecutive blocks, aligned to a year or not, emit exactly the annual cap. */
  lemma AnyYearEmitsTheCap(height: nat)
    ensures Emitted(height, height + BLOCKS_PER_YEAR) == ANNUAL_EMISSION_CAP
  {
    EmittedSplits(0, height, height + BLOCKS_PER_YEAR);
    SupplyIsSumOfRewards(height);
    SupplyIsSumOfRewards(height + BLOCKS_PER_YEAR);
    SupplyAfterAYear(height);
  }

  lemma SupplyAfterAYear(height: nat)
    ensures Supply(height + BLOCKS_PER_YEAR) == Supply(height) + ANNUAL_EMISSION_CAP
  {
    var years, rem := height / BLOCKS_PER_YEAR, height % BLOCKS_PER_YEAR;
    assert (height + BLOCKS_PER_YEAR) / BLOCKS_PER_YEAR == years + 1 &&
           (height + BLOCKS_PER_YEAR) % BLOCKS_PER_YEAR == rem;
    Distribute(years, -1, ANNUAL_EMISSION_CAP);
  }

  // ------------------------------------------------ chains that pass the coinbase check

  /** validate_block rejects a coinbase above the reward of its height. */
  predicate CoinbaseOk(height: nat, reward: nat) {
    reward <= CalculateReward(height)
  }

  ghost function Minted(rewards: seq<nat>): nat {
    if rewards == [] then 0 else Minted(rewards[..|rewards| - 1]) + rewards[|rewards| - 1]
  }

  /** Of the chains that pass, exactly those of full rewards mint the schedule. */
  lemma {:induction false} ScheduleIsReached(rewards: seq<nat>)
    requires forall h :: 0 <= h < |rewards| ==> CoinbaseOk(h, rewards[h])
    ensures Minted(rewards) == Emitted(0, |rewards|) <==>
            forall h :: 0 <= h < |rewards| ==> rewards[h] == CalculateReward(h)
  {
    if rewards != [] {
      var front := rewards[..|rewards| - 1];
      ScheduleIsReached(front);
      CheckedChainStaysBelow(front);
      assert (forall h :: 0 <= h < |rewards| ==> rewards[h] == CalculateReward(h)) <==>
             (forall h :: 0 <= h < |front| ==> front[h] == CalculateReward(h)) &&
             rewards[|front|] == CalculateReward(|front|);
    }
  }

  /** And there is such a chain of every length. */
  lemma {:induction false} FullChainPasses(n: nat) returns (rewards: seq<nat>)
    ensures |rewards| == n && Minted(rewards) == Emitted(0, n)
    ensures forall h :: 0 <= h < n ==> CoinbaseOk(h, rewards[h]) && !CoinbaseOk(h, rewards[h] + 1)
  {
    rewards := seq(n, h requires 0 <= h < n => CalculateReward(h));
    ScheduleIsReached(rewards);
  }

  /** Such a chain never mints above the schedule, and never more than the cap in any year's worth of blocks. */
  lemma {:induction false} CheckedChainStaysBelow(rewards: seq<nat>)
    requires forall h :: 0 <= h < |rewards| ==> CoinbaseOk(h, rewards[h])
    ensures Minted(rewards) <= Emitted(0, |rewards|)
    ensures Emitted(0, |rewards|) <= U64_MAX ==> Minted(rewards) <= CumulativeSupply(|rewards|)
  {
    SupplyIsSumOfRewards(|rewards|);
    if rewards != [] {
      CheckedChainStaysBelow(rewards[..|rewards| - 1]);
    }
  }

  /** The part of a checked chain between two heights. */
  lemma {:induction false} CheckedWindowStaysBelow(rewards: seq<nat>, lo: nat, hi: nat)
    requires lo <= hi <= |rewards| && forall h :: 0 <= h < |rewards| ==> CoinbaseOk(h, rewards[h])
    ensures Minted(rewards[lo..hi]) <= Emitted(lo, hi)
    ensures hi - lo <= BLOCKS_PER_YEAR ==> Minted(rewards[lo..hi]) <= ANNUAL_EMISSION_CAP
    decreases hi
  {
    if lo < hi {
      CheckedWindowStaysBelow(rewards, lo, hi - 1);
      assert rewards[lo..hi][..hi - 1 - lo] == rewards[lo..hi - 1];
    }
    if hi - lo <= BLOCKS_PER_YEAR {
      AnyYearEmitsTheCap(lo);
      EmittedSplits(lo, hi, lo + BLOCKS_PER_YEAR);
    }
  }

  // ------------------------------------------------ the reported inflation rate

  /**
   The documentation promises a rate that declines but never reaches zero. The integer code reports
   zero exactly when the reported supply is zero or over 100000 annual caps: until the 64-bit product
   wraps, that is in the first year and from year 100001 on. In between it is 100000 divided by the
   age in years.
   */
  lemma RatePositiveExactly(height: nat)
    ensures InflationRateMillipct(height) > 0 <==> 0 < CumulativeSupplyCerts(height) <= 100_000 * CAP_CERTS
    ensures height / BLOCKS_PER_YEAR * CAP_CERTS <= U64_MAX ==>
              (InflationRateMillipct(height) > 0 <==> 1 <= height / BLOCKS_PER_YEAR <= 100_000) &&
              (height >= BLOCKS_PER_YEAR ==> InflationRateMillipct(height) == 100_000 / (height / BLOCKS_PER_YEAR))
  {
    QuotientPositive(CAP_CERTS * 100_000, CumulativeSupplyCerts(height));
    if height / BLOCKS_PER_YEAR * CAP_CERTS <= U64_MAX {
      RateBeforeWrap(height);
    }
  }

  lemma QuotientPositive(a: nat, b: nat)
    ensures b > 0 ==> (a / b > 0 <==> b <= a)
  {
  }

  lemma RateBeforeWrap(height: nat)
    requires height / BLOCKS_PER_YEAR * CAP_CERTS <= U64_MAX
    ensures InflationRateMillipct(height) > 0 <==> 1 <= height / BLOCKS_PER_YEAR <= 100_000
    ensures height >= BLOCKS_PER_YEAR ==> InflationRateMillipct(height) == 100_000 / (height / BLOCKS_PER_YEAR)
  {
    var years := height / BLOCKS_PER_YEAR;
    if years > 0 {
      var q, t := 100_000 / years, 100_000 % years;
      assert 100_000 == years * q + t;
      ScaledQuotient(years, q, t, CAP_CERTS);
    }
  }

  /** Scaling dividend and divisor alike keeps the quotient. */
  lemma ScaledQuotient(d: nat, q: nat, t: nat, c: nat)
    requires t < d && c > 0
    ensures d * c > 0 && (c * (d * q + t)) / (d * c) == q
  {
    assert c * (d * q + t) == q * (d * c) + c * t;
    assert 0 <= c * t && c * t < c * d by {
      assert c * (d - t) > 0;
    }
    UniqueRemainder(c * (d * q + t), d * c, q, c * t);
  }

  /** A height at which the wrapped product makes the reported supply shrink. */
  lemma CertsWrap()
    ensures exists h: nat :: h <= U64_MAX - BLOCKS_PER_YEAR &&
                             CumulativeSupplyCerts(h + BLOCKS_PER_YEAR) < CumulativeSupplyCerts(h)
  {
    var years := U64_MAX / CAP_CERTS;
    var h := years * BLOCKS_PER_YEAR;
    assert h / BLOCKS_PER_YEAR == years && (h + BLOCKS_PER_YEAR) / BLOCKS_PER_YEAR == years + 1;
    assert CumulativeSupplyCerts(h) == years * CAP_CERTS;
    assert CumulativeSupplyCerts(h + BLOCKS_PER_YEAR) == (years + 1) * CAP_CERTS - (U64_MAX + 1);
  }
}
