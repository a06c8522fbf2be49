/**
 * Basic statistics over tick samples: `struct metal_stat`, `STAT_INIT` and
 * `update_stat` of common.h, plus the average the demo reports per size.
 */
module Stats {
  import opened Ints

  /** Running count, sum, minimum and maximum; every field is a `uint64_t`. */
  datatype Stat = Stat(cnt: u64, sum: u64, min: u64, max: u64)

  /** `STAT_INIT`: `st_min` starts as `~0UL`, here a 64-bit all-ones value. */
  const StatInit: Stat := Stat(0, 0, U64_MAX, 0)

  const TTC_CLK_FREQ_HZ: nat := 100_000_000
  const NS_PER_SEC: nat := 1_000_000_000
  const NS_PER_TTC_TICK: nat := NS_PER_SEC / TTC_CLK_FREQ_HZ
  const ITERATIONS: nat := 1000

  /**
   * `update_stat`: one more sample. Count and sum are unsigned 64-bit
   * counters that wrap; minimum and maximum follow the two comparisons.
   */
  function UpdateStat(st: Stat, val: u64): (r: Stat)
    ensures st.cnt < U64_MAX ==> r.cnt == st.cnt + 1
    ensures st.cnt == U64_MAX ==> r.cnt == 0
    ensures st.sum + val < U64_LIMIT ==> r.sum == st.sum + val
    ensures st.sum + val >= U64_LIMIT ==> r.sum == st.sum + val - U64_LIMIT
    ensures r.min <= st.min && r.min <= val && (r.min == st.min || r.min == val)
    ensures r.max >= st.max && r.max >= val && (r.max == st.max || r.max == val)
  {
    Stat(Add64(st.cnt, 1),
         Add64(st.sum, val),
         if st.min > val then val else st.min,
         if st.max < val then val else st.max)
  }

  /** The accumulator after `update_stat` has been applied to each of `vs` in turn. */
  function Accumulate(st: Stat, vs: seq<u64>): (r: Stat)
  {
    if |vs| == 0 then st else UpdateStat(Accumulate(st, vs[..|vs| - 1]), vs[|vs| - 1])
  }

  /** The mathematical sum of the samples, independent of any word width. */
  function Sum(vs: seq<nat>): nat
  {
    if |vs| == 0 then 0 else Sum(vs[..|vs| - 1]) + vs[|vs| - 1]
  }

  /** Samples that fit in 32 bits, as `read_timer` returns them. */
  ghost predicate Samples32(vs: seq<u64>)
  {
    forall j :: 0 <= j < |vs| ==> vs[j] <= U32_MAX
  }

  lemma {:induction false} SumBetween(vs: seq<nat>, lo: nat, hi: nat)
    requires forall j :: 0 <= j < |vs| ==> lo <= vs[j] <= hi
    ensures |vs| * lo <= Sum(vs) <= |vs| * hi
    decreases |vs|
  {
    if |vs| > 0 {
      var p := vs[..|vs| - 1];
      SumBetween(p, lo, hi);
      assert |vs| * lo == |p| * lo + lo;
      assert |vs| * hi == |p| * hi + hi;
    }
  }

  /**
   * Starting from `STAT_INIT`, folding in fewer than 2^32 samples of 32 bits
   * never wraps: count and sum are exact, the minimum and maximum are samples
   * bounding all the others, and with at least one sample min <= max.
   */
  lemma {:induction false} AccumulateFromInit(vs: seq<u64>)
    requires |vs| < U32_LIMIT
    requires Samples32(vs)
    ensures Accumulate(StatInit, vs).cnt == |vs|
    ensures Accumulate(StatInit, vs).sum == Sum(vs) <= |vs| * U32_MAX
    ensures |vs| == 0 ==> Accumulate(StatInit, vs) == StatInit
    ensures |vs| > 0 ==> Accumulate(StatInit, vs).min in vs
    ensures |vs| > 0 ==> Accumulate(StatInit, vs).max in vs
    ensures forall j :: 0 <= j < |vs| ==>
              Accumulate(StatInit, vs).min <= vs[j] <= Accumulate(StatInit, vs).max
    ensures |vs| > 0 ==> Accumulate(StatInit, vs).min <= Accumulate(StatInit, vs).max
    decreases |vs|
  {
    if |vs| > 0 {
      var p := vs[..|vs| - 1];
      var v := vs[|vs| - 1];
      AccumulateFromInit(p);
      var q := Accumulate(StatInit, p);
      var r := Accumulate(StatInit, vs);
      assert r == UpdateStat(q, v);
      assert |p| * U32_MAX < U64_LIMIT - U32_LIMIT;
      assert Sum(vs) == Sum(p) + v;
      assert forall j :: 0 <= j < |p| ==> p[j] == vs[j];
      if |p| == 0 {
        assert r.min == v && r.max == v;
      } else {
        assert q.min in vs && q.max in vs;
      }
    }
  }

  /**
   * The reported average in nanoseconds: `st_sum * NS_PER_TTC_TICK / ITERATIONS`,
   * computed in 64-bit unsigned arithmetic. As long as the product fits in 64
   * bits it is the exact product divided by ITERATIONS, rounded down; in
   * every case it is the product modulo 2^64 divided by ITERATIONS, rounded
   * down, since the product wraps before the division.
   */
  function AverageNs(st: Stat): (r: u64)
    ensures st.sum * NS_PER_TTC_TICK < U64_LIMIT ==>
              r * ITERATIONS <= st.sum * NS_PER_TTC_TICK < (r + 1) * ITERATIONS
    ensures st.sum * NS_PER_TTC_TICK >= U64_LIMIT ==> r * ITERATIONS < U64_LIMIT
    ensures r * ITERATIONS <= (st.sum * NS_PER_TTC_TICK) % U64_LIMIT < (r + 1) * ITERATIONS
  {
    Wrap64(st.sum * NS_PER_TTC_TICK) / ITERATIONS
  }

  /**
   * For one full block of ITERATIONS 32-bit samples the average does not
   * overflow: it is the exact sum times ten nanoseconds per tick over the
   * count, and it lies between the minimum and the maximum, both in ns.
   */
  lemma AverageWithinRange(vs: seq<u64>)
    requires |vs| == ITERATIONS
    requires Samples32(vs)
    ensures AverageNs(Accumulate(StatInit, vs)) == Sum(vs) * NS_PER_TTC_TICK / |vs|
    ensures Accumulate(StatInit, vs).min * NS_PER_TTC_TICK
              <= AverageNs(Accumulate(StatInit, vs))
              <= Accumulate(StatInit, vs).max * NS_PER_TTC_TICK
  {
    AccumulateFromInit(vs);
    var st := Accumulate(StatInit, vs);
    assert NS_PER_TTC_TICK == 10;
    SumBetween(vs, st.min, st.max);
    assert st.sum * 10 < U64_LIMIT;
    assert AverageNs(st) == st.sum * 10 / 1000;
    assert st.min * 1000 <= st.sum <= st.max * 1000;
  }
}
