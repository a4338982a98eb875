/**
 * `random.sample` over an abstract random source, and the two sample sizes
 * the notebook asks for.
 */
module Sampler {
  import opened Wrappers

  /** `min(10, len(processed))`: the size of the inspection and review samples. */
  function InspectionSize(n: nat): (size: nat)
    ensures size <= n && size <= 10
    ensures size == n || size == 10
  {
    if n < 10 then n else 10
  }

  /**
   * `min(100, max(10, int(len(processed) * 0.05)))`, the size of the
   * validation sample, with the float product taken as `n / 20`. It is at
   * least 10 whatever `n` is, so it fits the population exactly when there
   * are at least 10 examples.
   */
  function ValidationSize(n: nat): (size: nat)
    ensures 10 <= size <= 100
    ensures size <= n <==> n >= 10
    ensures n < 200 ==> size == 10
    ensures 200 <= n < 2020 ==> size == n / 20
    ensures n >= 2020 ==> size == 100
  {
    var share := n / 20;
    var atLeast := if share < 10 then 10 else share;
    if atLeast > 100 then 100 else atLeast
  }

  /** The least power of 4 that is at least `x`, counting up from `p`. */
  function PowerOfFourFrom(x: nat, p: nat): nat
    requires p >= 1
    decreases x - p
  {
    if p >= x then p else PowerOfFourFrom(x, 4 * p)
  }

  /** Counting up from below `x`, the power reached is at least `x` and below `4 * x`. */
  lemma {:induction false} PowerOfFourBounds(x: nat, p: nat)
    requires 1 <= p < x
    ensures x <= PowerOfFourFrom(x, p) < 4 * x
    decreases x - p
  {
    if 4 * p < x {
      PowerOfFourBounds(x, 4 * p);
    }
  }

  /**
   * CPython's threshold in `random.sample`: `21`, plus
   * `4 ** ceil(log(3 * k, 4))` when `k > 5`. A population no larger than this
   * is drawn by the pool method, a larger one by the set method. `3 * k` is
   * never a power of 4, so the logarithm's rounding does not matter.
   */
  function SetSize(k: nat): nat {
    21 + if k > 5 then PowerOfFourFrom(3 * k, 1) else 0
  }

  predicate UsesPool(n: nat, k: nat) {
    n <= SetSize(k)
  }

  /**
   * All three of the notebook's draws use the pool method exactly when there
   * are at most 85 examples; from 86 examples on, all use the set method.
   */
  lemma PoolMethodRange(n: nat)
    ensures UsesPool(n, InspectionSize(n)) <==> n <= 85
    ensures n >= 10 ==> (UsesPool(n, ValidationSize(n)) <==> n <= 85)
  {
    assert SetSize(10) == 85 by {
      assert PowerOfFourFrom(30, 1) == PowerOfFourFrom(30, 4) == PowerOfFourFrom(30, 16) == 64;
    }
    var k := InspectionSize(n);
    if 5 < k < 10 {
      PowerOfFourBounds(3 * k, 1);
    }
    if n >= 10 {
      var v := ValidationSize(n);
      if 10 < v < 100 {
        PowerOfFourBounds(3 * v, 1);
        assert 20 * v <= n;
      } else if v == 100 {
        assert PowerOfFourFrom(300, 1) == PowerOfFourFrom(300, 4) == PowerOfFourFrom(300, 16)
          == PowerOfFourFrom(300, 64) == PowerOfFourFrom(300, 256) == 1024;
      }
    }
  }

  /**
   * `values` is a draw without replacement from `population`: value `m` is
   * the element at position `positions[m]`, and no position is drawn twice.
   */
  predicate IsDraw<T(==)>(population: seq<T>, positions: seq<nat>, values: seq<T>) {
    && |positions| == |values|
    && (forall m :: 0 <= m < |positions| ==> positions[m] < |population| && values[m] == population[positions[m]])
    && (forall a, b :: 0 <= a < b < |positions| ==> positions[a] != positions[b])
  }

  /** Every drawn value is an element of the population. */
  lemma DrawMembers<T>(population: seq<T>, positions: seq<nat>, values: seq<T>)
    requires IsDraw(population, positions, values)
    ensures forall m :: 0 <= m < |values| ==> values[m] in population
  {
    forall m | 0 <= m < |values| ensures values[m] in population {
      assert values[m] == population[positions[m]];
    }
  }

  /** A draw takes no more values than the population has positions. */
  lemma DrawSize<T>(population: seq<T>, positions: seq<nat>, values: seq<T>)
    requires IsDraw(population, positions, values)
    ensures |values| <= |population|
  {
    var taken := set m | 0 <= m < |positions| :: positions[m];
    DistinctCount(positions, |positions|);
    RangeSize(|population|);
    assert taken <= Positions(|population|);
    SubsetSize(taken, Positions(|population|));
  }

  /** Distinct entries of a prefix make a set as large as the prefix. */
  lemma {:induction false} DistinctCount(positions: seq<nat>, i: nat)
    requires i <= |positions|
    requires forall a, b :: 0 <= a < b < |positions| ==> positions[a] != positions[b]
    ensures |set m | 0 <= m < i :: positions[m]| == i
  {
    if i > 0 {
      DistinctCount(positions, i - 1);
      var before := set m | 0 <= m < i - 1 :: positions[m];
      assert (set m | 0 <= m < i :: positions[m]) == before + {positions[i - 1]};
      assert positions[i - 1] !in before;
    }
  }

  /** The positions below `n`. */
  function Positions(n: nat): set<nat> {
    if n == 0 then {} else Positions(n - 1) + {n - 1}
  }

  lemma {:induction false} RangeSize(n: nat)
    ensures |Positions(n)| == n
    ensures forall t: nat :: t in Positions(n) <==> t < n
  {
    if n > 0 {
      RangeSize(n - 1);
      assert n - 1 !in Positions(n - 1);
    }
  }

  lemma SubsetSize(a: set<nat>, b: set<nat>)
    requires a <= b
    ensures |a| <= |b|
  {
    assert b == a + (b - a);
  }

  /** The pool of positions `0 .. n - 1` before the first draw. */
  function FullPool(n: nat): seq<nat> {
    seq(n, t requires 0 <= t < n => t as nat)
  }

  /**
   * The pool method's pool after `i` draws, the draws taken from the stream
   * elements `from`, `from + 1`, …: draw `d` reduces its element below the
   * `n - d` positions still pooled, and the last pooled position moves into
   * the place of the one drawn.
   */
  function PoolAfter(n: nat, stream: nat -> nat, from: nat, i: nat): (pool: seq<nat>)
    requires i <= n
    ensures |pool| == n
  {
    if i == 0 then FullPool(n)
    else
      var pool := PoolAfter(n, stream, from, i - 1);
      pool[stream(from + i - 1) % (n - i + 1) := pool[n - i]]
  }

  /** The positions the pool method draws for `random.sample(population, k)` with `n` elements. */
  function PoolPositions(n: nat, k: nat, stream: nat -> nat, from: nat): (positions: seq<nat>)
    requires k <= n
    ensures |positions| == k
  {
    if k == 0 then []
    else PoolPositions(n, k - 1, stream, from) + [PoolAfter(n, stream, from, k - 1)[stream(from + k - 1) % (n - k + 1)]]
  }

  /** One more draw of the pool method, written with the draw's own index. */
  lemma PoolStep(n: nat, stream: nat -> nat, from: nat, i: nat)
    requires i < n
    ensures var pool, j := PoolAfter(n, stream, from, i), stream(from + i) % (n - i);
      && PoolAfter(n, stream, from, i + 1) == pool[j := pool[n - i - 1]]
      && PoolPositions(n, i + 1, stream, from) == PoolPositions(n, i, stream, from) + [pool[j]]
  {
    assert from + (i + 1) - 1 == from + i && n - (i + 1) + 1 == n - i && n - (i + 1) == n - i - 1;
  }

  /**
   * After `i` draws, the pool holds positions below `n`, the `n - i` still
   * pooled are distinct and none of them was drawn, and the drawn positions
   * are distinct: so the pool method's `k` positions are a draw without
   * replacement.
   */
  lemma {:induction false} PoolDistinct(n: nat, stream: nat -> nat, from: nat, i: nat)
    requires i <= n
    ensures var pool, drawn := PoolAfter(n, stream, from, i), PoolPositions(n, i, stream, from);
      && (forall t :: 0 <= t < n ==> pool[t] < n)
      && (forall t, u :: 0 <= t < u < n - i ==> pool[t] != pool[u])
      && (forall m :: 0 <= m < i ==> drawn[m] < n)
      && (forall m, t :: 0 <= m < i && 0 <= t < n - i ==> drawn[m] != pool[t])
      && (forall a, b :: 0 <= a < b < i ==> drawn[a] != drawn[b])
  {
    if i > 0 {
      var h := i - 1;
      PoolDistinct(n, stream, from, h);
      PoolStep(n, stream, from, h);
      var pool, drawn := PoolAfter(n, stream, from, h), PoolPositions(n, h, stream, from);
      var j := stream(from + h) % (n - h);
      var last := n - h - 1;
      assert PoolAfter(n, stream, from, i) == pool[j := pool[last]];
      assert PoolPositions(n, i, stream, from) == drawn + [pool[j]];
    }
  }

  /**
   * The state of `random.sample`'s loop after `i` draws: value by value, the
   * pool and the result hold the population's elements at the pooled and the
   * drawn positions of the pool method.
   */
  predicate Pooled<T(==)>(population: seq<T>, pool: seq<T>, result: seq<T>, stream: nat -> nat, from: nat, i: nat)
    requires i <= |population|
  {
    var n, ids, drawn := |population|, PoolAfter(|population|, stream, from, i), PoolPositions(|population|, i, stream, from);
    && |pool| == n && |result| == i
    && (forall t :: 0 <= t < n - i ==> ids[t] < n && pool[t] == population[ids[t]])
    && (forall m :: 0 <= m < i ==> drawn[m] < n && result[m] == population[drawn[m]])
  }

  /** One draw of the loop keeps `Pooled`. */
  lemma PooledStep<T>(population: seq<T>, pool: seq<T>, result: seq<T>, stream: nat -> nat, from: nat, i: nat, j: nat)
    requires i < |population| && Pooled(population, pool, result, stream, from, i)
    requires j == stream(from + i) % (|population| - i)
    ensures Pooled(population, pool[j := pool[|population| - i - 1]], result + [pool[j]], stream, from, i + 1)
  {
    PoolStep(|population|, stream, from, i);
  }

  /** When the loop ends, the result is the draw at the pool method's positions. */
  lemma PooledDraw<T>(population: seq<T>, pool: seq<T>, result: seq<T>, stream: nat -> nat, from: nat, k: nat)
    requires k <= |population| && Pooled(population, pool, result, stream, from, k)
    ensures IsDraw(population, PoolPositions(|population|, k, stream, from), result)
  {
    PoolDistinct(|population|, stream, from, k);
  }

  /**
   * The generator behind `random.sample`. Each draw below a bound takes the
   * next element of an injected stream and reduces it below the bound; the
   * Mersenne Twister seeded with 42 is not modelled, only how many draws are
   * taken and in which order.
   */
  class Random {
    const stream: nat -> nat
    var consumed: nat

    constructor(stream: nat -> nat)
      ensures this.stream == stream && consumed == 0
    {
      this.stream := stream;
      consumed := 0;
    }

    /** `_randbelow(bound)`: the next draw, below `bound`. */
    method Below(bound: nat) returns (j: nat)
      requires bound > 0
      modifies this
      ensures j < bound
      ensures j == stream(old(consumed)) % bound
      ensures consumed == old(consumed) + 1
    {
      j := stream(consumed) % bound;
      consumed := consumed + 1;
    }

    /** Draw `i` of the pool method: one of the `n - i` pooled elements, whose place the last pooled one takes. */
    method PoolDraw<T>(population: seq<T>, pool: seq<T>, result: seq<T>, ghost from: nat, i: nat)
      returns (pool': seq<T>, result': seq<T>)
      requires i < |population| && consumed == from + i
      requires Pooled(population, pool, result, stream, from, i)
      modifies this
      ensures consumed == old(consumed) + 1
      ensures Pooled(population, pool', result', stream, from, i + 1)
    {
      var j := Below(|population| - i);
      PooledStep(population, pool, result, stream, from, i, j);
      result' := result + [pool[j]];
      pool' := pool[j := pool[|population| - i - 1]];
    }

    /**
     * `random.sample(population, k)` by the pool method: draw `i` picks one of
     * the `n - i` positions still in the pool and moves the last pooled
     * position into its place. A size outside `0..n` raises `ValueError`
     * before anything is drawn.
     */
    method Sample<T(==)>(population: seq<T>, k: int) returns (r: Result<seq<T>, string>, ghost positions: seq<nat>)
      modifies this
      ensures r.Err? <==> !(0 <= k <= |population|)
      ensures r.Err? ==> consumed == old(consumed)
      ensures r.Ok? ==> |r.value| == k && consumed == old(consumed) + k
      ensures r.Ok? ==> IsDraw(population, positions, r.value)
      ensures r.Ok? ==> positions == PoolPositions(|population|, k, stream, old(consumed))
    {
      var n := |population|;
      if !(0 <= k <= n) {
        r := Err("Sample larger than population or is negative");
        positions := [];
        return;
      }
      var pool := population;
      var result: seq<T> := [];
      for i := 0 to k
        invariant consumed == old(consumed) + i
        invariant Pooled(population, pool, result, stream, old(consumed), i)
      {
        pool, result := PoolDraw(population, pool, result, old(consumed), i);
      }
      PooledDraw(population, pool, result, stream, old(consumed), k);
      positions := PoolPositions(n, k, stream, old(consumed));
      r := Ok(result);
    }
  }
}
