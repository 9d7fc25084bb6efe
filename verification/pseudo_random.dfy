/**
 * The seeded linear congruential generator. Its state is an integer; every
 * draw advances it exactly once. The source's `%` keeps the sign of the
 * dividend, so negative seeds are modelled with a truncating remainder.
 */
module PseudoRandom {

  const MULTIPLIER: int := 9301
  const INCREMENT: int := 49297
  const MODULUS: int := 233280

  /** The remainder of JavaScript's `%`: truncating division, sign of the dividend. */
  function TruncRem(a: int, m: int): (r: int)
    requires m > 0
    ensures a >= 0 ==> 0 <= r < m
    ensures a < 0 ==> -m < r <= 0
  {
    if a >= 0 then a % m else -((-a) % m)
  }

  /** A multiple of `m` leaves no remainder. */
  lemma MultipleModZero(k: int, m: int)
    requires m > 0
    ensures (k * m) % m == 0
  {
    var q, r := (k * m) / m, (k * m) % m;
    assert k * m == q * m + r && 0 <= r < m;
    assert (k - q) * m == r;
    if k - q >= 1 {
    } else if k - q <= -1 {
    }
  }

  /** The truncating remainder differs from its dividend by a multiple of the divisor. */
  lemma TruncRemCongruent(a: int, m: int)
    requires m > 0
    ensures (a - TruncRem(a, m)) % m == 0
  {
    if a >= 0 {
      assert a - TruncRem(a, m) == (a / m) * m;
      MultipleModZero(a / m, m);
    } else {
      assert a - TruncRem(a, m) == (-((-a) / m)) * m;
      MultipleModZero(-((-a) / m), m);
    }
  }

  datatype Generator = Generator(seed: int)

  /** The state after one step from state `s`. */
  function Advance(s: int): int
  {
    TruncRem(s * MULTIPLIER + INCREMENT, MODULUS)
  }

  /** `next`: advance the state and return it as a fraction of the modulus. */
  function Next(g: Generator): (r: (Generator, real))
    ensures g.seed >= 0 ==> 0 <= r.0.seed < MODULUS && 0.0 <= r.1 < 1.0
    ensures -MODULUS < r.0.seed < MODULUS
    ensures (g.seed * MULTIPLIER + INCREMENT - r.0.seed) % MODULUS == 0
    ensures r.1 * MODULUS as real == r.0.seed as real
  {
    var s := Advance(g.seed);
    TruncRemCongruent(g.seed * MULTIPLIER + INCREMENT, MODULUS);
    (Generator(s), s as real / MODULUS as real)
  }

  /** `nextFloat`: the next state's share of the modulus, a number in
      [0, 1) for a non-negative seed. */
  function NextFloat(g: Generator): (r: (Generator, real))
    ensures r.0 == Next(g).0
    ensures r.1 * MODULUS as real == r.0.seed as real
    ensures g.seed >= 0 ==> 0.0 <= r.1 < 1.0
  {
    Next(g)
  }

  /** `nextInt(max)`: the floor of `next() * max`. */
  function NextInt(g: Generator, max: int): (r: (Generator, int))
    ensures r.0 == Next(g).0
    ensures r.1 as real <= Next(g).1 * max as real < (r.1 + 1) as real
    ensures g.seed >= 0 && max > 0 ==> 0 <= r.1 < max
  {
    var g' := Next(g).0;
    var v := (g'.seed * max) / MODULUS;
    FloorOfRatio(g'.seed * max, MODULUS);
    ScaledRatio(g'.seed, max);
    DrawIndexInRange(g'.seed, max);
    (g', v)
  }

  /** Integer division by a positive divisor is the floor of the exact ratio. */
  lemma FloorOfRatio(a: int, m: int)
    requires m > 0
    ensures (a / m) as real <= a as real / m as real < (a / m + 1) as real
  {
    var q := a / m;
    assert q * m <= a < (q + 1) * m;
    assert (q * m) as real == q as real * m as real;
    assert ((q + 1) * m) as real == (q + 1) as real * m as real;
  }

  /** The ratio of `s * max` to the modulus is the value of `next` scaled by `max`. */
  lemma ScaledRatio(s: int, max: int)
    ensures (s * max) as real / MODULUS as real == (s as real / MODULUS as real) * max as real
  {
  }

  /** A state in [0, modulus) scales any positive bound to an index below it. */
  lemma DrawIndexInRange(s: int, max: int)
    ensures 0 <= s < MODULUS && max > 0 ==> 0 <= (s * max) / MODULUS < max
  {
    if 0 <= s < MODULUS && max > 0 {
      assert 0 <= s * max < MODULUS * max;
    }
  }

  /** `nextBoolean`: whether `next()` is at least one half. */
  function NextBoolean(g: Generator): (r: (Generator, bool))
    ensures r.0 == Next(g).0
    ensures r.1 <==> r.0.seed >= MODULUS / 2
  {
    var (g', x) := Next(g);
    assert x >= 0.5 <==> g'.seed >= MODULUS / 2;
    (g', x >= 0.5)
  }

  /** `nextIntRange(min, max)`: `min` plus `nextInt(max - min)`. */
  function NextIntRange(g: Generator, min: int, max: int): (r: (Generator, int))
    ensures r.0 == Next(g).0
    ensures (r.1 - min) as real <= Next(g).1 * (max - min) as real < (r.1 - min + 1) as real
    ensures g.seed >= 0 && min < max ==> min <= r.1 < max
  {
    var (g', v) := NextInt(g, max - min);
    (g', min + v)
  }

  // ---------------------------------------------------------------------------
  // Sequences of draws

  /** The first `n` values `next` returns from `g`, and the generator after them. */
  function Draws(g: Generator, n: nat): (r: (seq<real>, Generator))
    ensures |r.0| == n
    decreases n
  {
    if n == 0 then ([], g)
    else
      var next := Next(g);
      var rest := Draws(next.0, n - 1);
      ([next.1] + rest.0, rest.1)
  }

  /** The state after `n` steps from `s`. */
  function AdvanceBy(s: int, n: nat): int
    decreases n
  {
    if n == 0 then s else AdvanceBy(Advance(s), n - 1)
  }

  /** Each draw advances the state exactly once: after `n` draws the generator
      holds the state `n` steps on, and every value is that step's state over
      the modulus. */
  lemma {:induction false} DrawsAdvanceOnce(g: Generator, n: nat)
    decreases n
    ensures Draws(g, n).1.seed == AdvanceBy(g.seed, n)
    ensures forall k :: 0 <= k < n ==> Draws(g, n).0[k] == AdvanceBy(g.seed, k + 1) as real / MODULUS as real
  {
    if n > 0 {
      var g1 := Next(g).0;
      DrawsAdvanceOnce(g1, n - 1);
      forall k | 0 <= k < n
        ensures Draws(g, n).0[k] == AdvanceBy(g.seed, k + 1) as real / MODULUS as real
      {
        if k > 0 {
          assert Draws(g, n).0[k] == Draws(g1, n - 1).0[k - 1];
        }
      }
    }
  }

  /** Drawing `n + m` values is drawing `n`, then `m` more from where they left off. */
  lemma {:induction false} DrawsSplit(g: Generator, n: nat, m: nat)
    decreases n
    ensures Draws(g, n + m).0 == Draws(g, n).0 + Draws(Draws(g, n).1, m).0
    ensures Draws(g, n + m).1 == Draws(Draws(g, n).1, m).1
  {
    if n > 0 {
      DrawsSplit(Next(g).0, n - 1, m);
      assert n + m - 1 == (n - 1) + m;
    }
  }

  /** From a non-negative seed every state stays in [0, modulus) and every
      value in [0, 1). */
  lemma {:induction false} DrawsInRange(g: Generator, n: nat)
    decreases n
    requires g.seed >= 0
    ensures 0 <= Draws(g, n).1.seed < MODULUS
            || (n == 0 && Draws(g, n).1 == g)
    ensures forall k :: 0 <= k < n ==> 0.0 <= Draws(g, n).0[k] < 1.0
  {
    if n > 0 {
      var g1 := Next(g).0;
      DrawsInRange(g1, n - 1);
      forall k | 0 <= k < n
        ensures 0.0 <= Draws(g, n).0[k] < 1.0
      {
        if k > 0 {
          assert Draws(g, n).0[k] == Draws(g1, n - 1).0[k - 1];
        }
      }
    }
  }

  /** The reference states for seed 42: 206659, 190736, 223713, and the
      first three `nextInt(10)` values 8, 8, 9. */
  lemma SeedFortyTwo()
    ensures AdvanceBy(42, 3) == 223713
    ensures NextInt(Generator(42), 10) == (Generator(206659), 8)
    ensures NextInt(Generator(206659), 10) == (Generator(190736), 8)
    ensures NextInt(Generator(190736), 10) == (Generator(223713), 9)
  {
    assert 439939 % 233280 == 206659;
    assert Advance(42) == 206659;
    assert 206659 * 9301 + 49297 == 1922184656;
    assert 1922184656 % 233280 == 190736;
    assert Advance(206659) == 190736;
    assert 190736 * 9301 + 49297 == 1774084833;
    assert 1774084833 % 233280 == 223713;
    assert Advance(190736) == 223713;
    assert AdvanceBy(42, 3) == AdvanceBy(206659, 2) == AdvanceBy(190736, 1);
    assert 2066590 / 233280 == 8;
    assert 1907360 / 233280 == 8;
    assert 2237130 / 233280 == 9;
  }
}
