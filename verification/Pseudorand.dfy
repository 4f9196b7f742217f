/**
 The pseudorandom generator (kern/dev/generic/pseudorand.c): multiplication
 modulo a prime by Schrage's method, within 32-bit signed arithmetic.
 */
module Pseudorand {
  const MULTIPLIER := 16807
  const MODULUS := 0x7fff_ffff
  const K1 := 127773
  const K2 := 2836

  /** 16807 * INVERSE == QUOTIENT * MODULUS + 1. */
  const INVERSE := 1407677000
  const QUOTIENT := 11017

  predicate IsSeed(x: int) {
    1 <= x < MODULUS
  }

  predicate Int32(x: int) {
    -0x8000_0000 <= x < 0x8000_0000
  }

  /** What the generator is meant to compute. */
  function Next(seed: int): int {
    (MULTIPLIER * seed) % MODULUS
  }

  function Previous(seed: int): int {
    (INVERSE * seed) % MODULUS
  }

  /** The one remainder there is. */
  lemma Remainder(x: int, q: int, r: int)
    requires x == MODULUS * q + r && 0 <= r < MODULUS
    ensures x % MODULUS == r
  {}

  lemma MulMod(a: int, x: int)
    ensures (a * (x % MODULUS)) % MODULUS == (a * x) % MODULUS
  {
    var (q, r) := (x / MODULUS, x % MODULUS);
    var (p, s) := (a * r / MODULUS, a * r % MODULUS);
    assert a * x == MODULUS * (a * q) + a * r;
    assert a * x == MODULUS * (a * q + p) + s;
    Remainder(a * x, a * q + p, s);
  }

  lemma TimesOne(x: int)
    requires IsSeed(x)
    ensures (MULTIPLIER * (INVERSE * x)) % MODULUS == x && (INVERSE * (MULTIPLIER * x)) % MODULUS == x
  {
    assert MULTIPLIER * INVERSE == QUOTIENT * MODULUS + 1;
    assert MULTIPLIER * (INVERSE * x) == MODULUS * (QUOTIENT * x) + x;
    assert INVERSE * (MULTIPLIER * x) == MODULUS * (QUOTIENT * x) + x;
    Remainder(MULTIPLIER * (INVERSE * x), QUOTIENT * x, x);
  }

  /** The step is a permutation of the seeds: each direction undoes the other. */
  lemma Permutation(x: int)
    requires IsSeed(x)
    ensures IsSeed(Next(x)) && Previous(Next(x)) == x
    ensures IsSeed(Previous(x)) && Next(Previous(x)) == x
  {
    MulMod(INVERSE, MULTIPLIER * x);
    MulMod(MULTIPLIER, INVERSE * x);
    TimesOne(x);
    assert Next(x) == 0 ==> Previous(Next(x)) == 0;
    assert Previous(x) == 0 ==> Next(Previous(x)) == 0;
  }

  class Generator {
    var seed: int

    ghost predicate Valid()
      reads this
    {
      IsSeed(seed)
    }

    /** pseudoattach_pseudorand. */
    constructor ()
      ensures Valid() && seed == 305824
    {
      seed := 305824;
    }

    /**
     pseudorand_random: no intermediate leaves 32 bits, and the new seed is the
     old one times 16807 modulo 2^31 - 1.
     */
    method Random() returns (r: int)
      requires Valid()
      modifies this
      ensures Valid() && seed == Next(old(seed)) && r == seed - 1 && 0 <= r <= Randmax()
    {
      var hi, lo := seed / K1, seed % K1;
      assert 0 <= hi <= 16807 && 0 <= lo < K1;
      assert Int32(MULTIPLIER * lo) && Int32(K2 * hi);
      var tmp := MULTIPLIER * lo - K2 * hi;
      assert Int32(tmp);
      Schrage(seed, hi, lo);
      if tmp <= 0 {
        assert Int32(tmp + MODULUS);
        tmp := tmp + MODULUS;
      }
      seed := tmp;
      return seed - 1;
    }

    /** pseudorand_randmax. */
    static function Randmax(): int {
      MODULUS - 2
    }
  }

  lemma Schrage(seed: int, hi: int, lo: int)
    requires IsSeed(seed) && seed == K1 * hi + lo && 0 <= hi <= 16807 && 0 <= lo < K1
    ensures var tmp := MULTIPLIER * lo - K2 * hi;
            Next(seed) == (if tmp <= 0 then tmp + MODULUS else tmp) && IsSeed(Next(seed))
  {
    var tmp := MULTIPLIER * lo - K2 * hi;
    assert MODULUS == MULTIPLIER * K1 + K2;
    assert MULTIPLIER * seed == MODULUS * hi + tmp;
    Permutation(seed);
    if tmp > 0 {
      Remainder(MULTIPLIER * seed, hi, tmp);
    } else if tmp < 0 {
      Remainder(MULTIPLIER * seed, hi - 1, tmp + MODULUS);
    } else {
      Remainder(MULTIPLIER * seed, hi, 0);
      assert false;
    }
  }

  function Pow(n: nat): nat {
    if n == 0 then 1 else MULTIPLIER * Pow(n - 1)
  }

  /** Any run: the n-th output from a seed is known in closed form, and every output is in range. */
  method Outputs(gen: Generator, n: nat) returns (out: seq<int>)
    requires gen.Valid()
    modifies gen
    ensures gen.Valid() && |out| == n && gen.seed == (Pow(n) * old(gen.seed)) % MODULUS
    ensures forall k | 0 <= k < n ::
              0 <= out[k] <= Generator.Randmax() && out[k] == (Pow(k + 1) * old(gen.seed)) % MODULUS - 1
  {
    out := [];
    Remainder(gen.seed, 0, gen.seed);
    for i := 0 to n
      invariant gen.Valid() && |out| == i && gen.seed == (Pow(i) * old(gen.seed)) % MODULUS
      invariant forall k | 0 <= k < i ::
                  0 <= out[k] <= Generator.Randmax() && out[k] == (Pow(k + 1) * old(gen.seed)) % MODULUS - 1
    {
      MulMod(MULTIPLIER, Pow(i) * old(gen.seed));
      assert Pow(i + 1) * old(gen.seed) == MULTIPLIER * (Pow(i) * old(gen.seed));
      var r := gen.Random();
      out := out + [r];
    }
  }
}
