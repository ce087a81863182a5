/** The exact integer behind a binary floating-point number, computed in limbs. */
module Expansion {
  import opened Arith
  import opened Resumable
  import opened Bignum
  import opened ExactValue

  /** Powers of two go from the mantissa into the exponent. */
  method OddPart(mantissa: uint64, exp2: int) returns (m: uint64, e2: int)
    requires mantissa > 0
    ensures m % 2 == 1 && m > 0 && e2 >= exp2
    ensures SameDecimal(ExactInteger(m, e2), Low(e2), ExactInteger(mantissa, exp2), Low(exp2))
    ensures ExactInteger(m, e2) <= ExactInteger(mantissa, exp2)
  {
    hide *;
    m, e2 := mantissa, exp2;
    SameRefl(ExactInteger(m, e2), Low(e2));
    while m % 2 == 0
      invariant m > 0 && e2 >= exp2
      invariant SameDecimal(ExactInteger(m, e2), Low(e2), ExactInteger(mantissa, exp2), Low(exp2))
      invariant ExactInteger(m, e2) <= ExactInteger(mantissa, exp2)
      decreases m
    {
      HalveStep(m, e2);
      SameTrans(ExactInteger(m / 2, e2 + 1), Low(e2 + 1), ExactInteger(m, e2), Low(e2), ExactInteger(mantissa, exp2),
          Low(exp2));
      m := m / 2;
      e2 := e2 + 1;
    }
  }

  /** The limbs of a mantissa. */
  method Limbs(mantissa: uint64, big: array<int>) returns (n: nat)
    requires 0 < mantissa < Pow(10, 9 * WORDS) && big.Length == WORDS
    modifies big
    ensures 0 < n <= WORDS && AreLimbs(big[..n]) && Trimmed(big[..n]) && BigVal(big[..n]) == mantissa
  {
    hide *;
    var m: nat := mantissa;
    n := 0;
    assert big[..0] == [];
    LimbsStart(m);
    while m != 0
      invariant n <= WORDS && AreLimbs(big[..n])
      invariant BigVal(big[..n]) + Mul(m, Pow(LIMB, n)) == mantissa
      invariant n > 0 && m == 0 ==> big[n - 1] != 0
      invariant n == 0 ==> m == mantissa
      decreases m
    {
      CarryFits(m, n, BigVal(big[..n]), mantissa);
      CarryRound(big[..n], n, m);
      big[n] := m % 1000000000;
      m := m / 1000000000;
      assert big[..n + 1] == big[..n] + [big[n]];
      n := n + 1;
    }
    LimbsDone(big[..n], mantissa);
  }

  lemma LimbsStart(m: nat)
    ensures AreLimbs([]) && BigVal([]) + Mul(m, Pow(LIMB, 0)) == m
  {
  }

  lemma LimbsDone(s: seq<int>, m: nat)
    requires AreLimbs(s) && s != [] && s[|s| - 1] != 0 && BigVal(s) + Mul(0, Pow(LIMB, |s|)) == m
    ensures Trimmed(s) && BigVal(s) == m
  {
    MulOne(Pow(LIMB, |s|));
  }

  /** Multiply by 2^e2, or by 5^-e2 when e2 is negative, in chunks of 2^29 and 5^13. */
  method Scale(big: array<int>, n0: nat, ghost m: nat, e2: int) returns (n: nat)
    requires big.Length == WORDS && 0 < n0 <= WORDS
    requires AreLimbs(big[..n0]) && Trimmed(big[..n0]) && BigVal(big[..n0]) == m
    requires ExactInteger(m, e2) < Pow(10, 9 * WORDS)
    modifies big
    ensures 0 < n <= WORDS && AreLimbs(big[..n]) && Trimmed(big[..n]) && BigVal(big[..n]) == ExactInteger(m, e2)
  {
    hide *;
    n := n0;
    ghost var j := ExactInteger(m, e2);
    ChunkPowers();
    ExactSign(m, e2);
    if e2 > 0 {
      var k := e2;
      while k >= 29
        invariant n0 <= n <= WORDS && k >= 0 && AreLimbs(big[..n]) && Trimmed(big[..n])
        invariant Mul(BigVal(big[..n]), Pow(2, k)) == j
      {
        ScaleStep(BigVal(big[..n]), 2, 29, k, j);
        n := BigMul(big, n, 0x2000_0000);
        k := k - 29;
      }
      ScaleStep(BigVal(big[..n]), 2, k, k, j);
      SmallPower(2, k, 29);
      n := BigMul(big, n, Pow(2, k));
    } else {
      var k := -e2;
      while k >= 13
        invariant n0 <= n <= WORDS && k >= 0 && AreLimbs(big[..n]) && Trimmed(big[..n])
        invariant Mul(BigVal(big[..n]), Pow(5, k)) == j
      {
        ScaleStep(BigVal(big[..n]), 5, 13, k, j);
        n := BigMul(big, n, 1220703125);
        k := k - 13;
      }
      var factor := FivePowerOf(k);
      ScaleStep(BigVal(big[..n]), 5, k, k, j);
      n := BigMul(big, n, factor);
    }
  }

  method FivePowerOf(k: nat) returns (factor: nat)
    requires k < 13
    ensures factor == Pow(5, k) && 0 < factor < 0x1_0000_0000
  {
    hide *;
    factor := 1;
    var left := k;
    PowStep(5, 0);
    while left > 0
      invariant 0 <= left <= k && factor == Pow(5, k - left)
    {
      PowStep(5, k - left);
      MulIs(factor, 5);
      factor := factor * 5;
      left := left - 1;
    }
    ChunkPowers();
    SmallPower(5, k, 13);
  }

  lemma ChunkPowers()
    ensures Pow(2, 29) == 0x2000_0000 && Pow(5, 13) == 1220703125
  {
    TwoPowers();
    FivePower();
  }

  lemma SmallPower(b: nat, k: nat, top: nat)
    requires b > 0 && k <= top
    ensures 0 < Pow(b, k) <= Pow(b, top)
  {
    hide *;
    PowPositive(b, k);
    PowMono(b, k, top);
  }

  /** The scaling that is left, and that a part of it stays below the whole. */
  lemma ScaleStep(v: nat, b: nat, c: nat, k: nat, j: int)
    requires b > 0 && c <= k && Mul(v, Pow(b, k)) == j
    ensures Mul(Mul(v, Pow(b, c)), Pow(b, k - c)) == j
    ensures Mul(v, Pow(b, c)) <= j
    ensures c == k ==> Mul(v, Pow(b, c)) == j
  {
    hide *;
    PowAdd(b, c, k - c);
    MulAssoc(v, Pow(b, c), Pow(b, k - c));
    PowMono(b, c, k);
    MulMono(Pow(b, c), Pow(b, k), v);
  }

  lemma ExactSign(m: nat, e2: int)
    ensures e2 > 0 ==> Mul(m, Pow(2, e2)) == ExactInteger(m, e2)
    ensures e2 <= 0 ==> Mul(m, Pow(5, -e2)) == ExactInteger(m, e2)
  {
    hide Mul, Pow;
    PowStep(5, 0);
    PowStep(2, 0);
    MulOne(m);
    MulOne(Mul(m, Pow(2, Up(e2))));
  }
}
