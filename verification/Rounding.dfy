/** Rounding a quotient of naturals to the nearest integer, ties to even (roundTiesToEven of IEEE
    754-2008, section 4.3.1). */
module Rounding {
  import opened Arith

  /** n is nearest to num / den, and even when num / den lies halfway between two integers. */
  ghost predicate IsHalfEven(n: int, num: int, den: int)
    requires den > 0
  {
    && Mul(2 * n - 1, den) <= 2 * num <= Mul(2 * n + 1, den)
    && (2 * num == Mul(2 * n - 1, den) || 2 * num == Mul(2 * n + 1, den) ==> n % 2 == 0)
  }

  function RoundHalfEven(num: nat, den: nat): (n: nat)
    requires den > 0
  {
    DivNat(num, den);
    var q, d := Div(num, den), Mod(num, den);
    if 2 * d > den || (2 * d == den && q % 2 == 1) then q + 1 else q
  }

  lemma RoundIsHalfEven(num: nat, den: nat)
    requires den > 0
    ensures IsHalfEven(RoundHalfEven(num, den), num, den)
  {
    hide Mul, Div, Mod;
    var q, d := Div(num, den), Mod(num, den);
    DivMod(num, den);
    DivNat(num, den);
    TwicePlus(q, den);
    TwicePlus(q + 1, den);
    MulAdd(q, 1, den);
    MulOne(den);
  }

  lemma TwicePlus(n: int, den: int)
    ensures Mul(2 * n + 1, den) == 2 * Mul(n, den) + den && Mul(2 * n - 1, den) == 2 * Mul(n, den) - den
  {
    hide Mul;
    MulAdd(n, n, den);
    MulOne(den);
    MulAdd(n + n, 1, den);
    MulSub(n + n, 1, den);
  }

  /** The rounding is the only integer with that property. */
  lemma HalfEvenUnique(m: int, n: int, num: int, den: int)
    requires den > 0 && IsHalfEven(m, num, den) && IsHalfEven(n, num, den)
    ensures m == n
  {
    hide Mul;
    TwicePlus(m, den);
    TwicePlus(n, den);
    if m < n {
      MulStrict(m, n, den);
      if m + 1 < n {
        MulStrict(m + 1, n, den);
        MulAdd(m, 1, den);
        MulOne(den);
      }
    } else if n < m {
      MulStrict(n, m, den);
      if n + 1 < m {
        MulStrict(n + 1, m, den);
        MulAdd(n, 1, den);
        MulOne(den);
      }
    }
  }

  /** Rounding depends on the quotient only. */
  lemma RoundScaled(num: nat, den: nat, k: nat)
    requires den > 0 && k > 0
    ensures NatMul(den, k) > 0 && RoundHalfEven(NatMul(num, k), NatMul(den, k)) == RoundHalfEven(num, den)
  {
    hide Mul, RoundHalfEven;
    MulSign(den, k);
    var n: int := RoundHalfEven(num, den);
    RoundIsHalfEven(num, den);
    RoundIsHalfEven(NatMul(num, k), NatMul(den, k));
    MulAssoc(2 * n - 1, den, k);
    MulAssoc(2 * n + 1, den, k);
    MulMono(Mul(2 * n - 1, den), 2 * num, k);
    MulMono(2 * num, Mul(2 * n + 1, den), k);
    MulCancel(Mul(2 * n - 1, den), 2 * num, k);
    MulCancel(2 * num, Mul(2 * n + 1, den), k);
    TwiceMul(num, k);
    HalfEvenUnique(n, RoundHalfEven(NatMul(num, k), NatMul(den, k)), NatMul(num, k), NatMul(den, k));
  }

  /** Equal quotients, equal roundings. */
  lemma RoundRatio(a: nat, b: nat, c: nat, d: nat)
    requires b > 0 && d > 0 && Mul(a, d) == Mul(c, b)
    ensures RoundHalfEven(a, b) == RoundHalfEven(c, d)
  {
    hide Mul, RoundHalfEven;
    RoundScaled(a, b, d);
    RoundScaled(c, d, b);
    MulComm(b, d);
  }

  lemma TwiceMul(x: int, k: int)
    ensures Mul(2 * x, k) == 2 * Mul(x, k)
  {
    MulAdd(x, x, k);
  }

  /** A multiple of the denominator is its own rounding. */
  lemma RoundExact(n: nat, den: nat)
    requires den > 0
    ensures RoundHalfEven(NatMul(n, den), den) == n
  {
    hide Mul, Div, Mod;
    DivExact(n, den);
  }

  /** Rounding is monotone against integers: it never crosses one. */
  lemma RoundBounds(num: nat, den: nat, lo: nat, hi: nat)
    requires den > 0 && Mul(lo, den) <= num <= Mul(hi, den)
    ensures lo <= RoundHalfEven(num, den) <= hi
  {
    hide Mul, Div, Mod;
    DivMod(num, den);
    var q := Div(num, den);
    if q < lo {
      MulStrict(q, lo, den);
    }
    if hi < q {
      MulStrict(hi, q, den);
    } else if q == hi {
      assert Mod(num, den) == 0;
    }
  }

  /** The rounding of a number split at the point: the part in front, one more if the rest is over half
      a unit, or just half behind an odd number. */
  lemma RoundSplit(q: nat, d: nat, den: nat)
    requires 0 <= d < den
    ensures RoundHalfEven(NatMul(q, den) + d, den) == if 2 * d > den || (2 * d == den && q % 2 == 1) then q + 1 else q
  {
    hide Mul, Div, Mod;
    DivModUnique(NatMul(q, den) + d, q, d, den);
  }

  lemma RoundSmall(num: nat, den: nat)
    requires 2 * num < den
    ensures RoundHalfEven(num, den) == 0
  {
    hide Mul, Div, Mod;
    DivSmall(num, den);
  }
}
