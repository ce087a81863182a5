/** Exact values of binary and decimal floating-point numbers, as scaled integers. */
module ExactValue {
  import opened Arith

  function Up(k: int): nat {
    if k > 0 then k else 0
  }

  /** D * 10^e == J * 10^f, with the common power of ten cancelled. */
  ghost predicate SameDecimal(d: nat, e: int, j: nat, f: int) {
    Mul(d, Pow(10, Up(e - f))) == Mul(j, Pow(10, Up(f - e)))
  }

  /** The same, at any scale below both exponents. */
  lemma SameAt(d: nat, e: int, j: nat, f: int, lo: int)
    requires lo <= e && lo <= f
    ensures SameDecimal(d, e, j, f) <==> Mul(d, Pow(10, e - lo)) == Mul(j, Pow(10, f - lo))
  {
    hide Mul, Pow;
    var m := if e <= f then e else f;
    var k := Pow(10, m - lo);
    PowPositive(10, m - lo);
    PowAdd(10, e - m, m - lo);
    PowAdd(10, f - m, m - lo);
    MulAssoc(d, Pow(10, e - m), k);
    MulAssoc(j, Pow(10, f - m), k);
    MulCancel(Mul(d, Pow(10, e - m)), Mul(j, Pow(10, f - m)), k);
  }

  lemma SameTrans(a: nat, e: int, b: nat, f: int, c: nat, g: int)
    requires SameDecimal(a, e, b, f) && SameDecimal(b, f, c, g)
    ensures SameDecimal(a, e, c, g)
  {
    hide Mul, Pow, SameDecimal;
    var lo := if e <= f && e <= g then e else if f <= g then f else g;
    SameAt(a, e, b, f, lo);
    SameAt(b, f, c, g, lo);
    SameAt(a, e, c, g, lo);
  }

  lemma SameRefl(a: nat, e: int)
    ensures SameDecimal(a, e, a, e)
  {
  }

  /** m * 2^e2 is this integer times 10^Low(e2): m * 2^e2 itself, or m * 5^-e2 for negative e2. */
  function ExactInteger(m: nat, e2: int): nat {
    NatMul(NatMul(m, Pow(2, Up(e2))), Pow(5, Up(-e2)))
  }

  function Low(e2: int): int {
    if e2 < 0 then e2 else 0
  }

  /** ExactInteger(m, e2) * 10^Low(e2) == m * 2^e2, both sides times 2^-e2 when e2 is negative. */
  lemma ExactIntegerMeans(m: nat, e2: int)
    ensures Mul(ExactInteger(m, e2), Pow(2, Up(-e2))) == Mul(Mul(m, Pow(2, Up(e2))), Pow(10, Up(-e2)))
  {
    hide Mul, Pow;
    var k := Up(-e2);
    MulAssoc(Mul(m, Pow(2, Up(e2))), Pow(5, k), Pow(2, k));
    MulIs(5, 2);
    PowMul(5, 2, k);
  }

  /** A decimal D * 10^e that equals the exact integer at its scale equals m * 2^e2. */
  lemma DecimalMeans(d: nat, e: int, m: nat, e2: int)
    requires SameDecimal(d, e, ExactInteger(m, e2), Low(e2))
    ensures Mul(Mul(d, Pow(10, Up(e))), Pow(2, Up(-e2))) == Mul(Mul(m, Pow(2, Up(e2))), Pow(10, Up(-e)))
  {
    hide Mul, Pow, ExactInteger, SameDecimal;
    var j, f, t := ExactInteger(m, e2), Low(e2), Pow(2, Up(-e2));
    var lo := if e <= f then e else f;
    SameAt(d, e, j, f, lo);
    ExactIntegerMeans(m, e2);
    var n := Mul(m, Pow(2, Up(e2)));
    // d * 10^(e - lo) * t == j * t * 10^(f - lo) == n * 10^Up(-e2) * 10^(f - lo)
    MulAssoc(j, Pow(10, f - lo), t);
    MulComm(Pow(10, f - lo), t);
    MulAssoc(j, t, Pow(10, f - lo));
    MulAssoc(n, Pow(10, Up(-e2)), Pow(10, f - lo));
    PowAdd(10, Up(-e2), f - lo);
    assert Mul(Mul(d, Pow(10, e - lo)), t) == Mul(n, Pow(10, -lo));
    // 10^(e - lo) == 10^Up(e) * 10^c and 10^-lo == 10^Up(-e) * 10^c for c = -lo - Up(-e)
    var c := -lo - Up(-e);
    PowPositive(10, c);
    PowAdd(10, Up(e), c);
    PowAdd(10, Up(-e), c);
    var p := Pow(10, c);
    MulAssoc(d, Pow(10, Up(e)), p);
    MulAssoc(Mul(d, Pow(10, Up(e))), p, t);
    MulComm(p, t);
    MulAssoc(Mul(d, Pow(10, Up(e))), t, p);
    MulAssoc(n, Pow(10, Up(-e)), p);
    MulCancel(Mul(Mul(d, Pow(10, Up(e))), t), Mul(n, Pow(10, Up(-e))), p);
  }

  /** Halving an even mantissa and raising the exponent keeps the value, and shrinks the exact integer. */
  lemma HalveStep(m: nat, e2: int)
    requires m % 2 == 0
    ensures SameDecimal(ExactInteger(m / 2, e2 + 1), Low(e2 + 1), ExactInteger(m, e2), Low(e2))
    ensures ExactInteger(m / 2, e2 + 1) <= ExactInteger(m, e2)
  {
    hide Mul, Pow;
    var h := m / 2;
    MulConst(h);
    if e2 >= 0 {
      PowStep(2, e2);
      MulAssoc(h, 2, Pow(2, e2));
      PowStep(5, 0);
      SameRefl(ExactInteger(m, e2), 0);
    } else {
      var k := -e2;
      PowStep(2, 0);
      MulOne(h);
      MulOne(m);
      PowStep(5, k - 1);
      PowStep(10, 0);
      var q := Pow(5, k - 1);
      MulAssoc(h, 2, Mul(5, q));
      MulConst(Mul(5, q));
      MulConst(q);
      MulAssoc(h, 10, q);
      MulConst(h);
      MulComm(h, 10);
      MulAssoc(10, h, q);
      MulComm(10, Mul(h, q));
      assert ExactInteger(m, e2) == Mul(m, Mul(5, q));
      assert ExactInteger(h, e2 + 1) == Mul(h, q);
      assert Mul(m, Mul(5, q)) == Mul(Mul(h, q), 10) by {
        assert m == Mul(h, 2);
        MulAssoc(h, 2, Mul(5, q));
        assert Mul(2, Mul(5, q)) == Mul(10, q);
      }
      MulConst(Mul(h, q));
      MulSign(h, q);
      MulOne(ExactInteger(m, e2));
    }
  }

  /** Every finite double and x87 long double has an exact integer below 10^11700: 1300 limbs hold it. */
  lemma ExactIntegerBound(m: nat, e2: int)
    requires m < 0x1_0000_0000_0000_0000 && -16445 <= e2 <= 16320
    ensures ExactInteger(m, e2) < Pow(10, 11700)
  {
    hide Mul, Pow;
    TenPowers();
    TwoPowers();
    if e2 >= 0 {
      // 2^64 * 2^16320 = 2^16384 <= 2^(13 * 1261) <= 10^(4 * 1261)
      PowStep(5, 0);
      MulOne(Mul(m, Pow(2, e2)));
      MulMono(m, Pow(2, 64), Pow(2, e2));
      PowAdd(2, 64, e2);
      PowMono(2, 64 + e2, 13 * 1261);
      PowPow(2, 13, 1261);
      PowBaseMono(Pow(2, 13), Pow(10, 4), 1261);
      PowPow(10, 4, 1261);
      MulIs(13, 1261);
      MulIs(4, 1261);
      PowLess(4 * 1261, 11700);
    } else {
      // 2^64 < 10^20 and 5^16445 <= 5^(10 * 1645) <= 10^(7 * 1645)
      var k := -e2;
      PowStep(2, 0);
      MulOne(m);
      FivePower();
      PowMono(5, k, 10 * 1645);
      PowPow(5, 10, 1645);
      PowBaseMono(Pow(5, 10), Pow(10, 7), 1645);
      PowPow(10, 7, 1645);
      MulIs(10, 1645);
      MulIs(7, 1645);
      MulMono(m, Pow(10, 20), Pow(5, k));
      MulMono(Pow(5, k), Pow(10, 7 * 1645), Pow(10, 20));
      PowAdd(10, 20, 7 * 1645);
      MulComm(Pow(10, 20), Pow(10, 7 * 1645));
      MulComm(Pow(10, 20), Pow(5, k));
      PowLess(20 + 7 * 1645, 11700);
    }
  }

  lemma FivePower()
    ensures Pow(5, 10) == 9765625 && Pow(5, 13) == 1220703125 && Pow(5, 1) == 5
  {
    hide Mul, Pow;
    PowStep(5, 0);
    PowJoin(5, 1, 1, 5, 5);
    PowJoin(5, 2, 1, 25, 5);
    PowJoin(5, 3, 2, 125, 25);
    PowJoin(5, 5, 5, 3125, 3125);
    PowJoin(5, 10, 3, 9765625, 125);
  }

  lemma PowLess(e: nat, f: nat)
    requires e < f
    ensures Pow(10, e) < Pow(10, f)
  {
    hide Mul, Pow;
    PowPositive(10, e);
    PowStep(10, e);
    MulConst(Pow(10, e));
    PowMono(10, e + 1, f);
  }
}
