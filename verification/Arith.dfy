/** Multiplication, division and powers by name.

    Proofs about numerals in a variable radix hide the bodies of Mul, Div and Mod and reason
    with the laws below, which keeps nonlinear arithmetic out of every other proof. */
module Arith {

  function Mul(x: int, y: int): int {
    x * y
  }

  function Div(x: int, y: int): int
    requires y != 0
  {
    x / y
  }

  function Mod(x: int, y: int): int
    requires y != 0
  {
    x % y
  }

  function Pow(b: nat, e: nat): nat
  {
    if e == 0 then 1 else NatMul(b, Pow(b, e - 1))
  }

  function NatMul(x: nat, y: nat): (p: nat)
    ensures p == Mul(x, y)
  {
    Mul(x, y)
  }

  // ----- Multiplication

  lemma MulIs(x: int, y: int)
    ensures Mul(x, y) == x * y
  {
  }

  lemma MulComm(x: int, y: int)
    ensures Mul(x, y) == Mul(y, x)
  {
  }

  lemma MulAssoc(x: int, y: int, z: int)
    ensures Mul(Mul(x, y), z) == Mul(x, Mul(y, z))
  {
  }

  lemma MulAdd(x: int, y: int, z: int)
    ensures Mul(x + y, z) == Mul(x, z) + Mul(y, z)
    ensures Mul(z, x + y) == Mul(z, x) + Mul(z, y)
  {
  }

  lemma MulSub(x: int, y: int, z: int)
    ensures Mul(x - y, z) == Mul(x, z) - Mul(y, z)
    ensures Mul(z, x - y) == Mul(z, x) - Mul(z, y)
  {
  }

  lemma MulOne(x: int)
    ensures Mul(x, 1) == x == Mul(1, x) && Mul(x, 0) == 0 == Mul(0, x)
  {
  }

  /** Small constant factors: twice, and ten times. */
  lemma MulConst(x: int)
    ensures Mul(2, x) == 2 * x == Mul(x, 2) && Mul(5, x) == 5 * x == Mul(x, 5) && Mul(10, x) == 10 * x == Mul(x, 10)
  {
  }

  lemma MulSign(x: int, y: int)
    requires x >= 0 && y >= 0
    ensures Mul(x, y) >= 0
    ensures x >= 1 && y >= 1 ==> Mul(x, y) >= x && Mul(x, y) >= y
  {
    if x >= 1 && y >= 1 {
      assert x * y - y == (x - 1) * y;
      assert x * y - x == x * (y - 1);
    }
  }

  lemma MulMono(x: int, y: int, k: int)
    requires x <= y && k >= 0
    ensures Mul(x, k) <= Mul(y, k) && Mul(k, x) <= Mul(k, y)
  {
    assert y * k - x * k == (y - x) * k;
  }

  lemma MulStrict(x: int, y: int, k: int)
    requires x < y && k > 0
    ensures Mul(x, k) + k <= Mul(y, k) && Mul(k, x) + k <= Mul(k, y)
  {
    assert y * k - x * k - k == (y - x - 1) * k;
  }

  lemma MulSwap(a: int, b: int, x: int, y: int)
    ensures Mul(Mul(a, b), Mul(x, y)) == Mul(Mul(a, x), Mul(b, y))
  {
    hide Mul;
    MulAssoc(a, b, Mul(x, y));
    MulAssoc(b, x, y);
    MulComm(b, x);
    MulAssoc(x, b, y);
    MulAssoc(a, x, Mul(b, y));
  }

  /** Products cancel. */
  lemma MulCancel(x: int, y: int, k: int)
    requires k > 0
    ensures Mul(x, k) < Mul(y, k) <==> x < y
    ensures Mul(x, k) == Mul(y, k) <==> x == y
  {
    hide Mul;
    if x < y {
      MulStrict(x, y, k);
    } else if y < x {
      MulStrict(y, x, k);
    }
  }

  // ----- Division

  lemma DivMod(x: int, y: int)
    requires y > 0
    ensures x == Mul(Div(x, y), y) + Mod(x, y) && 0 <= Mod(x, y) < y
  {
  }

  lemma DivNat(x: int, y: int)
    requires x >= 0 && y > 0
    ensures Div(x, y) >= 0
    ensures x > 0 && y >= 2 ==> Div(x, y) < x
  {
  }

  /** A number between two multiples once a remainder is added to a quotient's multiple. */
  lemma AppendBounds(lo: int, q: int, hi: int, d: int, r: int)
    requires r > 0 && lo <= q < hi && 0 <= d < r
    ensures Mul(lo, r) <= Mul(q, r) + d < Mul(hi, r)
  {
    hide Mul;
    MulMono(lo, q, r);
    MulStrict(q, hi, r);
  }

  /** Quotient and remainder are unique. */
  lemma DivModUnique(x: int, q: int, d: int, r: int)
    requires r > 0 && x == Mul(q, r) + d && 0 <= d < r
    ensures Div(x, r) == q && Mod(x, r) == d
  {
    hide Mul, Div, Mod;
    DivMod(x, r);
    if q < Div(x, r) {
      MulStrict(q, Div(x, r), r);
    } else if Div(x, r) < q {
      MulStrict(Div(x, r), q, r);
    }
  }

  lemma DivSmall(x: int, r: int)
    requires 0 <= x < r
    ensures Div(x, r) == 0 && Mod(x, r) == x
  {
    hide Mul, Div, Mod;
    MulOne(r);
    DivModUnique(x, 0, x, r);
  }

  lemma DivExact(x: int, r: int)
    requires r > 0
    ensures Div(Mul(x, r), r) == x && Mod(Mul(x, r), r) == 0
  {
    hide Mul, Div, Mod;
    DivModUnique(Mul(x, r), x, 0, r);
  }

  lemma DivBounds(x: int, lo: int, hi: int, r: int)
    requires r > 0 && Mul(lo, r) <= x < Mul(hi, r)
    ensures lo <= Div(x, r) < hi
  {
    hide Mul, Div, Mod;
    DivMod(x, r);
    if Div(x, r) < lo {
      MulStrict(Div(x, r), lo, r);
    } else if hi <= Div(x, r) {
      MulMono(hi, Div(x, r), r);
    }
  }

  /** Dividing in two steps. */
  lemma DivDiv(x: int, a: int, b: int)
    requires a > 0 && b > 0
    ensures Mul(a, b) > 0 && Div(x, Mul(a, b)) == Div(Div(x, a), b)
    ensures Mod(x, Mul(a, b)) == Mul(Mod(Div(x, a), b), a) + Mod(x, a)
  {
    hide Mul, Div, Mod;
    MulSign(a, b);
    var q, d := Div(x, a), Mod(x, a);
    DivMod(x, a);
    DivMod(q, b);
    var q', d' := Div(q, b), Mod(q, b);
    MulAdd(Mul(q', b), d', a);
    MulAssoc(q', b, a);
    MulComm(a, b);
    AppendBounds(0, d', b, d, a);
    MulOne(a);
    DivModUnique(x, q', Mul(d', a) + d, Mul(a, b));
  }

  lemma DivOfMod(x: int, a: int, b: int)
    requires a > 0 && b > 0
    ensures Mul(a, b) > 0
    ensures Div(Mod(x, Mul(a, b)), a) == Mod(Div(x, a), b)
    ensures Mod(Mod(x, Mul(a, b)), a) == Mod(x, a)
  {
    hide Mul, Div, Mod;
    DivDiv(x, a, b);
    DivMod(x, a);
    DivModUnique(Mod(x, Mul(a, b)), Mod(Div(x, a), b), Mod(x, a), a);
  }

  // ----- Powers

  lemma PowStep(b: nat, e: nat)
    ensures Pow(b, e + 1) == Mul(b, Pow(b, e)) == Mul(Pow(b, e), b)
    ensures Pow(b, 0) == 1 && Pow(b, 1) == b
  {
    hide Mul;
    MulComm(b, Pow(b, e));
    MulOne(b);
    assert Pow(b, 1) == NatMul(b, Pow(b, 0));
  }

  lemma {:induction false} PowPositive(b: nat, e: nat)
    requires b > 0
    ensures Pow(b, e) > 0
  {
    hide Mul, NatMul;
    if e > 0 {
      PowPositive(b, e - 1);
      MulSign(b, Pow(b, e - 1));
    }
  }

  lemma {:induction false} PowAdd(b: nat, e: nat, f: nat)
    ensures Pow(b, e + f) == Mul(Pow(b, e), Pow(b, f))
  {
    hide Mul, NatMul;
    if e > 0 {
      PowAdd(b, e - 1, f);
      MulAssoc(b, Pow(b, e - 1), Pow(b, f));
    } else {
      MulOne(Pow(b, f));
    }
  }

  lemma PowMono(b: nat, e: nat, f: nat)
    requires b > 0 && e <= f
    ensures Pow(b, e) <= Pow(b, f)
  {
    hide Mul, NatMul, Pow;
    PowAdd(b, e, f - e);
    PowPositive(b, e);
    PowPositive(b, f - e);
    MulSign(Pow(b, e), Pow(b, f - e));
  }

  lemma {:induction false} PowMul(a: nat, b: nat, e: nat)
    ensures Pow(NatMul(a, b), e) == Mul(Pow(a, e), Pow(b, e))
  {
    hide Mul, NatMul;
    if e > 0 {
      PowMul(a, b, e - 1);
      MulSwap(a, b, Pow(a, e - 1), Pow(b, e - 1));
    } else {
      MulOne(1);
    }
  }

  lemma {:induction false} PowPow(b: nat, e: nat, f: nat)
    ensures Pow(Pow(b, e), f) == Pow(b, NatMul(e, f))
  {
    hide Mul, NatMul;
    if f > 0 {
      PowPow(b, e, f - 1);
      MulSub(f, 1, e);
      MulOne(e);
      PowAdd(b, e, NatMul(e, f - 1));
    } else {
      MulOne(e);
    }
  }

  lemma {:induction false} PowBaseMono(a: nat, b: nat, e: nat)
    requires 0 < a <= b
    ensures Pow(a, e) <= Pow(b, e)
  {
    hide Mul, NatMul;
    if e > 0 {
      PowBaseMono(a, b, e - 1);
      MulMono(a, b, Pow(a, e - 1));
      MulMono(Pow(a, e - 1), Pow(b, e - 1), b);
    }
  }

  /** A power of a power of two parts, for constants. */
  lemma PowJoin(b: nat, e: nat, f: nat, x: int, y: int)
    requires Pow(b, e) == x && Pow(b, f) == y
    ensures Pow(b, e + f) == x * y
  {
    hide Mul, Pow;
    PowAdd(b, e, f);
    MulIs(x, y);
  }

  lemma TenPowers()
    ensures Pow(10, 1) == 10 && Pow(10, 2) == 100 && Pow(10, 3) == 1000 && Pow(10, 4) == 10000
    ensures Pow(10, 7) == 10000000 && Pow(10, 9) == 1000000000 && Pow(10, 18) == 1000000000000000000
    ensures Pow(10, 19) == 10000000000000000000 && Pow(10, 20) == 100000000000000000000
  {
    hide Mul, Pow;
    PowStep(10, 0);
    PowJoin(10, 1, 1, 10, 10);
    PowJoin(10, 2, 1, 100, 10);
    PowJoin(10, 2, 2, 100, 100);
    PowJoin(10, 4, 3, 10000, 1000);
    PowJoin(10, 7, 2, 10000000, 100);
    PowJoin(10, 9, 9, 1000000000, 1000000000);
    PowJoin(10, 18, 1, 1000000000000000000, 10);
    PowJoin(10, 19, 1, 10000000000000000000, 10);
  }

  lemma TwoPowers()
    ensures Pow(2, 1) == 2 && Pow(2, 4) == 16 && Pow(2, 13) == 8192 && Pow(2, 15) == 32768 && Pow(2, 29) == 536870912
    ensures Pow(2, 30) == 1073741824 && Pow(2, 60) == 0x1000_0000_0000_0000 && Pow(2, 64) == 0x1_0000_0000_0000_0000
  {
    hide Mul, Pow;
    PowStep(2, 0);
    PowJoin(2, 1, 1, 2, 2);
    PowJoin(2, 2, 2, 4, 4);
    PowJoin(2, 4, 4, 16, 16);
    PowJoin(2, 8, 4, 256, 16);
    PowJoin(2, 12, 1, 4096, 2);
    PowJoin(2, 13, 2, 8192, 4);
    PowJoin(2, 15, 13, 32768, 8192);
    PowJoin(2, 28, 1, 268435456, 2);
    PowJoin(2, 29, 1, 536870912, 2);
    PowJoin(2, 30, 30, 1073741824, 1073741824);
    PowJoin(2, 60, 4, 0x1000_0000_0000_0000, 16);
  }

  /** Octal and hexadecimal powers are binary ones. */
  lemma BinaryPowers(n: nat)
    ensures Pow(8, n) == Pow(2, 3 * n) && Pow(16, n) == Pow(2, 4 * n)
  {
    hide Mul, Pow, NatMul;
    PowStep(2, 0);
    PowJoin(2, 1, 1, 2, 2);
    PowJoin(2, 2, 1, 4, 2);
    PowJoin(2, 2, 2, 4, 4);
    PowPow(2, 3, n);
    PowPow(2, 4, n);
    MulIs(3, n);
    MulIs(4, n);
  }
}
