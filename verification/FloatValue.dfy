/** The number that a binary floating-point value denotes, rounded in decimal. */
module FloatValue {
  import opened Arith
  import opened Numerals
  import opened Rounding
  import opened ExactValue
  import opened DecimalText

  /** m * 2^e2 is this fraction. */
  function Numer(m: nat, e2: int): nat {
    NatMul(m, Pow(2, Up(e2)))
  }

  function Denom(e2: int): (d: nat)
    ensures d > 0
  {
    PowPositive(2, Up(-e2));
    Pow(2, Up(-e2))
  }

  /** 10^q as a factor of a numerator or of a denominator. */
  function Tens(q: int): (p: nat)
    ensures p > 0
  {
    PowPositive(10, Up(q));
    Pow(10, Up(q))
  }

  /** m * 2^e2 / 10^q rounded to nearest, ties to even. */
  function Nearest(m: nat, e2: int, q: int): nat {
    MulSign(Denom(e2), Tens(q));
    RoundHalfEven(NatMul(Numer(m, e2), Tens(-q)), NatMul(Denom(e2), Tens(q)))
  }

  /** The decimal exponent x of a value: 10^x <= m * 2^e2 < 10^(x + 1); 0 for zero. */
  function DecimalExponent(m: nat, e2: int): int {
    if m == 0 then 0 else Length(ExactInteger(m, e2), 10) - 1 + Low(e2)
  }

  // ----- The value as a decimal

  /** How the exponents of ten add up when q moves between the two sides. */
  lemma TensShift(e: int, q: int)
    ensures var k := Up(e - q) + Up(q) - Up(e);
            k >= 0 && k == Up(-q) + Up(q - e) - Up(-e)
  {
  }

  /** Rounding the binary value is rounding the decimal one that equals it. */
  lemma NearestDecimal(d: nat, e: int, m: nat, e2: int, q: int)
    requires SameDecimal(d, e, ExactInteger(m, e2), Low(e2))
    ensures Pow(10, Up(q - e)) > 0
    ensures Nearest(m, e2, q) == RoundHalfEven(NatMul(d, Pow(10, Up(e - q))), Pow(10, Up(q - e)))
  {
    hide Mul, Pow, RoundHalfEven, ExactInteger, SameDecimal, Up;
    DecimalMeans(d, e, m, e2);
    TensShift(e, q);
    PowPositive(10, Up(q - e));
    var k := Up(e - q) + Up(q) - Up(e);
    var u, v := Numer(m, e2), Denom(e2);
    // u * 10^Up(-e) == d * 10^Up(e) * v, times 10^k
    ShiftBy(u, Up(-e), k, Up(-q), Up(q - e));
    ShiftBy(d, Up(e), k, Up(e - q), Up(q));
    MulAssoc(Mul(d, Pow(10, Up(e))), v, Pow(10, k));
    MulComm(v, Pow(10, k));
    MulAssoc(Mul(d, Pow(10, Up(e))), Pow(10, k), v);
    MulAssoc(Mul(d, Pow(10, Up(e - q))), Tens(q), v);
    MulComm(Tens(q), v);
    MulSign(v, Tens(q));
    RoundRatio(NatMul(u, Tens(-q)), NatMul(v, Tens(q)), NatMul(d, Pow(10, Up(e - q))), Pow(10, Up(q - e)));
  }

  lemma ShiftBy(u: int, a: nat, k: nat, b: nat, c: nat)
    requires a + k == b + c
    ensures Mul(Mul(u, Pow(10, a)), Pow(10, k)) == Mul(Mul(u, Pow(10, b)), Pow(10, c))
  {
    hide Mul, Pow;
    MulAssoc(u, Pow(10, a), Pow(10, k));
    MulAssoc(u, Pow(10, b), Pow(10, c));
    PowAdd(10, a, k);
    PowAdd(10, b, c);
  }

  /** Digits that equal the value, rounded to `keep` of them, are the value rounded at that place. */
  lemma RoundedDenotes(s: seq<char>, x: int, t: seq<char>, x': int, keep: int, m: nat, e2: int)
    requires SameDecimal(ValueOf(s, 10), x + 1 - |s|, ExactInteger(m, e2), Low(e2)) && s != []
    requires keep >= |s| ==> t == s && x' == x
    requires keep < |s| ==> Pow(10, |s| - keep) > 0 &&
                            Denotes(t, x', x + 1 - keep, RoundHalfEven(ValueOf(s, 10), Pow(10, |s| - keep)))
    ensures Denotes(t, x', x + 1 - keep, Nearest(m, e2, x + 1 - keep))
  {
    hide Mul, Pow, RoundHalfEven, ExactInteger, SameDecimal, Nearest, ValueOf;
    var e, q := x + 1 - |s|, x + 1 - keep;
    NearestDecimal(ValueOf(s, 10), e, m, e2, q);
    PowStep(10, 0);
    if keep >= |s| {
      var n := NatMul(ValueOf(s, 10), Pow(10, e - q));
      MulOne(n);
      RoundExact(n, 1);
    } else {
      MulOne(ValueOf(s, 10));
    }
  }

  lemma NearestZero(e2: int, q: int)
    ensures Nearest(0, e2, q) == 0
  {
    hide Mul, Pow, RoundHalfEven;
    MulOne(Pow(2, Up(e2)));
    MulOne(Tens(-q));
    MulSign(Denom(e2), Tens(q));
    RoundSmall(0, NatMul(Denom(e2), Tens(q)));
  }

  // ----- The exponent

  lemma LengthShift(v: nat, k: nat)
    requires v > 0
    ensures Length(NatMul(v, Pow(10, k)), 10) == Length(v, 10) + k
  {
    hide Mul, Pow, Length;
    var n := Length(v, 10);
    LengthBounds(v, 10);
    PowPositive(10, k);
    PowAdd(10, n - 1, k);
    PowAdd(10, n, k);
    MulMono(Pow(10, n - 1), v, Pow(10, k));
    MulStrict(v, Pow(10, n), Pow(10, k));
    LengthIs(NatMul(v, Pow(10, k)), 10, n + k);
  }

  lemma CanonicalLength(s: seq<char>)
    requires Canonical(s) && s != []
    ensures ValueOf(s, 10) > 0 && Length(ValueOf(s, 10), 10) == |s|
  {
    hide Mul, Pow, ValueOf, Length;
    PositiveValue(s);
    DecimalBound(s);
    LengthIs(ValueOf(s, 10), 10, |s|);
  }

  /** Canonical digits that equal the value carry its exponent. */
  lemma ExponentIs(s: seq<char>, x: int, m: nat, e2: int)
    requires Canonical(s) && s != [] && m > 0
    requires SameDecimal(ValueOf(s, 10), x + 1 - |s|, ExactInteger(m, e2), Low(e2))
    ensures x == DecimalExponent(m, e2)
  {
    hide Mul, Pow, ValueOf, Length, ExactInteger, Canonical;
    var d, j := ValueOf(s, 10), ExactInteger(m, e2);
    var e, f := x + 1 - |s|, Low(e2);
    CanonicalLength(s);
    ExactPositive(m, e2);
    LengthShift(d, Up(e - f));
    LengthShift(j, Up(f - e));
  }

  lemma ExactPositive(m: nat, e2: int)
    requires m > 0
    ensures ExactInteger(m, e2) > 0
  {
    hide Mul, Pow;
    PowPositive(2, Up(e2));
    PowPositive(5, Up(-e2));
    MulSign(m, Pow(2, Up(e2)));
    MulSign(Mul(m, Pow(2, Up(e2))), Pow(5, Up(-e2)));
  }

  /** 10^x <= m * 2^e2 < 10^(x + 1) for the decimal exponent x, and for no other number. */
  lemma ExponentMeans(m: nat, e2: int, x: int)
    requires m > 0
    ensures x == DecimalExponent(m, e2) <==>
              && Mul(Denom(e2), Tens(x)) <= Mul(Numer(m, e2), Tens(-x))
              && Mul(Numer(m, e2), Tens(-x - 1)) < Mul(Denom(e2), Tens(x + 1))
  {
    hide Mul, Pow, Length, ExactInteger, Numer;
    TenTimes(m, e2, x);
    TenTimes(m, e2, x + 1);
  }

  /** Whether the value reaches 10^x shows in its exponent. */
  lemma TenTimes(m: nat, e2: int, x: int)
    requires m > 0
    ensures Mul(Denom(e2), Tens(x)) <= Mul(Numer(m, e2), Tens(-x)) <==> x <= DecimalExponent(m, e2)
  {
    hide Mul, Pow, Length, ExactInteger;
    var j, n, k := ExactInteger(m, e2), Length(ExactInteger(m, e2), 10), Up(-e2);
    ExactPositive(m, e2);
    ExactIntegerMeans(m, e2);
    LengthBounds(j, 10);
    var u, v := Numer(m, e2), Denom(e2);
    // j * v == u * 10^k
    PowPositive(10, k);
    MulCancel(Mul(v, Tens(x)), Mul(u, Tens(-x)), Pow(10, k));
    MulAssoc(v, Tens(x), Pow(10, k));
    MulAssoc(u, Tens(-x), Pow(10, k));
    MulComm(Tens(-x), Pow(10, k));
    MulAssoc(u, Pow(10, k), Tens(-x));
    MulAssoc(j, v, Tens(-x));
    MulComm(v, Tens(-x));
    MulAssoc(j, Tens(-x), v);
    MulComm(v, Mul(Tens(x), Pow(10, k)));
    MulCancel(Mul(Tens(x), Pow(10, k)), Mul(j, Tens(-x)), v);
    // hence the claim is 10^Up(x) * 10^k <= j * 10^Up(-x)
    PowAdd(10, Up(x), k);
    Reaches(j, Up(-x), Up(x) + k);
  }

  lemma Reaches(j: nat, a: nat, b: nat)
    requires j > 0
    ensures Pow(10, b) <= Mul(j, Pow(10, a)) <==> b <= Length(j, 10) - 1 + a
  {
    hide Mul, Pow, Length;
    LengthShift(j, a);
    PowPositive(10, a);
    MulSign(j, Pow(10, a));
    var y: nat := NatMul(j, Pow(10, a));
    LengthBounds(y, 10);
    var n := Length(y, 10);
    if b <= n - 1 {
      PowMono(10, b, n - 1);
    } else {
      PowMono(10, n, b);
    }
  }
}
