/** What the texts of %f, %e, %g and %a denote: the exact value of the argument, rounded once, to
    nearest with ties to even (section 7.21.6.1 of ISO/IEC 9899:2018, section 4.3.1 of IEEE 754-2008). */
module FloatMeaning {
  import opened Arith
  import opened Numerals
  import opened Resumable
  import opened Rounding
  import opened ExactValue
  import opened FloatValue
  import opened FloatTexts

  // ----- %f

  /** %f with p digits is N / 10^p for the N nearest to m * 2^e2 * 10^p, ties to even; it has p digits
      behind the point and no zero in front of another digit of the integer part. */
  lemma FixedMeans(m: nat, e2: int, p: nat, alternate: bool)
    ensures var n := Nearest(m, e2, -(p as int));
            var text := FixedText(n, p, alternate);
            && Read(text, 10) == Reading(n, p, 0)
            && IsHalfEven(n, Mul(Numer(m, e2), Pow(10, p)), Denom(e2))
            && (text[0] == '0' ==> n < Pow(10, p) && DigitRun(text, 10) == 1)
  {
    hide *;
    var n := Nearest(m, e2, -(p as int));
    FixedReads(n, p, alternate);
    NearestMeans(m, e2, -(p as int));
    NearestIs(n, m, e2, -(p as int));
    PlacesPower(p, Denom(e2));
  }

  lemma NearestIs(n: nat, m: nat, e2: int, q: int)
    ensures Mul(Denom(e2), Tens(q)) > 0
    ensures NearestTo(n, m, e2, q) <==> IsHalfEven(n, Mul(Numer(m, e2), Tens(-q)), Mul(Denom(e2), Tens(q)))
  {
    hide Mul, Pow, IsHalfEven, Denom, Numer, Tens;
    MulSign(Denom(e2), Tens(q));
  }

  lemma PlacesPower(p: nat, d: nat)
    ensures Tens(p) == Pow(10, p) == Tens(-(-(p as int))) && Mul(d, Tens(-(p as int))) == d
  {
    hide Mul;
    PowStep(10, 0);
    MulOne(d);
  }

  /** n * 10^q is nearest to m * 2^e2 among the multiples of 10^q, ties going to the even one. */
  ghost predicate NearestTo(n: nat, m: nat, e2: int, q: int) {
    MulSign(Denom(e2), Tens(q));
    IsHalfEven(n, Mul(Numer(m, e2), Tens(-q)), Mul(Denom(e2), Tens(q)))
  }

  /** The number of units 10^q nearest to m * 2^e2. */
  lemma NearestMeans(m: nat, e2: int, q: int)
    ensures NearestTo(Nearest(m, e2, q), m, e2, q)
  {
    hide Mul, Pow, RoundHalfEven, IsHalfEven, Denom, Numer, Tens;
    MulSign(Denom(e2), Tens(q));
    RoundIsHalfEven(NatMul(Numer(m, e2), Tens(-q)), NatMul(Denom(e2), Tens(q)));
  }

  // ----- %e

  /** Rounding to p + 1 significant digits gives p + 1 digits, or 10^(p + 1). */
  lemma SignificantBounds(m: nat, e2: int, p: nat)
    requires m > 0
    ensures Pow(10, p) <= Nearest(m, e2, DecimalExponent(m, e2) - p) <= Pow(10, p + 1)
  {
    hide Mul, Pow, RoundHalfEven, ExactInteger, SameDecimal, Nearest, Length;
    var j, f := ExactInteger(m, e2), Low(e2);
    var x := DecimalExponent(m, e2);
    var q := x - p;
    var a, b := Up(f - q), Up(q - f);
    ExactPositive(m, e2);
    LengthBounds(j, 10);
    var n := Length(j, 10);
    SameRefl(j, f);
    NearestDecimal(j, f, m, e2, q);
    PowAdd(10, n - 1, a);
    PowAdd(10, n, a);
    PowAdd(10, p, b);
    PowAdd(10, p + 1, b);
    PowPositive(10, a);
    MulMono(Pow(10, n - 1), j, Pow(10, a));
    MulMono(j, Pow(10, n), Pow(10, a));
    RoundBounds(NatMul(j, Pow(10, a)), Pow(10, b), Pow(10, p), Pow(10, p + 1));
  }

  /** %e is n * 10^(x - p): n has exactly p + 1 digits and denotes the value rounded to its p + 1 leading
      digits, ties to even. */
  lemma ScientificMeans(m: nat, e2: int, p: nat, alternate: bool, upper: bool)
    ensures var (n, x) := Significant(m, e2, p);
            var x0 := DecimalExponent(m, e2);
            var rounded := Nearest(m, e2, x0 - p);
            && Read(ScientificText(n, x, p, alternate, upper), 10) == Reading(n, p, x)
            && (m > 0 ==> Pow(10, p) <= n < Pow(10, p + 1)) && (m == 0 ==> n == 0 && x == 0)
            && SameDecimal(n, x - p, rounded, x0 - p)
            && NearestTo(rounded, m, e2, x0 - p)
  {
    hide *;
    var (n, x) := Significant(m, e2, p);
    var x0 := DecimalExponent(m, e2);
    NearestMeans(m, e2, x0 - p);
    SignificantNormal(m, e2, p);
    if m > 0 {
      SignificantBounds(m, e2, p);
    } else {
      NearestZero(e2, x0 - p);
    }
    NormalMeans(Nearest(m, e2, x0 - p), x0, p);
    ScientificReads(n, x, p, alternate, upper);
  }

  lemma SignificantNormal(m: nat, e2: int, p: nat)
    ensures var x0 := DecimalExponent(m, e2);
            Significant(m, e2, p) == Normal(Nearest(m, e2, x0 - p), x0, p)
  {
  }

  lemma NormalMeans(n: nat, x: int, p: nat)
    requires n == 0 || Pow(10, p) <= n <= Pow(10, p + 1)
    ensures var (n', x') := Normal(n, x, p);
            && SameDecimal(n', x' - p, n, x - p) && n' < Pow(10, p + 1)
            && (n > 0 ==> Pow(10, p) <= n') && (n == 0 ==> n' == 0 && x' == 0)
  {
    hide Mul, Pow;
    PowPositive(10, p);
    PowStep(10, p);
    PowStep(10, 0);
    MulConst(Pow(10, p));
    MulOne(n);
    MulOne(Pow(10, Up(x)));
    MulOne(Pow(10, Up(-x)));
    MulOne(Pow(10, Up(0 - x)));
  }

  // ----- %g

  /** Dropping zeros behind the point keeps the number, and drops all of them. */
  lemma {:induction false} DropMeans(n: nat, r: nat, p: nat)
    requires IsRadix(r)
    ensures var (n', p') := DropZeros(n, r, p);
            p' <= p && n == Mul(n', Pow(r, p - p')) && (p' > 0 ==> Rem(n', r) != 0)
    decreases p
  {
    hide Mul, Div, Mod, Pow;
    PowStep(r, 0);
    MulOne(n);
    if p > 0 && Rem(n, r) == 0 {
      var q := Quot(n, r);
      DropMeans(q, r, p - 1);
      var (n', p') := DropZeros(q, r, p - 1);
      DivMod(n, r);
      PowStep(r, p - 1 - p');
      MulAssoc(n', Pow(r, p - 1 - p'), r);
    }
  }

  lemma DroppedSame(n: nat, p: nat, alternate: bool, x: int)
    requires n < Pow(10, p + 1)
    ensures var (n', p') := MaybeDrop(n, p, alternate);
            && p' <= p && SameDecimal(n', x - p', n, x - p) && n' < Pow(10, p' + 1)
            && (alternate ==> p' == p) && (!alternate && p' > 0 ==> Rem(n', 10) != 0)
  {
    hide Mul, Div, Mod, Pow, DropZeros, SameDecimal;
    if alternate {
      SameRefl(n, x - p);
    } else {
      DropMeans(n, 10, p);
      var (n', p') := DropZeros(n, 10, p);
      DroppedScale(n', p', n, p, x);
    }
  }

  lemma DroppedScale(n': nat, p': nat, n: nat, p: nat, x: int)
    requires p' <= p && n == Mul(n', Pow(10, p - p')) < Pow(10, p + 1)
    ensures SameDecimal(n', x - p', n, x - p) && n' < Pow(10, p' + 1)
  {
    hide Mul, Pow;
    PowStep(10, 0);
    MulOne(n);
    PowAdd(10, p' + 1, p - p');
    PowPositive(10, p - p');
    MulCancel(n', Pow(10, p' + 1), Pow(10, p - p'));
  }

  lemma SmallerFixed(n: nat, f: nat, p: nat, alternate: bool, x: int)
    ensures var (n', p') := MaybeDrop(n, f, alternate);
            && p' <= f && SameDecimal(n', x - p', n, x - f)
            && (alternate ==> p' == f) && (!alternate && p' > 0 ==> Rem(n', 10) != 0)
  {
    hide Mul, Div, Mod, Pow, DropZeros, SameDecimal;
    if alternate {
      SameRefl(n, x - f);
    } else {
      DropMeans(n, 10, f);
      var (n', p') := DropZeros(n, 10, f);
      DroppedAlike(n', p', n, f, x);
    }
  }

  lemma DroppedAlike(n': nat, p': nat, n: nat, f: nat, x: int)
    requires p' <= f && n == Mul(n', Pow(10, f - p'))
    ensures SameDecimal(n', x - p', n, x - f)
  {
    hide Mul, Pow;
    PowStep(10, 0);
    MulOne(n);
  }

  /** %g with k significant digits denotes what %e with k - 1 places denotes. It takes the fixed style
      exactly when the exponent x of that rounded number has -4 <= x < k. Without '#' no zero is left at
      the end of its fraction; with '#' it shows all k digits. */
  lemma SmartMeans(m: nat, e2: int, k: nat, alternate: bool, upper: bool)
    requires k >= 1
    ensures var (n, x) := Significant(m, e2, k - 1);
            var text := SmartText(m, e2, k, alternate, upper);
            var r := Read(text, 10);
            && r.Reading? && SameDecimal(r.number, r.exponent - r.places, n, x - (k - 1))
            && Read(ScientificText(n, x, k - 1, alternate, upper), 10) == Reading(n, k - 1, x)
            && (text == (if -4 <= x < k then FixedText(r.number, r.places, alternate)
                         else ScientificText(r.number, x, r.places, alternate, upper)))
            && (alternate ==> r.places == if -4 <= x < k then k - 1 - x else k - 1)
            && (!alternate && r.places > 0 ==> Rem(r.number, 10) != 0)
  {
    hide *;
    ScientificMeans(m, e2, k - 1, alternate, upper);
    var (n, x) := Significant(m, e2, k - 1);
    SmartIs(m, e2, k, alternate, upper);
    if -4 <= x < k {
      var f := k - 1 - x;
      var (n', p') := MaybeDrop(n, f, alternate);
      SmallerFixed(n, f, k - 1, alternate, 0);
      FixedReads(n', p', alternate);
    } else {
      var (n', p') := MaybeDrop(n, k - 1, alternate);
      SignificantSmall(m, e2, k - 1);
      DroppedSame(n, k - 1, alternate, x);
      ScientificReads(n', x, p', alternate, upper);
    }
  }

  lemma SignificantSmall(m: nat, e2: int, p: nat)
    ensures Significant(m, e2, p).0 < Pow(10, p + 1)
  {
    hide *;
    ScientificMeans(m, e2, p, false, false);
    PowPositive(10, p + 1);
  }

  // ----- %a

  /** The number of units 2^(bits - 4p) nearest to the mantissa. */
  lemma HexNearestMeans(m: nat, bits: nat, p: nat)
    requires bits % 4 == 0 && m < Pow(16, bits / 4 + 1)
    ensures IsHalfEven(HexNearest(m, bits, p), Mul(m, Twos(4 * p - bits)), Twos(bits - 4 * p))
    ensures HexNearest(m, bits, p) <= Pow(16, p + 1)
    ensures 4 * p >= bits ==> HexNearest(m, bits, p) == Mul(m, Pow(2, 4 * p - bits)) < Pow(16, p + 1)
  {
    hide Mul, Pow, RoundHalfEven, IsHalfEven;
    var a, b := Twos(4 * p - bits), Twos(bits - 4 * p);
    RoundIsHalfEven(NatMul(m, a), b);
    BinaryPowers(bits / 4 + 1);
    BinaryPowers(p + 1);
    PowStep(2, 0);
    MulStrict(m, Pow(2, bits + 4), a);
    if 4 * p >= bits {
      PowAdd(2, bits + 4, 4 * p - bits);
      MulOne(NatMul(m, a));
      RoundExact(NatMul(m, a), 1);
    } else {
      MulOne(m);
      PowAdd(2, 4 * p + 4, bits - 4 * p);
      MulOne(0);
      MulOne(b);
      RoundBounds(m, b, 0, Pow(16, p + 1));
    }
  }

  /** %a is n * 2^(e - 4p), with n of p digits behind its leading one: without a precision exactly
      m * 2^e2 and with no zero at its end, else the mantissa rounded half-even to p digits, a carry
      into a new leading digit going into the exponent. */
  lemma HexMeans(m: nat, e2: int, bits: nat, precision: int, alternate: bool, upper: bool)
    requires bits % 4 == 0 && m < Pow(16, bits / 4 + 1) && precision >= -1
    ensures var (n, e, p) := HexParts(m, e2, bits, precision);
            var e0 := if m > 0 then e2 + bits else 0;
            && Read(HexText(n, e, p, alternate, upper), 16) == Reading(n, p, e)
            && (precision < 0 ==>
                e == e0 && 4 * p <= bits && m == Mul(n, Pow(2, bits - 4 * p)) && (p > 0 ==> Rem(n, 16) != 0))
            && (precision >= 0 ==>
                  var rounded := HexNearest(m, bits, p);
                  && p == precision && IsHalfEven(rounded, Mul(m, Twos(4 * p - bits)), Twos(bits - 4 * p))
                  && ((n == rounded && e == e0) || (16 * n == rounded && e == e0 + 4)))
  {
    hide *;
    HexPartsAre(m, e2, bits, precision);
    var (n, e, p) := HexParts(m, e2, bits, precision);
    if precision < 0 {
      HexExact(m, bits);
    } else {
      HexNearestMeans(m, bits, p);
      PowStep(16, p);
      SixteenTimes(p);
    }
    HexReads(n, e, p, alternate, upper);
  }

  lemma SixteenTimes(p: nat)
    ensures Pow(16, p + 1) == 16 * Pow(16, p) && Pow(16, p) > 0
  {
    hide Mul;
    PowPositive(16, p);
    MulIs(16, Pow(16, p));
  }

  lemma HexExact(m: nat, bits: nat)
    requires bits % 4 == 0 && m < Pow(16, bits / 4 + 1)
    ensures IsRadix(16)
    ensures var (n, p) := DropZeros(m, 16, bits / 4);
            && 4 * p <= bits && m == Mul(n, Pow(2, bits - 4 * p)) && (p > 0 ==> Rem(n, 16) != 0) && n < Pow(16, p + 1)
  {
    hide Mul, Div, Mod, Pow, DropZeros;
    DropMeans(m, 16, bits / 4);
    var (n, p) := DropZeros(m, 16, bits / 4);
    var k := bits / 4 - p;
    BinaryPowers(k);
    PowAdd(16, p + 1, k);
    PowPositive(16, k);
    MulCancel(n, Pow(16, p + 1), Pow(16, k));
  }
}
