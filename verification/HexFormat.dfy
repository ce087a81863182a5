/** The hexadecimal style of fprintf: %a. */
module HexFormat {
  import opened Arith
  import opened Numerals
  import opened Resumable
  import opened Rounding
  import opened Decimals
  import opened FloatTexts
  import opened Traces
  import opened Streams
  import opened Sinks
  import opened FixedFormat

  // ----- Shifts

  function ShiftRight(x: nat, k: nat): (y: nat)
    ensures y <= x
  {
    PowPositive(2, k);
    DivNat(x, Pow(2, k));
    ShiftShrinks(x, Pow(2, k));
    Div(x, Pow(2, k))
  }

  lemma ShiftShrinks(x: nat, p: nat)
    requires p > 0
    ensures 0 <= Div(x, p) <= x
  {
    hide Mul, Div, Mod;
    DivNat(x, p);
    DivMod(x, p);
    MulSign(Div(x, p), p);
  }

  /** x & ((1 << k) - 1) */
  function LowBits(x: nat, k: nat): (y: nat)
    ensures y <= x
  {
    PowPositive(2, k);
    DivMod(x, Pow(2, k));
    DivNat(x, Pow(2, k));
    MulSign(Div(x, Pow(2, k)), Pow(2, k));
    Mod(x, Pow(2, k))
  }

  function ShiftLeft(x: nat, k: nat): nat {
    NatMul(x, Pow(2, k))
  }

  /** Shifts by hexadecimal digits. */
  lemma NibbleShifts(x: nat, k: nat)
    ensures Pow(16, k) > 0
    ensures ShiftRight(x, 4 * k) == Div(x, Pow(16, k)) && LowBits(x, 4 * k) == Mod(x, Pow(16, k))
    ensures ShiftLeft(x, 4 * k) == Mul(x, Pow(16, k))
  {
    hide Mul, Div, Mod, Pow;
    PowPositive(16, k);
    BinaryPowers(k);
  }

  // ----- The digits to print

  /** Lead digit and fraction, of `places` hexadecimal digits, put together. */
  function Joined(lead: nat, frac: nat, places: nat): nat {
    NatMul(lead, Pow(16, places)) + frac
  }

  /** Lead and fraction show n with p digits behind the point. */
  ghost predicate Shows(lead: nat, frac: nat, places: nat, n: nat, p: nat) {
    && lead < 16 && frac < Pow(16, places)
    && (p <= places ==> Joined(lead, frac, places) == Mul(n, Pow(16, places - p)))
    && (p > places ==> n == Mul(Joined(lead, frac, places), Pow(16, p - places)))
  }

  lemma SplitLead(m: nat, places: nat)
    requires m < Pow(16, places + 1)
    ensures var lead, frac := ShiftRight(m, 4 * places), LowBits(m, 4 * places);
            lead < 16 && frac < Pow(16, places) && m == Joined(lead, frac, places)
  {
    hide Mul, Div, Mod, Pow;
    NibbleShifts(m, places);
    DivMod(m, Pow(16, places));
    PowStep(16, places);
    MulOne(Pow(16, places));
    DivBounds(m, 0, 16, Pow(16, places));
  }

  // ----- No precision: just enough digits

  /** A digit of the fraction is that digit of the mantissa. */
  lemma FractionDigit(m: nat, places: nat, k: nat)
    requires k < places
    ensures LowBits(ShiftRight(LowBits(m, 4 * places), 4 * k), 4) == Rem(Quot16(m, k), 16)
  {
    hide Mul, Div, Mod, Pow;
    var a, b := Pow(16, k), Pow(16, places - k);
    NibbleShifts(m, places);
    NibbleShifts(LowBits(m, 4 * places), k);
    NibbleShifts(ShiftRight(LowBits(m, 4 * places), 4 * k), 1);
    PowAdd(16, k, places - k);
    PowPositive(16, places - k);
    PowPositive(16, places - k - 1);
    DivOfMod(m, a, b);
    PowStep(16, places - k - 1);
    PowStep(16, 0);
    DivOfMod(Div(m, a), 16, Pow(16, places - k - 1));
  }

  function Quot16(m: nat, k: nat): nat {
    PowPositive(16, k);
    DivNat(m, Pow(16, k));
    Div(m, Pow(16, k))
  }

  /** The zeros at the end of the fraction are not printed. */
  method ShortestPlaces(frac: nat, places: nat, ghost m: nat) returns (precision: nat)
    requires frac == LowBits(m, 4 * places)
    ensures precision <= places && IsRadix(16)
    ensures DropZeros(m, 16, places) == (Quot16(m, places - precision), precision)
    ensures m == Mul(Quot16(m, places - precision), Pow(16, places - precision))
  {
    hide *;
    Radices();
    precision := places;
    NoDrop(m);
    while precision > 0 && LowBits(ShiftRight(frac, 4 * (places - precision)), 4) == 0
      invariant 0 <= precision <= places
      invariant DropZeros(m, 16, places) == DropZeros(Quot16(m, places - precision), 16, precision)
      invariant m == Mul(Quot16(m, places - precision), Pow(16, places - precision))
    {
      FractionDigit(m, places, places - precision);
      DropOne(m, places - precision, precision);
      precision := precision - 1;
    }
    if precision > 0 {
      FractionDigit(m, places, places - precision);
    }
    DropEnd(Quot16(m, places - precision), precision);
  }

  lemma NoDrop(m: nat)
    ensures Quot16(m, 0) == m == Mul(Quot16(m, 0), Pow(16, 0))
  {
    hide Mul;
    PowStep(16, 0);
    DivOne(m);
    MulOne(m);
  }

  lemma DropOne(m: nat, k: nat, p: nat)
    requires p > 0 && Rem(Quot16(m, k), 16) == 0 && m == Mul(Quot16(m, k), Pow(16, k))
    ensures DropZeros(Quot16(m, k), 16, p) == DropZeros(Quot16(m, k + 1), 16, p - 1)
    ensures m == Mul(Quot16(m, k + 1), Pow(16, k + 1))
  {
    hide Mul, Div, Mod, Pow;
    PowPositive(16, k);
    PowStep(16, k);
    DivDiv(m, Pow(16, k), 16);
    var q := Quot16(m, k);
    DivMod(q, 16);
    MulAssoc(Div(q, 16), 16, Pow(16, k));
  }

  lemma DropEnd(n: nat, p: nat)
    requires p > 0 ==> Rem(n, 16) != 0
    ensures DropZeros(n, 16, p) == (n, p)
  {
  }

  // ----- A given precision: rounding

  /** Bits below the last digit round the bits kept, and a carry may make the lead digit 0x10. */
  method RoundHex(lead0: nat, frac0: nat, exp0: int, places: nat, precision: nat, ghost m: nat)
      returns (lead: nat, frac: nat, exp: int)
    requires precision < places && lead0 == ShiftRight(m, 4 * places) && frac0 == LowBits(m, 4 * places)
    requires m < Pow(16, places + 1)
    ensures var n := HexNearest(m, 4 * places, precision);
            if n == Pow(16, precision + 1) then Shows(lead, frac, places, Pow(16, precision), precision)
                && exp == exp0 + 4
            else Shows(lead, frac, places, n, precision) && exp == exp0
  {
    hide *;
    exp := exp0;
    var drop := 4 * (places - precision);
    var rest := LowBits(frac0, drop);
    var half := Pow(2, drop - 1);
    var kept := ShiftLeft(lead0, 4 * precision) + ShiftRight(frac0, drop);
    KeptRounded(m, places, precision);
    if rest > half || (rest == half && kept % 2 == 1) {
      kept := kept + 1;
    }
    lead := ShiftRight(kept, 4 * precision);
    frac := ShiftLeft(LowBits(kept, 4 * precision), drop);
    KeptShown(kept, places, precision);
    if lead > 0xF {
      CarriedShown(kept, places, precision);
      lead := ShiftRight(lead, 4);
      exp := exp + 4;
    }
  }

  lemma KeptRounded(m: nat, places: nat, precision: nat)
    requires precision < places && m < Pow(16, places + 1)
    ensures var drop := 4 * (places - precision);
            var lead, frac := ShiftRight(m, 4 * places), LowBits(m, 4 * places);
            var rest, half := LowBits(frac, drop), Pow(2, drop - 1);
            var kept := ShiftLeft(lead, 4 * precision) + ShiftRight(frac, drop);
            var n := HexNearest(m, 4 * places, precision);
            && n == (if rest > half || (rest == half && kept % 2 == 1) then kept + 1 else kept)
            && n <= Pow(16, precision + 1)
  {
    hide Mul, Div, Mod, Pow, RoundHalfEven;
    var k := places - precision;
    var lead, frac := ShiftRight(m, 4 * places), LowBits(m, 4 * places);
    var den := Pow(16, k);
    SplitLead(m, places);
    NibbleShifts(frac, k);
    NibbleShifts(lead, precision);
    DivMod(frac, den);
    PowAdd(16, precision, k);
    MulAssoc(lead, Pow(16, precision), den);
    var kept: nat := NatMul(lead, Pow(16, precision)) + ShiftRight(frac, 4 * k);
    MulAdd(Mul(lead, Pow(16, precision)), Div(frac, den), den);
    RoundSplit(kept, Mod(frac, den), den);
    BinaryPowers(k);
    PowStep(2, 4 * k - 1);
    MulConst(Pow(2, 4 * k - 1));
    HexNearestIs(m, places, precision);
    PowAdd(16, precision + 1, k);
    MulSign(0, den);
    MulOne(den);
    RoundBounds(m, den, 0, Pow(16, precision + 1));
  }

  lemma HexNearestIs(m: nat, places: nat, precision: nat)
    requires precision < places
    ensures Pow(16, places - precision) > 0
    ensures HexNearest(m, 4 * places, precision) == RoundHalfEven(m, Pow(16, places - precision))
  {
    hide Mul, Pow, RoundHalfEven;
    PowStep(2, 0);
    MulOne(m);
    BinaryPowers(places - precision);
    PowPositive(16, places - precision);
  }

  lemma KeptShown(kept: nat, places: nat, precision: nat)
    requires precision < places && kept <= Pow(16, precision + 1)
    ensures var lead := ShiftRight(kept, 4 * precision);
            var frac := ShiftLeft(LowBits(kept, 4 * precision), 4 * (places - precision));
            && lead <= 16 && (lead > 15 <==> kept == Pow(16, precision + 1))
            && (lead <= 15 ==> Shows(lead, frac, places, kept, precision))
  {
    hide Mul, Div, Mod, Pow;
    var k, p := places - precision, Pow(16, precision);
    NibbleShifts(kept, precision);
    NibbleShifts(LowBits(kept, 4 * precision), k);
    DivMod(kept, p);
    PowStep(16, precision);
    var lead := Div(kept, p);
    if lead > 16 {
      MulStrict(16, lead, p);
    }
    if lead > 15 {
      MulMono(16, lead, p);
    } else {
      MulStrict(lead, 16, p);
      PowAdd(16, precision, k);
      PowPositive(16, k);
      MulStrict(Mod(kept, p), p, Pow(16, k));
      MulAdd(Mul(lead, p), Mod(kept, p), Pow(16, k));
      MulAssoc(lead, p, Pow(16, k));
    }
  }

  lemma CarriedShown(kept: nat, places: nat, precision: nat)
    requires precision < places && kept == Pow(16, precision + 1)
    ensures var lead := ShiftRight(kept, 4 * precision);
            var frac := ShiftLeft(LowBits(kept, 4 * precision), 4 * (places - precision));
            Shows(ShiftRight(lead, 4), frac, places, Pow(16, precision), precision)
  {
    hide Mul, Div, Mod, Pow;
    var k, p := places - precision, Pow(16, precision);
    NibbleShifts(kept, precision);
    NibbleShifts(0, k);
    PowStep(16, precision);
    MulOne(p);
    DivExact(16, p);
    NibbleShifts(16, 1);
    PowStep(16, 0);
    MulOne(16);
    DivExact(1, 16);
    MulOne(Pow(16, k));
    MulOne(Pow(16, places));
    PowAdd(16, precision, k);
    PowPositive(16, places);
  }

  /** Everything that %a shows of a mantissa. */
  method HexShown(m: uint64, e2: int, bits: nat, given: int) returns (lead: nat, frac: nat, exp: int, precision: nat)
    requires bits % 4 == 0 && m < Pow(16, bits / 4 + 1) && given >= -1
    ensures var (n, e, p) := HexParts(m, e2, bits, given);
            p == precision && e == exp && Shows(lead, frac, bits / 4, n, p)
    ensures var e := if m > 0 then e2 + bits else 0;
            e <= exp <= e + 4
  {
    hide *;
    var places := bits / 4;
    lead := ShiftRight(m, bits);
    frac := LowBits(m, bits);
    exp := if m > 0 then e2 + bits else 0;
    SplitLead(m, places);
    HexPartsAre(m, e2, bits, given);
    if given < 0 {
      precision := ShortestPlaces(frac, places, m);
      ShownFewer(lead, frac, places, Quot16(m, places - precision), precision);
      return;
    }
    precision := given;
    if precision < places {
      lead, frac, exp := RoundHex(lead, frac, exp, places, precision, m);
      return;
    }
    ShownMore(m, lead, frac, places, precision);
  }

  lemma ShownFewer(lead: nat, frac: nat, places: nat, n: nat, p: nat)
    requires lead < 16 && frac < Pow(16, places) && p <= places
             && Joined(lead, frac, places) == Mul(n, Pow(16, places - p))
    ensures Shows(lead, frac, places, n, p)
  {
  }

  /** More digits than the mantissa has: exact, and no carry. */
  lemma ShownMore(m: nat, lead: nat, frac: nat, places: nat, precision: nat)
    requires places <= precision && lead < 16 && frac < Pow(16, places) && m == Joined(lead, frac, places)
    requires m < Pow(16, places + 1)
    ensures var n := HexNearest(m, 4 * places, precision);
            n != Pow(16, precision + 1) && Shows(lead, frac, places, n, precision)
  {
    hide Mul, Pow, RoundHalfEven;
    var k := precision - places;
    PowStep(2, 0);
    BinaryPowers(k);
    MulOne(NatMul(m, Pow(16, k)));
    RoundExact(NatMul(m, Pow(16, k)), 1);
    PowPositive(16, k);
    MulStrict(m, Pow(16, places + 1), Pow(16, k));
    PowAdd(16, places + 1, k);
    PowStep(16, 0);
    MulOne(m);
  }

  // ----- Printing

  /** The character for a place behind the point. */
  function FracDigit(frac: nat, places: nat, i: nat, upper: bool): char {
    if i < places then NibbleChar(ShiftRight(frac, 4 * (places - 1 - i)), upper) else '0'
  }

  function NibbleChar(x: nat, upper: bool): char {
    NibbleShifts(x, 1);
    PowStep(16, 0);
    DivMod(x, 16);
    DigitChar(LowBits(x, 4), upper)
  }

  function FracDigits(frac: nat, places: nat, n: nat, upper: bool): (s: seq<char>)
    ensures |s| == n
  {
    seq(n, i requires 0 <= i < n => FracDigit(frac, places, i, upper))
  }

  /** Appended zeros move every digit up. */
  lemma SameDigit(x: nat, k: nat, a: nat)
    ensures Quot16(NatMul(x, Pow(16, k)), a + k) == Quot16(x, a)
  {
    hide Mul, Div, Mod, Pow;
    PowPositive(16, k);
    PowPositive(16, a);
    PowAdd(16, k, a);
    DivDiv(NatMul(x, Pow(16, k)), Pow(16, k), Pow(16, a));
    DivExact(x, Pow(16, k));
  }

  lemma AppendedZero(x: nat, k: nat, a: nat)
    requires a < k
    ensures Rem(Quot16(NatMul(x, Pow(16, k)), a), 16) == 0
  {
    hide Mul, Div, Mod, Pow;
    PowPositive(16, a);
    PowAdd(16, k - a, a);
    PowStep(16, k - a - 1);
    MulAssoc(x, Pow(16, k - a), Pow(16, a));
    DivExact(NatMul(x, Pow(16, k - a)), Pow(16, a));
    MulAssoc(x, Pow(16, k - a - 1), 16);
    DivExact(NatMul(x, Pow(16, k - a - 1)), 16);
  }

  lemma JoinedSplits(lead: nat, frac: nat, places: nat)
    requires lead < 16 && frac < Pow(16, places)
    ensures Quot16(Joined(lead, frac, places), places) == lead
    ensures LowBits(Joined(lead, frac, places), 4 * places) == frac
  {
    hide Mul, Div, Mod, Pow;
    NibbleShifts(Joined(lead, frac, places), places);
    DivModUnique(Joined(lead, frac, places), lead, frac, Pow(16, places));
  }

  /** The place of n at which a shown digit stands. */
  lemma ShownPlace(lead: nat, frac: nat, places: nat, n: nat, p: nat, j: nat)
    requires Shows(lead, frac, places, n, p) && j <= p
    ensures j <= places ==> Quot16(n, p - j) == Quot16(Joined(lead, frac, places), places - j)
    ensures j > places ==> Rem(Quot16(n, p - j), 16) == 0
  {
    hide Mul, Div, Mod, Pow, Joined, Quot16;
    var w := Joined(lead, frac, places);
    if p <= places {
      SameDigit(n, places - p, p - j);
    } else if j <= places {
      SameDigit(w, p - places, places - j);
    } else {
      AppendedZero(w, p - places, p - j);
    }
  }

  /** The digits printed are those of n. */
  lemma ShownDigits(lead: nat, frac: nat, places: nat, n: nat, p: nat, upper: bool)
    requires Shows(lead, frac, places, n, p)
    ensures IsRadix(16) && lead < 16
    ensures Digits(n, 16, p + 1, upper) == [DigitChar(lead, upper)] + FracDigits(frac, places, p, upper)
  {
    hide *;
    Radices();
    ShownParts(lead, frac, places, n, p);
    var s, t := Digits(n, 16, p + 1, upper), [DigitChar(lead, upper)] + FracDigits(frac, places, p, upper);
    forall j | 0 <= j <= p ensures s[j] == t[j] {
      ShownDigit(lead, frac, places, n, p, j, upper);
    }
  }

  lemma ShownParts(lead: nat, frac: nat, places: nat, n: nat, p: nat)
    requires Shows(lead, frac, places, n, p)
    ensures lead < 16 && frac < Pow(16, places)
  {
  }

  lemma ShownDigit(lead: nat, frac: nat, places: nat, n: nat, p: nat, j: nat, upper: bool)
    requires Shows(lead, frac, places, n, p) && j <= p && lead < 16
    ensures Digits(n, 16, p + 1, upper)[j] ==
              ([DigitChar(lead, upper)] + FracDigits(frac, places, p, upper))[j]
  {
    hide Mul, Div, Mod, Pow, Digits, DigitChar, LowBits, ShiftRight, Joined;
    var w := Joined(lead, frac, places);
    DigitsAt(n, 16, p + 1, j, upper);
    ShownPlace(lead, frac, places, n, p, j);
    JoinedSplits(lead, frac, places);
    if j == 0 {
      DivSmall(lead, 16);
    } else {
      assert FracDigits(frac, places, p, upper)[j - 1] == FracDigit(frac, places, j - 1, upper);
      if j <= places {
        FractionDigit(w, places, places - j);
      } else {
        DigitRoundTrip(0, upper);
      }
    }
  }

  /** The digits behind the point. */
  method OutputNibbles(sink: Sink, frac: nat, places: nat, precision: nat, upper: bool) returns (ok: bool)
    requires sink.Valid()
    modifies sink, sink.out, sink.out.buffer_
    ensures sink.Valid()
    ensures sink.Emitted(old(sink.out.Trace()), old(sink.count), FracDigits(frac, places, precision, upper), ok)
  {
    hide File.Valid, File.Trace, Sent, FracDigit;
    ghost var before, c := sink.out.Trace(), sink.count;
    ghost var all := FracDigits(frac, places, precision, upper);
    sink.EmittedNothing();
    assert all[..0] == [];
    var i := 0;
    while i < precision
      invariant 0 <= i <= precision && sink.Valid() && sink.Emitted(before, c, all[..i], true)
    {
      var digit := FracDigit(frac, places, i, upper);
      assert all[i] == digit && all[..i] + [digit] == all[..i + 1];
      ok := sink.More([digit], before, c, all[..i]);
      if !ok {
        sink.EmittedStopped(before, c, all[..i + 1], all[i + 1..]);
        assert all[..i + 1] + all[i + 1..] == all;
        return;
      }
      i := i + 1;
    }
    assert all[..i] == all;
    ok := true;
  }

  /** Lead digit, point, other digits, exponent. */
  method OutputHexBody(sink: Sink, lead: nat, frac: nat, places: nat, precision: nat, point: bool, suffix: seq<char>,
      upper: bool, ghost n: nat, ghost alternate: bool) returns (ok: bool)
    requires sink.Valid() && Shows(lead, frac, places, n, precision) && point == (precision > 0 || alternate)
    modifies sink, sink.out, sink.out.buffer_
    ensures sink.Valid() && IsRadix(16)
    ensures sink.Emitted(old(sink.out.Trace()), old(sink.count),
            MantissaText(n, 16, precision, alternate, upper) + suffix, ok)
  {
    hide *;
    Radices();
    ShownParts(lead, frac, places, n, precision);
    ShownDigits(lead, frac, places, n, precision, upper);
    MantissaIs(n, 16, precision, alternate, upper);
    PointIs(precision, alternate);
    ghost var before, c := sink.out.Trace(), sink.count;
    ghost var first, rest := DigitChar(lead, upper), FracDigits(frac, places, precision, upper);
    ghost var all := MantissaText(n, 16, precision, alternate, upper) + suffix;
    var hex_digits := if upper then "0123456789ABCDEF" else "0123456789abcdef";
    TableOf(upper);
    ghost var done, left := [first], Point(precision, alternate) + rest + suffix;
    assert done + left == all;
    ok := sink.PutChar(hex_digits[lead]);
    if !ok {
      sink.EmittedStopped(before, c, done, left);
      return;
    }
    if point {
      ok := sink.More(".", before, c, done);
      done, left := done + ".", rest + suffix;
      assert done + left == all;
      if !ok {
        sink.EmittedStopped(before, c, done, left);
        return;
      }
    }
    assert done + (rest + suffix) == all;
    ghost var mid, k := sink.out.Trace(), sink.count;
    sink.EmittedParts(before, c, done, true);
    ok := OutputNibbles(sink, frac, places, precision, upper);
    sink.EmittedThen(before, c, done, mid, k, rest, ok);
    assert done + rest + suffix == all;
    if !ok {
      sink.EmittedStopped(before, c, done + rest, suffix);
      return;
    }
    ok := sink.More(suffix, before, c, done + rest);
  }

  lemma TableOf(upper: bool)
    ensures var t := if upper then "0123456789ABCDEF" else "0123456789abcdef";
            |t| == 16 && forall d :: 0 <= d < 16 ==> t[d] == DigitChar(d, upper)
  {
  }

  /** The exponent part of %a: at least one digit. */
  method BinarySuffix(exp: int, upper: bool) returns (suffix: seq<char>)
    requires -100000 <= exp <= 100000
    ensures suffix == (if upper then "P" else "p") + SignOf(exp) + Numeral(Abs(exp), 10, false)
  {
    hide *;
    Radices();
    SignOfIs(exp);
    var exp_abs: nat := if exp < 0 then -exp else exp;
    ghost var text := Numeral(exp_abs, 10, false);
    TwoDigitsAre(exp_abs);
    var exp_buf := new char[16];
    var i := 16;
    NumeralStep(exp_abs, 10, false);
    assert exp_buf[16..] == [];
    while true
      invariant 7 < i <= 16 && exp_abs >= 0
      invariant text == Numeral(exp_abs, 10, false) + exp_buf[i..] && |text| <= 9
      decreases exp_abs
    {
      NumeralStep(exp_abs, 10, false);
      NumeralDigit(exp_abs);
      i := i - 1;
      exp_buf[i] := ('0' as int + exp_abs % 10) as char;
      exp_abs := exp_abs / 10;
      assert exp_buf[i..] == [exp_buf[i]] + exp_buf[i + 1..];
      if exp_abs == 0 {
        break;
      }
    }
    assert text == exp_buf[i..];
    PutSign(exp_buf, i, exp, if upper then 'P' else 'p');
    suffix := exp_buf[i - 2..];
    assert suffix == (if upper then "P" else "p") + SignOf(exp) + text;
  }

  /** fp_output_hex: the value in hexadecimal, in its field. */
  method OutputHex(sink: Sink, state: State, m: uint64, e2: int, bits: nat, sign: string) returns (ok: bool)
    requires sink.Valid() && state.precision >= -1
    requires bits % 4 == 0 && bits <= 64 && m < Pow(16, bits / 4 + 1) && -20000 <= e2 <= 20000
    modifies sink, sink.out, sink.out.buffer_
    ensures sink.Valid()
    ensures var (n, e, p) := HexParts(m, e2, bits, state.precision);
            sink.Emitted(old(sink.out.Trace()), old(sink.count),
                         Field(state, sign + (if state.upper then "0X" else "0x"),
                               HexText(n, e, p, state.flags.alternate, state.upper), state.flags.leadingZeros), ok)
  {
    hide *;
    Radices();
    var upper, alternate := state.upper, state.flags.alternate;
    var lead, frac, exp, precision := HexShown(m, e2, bits, state.precision);
    ghost var n := HexParts(m, e2, bits, state.precision).0;
    var prefix := sign + (if upper then "0X" else "0x");
    var point := precision > 0 || alternate;
    var suffix := BinarySuffix(exp, upper);
    var exp_digits := NumeralLength(if exp < 0 then -exp else exp);
    var len := |prefix| + 1 + (if point then 1 else 0) + precision + 2 + exp_digits;
    ghost var body := HexText(n, exp, precision, alternate, upper);
    HexIs(n, exp, precision, alternate, upper);
    ghost var zero_pad, before, c := state.flags.leadingZeros, sink.out.Trace(), sink.count;
    ghost var front := FieldFront(state, len, prefix, zero_pad);
    FieldSplit(state, prefix, body, zero_pad);
    ok := sink.FieldBegin(state, len, prefix, state.flags.leadingZeros);
    if !ok {
      sink.FieldCut(before, c, state, prefix, body, zero_pad);
      return;
    }
    ghost var mid, k := sink.out.Trace(), sink.count;
    sink.EmittedParts(before, c, front, true);
    ok := OutputHexBody(sink, lead, frac, bits / 4, precision, point, suffix, upper, n, alternate);
    sink.EmittedThen(before, c, front, mid, k, body, ok);
    if !ok {
      sink.FieldCut(before, c, state, prefix, body, zero_pad);
      return;
    }
    mid, k := sink.out.Trace(), sink.count;
    sink.EmittedParts(before, c, front + body, true);
    ok := sink.FieldEnd(state, len);
    sink.EmittedThen(before, c, front + body, mid, k, FieldBack(state, len), ok);
  }

  lemma HexIs(n: nat, e: int, p: nat, alternate: bool, upper: bool)
    ensures IsRadix(16) && IsRadix(10) && Abs(e) == if e < 0 then -e else e
    ensures var h, tail := MantissaText(n, 16, p, alternate, upper),
            (if upper then "P" else "p") + SignOf(e) + Numeral(Abs(e), 10, false);
            && HexText(n, e, p, alternate, upper) == h + tail
            && |h| == 1 + (if p > 0 || alternate then 1 else 0) + p && |tail| == 2 + |Numeral(Abs(e), 10, false)|
  {
    hide Digits, Numeral;
  }
}
