/** The floating-point conversions of fprintf: %f, %e, %g and %a. */
module FloatFormat {
  import opened Arith
  import opened Numerals
  import opened Resumable
  import opened Rounding
  import opened ExactValue
  import opened DecimalText
  import opened Decimals
  import opened FloatValue
  import opened FloatTexts
  import opened Traces
  import opened Sinks
  import opened IntegerFormat
  import opened FixedFormat
  import opened HexFormat

  /** What splitting a double or an x87 long double yields. */
  ghost predicate Splits(v: Real) {
    v.Finite? ==> -16445 <= v.exp2 <= 16320 && v.hexFracBits in {52, 60} && v.mantissa < Pow(16, v.hexFracBits / 4 + 1)
  }

  /** Digits s at exponent x are exactly m * 2^e2, and no digits stand for zero. */
  ghost predicate Exactly(s: seq<char>, x: int, m: nat, e2: int) {
    && Canonical(s) && (s == [] <==> m == 0)
    && (m > 0 ==> SameDecimal(ValueOf(s, 10), x + 1 - |s|, ExactInteger(m, e2), Low(e2)))
  }

  /** Digits t at exponent x' come from s at x by rounding to `keep` of them. */
  ghost predicate RoundedFrom(s: seq<char>, x: int, t: seq<char>, x': int, keep: int) {
    && Canonical(t)
    && (keep >= |s| ==> t == s && x' == x)
    && (keep < |s| ==> Pow(10, |s| - keep) > 0 &&
                       Denotes(t, x', x + 1 - keep, RoundHalfEven(ValueOf(s, 10), Pow(10, |s| - keep))))
    && (x' == x || (x' == x + 1 && t == "1"))
    && (keep > 0 && s != [] ==> t != [])
  }

  method Convert(m: uint64, e2: int) returns (dec: Decimal)
    requires -16445 <= e2 <= 16320
    ensures fresh(dec) && fresh(dec.digits) && dec.Valid() && Exactly(dec.Text(), dec.exp10, m, e2)
    ensures m == 0 ==> dec.exp10 == 0
    ensures -16445 <= dec.exp10 < 11700
  {
    hide *;
    dec := new Decimal();
    dec.Parts();
    dec.Set(m, e2);
    dec.Parts();
    IsExactly(dec.Text(), dec.exp10, m, e2);
  }

  lemma IsExactly(s: seq<char>, x: int, m: nat, e2: int)
    requires Canonical(s) && (m == 0 ==> s == [])
    requires m > 0 ==> s != [] && SameDecimal(ValueOf(s, 10), x + 1 - |s|, ExactInteger(m, e2), Low(e2))
    ensures Exactly(s, x, m, e2)
  {
  }

  method Rounded(dec: Decimal, keep: int)
    requires dec.Valid()
    modifies dec, dec.digits
    ensures dec.Valid()
    ensures RoundedFrom(old(dec.Text()), old(dec.exp10), dec.Text(), dec.exp10, keep)
  {
    hide *;
    dec.Parts();
    ghost var s, x := dec.Text(), dec.exp10;
    dec.Round(keep);
    dec.Parts();
    IsRoundedFrom(s, x, dec.Text(), dec.exp10, keep);
  }

  lemma IsRoundedFrom(s: seq<char>, x: int, t: seq<char>, x': int, keep: int)
    requires Canonical(t)
    requires keep >= |s| ==> t == s && x' == x
    requires keep < |s| ==> Pow(10, |s| - keep) > 0 &&
                            Denotes(t, x', x + 1 - keep, RoundHalfEven(ValueOf(s, 10), Pow(10, |s| - keep)))
    requires (x' == x || (x' == x + 1 && t == "1")) && (keep > 0 && s != [] ==> t != [])
    ensures RoundedFrom(s, x, t, x', keep)
  {
  }

  /** Rounded to a place: the nearest multiple of that power of ten. */
  lemma PlaceDenotes(s: seq<char>, x: int, t: seq<char>, x': int, keep: int, m: nat, e2: int)
    requires Exactly(s, x, m, e2) && RoundedFrom(s, x, t, x', keep) && m > 0
    ensures Denotes(t, x', x + 1 - keep, Nearest(m, e2, x + 1 - keep))
  {
    hide ValueOf, Pow, Mul, RoundHalfEven, SameDecimal, ExactInteger, Denotes, Nearest, Canonical;
    RoundedDenotes(s, x, t, x', keep, m, e2);
  }

  lemma ZeroDenotes(s: seq<char>, x: int, e2: int, q: int)
    requires Exactly(s, x, 0, e2)
    ensures s == [] && Denotes(s, x, q, 0) && Nearest(0, e2, q) == 0
  {
    NearestZero(e2, q);
  }

  /** Rounded to p + 1 significant digits. */
  lemma SignificantDenotes(s: seq<char>, x: int, t: seq<char>, x': int, p: nat, m: nat, e2: int)
    requires Exactly(s, x, m, e2) && RoundedFrom(s, x, t, x', p + 1) && (m == 0 ==> x == 0)
    ensures var (n, e) := Significant(m, e2, p);
            && Denotes(t, x', e - p, n) && x' == e && (n == 0 <==> t == []) && (n == 0 ==> e == 0)
  {
    hide *;
    FromParts(s, x, t, x', p + 1, m, e2);
    SignificantIs(m, e2, p);
    if m == 0 {
      ZeroDenotes(s, x, e2, -(p as int));
      ZeroDenotes(s, x, e2, x - p);
      NormalIs(0, x, p);
    } else {
      ExponentIs(s, x, m, e2);
      PlaceDenotes(s, x, t, x', p + 1, m, e2);
      var n := Nearest(m, e2, x - p);
      NormalIs(n, x, p);
      if x' == x {
        FilledUp(t, x, p, n);
      } else {
        CarryDenotes(x, p, n);
      }
    }
  }

  lemma FromParts(s: seq<char>, x: int, t: seq<char>, x': int, keep: int, m: nat, e2: int)
    requires Exactly(s, x, m, e2) && RoundedFrom(s, x, t, x', keep)
    ensures Canonical(s) && Canonical(t) && (s == [] <==> m == 0)
    ensures keep >= |s| ==> t == s && x' == x
    ensures x' == x || (x' == x + 1 && t == "1")
    ensures keep > 0 && s != [] ==> t != []
    ensures m > 0 ==> SameDecimal(ValueOf(s, 10), x + 1 - |s|, ExactInteger(m, e2), Low(e2))
  {
  }

  lemma SignificantIs(m: nat, e2: int, p: nat)
    ensures var x := DecimalExponent(m, e2);
            Significant(m, e2, p) == Normal(Nearest(m, e2, x - p), x, p) && (m == 0 ==> x == 0)
  {
  }

  lemma NormalIs(n: nat, x: int, p: nat)
    ensures Pow(10, p + 1) > 0 && Pow(10, p) > 0
    ensures Normal(n, x, p) == if n == Pow(10, p + 1) then (Pow(10, p), x + 1) else if n == 0 then (0, 0) else (n, x)
  {
    PowPositive(10, p + 1);
    PowPositive(10, p);
  }

  /** A carry out of the first digit. */
  lemma CarryDenotes(x: int, p: nat, n: nat)
    requires Denotes("1", x + 1, x - p, n)
    ensures n == Pow(10, p + 1) && Denotes("1", x + 1, x + 1 - p, Pow(10, p))
  {
    hide Pow, Mul;
    OneDigit('1');
    MulOne(Pow(10, p));
    MulOne(Pow(10, p + 1));
  }

  // ----- Zeros that %g drops

  lemma {:induction false} DropDecimal(t: seq<char>, x: int, q: int, n: nat, f: nat)
    requires Canonical(t) && Denotes(t, x, q, n)
    ensures var (n', p) := DropZeros(n, 10, f);
            && p <= f && Denotes(t, x, q + f - p, n')
            && (t == [] ==> p == 0)
            && (t != [] ==> p == if x + 1 - |t| - q >= f then 0 else f - (x + 1 - |t| - q))
    decreases f
  {
    hide Pow, Mul, ValueOf, Canonical;
    TrailingZero(t, x, q, n);
    if f > 0 && Rem(n, 10) == 0 {
      DropDecimal(t, x, q + 1, Quot(n, 10), f - 1);
    }
  }

  /** n ends in zero exactly when its last place lies below the digits. */
  lemma TrailingZero(t: seq<char>, x: int, q: int, n: nat)
    requires Canonical(t) && Denotes(t, x, q, n)
    ensures Rem(n, 10) == 0 <==> t == [] || x + 1 - |t| - q > 0
    ensures Rem(n, 10) == 0 ==> Denotes(t, x, q + 1, Quot(n, 10))
  {
    hide Pow, Mul, Div, Mod, ValueOf;
    if t == [] {
      DivSmall(0, 10);
    } else {
      var z := x + 1 - |t| - q;
      var d := ValueOf(t, 10);
      if z > 0 {
        PowStep(10, z - 1);
        MulAssoc(d, Pow(10, z - 1), 10);
        DivExact(NatMul(d, Pow(10, z - 1)), 10);
      } else {
        PowStep(10, 0);
        MulOne(d);
        LastStep(t);
        DigitAt(t, |t| - 1);
        MulConst(ValueOf(t[..|t| - 1], 10));
        DivModUnique(d, ValueOf(t[..|t| - 1], 10), DigitValue(t[|t| - 1]), 10);
      }
    }
  }

  lemma MaybeDropDenotes(t: seq<char>, x: int, q: int, n: nat, f: nat, alternate: bool)
    requires Canonical(t) && Denotes(t, x, q, n)
    ensures var (n', p) := MaybeDrop(n, f, alternate);
            && p <= f && Denotes(t, x, q + f - p, n')
            && (alternate ==> p == f)
            && (!alternate && t == [] ==> p == 0)
            && (!alternate && t != [] ==> p == if x + 1 - |t| - q >= f then 0 else f - (x + 1 - |t| - q))
            && (t != [] ==> x + 1 - |t| - q >= 0)
  {
    hide Canonical, DropZeros, Pow, Mul, ValueOf;
    DropDecimal(t, x, q, n, f);
  }

  // ----- The conversions

  /** %f */
  method OutputFixedStyle(sink: Sink, state: State, m: uint64, e2: int, precision: nat, sign: string) returns (ok: bool)
    requires sink.Valid() && -16445 <= e2 <= 16320
    modifies sink, sink.out, sink.out.buffer_
    ensures sink.Valid()
    ensures sink.Emitted(old(sink.out.Trace()), old(sink.count),
                         Field(state, sign, FixedText(Nearest(m, e2, -(precision as int)), precision,
                             state.flags.alternate),
                               state.flags.leadingZeros), ok)
  {
    hide *;
    var dec := Convert(m, e2);
    dec.Parts();
    ghost var s, x := dec.Text(), dec.exp10;
    ghost var n := Nearest(m, e2, -(precision as int));
    if dec.count > 0 {
      Rounded(dec, dec.exp10 + 1 + precision);
      SomeDigits(s, x, m, e2);
      PlaceDenotes(s, x, dec.Text(), dec.exp10, x + 1 + precision, m, e2);
    } else {
      NoDigitsLeft(s, x, m, e2);
      ZeroDenotes(s, x, e2, -(precision as int));
    }
    ok := OutputFixed(sink, state, dec, precision, sign, n);
  }

  lemma SomeDigits(s: seq<char>, x: int, m: nat, e2: int)
    requires Exactly(s, x, m, e2) && |s| > 0
    ensures m > 0
  {
  }

  lemma NoDigitsLeft(s: seq<char>, x: int, m: nat, e2: int)
    requires Exactly(s, x, m, e2) && |s| == 0
    ensures m == 0
  {
  }

  /** %e */
  method OutputScientificStyle(sink: Sink, state: State, m: uint64, e2: int, precision: nat, sign: string)
      returns (ok: bool)
    requires sink.Valid() && -16445 <= e2 <= 16320
    modifies sink, sink.out, sink.out.buffer_
    ensures sink.Valid()
    ensures var (n, x) := Significant(m, e2, precision);
            sink.Emitted(old(sink.out.Trace()), old(sink.count),
                         Field(state, sign, ScientificText(n, x, precision, state.flags.alternate, state.upper),
                             state.flags.leadingZeros), ok)
  {
    hide *;
    var dec := Convert(m, e2);
    ghost var s, x := dec.Text(), dec.exp10;
    Rounded(dec, precision + 1);
    SignificantDenotes(s, x, dec.Text(), dec.exp10, precision, m, e2);
    FromParts(s, x, dec.Text(), dec.exp10, precision + 1, m, e2);
    ghost var n := Significant(m, e2, precision).0;
    ok := OutputExponent(sink, state, dec, precision, sign, n);
  }

  /** %g */
  method OutputSmartStyle(sink: Sink, state: State, m: uint64, e2: int, digits: nat, sign: string) returns (ok: bool)
    requires sink.Valid() && -16445 <= e2 <= 16320 && digits >= 1
    modifies sink, sink.out, sink.out.buffer_
    ensures sink.Valid()
    ensures sink.Emitted(old(sink.out.Trace()), old(sink.count),
                         Field(state, sign, SmartText(m, e2, digits, state.flags.alternate, state.upper),
                             state.flags.leadingZeros), ok)
  {
    hide *;
    var alternate := state.flags.alternate;
    var dec := Convert(m, e2);
    ghost var s, x := dec.Text(), dec.exp10;
    Rounded(dec, digits);
    dec.Parts();
    SignificantDenotes(s, x, dec.Text(), dec.exp10, digits - 1, m, e2);
    FromParts(s, x, dec.Text(), dec.exp10, digits, m, e2);
    ghost var n := Significant(m, e2, digits - 1).0;
    SmartIs(m, e2, digits, alternate, state.upper);
    var exp10 := if dec.count > 0 then dec.exp10 else 0;
    if exp10 < digits && exp10 >= -4 {
      var frac_digits := digits - 1 - exp10;
      if !alternate {
        var needed := dec.count - 1 - exp10;
        if needed < frac_digits {
          frac_digits := if needed > 0 then needed else 0;
        }
      }
      MaybeDropDenotes(dec.Text(), exp10, exp10 - (digits - 1), n, digits - 1 - exp10, alternate);
      ok := OutputFixed(sink, state, dec, frac_digits, sign, MaybeDrop(n, digits - 1 - exp10, alternate).0);
    } else {
      var frac_digits := digits - 1;
      if !alternate && dec.count - 1 < frac_digits {
        frac_digits := if dec.count > 1 then dec.count - 1 else 0;
      }
      MaybeDropDenotes(dec.Text(), exp10, exp10 - (digits - 1), n, digits - 1, alternate);
      FilledUp(dec.Text(), exp10, frac_digits, MaybeDrop(n, digits - 1, alternate).0);
      ok := OutputExponent(sink, state, dec, frac_digits, sign, MaybeDrop(n, digits - 1, alternate).0);
    }
  }

  /** fprintf_output_float */
  method OutputFloat(sink: Sink, v: Real, state: State) returns (ok: bool)
    requires sink.Valid() && Splits(v) && state.precision >= -1
    requires state.specifier in {Float, Scientific, Smart, HexFloat}
    modifies sink, sink.out, sink.out.buffer_
    ensures sink.Valid() && sink.Emitted(old(sink.out.Trace()), old(sink.count), FloatText(v, state), ok)
  {
    hide *;
    var sign := Sign(state, v.negative);
    TextIs(v, state);
    if !v.Finite? {
      var text := if v.Infinite? then if state.upper then "INF" else "inf" else if state.upper then "NAN" else "nan";
      ok := sink.TextField(state, sign, text);
      return;
    }
    var m, e2 := v.mantissa, v.exp2;
    SplitParts(v);
    if state.specifier == HexFloat {
      ok := OutputHex(sink, state, m, e2, v.hexFracBits, sign);
      return;
    }
    var precision := if state.precision < 0 then 6 else state.precision;
    if state.specifier == Float {
      ok := OutputFixedStyle(sink, state, m, e2, precision, sign);
      return;
    }
    if state.specifier == Scientific {
      ok := OutputScientificStyle(sink, state, m, e2, precision, sign);
      return;
    }
    if precision == 0 {
      precision := 1;
    }
    ok := OutputSmartStyle(sink, state, m, e2, precision, sign);
  }

  lemma SplitParts(v: Real)
    requires Splits(v) && v.Finite?
    ensures -16445 <= v.exp2 <= 16320 && v.hexFracBits in {52, 60} && v.mantissa < Pow(16, v.hexFracBits / 4 + 1)
  {
  }

  /** The text of each conversion. */
  lemma TextIs(v: Real, state: State)
    requires state.precision >= -1 && state.specifier in {Float, Scientific, Smart, HexFloat}
    ensures var sign, pad, alternate, upper := SignText(state.flags, v.negative), state.flags.leadingZeros,
            state.flags.alternate, state.upper;
            var p := if state.precision < 0 then 6 else state.precision;
            match v
            case Infinite(_) => FloatText(v, state) == Field(state, sign, if upper then "INF" else "inf", false)
            case NotANumber(_) => FloatText(v, state) == Field(state, sign, if upper then "NAN" else "nan", false)
            case Finite(_, m, e2, bits) =>
              && (state.specifier == HexFloat ==>
                    var (n, e, p) := HexParts(m, e2, bits, state.precision);
                    FloatText(v, state) ==
                        Field(state, sign + (if upper then "0X" else "0x"), HexText(n, e, p, alternate, upper), pad))
              && (state.specifier == Float ==>
                  FloatText(v, state) == Field(state, sign, FixedText(Nearest(m, e2, -p), p, alternate), pad))
              && (state.specifier == Scientific ==>
                    var (n, x) := Significant(m, e2, p);
                    FloatText(v, state) == Field(state, sign, ScientificText(n, x, p, alternate, upper), pad))
              && (state.specifier == Smart ==>
                    FloatText(v, state) ==
                        Field(state, sign, SmartText(m, e2, if p == 0 then 1 else p, alternate, upper), pad))
  {
    hide Field, SignText, HexParts, HexText, FixedText, Nearest, Significant, ScientificText, SmartText;
  }
}
