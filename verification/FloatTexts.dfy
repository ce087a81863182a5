/** What %f, %e, %g and %a print, and what reading the printed text back gives. */
module FloatTexts {
  import opened Arith
  import opened Numerals
  import opened Resumable
  import opened Rounding
  import opened ExactValue
  import opened DecimalText
  import opened FloatValue
  import opened Sinks
  import opened IntegerFormat

  /** A floating-point argument, split: mantissa * 2^exp2, with hexFracBits of the mantissa behind the
      point of %a. */
  datatype Real =
    | Finite(negative: bool, mantissa: uint64, exp2: int, hexFracBits: nat)
    | Infinite(negative: bool)
    | NotANumber(negative: bool)

  // ----- Texts

  function Point(p: nat, alternate: bool): (s: string)
    ensures |s| <= 1
  {
    if p > 0 || alternate then "." else ""
  }

  /** n / 10^p, without its fraction. */
  function IntegerPart(n: nat, p: nat): nat {
    DivNat(n, Tens(p));
    Div(n, Tens(p))
  }

  /** n * 10^-p with p digits behind the point. */
  function FixedText(n: nat, p: nat, alternate: bool): seq<char> {
    Numeral(IntegerPart(n, p), 10, false) + Point(p, alternate) + Digits(n, 10, p, false)
  }

  /** p + 1 digits with a point behind the first. */
  function MantissaText(n: nat, r: nat, p: nat, alternate: bool, upper: bool): seq<char>
    requires IsRadix(r)
  {
    var s := Digits(n, r, p + 1, upper);
    s[..1] + Point(p, alternate) + s[1..]
  }

  lemma MantissaIs(n: nat, r: nat, p: nat, alternate: bool, upper: bool)
    requires IsRadix(r)
    ensures var s := Digits(n, r, p + 1, upper);
            MantissaText(n, r, p, alternate, upper) == s[..1] + Point(p, alternate) + s[1..]
  {
  }

  /** An exponent of at least two digits. */
  function TwoDigits(v: nat): seq<char> {
    if v < 10 then Digits(v, 10, 2, false) else Numeral(v, 10, false)
  }

  function SignOf(x: int): string {
    if x < 0 then "-" else "+"
  }

  function ScientificText(n: nat, x: int, p: nat, alternate: bool, upper: bool): seq<char> {
    MantissaText(n, 10, p, alternate, false) + (if upper then "E" else "e") + SignOf(x) + TwoDigits(Abs(x))
  }

  function HexText(n: nat, e: int, p: nat, alternate: bool, upper: bool): seq<char> {
    MantissaText(n, 16, p, alternate, upper) + (if upper then "P" else "p") + SignOf(e) + Numeral(Abs(e), 10, false)
  }

  // ----- Which numbers are printed

  /** A rounding of n * 10^(x - p) that came out as 10^(p + 1) is one digit shorter at the next exponent;
      zero is printed with exponent zero. */
  function Normal(n: nat, x: int, p: nat): (nat, int) {
    if n == Pow(10, p + 1) then (Pow(10, p), x + 1) else if n == 0 then (0, 0) else (n, x)
  }

  /** The value with p + 1 significant digits: an integer n and an exponent x for n * 10^(x - p). */
  function Significant(m: nat, e2: int, p: nat): (nat, int) {
    var x := DecimalExponent(m, e2);
    Normal(Nearest(m, e2, x - p), x, p)
  }

  /** Zeros at the end of the p digits behind the point of n * r^-p go. */
  function DropZeros(n: nat, r: nat, p: nat): (nat, nat)
    requires IsRadix(r)
    decreases p
  {
    if p > 0 && Rem(n, r) == 0 then DropZeros(Quot(n, r), r, p - 1) else (n, p)
  }

  function MaybeDrop(n: nat, p: nat, alternate: bool): (nat, nat) {
    if alternate then (n, p) else DropZeros(n, 10, p)
  }

  /** The number of significant digits that %g asks for. */
  function SmartDigits(precision: int): (k: nat)
    ensures k >= 1
  {
    if precision < 0 then 6 else if precision == 0 then 1 else precision
  }

  function SmartText(m: nat, e2: int, digits: nat, alternate: bool, upper: bool): seq<char>
    requires digits >= 1
  {
    var (n, x) := Significant(m, e2, digits - 1);
    if -4 <= x < digits then
      var (n', p) := MaybeDrop(n, digits - 1 - x, alternate);
      FixedText(n', p, alternate)
    else
      var (n', p) := MaybeDrop(n, digits - 1, alternate);
      ScientificText(n', x, p, alternate, upper)
  }

  function Twos(k: int): (p: nat)
    ensures p > 0
  {
    PowPositive(2, Up(k));
    Pow(2, Up(k))
  }

  /** The mantissa in units of the last of p hexadecimal digits behind the point, half-even. */
  function HexNearest(m: nat, bits: nat, p: nat): nat {
    RoundHalfEven(NatMul(m, Twos(4 * p - bits)), Twos(bits - 4 * p))
  }

  /** What %a prints: an integer n, an exponent e and a number of digits p for n * 2^(e - 4p). */
  function HexParts(m: nat, e2: int, bits: nat, precision: int): (nat, int, nat) {
    var e := if m > 0 then e2 + bits else 0;
    if precision < 0 then
      var (n, p) := DropZeros(m, 16, bits / 4);
      (n, e, p)
    else
      var n := HexNearest(m, bits, precision);
      if n == Pow(16, precision + 1) then (Pow(16, precision), e + 4, precision) else (n, e, precision)
  }

  lemma SmartIs(m: nat, e2: int, digits: nat, alternate: bool, upper: bool)
    requires digits >= 1
    ensures var (n, x) := Significant(m, e2, digits - 1);
            if -4 <= x < digits then
              var (n', p) := MaybeDrop(n, digits - 1 - x, alternate);
              SmartText(m, e2, digits, alternate, upper) == FixedText(n', p, alternate)
            else
              var (n', p) := MaybeDrop(n, digits - 1, alternate);
              SmartText(m, e2, digits, alternate, upper) == ScientificText(n', x, p, alternate, upper)
  {
    hide Significant, MaybeDrop, FixedText, ScientificText;
  }

  lemma HexPartsAre(m: nat, e2: int, bits: nat, precision: int)
    requires precision >= -1
    ensures IsRadix(16)
    ensures var e := if m > 0 then e2 + bits else 0;
            if precision < 0 then
              HexParts(m, e2, bits, precision) == (DropZeros(m, 16, bits / 4).0, e, DropZeros(m, 16, bits / 4).1)
            else
              var n := HexNearest(m, bits, precision);
              HexParts(m, e2, bits, precision) ==
                if n == Pow(16, precision + 1) then (Pow(16, precision), e + 4, precision) else (n, e, precision)
  {
    hide Pow, DropZeros, HexNearest;
  }

  // ----- The conversions

  function FloatPrefix(v: Real, state: State): seq<char> {
    var sign := SignText(state.flags, v.negative);
    if v.Finite? && state.specifier == HexFloat then sign + (if state.upper then "0X" else "0x") else sign
  }

  function FloatBody(v: Real, state: State): seq<char> {
    match v
    case Infinite(_) => if state.upper then "INF" else "inf"
    case NotANumber(_) => if state.upper then "NAN" else "nan"
    case Finite(_, m, e2, bits) =>
      var alternate := state.flags.alternate;
      var p := if state.precision < 0 then 6 else state.precision;
      match state.specifier
      case HexFloat =>
        var (n, e, p) := HexParts(m, e2, bits, state.precision);
        HexText(n, e, p, alternate, state.upper)
      case Float => FixedText(Nearest(m, e2, -p), p, alternate)
      case Scientific =>
        var (n, x) := Significant(m, e2, p);
        ScientificText(n, x, p, alternate, state.upper)
      case _ => SmartText(m, e2, SmartDigits(state.precision), alternate, state.upper)
  }

  function FloatText(v: Real, state: State): seq<char> {
    Field(state, FloatPrefix(v, state), FloatBody(v, state), state.flags.leadingZeros && v.Finite?)
  }

  // ----- Reading a text back

  /** What a text spells: number * radix^-places, scaled by the exponent. */
  datatype Reading = Reading(number: nat, places: nat, exponent: int) | Malformed

  /** How many characters at the front are digits. */
  function DigitRun(s: seq<char>, r: nat): (n: nat)
    ensures n <= |s|
  {
    if s != [] && DigitValue(s[0]) < r then 1 + DigitRun(s[1..], r) else 0
  }

  /** Behind the mantissa: nothing, or a letter, a sign and decimal digits. */
  ghost predicate ExponentPart(s: seq<char>, r: nat) {
    s == [] || (|s| >= 3 && s[0] in (if r == 16 then "pP" else "eE") && s[1] in "+-" && AreDigits(s[2..], 10, false))
  }

  ghost function ReadExponent(s: seq<char>): int {
    if |s| < 2 then 0
    else
      var e: int := ValueOf(s[2..], 10);
      if s[1] == '-' then -e else e
  }

  /** Digits, perhaps a point and digits, perhaps an exponent. */
  ghost function Read(s: seq<char>, r: nat): Reading {
    var i := DigitRun(s, r);
    if i < |s| && s[i] == '.' then
      var rest := s[i + 1..];
      var j := DigitRun(rest, r);
      Interpreted(s[..i], rest[..j], rest[j..], r)
    else
      Interpreted(s[..i], [], s[i..], r)
  }

  ghost function Interpreted(h: seq<char>, t: seq<char>, tail: seq<char>, r: nat): Reading {
    if h != [] && ExponentPart(tail, r) then Reading(ValueOf(h + t, r), |t|, ReadExponent(tail)) else Malformed
  }

  lemma {:induction false} RunOf(a: seq<char>, b: seq<char>, r: nat, upper: bool)
    requires IsRadix(r) && AreDigits(a, r, upper) && (b == [] || DigitValue(b[0]) >= r)
    ensures DigitRun(a + b, r) == |a|
  {
    if a != [] {
      assert (a + b)[1..] == a[1..] + b;
      RunOf(a[1..], b, r, upper);
    }
  }

  /** Reading digits h, a point if there are more digits t, and an exponent part. */
  lemma ReadParts(h: seq<char>, point: string, t: seq<char>, tail: seq<char>, r: nat, upper: bool)
    requires IsRadix(r) && AreDigits(h, r, upper) && AreDigits(t, r, upper)
    requires point == "." || (point == "" && t == [])
    requires tail == [] || (DigitValue(tail[0]) >= r && tail[0] != '.')
    ensures Read(h + point + t + tail, r) == Interpreted(h, t, tail, r)
  {
    hide *;
    var s := h + point + t + tail;
    if point == "." {
      NotDigits();
      var rest := t + tail;
      assert s == h + (['.'] + rest);
      RunOf(h, ['.'] + rest, r, upper);
      RunOf(t, tail, r, upper);
      assert s[|h| + 1..] == rest && s[..|h|] == h && rest[..|t|] == t && rest[|t|..] == tail;
      ReadIs(s, r);
    } else {
      assert s == h + tail && t == [];
      RunOf(h, tail, r, upper);
      assert s[..|h|] == h && s[|h|..] == tail;
      ReadIs(s, r);
    }
  }

  lemma NotDigits()
    ensures DigitValue('.') == 16 == DigitValue('p') == DigitValue('P')
    ensures DigitValue('e') == 14 == DigitValue('E')
    ensures forall r :: IsRadix(r) ==> r <= 16
  {
  }

  lemma ReadIs(s: seq<char>, r: nat)
    ensures var i := DigitRun(s, r);
            if i < |s| && s[i] == '.' then
              var rest := s[i + 1..];
              var j := DigitRun(rest, r);
              Read(s, r) == Interpreted(s[..i], rest[..j], rest[j..], r)
            else Read(s, r) == Interpreted(s[..i], [], s[i..], r)
  {
  }

  /** Reading fixed text gives the number back, with exactly p places and no superfluous leading zero. */
  lemma FixedReads(n: nat, p: nat, alternate: bool)
    ensures Read(FixedText(n, p, alternate), 10) == Reading(n, p, 0)
    ensures FixedText(n, p, alternate)[0] == '0' ==> n < Tens(p) && DigitRun(FixedText(n, p, alternate), 10) == 1
  {
    hide *;
    NotDigits();
    Radices();
    var h, t := Numeral(IntegerPart(n, p), 10, false), Digits(n, 10, p, false);
    FixedIs(n, p, alternate);
    NumeralReads(IntegerPart(n, p), 10, false);
    DigitsAre(n, 10, p, false);
    ReadParts(h, Point(p, alternate), t, [], 10, false);
    NoExponent(h, t);
    assert h + Point(p, alternate) + t + [] == FixedText(n, p, alternate);
    ValueConcat(h, t);
    ValueOfDigits(n, 10, p, false);
    if h[0] == '0' {
      MulOne(Tens(p));
      DivMod(n, Tens(p));
      assert h + (Point(p, alternate) + t) == FixedText(n, p, alternate);
      RunOf(h, Point(p, alternate) + t, 10, false);
    }
  }

  lemma NoExponent(h: seq<char>, t: seq<char>)
    requires h != []
    ensures Interpreted(h, t, [], 10) == Reading(ValueOf(h + t, 10), |t|, 0)
  {
  }

  lemma FixedIs(n: nat, p: nat, alternate: bool)
    ensures FixedText(n, p, alternate) ==
            Numeral(IntegerPart(n, p), 10, false) + Point(p, alternate) + Digits(n, 10, p, false)
    ensures Point(p, alternate) == "." || (Point(p, alternate) == "" && p == 0)
    ensures Tens(p) == Pow(10, p) && IntegerPart(n, p) == Div(n, Tens(p))
    ensures n == Mul(IntegerPart(n, p), Pow(10, p)) + Mod(n, Tens(p))
  {
    hide Div, Mul, Mod, Pow, Numeral, Digits;
    DivMod(n, Tens(p));
  }

  /** An exponent part: a letter that is no digit, a sign, the digits of the exponent. */
  ghost predicate IsTail(tail: seq<char>, r: nat, x: int) {
    && |tail| >= 3 && ExponentPart(tail, r) && ReadExponent(tail) == x
    && DigitValue(tail[0]) >= r && tail[0] != '.'
  }

  lemma MantissaReads(n: nat, r: nat, p: nat, alternate: bool, upper: bool, tail: seq<char>, x: int)
    requires IsRadix(r) && n < Pow(r, p + 1) && IsTail(tail, r, x)
    ensures Read(MantissaText(n, r, p, alternate, upper) + tail, r) == Reading(n, p, x)
  {
    hide Mul, Div, Mod, Pow, Digits, ValueOf, Read, AreDigits, DigitValue, ReadExponent, ExponentPart;
    var s := Digits(n, r, p + 1, upper);
    DigitsAre(n, r, p + 1, upper);
    SliceAre(s, r, upper);
    ReadParts(s[..1], Point(p, alternate), s[1..], tail, r, upper);
    assert s[..1] + s[1..] == s;
    ValueOfDigits(n, r, p + 1, upper);
    DivSmall(n, Pow(r, p + 1));
  }

  lemma SliceAre(s: seq<char>, r: nat, upper: bool)
    requires IsRadix(r) && AreDigits(s, r, upper) && s != []
    ensures AreDigits(s[..1], r, upper) && AreDigits(s[1..], r, upper)
  {
  }

  lemma ExponentReads(x: int, letter: char, digits: seq<char>, r: nat)
    requires ValueOf(digits, 10) == Abs(x) && AreDigits(digits, 10, false) && digits != []
    requires (letter in "eE" && r == 10) || (letter in "pP" && r == 16)
    ensures IsTail([letter] + SignOf(x) + digits, r, x)
  {
    hide ValueOf, AreDigits;
    assert ([letter] + SignOf(x) + digits)[2..] == digits;
  }

  lemma ScientificReads(n: nat, x: int, p: nat, alternate: bool, upper: bool)
    requires n < Pow(10, p + 1)
    ensures Read(ScientificText(n, x, p, alternate, upper), 10) == Reading(n, p, x)
    ensures |TwoDigits(Abs(x))| >= 2
  {
    hide Pow, Digits, ValueOf, Read, Numeral, MantissaText, IsTail, TwoDigits, AreDigits;
    var letter := if upper then 'E' else 'e';
    var tail := [letter] + SignOf(x) + TwoDigits(Abs(x));
    TwoDigitsRead(Abs(x));
    ExponentReads(x, letter, TwoDigits(Abs(x)), 10);
    MantissaReads(n, 10, p, alternate, false, tail, x);
    assert ScientificText(n, x, p, alternate, upper) == MantissaText(n, 10, p, alternate, false) + tail;
  }

  lemma TwoDigitsRead(v: nat)
    ensures ValueOf(TwoDigits(v), 10) == v && |TwoDigits(v)| >= 2 && AreDigits(TwoDigits(v), 10, false)
  {
    hide Pow, Digits, ValueOf, Numeral, AreDigits;
    if v < 10 {
      DigitsAre(v, 10, 2, false);
      ValueOfDigits(v, 10, 2, false);
      TenPowers();
      DivSmall(v, 100);
    } else {
      NumeralReads(v, 10, false);
      var s := Numeral(v, 10, false);
      if |s| == 1 {
        DecimalBound(s);
        TenPowers();
      }
    }
  }

  lemma HexReads(n: nat, e: int, p: nat, alternate: bool, upper: bool)
    requires n < Pow(16, p + 1)
    ensures Read(HexText(n, e, p, alternate, upper), 16) == Reading(n, p, e)
  {
    hide Pow, Digits, ValueOf, Read, Numeral, MantissaText, IsTail, AreDigits;
    var letter := if upper then 'P' else 'p';
    var tail := [letter] + SignOf(e) + Numeral(Abs(e), 10, false);
    NumeralReads(Abs(e), 10, false);
    ExponentReads(e, letter, Numeral(Abs(e), 10, false), 16);
    MantissaReads(n, 16, p, alternate, upper, tail, e);
    assert HexText(n, e, p, alternate, upper) == MantissaText(n, 16, p, alternate, upper) + tail;
  }
}
