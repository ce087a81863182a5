/** What the texts of the integer and floating-point conversions say, told by their characters alone. */
module Meanings {
  import opened Arith
  import opened Numerals
  import opened Resumable
  import opened Rounding
  import opened ExactValue
  import opened FloatValue
  import opened FloatTexts
  import opened FloatMeaning
  import opened FloatFormat
  import opened Sinks
  import opened IntegerFormat

  /** Flags, width and precision of a conversion; a negative precision means none. */
  datatype Manner =
    Manner(plus: bool, space: bool, zero: bool, alternate: bool, left: bool, width: nat, precision: int)

  function MannerOf(state: State): Manner {
    Manner(state.flags.showSign, state.flags.spaceIfNoSign, state.flags.leadingZeros, state.flags.alternate,
           state.flags.leftAlign, state.width, state.precision)
  }

  /** Prefix and body stand at one end of a text that is as wide as asked or as long as they are; spaces
      fill it up, or zeros between the two. */
  ghost predicate Padded(text: seq<char>, m: Manner, zeros: bool, prefix: seq<char>, body: seq<char>) {
    var len := |prefix| + |body|;
    && |text| == (if m.width > len then m.width else len)
    && (m.left ==> prefix + body <= text && forall i :: len <= i < |text| ==> text[i] == ' ')
    && (!m.left && !zeros ==>
          text[|text| - len..] == prefix + body && forall i :: 0 <= i < |text| - len ==> text[i] == ' ')
    && (!m.left && zeros ==>
          && prefix <= text && text[|text| - |body|..] == body
          && forall i :: |prefix| <= i < |text| - |body| ==> text[i] == '0')
  }

  lemma FieldPadded(state: State, prefix: seq<char>, body: seq<char>, zeroPad: bool)
    ensures Padded(Field(state, prefix, body, zeroPad), MannerOf(state), zeroPad, prefix, body)
  {
    hide Field;
    FieldShape(state, prefix, body, zeroPad);
  }

  // ----- Integers

  /** The digits of an integer: as many as the precision asks, no zero in front beyond that (but for the one
      that an alternate octal starts with), and none at all for zero at precision zero. */
  ghost predicate Spelled(body: seq<char>, v: nat, radix: nat, upper: bool, m: Manner)
    requires IsRadix(radix)
  {
    && AreDigits(body, radix, upper) && ValueOf(body, radix) == v && |body| >= m.precision
    && (body == [] <==> v == 0 && m.precision == 0 && !(radix == 8 && m.alternate))
    && (radix == 8 && m.alternate ==> body != [] && body[0] == '0')
    && (body != [] && body[0] == '0' ==>
          |body| == 1 || |body| <= m.precision || (radix == 8 && m.alternate && body[1] != '0'))
  }

  /** The text is the number n in that radix: a minus exactly for negative ones, else a plus or a space if
      asked for, all of that for signed conversions only; 0x for alternate hexadecimal and for pointers. */
  ghost predicate IntegerShown(text: seq<char>, n: int, signed: bool, radix: nat, upper: bool, pointer: bool,
      m: Manner)
    requires IsRadix(radix)
  {
    var prefix :=
      if signed then if n < 0 then "-" else if m.plus then "+" else if m.space then " " else ""
      else if radix == 16 && n != 0 && (m.alternate || pointer) then if upper then "0X" else "0x"
      else "";
    var zeros := m.zero && m.precision < 0;
    exists body: seq<char> ::
      Padded(text, m, zeros, prefix, body) && Spelled(body, if n < 0 then -n else n, radix, upper, m)
  }

  /** Every integer conversion says its argument, read as a signed number or not. */
  lemma IntegerTextMeans(u: uint64, state: State)
    requires state.precision >= -1
    requires state.specifier in {SignedDecimal, UnsignedDecimal, Octal, Hex, Pointer}
    ensures IsRadix(8) && IsRadix(10) && IsRadix(16)
    ensures var signed := state.specifier == SignedDecimal;
            IntegerShown(IntegerText(u, state),
                         if signed && u >= 0x8000_0000_0000_0000 then u - 0x1_0000_0000_0000_0000 else u, signed,
                         if state.specifier == Octal then 8 else if state.specifier in {Hex, Pointer} then 16 else 10,
                         state.upper, state.specifier == Pointer, MannerOf(state))
  {
    hide Field, Padded, Numeral, ValueOf, AreDigits;
    var r := Base(state.specifier);
    var body := IntegerBody(u, state);
    IntegerBodyDenotes(u, state);
    FewZeros(u, state);
    FieldPadded(state, IntegerPrefix(u, state), body, IntegerZeroPad(state));
    assert Spelled(body, Magnitude(u, state.specifier), r, state.upper, MannerOf(state));
  }

  /** No zero stands in front without need. */
  lemma FewZeros(u: uint64, state: State)
    requires state.precision >= -1
    ensures var body := IntegerBody(u, state);
            body != [] && body[0] == '0' ==>
              || |body| == 1 || |body| <= state.precision
              || (state.specifier == Octal && state.flags.alternate && body[1] != '0')
  {
    hide Numeral, ValueOf, AreDigits;
    var digits := IntegerDigits(u, state);
    var body := IntegerBody(u, state);
    NumeralReads(Magnitude(u, state.specifier), Base(state.specifier), state.upper);
    var n := IntegerZeros(u, state);
    assert |body| == n + |digits|;
    if n == 0 {
      assert body == digits;
    } else if n == 1 && digits != [] {
      assert body[1] == digits[0];
    }
  }

  // ----- Floating-point numbers

  /** Digits and perhaps a point; a zero in front only alone or before the point. */
  ghost predicate Plain(body: seq<char>, point: bool) {
    && body != [] && (forall i :: 0 <= i < |body| ==> '0' <= body[i] <= '9' || body[i] == '.')
    && ('.' in body <==> point)
    && (body[0] == '0' ==> |body| == 1 || body[1] == '.')
  }

  /** One digit, a point if asked, p digits, and then the letter, the sign and the digits of the exponent x, at
      least so many and no zero in front of more. */
  ghost predicate WithExponent(body: seq<char>, p: nat, point: bool, letter: char, x: int, least: nat) {
    var d := 1 + (if point then 1 else 0) + p;
    && |body| >= d + 2 + least && least >= 1
    && (point ==> body[1] == '.')
    && body[d] == letter && body[d + 1] == (if x < 0 then '-' else '+')
    && var t := body[d + 2..];
       && AreDigits(t, 10, false) && ValueOf(t, 10) == (if x < 0 then -x else x)
       && (|t| > least ==> t[0] != '0')
  }

  /** m * 2^e2 rounded half-even at 10^-p, in p digits behind the point. */
  ghost predicate FixedShown(body: seq<char>, m: nat, e2: int, p: nat, alternate: bool) {
    var r := Read(body, 10);
    && r.Reading? && r.places == p && r.exponent == 0
    && IsHalfEven(r.number, Mul(Numer(m, e2), Pow(10, p)), Denom(e2))
    && Plain(body, p > 0 || alternate)
  }

  /** n * 10^(x - p) is m * 2^e2 rounded half-even to its p + 1 leading digits. */
  ghost predicate Leading(n: nat, x: int, m: nat, e2: int, p: nat) {
    var q := DecimalExponent(m, e2) - p;
    && (m == 0 ==> n == 0 && x == 0)
    && (m > 0 ==> Pow(10, p) <= n < Pow(10, p + 1))
    && exists k: nat :: NearestTo(k, m, e2, q) && SameDecimal(n, x - p, k, q)
  }

  ghost predicate ScientificShown(body: seq<char>, m: nat, e2: int, p: nat, alternate: bool, upper: bool) {
    var r := Read(body, 10);
    && r.Reading? && r.places == p && Leading(r.number, r.exponent, m, e2, p)
    && WithExponent(body, p, p > 0 || alternate, if upper then 'E' else 'e', r.exponent, 2)
  }

  /** The number n * 10^(x - k + 1) of k digits, plain if -4 <= x < k and with an exponent otherwise; without
      '#' no zero is left at the end of its fraction, with it all k digits are there. */
  ghost predicate SmartlyPut(body: seq<char>, n: nat, x: int, k: nat, alternate: bool, upper: bool) {
    var r := Read(body, 10);
    && r.Reading? && SameDecimal(r.number, r.exponent - r.places, n, x - k + 1)
    && (alternate ==> r.places == if -4 <= x < k then k - 1 - x else k - 1)
    && (!alternate && r.places > 0 ==> r.number % 10 != 0)
    && (if -4 <= x < k then r.exponent == 0 && Plain(body, r.places > 0 || alternate)
        else
          && r.exponent == x
          && WithExponent(body, r.places, r.places > 0 || alternate, if upper then 'E' else 'e', x, 2))
  }

  ghost predicate SmartShown(body: seq<char>, m: nat, e2: int, k: nat, alternate: bool, upper: bool)
    requires k >= 1
  {
    exists n: nat, x: int :: Leading(n, x, m, e2, k - 1) && SmartlyPut(body, n, x, k, alternate, upper)
  }

  /** The hexadecimal number n * 16^-p * 2^e: all of m * 2^e2 without a precision, else that rounded half-even,
      a carry into a new leading digit going into the exponent. */
  ghost predicate HexShown(body: seq<char>, m: nat, e2: int, bits: nat, precision: int, alternate: bool, upper: bool) {
    var r := Read(body, 16);
    && r.Reading? && r.number < Pow(16, r.places + 1)
    && HexEquals(r.number, r.exponent, r.places, m, if m > 0 then e2 + bits else 0, bits, precision)
    && WithExponent(body, r.places, r.places > 0 || alternate, if upper then 'P' else 'p', r.exponent, 1)
    && var d := if r.places > 0 || alternate then 2 else 1;
       IsRadix(16) && AreDigits(body[..1], 16, upper) && AreDigits(body[d..d + r.places], 16, upper)
  }

  ghost predicate HexEquals(n: nat, e: int, p: nat, m: nat, e0: int, bits: nat, precision: int) {
    if precision < 0 then
      e == e0 && 4 * p <= bits && m == Mul(n, Pow(2, bits - 4 * p)) && (p > 0 ==> n % 16 != 0)
    else
      var num, den := Mul(m, Twos(4 * p - bits)), Twos(bits - 4 * p);
      && p == precision
      && exists k: nat :: IsHalfEven(k, num, den) && ((n == k && e == e0) || (16 * n == k && e == e0 + 4))
  }

  datatype Style = FixedStyle | ScientificStyle | SmartStyle | HexStyle

  ghost predicate BodyShown(body: seq<char>, v: Real, style: Style, upper: bool, m: Manner) {
    match v
    case Infinite(_) => body == if upper then "INF" else "inf"
    case NotANumber(_) => body == if upper then "NAN" else "nan"
    case Finite(_, mantissa, e2, bits) =>
      var p := if m.precision < 0 then 6 else m.precision;
      match style
      case FixedStyle => FixedShown(body, mantissa, e2, p, m.alternate)
      case ScientificStyle => ScientificShown(body, mantissa, e2, p, m.alternate, upper)
      case SmartStyle => SmartShown(body, mantissa, e2, if p == 0 then 1 else p, m.alternate, upper)
      case HexStyle => HexShown(body, mantissa, e2, bits, m.precision, m.alternate, upper)
  }

  /** The text is the value: a minus exactly for negative ones, else a plus or a space if asked for, and the
      magnitude rounded once. */
  ghost predicate RealShown(text: seq<char>, v: Real, style: Style, upper: bool, m: Manner) {
    var sign := if v.negative then "-" else if m.plus then "+" else if m.space then " " else "";
    var hex := if v.Finite? && style == HexStyle then if upper then "0X" else "0x" else "";
    exists body: seq<char> ::
      Padded(text, m, m.zero && v.Finite?, sign + hex, body) && BodyShown(body, v, style, upper, m)
  }

  lemma FixedBody(m: nat, e2: int, p: nat, alternate: bool)
    ensures FixedShown(FixedText(Nearest(m, e2, -(p as int)), p, alternate), m, e2, p, alternate)
  {
    hide Read, Mul, Pow, Nearest, IsHalfEven, FixedText, Plain, Numer, Denom;
    FixedMeans(m, e2, p, alternate);
    FixedPlain(Nearest(m, e2, -(p as int)), p, alternate);
  }

  lemma FixedPlain(n: nat, p: nat, alternate: bool)
    ensures Plain(FixedText(n, p, alternate), p > 0 || alternate)
  {
    hide *;
    FixedIs(n, p, alternate);
    Radices();
    var h, t, d := Numeral(IntegerPart(n, p), 10, false), Digits(n, 10, p, false), Point(p, alternate);
    NumeralReads(IntegerPart(n, p), 10, false);
    DigitsAre(n, 10, p, false);
    PointMeans(p, alternate);
    PlainParts(h, d, t, p > 0 || alternate);
  }

  lemma PointMeans(p: nat, alternate: bool)
    ensures Point(p, alternate) == if p > 0 || alternate then "." else ""
  {
  }

  lemma PlainParts(h: seq<char>, d: seq<char>, t: seq<char>, point: bool)
    requires AreDigits(h, 10, false) && AreDigits(t, 10, false) && h != [] && (h[0] == '0' ==> |h| == 1)
    requires d == (if point then "." else "") && (!point ==> t == [])
    ensures Plain(h + d + t, point)
  {
    DecimalChars(h);
    DecimalChars(t);
    var s := h + d + t;
    hide AreDigits;
    if point {
      assert s[|h|] == '.';
    } else {
      assert s == h;
    }
  }

  lemma DecimalChars(s: seq<char>)
    requires AreDigits(s, 10, false)
    ensures forall i :: 0 <= i < |s| ==> '0' <= s[i] <= '9'
  {
  }

  lemma MantissaShape(n: nat, r: nat, p: nat, alternate: bool, upper: bool, letter: char, x: int, t: seq<char>,
      least: nat)
    requires IsRadix(r) && AreDigits(t, 10, false) && ValueOf(t, 10) == Abs(x)
    requires 1 <= least <= |t| && (|t| > least ==> t[0] != '0')
    ensures var body := MantissaText(n, r, p, alternate, upper) + ([letter] + SignOf(x) + t);
            var d := if p > 0 || alternate then 2 else 1;
            && WithExponent(body, p, p > 0 || alternate, letter, x, least) && |body| >= d + p
            && AreDigits(body[..1], r, upper) && AreDigits(body[d..d + p], r, upper)
  {
    hide *;
    var s, q := Digits(n, r, p + 1, upper), Point(p, alternate);
    DigitsAre(n, r, p + 1, upper);
    SliceAre(s, r, upper);
    PointMeans(p, alternate);
    MantissaIs(n, r, p, alternate, upper);
    SignMeans(x);
    assert s[..1] + q + s[1..] + ([letter] + SignOf(x) + t) == s[..1] + q + s[1..] + [letter] + SignOf(x) + t;
    LaidOut(s[..1], q, s[1..], letter, SignOf(x), t);
    WithExponentIs(s[..1] + q + s[1..] + [letter] + SignOf(x) + t, p, p > 0 || alternate, letter, x, least, t);
  }

  lemma SignMeans(x: int)
    ensures SignOf(x) == [if x < 0 then '-' else '+']
  {
  }

  lemma LaidOut(h: seq<char>, q: seq<char>, d: seq<char>, letter: char, sign: seq<char>, t: seq<char>)
    requires |h| == 1 && |q| <= 1 && |sign| == 1
    ensures var body, k := h + q + d + [letter] + sign + t, 1 + |q|;
            && |body| == k + |d| + 2 + |t| && body[..1] == h && (q != [] ==> body[1] == q[0])
            && body[k..k + |d|] == d && body[k + |d|] == letter && body[k + |d| + 1] == sign[0]
            && body[k + |d| + 2..] == t
  {
  }

  lemma WithExponentIs(body: seq<char>, p: nat, point: bool, letter: char, x: int, least: nat, t: seq<char>)
    requires var d := 1 + (if point then 1 else 0) + p;
             && |body| == d + 2 + |t| && (point ==> body[1] == '.') && body[d] == letter
             && body[d + 1] == (if x < 0 then '-' else '+') && body[d + 2..] == t
    requires AreDigits(t, 10, false) && ValueOf(t, 10) == Abs(x) && 1 <= least <= |t|
    requires |t| > least ==> t[0] != '0'
    ensures WithExponent(body, p, point, letter, x, least)
  {
    hide ValueOf, AreDigits;
  }

  lemma ScientificBody(m: nat, e2: int, p: nat, alternate: bool, upper: bool)
    ensures var (n, x) := Significant(m, e2, p);
            && ScientificShown(ScientificText(n, x, p, alternate, upper), m, e2, p, alternate, upper)
            && Leading(n, x, m, e2, p)
  {
    hide Read, Mul, Pow, Nearest, NearestTo, ScientificText, WithExponent, Significant, SameDecimal, DecimalExponent;
    ScientificMeans(m, e2, p, alternate, upper);
    var (n, x) := Significant(m, e2, p);
    ScientificShape(n, x, p, alternate, upper);
  }

  lemma ScientificShape(n: nat, x: int, p: nat, alternate: bool, upper: bool)
    ensures WithExponent(ScientificText(n, x, p, alternate, upper), p, p > 0 || alternate,
                         if upper then 'E' else 'e', x, 2)
  {
    hide WithExponent, MantissaText, TwoDigits, AreDigits, ValueOf;
    TwoDigitsRead(Abs(x));
    TwoDigitsLeast(Abs(x));
    var letter := if upper then 'E' else 'e';
    MantissaShape(n, 10, p, alternate, false, letter, x, TwoDigits(Abs(x)), 2);
    assert ScientificText(n, x, p, alternate, upper) ==
           MantissaText(n, 10, p, alternate, false) + ([letter] + SignOf(x) + TwoDigits(Abs(x)));
  }

  lemma TwoDigitsLeast(v: nat)
    ensures |TwoDigits(v)| > 2 ==> TwoDigits(v)[0] != '0'
  {
    hide Digits, ValueOf;
    NumeralReads(v, 10, false);
  }

  lemma SmartBody(m: nat, e2: int, k: nat, alternate: bool, upper: bool)
    requires k >= 1
    ensures SmartShown(SmartText(m, e2, k, alternate, upper), m, e2, k, alternate, upper)
  {
    hide *;
    var (n, x) := Significant(m, e2, k - 1);
    ScientificBody(m, e2, k - 1, alternate, upper);
    SmartMeans(m, e2, k, alternate, upper);
    var text := SmartText(m, e2, k, alternate, upper);
    var r := Read(text, 10);
    if -4 <= x < k {
      FixedPlain(r.number, r.places, alternate);
      FixedReads(r.number, r.places, alternate);
    } else {
      ScientificShape(r.number, x, r.places, alternate, upper);
      SmartExponent(m, e2, k, alternate, upper);
    }
    RemIs(r.number, 10);
    SmartlyIs(text, n, x, k, alternate, upper);
    SmartFound(text, m, e2, k, alternate, upper, n, x);
  }

  lemma RemIs(n: nat, r: nat)
    requires r > 0
    ensures Rem(n, r) == n % r
  {
  }

  /** In the exponent style the exponent read is that of the rounded number. */
  lemma SmartExponent(m: nat, e2: int, k: nat, alternate: bool, upper: bool)
    requires k >= 1 && !(-4 <= Significant(m, e2, k - 1).1 < k)
    ensures var (n, x) := Significant(m, e2, k - 1);
            var r := Read(SmartText(m, e2, k, alternate, upper), 10);
            r.Reading? && r.exponent == x
  {
    hide *;
    var (n, x) := Significant(m, e2, k - 1);
    SmartIs(m, e2, k, alternate, upper);
    SignificantSmall(m, e2, k - 1);
    DroppedSame(n, k - 1, alternate, x);
    var (n', p) := MaybeDrop(n, k - 1, alternate);
    ScientificReads(n', x, p, alternate, upper);
  }

  lemma SmartlyIs(body: seq<char>, n: nat, x: int, k: nat, alternate: bool, upper: bool)
    requires var r := Read(body, 10);
             && r.Reading? && SameDecimal(r.number, r.exponent - r.places, n, x - (k - 1))
             && (alternate ==> r.places == if -4 <= x < k then k - 1 - x else k - 1)
             && (!alternate && r.places > 0 ==> r.number % 10 != 0)
             && (if -4 <= x < k then r.exponent == 0 && Plain(body, r.places > 0 || alternate)
                 else
                   && r.exponent == x
                   && WithExponent(body, r.places, r.places > 0 || alternate, if upper then 'E' else 'e', x, 2))
    ensures SmartlyPut(body, n, x, k, alternate, upper)
  {
    hide Read, SameDecimal, Plain, WithExponent;
    assert x - (k - 1) == x - k + 1;
  }

  lemma SmartFound(body: seq<char>, m: nat, e2: int, k: nat, alternate: bool, upper: bool, n: nat, x: int)
    requires k >= 1 && Leading(n, x, m, e2, k - 1) && SmartlyPut(body, n, x, k, alternate, upper)
    ensures SmartShown(body, m, e2, k, alternate, upper)
  {
    hide Leading, SmartlyPut;
  }

  lemma HexBody(m: nat, e2: int, bits: nat, precision: int, alternate: bool, upper: bool)
    requires bits % 4 == 0 && m < Pow(16, bits / 4 + 1) && precision >= -1
    ensures var (n, e, p) := HexParts(m, e2, bits, precision);
            HexShown(HexText(n, e, p, alternate, upper), m, e2, bits, precision, alternate, upper)
  {
    hide *;
    Radices();
    var (n, e, p) := HexParts(m, e2, bits, precision);
    var e0 := if m > 0 then e2 + bits else 0;
    HexMeans(m, e2, bits, precision, alternate, upper);
    HexSmall(m, e2, bits, precision);
    RemIs(n, 16);
    HexEqualsIs(n, e, p, m, e0, bits, precision, HexNearest(m, bits, p));
    NumeralReads(Abs(e), 10, false);
    NumeralLong(Abs(e));
    var letter := if upper then 'P' else 'p';
    MantissaShape(n, 16, p, alternate, upper, letter, e, Numeral(Abs(e), 10, false), 1);
    HexTextIs(n, e, p, alternate, upper);
    HexShownIs(HexText(n, e, p, alternate, upper), m, e2, bits, precision, alternate, upper);
  }

  lemma NumeralLong(v: nat)
    ensures IsRadix(10) && |Numeral(v, 10, false)| >= 1
  {
  }

  lemma HexTextIs(n: nat, e: int, p: nat, alternate: bool, upper: bool)
    ensures IsRadix(16) && IsRadix(10)
    ensures HexText(n, e, p, alternate, upper) ==
            MantissaText(n, 16, p, alternate, upper) +
            ([if upper then 'P' else 'p'] + SignOf(e) + Numeral(Abs(e), 10, false))
  {
    hide MantissaText, Numeral;
  }

  lemma HexSmall(m: nat, e2: int, bits: nat, precision: int)
    requires bits % 4 == 0 && m < Pow(16, bits / 4 + 1) && precision >= -1
    ensures var (n, e, p) := HexParts(m, e2, bits, precision);
            n < Pow(16, p + 1)
  {
    hide *;
    HexPartsAre(m, e2, bits, precision);
    var (n, e, p) := HexParts(m, e2, bits, precision);
    if precision < 0 {
      HexExact(m, bits);
    } else {
      HexNearestMeans(m, bits, p);
      SixteenTimes(p);
    }
  }

  lemma HexEqualsIs(n: nat, e: int, p: nat, m: nat, e0: int, bits: nat, precision: int, k: nat)
    requires precision < 0 ==>
               e == e0 && 4 * p <= bits && m == Mul(n, Pow(2, bits - 4 * p)) && (p > 0 ==> n % 16 != 0)
    requires precision >= 0 ==>
               && p == precision && IsHalfEven(k, Mul(m, Twos(4 * p - bits)), Twos(bits - 4 * p))
               && ((n == k && e == e0) || (16 * n == k && e == e0 + 4))
    ensures HexEquals(n, e, p, m, e0, bits, precision)
  {
    hide Mul, Pow, IsHalfEven, Twos;
  }

  lemma HexShownIs(body: seq<char>, m: nat, e2: int, bits: nat, precision: int, alternate: bool, upper: bool)
    requires IsRadix(16)
    requires var r := Read(body, 16);
             && r.Reading? && r.number < Pow(16, r.places + 1)
             && HexEquals(r.number, r.exponent, r.places, m, if m > 0 then e2 + bits else 0, bits, precision)
             && WithExponent(body, r.places, r.places > 0 || alternate, if upper then 'P' else 'p', r.exponent, 1)
             && var d := if r.places > 0 || alternate then 2 else 1;
                && |body| >= d + r.places
                && AreDigits(body[..1], 16, upper) && AreDigits(body[d..d + r.places], 16, upper)
    ensures HexShown(body, m, e2, bits, precision, alternate, upper)
  {
    hide Read, HexEquals, AreDigits, Pow;
  }

  /** Every floating-point conversion says its argument, sign and all. */
  lemma FloatTextMeans(v: Real, state: State)
    requires Splits(v) && state.precision >= -1 && state.specifier in {Float, Scientific, Smart, HexFloat}
    ensures RealShown(FloatText(v, state), v,
                      match state.specifier {
                        case Float => FixedStyle
                        case Scientific => ScientificStyle
                        case Smart => SmartStyle
                        case _ => HexStyle
                      }, state.upper, MannerOf(state))
  {
    hide Field, Padded, FloatBody, BodyShown;
    var body := FloatBody(v, state);
    FieldPadded(state, FloatPrefix(v, state), body, state.flags.leadingZeros && v.Finite?);
    FloatBodyMeans(v, state);
    assert FloatPrefix(v, state) + [] == FloatPrefix(v, state);
  }

  lemma FloatBodyMeans(v: Real, state: State)
    requires Splits(v) && state.precision >= -1 && state.specifier in {Float, Scientific, Smart, HexFloat}
    ensures BodyShown(FloatBody(v, state), v,
                      match state.specifier {
                        case Float => FixedStyle
                        case Scientific => ScientificStyle
                        case Smart => SmartStyle
                        case _ => HexStyle
                      }, state.upper, MannerOf(state))
  {
    hide FixedShown, ScientificShown, SmartShown, HexShown, FixedText, ScientificText, SmartText, HexText;
    hide Nearest, Significant, HexParts, Pow;
    match v
    case Infinite(_) =>
    case NotANumber(_) =>
    case Finite(_, m, e2, bits) =>
      var p := if state.precision < 0 then 6 else state.precision;
      FixedBody(m, e2, p, state.flags.alternate);
      ScientificBody(m, e2, p, state.flags.alternate, state.upper);
      SmartBody(m, e2, if p == 0 then 1 else p, state.flags.alternate, state.upper);
      HexBody(m, e2, bits, state.precision, state.flags.alternate, state.upper);
  }
}
