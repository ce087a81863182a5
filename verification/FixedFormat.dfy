/** The decimal styles of fprintf: %f and %e of a decimal that is already rounded. */
module FixedFormat {
  import opened Arith
  import opened Numerals
  import opened Resumable
  import opened DecimalText
  import opened Decimals
  import opened FloatTexts
  import opened Traces
  import opened Streams
  import opened Sinks
  import opened IntegerFormat

  // ----- Digits by place

  /** The digit at 10^power of s[0].s[1]s[2]... * 10^x. */
  function PlaceDigit(s: seq<char>, x: int, power: int): char {
    var i := x - power;
    if 0 <= i < |s| then s[i] else '0'
  }

  /** n digits from the one at 10^power downwards. */
  function Places(s: seq<char>, x: int, power: int, n: nat): (t: seq<char>)
    ensures |t| == n
  {
    seq(n, i requires 0 <= i < n => PlaceDigit(s, x, power - i))
  }

  function IntegerPlaces(s: seq<char>, x: int): (n: nat)
    ensures n >= 1
  {
    if s != [] && x > 0 then x + 1 else 1
  }

  /** All places down to 10^-p: zeros, the digits, zeros. */
  lemma PlacesShape(s: seq<char>, x: int, p: nat)
    requires s == [] || x + 1 - |s| >= -(p as int)
    ensures var k := IntegerPlaces(s, x);
            && Places(s, x, k - 1, k + p) == Places(s, x, k - 1, k) + Places(s, x, -1, p)
            && (s == [] ==> Places(s, x, k - 1, k + p) == Repeated('0', k + p))
            && (s != [] ==> Places(s, x, k - 1, k + p) ==
                              Repeated('0', if x < 0 then -x else 0) + (s + Repeated('0', x + 1 - |s| + p)))
            && (k > 1 ==> s != [] && Places(s, x, k - 1, k)[0] == s[0])
  {
    var k := IntegerPlaces(s, x);
    var t := Places(s, x, k - 1, k + p);
    assert t == Places(s, x, k - 1, k) + Places(s, x, -1, p);
    if s == [] {
      assert t == Repeated('0', k + p);
    } else {
      var a, z := if x < 0 then -x else 0, x + 1 - |s| + p;
      var u := Repeated('0', a) + (s + Repeated('0', z));
      assert |t| == |u|;
      forall i | 0 <= i < |t| ensures t[i] == u[i] {
        assert t[i] == PlaceDigit(s, x, k - 1 - i);
        PadAt(s, a, z, i);
      }
      assert t == u;
      if k > 1 {
        assert Places(s, x, k - 1, k)[0] == PlaceDigit(s, x, x) == s[0];
      }
    }
  }

  lemma PadAt(s: seq<char>, a: nat, z: nat, i: nat)
    requires i < a + |s| + z
    ensures (Repeated('0', a) + (s + Repeated('0', z)))[i] == if a <= i < a + |s| then s[i - a] else '0'
  {
  }

  lemma ZeroDigits(n: nat)
    ensures AreDigits(Repeated('0', n), 10, false) && ValueOf(Repeated('0', n), 10) == 0
  {
    ZerosValue(n, [], 10);
    assert Repeated('0', n) + [] == Repeated('0', n);
    DigitZero('0');
  }

  lemma PadValue(s: seq<char>, a: nat, z: nat)
    requires AreDigits(s, 10, false)
    ensures var t := Repeated('0', a) + (s + Repeated('0', z));
            AreDigits(t, 10, false) && ValueOf(t, 10) == Mul(ValueOf(s, 10), Pow(10, z))
  {
    hide *;
    Radices();
    ZeroDigits(a);
    ZeroDigits(z);
    ConcatDigits(s, Repeated('0', z));
    ConcatDigits(Repeated('0', a), s + Repeated('0', z));
    ZerosValue(a, s + Repeated('0', z), 10);
    ValueConcat(s, Repeated('0', z));
    RepeatedLength(z);
  }

  lemma RepeatedLength(n: nat)
    ensures |Repeated('0', n)| == n
  {
  }

  /** The places down to 10^-p of digits that denote n * 10^-p spell n. */
  lemma PlacesValue(s: seq<char>, x: int, p: nat, n: nat)
    requires Canonical(s) && Denotes(s, x, -(p as int), n)
    ensures var t := Places(s, x, IntegerPlaces(s, x) - 1, IntegerPlaces(s, x) + p);
            AreDigits(t, 10, false) && ValueOf(t, 10) == n
  {
    hide Mul, Pow, ValueOf, Places, Repeated, AreDigits;
    PlacesShape(s, x, p);
    if s == [] {
      ZeroDigits(IntegerPlaces(s, x) + p);
    } else {
      CanonicalParts(s);
      PadValue(s, if x < 0 then -x else 0, x + 1 - |s| + p);
    }
  }

  /** Digits cut p places before the end: the numeral of the integer part and the p low digits. */
  lemma CutNumeral(h: seq<char>, t: seq<char>, n: nat, alternate: bool)
    requires AreDigits(h + t, 10, false) && ValueOf(h + t, 10) == n && h != [] && (h[0] == '0' ==> |h| == 1)
    ensures FixedText(n, |t|, alternate) == h + Point(|t|, alternate) + t
  {
    hide *;
    Radices();
    var p := |t|;
    assert (h + t)[0..|h|] == h && (h + t)[|h|..|h + t|] == t;
    SliceDigits(h + t, 0, |h|);
    SliceDigits(h + t, |h|, |h + t|);
    ValueConcat(h, t);
    DecimalBound(t);
    FixedIs(n, p, alternate);
    PowPositive(10, p);
    DivModUnique(n, ValueOf(h, 10), ValueOf(t, 10), Pow(10, p));
    NumeralUnique(h, 10, false);
    DigitsOfValue(t, 10, false);
    DigitsMod(n, 10, p, p, false);
  }

  /** What fp_output_fixed prints, digit by digit, is the fixed text. */
  lemma FixedPlaces(s: seq<char>, x: int, p: nat, n: nat, alternate: bool)
    requires Canonical(s) && Denotes(s, x, -(p as int), n)
    ensures var k := IntegerPlaces(s, x);
            FixedText(n, p, alternate) == Places(s, x, k - 1, k) + Point(p, alternate) + Places(s, x, -1, p)
  {
    hide Mul, Pow, ValueOf, Places, Repeated, AreDigits, FixedText;
    PlacesValue(s, x, p, n);
    PlacesShape(s, x, p);
    var k := IntegerPlaces(s, x);
    CutNumeral(Places(s, x, k - 1, k), Places(s, x, -1, p), n, alternate);
  }

  // ----- %f

  /** The digits from 10^(int_digits - 1) down to the units. */
  method OutputWhole(sink: Sink, dec: Decimal, int_digits: nat) returns (ok: bool)
    requires sink.Valid() && dec.Valid() && dec.digits != sink.out.buffer_
    modifies sink, sink.out, sink.out.buffer_
    ensures sink.Valid() && dec.Valid() && dec.Text() == old(dec.Text()) && dec.exp10 == old(dec.exp10)
    ensures sink.Emitted(old(sink.out.Trace()), old(sink.count),
            Places(dec.Text(), dec.exp10, int_digits - 1, int_digits), ok)
  {
    hide File.Valid, File.Trace, Sent, Canonical;
    ghost var before, c := sink.out.Trace(), sink.count;
    ghost var s, x := dec.Text(), dec.exp10;
    var power: int := int_digits - 1;
    sink.EmittedNothing();
    assert Places(s, x, int_digits - 1, 0) == [];
    while power >= 0
      invariant -1 <= power < int_digits
      invariant sink.Valid() && dec.Valid() && dec.Text() == s && dec.exp10 == x
      invariant sink.Emitted(before, c, Places(s, x, int_digits - 1, int_digits - 1 - power), true)
    {
      ghost var done := Places(s, x, int_digits - 1, int_digits - 1 - power);
      var digit := dec.DigitAt(power);
      assert digit == PlaceDigit(s, x, power);
      ok := sink.More([digit], before, c, done);
      assert done + [digit] == Places(s, x, int_digits - 1, int_digits - power);
      if !ok {
        sink.EmittedStopped(before, c, done + [digit], Places(s, x, power - 1, power));
        assert done + [digit] + Places(s, x, power - 1, power) == Places(s, x, int_digits - 1, int_digits);
        return;
      }
      power := power - 1;
    }
    ok := true;
  }

  lemma ZeroPlaces(s: seq<char>, x: int, power: int, n: nat)
    requires x - power >= |s|
    ensures Places(s, x, power, n) == Repeated('0', n)
  {
    var t := Places(s, x, power, n);
    forall i | 0 <= i < n ensures t[i] == '0' {
      assert t[i] == PlaceDigit(s, x, power - i);
    }
    assert t == Repeated('0', n);
  }

  /** The p digits behind the point; past the last significant one only zeros remain. */
  method OutputFraction(sink: Sink, dec: Decimal, precision: nat) returns (ok: bool)
    requires sink.Valid() && dec.Valid() && dec.digits != sink.out.buffer_
    modifies sink, sink.out, sink.out.buffer_
    ensures sink.Valid() && dec.Valid() && dec.Text() == old(dec.Text()) && dec.exp10 == old(dec.exp10)
    ensures sink.Emitted(old(sink.out.Trace()), old(sink.count), Places(dec.Text(), dec.exp10, -1, precision), ok)
  {
    hide File.Valid, File.Trace, Sent, Canonical;
    ghost var before, c := sink.out.Trace(), sink.count;
    ghost var s, x := dec.Text(), dec.exp10;
    ghost var all := Places(s, x, -1, precision);
    var power := -1;
    sink.EmittedNothing();
    assert Places(s, x, -1, 0) == [];
    while power >= -(precision as int)
      invariant -1 >= power >= -1 - precision
      invariant sink.Valid() && dec.Valid() && dec.Text() == s && dec.exp10 == x
      invariant sink.Emitted(before, c, Places(s, x, -1, -1 - power), true)
    {
      ghost var done, left := Places(s, x, -1, -1 - power), Places(s, x, power, precision + power + 1);
      assert done + left == all;
      if dec.exp10 - power >= dec.count {
        dec.Parts();
        ZeroPlaces(s, x, power, precision + power + 1);
        sink.EmittedParts(before, c, done, true);
        ghost var mid, k := sink.out.Trace(), sink.count;
        ok := sink.Repeat('0', precision + power + 1);
        sink.EmittedThen(before, c, done, mid, k, left, ok);
        return;
      }
      var digit := dec.DigitAt(power);
      assert digit == PlaceDigit(s, x, power);
      assert done + [digit] == Places(s, x, -1, -power);
      ok := sink.More([digit], before, c, done);
      if !ok {
        sink.EmittedStopped(before, c, done + [digit], Places(s, x, power - 1, precision + power));
        assert done + [digit] + Places(s, x, power - 1, precision + power) == all;
        return;
      }
      power := power - 1;
    }
    ok := true;
  }

  /** The digits of both sides, with the point between them. */
  method OutputPlaces(sink: Sink, dec: Decimal, int_digits: nat, point: bool, precision: nat) returns (ok: bool)
    requires sink.Valid() && dec.Valid() && dec.digits != sink.out.buffer_
    modifies sink, sink.out, sink.out.buffer_
    ensures sink.Valid()
    ensures var s, x := old(dec.Text()), old(dec.exp10);
            sink.Emitted(old(sink.out.Trace()), old(sink.count),
                         Places(s, x, int_digits - 1, int_digits) + (if point then "." else "")
                         + Places(s, x, -1, precision), ok)
  {
    hide *;
    ghost var s, x := dec.Text(), dec.exp10;
    ghost var before, c := sink.out.Trace(), sink.count;
    ghost var h, d, t := Places(s, x, int_digits - 1, int_digits), if point then "." else "",
        Places(s, x, -1, precision);
    assert h + (d + t) == h + d + t;
    ok := OutputWhole(sink, dec, int_digits);
    if !ok {
      sink.EmittedStopped(before, c, h, d + t);
      return;
    }
    assert !point ==> h + d == h;
    if point {
      ok := sink.More(".", before, c, h);
      if !ok {
        sink.EmittedStopped(before, c, h + d, t);
        return;
      }
    }
    ghost var mid, k := sink.out.Trace(), sink.count;
    sink.EmittedParts(before, c, h + d, true);
    ok := OutputFraction(sink, dec, precision);
    sink.EmittedThen(before, c, h + d, mid, k, t, ok);
  }

  /** fp_output_fixed: the value, rounded to precision places, in its field. */
  method OutputFixed(sink: Sink, state: State, dec: Decimal, precision: nat, prefix: string, ghost n: nat)
      returns (ok: bool)
    requires sink.Valid() && dec.Valid() && dec.digits != sink.out.buffer_
    requires Denotes(dec.Text(), dec.exp10, -(precision as int), n)
    modifies sink, sink.out, sink.out.buffer_
    ensures sink.Valid()
    ensures sink.Emitted(old(sink.out.Trace()), old(sink.count),
                         Field(state, prefix, FixedText(n, precision, state.flags.alternate),
                             state.flags.leadingZeros), ok)
  {
    hide *;
    ghost var s, x := dec.Text(), dec.exp10;
    dec.Parts();
    var point := precision > 0 || state.flags.alternate;
    var int_digits := if dec.count > 0 && dec.exp10 > 0 then dec.exp10 + 1 else 1;
    var len := |prefix| + int_digits + (if point then 1 else 0) + precision;
    FixedPlaces(s, x, precision, n, state.flags.alternate);
    IntegerPlacesIs(s, x);
    PointIs(precision, state.flags.alternate);
    ghost var body := FixedText(n, precision, state.flags.alternate);
    assert |prefix| + |body| == len;
    ghost var before, c := sink.out.Trace(), sink.count;
    ghost var zero_pad := state.flags.leadingZeros;
    ghost var front := FieldFront(state, len, prefix, zero_pad);
    FieldSplit(state, prefix, body, zero_pad);
    ok := sink.FieldBegin(state, len, prefix, state.flags.leadingZeros);
    if !ok {
      sink.FieldCut(before, c, state, prefix, body, zero_pad);
      return;
    }
    ghost var mid, k := sink.out.Trace(), sink.count;
    sink.EmittedParts(before, c, front, true);
    ok := OutputPlaces(sink, dec, int_digits, point, precision);
    sink.EmittedThen(before, c, front, mid, k, body, ok);
    if !ok {
      sink.FieldCut(before, c, state, prefix, body, zero_pad);
      return;
    }
    mid, k := sink.out.Trace(), sink.count;
    sink.EmittedParts(before, c, front + body, true);
    ok := sink.FieldEnd(state, len);
    sink.EmittedThen(before, c, front + body, mid, k, FieldBack(state, len), ok);
  }

  // ----- %e

  /** fp_count_digits */
  method NumeralLength(value: nat) returns (n: nat)
    ensures n == |Numeral(value, 10, false)|
  {
    hide *;
    Radices();
    n := 1;
    var v := value;
    while v >= 10
      invariant v >= 0 && n >= 1
      invariant |Numeral(value, 10, false)| == n - 1 + |Numeral(v, 10, false)|
    {
      NumeralStep(v, 10, false);
      v := v / 10;
      n := n + 1;
    }
    NumeralStep(v, 10, false);
  }

  /** The exponent part of %e, written backwards into a small buffer. */
  method ExponentSuffix(exp10: int, upper: bool) returns (suffix: seq<char>, exp_digits: nat)
    requires -100000 <= exp10 <= 100000
    ensures suffix == (if upper then "E" else "e") + SignOf(exp10) + TwoDigits(Abs(exp10))
    ensures exp_digits == |TwoDigits(Abs(exp10))|
  {
    hide *;
    Radices();
    SignOfIs(exp10);
    var exp_abs: nat := if exp10 < 0 then -exp10 else exp10;
    exp_digits := NumeralLength(exp_abs);
    if exp_digits < 2 {
      exp_digits := 2;
    }
    TwoDigitsAre(exp_abs);
    var exp_buf := new char[16];
    FillDigits(exp_buf, exp_abs, exp_digits);
    var i := 16 - exp_digits;
    PutSign(exp_buf, i, exp10, if upper then 'E' else 'e');
    suffix := exp_buf[i - 2..];
    assert suffix == (if upper then "E" else "e") + SignOf(exp10) + TwoDigits(Abs(exp10));
  }

  /** The sign and the letter in front of the exponent's digits. */
  method PutSign(exp_buf: array<char>, i: nat, exp: int, letter: char)
    requires 2 <= i <= exp_buf.Length
    modifies exp_buf
    ensures exp_buf[i - 2..] == [letter] + SignOf(exp) + old(exp_buf[i..])
  {
    ghost var digits := exp_buf[i..];
    exp_buf[i - 1] := if exp < 0 then '-' else '+';
    exp_buf[i - 2] := letter;
    assert exp_buf[i..] == digits;
    assert exp_buf[i - 2..] == [letter] + SignOf(exp) + digits;
  }

  /** n decimal digits of v at the end of a buffer. */
  method FillDigits(exp_buf: array<char>, v: nat, n: nat)
    requires n <= exp_buf.Length
    modifies exp_buf
    ensures IsRadix(10) && exp_buf[exp_buf.Length - n..] == Digits(v, 10, n, false)
  {
    hide *;
    Radices();
    var exp_abs := v;
    var i := exp_buf.Length;
    var d := 0;
    assert exp_buf[exp_buf.Length..] == [];
    while d < n
      invariant 0 <= d <= n && i == exp_buf.Length - d && exp_abs >= 0
      invariant Digits(v, 10, n, false) == Digits(exp_abs, 10, n - d, false) + exp_buf[i..]
    {
      DigitsStep(exp_abs, n - d);
      i := i - 1;
      exp_buf[i] := ('0' as int + exp_abs % 10) as char;
      exp_abs := exp_abs / 10;
      assert exp_buf[i..] == [exp_buf[i]] + exp_buf[i + 1..];
      d := d + 1;
    }
    NoDigits(exp_abs);
  }

  lemma SignOfIs(x: int)
    ensures SignOf(x) == (if x < 0 then "-" else "+") && Abs(x) == if x < 0 then -x else x
  {
  }

  lemma TwoDigitsAre(v: nat)
    requires v <= 100000
    ensures var n := |Numeral(v, 10, false)|;
            var k := if n < 2 then 2 else n;
            TwoDigits(v) == Digits(v, 10, k, false) && k <= 9
  {
    hide Pow, Digits, ValueOf, AreDigits;
    if v >= 10 {
      NineDigits(v);
      LengthBounds(v, 10);
      PowStep(10, 0);
    } else if v > 0 {
      PowStep(10, 0);
      LengthIs(v, 10, 1);
    }
  }

  /** Digits that denote n * 10^(x - p), filled up with zeros to p + 1, are the digits of n. */
  lemma FilledUp(s: seq<char>, x: int, p: nat, n: nat)
    requires Canonical(s) && Denotes(s, x, x - p, n)
    ensures |s| <= p + 1 && n < Pow(10, p + 1)
    ensures Digits(n, 10, p + 1, false) == s + Repeated('0', p + 1 - |s|)
    ensures n == 0 <==> s == []
  {
    hide Mul, Pow, ValueOf, Digits, Repeated, AreDigits;
    var z := p + 1 - |s|;
    var t := s + Repeated('0', z);
    PadValue(s, 0, z);
    RepeatedLength(0);
    assert Repeated('0', 0) + t == t;
    DecimalBound(t);
    RepeatedLength(z);
    DigitsOfValue(t, 10, false);
    if s == [] {
      EmptyIsZero();
      MulOne(Pow(10, z));
    } else {
      PositiveValue(s);
      PowPositive(10, z);
      MulSign(ValueOf(s, 10), Pow(10, z));
    }
  }

  /** The digits of %e: the first, a point, the others, zeros. */
  method OutputMantissa(sink: Sink, dec: Decimal, point: bool, precision: nat, ghost n: nat, alternate: bool)
      returns (ok: bool)
    requires sink.Valid() && dec.Valid() && dec.digits != sink.out.buffer_
    requires Denotes(dec.Text(), dec.exp10, dec.exp10 - precision, n) && point == (precision > 0 || alternate)
    modifies sink, sink.out, sink.out.buffer_
    ensures sink.Valid()
    ensures sink.Emitted(old(sink.out.Trace()), old(sink.count), MantissaText(n, 10, precision, alternate, false), ok)
  {
    hide *;
    Radices();
    dec.Parts();
    ghost var s := dec.Text();
    ghost var before, c := sink.out.Trace(), sink.count;
    FilledUp(s, dec.exp10, precision, n);
    MantissaIs(n, 10, precision, alternate, false);
    PointIs(precision, alternate);
    ghost var all := Digits(n, 10, precision + 1, false);
    var first := if dec.count > 0 then dec.digits[0] else '0';
    var frac_digits: int := if dec.count - 1 < precision then dec.count - 1 else precision;
    var more := if frac_digits > 0 then dec.digits[1..1 + frac_digits] else [];
    if frac_digits < 0 {
      frac_digits := 0;
    }
    SplitDigits(s, all, precision);
    ghost var rest := more + Repeated('0', precision - frac_digits);
    assert all[..1] == [first] && all[1..] == rest;
    ghost var done, left := [first], Point(precision, alternate) + rest;
    assert done + left == MantissaText(n, 10, precision, alternate, false);
    ok := sink.PutChar(first);
    if !ok {
      sink.EmittedStopped(before, c, done, left);
      return;
    }
    if point {
      ok := sink.More(".", before, c, done);
      done, left := done + ".", rest;
      if !ok {
        sink.EmittedStopped(before, c, done, left);
        return;
      }
    }
    assert done + rest == MantissaText(n, 10, precision, alternate, false);
    ghost var mid, k := sink.out.Trace(), sink.count;
    sink.EmittedParts(before, c, done, true);
    ok := OutputPadded(sink, more, precision - frac_digits);
    sink.EmittedThen(before, c, done, mid, k, rest, ok);
  }

  /** Bytes, if any, and then zeros. */
  method OutputPadded(sink: Sink, str: seq<char>, zeros: nat) returns (ok: bool)
    requires sink.Valid()
    modifies sink, sink.out, sink.out.buffer_
    ensures sink.Valid() && sink.Emitted(old(sink.out.Trace()), old(sink.count), str + Repeated('0', zeros), ok)
  {
    hide *;
    if |str| == 0 {
      assert str + Repeated('0', zeros) == Repeated('0', zeros);
      ok := sink.Repeat('0', zeros);
      return;
    }
    ok := sink.BytesThenRepeat(str, '0', zeros);
  }

  lemma SplitDigits(s: seq<char>, all: seq<char>, p: nat)
    requires |s| <= p + 1 && all == s + Repeated('0', p + 1 - |s|)
    ensures s == [] ==> all[..1] == "0" && all[1..] == [] + Repeated('0', p)
    ensures s != [] ==> all[..1] == [s[0]] && all[1..] == s[1..] + Repeated('0', p + 1 - |s|)
  {
  }

  /** The digits, then the exponent. */
  method OutputScientific(sink: Sink, dec: Decimal, point: bool, precision: nat, suffix: seq<char>, ghost n: nat,
      alternate: bool)
      returns (ok: bool)
    requires sink.Valid() && dec.Valid() && dec.digits != sink.out.buffer_
    requires Denotes(dec.Text(), dec.exp10, dec.exp10 - precision, n) && point == (precision > 0 || alternate)
    modifies sink, sink.out, sink.out.buffer_
    ensures sink.Valid() && IsRadix(10)
    ensures sink.Emitted(old(sink.out.Trace()), old(sink.count),
            MantissaText(n, 10, precision, alternate, false) + suffix, ok)
  {
    hide *;
    Radices();
    ghost var before, c, h := sink.out.Trace(), sink.count, MantissaText(n, 10, precision, alternate, false);
    ok := OutputMantissa(sink, dec, point, precision, n, alternate);
    if !ok {
      sink.EmittedStopped(before, c, h, suffix);
      return;
    }
    ok := sink.More(suffix, before, c, h);
  }

  /** fp_output_exponent: the value, rounded to precision + 1 digits, in its field. */
  method OutputExponent(sink: Sink, state: State, dec: Decimal, precision: nat, prefix: string, ghost n: nat)
      returns (ok: bool)
    requires sink.Valid() && dec.Valid() && dec.digits != sink.out.buffer_
    requires Denotes(dec.Text(), dec.exp10, dec.exp10 - precision, n) && -100000 <= dec.exp10 <= 100000
    modifies sink, sink.out, sink.out.buffer_
    ensures sink.Valid()
    ensures sink.Emitted(old(sink.out.Trace()), old(sink.count),
                         Field(state, prefix,
                             ScientificText(n, if n == 0 then 0 else old(dec.exp10), precision,
                                 state.flags.alternate, state.upper),
                               state.flags.leadingZeros), ok)
  {
    hide *;
    Radices();
    var alternate := state.flags.alternate;
    var point := precision > 0 || alternate;
    var exp10 := if dec.count > 0 then dec.exp10 else 0;
    dec.Parts();
    FilledUp(dec.Text(), dec.exp10, precision, n);
    var suffix, exp_digits := ExponentSuffix(exp10, state.upper);
    var len := |prefix| + 1 + (if point then 1 else 0) + precision + 2 + exp_digits;
    ghost var body := ScientificText(n, exp10, precision, alternate, state.upper);
    ghost var zero_pad, before, c := state.flags.leadingZeros, sink.out.Trace(), sink.count;
    ScientificIs(n, exp10, precision, alternate, state.upper);
    ghost var front := FieldFront(state, len, prefix, zero_pad);
    FieldSplit(state, prefix, body, zero_pad);
    ok := sink.FieldBegin(state, len, prefix, state.flags.leadingZeros);
    if !ok {
      sink.FieldCut(before, c, state, prefix, body, zero_pad);
      return;
    }
    ghost var mid, k := sink.out.Trace(), sink.count;
    sink.EmittedParts(before, c, front, true);
    ok := OutputScientific(sink, dec, point, precision, suffix, n, alternate);
    sink.EmittedThen(before, c, front, mid, k, body, ok);
    if !ok {
      sink.FieldCut(before, c, state, prefix, body, zero_pad);
      return;
    }
    mid, k := sink.out.Trace(), sink.count;
    sink.EmittedParts(before, c, front + body, true);
    ok := sink.FieldEnd(state, len);
    sink.EmittedThen(before, c, front + body, mid, k, FieldBack(state, len), ok);
  }

  lemma ScientificIs(n: nat, x: int, p: nat, alternate: bool, upper: bool)
    ensures var h, tail := MantissaText(n, 10, p, alternate, false),
            (if upper then "E" else "e") + SignOf(x) + TwoDigits(Abs(x));
            && ScientificText(n, x, p, alternate, upper) == h + tail
            && |h| == 1 + (if p > 0 || alternate then 1 else 0) + p && |tail| == 2 + |TwoDigits(Abs(x))|
  {
    hide Digits, TwoDigits;
  }

  lemma IntegerPlacesIs(s: seq<char>, x: int)
    ensures IntegerPlaces(s, x) == if |s| > 0 && x > 0 then x + 1 else 1
  {
  }

  lemma PointIs(p: nat, alternate: bool)
    ensures Point(p, alternate) == if p > 0 || alternate then "." else ""
  {
  }
}
