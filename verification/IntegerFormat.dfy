/** The integer conversions of fprintf: %d, %i, %u, %o, %x, %X and %p. */
module IntegerFormat {
  import opened Arith
  import opened Numerals
  import opened Resumable
  import opened Sinks

  // ----- What an integer conversion prints

  /** The signed reading of a 64-bit pattern. */
  function SignedOf(u: uint64): int {
    if u >= 0x8000_0000_0000_0000 then u - 0x1_0000_0000_0000_0000 else u
  }

  function Base(specifier: Specifier): (r: nat)
    ensures IsRadix(r)
  {
    match specifier
    case Octal => 8
    case Hex => 16
    case Pointer => 16
    case _ => 10
  }

  /** The number whose digits are printed. */
  function Magnitude(u: uint64, specifier: Specifier): (v: uint64)
    ensures specifier == SignedDecimal ==> v == Abs(SignedOf(u))
    ensures specifier != SignedDecimal ==> v == u
  {
    if specifier == SignedDecimal && SignedOf(u) < 0 then -SignedOf(u) else u
  }

  /** The character a signed conversion puts in front, if any. */
  function SignText(flags: Flags, negative: bool): (s: string)
    ensures |s| <= 1
  {
    if negative then "-" else if flags.showSign then "+" else if flags.spaceIfNoSign then " " else ""
  }

  function IntegerDigits(u: uint64, state: State): seq<char> {
    var v := Magnitude(u, state.specifier);
    if v == 0 && state.precision == 0 then [] else Numeral(v, Base(state.specifier), state.upper)
  }

  /** Zeros that fill the precision up, or make an alternate octal start with zero. */
  function IntegerZeros(u: uint64, state: State): nat {
    var digits := IntegerDigits(u, state);
    if state.precision > 0 && state.precision > |digits| then state.precision - |digits|
    else if state.specifier == Octal && state.flags.alternate && (digits == [] || digits[0] != '0') then 1
    else 0
  }

  function IntegerPrefix(u: uint64, state: State): (s: string)
    ensures |s| <= 2
  {
    if state.specifier == SignedDecimal then SignText(state.flags, SignedOf(u) < 0)
    else if Base(state.specifier) == 16 && u != 0 && (state.flags.alternate || state.specifier == Pointer) then
      if state.upper then "0X" else "0x"
    else ""
  }

  /** The zeros and digits together. */
  function IntegerBody(u: uint64, state: State): seq<char> {
    Repeated('0', IntegerZeros(u, state)) + IntegerDigits(u, state)
  }

  function IntegerZeroPad(state: State): bool {
    state.flags.leadingZeros && state.precision == NOT_SPECIFIED
  }

  function IntegerText(u: uint64, state: State): seq<char> {
    Field(state, IntegerPrefix(u, state), IntegerBody(u, state), IntegerZeroPad(state))
  }

  /** Leading zeros do not change the number spelled. */
  lemma {:induction false} ZerosValue(n: nat, s: seq<char>, r: nat)
    requires IsRadix(r)
    ensures ValueOf(Repeated('0', n) + s, r) == ValueOf(s, r)
    decreases |s|, n
  {
    hide Mul, NatMul;
    var t := Repeated('0', n) + s;
    if s != [] {
      ZerosValue(n, s[..|s| - 1], r);
      assert t[..|t| - 1] == Repeated('0', n) + s[..|s| - 1];
    } else if n > 0 {
      ZerosValue(n - 1, s, r);
      assert t[..|t| - 1] == Repeated('0', n - 1) + s;
      MulOne(r);
    } else {
      assert t == s;
    }
  }

  /** The printed zeros and digits denote the magnitude, are at least as many as the precision asks, are
      missing altogether only for zero at precision zero, and start with zero in alternate octal. */
  lemma IntegerBodyDenotes(u: uint64, state: State)
    ensures ValueOf(IntegerBody(u, state), Base(state.specifier)) == Magnitude(u, state.specifier)
    ensures state.precision >= 0 ==> |IntegerBody(u, state)| >= state.precision
    ensures IntegerBody(u, state) == [] <==>
              u == 0 && state.precision == 0 && !(state.specifier == Octal && state.flags.alternate)
    ensures state.specifier == Octal && state.flags.alternate ==> IntegerBody(u, state)[0] == '0'
    ensures AreDigits(IntegerBody(u, state), Base(state.specifier), state.upper)
  {
    hide Numeral, ValueOf;
    var r, v := Base(state.specifier), Magnitude(u, state.specifier);
    ZerosValue(IntegerZeros(u, state), IntegerDigits(u, state), r);
    NumeralReads(v, r, state.upper);
    EmptyValue(r);
  }

  lemma EmptyValue(r: nat)
    ensures ValueOf([], r) == 0
  {
  }

  // ----- The conversion

  /** The digits of v at the end of a 24-byte buffer, moved to its front. */
  method DigitsOf(v: uint64, base: nat, hex_digits: string, ghost upper: bool) returns (digits: array<char>, n: nat)
    requires base in {8, 10, 16} && hex_digits == Table(upper)
    ensures fresh(digits) && n <= digits.Length && digits[..n] == Numeral(v, base, upper)
  {
    hide Numeral, Numerals.Length, Pow, Digits, Div, Mod, Mul;
    digits := new char[24];
    var i := 24;
    var value: uint64 := v;
    ShortNumeral(v, base, upper);
    ghost var text := Numeral(v, base, upper);
    NumeralStep(value, base, upper);
    while true
      invariant 0 < i <= 24 && 0 <= value
      invariant text == Numeral(value, base, upper) + digits[i..]
      decreases value
    {
      NumeralStep(value, base, upper);
      i := i - 1;
      digits[i] := hex_digits[value % base];
      ghost var rest := digits[i..];
      assert rest == [hex_digits[value % base]] + digits[i + 1..];
      value := value / base;
      if value == 0 {
        break;
      }
    }
    assert text == digits[i..];
    n := 24 - i;
    ShiftDown(digits, i, n);
  }

  /** The in-place move of the last n characters to the front. */
  method ShiftDown(digits: array<char>, i: nat, n: nat)
    requires i + n == digits.Length
    modifies digits
    ensures digits[..n] == old(digits[i..])
  {
    ghost var tail := digits[i..];
    var j := 0;
    while j < n
      invariant 0 <= j <= n
      invariant digits[..j] == tail[..j]
      invariant forall q :: j <= q < digits.Length ==> digits[q] == old(digits[q])
    {
      assert tail[j] == old(digits[i + j]);
      digits[j] := digits[i + j];
      j := j + 1;
    }
  }

  /** A 64-bit number has at most 22 digits. */
  lemma ShortNumeral(v: uint64, r: nat, upper: bool)
    requires r in {8, 10, 16}
    ensures |Numeral(v, r, upper)| <= 22
  {
    hide Numerals.Length, Pow, Digits;
    if v > 0 {
      LengthBounds(v, r);
      var n := Numerals.Length(v, r);
      if n > 22 {
        PowMono(r, 22, n - 1);
        PowBaseMono(8, r, 22);
        BinaryPowers(22);
        TwoPowers();
        PowMono(2, 64, 66);
      }
    }
  }

  /** fprintf_output_integer: padding, prefix, zeros, digits, padding. */
  method OutputInteger(sink: Sink, u: uint64, state: State) returns (ok: bool)
    requires sink.Valid() && state.specifier in {SignedDecimal, UnsignedDecimal, Octal, Hex, Pointer}
    modifies sink, sink.out, sink.out.buffer_
    ensures sink.Valid() && sink.Emitted(old(sink.out.Trace()), old(sink.count), IntegerText(u, state), ok)
  {
    hide Numeral, Streams.File.Valid, Streams.File.Trace, Traces.Sent, DigitChar;
    var hex_digits := if state.upper then "0123456789ABCDEF" else "0123456789abcdef";
    var negative := state.specifier == SignedDecimal && SignedOf(u) < 0;
    var value: uint64 := if negative then -SignedOf(u) else u;
    var base := if state.specifier == Octal then 8 else if state.specifier in {Hex, Pointer} then 16 else 10;

    var digits := new char[24];
    var n_digits := 0;
    if value != 0 || state.precision != 0 {
      digits, n_digits := DigitsOf(value, base, hex_digits, state.upper);
    }
    assert digits[..n_digits] == IntegerDigits(u, state);

    var zeros := 0;
    if state.precision > 0 && state.precision > n_digits {
      zeros := state.precision - n_digits;
    }
    var prefix := "";
    if state.specifier == SignedDecimal {
      prefix := Sign(state, negative);
    } else if state.specifier == Octal {
      if state.flags.alternate && zeros == 0 && (n_digits == 0 || digits[0] != '0') {
        zeros := 1;
      }
    } else if base == 16 && u != 0 && (state.flags.alternate || state.specifier == Pointer) {
      prefix := if state.upper then "0X" else "0x";
    }
    assert zeros == IntegerZeros(u, state) && prefix == IntegerPrefix(u, state);
    ok := OutputParts(sink, state, prefix, zeros, digits[..n_digits], state.flags.leadingZeros
        && state.precision == NOT_SPECIFIED);
  }

  /** fprintf_sign */
  method Sign(state: State, negative: bool) returns (sign: string)
    ensures sign == SignText(state.flags, negative)
  {
    if negative {
      return "-";
    }
    if state.flags.showSign {
      return "+";
    }
    if state.flags.spaceIfNoSign {
      return " ";
    }
    return "";
  }

  /** A field whose body is some zeros and then a text. */
  method OutputParts(sink: Sink, state: State, prefix: seq<char>, zeros: nat, digits: seq<char>, zero_pad: bool)
      returns (ok: bool)
    requires sink.Valid()
    modifies sink, sink.out, sink.out.buffer_
    ensures sink.Valid()
    ensures sink.Emitted(old(sink.out.Trace()), old(sink.count),
            Field(state, prefix, Repeated('0', zeros) + digits, zero_pad), ok)
  {
    hide *;
    var len := |prefix| + zeros + |digits|;
    ghost var before, c := sink.out.Trace(), sink.count;
    ghost var front, fill, back := FieldFront(state, len, prefix, zero_pad), Repeated('0', zeros),
        FieldBack(state, len);
    FieldIs(state, prefix, fill, digits, zero_pad);
    ok := sink.FieldBegin(state, len, prefix, zero_pad);
    if !ok {
      sink.EmittedStopped(before, c, front, fill + digits + back);
      return;
    }
    sink.EmittedParts(before, c, front, true);
    ghost var mid, k := sink.out.Trace(), sink.count;
    ok := sink.Repeat('0', zeros);
    sink.EmittedThen(before, c, front, mid, k, fill, ok);
    if !ok {
      sink.EmittedStopped(before, c, front + fill, digits + back);
      return;
    }
    sink.EmittedParts(before, c, front + fill, true);
    mid, k := sink.out.Trace(), sink.count;
    ok := sink.Bytes(digits);
    sink.EmittedThen(before, c, front + fill, mid, k, digits, ok);
    if !ok {
      sink.EmittedStopped(before, c, front + fill + digits, back);
      return;
    }
    sink.EmittedParts(before, c, front + fill + digits, true);
    mid, k := sink.out.Trace(), sink.count;
    ok := sink.FieldEnd(state, len);
    sink.EmittedThen(before, c, front + fill + digits, mid, k, back, ok);
  }

  lemma FieldIs(state: State, prefix: seq<char>, fill: seq<char>, digits: seq<char>, zeroPad: bool)
    ensures var len := |prefix| + |fill| + |digits|;
            var front, back := FieldFront(state, len, prefix, zeroPad), FieldBack(state, len);
            && Field(state, prefix, fill + digits, zeroPad) == front + fill + digits + back
            && front + fill + digits + back == front + (fill + digits + back) == front + fill + (digits + back)
  {
  }
}
