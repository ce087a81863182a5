/** fprintf: a cursor over the format, an argument list, and the conversions. */
module Printf {
  import opened Arith
  import opened Numerals
  import opened Resumable
  import opened Traces
  import opened Streams
  import opened Sinks
  import opened IntegerFormat
  import opened FloatTexts
  import opened FloatFormat
  import opened Formats
  import opened Rendering

  /** The character under the cursor; a zero ends the format. */
  function At(format: seq<char>, str: nat): char {
    if str < |format| then format[str] else '\0'
  }

  /** A format without a zero inside. */
  predicate IsFormat(format: seq<char>) {
    '\0' !in format
  }

  lemma RestAt(format: seq<char>, str: nat)
    requires IsFormat(format) && str <= |format|
    ensures At(format, str) == '\0' <==> str == |format|
    ensures str < |format| ==> format[str..] != [] && format[str..][0] == At(format, str)
    ensures str == |format| ==> format[str..] == []
    ensures str < |format| ==> format[str..][1..] == format[str + 1..]
  {
  }

  // ----- Parsing at the cursor

  /** get_fprintf_flags */
  method GetFlags(format: seq<char>, start: nat) returns (flags: Flags, str: nat)
    requires IsFormat(format) && start <= |format|
    ensures str == start + FlagRun(format[start..]) && flags == FlagsOf(format[start..str])
  {
    hide *;
    str := start;
    flags := Flags(false, false, false, false, false);
    NoFlags(format[start..start]);
    while IsFlag(At(format, str))
      invariant start <= str <= |format|
      invariant FlagRun(format[start..]) == str - start + FlagRun(format[str..])
      invariant flags == FlagsOf(format[start..str])
      decreases |format| - str
    {
      RestAt(format, str);
      ZeroChar();
      OneFlag(format, start, str);
      match At(format, str) {
        case '-' => flags := flags.(leftAlign := true);
        case '+' => flags := flags.(showSign := true);
        case ' ' => flags := flags.(spaceIfNoSign := true);
        case '0' => flags := flags.(leadingZeros := true);
        case _ => flags := flags.(alternate := true);
      }
      str := str + 1;
    }
    NoMoreFlags(format, str);
  }

  lemma NoFlags(s: seq<char>)
    ensures |s| == 0 ==> FlagsOf(s) == Flags(false, false, false, false, false)
  {
  }

  lemma ZeroChar()
    ensures !IsFlag('\0') && !IsSpecifier('\0')
  {
  }

  lemma OneFlag(format: seq<char>, start: nat, str: nat)
    requires start <= str < |format| && IsFlag(format[str])
    ensures FlagRun(format[str..]) == 1 + FlagRun(format[str + 1..])
    ensures var old_flags, c := FlagsOf(format[start..str]), format[str];
            && FlagsOf(format[start..str + 1]) ==
                 (match c
                  case '-' => old_flags.(leftAlign := true)
                  case '+' => old_flags.(showSign := true)
                  case ' ' => old_flags.(spaceIfNoSign := true)
                  case '0' => old_flags.(leadingZeros := true)
                  case _ => old_flags.(alternate := true))
  {
    assert format[start..str + 1] == format[start..str] + [format[str]];
    assert format[str..][1..] == format[str + 1..];
  }

  lemma NoMoreFlags(format: seq<char>, str: nat)
    requires str <= |format| && !IsFlag(At(format, str))
    ensures FlagRun(format[str..]) == 0
  {
  }

  /** parse_number */
  method ParseNumber(format: seq<char>, start: nat) returns (value: nat, str: nat)
    requires IsFormat(format) && start <= |format|
    ensures str == start + DigitRun(format[start..], 10) && value == ValueOf(format[start..str], 10)
  {
    hide *;
    value := 0;
    str := start;
    NoDigits(format[start..start]);
    while '0' <= At(format, str) <= '9'
      invariant start <= str <= |format| && value >= 0
      invariant DigitRun(format[start..], 10) == str - start + DigitRun(format[str..], 10)
      invariant value == ValueOf(format[start..str], 10)
      decreases |format| - str
    {
      RestAt(format, str);
      OneDigitMore(format, start, str);
      value := value * 10 + (At(format, str) as int - '0' as int);
      str := str + 1;
    }
    NoMoreDigits(format, str);
  }

  lemma NoDigits(s: seq<char>)
    ensures |s| == 0 ==> ValueOf(s, 10) == 0
  {
  }

  lemma OneDigitMore(format: seq<char>, start: nat, str: nat)
    requires start <= str < |format| && '0' <= format[str] <= '9'
    ensures At(format, str) == format[str]
    ensures DigitRun(format[str..], 10) == 1 + DigitRun(format[str + 1..], 10)
    ensures ValueOf(format[start..str + 1], 10) ==
            ValueOf(format[start..str], 10) * 10 + (format[str] as int - '0' as int)
  {
    hide Mul;
    var s := format[start..str + 1];
    assert s[..|s| - 1] == format[start..str];
    assert format[str..][1..] == format[str + 1..];
    MulConst(ValueOf(format[start..str], 10));
  }

  lemma NoMoreDigits(format: seq<char>, str: nat)
    requires str <= |format| && !('0' <= At(format, str) <= '9')
    ensures DigitRun(format[str..], 10) == 0
  {
  }

  /** get_length_modifier */
  method GetLength(format: seq<char>, start: nat) returns (length: LengthModifier, str: nat)
    requires IsFormat(format) && start <= |format|
    ensures length == ReadLength(format[start..]) && str == start + |SpellLength(length)| <= |format|
  {
    var s := format[start..];
    str := start;
    match At(format, str) {
      case 'h' =>
        if At(format, str + 1) == 'h' {
          str := str + 1;
          length := CharLength;
        } else {
          length := ShortLength;
        }
      case 'l' =>
        if At(format, str + 1) == 'l' {
          str := str + 1;
          length := LongLongLength;
        } else {
          length := LongLength;
        }
      case 'z' => length := SizeLength;
      case 't' => length := PtrdiffLength;
      case 'j' => length := IntmaxLength;
      case 'L' => length := LongDoubleLength;
      case _ => return DefaultLength, str;
    }
    str := str + 1;
  }

  /** A width or a precision: from the arguments or from the format. */
  method GetAmount(format: seq<char>, start: nat, args: seq<Arg>, first: nat) returns (value: int, str: nat, next: nat)
    requires IsFormat(format) && start <= |format| && first <= |args|
    requires ReadAmount(format[start..]).Star? ==> AreInts(args[first..], 1)
    ensures var a := ReadAmount(format[start..]);
            && str == start + |SpellAmount(a)| <= |format| && next == first + Stars(a, Absent) <= |args|
            && value == WidthOf(a, args[first..])
  {
    hide *;
    RestAt(format, start);
    AmountIs(format[start..], args[first..]);
    str := start;
    next := first;
    if At(format, str) == '*' {
      str := str + 1;
      value := args[next].i;
      next := next + 1;
    } else {
      value, str := ParseNumber(format, str);
      assert format[start..str] == format[start..][..str - start];
    }
  }

  lemma AmountIs(s: seq<char>, args: seq<Arg>)
    requires ReadAmount(s).Star? ==> AreInts(args, 1)
    ensures var a := ReadAmount(s);
            && (s != [] && s[0] == '*' ==>
                  |args| > 0 && args[0].IntArg? && |SpellAmount(a)| == 1 && Stars(a, Absent) == 1
                      && WidthOf(a, args) == args[0].i)
            && (s == [] || s[0] != '*' ==>
                  |SpellAmount(a)| == DigitRun(s, 10) && Stars(a, Absent) == 0
                      && WidthOf(a, args) == ValueOf(s[..DigitRun(s, 10)], 10))
  {
  }

  /** get_format_specifier */
  method GetSpecifier(format: seq<char>, start: nat) returns (known: bool, specifier: Specifier, upper: bool, str: nat)
    requires IsFormat(format) && start <= |format|
    ensures known == IsSpecifier(At(format, start))
    ensures known ==> specifier == SpecifierOf(At(format, start)) && upper == ('A' <= At(format, start) <= 'Z')
    ensures str == (if known then start + 1 else start) <= |format|
  {
    str := start;
    specifier := Count;
    upper := false;
    var c := At(format, str);
    match c {
      case 'd' => specifier := SignedDecimal;
      case 'i' => specifier := SignedDecimal;
      case 'u' => specifier := UnsignedDecimal;
      case 'o' => specifier := Octal;
      case 'X' => specifier := Hex;
      case 'x' => specifier := Hex;
      case 'F' => specifier := Float;
      case 'f' => specifier := Float;
      case 'e' => specifier := Scientific;
      case 'E' => specifier := Scientific;
      case 'g' => specifier := Smart;
      case 'G' => specifier := Smart;
      case 'a' => specifier := HexFloat;
      case 'A' => specifier := HexFloat;
      case 'c' => specifier := Char;
      case 's' => specifier := String;
      case 'p' => specifier := Pointer;
      case 'n' => specifier := Count;
      case _ => return false, specifier, upper, str;
    }
    known := true;
    if 'A' <= c <= 'Z' {
      upper := true;
    }
    str := str + 1;
  }

  /** The pieces of a conversion by their places in the format. */
  lemma PiecesAt(format: seq<char>, start: nat, i1: nat, i2: nat, i3: nat, i4: nat, w: Amount, p: Amount,
      l: LengthModifier)
    requires IsFormat(format) && start <= i1 <= i2 <= i3 <= i4 <= |format|
    requires i1 == start + FlagRun(format[start..])
    requires w == ReadAmount(format[i1..]) && i2 == i1 + |SpellAmount(w)|
    requires p == ReadPrecision(format[i2..]) && i3 == i2 + |SpellPrecision(p)|
    requires l == ReadLength(format[i3..]) && i4 == i3 + |SpellLength(l)|
    ensures var item := ReadConversion(format[start..]);
            var f := format[start..i1];
            && item == (if IsSpecifier(At(format, i4)) then Conversion(f, w, p, l, At(format, i4))
                        else Unknown(f, w, p, l, if i4 < |format| then [format[i4]] else []))
            && start + |Spell(item)| - 1 == (if i4 < |format| then i4 + 1 else i4)
            && (IsSpecifier(At(format, i4)) ==> i4 < |format|)
  {
    hide *;
    ZeroChar();
    RestAt(format, i4);
    var s, f := format[start..], format[start..i1];
    assert s[..i1 - start] == f && |f| == i1 - start;
    assert s[i1 - start..] == format[i1..];
    assert format[i1..][i2 - i1..] == format[i2..];
    assert format[i2..][i3 - i2..] == format[i3..];
    assert format[i3..][i4 - i3..] == format[i4..];
    ConversionIs(s, format[i1..], format[i2..], format[i3..], format[i4..]);
    SpellLengths(f, w, p, l, At(format, i4));
  }

  /** Everything between a per cent sign and the end of its conversion. */
  method GetConversion(format: seq<char>, start: nat, args: seq<Arg>, first: nat)
      returns (known: bool, state: State, str: nat, next: nat)
    requires IsFormat(format) && start <= |format| && first <= |args|
    requires var item := ReadConversion(format[start..]);
             AreInts(args[first..], Stars(item.width, item.precision))
    ensures var item := ReadConversion(format[start..]);
            && known == item.Conversion? && str == start + |Spell(item)| - 1 <= |format|
            && next == first + Stars(item.width, item.precision) <= |args|
            && (known ==> IsSpecifier(item.specifier) && AreInts(args[first..], Stars(item.width, item.precision)) &&
                          state == StateOf(item, args[first..]))
  {
    hide *;
    ghost var item := ReadConversion(format[start..]);
    var flags, i1 := GetFlags(format, start);
    ghost var w := ReadAmount(format[i1..]);
    ghost var i2 := i1 + |SpellAmount(w)|;
    ghost var p := ReadPrecision(format[i2..]);
    ghost var i3 := i2 + |SpellPrecision(p)|;
    ghost var l := ReadLength(format[i3..]);
    ghost var i4 := i3 + |SpellLength(l)|;
    PiecesAt(format, start, i1, i2, i3, i4, w, p, l);
    StarsSplit(w, p, args, first);

    var width: int;
    width, str, next := GetAmount(format, i1, args, first);
    if width < 0 {
      width := -width;
      flags := flags.(leftAlign := true);
    }
    var precision: int := NOT_SPECIFIED;
    ghost var rest := args[next..];
    PrecisionIs(format, i2, rest);
    if At(format, str) == '.' {
      precision, str, next := GetAmount(format, str + 1, args, next);
      if precision < 0 {
        precision := NOT_SPECIFIED;
      }
    }
    assert precision == PrecisionOf(p, rest) && str == i3;
    assert next == first + Stars(w, p);
    if flags.leftAlign {
      flags := flags.(leadingZeros := false);
    }
    var length;
    length, str := GetLength(format, str);
    assert str == i4;
    var specifier, upper;
    known, specifier, upper, str := GetSpecifier(format, str);
    if known {
      StateIs(item, args[first..]);
    }
    state := State(flags, width, precision, length, specifier, upper);
    if !known {
      if str < |format| {
        str := str + 1;
      }
    }
  }

  lemma StarsSplit(w: Amount, p: Amount, args: seq<Arg>, first: nat)
    requires first <= |args| && AreInts(args[first..], Stars(w, p))
    ensures var k := Stars(w, Absent);
            && Stars(w, p) == k + Stars(p, Absent) && first + Stars(w, p) <= |args|
            && (w.Star? ==> AreInts(args[first..], 1))
            && args[first + k..] == args[first..][k..]
            && (p.Star? ==> AreInts(args[first + k..], 1))
            && (p == Absent ==> Stars(p, Absent) == 0)
  {
    var k := Stars(w, Absent);
    assert args[first + k..] == args[first..][k..];
    if p.Star? {
      assert args[first + k..][0] == args[first..][k];
    }
  }

  lemma PrecisionIs(format: seq<char>, str: nat, args: seq<Arg>)
    requires IsFormat(format) && str <= |format|
    requires var p := ReadPrecision(format[str..]);
             p.Star? ==> AreInts(args, 1)
    ensures var p := ReadPrecision(format[str..]);
            if At(format, str) == '.' then
              && str < |format| && p == ReadAmount(format[str + 1..]) && |SpellPrecision(p)| == 1 + |SpellAmount(p)|
              && PrecisionOf(p, args) == if WidthOf(p, args) < 0 then NOT_SPECIFIED else WidthOf(p, args)
            else p == Absent && |SpellPrecision(p)| == 0 && PrecisionOf(p, args) == NOT_SPECIFIED
  {
    hide ReadAmount, ValueOf;
    RestAt(format, str);
  }

  lemma StateIs(item: Item, args: seq<Arg>)
    requires item.Conversion? && IsSpecifier(item.specifier) && AreInts(args, Stars(item.width, item.precision))
    ensures item.width.Star? ==> AreInts(args, 1)
    ensures item.precision.Star? ==> AreInts(args[Stars(item.width, Absent)..], 1)
    ensures var flags, width := FlagsOf(item.flags), WidthOf(item.width, args);
            var left := flags.leftAlign || width < 0;
            StateOf(item, args) ==
              State(flags.(leftAlign := left, leadingZeros := flags.leadingZeros && !left),
                    if width < 0 then -width else width,
                    PrecisionOf(item.precision, args[Stars(item.width, Absent)..]),
                    item.length, SpecifierOf(item.specifier), 'A' <= item.specifier <= 'Z')
  {
    hide ValueOf, FlagsOf, SpecifierOf, IsSpecifier;
  }

  // ----- Strings

  lemma LengthStep<T>(s: seq<T>, zero: T, precision: int, n: nat)
    requires n <= |s| && Readable(s[n..], zero, if precision < 0 then precision else precision - n)
    requires precision < 0 || n <= precision
    ensures var p := if precision < 0 then precision else precision - n;
            if precision >= 0 && n >= precision then StringLength(s[n..], zero, p) == 0
            else
              && n < |s|
              && (s[n] == zero ==> StringLength(s[n..], zero, p) == 0)
              && (s[n] != zero ==>
                    var p' := if precision < 0 then precision else precision - (n + 1);
                    && StringLength(s[n..], zero, p) == 1 + StringLength(s[n + 1..], zero, p')
                    && Readable(s[n + 1..], zero, p'))
  {
    if n < |s| {
      assert s[n..][1..] == s[n + 1..];
      assert s[n..] == [s[n]] + s[n + 1..];
    }
  }

  lemma WholeString<T>(s: seq<T>)
    ensures s[0..] == s
  {
  }

  /** The length of a string: it is not read past the precision. */
  method BytesLength(str: seq<char>, precision: int) returns (len: nat)
    requires Readable(str, '\0', precision)
    ensures len == StringLength(str, '\0', precision)
  {
    hide *;
    len := 0;
    WholeString(str);
    LengthStep(str, '\0', precision, 0);
    while (precision < 0 || len < precision) && str[len] != '\0'
      invariant 0 <= len <= |str| && (precision < 0 || len <= precision)
      invariant (precision < 0 || len < precision) ==> len < |str|
      invariant Readable(str[len..], '\0', if precision < 0 then precision else precision - len)
      invariant StringLength(str, '\0', precision) ==
                  len + StringLength(str[len..], '\0', if precision < 0 then precision else precision - len)
      decreases |str| - len
    {
      LengthStep(str, '\0', precision, len);
      len := len + 1;
      LengthStep(str, '\0', precision, len);
    }
    LengthStep(str, '\0', precision, len);
  }

  /** The length of a wide string, unless a character in it is not ASCII. */
  method WideLength(str: seq<int>, precision: int) returns (ok: bool, len: nat)
    requires Readable(str, 0, precision)
    ensures ok ==> len == StringLength(str, 0, precision) && forall i :: 0 <= i < len ==> IsAscii(str[i])
    ensures !ok ==> len < StringLength(str, 0, precision) && !IsAscii(str[len])
  {
    hide *;
    len := 0;
    WholeString(str);
    LengthStep(str, 0, precision, 0);
    while (precision < 0 || len < precision) && str[len] != 0
      invariant 0 <= len <= |str| && (precision < 0 || len <= precision)
      invariant (precision < 0 || len < precision) ==> len < |str|
      invariant Readable(str[len..], 0, if precision < 0 then precision else precision - len)
      invariant StringLength(str, 0, precision) ==
                  len + StringLength(str[len..], 0, if precision < 0 then precision else precision - len)
      invariant forall i :: 0 <= i < len ==> IsAscii(str[i])
      decreases |str| - len
    {
      LengthStep(str, 0, precision, len);
      if !IsAscii(str[len]) {
        return false, len;
      }
      len := len + 1;
      LengthStep(str, 0, precision, len);
    }
    LengthStep(str, 0, precision, len);
    ok := true;
  }

  /** fprintf_output_wide_string: nothing is printed unless all of it can be. */
  method OutputWideString(sink: Sink, str: seq<int>, state: State) returns (ok: bool)
    requires sink.Valid() && Readable(str, 0, state.precision)
    modifies sink, sink.out, sink.out.buffer_
    ensures var o := RenderString(state, Wide(str));
            sink.Valid() && sink.Emitted(old(sink.out.Trace()), old(sink.count), o.text, ok || !o.ok) && (ok ==> o.ok)
  {
    hide *;
    ghost var before, c := sink.out.Trace(), sink.count;
    var ascii, len := WideLength(str, state.precision);
    if !ascii {
      WideFails(str, state, len);
      sink.CountBound();
      sink.EmittedNothing();
      return false;
    }
    WidePrints(str, state, len);
    ghost var body := Narrowed(str[..len]);
    ghost var front := FieldFront(state, len, "", false);
    FieldSplit(state, "", body, false);
    ok := sink.FieldBegin(state, len, "", false);
    if !ok {
      sink.FieldCut(before, c, state, "", body, false);
      return;
    }
    ghost var mid, k := sink.out.Trace(), sink.count;
    sink.EmittedParts(before, c, front, true);
    ok := OutputNarrowed(sink, str[..len]);
    sink.EmittedThen(before, c, front, mid, k, body, ok);
    if !ok {
      sink.FieldCut(before, c, state, "", body, false);
      return;
    }
    sink.EmittedParts(before, c, front + body, true);
    mid, k := sink.out.Trace(), sink.count;
    ok := sink.FieldEnd(state, len);
    sink.EmittedThen(before, c, front + body, mid, k, FieldBack(state, len), ok);
  }

  /** Wide characters one by one. */
  method OutputNarrowed(sink: Sink, str: seq<int>) returns (ok: bool)
    requires sink.Valid() && forall i :: 0 <= i < |str| ==> IsAscii(str[i])
    modifies sink, sink.out, sink.out.buffer_
    ensures sink.Valid() && sink.Emitted(old(sink.out.Trace()), old(sink.count), Narrowed(str), ok)
  {
    hide *;
    ghost var before, c, all := sink.out.Trace(), sink.count, Narrowed(str);
    sink.CountBound();
    sink.EmittedNothing();
    NarrowedIs(str);
    assert all[..0] == [];
    var i := 0;
    while i < |str|
      invariant 0 <= i <= |str| && sink.Valid() && sink.Emitted(before, c, all[..i], true)
    {
      assert all[..i] + [all[i]] == all[..i + 1];
      ok := sink.More([str[i] as char], before, c, all[..i]);
      if !ok {
        sink.EmittedStopped(before, c, all[..i + 1], all[i + 1..]);
        assert all[..i + 1] + all[i + 1..] == all;
        return;
      }
      i := i + 1;
    }
    assert all[..i] == all;
    ok := true;
  }

  lemma NarrowedIs(str: seq<int>)
    requires forall i :: 0 <= i < |str| ==> IsAscii(str[i])
    ensures |Narrowed(str)| == |str|
    ensures forall i :: 0 <= i < |str| ==> 0 <= str[i] < 0x80 && Narrowed(str)[i] == str[i] as char
  {
  }

  lemma WideFails(str: seq<int>, state: State, i: nat)
    requires i < StringLength(str, 0, state.precision) && !IsAscii(str[i])
    ensures RenderString(state, Wide(str)) == Printed([], [], false)
  {
    hide StringLength, IsAscii, TextPrinted, Narrowed;
    var s := str[..StringLength(str, 0, state.precision)];
    assert s[i] == str[i];
  }

  lemma WidePrints(str: seq<int>, state: State, n: nat)
    requires n == StringLength(str, 0, state.precision) && forall i :: 0 <= i < n ==> IsAscii(str[i])
    ensures |Narrowed(str[..n])| == n
    ensures RenderString(state, Wide(str)) == Printed(Field(state, "", Narrowed(str[..n]), false), [], true)
  {
    hide StringLength, IsAscii, Field;
  }

  /** %s */
  method OutputText(sink: Sink, text: Text, state: State) returns (ok: bool)
    requires sink.Valid() && TextFits(state, text)
    modifies sink, sink.out, sink.out.buffer_
    ensures var o := RenderString(state, text);
            sink.Valid() && sink.Emitted(old(sink.out.Trace()), old(sink.count), o.text, ok || !o.ok) && (ok ==> o.ok)
  {
    hide *;
    TextFitsIs(state, text);
    if text.Wide? {
      ok := OutputWideString(sink, text.units, state);
      return;
    }
    var str := if text.Null? then NULL_TEXT else text.bytes;
    NullText(state.precision);
    StringIs(state, text, str);
    var len := BytesLength(str, state.precision);
    ok := sink.TextField(state, "", str[..len]);
  }

  lemma TextFitsIs(state: State, text: Text)
    requires TextFits(state, text)
    ensures text.Bytes? ==> Readable(text.bytes, '\0', state.precision)
    ensures text.Wide? ==> Readable(text.units, 0, state.precision)
  {
  }

  lemma NullText(precision: int)
    ensures Readable(NULL_TEXT, '\0', precision)
  {
  }

  lemma StringIs(state: State, text: Text, str: seq<char>)
    requires !text.Wide? && str == if text.Null? then NULL_TEXT else text.bytes
    ensures var body := str[..StringLength(str, '\0', state.precision)];
            RenderString(state, text) == Printed(Field(state, "", body, false), [], true)
  {
    hide Field, StringLength;
  }

  // ----- Conversions

  /** fprintf_output_formatted */
  method OutputFormatted(sink: Sink, arg: Arg, state: State) returns (ok: bool)
    requires sink.Valid() && ValueFits(state, arg) && state.specifier != Count && state.precision >= -1
    modifies sink, sink.out, sink.out.buffer_
    ensures var o := RenderValue(state, arg, old(sink.count));
            sink.Valid() && sink.Emitted(old(sink.out.Trace()), old(sink.count), o.text, ok || !o.ok) && (ok ==> o.ok)
  {
    hide *;
    ValueIs(state, arg, sink.count);
    if arg.IntegerArg? {
      if state.specifier == Pointer && arg.u == 0 {
        ok := sink.TextField(state, "", "(nil)");
      } else {
        ok := OutputInteger(sink, arg.u, state);
      }
    } else if arg.RealArg? {
      ok := OutputFloat(sink, arg.v, state);
    } else if arg.CharArg? {
      if state.length == LongLength && arg.code >= 0x80 {
        sink.CountBound();
        sink.EmittedNothing();
        return false;
      }
      ok := sink.TextField(state, "", [(arg.code % 0x100) as char]);
    } else {
      ok := OutputText(sink, arg.text, state);
    }
  }

  /** What each kind of argument prints. */
  lemma ValueIs(state: State, arg: Arg, count: nat)
    requires ValueFits(state, arg) && state.specifier != Count
    ensures match arg
            case IntegerArg(u) =>
              && state.specifier in {SignedDecimal, UnsignedDecimal, Octal, Hex, Pointer}
              && RenderValue(state, arg, count) ==
                   if state.specifier == Pointer && u == 0 then Printed(Field(state, "", "(nil)", false), [], true)
                   else Printed(IntegerText(u, state), [], true)
            case RealArg(v) =>
              && state.specifier in {Float, Scientific, Smart, HexFloat} && Splits(v)
              && RenderValue(state, arg, count) == Printed(FloatText(v, state), [], true)
            case CharArg(code) =>
              RenderValue(state, arg, count) ==
                if state.length == LongLength && code >= 0x80 then Printed([], [], false)
                else Printed(Field(state, "", [(code % 0x100) as char], false), [], true)
            case TextArg(text) => TextFits(state, text) && RenderValue(state, arg, count) == RenderString(state, text)
            case _ => false
  {
    hide Field, IntegerText, FloatText, RenderString, TextFits, Splits;
  }

  /** fprintf_get_data: signed integers are sign-extended, unsigned ones zero-extended. */
  method GetData(arg: Arg, state: State) returns (data: Arg)
    ensures data == DataOf(state, arg)
  {
    data := arg;
    if arg.IntegerArg? {
      match state.specifier {
        case SignedDecimal =>
          match state.length {
            case CharLength => data := IntegerArg(Extended(arg.u, 0x100, true));
            case ShortLength => data := IntegerArg(Extended(arg.u, 0x1_0000, true));
            case LongLength => data := arg;
            case LongLongLength => data := arg;
            case SizeLength => data := arg;
            case PtrdiffLength => data := arg;
            case IntmaxLength => data := arg;
            case _ => data := IntegerArg(Extended(arg.u, 0x1_0000_0000, true));
          }
        case Octal => data := GetUnsigned(arg.u, state.length);
        case Hex => data := GetUnsigned(arg.u, state.length);
        case UnsignedDecimal => data := GetUnsigned(arg.u, state.length);
        case _ =>
      }
    }
  }

  method GetUnsigned(u: uint64, length: LengthModifier) returns (data: Arg)
    ensures data == IntegerArg(Extended(u, ModulusOf(length), false))
  {
    match length {
      case CharLength => data := IntegerArg(Extended(u, 0x100, false));
      case ShortLength => data := IntegerArg(Extended(u, 0x1_0000, false));
      case LongLength => data := IntegerArg(u);
      case LongLongLength => data := IntegerArg(u);
      case SizeLength => data := IntegerArg(u);
      case PtrdiffLength => data := IntegerArg(u);
      case IntmaxLength => data := IntegerArg(u);
      case _ => data := IntegerArg(Extended(u, 0x1_0000_0000, false));
    }
  }

  // ----- The loop

  /** Everything up to the next conversion. */
  method OutputLiteral(sink: Sink, format: seq<char>, begin: nat) returns (ok: bool, str: nat)
    requires sink.Valid() && IsFormat(format) && begin <= |format|
    modifies sink, sink.out, sink.out.buffer_
    ensures str == begin + LiteralRun(format[begin..]) <= |format|
    ensures sink.Valid() && sink.Emitted(old(sink.out.Trace()), old(sink.count), format[begin..str], ok)
  {
    hide *;
    str := begin;
    while At(format, str) != '\0' && At(format, str) != '%'
      invariant begin <= str <= |format|
      invariant LiteralRun(format[begin..]) == str - begin + LiteralRun(format[str..])
      invariant sink.Valid() && sink.out.Trace() == old(sink.out.Trace()) && sink.count == old(sink.count)
      decreases |format| - str
    {
      RestAt(format, str);
      LiteralMore(format, str);
      str := str + 1;
    }
    RestAt(format, str);
    LiteralEnd(format, str);
    ok := sink.Bytes(format[begin..str]);
  }

  lemma LiteralMore(format: seq<char>, str: nat)
    requires str < |format| && format[str] != '%'
    ensures At(format, str) == format[str] && LiteralRun(format[str..]) == 1 + LiteralRun(format[str + 1..])
  {
    assert format[str..][1..] == format[str + 1..];
  }

  lemma LiteralEnd(format: seq<char>, str: nat)
    requires str <= |format| && (str < |format| ==> At(format, str) == '%')
    ensures LiteralRun(format[str..]) == 0
  {
  }

  /** One pass of the loop: one item of the format. */
  method OutputItem(sink: Sink, format: seq<char>, start: nat, args: seq<Arg>, first: nat, ghost item: Item)
      returns (ok: bool, str: nat, next: nat, stores: seq<int>)
    requires sink.Valid() && IsFormat(format) && start < |format| && first <= |args|
    requires item == NextItem(format[start..]) && ItemSupplied(item, args[first..])
    modifies sink, sink.out, sink.out.buffer_
    ensures sink.Valid() && str == start + |Spell(item)| && next == first + Needs(item) <= |args|
    ensures var o := RenderItem(item, args[first..], old(sink.count));
            && sink.Emitted(old(sink.out.Trace()), old(sink.count), o.text, ok || !o.ok)
            && (ok ==> o.ok && stores == o.stores)
  {
    hide *;
    str := start;
    next := first;
    stores := [];
    RestAt(format, str);
    ItemAt(format, str);
    if At(format, str) != '%' {
      LiteralRenders(item, args[first..], sink.count);
      ok, str := OutputLiteral(sink, format, str);
      assert format[start..str] == format[start..][..str - start];
      return;
    }
    str := str + 1;
    if At(format, str) == '%' {
      LiteralRenders(item, args[first..], sink.count);
      ok := sink.PutChar('%');
      str := str + 1;
      return;
    }
    StarsSupplied(item, args[first..]);
    var known, state;
    known, state, str, next := GetConversion(format, str, args, first);
    if !known {
      UnknownRenders(item, args[first..], sink.count);
      SpelledAt(format, start, str, item);
      ok := sink.Bytes(format[start..str]);
      return;
    }
    ConversionRenders(item, args[first..], sink.count);
    assert args[first..][next - first] == args[next];
    var data := GetData(args[next], state);
    next := next + 1;
    if state.specifier == Count {
      CountValue(state, args[next - 1], sink.count);
      stores := [StoredCount(sink.count, state.length)];
      sink.CountBound();
      sink.EmittedNothing();
      return true, str, next, stores;
    }
    ok := OutputFormatted(sink, data, state);
    ConversionStores(state, data, old(sink.count));
  }

  /** The kinds of item by their first characters. */
  lemma ItemAt(format: seq<char>, str: nat)
    requires IsFormat(format) && str < |format|
    ensures var s := format[str..];
            var item := NextItem(s);
            && (At(format, str) != '%' ==> item == Literal(s[..LiteralRun(s)]) && |Spell(item)| == LiteralRun(s))
            && (At(format, str) == '%' && At(format, str + 1) == '%' ==> item == Percent && |Spell(item)| == 2)
            && (At(format, str) == '%' && At(format, str + 1) != '%' ==>
                  item == ReadConversion(format[str + 1..]) && (item.Conversion? || item.Unknown?))
  {
    hide ReadConversion, LiteralRun;
    assert format[str..][1..] == format[str + 1..];
  }

  lemma LiteralRenders(item: Item, args: seq<Arg>, count: nat)
    requires ItemSupplied(item, args) && (item.Literal? || item.Percent?)
    ensures RenderItem(item, args, count) == Printed(if item.Literal? then item.text else "%", [], true)
            && Needs(item) == 0
  {
  }

  lemma StarsSupplied(item: Item, args: seq<Arg>)
    requires ItemSupplied(item, args) && (item.Conversion? || item.Unknown?)
    ensures AreInts(args, Stars(item.width, item.precision))
  {
  }

  lemma UnknownRenders(item: Item, args: seq<Arg>, count: nat)
    requires ItemSupplied(item, args) && item.Unknown?
    ensures RenderItem(item, args, count) == Printed(Spell(item), [], true)
            && Needs(item) == Stars(item.width, item.precision)
  {
  }

  lemma SpelledAt(format: seq<char>, start: nat, str: nat, item: Item)
    requires start < str <= |format| && item == NextItem(format[start..]) && str == start + |Spell(item)|
    ensures format[start..str] == Spell(item)
  {
    hide NextItem, Spell;
    assert format[start..][..str - start] == format[start..str];
  }

  lemma ConversionRenders(item: Item, args: seq<Arg>, count: nat)
    requires ItemSupplied(item, args) && item.Conversion? && IsSpecifier(item.specifier)
    ensures var k := Stars(item.width, item.precision);
            && AreInts(args, k) && Needs(item) == k + 1 && k < |args|
            && var state := StateOf(item, args);
               && state.precision >= -1 && ValueFits(state, args[k]) && ValueFits(state, DataOf(state, args[k]))
               && RenderItem(item, args, count) == RenderValue(state, DataOf(state, args[k]), count)
  {
    hide RenderValue, ValueFits, DataOf, FlagsOf, WidthOf, IsSpecifier;
  }

  lemma ConversionStores(state: State, arg: Arg, count: nat)
    requires ValueFits(state, arg) && state.specifier != Count
    ensures RenderValue(state, arg, count).stores == []
  {
    hide Field, IntegerText, FloatText, StringLength, Narrowed, Readable;
  }

  /** The whole format: what goes out is the rendering of its items with the arguments in order. */
  method Fprintf(out: File, format: seq<char>, args: seq<Arg>) returns (status: bool, stores: seq<int>)
    requires out.Valid() && IsFormat(format) && Supplied(Parse(format), args)
    modifies out, out.buffer_
    ensures var o := Render(Parse(format), args, 0);
            && out.Valid() && stores <= o.stores
            && (if status then o.ok && stores == o.stores
                && Sent(out.kernel, old(out.Trace()), out.Trace(), o.text, true)
                else
                  || (!o.ok && Sent(out.kernel, old(out.Trace()), out.Trace(), o.text, true))
                  || Sent(out.kernel, old(out.Trace()), out.Trace(), o.text, false))
            && (Untroubled(out.kernel, old(out.Trace()), out.Trace()) ==>
                  && status == o.ok
                  && Output(out.kernel, out.Trace()) == Output(out.kernel, old(out.Trace())) + o.text)
  {
    hide *;
    out.Parts();
    var sink := new Sink(out);
    ghost var before, all := out.Trace(), Render(Parse(format), args, 0);
    ghost var done := "";
    status := true;
    stores := [];
    var str, next := 0, 0;
    LoopStart(sink, format, args);
    while status && At(format, str) != '\0'
      invariant sink.out == out && sink.Valid() && 0 <= str <= |format| && 0 <= next <= |args|
      invariant status ==> sink.Emitted(before, 0, done, true) && Supplied(Parse(format[str..]), args[next..])
      invariant status ==>
                all == Followed(Printed(done, stores, true), Render(Parse(format[str..]), args[next..], sink.count))
      invariant !status ==>
                (!all.ok && sink.Emitted(before, 0, all.text, true)) || sink.Emitted(before, 0, all.text, false)
      invariant stores <= all.stores
      decreases |format| - str, status
    {
      RestAt(format, str);
      ghost var item, given := NextItem(format[str..]), args[next..];
      ghost var mid, k := sink.out.Trace(), sink.count;
      ghost var o := PassStep(format, str, given, k, item);
      sink.EmittedParts(before, 0, done, true);
      ghost var begin, first := str, next;
      var more;
      status, str, next, more := OutputItem(sink, format, str, args, next, item);
      sink.EmittedThen(before, 0, done, mid, k, o.text, status || !o.ok);
      if status {
        sink.EmittedParts(mid, k, o.text, true);
        assert given[next - first..] == args[next..];
        PassDone(done, stores, o, Render(Parse(format[str..]), args[next..], sink.count), k);
        FollowedIs(Printed(done + o.text, stores + more, true), Render(Parse(format[str..]), args[next..], sink.count));
        done := done + o.text;
        stores := stores + more;
      } else {
        PassFailed(sink, format, begin, given, k, item, done, stores, before, all);
      }
    }
    if status {
      LoopEnd(sink, format, str, args[next..], done, stores);
    }
    sink.CountBound();
    sink.EmittedParts(before, 0, all.text, true);
    sink.EmittedParts(before, 0, all.text, false);
    WholeOutput(out, before, all, status);
  }

  /** Writes that meet no trouble leave the whole rendering in the output. */
  lemma WholeOutput(out: File, before: Stream, all: Printed, status: bool)
    requires Fits(before)
    requires if status then all.ok && Sent(out.kernel, before, out.Trace(), all.text, true)
             else
               || (!all.ok && Sent(out.kernel, before, out.Trace(), all.text, true))
               || Sent(out.kernel, before, out.Trace(), all.text, false)
    ensures Untroubled(out.kernel, before, out.Trace()) ==>
              && status == all.ok
              && Output(out.kernel, out.Trace()) == Output(out.kernel, before) + all.text
  {
    hide *;
    var t := out.Trace();
    if Untroubled(out.kernel, before, t) {
      if Sent(out.kernel, before, t, all.text, true) {
        SentWhole(out.kernel, before, t, all.text, true);
      }
      if Sent(out.kernel, before, t, all.text, false) {
        SentWhole(out.kernel, before, t, all.text, false);
      }
    }
  }

  lemma LoopStart(sink: Sink, format: seq<char>, args: seq<Arg>)
    requires sink.count == 0 && Supplied(Parse(format), args)
    ensures sink.Emitted(sink.out.Trace(), 0, "", true)
    ensures format[0..] == format && args[0..] == args
    ensures Render(Parse(format), args, 0) == Followed(Printed("", [], true), Render(Parse(format), args, 0))
  {
    hide Supplied, Parse, Render;
    sink.EmittedNothing();
  }

  lemma LoopEnd(sink: Sink, format: seq<char>, str: nat, args: seq<Arg>, done: seq<char>, stores: seq<int>)
    requires IsFormat(format) && str <= |format| && At(format, str) == '\0' && Supplied(Parse(format[str..]), args)
    ensures Followed(Printed(done, stores, true), Render(Parse(format[str..]), args, sink.count)) ==
            Printed(done, stores, true)
  {
    RestAt(format, str);
    assert done + [] == done && stores + [] == stores;
  }

  /** What the next pass prints, and what is then left. */
  lemma PassStep(format: seq<char>, str: nat, args: seq<Arg>, count: nat, item: Item) returns (o: Printed)
    requires str < |format| && item == NextItem(format[str..]) && Supplied(Parse(format[str..]), args)
    ensures ItemSupplied(item, args) && Needs(item) <= |args| && o == RenderItem(item, args, count)
    ensures str < str + |Spell(item)| <= |format|
    ensures var rest := Parse(format[str + |Spell(item)|..]);
            && Supplied(rest, args[Needs(item)..])
            && Render(Parse(format[str..]), args, count) ==
                 if !o.ok then o else Followed(o, Render(rest, args[Needs(item)..], Advance(count, o.text)))
  {
    hide NextItem, Spell, ItemSupplied, RenderItem, Needs, Followed, Advance;
    var s := format[str..];
    var n := |Spell(item)|;
    assert s[n..] == format[str + n..];
    var items := Parse(s);
    assert items == [item] + Parse(s[n..]);
    assert items[0] == item && items[1..] == Parse(s[n..]);
    SuppliedFirst(items, args);
    o := RenderItem(item, args, count);
  }

  lemma PassDone(done: seq<char>, stores: seq<int>, o: Printed, rest: Printed, count: nat)
    ensures Followed(Printed(done, stores, true), Followed(o, rest)) ==
            Followed(Printed(done + o.text, stores + o.stores, true), rest)
    ensures Advance(count, o.text) == (count + |o.text|) % SIZE_MODULUS
  {
    assert done + (o.text + rest.text) == done + o.text + rest.text;
    assert stores + (o.stores + rest.stores) == stores + o.stores + rest.stores;
  }

  /** A pass that fails leaves the text in front of a failing conversion, or, behind a failed write, some
      front part of it. */
  lemma PassFailed(sink: Sink, format: seq<char>, str: nat, args: seq<Arg>, count: nat, item: Item,
      done: seq<char>, stores: seq<int>, before: Stream, all: Printed)
    requires str < |format| && item == NextItem(format[str..]) && Supplied(Parse(format[str..]), args)
    requires all == Followed(Printed(done, stores, true), Render(Parse(format[str..]), args, count))
    requires ItemSupplied(item, args)
    requires var o := RenderItem(item, args, count);
             sink.Emitted(before, 0, done + o.text, !o.ok)
    ensures (!all.ok && sink.Emitted(before, 0, all.text, true)) || sink.Emitted(before, 0, all.text, false)
    ensures stores <= all.stores
  {
    hide *;
    var o := PassStep(format, str, args, count, item);
    var tail := Render(Parse(format[str..]), args, count);
    FollowedIs(Printed(done, stores, true), tail);
    if o.ok {
      var rest := Render(Parse(format[str + |Spell(item)|..]), args[Needs(item)..], Advance(count, o.text));
      FollowedIs(o, rest);
      assert all.text == done + o.text + rest.text;
      sink.EmittedStopped(before, 0, done + o.text, rest.text);
    }
  }
}
