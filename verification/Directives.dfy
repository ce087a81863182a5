/** What fprintf prints, told by the characters of the format and the arguments alone. */
module Directives {
  import opened Numerals
  import opened Sinks
  import opened IntegerFormat
  import opened FloatTexts
  import opened FloatFormat
  import opened FloatBits
  import opened Formats
  import opened Rendering
  import opened Meanings

  // ----- Directives as text

  /** Flags; a width, which no zero starts; a precision; a length modifier. */
  predicate IsDirective(f: string, w: string, p: string, l: string) {
    && (forall i :: 0 <= i < |f| ==> f[i] in ['-', '+', ' ', '0', '#'])
    && (w == "*" || ((forall i :: 0 <= i < |w| ==> '0' <= w[i] <= '9') && (w != "" ==> w[0] != '0')))
    && (p == "" || p == ".*" || (p[0] == '.' && forall i :: 1 <= i < |p| ==> '0' <= p[i] <= '9'))
    && l in ["", "hh", "h", "l", "ll", "z", "t", "j", "L"]
  }

  function Directive(f: string, w: string, p: string, l: string, c: char): string {
    "%" + f + w + p + l + [c]
  }

  /** The place of the value among the arguments: behind those of the stars. */
  function Place(w: string, p: string): nat {
    (if w == "*" then 1 else 0) + (if p == ".*" then 1 else 0)
  }

  /** The stars have their ints. */
  predicate StarsGiven(w: string, p: string, args: seq<Arg>) {
    && Place(w, p) <= |args|
    && forall i :: 0 <= i < Place(w, p) ==> args[i].IntArg? && -0x8000_0000 <= args[i].i < 0x8000_0000
  }

  /** And the value is there. */
  predicate Given(w: string, p: string, args: seq<Arg>) {
    StarsGiven(w, p, args) && Place(w, p) < |args|
  }

  /** How the field is filled: a negative width from the arguments means left alignment, which overrides
      leading zeros, and a negative precision means none. */
  function MannerFor(f: string, w: string, p: string, args: seq<Arg>): (m: Manner)
    requires Given(w, p, args)
    ensures m.precision >= -1
  {
    var width: int := if w == "*" then args[0].i else ValueOf(w, 10);
    var precision: int :=
      if p == "" then -1
      else if p == ".*" then (var n := args[if w == "*" then 1 else 0].i; if n < 0 then -1 else n)
      else ValueOf(p[1..], 10);
    var left := '-' in f || width < 0;
    Manner('+' in f, ' ' in f, '0' in f && !left, '#' in f, left, if width < 0 then -width else width, precision)
  }

  // ----- Directives as items

  function WidthAmount(w: string): Amount {
    if w == "*" then Star else Number(w)
  }

  function PrecisionAmount(p: string): Amount {
    if p == "" then Absent else if p == ".*" then Star else Number(p[1..])
  }

  function LengthNamed(l: string): LengthModifier {
    if l == "hh" then CharLength else if l == "h" then ShortLength
    else if l == "l" then LongLength else if l == "ll" then LongLongLength
    else if l == "z" then SizeLength else if l == "t" then PtrdiffLength
    else if l == "j" then IntmaxLength else if l == "L" then LongDoubleLength
    else DefaultLength
  }

  function ItemOf(f: string, w: string, p: string, l: string, c: char): (item: Item)
    ensures item.Conversion?
  {
    Conversion(f, WidthAmount(w), PrecisionAmount(p), LengthNamed(l), c)
  }

  lemma Named(f: string, w: string, p: string, l: string, c: char)
    requires IsDirective(f, w, p, l)
    ensures Spell(ItemOf(f, w, p, l, c)) == Directive(f, w, p, l, c)
    ensures IsSpecifier(c) ==> WellFormed(ItemOf(f, w, p, l, c))
  {
    hide *;
    NamedAmounts(f, w, p, l);
    NamedLength(f, w, p, l);
    NamedItem(f, w, p, l, c);
  }

  lemma NamedAmounts(f: string, w: string, p: string, l: string)
    requires IsDirective(f, w, p, l)
    ensures forall i :: 0 <= i < |f| ==> IsFlag(f[i])
    ensures SpellAmount(WidthAmount(w)) == w && SpellPrecision(PrecisionAmount(p)) == p
    ensures var a := WidthAmount(w);
            a != Absent && (a.Number? ==> IsNumber(a.digits) && (a.digits != [] ==> a.digits[0] != '0'))
    ensures PrecisionAmount(p).Number? ==> IsNumber(PrecisionAmount(p).digits)
  {
    if p != "" && p != ".*" {
      assert forall i :: 0 <= i < |p[1..]| ==> p[1..][i] == p[i + 1];
    }
  }

  lemma NamedLength(f: string, w: string, p: string, l: string)
    requires IsDirective(f, w, p, l)
    ensures SpellLength(LengthNamed(l)) == l
  {
  }

  lemma NamedItem(f: string, w: string, p: string, l: string, c: char)
    requires SpellAmount(WidthAmount(w)) == w && SpellPrecision(PrecisionAmount(p)) == p
    requires SpellLength(LengthNamed(l)) == l && (forall i :: 0 <= i < |f| ==> IsFlag(f[i]))
    requires var a := WidthAmount(w);
             a != Absent && (a.Number? ==> IsNumber(a.digits) && (a.digits != [] ==> a.digits[0] != '0'))
    requires PrecisionAmount(p).Number? ==> IsNumber(PrecisionAmount(p).digits)
    ensures Spell(ItemOf(f, w, p, l, c)) == Directive(f, w, p, l, c)
    ensures IsSpecifier(c) ==> WellFormed(ItemOf(f, w, p, l, c))
  {
    hide SpellAmount, SpellPrecision, SpellLength, WidthAmount, PrecisionAmount, LengthNamed;
    hide IsSpecifier, IsNumber, IsFlag;
  }

  /** A directive is read as the one item it spells. */
  lemma ParsedDirective(f: string, w: string, p: string, l: string, c: char)
    requires IsDirective(f, w, p, l) && IsSpecifier(c)
    ensures Parse(Directive(f, w, p, l, c)) == [ItemOf(f, w, p, l, c)]
  {
    hide *;
    Named(f, w, p, l, c);
    SpellOne(ItemOf(f, w, p, l, c));
    ParseSpelled([ItemOf(f, w, p, l, c)]);
  }

  lemma SpellOne(item: Item)
    ensures SpellAll([item]) == Spell(item)
    ensures WellFormed(item) ==> AllWellFormed([item])
  {
    hide Spell, WellFormed;
    assert Spell(item) + [] == Spell(item);
  }

  lemma StateHere(f: string, w: string, p: string, l: string, c: char, args: seq<Arg>)
    requires IsSpecifier(c) && Given(w, p, args)
    ensures var item := ItemOf(f, w, p, l, c);
            && item.specifier == c && Stars(item.width, item.precision) == Place(w, p) < |args|
            && AreInts(args, Place(w, p))
    ensures var state := StateOf(ItemOf(f, w, p, l, c), args);
            && MannerOf(state) == MannerFor(f, w, p, args)
            && state.precision == MannerFor(f, w, p, args).precision >= -1
            && state.length == LengthNamed(l) && state.specifier == SpecifierOf(c)
            && state.upper == ('A' <= c <= 'Z')
  {
    hide ValueOf, IsSpecifier, SpecifierOf, LengthNamed;
  }

  /** A format of one conversion prints what its value argument asks for. */
  lemma OneDirective(f: string, w: string, p: string, l: string, c: char, args: seq<Arg>)
    returns (state: State, arg: Arg)
    requires IsDirective(f, w, p, l) && IsSpecifier(c) && Given(w, p, args)
    ensures arg == args[Place(w, p)]
    ensures MannerOf(state) == MannerFor(f, w, p, args) && state.precision >= -1
    ensures state.length == LengthNamed(l) && state.specifier == SpecifierOf(c) && state.upper == ('A' <= c <= 'Z')
    ensures ValueFits(state, arg) ==>
              && Supplied(Parse(Directive(f, w, p, l, c)), args)
              && Render(Parse(Directive(f, w, p, l, c)), args, 0) == RenderValue(state, DataOf(state, arg), 0)
  {
    hide *;
    ParsedDirective(f, w, p, l, c);
    StateHere(f, w, p, l, c, args);
    var item := ItemOf(f, w, p, l, c);
    state, arg := StateOf(item, args), args[Place(w, p)];
    if ValueFits(state, arg) {
      ConversionPrints(item, args, 0);
    }
  }

  lemma ConversionPrints(item: Item, args: seq<Arg>, count: nat)
    requires item.Conversion? && IsSpecifier(item.specifier)
    requires var k := Stars(item.width, item.precision);
             AreInts(args, k) && k < |args| && ValueFits(StateOf(item, args), args[k])
    ensures var k := Stars(item.width, item.precision);
            && Supplied([item], args)
            && Render([item], args, count) ==
                 RenderValue(StateOf(item, args), DataOf(StateOf(item, args), args[k]), count)
  {
    hide AreInts, ValueFits, DataOf, StateOf, RenderValue, IsSpecifier, Stars;
    var o := RenderItem(item, args, count);
    assert [item][1..] == [];
    OneItem(item, args, count);
  }

  /** The rendering of one item. */
  lemma OneItem(item: Item, args: seq<Arg>, count: nat)
    requires ItemSupplied(item, args) && Needs(item) <= |args|
    ensures Supplied([item], args) && Render([item], args, count) == RenderItem(item, args, count)
  {
    hide ItemSupplied, Needs, RenderItem;
    var o := RenderItem(item, args, count);
    assert [item][1..] == [];
    assert o.text + [] == o.text && o.stores + [] == o.stores;
  }

  // ----- What each conversion prints

  /** %d, %i, %u, %o, %x, %X and %p: the argument is read as an integer of 8 (hh), 16 (h), 64 (l, ll, z, t, j,
      pointers) or 32 bits, signed for the first two, and that number is printed. */
  lemma IntegerDirective(f: string, w: string, p: string, l: string, c: char, args: seq<Arg>)
    requires IsDirective(f, w, p, l) && Given(w, p, args) && args[Place(w, p)].IntegerArg?
    requires c in ['d', 'i', 'u', 'o', 'x', 'X', 'p']
    ensures IsRadix(8) && IsRadix(10) && IsRadix(16)
    ensures Supplied(Parse(Directive(f, w, p, l, c)), args)
    ensures var o, u := Render(Parse(Directive(f, w, p, l, c)), args, 0), args[Place(w, p)].u;
            var m := MannerFor(f, w, p, args);
            var modulus :=
              if c == 'p' || l in ["l", "ll", "z", "t", "j"] then 0x1_0000_0000_0000_0000
              else if l == "hh" then 0x100 else if l == "h" then 0x1_0000 else 0x1_0000_0000;
            var low := u % modulus;
            var n := if c in ['d', 'i'] && 2 * low >= modulus then low - modulus else low;
            && o.ok && o.stores == []
            && if c == 'p' && u == 0 then Padded(o.text, m, false, "", "(nil)")
               else
                 IntegerShown(o.text, n, c in ['d', 'i'],
                              if c == 'o' then 8 else if c in ['x', 'X', 'p'] then 16 else 10, c == 'X', c == 'p', m)
  {
    hide *;
    IntegerNames(c);
    var state, arg := OneDirective(f, w, p, l, c, args);
    Radices();
    FitsInteger(state, arg);
    LengthsNamed(f, w, p, l);
    DataMeans(state, arg);
    if c == 'p' && arg.u == 0 {
      FieldPadded(state, "", "(nil)", false);
    } else {
      IntegerTextMeans(DataOf(state, arg).u, state);
    }
  }

  lemma LengthsNamed(f: string, w: string, p: string, l: string)
    requires IsDirective(f, w, p, l)
    ensures l == "hh" <==> LengthNamed(l) == CharLength
    ensures l == "h" <==> LengthNamed(l) == ShortLength
    ensures l in ["l", "ll", "z", "t", "j"] <==>
              LengthNamed(l) !in {CharLength, ShortLength, DefaultLength, LongDoubleLength}
  {
  }

  lemma DataMeans(state: State, arg: Arg)
    requires arg.IntegerArg? && state.specifier in {SignedDecimal, UnsignedDecimal, Octal, Hex, Pointer}
    ensures DataOf(state, arg).IntegerArg?
    ensures var modulus :=
              if state.specifier == Pointer then 0x1_0000_0000_0000_0000
              else if state.length == CharLength then 0x100
              else if state.length == ShortLength then 0x1_0000
              else if state.length in {DefaultLength, LongDoubleLength} then 0x1_0000_0000
              else 0x1_0000_0000_0000_0000;
            var low, u := arg.u % modulus, DataOf(state, arg).u;
            var signed := state.specifier == SignedDecimal;
            && (state.specifier == Pointer ==> u == arg.u)
            && (if signed && u >= 0x8000_0000_0000_0000 then u - 0x1_0000_0000_0000_0000 else u) ==
               (if signed && 2 * low >= modulus then low - modulus else low)
  {
  }

  lemma IntegerNames(c: char)
    requires c in ['d', 'i', 'u', 'o', 'x', 'X', 'p']
    ensures IsSpecifier(c)
    ensures SpecifierOf(c) ==
            if c == 'd' || c == 'i' then SignedDecimal else if c == 'o' then Octal
            else if c == 'x' || c == 'X' then Hex else if c == 'p' then Pointer else UnsignedDecimal
    ensures 'A' <= c <= 'Z' <==> c == 'X'
  {
  }

  lemma FitsInteger(state: State, arg: Arg)
    requires arg.IntegerArg? && state.specifier in {SignedDecimal, UnsignedDecimal, Octal, Hex, Pointer}
    ensures ValueFits(state, arg) && DataOf(state, arg).IntegerArg?
    ensures var data := DataOf(state, arg);
            && ValueFits(state, data)
            && RenderValue(state, data, 0) ==
                 Printed(if state.specifier == Pointer && data.u == 0 then Field(state, "", "(nil)", false)
                         else IntegerText(data.u, state), [], true)
  {
    hide Field, IntegerText, Extended, ModulusOf;
  }

  /** %f, %F, %e, %E, %g, %G, %a and %A. */
  lemma FloatDirective(f: string, w: string, p: string, l: string, c: char, args: seq<Arg>)
    requires IsDirective(f, w, p, l) && Given(w, p, args)
    requires args[Place(w, p)].RealArg? && Representable(args[Place(w, p)].v)
    requires c in ['f', 'F', 'e', 'E', 'g', 'G', 'a', 'A']
    ensures Supplied(Parse(Directive(f, w, p, l, c)), args)
    ensures var o, v := Render(Parse(Directive(f, w, p, l, c)), args, 0), args[Place(w, p)].v;
            var style :=
              if c in ['f', 'F'] then FixedStyle else if c in ['e', 'E'] then ScientificStyle
              else if c in ['g', 'G'] then SmartStyle else HexStyle;
            && o.ok && o.stores == []
            && RealShown(o.text, v, style, c in ['F', 'E', 'G', 'A'], MannerFor(f, w, p, args))
  {
    hide *;
    FloatNames(c);
    var state, arg := OneDirective(f, w, p, l, c, args);
    RepresentableSplits(arg.v);
    FitsFloat(state, arg);
    FloatTextMeans(arg.v, state);
  }

  lemma FloatNames(c: char)
    requires c in ['f', 'F', 'e', 'E', 'g', 'G', 'a', 'A']
    ensures IsSpecifier(c)
    ensures SpecifierOf(c) ==
            if c == 'f' || c == 'F' then Float else if c == 'e' || c == 'E' then Scientific
            else if c == 'g' || c == 'G' then Smart else HexFloat
    ensures 'A' <= c <= 'Z' <==> c in ['F', 'E', 'G', 'A']
  {
  }

  lemma FitsFloat(state: State, arg: Arg)
    requires arg.RealArg? && Splits(arg.v) && state.specifier in {Float, Scientific, Smart, HexFloat}
    ensures ValueFits(state, arg) && DataOf(state, arg) == arg
    ensures RenderValue(state, arg, 0) == Printed(FloatText(arg.v, state), [], true)
  {
    hide FloatText, Splits;
  }

  /** %c: one byte; a wide character must be ASCII. */
  lemma CharDirective(f: string, w: string, p: string, l: string, args: seq<Arg>)
    requires IsDirective(f, w, p, l) && Given(w, p, args) && args[Place(w, p)].CharArg?
    ensures Supplied(Parse(Directive(f, w, p, l, 'c')), args)
    ensures var o, code := Render(Parse(Directive(f, w, p, l, 'c')), args, 0), args[Place(w, p)].code;
            if l == "l" && code >= 0x80 then o == Printed([], [], false)
            else o.ok && o.stores == [] && Padded(o.text, MannerFor(f, w, p, args), false, "", [(code % 0x100) as char])
  {
    hide *;
    TextNames();
    var state, arg := OneDirective(f, w, p, l, 'c', args);
    LongNamed(f, w, p, l);
    FitsChar(state, arg);
    FieldPadded(state, "", [(arg.code % 0x100) as char], false);
  }

  lemma TextNames()
    ensures IsSpecifier('c') && IsSpecifier('s') && IsSpecifier('n')
    ensures SpecifierOf('c') == Char && SpecifierOf('s') == String && SpecifierOf('n') == Count
  {
  }

  lemma LongNamed(f: string, w: string, p: string, l: string)
    requires IsDirective(f, w, p, l)
    ensures LengthNamed(l) == LongLength <==> l == "l"
  {
  }

  lemma FitsChar(state: State, arg: Arg)
    requires arg.CharArg? && state.specifier == Char
    ensures ValueFits(state, arg) && DataOf(state, arg) == arg
    ensures RenderValue(state, arg, 0) ==
            if state.length == LongLength && arg.code >= 0x80 then Printed([], [], false)
            else Printed(Field(state, "", [(arg.code % 0x100) as char], false), [], true)
  {
    hide Field;
  }

  /** n is where a string is left off: at its zero or at the precision, and at neither before. */
  ghost predicate EndsAt<T(!new)>(s: seq<T>, zero: T, precision: int, n: nat) {
    && n <= |s| && (forall i :: 0 <= i < n ==> s[i] != zero) && (precision >= 0 ==> n <= precision)
    && (n == precision || (n < |s| && s[n] == zero))
  }

  /** The string argument suits the length modifier, and ends. */
  ghost predicate SuitableText(text: Text, l: string, precision: int) {
    match text
    case Null => true
    case Bytes(bytes) => l != "l" && ('\0' in bytes || 0 <= precision <= |bytes|)
    case Wide(units) => l == "l" && (0 in units || 0 <= precision <= |units|)
  }

  /** What %s prints of a string. */
  ghost predicate TextShown(o: Printed, text: Text, m: Manner) {
    match text
    case Null =>
      var nothing := "(null)";
      && o.ok && o.stores == []
      && Padded(o.text, m, false, "", if 0 <= m.precision < 6 then nothing[..m.precision] else nothing)
    case Bytes(bytes) =>
      && o.ok && o.stores == []
      && exists n: nat :: EndsAt(bytes, '\0', m.precision, n) && Padded(o.text, m, false, "", bytes[..n])
    case Wide(units) =>
      exists n: nat ::
        && EndsAt(units, 0, m.precision, n)
        && if forall i :: 0 <= i < n ==> 0 <= units[i] < 0x80 then
             && o.ok && o.stores == []
             && exists body: seq<char> :: SameText(body, units[..n]) && Padded(o.text, m, false, "", body)
           else o == Printed([], [], false)
  }

  ghost predicate SameText(body: seq<char>, units: seq<int>) {
    |body| == |units| && forall i :: 0 <= i < |body| ==> body[i] as int == units[i]
  }

  /** %s */
  lemma StringDirective(f: string, w: string, p: string, l: string, args: seq<Arg>)
    requires IsDirective(f, w, p, l) && Given(w, p, args) && args[Place(w, p)].TextArg?
    requires SuitableText(args[Place(w, p)].text, l, MannerFor(f, w, p, args).precision)
    ensures Supplied(Parse(Directive(f, w, p, l, 's')), args)
    ensures TextShown(Render(Parse(Directive(f, w, p, l, 's')), args, 0), args[Place(w, p)].text,
                      MannerFor(f, w, p, args))
  {
    hide *;
    TextNames();
    var state, arg := OneDirective(f, w, p, l, 's', args);
    LongNamed(f, w, p, l);
    FitsText(state, arg, l);
    StringShown(state, arg.text);
  }

  lemma FitsText(state: State, arg: Arg, l: string)
    requires arg.TextArg? && state.specifier == String && (state.length == LongLength <==> l == "l")
    requires SuitableText(arg.text, l, MannerOf(state).precision)
    ensures ValueFits(state, arg) && RenderValue(state, arg, 0) == RenderString(state, arg.text)
    ensures TextFits(state, arg.text) && DataOf(state, arg) == arg
  {
    hide RenderString;
  }

  lemma StringShown(state: State, text: Text)
    requires TextFits(state, text)
    ensures TextShown(RenderString(state, text), text, MannerOf(state))
  {
    hide Padded, Field, EndsAt, StringLength;
    match text
    case Null =>
      NullCut(state.precision);
      FieldPadded(state, "", NULL_TEXT[..StringLength(NULL_TEXT, '\0', state.precision)], false);
    case Bytes(bytes) =>
      var n := StringLength(bytes, '\0', state.precision);
      LengthEnds(bytes, '\0', state.precision);
      FieldPadded(state, "", bytes[..n], false);
    case Wide(units) =>
      var n := StringLength(units, 0, state.precision);
      LengthEnds(units, 0, state.precision);
      var s := units[..n];
      assert forall i :: 0 <= i < n ==> s[i] == units[i];
      if forall i :: 0 <= i < n ==> IsAscii(s[i]) {
        FieldPadded(state, "", Narrowed(s), false);
        assert SameText(Narrowed(s), units[..n]);
      }
  }

  lemma NullCut(precision: int)
    ensures var nothing := "(null)";
            NULL_TEXT[..StringLength(NULL_TEXT, '\0', precision)] ==
              if 0 <= precision < 6 then nothing[..precision] else nothing
  {
    hide StringLength;
    StringLengthIs(NULL_TEXT, '\0', precision);
    var n := StringLength(NULL_TEXT, '\0', precision);
    assert NULL_TEXT == "(null)" + ['\0'];
    assert NULL_TEXT[6] == '\0' && forall i :: 0 <= i < n ==> NULL_TEXT[i] in NULL_TEXT[..n];
  }

  lemma LengthEnds<T(!new)>(s: seq<T>, zero: T, precision: int)
    requires Readable(s, zero, precision)
    ensures EndsAt(s, zero, precision, StringLength(s, zero, precision))
  {
    hide StringLength;
    StringLengthIs(s, zero, precision);
    var n := StringLength(s, zero, precision);
    assert forall i :: 0 <= i < n ==> s[i] in s[..n];
  }

  // ----- Every place of every format

  /** The conversion characters. */
  predicate Converts(c: char) {
    c in ['d', 'i', 'u', 'o', 'x', 'X', 'p', 'f', 'F', 'e', 'E', 'g', 'G', 'a', 'A', 'c', 's', 'n']
  }

  /** Nothing or one character behind the pieces, which is none that converts and would not lengthen them. */
  predicate Strange(f: string, w: string, p: string, l: string, tail: string) {
    tail == "" ||
    (&& |tail| == 1 && !Converts(tail[0])
     && (w == "" && p == "" && l == "" ==> tail[0] !in ['-', '+', ' ', '0', '#', '*'])
     && (w != "*" && p == "" && l == "" ==> !('0' <= tail[0] <= '9'))
     && (p == "" && l == "" ==> tail[0] != '.')
     && (p != "" && p != ".*" && l == "" ==> !('0' <= tail[0] <= '9'))
     && (p == "." && l == "" ==> tail[0] != '*')
     && (l == "" ==> tail[0] !in ['h', 'l', 'z', 't', 'j', 'L'])
     && (l == "h" ==> tail[0] != 'h') && (l == "l" ==> tail[0] != 'l')
     && (f == "" && w == "" && p == "" && l == "" ==> tail[0] != '%'))
  }

  /** The items of a format: text without a per cent sign, %%, directives, and what is cut short or goes on
      with another character. */
  ghost predicate Recognised(item: Item, f: string, w: string, p: string, l: string) {
    match item
    case Literal(text) => text != [] && '%' !in text
    case Percent => true
    case Conversion(_, _, _, _, c) =>
      && IsDirective(f, w, p, l) && Converts(c) && item == ItemOf(f, w, p, l, c)
      && Spell(item) == Directive(f, w, p, l, c) && Needs(item) == Place(w, p) + 1
    case Unknown(_, _, _, _, tail) =>
      && IsDirective(f, w, p, l) && Strange(f, w, p, l, tail) && item == UnknownOf(f, w, p, l, tail)
      && Spell(item) == "%" + f + w + p + l + tail && Needs(item) == Place(w, p)
  }

  function UnknownOf(f: string, w: string, p: string, l: string, tail: string): (item: Item)
    ensures item.Unknown?
  {
    Unknown(f, WidthAmount(w), PrecisionAmount(p), LengthNamed(l), tail)
  }

  /** Every item of every format is one of these, and only the last one is cut short. */
  lemma {:induction false} EveryItem(format: seq<char>, i: nat) returns (f: string, w: string, p: string, l: string)
    requires i < |Parse(format)|
    ensures var item := Parse(format)[i];
            Recognised(item, f, w, p, l) && (item.Unknown? && item.tail == "" ==> i == |Parse(format)| - 1)
    decreases i
  {
    hide *;
    ParseStep(format);
    if i == 0 {
      f, w, p, l := NextRecognised(format);
    } else {
      f, w, p, l := EveryItem(format[|Spell(NextItem(format))|..], i - 1);
    }
  }

  lemma ParseStep(s: seq<char>)
    ensures Parse(s) == [] <==> s == []
    ensures s != [] ==>
              |Spell(NextItem(s))| <= |s| && Parse(s) == [NextItem(s)] + Parse(s[|Spell(NextItem(s))|..])
  {
    hide Spell;
  }

  lemma NextRecognised(s: seq<char>) returns (f: string, w: string, p: string, l: string)
    requires s != []
    ensures var item := NextItem(s);
            && Recognised(item, f, w, p, l)
            && (item.Unknown? && item.tail == "" ==> |Spell(item)| <= |s| && Parse(s[|Spell(item)|..]) == [])
  {
    hide *;
    f, w, p, l := "", "", "", "";
    NextKinds(s);
    var item := NextItem(s);
    if item.Conversion? || item.Unknown? {
      var tail;
      f, w, p, l, tail := PiecesTaken(s[1..]);
      if item.Conversion? {
        ConversionRecognised(f, w, p, l, tail[0]);
      } else {
        UnknownRecognised(f, w, p, l, tail);
        ParseStep("");
        assert tail == "" ==> s[|s|..] == "";
      }
    } else {
      LiteralAre(s);
      PlainRecognised(item, f, w, p, l);
    }
  }

  lemma NextKinds(s: seq<char>)
    requires s != []
    ensures match NextItem(s)
            case Literal(text) => s[0] != '%' && text == s[..LiteralRun(s)]
            case Percent => true
            case _ => s[0] == '%' && NextItem(s) == ReadConversion(s[1..]) && !(|s| > 1 && s[1] == '%')
  {
    hide ReadConversion, LiteralRun;
  }

  lemma {:induction false} LiteralAre(s: seq<char>)
    ensures '%' !in s[..LiteralRun(s)] && (s != [] && s[0] != '%' ==> LiteralRun(s) > 0)
  {
    if s != [] && s[0] != '%' {
      LiteralAre(s[1..]);
      assert s[..LiteralRun(s)] == [s[0]] + s[1..][..LiteralRun(s[1..])];
    }
  }

  lemma PlainRecognised(item: Item, f: string, w: string, p: string, l: string)
    requires item.Percent? || (item.Literal? && item.text != [] && '%' !in item.text)
    ensures Recognised(item, f, w, p, l)
  {
  }

  lemma {:induction false} FlagsAre(s: seq<char>)
    ensures var n := FlagRun(s);
            (forall i :: 0 <= i < n ==> IsFlag(s[i])) && (n < |s| ==> !IsFlag(s[n]))
  {
    if s != [] && IsFlag(s[0]) {
      FlagsAre(s[1..]);
      assert forall i :: 1 <= i < FlagRun(s) ==> s[i] == s[1..][i - 1];
    }
  }

  lemma {:induction false} NumbersAre(s: seq<char>)
    ensures var n := DigitRun(s, 10);
            (forall i :: 0 <= i < n ==> '0' <= s[i] <= '9') && (n < |s| ==> !('0' <= s[n] <= '9'))
  {
    if s != [] && '0' <= s[0] <= '9' {
      NumbersAre(s[1..]);
      assert forall i :: 1 <= i < DigitRun(s, 10) ==> s[i] == s[1..][i - 1];
    }
  }

  lemma PiecesTaken(s: seq<char>) returns (f: string, w: string, p: string, l: string, tail: string)
    requires s == [] || s[0] != '%'
    ensures IsDirective(f, w, p, l) && |tail| <= 1 && (tail == "" ==> |s| == |f| + |w| + |p| + |l|)
    ensures if tail != "" && Converts(tail[0]) then ReadConversion(s) == ItemOf(f, w, p, l, tail[0])
            else Strange(f, w, p, l, tail) && ReadConversion(s) == UnknownOf(f, w, p, l, tail)
  {
    hide *;
    f := s[..FlagRun(s)];
    var s1 := s[|f|..];
    FlagsAre(s);
    w := SpellAmount(ReadAmount(s1));
    WidthRead(s1);
    var s2 := s1[|w|..];
    p := SpellPrecision(ReadPrecision(s2));
    PrecisionRead(s2);
    var s3 := s2[|p|..];
    l := SpellLength(ReadLength(s3));
    LengthRead(s3);
    var s4 := s3[|l|..];
    ConversionIs(s, s1, s2, s3, s4);
    DirectiveIs(f, w, p, l);
    tail := if s4 == [] then "" else [s4[0]];
    if tail != "" {
      Specifiers(tail[0]);
      if !Converts(tail[0]) {
        Longest(s, f, w, p, l, s1, s2, s3, s4);
      }
    }
    ItemsAre(f, w, p, l, tail);
  }

  lemma ItemsAre(f: string, w: string, p: string, l: string, tail: string)
    ensures tail != "" ==>
              ItemOf(f, w, p, l, tail[0]) == Conversion(f, WidthAmount(w), PrecisionAmount(p), LengthNamed(l), tail[0])
    ensures UnknownOf(f, w, p, l, tail) == Unknown(f, WidthAmount(w), PrecisionAmount(p), LengthNamed(l), tail)
    ensures Strange(f, w, p, l, "")
  {
  }

  lemma DirectiveIs(f: string, w: string, p: string, l: string)
    requires forall i :: 0 <= i < |f| ==> IsFlag(f[i])
    requires w == "*" || ((forall i :: 0 <= i < |w| ==> '0' <= w[i] <= '9') && (w != "" ==> w[0] != '0'))
    requires p == "" || p == ".*" || (p[0] == '.' && forall i :: 1 <= i < |p| ==> '0' <= p[i] <= '9')
    requires l in ["", "hh", "h", "l", "ll", "z", "t", "j", "L"]
    ensures IsDirective(f, w, p, l)
  {
  }

  lemma WidthRead(s: seq<char>)
    requires s != [] ==> !IsFlag(s[0])
    ensures var a := ReadAmount(s);
            var w := SpellAmount(a);
            && WidthAmount(w) == a && |w| <= |s|
            && (w == "*" || ((forall i :: 0 <= i < |w| ==> '0' <= w[i] <= '9') && (w != "" ==> w[0] != '0')))
            && (|w| < |s| ==> (w == "" ==> s[0] != '*') && (w != "*" ==> !('0' <= s[|w|] <= '9')))
  {
    NumbersAre(s);
  }

  lemma PrecisionRead(s: seq<char>)
    ensures var a := ReadPrecision(s);
            var p := SpellPrecision(a);
            && PrecisionAmount(p) == a && |p| <= |s|
            && (p == "" || p == ".*" || (p[0] == '.' && forall i :: 1 <= i < |p| ==> '0' <= p[i] <= '9'))
            && (|p| < |s| ==>
                  && (p == "" ==> s[0] != '.') && (p == "." ==> s[1] != '*')
                  && (p != "" && p != ".*" ==> !('0' <= s[|p|] <= '9')))
  {
    if s != [] && s[0] == '.' {
      NumbersAre(s[1..]);
    }
  }

  lemma LengthRead(s: seq<char>)
    ensures var a := ReadLength(s);
            var l := SpellLength(a);
            && LengthNamed(l) == a && |l| <= |s| && l in ["", "hh", "h", "l", "ll", "z", "t", "j", "L"]
            && (|l| < |s| ==>
                  && (l == "" ==> s[0] !in ['h', 'l', 'z', 't', 'j', 'L'])
                  && (l == "h" ==> s[1] != 'h') && (l == "l" ==> s[1] != 'l'))
  {
  }

  /** What stops each piece. */
  lemma Longest(s: seq<char>, f: string, w: string, p: string, l: string,
      s1: seq<char>, s2: seq<char>, s3: seq<char>, s4: seq<char>)
    requires |f| <= |s| && s1 == s[|f|..] && |w| <= |s1| && s2 == s1[|w|..] && |p| <= |s2| && s3 == s2[|p|..]
    requires |l| <= |s3| && s4 == s3[|l|..] && s4 != [] && !Converts(s4[0]) && s[0] != '%'
    requires s1 != [] ==> !IsFlag(s1[0])
    requires |w| < |s1| ==> (w == "" ==> s1[0] != '*') && (w != "*" ==> !('0' <= s1[|w|] <= '9'))
    requires |p| < |s2| ==>
               && (p == "" ==> s2[0] != '.') && (p == "." ==> s2[1] != '*')
               && (p != "" && p != ".*" ==> !('0' <= s2[|p|] <= '9'))
    requires |l| < |s3| ==>
               && (l == "" ==> s3[0] !in ['h', 'l', 'z', 't', 'j', 'L'])
               && (l == "h" ==> s3[1] != 'h') && (l == "l" ==> s3[1] != 'l')
    ensures Strange(f, w, p, l, [s4[0]])
  {
    hide Converts;
    if l == "" && p == "" {
      assert s4[0] == s1[|w|];
    }
  }

  lemma Specifiers(c: char)
    ensures IsSpecifier(c) <==> Converts(c)
  {
    if c == 'd' || c == 'i' || c == 'u' || c == 'o' || c == 'x' || c == 'X' {
    } else if c == 'f' || c == 'F' || c == 'e' || c == 'E' || c == 'g' || c == 'G' || c == 'a' || c == 'A' {
    }
  }

  lemma ConversionRecognised(f: string, w: string, p: string, l: string, c: char)
    requires IsDirective(f, w, p, l) && Converts(c)
    ensures Recognised(ItemOf(f, w, p, l, c), f, w, p, l)
    ensures ItemOf(f, w, p, l, c) == Conversion(f, WidthAmount(w), PrecisionAmount(p), LengthNamed(l), c)
  {
    hide Spell, Directive, IsDirective, Converts, LengthNamed;
    Named(f, w, p, l, c);
  }

  lemma UnknownRecognised(f: string, w: string, p: string, l: string, tail: string)
    requires IsDirective(f, w, p, l) && (tail == "" || Strange(f, w, p, l, tail))
    ensures Recognised(UnknownOf(f, w, p, l, tail), f, w, p, l)
    ensures UnknownOf(f, w, p, l, tail) == Unknown(f, WidthAmount(w), PrecisionAmount(p), LengthNamed(l), tail)
    ensures |Spell(UnknownOf(f, w, p, l, tail))| == 1 + |f| + |w| + |p| + |l| + |tail|
  {
    hide SpellAmount, SpellPrecision, SpellLength, LengthNamed, IsDirective;
    assert Strange(f, w, p, l, "");
    hide Strange;
    NamedAmounts(f, w, p, l);
    NamedLength(f, w, p, l);
  }

  /** Such a piece of a format is one item, takes the arguments of its stars, and prints itself. */
  lemma UnknownDirective(f: string, w: string, p: string, l: string, tail: string, args: seq<Arg>)
    requires IsDirective(f, w, p, l) && Strange(f, w, p, l, tail) && StarsGiven(w, p, args)
    ensures var text := "%" + f + w + p + l + tail;
            && Parse(text) == [UnknownOf(f, w, p, l, tail)] && AllNeeds(Parse(text)) == Place(w, p)
            && Supplied(Parse(text), args) && Render(Parse(text), args, 0) == Printed(text, [], true)
  {
    hide *;
    UnknownParsed(f, w, p, l, tail);
    var item := UnknownOf(f, w, p, l, tail);
    UnknownRecognised(f, w, p, l, tail);
    UnknownSupplied(f, w, p, l, tail, args);
    OneNeed(item);
    OneItem(item, args, 0);
    PlainRenders(item, args, 0);
  }

  lemma OneNeed(item: Item)
    ensures AllNeeds([item]) == Needs(item)
  {
    hide Needs;
    assert [item][1..] == [];
  }

  lemma UnknownSupplied(f: string, w: string, p: string, l: string, tail: string, args: seq<Arg>)
    requires IsDirective(f, w, p, l) && StarsGiven(w, p, args) && Strange(f, w, p, l, tail)
    ensures var item := UnknownOf(f, w, p, l, tail);
            && ItemSupplied(item, args) && Needs(item) == Place(w, p) <= |args|
            && Spell(item) == "%" + f + w + p + l + tail
  {
    hide Spell, LengthNamed, IsDirective, Strange;
    UnknownRecognised(f, w, p, l, tail);
  }

  lemma UnknownParsed(f: string, w: string, p: string, l: string, tail: string)
    requires IsDirective(f, w, p, l) && Strange(f, w, p, l, tail)
    ensures Parse("%" + f + w + p + l + tail) == [UnknownOf(f, w, p, l, tail)]
  {
    hide *;
    var s3 := l + tail;
    var s2 := p + s3;
    var s1 := w + s2;
    var s := f + s1;
    var item := UnknownOf(f, w, p, l, tail);
    UnknownRead(f, w, p, l, tail);
    UnknownRecognised(f, w, p, l, tail);
    Stops(f, w, p, l, tail);
    NextRead(s);
    Joined(f, w, p, l, tail);
    ParseOne(['%'] + s, item);
  }

  lemma UnknownRead(f: string, w: string, p: string, l: string, tail: string)
    requires IsDirective(f, w, p, l) && Strange(f, w, p, l, tail)
    ensures ReadConversion(f + (w + (p + (l + tail)))) == UnknownOf(f, w, p, l, tail)
  {
    hide *;
    var s3 := l + tail;
    var s2 := p + s3;
    var s1 := w + s2;
    var s := f + s1;
    Stops(f, w, p, l, tail);
    FlagRunOf(f, s1);
    PiecesOf(f, w, p, l, tail);
    AmountReads(w, s2);
    PrecisionReads(p, s3);
    LengthReads(l, tail);
    NamedAmounts(f, w, p, l);
    NamedLength(f, w, p, l);
    Behind(f, s1);
    Behind(w, s2);
    Behind(p, s3);
    Behind(l, tail);
    ConversionIs(s, s1, s2, s3, tail);
    UnknownRecognised(f, w, p, l, tail);
  }

  lemma Behind(s: string, rest: string)
    ensures (s + rest)[..|s|] == s && (s + rest)[|s|..] == rest
  {
  }

  lemma PiecesOf(f: string, w: string, p: string, l: string, tail: string)
    requires IsDirective(f, w, p, l) && Strange(f, w, p, l, tail)
    ensures w == "*" || forall i :: 0 <= i < |w| ==> '0' <= w[i] <= '9'
    ensures p == "" || p == ".*" || (p[0] == '.' && forall i :: 1 <= i < |p| ==> '0' <= p[i] <= '9')
    ensures l in ["", "hh", "h", "l", "ll", "z", "t", "j", "L"] && |tail| <= 1
    ensures tail != "" ==>
              && (l == "" ==> tail[0] !in ['h', 'l', 'z', 't', 'j', 'L'])
              && (l == "h" ==> tail[0] != 'h') && (l == "l" ==> tail[0] != 'l')
    ensures tail == (if tail == "" then "" else [tail[0]])
    ensures tail != "" ==> !Converts(tail[0])
  {
    hide Converts;
  }

  lemma Joined(f: string, w: string, p: string, l: string, tail: string)
    ensures ['%'] + (f + (w + (p + (l + tail)))) == "%" + f + w + p + l + tail
  {
  }

  lemma ParseOne(text: string, item: Item)
    requires text != [] && NextItem(text) == item && Spell(item) == text
    ensures Parse(text) == [item]
  {
    hide *;
    ParseStep(text);
    assert text[|text|..] == [];
    ParseStep([]);
  }

  lemma NextRead(s: seq<char>)
    requires s == [] || s[0] != '%'
    ensures NextItem(['%'] + s) == ReadConversion(s)
  {
    hide ReadConversion;
    assert (['%'] + s)[1..] == s;
  }

  /** Each piece ends where the next one starts. */
  lemma Stops(f: string, w: string, p: string, l: string, tail: string)
    requires IsDirective(f, w, p, l) && Strange(f, w, p, l, tail)
    ensures forall i :: 0 <= i < |f| ==> IsFlag(f[i])
    ensures tail != [] ==> !IsSpecifier(tail[0])
    ensures var s1, s2, s3 := w + (p + (l + tail)), p + (l + tail), l + tail;
            && (s1 != [] ==> !IsFlag(s1[0]))
            && (s2 != [] ==> (w == "" ==> s2[0] != '*') && (w != "*" ==> !('0' <= s2[0] <= '9')))
            && (s3 != [] ==>
                  && (p == "" ==> s3[0] != '.') && (p == "." ==> s3[0] != '*')
                  && (p != "" && p != ".*" ==> !('0' <= s3[0] <= '9')))
            && (f + s1 == [] || (f + s1)[0] != '%')
  {
    hide *;
    PiecesOf(f, w, p, l, tail);
    if tail != [] {
      Specifiers(tail[0]);
    }
    LengthStops(f, w, p, l, tail);
    PrecisionStops(f, w, p, l, tail);
    WidthStops(f, w, p, l, tail);
    FlagsAreFlags(f, w, p, l);
    Front(f, w + (p + (l + tail)));
  }

  lemma FlagsAreFlags(f: string, w: string, p: string, l: string)
    requires IsDirective(f, w, p, l)
    ensures forall i :: 0 <= i < |f| ==> IsFlag(f[i])
    ensures f != "" ==> f[0] != '%'
  {
  }

  lemma LengthStops(f: string, w: string, p: string, l: string, tail: string)
    requires IsDirective(f, w, p, l) && Strange(f, w, p, l, tail)
    ensures var s := l + tail;
            s != [] ==>
              && (p == "" ==> s[0] != '.') && (p == "." ==> s[0] != '*')
              && (p != "" && p != ".*" ==> !('0' <= s[0] <= '9'))
  {
    hide Converts;
    LengthStarts(l, tail);
  }

  lemma PrecisionStops(f: string, w: string, p: string, l: string, tail: string)
    requires IsDirective(f, w, p, l) && Strange(f, w, p, l, tail)
    ensures var s := p + (l + tail);
            s != [] ==> (w == "" ==> s[0] != '*') && (w != "*" ==> !('0' <= s[0] <= '9'))
  {
    hide Converts;
    LengthStarts(l, tail);
    Front(p, l + tail);
  }

  lemma WidthStops(f: string, w: string, p: string, l: string, tail: string)
    requires IsDirective(f, w, p, l) && Strange(f, w, p, l, tail)
    ensures var s := w + (p + (l + tail));
            s != [] ==> !IsFlag(s[0]) && (f == "" ==> s[0] != '%')
  {
    hide Converts;
    LengthStarts(l, tail);
    Front(p, l + tail);
    Front(w, p + (l + tail));
  }

  lemma Front(a: string, b: string)
    ensures a != "" ==> a + b != "" && (a + b)[0] == a[0]
    ensures a == "" ==> a + b == b
  {
  }

  lemma LengthStarts(l: string, tail: string)
    requires l in ["", "hh", "h", "l", "ll", "z", "t", "j", "L"]
    ensures l == "" ==> l + tail == tail
    ensures l != "" ==> (l + tail)[0] in ['h', 'l', 'z', 't', 'j', 'L']
  {
    Front(l, tail);
  }

  lemma AmountReads(w: string, rest: string)
    requires w == "*" || forall i :: 0 <= i < |w| ==> '0' <= w[i] <= '9'
    requires rest != [] ==> (w == "" ==> rest[0] != '*') && (w != "*" ==> !('0' <= rest[0] <= '9'))
    ensures ReadAmount(w + rest) == WidthAmount(w)
  {
    if w != "*" {
      NumberRunOf(w, rest);
      assert (w + rest)[..|w|] == w;
      assert w != "" ==> (w + rest)[0] == w[0];
      assert w == "" ==> w + rest == rest;
    }
  }

  lemma PrecisionReads(p: string, rest: string)
    requires p == "" || p == ".*" || (p[0] == '.' && forall i :: 1 <= i < |p| ==> '0' <= p[i] <= '9')
    requires rest != [] ==>
               && (p == "" ==> rest[0] != '.') && (p == "." ==> rest[0] != '*')
               && (p != "" && p != ".*" ==> !('0' <= rest[0] <= '9'))
    ensures ReadPrecision(p + rest) == PrecisionAmount(p)
  {
    hide ReadAmount;
    if p == "" {
      assert p + rest == rest;
    } else {
      var w := p[1..];
      assert p == ['.'] + w && (p + rest)[1..] == w + rest;
      assert forall i :: 0 <= i < |w| ==> w[i] == p[i + 1];
      assert w == "*" <==> p == ".*";
      AmountReads(w, rest);
    }
  }

  lemma LengthReads(l: string, tail: string)
    requires l in ["", "hh", "h", "l", "ll", "z", "t", "j", "L"] && |tail| <= 1
    requires tail != "" ==>
               && (l == "" ==> tail[0] !in ['h', 'l', 'z', 't', 'j', 'L'])
               && (l == "h" ==> tail[0] != 'h') && (l == "l" ==> tail[0] != 'l')
    ensures ReadLength(l + tail) == LengthNamed(l)
  {
    var s := l + tail;
    assert l != "" ==> s[0] == l[0];
    assert |l| > 1 ==> s[1] == l[1];
    assert |l| == 1 && tail != "" ==> s[1] == tail[0];
  }

  lemma {:induction false} SpellAllAppend(a: seq<Item>, b: seq<Item>)
    ensures SpellAll(a + b) == SpellAll(a) + SpellAll(b)
  {
    hide Spell;
    if a == [] {
      assert a + b == b;
    } else {
      assert (a + b)[1..] == a[1..] + b;
      SpellAllAppend(a[1..], b);
    }
  }

  /** The item at one place of a format, between the texts in front of it and behind it. It prints what it
      prints alone with the arguments that are left to it: a conversion but %n as a format of its own, text
      as it is, %% a per cent sign, and anything unrecognised as it is. A conversion that fails is the last. */
  lemma AnyPlace(format: seq<char>, i: nat, args: seq<Arg>)
    requires i < |Parse(format)| && Supplied(Parse(format), args)
    ensures var items := Parse(format);
            var item, before, after := items[i], items[..i], items[i + 1..];
            && format == SpellAll(before) + Spell(item) + SpellAll(after)
            && Supplied(before, args) && AllNeeds(before) <= |args|
            && var o, rest := Render(before, args, 0), args[AllNeeds(before)..];
               var count := Advance(0, o.text);
               && Supplied([item], rest) && Needs(item) <= |rest| && Supplied(after, rest[Needs(item)..])
               && var one := Render([item], rest, count);
                  && Render(items, args, 0) ==
                     (if !o.ok then o
                      else if !one.ok then Followed(o, one)
                      else Followed(o, Followed(one, Render(after, rest[Needs(item)..], Advance(count, one.text)))))
                  && match item
                     case Literal(text) => one == Printed(text, [], true)
                     case Percent => one == Printed("%", [], true)
                     case Conversion(_, _, _, _, c) =>
                       && Parse(Spell(item)) == [item]
                       && (c != 'n' ==> one == Render(Parse(Spell(item)), rest, 0))
                     case Unknown(_, _, _, _, _) => one == Printed(Spell(item), [], true)
  {
    hide *;
    var items := Parse(format);
    var item, before, after := items[i], items[..i], items[i + 1..];
    assert items == before + ([item] + after);
    SpellParsed(format);
    SpellAllAppend(before, [item] + after);
    SpellAllAppend([item], after);
    SpellOne(item);
    AdvanceBelow(0, "");
    RenderAppend(before, [item] + after, args, 0);
    var o, rest := Render(before, args, 0), args[AllNeeds(before)..];
    SuppliedFirst([item] + after, rest);
    var count := Advance(0, o.text);
    AdvanceBelow(0, o.text);
    FirstRendered(item, after, rest, count);
    var f, w, p, l := EveryItem(format, i);
    if item.Conversion? {
      RecognisedParses(item, f, w, p, l);
      if item.specifier != 'n' {
        CountFree(item, rest, count);
      }
    } else {
      PlainRenders(item, rest, count);
    }
  }

  lemma AdvanceBelow(count: nat, text: seq<char>)
    ensures Advance(count, text) < SIZE_MODULUS
  {
  }

  lemma FirstRendered(item: Item, after: seq<Item>, args: seq<Arg>, count: nat)
    requires Supplied([item] + after, args)
    ensures ItemSupplied(item, args) && Needs(item) <= |args|
    ensures Supplied([item], args) && Supplied(after, args[Needs(item)..])
    ensures Render([item], args, count) == RenderItem(item, args, count)
    ensures var one := Render([item], args, count);
            Render([item] + after, args, count) ==
              if !one.ok then one
              else Followed(one, Render(after, args[Needs(item)..], Advance(count, one.text)))
  {
    hide ItemSupplied, Needs, RenderItem, Advance, Followed;
    SuppliedFirst([item] + after, args);
    assert ([item] + after)[1..] == after;
    OneItem(item, args, count);
  }

  lemma PlainRenders(item: Item, args: seq<Arg>, count: nat)
    requires ItemSupplied(item, args) && !item.Conversion?
    ensures RenderItem(item, args, count) ==
            Printed(match item { case Literal(text) => text case Percent => "%" case _ => Spell(item) }, [], true)
  {
    hide Spell;
  }

  lemma RecognisedParses(item: Item, f: string, w: string, p: string, l: string)
    requires Recognised(item, f, w, p, l) && item.Conversion?
    ensures Parse(Spell(item)) == [item]
  {
    hide *;
    RecognisedDirective(item, f, w, p, l);
    Specifiers(item.specifier);
    ParsedDirective(f, w, p, l, item.specifier);
  }

  lemma RecognisedDirective(item: Item, f: string, w: string, p: string, l: string)
    requires Recognised(item, f, w, p, l) && item.Conversion?
    ensures item == ItemOf(f, w, p, l, item.specifier) && Spell(item) == Directive(f, w, p, l, item.specifier)
    ensures Converts(item.specifier)
    ensures IsDirective(f, w, p, l)
  {
    hide ItemOf, Spell, Directive, IsDirective;
  }

  /** Only %n looks at what has been printed. */
  lemma CountFree(item: Item, args: seq<Arg>, count: nat)
    requires item.Conversion? && item.specifier != 'n' && ItemSupplied(item, args)
    requires Supplied([item], args)
    ensures Render([item], args, 0) == RenderItem(item, args, count)
  {
    hide *;
    SuppliedFirst([item], args);
    OneItem(item, args, 0);
    SameAnywhere(item, args, count);
  }

  lemma SameAnywhere(item: Item, args: seq<Arg>, count: nat)
    requires item.Conversion? && item.specifier != 'n' && ItemSupplied(item, args)
    ensures RenderItem(item, args, 0) == RenderItem(item, args, count)
  {
    hide Stars, AreInts, TextPrinted, RenderString, Field, StoredCount, IntegerText, FloatText, DataOf;
    hide WidthOf, PrecisionOf, FlagsOf;
  }

  /** %n anywhere in a format stores the number of characters printed in front of it as a signed integer of
      8 (hh), 16 (h), 64 (l, ll, z, t, j) or 32 bits: the one congruent to it in that range, so the number
      itself while it lies there. It prints nothing. */
  lemma CountDirective(format: seq<char>, i: nat, args: seq<Arg>, f: string, w: string, p: string, l: string)
    requires i < |Parse(format)| && Supplied(Parse(format), args)
    requires Recognised(Parse(format)[i], f, w, p, l) && Parse(format)[i].Conversion?
    requires Parse(format)[i].specifier == 'n'
    ensures Supplied(Parse(format)[..i], args) && Supplied(Parse(format)[..i + 1], args)
    ensures var o, more := Render(Parse(format)[..i], args, 0), Render(Parse(format)[..i + 1], args, 0);
            var modulus :=
              if l == "hh" then 0x100 else if l == "h" then 0x1_0000
              else if l in ["l", "ll", "z", "t", "j"] then 0x1_0000_0000_0000_0000 else 0x1_0000_0000;
            o.ok ==>
              && more.ok && more.text == o.text && |more.stores| == |o.stores| + 1 && o.stores <= more.stores
              && var stored := more.stores[|o.stores|];
                 && -modulus <= 2 * stored < modulus && (stored - |o.text|) % modulus == 0
                 && (2 * |o.text| < modulus ==> stored == |o.text|)
  {
    hide *;
    var items := Parse(format);
    var a, item := items[..i], items[i];
    assert items == items[..i + 1] + items[i + 1..] && items[..i + 1] == a + [item] == a + ([item] + []);
    AdvanceBelow(0, "");
    RenderAppend(items[..i + 1], items[i + 1..], args, 0);
    CountStores(a, item, [], args);
    CountPrintsNothing(a, item, args);
    CountModulus(item, f, w, p, l);
  }

  lemma CountPrintsNothing(a: seq<Item>, item: Item, args: seq<Arg>)
    requires item.Conversion? && item.specifier == 'n' && Supplied(a + [item], args)
    ensures Supplied(a, args)
    ensures var o, more := Render(a, args, 0), Render(a + [item], args, 0);
            o.ok ==> more.ok && more.text == o.text && |more.stores| == |o.stores| + 1
  {
    hide *;
    AdvanceBelow(0, "");
    RenderAppend(a, [item], args, 0);
    var o, rest := Render(a, args, 0), args[AllNeeds(a)..];
    SuppliedFirst([item], rest);
    var count := Advance(0, o.text);
    OneItem(item, rest, count);
    CountItem(item, rest, count);
    FollowedIs(o, Render([item], rest, count));
  }

  lemma CountModulus(item: Item, f: string, w: string, p: string, l: string)
    requires Recognised(item, f, w, p, l) && item.Conversion?
    ensures l == "hh" <==> item.length == CharLength
    ensures l == "h" <==> item.length == ShortLength
    ensures l in ["l", "ll", "z", "t", "j"] <==>
              item.length !in {CharLength, ShortLength, DefaultLength, LongDoubleLength}
  {
    hide Spell, Directive, Converts, Needs;
  }

  /** Text without a per cent sign is printed as it is, and two per cent signs are printed as one. */
  lemma PlainText(text: string, args: seq<Arg>)
    requires '%' !in text
    ensures Supplied(Parse(text), args) && Render(Parse(text), args, 0) == Printed(text, [], true)
    ensures Supplied(Parse("%%"), args) && Render(Parse("%%"), args, 0) == Printed("%", [], true)
  {
    hide *;
    PlainItem(Percent, args);
    ParseSpelled([Percent]);
    if text == "" {
      ParseStep("");
      NoItems(args);
    } else {
      PlainItem(Literal(text), args);
      ParseSpelled([Literal(text)]);
    }
  }

  lemma NoItems(args: seq<Arg>)
    ensures Supplied([], args) && Render([], args, 0) == Printed([], [], true)
  {
  }

  lemma PlainItem(item: Item, args: seq<Arg>)
    requires item.Percent? || (item.Literal? && item.text != [] && '%' !in item.text)
    ensures AllWellFormed([item]) && SpellAll([item]) == if item.Literal? then item.text else "%%"
    ensures Supplied([item], args)
    ensures Render([item], args, 0) == Printed(if item.Literal? then item.text else "%", [], true)
  {
    SpellOne(item);
    OneItem(item, args, 0);
  }

  /** The arguments of items a, and behind them those of items b, are what both together ask for. */
  lemma {:induction false} SuppliedTogether(a: seq<Item>, b: seq<Item>, args: seq<Arg>)
    requires Supplied(a, args) && AllNeeds(a) <= |args| && Supplied(b, args[AllNeeds(a)..])
    ensures Supplied(a + b, args)
  {
    hide ItemSupplied, Needs;
    if a == [] {
      assert a + b == b && args[0..] == args;
    } else {
      var k := Needs(a[0]);
      assert (a + b)[1..] == a[1..] + b;
      assert args[k..][AllNeeds(a[1..])..] == args[AllNeeds(a)..];
      SuppliedTogether(a[1..], b, args[k..]);
    }
  }

  /** The value that a conversion takes. */
  ghost predicate Suitable(c: char, l: string, precision: int, arg: Arg) {
    if c in ['d', 'i', 'u', 'o', 'x', 'X', 'p'] then arg.IntegerArg?
    else if c in ['f', 'F', 'e', 'E', 'g', 'G', 'a', 'A'] then arg.RealArg? && Representable(arg.v)
    else if c == 'c' then arg.CharArg?
    else if c == 's' then arg.TextArg? && SuitableText(arg.text, l, precision)
    else arg.CountArg?
  }

  /** What a caller owes a directive: ints for its stars and behind them a value of its kind. */
  lemma DirectiveSupplied(f: string, w: string, p: string, l: string, c: char, args: seq<Arg>)
    requires IsDirective(f, w, p, l) && Converts(c)
    ensures Supplied(Parse(Directive(f, w, p, l, c)), args) <==>
              Given(w, p, args) && Suitable(c, l, MannerFor(f, w, p, args).precision, args[Place(w, p)])
  {
    hide *;
    Specifiers(c);
    ParsedDirective(f, w, p, l, c);
    var item := ItemOf(f, w, p, l, c);
    StarsAreInts(f, w, p, l, c, args);
    OneSupplied(item, args);
    if Given(w, p, args) {
      StateHere(f, w, p, l, c, args);
      LongNamed(f, w, p, l);
      FitsMeans(StateOf(item, args), args[Place(w, p)], c, l);
    }
  }

  lemma StarsAreInts(f: string, w: string, p: string, l: string, c: char, args: seq<Arg>)
    ensures var item := ItemOf(f, w, p, l, c);
            && item.specifier == c && Stars(item.width, item.precision) == Place(w, p)
            && (AreInts(args, Place(w, p)) && Place(w, p) < |args| <==> Given(w, p, args))
  {
    hide LengthNamed;
  }

  lemma OneSupplied(item: Item, args: seq<Arg>)
    requires item.Conversion? && IsSpecifier(item.specifier)
    ensures var k := Stars(item.width, item.precision);
            Supplied([item], args) <==> AreInts(args, k) && k < |args| && ValueFits(StateOf(item, args), args[k])
  {
    hide IsSpecifier, AreInts, StateOf, ValueFits, Stars;
    assert [item][1..] == [];
    NoItems(args[..0]);
  }

  lemma FitsMeans(state: State, arg: Arg, c: char, l: string)
    requires Converts(c) && IsSpecifier(c) && state.specifier == SpecifierOf(c)
    requires state.length == LongLength <==> l == "l"
    ensures ValueFits(state, arg) <==> Suitable(c, l, state.precision, arg)
  {
    hide *;
    SpecifierKinds(c);
    if arg.RealArg? {
      RepresentableSplits(arg.v);
    }
    FitsByKind(state, arg, c, l);
  }

  lemma SpecifierKinds(c: char)
    requires Converts(c) && IsSpecifier(c)
    ensures c in ['d', 'i', 'u', 'o', 'x', 'X', 'p'] <==>
              SpecifierOf(c) in {SignedDecimal, UnsignedDecimal, Octal, Hex, Pointer}
    ensures c in ['f', 'F', 'e', 'E', 'g', 'G', 'a', 'A'] <==> SpecifierOf(c) in {Float, Scientific, Smart, HexFloat}
    ensures (c == 'c' <==> SpecifierOf(c) == Char) && (c == 's' <==> SpecifierOf(c) == String)
  {
    hide IsSpecifier;
  }

  lemma FitsByKind(state: State, arg: Arg, c: char, l: string)
    requires c in ['d', 'i', 'u', 'o', 'x', 'X', 'p'] <==>
               state.specifier in {SignedDecimal, UnsignedDecimal, Octal, Hex, Pointer}
    requires c in ['f', 'F', 'e', 'E', 'g', 'G', 'a', 'A'] <==> state.specifier in {Float, Scientific, Smart, HexFloat}
    requires (c == 'c' <==> state.specifier == Char) && (c == 's' <==> state.specifier == String)
    requires state.length == LongLength <==> l == "l"
    requires arg.RealArg? ==> (Splits(arg.v) <==> Representable(arg.v))
    ensures ValueFits(state, arg) <==> Suitable(c, l, state.precision, arg)
  {
    hide Splits, Representable;
    if state.specifier == String && arg.TextArg? {
      TextFitsMeans(state, arg.text, l);
    }
  }

  lemma TextFitsMeans(state: State, text: Text, l: string)
    requires state.length == LongLength <==> l == "l"
    ensures TextFits(state, text) <==> SuitableText(text, l, state.precision)
  {
  }
}
