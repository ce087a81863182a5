/** What fprintf prints for the items of a format and their arguments. */
module Rendering {
  import opened Arith
  import opened Numerals
  import opened Resumable
  import opened Sinks
  import opened IntegerFormat
  import opened FloatTexts
  import opened FloatFormat
  import opened Formats

  /** A string argument: no string, bytes, or wide characters. */
  datatype Text = Null | Bytes(bytes: seq<char>) | Wide(units: seq<int>)

  /** An argument: a width or precision, the 64 bits of an integer or a pointer, a character, a string,
      a floating-point number, or a place for %n. */
  datatype Arg =
    | IntArg(i: int)
    | IntegerArg(u: uint64)
    | CharArg(code: nat)
    | TextArg(text: Text)
    | RealArg(v: Real)
    | CountArg

  /** Text printed, counts stored by %n, and whether no conversion failed. */
  datatype Printed = Printed(text: seq<char>, stores: seq<int>, ok: bool)

  // ----- The state of a conversion

  function FlagsOf(f: seq<char>): Flags {
    Flags('-' in f, '+' in f, ' ' in f, '0' in f, '#' in f)
  }

  function SpecifierOf(c: char): Specifier
    requires IsSpecifier(c)
  {
    match c
    case 'd' => SignedDecimal
    case 'i' => SignedDecimal
    case 'u' => UnsignedDecimal
    case 'o' => Octal
    case 'x' => Hex
    case 'X' => Hex
    case 'f' => Float
    case 'F' => Float
    case 'e' => Scientific
    case 'E' => Scientific
    case 'g' => Smart
    case 'G' => Smart
    case 'a' => HexFloat
    case 'A' => HexFloat
    case 'c' => Char
    case 's' => String
    case 'p' => Pointer
    case _ => Count
  }

  /** The arguments that a width and a precision take. */
  function Stars(width: Amount, precision: Amount): nat {
    (if width.Star? then 1 else 0) + (if precision.Star? then 1 else 0)
  }

  predicate AreInts(args: seq<Arg>, n: nat) {
    n <= |args| && forall i :: 0 <= i < n ==> args[i].IntArg? && -0x8000_0000 <= args[i].i < 0x8000_0000
  }

  function WidthOf(width: Amount, args: seq<Arg>): int
    requires width.Star? ==> AreInts(args, 1)
  {
    match width
    case Absent => 0
    case Number(digits) => ValueOf(digits, 10)
    case Star => args[0].i
  }

  function PrecisionOf(precision: Amount, args: seq<Arg>): (p: int)
    requires precision.Star? ==> AreInts(args, 1)
    ensures p >= -1
  {
    match precision
    case Absent => NOT_SPECIFIED
    case Number(digits) => ValueOf(digits, 10)
    case Star => if args[0].i < 0 then NOT_SPECIFIED else args[0].i
  }

  /** A negative width from the arguments means left alignment, which overrides leading zeros. */
  function StateOf(item: Item, args: seq<Arg>): State
    requires item.Conversion? && IsSpecifier(item.specifier) && AreInts(args, Stars(item.width, item.precision))
  {
    var flags := FlagsOf(item.flags);
    var width := WidthOf(item.width, args);
    var rest := args[Stars(item.width, Absent)..];
    assert item.precision.Star? ==> rest[0] == args[Stars(item.width, Absent)];
    var precision := PrecisionOf(item.precision, rest);
    var left := flags.leftAlign || width < 0;
    State(flags.(leftAlign := left, leadingZeros := flags.leadingZeros && !left), Abs(width), precision, item.length,
          SpecifierOf(item.specifier), 'A' <= item.specifier <= 'Z')
  }

  // ----- Strings

  /** The characters of a string in front of its zero, at most `precision` of them unless that is negative. */
  function StringLength<T(==)>(s: seq<T>, zero: T, precision: int): (n: nat)
    ensures n <= |s|
  {
    if s == [] || precision == 0 || s[0] == zero then 0
    else 1 + StringLength(s[1..], zero, if precision < 0 then precision else precision - 1)
  }

  /** A string may lack its zero if the precision stops in time. */
  ghost predicate Readable<T>(s: seq<T>, zero: T, precision: int) {
    zero in s || 0 <= precision <= |s|
  }

  /** StringLength is where reading stops: at a zero or at the precision, and at neither before. */
  lemma {:induction false} StringLengthIs<T>(s: seq<T>, zero: T, precision: int)
    requires Readable(s, zero, precision)
    ensures var n := StringLength(s, zero, precision);
            && zero !in s[..n] && (precision >= 0 ==> n <= precision)
            && (n == precision || (n < |s| && s[n] == zero))
  {
    if !(s == [] || precision == 0 || s[0] == zero) {
      var rest := s[1..];
      assert zero in s ==> zero in rest;
      StringLengthIs(rest, zero, if precision < 0 then precision else precision - 1);
      var n := StringLength(s, zero, precision);
      assert s[..n] == [s[0]] + rest[..n - 1];
    }
  }

  predicate IsAscii(c: int) {
    0 <= c < 0x80
  }

  function Narrowed(units: seq<int>): seq<char>
    requires forall i :: 0 <= i < |units| ==> IsAscii(units[i])
  {
    seq(|units|, i requires 0 <= i < |units| && IsAscii(units[i]) => units[i] as char)
  }

  // ----- Conversions

  const NIL := "(nil)"
  const NULL_TEXT := "(null)\0"

  predicate IsIntegral(specifier: Specifier) {
    specifier in {SignedDecimal, UnsignedDecimal, Octal, Hex, Pointer}
  }

  predicate IsFloating(specifier: Specifier) {
    specifier in {Float, Scientific, Smart, HexFloat}
  }

  ghost predicate TextFits(state: State, text: Text) {
    match text
    case Null => true
    case Bytes(bytes) => state.length != LongLength && Readable(bytes, '\0', state.precision)
    case Wide(units) => state.length == LongLength && Readable(units, 0, state.precision)
  }

  /** The value argument is what the conversion asks its caller for. */
  ghost predicate ValueFits(state: State, arg: Arg) {
    if IsIntegral(state.specifier) then arg.IntegerArg?
    else if IsFloating(state.specifier) then arg.RealArg? && Splits(arg.v)
    else match state.specifier
      case Char => arg.CharArg?
      case String =>
        arg.TextArg? && TextFits(state, arg.text)
      case _ => arg.CountArg?
  }

  /** count as a signed integer of that many bits. */
  function Wrapped(count: nat, modulus: nat): int
    requires modulus > 0
  {
    var low := count % modulus;
    if 2 * low >= modulus then low - modulus else low
  }

  /** 2 to the number of bits of the integer type that a length modifier names. */
  function ModulusOf(length: LengthModifier): (m: nat)
    ensures m > 0
  {
    match length
    case CharLength => 0x100
    case ShortLength => 0x1_0000
    case DefaultLength => 0x1_0000_0000
    case LongDoubleLength => 0x1_0000_0000
    case _ => SIZE_MODULUS
  }

  /** What %n stores for a length modifier. */
  function StoredCount(count: nat, length: LengthModifier): int {
    Wrapped(count, ModulusOf(length))
  }

  /** The low bits of a pattern, extended to 64 again by their sign or by zeros. */
  function Extended(u: uint64, modulus: nat, signed: bool): (r: uint64)
    requires 0 < modulus <= SIZE_MODULUS
  {
    var low := u % modulus;
    if signed && 2 * low >= modulus then low + SIZE_MODULUS - modulus else low
  }

  /** An argument as its conversion reads it: an integer has the type that the length modifier names. */
  function DataOf(state: State, arg: Arg): (data: Arg)
    ensures ValueFits(state, arg) ==> ValueFits(state, data)
  {
    if arg.IntegerArg? && state.specifier in {SignedDecimal, UnsignedDecimal, Octal, Hex} then
      IntegerArg(Extended(arg.u, ModulusOf(state.length), state.specifier == SignedDecimal))
    else arg
  }

  function TextPrinted(state: State, body: seq<char>): Printed {
    Printed(Field(state, "", body, false), [], true)
  }

  function RenderString(state: State, text: Text): Printed {
    match text
    case Null => TextPrinted(state, NULL_TEXT[..StringLength(NULL_TEXT, '\0', state.precision)])
    case Bytes(bytes) => TextPrinted(state, bytes[..StringLength(bytes, '\0', state.precision)])
    case Wide(units) =>
      var s := units[..StringLength(units, 0, state.precision)];
      if forall i :: 0 <= i < |s| ==> IsAscii(s[i]) then TextPrinted(state, Narrowed(s)) else Printed([], [], false)
  }

  function RenderValue(state: State, arg: Arg, count: nat): Printed
    requires ValueFits(state, arg)
  {
    match arg
    case IntegerArg(u) =>
      if state.specifier == Pointer && u == 0 then TextPrinted(state, NIL)
      else Printed(IntegerText(u, state), [], true)
    case RealArg(v) => Printed(FloatText(v, state), [], true)
    case CharArg(code) =>
      if state.length == LongLength && code >= 0x80 then Printed([], [], false)
      else TextPrinted(state, [(code % 0x100) as char])
    case TextArg(text) => RenderString(state, text)
    case CountArg => Printed([], [StoredCount(count, state.length)], true)
    case IntArg(_) => Printed([], [], false)
  }

  // ----- Items

  /** The number of arguments that an item takes: width, precision and value, in this order. */
  function Needs(item: Item): nat {
    match item
    case Conversion(_, w, p, _, _) => Stars(w, p) + 1
    case Unknown(_, w, p, _, _) => Stars(w, p)
    case _ => 0
  }

  ghost predicate ItemSupplied(item: Item, args: seq<Arg>) {
    match item
    case Conversion(_, w, p, _, c) =>
      IsSpecifier(c) && AreInts(args, Stars(w, p)) && Stars(w, p) < |args|
          && ValueFits(StateOf(item, args), args[Stars(w, p)])
    case Unknown(_, w, p, _, _) => AreInts(args, Stars(w, p))
    case _ => true
  }

  function RenderItem(item: Item, args: seq<Arg>, count: nat): Printed
    requires ItemSupplied(item, args)
  {
    match item
    case Literal(text) => Printed(text, [], true)
    case Percent => Printed("%", [], true)
    case Conversion(_, w, p, _, _) =>
      var state := StateOf(item, args);
      RenderValue(state, DataOf(state, args[Stars(w, p)]), count)
    case Unknown(_, _, _, _, _) => Printed(Spell(item), [], true)
  }

  /** The caller passes the arguments that the format asks for. */
  ghost predicate Supplied(items: seq<Item>, args: seq<Arg>) {
    items == [] ||
    (ItemSupplied(items[0], args) && Needs(items[0]) <= |args| && Supplied(items[1..], args[Needs(items[0])..]))
  }

  function Advance(count: nat, text: seq<char>): nat {
    (count + |text|) % SIZE_MODULUS
  }

  function Followed(a: Printed, b: Printed): Printed {
    Printed(a.text + b.text, a.stores + b.stores, b.ok)
  }

  /** The items one after the other, up to one that fails; count is what has been printed before. */
  function Render(items: seq<Item>, args: seq<Arg>, count: nat): Printed
    requires Supplied(items, args)
  {
    if items == [] then Printed([], [], true) else
      var o := RenderItem(items[0], args, count);
      if !o.ok then o
      else Followed(o, Render(items[1..], args[Needs(items[0])..], Advance(count, o.text)))
  }

  function AllNeeds(items: seq<Item>): nat {
    if items == [] then 0 else Needs(items[0]) + AllNeeds(items[1..])
  }

  /** Rendering is a left-to-right pass: behind the items a come the items b, with the arguments that a
      has left and with the text of a counted. */
  lemma {:induction false} RenderAppend(a: seq<Item>, b: seq<Item>, args: seq<Arg>, count: nat)
    requires Supplied(a + b, args) && count < SIZE_MODULUS
    ensures AllNeeds(a) <= |args| && Supplied(a, args) && Supplied(b, args[AllNeeds(a)..])
    ensures var o := Render(a, args, count);
            Render(a + b, args, count) ==
              if !o.ok then o else Followed(o, Render(b, args[AllNeeds(a)..], Advance(count, o.text)))
  {
    hide RenderItem, ItemSupplied, Needs;
    if a == [] {
      assert a + b == b && args[0..] == args;
    } else {
      var k := Needs(a[0]);
      assert (a + b)[1..] == a[1..] + b;
      var o := RenderItem(a[0], args, count);
      RenderAppend(a[1..], b, args[k..], Advance(count, o.text));
      assert args[k..][AllNeeds(a[1..])..] == args[AllNeeds(a)..];
      AdvanceTwice(count, o.text, Render(a[1..], args[k..], Advance(count, o.text)).text);
    }
  }

  lemma AdvanceTwice(count: nat, s: seq<char>, t: seq<char>)
    ensures Advance(Advance(count, s), t) == Advance(count, s + t)
  {
  }

  /** %n stores the number of characters printed so far as a signed integer of 8, 16, 32 or 64 bits: the one
      congruent to it in that range, and so the number itself while it lies there. */
  lemma CountStores(a: seq<Item>, item: Item, b: seq<Item>, args: seq<Arg>)
    requires item.Conversion? && item.specifier == 'n' && Supplied(a + ([item] + b), args)
    ensures Supplied(a, args) && Supplied(a + ([item] + b), args)
    ensures var o, all := Render(a, args, 0), Render(a + ([item] + b), args, 0);
            var modulus :=
              if item.length == CharLength then 0x100
              else if item.length == ShortLength then 0x1_0000
              else if item.length in {DefaultLength, LongDoubleLength} then 0x1_0000_0000
              else 0x1_0000_0000_0000_0000;
            o.ok ==>
              && |all.stores| > |o.stores| && o.text <= all.text && o.stores <= all.stores
              && var stored := all.stores[|o.stores|];
                 && -modulus <= 2 * stored < modulus && (stored - |o.text|) % modulus == 0
                 && (2 * |o.text| < modulus ==> stored == |o.text|)
  {
    hide *;
    CountMeans([], item.length);
    RenderAppend(a, [item] + b, args, 0);
    var o, rest := Render(a, args, 0), args[AllNeeds(a)..];
    if o.ok {
      var count := Advance(0, o.text);
      var after := Render([item] + b, rest, count);
      CountFirst(item, b, rest, count);
      FollowedIs(o, after);
      CountMeans(o.text, item.length);
    }
  }

  lemma FollowedIs(a: Printed, b: Printed)
    ensures Followed(a, b).text == a.text + b.text && Followed(a, b).stores == a.stores + b.stores
            && Followed(a, b).ok == b.ok
  {
  }

  lemma CountFirst(item: Item, b: seq<Item>, args: seq<Arg>, count: nat)
    requires item.Conversion? && item.specifier == 'n' && Supplied([item] + b, args)
    ensures var stores := Render([item] + b, args, count).stores;
            stores != [] && stores[0] == StoredCount(count, item.length)
  {
    hide Supplied, StateOf, StoredCount, Stars;
    var items := [item] + b;
    SuppliedFirst(items, args);
    CountItem(item, args, count);
  }

  lemma SuppliedFirst(items: seq<Item>, args: seq<Arg>)
    requires Supplied(items, args) && items != []
    ensures ItemSupplied(items[0], args) && Needs(items[0]) <= |args| && Supplied(items[1..], args[Needs(items[0])..])
  {
  }

  lemma CountItem(item: Item, args: seq<Arg>, count: nat)
    requires item.Conversion? && item.specifier == 'n' && ItemSupplied(item, args)
    ensures RenderItem(item, args, count) == Printed([], [StoredCount(count, item.length)], true)
  {
    hide StoredCount, ValueFits, RenderValue, StateOf;
    var state, arg := StateOf(item, args), args[Stars(item.width, item.precision)];
    CountState(item, args);
    CountValue(state, arg, count);
  }

  lemma CountState(item: Item, args: seq<Arg>)
    requires item.Conversion? && item.specifier == 'n' && AreInts(args, Stars(item.width, item.precision))
    ensures StateOf(item, args).specifier == Count && StateOf(item, args).length == item.length
  {
    hide Stars, AreInts, WidthOf, PrecisionOf, FlagsOf;
  }

  lemma CountValue(state: State, arg: Arg, count: nat)
    requires state.specifier == Count && ValueFits(state, arg)
    ensures RenderValue(state, arg, count) == Printed([], [StoredCount(count, state.length)], true)
    ensures DataOf(state, arg) == arg
  {
    hide StoredCount;
  }

  lemma CountMeans(text: seq<char>, length: LengthModifier)
    ensures 0 < SIZE_MODULUS && Advance(0, text) == |text| % SIZE_MODULUS
    ensures var stored := StoredCount(|text| % SIZE_MODULUS, length);
            var modulus :=
              if length == CharLength then 0x100
              else if length == ShortLength then 0x1_0000
              else if length in {DefaultLength, LongDoubleLength} then 0x1_0000_0000
              else 0x1_0000_0000_0000_0000;
            && -modulus <= 2 * stored < modulus && (stored - |text|) % modulus == 0
            && (2 * |text| < modulus ==> stored == |text|)
  {
    hide Wrapped;
    var n := |text|;
    WrappedCount(n, 0x100, 0x100_0000_0000_0000);
    WrappedCount(n, 0x1_0000, 0x1_0000_0000_0000);
    WrappedCount(n, 0x1_0000_0000, 0x1_0000_0000);
    WrappedCount(n, 0x1_0000_0000_0000_0000, 1);
  }

  lemma WrappedCount(n: nat, modulus: nat, k: nat)
    requires modulus > 0 && modulus % 2 == 0 && k > 0 && modulus * k == SIZE_MODULUS
    ensures var stored := Wrapped(n % SIZE_MODULUS, modulus);
            && 0 <= 2 * stored + modulus < 2 * modulus && (stored - n) % modulus == 0
            && (2 * n < modulus ==> stored == n)
  {
    hide Wrapped;
    ReducedTwice(n, modulus, k);
    WrappedMeans(n % SIZE_MODULUS, modulus);
  }

  lemma WrappedMeans(count: nat, modulus: nat)
    requires modulus > 0 && modulus % 2 == 0
    ensures var w := Wrapped(count, modulus);
            && 0 <= 2 * w + modulus < 2 * modulus
            && (w == count % modulus || w == count % modulus - modulus)
    ensures 2 * (count % modulus) < modulus ==> Wrapped(count, modulus) == count % modulus
  {
  }

  /** Reducing by a multiple of the modulus first changes nothing. */
  lemma ReducedTwice(x: nat, modulus: nat, k: nat)
    requires modulus > 0 && k > 0
    ensures modulus * k > 0 && x % (modulus * k) % modulus == x % modulus
    ensures (x % modulus - x) % modulus == 0 && (x % modulus - modulus - x) % modulus == 0
    ensures x < modulus ==> x % modulus == x
  {
    hide Mul, Div, Mod;
    ModIs(x, modulus, k);
    DivOfMod(x, modulus, k);
    ModMultiple(x, modulus);
  }

  lemma ModIs(x: nat, m: nat, k: nat)
    requires m > 0 && k > 0
    ensures Mul(m, k) == m * k > 0
    ensures Mod(Mod(x, Mul(m, k)), m) == x % (m * k) % m && Mod(x, m) == x % m
    ensures x < m ==> x % m == x
  {
    MulSign(m, k);
    if x < m {
      DivSmall(x, m);
    }
  }

  lemma ModMultiple(x: nat, m: nat)
    requires m > 0
    ensures (x % m - x) % m == 0 && (x % m - m - x) % m == 0
  {
    var q := x / m;
    DivExact(-q, m);
    DivExact(-q - 1, m);
    MulIs(-q, m);
    MulIs(-q - 1, m);
    DivMod(x, m);
    MulIs(q, m);
    assert x % m - x == Mul(-q, m);
    assert x % m - m - x == Mul(-q - 1, m);
  }
}
