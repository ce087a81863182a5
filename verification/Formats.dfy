/** Format strings: how fprintf splits them into items, and how items are spelled. */
module Formats {
  import opened Sinks
  import opened FloatTexts

  /** A width or a precision: missing, written out (perhaps without any digit), or taken from the arguments. */
  datatype Amount = Absent | Number(digits: seq<char>) | Star

  datatype Item =
    | Literal(text: seq<char>)
    | Percent
    | Conversion(flags: seq<char>, width: Amount, precision: Amount, length: LengthModifier, specifier: char)
    | Unknown(flags: seq<char>, width: Amount, precision: Amount, length: LengthModifier, tail: seq<char>)

  // ----- Spelling

  function SpellAmount(a: Amount): seq<char> {
    match a
    case Absent => ""
    case Number(digits) => digits
    case Star => "*"
  }

  function SpellPrecision(a: Amount): seq<char> {
    if a == Absent then "" else "." + SpellAmount(a)
  }

  function SpellLength(l: LengthModifier): (s: string)
    ensures |s| <= 2
  {
    match l
    case DefaultLength => ""
    case CharLength => "hh"
    case ShortLength => "h"
    case LongLength => "l"
    case LongLongLength => "ll"
    case SizeLength => "z"
    case PtrdiffLength => "t"
    case IntmaxLength => "j"
    case LongDoubleLength => "L"
  }

  function Spell(item: Item): seq<char> {
    match item
    case Literal(text) => text
    case Percent => "%%"
    case Conversion(f, w, p, l, c) => "%" + f + SpellAmount(w) + SpellPrecision(p) + SpellLength(l) + [c]
    case Unknown(f, w, p, l, tail) => "%" + f + SpellAmount(w) + SpellPrecision(p) + SpellLength(l) + tail
  }

  function SpellAll(items: seq<Item>): seq<char> {
    if items == [] then [] else Spell(items[0]) + SpellAll(items[1..])
  }

  // ----- Parsing

  predicate IsFlag(c: char) {
    c in "-+ 0#"
  }

  predicate IsSpecifier(c: char) {
    c in "diuoXxFfeEgGaAcspn"
  }

  function FlagRun(s: seq<char>): (n: nat)
    ensures n <= |s|
  {
    if s != [] && IsFlag(s[0]) then 1 + FlagRun(s[1..]) else 0
  }

  function LiteralRun(s: seq<char>): (n: nat)
    ensures n <= |s|
  {
    if s != [] && s[0] != '%' then 1 + LiteralRun(s[1..]) else 0
  }

  function ReadAmount(s: seq<char>): (a: Amount)
    ensures SpellAmount(a) <= s && a != Absent
  {
    if s != [] && s[0] == '*' then Star else Number(s[..DigitRun(s, 10)])
  }

  function ReadPrecision(s: seq<char>): (a: Amount)
    ensures SpellPrecision(a) <= s
  {
    if s != [] && s[0] == '.' then
      assert s == ['.'] + s[1..];
      ReadAmount(s[1..])
    else Absent
  }

  function ReadLength(s: seq<char>): (l: LengthModifier)
    ensures SpellLength(l) <= s
  {
    if s == [] then DefaultLength
    else if s[0] == 'h' then if |s| > 1 && s[1] == 'h' then CharLength else ShortLength
    else if s[0] == 'l' then if |s| > 1 && s[1] == 'l' then LongLongLength else LongLength
    else if s[0] == 'z' then SizeLength
    else if s[0] == 't' then PtrdiffLength
    else if s[0] == 'j' then IntmaxLength
    else if s[0] == 'L' then LongDoubleLength
    else DefaultLength
  }

  /** What stands behind a per cent sign. */
  function ReadConversion(s: seq<char>): (item: Item)
    ensures item.Conversion? || item.Unknown?
    ensures Spell(item) <= "%" + s
  {
    var f := s[..FlagRun(s)];
    var s1 := s[|f|..];
    var w := ReadAmount(s1);
    var s2 := s1[|SpellAmount(w)|..];
    var p := ReadPrecision(s2);
    var s3 := s2[|SpellPrecision(p)|..];
    var l := ReadLength(s3);
    var s4 := s3[|SpellLength(l)|..];
    SpelledFront(s, f, SpellAmount(w), SpellPrecision(p), SpellLength(l), s4);
    if s4 != [] && IsSpecifier(s4[0]) then Conversion(f, w, p, l, s4[0])
    else Unknown(f, w, p, l, if s4 == [] then [] else [s4[0]])
  }

  /** The pieces, each read where the one before it ends. */
  lemma ConversionIs(s: seq<char>, s1: seq<char>, s2: seq<char>, s3: seq<char>, s4: seq<char>)
    requires s1 == s[FlagRun(s)..]
    requires s2 == s1[|SpellAmount(ReadAmount(s1))|..]
    requires s3 == s2[|SpellPrecision(ReadPrecision(s2))|..]
    requires s4 == s3[|SpellLength(ReadLength(s3))|..]
    ensures var f, w, p, l := s[..FlagRun(s)], ReadAmount(s1), ReadPrecision(s2), ReadLength(s3);
            ReadConversion(s) == if s4 != [] && IsSpecifier(s4[0]) then Conversion(f, w, p, l, s4[0])
                                 else Unknown(f, w, p, l, if s4 == [] then [] else [s4[0]])
  {
    hide FlagRun, ReadAmount, SpellAmount, ReadPrecision, SpellPrecision, ReadLength, SpellLength, IsSpecifier, Spell;
  }

  lemma SpellLengths(f: seq<char>, w: Amount, p: Amount, l: LengthModifier, c: char)
    ensures var n := 1 + |f| + |SpellAmount(w)| + |SpellPrecision(p)| + |SpellLength(l)|;
            && |Spell(Conversion(f, w, p, l, c))| == n + 1 == |Spell(Unknown(f, w, p, l, [c]))|
            && |Spell(Unknown(f, w, p, l, []))| == n
  {
    hide SpellAmount, SpellPrecision, SpellLength;
  }

  lemma SpelledFront(s: seq<char>, f: seq<char>, w: seq<char>, p: seq<char>, l: seq<char>, rest: seq<char>)
    requires f <= s && w <= s[|f|..] && p <= s[|f|..][|w|..] && l <= s[|f|..][|w|..][|p|..]
    requires rest == s[|f|..][|w|..][|p|..][|l|..]
    ensures "%" + s == "%" + f + w + p + l + rest
    ensures "%" + f + w + p + l + [] <= "%" + s
    ensures rest != [] ==> "%" + f + w + p + l + [rest[0]] <= "%" + s
  {
    hide *;
    var s1 := s[|f|..];
    var s2 := s1[|w|..];
    var s3 := s2[|p|..];
    assert s == f + s1 && s1 == w + s2 && s2 == p + s3 && s3 == l + rest;
    assert "%" + s == "%" + f + w + p + l + rest;
  }

  /** The first item of a format. */
  function NextItem(s: seq<char>): (item: Item)
    requires s != []
    ensures Spell(item) <= s && Spell(item) != []
  {
    if s[0] != '%' then Literal(s[..LiteralRun(s)])
    else if |s| > 1 && s[1] == '%' then Percent
    else
      assert s == "%" + s[1..];
      ReadConversion(s[1..])
  }

  function Parse(s: seq<char>): seq<Item>
    decreases |s|
  {
    if s == [] then [] else
      var item := NextItem(s);
      [item] + Parse(s[|Spell(item)|..])
  }

  /** The items of a format are its text, cut up: nothing is lost or read twice. */
  lemma {:induction false} SpellParsed(s: seq<char>)
    ensures SpellAll(Parse(s)) == s
    decreases |s|
  {
    hide NextItem, Spell;
    if s != [] {
      var item := NextItem(s);
      var rest := s[|Spell(item)|..];
      SpellParsed(rest);
      assert Parse(s)[1..] == Parse(rest);
      assert s == Spell(item) + rest;
    }
  }

  // ----- Well-formed formats

  predicate IsNumber(s: seq<char>) {
    forall i :: 0 <= i < |s| ==> '0' <= s[i] <= '9'
  }

  /** A conversion as the standard writes it; a width has no leading zero, which would be a flag. */
  predicate WellFormed(item: Item) {
    match item
    case Literal(text) => text != [] && '%' !in text
    case Percent => true
    case Conversion(f, w, p, l, c) =>
      && (forall i :: 0 <= i < |f| ==> IsFlag(f[i]))
      && w != Absent && (w.Number? ==> IsNumber(w.digits) && (w.digits != [] ==> w.digits[0] != '0'))
      && (p.Number? ==> IsNumber(p.digits))
      && IsSpecifier(c)
    case Unknown(_, _, _, _, _) => false
  }

  predicate AllWellFormed(items: seq<Item>) {
    forall i :: 0 <= i < |items| ==>
        WellFormed(items[i]) && (items[i].Literal? && i + 1 < |items| ==> !items[i + 1].Literal?)
  }

  lemma {:induction false} FlagRunOf(f: seq<char>, rest: seq<char>)
    requires (forall i :: 0 <= i < |f| ==> IsFlag(f[i])) && (rest == [] || !IsFlag(rest[0]))
    ensures FlagRun(f + rest) == |f|
  {
    if f != [] {
      assert (f + rest)[1..] == f[1..] + rest;
      FlagRunOf(f[1..], rest);
    } else {
      assert f + rest == rest;
    }
  }

  lemma {:induction false} NumberRunOf(f: seq<char>, rest: seq<char>)
    requires IsNumber(f) && (rest == [] || !('0' <= rest[0] <= '9'))
    ensures DigitRun(f + rest, 10) == |f|
  {
    if f != [] {
      assert (f + rest)[1..] == f[1..] + rest;
      NumberRunOf(f[1..], rest);
    } else {
      assert f + rest == rest;
    }
  }

  lemma {:induction false} LiteralRunOf(f: seq<char>, rest: seq<char>)
    requires '%' !in f && (rest == [] || rest[0] == '%')
    ensures LiteralRun(f + rest) == |f|
  {
    if f != [] {
      assert (f + rest)[1..] == f[1..] + rest;
      LiteralRunOf(f[1..], rest);
    } else {
      assert f + rest == rest;
    }
  }

  /** A character that ends any flags, digits, precision and length modifier in front of it. */
  predicate Ends(c: char) {
    !IsFlag(c) && !('0' <= c <= '9') && c != '*' && c != '%'
  }

  lemma ReadAmountOf(a: Amount, rest: seq<char>)
    requires a != Absent && (a.Number? ==> IsNumber(a.digits))
    requires rest != [] && Ends(rest[0])
    ensures ReadAmount(SpellAmount(a) + rest) == a
  {
    var s := SpellAmount(a) + rest;
    if a.Number? {
      NumberRunOf(a.digits, rest);
      assert s[..|a.digits|] == a.digits;
      assert s[0] == if a.digits == [] then rest[0] else a.digits[0];
    }
  }

  lemma ReadPrecisionOf(a: Amount, rest: seq<char>)
    requires a.Number? ==> IsNumber(a.digits)
    requires rest != [] && Ends(rest[0]) && rest[0] != '.'
    ensures ReadPrecision(SpellPrecision(a) + rest) == a
  {
    hide ReadAmount, SpellAmount, Ends;
    if a != Absent {
      var s := SpellPrecision(a) + rest;
      assert s[0] == '.' && s[1..] == SpellAmount(a) + rest;
      ReadAmountOf(a, rest);
    } else {
      assert SpellPrecision(a) + rest == rest;
    }
  }

  lemma ReadLengthOf(l: LengthModifier, c: char, rest: seq<char>)
    requires IsSpecifier(c)
    ensures ReadLength(SpellLength(l) + [c] + rest) == l
    ensures var s := SpellLength(l) + [c] + rest;
            s != [] && Ends(s[0]) && s[0] != '.'
  {
    hide IsSpecifier, IsFlag;
    SpecifierEnds(c);
    var s := SpellLength(l) + [c] + rest;
    assert |s| > 0 && s[0] == if l == DefaultLength then c else SpellLength(l)[0];
    assert l != DefaultLength ==> s[1] == if |SpellLength(l)| > 1 then SpellLength(l)[1] else c;
  }

  lemma SpecifierEnds(c: char)
    ensures IsSpecifier(c) ==> Ends(c) && c !in "hlztjL."
    ensures forall d :: d in "hlztjL" ==> Ends(d)
  {
    if c == 'd' || c == 'i' || c == 'u' || c == 'o' || c == 'x' || c == 'X' {
    } else if c == 'f' || c == 'F' || c == 'e' || c == 'E' || c == 'g' || c == 'G' || c == 'a' || c == 'A' {
    }
  }

  lemma ReadConversionOf(item: Item, rest: seq<char>)
    requires WellFormed(item) && item.Conversion?
    ensures Spell(item) + rest != [] && NextItem(Spell(item) + rest) == item
  {
    hide *;
    ConversionParts(item);
    var Conversion(f, w, p, l, c) := item;
    var s3 := SpellLength(l) + [c] + rest;
    var s2 := SpellPrecision(p) + s3;
    var s1 := SpellAmount(w) + s2;
    ReadLengthOf(l, c, rest);
    EndsIs(s3[0]);
    ReadPrecisionOf(p, s3);
    PrecisionEnds(p, s3);
    ReadAmountOf(w, s2);
    AmountEnds(w, s2);
    FlagRunOf(f, s1);
    FlagsEnd(f, s1);
    assert SpellLength(l) + [c] + rest == SpellLength(l) + ([c] + rest);
    PiecesRead(f, w, p, l, c, rest);
    NextIs(f + s1);
    assert Spell(item) + rest == ['%'] + (f + s1);
  }

  lemma ConversionParts(item: Item)
    requires WellFormed(item) && item.Conversion?
    ensures var Conversion(f, w, p, l, c) := item;
            && Spell(item) == "%" + f + SpellAmount(w) + SpellPrecision(p) + SpellLength(l) + [c]
            && (forall i :: 0 <= i < |f| ==> IsFlag(f[i]))
            && w != Absent && (w.Number? ==> IsNumber(w.digits) && (w.digits != [] ==> w.digits[0] != '0'))
            && (p.Number? ==> IsNumber(p.digits)) && IsSpecifier(c)
  {
  }

  lemma EndsIs(c: char)
    ensures Ends(c) ==> !IsFlag(c) && c != '%'
  {
  }

  lemma NextIs(s: seq<char>)
    requires s != [] && s[0] != '%'
    ensures NextItem(['%'] + s) == ReadConversion(s)
  {
    assert (['%'] + s)[1..] == s;
  }

  lemma PiecesRead(f: seq<char>, w: Amount, p: Amount, l: LengthModifier, c: char, rest: seq<char>)
    requires var s3 := SpellLength(l) + ([c] + rest);
             var s2 := SpellPrecision(p) + s3;
             var s1 := SpellAmount(w) + s2;
             FlagRun(f + s1) == |f| && ReadAmount(s1) == w && ReadPrecision(s2) == p && ReadLength(s3) == l
    requires IsSpecifier(c)
    ensures ReadConversion(f + (SpellAmount(w) + (SpellPrecision(p) + (SpellLength(l) + ([c] + rest))))) ==
            Conversion(f, w, p, l, c)
  {
    hide ReadAmount, ReadPrecision, ReadLength, SpellAmount, SpellPrecision, SpellLength, FlagRun, IsSpecifier;
    var s3 := SpellLength(l) + ([c] + rest);
    var s2 := SpellPrecision(p) + s3;
    var s1 := SpellAmount(w) + s2;
    var s := f + s1;
    assert s[..|f|] == f && s[|f|..] == s1;
    assert s1[|SpellAmount(w)|..] == s2;
    assert s2[|SpellPrecision(p)|..] == s3;
    assert s3[|SpellLength(l)|..] == [c] + rest;
  }

  lemma PrecisionEnds(p: Amount, rest: seq<char>)
    requires rest != [] && Ends(rest[0])
    ensures var s := SpellPrecision(p) + rest;
            s != [] && Ends(s[0])
  {
    var s := SpellPrecision(p) + rest;
    assert s[0] == if p == Absent then rest[0] else '.';
  }

  lemma AmountEnds(w: Amount, rest: seq<char>)
    requires w != Absent && (w.Number? ==> IsNumber(w.digits) && (w.digits != [] ==> w.digits[0] != '0'))
    requires rest != [] && Ends(rest[0])
    ensures var s := SpellAmount(w) + rest;
            s != [] && !IsFlag(s[0]) && s[0] != '%'
  {
    var s := SpellAmount(w) + rest;
    assert s[0] == if SpellAmount(w) == [] then rest[0] else SpellAmount(w)[0];
  }

  lemma FlagsEnd(f: seq<char>, s1: seq<char>)
    requires (forall i :: 0 <= i < |f| ==> IsFlag(f[i])) && s1 != [] && s1[0] != '%'
    ensures f + s1 != [] && (f + s1)[0] != '%'
  {
    assert (f + s1)[0] == if f == [] then s1[0] else f[0];
  }

  lemma NextOf(item: Item, rest: seq<Item>)
    requires WellFormed(item) && (item.Literal? ==> rest == [] || (WellFormed(rest[0]) && !rest[0].Literal?))
    ensures var s := Spell(item) + SpellAll(rest);
            s != [] && NextItem(s) == item
  {
    hide ReadConversion;
    var more := SpellAll(rest);
    var s := Spell(item) + more;
    match item
    case Literal(text) =>
      assert rest != [] ==> more[0] == '%';
      LiteralRunOf(text, more);
      assert s[..|text|] == text && s[0] == text[0];
    case Percent =>
      assert s[0] == '%' && s[1] == '%';
    case Conversion(_, _, _, _, _) =>
      ReadConversionOf(item, more);
    case Unknown(_, _, _, _, _) =>
  }

  /** Every well-formed format parses into the items that it spells. */
  lemma {:induction false} ParseSpelled(items: seq<Item>)
    requires AllWellFormed(items)
    ensures Parse(SpellAll(items)) == items
  {
    hide WellFormed, NextItem, Spell, ReadConversion;
    if items != [] {
      var rest := items[1..];
      assert forall i :: 0 <= i < |rest| ==> rest[i] == items[i + 1];
      ParseSpelled(rest);
      NextOf(items[0], rest);
      var s := SpellAll(items);
      assert NextItem(s) == items[0];
      assert s[|Spell(items[0])|..] == SpellAll(rest);
    }
  }
}
