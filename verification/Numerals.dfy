/** Positional numerals: digits of a number in a radix, and the number a digit string spells. */
module Numerals {
  import opened Arith

  const LOWER: string := "0123456789abcdef"
  const UPPER: string := "0123456789ABCDEF"

  predicate IsRadix(r: int) {
    2 <= r <= 16
  }

  lemma Radices()
    ensures IsRadix(2) && IsRadix(8) && IsRadix(10) && IsRadix(16)
  {
  }

  function Table(upper: bool): (t: string)
    ensures |t| == 16
  {
    if upper then UPPER else LOWER
  }

  function DigitChar(d: nat, upper: bool): char
    requires d < 16
  {
    Table(upper)[d]
  }

  /** The number a digit character stands for, as C's hexadecimal digits do; 16 for other characters. */
  function DigitValue(c: char): (d: nat)
    ensures d <= 16
  {
    if '0' <= c <= '9' then (c - '0') as int
    else if 'a' <= c <= 'f' then (c - 'a') as int + 10
    else if 'A' <= c <= 'F' then (c - 'A') as int + 10
    else 16
  }

  lemma DigitRoundTrip(d: nat, upper: bool)
    requires d < 16
    ensures DigitValue(DigitChar(d, upper)) == d
    ensures d < 10 ==> DigitChar(d, upper) == '0' + d as char
    ensures DigitChar(d, upper) == '0' <==> d == 0
  {
  }

  function Quot(v: nat, r: int): (q: nat)
    requires r >= 2
    ensures q == Div(v, r) && (v > 0 ==> q < v)
  {
    DivNat(v, r);
    Div(v, r)
  }

  function Rem(v: int, r: int): (d: nat)
    requires r >= 1
    ensures d == Mod(v, r) && d < r
  {
    DivMod(v, r);
    Mod(v, r)
  }

  /** The n low digits of v, most significant first. */
  function Digits(v: nat, r: nat, n: nat, upper: bool): (s: seq<char>)
    requires IsRadix(r)
    ensures |s| == n
    decreases n
  {
    if n == 0 then [] else Digits(Quot(v, r), r, n - 1, upper) + [DigitChar(Rem(v, r), upper)]
  }

  /** The number of digits of v; none for zero. */
  function Length(v: nat, r: nat): (n: nat)
    requires IsRadix(r)
    ensures n == 0 <==> v == 0
  {
    if v == 0 then 0 else 1 + Length(Quot(v, r), r)
  }

  /** The canonical numeral of v: no leading zero, except that zero is "0". */
  function Numeral(v: nat, r: nat, upper: bool): (s: seq<char>)
    requires IsRadix(r)
    ensures |s| > 0
  {
    if v == 0 then "0" else Digits(v, r, Length(v, r), upper)
  }

  function SignedNumeral(i: int, r: nat, upper: bool): (s: seq<char>)
    requires IsRadix(r)
    ensures |s| > 0
  {
    if i < 0 then "-" + Numeral(-i, r, upper) else Numeral(i, r, upper)
  }

  /** The digits of radix r, in the chosen letter case. */
  ghost predicate AreDigits(s: seq<char>, r: nat, upper: bool)
    requires IsRadix(r)
  {
    forall i :: 0 <= i < |s| ==> DigitValue(s[i]) < r && s[i] == DigitChar(DigitValue(s[i]), upper)
  }

  /** The number that a string of digits spells. */
  function ValueOf(s: seq<char>, r: nat): nat {
    if s == [] then 0 else NatMul(ValueOf(s[..|s| - 1], r), r) + DigitValue(s[|s| - 1])
  }

  // ----- Digits of a number

  lemma {:induction false} DigitsAre(v: nat, r: nat, n: nat, upper: bool)
    requires IsRadix(r)
    ensures AreDigits(Digits(v, r, n, upper), r, upper)
    decreases n
  {
    hide Mul, Div, Mod;
    if n > 0 {
      DigitsAre(Quot(v, r), r, n - 1, upper);
      DigitRoundTrip(Rem(v, r), upper);
    }
  }

  /** Reading back the n low digits of v gives v modulo r^n. */
  lemma {:induction false} ValueOfDigits(v: nat, r: nat, n: nat, upper: bool)
    requires IsRadix(r)
    ensures Pow(r, n) > 0 && ValueOf(Digits(v, r, n, upper), r) == Mod(v, Pow(r, n))
    decreases n
  {
    hide Mul, Div, Mod, NatMul;
    PowPositive(r, n);
    if n > 0 {
      ValueOfDigits(Quot(v, r), r, n - 1, upper);
      DigitRoundTrip(Rem(v, r), upper);
      var s := Digits(v, r, n, upper);
      assert s[..n - 1] == Digits(Quot(v, r), r, n - 1, upper);
      DivDiv(v, r, Pow(r, n - 1));
    } else {
      ModOne(v);
    }
  }

  lemma ModOne(v: int)
    ensures Mod(v, 1) == 0
  {
  }

  lemma {:induction false} ValueBound(s: seq<char>, r: nat, upper: bool)
    requires IsRadix(r) && AreDigits(s, r, upper)
    ensures ValueOf(s, r) < Pow(r, |s|)
  {
    hide Mul, Div, Mod, NatMul;
    if s != [] {
      ValueBound(s[..|s| - 1], r, upper);
      AppendBounds(0, ValueOf(s[..|s| - 1], r), Pow(r, |s| - 1), DigitValue(s[|s| - 1]), r);
      MulComm(r, Pow(r, |s| - 1));
    }
  }

  lemma DigitsAppend(v: nat, c: char, r: nat, n: nat, upper: bool)
    requires IsRadix(r) && DigitValue(c) < r && c == DigitChar(DigitValue(c), upper)
    ensures Digits(NatMul(v, r) + DigitValue(c), r, n + 1, upper) == Digits(v, r, n, upper) + [c]
  {
    hide Mul, Div, Mod, DigitValue, DigitChar;
    DivModUnique(NatMul(v, r) + DigitValue(c), v, DigitValue(c), r);
  }

  /** A digit string is determined by its length and its value. */
  lemma {:induction false} DigitsOfValue(s: seq<char>, r: nat, upper: bool)
    requires IsRadix(r) && AreDigits(s, r, upper)
    ensures Digits(ValueOf(s, r), r, |s|, upper) == s
  {
    hide Mul, Div, Mod, NatMul, DigitValue, DigitChar, Pow;
    if s != [] {
      var t, c := s[..|s| - 1], s[|s| - 1];
      DigitsOfValue(t, r, upper);
      DigitsAppend(ValueOf(t, r), c, r, |t|, upper);
      assert s == t + [c];
    }
  }

  /** The last m of the n low digits are the m low digits. */
  lemma {:induction false} DigitsSuffix(v: nat, r: nat, n: nat, m: nat, upper: bool)
    requires IsRadix(r) && m <= n
    ensures Digits(v, r, n, upper)[n - m..] == Digits(v, r, m, upper)
    decreases m
  {
    hide Mul, Div, Mod;
    if m > 0 {
      DigitsSuffix(Quot(v, r), r, n - 1, m - 1, upper);
      var s, c := Digits(Quot(v, r), r, n - 1, upper), DigitChar(Rem(v, r), upper);
      assert (s + [c])[n - m..] == s[n - m..] + [c];
    }
  }

  /** High digits of v are the digits of a quotient. */
  lemma {:induction false} DigitsPrefix(v: nat, r: nat, n: nat, m: nat, upper: bool)
    requires IsRadix(r) && m <= n
    ensures Pow(r, m) > 0 && Div(v, Pow(r, m)) >= 0
    ensures Digits(v, r, n, upper)[..n - m] == Digits(Div(v, Pow(r, m)), r, n - m, upper)
    decreases m
  {
    hide Mul, Div, Mod, NatMul;
    PowPositive(r, m);
    DivNat(v, Pow(r, m));
    if m == 0 {
      DivOne(v);
      assert Digits(v, r, n, upper)[..n] == Digits(v, r, n, upper);
    } else {
      DigitsPrefix(Quot(v, r), r, n - 1, m - 1, upper);
      DivDiv(v, r, Pow(r, m - 1));
      var s, c := Digits(Quot(v, r), r, n - 1, upper), DigitChar(Rem(v, r), upper);
      assert (s + [c])[..n - m] == s[..n - m];
    }
  }

  lemma DivOne(v: int)
    ensures Div(v, 1) == v
  {
  }

  lemma DigitsAt(v: nat, r: nat, n: nat, j: nat, upper: bool)
    requires IsRadix(r) && j < n
    ensures Pow(r, n - 1 - j) > 0 && Div(v, Pow(r, n - 1 - j)) >= 0
    ensures Digits(v, r, n, upper)[j] == DigitChar(Rem(Div(v, Pow(r, n - 1 - j)), r), upper)
  {
    hide Mul, Div, Mod;
    DigitsPrefix(v, r, n, n - 1 - j, upper);
    var s := Digits(v, r, n, upper);
    assert s[j] == s[..j + 1][j];
  }

  /** Only the residue modulo a high enough power matters for low digits. */
  lemma {:induction false} DigitsMod(v: nat, r: nat, n: nat, m: nat, upper: bool)
    requires IsRadix(r) && n <= m
    ensures Pow(r, m) > 0
    ensures Digits(Rem(v, Pow(r, m)), r, n, upper) == Digits(v, r, n, upper)
    decreases n
  {
    hide Mul, Div, Mod, NatMul;
    PowPositive(r, m);
    if n > 0 {
      PowPositive(r, m - 1);
      DivOfMod(v, r, Pow(r, m - 1));
      DigitsMod(Quot(v, r), r, n - 1, m - 1, upper);
    }
  }

  // ----- Canonical numerals

  lemma {:induction false} LengthBounds(v: nat, r: nat)
    requires IsRadix(r) && v > 0
    ensures Length(v, r) >= 1 && Pow(r, Length(v, r) - 1) <= v < Pow(r, Length(v, r))
  {
    hide Mul, Div, Mod, NatMul;
    var q, d := Quot(v, r), Rem(v, r);
    DivMod(v, r);
    var n := Length(q, r);
    PowStep(r, n);
    if q > 0 {
      LengthBounds(q, r);
      PowStep(r, n - 1);
      AppendBounds(Pow(r, n - 1), q, Pow(r, n), d, r);
    } else {
      MulOne(r);
    }
  }

  lemma LengthIs(v: nat, r: nat, n: nat)
    requires IsRadix(r) && n >= 1 && Pow(r, n - 1) <= v < Pow(r, n)
    ensures Length(v, r) == n
  {
    hide Mul, Div, Mod, NatMul, Pow, Length;
    PowPositive(r, n - 1);
    LengthBounds(v, r);
    var k := Length(v, r);
    if k < n {
      PowMono(r, k, n - 1);
    } else if n < k {
      PowMono(r, n, k - 1);
    }
  }

  /** Numerals read back, carry no superfluous zero, and so are unique. */
  lemma NumeralReads(v: nat, r: nat, upper: bool)
    requires IsRadix(r)
    ensures ValueOf(Numeral(v, r, upper), r) == v
    ensures AreDigits(Numeral(v, r, upper), r, upper)
    ensures Numeral(v, r, upper)[0] == '0' ==> v == 0 && |Numeral(v, r, upper)| == 1
  {
    hide Mul, Div, Mod, Pow, Digits;
    if v == 0 {
      assert ValueOf("0"[..0], r) == 0;
      MulOne(r);
    } else {
      var n := Length(v, r);
      LengthBounds(v, r);
      ValueOfDigits(v, r, n, upper);
      DivSmall(v, Pow(r, n));
      DigitsAre(v, r, n, upper);
      LeadingDigit(v, r, n, upper);
    }
  }

  /** The first digit of a number of exactly n digits is its leading one, not zero. */
  lemma LeadingDigit(v: nat, r: nat, n: nat, upper: bool)
    requires IsRadix(r) && n >= 1 && Pow(r, n - 1) <= v < Pow(r, n)
    ensures Pow(r, n - 1) > 0 && 0 < Div(v, Pow(r, n - 1)) < r
    ensures Digits(v, r, n, upper)[0] == DigitChar(Div(v, Pow(r, n - 1)), upper) != '0'
  {
    hide Mul, Div, Mod, Pow, Digits;
    var p := Pow(r, n - 1);
    DigitsAt(v, r, n, 0, upper);
    PowStep(r, n - 1);
    MulOne(p);
    DivBounds(v, 1, r, p);
    DivSmall(Div(v, p), r);
    DigitRoundTrip(Div(v, p), upper);
  }

  /** Two canonical numerals of one radix and letter case spell different numbers unless they are equal. */
  lemma NumeralUnique(s: seq<char>, r: nat, upper: bool)
    requires IsRadix(r) && AreDigits(s, r, upper) && s != []
    requires s[0] == '0' ==> |s| == 1
    ensures s == Numeral(ValueOf(s, r), r, upper)
  {
    hide Mul, Div, Mod, Pow, Digits, ValueOf;
    var v, n := ValueOf(s, r), |s|;
    DigitsOfValue(s, r, upper);
    ValueBound(s, r, upper);
    DigitsAt(v, r, n, 0, upper);
    var p := Pow(r, n - 1);
    PowStep(r, n - 1);
    if v >= p {
      LengthIs(v, r, n);
    } else {
      DivSmall(v, p);
      DivSmall(0, r);
      DigitRoundTrip(0, upper);
      PowStep(r, 0);
    }
  }

  /** The last digit of a numeral is the remainder; the others spell the quotient. */
  lemma NumeralStep(v: nat, r: nat, upper: bool)
    requires IsRadix(r)
    ensures 0 <= v / r && (v > 0 ==> v / r < v) && v % r < 16
    ensures Numeral(v, r, upper) ==
              (if v / r == 0 then [] else Numeral(v / r, r, upper)) + [DigitChar(v % r, upper)]
  {
    hide Mul;
    assert Quot(v, r) == v / r && Rem(v, r) == v % r;
    if v == 0 {
      DigitRoundTrip(0, upper);
    }
  }
}
