/** The decimal expansion of a binary floating-point number: exact conversion and in-place rounding. */
module Decimals {
  import opened Arith
  import opened Numerals
  import opened Resumable
  import opened Rounding
  import opened Bignum
  import opened ExactValue
  import opened DecimalText
  import opened Expansion

  class Decimal {
    const digits: array<char>
    var count: nat
    var exp10: int

    constructor ()
      ensures Valid() && Text() == [] && fresh(digits)
    {
      digits := new char[9 * WORDS];
      count := 0;
      exp10 := 0;
      new;
      assert digits[..0] == [];
    }

    /** The significant digits; their value is digits[0].digits[1]digits[2]... * 10^exp10. */
    ghost function Text(): seq<char>
      reads this, digits
    {
      if count <= digits.Length then digits[..count] else []
    }

    ghost predicate Valid()
      reads this, digits
    {
      digits.Length == 9 * WORDS && count <= digits.Length && Canonical(Text())
    }

    /** fp_digit_at: the digit at 10^power. */
    function DigitAt(power: int): char
      reads this, digits
    {
      var i := exp10 - power;
      if 0 <= i < count && i < digits.Length then digits[i] else '0'
    }

    lemma Parts()
      requires Valid()
      ensures digits.Length == 9 * WORDS && count <= digits.Length && Text() == digits[..count]
              && Canonical(digits[..count])
    {
    }

    lemma Whole()
      requires digits.Length == 9 * WORDS && count <= digits.Length && Canonical(digits[..count])
      ensures Valid() && Text() == digits[..count]
    {
    }

    /** The number of digits left of len when the zeros at their end are dropped. */
    method WithoutZeros(len: nat) returns (n: nat)
      requires len <= digits.Length
      ensures n <= len && (n > 0 ==> digits[n - 1] != '0')
      ensures n < len ==> digits[n] == '0'
      ensures ValueOf(digits[..len], 10) == Mul(ValueOf(digits[..n], 10), Pow(10, len - n))
    {
      hide *;
      n := len;
      NoZeros(digits[..len]);
      while n > 0 && digits[n - 1] == '0'
        invariant n <= len && (n < len ==> digits[n] == '0')
        invariant ValueOf(digits[..len], 10) == Mul(ValueOf(digits[..n], 10), Pow(10, len - n))
      {
        OneZero(digits[..n], len - n);
        assert digits[..n][..n - 1] == digits[..n - 1];
        n := n - 1;
      }
    }

    /** fp_to_decimal: the digits of mantissa * 2^exp2, exactly. */
    method Set(mantissa: uint64, exp2: int)
      requires digits.Length == 9 * WORDS && -16445 <= exp2 <= 16320
      modifies this, digits
      ensures Valid()
      ensures mantissa == 0 ==> Text() == [] && exp10 == 0
      ensures mantissa > 0 ==>
                Text() != [] && SameDecimal(ValueOf(Text(), 10), exp10 + 1 - count, ExactInteger(mantissa, exp2),
                    Low(exp2))
      ensures -16445 <= exp10 < 11700
    {
      hide *;
      RoomFor(mantissa, exp2);
      count := 0;
      exp10 := 0;
      if mantissa == 0 {
        Nothing(0, 0);
        assert digits[..0] == [];
        Whole();
        return;
      }
      var m, e2 := OddPart(mantissa, exp2);
      MantissaRoom(m);
      var big := new int[WORDS];
      var n := Limbs(m, big);
      n := Scale(big, n, m, e2);
      ghost var j := ExactInteger(m, e2);
      var len := Unpack(big, n, j);
      ghost var t := digits[..len];
      exp10 := len - 1 + if e2 < 0 then e2 else 0;
      count := WithoutZeros(len);
      assert t[..count] == digits[..count];
      StrippedNumeral(t, count, j, Low(e2));
      LowIs(e2);
      Whole();
      SameTrans(ValueOf(Text(), 10), exp10 + 1 - count, j, Low(e2), ExactInteger(mantissa, exp2), Low(exp2));
    }

    /** From limbs to digits, all nine of each but the top one. */
    method Unpack(big: array<int>, n: nat, ghost v: nat) returns (len: nat)
      requires digits.Length == 9 * WORDS && 0 < n <= WORDS == big.Length
      requires AreLimbs(big[..n]) && Trimmed(big[..n]) && BigVal(big[..n]) == v
      modifies digits
      ensures IsRadix(10) && v > 0 && len <= digits.Length && digits[..len] == Numeral(v, 10, false)
    {
      hide *;
      ghost var s := big[..n];
      LimbAt(s, n - 1);
      TopOf(s);
      len := UnpackTop(big[n - 1]);
      var i: int := n - 2;
      assert big[n - 1..n] == s[n - 1..];
      while i >= 0
        invariant -1 <= i <= n - 2 && 0 <= len && len + 9 * (i + 1) <= 9 * n
        invariant digits[..len] == Upper(s, i + 1)
      {
        LimbAt(s, i);
        UnpackLimb(big[i], len);
        MoreLimbs(s, i);
        assert digits[..len + 9] == digits[..len] + digits[len..len + 9];
        len := len + 9;
        i := i - 1;
      }
      AllLimbs(s);
    }

    /** The digits of the top limb, through a small buffer that holds them reversed. */
    method UnpackTop(limb: int) returns (len: nat)
      requires digits.Length >= 9 && 0 < limb < 1000000000
      modifies digits
      ensures IsRadix(10) && len <= 9 && digits[..len] == Numeral(limb, 10, false)
    {
      hide *;
      Radices();
      var top, top_len := LowDigits(limb);
      ghost var text := Numeral(limb, 10, false);
      len := 0;
      assert digits[..0] == [];
      while top_len > 0
        invariant 0 <= top_len && 0 <= len && len + top_len <= 9
        invariant text == digits[..len] + Reversed(top[..top_len])
      {
        top_len := top_len - 1;
        assert top[..top_len + 1] == top[..top_len] + [top[top_len]];
        ReversedStep(top[..top_len], top[top_len]);
        digits[len] := top[top_len];
        assert digits[..len + 1] == digits[..len] + [digits[len]];
        len := len + 1;
      }
      assert top[..0] == [];
      ReversedStep([], '0');
    }

    /** The digits of a limb, least significant first. */
    method LowDigits(limb: int) returns (top: array<char>, top_len: nat)
      requires 0 < limb < 1000000000
      ensures fresh(top) && top.Length == 10 && top_len <= 9
      ensures IsRadix(10) && Reversed(top[..top_len]) == Numeral(limb, 10, false)
    {
      hide *;
      Radices();
      ghost var text := Numeral(limb, 10, false);
      NineDigits(limb);
      top := new char[10];
      top_len := 0;
      var w := limb;
      assert top[..0] == [];
      ReversedStep([], '0');
      while w != 0
        invariant 0 <= w && 0 <= top_len <= 9 && (w == 0 ==> top_len > 0)
        invariant text == (if w == 0 then [] else Numeral(w, 10, false)) + Reversed(top[..top_len])
        decreases w
      {
        NumeralStep(w, 10, false);
        NumeralDigit(w);
        ReversedStep(top[..top_len], DigitChar(w % 10, false));
        top[top_len] := ('0' as int + w % 10) as char;
        w := w / 10;
        assert top[..top_len + 1] == top[..top_len] + [top[top_len]];
        top_len := top_len + 1;
      }
    }

    /** The nine digits of a lower limb. */
    method UnpackLimb(limb: int, len: nat)
      requires len + 9 <= digits.Length && 0 <= limb < 1000000000
      modifies digits
      ensures digits[..len] == old(digits[..len]) && digits[len..len + 9] == Digits(limb, 10, 9, false)
    {
      hide *;
      var w := limb;
      var j: int := 8;
      ghost var kept := digits[..len];
      Radices();
      ghost var text := Digits(limb, 10, 9, false);
      assert digits[len + 9..len + 9] == [];
      while j >= 0
        invariant -1 <= j <= 8 && w >= 0
        invariant digits[..len] == kept
        invariant text == Digits(w, 10, j + 1, false) + digits[len + j + 1..len + 9]
      {
        DigitsStep(w, j + 1);
        digits[len + j] := ('0' as int + w % 10) as char;
        w := w / 10;
        assert digits[len + j..len + 9] == [digits[len + j]] + digits[len + j + 1..len + 9];
        j := j - 1;
      }
      NoDigits(w);
    }

    /** Add one to the digits kept so far; a carry out of the first one raises the exponent. */
    method AddOne(keep: nat)
      requires keep < count <= digits.Length && AreDigits(digits[..keep], 10, false) && (keep > 0 ==> digits[0] != '0')
      modifies this, digits
      ensures 0 < count <= digits.Length && (count <= keep || (keep == 0 && count == 1))
      ensures Rough(digits[..count], exp10, old(exp10) + 1 - keep, ValueOf(old(digits[..keep]), 10) + 1)
      ensures exp10 == old(exp10) || (exp10 == old(exp10) + 1 && digits[..count] == "1")
    {
      hide *;
      ghost var h, x := digits[..keep], exp10;
      var i: int := keep - 1;
      while i >= 0 && digits[i] == '9'
        invariant -1 <= i < keep && digits[..keep] == h && exp10 == x
        invariant forall k :: i < k < keep ==> h[k] == '9'
      {
        i := i - 1;
      }
      if i < 0 {
        CarryAll(h);
        digits[0] := '1';
        count := 1;
        exp10 := exp10 + 1;
        assert digits[..1] == "1";
        CarryAllRough(x, keep);
      } else {
        CarryStops(h, i);
        digits[i] := (digits[i] as int + 1) as char;
        count := i + 1;
        assert digits[..i + 1] == h[..i] + [(h[i] as int + 1) as char];
        CanonicalParts(digits[..i + 1]);
        IsRough(digits[..i + 1], x, x + 1 - keep, ValueOf(h, 10) + 1);
      }
    }

    /** fp_round: keep that many significant digits, ties to even; keep may be zero or negative.
        The result denotes the multiple of 10^(exp10 + 1 - keep) nearest to the old value. */
    method Round(keep: int)
      requires Valid()
      modifies this, digits
      ensures Valid()
      ensures keep >= old(count) ==> Text() == old(Text()) && exp10 == old(exp10)
      ensures keep < old(count) ==>
                var j := old(count) - keep;
                && Pow(10, j) > 0
                && Denotes(Text(), exp10, old(exp10) + 1 - keep, RoundHalfEven(ValueOf(old(Text()), 10), Pow(10, j)))
      ensures exp10 == old(exp10) || (exp10 == old(exp10) + 1 && Text() == "1")
      ensures keep < old(count) ==> count <= keep || (keep <= 0 && count <= 1)
      ensures keep > 0 && old(count) > 0 ==> count > 0
    {
      hide *;
      ghost var s, x := Text(), exp10;
      Parts();
      if keep >= count {
        return;
      }
      PowPositive(10, count - keep);
      if keep < 0 {
        RoundAway(s, count - keep);
        count := 0;
        Nothing(x, x + 1 - keep);
        assert digits[..0] == [];
        Whole();
        return;
      }
      var next := digits[keep];
      var round_up := next > '5'
          || (next == '5' && (keep + 1 < count || (keep > 0 && (digits[keep - 1] as int - '0' as int) % 2 != 0)));
      RoundKept(s, keep);
      RoundsUpIs(s, keep);
      CanonicalParts(s);
      ghost var h := s[..keep];
      assert s[0..keep] == h == digits[..keep] && s[0] == digits[0];
      SliceDigits(s, 0, keep);
      ghost var n := ValueOf(h, 10) + if round_up then 1 else 0;
      if round_up {
        AddOne(keep);
      } else {
        count := keep;
        NoZeros(h);
        IsRough(h, x, x + 1 - keep, n);
      }
      Tidy(x + 1 - keep, n);
    }

    /** The zeros at the end go. */
    method Tidy(ghost q: int, ghost n: nat)
      requires digits.Length == 9 * WORDS && count <= digits.Length && Rough(digits[..count], exp10, q, n)
      modifies this`count
      ensures Valid() && Denotes(Text(), exp10, q, n)
      ensures count <= old(count) && (old(digits[..count]) == "1" ==> Text() == "1")
      ensures old(count) > 0 ==> count > 0
    {
      hide *;
      ghost var t := digits[..count];
      var len := WithoutZeros(count);
      assert digits[..len] == t[..len];
      DropDenotes(t, len, exp10, q, n);
      count := len;
      Whole();
    }
  }

  // ----- From limbs to digits

  function Reversed(s: seq<char>): (r: seq<char>)
    ensures |r| == |s|
  {
    if s == [] then [] else [s[|s| - 1]] + Reversed(s[..|s| - 1])
  }

  lemma ReversedStep(s: seq<char>, c: char)
    ensures Reversed(s + [c]) == [c] + Reversed(s) && Reversed([]) == []
  {
    assert (s + [c])[..|s|] == s;
  }

  /** The numeral of the limbs from i on. */
  ghost function Upper(s: seq<int>, i: nat): seq<char>
    requires i <= |s|
  {
    if AreLimbs(s[i..]) then Numeral(BigVal(s[i..]), 10, false) else []
  }

  lemma TopOf(s: seq<int>)
    requires s != [] && AreLimbs(s) && Trimmed(s)
    ensures s[|s| - 1] != 0 && Upper(s, |s| - 1) == Numeral(s[|s| - 1], 10, false)
    ensures BigVal(s) > 0
  {
    hide Numeral, Pow;
    TopLimb(s);
    PowPositive(LIMB, |s| - 1);
    var u := s[|s| - 1..];
    assert u[1..] == [];
    assert BigVal(u) == s[|s| - 1];
  }

  lemma AllLimbs(s: seq<int>)
    requires AreLimbs(s)
    ensures Upper(s, 0) == Numeral(BigVal(s), 10, false)
  {
    assert s[0..] == s;
  }

  lemma MoreLimbs(s: seq<int>, i: nat)
    requires i + 1 < |s| && AreLimbs(s) && Trimmed(s)
    ensures 0 <= s[i] && Upper(s, i) == Upper(s, i + 1) + Digits(s[i], 10, 9, false)
  {
    hide Numeral, Digits, Pow;
    var u, v := s[i..], s[i + 1..];
    assert u[1..] == v;
    TopLimb(v);
    PowPositive(LIMB, |v| - 1);
    NumeralAppend(s[i], BigVal(v));
  }

  /** Nine more digits below a number that is not zero. */
  lemma NumeralAppend(x: nat, v: nat)
    requires x < LIMB && v > 0
    ensures Numeral(x + LIMB * v, 10, false) == Numeral(v, 10, false) + Digits(x, 10, 9, false)
  {
    hide *;
    Radices();
    var h, t := Numeral(v, 10, false), Digits(x, 10, 9, false);
    NumeralReads(v, 10, false);
    DigitsAre(x, 10, 9, false);
    ConcatDigits(h, t);
    ValueConcat(h, t);
    ValueOfDigits(x, 10, 9, false);
    TenPowers();
    LimbIs(v);
    DivSmall(x, 1000000000);
    HeadNotZero(h, v);
    NumeralUnique(h + t, 10, false);
  }

  lemma LimbIs(v: nat)
    ensures LIMB == 1000000000 && Mul(v, 1000000000) == LIMB * v
  {
  }

  lemma HeadNotZero(h: seq<char>, v: nat)
    requires v > 0 && h != [] && (h[0] == '0' ==> v == 0 && |h| == 1)
    ensures h[0] != '0'
  {
  }

  lemma NineDigits(w: nat)
    requires 0 < w < 1000000000
    ensures |Numeral(w, 10, false)| <= 9
  {
    hide Pow, Digits, Numerals.Length;
    LengthBounds(w, 10);
    TenPowers();
    var n := Numerals.Length(w, 10);
    if n > 9 {
      PowMono(10, 9, n - 1);
    }
  }

  lemma NumeralDigit(w: nat)
    ensures ('0' as int + w % 10) < 128 && ('0' as int + w % 10) as char == DigitChar(w % 10, false)
  {
    DigitRoundTrip(w % 10, false);
  }

  lemma DigitsStep(w: nat, n: nat)
    requires n > 0
    ensures 0 <= w / 10 && ('0' as int + w % 10) < 128
    ensures Digits(w, 10, n, false) == Digits(w / 10, 10, n - 1, false) + [('0' as int + w % 10) as char]
  {
    NumeralDigit(w);
    assert Quot(w, 10) == w / 10 && Rem(w, 10) == w % 10;
  }

  lemma NoDigits(w: nat)
    ensures Digits(w, 10, 0, false) == []
  {
  }

  lemma RoomFor(m: nat, e2: int)
    requires m < 0x1_0000_0000_0000_0000 && -16445 <= e2 <= 16320
    ensures ExactInteger(m, e2) < Pow(10, 9 * WORDS) && WORDS == 1300
  {
    ExactIntegerBound(m, e2);
  }

  lemma MantissaRoom(m: uint64)
    ensures m < Pow(10, 9 * WORDS)
  {
    hide Pow;
    TenPowers();
    PowMono(10, 20, 9 * WORDS);
  }

  lemma LowIs(e2: int)
    ensures Low(e2) == if e2 < 0 then e2 else 0
  {
  }

  /** A numeral without the zeros at its end. */
  lemma StrippedNumeral(t: seq<char>, n: nat, j: nat, f: int)
    requires j > 0 && t == Numeral(j, 10, false) && n <= |t| && (n > 0 ==> t[n - 1] != '0')
    requires ValueOf(t, 10) == Mul(ValueOf(t[..n], 10), Pow(10, |t| - n))
    ensures n > 0 && Canonical(t[..n]) && SameDecimal(ValueOf(t[..n], 10), |t| - n + f, j, f)
  {
    hide Mul, Pow, ValueOf, Numeral;
    NumeralReads(j, 10, false);
    if n == 0 {
      assert t[..0] == [];
      EmptyIsZero();
      MulOne(Pow(10, |t|));
    }
    PowStep(10, 0);
    MulOne(j);
  }

  // ----- Rounding

  lemma NoZeros(s: seq<char>)
    ensures ValueOf(s, 10) == Mul(ValueOf(s, 10), Pow(10, 0))
  {
    MulOne(ValueOf(s, 10));
  }

  lemma OneZero(s: seq<char>, k: nat)
    requires s != [] && s[|s| - 1] == '0'
    ensures Mul(ValueOf(s, 10), Pow(10, k)) == Mul(ValueOf(s[..|s| - 1], 10), Pow(10, k + 1))
  {
    hide Mul, Pow, ValueOf;
    DropZero(s);
    PowStep(10, k);
    MulAssoc(ValueOf(s[..|s| - 1], 10), 10, Pow(10, k));
  }

  lemma RoundsUpIs(s: seq<char>, keep: nat)
    requires keep < |s|
    ensures RoundsUp(s, keep) <==>
              || s[keep] > '5'
              || (s[keep] == '5'
                  && (keep + 1 < |s| || (keep > 0 && (s[keep - 1] as int - '0' as int) % 2 != 0)))
  {
  }

  lemma Nothing(x: int, q: int)
    ensures Denotes([], x, q, 0) && Canonical([])
  {
  }

  /** Digits that denote n * 10^q and may still end in zeros. */
  ghost predicate Rough(t: seq<char>, x: int, q: int, n: nat) {
    Denotes(t, x, q, n) && AreDigits(t, 10, false) && (t != [] ==> t[0] != '0')
  }

  lemma CarryAllRough(x: int, keep: nat)
    ensures Rough("1", x + 1, x + 1 - keep, Pow(10, keep))
  {
    hide Mul, Pow;
    OneDigit('1');
    MulOne(Pow(10, keep));
  }

  lemma IsRough(t: seq<char>, x: int, q: int, n: nat)
    requires AreDigits(t, 10, false) && (t != [] ==> t[0] != '0')
    requires x + 1 - |t| >= q
    requires n == Mul(ValueOf(t, 10), Pow(10, x + 1 - |t| - q))
    ensures Rough(t, x, q, n)
  {
    hide Pow;
    if t == [] {
      EmptyIsZero();
    }
  }

  lemma DropDenotes(t: seq<char>, len: nat, x: int, q: int, n: nat)
    requires Rough(t, x, q, n) && len <= |t|
    requires len > 0 ==> t[len - 1] != '0'
    requires len < |t| ==> t[len] == '0'
    requires ValueOf(t, 10) == Mul(ValueOf(t[..len], 10), Pow(10, |t| - len))
    ensures Denotes(t[..len], x, q, n) && Canonical(t[..len]) && (t == "1" ==> len == 1) && (t != [] ==> len > 0)
  {
    hide Mul, Pow, ValueOf;
    if len > 0 {
      PowAdd(10, |t| - len, x + 1 - |t| - q);
      MulAssoc(ValueOf(t[..len], 10), Pow(10, |t| - len), Pow(10, x + 1 - |t| - q));
    }
  }
}
