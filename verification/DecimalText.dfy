/** Strings of decimal digits with an exponent: what they denote, and what rounding makes of them. */
module DecimalText {
  import opened Arith
  import opened Numerals
  import opened Rounding

  /** Significant digits without leading or trailing zero; none for the value zero. */
  ghost predicate Canonical(s: seq<char>) {
    && AreDigits(s, 10, false)
    && (s != [] ==> s[0] != '0' && s[|s| - 1] != '0')
  }

  /** The digits s with exponent x (the value is s[0].s[1]s[2]... * 10^x) denote n * 10^q. */
  ghost predicate Denotes(s: seq<char>, x: int, q: int, n: nat) {
    if s == [] then n == 0
    else x + 1 - |s| >= q && n == Mul(ValueOf(s, 10), Pow(10, x + 1 - |s| - q))
  }

  // ----- Concatenation

  lemma {:induction false} ValueConcat(s: seq<char>, t: seq<char>)
    ensures ValueOf(s + t, 10) == Mul(ValueOf(s, 10), Pow(10, |t|)) + ValueOf(t, 10)
    decreases |t|
  {
    hide Mul, Pow, DigitValue;
    if t == [] {
      assert s + t == s;
      PowStep(10, 0);
      MulOne(ValueOf(s, 10));
    } else {
      var u, c := t[..|t| - 1], t[|t| - 1];
      assert (s + t)[..|s + t| - 1] == s + u;
      ValueConcat(s, u);
      PowStep(10, |u|);
      MulAssoc(ValueOf(s, 10), Pow(10, |u|), 10);
      MulAdd(Mul(ValueOf(s, 10), Pow(10, |u|)), ValueOf(u, 10), 10);
    }
  }

  lemma SliceDigits(s: seq<char>, i: nat, j: nat)
    requires AreDigits(s, 10, false) && i <= j <= |s|
    ensures AreDigits(s[i..j], 10, false)
  {
  }

  lemma ConcatDigits(s: seq<char>, t: seq<char>)
    requires AreDigits(s, 10, false) && AreDigits(t, 10, false)
    ensures AreDigits(s + t, 10, false)
  {
  }

  lemma OneDigit(c: char)
    ensures ValueOf([c], 10) == DigitValue(c)
  {
    assert [c][..0] == [];
    MulOne(10);
  }

  lemma {:induction false} PositiveValue(s: seq<char>)
    requires AreDigits(s, 10, false) && s != [] && s[0] != '0'
    ensures ValueOf(s, 10) >= Pow(10, |s| - 1) > 0
  {
    hide Mul, Pow, ValueOf;
    var t := s[1..];
    assert s == [s[0]] + t;
    ValueConcat([s[0]], t);
    OneDigit(s[0]);
    DigitZero(s[0]);
    PowPositive(10, |t|);
    MulMono(1, DigitValue(s[0]), Pow(10, |t|));
    MulOne(Pow(10, |t|));
  }

  lemma DigitZero(c: char)
    requires DigitValue(c) < 10
    ensures DigitValue(c) == 0 <==> c == '0'
    ensures '0' <= c <= '9' && DigitValue(c) == c as int - '0' as int
    ensures c == DigitChar(DigitValue(c), false)
  {
  }

  /** Dropping trailing zeros. */
  lemma DropZero(s: seq<char>)
    requires s != [] && s[|s| - 1] == '0'
    ensures ValueOf(s, 10) == Mul(ValueOf(s[..|s| - 1], 10), 10)
  {
    hide Mul, Pow;
    assert s == s[..|s| - 1] + ['0'];
  }

  lemma {:induction false} Nines(s: seq<char>)
    requires forall i :: 0 <= i < |s| ==> s[i] == '9'
    ensures ValueOf(s, 10) == Pow(10, |s|) - 1
    decreases |s|
  {
    hide Mul, Pow;
    if s == [] {
      PowStep(10, 0);
    } else {
      Nines(s[..|s| - 1]);
      PowStep(10, |s| - 1);
      MulConst(Pow(10, |s| - 1));
      MulConst(ValueOf(s[..|s| - 1], 10));
    }
  }

  // ----- Rounding at a digit

  /** Whether the digits from `keep` on round the kept ones up, ties going to an even last digit. */
  predicate RoundsUp(s: seq<char>, keep: nat)
    requires keep < |s|
  {
    s[keep] > '5' || (s[keep] == '5' && (keep + 1 < |s| || (keep > 0 && (s[keep - 1] as int - '0' as int) % 2 != 0)))
  }

  /** The dropped digits as a number: more than, exactly or less than half a unit of the kept ones. */
  lemma DroppedHalf(s: seq<char>, keep: nat)
    requires Canonical(s) && keep < |s|
    ensures var t, p := ValueOf(s[keep..], 10), Pow(10, |s| - keep);
            && 0 <= t < p
            && (s[keep] > '5' ==> 2 * t > p)
            && (s[keep] < '5' ==> 2 * t < p)
            && (s[keep] == '5' ==> 2 * t >= p && (2 * t == p <==> keep + 1 == |s|))
  {
    hide *;
    var t := s[keep..];
    var u := s[keep + 1..];
    CanonicalParts(s);
    assert t == [s[keep]] + u;
    SliceDigits(s, keep + 1, |s|);
    assert s[keep + 1..|s|] == u;
    DecimalBound(u);
    ValueConcat([s[keep]], u);
    OneDigit(s[keep]);
    DigitAt(s, keep);
    LeadTimes(DigitValue(s[keep]), ValueOf(u, 10), |u|);
    if u == [] {
      EmptyIsZero();
    } else {
      LastNonzero(u);
    }
  }

  lemma CanonicalParts(s: seq<char>)
    requires Canonical(s)
    ensures AreDigits(s, 10, false) && (s != [] ==> s[0] != '0' && s[|s| - 1] != '0')
  {
  }

  lemma DigitAt(s: seq<char>, i: nat)
    requires AreDigits(s, 10, false) && i < |s|
    ensures DigitValue(s[i]) < 10 && '0' <= s[i] <= '9' && DigitValue(s[i]) == s[i] as int - '0' as int
  {
    DigitZero(s[i]);
  }

  lemma DecimalBound(s: seq<char>)
    requires AreDigits(s, 10, false)
    ensures 0 <= ValueOf(s, 10) < Pow(10, |s|)
  {
    ValueBound(s, 10, false);
  }

  /** A leading digit d in front of a number below 10^n, against half of 10^(n + 1). */
  lemma LeadTimes(d: nat, r: nat, n: nat)
    requires d < 10 && r < Pow(10, n)
    ensures var t, p := Mul(d, Pow(10, n)) + r, Pow(10, n + 1);
            && 0 <= t < p
            && (d > 5 ==> 2 * t > p) && (d < 5 ==> 2 * t < p)
            && (d == 5 ==> 2 * t >= p && (2 * t == p <==> r == 0))
  {
    hide Mul, Pow;
    var p := Pow(10, n);
    PowStep(10, n);
    MulConst(p);
    MulMono(d, 9, p);
    MulIs(9, p);
    MulSign(d, p);
    if d >= 6 {
      MulMono(6, d, p);
      MulIs(6, p);
    } else if d <= 4 {
      MulMono(d, 4, p);
      MulIs(4, p);
    }
  }

  lemma EmptyIsZero()
    ensures ValueOf([], 10) == 0
  {
  }

  lemma LastNonzero(s: seq<char>)
    requires AreDigits(s, 10, false) && s != [] && s[|s| - 1] != '0'
    ensures ValueOf(s, 10) > 0
  {
    hide *;
    DigitAt(s, |s| - 1);
    DigitZero(s[|s| - 1]);
    LastStep(s);
  }

  lemma LastStep(s: seq<char>)
    requires s != []
    ensures ValueOf(s, 10) == 10 * ValueOf(s[..|s| - 1], 10) + DigitValue(s[|s| - 1])
  {
    MulConst(ValueOf(s[..|s| - 1], 10));
  }

  /** The parity of a number is that of its last digit. */
  lemma LastParity(s: seq<char>)
    requires AreDigits(s, 10, false) && s != []
    ensures ValueOf(s, 10) % 2 == (s[|s| - 1] as int - '0' as int) % 2
  {
    hide *;
    DigitAt(s, |s| - 1);
    LastStep(s);
  }

  /** Rounding the digits to `keep` of them: the kept ones as a number, plus one when they round up. */
  lemma RoundKept(s: seq<char>, keep: nat)
    requires Canonical(s) && keep < |s|
    ensures Pow(10, |s| - keep) > 0
    ensures RoundHalfEven(ValueOf(s, 10), Pow(10, |s| - keep)) ==
              ValueOf(s[..keep], 10) + if RoundsUp(s, keep) then 1 else 0
  {
    hide Mul, Pow, ValueOf, RoundHalfEven;
    var h, t := s[..keep], s[keep..];
    assert s == h + t;
    ValueConcat(h, t);
    DroppedHalf(s, keep);
    RoundSplit(ValueOf(h, 10), ValueOf(t, 10), Pow(10, |t|));
    SliceDigits(s, 0, keep);
    if keep > 0 {
      LastParity(h);
    } else {
      EmptyIsZero();
    }
  }

  /** A number below half a unit rounds to nothing. */
  lemma RoundAway(s: seq<char>, j: nat)
    requires Canonical(s) && j > |s|
    ensures Pow(10, j) > 0 && RoundHalfEven(ValueOf(s, 10), Pow(10, j)) == 0
  {
    hide *;
    CanonicalParts(s);
    DecimalBound(s);
    PowPositive(10, j);
    PowPositive(10, j - 1);
    PowStep(10, j - 1);
    MulConst(Pow(10, j - 1));
    PowMono(10, |s|, j - 1);
    RoundSmall(ValueOf(s, 10), Pow(10, j));
  }

  // ----- Adding one to kept digits

  /** All kept digits are nines: the carry makes a power of ten. */
  lemma CarryAll(s: seq<char>)
    requires forall i :: 0 <= i < |s| ==> s[i] == '9'
    ensures ValueOf("1", 10) == 1 && ValueOf(s, 10) + 1 == Pow(10, |s|) && Canonical("1")
  {
    Nines(s);
    OneDigit('1');
  }

  /** The carry stops at digit i, behind which only nines stand. */
  lemma CarryStops(s: seq<char>, i: nat)
    requires AreDigits(s, 10, false) && i < |s| && s[i] != '9' && forall k :: i < k < |s| ==> s[k] == '9'
    requires s[0] != '0'
    ensures (s[i] as int + 1) < 128
    ensures var t := s[..i] + [(s[i] as int + 1) as char];
            && ValueOf(s, 10) + 1 == Mul(ValueOf(t, 10), Pow(10, |s| - 1 - i))
            && Canonical(t)
  {
    hide *;
    DigitAt(s, i);
    NextDigit(s[i]);
    var c := (s[i] as int + 1) as char;
    var h, r := s[..i], s[i + 1..];
    assert s == h + [s[i]] + r;
    Nines(r);
    ValueConcat(h + [s[i]], r);
    ValueConcat(h, [s[i]]);
    ValueConcat(h, [c]);
    OneDigit(s[i]);
    OneDigit(c);
    MulAdd(ValueOf(h + [s[i]], 10), 1, Pow(10, |r|));
    MulOne(Pow(10, |r|));
    assert s[0..i] == h;
    SliceDigits(s, 0, i);
    ConcatDigits(h, [c]);
    CanonicalOf(h + [c]);
  }

  lemma CanonicalOf(s: seq<char>)
    requires AreDigits(s, 10, false) && (s != [] ==> s[0] != '0' && s[|s| - 1] != '0')
    ensures Canonical(s)
  {
  }

  lemma NextDigit(c: char)
    requires DigitValue(c) < 9
    ensures c as int + 1 < 128 && DigitValue((c as int + 1) as char) == DigitValue(c) + 1
    ensures (c as int + 1) as char != '0' && AreDigits([(c as int + 1) as char], 10, false)
  {
  }
}
