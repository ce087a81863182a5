/** itoa on every 64-bit value, those included that no earlier call can have left.

    itoa makes the character of a digit by adding it to '0'. A value in the reserved band that packs no
    digit string yields a first quotient of ten or more, and so a character that is no digit. */
module RawDecimals {
  import opened Arith
  import opened Numerals
  import opened Resumable

  /** The byte '0' + d. */
  function ByteDigit(d: nat): char {
    ((48 + d) % 256) as char
  }

  function Leading(v: nat, n: nat): nat
    requires n > 0
  {
    PowPositive(10, n - 1);
    DivNat(v, Pow(10, n - 1));
    Div(v, Pow(10, n - 1))
  }

  /** What the digit loop of itoa writes for v with n digits: only the first may be no digit. */
  function RawDigits(v: nat, n: nat): (s: seq<char>)
    ensures |s| == n
  {
    if n == 0 then [] else [ByteDigit(Leading(v, n))] + Digits(v, 10, n - 1, false)
  }

  /** The text that a nonzero value stands for to itoa. */
  function DecimalPending(i: int): seq<char> {
    if Encoded(true, i) && Rank(true, i) > 0 then
      var u := Rank(true, i);
      var m := Length(u, 10) - 1;
      LengthBounds(u, 10);
      RawDigits(u - Pow(10, m), m)
    else SignedNumeral(i, 10, false)
  }

  /** One call of itoa with a buffer of `size` bytes, on any int64. */
  function DecimalStep(i: int, size: nat): Outcome {
    if size == 0 then Outcome([], i)
    else if i == 0 then Outcome("0", 0)
    else if Encoded(true, i) && Rank(true, i) < 10 then Outcome([], Rank(true, i) - 1)
    else if !Encoded(true, i) && i < 0 && size < 2 then Outcome([], i)
    else
      var text := DecimalPending(i);
      if |text| <= size then Outcome(text, 0)
      else Outcome(text[..size], Coded(true, Packed(text[size..], 10)))
  }

  // ----- The digit loop

  /** With few enough digits they are all digits. */
  lemma RawProper(v: nat, n: nat)
    requires v < Pow(10, n)
    ensures RawDigits(v, n) == Digits(v, 10, n, false)
  {
    hide Mul, Div, Mod, Pow, Digits;
    if n > 0 {
      var p := Pow(10, n - 1);
      DigitsAt(v, 10, n, 0, false);
      PowStep(10, n - 1);
      MulOne(p);
      DivMod(v, p);
      MulOne(0);
      DivBounds(v, 0, 10, p);
      DivSmall(Leading(v, n), 10);
      DigitIsByte(Leading(v, n));
      DigitsSuffix(v, 10, n, n - 1, false);
      var s := Digits(v, 10, n, false);
      assert s == [s[0]] + s[1..];
    } else {
      NoneOf(v);
    }
  }

  lemma NoneOf(v: nat)
    ensures Digits(v, 10, 0, false) == []
  {
  }

  lemma DigitIsByte(d: nat)
    requires d < 10
    ensures ByteDigit(d) == DigitChar(d, false)
  {
  }

  /** One round of the loop: x is what is left of v, w the weight of the next digit. */
  lemma RawStep(v: nat, x: nat, n: nat, j: nat)
    requires j < n && Pow(10, n - j) > 0 && x == (if j == 0 then v else Rem(v, Pow(10, n - j)))
    ensures var w := Pow(10, n - 1 - j);
            && w > 0 && 0 <= x / w && 0 <= x % w
            && ByteDigit(x / w) == RawDigits(v, n)[j] && x % w == Rem(v, w)
            && (j + 1 < n ==> w / 10 == Pow(10, n - 2 - j)) && 0 <= w / 10 <= w
  {
    hide Mul, Div, Mod, Pow, Digits, DigitChar, ByteDigit;
    var w := Pow(10, n - 1 - j);
    PowPositive(10, n - 1 - j);
    DivModIs(x, w);
    DivNat(x, w);
    DivMod(x, w);
    if j > 0 {
      PowStep(10, n - 1 - j);
      MulComm(w, 10);
      DivOfMod(v, w, 10);
      DigitsAt(v, 10, n - 1, j - 1, false);
      DigitIsByte(Rem(Div(v, w), 10));
    }
    if j + 1 < n {
      PowStep(10, n - 2 - j);
      MulConst(Pow(10, n - 2 - j));
    }
  }

  lemma DivModIs(x: int, y: int)
    requires y > 0
    ensures Div(x, y) == x / y && Mod(x, y) == x % y
  {
  }

  // ----- A call

  /** What a value taken apart stands for. */
  lemma PendingIs(i: int)
    requires i != 0
    ensures !Encoded(true, i) ==>
              DecimalPending(i) == (if i < 0 then "-" else "") + RawDigits(Abs(i), Length(Abs(i), 10))
    ensures Encoded(true, i) ==>
              var u := Rank(true, i);
              && u > 0 && Length(u, 10) > 0 && Pow(10, Length(u, 10) - 1) <= u
              && DecimalPending(i) == RawDigits(u - Pow(10, Length(u, 10) - 1), Length(u, 10) - 1)
  {
    hide Mul, Pow, Length, Digits, SignedNumeral, RawDigits;
    if Encoded(true, i) {
      LengthBounds(Rank(true, i), 10);
    } else {
      FreshDigits(i, 10, false);
      RawProper(Abs(i), Length(Abs(i), 10));
    }
  }

  lemma RawTail(v: nat, n: nat, k: nat)
    requires 0 < k <= n
    ensures RawDigits(v, n)[k..] == Digits(v, 10, n - k, false)
    ensures Pow(10, n - k) > 0
    ensures Packed(RawDigits(v, n)[k..], 10) == Pow(10, n - k) + Rem(v, Pow(10, n - k))
  {
    hide Mul, Div, Mod, Pow, Digits, ValueOf;
    DigitsSuffix(v, 10, n - 1, n - k, false);
    ValueOfDigits(v, 10, n - k, false);
    assert RawDigits(v, n)[k..] == Digits(v, 10, n - 1, false)[k - 1..];
  }

  lemma RawDone(i: int, size: nat, sign: seq<char>, v: nat, n: nat, k: nat)
    requires i != 0 && n > 0 && |sign| < size && k == Min(n, size - |sign|)
    requires DecimalPending(i) == sign + RawDigits(v, n)
    requires if Encoded(true, i) then Rank(true, i) >= 10 else i < 0 ==> size >= 2
    ensures Pow(10, n - k) > 0
    ensures DecimalStep(i, size) ==
              Outcome(sign + RawDigits(v, n)[..k],
                      if k == n then 0 else Coded(true, Pow(10, n - k) + Rem(v, Pow(10, n - k))))
  {
    hide Mul, Div, Mod, Pow, Packed, RawDigits, DecimalPending;
    var d := RawDigits(v, n);
    PowPositive(10, n - k);
    if k == n {
      assert d[..k] == d;
    } else {
      RawTail(v, n, k);
      assert (sign + d)[size..] == d[k..] && (sign + d)[..size] == sign + d[..k];
    }
  }

  // ----- Where itoa is an ordinary resumable conversion

  /** On values that a caller may resume with, and on all fresh ones, itoa is the decimal conversion. */
  lemma DecimalIsStep(i: int, size: nat)
    requires Proper(true, i, 10)
    ensures DecimalStep(i, size) == Step(true, i, size, 10, false, 18)
  {
    hide *;
    ProperIs(i);
    EarlySteps(true, i, size, 10, false, 18);
    RawEarly(i, size);
    Ranges(i);
    if size > 0 && i != 0 {
      PendingIs(i);
      if Encoded(true, i) {
        if Rank(true, i) >= 10 {
          Resumed(true, i, 10, false, Length(Rank(true, i), 10) - 1);
          var m := Length(Rank(true, i), 10) - 1;
          RawProper(Rank(true, i) - Pow(10, m), m);
          SameText(i, size);
        }
      } else {
        FreshStart(i, size);
        CallableNow(true, i, size, 10, false, 18);
        RawFresh(i);
        if !(i < 0 && size < 2) {
          SameText(i, size);
        }
      }
    }
  }

  lemma RawEarly(i: int, size: nat)
    ensures size == 0 ==> DecimalStep(i, size) == Outcome([], i)
    ensures size > 0 && i == 0 ==> DecimalStep(i, size) == Outcome("0", 0)
    ensures size > 0 && i != 0 && Encoded(true, i) && Rank(true, i) < 10 ==>
            DecimalStep(i, size) == Outcome([], Rank(true, i) - 1)
    ensures size > 0 && i < 0 && !Encoded(true, i) && size < 2 ==> DecimalStep(i, size) == Outcome([], i)
    ensures Encoded(true, i) ==> Rank(true, i) > 0
  {
    hide DecimalPending;
  }

  lemma RawFresh(i: int)
    ensures !Encoded(true, i) ==> DecimalPending(i) == SignedNumeral(i, 10, false)
  {
  }

  lemma ProperIs(i: int)
    ensures IsRadix(10) && (Proper(true, i, 10) ==> InRange(true, i))
  {
  }

  lemma SameText(i: int, size: nat)
    requires size > 0 && i != 0 && DecimalPending(i) == Pending(true, i, 10, false)
    requires if Encoded(true, i) then Rank(true, i) >= 10
             else Startable(i, size, 10, 18) && !(i < 0 && size < 2)
    ensures DecimalStep(i, size) == Step(true, i, size, 10, false, 18)
  {
    hide DecimalPending, Pending, Packed, Startable;
  }

  /** A fresh int64 can be started in any buffer with room for its sign and a digit. */
  lemma FreshStart(i: int, size: nat)
    requires InRange(true, i) && i != 0 && size > 0
    ensures Length(Abs(i), 10) <= 19
    ensures Startable(i, size, 10, 18) <==> !(i < 0 && size < 2)
  {
    hide Length, Pow;
    LengthBounds(Abs(i), 10);
    TenPowers();
    if Length(Abs(i), 10) > 19 {
      PowMono(10, 19, Length(Abs(i), 10) - 1);
    }
  }

  // ----- When the number is printed

  /** With room for its numeral, an int64 is printed as its numeral if and only if it lies outside the band. */
  lemma DecimalExactly(i: int, size: nat)
    requires -0x8000_0000_0000_0000 <= i <= 0x7fff_ffff_ffff_ffff && size >= |SignedNumeral(i, 10, false)|
    ensures DecimalStep(i, size) == Outcome(SignedNumeral(i, 10, false), 0) <==>
            !(-0x8000_0000_0000_0000 < i <= -0x6000_0000_0000_0000)
  {
    hide *;
    Bands(i);
    Ranges(i);
    RawEarly(i, size);
    ProperIs(i);
    if i == 0 {
      ZeroOutside();
    } else {
      FreshText(i, 10, false);
      EarlySteps(true, i, size, 10, false, 18);
      if Encoded(true, i) {
        BandIsShort(i, size);
      } else {
        RawFresh(i);
        RawWhole(i, size);
      }
    }
  }

  lemma ZeroOutside()
    ensures !Encoded(true, 0) && SignedNumeral(0, 10, false) == "0"
  {
  }

  lemma RawWhole(i: int, size: nat)
    requires !Encoded(true, i) && i != 0 && |DecimalPending(i)| <= size && (i < 0 ==> size >= 2) && size > 0
    ensures DecimalStep(i, size) == Outcome(DecimalPending(i), 0)
  {
    hide DecimalPending;
  }

  /** Band values have 19 digits and a sign; itoa prints at most 18 characters for them. */
  lemma BandIsShort(i: int, size: nat)
    requires Encoded(true, i)
    ensures |DecimalStep(i, size).out| <= 18 < |SignedNumeral(i, 10, false)|
  {
    hide DecimalPending, SignedNumeral, Packed;
    BandNumeral(i);
  }

  // ----- Whole runs

  /** Calls of itoa with buffers of the given sizes until the value is used up. */
  function ItoaRun(i: int, sizes: seq<nat>): Outcome
    decreases |sizes|
  {
    if sizes == [] then Outcome([], i)
    else
      var o := DecimalStep(i, sizes[0]);
      if o.i == 0 then o
      else
        var rest := ItoaRun(o.i, sizes[1..]);
        Outcome(o.out + rest.out, rest.i)
  }

  /** A value outside the band, or one that an earlier call has left. */
  ghost predicate Sound(i: int) {
    InRange(true, i) && (Encoded(true, i) ==> Remainder(true, i, 10, false))
  }

  lemma SoundProper(i: int)
    requires Sound(i)
    ensures Proper(true, i, 10)
  {
    hide Packed, Length, Pow;
    if Encoded(true, i) {
      var s :| IsRest(true, i, s, 10, false);
      PackedLength(s, 10, false);
    }
  }

  lemma SoundStep(i: int, size: nat)
    requires Sound(i) && size > 0
    ensures Sound(DecimalStep(i, size).i) && DecimalStep(i, size) == Step(true, i, size, 10, false, 18)
  {
    hide *;
    SoundIs(i);
    SoundProper(i);
    DecimalIsStep(i, size);
    var o := Step(true, i, size, 10, false, 18);
    SoundIs(o.i);
    ZeroOutside();
    Ranges(0);
    EarlySteps(true, i, size, 10, false, 18);
    CallableNow(true, i, size, 10, false, 18);
    RadixBands();
    if i != 0 && (Encoded(true, i) || Startable(i, size, 10, 18)) {
      StepEmits(true, i, size, 10, false, 18);
      LeftInRange(o.i);
    }
  }

  lemma SoundIs(i: int)
    ensures IsRadix(10)
    ensures Sound(i) <==> InRange(true, i) && (Encoded(true, i) ==> Remainder(true, i, 10, false))
  {
  }

  lemma LeftInRange(i: int)
    ensures Remainder(true, i, 10, false) ==> Encoded(true, i) && InRange(true, i)
  {
    hide IsRest;
  }

  lemma {:induction false} ItoaRunIsRun(i: int, sizes: seq<nat>)
    requires Sound(i) && Positive(sizes)
    ensures ItoaRun(i, sizes) == Run(true, i, sizes, 10, false, 18)
    decreases |sizes|
  {
    hide Sound, DecimalStep, Step;
    if sizes != [] {
      SoundStep(i, sizes[0]);
      ItoaRunIsRun(DecimalStep(i, sizes[0]).i, sizes[1..]);
    }
  }

  /** Over any buffers, the calls of itoa print the numeral of an int64 if and only if it lies outside the
      band and the buffers hold the numeral from the first one that can start it. */
  lemma ItoaRunExactly(i: int, sizes: seq<nat>)
    requires -0x8000_0000_0000_0000 <= i <= 0x7fff_ffff_ffff_ffff && i != 0 && Positive(sizes)
    ensures ItoaRun(i, sizes) == Outcome(SignedNumeral(i, 10, false), 0) <==>
            && !(-0x8000_0000_0000_0000 < i <= -0x6000_0000_0000_0000)
            && Sum(Usable(i, sizes, 10, 18)) >= |SignedNumeral(i, 10, false)|
  {
    hide *;
    Bands(i);
    SoundIs(i);
    if Encoded(true, i) {
      BandRunShort(i, sizes);
    } else {
      RadixBands();
      ItoaRunIsRun(i, sizes);
      ChunkedIsNumeral(true, i, sizes, 10, false, 18);
    }
  }

  lemma SoundRunShort(i: int, sizes: seq<nat>)
    requires Sound(i) && i != 0 && Positive(sizes)
    ensures |ItoaRun(i, sizes).out| <= |Pending(true, i, 10, false)|
  {
    hide Sound, DecimalStep, Step, Pending, Startable, Remainder, Encoded;
    ItoaRunIsRun(i, sizes);
    RunShort(i, sizes);
  }

  lemma {:induction false} RunShort(i: int, sizes: seq<nat>)
    requires Sound(i) && i != 0 && Positive(sizes)
    ensures |Run(true, i, sizes, 10, false, 18).out| <= |Pending(true, i, 10, false)|
    decreases |sizes|
  {
    hide Sound, Step, Pending, Startable, Remainder, Encoded;
    SoundIs(i);
    RadixBands();
    if sizes != [] {
      EarlySteps(true, i, sizes[0], 10, false, 18);
      CallableNow(true, i, sizes[0], 10, false, 18);
      if Encoded(true, i) || Startable(i, sizes[0], 10, 18) {
        RunEmits(true, i, sizes, 10, false, 18);
      } else {
        RunShort(i, sizes[1..]);
      }
    }
  }

  /** The characters printed for a band value are too few for its numeral, however they are cut. */
  lemma BandRunShort(i: int, sizes: seq<nat>)
    requires Encoded(true, i) && Positive(sizes)
    ensures |ItoaRun(i, sizes).out| <= 18 < |SignedNumeral(i, 10, false)|
  {
    hide *;
    SoundIs(i);
    BandNumeral(i);
    RunUnfolds(i, sizes);
    if sizes != [] {
      var o := DecimalStep(i, sizes[0]);
      RawEarly(i, sizes[0]);
      ZeroOutside();
      if Rank(true, i) < 10 {
        if o.i != 0 {
          SmallValue(o.i);
          SoundRunShort(o.i, sizes[1..]);
        }
      } else {
        BandCall(i, sizes[0]);
        if o.i != 0 {
          SoundRunShort(o.i, sizes[1..]);
        }
      }
    }
  }

  lemma RunUnfolds(i: int, sizes: seq<nat>)
    requires Positive(sizes)
    ensures sizes == [] ==> ItoaRun(i, sizes).out == []
    ensures sizes != [] ==>
              var o := DecimalStep(i, sizes[0]);
              && sizes[0] > 0 && Positive(sizes[1..])
              && ItoaRun(i, sizes).out == (if o.i == 0 then o.out else o.out + ItoaRun(o.i, sizes[1..]).out)
  {
    hide DecimalStep;
  }

  lemma SmallValue(v: int)
    requires 0 < v < 9
    ensures Sound(v) && |Pending(true, v, 10, false)| == 1
  {
    hide Pow;
    PowStep(10, 0);
    LengthIs(v, 10, 1);
  }

  lemma BandNumeral(i: int)
    requires Encoded(true, i)
    ensures Rank(true, i) - 1 < 9 <==> Rank(true, i) < 10
    ensures 18 < |SignedNumeral(i, 10, false)|
    ensures |DecimalPending(i)| <= 18
  {
    hide Pow, Length, RawDigits, SignedNumeral;
    var u := Rank(true, i);
    TenPowers();
    LengthBounds(u, 10);
    if Length(u, 10) > 19 {
      PowMono(10, 19, Length(u, 10) - 1);
    }
    FreshText(i, 10, false);
    LengthBounds(Abs(i), 10);
    if Length(Abs(i), 10) < 19 {
      PowMono(10, Length(Abs(i), 10), 18);
    }
  }

  /** Behind a first call, even a band value that packs no digits has left a proper remainder. */
  lemma BandCall(i: int, size: nat)
    requires Encoded(true, i) && Rank(true, i) >= 10 && size > 0
    ensures var o := DecimalStep(i, size);
            && |o.out| <= |DecimalPending(i)|
            && (o.i != 0 ==>
                  && Sound(o.i) && |o.out| + |Pending(true, o.i, 10, false)| == |DecimalPending(i)|)
  {
    hide *;
    SoundIs(i);
    ZeroOutside();
    PendingIs(i);
    BandNumeral(i);
    BandCallIs(i, size);
    var u := Rank(true, i);
    var m := Length(u, 10) - 1;
    var v := u - Pow(10, m);
    var text := DecimalPending(i);
    if |text| > size {
      RawTail(v, m, size);
      SoundTail(v, m - size);
    }
  }

  lemma BandCallIs(i: int, size: nat)
    requires Encoded(true, i) && Rank(true, i) >= 10 && size > 0 && i != 0
    ensures var text := DecimalPending(i);
            DecimalStep(i, size) == if |text| <= size then Outcome(text, 0)
                                    else Outcome(text[..size], Coded(true, Packed(text[size..], 10)))
  {
    hide DecimalPending, Packed;
  }

  lemma SoundTail(v: nat, k: nat)
    requires 0 < k < 18
    ensures var s := Digits(v, 10, k, false);
            Sound(Coded(true, Packed(s, 10))) && Pending(true, Coded(true, Packed(s, 10)), 10, false) == s
  {
    hide Packed, Digits, Pending, Remainder, AreDigits, Pow, Mul;
    var s := Digits(v, 10, k, false);
    DigitsAre(v, 10, k, false);
    RadixBands();
    TailFits(s, 18, 10, false, BAND);
    PendingPacked(true, s, 10, false);
    LeftInRange(Coded(true, Packed(s, 10)));
  }

  /** Two values in the band, each in a buffer of 32 bytes: one vanishes, the other becomes a letter. */
  lemma BandWitnesses()
    ensures DecimalStep(INT64_MIN + 1, 32) == Outcome([], 0)
    ensures Step(true, INT64_MIN + 1, 32, 10, false, 18) == Outcome([], 0)
    ensures DecimalStep(INT64_MIN + 50, 32) == Outcome("X", 0) && !Proper(true, INT64_MIN + 50, 10)
  {
    hide Pow, Mul, Div, Mod;
    TenPowers();
    PowStep(10, 0);
    LengthIs(50, 10, 2);
    DivOne(40);
    assert RawDigits(40, 1) == "X";
  }
}
