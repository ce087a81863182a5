/** The resumable integer conversions as functions: the text a pending number still stands for,
    and what one call with a buffer of a given size emits and leaves behind.

    A number that did not fit is packed back into its 64-bit variable as radix^m + suffix, where m
    digits remain and the suffix is their value, counted up from INT64_MIN (signed) or down from
    UINT64_MAX (unsigned). */
module Resumable {
  import opened Arith
  import opened Numerals

  const INT64_MIN := -0x8000_0000_0000_0000
  const INT64_MAX := 0x7fff_ffff_ffff_ffff
  const UINT64_MAX := 0xffff_ffff_ffff_ffff

  /** Width of the band of values that are taken for packed remainders: 2^61. */
  const BAND := 0x2000_0000_0000_0000

  type int64 = x: int | -0x8000_0000_0000_0000 <= x <= 0x7fff_ffff_ffff_ffff
  type uint64 = x: int | 0 <= x <= 0xffff_ffff_ffff_ffff

  // ----- Packing a digit string into one number

  function Packed(rest: seq<char>, r: nat): nat {
    Pow(r, |rest|) + ValueOf(rest, r)
  }

  /** The digit string packed in u: everything below the leading power of the radix. */
  function Unpacked(u: nat, r: nat, upper: bool): (s: seq<char>)
    requires IsRadix(r) && u > 0
    ensures |s| == Length(u, r) - 1
  {
    LengthBounds(u, r);
    Digits(u - Pow(r, Length(u, r) - 1), r, Length(u, r) - 1, upper)
  }

  /** A packed string has one digit more than the string it packs. */
  lemma PackedLength(s: seq<char>, r: nat, upper: bool)
    requires IsRadix(r) && AreDigits(s, r, upper)
    ensures Pow(r, |s|) <= Packed(s, r) < 2 * Pow(r, |s|) <= Pow(r, |s| + 1)
    ensures Packed(s, r) > 0 && Length(Packed(s, r), r) == |s| + 1
  {
    hide Mul, Pow, ValueOf, Length;
    ValueBound(s, r, upper);
    PowPositive(r, |s|);
    PowStep(r, |s|);
    MulMono(2, r, Pow(r, |s|));
    MulConst(Pow(r, |s|));
    LengthIs(Packed(s, r), r, |s| + 1);
  }

  /** Packing loses nothing, not even leading zeros. */
  lemma UnpackPacked(s: seq<char>, r: nat, upper: bool)
    requires IsRadix(r) && AreDigits(s, r, upper)
    ensures Packed(s, r) > 0 && Unpacked(Packed(s, r), r, upper) == s
  {
    hide Mul, Pow, ValueOf, Length, Digits;
    PackedLength(s, r, upper);
    DigitsOfValue(s, r, upper);
  }

  /** Every u in the band unpacks to the string it packs, when it is a packing at all. */
  lemma PackUnpacked(u: nat, r: nat, upper: bool)
    requires IsRadix(r) && u > 0 && u < 2 * Pow(r, Length(u, r) - 1)
    ensures Packed(Unpacked(u, r, upper), r) == u
    ensures AreDigits(Unpacked(u, r, upper), r, upper)
  {
    hide Mul, Pow, ValueOf, Length, Digits;
    var m := Length(u, r) - 1;
    LengthBounds(u, r);
    DigitsAre(u - Pow(r, m), r, m, upper);
    ValueOfDigits(u - Pow(r, m), r, m, upper);
    DivSmall(u - Pow(r, m), Pow(r, m));
  }

  /** How many digits of radix r a packed remainder may hold so that it stays inside the band. */
  ghost predicate FitsBand(r: nat, maxRem: nat)
    requires IsRadix(r)
  {
    2 * Pow(r, maxRem) <= BAND
  }

  lemma RadixBands()
    ensures FitsBand(10, 18) && FitsBand(2, 60) && FitsBand(8, 20) && FitsBand(16, 15)
  {
    hide Pow;
    TenPowers();
    TwoPowers();
    BinaryPowers(20);
    BinaryPowers(15);
  }

  // ----- One call of a conversion

  /** Values that a call takes for a packed remainder. */
  predicate Encoded(signed: bool, i: int) {
    if signed then INT64_MIN < i <= INT64_MIN + BAND else UINT64_MAX - BAND <= i <= UINT64_MAX
  }

  /** Among int64 the 2^61 values above the least, among uint64 those at the top and one more. */
  lemma Bands(i: int)
    ensures Encoded(true, i) <==> -0x8000_0000_0000_0000 < i <= -0x6000_0000_0000_0000
    ensures Encoded(false, i) <==> 0xdfff_ffff_ffff_ffff <= i <= 0xffff_ffff_ffff_ffff
    ensures InRange(true, i) <==> -0x8000_0000_0000_0000 <= i <= 0x7fff_ffff_ffff_ffff
    ensures InRange(false, i) <==> 0 <= i <= 0xffff_ffff_ffff_ffff
  {
  }

  /** The packed number that an encoded value holds, and back. */
  function Rank(signed: bool, i: int): int {
    if signed then i - INT64_MIN else UINT64_MAX - i
  }

  function Coded(signed: bool, u: int): int {
    if signed then INT64_MIN + u else UINT64_MAX - u
  }

  predicate InRange(signed: bool, i: int) {
    if signed then INT64_MIN <= i <= INT64_MAX else 0 <= i <= UINT64_MAX
  }

  function Abs(i: int): nat {
    if i < 0 then -i else i
  }

  /** The text that a nonzero value still stands for. */
  function Pending(signed: bool, i: int, r: nat, upper: bool): seq<char>
    requires IsRadix(r)
  {
    if Encoded(signed, i) then
      if Rank(signed, i) > 0 then Unpacked(Rank(signed, i), r, upper) else []
    else SignedNumeral(i, r, upper)
  }

  /** A fresh value needs room for a sign and a digit, and for all digits that cannot be packed. */
  predicate Startable(i: int, size: nat, r: nat, maxRem: nat)
    requires IsRadix(r)
  {
    if i < 0 then size >= 2 && Length(Abs(i), r) <= maxRem + size - 1
    else size >= 1 && Length(Abs(i), r) <= maxRem + size
  }

  datatype Outcome = Outcome(out: seq<char>, i: int)

  function Min(a: int, b: int): int {
    if a <= b then a else b
  }

  /** What a call with a buffer of `size` bytes writes, and the value it leaves. */
  function Step(signed: bool, i: int, size: nat, r: nat, upper: bool, maxRem: nat): Outcome
    requires IsRadix(r)
  {
    if size == 0 then Outcome([], i)
    else if i == 0 then Outcome("0", 0)
    else if Encoded(signed, i) && Rank(signed, i) < r then
      Outcome([], if Rank(signed, i) == 0 then UINT64_MAX else Rank(signed, i) - 1)
    else if !Encoded(signed, i) && !Startable(i, size, r, maxRem) then Outcome([], i)
    else
      var text := Pending(signed, i, r, upper);
      if |text| <= size then Outcome(text, 0)
      else Outcome(text[..size], Coded(signed, Packed(text[size..], r)))
  }

  /** A remainder that an earlier call can have left. */
  ghost predicate Remainder(signed: bool, i: int, r: nat, upper: bool)
    requires IsRadix(r)
  {
    Encoded(signed, i) && exists s :: IsRest(signed, i, s, r, upper)
  }

  ghost predicate IsRest(signed: bool, i: int, s: seq<char>, r: nat, upper: bool)
    requires IsRadix(r)
  {
    AreDigits(s, r, upper) && s != [] && i == Coded(signed, Packed(s, r))
  }

  /** Values a caller may pass: anything but band values that pack no digit string.  For those the
      code would index its digit table beyond the end. */
  ghost predicate Proper(signed: bool, i: int, r: nat)
    requires IsRadix(r)
  {
    InRange(signed, i) && (Encoded(signed, i) && Rank(signed, i) >= r ==>
      Rank(signed, i) < 2 * Pow(r, Length(Rank(signed, i), r) - 1))
  }

  /** The value that packs s, seen through Pending. */
  lemma PendingPacked(signed: bool, s: seq<char>, r: nat, upper: bool)
    requires IsRadix(r) && AreDigits(s, r, upper) && s != [] && Packed(s, r) <= BAND
    ensures Remainder(signed, Coded(signed, Packed(s, r)), r, upper) && Coded(signed, Packed(s, r)) != 0
    ensures Pending(signed, Coded(signed, Packed(s, r)), r, upper) == s
    ensures Packed(s, r) >= r
  {
    hide Packed, Unpacked, Length, Mul, Pow;
    PackedLength(s, r, upper);
    UnpackPacked(s, r, upper);
    PowMono(r, 1, |s|);
    PowStep(r, 0);
    assert IsRest(signed, Coded(signed, Packed(s, r)), s, r, upper);
  }

  /** The digits of a fresh number are digits, behind an optional sign. */
  lemma FreshText(i: int, r: nat, upper: bool)
    requires IsRadix(r) && i != 0
    ensures |SignedNumeral(i, r, upper)| == Length(Abs(i), r) + if i < 0 then 1 else 0
    ensures AreDigits(SignedNumeral(i, r, upper)[if i < 0 then 1 else 0..], r, upper)
  {
    hide Length, Digits, DigitValue, DigitChar;
    DigitsAre(Abs(i), r, Length(Abs(i), r), upper);
    var s := SignedNumeral(i, r, upper);
    assert s[if i < 0 then 1 else 0..] == Digits(Abs(i), r, Length(Abs(i), r), upper);
  }

  lemma SuffixDigits(s: seq<char>, j: nat, k: nat, r: nat, upper: bool)
    requires IsRadix(r) && j <= k <= |s| && AreDigits(s[j..], r, upper)
    ensures AreDigits(s[k..], r, upper)
  {
    forall i | 0 <= i < |s[k..]|
      ensures DigitValue(s[k..][i]) < r && s[k..][i] == DigitChar(DigitValue(s[k..][i]), upper)
    {
      assert s[k..][i] == s[j..][k - j + i];
    }
  }

  /** A tail of pending text still fits the band when packed. */
  lemma TailFits(s: seq<char>, m: nat, r: nat, upper: bool, bound: int)
    requires IsRadix(r) && AreDigits(s, r, upper) && |s| <= m && 2 * Pow(r, m) <= bound
    ensures Packed(s, r) <= bound
  {
    hide Packed, Mul, Pow;
    PackedLength(s, r, upper);
    PowMono(r, |s|, m);
  }

  ghost predicate Callable(signed: bool, i: int, size: nat, r: nat, upper: bool, maxRem: nat)
    requires IsRadix(r)
  {
    && i != 0 && size > 0 && InRange(signed, i)
    && (if Encoded(signed, i) then Remainder(signed, i, r, upper) else Startable(i, size, r, maxRem))
  }

  /** A call emits a prefix of the pending text, as much as fits, and leaves the rest pending. */
  lemma StepEmits(signed: bool, i: int, size: nat, r: nat, upper: bool, maxRem: nat)
    requires IsRadix(r) && FitsBand(r, maxRem) && Callable(signed, i, size, r, upper, maxRem)
    ensures var text, o := Pending(signed, i, r, upper), Step(signed, i, size, r, upper, maxRem);
            && o.out == text[..Min(size, |text|)]
            && (o.i == 0 <==> |text| <= size)
            && (o.i != 0 ==> Remainder(signed, o.i, r, upper) && Pending(signed, o.i, r, upper) == text[size..])
  {
    hide Packed, Pow, Mul, Length, SignedNumeral, Unpacked;
    var text := Pending(signed, i, r, upper);
    var start := if Encoded(signed, i) || i > 0 then 0 else 1;
    if Encoded(signed, i) {
      var s :| IsRest(signed, i, s, r, upper);
      PendingPacked(signed, s, r, upper);
      assert s[0..] == s;
      if size < |text| {
        PackedLength(s, r, upper);
        PackedLength(s[size..], r, upper);
        PowMono(r, |s| - size + 1, |s|);
      }
    } else {
      FreshText(i, r, upper);
      if size < |text| {
        SuffixDigits(text, start, size, r, upper);
        TailFits(text[size..], maxRem, r, upper, BAND);
      }
    }
    if size < |text| {
      SuffixDigits(text, start, size, r, upper);
      PendingPacked(signed, text[size..], r, upper);
    }
  }

  // ----- Whole runs

  /** Calls with buffers of the given sizes until the value is used up. */
  function Run(signed: bool, i: int, sizes: seq<nat>, r: nat, upper: bool, maxRem: nat): Outcome
    requires IsRadix(r)
    decreases |sizes|
  {
    if sizes == [] then Outcome([], i)
    else
      var o := Step(signed, i, sizes[0], r, upper, maxRem);
      if o.i == 0 then o
      else
        var rest := Run(signed, o.i, sizes[1..], r, upper, maxRem);
        Outcome(o.out + rest.out, rest.i)
  }

  function Sum(sizes: seq<nat>): nat {
    if sizes == [] then 0 else sizes[0] + Sum(sizes[1..])
  }

  ghost predicate Positive(sizes: seq<nat>) {
    forall k :: 0 <= k < |sizes| ==> sizes[k] > 0
  }

  /** However the output is chunked, a run emits the pending text from its start, as much as the
      buffers hold together; the value reaches 0 exactly when the text is complete, and until then
      it keeps the rest. */
  lemma {:induction false} RunEmits(signed: bool, i: int, sizes: seq<nat>, r: nat, upper: bool, maxRem: nat)
    requires IsRadix(r) && FitsBand(r, maxRem) && Positive(sizes) && sizes != []
    requires Callable(signed, i, sizes[0], r, upper, maxRem)
    ensures var text, o := Pending(signed, i, r, upper), Run(signed, i, sizes, r, upper, maxRem);
            && o.out == text[..Min(Sum(sizes), |text|)]
            && (o.i == 0 <==> |text| <= Sum(sizes))
            && (o.i != 0 ==> Remainder(signed, o.i, r, upper) && Pending(signed, o.i, r, upper) == text[Sum(sizes)..])
    decreases |sizes|
  {
    hide Pending, Step, Remainder, Startable, FitsBand, Encoded;
    var text, o := Pending(signed, i, r, upper), Step(signed, i, sizes[0], r, upper, maxRem);
    StepEmits(signed, i, sizes[0], r, upper, maxRem);
    if o.i != 0 {
      if sizes[1..] == [] {
        assert Sum(sizes) == sizes[0] + Sum([]);
      } else {
        RemainderCallable(signed, o.i, sizes[1], r, upper, maxRem);
        RunEmits(signed, o.i, sizes[1..], r, upper, maxRem);
        var rest := text[sizes[0]..];
        assert text == text[..sizes[0]] + rest;
      }
    }
  }

  lemma RemainderCallable(signed: bool, i: int, size: nat, r: nat, upper: bool, maxRem: nat)
    requires IsRadix(r) && Remainder(signed, i, r, upper) && size > 0
    ensures Callable(signed, i, size, r, upper, maxRem)
  {
  }

  /** The buffers from the first one in which a fresh value can be started; smaller ones in front of it
      are passed over without any output. */
  function Usable(i: int, sizes: seq<nat>, r: nat, maxRem: nat): seq<nat>
    requires IsRadix(r)
  {
    if sizes == [] || Startable(i, sizes[0], r, maxRem) then sizes else Usable(i, sizes[1..], r, maxRem)
  }

  /** They start with the first buffer that has room for a sign and a digit and leaves no more of the numeral
      over than can be packed. */
  lemma {:induction false} UsableMeans(i: int, sizes: seq<nat>, r: nat, upper: bool, maxRem: nat) returns (k: nat)
    requires IsRadix(r) && i != 0
    ensures k <= |sizes| && Usable(i, sizes, r, maxRem) == sizes[k..]
    ensures var len, least := |SignedNumeral(i, r, upper)|, if i < 0 then 2 else 1;
            && (forall j :: 0 <= j < k ==> sizes[j] < least || len - sizes[j] > maxRem)
            && (k < |sizes| ==> sizes[k] >= least && len - sizes[k] <= maxRem)
    decreases |sizes|
  {
    hide Length, SignedNumeral;
    FreshText(i, r, upper);
    if sizes == [] || Startable(i, sizes[0], r, maxRem) {
      k := 0;
    } else {
      var rest := sizes[1..];
      k := UsableMeans(i, rest, r, upper, maxRem);
      assert forall j :: 1 <= j < |sizes| ==> sizes[j] == rest[j - 1];
      k := k + 1;
    }
  }

  /** Chunked output equals one-shot output: a run prints the canonical numeral of a fresh value outside
      the band if and only if the buffers hold it from the first one that can start it. */
  lemma {:induction false} ChunkedIsNumeral(signed: bool, i: int, sizes: seq<nat>, r: nat, upper: bool, maxRem: nat)
    requires IsRadix(r) && FitsBand(r, maxRem) && Positive(sizes)
    requires InRange(signed, i) && i != 0 && !Encoded(signed, i)
    ensures Run(signed, i, sizes, r, upper, maxRem) == Outcome(SignedNumeral(i, r, upper), 0) <==>
            Sum(Usable(i, sizes, r, maxRem)) >= |SignedNumeral(i, r, upper)|
    decreases |sizes|
  {
    hide Step, Remainder, Startable, FitsBand, SignedNumeral, Encoded;
    if sizes != [] {
      EarlySteps(signed, i, sizes[0], r, upper, maxRem);
      if Startable(i, sizes[0], r, maxRem) {
        CallableNow(signed, i, sizes[0], r, upper, maxRem);
        RunEmits(signed, i, sizes, r, upper, maxRem);
      } else {
        ChunkedIsNumeral(signed, i, sizes[1..], r, upper, maxRem);
        var rest := Run(signed, i, sizes[1..], r, upper, maxRem);
        assert Run(signed, i, sizes, r, upper, maxRem) == Outcome([] + rest.out, rest.i);
        assert [] + rest.out == rest.out;
      }
    }
  }

  /** With buffers of one size, enough of them to hold the numeral, the value is printed if and only if
      the first of them can start it; otherwise it never progresses. */
  lemma {:induction false} EqualBuffers(signed: bool, i: int, sizes: seq<nat>, r: nat, upper: bool, maxRem: nat)
    requires IsRadix(r) && FitsBand(r, maxRem) && Positive(sizes) && sizes != []
    requires forall k :: 0 <= k < |sizes| ==> sizes[k] == sizes[0]
    requires InRange(signed, i) && i != 0 && !Encoded(signed, i) && Sum(sizes) >= |SignedNumeral(i, r, upper)|
    ensures Run(signed, i, sizes, r, upper, maxRem) == Outcome(SignedNumeral(i, r, upper), 0) <==>
            Startable(i, sizes[0], r, maxRem)
    ensures !Startable(i, sizes[0], r, maxRem) ==> Run(signed, i, sizes, r, upper, maxRem) == Outcome([], i)
  {
    hide Step, Run, Remainder, Startable, FitsBand, SignedNumeral, Encoded;
    ChunkedIsNumeral(signed, i, sizes, r, upper, maxRem);
    if !Startable(i, sizes[0], r, maxRem) {
      NeverStarted(signed, i, sizes, r, upper, maxRem);
    }
  }

  lemma {:induction false} NeverStarted(signed: bool, i: int, sizes: seq<nat>, r: nat, upper: bool, maxRem: nat)
    requires IsRadix(r) && Positive(sizes) && i != 0 && !Encoded(signed, i)
    requires forall k :: 0 <= k < |sizes| ==> !Startable(i, sizes[k], r, maxRem)
    ensures Usable(i, sizes, r, maxRem) == [] && Run(signed, i, sizes, r, upper, maxRem) == Outcome([], i)
    decreases |sizes|
  {
    hide Step, Startable, Encoded;
    if sizes != [] {
      EarlySteps(signed, i, sizes[0], r, upper, maxRem);
      assert forall k :: 0 <= k < |sizes[1..]| ==> sizes[1..][k] == sizes[k + 1];
      NeverStarted(signed, i, sizes[1..], r, upper, maxRem);
    }
  }

  /** 2^63 in binary, one byte at a time: of its 64 digits only 60 can be packed, so nothing is ever printed. */
  lemma NeverStartedWitness()
    ensures Run(false, 0x8000_0000_0000_0000, [1, 1, 1], 2, false, 60) == Outcome([], 0x8000_0000_0000_0000)
  {
    hide Pow, Mul, Step, Run;
    var i := 0x8000_0000_0000_0000;
    TwoPowers();
    PowJoin(2, 60, 1, 0x1000_0000_0000_0000, 2);
    PowJoin(2, 61, 1, 0x2000_0000_0000_0000, 2);
    PowJoin(2, 62, 1, 0x4000_0000_0000_0000, 2);
    LengthIs(i, 2, 64);
    NeverStarted(false, i, [1, 1, 1], 2, false, 60);
  }

  /** Given room enough, one call prints the canonical numeral of a nonzero value exactly when the
      value lies outside the band that is reserved for remainders. For band values that are not Proper,
      Step stands in for a look-up at or behind the end of the digit table. */
  lemma BandExactly(signed: bool, i: int, size: nat, r: nat, upper: bool, maxRem: nat)
    requires IsRadix(r) && FitsBand(r, maxRem) && InRange(signed, i) && i != 0
    requires size >= 2 && Length(Abs(i), r) + 1 <= size
    ensures Step(signed, i, size, r, upper, maxRem) == Outcome(SignedNumeral(i, r, upper), 0) <==> !Encoded(signed, i)
  {
    hide Unpacked, SignedNumeral, FitsBand, Pow, Packed;
    FreshText(i, r, upper);
    if Encoded(signed, i) {
      BandText(signed, i, r, upper);
    }
  }

  /** The digits read out of a band value are fewer, or lack the sign. */
  lemma BandText(signed: bool, i: int, r: nat, upper: bool)
    requires IsRadix(r) && InRange(signed, i) && i != 0 && Encoded(signed, i)
    ensures Pending(signed, i, r, upper) != SignedNumeral(i, r, upper)
    ensures SignedNumeral(i, r, upper) != [] && |Pending(signed, i, r, upper)| <= Length(Abs(i), r)
  {
    hide Length, Pow, Unpacked, Numeral, Digits, Mul;
    FreshText(i, r, upper);
    var u := Rank(signed, i);
    if u > 0 {
      LengthMono(u, Abs(i), r);
      if signed {
        UnpackedDigits(u, r, upper);
        NoSign(Unpacked(u, r, upper), r, upper);
        assert SignedNumeral(i, r, upper)[0] == '-';
      }
    }
  }

  lemma UnpackedDigits(u: nat, r: nat, upper: bool)
    requires IsRadix(r) && u > 0
    ensures AreDigits(Unpacked(u, r, upper), r, upper)
  {
    hide Length, Digits;
    LengthBounds(u, r);
    DigitsAre(u - Pow(r, Length(u, r) - 1), r, Length(u, r) - 1, upper);
  }

  lemma NoSign(s: seq<char>, r: nat, upper: bool)
    requires IsRadix(r) && AreDigits(s, r, upper)
    ensures s != [] ==> s[0] != '-'
  {
  }

  lemma LengthMono(u: nat, v: nat, r: nat)
    requires IsRadix(r) && 0 < u <= v
    ensures Length(u, r) <= Length(v, r)
  {
    hide Length, Pow;
    LengthBounds(u, r);
    LengthBounds(v, r);
    if Length(v, r) < Length(u, r) {
      PowMono(r, Length(v, r), Length(u, r) - 1);
    }
  }

  /** A remainder decodes to one digit string only. */
  lemma RestUnique(signed: bool, i: int, s: seq<char>, t: seq<char>, r: nat, upper: bool)
    requires IsRadix(r) && IsRest(signed, i, s, r, upper) && IsRest(signed, i, t, r, upper)
    ensures s == t
  {
    hide Packed, Unpacked, AreDigits;
    UnpackPacked(s, r, upper);
    UnpackPacked(t, r, upper);
  }

  // ----- The stages of a call

  /** A remainder of at least one digit, taken apart. */
  lemma Resumed(signed: bool, i: int, r: nat, upper: bool, m: nat)
    requires IsRadix(r) && Encoded(signed, i) && Rank(signed, i) > 0 && Proper(signed, i, r)
    requires m == Length(Rank(signed, i), r) - 1
    ensures m == 0 <==> Rank(signed, i) < r
    ensures m > 0 ==>
              var u := Rank(signed, i);
              && Remainder(signed, i, r, upper)
              && Pow(r, m) <= u && u - Pow(r, m) < Pow(r, m) && Pow(r, m) / r == Pow(r, m - 1)
              && Pending(signed, i, r, upper) == Digits(u - Pow(r, m), r, m, upper)
  {
    hide Length, Pow, Mul, Digits, AreDigits, Packed;
    var u := Rank(signed, i);
    LengthBounds(u, r);
    PowStep(r, 0);
    if m > 0 {
      PowMono(r, 1, m);
      PackUnpacked(u, r, upper);
      PowStep(r, m - 1);
      DivExact(Pow(r, m - 1), r);
      assert Div(Pow(r, m), r) == Pow(r, m) / r;
      assert IsRest(signed, i, Unpacked(u, r, upper), r, upper);
    } else {
      PowStep(r, 0);
    }
  }

  lemma FreshDigits(i: int, r: nat, upper: bool)
    requires IsRadix(r) && i != 0
    ensures Length(Abs(i), r) > 0 && Abs(i) < Pow(r, Length(Abs(i), r))
    ensures SignedNumeral(i, r, upper) == (if i < 0 then "-" else "") + Digits(Abs(i), r, Length(Abs(i), r), upper)
  {
    hide Length, Pow, Digits;
    LengthBounds(Abs(i), r);
  }

  /** The outcome of a call in terms of the n digits of v behind the sign, k of which are written. */
  lemma CallDone(signed: bool, i: int, size: nat, r: nat, upper: bool, maxRem: nat, sign: seq<char>, v: nat, n: nat,
      k: nat)
    requires IsRadix(r) && FitsBand(r, maxRem) && Callable(signed, i, size, r, upper, maxRem)
    requires Encoded(signed, i) ==> Rank(signed, i) >= r
    requires Pending(signed, i, r, upper) == sign + Digits(v, r, n, upper)
    requires |sign| <= size && k == Min(n, size - |sign|)
    ensures Pow(r, n - k) > 0
    ensures Step(signed, i, size, r, upper, maxRem) ==
              Outcome(sign + Digits(v, r, n, upper)[..k],
                      if k == n then 0 else Coded(signed, Pow(r, n - k) + Rem(v, Pow(r, n - k))))
    ensures k < n ==> Pow(r, n - k) + Rem(v, Pow(r, n - k)) <= BAND
  {
    hide Length, Pow, Digits, Mul, Mod, Div, ValueOf, FitsBand, Pending, AreDigits, Startable;
    var text, d := Pending(signed, i, r, upper), Digits(v, r, n, upper);
    StepEmits(signed, i, size, r, upper, maxRem);
    PowPositive(r, n - k);
    if k == n {
      assert d[..k] == d && text[..|text|] == text;
    } else {
      assert text[size..] == d[k..] && text[..size] == sign + d[..k];
      DigitsSuffix(v, r, n, n - k, upper);
      ValueOfDigits(v, r, n - k, upper);
      RestBound(signed, Step(signed, i, size, r, upper, maxRem).i, text[size..], r, upper);
    }
  }

  lemma RestBound(signed: bool, j: int, s: seq<char>, r: nat, upper: bool)
    requires IsRadix(r) && Remainder(signed, j, r, upper) && j == Coded(signed, Packed(s, r))
    ensures Packed(s, r) <= BAND
  {
    hide Packed;
  }

  /** The calls that emit no digit of the pending text. */
  lemma EarlySteps(signed: bool, i: int, size: nat, r: nat, upper: bool, maxRem: nat)
    requires IsRadix(r)
    ensures size == 0 ==> Step(signed, i, size, r, upper, maxRem) == Outcome([], i)
    ensures size > 0 && i == 0 ==> Step(signed, i, size, r, upper, maxRem) == Outcome("0", 0)
    ensures size > 0 && i != 0 && Encoded(signed, i) && Rank(signed, i) < r ==>
              Step(signed, i, size, r, upper, maxRem) ==
                  Outcome([], if Rank(signed, i) == 0 then UINT64_MAX else Rank(signed, i) - 1)
    ensures size > 0 && i != 0 && !Encoded(signed, i) && !Startable(i, size, r, maxRem) ==>
              Step(signed, i, size, r, upper, maxRem) == Outcome([], i)
    ensures Rank(true, i) == i - INT64_MIN && Rank(false, i) == UINT64_MAX - i
    ensures Encoded(true, i) <==> INT64_MIN < i <= INT64_MIN + BAND
    ensures Encoded(false, i) <==> UINT64_MAX - BAND <= i <= UINT64_MAX
    ensures Abs(i) == if i < 0 then -i else i
  {
    hide Startable, Pending, Packed;
  }

  lemma CallableNow(signed: bool, i: int, size: nat, r: nat, upper: bool, maxRem: nat)
    requires IsRadix(r) && InRange(signed, i)
    ensures i != 0 && size > 0 && Encoded(signed, i) && Remainder(signed, i, r, upper) ==>
            Callable(signed, i, size, r, upper, maxRem)
    ensures i != 0 && size > 0 && !Encoded(signed, i) && Startable(i, size, r, maxRem) ==>
            Callable(signed, i, size, r, upper, maxRem)
    ensures Startable(i, size, r, maxRem) <==>
              if i < 0 then size >= 2 && Length(Abs(i), r) <= maxRem + size - 1
              else size >= 1 && Length(Abs(i), r) <= maxRem + size
    ensures forall u :: Coded(signed, u) == if signed then INT64_MIN + u else UINT64_MAX - u
    ensures !Encoded(signed, i) ==> Pending(signed, i, r, upper) == SignedNumeral(i, r, upper)
  {
    hide Remainder, Length;
  }

  lemma Ranges(i: int)
    ensures InRange(true, i) <==> -0x8000_0000_0000_0000 <= i <= 0x7fff_ffff_ffff_ffff
    ensures InRange(false, i) <==> 0 <= i <= 0xffff_ffff_ffff_ffff
    ensures INT64_MIN == -0x8000_0000_0000_0000 && UINT64_MAX == 0xffff_ffff_ffff_ffff && BAND == 0x2000_0000_0000_0000
    ensures forall a, b {:trigger Min(a, b)} :: Min(a, b) == if a <= b then a else b
    ensures IsRadix(2) && IsRadix(8) && IsRadix(10) && IsRadix(16)
  {
  }
}
