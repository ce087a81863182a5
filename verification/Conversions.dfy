/** itoa, utoa and their radix variants, digit by digit into the caller's buffer, and atoi. */
module Conversions {
  import opened Arith
  import opened Numerals
  import opened Resumable
  import opened RawDecimals

  // ----- The loops that the three conversions share

  /** The highest power of the radix that is at most u, and its exponent (1 and 0 for u = 0). */
  method HighestPower(u: uint64, r: nat) returns (base: uint64, m: nat)
    requires IsRadix(r)
    ensures base == Pow(r, m) && m == if u == 0 then 0 else Length(u, r) - 1
    ensures u > 0 ==> base <= u
  {
    hide *;
    RadixIs(r);
    base, m := 1, 0;
    PowStep(r, 0);
    QuotientBound(u, r, base);
    while base <= u / r
      invariant base == Pow(r, m) && base > 0 && (base <= u || (base == 1 && m == 0))
      invariant base <= u / r <==> Mul(base, r) <= u
      decreases u - base
    {
      PowStep(r, m);
      MulIs(base, r);
      MulStrict(1, r, base);
      MulOne(base);
      MulComm(base, r);
      base := base * r;
      m := m + 1;
      QuotientBound(u, r, base);
    }
    PowStep(r, m);
    if u > 0 {
      LengthIs(u, r, m + 1);
    }
  }

  lemma RadixIs(r: nat)
    requires IsRadix(r)
    ensures 2 <= r <= 16
  {
  }

  lemma QuotientBound(u: int, r: int, base: int)
    requires r > 0
    ensures base <= u / r <==> Mul(base, r) <= u
  {
    if base <= u / r {
      MulMono(base, u / r, r);
    } else {
      MulMono(u / r + 1, base, r);
    }
  }

  /** The number of digits of v and the weight of its leading digit. */
  method CountDigits(v: uint64, r: nat) returns (digits: nat, div: uint64)
    requires IsRadix(r) && v > 0
    ensures digits == Length(v, r) && div == Pow(r, digits - 1) <= v
  {
    hide *;
    RadixIs(r);
    digits := 0;
    var t: uint64 := v;
    LengthPositive(v, r);
    while t != 0
      invariant 0 <= t && digits + Length(t, r) == Length(v, r)
      invariant t == 0 ==> Length(t, r) == 0
      decreases t
    {
      LengthStep(t, r);
      digits := digits + 1;
      t := t / r;
    }
    LengthBounds(v, r);
    PowStep(r, 0);
    div := 1;
    var j := 1;
    while j < digits
      invariant 1 <= j <= digits && div == Pow(r, j - 1)
    {
      PowStep(r, j - 1);
      MulIs(div, r);
      PowMono(r, j, digits - 1);
      div := div * r;
      j := j + 1;
    }
  }

  lemma LengthPositive(v: nat, r: nat)
    requires IsRadix(r)
    ensures v > 0 <==> Length(v, r) > 0
  {
  }

  lemma LengthStep(t: nat, r: nat)
    requires IsRadix(r) && t > 0
    ensures 0 <= t / r < t && Length(t, r) == 1 + Length(t / r, r)
    ensures t / r == 0 ==> Length(t / r, r) == 0
  {
    assert Quot(t, r) == t / r;
  }

  /** Write the k leading ones of the n digits of v; what remains of v is returned. */
  method EmitDigits(buffer: array<char>, at: nat, v: uint64, div: uint64, k: nat, r: nat, digits: string,
                    ghost n: nat, ghost upper: bool)
    returns (v': uint64)
    requires IsRadix(r) && |digits| == r && digits <= Table(upper)
    requires k <= n && n > 0 && div == Pow(r, n - 1) && v < Pow(r, n)
    requires at + k <= buffer.Length
    modifies buffer
    ensures buffer[at..at + k] == Digits(v, r, n, upper)[..k]
    ensures Pow(r, n - k) > 0 && v' == Rem(v, Pow(r, n - k))
    ensures buffer[..at] == old(buffer[..at]) && buffer[at + k..] == old(buffer[at + k..])
  {
    hide *;
    RadixIs(r);
    v' := v;
    var w: uint64 := div;
    var j := 0;
    PowPositive(r, n);
    RemSmall(v, Pow(r, n));
    ghost var text := Digits(v, r, n, upper);
    while j < k
      invariant 0 <= j <= k
      invariant j < n ==> w == Pow(r, n - 1 - j)
      invariant Pow(r, n - j) > 0 && v' == Rem(v, Pow(r, n - j))
      invariant forall q :: 0 <= q < j ==> buffer[at + q] == text[q]
      invariant buffer[..at] == old(buffer[..at]) && buffer[at + k..] == old(buffer[at + k..])
    {
      EmitStep(v, v', r, n, j, upper);
      var d := v' / w;
      TableChar(d, r, digits, upper);
      buffer[at + j] := digits[d];
      v' := v' % w;
      w := w / r;
      j := j + 1;
    }
    assert buffer[at..at + k] == text[..k];
  }

  lemma RemSmall(v: nat, p: nat)
    requires v < p
    ensures Rem(v, p) == v
  {
    DivSmall(v, p);
  }

  lemma TableChar(d: nat, r: nat, digits: string, upper: bool)
    requires IsRadix(r) && |digits| == r && digits <= Table(upper) && d < r
    ensures digits[d] == DigitChar(d, upper)
  {
  }

  /** One digit: the quotient by the current weight is the next digit, the remainder keeps the rest. */
  lemma EmitStep(v: nat, x: nat, r: nat, n: nat, j: nat, upper: bool)
    requires IsRadix(r) && j < n && Pow(r, n - j) > 0 && x == Rem(v, Pow(r, n - j))
    ensures var w := Pow(r, n - 1 - j);
            && w > 0 && 0 <= x / w < r && 0 <= x % w && DigitChar(x / w, upper) == Digits(v, r, n, upper)[j]
            && x % w == Rem(v, w) && (j + 1 < n ==> w / r == Pow(r, n - 2 - j)) && 0 <= w / r <= w
  {
    hide Digits, Pow, Mul, Div, Mod, DigitChar;
    var w := Pow(r, n - 1 - j);
    PowPositive(r, n - 1 - j);
    PowStep(r, n - 1 - j);
    MulComm(w, r);
    DivOfMod(v, w, r);
    DigitsAt(v, r, n, j, upper);
    DivModIs(x, w);
    DivNat(v, w);
    DivModIs(w, r);
    if j + 1 < n {
      PowStep(r, n - 2 - j);
      DivExact(Pow(r, n - 2 - j), r);
    }
    DivMod(w, r);
    DivNat(w, r);
  }

  /** radix^n, multiplied up; the caller knows that it fits. */
  method PowerOf(r: nat, n: nat) returns (base: uint64)
    requires IsRadix(r) && Pow(r, n) <= UINT64_MAX
    ensures base == Pow(r, n)
  {
    hide *;
    RadixIs(r);
    PowStep(r, 0);
    base := 1;
    var j := 0;
    while j < n
      invariant 0 <= j <= n && base == Pow(r, j)
    {
      PowStep(r, j);
      MulIs(base, r);
      PowMono(r, j + 1, n);
      MaxIs();
      base := base * r;
      j := j + 1;
    }
  }

  lemma MaxIs()
    ensures INT64_MIN == -0x8000_0000_0000_0000 && UINT64_MAX == 0xffff_ffff_ffff_ffff && BAND == 0x2000_0000_0000_0000
  {
  }

  /** Behind the w bytes already written go as many of the n digits of v as fit in `size` bytes; radix^m
      plus the rest of v, for the m digits that do not fit, is what remains, or 0 when all have gone out. */
  method EmitAndPack(buffer: array<char>, at: nat, w: nat, size: nat, v: uint64, n: nat, div: uint64, r: nat,
      digits: string, ghost upper: bool)
    returns (w': nat, packed: uint64)
    requires IsRadix(r) && |digits| == r && digits <= Table(upper)
    requires n > 0 && div == Pow(r, n - 1) && v < Pow(r, n) && at + w + size <= buffer.Length
    requires size < n ==> 2 * Pow(r, n - size) <= 0xffff_ffff_ffff_ffff
    modifies buffer
    ensures w' == w + Min(n, size)
    ensures buffer[at..at + w'] == old(buffer[at..at + w]) + Digits(v, r, n, upper)[..Min(n, size)]
    ensures var k := Min(n, size);
            Pow(r, n - k) > 0 && packed == if k == n then 0 else Pow(r, n - k) + Rem(v, Pow(r, n - k))
    ensures buffer[..at] == old(buffer[..at]) && buffer[at + w + size..] == old(buffer[at + w + size..])
  {
    hide *;
    MinIs(n, size);
    ghost var before := buffer[..at + w];
    var k := if n > size then size else n;
    var v' := EmitDigits(buffer, at + w, v, div, k, r, digits, n, upper);
    w' := w + k;
    assert buffer[at + w + size..] == buffer[at + w + k..][size - k..];
    assert buffer[..at + w] == before && buffer[..at] == before[..at];
    assert buffer[at..at + w] == before[at..];
    assert buffer[at..at + w'] == buffer[at..at + w] + buffer[at + w..at + w + k];
    var remaining := n - k;
    if remaining == 0 {
      return w', 0;
    }
    RemBelow(v, Pow(r, remaining));
    MaxIs();
    var base := PowerOf(r, remaining);
    packed := base + v';
  }

  lemma MinIs(a: int, b: int)
    ensures Min(a, b) == if a <= b then a else b
  {
  }

  lemma RemBelow(v: int, p: int)
    requires p >= 1
    ensures 0 <= Rem(v, p) < p
  {
  }

  ghost function Sign(signed: bool, i: int): string {
    if !Encoded(signed, i) && i < 0 then "-" else ""
  }

  /** A nonzero value taken apart: how many digits it stands for, the number they spell and the weight of
      the leading one. A remainder without digits leaves the value that the conversion stores back. */
  method TakeApart(signed: bool, i: int, r: nat) returns (v: uint64, digits: nat, div: uint64)
    requires IsRadix(r) && i != 0 && InRange(signed, i)
    ensures digits == 0 <==> Encoded(signed, i) && Rank(signed, i) < r
    ensures digits == 0 ==> v == if Rank(signed, i) == 0 then UINT64_MAX else Rank(signed, i) - 1
    ensures digits > 0 ==> div == Pow(r, digits - 1)
    ensures digits > 0 && Encoded(signed, i) ==>
              digits == Length(Rank(signed, i), r) - 1 && v == Rank(signed, i) - Pow(r, digits)
    ensures !Encoded(signed, i) ==> digits == Length(Abs(i), r) && v == Abs(i)
  {
    hide *;
    Ranges(i);
    EarlySteps(signed, i, 0, r, false, 0);
    RadixIs(r);
    PowStep(r, 0);
    if (signed && i > INT64_MIN && i <= INT64_MIN + BAND) || (!signed && i >= UINT64_MAX - BAND) {
      var u: uint64 := if signed then i - INT64_MIN else UINT64_MAX - i;
      var base, m := HighestPower(u, r);
      if u == 0 {
        return UINT64_MAX, 0, 0;
      }
      RankLength(u, r, m);
      v := u - base;
      digits := m;
      QuotientBound(base, r, 0);
      DivSmaller(base, r);
      div := base / r;
    } else {
      FreshDigits(i, r, false);
      v := if i < 0 then -(i + 1) + 1 else i;
      digits, div := CountDigits(v, r);
    }
  }

  /** A packed number has a digit exactly if it reaches the radix. */
  lemma RankLength(u: nat, r: nat, m: nat)
    requires IsRadix(r) && u > 0 && m == Length(u, r) - 1
    ensures m == 0 <==> u < r
    ensures m == 0 ==> Pow(r, m) == 1
    ensures m > 0 ==> Pow(r, m) / r == Pow(r, m - 1)
  {
    hide Length, Pow, Mul;
    LengthBounds(u, r);
    PowStep(r, 0);
    if m > 0 {
      PowMono(r, 1, m);
      PowStep(r, m - 1);
      DivExact(Pow(r, m - 1), r);
      assert Div(Pow(r, m), r) == Pow(r, m) / r;
    }
  }

  /** The digits taken apart are those that a proper value stands for. */
  lemma ApartIs(signed: bool, i: int, r: nat, upper: bool, v: nat, n: nat)
    requires IsRadix(r) && i != 0 && Proper(signed, i, r) && n > 0
    requires if Encoded(signed, i) then n == Length(Rank(signed, i), r) - 1 && v == Rank(signed, i) - Pow(r, n)
             else n == Length(Abs(i), r) && v == Abs(i)
    ensures v < Pow(r, n) && Pending(signed, i, r, upper) == Sign(signed, i) + Digits(v, r, n, upper)
    ensures Encoded(signed, i) ==> Remainder(signed, i, r, upper)
  {
    hide Length, Pow, Digits, Pending, Remainder, SignedNumeral;
    Ranges(i);
    if Encoded(signed, i) {
      RankPositive(signed, i, r, n);
      Resumed(signed, i, r, upper, n);
      assert "" + Digits(v, r, n, upper) == Digits(v, r, n, upper);
    } else {
      FreshDigits(i, r, upper);
      NotEncoded(signed, i, r, upper);
    }
  }

  lemma RankPositive(signed: bool, i: int, r: nat, n: nat)
    requires IsRadix(r) && Encoded(signed, i) && InRange(signed, i)
    requires Rank(signed, i) >= 0 && n > 0 && n == Length(Rank(signed, i), r) - 1
    ensures Rank(signed, i) > 0
  {
  }

  lemma SignIs(signed: bool, i: int)
    ensures Sign(signed, i) == if !Encoded(signed, i) && i < 0 then "-" else ""
  {
  }

  lemma DivSmaller(x: nat, r: nat)
    requires r > 0
    ensures 0 <= x / r <= x
  {
    DivMod(x, r);
    MulMono(1, r, Div(x, r));
    MulComm(r, Div(x, r));
    MulOne(Div(x, r));
    DivNat(x, r);
  }

  lemma NotEncoded(signed: bool, i: int, r: nat, upper: bool)
    requires IsRadix(r)
    ensures !Encoded(signed, i) ==> Pending(signed, i, r, upper) == SignedNumeral(i, r, upper)
  {
  }

  /** The digit loop of itoa, which adds a quotient to '0' whatever it is. */
  method EmitBytes(buffer: array<char>, at: nat, v: uint64, div: uint64, k: nat, ghost n: nat) returns (v': uint64)
    requires 0 < k <= n && div == Pow(10, n - 1) && at + k <= buffer.Length
    modifies buffer
    ensures buffer[at..at + k] == RawDigits(v, n)[..k]
    ensures Pow(10, n - k) > 0 && v' == Rem(v, Pow(10, n - k))
    ensures buffer[..at] == old(buffer[..at]) && buffer[at + k..] == old(buffer[at + k..])
  {
    hide *;
    v' := v;
    var w: uint64 := div;
    var j := 0;
    PowPositive(10, n);
    ghost var text := RawDigits(v, n);
    while j < k
      invariant 0 <= j <= k
      invariant j < n ==> w == Pow(10, n - 1 - j)
      invariant Pow(10, n - j) > 0 && v' == if j == 0 then v else Rem(v, Pow(10, n - j))
      invariant forall q :: 0 <= q < j ==> buffer[at + q] == text[q]
      invariant buffer[..at] == old(buffer[..at]) && buffer[at + k..] == old(buffer[at + k..])
    {
      RawStep(v, v', n, j);
      var d := v' / w;
      RemainderShrinks(v', w);
      buffer[at + j] := ByteDigit(d);
      v' := v' % w;
      w := w / 10;
      j := j + 1;
    }
    assert buffer[at..at + k] == text[..k];
  }

  lemma RemainderShrinks(x: nat, w: nat)
    requires w > 0
    ensures 0 <= x % w <= x && x % w < w
  {
    if x >= w {
      assert x % w < w;
    } else {
      DivSmall(x, w);
      assert x % w == Mod(x, w);
    }
  }

  /** itoa: decimal text of *i, as much as fits; the remainder is packed back into *i. */
  method Itoa(i: int64, buffer: array<char>, at: nat, buff_size: nat) returns (w: nat, i': int64)
    requires at + buff_size <= buffer.Length
    modifies buffer
    ensures w <= buff_size && DecimalStep(i, buff_size) == Outcome(buffer[at..at + w], i')
    ensures buffer[..at] == old(buffer[..at]) && buffer[at + buff_size..] == old(buffer[at + buff_size..])
  {
    hide *;
    Ranges(i);
    EarlySteps(true, i, buff_size, 10, false, 18);
    RawEarly(i, buff_size);
    if buff_size == 0 {
      return 0, i;
    }
    if i == 0 {
      buffer[at] := '0';
      return 1, 0;
    }
    var v, digits, div := TakeApart(true, i, 10);
    if digits == 0 {
      return 0, v;
    }
    PendingIs(i);
    w := 0;
    var size := buff_size;
    if !(i > INT64_MIN && i <= INT64_MIN + BAND) && i < 0 {
      if size < 2 {
        return 0, i;
      }
      buffer[at] := '-';
      w := 1;
      size := size - 1;
    }
    ghost var sign := if w == 1 then "-" else "";
    assert buffer[at..at + w] == sign;
    SignJoins(i, sign, v, digits);
    MinIs(digits, size);
    RawDone(i, buff_size, sign, v, digits, Min(digits, size));
    LeftFits(i, digits, size);
    var packed;
    w, packed := EmitBytesAndPack(buffer, at, w, size, v, digits, div);
    CodedIs(packed);
    i' := if packed == 0 then 0 else INT64_MIN + packed;
  }

  /** Behind a sign go as many of the n digits as fit in `size` bytes; 10^m plus the rest of v, for the m
      digits that do not fit, is what remains, or 0 when all have gone out. */
  method EmitBytesAndPack(buffer: array<char>, at: nat, w: nat, size: nat, v: uint64, n: nat, div: uint64)
    returns (w': nat, packed: uint64)
    requires 0 < n && 0 < size && div == Pow(10, n - 1) && at + w + size <= buffer.Length
    requires size < n ==> 2 * Pow(10, n - size) <= BAND
    modifies buffer
    ensures w' == w + Min(n, size)
    ensures buffer[at..at + w'] == old(buffer[at..at + w]) + RawDigits(v, n)[..Min(n, size)]
    ensures var k := Min(n, size);
            Pow(10, n - k) > 0 && packed == (if k == n then 0 else Pow(10, n - k) + Rem(v, Pow(10, n - k))) <= BAND
    ensures buffer[..at] == old(buffer[..at]) && buffer[at + w + size..] == old(buffer[at + w + size..])
  {
    hide *;
    MinIs(n, size);
    ghost var before := buffer[..at + w];
    var k := n;
    if k > size {
      k := size;
    }
    var v' := EmitBytes(buffer, at + w, v, div, k, n);
    w' := w + k;
    assert buffer[at + w + size..] == buffer[at + w + k..][size - k..];
    assert buffer[..at + w] == before && buffer[..at] == before[..at];
    assert buffer[at..at + w] == before[at..];
    SliceJoin(buffer[..], at, at + w, at + w');
    assert buffer[..][at..at + w'] == buffer[at..at + w'];
    var remaining_digits := n - k;
    MaxIs();
    if remaining_digits == 0 {
      return w', 0;
    }
    RemBelow(v, Pow(10, remaining_digits));
    Radices();
    var base := PowerOf(10, remaining_digits);
    packed := base + v';
  }

  lemma CodedIs(u: int)
    ensures Coded(true, u) == INT64_MIN + u
  {
  }

  lemma SliceJoin(s: seq<char>, a: nat, b: nat, c: nat)
    requires a <= b <= c <= |s|
    ensures s[a..c] == s[a..b] + s[b..c]
  {
  }

  lemma SignJoins(i: int, sign: seq<char>, v: nat, n: nat)
    requires i != 0 && sign == if !Encoded(true, i) && i < 0 then "-" else ""
    requires n > 0
    requires if Encoded(true, i) then
               Rank(true, i) > 0 && n == Length(Rank(true, i), 10) - 1 && v == Rank(true, i) - Pow(10, n)
             else n == Length(Abs(i), 10) && v == Abs(i)
    ensures DecimalPending(i) == sign + RawDigits(v, n)
  {
    hide Length, Pow, RawDigits, DecimalPending;
    PendingIs(i);
    assert "" + RawDigits(v, n) == RawDigits(v, n);
  }

  /** At most eighteen digits are left over, which the band holds. */
  lemma LeftFits(i: int64, digits: nat, size: nat)
    requires i != 0 && size > 0
    requires digits == if Encoded(true, i) then Length(Rank(true, i), 10) - 1 else Length(Abs(i), 10)
    ensures size < digits ==> 2 * Pow(10, digits - size) <= BAND
    ensures INT64_MIN == -0x8000_0000_0000_0000 && BAND == 0x2000_0000_0000_0000
  {
    hide Length, Pow;
    TenPowers();
    if Encoded(true, i) {
      LengthMono(Rank(true, i), 0x8000_0000_0000_0000, 10);
    } else {
      LengthMono(Abs(i), 0x8000_0000_0000_0000, 10);
    }
    LengthIs(0x8000_0000_0000_0000, 10, 19);
    if size < digits {
      PowMono(10, digits - size, 18);
    }
  }

  /** The unsigned conversions, in any radix with its digit table. */
  method UtoaGeneric(i: uint64, buffer: array<char>, at: nat, buff_size: nat, r: nat, digits: string,
      max_rem_digits: nat, ghost upper: bool)
    returns (w: nat, i': uint64)
    requires IsRadix(r) && |digits| == r && digits <= Table(upper) && FitsBand(r, max_rem_digits)
    requires at + buff_size <= buffer.Length && Proper(false, i, r)
    modifies buffer
    ensures w <= buff_size && Step(false, i, buff_size, r, upper, max_rem_digits) == Outcome(buffer[at..at + w], i')
    ensures buffer[..at] == old(buffer[..at]) && buffer[at + buff_size..] == old(buffer[at + buff_size..])
  {
    hide *;
    Ranges(i);
    RadixIs(r);
    EarlySteps(false, i, buff_size, r, upper, max_rem_digits);
    CallableNow(false, i, buff_size, r, upper, max_rem_digits);
    if buff_size == 0 {
      return 0, i;
    }
    if i == 0 {
      buffer[at] := '0';
      return 1, 0;
    }
    var v, digits_total, div := TakeApart(false, i, r);
    if digits_total == 0 {
      return 0, v;
    }
    ApartIs(false, i, r, upper, v, digits_total);
    if !(i >= UINT64_MAX - BAND) && digits_total > max_rem_digits + buff_size {
      return 0, i;
    }
    SignIs(false, i);
    MinIs(digits_total, buff_size);
    CallDone(false, i, buff_size, r, upper, max_rem_digits, "", v, digits_total, Min(digits_total, buff_size));
    assert buffer[at..at + 0] == "";
    var packed;
    w, packed := EmitAndPack(buffer, at, 0, buff_size, v, digits_total, div, r, digits, upper);
    i' := if packed == 0 then 0 else UINT64_MAX - packed;
  }

  /** The signed conversions to radixes other than ten. */
  method ItoaGeneric(i: int64, buffer: array<char>, at: nat, buff_size: nat, r: nat, digits: string,
      max_rem_digits: nat, ghost upper: bool)
    returns (w: nat, i': int64)
    requires IsRadix(r) && |digits| == r && digits <= Table(upper) && FitsBand(r, max_rem_digits)
    requires at + buff_size <= buffer.Length && Proper(true, i, r)
    modifies buffer
    ensures w <= buff_size && Step(true, i, buff_size, r, upper, max_rem_digits) == Outcome(buffer[at..at + w], i')
    ensures buffer[..at] == old(buffer[..at]) && buffer[at + buff_size..] == old(buffer[at + buff_size..])
  {
    hide *;
    Ranges(i);
    RadixIs(r);
    EarlySteps(true, i, buff_size, r, upper, max_rem_digits);
    CallableNow(true, i, buff_size, r, upper, max_rem_digits);
    if buff_size == 0 {
      return 0, i;
    }
    if i == 0 {
      buffer[at] := '0';
      return 1, 0;
    }
    var v, digits_total, div := TakeApart(true, i, r);
    if digits_total == 0 {
      return 0, v;
    }
    ApartIs(true, i, r, upper, v, digits_total);
    w := 0;
    var size := buff_size;
    SignIs(true, i);
    var encoded := i > INT64_MIN && i <= INT64_MIN + BAND;
    if !encoded && i < 0 {
      if size < 2 {
        return 0, i;
      }
      buffer[at] := '-';
      w := 1;
      size := size - 1;
    }
    if !encoded && digits_total > max_rem_digits + size {
      return 0, i;
    }
    MinIs(digits_total, size);
    CallDone(true, i, buff_size, r, upper, max_rem_digits, Sign(true, i), v, digits_total, Min(digits_total, size));
    assert buffer[at..at + w] == Sign(true, i);
    var packed;
    w, packed := EmitAndPack(buffer, at, w, size, v, digits_total, div, r, digits, upper);
    i' := if packed == 0 then 0 else INT64_MIN + packed;
  }

  // ----- The radix wrappers

  method Utoa(i: uint64, buf: array<char>, at: nat, buff_size: nat) returns (w: nat, i': uint64)
    requires at + buff_size <= buf.Length && Proper(false, i, 10)
    modifies buf
    ensures w <= buff_size && Step(false, i, buff_size, 10, false, 18) == Outcome(buf[at..at + w], i')
    ensures buf[..at] == old(buf[..at]) && buf[at + buff_size..] == old(buf[at + buff_size..])
  {
    RadixBands();
    w, i' := UtoaGeneric(i, buf, at, buff_size, 10, "0123456789", 18, false);
  }

  method Utoab(i: uint64, buf: array<char>, at: nat, buff_size: nat) returns (w: nat, i': uint64)
    requires at + buff_size <= buf.Length && Proper(false, i, 2)
    modifies buf
    ensures w <= buff_size && Step(false, i, buff_size, 2, false, 60) == Outcome(buf[at..at + w], i')
    ensures buf[..at] == old(buf[..at]) && buf[at + buff_size..] == old(buf[at + buff_size..])
  {
    RadixBands();
    w, i' := UtoaGeneric(i, buf, at, buff_size, 2, "01", 60, false);
  }

  method Utoao(i: uint64, buf: array<char>, at: nat, buff_size: nat) returns (w: nat, i': uint64)
    requires at + buff_size <= buf.Length && Proper(false, i, 8)
    modifies buf
    ensures w <= buff_size && Step(false, i, buff_size, 8, false, 20) == Outcome(buf[at..at + w], i')
    ensures buf[..at] == old(buf[..at]) && buf[at + buff_size..] == old(buf[at + buff_size..])
  {
    RadixBands();
    w, i' := UtoaGeneric(i, buf, at, buff_size, 8, "01234567", 20, false);
  }

  method Utoax(i: uint64, buf: array<char>, at: nat, buff_size: nat, upper: bool) returns (w: nat, i': uint64)
    requires at + buff_size <= buf.Length && Proper(false, i, 16)
    modifies buf
    ensures w <= buff_size && Step(false, i, buff_size, 16, upper, 15) == Outcome(buf[at..at + w], i')
    ensures buf[..at] == old(buf[..at]) && buf[at + buff_size..] == old(buf[at + buff_size..])
  {
    RadixBands();
    var digits := if upper then "0123456789ABCDEF" else "0123456789abcdef";
    w, i' := UtoaGeneric(i, buf, at, buff_size, 16, digits, 15, upper);
  }

  method Itoab(i: int64, buf: array<char>, at: nat, buff_size: nat) returns (w: nat, i': int64)
    requires at + buff_size <= buf.Length && Proper(true, i, 2)
    modifies buf
    ensures w <= buff_size && Step(true, i, buff_size, 2, false, 60) == Outcome(buf[at..at + w], i')
    ensures buf[..at] == old(buf[..at]) && buf[at + buff_size..] == old(buf[at + buff_size..])
  {
    RadixBands();
    w, i' := ItoaGeneric(i, buf, at, buff_size, 2, "01", 60, false);
  }

  method Itoao(i: int64, buf: array<char>, at: nat, buff_size: nat) returns (w: nat, i': int64)
    requires at + buff_size <= buf.Length && Proper(true, i, 8)
    modifies buf
    ensures w <= buff_size && Step(true, i, buff_size, 8, false, 20) == Outcome(buf[at..at + w], i')
    ensures buf[..at] == old(buf[..at]) && buf[at + buff_size..] == old(buf[at + buff_size..])
  {
    RadixBands();
    w, i' := ItoaGeneric(i, buf, at, buff_size, 8, "01234567", 20, false);
  }

  method Itoax(i: int64, buf: array<char>, at: nat, buff_size: nat, upper: bool) returns (w: nat, i': int64)
    requires at + buff_size <= buf.Length && Proper(true, i, 16)
    modifies buf
    ensures w <= buff_size && Step(true, i, buff_size, 16, upper, 15) == Outcome(buf[at..at + w], i')
    ensures buf[..at] == old(buf[..at]) && buf[at + buff_size..] == old(buf[at + buff_size..])
  {
    RadixBands();
    var digits := if upper then "0123456789ABCDEF" else "0123456789abcdef";
    w, i' := ItoaGeneric(i, buf, at, buff_size, 16, digits, 15, upper);
  }

  // ----- atoi

  type int32 = x: int | -0x8000_0000 <= x <= 0x7fff_ffff

  predicate IsSpace(c: char) {
    c == ' ' || c == '\t' || c == '\n' || c == '\r' || c == 12 as char || c == 11 as char
  }

  predicate IsDigit(c: char) {
    '0' <= c <= '9'
  }

  /** The first position at or after k that is no space, and no digit. */
  function SpaceEnd(s: string, k: nat): (e: nat)
    requires k <= |s|
    ensures k <= e <= |s| && (forall q :: k <= q < e ==> IsSpace(s[q])) && (e < |s| ==> !IsSpace(s[e]))
    decreases |s| - k
  {
    if k < |s| && IsSpace(s[k]) then SpaceEnd(s, k + 1) else k
  }

  function DigitEnd(s: string, k: nat): (e: nat)
    requires k <= |s|
    ensures k <= e <= |s| && (forall q :: k <= q < e ==> IsDigit(s[q])) && (e < |s| ==> !IsDigit(s[e]))
    decreases |s| - k
  {
    if k < |s| && IsDigit(s[k]) then DigitEnd(s, k + 1) else k
  }

  /** Where the digits of the number start: after white space and one optional sign. */
  function DigitStart(s: string): (b: nat)
    ensures b <= |s|
  {
    var a := SpaceEnd(s, 0);
    if a < |s| && (s[a] == '-' || s[a] == '+') then a + 1 else a
  }

  /** The number that a C string denotes to atoi. */
  function AtoiOf(s: string): int {
    var a, b := SpaceEnd(s, 0), DigitStart(s);
    var magnitude: int := ValueOf(s[b..DigitEnd(s, b)], 10);
    if a < |s| && s[a] == '-' then -magnitude else magnitude
  }

  lemma {:induction false} ValuePrefix(s: string, k: nat)
    requires k <= |s|
    ensures ValueOf(s[..k], 10) <= ValueOf(s, 10)
    decreases |s|
  {
    if k < |s| {
      var t := s[..|s| - 1];
      ValuePrefix(t, k);
      assert t[..k] == s[..k];
      MulConst(ValueOf(t, 10));
    } else {
      assert s[..k] == s;
    }
  }

  lemma ValueStep(s: string, b: nat, k: nat)
    requires b <= k < |s| && IsDigit(s[k])
    ensures ValueOf(s[b..k + 1], 10) == ValueOf(s[b..k], 10) * 10 + (s[k] as int - '0' as int)
  {
    var t := s[b..k + 1];
    assert t[..|t| - 1] == s[b..k] && t[|t| - 1] == s[k];
    MulConst(ValueOf(s[b..k], 10));
  }

  /** atoi of a NUL-terminated string whose number fits an int. */
  method Atoi(nptr: string) returns (n: int32)
    requires exists k :: 0 <= k < |nptr| && nptr[k] == 0 as char
    requires ValueOf(nptr[DigitStart(nptr)..DigitEnd(nptr, DigitStart(nptr))], 10) <= 0x7fff_ffff
    ensures n == AtoiOf(nptr)
  {
    hide *;
    ghost var z :| 0 <= z < |nptr| && nptr[z] == 0 as char;
    NulEnds();
    ghost var start := DigitStart(nptr);
    AtoiParts(nptr);
    var p := 0;
    while IsSpace(nptr[p])
      invariant 0 <= p <= z && SpaceEnd(nptr, 0) == SpaceEnd(nptr, p)
      decreases z - p
    {
      SpaceStep(nptr, p);
      p := p + 1;
    }
    SpaceStep(nptr, p);
    var sign := 1;
    if nptr[p] == '-' {
      sign := -1;
      p := p + 1;
    } else if nptr[p] == '+' {
      p := p + 1;
    }
    ValueEmpty();
    assert nptr[start..start] == "";
    var val: int32 := 0;
    while IsDigit(nptr[p])
      invariant start <= p <= z && DigitEnd(nptr, start) == DigitEnd(nptr, p) && val == ValueOf(nptr[start..p], 10)
      decreases z - p
    {
      DigitStep(nptr, start, p);
      DigitBounds(nptr[p]);
      val := val * 10 + (nptr[p] as int - '0' as int);
      p := p + 1;
    }
    DigitStop(nptr, p);
    n := sign * val;
  }

  lemma AtoiParts(s: string)
    ensures var a := SpaceEnd(s, 0);
            && a <= |s|
            && DigitStart(s) == (if a < |s| && (s[a] == '-' || s[a] == '+') then a + 1 else a) <= |s|
            && DigitStart(s) <= DigitEnd(s, DigitStart(s)) <= |s|
            && var sign := if a < |s| && s[a] == '-' then -1 else 1;
               AtoiOf(s) == sign * ValueOf(s[DigitStart(s)..DigitEnd(s, DigitStart(s))], 10)
  {
    hide ValueOf;
  }

  lemma SpaceStep(s: string, p: nat)
    requires p < |s|
    ensures SpaceEnd(s, p) == if IsSpace(s[p]) then SpaceEnd(s, p + 1) else p
  {
  }

  lemma DigitStop(s: string, p: nat)
    requires p < |s| && !IsDigit(s[p])
    ensures DigitEnd(s, p) == p
  {
  }

  /** One more digit of the number, which stays within the value of the whole. */
  lemma DigitStep(s: string, b: nat, p: nat)
    requires b <= p < |s| && IsDigit(s[p]) && DigitEnd(s, b) == DigitEnd(s, p)
    ensures DigitEnd(s, b) == DigitEnd(s, p + 1) && b <= DigitEnd(s, b) <= |s|
    ensures ValueOf(s[b..p + 1], 10) == ValueOf(s[b..p], 10) * 10 + (s[p] as int - '0' as int)
    ensures ValueOf(s[b..p + 1], 10) <= ValueOf(s[b..DigitEnd(s, b)], 10)
  {
    hide ValueOf, IsDigit;
    ValueStep(s, b, p);
    var e := DigitEnd(s, p + 1);
    assert DigitEnd(s, b) == e;
    SliceOfSlice(s, b, p + 1, e);
    ValuePrefix(s[b..e], p + 1 - b);
  }

  lemma SliceOfSlice(s: string, b: nat, m: nat, e: nat)
    requires b <= m <= e <= |s|
    ensures s[b..e][..m - b] == s[b..m]
  {
  }

  lemma NulEnds()
    ensures !IsSpace(0 as char) && !IsDigit(0 as char)
  {
  }

  lemma ValueEmpty()
    ensures ValueOf("", 10) == 0
  {
  }

  lemma DigitBounds(c: char)
    requires IsDigit(c)
    ensures 0 <= c as int - '0' as int <= 9
  {
  }

  /** White space, a sign or none, digits or none, and something that does not go on with them. */
  ghost predicate Pieces(space: string, sign: string, digits: string, rest: string) {
    && (forall q :: 0 <= q < |space| ==> space[q] in [' ', '\t', '\n', '\r', 11 as char, 12 as char])
    && (sign == "" || sign == "-" || sign == "+")
    && (forall q :: 0 <= q < |digits| ==> '0' <= digits[q] <= '9')
    && rest != [] && !('0' <= rest[0] <= '9')
    && (sign == "" && digits == "" ==>
          rest[0] !in [' ', '\t', '\n', '\r', 11 as char, 12 as char] && rest[0] != '-' && rest[0] != '+')
  }

  /** atoi is the number that the digits spell, 0 without any, with that sign. */
  lemma AtoiMeans(space: string, sign: string, digits: string, rest: string)
    requires Pieces(space, sign, digits, rest)
    ensures IsRadix(10)
    ensures var n: int := ValueOf(digits, 10);
            AtoiOf(space + sign + digits + rest) == if sign == "-" then -n else n
  {
    hide *;
    SpacesAre();
    PiecesAre(space, sign, digits, rest);
    var s := space + sign + digits + rest;
    var a, b := |space|, |space| + |sign|;
    Layout(space, sign, digits, rest);
    SpaceEndIs(s, 0, a);
    DigitEndIs(s, b, b + |digits|);
    AtoiParts(s);
  }

  lemma SpacesAre()
    ensures forall c: char :: IsSpace(c) <==> c in [' ', '\t', '\n', '\r', 11 as char, 12 as char]
    ensures !IsSpace('-') && !IsSpace('+') && IsRadix(10)
    ensures forall c: char :: '0' <= c <= '9' ==> !IsSpace(c) && c != '-' && c != '+'
  {
  }

  lemma PiecesAre(space: string, sign: string, digits: string, rest: string)
    requires Pieces(space, sign, digits, rest)
    ensures (forall q :: 0 <= q < |space| ==> IsSpace(space[q])) && (sign == "" || sign == "-" || sign == "+")
    ensures (forall q :: 0 <= q < |digits| ==> IsDigit(digits[q])) && rest != [] && !IsDigit(rest[0])
    ensures sign == "" && digits == "" ==> !IsSpace(rest[0]) && rest[0] != '-' && rest[0] != '+'
    ensures digits != [] ==> !IsSpace(digits[0]) && digits[0] != '-' && digits[0] != '+'
    ensures |sign| <= 1
  {
  }

  /** Every C string is made of such pieces. */
  lemma AtoiPieces(s: string) returns (space: string, sign: string, digits: string, rest: string)
    requires '\0' in s
    ensures s == space + sign + digits + rest && Pieces(space, sign, digits, rest)
  {
    hide *;
    NulEnds();
    var z :| 0 <= z < |s| && s[z] == '\0';
    var a, b := SpaceEnd(s, 0), DigitStart(s);
    SpaceStops(s, 0, z);
    SignStops(s, z);
    var e := DigitEnd(s, b);
    DigitStops(s, b, z);
    space, sign, digits, rest := s[..a], s[a..b], s[b..e], s[e..];
    SpaceEndMeans(s);
    DigitEndMeans(s, b);
    CutIs(s, a, b, e);
  }

  lemma CutIs(s: string, a: nat, b: nat, e: nat)
    requires a <= b <= e < |s| && (forall q :: 0 <= q < a ==> IsSpace(s[q])) && !IsSpace(s[a])
    requires if s[a] == '-' || s[a] == '+' then b == a + 1 else b == a
    requires (forall q :: b <= q < e ==> IsDigit(s[q])) && !IsDigit(s[e])
    ensures s == s[..a] + s[a..b] + s[b..e] + s[e..] && Pieces(s[..a], s[a..b], s[b..e], s[e..])
  {
    var space, sign, digits, rest := s[..a], s[a..b], s[b..e], s[e..];
    assert s == space + sign + digits + rest;
    assert forall q :: 0 <= q < |digits| ==> digits[q] == s[b + q];
    assert sign == if b == a then "" else [s[a]];
    assert rest[0] == s[e];
  }

  lemma SignStops(s: string, z: nat)
    requires z < |s| && s[z] == '\0' && SpaceEnd(s, 0) <= z
    ensures var a, b := SpaceEnd(s, 0), DigitStart(s);
            a <= b <= z && (if s[a] == '-' || s[a] == '+' then b == a + 1 else b == a)
  {
  }

  lemma SpaceEndMeans(s: string)
    ensures var e := SpaceEnd(s, 0);
            e <= |s| && (forall q :: 0 <= q < e ==> IsSpace(s[q])) && (e < |s| ==> !IsSpace(s[e]))
  {
  }

  lemma DigitEndMeans(s: string, b: nat)
    requires b <= |s|
    ensures var e := DigitEnd(s, b);
            b <= e <= |s| && (forall q :: b <= q < e ==> IsDigit(s[q])) && (e < |s| ==> !IsDigit(s[e]))
  {
  }

  lemma {:induction false} SpaceStops(s: string, k: nat, z: nat)
    requires k <= z < |s| && s[z] == '\0'
    ensures SpaceEnd(s, k) <= z
    decreases z - k
  {
    if k < z {
      SpaceStops(s, k + 1, z);
    }
  }

  lemma {:induction false} DigitStops(s: string, k: nat, z: nat)
    requires k <= z < |s| && s[z] == '\0'
    ensures DigitEnd(s, k) <= z
    decreases z - k
  {
    if k < z {
      DigitStops(s, k + 1, z);
    }
  }

  /** atoi reads back what itoa writes, behind any white space, in front of anything but a digit. */
  lemma AtoiReadsBack(space: string, x: int, rest: string)
    requires forall q :: 0 <= q < |space| ==> space[q] in [' ', '\t', '\n', '\r', 11 as char, 12 as char]
    requires rest != [] && !('0' <= rest[0] <= '9')
    ensures AtoiOf(space + SignedNumeral(x, 10, false) + rest) == x
  {
    hide *;
    SignedParts(x);
    var digits := Numeral(if x < 0 then -x else x, 10, false);
    var sign := if x < 0 then "-" else "";
    NumeralReads(if x < 0 then -x else x, 10, false);
    DecimalDigits(digits);
    PiecesHold(space, sign, digits, rest);
    assert space + SignedNumeral(x, 10, false) + rest == space + sign + digits + rest;
    AtoiMeans(space, sign, digits, rest);
  }

  lemma PiecesHold(space: string, sign: string, digits: string, rest: string)
    requires forall q :: 0 <= q < |space| ==> space[q] in [' ', '\t', '\n', '\r', 11 as char, 12 as char]
    requires (sign == "" || sign == "-") && (forall q :: 0 <= q < |digits| ==> '0' <= digits[q] <= '9')
    requires digits != [] && rest != [] && !('0' <= rest[0] <= '9')
    ensures Pieces(space, sign, digits, rest)
  {
  }

  lemma Layout(space: string, sign: string, digits: string, rest: string)
    requires |sign| <= 1 && rest != []
    ensures var s := space + sign + digits + rest;
            var a, b := |space|, |space| + |sign|;
            && b + |digits| < |s|
            && (forall q :: 0 <= q < a ==> s[q] == space[q])
            && s[a] == (if sign != [] then sign[0] else if digits != [] then digits[0] else rest[0])
            && (forall q :: b <= q < b + |digits| ==> s[q] == digits[q - b])
            && s[b + |digits|] == rest[0] && s[b..b + |digits|] == digits
  {
  }

  lemma SignedParts(x: int)
    ensures IsRadix(10)
    ensures SignedNumeral(x, 10, false) == (if x < 0 then "-" else "") + Numeral(if x < 0 then -x else x, 10, false)
  {
    hide Numeral;
    if x >= 0 {
      assert "" + Numeral(x, 10, false) == Numeral(x, 10, false);
    }
  }

  lemma DecimalDigits(s: string)
    requires AreDigits(s, 10, false)
    ensures forall q :: 0 <= q < |s| ==> '0' <= s[q] <= '9'
  {
  }

  lemma {:induction false} SpaceEndIs(s: string, k: nat, e: nat)
    requires k <= e < |s| && (forall q :: k <= q < e ==> IsSpace(s[q])) && !IsSpace(s[e])
    ensures SpaceEnd(s, k) == e
    decreases e - k
  {
    if k < e {
      SpaceEndIs(s, k + 1, e);
    }
  }

  lemma {:induction false} DigitEndIs(s: string, k: nat, e: nat)
    requires k <= e < |s| && (forall q :: k <= q < e ==> IsDigit(s[q])) && !IsDigit(s[e])
    ensures DigitEnd(s, k) == e
    decreases e - k
  {
    if k < e {
      DigitEndIs(s, k + 1, e);
    }
  }
}
