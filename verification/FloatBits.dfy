/** The bit fields of floating-point arguments. */
module FloatBits {
  import opened Arith
  import opened Resumable
  import opened FloatTexts
  import opened FloatFormat

  type uint16 = x: int | 0 <= x <= 0xffff

  /** The range of mantissas and exponents of a double, with 52 fraction bits, or an x87 long double, with
      60 behind the four of its leading digit. */
  ghost predicate Representable(v: Real) {
    v.Finite? ==>
      && -16445 <= v.exp2 <= 16320
      && ((v.hexFracBits == 52 && v.mantissa < 0x100_0000_0000_0000) ||
          (v.hexFracBits == 60 && v.mantissa < 0x1_0000_0000_0000_0000))
  }

  lemma RepresentableSplits(v: Real)
    ensures Splits(v) <==> Representable(v)
  {
    hide Pow;
    BinaryPowers(14);
    BinaryPowers(16);
    TwoPowers();
    PowJoin(2, 30, 13, 1073741824, 8192);
    PowJoin(2, 43, 13, 1073741824 * 8192, 8192);
  }

  /** fp_split of a double: sign, 11 bits of exponent, 52 of fraction. Every pattern can be printed. */
  function SplitDouble(bits: uint64): (v: Real)
    ensures Representable(v)
  {
    var e, f := bits / 0x10_0000_0000_0000 % 0x800, bits % 0x10_0000_0000_0000;
    var negative := bits / 0x8000_0000_0000_0000 == 1;
    if e == 0x7ff then if f != 0 then NotANumber(negative) else Infinite(negative)
    else Finite(negative, if e > 0 then f + 0x10_0000_0000_0000 else f, (if e > 0 then e else 1) - 1023 - 52, 52)
  }

  /** fp_split of an x87 long double: 64 bits of mantissa, its integer bit among them, sign, 15 bits of
      exponent. */
  function SplitLongDouble(mantissa: uint64, signExp: uint16): (v: Real)
    ensures Representable(v)
  {
    var e, negative := signExp % 0x8000, signExp / 0x8000 == 1;
    if e == 0x7fff then if mantissa * 2 % 0x1_0000_0000_0000_0000 != 0 then NotANumber(negative) else Infinite(negative)
    else Finite(negative, mantissa, (if e > 0 then e else 1) - 16383 - 63, 60)
  }

  /** The fields of the interchange format (section 3.4 of IEEE 754-2008), put together and split. */
  lemma DoubleFields(negative: bool, e: nat, f: nat)
    requires e < 0x800 && f < 0x10_0000_0000_0000
    ensures var bits := (if negative then 0x8000_0000_0000_0000 else 0) + e * 0x10_0000_0000_0000 + f;
            && 0 <= bits <= 0xffff_ffff_ffff_ffff
            && SplitDouble(bits) ==
                 if e == 0x7ff then if f == 0 then Infinite(negative) else NotANumber(negative)
                 else if e == 0 then Finite(negative, f, -1074, 52)
                 else Finite(negative, 0x10_0000_0000_0000 + f, e - 1075, 52)
  {
    var high := (if negative then 0x800 else 0) + e;
    var bits := high * 0x10_0000_0000_0000 + f;
    assert bits / 0x10_0000_0000_0000 == high && high % 0x800 == e;
  }

  /** An infinity may lack the integer bit; no other mantissa is one. */
  lemma LongDoubleFields(mantissa: uint64, negative: bool, e: nat)
    requires e < 0x8000
    ensures var signExp := (if negative then 0x8000 else 0) + e;
            SplitLongDouble(mantissa, signExp) ==
              if e == 0x7fff then
                if mantissa == 0 || mantissa == 0x8000_0000_0000_0000 then Infinite(negative)
                else NotANumber(negative)
              else Finite(negative, mantissa, if e == 0 then -16445 else e - 16446, 60)
  {
    var signExp := (if negative then 0x8000 else 0) + e;
    assert signExp % 0x8000 == e && (signExp / 0x8000 == 1 <==> negative);
    assert mantissa * 2 % 0x1_0000_0000_0000_0000 == 0 <==> mantissa == 0 || mantissa == 0x8000_0000_0000_0000;
  }

  /** Nothing of a finite double is lost: its parts determine its bits. */
  lemma DoublesDiffer(a: uint64, b: uint64)
    requires SplitDouble(a).Finite? && SplitDouble(a) == SplitDouble(b)
    ensures a == b
  {
    DoubleBits(a);
    DoubleBits(b);
  }

  lemma DoubleBits(bits: uint64)
    requires SplitDouble(bits).Finite?
    ensures var v := SplitDouble(bits);
            bits == (if v.negative then 0x8000_0000_0000_0000 else 0) +
                    (if v.mantissa < 0x10_0000_0000_0000 then v.mantissa
                     else (v.exp2 + 1075) * 0x10_0000_0000_0000 + v.mantissa - 0x10_0000_0000_0000)
  {
    var high := bits / 0x10_0000_0000_0000;
    assert high < 0x1000 && bits / 0x8000_0000_0000_0000 == high / 0x800;
  }
}
