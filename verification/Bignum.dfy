/** The big integers of the float printer: little-endian limbs in base 10^9, multiplied in place. */
module Bignum {
  import opened Arith
  import opened Resumable

  const WORDS := 1300
  const LIMB: nat := 1000000000

  ghost predicate AreLimbs(s: seq<int>) {
    forall i :: 0 <= i < |s| ==> 0 <= s[i] < LIMB
  }

  /** The number that limbs spell, least significant first. */
  ghost function BigVal(s: seq<int>): (v: nat)
    requires AreLimbs(s)
  {
    if s == [] then 0 else s[0] + LIMB * BigVal(s[1..])
  }

  /** Limbs without a superfluous zero on top. */
  ghost predicate Trimmed(s: seq<int>) {
    s != [] ==> s[|s| - 1] != 0
  }

  lemma {:induction false} BigValSnoc(s: seq<int>, x: int)
    requires AreLimbs(s) && 0 <= x < LIMB
    ensures AreLimbs(s + [x]) && BigVal(s + [x]) == BigVal(s) + Mul(x, Pow(LIMB, |s|))
  {
    hide Mul, NatMul;
    var t := s + [x];
    if s == [] {
      MulOne(x);
      assert t[1..] == [];
    } else {
      assert t[1..] == s[1..] + [x];
      BigValSnoc(s[1..], x);
      LimbStep(x, |s| - 1);
    }
  }

  lemma LimbStep(x: int, e: nat)
    ensures Mul(x, Pow(LIMB, e + 1)) == LIMB * Mul(x, Pow(LIMB, e))
  {
    hide Mul, Pow;
    PowStep(LIMB, e);
    MulAssoc(x, Pow(LIMB, e), LIMB);
    MulIs(Mul(x, Pow(LIMB, e)), LIMB);
  }

  lemma {:induction false} BigValBound(s: seq<int>)
    requires AreLimbs(s)
    ensures BigVal(s) < Pow(LIMB, |s|)
  {
    hide Mul, NatMul;
    if s != [] {
      BigValBound(s[1..]);
      PowStep(LIMB, |s| - 1);
      MulIs(LIMB, Pow(LIMB, |s| - 1));
    }
  }

  /** The top limb is nonzero exactly when the number needs all the limbs. */
  lemma TopLimb(s: seq<int>)
    requires AreLimbs(s) && s != []
    ensures s[|s| - 1] != 0 <==> Pow(LIMB, |s| - 1) <= BigVal(s)
  {
    hide Mul, Pow, BigVal;
    var t, x := s[..|s| - 1], s[|s| - 1];
    assert s == t + [x];
    BigValSnoc(t, x);
    BigValBound(t);
    if x != 0 {
      MulMono(1, x, Pow(LIMB, |t|));
      MulOne(Pow(LIMB, |t|));
    } else {
      MulOne(Pow(LIMB, |t|));
    }
  }

  lemma LimbPower(n: nat)
    ensures Pow(LIMB, n) == Pow(10, 9 * n)
  {
    hide Mul, Pow, NatMul;
    TenPowers();
    PowPow(10, 9, n);
    MulIs(9, n);
  }

  /** A number below 10^11700 that needs all n limbs has n <= 1300 of them. */
  lemma LimbsFit(v: nat, n: nat)
    requires Pow(LIMB, n) <= v < Pow(10, 9 * WORDS)
    ensures n < WORDS
  {
    hide Pow;
    LimbPower(n);
    if n >= WORDS {
      PowMono(10, 9 * WORDS, 9 * n);
    }
  }

  /** One limb times the factor plus the carry, in 64 bits, split into a limb and a new carry. */
  method MulLimb(limb: int, factor: nat, carry: uint64) returns (low: int, high: uint64)
    requires 0 <= limb < 1000000000 && carry < factor < 0x1_0000_0000
    ensures 0 <= Mul(limb, factor) && low == (Mul(limb, factor) + carry) % 1000000000
    ensures high == (Mul(limb, factor) + carry) / 1000000000 < factor
  {
    hide Mul;
    ProductFits(limb, factor, carry);
    var x: uint64 := limb * factor + carry;
    low := x % 1000000000;
    high := x / 1000000000;
  }

  /** Multiply the first n limbs in place by a 32-bit factor; the number of limbs is returned. */
  method BigMul(big: array<int>, n: nat, factor: nat) returns (n': nat)
    requires big.Length == WORDS && n <= WORDS && AreLimbs(big[..n]) && Trimmed(big[..n])
    requires 0 < factor < 0x1_0000_0000
    requires Mul(BigVal(big[..n]), factor) < Pow(10, 9 * WORDS)
    modifies big
    ensures n <= n' <= WORDS && AreLimbs(big[..n']) && Trimmed(big[..n'])
    ensures BigVal(big[..n']) == Mul(old(BigVal(big[..n])), factor)
  {
    hide *;
    ghost var s := big[..n];
    ghost var v := BigVal(s);
    var carry: uint64 := 0;
    var i := 0;
    MulStart(s, factor);
    while i < n
      invariant 0 <= i <= n && carry < factor
      invariant forall q :: i <= q < n ==> big[q] == s[q]
      invariant AreLimbs(big[..i]) && AreLimbs(s[..i])
      invariant BigVal(big[..i]) + Mul(carry, Pow(LIMB, i)) == Mul(BigVal(s[..i]), factor)
    {
      assert big[i] == s[i];
      LimbAt(s, i);
      var low, high := MulLimb(big[i], factor, carry);
      MulRound(big[..i], s, i, factor, carry, Mul(s[i], factor) + carry);
      big[i] := low;
      carry := high;
      assert big[..i + 1] == big[..i] + [low];
      i := i + 1;
    }
    assert s[..n] == s;
    n' := n;
    while carry != 0
      invariant n <= n' <= WORDS && AreLimbs(big[..n'])
      invariant BigVal(big[..n']) + Mul(carry, Pow(LIMB, n')) == Mul(v, factor)
      invariant carry == 0 && n' > n ==> big[n' - 1] != 0
      decreases carry
    {
      CarryFits(carry, n', BigVal(big[..n']), Mul(v, factor));
      CarryRound(big[..n'], n', carry);
      big[n'] := carry % 1000000000;
      carry := carry / 1000000000;
      assert big[..n' + 1] == big[..n'] + [big[n']];
      n' := n' + 1;
    }
    MulEnd(s, v, big[..n'], n, n', factor);
  }

  lemma MulStart(s: seq<int>, factor: nat)
    ensures AreLimbs([]) && AreLimbs(s[..0]) && BigVal([]) == 0 && s[..0] == []
    ensures Mul(0, Pow(LIMB, 0)) == 0 && Mul(0, factor) == 0
  {
  }

  lemma LimbAt(s: seq<int>, i: nat)
    requires i < |s| && AreLimbs(s)
    ensures 0 <= s[i] < 1000000000
  {
  }

  /** No step of the multiplication overflows 64 bits. */
  lemma ProductFits(limb: int, factor: nat, carry: nat)
    requires 0 <= limb < 1000000000 && carry < factor < 0x1_0000_0000
    ensures 0 <= limb * factor + carry < 1000000000 * factor <= 0xffff_ffff_ffff_ffff
    ensures (limb * factor + carry) / 1000000000 < factor
    ensures limb * factor == Mul(limb, factor) >= 0
  {
    hide Mul;
    MulMono(limb, 999999999, factor);
    MulIs(limb, factor);
    MulIs(999999999, factor);
    MulSign(limb, factor);
  }

  /** One limb of the product and the new carry. */
  lemma MulRound(done: seq<int>, s: seq<int>, i: nat, factor: nat, carry: nat, x: nat)
    requires i < |s| && AreLimbs(s) && AreLimbs(done) && |done| == i && AreLimbs(s[..i])
    requires x == Mul(s[i], factor) + carry
    requires BigVal(done) + Mul(carry, Pow(LIMB, i)) == Mul(BigVal(s[..i]), factor)
    ensures AreLimbs(done + [x % 1000000000]) && AreLimbs(s[..i + 1])
    ensures BigVal(done + [x % 1000000000]) + Mul(x / 1000000000, Pow(LIMB, i + 1)) == Mul(BigVal(s[..i + 1]), factor)
  {
    hide Mul, Pow, BigVal;
    var p := Pow(LIMB, i);
    BigValSnoc(done, x % 1000000000);
    assert s[..i + 1] == s[..i] + [s[i]];
    BigValSnoc(s[..i], s[i]);
    LimbStep(x / 1000000000, i);
    LimbSplit(x, p);
    MulAdd(Mul(s[i], factor), carry, p);
    MulAssoc(s[i], factor, p);
    MulComm(factor, p);
    MulAssoc(s[i], p, factor);
    MulAdd(BigVal(s[..i]), Mul(s[i], p), factor);
  }

  lemma LimbSplit(x: nat, p: int)
    ensures Mul(x % 1000000000, p) + LIMB * Mul(x / 1000000000, p) == Mul(x, p)
  {
    hide Mul;
    var q, d := x / 1000000000, x % 1000000000;
    MulAdd(d, 1000000000 * q, p);
    MulAssoc(1000000000, q, p);
    MulIs(1000000000, q);
    MulIs(1000000000, Mul(q, p));
  }

  /** A carry left over goes into a limb that the array still has. */
  lemma CarryFits(carry: nat, n: nat, low: nat, product: int)
    requires carry > 0 && low + Mul(carry, Pow(LIMB, n)) == product < Pow(10, 9 * WORDS)
    ensures n < WORDS && WORDS == 1300
  {
    hide Mul, Pow;
    MulMono(1, carry, Pow(LIMB, n));
    MulOne(Pow(LIMB, n));
    LimbsFit(product, n);
  }

  lemma CarryRound(done: seq<int>, n: nat, carry: nat)
    requires AreLimbs(done) && |done| == n
    ensures AreLimbs(done + [carry % 1000000000])
    ensures BigVal(done + [carry % 1000000000]) + Mul(carry / 1000000000, Pow(LIMB, n + 1)) ==
            BigVal(done) + Mul(carry, Pow(LIMB, n))
  {
    hide Mul, Pow, BigVal;
    BigValSnoc(done, carry % 1000000000);
    LimbStep(carry / 1000000000, n);
    LimbSplit(carry, Pow(LIMB, n));
  }

  lemma MulEnd(s: seq<int>, v: nat, t: seq<int>, n: nat, n': nat, factor: nat)
    requires AreLimbs(s) && Trimmed(s) && |s| == n && v == BigVal(s) && AreLimbs(t) && |t| == n' && n <= n'
             && factor > 0
    requires BigVal(t) + Mul(0, Pow(LIMB, n')) == Mul(v, factor)
    requires n' > n ==> t[n' - 1] != 0
    ensures Trimmed(t) && BigVal(t) == Mul(v, factor)
  {
    hide Mul, Pow, BigVal;
    MulOne(Pow(LIMB, n'));
    if n' == n && n > 0 {
      TopLimb(s);
      TopLimb(t);
      MulSign(v, factor);
      PowPositive(LIMB, n - 1);
    }
  }
}
