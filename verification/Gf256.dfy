/** The field GF(2^8) of section 4 of FIPS 197, as computed by the shift-and-add loop gmul of aes_impl.hpp. */
module Gf256 {

  /** An 8-bit value. The one-field wrapper keeps bit-vectors out of the algebraic proofs. */
  datatype Byte = Byte(bits: bv8)

  const ZERO := Byte(0)
  const ONE := Byte(1)

  function Xor(a: Byte, b: Byte): Byte {
    Byte(a.bits ^ b.bits)
  }

  predicate Odd(b: Byte) {
    b.bits & 1 != 0
  }

  function Half(b: Byte): Byte {
    Byte(b.bits >> 1)
  }

  predicate High(a: Byte) {
    a.bits & 0x80 != 0
  }

  function Double(a: Byte): Byte {
    Byte(a.bits << 1)
  }

  lemma XorCommutes(a: Byte, b: Byte)
    ensures Xor(a, b) == Xor(b, a)
  {
  }

  lemma XorAssociates(a: Byte, b: Byte, c: Byte)
    ensures Xor(Xor(a, b), c) == Xor(a, Xor(b, c))
  {
  }

  lemma XorCancels(a: Byte)
    ensures Xor(a, ZERO) == a && Xor(ZERO, a) == a && Xor(a, a) == ZERO
  {
  }

  lemma XorSwap(a: Byte, b: Byte, c: Byte, d: Byte)
    ensures Xor(Xor(a, b), Xor(c, d)) == Xor(Xor(a, c), Xor(b, d))
  {
  }

  // ----- The loop of gmul

  /** Multiplication by x: shift, and fold the bit that falls out back in as 0x1b. */
  function XTime(a: Byte): Byte {
    if High(a) then Xor(Double(a), Byte(0x1b)) else Double(a)
  }

  function Select(b: Byte, a: Byte): Byte {
    if Odd(b) then a else ZERO
  }

  /** What n further iterations of the loop add to the accumulator. */
  function MulSteps(a: Byte, b: Byte, n: nat): Byte
    decreases n
  {
    if n == 0 then ZERO else Xor(Select(b, a), MulSteps(XTime(a), Half(b), n - 1))
  }

  function GMul(a: Byte, b: Byte): Byte {
    MulSteps(a, b, 8)
  }

  /** One iteration moves one term from the rest of the sum to the accumulator. */
  lemma Absorb(p: Byte, a: Byte, b: Byte, n: nat)
    ensures Xor(p, MulSteps(a, b, n + 1))
         == Xor(if Odd(b) then Xor(p, a) else p, MulSteps(XTime(a), Half(b), n))
  {
    var rest := MulSteps(XTime(a), Half(b), n);
    XorAssociates(p, a, rest);
    XorCancels(rest);
  }

  lemma XTimeCases(a: Byte)
    ensures XTime(a) == if High(a) then Xor(Double(a), Byte(0x1b)) else Double(a)
  {
  }

  lemma NoSteps(a: Byte, b: Byte)
    ensures MulSteps(a, b, 0) == ZERO
  {
  }

  method Multiply(a0: Byte, b0: Byte) returns (p: Byte)
    ensures p == GMul(a0, b0)
  {
    hide MulSteps, XTime;
    var a, b := a0, b0;
    p := ZERO;
    XorCancels(GMul(a0, b0));
    for i := 0 to 8
      invariant Xor(p, MulSteps(a, b, 8 - i)) == GMul(a0, b0)
    {
      Absorb(p, a, b, 7 - i);
      XTimeCases(a);
      if Odd(b) {
        p := Xor(p, a);
      }
      var hi := High(a);
      a := Double(a);
      if hi {
        a := Xor(a, Byte(0x1b));
      }
      b := Half(b);
    }
    NoSteps(a, b);
    XorCancels(p);
  }

  // ----- Reference: polynomials over GF(2), bit i being the coefficient of x^i

  datatype Poly = Poly(bits: bv16)

  /** The reduction polynomial x^8 + x^4 + x^3 + x + 1. */
  const MODULUS := Poly(0x11b)

  function Embed(a: Byte): Poly {
    Poly(a.bits as bv16)
  }

  function Add(p: Poly, q: Poly): Poly {
    Poly(p.bits ^ q.bits)
  }

  function TimesX(p: Poly): Poly {
    Poly(p.bits << 1)
  }

  function Coefficient(b: Byte, p: Poly): Poly {
    if Odd(b) then p else Poly(0)
  }

  /** The sum of p * x^i over the bits i < n that are set in b. */
  function PolySum(p: Poly, b: Byte, n: nat): Poly
    decreases n
  {
    if n == 0 then Poly(0) else Add(Coefficient(b, p), PolySum(TimesX(p), Half(b), n - 1))
  }

  /** The product of two polynomials, with no reduction. */
  function PolyMul(p: Poly, b: Byte): Poly {
    PolySum(p, b, 8)
  }

  ghost predicate IsQuotient(p: Poly, q: Byte, r: Byte) {
    q.bits < 0x80 && p == Add(PolyMul(MODULUS, q), Embed(r))
  }

  /** r is the remainder of p modulo MODULUS: they differ by a multiple of it, and r has degree below 8. */
  ghost predicate IsRemainder(p: Poly, r: Byte) {
    exists q: Byte :: IsQuotient(p, q, r)
  }

  lemma AddSwap(a: Poly, b: Poly, c: Poly, d: Poly)
    ensures Add(Add(a, b), Add(c, d)) == Add(Add(a, c), Add(b, d))
  {
  }

  lemma CoefficientXor(q: Byte, t: Byte, p: Poly)
    ensures Coefficient(Xor(q, t), p) == Add(Coefficient(q, p), Coefficient(t, p))
    ensures Half(Xor(q, t)) == Xor(Half(q), Half(t))
  {
    assert Odd(Xor(q, t)) == (Odd(q) != Odd(t));
    assert p.bits ^ p.bits == 0;
  }

  lemma {:induction false} PolySumXor(p: Poly, q: Byte, t: Byte, n: nat)
    ensures PolySum(p, Xor(q, t), n) == Add(PolySum(p, q, n), PolySum(p, t, n))
    decreases n
  {
    if n > 0 {
      CoefficientXor(q, t, p);
      PolySumXor(TimesX(p), Half(q), Half(t), n - 1);
      AddSwap(Coefficient(q, p), Coefficient(t, p),
              PolySum(TimesX(p), Half(q), n - 1), PolySum(TimesX(p), Half(t), n - 1));
    }
  }

  lemma SmallMultipleIsZero(q: Byte)
    requires q.bits < 0x80 && PolyMul(MODULUS, q).bits < 0x100
    ensures q == ZERO
  {
  }

  lemma EqualSums(a: Poly, b: Poly, r: Byte, s: Byte)
    requires Add(a, Embed(r)) == Add(b, Embed(s))
    ensures Add(a, b) == Embed(Xor(r, s))
  {
    assert a.bits ^ (r.bits as bv16) == b.bits ^ (s.bits as bv16);
  }

  /** No polynomial has two remainders, so IsRemainder defines a function. */
  lemma RemainderIsUnique(p: Poly, r: Byte, s: Byte)
    requires IsRemainder(p, r) && IsRemainder(p, s)
    ensures r == s
  {
    var q: Byte :| IsQuotient(p, q, r);
    var t: Byte :| IsQuotient(p, t, s);
    PolySumXor(MODULUS, q, t, 8);
    EqualSums(PolyMul(MODULUS, q), PolyMul(MODULUS, t), r, s);
    SmallMultipleIsZero(Xor(q, t));
  }

  // ----- The loop computes the product of the field

  lemma TimesXAdd(p: Poly, q: Poly)
    ensures TimesX(Add(p, q)) == Add(TimesX(p), TimesX(q))
  {
  }

  lemma {:induction false} PolySumTimesX(p: Poly, b: Byte, n: nat)
    ensures PolySum(TimesX(p), b, n) == TimesX(PolySum(p, b, n))
    decreases n
  {
    if n > 0 {
      PolySumTimesX(TimesX(p), Half(b), n - 1);
      TimesXAdd(Coefficient(b, p), PolySum(TimesX(p), Half(b), n - 1));
      assert TimesX(Poly(0)) == Poly(0);
    }
  }

  function Carry(q: Byte, a: Byte): Byte {
    Byte((q.bits << 1) | (a.bits >> 7))
  }

  lemma CarryFacts(q: Byte, a: Byte)
    requires q.bits < 0x80
    ensures Half(Carry(q, a)) == q && Odd(Carry(q, a)) == High(a)
    ensures TimesX(Embed(a)) == Add(Coefficient(Carry(q, a), MODULUS), Embed(XTime(a)))
  {
    if High(a) {
      assert a.bits >> 7 == 1;
    } else {
      assert a.bits >> 7 == 0;
    }
  }

  /** q has degree below k. */
  predicate Below(q: Byte, k: nat)
    decreases k
  {
    if k == 0 then q == ZERO else Below(Half(q), k - 1)
  }

  lemma {:induction false} BelowWidens(q: Byte, k: nat, m: nat)
    requires Below(q, k) && k <= m
    ensures Below(q, m)
    decreases m
  {
    if k > 0 {
      BelowWidens(Half(q), k - 1, m - 1);
    } else if m > 0 {
      assert Half(ZERO) == ZERO;
      BelowWidens(ZERO, 0, m - 1);
    }
  }

  lemma BelowSeven(q: Byte)
    requires Below(q, 7)
    ensures q.bits < 0x80
  {
    assert Below(Half(Half(Half(Half(Half(Half(Half(q))))))), 0);
  }

  /** Terms above the degree of q add nothing. */
  lemma {:induction false} PolySumStops(p: Poly, q: Byte, k: nat, m: nat)
    requires Below(q, k) && k <= m
    ensures PolySum(p, q, m) == PolySum(p, q, k)
    decreases m
  {
    if k > 0 {
      PolySumStops(TimesX(p), Half(q), k - 1, m - 1);
    } else if m > 0 {
      assert Half(ZERO) == ZERO;
      PolySumStops(TimesX(p), ZERO, 0, m - 1);
    }
  }

  /** If p leaves remainder a with a quotient of degree below k, then x * p leaves XTime(a). */
  lemma ShiftKeepsQuotient(p: Poly, q: Byte, a: Byte, k: nat)
    requires IsQuotient(p, q, a) && Below(q, k) && k < 7
    ensures IsQuotient(TimesX(p), Carry(q, a), XTime(a)) && Below(Carry(q, a), k + 1)
  {
    var c := Carry(q, a);
    CarryFacts(q, a);
    BelowWidens(c, k + 1, 7);
    BelowSeven(c);
    var m := PolyMul(MODULUS, q);
    TimesXAdd(m, Embed(a));
    PolySumTimesX(MODULUS, q, 8);
    PolySumStops(TimesX(MODULUS), q, k, 8);
    PolySumStops(TimesX(MODULUS), q, k, 7);
    assert PolyMul(MODULUS, c) == Add(Coefficient(c, MODULUS), TimesX(m));
    AddThree(Coefficient(c, MODULUS), TimesX(m), Embed(XTime(a)));
  }

  lemma AddThree(a: Poly, b: Poly, c: Poly)
    ensures Add(Add(a, b), c) == Add(b, Add(a, c))
  {
  }

  lemma ZeroIsCongruent()
    ensures IsQuotient(Poly(0), ZERO, ZERO)
  {
    PolySumStops(MODULUS, ZERO, 0, 8);
  }

  /** Quotients and remainders of a sum are the sums of the quotients and of the remainders. */
  lemma CongruentSum(p: Poly, q: Byte, a: Byte, p': Poly, t: Byte, r: Byte)
    requires IsQuotient(p, q, a) && IsQuotient(p', t, r)
    ensures IsQuotient(Add(p, p'), Xor(q, t), Xor(a, r))
  {
    hide Add, Embed, Xor, PolySum;
    PolySumXor(MODULUS, q, t, 8);
    AddSwap(PolyMul(MODULUS, q), Embed(a), PolyMul(MODULUS, t), Embed(r));
    EmbedXor(a, r);
    XorBound(q, t);
  }

  lemma PolySumStep(p: Poly, b: Byte, n: nat)
    requires n > 0
    ensures var rest := PolySum(TimesX(p), Half(b), n - 1); PolySum(p, b, n) == if Odd(b) then Add(p, rest) else rest
  {
    hide Odd, Half, TimesX;
    AddZero(PolySum(TimesX(p), Half(b), n - 1));
  }

  lemma MulStepsStep(a: Byte, b: Byte, n: nat)
    requires n > 0
    ensures var rest := MulSteps(XTime(a), Half(b), n - 1); MulSteps(a, b, n) == if Odd(b) then Xor(a, rest) else rest
  {
    hide Odd, Half, XTime;
    XorCancels(MulSteps(XTime(a), Half(b), n - 1));
  }

  lemma {:induction false} StepsStayCongruent(p: Poly, q: Byte, a: Byte, b: Byte, n: nat) returns (t: Byte)
    requires n <= 8
    requires n > 0 ==> IsQuotient(p, q, a) && Below(q, 8 - n)
    ensures IsQuotient(PolySum(p, b, n), t, MulSteps(a, b, n))
    decreases n
  {
    hide *;
    if n == 0 {
      t := ZERO;
      ZeroIsCongruent();
      NoSteps(a, b);
      NoTerms(p, b);
      return;
    }
    if n > 1 {
      ShiftKeepsQuotient(p, q, a, 8 - n);
    }
    PolySumStep(p, b, n);
    MulStepsStep(a, b, n);
    t := StepsStayCongruent(TimesX(p), Carry(q, a), XTime(a), Half(b), n - 1);
    if Odd(b) {
      CongruentSum(p, q, a, PolySum(TimesX(p), Half(b), n - 1), t, MulSteps(XTime(a), Half(b), n - 1));
      t := Xor(q, t);
    }
  }

  lemma NoTerms(p: Poly, b: Byte)
    ensures PolySum(p, b, 0) == Poly(0)
  {
  }

  lemma EmbedXor(a: Byte, b: Byte)
    ensures Embed(Xor(a, b)) == Add(Embed(a), Embed(b))
  {
  }

  lemma XorBound(q: Byte, t: Byte)
    requires q.bits < 0x80 && t.bits < 0x80
    ensures Xor(q, t).bits < 0x80
  {
  }

  lemma AddZero(p: Poly)
    ensures Add(Poly(0), p) == p == Add(p, Poly(0))
  {
  }

  /** gmul is multiplication modulo x^8 + x^4 + x^3 + x + 1. */
  lemma GMulIsProduct(a: Byte, b: Byte)
    ensures IsRemainder(PolyMul(Embed(a), b), GMul(a, b))
  {
    PolySumStops(MODULUS, ZERO, 0, 8);
    AddZero(Embed(a));
    var t := StepsStayCongruent(Embed(a), ZERO, a, b, 8);
  }

  // ----- GMul is the multiplication of a commutative ring with unit

  lemma DoubleXor(a: Byte, b: Byte)
    ensures High(Xor(a, b)) == (High(a) != High(b))
    ensures Double(Xor(a, b)) == Xor(Double(a), Double(b))
  {
  }

  lemma XTimeXor(a: Byte, b: Byte)
    ensures XTime(Xor(a, b)) == Xor(XTime(a), XTime(b))
  {
    hide Xor;
    DoubleXor(a, b);
    var r := Byte(0x1b);
    XorSwap(Double(a), if High(a) then r else ZERO, Double(b), if High(b) then r else ZERO);
    XorCancels(r);
    XorCancels(ZERO);
    XorCancels(Double(a));
    XorCancels(Double(b));
    XorCancels(Xor(Double(a), Double(b)));
  }

  lemma {:induction false} MulStepsXor(a: Byte, c: Byte, b: Byte, n: nat)
    ensures MulSteps(Xor(a, c), b, n) == Xor(MulSteps(a, b, n), MulSteps(c, b, n))
    decreases n
  {
    XorCancels(ZERO);
    if n > 0 {
      XTimeXor(a, c);
      MulStepsXor(XTime(a), XTime(c), Half(b), n - 1);
      XorSwap(Select(b, a), Select(b, c), MulSteps(XTime(a), Half(b), n - 1), MulSteps(XTime(c), Half(b), n - 1));
    }
  }

  lemma {:induction false} MulStepsXTime(a: Byte, b: Byte, n: nat)
    ensures MulSteps(XTime(a), b, n) == XTime(MulSteps(a, b, n))
    decreases n
  {
    assert XTime(ZERO) == ZERO;
    if n > 0 {
      MulStepsXTime(XTime(a), Half(b), n - 1);
      XTimeXor(Select(b, a), MulSteps(XTime(a), Half(b), n - 1));
    }
  }

  lemma {:induction false} ZeroSteps(b: Byte, n: nat)
    ensures MulSteps(ZERO, b, n) == ZERO
    decreases n
  {
    assert XTime(ZERO) == ZERO;
    XorCancels(ZERO);
    if n > 0 {
      ZeroSteps(Half(b), n - 1);
    }
  }

  /** The two multiplications of a product by two factors can be exchanged. */
  lemma {:induction false} Exchange(x: Byte, a: Byte, b: Byte, n: nat, m: nat)
    ensures MulSteps(MulSteps(x, a, n), b, m) == MulSteps(MulSteps(x, b, m), a, n)
    decreases n
  {
    ZeroSteps(b, m);
    if n > 0 {
      var rest := MulSteps(XTime(x), Half(a), n - 1);
      MulStepsXor(Select(a, x), rest, b, m);
      Exchange(XTime(x), Half(a), b, n - 1, m);
      MulStepsXTime(x, b, m);
    }
  }

  lemma {:induction false} MulStepsXorRight(a: Byte, b: Byte, c: Byte, n: nat)
    ensures MulSteps(a, Xor(b, c), n) == Xor(MulSteps(a, b, n), MulSteps(a, c, n))
    decreases n
  {
    XorCancels(ZERO);
    if n > 0 {
      SelectXor(a, b, c);
      MulStepsXorRight(XTime(a), Half(b), Half(c), n - 1);
      XorSwap(Select(b, a), Select(c, a), MulSteps(XTime(a), Half(b), n - 1), MulSteps(XTime(a), Half(c), n - 1));
    }
  }

  lemma SelectXor(a: Byte, b: Byte, c: Byte)
    ensures Select(Xor(b, c), a) == Xor(Select(b, a), Select(c, a))
    ensures Half(Xor(b, c)) == Xor(Half(b), Half(c))
  {
    assert Odd(Xor(b, c)) == (Odd(b) != Odd(c));
    XorCancels(a);
    XorCancels(ZERO);
  }

  lemma OneTimesLowBits()
    ensures GMul(ONE, Byte(0)) == Byte(0) && GMul(ONE, Byte(1)) == Byte(1) && GMul(ONE, Byte(2)) == Byte(2)
    ensures GMul(ONE, Byte(4)) == Byte(4) && GMul(ONE, Byte(8)) == Byte(8)
  {
    assert MulSteps(Byte(8), Byte(1), 5) == Byte(8);
    assert MulSteps(Byte(4), Byte(1), 6) == Byte(4);
  }

  lemma OneTimesHighBits()
    ensures GMul(ONE, Byte(16)) == Byte(16) && GMul(ONE, Byte(32)) == Byte(32)
    ensures GMul(ONE, Byte(64)) == Byte(64) && GMul(ONE, Byte(128)) == Byte(128)
  {
    assert MulSteps(Byte(128), Byte(1), 1) == Byte(128);
  }

  /** If 1 * b == b holds of the bits of a below m, it holds with bit m added. */
  lemma OneTimesPart(a: bv8, m: bv8)
    requires m in {1, 2, 4, 8, 16, 32, 64, 128}
    requires GMul(ONE, Byte(a & (m - 1))) == Byte(a & (m - 1))
    ensures GMul(ONE, Byte(a & (m | (m - 1)))) == Byte(a & (m | (m - 1)))
  {
    hide GMul, MulSteps;
    assert (a & m) in {0, m};
    OneTimesLowBits();
    OneTimesHighBits();
    GMulXorRight(ONE, Byte(a & m), Byte(a & (m - 1)));
    assert Xor(Byte(a & m), Byte(a & (m - 1))) == Byte(a & (m | (m - 1)));
  }

  lemma GMulXorRight(a: Byte, b: Byte, c: Byte)
    ensures GMul(a, Xor(b, c)) == Xor(GMul(a, b), GMul(a, c))
  {
    hide MulSteps;
    MulStepsXorRight(a, b, c, 8);
  }

  lemma OneTimes(a: Byte)
    ensures GMul(ONE, a) == a
  {
    hide GMul;
    var v := a.bits;
    OneTimesLowBits();
    OneTimesHighBits();
    OneTimesPart(v, 1);
    OneTimesPart(v, 2);
    OneTimesPart(v, 4);
    OneTimesPart(v, 8);
    OneTimesPart(v, 16);
    OneTimesPart(v, 32);
    OneTimesPart(v, 64);
    OneTimesPart(v, 128);
  }

  lemma GMulCommutes(a: Byte, b: Byte)
    ensures GMul(a, b) == GMul(b, a)
  {
    hide MulSteps;
    Exchange(ONE, a, b, 8, 8);
    OneTimes(a);
    OneTimes(b);
  }

  lemma GMulAssociates(a: Byte, b: Byte, c: Byte)
    ensures GMul(GMul(a, b), c) == GMul(a, GMul(b, c))
  {
    hide MulSteps;
    Exchange(b, a, c, 8, 8);
    GMulCommutes(a, b);
    GMulCommutes(a, GMul(b, c));
  }

  lemma GMulDistributes(a: Byte, b: Byte, c: Byte)
    ensures GMul(a, Xor(b, c)) == Xor(GMul(a, b), GMul(a, c))
    ensures GMul(Xor(b, c), a) == Xor(GMul(b, a), GMul(c, a))
  {
    hide MulSteps;
    MulStepsXorRight(a, b, c, 8);
    MulStepsXor(b, c, a, 8);
  }
}
