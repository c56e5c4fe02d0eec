/** Four-byte columns and the circulant matrices of MixColumns (sections 4.3, 5.1.3 and 5.3.3 of FIPS 197). */
module AesColumns {
  import opened Gf256

  datatype Column = Column(b0: Byte, b1: Byte, b2: Byte, b3: Byte)

  /** The coefficients of the polynomial a(x) of MixColumns and of its inverse, lowest first. */
  const MIX := Column(Byte(2), Byte(1), Byte(1), Byte(3))
  const INV_MIX := Column(Byte(14), Byte(9), Byte(13), Byte(11))

  function Dot(k0: Byte, k1: Byte, k2: Byte, k3: Byte, a: Column): Byte {
    Xor(Xor(GMul(a.b0, k0), GMul(a.b1, k1)), Xor(GMul(a.b2, k2), GMul(a.b3, k3)))
  }

  /** The product of two polynomials of degree below 4, modulo x^4 + 1. */
  function Product(k: Column, a: Column): Column {
    Column(Dot(k.b0, k.b3, k.b2, k.b1, a),
           Dot(k.b1, k.b0, k.b3, k.b2, a),
           Dot(k.b2, k.b1, k.b0, k.b3, a),
           Dot(k.b3, k.b2, k.b1, k.b0, a))
  }

  function XorColumn(a: Column, b: Column): Column {
    Column(Xor(a.b0, b.b0), Xor(a.b1, b.b1), Xor(a.b2, b.b2), Xor(a.b3, b.b3))
  }

  function Scale(x: Byte, a: Column): Column {
    Column(GMul(x, a.b0), GMul(x, a.b1), GMul(x, a.b2), GMul(x, a.b3))
  }

  // ----- Product(k, _) is linear

  lemma DotXor(k0: Byte, k1: Byte, k2: Byte, k3: Byte, a: Column, b: Column)
    ensures Dot(k0, k1, k2, k3, XorColumn(a, b)) == Xor(Dot(k0, k1, k2, k3, a), Dot(k0, k1, k2, k3, b))
  {
    hide GMul, Xor;
    GMulDistributes(k0, a.b0, b.b0);
    GMulDistributes(k1, a.b1, b.b1);
    GMulDistributes(k2, a.b2, b.b2);
    GMulDistributes(k3, a.b3, b.b3);
    XorSwap(GMul(a.b0, k0), GMul(b.b0, k0), GMul(a.b1, k1), GMul(b.b1, k1));
    XorSwap(GMul(a.b2, k2), GMul(b.b2, k2), GMul(a.b3, k3), GMul(b.b3, k3));
    XorSwap(Xor(GMul(a.b0, k0), GMul(a.b1, k1)), Xor(GMul(b.b0, k0), GMul(b.b1, k1)),
            Xor(GMul(a.b2, k2), GMul(a.b3, k3)), Xor(GMul(b.b2, k2), GMul(b.b3, k3)));
  }

  lemma DotScale(k0: Byte, k1: Byte, k2: Byte, k3: Byte, x: Byte, a: Column)
    ensures Dot(k0, k1, k2, k3, Scale(x, a)) == GMul(x, Dot(k0, k1, k2, k3, a))
  {
    hide GMul, Xor;
    GMulAssociates(x, a.b0, k0);
    GMulAssociates(x, a.b1, k1);
    GMulAssociates(x, a.b2, k2);
    GMulAssociates(x, a.b3, k3);
    GMulDistributes(x, GMul(a.b0, k0), GMul(a.b1, k1));
    GMulDistributes(x, GMul(a.b2, k2), GMul(a.b3, k3));
    GMulDistributes(x, Xor(GMul(a.b0, k0), GMul(a.b1, k1)), Xor(GMul(a.b2, k2), GMul(a.b3, k3)));
  }

  lemma ProductLinear(k: Column, a: Column, b: Column, x: Byte)
    ensures Product(k, XorColumn(a, b)) == XorColumn(Product(k, a), Product(k, b))
    ensures Product(k, Scale(x, a)) == Scale(x, Product(k, a))
  {
    hide GMul, Xor, Dot;
    DotXor(k.b0, k.b3, k.b2, k.b1, a, b);
    DotXor(k.b1, k.b0, k.b3, k.b2, a, b);
    DotXor(k.b2, k.b1, k.b0, k.b3, a, b);
    DotXor(k.b3, k.b2, k.b1, k.b0, a, b);
    DotScale(k.b0, k.b3, k.b2, k.b1, x, a);
    DotScale(k.b1, k.b0, k.b3, k.b2, x, a);
    DotScale(k.b2, k.b1, k.b0, k.b3, x, a);
    DotScale(k.b3, k.b2, k.b1, k.b0, x, a);
  }

  // ----- The unit columns span everything, so two matrices are inverse if they are on those

  function Unit(i: nat): Column {
    if i == 0 then Column(ONE, ZERO, ZERO, ZERO)
    else if i == 1 then Column(ZERO, ONE, ZERO, ZERO)
    else if i == 2 then Column(ZERO, ZERO, ONE, ZERO)
    else Column(ZERO, ZERO, ZERO, ONE)
  }

  function Combine(a: Column, u0: Column, u1: Column, u2: Column, u3: Column): Column {
    XorColumn(XorColumn(Scale(a.b0, u0), Scale(a.b1, u1)), XorColumn(Scale(a.b2, u2), Scale(a.b3, u3)))
  }

  lemma UnitsSpan(a: Column)
    ensures Combine(a, Unit(0), Unit(1), Unit(2), Unit(3)) == a
  {
    hide GMul, Xor;
    TimesUnits(a.b0);
    TimesUnits(a.b1);
    TimesUnits(a.b2);
    TimesUnits(a.b3);
    XorCancels(a.b0);
    XorCancels(a.b1);
    XorCancels(a.b2);
    XorCancels(a.b3);
    XorCancels(ZERO);
  }

  lemma TimesUnits(x: Byte)
    ensures GMul(x, ONE) == x && GMul(x, ZERO) == ZERO
  {
    hide GMul;
    OneTimes(x);
    GMulCommutes(x, ONE);
    GMulDistributes(x, ONE, ONE);
    XorCancels(ONE);
    XorCancels(GMul(x, ONE));
  }

  lemma ProductCombine(k: Column, a: Column, u0: Column, u1: Column, u2: Column, u3: Column)
    ensures Product(k, Combine(a, u0, u1, u2, u3))
         == Combine(a, Product(k, u0), Product(k, u1), Product(k, u2), Product(k, u3))
  {
    hide Product, Scale, XorColumn;
    ProductLinear(k, Scale(a.b0, u0), Scale(a.b1, u1), a.b0);
    ProductLinear(k, Scale(a.b2, u2), Scale(a.b3, u3), a.b0);
    ProductLinear(k, XorColumn(Scale(a.b0, u0), Scale(a.b1, u1)), XorColumn(Scale(a.b2, u2), Scale(a.b3, u3)), a.b0);
    ProductLinear(k, u0, u0, a.b0);
    ProductLinear(k, u1, u1, a.b1);
    ProductLinear(k, u2, u2, a.b2);
    ProductLinear(k, u3, u3, a.b3);
  }

  lemma InverseOnUnits(k: Column, l: Column, a: Column)
    requires Product(k, Product(l, Unit(0))) == Unit(0)
    requires Product(k, Product(l, Unit(1))) == Unit(1)
    requires Product(k, Product(l, Unit(2))) == Unit(2)
    requires Product(k, Product(l, Unit(3))) == Unit(3)
    ensures Product(k, Product(l, a)) == a
  {
    hide Product, Unit, Combine;
    UnitsSpan(a);
    ProductCombine(l, a, Unit(0), Unit(1), Unit(2), Unit(3));
    ProductCombine(k, a, Product(l, Unit(0)), Product(l, Unit(1)), Product(l, Unit(2)), Product(l, Unit(3)));
  }

  // ----- MIX and INV_MIX are inverse

  function Rotate(a: Column): Column {
    Column(a.b3, a.b0, a.b1, a.b2)
  }

  lemma XorRotate(p: Byte, q: Byte, r: Byte, s: Byte)
    ensures Xor(Xor(s, p), Xor(q, r)) == Xor(Xor(p, q), Xor(r, s))
  {
    XorCommutes(s, p);
    XorSwap(p, s, q, r);
    XorCommutes(s, r);
  }

  /** A circulant matrix commutes with the rotation of columns. */
  lemma ProductRotate(k: Column, a: Column)
    ensures Product(k, Rotate(a)) == Rotate(Product(k, a))
  {
    hide GMul, Xor;
    XorRotate(GMul(a.b0, k.b3), GMul(a.b1, k.b2), GMul(a.b2, k.b1), GMul(a.b3, k.b0));
    XorRotate(GMul(a.b0, k.b0), GMul(a.b1, k.b3), GMul(a.b2, k.b2), GMul(a.b3, k.b1));
    XorRotate(GMul(a.b0, k.b1), GMul(a.b1, k.b0), GMul(a.b2, k.b3), GMul(a.b3, k.b2));
    XorRotate(GMul(a.b0, k.b2), GMul(a.b1, k.b1), GMul(a.b2, k.b0), GMul(a.b3, k.b3));
  }

  lemma ProductUnit(k: Column)
    ensures Product(k, Unit(0)) == k
  {
    hide GMul, Xor;
    UnitTimes(k.b0);
    UnitTimes(k.b1);
    UnitTimes(k.b2);
    UnitTimes(k.b3);
    XorCancels(ZERO);
  }

  lemma UnitTimes(x: Byte)
    ensures GMul(ONE, x) == x && GMul(ZERO, x) == ZERO
    ensures Xor(x, ZERO) == x && Xor(ZERO, x) == x
  {
    hide GMul;
    TimesUnits(x);
    GMulCommutes(x, ONE);
    GMulCommutes(x, ZERO);
    XorCancels(x);
  }

  /** Circulant matrices are inverse as soon as their first columns multiply to the unit. */
  lemma InverseFromFirstColumn(k: Column, l: Column, a: Column)
    requires Product(k, l) == Unit(0)
    ensures Product(k, Product(l, a)) == a
  {
    hide Product;
    ProductUnit(l);
    forall i | 0 <= i < 3
      ensures Product(k, Product(l, Unit(i))) == Unit(i) ==> Product(k, Product(l, Unit(i + 1))) == Unit(i + 1)
    {
      assert Rotate(Unit(i)) == Unit(i + 1);
      ProductRotate(l, Unit(i));
      ProductRotate(k, Product(l, Unit(i)));
    }
    InverseOnUnits(k, l, a);
  }

  lemma TwoTimes()
    ensures GMul(Byte(2), Byte(14)) == Byte(0x1c) && GMul(Byte(2), Byte(9)) == Byte(0x12)
    ensures GMul(Byte(2), Byte(13)) == Byte(0x1a) && GMul(Byte(2), Byte(11)) == Byte(0x16)
  {
  }

  lemma ThreeTimes()
    ensures GMul(Byte(3), Byte(14)) == Byte(0x12) && GMul(Byte(3), Byte(9)) == Byte(0x1b)
    ensures GMul(Byte(3), Byte(13)) == Byte(0x17) && GMul(Byte(3), Byte(11)) == Byte(0x1d)
  {
  }

  lemma FirstColumn()
    ensures Product(INV_MIX, MIX) == Unit(0)
  {
    hide GMul;
    TwoTimes();
    ThreeTimes();
    UnitTimes(Byte(14));
    UnitTimes(Byte(9));
    UnitTimes(Byte(13));
    UnitTimes(Byte(11));
  }

  lemma FirstColumnReversed()
    ensures Product(MIX, INV_MIX) == Unit(0)
  {
    hide Product;
    FirstColumn();
    ProductCommutes(MIX, INV_MIX);
  }

  /** Four terms may be added in the other orders that ProductCommutes meets. */
  lemma XorOrders(p: Byte, q: Byte, r: Byte, s: Byte)
    ensures Xor(Xor(p, s), Xor(r, q)) == Xor(Xor(p, q), Xor(r, s))
    ensures Xor(Xor(q, p), Xor(s, r)) == Xor(Xor(p, q), Xor(r, s))
    ensures Xor(Xor(r, q), Xor(p, s)) == Xor(Xor(p, q), Xor(r, s))
    ensures Xor(Xor(s, r), Xor(q, p)) == Xor(Xor(p, q), Xor(r, s))
  {
    hide Xor;
    XorCommutes(r, q);
    XorCommutes(p, q);
    XorCommutes(r, s);
    XorSwap(p, s, q, r);
    XorCommutes(Xor(p, s), Xor(r, q));
    XorCommutes(Xor(p, q), Xor(r, s));
  }

  lemma ProductCommutes(k: Column, a: Column)
    ensures Product(k, a) == Product(a, k)
  {
    hide GMul, Xor;
    forall x, y
      ensures GMul(x, y) == GMul(y, x)
    {
      GMulCommutes(x, y);
    }
    XorOrders(GMul(a.b0, k.b0), GMul(a.b1, k.b3), GMul(a.b2, k.b2), GMul(a.b3, k.b1));
    XorOrders(GMul(a.b0, k.b1), GMul(a.b1, k.b0), GMul(a.b2, k.b3), GMul(a.b3, k.b2));
    XorOrders(GMul(a.b0, k.b2), GMul(a.b1, k.b1), GMul(a.b2, k.b0), GMul(a.b3, k.b3));
    XorOrders(GMul(a.b0, k.b3), GMul(a.b1, k.b2), GMul(a.b2, k.b1), GMul(a.b3, k.b0));
  }

  /** Section 5.3.3: the two column transformations undo each other. */
  lemma MixColumnInverts(a: Column)
    ensures Product(INV_MIX, Product(MIX, a)) == a
    ensures Product(MIX, Product(INV_MIX, a)) == a
  {
    hide Product, Unit;
    FirstColumn();
    FirstColumnReversed();
    InverseFromFirstColumn(INV_MIX, MIX, a);
    InverseFromFirstColumn(MIX, INV_MIX, a);
  }
}
