/** The column mixing of AES as products of polynomials over GF(256). */
module AesField {
  import opened Bits
  import opened Gf256

  /** The reduction polynomial of section 4.2 of FIPS 197. */
  const AES_POLY: modulus := 0x11b

  /** The function xtime. */
  function Xtime(x: byte): byte {
    XorB(2 * x % 256, x / 128 * 0x1b)
  }

  lemma XtimeIsProduct(x: byte)
    ensures Xtime(x) == XTime(x, AES_POLY)
  {
    hide Xor;
    if x < 128 {
      XorZero(2 * x);
    } else {
      XorBit8(2 * x - 256, 0x1b);
    }
  }

  /** One term of the macro Multiply: `(y >> k & 1) * v`. */
  function Term(y: byte, k: nat, v: byte): byte {
    if y / Pow2(k) % 2 == 1 then v else 0
  }

  /** The macro Multiply. */
  function Multiply(x: byte, y: byte): byte {
    var x1 := Xtime(x);
    var x2 := Xtime(x1);
    var x3 := Xtime(x2);
    var x4 := Xtime(x3);
    XorB(XorB(XorB(XorB(Term(y, 0, x), Term(y, 1, x1)), Term(y, 2, x2)), Term(y, 3, x3)), Term(y, 4, x4))
  }

  /** It multiplies by any y of at most five bits. */
  lemma MultiplyIsProduct(x: byte, y: byte)
    requires y < 32
    ensures Multiply(x, y) == Mul(x, y, AES_POLY)
  {
    hide *;
    var x1 := Xtime(x);
    var x2 := Xtime(x1);
    var x3 := Xtime(x2);
    var x4 := Xtime(x3);
    var x5 := Xtime(x4);
    Shifts(y);
    assert y / 32 == 0;
    LowBitFirst(x, y); LowBitFirst(x1, y / 2); LowBitFirst(x2, y / 4); LowBitFirst(x3, y / 8); LowBitFirst(x4, y / 16);
    MulZeroLeft(x5, AES_POLY);
    LeftToRight(Term(y, 0, x), Term(y, 1, x1), Term(y, 2, x2), Term(y, 3, x3), Term(y, 4, x4));
    MultiplyIs(x, y);
  }

  lemma MultiplyIs(x: byte, y: byte)
    ensures var x1 := Xtime(x);
            var x2 := Xtime(x1);
            var x3 := Xtime(x2);
            Multiply(x, y) == XorB(XorB(XorB(XorB(Term(y, 0, x), Term(y, 1, x1)), Term(y, 2, x2)), Term(y, 3, x3)),
                                   Term(y, 4, Xtime(x3)))
  {
    hide Xtime; hide Term; hide XorB;
  }

  lemma Shifts(y: byte)
    ensures forall v: byte :: Term(y, 0, v) == if y % 2 == 1 then v else 0
    ensures forall v: byte :: Term(y, 1, v) == if y / 2 % 2 == 1 then v else 0
    ensures forall v: byte :: Term(y, 2, v) == if y / 4 % 2 == 1 then v else 0
    ensures forall v: byte :: Term(y, 3, v) == if y / 8 % 2 == 1 then v else 0
    ensures forall v: byte :: Term(y, 4, v) == if y / 16 % 2 == 1 then v else 0
    ensures y / 2 / 2 == y / 4 && y / 4 / 2 == y / 8 && y / 8 / 2 == y / 16 && y / 16 / 2 == y / 32
  {
    assert Pow2(4) == 16;
  }

  lemma LowBitFirst(x: byte, y: byte)
    ensures Mul(x, y, AES_POLY) == XorB(if y % 2 == 1 then x else 0, Mul(Xtime(x), y / 2, AES_POLY))
  {
    XtimeIsProduct(x);
    hide Xor; hide XTime; hide Xtime;
    MulZeroLeft(Xtime(x), AES_POLY);
    XorZero(0);
    MulXTimeLeft(x, y / 2, AES_POLY);
    XorComm(Mul(Xtime(x), y / 2, AES_POLY), if y % 2 == 1 then x else 0);
  }

  lemma LeftToRight(a: byte, b: byte, c: byte, d: byte, e: byte)
    ensures XorB(a, XorB(b, XorB(c, XorB(d, XorB(e, 0))))) == XorB(XorB(XorB(XorB(a, b), c), d), e)
  {
    hide Xor;
    XorZero(e);
    XorAssoc(c, d, e); XorAssoc(b, Xor(c, d), e); XorAssoc(b, c, d);
    XorAssoc(a, Xor(Xor(b, c), d), e); XorAssoc(a, Xor(b, c), d); XorAssoc(a, b, c);
  }

  // ---- sums of four ----

  function X4(a: byte, b: byte, c: byte, d: byte): byte {
    XorB(XorB(XorB(a, b), c), d)
  }

  lemma X4Add(a: byte, b: byte, c: byte, d: byte, a': byte, b': byte, c': byte, d': byte)
    ensures XorB(X4(a, b, c, d), X4(a', b', c', d')) == X4(XorB(a, a'), XorB(b, b'), XorB(c, c'), XorB(d, d'))
  {
    hide XorB;
    ByteSwap(XorB(XorB(a, b), c), d, XorB(XorB(a', b'), c'), d');
    ByteSwap(XorB(a, b), c, XorB(a', b'), c');
    ByteSwap(a, b, a', b');
  }

  lemma X4Rotate(a: byte, b: byte, c: byte, d: byte)
    ensures X4(a, b, c, d) == X4(b, c, d, a)
  {
    hide Xor;
    XorComm(a, b); XorAssoc(b, a, c); XorComm(a, c); XorAssoc(b, c, a);
    XorAssoc(Xor(b, c), a, d); XorComm(a, d); XorAssoc(Xor(b, c), d, a);
  }

  /** Four rows or four columns. */
  lemma X4Transpose(a0: byte, a1: byte, a2: byte, a3: byte, b0: byte, b1: byte, b2: byte, b3: byte,
                    c0: byte, c1: byte, c2: byte, c3: byte, d0: byte, d1: byte, d2: byte, d3: byte)
    ensures X4(X4(a0, a1, a2, a3), X4(b0, b1, b2, b3), X4(c0, c1, c2, c3), X4(d0, d1, d2, d3))
            == X4(X4(a0, b0, c0, d0), X4(a1, b1, c1, d1), X4(a2, b2, c2, d2), X4(a3, b3, c3, d3))
  {
    hide XorB;
    X4Add(a0, a1, a2, a3, b0, b1, b2, b3);
    X4Add(XorB(a0, b0), XorB(a1, b1), XorB(a2, b2), XorB(a3, b3), c0, c1, c2, c3);
    X4Add(XorB(XorB(a0, b0), c0), XorB(XorB(a1, b1), c1), XorB(XorB(a2, b2), c2), XorB(XorB(a3, b3), c3), d0, d1, d2, d3);
  }

  // ---- polynomials with four coefficients, modulo x^4 + 1 ----

  /** The coefficients of a polynomial of section 4.3 of FIPS 197, in the order of a row of its matrix. */
  datatype Four = Four(m0: byte, m1: byte, m2: byte, m3: byte)

  const MIX := Four(0x02, 0x03, 0x01, 0x01)
  const INV_MIX := Four(0x0e, 0x0b, 0x0d, 0x09)

  /** A row of the matrix times a column. */
  function Dot(s: Four, m: Four): byte {
    X4(Mul(s.m0, m.m0, AES_POLY), Mul(s.m1, m.m1, AES_POLY), Mul(s.m2, m.m2, AES_POLY), Mul(s.m3, m.m3, AES_POLY))
  }

  function Turn(s: Four): Four { Four(s.m1, s.m2, s.m3, s.m0) }

  /** Every row of the matrix is the one above turned by one place. */
  function MixColumn(s: Four, m: Four): Four {
    Four(Dot(s, m), Dot(Turn(s), m), Dot(Turn(Turn(s)), m), Dot(Turn(Turn(Turn(s))), m))
  }

  /** The product of two such matrices is one again. */
  function Product(m: Four, n: Four): Four {
    Four(Dot(Four(m.m0, m.m3, m.m2, m.m1), n), Dot(Four(m.m1, m.m0, m.m3, m.m2), n),
         Dot(Four(m.m2, m.m1, m.m0, m.m3), n), Dot(Four(m.m3, m.m2, m.m1, m.m0), n))
  }

  lemma DotTimes(s: Four, m: Four, n: byte)
    ensures Mul(Dot(s, m), n, AES_POLY)
            == X4(Mul(s.m0, Mul(m.m0, n, AES_POLY), AES_POLY), Mul(s.m1, Mul(m.m1, n, AES_POLY), AES_POLY),
                  Mul(s.m2, Mul(m.m2, n, AES_POLY), AES_POLY), Mul(s.m3, Mul(m.m3, n, AES_POLY), AES_POLY))
  {
    hide XorB; hide Mul;
    var a, b, c, d := Mul(s.m0, m.m0, AES_POLY), Mul(s.m1, m.m1, AES_POLY), Mul(s.m2, m.m2, AES_POLY), Mul(s.m3, m.m3, AES_POLY);
    MulAddLeft(a, b, n, AES_POLY); MulAddLeft(XorB(a, b), c, n, AES_POLY); MulAddLeft(XorB(XorB(a, b), c), d, n, AES_POLY);
    MulAssoc(s.m0, m.m0, n, AES_POLY); MulAssoc(s.m1, m.m1, n, AES_POLY);
    MulAssoc(s.m2, m.m2, n, AES_POLY); MulAssoc(s.m3, m.m3, n, AES_POLY);
  }

  lemma TimesX4(a: byte, b: byte, c: byte, d: byte, e: byte)
    ensures Mul(a, X4(b, c, d, e), AES_POLY)
            == X4(Mul(a, b, AES_POLY), Mul(a, c, AES_POLY), Mul(a, d, AES_POLY), Mul(a, e, AES_POLY))
  {
    hide XorB; hide Mul;
    MulAddRight(a, b, c, AES_POLY); MulAddRight(a, XorB(b, c), d, AES_POLY);
    MulAddRight(a, XorB(XorB(b, c), d), e, AES_POLY);
  }

  /** The product of three bytes, the last two taken first. */
  function Product3(a: byte, m: byte, n: byte): byte { Mul(a, Mul(m, n, AES_POLY), AES_POLY) }

  /** Multiplying by n what was multiplied by m is multiplying by their product: here the first row. */
  lemma MixRow(s: Four, m: Four, n: Four)
    ensures Dot(MixColumn(s, m), n) == Dot(s, Product(m, n))
  {
    hide Mul; hide X4;
    DotTimes(s, m, n.m0); DotTimes(Turn(s), m, n.m1);
    DotTimes(Turn(Turn(s)), m, n.m2); DotTimes(Turn(Turn(Turn(s))), m, n.m3);
    RotateAll(s, m, n);
    X4Transpose(Product3(s.m0, m.m0, n.m0), Product3(s.m1, m.m1, n.m0), Product3(s.m2, m.m2, n.m0), Product3(s.m3, m.m3, n.m0),
                Product3(s.m0, m.m3, n.m1), Product3(s.m1, m.m0, n.m1), Product3(s.m2, m.m1, n.m1), Product3(s.m3, m.m2, n.m1),
                Product3(s.m0, m.m2, n.m2), Product3(s.m1, m.m3, n.m2), Product3(s.m2, m.m0, n.m2), Product3(s.m3, m.m1, n.m2),
                Product3(s.m0, m.m1, n.m3), Product3(s.m1, m.m2, n.m3), Product3(s.m2, m.m3, n.m3), Product3(s.m3, m.m0, n.m3));
    Gather(s.m0, m.m0, m.m3, m.m2, m.m1, n); Gather(s.m1, m.m1, m.m0, m.m3, m.m2, n);
    Gather(s.m2, m.m2, m.m1, m.m0, m.m3, n); Gather(s.m3, m.m3, m.m2, m.m1, m.m0, n);
  }

  lemma RotateAll(s: Four, m: Four, n: Four)
    ensures X4(Product3(s.m1, m.m0, n.m1), Product3(s.m2, m.m1, n.m1), Product3(s.m3, m.m2, n.m1), Product3(s.m0, m.m3, n.m1))
            == X4(Product3(s.m0, m.m3, n.m1), Product3(s.m1, m.m0, n.m1), Product3(s.m2, m.m1, n.m1), Product3(s.m3, m.m2, n.m1))
    ensures X4(Product3(s.m2, m.m0, n.m2), Product3(s.m3, m.m1, n.m2), Product3(s.m0, m.m2, n.m2), Product3(s.m1, m.m3, n.m2))
            == X4(Product3(s.m0, m.m2, n.m2), Product3(s.m1, m.m3, n.m2), Product3(s.m2, m.m0, n.m2), Product3(s.m3, m.m1, n.m2))
    ensures X4(Product3(s.m3, m.m0, n.m3), Product3(s.m0, m.m1, n.m3), Product3(s.m1, m.m2, n.m3), Product3(s.m2, m.m3, n.m3))
            == X4(Product3(s.m0, m.m1, n.m3), Product3(s.m1, m.m2, n.m3), Product3(s.m2, m.m3, n.m3), Product3(s.m3, m.m0, n.m3))
  {
    hide Product3; hide X4;
    X4Rotate(Product3(s.m0, m.m3, n.m1), Product3(s.m1, m.m0, n.m1), Product3(s.m2, m.m1, n.m1), Product3(s.m3, m.m2, n.m1));
    X4Rotate(Product3(s.m0, m.m2, n.m2), Product3(s.m1, m.m3, n.m2), Product3(s.m2, m.m0, n.m2), Product3(s.m3, m.m1, n.m2));
    X4Rotate(Product3(s.m1, m.m3, n.m2), Product3(s.m2, m.m0, n.m2), Product3(s.m3, m.m1, n.m2), Product3(s.m0, m.m2, n.m2));
    X4Rotate(Product3(s.m3, m.m0, n.m3), Product3(s.m0, m.m1, n.m3), Product3(s.m1, m.m2, n.m3), Product3(s.m2, m.m3, n.m3));
  }

  lemma Gather(a: byte, k0: byte, k1: byte, k2: byte, k3: byte, n: Four)
    ensures X4(Product3(a, k0, n.m0), Product3(a, k1, n.m1), Product3(a, k2, n.m2), Product3(a, k3, n.m3))
            == Mul(a, Dot(Four(k0, k1, k2, k3), n), AES_POLY)
  {
    hide Mul; hide X4;
    TimesX4(a, Mul(k0, n.m0, AES_POLY), Mul(k1, n.m1, AES_POLY), Mul(k2, n.m2, AES_POLY), Mul(k3, n.m3, AES_POLY));
  }

  lemma SmallProducts(n: byte)
    ensures Mul(n, 1, AES_POLY) == n && Mul(1, n, AES_POLY) == n
    ensures Mul(n, 2, AES_POLY) == Xtime(n) && Mul(2, n, AES_POLY) == Xtime(n)
    ensures Mul(n, 3, AES_POLY) == XorB(Xtime(n), n) && Mul(3, n, AES_POLY) == XorB(Xtime(n), n)
  {
    XtimeIsProduct(n);
    MulComm(n, 1, AES_POLY); MulComm(n, 2, AES_POLY); MulComm(n, 3, AES_POLY);
    OneMul(n, AES_POLY);
    XorZero(Xtime(n));
    hide Xor; hide Xtime; hide XTime;
    assert Mul(n, 1, AES_POLY) == n;
  }

  lemma SmallXtime(n: byte)
    requires n < 128
    ensures Xtime(n) == 2 * n
  {
    hide Xor;
    XorZero(2 * n);
    assert n / 128 == 0 && 2 * n % 256 == 2 * n;
  }

  lemma Triples()
    ensures Xor(0x12, 0x09) == 0x1b && Xor(0x16, 0x0b) == 0x1d && Xor(0x1a, 0x0d) == 0x17 && Xor(0x1c, 0x0e) == 0x12
  {
    hide Xor;
    XorIsMachineXor(0x12, 0x09); XorIsMachineXor(0x16, 0x0b); XorIsMachineXor(0x1a, 0x0d); XorIsMachineXor(0x1c, 0x0e);
  }

  /** The two polynomials of AES are each other's inverse. */
  lemma MixProducts()
    ensures Product(MIX, INV_MIX) == Four(1, 0, 0, 0)
    ensures Product(INV_MIX, MIX) == Four(1, 0, 0, 0)
  {
    Triples();
    hide Mul; hide X4; hide Xtime; hide Xor;
    SmallProducts(0x09); SmallProducts(0x0b); SmallProducts(0x0d); SmallProducts(0x0e);
    SmallXtime(0x09); SmallXtime(0x0b); SmallXtime(0x0d); SmallXtime(0x0e);
    Sums();
  }

  lemma Sums()
    ensures X4(0x1c, 0x0b, 0x0d, 0x1b) == 1 && X4(0x12, 0x16, 0x0d, 0x09) == 0
    ensures X4(0x0e, 0x1d, 0x1a, 0x09) == 0 && X4(0x0e, 0x0b, 0x17, 0x12) == 0
    ensures X4(0x1c, 0x1b, 0x0d, 0x0b) == 1 && X4(0x16, 0x12, 0x09, 0x0d) == 0
    ensures X4(0x1a, 0x1d, 0x0e, 0x09) == 0 && X4(0x12, 0x17, 0x0b, 0x0e) == 0
  {
    hide Xor;
    XorIsMachineXor(0x1c, 0x0b); XorIsMachineXor(0x17, 0x0d); XorIsMachineXor(0x1a, 0x1b);
    XorIsMachineXor(0x12, 0x16); XorIsMachineXor(0x04, 0x0d); XorIsMachineXor(0x09, 0x09);
    XorIsMachineXor(0x0e, 0x1d); XorIsMachineXor(0x13, 0x1a); XorIsMachineXor(0x09, 0x09);
    XorIsMachineXor(0x0e, 0x0b); XorIsMachineXor(0x05, 0x17); XorIsMachineXor(0x12, 0x12);
    XorIsMachineXor(0x1c, 0x1b); XorIsMachineXor(0x07, 0x0d); XorIsMachineXor(0x0a, 0x0b);
    XorIsMachineXor(0x16, 0x12); XorIsMachineXor(0x04, 0x09); XorIsMachineXor(0x0d, 0x0d);
    XorIsMachineXor(0x1a, 0x1d); XorIsMachineXor(0x07, 0x0e); XorIsMachineXor(0x09, 0x09);
    XorIsMachineXor(0x12, 0x17); XorIsMachineXor(0x05, 0x0b); XorIsMachineXor(0x0e, 0x0e);
  }

  lemma DotUnit(s: Four)
    ensures Dot(s, Four(1, 0, 0, 0)) == s.m0
  {
    MulComm(s.m0, 1, AES_POLY); OneMul(s.m0, AES_POLY);
    MulZeroLeft(s.m1, AES_POLY); MulZeroLeft(s.m2, AES_POLY); MulZeroLeft(s.m3, AES_POLY);
    hide Mul; hide Xor;
    XorZero(s.m0);
  }

  lemma MixInverse(s: Four)
    ensures MixColumn(MixColumn(s, MIX), INV_MIX) == s
    ensures MixColumn(MixColumn(s, INV_MIX), MIX) == s
  {
    MixProducts();
    hide Dot; hide Product;
    UndoMix(s, MIX, INV_MIX);
    UndoMix(s, INV_MIX, MIX);
  }

  lemma UndoMix(s: Four, m: Four, n: Four)
    requires Product(m, n) == Four(1, 0, 0, 0)
    ensures MixColumn(MixColumn(s, m), n) == s
  {
    hide Dot; hide Product;
    MixRow(s, m, n); MixRow(Turn(s), m, n); MixRow(Turn(Turn(s)), m, n); MixRow(Turn(Turn(Turn(s))), m, n);
    DotUnit(s); DotUnit(Turn(s)); DotUnit(Turn(Turn(s))); DotUnit(Turn(Turn(Turn(s))));
  }
}
