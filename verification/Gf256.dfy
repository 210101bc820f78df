/** Arithmetic of GF(256): bytes as polynomials over GF(2), reduced by a polynomial of degree 8. */
module Gf256 {
  import opened Bits

  type modulus = p: nat | 256 <= p < 512 witness 256

  /** Multiplication by x. */
  function XTime(a: byte, p: modulus): byte {
    if a < 128 then 2 * a else XTimeBound(a, p); Xor(2 * a, p)
  }

  lemma XTimeBound(a: byte, p: modulus)
    requires a >= 128
    ensures Xor(2 * a, p) < 256
  {
    hide Xor;
    XorHigh(2 * a - 256, p - 256, 8);
    XorBound(2 * a - 256, p - 256, 8);
  }

  /** The product of a and b, by Horner's rule on the bits of b. */
  function Mul(a: byte, b: byte, p: modulus): byte {
    if b == 0 then 0 else XorB(XTime(Mul(a, b / 2, p), p), if b % 2 == 1 then a else 0)
  }

  lemma TopBit(a: byte, b: byte)
    ensures Xor(a, b) >= 128 <==> (a >= 128) != (b >= 128)
  {
    hide Xor;
    var u, v := if a >= 128 then a - 128 else a, if b >= 128 then b - 128 else b;
    XorHigh(u, v, 7); XorHigh(v, u, 7); XorBound(u, v, 7);
    XorComm(u, v); XorComm(128 + v, u);
  }

  lemma XTimeLinear(a: byte, b: byte, p: modulus)
    ensures XTime(XorB(a, b), p) == XorB(XTime(a, p), XTime(b, p))
  {
    hide Xor;
    TopBit(a, b);
    XorDouble(a, b);
    if a >= 128 && b >= 128 {
      XorSwap(2 * a, p, 2 * b, p); XorSelf(p); XorZero(2 * Xor(a, b));
    } else if a >= 128 {
      XorAssoc(2 * a, p, 2 * b); XorComm(p, 2 * b); XorAssoc(2 * a, 2 * b, p);
    } else if b >= 128 {
      XorAssoc(2 * a, 2 * b, p);
    }
  }

  lemma ByteSwap(a: byte, b: byte, c: byte, d: byte)
    ensures XorB(XorB(a, b), XorB(c, d)) == XorB(XorB(a, c), XorB(b, d))
  {
    hide Xor;
    XorSwap(a, b, c, d);
  }

  /** The product distributes over a sum in its left argument. */
  lemma {:induction false} MulAddLeft(a: byte, c: byte, b: byte, p: modulus)
    ensures Mul(XorB(a, c), b, p) == XorB(Mul(a, b, p), Mul(c, b, p))
  {
    hide Xor;
    hide XTime;
    XorZero(0);
    if b != 0 {
      var u, v := Mul(a, b / 2, p), Mul(c, b / 2, p);
      MulAddLeft(a, c, b / 2, p);
      XTimeLinear(u, v, p);
      ByteSwap(XTime(u, p), if b % 2 == 1 then a else 0, XTime(v, p), if b % 2 == 1 then c else 0);
    }
  }

  lemma {:induction false} MulXTimeLeft(a: byte, b: byte, p: modulus)
    ensures Mul(XTime(a, p), b, p) == XTime(Mul(a, b, p), p)
  {
    hide Xor;
    assert XTime(0, p) == 0;
    hide XTime;
    if b != 0 {
      MulXTimeLeft(a, b / 2, p);
      XTimeLinear(XTime(Mul(a, b / 2, p), p), if b % 2 == 1 then a else 0, p);
    }
  }

  lemma {:induction false} OneMul(b: byte, p: modulus)
    ensures Mul(1, b, p) == b
  {
    hide Xor;
    if b != 0 {
      OneMul(b / 2, p);
      XorHalves(b);
    }
  }

  lemma XorHalves(b: byte)
    ensures Xor(2 * (b / 2), b % 2) == b
  {
    var e := 2 * (b / 2);
    XorStep(e, b % 2);
    hide Xor;
    assert e / 2 == b / 2 && (b % 2) / 2 == 0;
    XorZero(b / 2);
    SplitEq(Xor(e, b % 2), b);
  }

  lemma MulZeroLeft(b: byte, p: modulus)
    ensures Mul(0, b, p) == 0 && Mul(b, 0, p) == 0
  {
    hide Xor;
    MulAddLeft(0, 0, b, p); XorSelf(Mul(0, b, p)); XorZero(0);
  }

  lemma {:induction false} MulComm(a: byte, b: byte, p: modulus)
    ensures Mul(a, b, p) == Mul(b, a, p)
    decreases b
  {
    hide Xor;
    if b == 0 {
      MulZeroLeft(a, p);
    } else {
      assert XTime(b / 2, p) == 2 * (b / 2);
      hide XTime;
      MulComm(a, b / 2, p);
      XorHalves(b);
      MulAddLeft(XTime(b / 2, p), b % 2, a, p);
      MulXTimeLeft(b / 2, a, p);
      OneMul(a, p); MulZeroLeft(a, p);
    }
  }

  lemma MulAddRight(a: byte, b: byte, c: byte, p: modulus)
    ensures Mul(a, XorB(b, c), p) == XorB(Mul(a, b, p), Mul(a, c, p))
  {
    hide Xor; hide XorB; hide Mul;
    MulAddLeft(b, c, a, p);
    MulComm(a, XorB(b, c), p); MulComm(a, b, p); MulComm(a, c, p);
  }

  lemma MulXTimeRight(a: byte, b: byte, p: modulus)
    ensures Mul(a, XTime(b, p), p) == XTime(Mul(a, b, p), p)
  {
    hide XTime; hide Mul;
    MulXTimeLeft(b, a, p);
    MulComm(a, XTime(b, p), p); MulComm(a, b, p);
  }

  lemma {:induction false} MulAssoc(a: byte, b: byte, c: byte, p: modulus)
    ensures Mul(Mul(a, b, p), c, p) == Mul(a, Mul(b, c, p), p)
    decreases c
  {
    hide Xor; hide XTime;
    MulZeroLeft(a, p);
    if c != 0 {
      MulAssoc(a, b, c / 2, p);
      var bc := Mul(b, c / 2, p);
      MulAddRight(a, XTime(bc, p), if c % 2 == 1 then b else 0, p);
      MulXTimeRight(a, bc, p);
    }
  }
}
