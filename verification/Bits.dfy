/** Bytes, exclusive or on naturals, and the numbers behind C's shifts. */
module Bits {
  type byte = x: nat | x < 256

  /** n bytes, or bits, that are all zero. */
  function Zeros(n: nat): (r: seq<byte>)
    ensures |r| == n && forall i :: 0 <= i < n ==> r[i] == 0
  {
    seq(n, _ => 0)
  }

  function Pow2(n: nat): (r: nat)
    ensures r > 0
  {
    if n == 0 then 1 else 2 * Pow2(n - 1)
  }

  lemma HalfPow2(k: nat)
    requires k > 0
    ensures Pow2(k) / 2 == Pow2(k - 1)
  {
  }

  lemma Doubled(m: nat, n: nat)
    ensures 2 * m * n == 2 * (m * n) == m * (2 * n)
  {
  }

  lemma {:induction false} Pow2Product(i: nat, j: nat)
    ensures Pow2(i) * Pow2(j) == Pow2(i + j)
  {
    if i > 0 {
      Pow2Product(i - 1, j);
      Doubled(Pow2(i - 1), Pow2(j));
    }
  }

  /** C's `a ^ b` on unsigned values of any width: bit by bit, least significant bit first. */
  function Xor(a: nat, b: nat): nat {
    if a == 0 then b else if b == 0 then a else (a + b) % 2 + 2 * Xor(a / 2, b / 2)
  }

  lemma XorStep(a: nat, b: nat)
    ensures Xor(a, b) % 2 == (a + b) % 2
    ensures Xor(a, b) / 2 == Xor(a / 2, b / 2)
  {
    if a != 0 && b != 0 {
      var s, h := (a + b) % 2, Xor(a / 2, b / 2);
      assert Xor(a, b) == s + 2 * h;
      LowHigh(s, h);
    }
  }

  /** The defining equation, also where a or b is 0. */
  lemma XorUnfold(a: nat, b: nat)
    ensures Xor(a, b) == (a + b) % 2 + 2 * Xor(a / 2, b / 2)
  {
  }

  lemma LowHigh(s: nat, h: nat)
    requires s < 2
    ensures (s + 2 * h) % 2 == s && (s + 2 * h) / 2 == h
  {
  }

  /** Exclusive or, one bit at a time, without division. */
  lemma XorPush(c: nat, h: nat, d: nat, k: nat)
    requires c < 2 && d < 2
    ensures Xor(c + 2 * h, d + 2 * k) == (if c == d then 0 else 1) + 2 * Xor(h, k)
  {
    hide Xor;
    var x, y := c + 2 * h, d + 2 * k;
    XorUnfold(x, y);
    LowHigh(c, h); LowHigh(d, k);
    Parity(c, d, h + k);
    assert x + y == 2 * (h + k) + c + d;
  }

  lemma Parity(a: nat, b: nat, h: nat)
    ensures (2 * h + a + b) % 2 == (a + b) % 2
  {
  }

  /** Two naturals are equal when their lowest bits and their remaining bits are. */
  lemma SplitEq(x: nat, y: nat)
    requires x % 2 == y % 2 && x / 2 == y / 2
    ensures x == y
  {
  }

  lemma {:induction false} XorComm(a: nat, b: nat)
    ensures Xor(a, b) == Xor(b, a)
  {
    if a != 0 && b != 0 {
      XorComm(a / 2, b / 2);
    }
  }

  lemma {:induction false} XorSelf(a: nat)
    ensures Xor(a, a) == 0
  {
    if a != 0 {
      XorSelf(a / 2);
    }
  }

  lemma XorZero(a: nat)
    ensures Xor(a, 0) == a && Xor(0, a) == a
  {
  }

  lemma {:induction false} XorAssoc(a: nat, b: nat, c: nat)
    ensures Xor(Xor(a, b), c) == Xor(a, Xor(b, c))
    decreases a + b + c
  {
    if a == 0 || b == 0 || c == 0 {
      XorZero(a); XorZero(b); XorZero(c);
      XorZero(Xor(a, b)); XorZero(Xor(b, c)); XorZero(Xor(a, c));
    } else {
      XorAssocStep(a, b, c);
    }
  }

  lemma {:induction false} XorAssocStep(a: nat, b: nat, c: nat)
    requires a != 0 && b != 0 && c != 0
    ensures Xor(Xor(a, b), c) == Xor(a, Xor(b, c))
    decreases a + b + c, 0
  {
    hide *;
    var l, r := Xor(Xor(a, b), c), Xor(a, Xor(b, c));
    XorStep(a, b); XorStep(b, c); XorStep(Xor(a, b), c); XorStep(a, Xor(b, c));
    XorAssoc(a / 2, b / 2, c / 2);
    ParityAssoc(Xor(a, b), c, a + b); ParityAssoc(Xor(b, c), a, b + c);
    SplitEq(l, r);
  }

  lemma ParityAssoc(x: nat, c: nat, y: nat)
    requires x % 2 == y % 2
    ensures (x + c) % 2 == (y + c) % 2 && (c + x) % 2 == (c + y) % 2
  {
  }

  /** Applying the same mask twice cancels. */
  lemma XorCancel(a: nat, b: nat)
    ensures Xor(Xor(a, b), b) == a && Xor(b, Xor(b, a)) == a
  {
    hide Xor;
    XorAssoc(a, b, b); XorAssoc(b, b, a); XorSelf(b); XorZero(a);
  }

  lemma XorInjective(a: nat, b: nat, c: nat)
    requires Xor(a, c) == Xor(b, c)
    ensures a == b
  {
    hide Xor;
    XorCancel(a, c); XorCancel(b, c);
  }

  /** The middle two of four summands change places. */
  lemma XorSwap(a: nat, b: nat, c: nat, d: nat)
    ensures Xor(Xor(a, b), Xor(c, d)) == Xor(Xor(a, c), Xor(b, d))
  {
    hide Xor;
    XorAssoc(a, b, Xor(c, d)); XorAssoc(b, c, d); XorComm(b, c); XorAssoc(c, b, d); XorAssoc(a, c, Xor(b, d));
  }

  lemma {:induction false} XorBound(a: nat, b: nat, n: nat)
    requires a < Pow2(n) && b < Pow2(n)
    ensures Xor(a, b) < Pow2(n)
  {
    if a != 0 && b != 0 {
      XorBound(a / 2, b / 2, n - 1);
    }
  }

  /** Adding the same high bit to both sides leaves the exclusive or alone. */
  lemma {:induction false} XorHigh(a: nat, b: nat, n: nat)
    requires a < Pow2(n) && b < Pow2(n)
    ensures Xor(Pow2(n) + a, Pow2(n) + b) == Xor(a, b)
    ensures Xor(Pow2(n) + a, b) == Pow2(n) + Xor(a, b)
  {
    hide Xor;
    if n == 0 {
      assert a == 0 && b == 0 && Pow2(0) == 1;
      XorSelf(1); XorZero(0); XorZero(1);
    } else {
      var h := Pow2(n - 1);
      XorHigh(a / 2, b / 2, n - 1);
      XorHighStep(a, b, h);
    }
  }

  lemma XorHighStep(a: nat, b: nat, h: nat)
    requires Xor(h + a / 2, h + b / 2) == Xor(a / 2, b / 2)
    requires Xor(h + a / 2, b / 2) == h + Xor(a / 2, b / 2)
    ensures Xor(2 * h + a, 2 * h + b) == Xor(a, b)
    ensures Xor(2 * h + a, b) == 2 * h + Xor(a, b)
  {
    hide Xor;
    var x, y := 2 * h + a, 2 * h + b;
    XorStep(x, y); XorStep(x, b); XorStep(a, b);
    assert x / 2 == h + a / 2 && y / 2 == h + b / 2;
    Parity(a, b, 2 * h); Parity(a, b, h);
    SplitEq(Xor(x, y), Xor(a, b));
    var t := Xor(a, b);
    assert (2 * h + t) / 2 == h + t / 2;
    Parity(t, 0, h);
    SplitEq(Xor(x, b), 2 * h + t);
  }

  /** Above and below any place the two halves of a number are independent: on a word it is done byte by byte. */
  lemma {:induction false} XorJoin(h: nat, l: nat, k: nat, m: nat, n: nat)
    requires l < Pow2(n) && m < Pow2(n)
    ensures Xor(h * Pow2(n) + l, k * Pow2(n) + m) == Xor(h, k) * Pow2(n) + Xor(l, m)
  {
    hide Xor;
    if n == 0 {
      assert Pow2(0) == 1 && l == 0 && m == 0;
      XorZero(0);
    } else {
      var p := Pow2(n - 1);
      XorJoin(h, l / 2, k, m / 2, n - 1);
      Doubled(h, p); Doubled(k, p); Doubled(Xor(h, k), p);
      XorPush(l % 2, h * p + l / 2, m % 2, k * p + m / 2);
      XorPush(l % 2, l / 2, m % 2, m / 2);
      assert l == l % 2 + 2 * (l / 2) && m == m % 2 + 2 * (m / 2);
    }
  }

  lemma XorBit8(a: byte, b: byte)
    ensures Xor(256 + a, 256 + b) == Xor(a, b)
  {
    hide Xor;
    assert Pow2(8) == 256;
    XorHigh(a, b, 8);
  }

  lemma XorDouble(a: nat, b: nat)
    ensures Xor(2 * a, 2 * b) == 2 * Xor(a, b)
  {
    hide Xor;
    XorStep(2 * a, 2 * b);
    assert (2 * a) / 2 == a && (2 * b) / 2 == b;
    assert (2 * a + 2 * b) % 2 == 0;
    LowHigh(0, Xor(a, b));
    SplitEq(Xor(2 * a, 2 * b), 2 * Xor(a, b));
  }

  /** Bit k of a. */
  function BitAt(a: nat, k: nat): (b: nat)
    ensures b < 2
    decreases k
  {
    if k == 0 then a % 2 else BitAt(a / 2, k - 1)
  }

  lemma {:induction false} BitXor(a: nat, b: nat, k: nat)
    ensures BitAt(Xor(a, b), k) == (BitAt(a, k) + BitAt(b, k)) % 2
  {
    XorStep(a, b);
    hide Xor;
    if k == 0 {
      AddParity(a, b);
    } else {
      BitXor(a / 2, b / 2, k - 1);
    }
  }

  /** C's `a ^ b` on two unsigned chars. */
  function XorB(a: byte, b: byte): byte {
    XorBound(a, b, 8); Xor(a, b)
  }

  /** On bytes the recursive definition is the machine's exclusive or. */
  lemma XorIsMachineXor(a: bv8, b: bv8)
    ensures Xor(a as nat, b as nat) == (a ^ b) as nat
  {
    hide Xor;
    MachineXor(a, b, a as nat, b as nat, 8);
  }

  lemma {:induction false} MachineXor(x: bv8, y: bv8, a: nat, b: nat, n: nat)
    requires x as nat == a < Pow2(n) && y as nat == b < Pow2(n)
    ensures Xor(a, b) == (x ^ y) as nat
  {
    hide Xor;
    if n == 0 {
      ZeroBits(x, y);
    } else {
      var u, v := HalveBoth(x, y, a, b);
      assert a / 2 < Pow2(n - 1) && b / 2 < Pow2(n - 1);
      MachineXor(u, v, a / 2, b / 2, n - 1);
      MachineStep(x, y, u, v, a, b, (u ^ v) as nat);
    }
  }

  lemma HalveBoth(x: bv8, y: bv8, a: nat, b: nat) returns (u: bv8, v: bv8)
    requires x as nat == a && y as nat == b
    ensures u == x >> 1 && v == y >> 1 && u as nat == a / 2 && v as nat == b / 2
  {
    u, v := x >> 1, y >> 1;
    Halve(x); Halve(y);
  }

  lemma MachineStep(x: bv8, y: bv8, u: bv8, v: bv8, a: nat, b: nat, h: nat)
    requires x as nat == a && y as nat == b && u == x >> 1 && v == y >> 1 && (u ^ v) as nat == h
    requires Xor(a / 2, b / 2) == h
    ensures Xor(a, b) == (x ^ y) as nat
  {
    hide Xor;
    var r: nat := (x ^ y) as nat;
    ShiftXor(x, y, a, b, r);
    XorStep(a, b);
    SplitEq(Xor(a, b), r);
  }

  lemma ZeroBits(x: bv8, y: bv8)
    requires x as nat == 0 && y as nat == 0
    ensures Xor(x as nat, y as nat) == (x ^ y) as nat
  {
    assert x == 0 && y == 0;
  }

  lemma Halve(x: bv8)
    ensures (x >> 1) as nat == (x as nat) / 2
    ensures (x & 1) as nat == (x as nat) % 2
  {
  }

  lemma ShiftXor(x: bv8, y: bv8, a: nat, b: nat, r: nat)
    requires x as nat == a && y as nat == b && r == (x ^ y) as nat
    ensures ((x >> 1) ^ (y >> 1)) as nat == r / 2
    ensures r % 2 == (a + b) % 2
  {
    Halve(x); Halve(y); Halve(x ^ y);
    XorOfShifts(x, y);
    LowXor(x & 1, y & 1, (x & 1) as nat, (y & 1) as nat);
    AddParity(a, b);
  }

  lemma XorOfShifts(x: bv8, y: bv8)
    ensures (x >> 1) ^ (y >> 1) == (x ^ y) >> 1
    ensures (x ^ y) & 1 == (x & 1) ^ (y & 1)
  {
  }

  lemma AddParity(a: nat, b: nat)
    ensures (a % 2 + b % 2) % 2 == (a + b) % 2
  {
  }

  lemma LowXor(u: bv8, v: bv8, a: nat, b: nat)
    requires u & 1 == u && v & 1 == v
    requires u as nat == a && v as nat == b
    ensures (u ^ v) as nat == (a + b) % 2
  {
    assert u == 0 || u == 1;
    assert v == 0 || v == 1;
  }
}
