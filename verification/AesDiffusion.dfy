/** Two rounds of AES spread a change of one byte over the whole block. */
module AesDiffusion {
  import opened Aes
  import opened AesField
  import opened AesSbox
  import opened AesTables
  import opened Bits
  import opened Gf256

  // ---- one column ----

  /** A factor that is not zero can be cancelled. */
  lemma MulCancel(a: byte, b: byte, m: byte)
    requires m != 0 && Mul(a, m, AES_POLY) == Mul(b, m, AES_POLY)
    ensures a == b
  {
    InverseIsInverse(m);
    var y := Inverse(m);
    hide Mul; hide Inverse;
    MulAssoc(a, m, y, AES_POLY); MulAssoc(b, m, y, AES_POLY);
    One(a); One(b);
  }

  lemma X4Injective(a: byte, b: byte, c: byte, d: byte, e: byte)
    requires X4(a, b, c, d) == X4(e, b, c, d)
    ensures a == e
  {
    hide Xor;
    XorInjective(Xor(Xor(a, b), c), Xor(Xor(e, b), c), d);
    XorInjective(Xor(a, b), Xor(e, b), c);
    XorInjective(a, e, b);
  }

  /** s and t differ in coefficient i and in no other. */
  predicate DifferAt(s: Four, t: Four, i: nat) {
    && (s.m0 != t.m0 <==> i == 0) && (s.m1 != t.m1 <==> i == 1) && (s.m2 != t.m2 <==> i == 2) && (s.m3 != t.m3 <==> i == 3)
  }

  lemma DotDiffers(s: Four, t: Four, m: Four, i: nat)
    requires i < 4 && DifferAt(s, t, i) && m.m0 != 0 && m.m1 != 0 && m.m2 != 0 && m.m3 != 0
    ensures Dot(s, m) != Dot(t, m)
  {
    hide Mul; hide X4;
    if Dot(s, m) == Dot(t, m) {
      var p, q := Mul(s.m0, m.m0, AES_POLY), Mul(t.m0, m.m0, AES_POLY);
      var a, b := Mul(s.m1, m.m1, AES_POLY), Mul(t.m1, m.m1, AES_POLY);
      var c, d := Mul(s.m2, m.m2, AES_POLY), Mul(t.m2, m.m2, AES_POLY);
      var e, f := Mul(s.m3, m.m3, AES_POLY), Mul(t.m3, m.m3, AES_POLY);
      X4Rotate(p, a, c, e); X4Rotate(a, c, e, p); X4Rotate(c, e, p, a);
      X4Rotate(q, b, d, f); X4Rotate(b, d, f, q); X4Rotate(d, f, q, b);
      if i == 0 {
        X4Injective(p, a, c, e, q); MulCancel(s.m0, t.m0, m.m0);
      } else if i == 1 {
        X4Injective(a, c, e, p, b); MulCancel(s.m1, t.m1, m.m1);
      } else if i == 2 {
        X4Injective(c, e, p, a, d); MulCancel(s.m2, t.m2, m.m2);
      } else {
        X4Injective(e, p, a, c, f); MulCancel(s.m3, t.m3, m.m3);
      }
    }
  }

  /** One changed byte changes the whole column. */
  lemma ColumnSpreads(s: Four, t: Four, i: nat, j: nat)
    requires i < 4 && j < 4 && DifferAt(s, t, i)
    ensures Coefficient(MixColumn(s, MIX), j) != Coefficient(MixColumn(t, MIX), j)
  {
    hide Dot;
    DotDiffers(s, t, MIX, i);
    DotDiffers(Turn(s), Turn(t), MIX, (i + 3) % 4);
    DotDiffers(Turn(Turn(s)), Turn(Turn(t)), MIX, (i + 2) % 4);
    DotDiffers(Turn(Turn(Turn(s))), Turn(Turn(Turn(t))), MIX, (i + 1) % 4);
  }

  // ---- one round ----

  lemma SboxInjective(x: byte, y: byte)
    ensures Sbox(x) == Sbox(y) <==> x == y
  {
    hide Sbox; hide InvSbox;
    SboxInverse(x); SboxInverse(y);
  }

  /** The byte in row r of column c. */
  function At(b: seq<byte>, c: nat, r: nat): byte
    requires |b| == 16 && c < 4 && r < 4
  {
    b[4 * c + r]
  }

  /** The byte that the shifting of rows brings there. */
  function Brought(b: seq<byte>, c: nat, r: nat): byte
    requires |b| == 16 && c < 4 && r < 4
  {
    At(b, (c + r) % 4, r)
  }

  /** Coefficient r of column c before the mixing. */
  lemma Gathered(b: seq<byte>, c: nat, r: nat)
    requires |b| == 16 && c < 4 && r < 4
    ensures Coefficient(Column(Shifted(Substituted(b)), c), r) == Sbox(Brought(b, c, r))
  {
    hide Sbox; hide Place;
    PlaceIs(c, r);
  }

  lemma ColumnMixed(b: seq<byte>, key: seq<byte>, c: nat, i: nat)
    requires |b| == |key| == 16 && c < 4 && i < 4
    ensures At(XorBlock(Mixed(b, MIX), key), c, i) == XorB(Coefficient(MixColumn(Column(b, c), MIX), i), At(key, c, i))
  {
    hide MixColumn; hide XorB; hide Column;
    GridPlace(c, i);
  }

  lemma KeyKeeps(x: byte, y: byte, k: byte)
    ensures XorB(x, k) == XorB(y, k) <==> x == y
  {
    hide Xor;
    if XorB(x, k) == XorB(y, k) {
      XorInjective(x, y, k);
    }
  }

  function Round(b: seq<byte>, key: seq<byte>): (r: seq<byte>)
    requires |b| == |key| == 16
    ensures |r| == 16
  {
    XorBlock(Mixed(Shifted(Substituted(b)), MIX), key)
  }

  /** Byte i of column c after a round is made from the column that is gathered there. */
  lemma RoundAt(b: seq<byte>, key: seq<byte>, c: nat, i: nat)
    requires |b| == |key| == 16 && c < 4 && i < 4
    ensures At(Round(b, key), c, i)
            == XorB(Coefficient(MixColumn(Column(Shifted(Substituted(b)), c), MIX), i), At(key, c, i))
  {
    hide MixColumn; hide XorB; hide Column; hide Shifted; hide Substituted; hide Mixed; hide XorBlock; hide At;
    ColumnMixed(Shifted(Substituted(b)), key, c, i);
  }

  /** A column into which exactly one changed byte is gathered changes everywhere. */
  lemma ColumnChanges(b: seq<byte>, d: seq<byte>, key: seq<byte>, c: nat, r: nat, i: nat)
    requires |b| == |d| == |key| == 16 && c < 4 && r < 4 && i < 4
    requires forall q: nat | q < 4 :: Brought(b, c, q) != Brought(d, c, q) <==> q == r
    ensures At(Round(b, key), c, i) != At(Round(d, key), c, i)
  {
    hide *;
    var s, t := Column(Shifted(Substituted(b)), c), Column(Shifted(Substituted(d)), c);
    forall q: nat | q < 4 ensures Coefficient(s, q) != Coefficient(t, q) <==> q == r {
      Gathered(b, c, q); Gathered(d, c, q);
      SboxInjective(Brought(b, c, q), Brought(d, c, q));
    }
    Coefficients(s, t, r);
    ColumnSpreads(s, t, r, i);
    RoundAt(b, key, c, i); RoundAt(d, key, c, i);
    KeyKeeps(Coefficient(MixColumn(s, MIX), i), Coefficient(MixColumn(t, MIX), i), At(key, c, i));
  }

  lemma Coefficients(s: Four, t: Four, r: nat)
    requires forall q: nat | q < 4 :: Coefficient(s, q) != Coefficient(t, q) <==> q == r
    ensures DifferAt(s, t, r)
  {
    assert Coefficient(s, 0) == s.m0 && Coefficient(s, 1) == s.m1 && Coefficient(s, 2) == s.m2 && Coefficient(s, 3) == s.m3;
    assert Coefficient(t, 0) == t.m0 && Coefficient(t, 1) == t.m1 && Coefficient(t, 2) == t.m2 && Coefficient(t, 3) == t.m3;
  }

  /** A column into which none is gathered stays. */
  lemma ColumnStays(b: seq<byte>, d: seq<byte>, key: seq<byte>, c: nat, i: nat)
    requires |b| == |d| == |key| == 16 && c < 4 && i < 4
    requires forall q: nat | q < 4 :: Brought(b, c, q) == Brought(d, c, q)
    ensures At(Round(b, key), c, i) == At(Round(d, key), c, i)
  {
    hide *;
    var s, t := Column(Shifted(Substituted(b)), c), Column(Shifted(Substituted(d)), c);
    forall q: nat | q < 4 ensures Coefficient(s, q) == Coefficient(t, q) {
      Gathered(b, c, q); Gathered(d, c, q);
    }
    SameCoefficients(s, t);
    RoundAt(b, key, c, i); RoundAt(d, key, c, i);
  }

  lemma SameCoefficients(s: Four, t: Four)
    requires forall q: nat | q < 4 :: Coefficient(s, q) == Coefficient(t, q)
    ensures s == t
  {
    assert Coefficient(s, 0) == s.m0 && Coefficient(s, 1) == s.m1 && Coefficient(s, 2) == s.m2 && Coefficient(s, 3) == s.m3;
    assert Coefficient(t, 0) == t.m0 && Coefficient(t, 1) == t.m1 && Coefficient(t, 2) == t.m2 && Coefficient(t, 3) == t.m3;
  }

  // ---- two rounds ----

  /** The only byte in which b and d differ is the one in row r of column c. */
  ghost predicate OnePlace(b: seq<byte>, d: seq<byte>, c: nat, r: nat) {
    && |b| == |d| == 16
    && forall p: nat, q: nat | p < 4 && q < 4 :: At(b, p, q) != At(d, p, q) <==> p == c && q == r
  }

  /** They differ in column c, in all of it, and in no other. */
  ghost predicate OneColumn(b: seq<byte>, d: seq<byte>, c: nat) {
    && |b| == |d| == 16
    && forall p: nat, q: nat | p < 4 && q < 4 :: At(b, p, q) != At(d, p, q) <==> p == c
  }

  lemma BroughtOne(b: seq<byte>, d: seq<byte>, c: nat, r: nat, p: nat, q: nat)
    requires c < 4 && r < 4 && p < 4 && q < 4 && OnePlace(b, d, c, r)
    ensures |b| == |d| == 16 && (Brought(b, p, q) != Brought(d, p, q) <==> p == (c + 4 - r) % 4 && q == r)
  {
    hide At;
    assert At(b, (p + q) % 4, q) != At(d, (p + q) % 4, q) <==> (p + q) % 4 == c && q == r;
  }

  lemma FirstRound(b: seq<byte>, d: seq<byte>, key: seq<byte>, c: nat, r: nat)
    requires |key| == 16 && c < 4 && r < 4 && OnePlace(b, d, c, r)
    ensures |b| == |d| == 16 && OneColumn(Round(b, key), Round(d, key), (c + 4 - r) % 4)
  {
    hide Round; hide Brought; hide At;
    forall p: nat, i: nat | p < 4 && i < 4
      ensures At(Round(b, key), p, i) != At(Round(d, key), p, i) <==> p == (c + 4 - r) % 4
    {
      forall q: nat | q < 4 ensures Brought(b, p, q) != Brought(d, p, q) <==> p == (c + 4 - r) % 4 && q == r {
        BroughtOne(b, d, c, r, p, q);
      }
      if p == (c + 4 - r) % 4 {
        ColumnChanges(b, d, key, p, r, i);
      } else {
        ColumnStays(b, d, key, p, i);
      }
    }
  }

  lemma BroughtFrom(b: seq<byte>, d: seq<byte>, c: nat, p: nat, q: nat)
    requires c < 4 && p < 4 && q < 4 && OneColumn(b, d, c)
    ensures |b| == |d| == 16 && (Brought(b, p, q) != Brought(d, p, q) <==> q == (c + 4 - p) % 4)
  {
    hide At;
    assert At(b, (p + q) % 4, q) != At(d, (p + q) % 4, q) <==> (p + q) % 4 == c;
  }

  lemma SecondRound(b: seq<byte>, d: seq<byte>, key: seq<byte>, c: nat, p: nat, i: nat)
    requires |key| == 16 && c < 4 && OneColumn(b, d, c) && p < 4 && i < 4
    ensures |b| == |d| == 16 && At(Round(b, key), p, i) != At(Round(d, key), p, i)
  {
    hide Round; hide Brought; hide At;
    forall q: nat | q < 4 ensures Brought(b, p, q) != Brought(d, p, q) <==> q == (c + 4 - p) % 4 {
      BroughtFrom(b, d, c, p, q);
    }
    ColumnChanges(b, d, key, p, (c + 4 - p) % 4, i);
  }

  lemma NextRound(b: seq<byte>, rk: seq<byte>, r: nat)
    requires |b| == 16 && |rk| == ROUND_KEY_SIZE && r < 10
    ensures NR == 10 && After(b, rk, r) == if r == 0 then XorBlock(b, RoundKey(rk, 0)) else Round(After(b, rk, r - 1), RoundKey(rk, r))
  {
    hide XorBlock; hide Mixed; hide Shifted; hide Substituted; hide RoundKey;
  }

  lemma KeyAdded(b: seq<byte>, d: seq<byte>, key: seq<byte>, c: nat, r: nat)
    requires |key| == 16 && OnePlace(b, d, c, r)
    ensures |b| == |d| == 16 && OnePlace(XorBlock(b, key), XorBlock(d, key), c, r)
  {
    hide XorB;
    forall p: nat, q: nat | p < 4 && q < 4
      ensures At(XorBlock(b, key), p, q) != At(XorBlock(d, key), p, q) <==> p == c && q == r
    {
      assert At(b, p, q) != At(d, p, q) <==> p == c && q == r;
      KeyKeeps(At(b, p, q), At(d, p, q), At(key, p, q));
    }
  }

  /** Whatever the round keys, blocks that differ in one byte only differ in all sixteen after two rounds. */
  lemma TwoRoundsSpread(b: seq<byte>, d: seq<byte>, rk: seq<byte>, c: nat, r: nat, p: nat, i: nat)
    requires |rk| == ROUND_KEY_SIZE && c < 4 && r < 4 && p < 4 && i < 4 && OnePlace(b, d, c, r)
    ensures |b| == |d| == 16 && At(After(b, rk, 2), p, i) != At(After(d, rk, 2), p, i)
  {
    assert |b| == |d| == 16;
    hide After; hide RoundKey; hide XorBlock; hide Round; hide OnePlace; hide OneColumn; hide At;
    NextRound(b, rk, 0); NextRound(b, rk, 1); NextRound(b, rk, 2);
    NextRound(d, rk, 0); NextRound(d, rk, 1); NextRound(d, rk, 2);
    KeyAdded(b, d, RoundKey(rk, 0), c, r);
    FirstRound(After(b, rk, 0), After(d, rk, 0), RoundKey(rk, 1), c, r);
    SecondRound(After(b, rk, 1), After(d, rk, 1), RoundKey(rk, 2), (c + 4 - r) % 4, p, i);
  }
}
