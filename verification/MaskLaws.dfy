/** What the mask patterns look like, each by a law that it and no other pattern obeys. */
module MaskLaws {
  import opened Mask
  import opened MicroMask

  type pattern = (nat, nat) -> bool

  function PatternOf(mask: nat): pattern
    requires mask < MASK_NUM
  {
    (x: nat, y: nat) => Flips(mask, x, y)
  }

  predicate OneOfThree(a: bool, b: bool, c: bool) {
    (a && !b && !c) || (!a && b && !c) || (!a && !b && c)
  }

  // ---- the laws; each pattern inverts the module at the origin ----

  /** A chequered board. */
  predicate Chequered(p: pattern, x: nat, y: nat) {
    p(x, y) != p(x + 1, y) && p(x, y) != p(x, y + 1)
  }

  /** Rows: every other one. */
  predicate Rows(p: pattern, x: nat, y: nat) {
    p(x, y) == p(0, y) && p(x, y) != p(x, y + 1)
  }

  /** Columns: one of any three next to each other. */
  predicate Columns(p: pattern, x: nat, y: nat) {
    p(x, y) == p(x, 0) && OneOfThree(p(x, y), p(x + 1, y), p(x + 2, y))
  }

  /** Diagonals: one of any three modules next to each other in a row. */
  predicate Diagonals(p: pattern, x: nat, y: nat) {
    p(x + 1, y) == p(x, y + 1) && OneOfThree(p(x, y), p(x + 1, y), p(x + 2, y))
  }

  /** A board of blocks three wide and two high. */
  predicate Blocks(p: pattern, x: nat, y: nat) {
    p(x, y) == p(x - x % 3, y - y % 2) && p(x, y) != p(x + 3, y) && p(x, y) != p(x, y + 2)
  }

  lemma MasksObey(x: nat, y: nat)
    ensures Chequered(PatternOf(0), x, y) && Rows(PatternOf(1), x, y) && Columns(PatternOf(2), x, y)
    ensures Diagonals(PatternOf(3), x, y) && Blocks(PatternOf(4), x, y)
  {
    hide *;
    ChequeredMask(x, y); RowMask(x, y); ColumnMask(x, y); DiagonalMask(x, y); BlockMask(x, y);
  }

  lemma ChequeredMask(x: nat, y: nat)
    ensures Chequered(PatternOf(0), x, y)
  {
  }

  lemma RowMask(x: nat, y: nat)
    ensures Rows(PatternOf(1), x, y)
  {
  }

  lemma ColumnMask(x: nat, y: nat)
    ensures Columns(PatternOf(2), x, y)
  {
  }

  lemma DiagonalMask(x: nat, y: nat)
    ensures Diagonals(PatternOf(3), x, y)
  {
  }

  lemma BlockMask(x: nat, y: nat)
    ensures Blocks(PatternOf(4), x, y)
  {
    hide *;
    Thirds(x); Halves(y);
    FourthMask(x, y); FourthMask(x - x % 3, y - y % 2); FourthMask(x + 3, y); FourthMask(x, y + 2);
    Alternate(y / 2 + x / 3);
    BlocksIs(PatternOf(4), x, y);
  }

  lemma Thirds(x: nat)
    ensures x - x % 3 >= 0 && (x - x % 3) / 3 == x / 3 && (x + 3) / 3 == x / 3 + 1
  {
  }

  lemma Alternate(n: nat)
    ensures n % 2 == 0 <==> (n + 1) % 2 != 0
  {
  }

  lemma Halves(y: nat)
    ensures y - y % 2 >= 0 && (y - y % 2) / 2 == y / 2 && (y + 2) / 2 == y / 2 + 1
  {
  }

  lemma FourthMask(x: nat, y: nat)
    ensures MASK_NUM == 8 && (PatternOf(4)(x, y) <==> (y / 2 + x / 3) % 2 == 0) && PatternOf(4)(x, y) == Flips(4, x, y)
  {
  }

  lemma BlocksIs(p: pattern, x: nat, y: nat)
    ensures Blocks(p, x, y)
            <==> p(x, y) == p(x - x % 3, y - y % 2) && p(x, y) != p(x + 3, y) && p(x, y) != p(x, y + 2)
  {
  }

  /** Every mask inverts the module at the origin. */
  lemma AtOrigin(mask: nat)
    requires mask < MASK_NUM
    ensures Flips(mask, 0, 0)
  {
  }

  lemma {:induction false} OnlyMask0(p: pattern, x: nat, y: nat)
    requires p(0, 0) && forall i: nat, j: nat :: Chequered(p, i, j)
    ensures p(x, y) == Flips(0, x, y)
    decreases x + y
  {
    if x > 0 {
      OnlyMask0(p, x - 1, y);
      assert Chequered(p, x - 1, y);
    } else if y > 0 {
      OnlyMask0(p, x, y - 1);
      assert Chequered(p, x, y - 1);
    }
  }

  lemma {:induction false} OnlyMask1(p: pattern, x: nat, y: nat)
    requires p(0, 0) && forall i: nat, j: nat :: Rows(p, i, j)
    ensures p(x, y) == Flips(1, x, y)
    decreases y
  {
    assert Rows(p, x, y);
    if y > 0 {
      OnlyMask1(p, x, y - 1);
      assert Rows(p, x, y - 1);
    }
  }

  lemma {:induction false} OnlyMask2(p: pattern, x: nat, y: nat)
    requires p(0, 0) && forall i: nat, j: nat :: Columns(p, i, j)
    ensures p(x, y) == Flips(2, x, y)
  {
    assert Columns(p, x, y);
    if x >= 3 {
      OnlyMask2(p, x - 3, y);
      assert Columns(p, x - 3, y) && Columns(p, x - 2, y);
    } else {
      assert Columns(p, 0, 0);
    }
  }

  lemma {:induction false} OnlyMask3(p: pattern, x: nat, y: nat)
    requires p(0, 0) && forall i: nat, j: nat :: Diagonals(p, i, j)
    ensures p(x, y) == Flips(3, x, y)
    decreases x + y, y
  {
    if y > 0 {
      OnlyMask3(p, x + 1, y - 1);
      assert Diagonals(p, x, y - 1);
    } else if x >= 3 {
      OnlyMask3(p, x - 3, y);
      assert Diagonals(p, x - 3, y) && Diagonals(p, x - 2, y);
    } else {
      assert Diagonals(p, 0, 0);
    }
  }

  lemma {:induction false} OnlyMask4(p: pattern, x: nat, y: nat)
    requires p(0, 0) && forall i: nat, j: nat :: Blocks(p, i, j)
    ensures MASK_NUM == 8 && p(x, y) == Flips(4, x, y)
    decreases x + y
  {
    hide *;
    PatternIs(x, y);
    if x >= 3 {
      OnlyMask4(p, x - 3, y);
      SameStep(p, x - 3, y);
    } else if y >= 2 {
      OnlyMask4(p, x, y - 2);
      SameStep(p, x, y - 2);
    } else {
      SameStep(p, x, y);
      Corner(x, y);
      PatternIs(0, 0); AtOrigin(4);
    }
  }

  lemma PatternIs(x: nat, y: nat)
    ensures MASK_NUM == 8 && PatternOf(4)(x, y) == Flips(4, x, y)
  {
  }

  lemma Corner(x: nat, y: nat)
    requires x < 3 && y < 2
    ensures x - x % 3 == 0 && y - y % 2 == 0
  {
  }

  /** Both p and mask 4 change where their law says. */
  lemma SameStep(p: pattern, x: nat, y: nat)
    requires Blocks(p, x, y)
    ensures MASK_NUM == 8 && x - x % 3 >= 0 && y - y % 2 >= 0
    ensures p(x, y) == p(x - x % 3, y - y % 2) && Flips(4, x, y) == Flips(4, x - x % 3, y - y % 2)
    ensures p(x, y) == Flips(4, x, y) ==> p(x + 3, y) == Flips(4, x + 3, y) && p(x, y + 2) == Flips(4, x, y + 2)
  {
    hide *;
    Thirds(x); Halves(y);
    PatternIs(x, y); PatternIs(x - x % 3, y - y % 2); PatternIs(x + 3, y); PatternIs(x, y + 2);
    BlockMask(x, y);
    BlocksIs(p, x, y); BlocksIs(PatternOf(4), x, y);
  }

  /** Remainders by 2 and by 3 together are the remainder by 6. */
  lemma BySix(t: nat)
    ensures t % 6 == 3 * (t % 2) + 4 * (t % 3) - 6 * ((3 * (t % 2) + 4 * (t % 3)) / 6)
    ensures (t % 2, t % 3) == (t % 6 % 2, t % 6 % 3)
  {
  }

  /** Masks 5 and 6 depend on the product of column and row modulo 6. */
  lemma Products(x: nat, y: nat)
    ensures Flips(5, x, y) <==> x * y % 6 == 0
    ensures Flips(6, x, y) <==> x * y % 6 < 3
  {
    BySix(x * y);
  }

  /** Mask 7 is mask 0 but where that product leaves 1 modulo 3. */
  lemma Mixed(x: nat, y: nat)
    ensures Flips(7, x, y) != Flips(0, x, y) <==> x * y % 3 == 1
  {
  }

  /** Four modules that tell the masks apart. */
  ghost predicate Told(m: nat)
    requires m < MASK_NUM
  {
    && (Flips(m, 0, 1) <==> m == 2 || m == 4 || m == 5 || m == 6)
    && (Flips(m, 0, 2) <==> m != 3 && m != 4)
    && (Flips(m, 1, 0) <==> m == 1 || m == 4 || m == 5 || m == 6)
    && (Flips(m, 1, 1) <==> m == 0 || m == 4 || m == 6)
  }

  lemma FirstFour()
    ensures MASK_NUM == 8 && Told(0) && Told(1) && Told(2) && Told(3)
    ensures Flips(0, 0, 0) && Flips(1, 0, 0) && Flips(2, 0, 0) && Flips(3, 0, 0)
  {
  }

  lemma MaskFour()
    ensures MASK_NUM == 8 && Told(4) && Flips(4, 0, 0)
  {
    hide Flips;
    AtOrigin(4);
    BlockMask(0, 0); BlockMask(0, 1); BlockMask(1, 0); BlockMask(1, 1);
  }

  lemma MasksFiveAndSix()
    ensures MASK_NUM == 8 && Told(5) && Flips(5, 0, 0) && Told(6) && Flips(6, 0, 0)
  {
    hide Flips;
    Products(0, 0); Products(0, 1); Products(0, 2); Products(1, 0); Products(1, 1);
  }

  lemma MaskSeven()
    ensures MASK_NUM == 8 && Told(7) && Flips(7, 0, 0)
  {
  }

  /** All masks agree at the origin, and no two are the same. */
  lemma MasksDiffer(m: nat, n: nat)
    requires m < n < MASK_NUM
    ensures MASK_NUM == 8 && Flips(m, 0, 0) && Flips(n, 0, 0)
    ensures exists x: nat, y: nat :: Flips(m, x, y) != Flips(n, x, y)
  {
    hide Flips;
    FirstFour(); MaskFour(); MasksFiveAndSix(); MaskSeven();
    assert Told(m) && Told(n);
    assert Flips(m, 1, 1) != Flips(n, 1, 1) || Flips(m, 1, 0) != Flips(n, 1, 0) || Flips(m, 0, 1) != Flips(n, 0, 1)
           || Flips(m, 0, 2) != Flips(n, 0, 2);
  }

  /** The masks of Micro QR are four of the eight. */
  lemma MicroMasks(m: nat, x: nat, y: nat)
    requires m < MICRO_MASK_NUM
    ensures MICRO_MASK_NUM == 4
    ensures MicroFlips(m, x, y) == Flips(if m == 0 then 1 else if m == 1 then 4 else if m == 2 then 6 else 7, x, y)
  {
    assert x * y % 3 + (x + y) % 2 == (x + y) % 2 + x * y % 3;
  }
}
