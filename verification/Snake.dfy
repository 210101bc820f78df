/**
 The order in which section 6.7.3 of ISO/IEC 18004 fills a symbol: pairs of columns from the right,
 alternately upwards and downwards, right column first.
 */
module Snake {
  import opened Arith

  /** The place of column x, row y in a frame w modules wide. */
  function Index(w: nat, x: int, y: int): (i: nat)
    requires 0 <= x < w && 0 <= y < w
    ensures i < w * w
  {
    MulLess(y, w, w, x);
    y * w + x
  }

  lemma IndexInverse(w: nat, x: nat, y: nat)
    requires x < w && y < w
    ensures Index(w, x, y) / w == y && Index(w, x, y) % w == x
  {
    DivMod(w, y, x);
  }

  lemma IndexOf(w: nat, c: nat)
    requires c < w * w
    ensures w > 0 && c / w < w && Index(w, c % w, c / w) == c
  {
    Positive(w);
    DivLess(c, w, w);
    Quotient(c, w);
  }

  lemma Positive(w: nat)
    requires 0 < w * w
    ensures w > 0
  {
  }

  lemma IndexCorner(w: nat)
    requires w > 0
    ensures Index(w, w - 1, w - 1) == w * w - 1
  {
    assert (w - 1) * w == w * w - w;
  }

  /** Column pairs k = 0 .. Pairs - 1, each with steps s = 0 .. 2w - 1. */
  datatype Walk = Walk(w: nat, mqr: bool) {
    /** A QR symbol has a width of 4n + 1 and passes over column 6; a Micro QR symbol ends at column 1. */
    predicate Valid() {
      if mqr then w >= 3 && w % 2 == 1 else w >= 13 && w % 4 == 1
    }

    function Pairs(): nat
      requires w > 0
    {
      (w - 1) / 2
    }

    /** The right column of pair k. */
    function Right(k: nat): int {
      if mqr || w - 1 - 2 * k > 6 then w - 1 - 2 * k else w - 2 - 2 * k
    }

    function X(k: nat, s: nat): int { Right(k) - s % 2 }

    function Y(k: nat, s: nat): int { if k % 2 == 0 then w - 1 - s / 2 else s / 2 }

    predicate Inside(k: nat, s: nat)
      requires w > 0
    {
      k < Pairs() && s < 2 * w
    }

    /** The module at step s of pair k, as an index into the frame. */
    function Cell(k: nat, s: nat): (c: nat)
      requires Valid() && Inside(k, s)
      ensures c < w * w
    {
      InRange(this, k, s);
      Index(w, X(k, s), Y(k, s))
    }

    /** The modules not reserved from step s of pair k on. */
    function From(res: seq<bool>, k: nat, s: nat): seq<nat>
      requires Valid() && |res| == w * w
      decreases Pairs() - k, 2 * w - s
    {
      if k >= Pairs() then []
      else if s >= 2 * w then From(res, k + 1, 0)
      else (if res[Cell(k, s)] then [] else [Cell(k, s)]) + From(res, k, s + 1)
    }

    /** What a frame must reserve for the walk to be complete. */
    ghost predicate Layout(res: seq<bool>)
    {
      && Valid() && |res| == w * w
      && !res[w * w - 1]
      && (mqr ==> forall y :: 0 <= y < w ==> Reserved(res, 0, y))
      && (!mqr ==> forall y :: 0 <= y < w ==> Reserved(res, 6, y))
      && (!mqr ==> forall y :: 0 <= y < 9 ==> Reserved(res, 5, y) && Reserved(res, 4, y))
    }

    predicate Reserved(res: seq<bool>, x: nat, y: nat)
      requires |res| == w * w && x < w && y < w
    {
      res[Index(w, x, y)]
    }

    /** The pair and the step that reach column x, row y. */
    function PairOf(x: nat): int {
      if mqr || x > 6 then (w - 1 - x) / 2 else (w - 2 - x) / 2
    }

    function StepOf(x: nat, y: nat): int {
      var k := PairOf(x);
      (if k % 2 == 0 then 2 * (w - 1 - y) else 2 * y) + Right(if k >= 0 then k else 0) - x
    }
  }

  lemma InRange(t: Walk, k: nat, s: nat)
    requires t.Valid() && t.Inside(k, s)
    ensures 0 <= t.X(k, s) < t.w && 0 <= t.Y(k, s) < t.w
  {
  }

  /** A module determines its pair and step. */
  lemma RightPair(t: Walk, k: nat, b: nat)
    requires t.Valid() && k < t.Pairs() && b < 2
    ensures t.Right(k) - b >= 0 && t.PairOf(t.Right(k) - b) == k
    ensures t.Right(k) - b != if t.mqr then 0 else 6
  {
    OddWidth(t);
    if t.mqr || t.w - 1 - 2 * k > 6 {
      assert t.w - 1 - (t.Right(k) - b) == 2 * k + b;
    } else {
      assert t.w - 2 - (t.Right(k) - b) == 2 * k + b;
    }
  }

  lemma ColumnIs(t: Walk, k: nat, s: nat)
    requires t.Valid() && t.Inside(k, s)
    ensures k < t.Pairs() && t.X(k, s) == t.Right(k) - s % 2
  {
  }

  lemma StepBack(t: Walk, k: nat, s: nat)
    requires t.Valid() && t.Inside(k, s) && 0 <= t.X(k, s) && 0 <= t.Y(k, s) && t.PairOf(t.X(k, s)) == k
    ensures t.X(k, s) == t.Right(k) - s % 2
    ensures t.StepOf(t.X(k, s), t.Y(k, s)) == s
  {
    hide Walk.PairOf; hide Walk.Right; hide Walk.Valid; hide Walk.Inside; hide Walk.Pairs;
    assert s == s / 2 * 2 + s % 2;
  }

  lemma StepOfCell(t: Walk, k: nat, s: nat)
    requires t.Valid() && t.Inside(k, s)
    ensures 0 <= t.X(k, s) && 0 <= t.Y(k, s)
    ensures t.PairOf(t.X(k, s)) == k && t.StepOf(t.X(k, s), t.Y(k, s)) == s
    ensures t.X(k, s) != if t.mqr then 0 else 6
  {
    hide *;
    InRange(t, k, s);
    ColumnIs(t, k, s);
    RightPair(t, k, s % 2);
    StepBack(t, k, s);
  }

  lemma PairOfColumn(t: Walk, x: nat)
    requires t.Valid() && x < t.w && x != if t.mqr then 0 else 6
    ensures 0 <= t.PairOf(x) < t.Pairs() && 0 <= t.Right(t.PairOf(x)) - x <= 1
  {
    hide Walk.PairOf;
    OddWidth(t);
    PairIs(t, x);
    var d := if t.mqr || x > 6 then t.w - 1 - x else t.w - 2 - x;
    assert d == 2 * t.PairOf(x) + d % 2;
  }

  lemma OddWidth(t: Walk)
    requires t.Valid()
    ensures t.w == 2 * t.Pairs() + 1
  {
    if t.mqr {
      Halved(t.w, t.w / 2);
    } else {
      assert t.w == 2 * (2 * (t.w / 4)) + 1;
      Halved(t.w, 2 * (t.w / 4));
    }
  }

  lemma Halved(w: nat, h: nat)
    requires w == 2 * h + 1
    ensures w == 2 * ((w - 1) / 2) + 1
  {
  }

  lemma PairIs(t: Walk, x: nat)
    requires t.Valid() && x < t.w && x != if t.mqr then 0 else 6
    ensures t.PairOf(x) == (if t.mqr || x > 6 then t.w - 1 - x else t.w - 2 - x) / 2
  {
  }

  /** Every module outside the column that is passed over lies on the walk. */
  lemma CellOfStep(t: Walk, x: nat, y: nat)
    requires t.Valid() && x < t.w && y < t.w && x != if t.mqr then 0 else 6
    ensures t.PairOf(x) >= 0 && t.StepOf(x, y) >= 0
    ensures t.Inside(t.PairOf(x), t.StepOf(x, y))
    ensures t.X(t.PairOf(x), t.StepOf(x, y)) == x && t.Y(t.PairOf(x), t.StepOf(x, y)) == y
  {
    hide *;
    PairOfColumn(t, x);
    var k := t.PairOf(x);
    StepIs(t, x, y);
    var d, h := t.Right(k) - x, if k % 2 == 0 then t.w - 1 - y else y;
    assert (2 * h + d) / 2 == h && (2 * h + d) % 2 == d;
    PlaceOfStep(t, k, t.StepOf(x, y));
  }

  lemma StepIs(t: Walk, x: nat, y: nat)
    requires t.Valid() && t.PairOf(x) >= 0
    ensures t.StepOf(x, y)
            == 2 * (if t.PairOf(x) % 2 == 0 then t.w - 1 - y else y) + (t.Right(t.PairOf(x)) - x)
  {
    hide Walk.PairOf; hide Walk.Right;
  }

  lemma PlaceOfStep(t: Walk, k: nat, s: nat)
    requires t.Valid() && k < t.Pairs() && s < 2 * t.w
    ensures t.Inside(k, s)
    ensures t.X(k, s) == t.Right(k) - s % 2 && t.Y(k, s) == if k % 2 == 0 then t.w - 1 - s / 2 else s / 2
  {
    hide Walk.Right;
  }

  lemma CellsDiffer(t: Walk, k: nat, s: nat, k': nat, s': nat)
    requires t.Valid() && t.Inside(k, s) && t.Inside(k', s') && t.Cell(k, s) == t.Cell(k', s')
    ensures k == k' && s == s'
  {
    StepOfCell(t, k, s);
    StepOfCell(t, k', s');
    InRange(t, k, s);
    InRange(t, k', s');
    IndexInverse(t.w, t.X(k, s), t.Y(k, s));
    IndexInverse(t.w, t.X(k', s'), t.Y(k', s'));
    hide Index; hide Walk.PairOf; hide Walk.StepOf; hide Walk.X; hide Walk.Y;
  }

  ghost predicate Distinct(cells: seq<nat>) {
    forall i, j :: 0 <= i < j < |cells| ==> cells[i] != cells[j]
  }

  /** (k, s) comes no later than (k', s'). */
  ghost predicate Before(k: nat, s: nat, k': nat, s': nat) {
    k < k' || (k == k' && s <= s')
  }

  lemma {:induction false} FromContains(t: Walk, res: seq<bool>, k: nat, s: nat, k': nat, s': nat)
    requires t.Valid() && |res| == t.w * t.w && t.Inside(k', s') && Before(k, s, k', s')
    requires !res[t.Cell(k', s')]
    ensures t.Cell(k', s') in t.From(res, k, s)
    decreases t.Pairs() - k, 2 * t.w - s
  {
    hide Walk.Cell;
    if s >= 2 * t.w {
      FromContains(t, res, k + 1, 0, k', s');
    } else if k != k' || s != s' {
      FromContains(t, res, k, s + 1, k', s');
    }
  }

  lemma FromStep(t: Walk, res: seq<bool>, k: nat, s: nat)
    requires t.Valid() && |res| == t.w * t.w && t.Inside(k, s)
    ensures t.From(res, k, s) == (if res[t.Cell(k, s)] then [] else [t.Cell(k, s)]) + t.From(res, k, s + 1)
  {
  }

  lemma FromNext(t: Walk, res: seq<bool>, k: nat, s: nat)
    requires t.Valid() && |res| == t.w * t.w && !t.Inside(k, s)
    ensures t.From(res, k, s) == if k >= t.Pairs() then [] else t.From(res, k + 1, 0)
  {
  }

  lemma {:induction false} FromOnly(t: Walk, res: seq<bool>, k: nat, s: nat, c: nat) returns (k': nat, s': nat)
    requires t.Valid() && |res| == t.w * t.w && c in t.From(res, k, s)
    ensures t.Inside(k', s') && Before(k, s, k', s') && c == t.Cell(k', s') && !res[c]
    decreases t.Pairs() - k, 2 * t.w - s
  {
    hide Walk.Cell; hide Walk.From;
    if !t.Inside(k, s) {
      FromNext(t, res, k, s);
      k', s' := FromOnly(t, res, k + 1, 0, c);
    } else {
      FromStep(t, res, k, s);
      if c == t.Cell(k, s) && !res[c] {
        k', s' := k, s;
      } else {
        k', s' := FromOnly(t, res, k, s + 1, c);
      }
    }
  }

  lemma {:induction false} FromDistinct(t: Walk, res: seq<bool>, k: nat, s: nat)
    requires t.Valid() && |res| == t.w * t.w
    ensures Distinct(t.From(res, k, s))
    decreases t.Pairs() - k, 2 * t.w - s
  {
    hide Walk.Cell; hide Walk.From; hide Distinct;
    if !t.Inside(k, s) {
      FromNext(t, res, k, s);
      if k < t.Pairs() {
        FromDistinct(t, res, k + 1, 0);
      } else {
        DistinctNil();
      }
    } else {
      FromStep(t, res, k, s);
      FromDistinct(t, res, k, s + 1);
      var c, rest := t.Cell(k, s), t.From(res, k, s + 1);
      if c in rest {
        var k', s' := FromOnly(t, res, k, s + 1, c);
        CellsDiffer(t, k, s, k', s');
      }
      DistinctCons(c, rest);
      assert [] + rest == rest;
    }
  }

  lemma DistinctNil()
    ensures Distinct([])
  {
  }

  lemma DistinctCons(c: nat, rest: seq<nat>)
    requires Distinct(rest) && c !in rest
    ensures Distinct([c] + rest)
  {
  }

  /** The walk visits every free module exactly once. */
  lemma WalkIsComplete(t: Walk, res: seq<bool>)
    requires t.Layout(res)
    ensures Distinct(t.From(res, 0, 0))
    ensures forall c :: 0 <= c < t.w * t.w ==> (c in t.From(res, 0, 0) <==> !res[c])
  {
    FromDistinct(t, res, 0, 0);
    hide Walk.From;
    forall c | 0 <= c < t.w * t.w ensures c in t.From(res, 0, 0) <==> !res[c] {
      if c in t.From(res, 0, 0) {
        var k, s := FromOnly(t, res, 0, 0, c);
      }
      if !res[c] {
        FreeOnWalk(t, res, c);
      }
    }
  }

  lemma NotPassedOver(t: Walk, res: seq<bool>, x: nat, y: nat)
    requires t.Layout(res) && x < t.w && y < t.w && !res[Index(t.w, x, y)]
    ensures t.Valid() && x != if t.mqr then 0 else 6
  {
    hide Index;
    assert !t.Reserved(res, x, y);
  }

  lemma FreeOnWalk(t: Walk, res: seq<bool>, c: nat)
    requires t.Layout(res) && c < t.w * t.w && !res[c]
    ensures c in t.From(res, 0, 0)
  {
    hide *;
    IndexOf(t.w, c);
    var x, y := c % t.w, c / t.w;
    NotPassedOver(t, res, x, y);
    CellOfStep(t, x, y);
    var k, s := t.PairOf(x), t.StepOf(x, y);
    CellIs(t, k, s);
    LayoutSize(t, res);
    AfterStart(k, s);
    FromContains(t, res, 0, 0, k, s);
  }

  lemma CellIs(t: Walk, k: nat, s: nat)
    requires t.Valid() && t.Inside(k, s)
    ensures 0 <= t.X(k, s) < t.w && 0 <= t.Y(k, s) < t.w && t.Cell(k, s) == Index(t.w, t.X(k, s), t.Y(k, s))
  {
    InRange(t, k, s);
    hide Index; hide Walk.X; hide Walk.Y; hide Walk.Valid; hide Walk.Inside;
  }

  lemma LayoutSize(t: Walk, res: seq<bool>)
    requires t.Layout(res)
    ensures t.Valid() && |res| == t.w * t.w
  {
  }

  lemma AfterStart(k: nat, s: nat)
    ensures Before(0, 0, k, s)
  {
  }

  lemma FirstCell(t: Walk)
    requires t.Valid()
    ensures t.Cell(0, 0) == t.w * t.w - 1
  {
    IndexCorner(t.w);
    hide Index;
    assert t.X(0, 0) == t.w - 1 && t.Y(0, 0) == t.w - 1;
  }

  /** The walk starts in the lower right corner. */
  lemma WalkStart(t: Walk, res: seq<bool>)
    requires t.Layout(res)
    ensures t.From(res, 0, 0) == [t.w * t.w - 1] + t.From(res, 0, 1)
  {
    assert t.Valid() && |res| == t.w * t.w && !res[t.w * t.w - 1];
    hide Walk.Layout; hide Walk.Cell; hide Walk.From;
    FirstCell(t);
    FromStep(t, res, 0, 0);
  }

  /** Below the pair's first eighteen steps nothing is free in the columns beside the timing pattern. */
  lemma {:induction false} SkipCorner(t: Walk, res: seq<bool>, k: nat, s: nat)
    requires t.Layout(res) && !t.mqr && k < t.Pairs() && t.Right(k) == 5 && s <= 18
    ensures t.From(res, k, s) == t.From(res, k, 18)
    decreases 18 - s
  {
    hide *;
    if s < 18 {
      LayoutSize(t, res);
      Wide(t);
      SkipCorner(t, res, k, s + 1);
      CornerReserved(t, res, k, s);
      FromStep(t, res, k, s);
      assert [] + t.From(res, k, s + 1) == t.From(res, k, s + 1);
    }
  }

  lemma Wide(t: Walk)
    requires t.Valid() && !t.mqr
    ensures forall k: nat, s: nat | k < t.Pairs() && s < 18 :: t.Inside(k, s)
  {
  }

  lemma CornerReserved(t: Walk, res: seq<bool>, k: nat, s: nat)
    requires t.Layout(res) && !t.mqr && k < t.Pairs() && t.Right(k) == 5 && s < 18
    ensures res[t.Cell(k, s)]
  {
    InRange(t, k, s);
    assert k % 2 == 1;
    assert t.Reserved(res, t.X(k, s), t.Y(k, s));
  }
}
