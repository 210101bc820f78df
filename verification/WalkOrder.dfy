/** The order of the walk: section 6.7.3 of ISO/IEC 18004, in terms of columns and rows only. */
module WalkOrder {
  import opened Arith
  import opened Snake

  /** How many columns lie to the right of column x; column 6 of a QR symbol does not count. */
  function ColumnsRight(t: Walk, x: nat): int {
    t.w - 1 - x - if !t.mqr && x < 6 then 1 else 0
  }

  /** Pairs of columns from the right, upwards and downwards in turn, the right module of a row first. */
  predicate Precedes(t: Walk, x: nat, y: nat, x': nat, y': nat) {
    var k, k' := ColumnsRight(t, x) / 2, ColumnsRight(t, x') / 2;
    || k < k'
    || (k == k' && if y != y' then (if k % 2 == 0 then y > y' else y < y') else x > x')
  }

  predicate CellPrecedes(t: Walk, c: nat, d: nat)
    requires t.w > 0
  {
    Precedes(t, c % t.w, c / t.w, d % t.w, d / t.w)
  }

  lemma ColumnOfStep(t: Walk, k: nat, s: nat)
    requires t.Valid() && t.Inside(k, s)
    ensures 0 <= t.X(k, s) < t.w && 0 <= t.Y(k, s) < t.w
    ensures ColumnsRight(t, t.X(k, s)) == 2 * k + s % 2
    ensures t.Cell(k, s) % t.w == t.X(k, s) && t.Cell(k, s) / t.w == t.Y(k, s)
  {
    hide *;
    InRange(t, k, s);
    IndexInverse(t.w, t.X(k, s), t.Y(k, s));
    CellIsIndex(t, k, s);
    ColumnsOf(t, k, s % 2);
  }

  lemma CellIsIndex(t: Walk, k: nat, s: nat)
    requires t.Valid() && t.Inside(k, s)
    ensures 0 <= t.X(k, s) < t.w && 0 <= t.Y(k, s) < t.w && t.Cell(k, s) == Index(t.w, t.X(k, s), t.Y(k, s))
    ensures k < t.Pairs() && t.X(k, s) == t.Right(k) - s % 2
  {
    InRange(t, k, s);
    hide Index; hide Walk.Right; hide Walk.Y;
  }

  lemma ColumnsOf(t: Walk, k: nat, b: nat)
    requires t.Valid() && k < t.Pairs() && b < 2 && t.Right(k) - b >= 0
    ensures ColumnsRight(t, t.Right(k) - b) == 2 * k + b
  {
    hide *;
    var h := OddIs(t, k);
    RightIs(t, k);
    ColumnsRightIs(t, t.Right(k) - b);
  }

  lemma OddIs(t: Walk, k: nat) returns (h: nat)
    requires t.Valid() && k < t.Pairs()
    ensures t.w == 2 * h + 1 && k < h
  {
    h := t.w / 2;
  }

  lemma RightIs(t: Walk, k: nat)
    ensures t.Right(k) == if t.mqr || t.w - 1 - 2 * k > 6 then t.w - 1 - 2 * k else t.w - 2 - 2 * k
  {
  }

  lemma ColumnsRightIs(t: Walk, x: nat)
    ensures ColumnsRight(t, x) == t.w - 1 - x - if !t.mqr && x < 6 then 1 else 0
  {
  }

  lemma StepPrecedes(t: Walk, k: nat, s: nat, k': nat, s': nat)
    requires t.Valid() && t.Inside(k, s) && t.Inside(k', s') && Before(k, s + 1, k', s')
    ensures t.w > 0 && CellPrecedes(t, t.Cell(k, s), t.Cell(k', s'))
  {
    hide *;
    StepFacts(t, k, s, k', s');
    ColumnOfStep(t, k, s); ColumnOfStep(t, k', s');
    HalfOf(k, s % 2); HalfOf(k', s' % 2);
    var x, y, x', y' := t.X(k, s), t.Y(k, s), t.X(k', s'), t.Y(k', s');
    PrecedesIs(t, x, y, x', y');
    CellPrecedesIs(t, t.Cell(k, s), t.Cell(k', s'));
  }

  lemma StepFacts(t: Walk, k: nat, s: nat, k': nat, s': nat)
    requires t.Valid() && t.Inside(k, s) && t.Inside(k', s') && Before(k, s + 1, k', s')
    ensures t.w > 0 && (k < k' || (k == k' && s < s'))
    ensures k == k' && s / 2 == s' / 2 ==> s % 2 < s' % 2 && t.X(k, s) > t.X(k', s') && t.Y(k, s) == t.Y(k', s')
    ensures k == k' && s / 2 != s' / 2 ==> if k % 2 == 0 then t.Y(k, s) > t.Y(k', s') else t.Y(k, s) < t.Y(k', s')
  {
    hide Walk.Right;
  }

  lemma HalfOf(k: nat, b: nat)
    requires b < 2
    ensures (2 * k + b) / 2 == k
  {
  }

  lemma PrecedesIs(t: Walk, x: nat, y: nat, x': nat, y': nat)
    ensures var k, k' := ColumnsRight(t, x) / 2, ColumnsRight(t, x') / 2;
            Precedes(t, x, y, x', y')
            <==> k < k' || (k == k' && if y != y' then (if k % 2 == 0 then y > y' else y < y') else x > x')
  {
    hide ColumnsRight;
  }

  lemma CellPrecedesIs(t: Walk, c: nat, d: nat)
    requires t.w > 0
    ensures CellPrecedes(t, c, d) <==> Precedes(t, c % t.w, c / t.w, d % t.w, d / t.w)
  {
    hide Precedes;
  }

  ghost predicate InOrder(t: Walk, cells: seq<nat>)
    requires t.w > 0
  {
    forall i: nat, j: nat | i < j < |cells| :: CellPrecedes(t, cells[i], cells[j])
  }

  lemma {:induction false} FromInOrder(t: Walk, res: seq<bool>, k: nat, s: nat)
    requires t.Valid() && |res| == t.w * t.w
    ensures t.w > 0 && InOrder(t, t.From(res, k, s))
    decreases t.Pairs() - k, 2 * t.w - s
  {
    hide *;
    Wide(t);
    InsideIs(t, k, s);
    if !t.Inside(k, s) {
      FromNext(t, res, k, s);
      if k < t.Pairs() {
        FromInOrder(t, res, k + 1, 0);
      } else {
        InOrderNil(t);
      }
    } else {
      FromStep(t, res, k, s);
      FromInOrder(t, res, k, s + 1);
      var c, rest := t.Cell(k, s), t.From(res, k, s + 1);
      forall d | d in rest ensures CellPrecedes(t, c, d) {
        var k', s' := FromOnly(t, res, k, s + 1, d);
        StepPrecedes(t, k, s, k', s');
      }
      assert [] + rest == rest;
      InOrderCons(t, c, rest);
    }
  }

  lemma InOrderCons(t: Walk, c: nat, rest: seq<nat>)
    requires t.w > 0 && InOrder(t, rest) && forall d | d in rest :: CellPrecedes(t, c, d)
    ensures InOrder(t, [c] + rest)
  {
    hide CellPrecedes;
  }

  lemma InOrderNil(t: Walk)
    requires t.w > 0
    ensures InOrder(t, [])
  {
  }

  lemma InsideIs(t: Walk, k: nat, s: nat)
    requires t.Valid() && t.w > 0
    ensures t.Inside(k, s) <==> k < t.Pairs() && s < 2 * t.w
  {
    hide Walk.Pairs;
  }

  lemma Wide(t: Walk)
    requires t.Valid()
    ensures t.w > 0
  {
  }

  /** Every module of the walk comes in that order before those that follow it. */
  lemma WalkInOrder(t: Walk, res: seq<bool>)
    requires t.Layout(res)
    ensures t.w > 0 && InOrder(t, t.From(res, 0, 0))
  {
    LayoutSize(t, res);
    FromInOrder(t, res, 0, 0);
  }

  /** The order is total: of two different modules exactly one precedes the other. */
  lemma OneFirst(t: Walk, c: nat, d: nat)
    requires t.w > 0 && c != d && c < t.w * t.w && d < t.w * t.w
    requires !t.mqr ==> c % t.w != 6 && d % t.w != 6
    ensures CellPrecedes(t, c, d) != CellPrecedes(t, d, c)
  {
    Quotient(c, t.w); Quotient(d, t.w);
    assert c % t.w != d % t.w || c / t.w != d / t.w;
  }
}
