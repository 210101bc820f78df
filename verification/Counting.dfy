/** Counting the places of a line or of a grid that satisfy a condition. */
module Counting {
  import opened Arith
  import opened Snake

  type region = (int, int) -> bool

  type places = int -> bool

  /** How many of the first n places. */
  ghost function Count(p: places, n: nat): nat {
    if n == 0 then 0 else Count(p, n - 1) + if p(n - 1) then 1 else 0
  }

  /** How many of the first n modules of row y. */
  ghost function RowCount(r: region, y: int, n: nat): nat {
    if n == 0 then 0 else RowCount(r, y, n - 1) + if r(n - 1, y) then 1 else 0
  }

  /** How many modules of the first h rows of width w. */
  ghost function GridCount(r: region, w: nat, h: nat): nat {
    if h == 0 then 0 else GridCount(r, w, h - 1) + RowCount(r, h - 1, w)
  }

  // ---- lines ----

  lemma {:induction false} CountSplit(p: places, q: places, s: places, n: nat)
    requires forall x: nat | x < n :: p(x) == (q(x) || s(x)) && !(q(x) && s(x))
    ensures Count(p, n) == Count(q, n) + Count(s, n)
  {
    if n > 0 {
      CountSplit(p, q, s, n - 1);
    }
  }

  lemma {:induction false} CountInterval(p: places, lo: nat, hi: nat, n: nat)
    requires lo <= hi
    requires forall x: nat | x < n :: p(x) == (lo <= x < hi)
    ensures Count(p, n) == if n <= lo then 0 else if n <= hi then n - lo else hi - lo
  {
    if n > 0 {
      CountInterval(p, lo, hi, n - 1);
    }
  }

  // ---- grids ----

  function One(b: bool): nat { if b then 1 else 0 }

  /** Every place of r is in exactly one of nine parts, and no other place is in any. */
  ghost predicate Parts(r: region, a: region, b: region, c: region, d: region, e: region, f: region, g: region, h: region,
                        i: region, x: int, y: int) {
    One(r(x, y)) == One(a(x, y)) + One(b(x, y)) + One(c(x, y)) + One(d(x, y)) + One(e(x, y)) + One(f(x, y)) + One(g(x, y))
                    + One(h(x, y)) + One(i(x, y))
  }

  lemma {:induction false} RowParts(r: region, a: region, b: region, c: region, d: region, e: region, f: region, g: region,
                                    h: region, i: region, y: int, n: nat)
    requires forall x: nat | x < n :: Parts(r, a, b, c, d, e, f, g, h, i, x, y)
    ensures RowCount(r, y, n)
            == RowCount(a, y, n) + RowCount(b, y, n) + RowCount(c, y, n) + RowCount(d, y, n) + RowCount(e, y, n)
               + RowCount(f, y, n) + RowCount(g, y, n) + RowCount(h, y, n) + RowCount(i, y, n)
  {
    if n > 0 {
      RowParts(r, a, b, c, d, e, f, g, h, i, y, n - 1);
      assert Parts(r, a, b, c, d, e, f, g, h, i, n - 1, y);
    }
  }

  lemma {:induction false} GridParts(r: region, a: region, b: region, c: region, d: region, e: region, f: region, g: region,
                                     h: region, i: region, w: nat, n: nat)
    requires forall x: nat, y: nat | x < w && y < n :: Parts(r, a, b, c, d, e, f, g, h, i, x, y)
    ensures GridCount(r, w, n)
            == GridCount(a, w, n) + GridCount(b, w, n) + GridCount(c, w, n) + GridCount(d, w, n) + GridCount(e, w, n)
               + GridCount(f, w, n) + GridCount(g, w, n) + GridCount(h, w, n) + GridCount(i, w, n)
  {
    if n > 0 {
      GridParts(r, a, b, c, d, e, f, g, h, i, w, n - 1);
      RowParts(r, a, b, c, d, e, f, g, h, i, n - 1, w);
    }
  }

  lemma {:induction false} RowProduct(r: region, p: places, on: bool, y: int, n: nat)
    requires forall x: nat | x < n :: r(x, y) == (p(x) && on)
    ensures RowCount(r, y, n) == if on then Count(p, n) else 0
  {
    if n > 0 {
      RowProduct(r, p, on, y, n - 1);
    }
  }

  ghost function Product(p: places, q: places): region { (x: int, y: int) => p(x) && q(y) }

  /** Where columns p and rows q cross. */
  lemma {:induction false} GridProduct(p: places, q: places, w: nat, h: nat)
    ensures GridCount(Product(p, q), w, h) == Count(p, w) * Count(q, h)
  {
    if h > 0 {
      GridProduct(p, q, w, h - 1);
      RowProduct(Product(p, q), p, q(h - 1), h - 1, w);
      var a, b := Count(p, w), Count(q, h - 1);
      assert a * (b + 1) == a * b + a;
    }
  }

  // ---- grids as sequences ----

  function Trues(m: seq<bool>): nat {
    if m == [] then 0 else Trues(m[..|m| - 1]) + if m[|m| - 1] then 1 else 0
  }

  lemma {:induction false} TruesConcat(a: seq<bool>, b: seq<bool>)
    ensures Trues(a + b) == Trues(a) + Trues(b)
  {
    if b == [] {
      assert a + b == a;
    } else {
      TruesConcat(a, b[..|b| - 1]);
      assert (a + b)[..|a + b| - 1] == a + b[..|b| - 1];
    }
  }

  lemma {:induction false} RowTrues(m: seq<bool>, r: region, y: int)
    requires forall x: nat | x < |m| :: m[x] == r(x, y)
    ensures Trues(m) == RowCount(r, y, |m|)
  {
    if m != [] {
      RowTrues(m[..|m| - 1], r, y);
    }
  }

  ghost predicate Maps(m: seq<bool>, r: region, w: nat, h: nat) {
    && |m| == w * h
    && forall x: nat, y: nat | x < w && y < h :: At(m, w, x, y) == r(x, y)
  }

  predicate At(m: seq<bool>, w: nat, x: nat, y: nat) {
    y * w + x < |m| && m[y * w + x]
  }

  /** The true entries of a map of w columns and h rows that shows r. */
  lemma {:induction false} GridTrues(m: seq<bool>, r: region, w: nat, h: nat)
    requires Maps(m, r, w, h)
    ensures Trues(m) == GridCount(r, w, h)
    decreases h
  {
    if h > 0 {
      var front, last := LastRow(m, r, w, h);
      GridTrues(front, r, w, h - 1);
      RowTrues(last, r, h - 1);
      TruesConcat(front, last);
    }
  }

  lemma LastRow(m: seq<bool>, r: region, w: nat, h: nat) returns (front: seq<bool>, last: seq<bool>)
    requires Maps(m, r, w, h) && h > 0
    ensures m == front + last && |last| == w && Maps(front, r, w, h - 1)
    ensures forall x: nat | x < w :: last[x] == r(x, h - 1)
  {
    var n := w * (h - 1);
    assert w * h == n + w;
    front, last := m[..n], m[n..];
    forall x: nat, y: nat | x < w && y < h - 1 ensures At(front, w, x, y) == r(x, y) {
      MulLess(y, h - 1, w, x);
      assert At(m, w, x, y) == r(x, y) && (h - 1) * w == n;
    }
    forall x: nat | x < w ensures last[x] == r(x, h - 1) {
      assert At(m, w, x, h - 1) == r(x, h - 1) && (h - 1) * w == n;
    }
  }

  // ---- the walk is as long as there are free modules ----

  function Falses(m: seq<bool>): nat {
    if m == [] then 0 else Falses(m[..|m| - 1]) + if m[|m| - 1] then 0 else 1
  }

  lemma {:induction false} TruesAndFalses(m: seq<bool>)
    ensures Trues(m) + Falses(m) == |m|
  {
    if m != [] {
      TruesAndFalses(m[..|m| - 1]);
    }
  }

  /** A list without repetition of all the false places. */
  lemma {:induction false} ListOfFalses(cells: seq<nat>, m: seq<bool>)
    requires Distinct(cells) && forall c: nat :: c in cells <==> c < |m| && !m[c]
    ensures |cells| == Falses(m)
  {
    if cells != [] {
      assert cells[0] in cells;
    }
    if m != [] {
      var n := |m| - 1;
      if m[n] {
        ListOfFalses(cells, m[..n]);
      } else {
        assert n in cells;
        var i :| 0 <= i < |cells| && cells[i] == n;
        var fewer := cells[..i] + cells[i + 1..];
        WithoutPlace(cells, i);
        ListOfFalses(fewer, m[..n]);
      }
    }
  }

  lemma WithoutPlace(cells: seq<nat>, i: nat)
    requires Distinct(cells) && i < |cells|
    ensures var fewer := cells[..i] + cells[i + 1..];
            && |fewer| == |cells| - 1 && Distinct(fewer)
            && forall c: nat :: c in fewer <==> c in cells && c != cells[i]
  {
    var fewer := cells[..i] + cells[i + 1..];
    forall c: nat | c in cells && c != cells[i] ensures c in fewer {
      var j :| 0 <= j < |cells| && cells[j] == c;
      assert fewer[if j < i then j else j - 1] == c;
    }
    forall c: nat | c in fewer ensures c in cells && c != cells[i] {
      var j :| 0 <= j < |fewer| && fewer[j] == c;
      assert cells[if j < i then j else j + 1] == c;
    }
  }
}
