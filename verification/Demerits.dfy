/** What the demerit of a symbol means: laws of its parts, and the two directions count alike. */
module Demerits {
  import opened Arith
  import opened Bits
  import opened Counting
  import opened MaskChoice
  import opened MaskRuns
  import opened MaskScore
  import opened Snake

  // ---- blocks: three for each ----

  /** The module at column x, row y. */
  function ModuleAt(f: seq<byte>, w: nat, x: nat, y: nat): bool
    requires |f| == w * w && x < w && y < w
  {
    f[Index(w, x, y)] % 2 == 1
  }

  /** The module at column x, row y and the three to its upper left have one colour. */
  predicate OneColourAt(f: seq<byte>, w: nat, x: int, y: int) {
    && |f| == w * w && 1 <= x < w && 1 <= y < w
    && ModuleAt(f, w, x, y) == ModuleAt(f, w, x - 1, y) == ModuleAt(f, w, x, y - 1) == ModuleAt(f, w, x - 1, y - 1)
  }

  ghost function OneColourBlocks(f: seq<byte>, w: nat): region { (x: int, y: int) => OneColourAt(f, w, x, y) }

  lemma BlockHere(f: seq<byte>, w: nat, x: nat, y: nat)
    requires |f| == w * w && x < w && 1 <= y < w
    ensures w <= y * w && y * w + x < |f|
    ensures OneColourAt(f, w, x, y) <==> x >= 1 && SameBlock(f, w, y * w + x)
  {
    NextRow(w, y);
    MulMono(1, y, w);
    if x >= 1 {
      assert Index(w, x, y) == y * w + x && Index(w, x - 1, y) == y * w + x - 1;
      assert (y - 1) * w == y * w - w;
      assert Index(w, x, y - 1) == y * w + x - w && Index(w, x - 1, y - 1) == y * w + x - w - 1;
    }
  }

  lemma {:induction false} BlocksInRow(f: seq<byte>, w: nat, y: nat, n: nat)
    requires |f| == w * w && n <= w && 1 <= y < w
    ensures w <= y * w && y * w + n <= |f|
    ensures BlockPenalty(f, w, y * w + n) == BlockPenalty(f, w, y * w) + 3 * RowCount(OneColourBlocks(f, w), y, n)
  {
    hide *;
    NextRow(w, y);
    MulMono(1, y, w);
    NextInRow(f, w, y, n);
    if n > 0 {
      BlocksInRow(f, w, y, n - 1);
      BlockStep(f, w, y, n - 1);
      BlockHere(f, w, n - 1, y);
    }
  }

  lemma NextInRow(f: seq<byte>, w: nat, y: nat, n: nat)
    ensures N2 == 3
    ensures RowCount(OneColourBlocks(f, w), y, n)
            == if n == 0 then 0 else RowCount(OneColourBlocks(f, w), y, n - 1) + if OneColourAt(f, w, n - 1, y) then 1 else 0
  {
    hide OneColourAt;
  }

  lemma {:induction false} BlocksInRows(f: seq<byte>, w: nat, h: nat)
    requires |f| == w * w && 0 < h <= w
    ensures h * w <= |f|
    ensures BlockPenalty(f, w, h * w) == 3 * GridCount(OneColourBlocks(f, w), w, h)
  {
    hide *;
    MulMono(h, w, w);
    if h == 1 {
      FirstRow(f, w);
    } else {
      BlocksInRows(f, w, h - 1);
      BlocksInRow(f, w, h - 1, w);
      NextRow(w, h - 1);
      NextRowCount(OneColourBlocks(f, w), w, h);
    }
  }

  lemma NextRowCount(r: region, w: nat, h: nat)
    requires h > 0
    ensures GridCount(r, w, h) == GridCount(r, w, h - 1) + RowCount(r, h - 1, w)
  {
  }

  lemma FirstRow(f: seq<byte>, w: nat)
    requires |f| == w * w && w > 0
    ensures 1 * w <= |f| && BlockPenalty(f, w, 1 * w) == 0 && GridCount(OneColourBlocks(f, w), w, 1) == 0
  {
    NextRowCount(OneColourBlocks(f, w), w, 1);
    NoneInRow(OneColourBlocks(f, w), 0, w);
  }

  lemma {:induction false} NoneInRow(r: region, y: int, n: nat)
    requires forall x: nat | x < n :: !r(x, y)
    ensures RowCount(r, y, n) == 0
  {
    if n > 0 {
      NoneInRow(r, y, n - 1);
    }
  }

  /** Feature N2 is three times the number of blocks of one colour. */
  lemma ThreeForEachBlock(f: seq<byte>, w: nat)
    requires w > 0 && |f| == w * w
    ensures BlockPenalty(f, w, w * w) == 3 * GridCount(OneColourBlocks(f, w), w, w)
  {
    hide *;
    BlocksInRows(f, w, w);
  }

  // ---- a symbol and its transpose ----

  ghost predicate Transposes(g: seq<byte>, f: seq<byte>, w: nat) {
    && |f| == |g| == w * w
    && forall x: nat, y: nat | x < w && y < w :: g[Index(w, y, x)] == f[Index(w, x, y)]
  }

  /** Counting by rows is counting by columns. */
  lemma {:induction false} AddColumn(r: region, w: nat, h: nat)
    ensures GridCount(r, w + 1, h) == GridCount(r, w, h) + Count((y: int) => r(w, y), h)
  {
    if h > 0 {
      AddColumn(r, w, h - 1);
    }
  }

  lemma {:induction false} CountIsRow(r: region, p: places, y: int, n: nat)
    requires forall x: nat | x < n :: r(x, y) == p(x)
    ensures RowCount(r, y, n) == Count(p, n)
  {
    if n > 0 {
      CountIsRow(r, p, y, n - 1);
    }
  }

  lemma {:induction false} GridTransposed(r: region, t: region, w: nat, h: nat)
    requires forall x: nat, y: nat | x < w && y < h :: t(y, x) == r(x, y)
    ensures GridCount(t, h, w) == GridCount(r, w, h)
    decreases w
  {
    if w == 0 {
      NoColumns(r, h);
    } else {
      GridTransposed(r, t, w - 1, h);
      AddColumn(r, w - 1, h);
      CountIsRow(t, (y: int) => r(w - 1, y), w - 1, h);
    }
  }

  lemma {:induction false} NoColumns(r: region, h: nat)
    ensures GridCount(r, 0, h) == 0
  {
    if h > 0 {
      NoColumns(r, h - 1);
    }
  }

  lemma TransposedBlocks(g: seq<byte>, f: seq<byte>, w: nat)
    requires w > 0 && Transposes(g, f, w)
    ensures BlockPenalty(g, w, w * w) == BlockPenalty(f, w, w * w)
  {
    hide BlockPenalty; hide GridCount; hide Index;
    ThreeForEachBlock(f, w); ThreeForEachBlock(g, w);
    GridTransposed(OneColourBlocks(f, w), OneColourBlocks(g, w), w, w);
  }

  lemma LineModule(f: seq<byte>, w: nat, k: nat, i: nat)
    requires |f| == w * w && k < w && i < w
    ensures RowLine(f, w, k)[i] == ModuleAt(f, w, i, k) && ColumnLine(f, w, k)[i] == ModuleAt(f, w, k, i)
  {
    DivMod(w, k, 0);
    LineInside(w, k * w, 1);
    LineInside(w, k, w);
    LineAt(f, k * w, 1, w, i);
    LineAt(f, k, w, w, i);
  }

  lemma TransposedLines(g: seq<byte>, f: seq<byte>, w: nat, k: nat)
    requires Transposes(g, f, w) && k < w
    ensures RowLine(g, w, k) == ColumnLine(f, w, k) && ColumnLine(g, w, k) == RowLine(f, w, k)
  {
    hide RowLine; hide ColumnLine; hide Index;
    forall i | 0 <= i < w
      ensures RowLine(g, w, k)[i] == ColumnLine(f, w, k)[i] && ColumnLine(g, w, k)[i] == RowLine(f, w, k)[i]
    {
      LineModule(f, w, k, i); LineModule(g, w, k, i);
    }
  }

  lemma {:induction false} TransposedSums(g: seq<byte>, f: seq<byte>, w: nat, n: nat)
    requires Transposes(g, f, w) && n <= w
    ensures RowsPenalty(g, w, n) == ColumnsPenalty(f, w, n) && ColumnsPenalty(g, w, n) == RowsPenalty(f, w, n)
  {
    hide RowLine; hide ColumnLine; hide LinePenalty; hide Index;
    if n > 0 {
      TransposedSums(g, f, w, n - 1);
      TransposedLines(g, f, w, n - 1);
    }
  }

  /** A symbol and its transpose have the same demerit. */
  lemma DemeritTransposed(g: seq<byte>, f: seq<byte>, w: nat)
    requires w > 0 && Transposes(g, f, w)
    ensures SymbolPenalty(g, w) == SymbolPenalty(f, w)
  {
    hide BlockPenalty; hide RowsPenalty; hide ColumnsPenalty; hide Index;
    TransposedBlocks(g, f, w);
    TransposedSums(g, f, w, w);
  }

  // ---- every line counts ----

  lemma {:induction false} SumsCover(f: seq<byte>, w: nat, n: nat, k: nat)
    requires |f| == w * w && k < n <= w
    ensures RowsPenalty(f, w, n) >= LinePenalty(RowLine(f, w, k), w)
    ensures ColumnsPenalty(f, w, n) >= LinePenalty(ColumnLine(f, w, k), w)
  {
    hide RowLine; hide ColumnLine; hide LinePenalty;
    if k < n - 1 {
      SumsCover(f, w, n - 1, k);
    }
  }

  /** No row and no column costs more than the whole, and neither do one of each and the blocks together. */
  lemma EveryLineCounts(f: seq<byte>, w: nat, x: nat, y: nat)
    requires |f| == w * w && x < w && y < w
    ensures SymbolPenalty(f, w) >= BlockPenalty(f, w, w * w) + LinePenalty(RowLine(f, w, y), w)
                                   + LinePenalty(ColumnLine(f, w, x), w)
  {
    hide BlockPenalty; hide RowsPenalty; hide ColumnsPenalty; hide LinePenalty; hide RowLine; hide ColumnLine;
    SumsCover(f, w, w, x); SumsCover(f, w, w, y);
  }

  // ---- the score of a line, counted module by module ----

  /** Five modules of one colour from a on. */
  predicate FiveAlike(r: seq<bool>, a: int) {
    0 <= a && a + 5 <= |r| && r[a] == r[a + 1] == r[a + 2] == r[a + 3] == r[a + 4]
  }

  /** The first five modules of a run. */
  predicate RunOfFive(r: seq<bool>, a: int) {
    FiveAlike(r, a) && (a == 0 || r[a - 1] != r[a])
  }

  ghost predicate PatternAt(r: seq<bool>, a: int) { exists k: int :: Pattern(r, a, k) }

  ghost function Fives(r: seq<bool>): places { (a: int) => FiveAlike(r, a) }

  ghost function RunsOfFive(r: seq<bool>): places { (a: int) => RunOfFive(r, a) }

  ghost function Patterns(r: seq<bool>): places { (a: int) => PatternAt(r, a) }

  /** What the places before n score: one for five alike, two more where a run begins with them, forty for a pattern. */
  ghost function Scored(r: seq<bool>, n: nat): nat {
    Count(Fives(r), n) + 2 * Count(RunsOfFive(r), n) + 40 * Count(Patterns(r), n)
  }

  lemma NextScored(r: seq<bool>, n: nat)
    ensures Scored(r, 0) == 0
    ensures Scored(r, n + 1) == Scored(r, n) + (if FiveAlike(r, n) then 1 else 0) + (if RunOfFive(r, n) then 2 else 0)
                                + (if PatternAt(r, n) then 40 else 0)
  {
    hide FiveAlike; hide RunOfFive; hide PatternAt;
  }

  lemma FiveIsRun(r: seq<bool>, a: nat)
    requires a < |r|
    ensures FiveAlike(r, a) <==> RunLen(r, a) >= 5
  {
    hide RunLen;
    RunNext(r, a);
    if a + 1 < |r| { RunNext(r, a + 1); }
    if a + 2 < |r| { RunNext(r, a + 2); }
    if a + 3 < |r| { RunNext(r, a + 3); }
    if a + 4 < |r| { RunNext(r, a + 4); }
  }

  lemma RunNext(r: seq<bool>, a: nat)
    requires a < |r|
    ensures RunLen(r, a) >= 1
    ensures RunLen(r, a) == if a + 1 < |r| && r[a + 1] == r[a] then 1 + RunLen(r, a + 1) else 1
    ensures a + 1 < |r| && r[a + 1] == r[a] ==> RunLen(r, a + 1) >= 1
  {
  }

  lemma PatternStarts(r: seq<bool>, a: nat)
    requires PatternAt(r, a)
    ensures a < |r| && IsStart(r, a)
  {
    var k :| Pattern(r, a, k);
    assert Px(r, a);
    assert a > 0 ==> !Px(r, a - 1);
  }

  /** What the five-module windows from a on score before the next run starts. */
  ghost function Pending(r: seq<bool>, a: nat): nat {
    if a < |r| && !IsStart(r, a) && RunLen(r, a) >= 5 then RunLen(r, a) - 4 else 0
  }

  lemma NextPenalty(r: seq<bool>, a: nat)
    requires a < |r|
    ensures LinePenalty(r, a + 1)
            == LinePenalty(r, a)
               + if IsStart(r, a) then (if RunLen(r, a) >= 5 then RunLen(r, a) - 2 else 0) + (if PatternAt(r, a) then 40 else 0)
                 else 0
  {
    hide Pattern; hide RunLen; hide IsStart;
  }

  lemma PendingStep(r: seq<bool>, a: nat)
    requires a < |r|
    ensures RunLen(r, a) == if a + 1 < |r| && !IsStart(r, a + 1) then RunLen(r, a + 1) + 1 else 1
  {
  }

  lemma {:induction false} ScoresFrom(r: seq<bool>, a: nat)
    requires a <= |r|
    ensures LinePenalty(r, |r|) + Pending(r, a) + Scored(r, a) == LinePenalty(r, a) + Scored(r, |r|)
    decreases |r| - a
  {
    hide *;
    PendingIs(r, a);
    if a < |r| {
      ScoresFrom(r, a + 1);
      PendingIs(r, a + 1);
      NextScored(r, a); NextPenalty(r, a); PendingStep(r, a);
      FiveIsRun(r, a); RunOfFiveIs(r, a);
      if PatternAt(r, a) {
        PatternStarts(r, a);
      }
    }
  }

  lemma PendingIs(r: seq<bool>, a: nat)
    ensures Pending(r, a) == if a < |r| && !IsStart(r, a) && RunLen(r, a) >= 5 then RunLen(r, a) - 4 else 0
  {
    hide RunLen; hide IsStart;
  }

  lemma RunOfFiveIs(r: seq<bool>, a: nat)
    requires a < |r|
    ensures RunOfFive(r, a) <==> FiveAlike(r, a) && IsStart(r, a)
  {
    hide FiveAlike;
  }

  /** Features N1 and N3 of a line: no runs, only places. */
  lemma LineScore(r: seq<bool>)
    requires r != []
    ensures LinePenalty(r, |r|) == Count(Fives(r), |r|) + 2 * Count(RunsOfFive(r), |r|) + 40 * Count(Patterns(r), |r|)
  {
    hide *;
    ScoresFrom(r, 0);
    ScoresStart(r);
  }

  lemma ScoresStart(r: seq<bool>)
    requires r != []
    ensures Pending(r, 0) == 0 && Scored(r, 0) == 0 && LinePenalty(r, 0) == 0
    ensures Scored(r, |r|) == Count(Fives(r), |r|) + 2 * Count(RunsOfFive(r), |r|) + 40 * Count(Patterns(r), |r|)
  {
    NextScored(r, 0);
    hide Count; hide RunLen;
  }

  // ---- the balance of dark and light ----

  /** Ten for every full five per cent by which the share of dark modules is off one half. */
  lemma BalanceSteps(blacks: nat, w2: nat, k: nat)
    requires w2 > 0
    ensures BalancePenalty(blacks, w2) % 10 == 0
    ensures BalancePenalty(blacks, w2) >= 10 * k
            <==> 200 * blacks < (101 - 10 * k) * w2 || 200 * blacks >= (99 + 10 * k) * w2
  {
    var b := DarkPercent(blacks, w2);
    DarkPercentRounds(blacks, w2);
    hide DarkPercent;
    Off(b, k);
    if b >= 50 + 5 * k {
      MulMono(99 + 10 * k, 2 * b - 1, w2);
    } else {
      MulMono(2 * b + 1, 99 + 10 * k, w2);
    }
    if b <= 50 - 5 * k {
      MulMono(2 * b + 1, 101 - 10 * k, w2);
    } else if k <= 10 {
      MulMono(101 - 10 * k, 2 * b - 1, w2);
    } else {
      Negative(101 - 10 * k, w2);
    }
  }

  lemma Off(b: nat, k: nat)
    ensures var off := if b >= 50 then b - 50 else 50 - b;
            off / 5 * N4 >= 10 * k <==> b >= 50 + 5 * k || b <= 50 - 5 * k
    ensures var off := if b >= 50 then b - 50 else 50 - b; off / 5 * N4 % 10 == 0
  {
  }

  lemma Negative(a: int, n: nat)
    requires a < 0 && n > 0
    ensures a * n < 0
  {
  }
}
