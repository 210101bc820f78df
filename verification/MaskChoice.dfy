/** Mask_evaluateSymbol and Mask_mask: the demerit of a finished symbol and the choice of the mask. */
module MaskChoice {
  import opened Arith
  import opened Bits
  import opened Format
  import opened Frames
  import opened Mask
  import opened MaskRuns
  import opened MaskScore
  import opened Reader

  const N2 := 3
  const N4 := 10
  const QRSPEC_WIDTH_MAX := 177
  const INT_MAX := 0x7fff_ffff

  // ---- feature N2: blocks of 2 by 2 modules of one colour ----

  /** The module at i and those to its left, above it, and above to the left have one colour. */
  predicate SameBlock(f: seq<byte>, w: nat, i: nat)
    requires w < i < |f|
  {
    f[i] % 2 == f[i - 1] % 2 == f[i - w] % 2 == f[i - w - 1] % 2
  }

  /** The penalty for the blocks whose lower right module lies before place n. */
  function BlockPenalty(f: seq<byte>, w: nat, n: nat): nat
    requires 0 < w && n <= |f|
  {
    if n <= w + 1 then 0
    else BlockPenalty(f, w, n - 1) + if Col(w, n - 1) >= 1 && SameBlock(f, w, n - 1) then N2 else 0
  }

  /** Mask_calcN2. */
  method CalcN2(width: nat, frame: array<byte>) returns (demerit: nat)
    requires width > 0 && frame.Length == width * width
    ensures demerit == BlockPenalty(frame[..], width, width * width)
  {
    hide SameBlock;
    demerit := 0;
    assert width <= width * width;
    assert BlockPenalty(frame[..], width, 1 * width) == 0;
    hide BlockPenalty;
    var p := width + 1;
    for y := 1 to width
      invariant p == y * width + 1 && y * width <= width * width
      invariant demerit == BlockPenalty(frame[..], width, y * width)
    {
      NextRow(width, y);
      var more := RowN2(width, frame, y, p);
      demerit := demerit + more;
      p := p + (width - 1);
      p := p + 1;
    }
  }

  lemma NextRow(w: nat, y: nat)
    requires y < w
    ensures (y + 1) * w == y * w + w <= w * w
  {
    MulMono(y + 1, w, w);
  }

  /** The inner loop, for one row. */
  method RowN2(width: nat, frame: array<byte>, y: nat, start: nat) returns (demerit: nat)
    requires 1 <= y < width && frame.Length == width * width && start == y * width + 1
    requires (y + 1) * width == y * width + width <= width * width
    ensures BlockPenalty(frame[..], width, (y + 1) * width) == BlockPenalty(frame[..], width, y * width) + demerit
  {
    hide *;
    ghost var f := frame[..];
    BlockStep(f, width, y, 0);
    var p := start;
    demerit := 0;
    for x := 1 to width
      invariant p == y * width + x
      invariant BlockPenalty(f, width, p) == BlockPenalty(f, width, y * width) + demerit
    {
      BlockStep(f, width, y, x);
      OneColour(f, width, p);
      var b22 := frame[p] % 2 == 1 && frame[p - 1] % 2 == 1 && frame[p - width] % 2 == 1 && frame[p - width - 1] % 2 == 1;
      var w22 := frame[p] % 2 == 1 || frame[p - 1] % 2 == 1 || frame[p - width] % 2 == 1 || frame[p - width - 1] % 2 == 1;
      if b22 || !w22 {
        demerit := demerit + N2;
      }
      p := p + 1;
    }
  }

  lemma OneColour(f: seq<byte>, w: nat, p: nat)
    requires w < p < |f|
    ensures N2 == 3
    ensures SameBlock(f, w, p)
            <==> (f[p] % 2 == 1 && f[p - 1] % 2 == 1 && f[p - w] % 2 == 1 && f[p - w - 1] % 2 == 1)
                 || !(f[p] % 2 == 1 || f[p - 1] % 2 == 1 || f[p - w] % 2 == 1 || f[p - w - 1] % 2 == 1)
  {
  }

  lemma BlockStep(f: seq<byte>, w: nat, y: nat, x: nat)
    requires 1 <= y < w && x < w && |f| == w * w
    ensures w <= y * w && y * w + x < |f|
    ensures BlockPenalty(f, w, y * w + x + 1)
            == BlockPenalty(f, w, y * w + x) + if x >= 1 && SameBlock(f, w, y * w + x) then N2 else 0
  {
    NextRow(w, y);
    MulMono(1, y, w);
    ColRow(w, x, y);
    hide Col; hide SameBlock;
  }

  // ---- the demerit of a symbol ----

  lemma LineInside(w: nat, p: nat, step: nat)
    requires w > 0 && ((p % w == 0 && p / w < w && step == 1) || (p < w && step == w))
    ensures forall i :: 0 <= i < w ==> At(p, step, i) < w * w
  {
    forall i | 0 <= i < w ensures At(p, step, i) < w * w {
      if step == 1 && p % w == 0 && p / w < w {
        Quotient(p, w);
        MulLess(p / w, w, w, i);
      } else {
        MulLess(i, w, w, p);
      }
    }
  }

  /** Row y, and column x. */
  function RowLine(f: seq<byte>, w: nat, y: nat): (r: seq<bool>)
    requires |f| == w * w && y < w
    ensures |r| == w
  {
    DivMod(w, y, 0);
    LineInside(w, y * w, 1);
    Line(f, y * w, 1, w)
  }

  function ColumnLine(f: seq<byte>, w: nat, x: nat): (r: seq<bool>)
    requires |f| == w * w && x < w
    ensures |r| == w
  {
    LineInside(w, x, w);
    Line(f, x, w, w)
  }

  ghost function RowsPenalty(f: seq<byte>, w: nat, n: nat): nat
    requires |f| == w * w && n <= w
  {
    if n == 0 then 0 else RowsPenalty(f, w, n - 1) + LinePenalty(RowLine(f, w, n - 1), w)
  }

  ghost function ColumnsPenalty(f: seq<byte>, w: nat, n: nat): nat
    requires |f| == w * w && n <= w
  {
    if n == 0 then 0 else ColumnsPenalty(f, w, n - 1) + LinePenalty(ColumnLine(f, w, n - 1), w)
  }

  /** Features N1, N2 and N3 of a whole symbol. */
  ghost function SymbolPenalty(f: seq<byte>, w: nat): nat
    requires w > 0 && |f| == w * w
  {
    BlockPenalty(f, w, w * w) + RowsPenalty(f, w, w) + ColumnsPenalty(f, w, w)
  }

  /** Mask_evaluateSymbol. */
  method EvaluateSymbol(width: nat, frame: array<byte>) returns (demerit: nat)
    requires 0 < width <= QRSPEC_WIDTH_MAX && frame.Length == width * width
    ensures demerit == SymbolPenalty(frame[..], width)
  {
    hide LinePenalty; hide BlockPenalty; hide RowLine; hide ColumnLine;
    ghost var f := frame[..];
    var runLength := new int[QRSPEC_WIDTH_MAX + 1](_ => 0);
    demerit := CalcN2(width, frame);
    ghost var n2 := demerit;
    for y := 0 to width
      invariant demerit == n2 + RowsPenalty(f, width, y)
    {
      var d := EvaluateRow(width, frame, y, runLength);
      demerit := demerit + d;
    }
    ghost var rows := demerit;
    for x := 0 to width
      invariant demerit == rows + ColumnsPenalty(f, width, x)
    {
      var d := EvaluateColumn(width, frame, x, runLength);
      demerit := demerit + d;
    }
  }

  method EvaluateRow(width: nat, frame: array<byte>, y: nat, runLength: array<int>) returns (demerit: nat)
    requires 0 < width <= QRSPEC_WIDTH_MAX && frame.Length == width * width && y < width
    requires runLength.Length == QRSPEC_WIDTH_MAX + 1
    modifies runLength
    ensures demerit == LinePenalty(RowLine(frame[..], width, y), width)
  {
    hide LinePenalty; hide Decomposes;
    DivMod(width, y, 0);
    LineInside(width, y * width, 1);
    hide Line;
    var length := CalcRunLength(width, frame, y * width, 1, runLength);
    demerit := CalcN1N3(length, runLength, RowLine(frame[..], width, y));
  }

  method EvaluateColumn(width: nat, frame: array<byte>, x: nat, runLength: array<int>) returns (demerit: nat)
    requires 0 < width <= QRSPEC_WIDTH_MAX && frame.Length == width * width && x < width
    requires runLength.Length == QRSPEC_WIDTH_MAX + 1
    modifies runLength
    ensures demerit == LinePenalty(ColumnLine(frame[..], width, x), width)
  {
    hide LinePenalty; hide Decomposes;
    LineInside(width, x, width);
    hide Line;
    var length := CalcRunLength(width, frame, x, width, runLength);
    demerit := CalcN1N3(length, runLength, ColumnLine(frame[..], width, x));
  }

  // ---- the balance of dark and light: feature N4 ----

  /** The percentage of dark modules as the source computes it. */
  function DarkPercent(blacks: nat, w2: nat): nat
    requires w2 > 0
  {
    (200 * blacks + w2) / w2 / 2
  }

  /** It is 100 blacks / w2 rounded to the nearest integer, halves upwards. */
  lemma DarkPercentRounds(blacks: nat, w2: nat)
    requires w2 > 0
    ensures var b := DarkPercent(blacks, w2); (2 * b - 1) * w2 <= 200 * blacks < (2 * b + 1) * w2
  {
    var v := 200 * blacks + w2;
    DivideTwice(v, w2);
    Quotient(v, 2 * w2);
    var b := DarkPercent(blacks, w2);
    assert b * (2 * w2) == 2 * b * w2;
  }

  function BalancePenalty(blacks: nat, w2: nat): nat
    requires w2 > 0
  {
    var bratio := DarkPercent(blacks, w2);
    (if bratio >= 50 then bratio - 50 else 50 - bratio) / 5 * N4
  }

  /** The dark modules counted by the source: those of the masked frame and those of the format information. */
  function CountedBlacks(f: seq<byte>, w: nat, mask: nat, level: nat): nat
    requires w > 0 && mask < MASK_NUM && level < 4
  {
    Darks(Masked(f, w, FlipsOf(mask))) + 2 * Ones(FormatInfo(mask, level), 15)
  }

  ghost function Demerit(f: seq<byte>, w: nat, mask: nat, level: nat): nat
    requires |f| == w * w && w >= 17 && mask < MASK_NUM && level < 4
  {
    BalancePenalty(CountedBlacks(f, w, mask, level), w * w) + SymbolPenalty(Finished(f, w, mask, level), w)
  }

  // ---- the choice ----

  /** best is the first mask of least demerit among the first n. */
  ghost predicate FirstBest(f: seq<byte>, w: nat, level: nat, best: nat, n: nat)
    requires |f| == w * w && w >= 17 && level < 4 && n <= MASK_NUM
  {
    && best < n
    && (forall j :: 0 <= j < n ==> Demerit(f, w, j, level) >= Demerit(f, w, best, level))
    && (forall j :: 0 <= j < best ==> Demerit(f, w, j, level) > Demerit(f, w, best, level))
  }

  /** One turn of the loop of Mask_mask up to the comparison. */
  method Evaluate(width: nat, frame: array<byte>, level: nat, i: nat, mask: array<byte>) returns (demerit: nat)
    requires 17 <= width <= QRSPEC_WIDTH_MAX && frame.Length == mask.Length == width * width && frame != mask
    requires level < 4 && i < MASK_NUM
    modifies mask
    ensures mask[..] == Finished(frame[..], width, i, level)
    ensures demerit == Demerit(frame[..], width, i, level)
  {
    hide Flips; hide Formatted; hide Masked; hide Darks; hide Ones; hide FormatInfo; hide SymbolPenalty;
    var w2 := width * width;
    var blacks := MaskFrame(FlipsOf(i), width, frame, mask);
    var more := WriteFormatInformation(width, mask, i, level);
    blacks := blacks + more;
    W2Positive(width);
    var bratio := (200 * blacks + w2) / w2 / 2;
    demerit := (if bratio >= 50 then bratio - 50 else 50 - bratio) / 5 * N4;
    var rest := EvaluateSymbol(width, mask);
    demerit := demerit + rest;
  }

  lemma W2Positive(w: nat)
    requires w > 0
    ensures w * w > 0
  {
  }

  /** Mask_mask. */
  method MaskMask(width: nat, frame: array<byte>, level: nat) returns (bestMask: array<byte>, ghost best: nat)
    requires 17 <= width <= QRSPEC_WIDTH_MAX && frame.Length == width * width && level < 4
    ensures fresh(bestMask)
    ensures FirstBest(frame[..], width, level, best, MASK_NUM)
    ensures bestMask[..] == Finished(frame[..], width, best, level)
  {
    hide Demerit; hide Finished;
    ghost var f := frame[..];
    var w2 := width * width;
    var mask := new byte[w2](_ => 0);
    bestMask := new byte[w2](_ => 0);
    var minDemerit := INT_MAX;
    best := 0;
    for i := 0 to MASK_NUM
      modifies mask, bestMask
      invariant if i == 0 then minDemerit == INT_MAX
                else FirstBest(f, width, level, best, i) && minDemerit == Demerit(f, width, best, level)
                     && bestMask[..] == Finished(f, width, best, level)
    {
      var demerit := Evaluate(width, frame, level, i, mask);
      DemeritBound(f, width, i, level);
      if demerit < minDemerit {
        minDemerit := demerit;
        forall c | 0 <= c < w2 {
          bestMask[c] := mask[c];
        }
        assert bestMask[..] == mask[..];
        best := i;
      }
    }
  }

  // ---- the demerit stays far below INT_MAX, so bestMask is always assigned ----

  lemma {:induction false} RunLenBound(r: seq<bool>, a: nat)
    requires a < |r|
    ensures RunLen(r, a) <= |r| - a
    decreases |r| - a
  {
    if a + 1 < |r| {
      RunLenBound(r, a + 1);
    }
  }

  lemma {:induction false} LinePenaltyBound(r: seq<bool>, n: nat)
    requires n <= |r| <= QRSPEC_WIDTH_MAX
    ensures LinePenalty(r, n) <= 300 * n
  {
    hide Pattern;
    if n > 0 {
      LinePenaltyBound(r, n - 1);
      RunLenBound(r, n - 1);
    }
  }

  lemma {:induction false} RowsBound(f: seq<byte>, w: nat, n: nat)
    requires |f| == w * w && n <= w <= QRSPEC_WIDTH_MAX
    ensures RowsPenalty(f, w, n) <= 53100 * n && ColumnsPenalty(f, w, n) <= 53100 * n
  {
    hide LinePenalty; hide RowLine; hide ColumnLine;
    if n > 0 {
      RowsBound(f, w, n - 1);
      LinePenaltyBound(RowLine(f, w, n - 1), w);
      LinePenaltyBound(ColumnLine(f, w, n - 1), w);
    }
  }

  lemma {:induction false} BlockBound(f: seq<byte>, w: nat, n: nat)
    requires 0 < w && n <= |f|
    ensures BlockPenalty(f, w, n) <= 3 * n
  {
    hide SameBlock; hide Col;
    if n > w + 1 {
      BlockBound(f, w, n - 1);
    }
  }

  lemma {:induction false} DarksBound(f: seq<byte>)
    ensures Darks(f) <= |f|
  {
    if f != [] {
      DarksBound(f[..|f| - 1]);
    }
  }

  lemma {:induction false} OnesBound(fmt: nat, n: nat)
    ensures Ones(fmt, n) <= n
  {
    hide FormatBit;
    if n > 0 {
      OnesBound(fmt, n - 1);
    }
  }

  lemma BalanceBound(blacks: nat, w2: nat)
    requires w2 >= 30 && blacks <= w2 + 30
    ensures BalancePenalty(blacks, w2) <= 2000
  {
    if DarkPercent(blacks, w2) >= 300 {
      DarkPercentRounds(blacks, w2);
      MulMono(599, 2 * DarkPercent(blacks, w2) - 1, w2);
    }
  }

  lemma DemeritBound(f: seq<byte>, w: nat, mask: nat, level: nat)
    requires |f| == w * w && 17 <= w <= QRSPEC_WIDTH_MAX && mask < MASK_NUM && level < 4
    ensures Demerit(f, w, mask, level) < INT_MAX
  {
    hide Darks; hide Masked; hide Ones; hide FormatInfo; hide Flips; hide Formatted; hide BalancePenalty;
    hide BlockPenalty; hide RowsPenalty; hide ColumnsPenalty;
    var g := Finished(f, w, mask, level);
    MulMono(w, QRSPEC_WIDTH_MAX, w);
    MulMono(17, w, w);
    DarksBound(Masked(f, w, FlipsOf(mask)));
    OnesBound(FormatInfo(mask, level), 15);
    BalanceBound(CountedBlacks(f, w, mask, level), w * w);
    BlockBound(g, w, w * w);
    RowsBound(g, w, w);
  }

  // ---- the count of dark modules is exact when the places of the format information start light ----

  /** The places of the format information are function modules, which no mask changes. */
  ghost predicate PlacesFlagged(f: seq<byte>, w: nat)
    requires |f| == w * w && w >= 17
  {
    forall n :: 0 <= n < 30 ==> f[FormatCell(w, n)] >= 128
  }

  /** How many of the first n places are dark before the format information is written. */
  function DarkPlaces(f: seq<byte>, w: nat, n: nat): nat
    requires |f| == w * w && w >= 17 && n <= 30
  {
    if n == 0 then 0 else DarkPlaces(f, w, n - 1) + f[FormatCell(w, n - 1)] % 2
  }

  lemma {:induction false} NoDarkPlaces(f: seq<byte>, w: nat, n: nat)
    requires |f| == w * w && w >= 17 && n <= 30
    ensures DarkPlaces(f, w, n) == 0 <==> forall m :: 0 <= m < n ==> f[FormatCell(w, m)] % 2 == 0
  {
    hide FormatCell;
    if n > 0 {
      NoDarkPlaces(f, w, n - 1);
    }
  }

  lemma {:induction false} DarksUpdate(f: seq<byte>, c: nat, v: byte)
    requires c < |f|
    ensures Darks(f[c := v]) + f[c] % 2 == Darks(f) + v % 2
  {
    var n := |f| - 1;
    if c < n {
      DarksUpdate(f[..n], c, v);
      assert f[c := v][..n] == f[..n][c := v];
    } else {
      assert f[c := v][..n] == f[..n];
    }
  }

  lemma DarksOfTwo(g: seq<byte>, c: nat, d: nat, b: nat)
    requires c < |g| && d < |g| && c != d && b < 2
    ensures Darks(g[c := 0x84 + b][d := 0x84 + b]) + g[c] % 2 + g[d] % 2 == Darks(g) + 2 * b
  {
    var v: byte := 0x84 + b;
    DarksUpdate(g, c, v);
    DarksUpdate(g[c := v], d, v);
    assert v % 2 == b;
  }

  lemma DarksStep(f: seq<byte>, w: nat, fmt: nat, i: nat)
    requires |f| == w * w && w >= 17 && i < 15
    ensures Darks(Stamped(f, w, fmt, i + 1)) + f[FormatCell(w, 2 * i)] % 2 + f[FormatCell(w, 2 * i + 1)] % 2
            == Darks(Stamped(f, w, fmt, i)) + 2 * FormatBit(fmt, i)
  {
    hide Darks; hide Stamped; hide FormatCell; hide Pow2;
    TwoMore(f, w, fmt, i);
    StillThere(f, w, fmt, i, 2 * i);
    StillThere(f, w, fmt, i, 2 * i + 1);
    FormatCellsDiffer(w, 2 * i, 2 * i + 1);
    DarksOfTwo(Stamped(f, w, fmt, i), FormatCell(w, 2 * i), FormatCell(w, 2 * i + 1), FormatBit(fmt, i));
  }

  /** Each place written takes the colour of its bit. */
  lemma {:induction false} DarksOfFormat(f: seq<byte>, w: nat, fmt: nat, i: nat)
    requires |f| == w * w && w >= 17 && i <= 15
    ensures Darks(Stamped(f, w, fmt, i)) + DarkPlaces(f, w, 2 * i) == Darks(f) + 2 * Ones(fmt, i)
  {
    hide Darks; hide Stamped; hide FormatBit; hide FormatCell;
    if i == 0 {
      StampedEnds(f, w, fmt);
    } else {
      DarksOfFormat(f, w, fmt, i - 1);
      DarksStep(f, w, fmt, i - 1);
      TwoPlaces(f, w, i);
    }
  }

  lemma TwoPlaces(f: seq<byte>, w: nat, i: nat)
    requires |f| == w * w && w >= 17 && 0 < i <= 15
    ensures DarkPlaces(f, w, 2 * i)
            == DarkPlaces(f, w, 2 * (i - 1)) + f[FormatCell(w, 2 * (i - 1))] % 2 + f[FormatCell(w, 2 * (i - 1) + 1)] % 2
  {
    hide *;
    var n := 2 * (i - 1);
    assert 2 * i == n + 2;
    OnePlace(f, w, n); OnePlace(f, w, n + 1);
  }

  lemma OnePlace(f: seq<byte>, w: nat, n: nat)
    requires |f| == w * w && w >= 17 && n < 30
    ensures DarkPlaces(f, w, n + 1) == DarkPlaces(f, w, n) + f[FormatCell(w, n)] % 2
  {
    hide FormatCell;
  }

  lemma StillThere(f: seq<byte>, w: nat, fmt: nat, i: nat, n: nat)
    requires |f| == w * w && w >= 17 && 2 * i <= n < 30
    ensures Stamped(f, w, fmt, i)[FormatCell(w, n)] == f[FormatCell(w, n)]
  {
    hide Fill; hide FormatCell; hide FormatVals;
    forall m | 0 <= m < 2 * i ensures FormatCells(w)[m] != FormatCell(w, n) {
      FormatCellsDiffer(w, m, n);
    }
    FillElsewhere(f, FormatCells(w), FormatVals(fmt)[..2 * i], FormatCell(w, n));
  }

  /** The count is the number of dark modules of the finished symbol exactly when all the places start light. */
  lemma BlacksExact(f: seq<byte>, w: nat, mask: nat, level: nat)
    requires |f| == w * w && w >= 17 && PlacesFlagged(f, w) && mask < MASK_NUM && level < 4
    ensures CountedBlacks(f, w, mask, level) == Darks(Finished(f, w, mask, level)) + DarkPlaces(f, w, 30)
    ensures CountedBlacks(f, w, mask, level) == Darks(Finished(f, w, mask, level))
            <==> forall n :: 0 <= n < 30 ==> f[FormatCell(w, n)] % 2 == 0
  {
    var g, fmt := Masked(f, w, FlipsOf(mask)), FormatInfo(mask, level);
    hide FormatInfo; hide FormatCell; hide Flips; hide Toggle; hide Darks; hide Stamped; hide Formatted; hide Ones;
    hide DarkPlaces;
    forall n | 0 <= n < 30 ensures g[FormatCell(w, n)] == f[FormatCell(w, n)] {
      MaskedAt(f, w, FlipsOf(mask), FormatCell(w, n));
    }
    hide Masked;
    SamePlaces(f, g, w, 30);
    NoDarkPlaces(f, w, 30);
    StampedEnds(g, w, fmt);
    DarksOfFormat(g, w, fmt, 15);
  }

  lemma {:induction false} SamePlaces(f: seq<byte>, g: seq<byte>, w: nat, n: nat)
    requires |f| == |g| == w * w && w >= 17 && n <= 30
    requires forall m :: 0 <= m < n ==> g[FormatCell(w, m)] == f[FormatCell(w, m)]
    ensures DarkPlaces(g, w, n) == DarkPlaces(f, w, n)
  {
    hide FormatCell;
    if n > 0 {
      SamePlaces(f, g, w, n - 1);
    }
  }
}
