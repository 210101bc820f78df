/** Masking a Micro QR symbol: its four masks, format information, score and choice. */
module MicroMask {
  import opened Arith
  import opened Bits
  import opened Format
  import opened Frames
  import opened Mask
  import opened Snake
  import opened Wrappers

  const MICRO_MASK_NUM := 4

  predicate MicroFlips(mask: nat, x: nat, y: nat)
    requires mask < MICRO_MASK_NUM
  {
    match mask
    case 0 => y % 2 == 0
    case 1 => (y / 2 + x / 3) % 2 == 0
    case 2 => (x * y % 2 + x * y % 3) % 2 == 0
    case 3 => ((x + y) % 2 + x * y % 3) % 2 == 0
  }

  function MicroFlipsOf(mask: nat): (nat, nat) -> bool
    requires mask < MICRO_MASK_NUM
  {
    (x: nat, y: nat) => MicroFlips(mask, x, y)
  }

  // ---- format information ----

  /** The table typeTable: the symbol type of a version and level, or -1. */
  function TypeOf(version: int, level: nat): int {
    match (version, level)
    case (1, 0) => 0
    case (2, 0) => 1
    case (2, 1) => 2
    case (3, 0) => 3
    case (3, 1) => 4
    case (4, 0) => 5
    case (4, 1) => 6
    case (4, 2) => 7
    case _ => -1
  }

  /** MQRspec_getFormatInfo. */
  function MicroFormatInfo(mask: int, version: int, level: nat): nat {
    var kind := TypeOf(version, level);
    if mask < 0 || mask > 3 || kind < 0 then 0
    else match mask
      case 0 => Pick(kind, 0x4445, 0x55ae, 0x6793, 0x7678, 0x06de, 0x1735, 0x2508, 0x34e3)
      case 1 => Pick(kind, 0x4172, 0x5099, 0x62a4, 0x734f, 0x03e9, 0x1202, 0x203f, 0x31d4)
      case 2 => Pick(kind, 0x4e2b, 0x5fc0, 0x6dfd, 0x7c16, 0x0cb0, 0x1d5b, 0x2f66, 0x3e8d)
      case _ => Pick(kind, 0x4b1c, 0x5af7, 0x68ca, 0x7921, 0x0987, 0x186c, 0x2a51, 0x3bba)
  }

  /** The reader's inverse: mask, version and level. */
  function MicroParseFormat(v: nat): Option<(nat, nat, nat)> {
    match v
    case 0x4445 => Some((0, 1, 0)) case 0x55ae => Some((0, 2, 0)) case 0x6793 => Some((0, 2, 1)) case 0x7678 => Some((0, 3, 0))
    case 0x06de => Some((0, 3, 1)) case 0x1735 => Some((0, 4, 0)) case 0x2508 => Some((0, 4, 1)) case 0x34e3 => Some((0, 4, 2))
    case 0x4172 => Some((1, 1, 0)) case 0x5099 => Some((1, 2, 0)) case 0x62a4 => Some((1, 2, 1)) case 0x734f => Some((1, 3, 0))
    case 0x03e9 => Some((1, 3, 1)) case 0x1202 => Some((1, 4, 0)) case 0x203f => Some((1, 4, 1)) case 0x31d4 => Some((1, 4, 2))
    case 0x4e2b => Some((2, 1, 0)) case 0x5fc0 => Some((2, 2, 0)) case 0x6dfd => Some((2, 2, 1)) case 0x7c16 => Some((2, 3, 0))
    case 0x0cb0 => Some((2, 3, 1)) case 0x1d5b => Some((2, 4, 0)) case 0x2f66 => Some((2, 4, 1)) case 0x3e8d => Some((2, 4, 2))
    case 0x4b1c => Some((3, 1, 0)) case 0x5af7 => Some((3, 2, 0)) case 0x68ca => Some((3, 2, 1)) case 0x7921 => Some((3, 3, 0))
    case 0x0987 => Some((3, 3, 1)) case 0x186c => Some((3, 4, 0)) case 0x2a51 => Some((3, 4, 1)) case 0x3bba => Some((3, 4, 2))
    case _ => None
  }

  lemma MicroFormatsDistinct(mask: nat, version: nat, level: nat)
    requires mask < 4 && TypeOf(version, level) >= 0
    ensures MicroFormatInfo(mask, version, level) < 0x8000
    ensures MicroParseFormat(MicroFormatInfo(mask, version, level)) == Some((mask, version, level))
  {
  }

  /** Where bit i is written. */
  function MicroFormatCell(w: nat, i: nat): (c: nat)
    requires i < 15 && w >= 11
    ensures c < w * w
  {
    if i < 8 then Index(w, 8, i + 1) else Index(w, 15 - i, 8)
  }

  function MicroFormatCells(w: nat): (r: seq<nat>)
    requires w >= 11
    ensures |r| == 15 && InFrame(r, w * w)
  {
    seq(15, i requires 0 <= i < 15 => MicroFormatCell(w, i))
  }

  function MicroFormatVals(fmt: nat): (r: seq<byte>)
    ensures |r| == 15
  {
    seq<byte>(15, i requires 0 <= i < 15 => 0x84 + FormatBit(fmt, i))
  }

  function MicroFormatted(f: seq<byte>, w: nat, fmt: nat): (r: seq<byte>)
    requires |f| == w * w && w >= 11
    ensures |r| == |f|
  {
    Fill(f, MicroFormatCells(w), MicroFormatVals(fmt))
  }

  lemma MicroFormatCellsDiffer(w: nat, i: nat, j: nat)
    requires i < j < 15 && w >= 11
    ensures MicroFormatCell(w, i) != MicroFormatCell(w, j)
  {
    hide Index;
    IndexInverse(w, if i < 8 then 8 else 15 - i, if i < 8 then i + 1 else 8);
    IndexInverse(w, if j < 8 then 8 else 15 - j, if j < 8 then j + 1 else 8);
  }

  lemma MicroFormatAt(f: seq<byte>, w: nat, fmt: nat, i: nat)
    requires |f| == w * w && w >= 11 && i < 15
    ensures MicroFormatted(f, w, fmt)[MicroFormatCell(w, i)] == 0x84 + FormatBit(fmt, i)
  {
    hide FormatBit; hide Fill; hide MicroFormatCell;
    forall n, m | 0 <= n < m < 15 ensures MicroFormatCells(w)[n] != MicroFormatCells(w)[m] {
      MicroFormatCellsDiffer(w, n, m);
    }
    FillAt(f, MicroFormatCells(w), MicroFormatVals(fmt), i);
  }

  /** f after the bits below i have been written. */
  function MicroStamped(f: seq<byte>, w: nat, fmt: nat, i: nat): (r: seq<byte>)
    requires |f| == w * w && w >= 11 && i <= 15
    ensures |r| == |f|
  {
    Fill(f, MicroFormatCells(w), MicroFormatVals(fmt)[..i])
  }

  lemma MicroStampedEnds(f: seq<byte>, w: nat, fmt: nat)
    requires |f| == w * w && w >= 11
    ensures MicroStamped(f, w, fmt, 0) == f && MicroStamped(f, w, fmt, 15) == MicroFormatted(f, w, fmt)
  {
    FillNil(f, MicroFormatCells(w));
    hide Fill; hide MicroFormatCells;
    assert MicroFormatVals(fmt)[..0] == [] && MicroFormatVals(fmt)[..15] == MicroFormatVals(fmt);
  }

  /** MMask_writeFormatInformation. */
  method MicroWriteFormat(version: nat, width: nat, frame: array<byte>, mask: nat, level: nat)
    requires width >= 11 && frame.Length == width * width
    modifies frame
    ensures frame[..] == MicroFormatted(old(frame[..]), width, MicroFormatInfo(mask, version, level))
  {
    hide *;
    var fmt := MicroFormatInfo(mask, version, level);
    var format := fmt;
    ghost var f := frame[..];
    MicroStampedEnds(f, width, fmt);
    NoBits(fmt);
    for i := 0 to 8
      invariant format == fmt / Pow2(i)
      invariant frame[..] == MicroStamped(f, width, fmt, i)
    {
      OneMore(f, width, fmt, i);
      NextBit(fmt, i);
      var v: byte := 0x84 + format % 2;
      frame[width * (i + 1) + 8] := v;
      format := format / 2;
    }
    for i := 0 to 7
      invariant format == fmt / Pow2(8 + i)
      invariant frame[..] == MicroStamped(f, width, fmt, 8 + i)
    {
      OneMore(f, width, fmt, 8 + i);
      NextBit(fmt, 8 + i);
      var v: byte := 0x84 + format % 2;
      frame[width * 8 + 7 - i] := v;
      format := format / 2;
    }
  }

  lemma OneMore(f: seq<byte>, w: nat, fmt: nat, i: nat)
    requires |f| == w * w && w >= 11 && i < 15
    ensures var c := if i < 8 then w * (i + 1) + 8 else w * 8 + 15 - i;
            c < w * w && MicroStamped(f, w, fmt, i + 1) == MicroStamped(f, w, fmt, i)[c := 0x84 + fmt / Pow2(i) % 2]
  {
    hide Fill; hide Pow2;
    var vals, cells := MicroFormatVals(fmt), MicroFormatCells(w);
    assert MicroFormatCell(w, i) == if i < 8 then w * (i + 1) + 8 else w * 8 + 15 - i by {
      assert (i + 1) * w == w * (i + 1) && 8 * w == w * 8;
    }
    hide MicroFormatCell;
    FillSnoc(f, cells, vals[..i], vals[i]);
    assert vals[..i + 1] == vals[..i] + [vals[i]];
  }

  /** The finished Micro QR symbol. */
  function MicroFinished(f: seq<byte>, w: nat, mask: nat, version: nat, level: nat): (r: seq<byte>)
    requires |f| == w * w && w >= 11 && mask < MICRO_MASK_NUM
    ensures |r| == |f|
  {
    MicroFormatted(Masked(f, w, MicroFlipsOf(mask)), w, MicroFormatInfo(mask, version, level))
  }

  // ---- the score ----

  /** Dark modules among the first n modules of a line after its first one. */
  function EdgeSum(f: seq<byte>, p: nat, step: nat, n: nat): nat
    requires n == 0 || p + n * step < |f|
    decreases n
  {
    if n == 0 then 0 else
      assert (n - 1) * step <= n * step;
      EdgeSum(f, p, step, n - 1) + f[p + n * step] % 2
  }

  lemma EdgesInside(w: nat)
    requires w >= 1
    ensures w * (w - 1) + (w - 1) * 1 < w * w && (w - 1) + (w - 1) * w < w * w
  {
    assert w * (w - 1) == w * w - w && (w - 1) * w == w * w - w;
  }

  /** Dark modules of the bottom row and of the right column, without the timing pattern's. */
  function BottomSum(f: seq<byte>, w: nat): nat
    requires |f| == w * w && w >= 1
  {
    EdgesInside(w); EdgeSum(f, w * (w - 1), 1, w - 1)
  }

  function RightSum(f: seq<byte>, w: nat): nat
    requires |f| == w * w && w >= 1
  {
    EdgesInside(w); EdgeSum(f, w - 1, w, w - 1)
  }

  function Score(f: seq<byte>, w: nat): nat
    requires |f| == w * w && w >= 1
  {
    var sum1, sum2 := BottomSum(f, w), RightSum(f, w);
    if sum1 <= sum2 then sum1 * 16 + sum2 else sum2 * 16 + sum1
  }

  /** MMask_evaluateSymbol. */
  method MicroEvaluate(width: nat, frame: array<byte>) returns (score: nat)
    requires width >= 1 && frame.Length == width * width
    ensures score == Score(frame[..], width)
  {
    EdgesInside(width);
    var sum1 := SumEdge(frame, width * (width - 1), 1, width - 1);
    var sum2 := SumEdge(frame, width - 1, width, width - 1);
    hide EdgeSum;
    score := if sum1 <= sum2 then sum1 * 16 + sum2 else sum2 * 16 + sum1;
  }

  /** Either loop of MMask_evaluateSymbol. */
  method SumEdge(frame: array<byte>, p: nat, step: nat, n: nat) returns (sum: nat)
    requires p + n * step < frame.Length
    ensures sum == EdgeSum(frame[..], p, step, n)
  {
    sum := 0;
    var q := p;
    for x := 1 to n + 1
      invariant q == p + (x - 1) * step
      invariant x - 1 == 0 || q < frame.Length
      invariant sum == EdgeSum(frame[..], p, step, x - 1)
    {
      MulMono(x, n, step);
      assert x * step == (x - 1) * step + step;
      q := q + step;
      sum := sum + frame[q] % 2;
    }
  }

  ghost predicate FirstBestScore(f: seq<byte>, w: nat, version: nat, level: nat, best: nat, n: nat)
    requires |f| == w * w && w >= 11 && n <= MICRO_MASK_NUM
  {
    && best < n
    && (forall j :: 0 <= j < n ==> Score(MicroFinished(f, w, j, version, level), w)
                                   <= Score(MicroFinished(f, w, best, version, level), w))
    && (forall j :: 0 <= j < best ==> Score(MicroFinished(f, w, j, version, level), w)
                                      < Score(MicroFinished(f, w, best, version, level), w))
    && Score(MicroFinished(f, w, best, version, level), w) > 0
  }

  /** MMask_mask: None stands for NULL, when no mask scores. */
  method MicroMaskMask(version: nat, width: nat, frame: array<byte>, level: nat)
    returns (bestMask: Option<array<byte>>, ghost best: nat)
    requires width >= 11 && frame.Length == width * width
    ensures bestMask.Some? ==>
              && fresh(bestMask.value)
              && FirstBestScore(frame[..], width, version, level, best, MICRO_MASK_NUM)
              && bestMask.value[..] == MicroFinished(frame[..], width, best, version, level)
    ensures bestMask == None ==>
              forall j :: 0 <= j < MICRO_MASK_NUM ==> Score(MicroFinished(frame[..], width, j, version, level), width) == 0
    ensures width % 2 == 1 && BottomFree(frame[..], width) ==> bestMask.Some?
  {
    hide MicroFlips; hide MicroFormatted; hide Masked; hide MicroFormatInfo; hide Score;
    ghost var f := frame[..];
    var mask := new byte[width * width](_ => 0);
    bestMask := None;
    best := 0;
    var maxScore := 0;
    for i := 0 to MICRO_MASK_NUM
      invariant fresh(mask) && mask.Length == width * width && mask != frame
      invariant bestMask.Some? ==> fresh(bestMask.value) && bestMask.value != mask && bestMask.value.Length == width * width
      invariant bestMask == None ==>
                  maxScore == 0 && forall j :: 0 <= j < i ==> Score(MicroFinished(f, width, j, version, level), width) == 0
      invariant bestMask.Some? ==>
                  && FirstBestScore(f, width, version, level, best, i)
                  && maxScore == Score(MicroFinished(f, width, best, version, level), width)
                  && bestMask.value[..] == MicroFinished(f, width, best, version, level)
    {
      var _ := MaskFrame(MicroFlipsOf(i), width, frame, mask);
      MicroWriteFormat(version, width, mask, i, level);
      var score := MicroEvaluate(width, mask);
      if score > maxScore {
        maxScore := score;
        bestMask := Some(mask);
        best := i;
        mask := new byte[width * width](_ => 0);
      }
    }
    if width % 2 == 1 && BottomFree(f, width) {
      SomeMaskScores(f, width, version, level);
    }
  }

  // ---- one of the first two masks always scores ----

  /** The bottom row, but for the timing pattern's module, carries data. */
  ghost predicate BottomFree(f: seq<byte>, w: nat)
    requires |f| == w * w && w >= 1
  {
    forall x :: 1 <= x < w ==> BottomUnflagged(f, w, x)
  }

  predicate BottomUnflagged(f: seq<byte>, w: nat, x: nat)
    requires |f| == w * w && x < w
  {
    f[Index(w, x, w - 1)] < 128
  }

  lemma {:induction false} EdgeAtLeast(f: seq<byte>, p: nat, step: nat, n: nat, i: nat)
    requires 1 <= i <= n && p + n * step < |f|
    ensures p + i * step < |f| && EdgeSum(f, p, step, n) >= f[p + i * step] % 2
  {
    MulMono(i, n, step);
    if i < n {
      MulMono(n - 1, n, step);
      EdgeAtLeast(f, p, step, n - 1, i);
    }
  }

  lemma BottomAtLeast(f: seq<byte>, w: nat, x: nat)
    requires |f| == w * w && 1 <= x < w
    ensures BottomSum(f, w) >= f[Index(w, x, w - 1)] % 2
    ensures Score(f, w) >= BottomSum(f, w)
  {
    EdgesInside(w);
    EdgeAtLeast(f, w * (w - 1), 1, w - 1, x);
    assert (w - 1) * w == w * (w - 1);
  }

  /** The format information does not reach the bottom row. */
  lemma BottomCell(f: seq<byte>, w: nat, mask: nat, version: nat, level: nat, x: nat)
    requires |f| == w * w && w >= 11 && mask < MICRO_MASK_NUM && x < w
    ensures MicroFinished(f, w, mask, version, level)[Index(w, x, w - 1)]
            == MaskCell(f[Index(w, x, w - 1)], MicroFlips(mask, x, w - 1))
  {
    hide MicroFlips; hide MaskCell; hide MicroFormatInfo; hide Fill;
    var c := Index(w, x, w - 1);
    IndexInverse(w, x, w - 1);
    MaskedAt(f, w, MicroFlipsOf(mask), c);
    forall i | 0 <= i < 15 ensures MicroFormatCells(w)[i] != c {
      IndexInverse(w, if i < 8 then 8 else 15 - i, if i < 8 then i + 1 else 8);
    }
    hide Index; hide Masked; hide MicroFormatCells;
    FillElsewhere(Masked(f, w, MicroFlipsOf(mask)), MicroFormatCells(w),
                  MicroFormatVals(MicroFormatInfo(mask, version, level)), c);
  }

  /** At this column of the bottom row one of the first two masks flips and the other does not. */
  lemma ZeroOrOne(w: nat, x: nat)
    requires w >= 11 && w % 2 == 1 && x == if (w - 1) / 2 % 2 == 0 then 3 else 6
    ensures MICRO_MASK_NUM == 4 && MicroFlips(0, x, w - 1) && !MicroFlips(1, x, w - 1)
  {
    hide *;
    var m := (w - 1) / 2;
    assert w - 1 == 2 * m;
    EdgeFlips(m, x);
  }

  lemma EdgeFlips(m: nat, x: nat)
    requires x == if m % 2 == 0 then 3 else 6
    ensures MICRO_MASK_NUM == 4 && MicroFlips(0, x, 2 * m) && !MicroFlips(1, x, 2 * m)
  {
    assert 2 * m % 2 == 0 && 2 * m / 2 == m && x / 3 == if m % 2 == 0 then 1 else 2;
  }

  lemma BottomColour(f: seq<byte>, w: nat, x: nat)
    requires |f| == w * w && w >= 1 && BottomFree(f, w) && 1 <= x < w
    ensures var v := f[Index(w, x, w - 1)];
            v < 128 && (MaskCell(v, true) % 2 == 1 || MaskCell(v, false) % 2 == 1)
  {
    hide Index;
    assert BottomUnflagged(f, w, x);
  }

  lemma SomeMaskScores(f: seq<byte>, w: nat, version: nat, level: nat)
    requires |f| == w * w && w >= 11 && w % 2 == 1 && BottomFree(f, w)
    ensures Score(MicroFinished(f, w, 0, version, level), w) > 0 || Score(MicroFinished(f, w, 1, version, level), w) > 0
  {
    hide *;
    var x := if (w - 1) / 2 % 2 == 0 then 3 else 6;
    ZeroOrOne(w, x);
    var g, h := MicroFinished(f, w, 0, version, level), MicroFinished(f, w, 1, version, level);
    BottomColour(f, w, x);
    BottomCell(f, w, 0, version, level, x); BottomCell(f, w, 1, version, level, x);
    BottomAtLeast(g, w, x); BottomAtLeast(h, w, x);
  }
}
