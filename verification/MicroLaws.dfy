/** What a Micro QR symbol looks like, and what the score of a mask means. */
module MicroLaws {
  import opened Arith
  import opened Bits
  import opened Counting
  import opened Demerits
  import opened FrameLaws
  import opened Frames
  import opened Mask
  import opened MaskChoice
  import opened MaskScore
  import opened MicroCode
  import opened MicroEncode
  import opened MicroFit
  import opened MicroMask
  import opened MicroSpec
  import opened RsCode
  import opened Rsecc
  import opened Snake

  // ---- the score: dark modules on the two edges without timing patterns ----

  ghost function BottomEdge(f: seq<byte>, w: nat): places {
    (x: int) => |f| == w * w && 1 <= x < w && ModuleAt(f, w, x, w - 1)
  }

  ghost function RightEdge(f: seq<byte>, w: nat): places {
    (y: int) => |f| == w * w && 1 <= y < w && ModuleAt(f, w, w - 1, y)
  }

  lemma {:induction false} BottomCounts(f: seq<byte>, w: nat, n: nat)
    requires |f| == w * w && n < w
    ensures w * (w - 1) + n * 1 < |f| && EdgeSum(f, w * (w - 1), 1, n) == Count(BottomEdge(f, w), n + 1)
  {
    assert w * w == w * (w - 1) + w;
    if n > 0 {
      BottomCounts(f, w, n - 1);
      assert Index(w, n, w - 1) == w * (w - 1) + n;
    }
  }

  lemma {:induction false} RightCounts(f: seq<byte>, w: nat, n: nat)
    requires |f| == w * w && n < w
    ensures w - 1 + n * w < |f| && EdgeSum(f, w - 1, w, n) == Count(RightEdge(f, w), n + 1)
  {
    MulLess(n, w, w, w - 1);
    if n > 0 {
      RightCounts(f, w, n - 1);
      assert Index(w, w - 1, n) == n * w + (w - 1);
    }
  }

  lemma SumsCount(f: seq<byte>, w: nat)
    requires |f| == w * w && w >= 1
    ensures BottomSum(f, w) == Count(BottomEdge(f, w), w) && RightSum(f, w) == Count(RightEdge(f, w), w)
  {
    BottomCounts(f, w, w - 1); RightCounts(f, w, w - 1);
  }

  lemma EdgeBound(f: seq<byte>, w: nat)
    requires |f| == w * w && w >= 1
    ensures BottomSum(f, w) <= w - 1 && RightSum(f, w) <= w - 1
  {
    hide *;
    FirstIsOut(f, w);
    SumsCount(f, w);
    WithoutFirst(BottomEdge(f, w), w); WithoutFirst(RightEdge(f, w), w);
  }

  lemma FirstIsOut(f: seq<byte>, w: nat)
    ensures !BottomEdge(f, w)(0) && !RightEdge(f, w)(0)
  {
  }

  lemma {:induction false} WithoutFirst(p: places, n: nat)
    requires n >= 1 && !p(0)
    ensures Count(p, n) <= n - 1
  {
    if n > 1 {
      WithoutFirst(p, n - 1);
    }
  }

  function Least(a: nat, b: nat): nat { if a <= b then a else b }

  function Most(a: nat, b: nat): nat { if a <= b then b else a }

  /** In every symbol up to version 4 the score puts the darker of two symbols first: by the lighter edge, then by the other. */
  lemma ScoreOrders(f: seq<byte>, g: seq<byte>, w: nat)
    requires |f| == |g| == w * w && 1 <= w <= 17
    ensures var a, b := Least(BottomSum(f, w), RightSum(f, w)), Most(BottomSum(f, w), RightSum(f, w));
            var c, d := Least(BottomSum(g, w), RightSum(g, w)), Most(BottomSum(g, w), RightSum(g, w));
            Score(f, w) < Score(g, w) <==> a < c || (a == c && b < d)
  {
    EdgeBound(f, w); EdgeBound(g, w);
    hide BottomSum; hide RightSum;
  }

  lemma {:induction false} CountSame(p: places, q: places, n: nat)
    requires forall x: nat | x < n :: p(x) == q(x)
    ensures Count(p, n) == Count(q, n)
  {
    if n > 0 {
      CountSame(p, q, n - 1);
    }
  }

  /** A symbol and its transpose have the same score. */
  lemma ScoreTransposed(g: seq<byte>, f: seq<byte>, w: nat)
    requires w >= 1 && Transposes(g, f, w)
    ensures BottomSum(g, w) == RightSum(f, w) && RightSum(g, w) == BottomSum(f, w) && Score(g, w) == Score(f, w)
  {
    SumsCount(f, w); SumsCount(g, w);
    hide BottomSum; hide RightSum; hide Count; hide Index;
    CountSame(BottomEdge(g, w), RightEdge(f, w), w);
    CountSame(RightEdge(g, w), BottomEdge(f, w), w);
  }

  // ---- the frame ----

  /** The frame is its own transpose. */
  lemma MicroSymmetric(x: nat, y: nat)
    ensures MicroCell(x, y) == MicroCell(y, x)
  {
  }

  /** From module 8 on the timing patterns alternate, dark first; module 7 before them is light. */
  lemma MicroTiming(x: nat)
    requires x >= 7
    ensures MicroCell(x, 0) % 2 == 1 <==> x % 2 == 0
    ensures MicroCell(0, x) == MicroCell(x, 0)
  {
  }

  /** Each version is two modules wider than the one before. */
  lemma MicroWidths(version: nat)
    requires 1 <= version <= MQRSPEC_VERSION_MAX
    ensures GetWidth(version) == 9 + 2 * version
  {
  }

  // ---- the places of the format information ----

  function MicroFormatX(i: nat): int { if i < 8 then 8 else 15 - i }

  function MicroFormatY(i: nat): int { if i < 8 then i + 1 else 8 }

  /** They are a path of neighbours from the upper right to the lower left, and all the modules kept free for it. */
  lemma MicroFormatPath(w: nat, i: nat)
    requires i < 15 && w >= 11
    ensures var x, y := MicroFormatX(i), MicroFormatY(i);
            && 1 <= x <= 8 && 1 <= y <= 8 && MicroFormatCell(w, i) == Index(w, x, y) && MicroCell(x, y) == 0x84
            && (i == 0 ==> x == 8 && y == 1) && (i == 14 ==> x == 1 && y == 8)
            && (i < 14 ==> MicroFormatX(i + 1) - x == (if y < 8 then 0 else -1) && MicroFormatY(i + 1) - y == (if y < 8 then 1 else 0))
  {
  }

  lemma MicroFormatAll(x: nat, y: nat)
    requires MicroCell(x, y) == 0x84
    ensures exists i: nat :: i < 15 && MicroFormatX(i) == x && MicroFormatY(i) == y
  {
    var i: nat := if x == 8 then y - 1 else 15 - x;
    assert i < 15 && MicroFormatX(i) == x && MicroFormatY(i) == y;
  }

  /** The data bits of every version and level: 20 in the smallest, 128 in the largest. */
  lemma MicroCapacity()
    ensures GetDataLengthBit(1, 0) == 20 && GetDataLengthBit(2, 0) == 40 && GetDataLengthBit(2, 1) == 32
    ensures GetDataLengthBit(3, 0) == 84 && GetDataLengthBit(3, 1) == 68
    ensures GetDataLengthBit(4, 0) == 128 && GetDataLengthBit(4, 1) == 112 && GetDataLengthBit(4, 2) == 80
  {
  }

  // ---- the choice of a mask ----

  /** f has the lighter of its two edges darker than g has, or as dark and the other edge darker. */
  predicate DarkerEdges(f: seq<byte>, g: seq<byte>, w: nat)
    requires |f| == |g| == w * w && w >= 1
  {
    var a, b := Least(BottomSum(f, w), RightSum(f, w)), Most(BottomSum(f, w), RightSum(f, w));
    var c, d := Least(BottomSum(g, w), RightSum(g, w)), Most(BottomSum(g, w), RightSum(g, w));
    a > c || (a == c && b > d)
  }

  /** No mask gives darker edges than the one chosen, and those before it give less dark ones. */
  lemma ChosenIsDarkest(f: seq<byte>, w: nat, version: nat, level: nat, best: nat, m: nat)
    requires |f| == w * w && 11 <= w <= 17 && m < 4 && FirstBestScore(f, w, version, level, best, 4)
    ensures MICRO_MASK_NUM == 4 && best < 4
    ensures var g, h := MicroFinished(f, w, best, version, level), MicroFinished(f, w, m, version, level);
            !DarkerEdges(h, g, w) && (m < best ==> DarkerEdges(g, h, w))
  {
    hide Score; hide MicroFinished; hide BottomSum; hide RightSum;
    var g, h := MicroFinished(f, w, best, version, level), MicroFinished(f, w, m, version, level);
    ScoreOrders(g, h, w); ScoreOrders(h, g, w);
  }

  // ---- the finished symbol ----

  lemma MicroFormattedElsewhere(g: seq<byte>, w: nat, fmt: nat, c: nat)
    requires |g| == w * w && w >= 11 && c < |g| && forall i :: 0 <= i < 15 ==> MicroFormatCell(w, i) != c
    ensures MicroFormatted(g, w, fmt)[c] == g[c]
  {
    hide Fill; hide MicroFormatCell; hide MicroFormatVals;
    FillElsewhere(g, MicroFormatCells(w), MicroFormatVals(fmt), c);
  }

  lemma MicroElsewhere(w: nat, x: nat, y: nat, i: nat)
    requires w >= 11 && x < w && y < w && i < 15 && MicroCell(x, y) != 0x84
    ensures MicroFormatCell(w, i) != Index(w, x, y)
  {
    MicroFormatPath(w, i);
    hide *;
    IndexInverse(w, MicroFormatX(i), MicroFormatY(i));
    IndexInverse(w, x, y);
  }

  lemma MicroSymbolKeeps(w: nat, data: seq<byte>, ecc: nat, c: nat)
    requires MicroWidth(w) && MIN_LENGTH <= ecc && DataBits(w, ecc) >= 0 && |data| == DataBytes(DataBits(w, ecc))
    requires c < w * w && MicroFrame(w)[c] >= 128
    ensures MicroSymbol(w, MicroFrame(w), data, ecc)[c] == MicroFrame(w)[c]
  {
    var f := MicroFrame(w);
    JustEnough(f, w, ecc);
    CellsIn(f, w);
    hide Fill; hide MicroCells; hide MicroVals; hide DataBits; hide IsMicroFrame; hide Ecc;
    FillElsewhere(f, MicroCells(w, f), MicroVals(data, Ecc(data, ecc), DataBits(w, ecc)), c);
  }

  /** Function patterns are in the symbol as they are in the frame. */
  lemma MicroReservedKept(version: nat, level: nat, mask: nat, data: seq<byte>, x: nat, y: nat)
    requires Supported(version, level) && |data| == GetDataLength(version, level) && mask < MICRO_MASK_NUM
    requires x < GetWidth(version) && y < GetWidth(version) && MicroCell(x, y) >= 128 && MicroCell(x, y) != 0x84
    ensures var w := GetWidth(version);
            && w >= 11 && MicroFinished(Drawn(version, level, data), w, mask, version, level)[Index(w, x, y)] == MicroCell(x, y)
  {
    Capacities(version, level);
    var w, ecc := GetWidth(version), GetECCLength(version, level);
    var c, g := Index(w, x, y), Drawn(version, level, data);
    hide GetWidth; hide GetECCLength; hide GetDataLength; hide MicroSymbol; hide DataBits; hide DataBytes;
    hide MicroFormatted; hide MicroFormatInfo; hide Masked; hide MicroFrame; hide Index; hide MicroCell; hide MicroFormatCell;
    assert IsMicroFrame(MicroFrame(w), w);
    MicroSymbolKeeps(w, data, ecc, c);
    MaskedAt(g, w, MicroFlipsOf(mask), c);
    forall i | 0 <= i < 15 ensures MicroFormatCell(w, i) != c {
      MicroElsewhere(w, x, y, i);
    }
    MicroFormattedElsewhere(Masked(g, w, MicroFlipsOf(mask)), w, MicroFormatInfo(mask, version, level), c);
  }

  /** In every symbol a reader finds the finder pattern. */
  lemma MicroFinderSeen(version: nat, level: nat, mask: nat, data: seq<byte>)
    requires Supported(version, level) && |data| == GetDataLength(version, level) && mask < MICRO_MASK_NUM
    ensures var w := GetWidth(version);
            && w >= 11
            && var s := MicroFinished(Drawn(version, level, data), w, mask, version, level);
               Ratio(RowLine(s, w, 3), 2, 1) && Ratio(ColumnLine(s, w, 3), 2, 1)
  {
    hide *;
    WideEnough(version, level);
    Capacities(version, level);
    var w := GetWidth(version);
    var s := MicroFinished(Drawn(version, level, data), w, mask, version, level);
    forall x: nat, y: nat | x < w && y < w && MicroCell(x, y) >= 0xc0 ensures s[Index(w, x, y)] % 2 == MicroCell(x, y) % 2 {
      MicroReservedKept(version, level, mask, data, x, y);
    }
    MicroFinderFound(s, w);
  }

  lemma WideEnough(version: nat, level: nat)
    requires Supported(version, level)
    ensures version <= MQRSPEC_VERSION_MAX && level < 4 && GetWidth(version) >= 11
  {
  }
}
