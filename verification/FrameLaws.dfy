/** What a reader looks for in a frame: finder patterns, alignment patterns, timing patterns, and their symmetry. */
module FrameLaws {
  import opened Arith
  import opened Bits
  import opened Demerits
  import opened Format
  import opened MaskChoice
  import opened MaskScore
  import opened MicroSpec
  import opened Painting
  import opened QrAlign
  import opened QrCapacity
  import opened QrSpec
  import opened QrTables
  import opened Snake

  /** How far a module is from a centre: the square ring on which it lies. */
  function Ring(dx: int, dy: int): nat {
    var x, y := if dx < 0 then -dx else dx, if dy < 0 then -dy else dy;
    if x < y then y else x
  }

  predicate IsDark(v: int) { v % 2 == 1 }

  // ---- finder patterns: all rings around a centre are dark but the second, and the fourth that separates them ----

  predicate FinderCentre(w: int, cx: int, cy: int) {
    (cx == 3 && cy == 3) || (cx == w - 4 && cy == 3) || (cx == 3 && cy == w - 4)
  }

  lemma FinderRings(x: int, y: int)
    requires 0 <= x < 7 && 0 <= y < 7
    ensures IsDark(Finder(x, y)) <==> Ring(x - 3, y - 3) != 2
    ensures Finder(x, y) == Finder(y, x) == Finder(6 - x, y) == Finder(x, 6 - y)
  {
  }

  lemma QrRings(version: nat, w: nat, cx: int, cy: int, x: nat, y: nat)
    requires 1 <= version <= QRSPEC_VERSION_MAX && w == 17 + 4 * version && x < w && y < w
    requires FinderCentre(w, cx, cy) && Ring(x - cx, y - cy) <= 4
    ensures IsDark(QrCell(version, w, x, y)) <==> Ring(x - cx, y - cy) != 2 && Ring(x - cx, y - cy) != 4
    ensures QrCell(version, w, x, y) >= 0xc0
  {
    CornerCell(version, w, x, y);
    hide *;
    BaseRings(w, cx, cy, x, y);
  }

  /** Neither alignment patterns nor version information reach into the corners. */
  lemma CornerCell(version: nat, w: nat, x: nat, y: nat)
    requires 1 <= version <= QRSPEC_VERSION_MAX && w == 17 + 4 * version && x < w && y < w
    ensures (x < 8 || x >= w - 8) && (y < 8 || y >= w - 8) && (x < 8 || y < 8)
            ==> QrCell(version, w, x, y) == BaseCell(w, x, y)
  {
    NearPlaces(version, w, x); NearPlaces(version, w, y);
    hide BaseCell; hide CentresOf; hide Centres.Near; hide Centres.Off; hide VersionPattern; hide BitAt; hide Marker;
  }

  lemma BaseRings(w: nat, cx: int, cy: int, x: nat, y: nat)
    requires w >= 21 && x < w && y < w && FinderCentre(w, cx, cy) && Ring(x - cx, y - cy) <= 4
    ensures IsDark(BaseCell(w, x, y)) <==> Ring(x - cx, y - cy) != 2 && Ring(x - cx, y - cy) != 4
    ensures BaseCell(w, x, y) >= 0xc0
    ensures (x < 8 || x >= w - 8) && (y < 8 || y >= w - 8) && (x < 8 || y < 8)
  {
  }

  lemma MicroRings(x: nat, y: nat)
    requires Ring(x - 3, y - 3) <= 4
    ensures IsDark(MicroCell(x, y)) <==> Ring(x - 3, y - 3) != 2 && Ring(x - 3, y - 3) != 4
    ensures MicroCell(x, y) >= 0xc0
  {
  }

  // ---- so the lines through a centre show the ratio 1 : 1 : 3 : 1 : 1 that readers look for ----

  /** From module c - 4 to module c + 4, where they exist: light, dark, light, three dark, light, dark, light. */
  ghost predicate Crosses(r: seq<bool>, c: int) {
    forall p: int | 0 <= p < |r| && -4 <= p - c <= 4 :: r[p] <==> Ring(p - c, 0) != 2 && Ring(p - c, 0) != 4
  }

  lemma CrossIsRatio(r: seq<bool>, c: int)
    requires Crosses(r, c) && 3 <= c < |r| - 3
    ensures Ratio(r, c - 1, 1)
  {
    assert forall p: int | -4 <= p - c <= 4 :: Px(r, p) ==> 0 <= p < |r|;
  }

  /** The row and the column through the centre of every finder pattern. */
  ghost predicate FindersShow(f: seq<byte>, w: nat)
    requires |f| == w * w && w >= 21
  {
    && Ratio(RowLine(f, w, 3), 2, 1) && Ratio(RowLine(f, w, 3), w - 5, 1) && Ratio(RowLine(f, w, w - 4), 2, 1)
    && Ratio(ColumnLine(f, w, 3), 2, 1) && Ratio(ColumnLine(f, w, 3), w - 5, 1) && Ratio(ColumnLine(f, w, w - 4), 2, 1)
  }

  /** g shows f's modules around the finder patterns. */
  ghost predicate KeepsFinders(g: seq<byte>, version: nat, w: nat) {
    && |g| == w * w
    && forall x: nat, y: nat | x < w && y < w && QrCell(version, w, x, y) >= 0xc0 ::
      g[Index(w, x, y)] % 2 == QrCell(version, w, x, y) % 2
  }

  lemma RowCrosses(g: seq<byte>, version: nat, w: nat, cx: nat, cy: nat)
    requires 1 <= version <= QRSPEC_VERSION_MAX && w == 17 + 4 * version && KeepsFinders(g, version, w)
    requires FinderCentre(w, cx, cy)
    ensures Crosses(RowLine(g, w, cy), cx) && Crosses(ColumnLine(g, w, cx), cy)
  {
    hide Index; hide RowLine; hide ColumnLine; hide QrCell; hide Ring;
    forall p: int | 0 <= p < w && -4 <= p - cx <= 4
      ensures RowLine(g, w, cy)[p] <==> Ring(p - cx, 0) != 2 && Ring(p - cx, 0) != 4
    {
      OnLine(p - cx);
      QrRings(version, w, cx, cy, p, cy);
      LineModule(g, w, cy, p);
    }
    forall p: int | 0 <= p < w && -4 <= p - cy <= 4
      ensures ColumnLine(g, w, cx)[p] <==> Ring(p - cy, 0) != 2 && Ring(p - cy, 0) != 4
    {
      OnLine(p - cy);
      QrRings(version, w, cx, cy, cx, p);
      LineModule(g, w, cx, p);
    }
  }

  lemma OnLine(d: int)
    ensures Ring(d, 0) == Ring(0, d) && (-4 <= d <= 4 ==> Ring(d, 0) <= 4)
  {
  }

  /** All three finder patterns are seen, in the frame and in everything that keeps their modules. */
  lemma FindersFound(g: seq<byte>, version: nat, w: nat)
    requires 1 <= version <= QRSPEC_VERSION_MAX && w == 17 + 4 * version && |g| == w * w && KeepsFinders(g, version, w)
    ensures w >= 21 && FindersShow(g, w)
  {
    hide *;
    CentresAre(w);
    RowCrosses(g, version, w, 3, 3); RowCrosses(g, version, w, w - 4, 3); RowCrosses(g, version, w, 3, w - 4);
    CrossIsRatio(RowLine(g, w, 3), 3); CrossIsRatio(RowLine(g, w, 3), w - 4); CrossIsRatio(RowLine(g, w, w - 4), 3);
    CrossIsRatio(ColumnLine(g, w, 3), 3); CrossIsRatio(ColumnLine(g, w, 3), w - 4); CrossIsRatio(ColumnLine(g, w, w - 4), 3);
    ShowIs(g, w);
  }

  lemma CentresAre(w: nat)
    ensures FinderCentre(w, 3, 3) && FinderCentre(w, w - 4, 3) && FinderCentre(w, 3, w - 4)
    ensures QRSPEC_VERSION_MAX == 40
  {
  }

  lemma ShowIs(f: seq<byte>, w: nat)
    requires |f| == w * w && w >= 21
    requires Ratio(RowLine(f, w, 3), 2, 1) && Ratio(RowLine(f, w, 3), w - 5, 1) && Ratio(RowLine(f, w, w - 4), 2, 1)
    requires Ratio(ColumnLine(f, w, 3), 2, 1) && Ratio(ColumnLine(f, w, 3), w - 5, 1) && Ratio(ColumnLine(f, w, w - 4), 2, 1)
    ensures FindersShow(f, w)
  {
    hide Ratio; hide RowLine; hide ColumnLine;
  }

  /** The one finder pattern of Micro QR. */
  lemma MicroFinderFound(f: seq<byte>, w: nat)
    requires w >= 11 && |f| == w * w
    requires forall x: nat, y: nat | x < w && y < w && MicroCell(x, y) >= 0xc0 :: f[Index(w, x, y)] % 2 == MicroCell(x, y) % 2
    ensures Ratio(RowLine(f, w, 3), 2, 1) && Ratio(ColumnLine(f, w, 3), 2, 1)
  {
    hide Index; hide RowLine; hide ColumnLine; hide MicroCell; hide Ring;
    forall p: int | 0 <= p < w && -4 <= p - 3 <= 4
      ensures RowLine(f, w, 3)[p] <==> Ring(p - 3, 0) != 2 && Ring(p - 3, 0) != 4
      ensures ColumnLine(f, w, 3)[p] <==> Ring(p - 3, 0) != 2 && Ring(p - 3, 0) != 4
    {
      OnLine(p - 3); MicroRings(p, 3); MicroRings(3, p);
      LineModule(f, w, 3, p);
    }
    CrossIsRatio(RowLine(f, w, 3), 3); CrossIsRatio(ColumnLine(f, w, 3), 3);
  }

  // ---- a frame is its own transpose, but for one module ----

  lemma BaseSymmetric(w: nat, x: nat, y: nat)
    requires w >= 21 && x < w && y < w
    ensures (x == 8 && y == w - 8) || (x == w - 8 && y == 8) || BaseCell(w, x, y) == BaseCell(w, y, x)
  {
    hide Finder;
    if x < 7 && y < 7 {
      FinderRings(x, y);
    } else if x < 7 && y >= w - 7 {
      FinderRings(x, y - (w - 7));
    } else if x >= w - 7 && y < 7 {
      FinderRings(x - (w - 7), y);
    }
  }

  lemma MarkerRings(x: int, y: int)
    requires 0 <= x < 5 && 0 <= y < 5
    ensures IsDark(Marker(x, y)) <==> Ring(x - 2, y - 2) != 1
    ensures Marker(x, y) == Marker(y, x) == Marker(4 - x, y) == Marker(x, 4 - y)
  {
  }

  lemma OffInside(a: Centres, x: int)
    requires a.d >= 5 && a.Near(a.m, x)
    ensures 0 <= a.Off(x) < 5
  {
  }

  lemma AlignSymmetric(a: Centres, x: int, y: int, v: int)
    requires a.d >= 5 && (a.m > 0 ==> (a.Near(a.m - 1, x) ==> a.Near(a.m, x)) && (a.Near(a.m - 1, y) ==> a.Near(a.m, y)))
    requires a.Near(a.m, x) ==> x >= 14
    requires a.Near(a.m, y) ==> y >= 14
    ensures AlignCell(a, x, y, v) == AlignCell(a, y, x, v)
  {
    hide Centres.Near; hide Centres.Off; hide Marker;
    if a.Near(a.m, x) {
      OffInside(a, x);
      if 4 <= y <= 8 {
        MarkerRings(a.Off(x), y - 4);
      }
    }
    if a.Near(a.m, y) {
      OffInside(a, y);
      if 4 <= x <= 8 {
        MarkerRings(x - 4, a.Off(y));
      }
    }
    if a.Near(a.m, x) && a.Near(a.m, y) {
      MarkerRings(a.Off(x), a.Off(y));
    }
  }

  /** The dark module beside the lower left separator is the only one without a counterpart. */
  lemma FrameSymmetric(version: nat, w: nat, x: nat, y: nat)
    requires 1 <= version <= QRSPEC_VERSION_MAX && w == 17 + 4 * version && x < w && y < w
    requires !(x == 8 && y == w - 8) && !(x == w - 8 && y == 8)
    ensures QrCell(version, w, x, y) == QrCell(version, w, y, x)
  {
    hide *;
    CentresAre(w);
    CentresWide(version);
    NearPlaces(version, w, x); NearPlaces(version, w, y);
    InnerIs(CentresOf(version));
    BaseSymmetric(w, x, y);
    AlignSymmetric(CentresOf(version), x, y, BaseCell(w, x, y));
    FrameCell(version, w, x, y); FrameCell(version, w, y, x);
    InfoSymmetric(w, VersionPattern(version), x, y, AlignCell(CentresOf(version), x, y, BaseCell(w, x, y)));
  }

  lemma CentresWide(version: nat)
    ensures CentresOf(version).d >= 5
  {
    hide AlignmentPattern;
  }

  lemma InnerIs(a: Centres)
    ensures Inner(a) == if a.m > 0 then a.m - 1 else 0
  {
  }

  lemma FrameCell(version: nat, w: nat, x: nat, y: nat)
    requires CentresOf(version).d > 0 && !(x == 8 && y == w - 8)
    ensures QrCell(version, w, x, y)
            == var v := AlignCell(CentresOf(version), x, y, BaseCell(w, x, y));
               if version >= 7 then VersionCell(w, VersionPattern(version), x, y, v) else v
  {
    hide AlignCell; hide BaseCell; hide VersionCell; hide VersionPattern; hide CentresOf;
  }

  lemma InfoSymmetric(w: nat, info: nat, x: nat, y: nat, v: int)
    requires w >= 21
    ensures VersionCell(w, info, x, y, v) == VersionCell(w, info, y, x, v)
  {
    hide BitAt;
  }

  /** That one is dark. */
  lemma DarkModule(version: nat, w: nat)
    ensures IsDark(QrCell(version, w, 8, w - 8)) && QrCell(version, w, 8, w - 8) >= 128
  {
  }

  // ---- alignment patterns ----

  /** Centre k: 6 for 0, then those of the table. */
  function Centre(a: Centres, k: nat): nat { if k == 0 then 6 else a.c + a.d * (k - 1) }

  /** Around every crossing of two centres outside the corners: dark but for the first ring. */
  lemma AlignmentRings(version: nat, w: nat, j: nat, k: nat, x: nat, y: nat)
    requires 2 <= version <= QRSPEC_VERSION_MAX && w == 17 + 4 * version && x < w && y < w
    requires var a := CentresOf(version);
             && j <= a.m && k <= a.m && !(j == 0 && (k == 0 || k == a.m)) && !(j == a.m && k == 0)
             && Ring(x - Centre(a, j), y - Centre(a, k)) <= 2
    ensures var a := CentresOf(version);
            && (IsDark(QrCell(version, w, x, y)) <==> Ring(x - Centre(a, j), y - Centre(a, k)) != 1)
            && QrCell(version, w, x, y) / 2 == 0x50
  {
    hide *;
    var a := CentresOf(version);
    CentresWide(version);
    CentresAre(w);
    CentresFit(version);
    OuterRing(x - Centre(a, j), y - Centre(a, k));
    CentrePlace(a, w, j, x); CentrePlace(a, w, k, y);
    FrameCell(version, w, x, y);
    CrossingCell(a, w, j, k, x, y, BaseCell(w, x, y));
    var v := AlignCell(a, x, y, BaseCell(w, x, y));
    NoInfo(a, w, VersionPattern(version), j, k, x, y, v);
  }

  lemma OuterRing(dx: int, dy: int)
    requires Ring(dx, dy) <= 2
    ensures -2 <= dx <= 2 && -2 <= dy <= 2
  {
  }

  lemma CentrePlace(a: Centres, w: nat, k: nat, x: nat)
    requires Fitting(a, w) && k <= a.m && -2 <= x - Centre(a, k) <= 2
    ensures a.d >= 5
    ensures k == 0 ==> 4 <= x <= 8 && Centre(a, k) == 6 && !a.Near(a.m, x) && !a.Near(a.m - 1, x)
    ensures k > 0 ==> 14 <= x <= w - 5 && a.Near(a.m, x) && a.Off(x) == x - (Centre(a, k) - 2)
    ensures 0 < k < a.m ==> a.Near(a.m - 1, x) && x <= w - 13
    ensures k == a.m ==> !a.Near(a.m - 1, x) && x >= w - 9
  {
    if k > 0 {
      CentreInside(a, w, k - 1);
      DivMod(a.d, k - 1, x - (Centre(a, k) - 2));
      assert (k - 1) * a.d == a.d * (k - 1);
      if k < a.m {
        MulMono(k, a.m - 1, a.d);
        assert k * a.d == a.d * (k - 1) + a.d && (a.m - 1) * a.d == a.d * (a.m - 1);
      }
    }
  }

  lemma CrossingCell(a: Centres, w: nat, j: nat, k: nat, x: nat, y: nat, v: int)
    requires Fitting(a, w) && j <= a.m && k <= a.m && !(j == 0 && (k == 0 || k == a.m)) && !(j == a.m && k == 0)
    requires -2 <= x - Centre(a, j) <= 2 && -2 <= y - Centre(a, k) <= 2 && a.d > 0
    ensures AlignCell(a, x, y, v) == Marker(x - (Centre(a, j) - 2), y - (Centre(a, k) - 2))
    ensures IsDark(AlignCell(a, x, y, v)) <==> Ring(x - Centre(a, j), y - Centre(a, k)) != 1
    ensures AlignCell(a, x, y, v) / 2 == 0x50
  {
    CentrePlace(a, w, j, x); CentrePlace(a, w, k, y);
    MarkerRings(x - (Centre(a, j) - 2), y - (Centre(a, k) - 2));
    hide Centres.Near; hide Centres.Off; hide Centre;
  }

  lemma NoInfo(a: Centres, w: nat, info: nat, j: nat, k: nat, x: nat, y: nat, v: int)
    requires Fitting(a, w) && j <= a.m && k <= a.m && !(j == 0 && (k == 0 || k == a.m)) && !(j == a.m && k == 0)
    requires -2 <= x - Centre(a, j) <= 2 && -2 <= y - Centre(a, k) <= 2
    ensures VersionCell(w, info, x, y, v) == v && !(x == 8 && y == w - 8)
  {
    CentrePlace(a, w, j, x); CentrePlace(a, w, k, y);
    hide BitAt; hide Centres.Near; hide Centres.Off; hide Centre;
  }

  /** The centres are even, and the distance is the least even number for which the first gap is not the longest. */
  predicate WellSpaced(version: nat) {
    var a, w := CentresOf(version), 17 + 4 * version;
    && a.c % 2 == 0 && a.c + a.d * (a.m - 1) == w - 7
    && (a.m > 1 ==> a.d % 2 == 0)
    && (a.m > 1 ==> if version == 32 then a.d == 26 else a.m * (a.d - 2) < w - 13 <= a.m * a.d)
    && a.m == (if version < 7 then 1 else version / 7 + 1)
  }

  lemma Spaced2()
    ensures WellSpaced(2) && WellSpaced(3)
  {
  }

  lemma Spaced4()
    ensures WellSpaced(4) && WellSpaced(5)
  {
  }

  lemma Spaced6()
    ensures WellSpaced(6) && WellSpaced(7) && WellSpaced(8) && WellSpaced(9)
  {
  }

  lemma Spaced10()
    ensures WellSpaced(10) && WellSpaced(11) && WellSpaced(12) && WellSpaced(13)
  {
  }

  lemma Spaced14()
    ensures WellSpaced(14) && WellSpaced(15) && WellSpaced(16) && WellSpaced(17)
  {
  }

  lemma Spaced18()
    ensures WellSpaced(18) && WellSpaced(19) && WellSpaced(20) && WellSpaced(21)
  {
  }

  lemma Spaced22()
    ensures WellSpaced(22) && WellSpaced(23) && WellSpaced(24) && WellSpaced(25)
  {
  }

  lemma Spaced26()
    ensures WellSpaced(26) && WellSpaced(27) && WellSpaced(28) && WellSpaced(29)
  {
  }

  lemma Spaced30()
    ensures WellSpaced(30) && WellSpaced(31) && WellSpaced(32) && WellSpaced(33)
  {
  }

  lemma Spaced34()
    ensures WellSpaced(34) && WellSpaced(35) && WellSpaced(36) && WellSpaced(37)
  {
  }

  lemma Spaced38()
    ensures WellSpaced(38) && WellSpaced(39) && WellSpaced(40)
  {
  }

  /** In every version but 32 the distance of the centres follows from the width and their number. */
  lemma CentresSpaced(version: nat)
    requires 2 <= version <= QRSPEC_VERSION_MAX
    ensures WellSpaced(version)
  {
    hide *;
    CentresAre(0);
    if version < 10 {
      Spaced2(); Spaced4(); Spaced6();
    } else if version < 18 {
      Spaced10(); Spaced14();
    } else if version < 26 {
      Spaced18(); Spaced22();
    } else if version < 34 {
      Spaced26(); Spaced30();
    } else {
      Spaced34(); Spaced38();
    }
  }

  lemma EvenCentres(version: nat)
    requires 2 <= version <= QRSPEC_VERSION_MAX
    ensures CentresOf(version).c % 2 == 0 && (CentresOf(version).m > 1 ==> CentresOf(version).d % 2 == 0)
  {
    CentresSpaced(version);
    hide CentresOf;
  }

  // ---- timing patterns ----

  /** Between the separators row 6 alternates, dark first, also through the alignment patterns on it. */
  lemma TimingAlternates(version: nat, w: nat, x: nat)
    requires 1 <= version <= QRSPEC_VERSION_MAX && w == 17 + 4 * version && 8 <= x < w - 8
    ensures IsDark(QrCell(version, w, x, 6)) <==> x % 2 == 0
  {
    hide *;
    CentresAre(w);
    CentresWide(version);
    FrameCell(version, w, x, 6);
    TimingBase(w, x);
    var a := CentresOf(version);
    if version >= 2 {
      CentresFit(version);
      EvenCentres(version);
      TimingMarker(a, w, x, BaseCell(w, x, 6));
    } else {
      NoCentres(version);
      NoMarker(a, x, 6, BaseCell(w, x, 6));
    }
    NoInfoOnTiming(w, VersionPattern(version), x, AlignCell(a, x, 6, BaseCell(w, x, 6)));
  }

  lemma TimingBase(w: nat, x: nat)
    requires w >= 21 && 8 <= x < w - 8
    ensures IsDark(BaseCell(w, x, 6)) <==> x % 2 == 0
  {
  }

  lemma NoMarker(a: Centres, x: int, y: int, v: int)
    requires a.d >= 5 && a.m == 0
    ensures AlignCell(a, x, y, v) == v
  {
    NearNone(a, x);
  }

  lemma NoInfoOnTiming(w: nat, info: nat, x: nat, v: int)
    requires w >= 21 && 8 <= x
    ensures VersionCell(w, info, x, 6, v) == v
  {
    hide BitAt;
  }

  lemma TimingMarker(a: Centres, w: nat, x: nat, v: int)
    requires Fitting(a, w) && a.c % 2 == 0 && (a.m > 1 ==> a.d % 2 == 0) && 8 <= x && (IsDark(v) <==> x % 2 == 0)
    ensures IsDark(AlignCell(a, x, 6, v)) <==> x % 2 == 0
  {
    SixIsNoCentre(a, w);
    NearNone(a, x);
    if a.Near(a.m - 1, x) {
      NearRange(a, w, a.m - 1, x);
      OffParity(a, x);
      MarkerRow(a.Off(x));
    }
    hide Centres.Near; hide Centres.Off; hide Marker;
  }

  lemma SixIsNoCentre(a: Centres, w: nat)
    requires Fitting(a, w)
    ensures !a.Near(a.m, 6) && !a.Near(a.m - 1, 6)
  {
    FittingIs(a, w);
  }

  lemma OffParity(a: Centres, x: int)
    requires a.d >= 5 && a.c % 2 == 0 && a.d % 2 == 0 && a.m > 0 && a.Near(a.m - 1, x)
    ensures a.Off(x) % 2 == x % 2 && 0 <= a.Off(x) < 5
  {
    hide *;
    OffIs(a, x);
    var e := x - (a.c - 2);
    Quotient(e, a.d);
    EvenMultiple(e / a.d, a.d);
    SameParity(x, a.c, e / a.d * a.d, a.Off(x));
  }

  lemma OffIs(a: Centres, x: int)
    requires a.d >= 5 && a.m > 0 && a.Near(a.m - 1, x)
    ensures x >= a.c - 2 && a.Off(x) == (x - (a.c - 2)) % a.d && 0 <= a.Off(x) < 5
  {
  }

  lemma SameParity(x: int, c: int, m: int, r: int)
    requires x - (c - 2) == m + r && c % 2 == 0 && m % 2 == 0
    ensures r % 2 == x % 2
  {
  }

  lemma EvenMultiple(q: nat, d: nat)
    requires d % 2 == 0
    ensures q * d % 2 == 0
  {
    Doubled(q, d / 2);
    assert d == 2 * (d / 2);
  }

  lemma MarkerRow(x: int)
    requires 0 <= x < 5
    ensures IsDark(Marker(x, 2)) <==> x % 2 == 0
  {
  }

  // ---- the places of the format information ----

  /** The next place of a path around a corner, past row or column 6. */
  predicate NextPlace(x: int, y: int, x': int, y': int) {
    (x' == x == 8 && y' == (if y == 5 then 7 else y + 1)) || (y' == y == 8 && x' == (if x == 7 then 5 else x - 1))
  }

  /** One copy goes down from the top to row 8 and then left to the edge, bit 0 first. */
  lemma InnerCopy(w: nat, i: nat)
    requires i < 15 && w >= 21
    ensures i == 0 ==> FormatX(w, 1) == 8 && FormatY(w, 1) == 0
    ensures i == 14 ==> FormatX(w, 29) == 0 && FormatY(w, 29) == 8
    ensures i < 14 ==> NextPlace(FormatX(w, 2 * i + 1), FormatY(w, 2 * i + 1), FormatX(w, 2 * i + 3), FormatY(w, 2 * i + 3))
  {
  }

  /** The other takes eight places leftwards from the right edge, and then seven downwards to the lower edge. */
  lemma OuterCopy(w: nat, i: nat)
    requires i < 15 && w >= 21
    ensures i == 0 ==> FormatX(w, 0) == w - 1 && FormatY(w, 0) == 8
    ensures i == 14 ==> FormatX(w, 28) == 8 && FormatY(w, 28) == w - 1
    ensures i < 7 ==> FormatX(w, 2 * i + 2) == FormatX(w, 2 * i) - 1 && FormatY(w, 2 * i + 2) == 8
    ensures 8 <= i < 14 ==> FormatX(w, 2 * i + 2) == 8 && FormatY(w, 2 * i + 2) == FormatY(w, 2 * i) + 1
  {
  }
}
