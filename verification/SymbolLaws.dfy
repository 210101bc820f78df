/** What can be seen in every finished symbol that the encoder draws. */
module SymbolLaws {
  import opened Bits
  import opened BitString
  import opened Demerits
  import opened Format
  import opened FrameFiller
  import opened FrameLaws
  import opened Frames
  import opened Interleave
  import opened Mask
  import opened MaskChoice
  import opened Painting
  import opened QrCapacity
  import opened QrCode
  import opened QrDrawing
  import opened QrEncode
  import opened QrSpec
  import opened QrTables
  import opened RawCode
  import opened Reader
  import opened Snake
  import opened Wrappers

  /** The finished symbol. */
  ghost function SymbolOf(version: nat, level: nat, mask: nat, data: seq<byte>): (r: seq<byte>)
    requires 1 <= version <= QRSPEC_VERSION_MAX && level < 4 && mask < MASK_NUM && |data| == GetDataLength(version, level)
    ensures GetWidth(version) == 17 + 4 * version && |r| == GetWidth(version) * GetWidth(version)
  {
    WidthOf(version);
    Finished(Drawn(version, level, data), GetWidth(version), mask, level)
  }

  lemma MaskedFlagged(g: seq<byte>, w: nat, flips: (nat, nat) -> bool, c: nat)
    requires w > 0 && c < |g| && g[c] >= 128
    ensures Masked(g, w, flips)[c] == g[c]
  {
    MaskedAt(g, w, flips, c);
  }

  lemma FormattedElsewhere(g: seq<byte>, w: nat, fmt: nat, c: nat)
    requires |g| == w * w && w >= 17 && c < |g| && forall n :: 0 <= n < 30 ==> FormatCell(w, n) != c
    ensures Formatted(g, w, fmt)[c] == g[c]
  {
    hide Fill; hide FormatCell; hide FormatVals;
    forall i | 0 <= i < |FormatVals(fmt)| ensures FormatCells(w)[i] != c {
      assert FormatCells(w)[i] == FormatCell(w, i);
    }
    FillElsewhere(g, FormatCells(w), FormatVals(fmt), c);
  }

  lemma FrameAt(version: nat, w: nat, x: nat, y: nat)
    requires 1 <= version <= QRSPEC_VERSION_MAX && w == GetWidth(version) && x < w && y < w
    ensures |QrFrame(version)| == w * w && QrFrame(version)[Index(w, x, y)] == QrCell(version, w, x, y)
  {
    hide QrCell; hide Index; hide GetWidth;
    assert Shows(QrFrame(version), w, QrPicture(version, w));
    assert QrPicture(version, w)(x, y) == QrCell(version, w, x, y);
  }

  lemma FormatElsewhere(version: nat, w: nat, x: nat, y: nat)
    requires 1 <= version <= QRSPEC_VERSION_MAX && w == 17 + 4 * version && x < w && y < w
    requires QrCell(version, w, x, y) != 0x84
    ensures forall n :: 0 <= n < 30 ==> FormatCell(w, n) != Index(w, x, y)
  {
    forall n | 0 <= n < 30 ensures FormatCell(w, n) != Index(w, x, y) {
      FormatPlaceCell(version, w, n);
      hide *;
      IndexInverse(w, FormatX(w, n), FormatY(w, n));
      IndexInverse(w, x, y);
      FormatCellIs(w, n);
    }
  }

  lemma FormatCellIs(w: nat, n: nat)
    requires n < 30 && w >= 17
    ensures 0 <= FormatX(w, n) < w && 0 <= FormatY(w, n) < w && FormatCell(w, n) == Index(w, FormatX(w, n), FormatY(w, n))
  {
    InSymbol(w, n);
  }

  /** Function patterns and version information are in the symbol as they are in the frame. */
  lemma ReservedKept(version: nat, level: nat, mask: nat, data: seq<byte>, x: nat, y: nat)
    requires 1 <= version <= QRSPEC_VERSION_MAX && level < 4 && mask < MASK_NUM && |data| == GetDataLength(version, level)
    requires x < GetWidth(version) && y < GetWidth(version)
    requires var v := QrCell(version, GetWidth(version), x, y); v >= 128 && v != 0x84
    ensures SymbolOf(version, level, mask, data)[Index(GetWidth(version), x, y)] == QrCell(version, GetWidth(version), x, y)
  {
    hide *;
    WidthOf(version);
    var w, f, g := GetWidth(version), QrFrame(version), Drawn(version, level, data);
    var c := Index(w, x, y);
    FrameAt(version, w, x, y);
    DrawnKeeps(version, level, data);
    MapAt(f, c);
    FormatElsewhere(version, w, x, y);
    MaskedFlagged(g, w, FlipsOf(mask), c);
    FormattedElsewhere(Masked(g, w, FlipsOf(mask)), w, FormatInfo(mask, level), c);
    SymbolIsFinished(version, level, mask, data);
  }

  lemma SymbolIsFinished(version: nat, level: nat, mask: nat, data: seq<byte>)
    requires 1 <= version <= QRSPEC_VERSION_MAX && level < 4 && mask < MASK_NUM && |data| == GetDataLength(version, level)
    ensures var w, g := GetWidth(version), Drawn(version, level, data);
            && w >= 21 && |g| == w * w
            && SymbolOf(version, level, mask, data) == Finished(g, w, mask, level)
            && Finished(g, w, mask, level) == Formatted(Masked(g, w, FlipsOf(mask)), w, FormatInfo(mask, level))
  {
    WidthOf(version);
    hide Drawn; hide GetWidth; hide Formatted; hide Masked; hide FormatInfo; hide GetDataLength;
  }

  /** In every symbol, whatever its data and mask, a reader finds the three finder patterns. */
  lemma FindersSeen(version: nat, level: nat, mask: nat, data: seq<byte>)
    requires 1 <= version <= QRSPEC_VERSION_MAX && level < 4 && mask < MASK_NUM && |data| == GetDataLength(version, level)
    ensures FindersShow(SymbolOf(version, level, mask, data), GetWidth(version))
  {
    hide *;
    WidthOf(version);
    var w, s := GetWidth(version), SymbolOf(version, level, mask, data);
    forall x: nat, y: nat | x < w && y < w && QrCell(version, w, x, y) >= 0xc0
      ensures s[Index(w, x, y)] % 2 == QrCell(version, w, x, y) % 2
    {
      ReservedKept(version, level, mask, data, x, y);
    }
    KeepsIs(s, version, w);
    FindersFound(s, version, w);
  }

  lemma KeepsIs(g: seq<byte>, version: nat, w: nat)
    requires |g| == w * w
    requires forall x: nat, y: nat | x < w && y < w && QrCell(version, w, x, y) >= 0xc0 ::
               g[Index(w, x, y)] % 2 == QrCell(version, w, x, y) % 2
    ensures KeepsFinders(g, version, w)
  {
    hide QrCell; hide Index;
  }

  // ---- version information ----

  /** Bit i stands three to a column beside the lower left finder pattern, and three to a row beside the upper right one. */
  lemma VersionShown(version: nat, w: nat, i: nat)
    requires 7 <= version <= QRSPEC_VERSION_MAX && w == 17 + 4 * version && i < 18
    ensures QrCell(version, w, i / 3, w - 11 + i % 3) == 0x88 + BitAt(VersionPattern(version), i)
    ensures QrCell(version, w, w - 11 + i % 3, i / 3) == 0x88 + BitAt(VersionPattern(version), i)
  {
    hide *;
    CentresWide(version);
    var x, y, info := i / 3, w - 11 + i % 3, VersionPattern(version);
    FrameCell(version, w, x, y); FrameCell(version, w, y, x);
    InfoAt(w, info, i, x, y, AlignCell(CentresOf(version), x, y, BaseCell(w, x, y)));
    InfoAt(w, info, i, x, y, AlignCell(CentresOf(version), y, x, BaseCell(w, y, x)));
  }

  lemma InfoAt(w: nat, info: nat, i: nat, x: nat, y: nat, v: int)
    requires w >= 21 && i < 18 && x == i / 3 && y == w - 11 + i % 3
    ensures VersionCell(w, info, x, y, v) == 0x88 + BitAt(info, i) == VersionCell(w, info, y, x, v)
  {
    hide BitAt;
    assert 3 * x + (y - (w - 11)) == i;
  }

  // ---- masks ----

  /** The demerit of a mask, in terms of the symbol it gives: its lines and blocks, and ten for every five per cent. */
  lemma DemeritOfSymbol(version: nat, level: nat, mask: nat, data: seq<byte>, k: nat)
    requires 1 <= version <= QRSPEC_VERSION_MAX && level < 4 && mask < MASK_NUM && |data| == GetDataLength(version, level)
    ensures var w, s := GetWidth(version), SymbolOf(version, level, mask, data);
            var rest := Demerit(Drawn(version, level, data), w, mask, level) - SymbolPenalty(s, w);
            && rest >= 0 && rest % 10 == 0
            && (rest >= 10 * k <==> 200 * Darks(s) < (101 - 10 * k) * (w * w) || 200 * Darks(s) >= (99 + 10 * k) * (w * w))
  {
    hide *;
    SymbolIsFinished(version, level, mask, data);
    CountIsExact(version, level, mask, data);
    var w, s := GetWidth(version), SymbolOf(version, level, mask, data);
    W2Positive(w);
    DemeritIs(Drawn(version, level, data), w, mask, level);
    BalanceSteps(Darks(s), w * w, k);
  }

  lemma DemeritIs(g: seq<byte>, w: nat, mask: nat, level: nat)
    requires |g| == w * w && w >= 17 && mask < MASK_NUM && level < 4
    ensures w * w > 0 && Demerit(g, w, mask, level)
                         == BalancePenalty(CountedBlacks(g, w, mask, level), w * w) + SymbolPenalty(Finished(g, w, mask, level), w)
  {
    W2Positive(w);
    hide BalancePenalty; hide SymbolPenalty; hide CountedBlacks; hide Finished;
  }

  /** What the encoder returns can be read, and with the mask it was asked for. */
  lemma EncodedRead(version: nat, level: nat, data: seq<byte>, mask: int, chosen: nat, r: seq<byte>)
    requires 1 <= version <= QRSPEC_VERSION_MAX && level < 4 && |data| == GetDataLength(version, level)
    requires mask != -2 && IsSymbolOf(version, level, data, mask, chosen, r)
    ensures var w, s, res := GetWidth(version), GetEccSpec(version, level), ReservedMap(QrFrame(version));
            && w >= 17 && s.Valid() && Walk(w, false).Layout(res) && FormatReserved(res, w) && |r| == w * w && |data| == s.DataLength()
            && chosen < MASK_NUM && (mask >= 0 ==> chosen == mask)
            && Read(DarkMap(r), w, res, s) == Some(Content(level, chosen, data, AllEcc(s, data, s.Blocks())))
            && var g := Drawn(version, level, data);
               (mask < 0 ==>
                  && (forall m: nat | m < 8 :: Demerit(g, w, m, level) >= Demerit(g, w, chosen, level))
                  && (forall m: nat | m < chosen :: Demerit(g, w, m, level) > Demerit(g, w, chosen, level)))
  {
    WidthOf(version);
    hide Finished; hide Drawn; hide GetWidth; hide GetEccSpec; hide GetDataLength; hide QrFrame; hide Demerit;
    hide Walk.Layout; hide ReservedMap; hide FormatReserved; hide Read; hide DarkMap; hide AllEcc;
    VersionRead(version, level, chosen, data);
  }

  // ---- the modules before masking ----

  /** Bit 1 of a module tells check codes and remainder from data. */
  lemma ValueMarks(s: EccSpec, data: seq<byte>, ecc: seq<byte>, remainder: nat, i: nat)
    requires s.Valid() && |data| == s.DataLength() && |ecc| == s.EccLength() && i < 8 * (|data| + |ecc|) + remainder
    ensures var v := SymbolVals(s, data, ecc, remainder)[i];
            && v < 4 && (v >= 2 <==> i >= 8 * |data|)
            && (i < 8 * (|data| + |ecc|) ==> v % 2 == (BytesBits(DataStream(s, data)) + BytesBits(EccStream(s, ecc)))[i])
            && (i >= 8 * (|data| + |ecc|) ==> v == 2)
  {
    hide BytesBits; hide DataStream; hide EccStream;
  }

  /** An unmasked symbol holds those values along the walk. */
  lemma DrawnAlongWalk(version: nat, level: nat, data: seq<byte>, i: nat)
    requires 1 <= version <= QRSPEC_VERSION_MAX && level < 4 && |data| == GetDataLength(version, level)
    ensures var w, s, f := GetWidth(version), GetEccSpec(version, level), QrFrame(version);
            && Walk(w, false).Layout(ReservedMap(f)) && s.Valid() && |data| == s.DataLength()
            && var ecc, cells := AllEcc(s, data, s.Blocks()), Cells(w, f);
               && |ecc| == s.EccLength() && InFrame(cells, |Drawn(version, level, data)|)
               && |cells| == |SymbolVals(s, data, ecc, GetRemainder(version))|
               && (i < |cells| ==> Drawn(version, level, data)[cells[i]] == SymbolVals(s, data, ecc, GetRemainder(version))[i])
  {
    hide *;
    Capacities(version, level);
    var w, s, f := GetWidth(version), GetEccSpec(version, level), QrFrame(version);
    CellsAre(w, f);
    DrawnIs(version, level, data);
    SymbolIs(w, f, s, GetRemainder(version), data);
    WalkIsComplete(Walk(w, false), ReservedMap(f));
    EccSize(s);
    if i < |Cells(w, f)| {
      FillAt(f, Cells(w, f), SymbolVals(s, data, AllEcc(s, data, s.Blocks()), GetRemainder(version)), i);
    }
  }

  lemma EccSize(s: EccSpec)
    ensures s.EccStart(s.Blocks()) == s.EccLength()
  {
  }
}
