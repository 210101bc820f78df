/** Damaged symbols: what was sent is nearest to what is read, in the format information and in every block. */
module Correction {
  import opened Bits
  import opened BitString
  import opened Format
  import opened FormatCode
  import opened FrameFiller
  import opened Frames
  import opened Interleave
  import opened Mask
  import opened QrCode
  import opened QrDrawing
  import opened QrEncode
  import opened QrTables
  import opened RawCode
  import opened Reader
  import opened RsCode
  import opened Snake
  import opened Wrappers

  // ---- blocks ----

  /** Block i as it was sent, data and check bytes, and as it was read. */
  function SentBlock(s: EccSpec, data: seq<byte>, i: nat): (r: seq<byte>)
    requires s.Valid() && |data| == s.DataLength() && i < s.Blocks()
  {
    BlockData(s, data, i) + Ecc(BlockData(s, data, i), s.el)
  }

  function ReadBlock(s: EccSpec, data: seq<byte>, ecc: seq<byte>, i: nat): (r: seq<byte>)
    requires s.Valid() && |data| == s.DataLength() && |ecc| == s.EccLength() && i < s.Blocks()
  {
    BlockInside(s, i);
    BlockData(s, data, i) + ecc[s.EccStart(i)..s.EccStart(i + 1)]
  }

  lemma BlockSizes(s: EccSpec, data: seq<byte>, other: seq<byte>, ecc: seq<byte>, i: nat)
    requires s.Valid() && |data| == |other| == s.DataLength() && |ecc| == s.EccLength() && i < s.Blocks()
    ensures |BlockData(s, data, i)| == |BlockData(s, other, i)| == s.Len(i)
    ensures |SentBlock(s, data, i)| == |ReadBlock(s, other, ecc, i)| == s.Len(i) + s.el
  {
    BlockInside(s, i);
  }

  /** At most el / 2 bytes of block i were read wrongly, if data was sent. */
  ghost predicate BlockWithin(s: EccSpec, data: seq<byte>, readData: seq<byte>, readEcc: seq<byte>, i: nat)
    requires s.Valid() && |data| == |readData| == s.DataLength() && |readEcc| == s.EccLength() && i < s.Blocks()
  {
    BlockSizes(s, data, readData, readEcc, i);
    2 * Distance(SentBlock(s, data, i), ReadBlock(s, readData, readEcc, i)) <= s.el
  }

  ghost predicate Within(s: EccSpec, data: seq<byte>, readData: seq<byte>, readEcc: seq<byte>)
    requires s.Valid() && |data| == |readData| == s.DataLength() && |readEcc| == s.EccLength()
  {
    forall i: nat | i < s.Blocks() :: BlockWithin(s, data, readData, readEcc, i)
  }

  /** In every block that is within, every other data of the block's length is farther from what was read. */
  lemma BlockNearest(s: EccSpec, data: seq<byte>, readData: seq<byte>, readEcc: seq<byte>, i: nat, other: seq<byte>)
    requires s.Valid() && s.dl1 + 1 + s.el <= 255
    requires |data| == |readData| == s.DataLength() && |readEcc| == s.EccLength() && i < s.Blocks()
    requires BlockWithin(s, data, readData, readEcc, i)
    requires |other| == s.Len(i) && other != BlockData(s, data, i)
    ensures |SentBlock(s, data, i)| == |ReadBlock(s, readData, readEcc, i)| == |other + Ecc(other, s.el)|
    ensures Distance(other + Ecc(other, s.el), ReadBlock(s, readData, readEcc, i))
            > Distance(SentBlock(s, data, i), ReadBlock(s, readData, readEcc, i))
  {
    hide Ecc; hide Distance; hide ReadBlock; hide BlockData;
    BlockSizes(s, data, readData, readEcc, i);
    BlockShort(s, i);
    NearestIsSent(BlockData(s, data, i), other, ReadBlock(s, readData, readEcc, i), s.el);
  }

  lemma BlockShort(s: EccSpec, i: nat)
    requires s.Valid() && s.dl1 + 1 + s.el <= 255 && i < s.Blocks()
    ensures s.Len(i) + s.el <= 255
  {
  }

  /** Two data codes are the same when all their blocks are. */
  lemma BlocksCover(s: EccSpec, data: seq<byte>, other: seq<byte>)
    requires s.Valid() && |data| == |other| == s.DataLength()
    requires forall i: nat | i < s.Blocks() :: BlockData(s, data, i) == BlockData(s, other, i)
    ensures data == other
  {
    SameUpTo(s, data, other, s.Blocks());
  }

  lemma {:induction false} SameUpTo(s: EccSpec, data: seq<byte>, other: seq<byte>, n: nat)
    requires s.Valid() && |data| == |other| == s.DataLength() && n <= s.Blocks()
    requires forall i: nat | i < n :: BlockData(s, data, i) == BlockData(s, other, i)
    ensures s.Start(n) <= |data| && data[..s.Start(n)] == other[..s.Start(n)]
  {
    if n > 0 {
      SameUpTo(s, data, other, n - 1);
      BlockInside(s, n - 1);
      BlockIs(s, data, n - 1); BlockIs(s, other, n - 1);
      hide EccSpec.Start; hide BlockData;
      var a, b := s.Start(n - 1), s.Start(n);
      assert data[..b] == data[..a] + data[a..b] && other[..b] == other[..a] + other[a..b];
    }
  }

  lemma BlockIs(s: EccSpec, data: seq<byte>, i: nat)
    requires s.Valid() && |data| == s.DataLength() && i < s.Blocks()
    ensures s.Start(i) <= s.Start(i + 1) <= |data| && BlockData(s, data, i) == data[s.Start(i)..s.Start(i + 1)]
  {
    BlockInside(s, i);
  }

  /** Only one data code is within correction of what was read. */
  lemma OnlyOneWithin(s: EccSpec, data: seq<byte>, other: seq<byte>, readData: seq<byte>, readEcc: seq<byte>)
    requires s.Valid() && s.dl1 + 1 + s.el <= 255
    requires |data| == |other| == |readData| == s.DataLength() && |readEcc| == s.EccLength()
    requires Within(s, data, readData, readEcc) && Within(s, other, readData, readEcc)
    ensures data == other
  {
    hide *;
    forall i: nat | i < s.Blocks() ensures BlockData(s, data, i) == BlockData(s, other, i) {
      WithinAt(s, data, readData, readEcc, i); WithinAt(s, other, readData, readEcc, i);
      BlockSizes(s, data, other, readEcc, i); BlockSizes(s, other, data, readEcc, i);
      if BlockData(s, data, i) != BlockData(s, other, i) {
        BlockNearest(s, data, readData, readEcc, i, BlockData(s, other, i));
        BlockNearest(s, other, readData, readEcc, i, BlockData(s, data, i));
        SentIs(s, data, i); SentIs(s, other, i);
        assert false;
      }
    }
    BlocksCover(s, data, other);
  }

  lemma SentIs(s: EccSpec, data: seq<byte>, i: nat)
    requires s.Valid() && |data| == s.DataLength() && i < s.Blocks()
    ensures SentBlock(s, data, i) == BlockData(s, data, i) + Ecc(BlockData(s, data, i), s.el)
  {
    hide Ecc; hide BlockData;
  }

  lemma WithinAt(s: EccSpec, data: seq<byte>, readData: seq<byte>, readEcc: seq<byte>, i: nat)
    requires s.Valid() && |data| == |readData| == s.DataLength() && |readEcc| == s.EccLength() && i < s.Blocks()
    requires Within(s, data, readData, readEcc)
    ensures BlockWithin(s, data, readData, readEcc, i)
  {
    hide BlockWithin;
  }

  // ---- symbols ----

  /** The modules of the walk in the frame of a version. */
  ghost function Path(version: nat): (r: seq<nat>)
    requires 1 <= version <= QRSPEC_VERSION_MAX
    ensures InFrame(r, GetWidth(version) * GetWidth(version)) && GetWidth(version) >= 17
  {
    PathInFrame(version);
    Cells(GetWidth(version), QrFrame(version))
  }

  lemma PathInFrame(version: nat)
    requires 1 <= version <= QRSPEC_VERSION_MAX
    ensures GetWidth(version) >= 17 && Walk(GetWidth(version), false).Layout(ReservedMap(QrFrame(version)))
    ensures InFrame(Cells(GetWidth(version), QrFrame(version)), GetWidth(version) * GetWidth(version))
  {
    hide *;
    Capacities(version, 0);
    WidthOf(version);
    CellsAre(GetWidth(version), QrFrame(version));
    CellsInFrame(Walk(GetWidth(version), false), ReservedMap(QrFrame(version)));
  }

  /** What is read with a known mask and level, before correction. */
  ghost function RawRead(version: nat, dark: seq<bool>, level: nat, mask: nat): (c: Option<Content>)
    requires 1 <= version <= QRSPEC_VERSION_MAX && level < 4
    requires |dark| == GetWidth(version) * GetWidth(version)
  {
    TableSpecs(version, level);
    ReadContent(dark, GetWidth(version), Path(version), GetEccSpec(version, level), level, mask)
  }

  /**
   A symbol, perhaps damaged, may be taken for one of this level, mask and data: at most three modules of
   its format information and in every block at most el / 2 bytes would have to be wrong.
   */
  ghost predicate Decodes(version: nat, dark: seq<bool>, level: nat, mask: nat, data: seq<byte>)
    requires 1 <= version <= QRSPEC_VERSION_MAX && level < 4 && mask < MASK_NUM
    requires |dark| == GetWidth(version) * GetWidth(version) && |data| == GetDataLength(version, level)
  {
    WidthOf(version);
    TableSpecs(version, level);
    var s, c := GetEccSpec(version, level), RawRead(version, dark, level, mask);
    && Distance(FormatWord(mask, level), FormatDark(GetWidth(version), dark)) <= 3
    && c.Some? && |c.value.data| == s.DataLength() && |c.value.ecc| == s.EccLength()
    && Within(s, data, c.value.data, c.value.ecc)
  }

  /** There is at most one level, mask and data that a symbol may be taken for. */
  lemma DecodesOnce(version: nat, dark: seq<bool>, level: nat, mask: nat, data: seq<byte>,
                    level': nat, mask': nat, data': seq<byte>)
    requires 1 <= version <= QRSPEC_VERSION_MAX && level < 4 && mask < MASK_NUM && level' < 4 && mask' < MASK_NUM
    requires |dark| == GetWidth(version) * GetWidth(version)
    requires |data| == GetDataLength(version, level) && |data'| == GetDataLength(version, level')
    requires Decodes(version, dark, level, mask, data) && Decodes(version, dark, level', mask', data')
    ensures level == level' && mask == mask' && data == data'
  {
    hide *;
    DecodesParts(version, dark, level, mask, data); DecodesParts(version, dark, level', mask', data');
    if level != level' || mask != mask' {
      FormatCorrected(FormatDark(GetWidth(version), dark), mask, level, mask', level');
      assert false;
    }
    var s, c := GetEccSpec(version, level), RawRead(version, dark, level, mask).value;
    OnlyOneWithin(s, data, data', c.data, c.ecc);
  }

  lemma DecodesParts(version: nat, dark: seq<bool>, level: nat, mask: nat, data: seq<byte>)
    requires 1 <= version <= QRSPEC_VERSION_MAX && level < 4 && mask < MASK_NUM
    requires |dark| == GetWidth(version) * GetWidth(version) && |data| == GetDataLength(version, level)
    requires Decodes(version, dark, level, mask, data)
    ensures MASK_NUM == 8 && GetWidth(version) >= 17
    ensures Distance(FormatWord(mask, level), FormatDark(GetWidth(version), dark)) <= 3
    ensures var s, c := GetEccSpec(version, level), RawRead(version, dark, level, mask);
            && s.Valid() && s.dl1 + 1 + s.el <= 255 && |data| == s.DataLength()
            && c.Some? && |c.value.data| == s.DataLength() && |c.value.ecc| == s.EccLength()
            && Within(s, data, c.value.data, c.value.ecc)
  {
    hide Distance; hide FormatWord; hide FormatDark; hide Within; hide RawRead; hide Capacity; hide Version.SpecAt;
    WidthOf(version);
    TableSpecs(version, level);
  }

  // ---- an undamaged symbol ----

  lemma {:induction false} BlockEcc(s: EccSpec, data: seq<byte>, n: nat, i: nat)
    requires s.Valid() && |data| == s.DataLength() && i < n <= s.Blocks()
    ensures s.EccStart(i) <= s.EccStart(i + 1) <= s.EccStart(n)
    ensures AllEcc(s, data, n)[s.EccStart(i)..s.EccStart(i + 1)] == Ecc(BlockData(s, data, i), s.el)
  {
    hide Ecc; hide BlockData;
    BlockInside(s, n - 1); BlockInside(s, i);
    var front, last := AllEcc(s, data, n - 1), Ecc(BlockData(s, data, n - 1), s.el);
    assert AllEcc(s, data, n) == front + last;
    if i < n - 1 {
      BlockEcc(s, data, n - 1, i);
    }
    hide EccSpec.EccStart; hide AllEcc;
    SliceOfSum(front, last, s.EccStart(i), s.EccStart(i + 1));
  }

  lemma SliceOfSum<T>(a: seq<T>, b: seq<T>, lo: nat, hi: nat)
    requires lo <= hi <= |a| + |b|
    ensures hi <= |a| ==> (a + b)[lo..hi] == a[lo..hi]
    ensures lo == |a| && hi == |a| + |b| ==> (a + b)[lo..hi] == b
  {
  }

  lemma {:induction false} NoDistance(a: seq<byte>)
    ensures Distance(a, a) == 0
  {
    if a != [] {
      NoDistance(a[1..]);
    }
  }

  lemma SentIsWithin(s: EccSpec, data: seq<byte>)
    requires s.Valid() && |data| == s.DataLength()
    ensures |AllEcc(s, data, s.Blocks())| == s.EccLength()
    ensures Within(s, data, data, AllEcc(s, data, s.Blocks()))
  {
    hide Ecc; hide AllEcc; hide BlockData; hide Distance;
    var ecc := AllEcc(s, data, s.Blocks());
    forall i: nat | i < s.Blocks() ensures BlockWithin(s, data, data, ecc, i) {
      BlockEcc(s, data, s.Blocks(), i);
      assert ReadBlock(s, data, ecc, i) == SentBlock(s, data, i);
      NoDistance(SentBlock(s, data, i));
    }
  }

  lemma FormatRead(f: seq<byte>, w: nat, mask: nat, level: nat)
    requires |f| == w * w && w >= 17 && mask < MASK_NUM && level < 4
    ensures mask < 8 && FormatDark(w, DarkMap(Finished(f, w, mask, level))) == FormatWord(mask, level)
    ensures ParseFormat(Value(FormatDark(w, DarkMap(Finished(f, w, mask, level))))) == Some((level, mask))
  {
    FormatsDistinct(mask, level);
    hide Masked; hide Formatted; hide FormatInfo; hide FormatDark; hide DarkMap; hide Value; hide NumBits; hide ParseFormat;
    FormatReadBack(Masked(f, w, FlipsOf(mask)), w, FormatInfo(mask, level));
    NumOfValue(FormatDark(w, DarkMap(Finished(f, w, mask, level))));
  }

  /** The symbol that is drawn for a level, mask and data may be taken for them, and so for nothing else. */
  lemma SentDecodes(version: nat, level: nat, mask: nat, data: seq<byte>)
    requires 1 <= version <= QRSPEC_VERSION_MAX && level < 4 && mask < MASK_NUM && |data| == GetDataLength(version, level)
    ensures GetWidth(version) >= 17
    ensures Decodes(version, DarkMap(Finished(Drawn(version, level, data), GetWidth(version), mask, level)), level, mask, data)
  {
    hide *;
    WidthOf(version);
    Capacities(version, level);
    var w, s, g := GetWidth(version), GetEccSpec(version, level), Drawn(version, level, data);
    var dark := DarkMap(Finished(g, w, mask, level));
    FormatRead(g, w, mask, level);
    VersionRead(version, level, mask, data);
    SentIsWithin(s, data);
    NoDistance(FormatWord(mask, level));
    ReadIsRaw(version, dark, level, mask);
    DecodesIs(version, dark, level, mask, data);
  }

  lemma ReadIsRaw(version: nat, dark: seq<bool>, level: nat, mask: nat)
    requires 1 <= version <= QRSPEC_VERSION_MAX && level < 4
    requires |dark| == GetWidth(version) * GetWidth(version) && GetWidth(version) >= 17
    requires var w, res := GetWidth(version), ReservedMap(QrFrame(version));
             && Walk(w, false).Layout(res) && FormatReserved(res, w) && GetEccSpec(version, level).Valid()
             && ParseFormat(Value(FormatDark(w, dark))) == Some((level, mask))
    ensures Read(dark, GetWidth(version), ReservedMap(QrFrame(version)), GetEccSpec(version, level))
            == RawRead(version, dark, level, mask)
  {
    hide ReadContent; hide Capacity; hide FormatDark; hide Value; hide ParseFormat; hide Walk.From; hide QrFrame;
    hide Walk.Layout; hide FormatReserved; hide ReservedMap; hide Version.SpecAt;
  }

  lemma DecodesIs(version: nat, dark: seq<bool>, level: nat, mask: nat, data: seq<byte>)
    requires 1 <= version <= QRSPEC_VERSION_MAX && level < 4 && mask < MASK_NUM && mask < 8
    requires GetWidth(version) >= 17
    requires |dark| == GetWidth(version) * GetWidth(version) && |data| == GetDataLength(version, level)
    requires FormatDark(GetWidth(version), dark) == FormatWord(mask, level)
    requires Distance(FormatWord(mask, level), FormatWord(mask, level)) == 0
    requires var s := GetEccSpec(version, level);
             && s.Valid() && |data| == s.DataLength() && |AllEcc(s, data, s.Blocks())| == s.EccLength()
             && RawRead(version, dark, level, mask) == Some(Content(level, mask, data, AllEcc(s, data, s.Blocks())))
             && Within(s, data, data, AllEcc(s, data, s.Blocks()))
    ensures Decodes(version, dark, level, mask, data)
  {
    hide Distance; hide FormatWord; hide FormatDark; hide Within; hide RawRead; hide Capacity; hide Version.SpecAt; hide AllEcc;
  }
}
