/** An ideal reader of QR symbols, and the proof that it gets back what was encoded. */
module Reader {
  import opened Arith
  import opened Bits
  import opened BitString
  import opened Emit
  import opened Format
  import opened FrameFiller
  import opened Frames
  import opened Interleave
  import opened Mask
  import opened Snake
  import opened Wrappers

  function FlipsOf(mask: nat): (nat, nat) -> bool
    requires mask < MASK_NUM
  {
    (x: nat, y: nat) => Flips(mask, x, y)
  }

  /** The finished symbol: a filled frame masked, with its format information. */
  function Finished(f: seq<byte>, w: nat, mask: nat, level: nat): (r: seq<byte>)
    requires |f| == w * w && w >= 17 && mask < MASK_NUM && level < 4
    ensures |r| == |f|
  {
    Formatted(Masked(f, w, FlipsOf(mask)), w, FormatInfo(mask, level))
  }

  /** The places of the format information are reserved. */
  ghost predicate FormatReserved(res: seq<bool>, w: nat) {
    w >= 17 && |res| == w * w && forall n :: 0 <= n < 30 ==> res[FormatCell(w, n)]
  }

  /** The values of all modules of the walk: data codes, check codes, remainder. */
  function SymbolVals(s: EccSpec, data: seq<byte>, ecc: seq<byte>, remainder: nat): (r: seq<byte>)
    requires s.Valid() && |data| == s.DataLength() && |ecc| == s.EccLength()
    ensures |r| == 8 * (|data| + |ecc|) + remainder
  {
    BitVals(BytesBits(DataStream(s, data)), 0) + BitVals(BytesBits(EccStream(s, ecc)), 2)
    + seq<byte>(remainder, _ => 2)
  }

  /** The first n modules of the walk, unmasked. */
  function ReadBits(dark: seq<bool>, w: nat, cells: seq<nat>, flips: (nat, nat) -> bool, n: nat): (r: seq<bit>)
    requires w > 0 && n <= |cells| && InFrame(cells, |dark|)
    ensures |r| == n
  {
    seq<bit>(n, i requires 0 <= i < n => if dark[cells[i]] != flips(Col(w, cells[i]), Row(w, cells[i])) then 1 else 0)
  }

  datatype Content = Content(level: nat, mask: nat, data: seq<byte>, ecc: seq<byte>)

  /** The content of a symbol whose level and mask are known. */
  function ReadContent(dark: seq<bool>, w: nat, cells: seq<nat>, s: EccSpec, level: nat, mask: nat): Option<Content>
    requires w > 0 && InFrame(cells, |dark|) && s.Valid()
  {
    var n := 8 * (s.DataLength() + s.EccLength());
    if mask >= MASK_NUM || n > |cells| then None
    else
      var codes := Pack(ReadBits(dark, w, cells, FlipsOf(mask), n));
      Some(Content(level, mask, UnstreamData(s, codes[..s.DataLength()]), UnstreamEcc(s, codes[s.DataLength()..])))
  }

  /** Reads the dark and light modules of a symbol, knowing only what its version reserves. */
  function Read(dark: seq<bool>, w: nat, res: seq<bool>, s: EccSpec): Option<Content>
    requires |dark| == w * w && Walk(w, false).Layout(res) && FormatReserved(res, w) && s.Valid()
  {
    CellsInFrame(Walk(w, false), res);
    match ParseFormat(Value(FormatDark(w, dark)))
    case None => None
    case Some((level, mask)) => ReadContent(dark, w, Walk(w, false).From(res, 0, 0), s, level, mask)
  }

  lemma CellsInFrame(t: Walk, res: seq<bool>)
    requires t.Layout(res)
    ensures InFrame(t.From(res, 0, 0), t.w * t.w)
    ensures forall c :: c in t.From(res, 0, 0) ==> c < |res| && !res[c]
  {
    hide Walk.From;
    var cells := t.From(res, 0, 0);
    forall c | c in cells ensures c < |res| && !res[c] {
      var k, s := FromOnly(t, res, 0, 0, c);
    }
    forall i | 0 <= i < |cells| ensures cells[i] < t.w * t.w {
      assert cells[i] in cells;
    }
  }

  /** A module written with a value below 4 reads as the value's lowest bit. */
  lemma ReadOne(f: seq<byte>, w: nat, cells: seq<nat>, vals: seq<byte>, mask: nat, level: nat, i: nat)
    requires |f| == w * w && Walk(w, false).Layout(ReservedMap(f)) && FormatReserved(ReservedMap(f), w)
    requires cells == Walk(w, false).From(ReservedMap(f), 0, 0) && InFrame(cells, |f|)
    requires i < |vals| <= |cells| && vals[i] < 4 && mask < MASK_NUM && level < 4
    ensures DarkMap(Finished(Fill(f, cells, vals), w, mask, level))[cells[i]]
            == ((vals[i] % 2 == 1) != Flips(mask, Col(w, cells[i]), Row(w, cells[i])))
  {
    var c, g := cells[i], Fill(f, cells, vals);
    var m := Masked(g, w, FlipsOf(mask));
    assert FillAndFree(f, w, cells, vals, i) by {
      WalkIsComplete(Walk(w, false), ReservedMap(f));
      CellsInFrame(Walk(w, false), ReservedMap(f));
      hide Walk.From; hide Fill; hide FormatCell;
      FillAt(f, cells, vals, i);
    }
    hide Walk.From; hide Fill; hide Flips; hide FormatCell; hide Walk.Layout; hide FormatInfo;
    MaskedAt(g, w, FlipsOf(mask), c);
    FillElsewhere(m, FormatCells(w), FormatVals(FormatInfo(mask, level)), c);
  }

  ghost predicate FillAndFree(f: seq<byte>, w: nat, cells: seq<nat>, vals: seq<byte>, i: nat)
    requires |f| == w * w && w >= 17 && i < |vals| <= |cells| && InFrame(cells, |f|)
  {
    && Fill(f, cells, vals)[cells[i]] == vals[i]
    && forall n :: 0 <= n < 30 ==> FormatCells(w)[n] != cells[i]
  }

  /** The bits of all codes, in the order of the walk. */
  function CodeBits(s: EccSpec, data: seq<byte>, ecc: seq<byte>): seq<bit>
    requires s.Valid() && |data| == s.DataLength() && |ecc| == s.EccLength()
  {
    BytesBits(DataStream(s, data) + EccStream(s, ecc))
  }

  lemma ValsCarryBits(s: EccSpec, data: seq<byte>, ecc: seq<byte>, remainder: nat, i: nat)
    requires s.Valid() && |data| == s.DataLength() && |ecc| == s.EccLength()
    requires i < 8 * (|data| + |ecc|)
    ensures var v := SymbolVals(s, data, ecc, remainder)[i]; v < 4 && v % 2 == CodeBits(s, data, ecc)[i]
  {
    BytesBitsConcat(DataStream(s, data), EccStream(s, ecc));
    hide DataStream; hide EccStream; hide BytesBits;
  }

  lemma ReadBitsBack(f: seq<byte>, w: nat, s: EccSpec, data: seq<byte>, ecc: seq<byte>, remainder: nat,
                     mask: nat, level: nat, cells: seq<nat>)
    requires |f| == w * w && Walk(w, false).Layout(ReservedMap(f)) && FormatReserved(ReservedMap(f), w)
    requires s.Valid() && |data| == s.DataLength() && |ecc| == s.EccLength()
    requires cells == Walk(w, false).From(ReservedMap(f), 0, 0) && InFrame(cells, |f|)
    requires 8 * (|data| + |ecc|) + remainder <= |cells|
    requires mask < MASK_NUM && level < 4
    ensures var dark := DarkMap(Finished(Fill(f, cells, SymbolVals(s, data, ecc, remainder)), w, mask, level));
            ReadBits(dark, w, cells, FlipsOf(mask), 8 * (|data| + |ecc|)) == CodeBits(s, data, ecc)
  {
    assert w >= 17;
    hide Walk.From; hide Fill; hide Walk.Layout; hide FormatReserved; hide ReservedMap;
    hide SymbolVals; hide CodeBits; hide Flips; hide Finished; hide DarkMap; hide Col; hide Row;
    var vals := SymbolVals(s, data, ecc, remainder);
    var dark := DarkMap(Finished(Fill(f, cells, vals), w, mask, level));
    var n := 8 * (|data| + |ecc|);
    CodeBitsLength(s, data, ecc);
    forall i | 0 <= i < n ensures ReadBits(dark, w, cells, FlipsOf(mask), n)[i] == CodeBits(s, data, ecc)[i] {
      ValsCarryBits(s, data, ecc, remainder, i);
      ReadOne(f, w, cells, vals, mask, level, i);
    }
  }

  lemma CodeBitsLength(s: EccSpec, data: seq<byte>, ecc: seq<byte>)
    requires s.Valid() && |data| == s.DataLength() && |ecc| == s.EccLength()
    ensures |CodeBits(s, data, ecc)| == 8 * (|data| + |ecc|)
  {
  }

  lemma CodesBack(s: EccSpec, data: seq<byte>, ecc: seq<byte>)
    requires s.Valid() && |data| == s.DataLength() && |ecc| == s.EccLength()
    ensures |CodeBits(s, data, ecc)| == 8 * (|data| + |ecc|)
    ensures var codes := Pack(CodeBits(s, data, ecc));
            UnstreamData(s, codes[..|data|]) == data && UnstreamEcc(s, codes[|data|..]) == ecc
  {
    hide BytesBits; hide Pack; hide DataStream; hide EccStream; hide UnstreamData; hide UnstreamEcc;
    var codes := DataStream(s, data) + EccStream(s, ecc);
    PackRestores(codes);
    assert codes[..|data|] == DataStream(s, data) && codes[|data|..] == EccStream(s, ecc);
    UnstreamRestores(s, data, ecc);
  }

  /**
   The round trip: whatever data and check codes were encoded, at whatever level and with whatever
   mask, the reader finds them in the finished symbol.
   */
  lemma ReadFinished(f: seq<byte>, w: nat, s: EccSpec, data: seq<byte>, ecc: seq<byte>, remainder: nat,
                     mask: nat, level: nat)
    requires |f| == w * w && Walk(w, false).Layout(ReservedMap(f)) && FormatReserved(ReservedMap(f), w)
    requires s.Valid() && |data| == s.DataLength() && |ecc| == s.EccLength()
    requires 8 * (|data| + |ecc|) + remainder <= |Walk(w, false).From(ReservedMap(f), 0, 0)|
    requires mask < MASK_NUM && level < 4
    ensures var cells := Walk(w, false).From(ReservedMap(f), 0, 0);
            && InFrame(cells, |f|)
            && var symbol := Finished(Fill(f, cells, SymbolVals(s, data, ecc, remainder)), w, mask, level);
               Read(DarkMap(symbol), w, ReservedMap(f), s) == Some(Content(level, mask, data, ecc))
  {
    var res := ReservedMap(f);
    assert w >= 17;
    CellsInFrame(Walk(w, false), res);
    hide Walk.From; hide Fill; hide FormatInfo; hide ParseFormat; hide Walk.Layout; hide FormatReserved;
    hide ReadContent; hide SymbolVals; hide Masked; hide Formatted; hide Value; hide FormatDark; hide DarkMap;
    var cells, vals := Walk(w, false).From(res, 0, 0), SymbolVals(s, data, ecc, remainder);
    var g := Fill(f, cells, vals);
    FormatsDistinct(mask, level);
    FormatReadBack(Masked(g, w, FlipsOf(mask)), w, FormatInfo(mask, level));
    ReadBitsBack(f, w, s, data, ecc, remainder, mask, level, cells);
    ContentBack(DarkMap(Finished(g, w, mask, level)), w, cells, s, data, ecc, mask, level);
  }

  lemma ContentBack(dark: seq<bool>, w: nat, cells: seq<nat>, s: EccSpec, data: seq<byte>, ecc: seq<byte>,
                    mask: nat, level: nat)
    requires w > 0 && InFrame(cells, |dark|) && s.Valid() && mask < MASK_NUM
    requires |data| == s.DataLength() && |ecc| == s.EccLength() && 8 * (|data| + |ecc|) <= |cells|
    requires ReadBits(dark, w, cells, FlipsOf(mask), 8 * (|data| + |ecc|)) == CodeBits(s, data, ecc)
    ensures ReadContent(dark, w, cells, s, level, mask) == Some(Content(level, mask, data, ecc))
  {
    hide ReadBits; hide Pack; hide CodeBits; hide UnstreamData; hide UnstreamEcc; hide Flips;
    CodesBack(s, data, ecc);
  }
}
