/** An ideal reader of Micro QR symbols, and the proof that it gets back what was encoded. */
module MicroReader {
  import opened Arith
  import opened Bits
  import opened BitString
  import opened BitStream
  import opened Format
  import opened FrameFiller
  import opened Frames
  import opened Mask
  import opened MicroCode
  import opened MicroEncode
  import opened MicroFit
  import opened MicroMask
  import opened MicroSpec
  import opened Reader
  import opened RsCode
  import opened Rsecc
  import opened Snake
  import opened Wrappers

  datatype MicroContent = MicroContent(version: nat, level: nat, mask: nat, bits: seq<bit>, ecc: seq<byte>)

  /** Bit 14 first. */
  function MicroFormatDark(w: nat, dark: seq<bool>): (r: seq<bit>)
    requires |dark| == w * w && w >= 11
    ensures |r| == 15
  {
    seq<bit>(15, k requires 0 <= k < 15 => if dark[MicroFormatCell(w, 14 - k)] then 1 else 0)
  }

  /** Reads the dark and light modules of a symbol, knowing nothing else about it. */
  ghost function MicroRead(dark: seq<bool>, w: nat): Option<MicroContent>
    requires |dark| == w * w && MicroWidth(w)
  {
    match MicroParseFormat(Value(MicroFormatDark(w, dark)))
    case None => None
    case Some((mask, version, level)) =>
      if !Supported(version, level) || GetWidth(version) != w || mask >= MICRO_MASK_NUM then None
      else
        Capacities(version, level);
        var (bits, ecc) := MicroReadCodes(dark, w, GetECCLength(version, level), mask);
        Some(MicroContent(version, level, mask, bits, ecc))
  }

  /** The modules of the walk in an empty frame. */
  ghost function MicroPath(w: nat): (r: seq<nat>)
    requires MicroWidth(w)
    ensures |r| == (w - 1) * (w - 1) - 64 && InFrame(r, w * w)
  {
    FreeModules(MicroFrame(w), w);
    CellsIn(MicroFrame(w), w);
    MicroCells(w, MicroFrame(w))
  }

  /** Data bits and check codes of a symbol with ecc check codes. */
  ghost function MicroReadCodes(dark: seq<bool>, w: nat, ecc: nat, mask: nat): (seq<bit>, seq<byte>)
    requires MicroWidth(w) && ecc > 0 && DataBits(w, ecc) >= 0 && mask < MICRO_MASK_NUM && |dark| == w * w
  {
    var bits := ReadBits(dark, w, MicroPath(w), MicroFlipsOf(mask), |MicroPath(w)|);
    var n := DataBits(w, ecc);
    (bits[..n], Pack(bits[n..]))
  }

  lemma MicroFormatDarkAt(f: seq<byte>, w: nat, fmt: nat, k: nat)
    requires |f| == w * w && w >= 11 && k < 15
    ensures MicroFormatDark(w, DarkMap(MicroFormatted(f, w, fmt)))[k] == NumBits(15, fmt)[k]
  {
    hide MicroFormatted; hide MicroFormatCell; hide NumBits; hide Pow2;
    NumBitsAt(15, fmt, k);
    MicroFormatAt(f, w, fmt, 14 - k);
    assert (0x84 + FormatBit(fmt, 14 - k)) % 2 == FormatBit(fmt, 14 - k);
  }

  lemma MicroFormatReadBack(f: seq<byte>, w: nat, fmt: nat)
    requires |f| == w * w && w >= 11 && fmt < 0x8000
    ensures Value(MicroFormatDark(w, DarkMap(MicroFormatted(f, w, fmt)))) == fmt
  {
    assert Pow2(15) == 0x8000;
    hide MicroFormatted; hide MicroFormatDark; hide NumBits; hide Value; hide Pow2; hide DarkMap;
    var bits := MicroFormatDark(w, DarkMap(MicroFormatted(f, w, fmt)));
    forall k | 0 <= k < 15 ensures bits[k] == NumBits(15, fmt)[k] {
      MicroFormatDarkAt(f, w, fmt, k);
    }
    assert bits == NumBits(15, fmt);
    ValueOfNum(15, fmt);
  }

  /** The format information is written to none of the modules of the walk. */
  lemma FormatCellReserved(w: nat, n: nat)
    requires MicroWidth(w) && n < 15
    ensures MicroFormatCells(w)[n] !in MicroPath(w)
  {
    CellsIn(MicroFrame(w), w);
    var x, y := if n < 8 then 8 else 15 - n, if n < 8 then n + 1 else 8;
    assert MicroFormatCell(w, n) == Index(w, x, y) && MicroCell(x, y) >= 128;
    hide MicroCell; hide Index; hide MicroFrame; hide MicroCells; hide MicroFormatCell;
    assert IsMicroFrame(MicroFrame(w), w);
  }

  /** A module written with a value below 4 reads as the value's lowest bit. */
  lemma MicroReadOne(w: nat, vals: seq<byte>, mask: nat, version: nat, level: nat, i: nat)
    requires MicroWidth(w) && mask < MICRO_MASK_NUM
    requires i < |vals| <= |MicroPath(w)| && vals[i] < 4
    ensures var cells := MicroPath(w);
            DarkMap(MicroFinished(Fill(MicroFrame(w), cells, vals), w, mask, version, level))[cells[i]]
            == ((vals[i] % 2 == 1) != MicroFlips(mask, Col(w, cells[i]), Row(w, cells[i])))
  {
    var f := MicroFrame(w);
    var cells := MicroPath(w);
    var c, g := cells[i], Fill(f, cells, vals);
    var m := Masked(g, w, MicroFlipsOf(mask));
    assert g[c] == vals[i] by {
      MicroLayout(f, w);
      WalkIsComplete(Walk(w, true), ReservedMap(f));
      hide Walk.From; hide Fill; hide Walk.Layout; hide IsMicroFrame;
      FillAt(f, cells, vals, i);
    }
    hide Fill; hide MicroFlips; hide MicroFormatInfo; hide MicroPath; hide MicroFrame; hide MicroFormatCell;
    forall n | 0 <= n < 15 ensures MicroFormatCells(w)[n] != c {
      FormatCellReserved(w, n);
    }
    hide MicroFormatCells;
    MaskedAt(g, w, MicroFlipsOf(mask), c);
    FillElsewhere(m, MicroFormatCells(w), MicroFormatVals(MicroFormatInfo(mask, version, level)), c);
  }

  /** The bits written by the encoder. */
  function MicroBits(data: seq<byte>, ecc: seq<byte>, n: nat): (r: seq<bit>)
    requires n <= 8 * |data|
    ensures |r| == n + 8 * |ecc|
  {
    BytesBits(data)[..n] + BytesBits(ecc)
  }

  lemma MicroBitsBack(w: nat, data: seq<byte>, ecc: seq<byte>, n: nat, mask: nat, version: nat, level: nat)
    requires MicroWidth(w) && mask < MICRO_MASK_NUM && n <= 8 * |data|
    requires |MicroPath(w)| == n + 8 * |ecc|
    ensures var cells := MicroPath(w);
            var g := Fill(MicroFrame(w), cells, MicroVals(data, ecc, n));
            ReadBits(DarkMap(MicroFinished(g, w, mask, version, level)), w, cells, MicroFlipsOf(mask), |cells|)
            == MicroBits(data, ecc, n)
  {
    hide *;
    var f, vals := MicroFrame(w), MicroVals(data, ecc, n);
    var cells := MicroPath(w);
    FrameSize(w);
    var dark := DarkMap(MicroFinished(Fill(f, cells, vals), w, mask, version, level));
    ValsSmall(data, ecc, n);
    forall i: nat | i < |vals|
      ensures ReadBits(dark, w, cells, MicroFlipsOf(mask), |vals|)[i] == MicroBits(data, ecc, n)[i]
    {
      MicroReadOne(w, vals, mask, version, level, i);
      ValsCarry(data, ecc, n, i);
      ReadBitAt(dark, w, cells, mask, |vals|, i);
    }
  }

  lemma FrameSize(w: nat)
    requires MicroWidth(w)
    ensures w >= 11 && |MicroFrame(w)| == w * w
  {
  }

  lemma ValsCarry(data: seq<byte>, ecc: seq<byte>, n: nat, i: nat)
    requires n <= 8 * |data| && i < n + 8 * |ecc|
    ensures MicroVals(data, ecc, n)[i] % 2 == MicroBits(data, ecc, n)[i]
  {
    hide BytesBits;
  }

  lemma ReadBitAt(dark: seq<bool>, w: nat, cells: seq<nat>, mask: nat, n: nat, i: nat)
    requires w > 0 && mask < MICRO_MASK_NUM && i < n <= |cells| && InFrame(cells, |dark|)
    ensures ReadBits(dark, w, cells, MicroFlipsOf(mask), n)[i]
            == if dark[cells[i]] != MicroFlips(mask, Col(w, cells[i]), Row(w, cells[i])) then 1 else 0
  {
    hide MicroFlips; hide Col; hide Row;
  }

  /** What was drawn in a symbol of any width is read back. */
  lemma MicroCodesBack(w: nat, data: seq<byte>, ecc: nat, mask: nat, version: nat, level: nat)
    requires MicroWidth(w) && MIN_LENGTH <= ecc && mask < MICRO_MASK_NUM
    requires DataBits(w, ecc) >= 0 && |data| == DataBytes(DataBits(w, ecc))
    ensures DataBits(w, ecc) <= 8 * |data|
    ensures MicroReadCodes(DarkMap(MicroFinished(MicroSymbol(w, MicroFrame(w), data, ecc), w, mask, version, level)),
                           w, ecc, mask)
            == (BytesBits(data)[..DataBits(w, ecc)], Ecc(data, ecc))
  {
    JustEnough(MicroFrame(w), w, ecc);
    var n, check := DataBits(w, ecc), Ecc(data, ecc);
    assert |MicroPath(w)| == n + 8 * ecc;
    hide DataBits; hide DataBytes; hide OddBits; hide EmittedBits; hide IsMicroFrame; hide MicroFlips; hide MicroFrame;
    hide Ecc; hide MicroCells; hide ReadBits; hide MicroVals; hide Fill; hide MicroFinished; hide DarkMap;
    MicroBitsBack(w, data, check, n, mask, version, level);
    assert MicroBits(data, check, n)[..n] == BytesBits(data)[..n] && MicroBits(data, check, n)[n..] == BytesBits(check);
    hide BytesBits; hide Pack;
    PackRestores(check);
  }

  /** The round trip, for every version, level, mask and data. */
  lemma MicroReadFinished(version: nat, level: nat, mask: nat, data: seq<byte>)
    requires Supported(version, level) && |data| == GetDataLength(version, level) && mask < MICRO_MASK_NUM
    ensures MicroWidth(GetWidth(version)) && 0 <= GetDataLengthBit(version, level) <= 8 * |data|
    ensures MicroRead(DarkMap(MicroFinished(Drawn(version, level, data), GetWidth(version), mask, version, level)),
                      GetWidth(version))
            == Some(MicroContent(version, level, mask, BytesBits(data)[..GetDataLengthBit(version, level)],
                                 Ecc(data, GetECCLength(version, level))))
  {
    hide *;
    SupportedIs(version, level);
    Capacities(version, level);
    var w, ecc := GetWidth(version), GetECCLength(version, level);
    var fmt, g := MicroFormatInfo(mask, version, level), Drawn(version, level, data);
    MicroFormatsDistinct(mask, version, level);
    FrameSize(w);
    SymbolIs(version, level, mask, data);
    MicroFormatReadBack(Masked(g, w, MicroFlipsOf(mask)), w, fmt);
    MicroCodesBack(w, data, ecc, mask, version, level);
    ReadIs(DarkMap(MicroFinished(g, w, mask, version, level)), w, mask, version, level);
  }

  lemma SupportedIs(version: nat, level: nat)
    requires Supported(version, level)
    ensures version <= MQRSPEC_VERSION_MAX && level < 4 && MICRO_MASK_NUM == 4
  {
  }

  lemma SymbolIs(version: nat, level: nat, mask: nat, data: seq<byte>)
    requires Supported(version, level) && |data| == GetDataLength(version, level) && mask < MICRO_MASK_NUM
    ensures var w, ecc := GetWidth(version), GetECCLength(version, level);
            && MicroWidth(w) && ecc >= MIN_LENGTH
            && DataBits(w, ecc) >= 0 && GetDataLengthBit(version, level) == DataBits(w, ecc)
            && Drawn(version, level, data) == MicroSymbol(w, MicroFrame(w), data, ecc)
            && MicroFinished(Drawn(version, level, data), w, mask, version, level)
               == MicroFormatted(Masked(Drawn(version, level, data), w, MicroFlipsOf(mask)), w,
                                 MicroFormatInfo(mask, version, level))
  {
    Capacities(version, level);
    hide GetWidth; hide GetECCLength; hide MicroFormatInfo; hide MicroFormatted; hide Masked; hide MicroFrame;
    hide MicroSymbol; hide GetDataLength;
  }

  /** What is read when the format information is. */
  lemma ReadIs(dark: seq<bool>, w: nat, mask: nat, version: nat, level: nat)
    requires |dark| == w * w && MicroWidth(w) && Supported(version, level) && mask < MICRO_MASK_NUM
    requires w == GetWidth(version) && MicroParseFormat(Value(MicroFormatDark(w, dark))) == Some((mask, version, level))
    requires DataBits(w, GetECCLength(version, level)) >= 0
    ensures var (bits, ecc) := MicroReadCodes(dark, w, GetECCLength(version, level), mask);
            MicroRead(dark, w) == Some(MicroContent(version, level, mask, bits, ecc))
  {
    hide GetWidth; hide GetECCLength; hide MicroParseFormat; hide MicroFormatDark; hide MicroReadCodes; hide Value;
    hide DataBits;
  }

  /** The data code itself comes back exactly when the bits of its last byte that are not sent are zero. */
  lemma DataFromBits(data: seq<byte>, n: nat)
    requires n == 8 * |data| || (|data| > 0 && n == 8 * |data| - 4)
    ensures Pack(Padded(BytesBits(data)[..n])) == data <==> n == 8 * |data| || data[|data| - 1] % 16 == 0
  {
    hide *;
    if n == 8 * |data| {
      BytesRoundTrip(data);
      assert BytesBits(data)[..n] == BytesBits(data);
    } else {
      Snoc(data);
      DataFromMost(data[..|data| - 1], data[|data| - 1]);
    }
  }

  lemma DataFromMost(front: seq<byte>, b: byte)
    ensures Pack(Padded(BytesBits(front + [b])[..8 * |front| + 4])) == front + [b] <==> b % 16 == 0
  {
    hide *;
    HalfSentIs(front, b);
    DataFromHalf(front, b);
  }

  /** What is sent of these bytes when the last one is sent by half. */
  function HalfSent(front: seq<byte>, b: byte): (r: seq<bit>)
    ensures |r| == 8 * |front| + 4
  {
    BytesBits(front + [b])[..8 * |front| + 4]
  }

  lemma HalfSentIs(front: seq<byte>, b: byte)
    ensures HalfSent(front, b) == BytesBits(front + [b])[..8 * |front| + 4]
  {
    hide BytesBits;
  }

  function HalfFilled(bits: seq<bit>): (r: seq<bit>)
    requires |bits| == 8
    ensures |r| == 8
  {
    bits[..4] + [0, 0, 0, 0]
  }

  lemma DataFromHalf(front: seq<byte>, b: byte)
    ensures Pack(Padded(HalfSent(front, b))) == front + [b] <==> b % 16 == 0
  {
    hide *;
    HalfSentPadded(front, b);
    PackHalf(front, b, HalfFilled(ByteBits(b)), HalfSent(front, b));
    LastNibble(b);
  }

  lemma HalfSentPadded(front: seq<byte>, b: byte)
    ensures Padded(HalfSent(front, b)) == BytesBits(front) + HalfFilled(ByteBits(b))
  {
    hide *;
    HalfSentIs(front, b);
    BytesBitsSnoc(front, b);
    PadHalf(|front|, BytesBits(front), ByteBits(b));
  }

  lemma PackHalf(front: seq<byte>, b: byte, half: seq<bit>, sent: seq<bit>)
    requires |half| == 8 && Padded(sent) == BytesBits(front) + half
    ensures Pack(Padded(sent)) == front + [b] <==> PackByte(half) == b
  {
    hide *;
    HalfPack(front, half);
    SameLast(front, PackByte(half), b);
  }

  lemma SameLast(s: seq<byte>, x: byte, y: byte)
    ensures s + [x] == s + [y] <==> x == y
  {
    if s + [x] == s + [y] {
      assert (s + [x])[|s|] == (s + [y])[|s|];
    }
  }

  lemma Snoc<T>(s: seq<T>)
    requires s != []
    ensures s == s[..|s| - 1] + [s[|s| - 1]]
  {
  }

  lemma PadHalf(k: nat, front: seq<bit>, last: seq<bit>)
    requires |front| == 8 * k && |last| == 8
    ensures Padded((front + last)[..8 * k + 4]) == front + HalfFilled(last)
  {
    assert Zeros(4) == [0, 0, 0, 0];
    hide Zeros;
    Cut(front, last, 4);
    Regroup(front, last[..4], Zeros(4));
  }

  lemma Cut<T>(a: seq<T>, b: seq<T>, n: nat)
    requires n <= |b|
    ensures (a + b)[..|a| + n] == a + b[..n]
  {
  }

  lemma Regroup<T>(a: seq<T>, b: seq<T>, c: seq<T>)
    ensures a + b + c == a + (b + c)
  {
  }

  lemma HalfPack(front: seq<byte>, bits: seq<bit>)
    requires |bits| == 8
    ensures |BytesBits(front) + bits| % 8 == 0
    ensures Pack(BytesBits(front) + bits) == front + [PackByte(bits)]
  {
    hide PackByte; hide BytesBits;
    PackRestores(front);
    var all := BytesBits(front) + bits;
    assert all[..|all| - 8] == BytesBits(front) && all[|all| - 8..] == bits;
  }

  lemma LastNibble(b: byte)
    ensures PackByte(HalfFilled(ByteBits(b))) == b <==> b % 16 == 0
  {
    hide *;
    var high := b / 16;
    HighNibble(b);
    ValueOfNum(4, high);
    ShiftUp(NumBits(4, high), 4);
    FilledByte(b, high);
    assert high * 16 == b <==> b % 16 == 0;
  }

  lemma HighNibble(b: byte)
    ensures ByteBits(b)[..4] == NumBits(4, b / 16) && b / 16 < Pow2(4) == 16
  {
    assert Pow2(4) == 16;
    hide NumBits; hide Pow2;
    HighBits(4, 4, b);
  }

  lemma FilledByte(b: byte, high: nat)
    requires high == b / 16 && ByteBits(b)[..4] == NumBits(4, high) && Pow2(4) == 16
    requires Value(NumBits(4, high)) == high
    requires Value(NumBits(4, high) + Zeros(4)) == Value(NumBits(4, high)) * Pow2(4)
    ensures PackByte(HalfFilled(ByteBits(b))) == high * 16
  {
    hide ByteBits; hide NumBits; hide Value; hide Pow2;
    assert Zeros(4) == [0, 0, 0, 0];
  }

  lemma {:induction false} HighBits(n: nat, k: nat, v: nat)
    ensures NumBits(n + k, v)[..n] == NumBits(n, v / Pow2(k))
  {
    if k > 0 {
      HighBits(n, k - 1, v / 2);
      HalfThenDivide(v, k - 1);
      assert NumBits(n + k, v) == NumBits(n + k - 1, v / 2) + [v % 2];
    }
  }
}
