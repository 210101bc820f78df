/** Filling and masking a QR symbol in any frame, and the reader's way back. */
module QrCode {
  import opened Bits
  import opened BitString
  import opened Emit
  import opened Format
  import opened FrameFiller
  import opened Frames
  import opened Interleave
  import opened Mask
  import opened MaskChoice
  import opened RawCode
  import opened Reader
  import opened Rsecc
  import opened Snake
  import opened Wrappers

  /** Mask_makeMask: nothing for a mask that does not exist. */
  method MakeMask(width: nat, frame: array<byte>, mask: int, level: nat) returns (r: Option<array<byte>>)
    requires width >= 17 && frame.Length == width * width && level < 4
    ensures mask < 0 || mask >= MASK_NUM ==> r == None
    ensures 0 <= mask < MASK_NUM ==>
              r.Some? && fresh(r.value) && r.value[..] == Finished(frame[..], width, mask, level)
  {
    hide Formatted; hide Masked; hide FormatInfo; hide Flips;
    if mask < 0 || mask >= MASK_NUM {
      return None;
    }
    var masked := new byte[width * width](_ => 0);
    var _ := MaskFrame(FlipsOf(mask), width, frame, masked);
    var _ := WriteFormatInformation(width, masked, mask, level);
    return Some(masked);
  }

  /** The last stage: mask -2 leaves the symbol unmasked, any other negative mask asks for the best one. */
  method ApplyMask(width: nat, frame: array<byte>, mask: int, level: nat)
    returns (r: Option<array<byte>>, ghost chosen: nat)
    requires 17 <= width <= QRSPEC_WIDTH_MAX && frame.Length == width * width && level < 4
    ensures r.Some? ==> fresh(r.value)
    ensures mask == -2 ==> r.Some? && r.value[..] == frame[..]
    ensures mask < 0 && mask != -2 ==>
              && r.Some? && FirstBest(frame[..], width, level, chosen, MASK_NUM)
              && r.value[..] == Finished(frame[..], width, chosen, level)
    ensures 0 <= mask < MASK_NUM ==> r.Some? && chosen == mask && r.value[..] == Finished(frame[..], width, mask, level)
    ensures mask >= MASK_NUM ==> r == None
  {
    hide Finished;
    chosen := if mask >= 0 then mask else 0;
    if mask == -2 {
      var copy := new byte[width * width](_ => 0);
      forall i | 0 <= i < width * width {
        copy[i] := frame[i];
      }
      assert copy[..] == frame[..];
      r := Some(copy);
    } else if mask < 0 {
      var masked;
      masked, chosen := MaskMask(width, frame, level);
      r := Some(masked);
    } else {
      r := MakeMask(width, frame, mask, level);
    }
  }

  /** The modules of the frame in the order of the walk. */
  ghost function Cells(w: nat, f: seq<byte>): seq<nat>
    requires Walk(w, false).Layout(ReservedMap(f))
  {
    Walk(w, false).From(ReservedMap(f), 0, 0)
  }

  /** All codes and remainder bits written; false when the frame has too few free modules. */
  method FillSymbol(width: nat, frame: array<byte>, s: EccSpec, remainder: nat, data: array<byte>, enc: Encoder)
    returns (ok: bool)
    requires frame.Length == width * width && Walk(width, false).Layout(ReservedMap(frame[..]))
    requires s.Valid() && data.Length == s.DataLength()
    requires enc.Valid() && data !in enc.Repr() && frame != data && frame !in enc.Repr()
    modifies frame, enc.Repr()
    ensures enc.Valid()
    ensures ok == (8 * (s.DataLength() + s.EccLength()) + remainder <= |Cells(width, old(frame[..]))|)
    ensures ok ==>
              && InFrame(Cells(width, old(frame[..])), |old(frame[..])|)
              && frame[..] == Fill(old(frame[..]), Cells(width, old(frame[..])),
                                   SymbolVals(s, data[..], AllEcc(s, data[..], s.Blocks()), remainder))
  {
    hide Walk.From; hide Fill; hide DataStream; hide EccStream; hide AllEcc; hide Walk.Layout; hide ReservedMap;
    ghost var f, cells := frame[..], Cells(width, frame[..]);
    var raw := new QRRawCode(s, data, enc);
    var filler := new FrameFiller(width, frame, false);
    Begin(filler, f, cells);
    assert raw.Codes() == DataStream(s, data[..]) + EccStream(s, raw.ecccode[..]);
    ghost var vals := SymbolVals(s, data[..], AllEcc(s, data[..], s.Blocks()), remainder);
    assert |vals| == 8 * (s.DataLength() + s.EccLength()) + remainder;
    hide SymbolVals; hide Cells; hide Progress;
    ok := PutAll(filler, raw, remainder, f, cells, DataStream(s, data[..]), EccStream(s, raw.ecccode[..]), vals);
  }

  /** The three loops: data codes d, check codes e, remainder bits. */
  method PutAll(filler: FrameFiller, raw: QRRawCode, remainder: nat, ghost f: seq<byte>, ghost cells: seq<nat>,
                ghost d: seq<byte>, ghost e: seq<byte>, ghost all: seq<byte>) returns (ok: bool)
    requires Progress(filler, f, cells, []) && raw.Valid()
    requires raw.Codes() == d + e && |d| == raw.dataLength && |e| == raw.eccLength
    requires all == BitVals(BytesBits(d), 0) + BitVals(BytesBits(e), 2) + seq<byte>(remainder, _ => 2)
    requires {filler, filler.frame} !! {raw, raw.datacode, raw.ecccode, raw.rsblock}
    modifies filler, filler.frame, raw`count
    ensures ok == (|all| <= |cells|)
    ensures ok ==> InFrame(cells, |f|) && filler.frame[..] == Fill(f, cells, all)
  {
    ghost var vals, more := BitVals(BytesBits(d), 0), BitVals(BytesBits(e), 2);
    assert |vals| == 8 * |d| && |more| == 8 * |e|;
    hide Progress; hide BitVals; hide BytesBits;
    assert [] + vals == vals && raw.Codes()[..|d|] == d && raw.Codes()[|d|..] == e && e[..|e|] == e;
    ok := PutCodes(filler, raw, raw.dataLength, 0, f, cells, []);
    if !ok {
      return;
    }
    ok := PutCodes(filler, raw, raw.eccLength, 2, f, cells, vals);
    if !ok {
      return;
    }
    ok := PutRemainder(filler, remainder, f, cells, vals + more);
    if ok {
      Written(filler, f, cells, all);
    }
  }

  lemma Begin(filler: FrameFiller, f: seq<byte>, cells: seq<nat>)
    requires filler.Valid() && f == filler.frame[..] && !filler.mqr
    requires filler.Rest() == cells == Cells(filler.width, f)
    ensures Progress(filler, f, cells, [])
  {
    CellsInFrame(Walk(filler.width, false), ReservedMap(f));
    hide Walk.From;
    forall c | c in cells ensures f[c] < 128 {
      MapAt(f, c);
    }
    FillNil(f, cells);
    assert cells[0..] == cells;
  }

  lemma Written(filler: FrameFiller, f: seq<byte>, cells: seq<nat>, vals: seq<byte>)
    requires Progress(filler, f, cells, vals)
    ensures |vals| <= |cells| && InFrame(cells, |f|) && filler.frame[..] == Fill(f, cells, vals)
  {
  }

  /** The loop for the remainder bits. */
  method PutRemainder(filler: FrameFiller, n: nat, ghost f: seq<byte>, ghost cells: seq<nat>, ghost vals: seq<byte>)
    returns (ok: bool)
    requires Progress(filler, f, cells, vals)
    modifies filler, filler.frame
    ensures ok == (|vals| + n <= |cells|)
    ensures ok ==> Progress(filler, f, cells, vals + seq<byte>(n, _ => 2))
  {
    hide Progress;
    ProgressBound(filler, f, cells, vals);
    ghost var more := seq<byte>(n, _ => 2);
    assert vals + more[..0] == vals;
    for i := 0 to n
      invariant Progress(filler, f, cells, vals + more[..i])
      invariant |vals| + i <= |cells|
    {
      assert vals + more[..i] + [2] == vals + more[..i + 1];
      ok := Put(filler, 2, f, cells, vals + more[..i]);
      if !ok {
        return;
      }
    }
    assert more[..n] == more;
    ok := true;
  }

  /** The whole symbol of data in the frame f. */
  ghost function Symbol(w: nat, f: seq<byte>, s: EccSpec, remainder: nat, data: seq<byte>): (r: seq<byte>)
    requires |f| == w * w && Walk(w, false).Layout(ReservedMap(f)) && s.Valid() && |data| == s.DataLength()
    requires 8 * (s.DataLength() + s.EccLength()) + remainder <= |Cells(w, f)|
    ensures |r| == |f|
  {
    CellsInFrame(Walk(w, false), ReservedMap(f));
    Fill(f, Cells(w, f), SymbolVals(s, data, AllEcc(s, data, s.Blocks()), remainder))
  }

  /** Whatever was encoded, and whichever mask was chosen, the reader finds level, mask, data and check codes. */
  lemma ReaderFindsData(w: nat, f: seq<byte>, s: EccSpec, remainder: nat, data: seq<byte>, mask: nat, level: nat)
    requires |f| == w * w && Walk(w, false).Layout(ReservedMap(f)) && FormatReserved(ReservedMap(f), w)
    requires s.Valid() && |data| == s.DataLength()
    requires 8 * (s.DataLength() + s.EccLength()) + remainder <= |Cells(w, f)|
    requires mask < MASK_NUM && level < 4
    ensures Read(DarkMap(Finished(Symbol(w, f, s, remainder, data), w, mask, level)), w, ReservedMap(f), s)
            == Some(Content(level, mask, data, AllEcc(s, data, s.Blocks())))
  {
    hide Walk.From; hide Walk.Layout; hide Fill; hide Finished; hide SymbolVals; hide ReservedMap; hide Read;
    hide DarkMap; hide FormatReserved; hide AllEcc;
    ReadFinished(f, w, s, data, AllEcc(s, data, s.Blocks()), remainder, mask, level);
  }
}
