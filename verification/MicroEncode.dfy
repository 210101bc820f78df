/** QRcode_encodeMaskMQR as a whole: the checks of its input, the drawing and the masking. */
module MicroEncode {
  import opened Bits
  import opened BitString
  import opened FrameFiller
  import opened Frames
  import opened Mask
  import opened MicroCode
  import opened MicroFit
  import opened MicroMask
  import opened MicroSpec
  import opened RsCode
  import opened Rsecc
  import opened Snake
  import opened Wrappers

  /** The versions and levels that exist. */
  predicate Supported(version: int, level: nat) {
    1 <= version <= MQRSPEC_VERSION_MAX && level < 4 && GetECCLength(version, level) > 0
  }

  lemma Capacities(version: nat, level: nat)
    requires Supported(version, level)
    ensures MicroWidth(GetWidth(version)) && TypeOf(version, level) >= 0
    ensures MIN_LENGTH <= GetECCLength(version, level) <= MAX_LENGTH
    ensures DataBits(GetWidth(version), GetECCLength(version, level)) >= 0
    ensures GetDataLength(version, level) == DataBytes(DataBits(GetWidth(version), GetECCLength(version, level)))
  {
  }

  /** The symbol of a version and level, before masking. */
  ghost function Drawn(version: nat, level: nat, data: seq<byte>): (r: seq<byte>)
    requires Supported(version, level) && |data| == GetDataLength(version, level)
    ensures |r| == GetWidth(version) * GetWidth(version)
  {
    Capacities(version, level);
    MicroSymbol(GetWidth(version), MicroFrame(GetWidth(version)), data, GetECCLength(version, level))
  }

  lemma DrawnIsFree(version: nat, level: nat, data: seq<byte>)
    requires Supported(version, level) && |data| == GetDataLength(version, level)
    ensures GetWidth(version) >= 11 && BottomFree(Drawn(version, level, data), GetWidth(version))
  {
    Capacities(version, level);
    hide GetWidth; hide GetECCLength; hide GetDataLength;
    SymbolKeepsMap(GetWidth(version), data, GetECCLength(version, level));
  }

  /** Drawing changes no flag, so the bottom row stays free. */
  lemma SymbolKeepsMap(w: nat, data: seq<byte>, ecc: nat)
    requires MicroWidth(w) && MIN_LENGTH <= ecc
    requires DataBits(w, ecc) >= 0 && |data| == DataBytes(DataBits(w, ecc))
    ensures ReservedMap(MicroSymbol(w, MicroFrame(w), data, ecc)) == ReservedMap(MicroFrame(w))
    ensures BottomFree(MicroSymbol(w, MicroFrame(w), data, ecc), w)
  {
    var f, g := MicroFrame(w), MicroSymbol(w, MicroFrame(w), data, ecc);
    assert ReservedMap(g) == ReservedMap(f) by {
      JustEnough(f, w, ecc);
      CellsIn(f, w);
      var vals := MicroVals(data, Ecc(data, ecc), DataBits(w, ecc));
      ValsSmall(data, Ecc(data, ecc), DataBits(w, ecc));
      hide Fill; hide MicroCells; hide MicroVals; hide DataBits; hide IsMicroFrame; hide Ecc; hide ReservedMap;
      FillKeepsMap(f, MicroCells(w, f), vals);
    }
    hide MicroSymbol; hide ReservedMap; hide IsMicroFrame; hide DataBits; hide Index;
    forall x | 1 <= x < w ensures BottomUnflagged(g, w, x) {
      MicroMap(f, w, x, w - 1);
      MapAt(g, Index(w, x, w - 1));
    }
  }

  lemma ValsSmall(data: seq<byte>, ecc: seq<byte>, bits: nat)
    requires bits <= 8 * |data|
    ensures forall i :: 0 <= i < |MicroVals(data, ecc, bits)| ==> MicroVals(data, ecc, bits)[i] < 4
  {
    hide BytesBits;
  }

  /** MMask_makeMask: nothing for a mask that does not exist. */
  method MicroMakeMask(version: nat, width: nat, frame: array<byte>, mask: int, level: nat)
    returns (r: Option<array<byte>>)
    requires width >= 11 && frame.Length == width * width
    ensures mask < 0 || mask >= MICRO_MASK_NUM ==> r == None
    ensures 0 <= mask < MICRO_MASK_NUM ==>
              r.Some? && fresh(r.value) && r.value[..] == MicroFinished(frame[..], width, mask, version, level)
  {
    hide MicroFormatted; hide Masked; hide MicroFormatInfo; hide MicroFlips;
    if mask < 0 || mask >= MICRO_MASK_NUM {
      return None;
    }
    var masked := new byte[width * width](_ => 0);
    var _ := MaskFrame(MicroFlipsOf(mask), width, frame, masked);
    MicroWriteFormat(version, width, masked, mask, level);
    return Some(masked);
  }

  /** The last stage. */
  method MicroApplyMask(version: nat, width: nat, frame: array<byte>, mask: int, level: nat)
    returns (r: Option<array<byte>>, ghost chosen: nat)
    requires MicroWidth(width) && frame.Length == width * width && BottomFree(frame[..], width)
    ensures r.Some? <==> mask < MICRO_MASK_NUM
    ensures r.Some? ==> fresh(r.value)
    ensures r.Some? && mask == -2 ==> r.value[..] == frame[..]
    ensures r.Some? && mask != -2 ==>
              && chosen < MICRO_MASK_NUM && (mask >= 0 ==> chosen == mask)
              && r.value[..] == MicroFinished(frame[..], width, chosen, version, level)
    ensures r.Some? && mask != -2 && mask < 0 ==>
              FirstBestScore(frame[..], width, version, level, chosen, MICRO_MASK_NUM)
  {
    hide MicroFinished; hide Score; hide BottomFree;
    chosen := if mask >= 0 then mask else 0;
    if mask == -2 {
      var copy := new byte[width * width](_ => 0);
      forall i | 0 <= i < width * width {
        copy[i] := frame[i];
      }
      assert copy[..] == frame[..];
      r := Some(copy);
    } else if mask < 0 {
      r, chosen := MicroMaskMask(version, width, frame, level);
    } else {
      r := MicroMakeMask(version, width, frame, mask, level);
    }
  }

  /**
   QRcode_encodeMaskMQR.  The byte stream of the input may be missing, and the input may be one that
   is not for a Micro QR symbol of a known version and level; whatever gets past these checks is encoded.
   */
  method EncodeMaskMQR(mqr: bool, version: int, level: nat, data: Option<array<byte>>, mask: int, enc: Encoder)
    returns (r: Option<array<byte>>, ghost chosen: nat)
    requires data.Some? && mqr && 1 <= version <= MQRSPEC_VERSION_MAX && level <= 2 ==>
               Supported(version, level) && data.value.Length == GetDataLength(version, level)
    requires enc.Valid() && (data.Some? ==> data.value !in enc.Repr())
    modifies enc.Repr()
    ensures enc.Valid() && (r.Some? ==> fresh(r.value))
    ensures r.Some? <==> mqr && 1 <= version <= MQRSPEC_VERSION_MAX && level <= 2 && data.Some? && mask < MICRO_MASK_NUM
    ensures r.Some? && mask == -2 ==> r.value[..] == Drawn(version, level, old(data.value[..]))
    ensures r.Some? && mask != -2 ==>
              && chosen < MICRO_MASK_NUM && (mask >= 0 ==> chosen == mask)
              && r.value[..] == MicroFinished(Drawn(version, level, old(data.value[..])), GetWidth(version), chosen, version, level)
    ensures r.Some? && mask < 0 && mask != -2 ==>
              FirstBestScore(Drawn(version, level, old(data.value[..])), GetWidth(version), version, level, chosen, MICRO_MASK_NUM)
  {
    chosen := 0;
    if !mqr || version <= 0 || version > MQRSPEC_VERSION_MAX || level > 2 || data == None {
      return None, 0;
    }
    Capacities(version, level);
    DrawnIsFree(version, level, data.value[..]);
    var width := GetWidth(version);
    hide MicroFinished; hide MicroSymbol; hide Score; hide DataBits; hide DataBytes; hide MicroFrame;
    hide GetWidth; hide GetECCLength; hide GetDataLength; hide BottomFree;
    var frame := DrawMicro(width, GetECCLength(version, level), data.value, enc);
    assert frame[..] == Drawn(version, level, data.value[..]);
    r, chosen := MicroApplyMask(version, width, frame, mask, level);
  }
}
