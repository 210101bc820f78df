/** QRcode_encodeMask: the finished symbol of every version, and the reader that gets its content back. */
module QrEncode {
  import opened Bits
  import opened Format
  import opened FrameFiller
  import opened Frames
  import opened Interleave
  import opened Mask
  import opened MaskChoice
  import opened QrCapacity
  import opened QrCode
  import opened QrDrawing
  import opened QrSpec
  import opened QrTables
  import opened RawCode
  import opened Reader
  import opened Rsecc
  import opened Snake
  import opened Wrappers

  lemma Capacities(version: nat, level: nat)
    requires 1 <= version <= QRSPEC_VERSION_MAX && level < 4
    ensures var w, s, f := GetWidth(version), GetEccSpec(version, level), QrFrame(version);
            && w == 17 + 4 * version && w <= QRSPEC_WIDTH_MAX && |f| == w * w
            && s.Valid() && GetDataLength(version, level) == s.DataLength()
            && Walk(w, false).Layout(ReservedMap(f)) && FormatReserved(ReservedMap(f), w)
            && |Cells(w, f)| == 8 * (s.DataLength() + s.EccLength()) + GetRemainder(version)
  {
    hide *;
    var w, f := GetWidth(version), QrFrame(version);
    TableSpecs(version, level);
    IsFrame(version);
    QrFreeModules(f, version, w);
    QrFormatPlaces(f, version, w);
    CellsAre(w, f);
    WidthLimit(version);
  }

  lemma IsFrame(version: nat)
    ensures IsQrFrame(QrFrame(version), version, GetWidth(version))
    ensures GetRemainder(version) == Capacity(version).remainder
  {
    hide QrFrame; hide Capacity; hide QrPicture;
  }

  lemma CellsAre(w: nat, f: seq<byte>)
    requires Walk(w, false).Layout(ReservedMap(f))
    ensures Walk(w, false).Valid() && |ReservedMap(f)| == w * w
    ensures Cells(w, f) == Walk(w, false).From(ReservedMap(f), 0, 0)
  {
    hide Walk.From;
  }

  lemma WidthLimit(version: nat)
    requires version <= QRSPEC_VERSION_MAX
    ensures 17 + 4 * version <= QRSPEC_WIDTH_MAX
  {
  }

  /** The symbol of a version and level, before masking: every free module of the frame is used. */
  ghost function Drawn(version: nat, level: nat, data: seq<byte>): (r: seq<byte>)
    requires 1 <= version <= QRSPEC_VERSION_MAX && level < 4 && |data| == GetDataLength(version, level)
    ensures |r| == GetWidth(version) * GetWidth(version)
  {
    Capacities(version, level);
    Symbol(GetWidth(version), QrFrame(version), GetEccSpec(version, level), GetRemainder(version), data)
  }

  /** r is the symbol of data: unmasked for mask -2, with the best mask for other negative ones, else with that mask. */
  ghost predicate IsSymbolOf(version: nat, level: nat, data: seq<byte>, mask: int, chosen: nat, r: seq<byte>)
    requires 1 <= version <= QRSPEC_VERSION_MAX && level < 4 && |data| == GetDataLength(version, level)
  {
    WidthOf(version);
    var w, g := GetWidth(version), Drawn(version, level, data);
    if mask == -2 then r == g
    else
      && chosen < MASK_NUM && (if mask >= 0 then chosen == mask else FirstBest(g, w, level, chosen, MASK_NUM))
      && r == Finished(g, w, chosen, level)
  }

  lemma WidthOf(version: nat)
    requires 1 <= version <= QRSPEC_VERSION_MAX
    ensures GetWidth(version) == 17 + 4 * version
  {
    TableSpecs(version, 0);
    hide Capacity;
  }

  /**
   QRcode_encodeMask.  The byte stream of the input may be missing, and the input may be one for another
   kind of symbol; making the byte stream settles the version, which may be larger than the one asked for.
   */
  method EncodeMask(mqr: bool, version: int, level: int, data: Option<array<byte>>, settled: nat, mask: int, enc: Encoder)
    returns (r: Option<array<byte>>, ghost chosen: nat)
    requires !mqr && 0 <= version <= QRSPEC_VERSION_MAX && 0 <= level < 4 && data.Some? ==>
               1 <= settled <= QRSPEC_VERSION_MAX && data.value.Length == GetDataLength(settled, level)
    requires enc.Valid() && (data.Some? ==> data.value !in enc.Repr())
    modifies enc.Repr()
    ensures enc.Valid() && (r.Some? ==> fresh(r.value))
    ensures r.Some? <==>
              !mqr && 0 <= version <= QRSPEC_VERSION_MAX && 0 <= level < 4 && data.Some? && mask < MASK_NUM
    ensures r.Some? ==> IsSymbolOf(settled, level, old(data.value[..]), mask, chosen, r.value[..])
  {
    hide Finished; hide Symbol; hide Demerit; hide GetWidth; hide GetEccSpec; hide GetDataLength; hide GetRemainder;
    hide QrFrame; hide Walk.Layout; hide ReservedMap; hide Cells; hide FormatReserved;
    chosen := 0;
    if mqr || version < 0 || version > QRSPEC_VERSION_MAX || level < 0 || level >= 4 || data == None {
      return None, 0;
    }
    Capacities(settled, level);
    ghost var d := data.value[..];
    var frame := DrawQr(settled, level, data.value, enc);
    r, chosen := ApplyMask(GetWidth(settled), frame, mask, level);
  }

  /** The part of QRcode_encodeMask between the argument checks and the masking: the filler never runs out. */
  method DrawQr(version: nat, level: nat, data: array<byte>, enc: Encoder) returns (frame: array<byte>)
    requires 1 <= version <= QRSPEC_VERSION_MAX && level < 4 && data.Length == GetDataLength(version, level)
    requires enc.Valid() && data !in enc.Repr()
    modifies enc.Repr()
    ensures enc.Valid() && fresh(frame) && frame.Length == GetWidth(version) * GetWidth(version)
    ensures data[..] == old(data[..]) && frame[..] == Drawn(version, level, data[..])
  {
    hide Symbol; hide GetWidth; hide GetEccSpec; hide GetDataLength; hide GetRemainder; hide QrFrame; hide Walk.Layout;
    hide ReservedMap; hide Cells; hide FormatReserved; hide Fill; hide SymbolVals; hide AllEcc;
    Capacities(version, level);
    frame := CreateFrame(version);
    var ok := FillSymbol(GetWidth(version), frame, GetEccSpec(version, level), GetRemainder(version), data, enc);
    SymbolIs(GetWidth(version), QrFrame(version), GetEccSpec(version, level), GetRemainder(version), data[..]);
  }

  lemma SymbolIs(w: nat, f: seq<byte>, s: EccSpec, remainder: nat, data: seq<byte>)
    requires |f| == w * w && Walk(w, false).Layout(ReservedMap(f)) && s.Valid() && |data| == s.DataLength()
    requires 8 * (s.DataLength() + s.EccLength()) + remainder <= |Cells(w, f)|
    ensures InFrame(Cells(w, f), |f|)
    ensures Symbol(w, f, s, remainder, data) == Fill(f, Cells(w, f), SymbolVals(s, data, AllEcc(s, data, s.Blocks()), remainder))
  {
    CellsInFrame(Walk(w, false), ReservedMap(f));
    hide Walk.From; hide Fill; hide SymbolVals; hide AllEcc;
  }

  /** For every version, level, mask and data the reader finds what was encoded. */
  lemma VersionRead(version: nat, level: nat, mask: nat, data: seq<byte>)
    requires 1 <= version <= QRSPEC_VERSION_MAX && level < 4 && mask < MASK_NUM && |data| == GetDataLength(version, level)
    ensures var w, s, res := GetWidth(version), GetEccSpec(version, level), ReservedMap(QrFrame(version));
            && w >= 17 && s.Valid() && Walk(w, false).Layout(res) && FormatReserved(res, w) && |data| == s.DataLength()
            && Read(DarkMap(Finished(Drawn(version, level, data), w, mask, level)), w, res, s)
               == Some(Content(level, mask, data, AllEcc(s, data, s.Blocks())))
  {
    hide Finished; hide Symbol; hide GetWidth; hide GetEccSpec; hide GetDataLength; hide GetRemainder; hide QrFrame;
    hide Walk.Layout; hide ReservedMap; hide Cells; hide FormatReserved; hide Read; hide DarkMap; hide AllEcc;
    Capacities(version, level);
    ReaderFindsData(GetWidth(version), QrFrame(version), GetEccSpec(version, level), GetRemainder(version), data, mask, level);
  }

  /** In these symbols the number of dark modules that the choice of a mask counts is the true one. */
  lemma CountIsExact(version: nat, level: nat, mask: nat, data: seq<byte>)
    requires 1 <= version <= QRSPEC_VERSION_MAX && level < 4 && mask < MASK_NUM && |data| == GetDataLength(version, level)
    ensures var g, w := Drawn(version, level, data), GetWidth(version);
            w >= 17 && CountedBlacks(g, w, mask, level) == Darks(Finished(g, w, mask, level))
  {
    hide *;
    WidthOf(version);
    Capacities(version, level);
    var w, f, g := GetWidth(version), QrFrame(version), Drawn(version, level, data);
    IsFrame(version);
    QrFormatPlaces(f, version, w);
    DrawnKeeps(version, level, data);
    PlacesKept(f, g, w);
    BlacksExact(g, w, mask, level);
  }

  /** Drawing writes to no reserved module. */
  lemma DrawnKeeps(version: nat, level: nat, data: seq<byte>)
    requires 1 <= version <= QRSPEC_VERSION_MAX && level < 4 && |data| == GetDataLength(version, level)
    ensures var f := QrFrame(version);
            |f| == |Drawn(version, level, data)| == |ReservedMap(f)|
            && forall c: nat | c < |f| :: ReservedMap(f)[c] ==> Drawn(version, level, data)[c] == f[c]
  {
    hide *;
    Capacities(version, level);
    var w, f, s := GetWidth(version), QrFrame(version), GetEccSpec(version, level);
    DrawnIs(version, level, data);
    CellsAre(w, f);
    forall c: nat | c < |f| && ReservedMap(f)[c] ensures Drawn(version, level, data)[c] == f[c] {
      SymbolKeeps(w, f, s, GetRemainder(version), data, c);
    }
  }

  lemma SymbolKeeps(w: nat, f: seq<byte>, s: EccSpec, remainder: nat, data: seq<byte>, c: nat)
    requires |f| == w * w && Walk(w, false).Layout(ReservedMap(f)) && s.Valid() && |data| == s.DataLength()
    requires 8 * (s.DataLength() + s.EccLength()) + remainder <= |Cells(w, f)|
    requires c < |f| && ReservedMap(f)[c]
    ensures Symbol(w, f, s, remainder, data)[c] == f[c]
  {
    hide Walk.From; hide Fill; hide SymbolVals; hide AllEcc; hide ReservedMap;
    CellsInFrame(Walk(w, false), ReservedMap(f));
    SymbolIs(w, f, s, remainder, data);
    FillElsewhere(f, Cells(w, f), SymbolVals(s, data, AllEcc(s, data, s.Blocks()), remainder), c);
  }

  lemma DrawnIs(version: nat, level: nat, data: seq<byte>)
    requires 1 <= version <= QRSPEC_VERSION_MAX && level < 4 && |data| == GetDataLength(version, level)
    requires Walk(GetWidth(version), false).Layout(ReservedMap(QrFrame(version)))
    requires |QrFrame(version)| == GetWidth(version) * GetWidth(version)
    requires GetEccSpec(version, level).Valid() && |data| == GetEccSpec(version, level).DataLength()
    requires var s := GetEccSpec(version, level);
             8 * (s.DataLength() + s.EccLength()) + GetRemainder(version) <= |Cells(GetWidth(version), QrFrame(version))|
    ensures Drawn(version, level, data)
            == Symbol(GetWidth(version), QrFrame(version), GetEccSpec(version, level), GetRemainder(version), data)
  {
    hide Symbol; hide GetWidth; hide GetEccSpec; hide GetRemainder; hide QrFrame; hide Walk.Layout; hide ReservedMap;
    hide Cells; hide GetDataLength;
  }

  lemma PlacesKept(f: seq<byte>, g: seq<byte>, w: nat)
    requires |f| == |g| == w * w && FormatReserved(ReservedMap(f), w) && PlacesFlagged(f, w)
    requires forall n :: 0 <= n < 30 ==> f[FormatCell(w, n)] % 2 == 0
    requires forall c: nat | c < |f| :: ReservedMap(f)[c] ==> g[c] == f[c]
    ensures PlacesFlagged(g, w) && forall n :: 0 <= n < 30 ==> g[FormatCell(w, n)] % 2 == 0
  {
    hide FormatCell; hide ReservedMap;
  }
}
