/** The frame of a full QR symbol: its version information, and QRspec_createFrame as a whole. */
module QrDrawing {
  import opened Bits
  import opened Painting
  import opened QrAlign
  import opened QrSpec
  import opened QrTables
  import opened Snake

  // ---- version information ----

  /** The number left when n bits have been shifted out. */
  function Shifted(info: nat, n: nat): nat {
    if n == 0 then info else Shifted(info, n - 1) / 2
  }

  lemma {:induction false} ShiftedBit(info: nat, n: nat, k: nat)
    ensures BitAt(Shifted(info, n), k) == BitAt(info, n + k)
  {
    if n > 0 {
      ShiftedBit(info, n - 1, k + 1);
    }
  }

  /** The first n bits of the copy beside the lower left finder pattern, and of the one beside the upper right. */
  ghost function LeftInfoOver(w: int, info: nat, n: int, c: picture): picture {
    (x: int, y: int) =>
      if 0 <= x < 6 && w - 11 <= y < w - 8 && 3 * x + (y - (w - 11)) < n then 0x88 + BitAt(info, 3 * x + (y - (w - 11)))
      else c(x, y)
  }

  ghost function RightInfoOver(w: int, info: nat, n: int, c: picture): picture {
    (x: int, y: int) =>
      if 0 <= y < 6 && w - 11 <= x < w - 8 && 3 * y + (x - (w - 11)) < n then 0x88 + BitAt(info, 3 * y + (x - (w - 11)))
      else c(x, y)
  }

  lemma LeftInfoNext(w: nat, info: nat, x: nat, y: nat, c: picture)
    requires w >= 21 && x < 6 && y < 3
    ensures var n := 3 * x + y;
            Alike(w, DotOver(LeftInfoOver(w, info, n, c), x, w - 11 + y, 0x88 + BitAt(info, n)), LeftInfoOver(w, info, n + 1, c))
  {
    hide BitAt;
  }

  lemma RightInfoNext(w: nat, info: nat, x: nat, y: nat, c: picture)
    requires w >= 21 && x < 3 && y < 6
    ensures var n := 3 * y + x;
            Alike(w, DotOver(RightInfoOver(w, info, n, c), w - 11 + x, y, 0x88 + BitAt(info, n)), RightInfoOver(w, info, n + 1, c))
  {
    hide BitAt;
  }

  lemma InfoStart(w: nat, info: nat, c: picture)
    ensures Alike(w, c, LeftInfoOver(w, info, 0, c)) && Alike(w, c, RightInfoOver(w, info, 0, c))
  {
    hide BitAt;
  }

  lemma LowBit(v: nat, info: nat, n: nat)
    requires v == Shifted(info, n)
    ensures v % 2 == BitAt(info, n) && v / 2 == Shifted(info, n + 1)
  {
    ShiftedBit(info, n, 0);
  }

  /** The loop for the copy beside the lower left finder pattern. */
  method PutLeftInfo(frame: array<byte>, width: nat, info: nat, ghost c: picture)
    requires width >= 21 && Shows(frame[..], width, c)
    modifies frame
    ensures Shows(frame[..], width, LeftInfoOver(width, info, 18, c))
  {
    hide Shows; hide Alike; hide LeftInfoOver; hide RightInfoOver; hide DotOver; hide BitAt;
    InfoStart(width, info, c);
    ShowsAlike(frame[..], width, c, LeftInfoOver(width, info, 0, c));
    var v := info;
    for x: nat := 0 to 6
      invariant v == Shifted(info, 3 * x)
      invariant Shows(frame[..], width, LeftInfoOver(width, info, 3 * x, c))
    {
      for y: nat := 0 to 3
        invariant v == Shifted(info, 3 * x + y)
        invariant Shows(frame[..], width, LeftInfoOver(width, info, 3 * x + y, c))
      {
        ghost var n := 3 * x + y;
        LowBit(v, info, n);
        ghost var d := LeftInfoOver(width, info, n, c);
        DrawDot(frame, width, x, width - 11 + y, 0x88 + v % 2, d);
        LeftInfoNext(width, info, x, y, c);
        ShowsAlike(frame[..], width, DotOver(d, x, width - 11 + y, 0x88 + v % 2), LeftInfoOver(width, info, n + 1, c));
        v := v / 2;
      }
    }
  }

  /** The loop for the copy beside the upper right finder pattern. */
  method PutRightInfo(frame: array<byte>, width: nat, info: nat, ghost c: picture)
    requires width >= 21 && Shows(frame[..], width, c)
    modifies frame
    ensures Shows(frame[..], width, RightInfoOver(width, info, 18, c))
  {
    hide Shows; hide Alike; hide LeftInfoOver; hide RightInfoOver; hide DotOver; hide BitAt;
    InfoStart(width, info, c);
    ShowsAlike(frame[..], width, c, RightInfoOver(width, info, 0, c));
    var v := info;
    for y: nat := 0 to 6
      invariant v == Shifted(info, 3 * y)
      invariant Shows(frame[..], width, RightInfoOver(width, info, 3 * y, c))
    {
      for x: nat := 0 to 3
        invariant v == Shifted(info, 3 * y + x)
        invariant Shows(frame[..], width, RightInfoOver(width, info, 3 * y + x, c))
      {
        ghost var n := 3 * y + x;
        LowBit(v, info, n);
        ghost var d := RightInfoOver(width, info, n, c);
        DrawDot(frame, width, width - 11 + x, y, 0x88 + v % 2, d);
        RightInfoNext(width, info, x, y, c);
        ShowsAlike(frame[..], width, DotOver(d, width - 11 + x, y, 0x88 + v % 2), RightInfoOver(width, info, n + 1, c));
        v := v / 2;
      }
    }
  }

  ghost function VersionPicture(version: nat, w: int, c: picture): picture {
    (x: int, y: int) => if version >= 7 then VersionCell(w, VersionPattern(version), x, y, c(x, y)) else c(x, y)
  }

  lemma VersionAlike(version: nat, w: nat, c: picture)
    requires version >= 7 && w >= 21
    ensures Alike(w, RightInfoOver(w, VersionPattern(version), 18, LeftInfoOver(w, VersionPattern(version), 18, c)),
                  VersionPicture(version, w, c))
  {
    hide BitAt; hide VersionPattern;
    var info := VersionPattern(version);
    var l := LeftInfoOver(w, info, 18, c);
    var d := RightInfoOver(w, info, 18, l);
    forall x: nat, y: nat | x < w && y < w ensures d(x, y) == VersionPicture(version, w, c)(x, y) {
      assert l(x, y) == if x < 6 && w - 11 <= y < w - 8 then 0x88 + BitAt(info, 3 * x + (y - (w - 11))) else c(x, y);
      assert VersionPicture(version, w, c)(x, y) == VersionCell(w, info, x, y, c(x, y));
    }
  }

  lemma NoVersion(version: nat, w: nat, c: picture)
    requires version < 7
    ensures Alike(w, c, VersionPicture(version, w, c))
  {
    hide VersionPattern;
  }

  /** Both copies, from version 7 on. */
  method PutVersion(version: nat, frame: array<byte>, width: nat, ghost c: picture)
    requires width >= 21 && Shows(frame[..], width, c)
    modifies frame
    ensures Shows(frame[..], width, VersionPicture(version, width, c))
  {
    hide Shows; hide Alike; hide LeftInfoOver; hide RightInfoOver; hide VersionPattern; hide VersionPicture;
    if version >= 7 {
      var info := VersionPattern(version);
      PutLeftInfo(frame, width, info, c);
      ghost var d := LeftInfoOver(width, info, 18, c);
      PutRightInfo(frame, width, info, d);
      VersionAlike(version, width, c);
      ShowsAlike(frame[..], width, RightInfoOver(width, info, 18, d), VersionPicture(version, width, c));
    } else {
      NoVersion(version, width, c);
      ShowsAlike(frame[..], width, c, VersionPicture(version, width, c));
    }
  }

  // ---- the frame ----

  lemma QrAlike(version: nat, w: nat)
    requires w >= 21
    ensures Alike(w, DotOver(VersionPicture(version, w, AlignPicture(CentresOf(version), BasePicture(w))), 8, w - 8, 0x81),
                  QrPicture(version, w))
  {
    hide BaseCell; hide AlignCell; hide VersionCell; hide CentresOf; hide VersionPattern;
    var a := AlignPicture(CentresOf(version), BasePicture(w));
    var d := DotOver(VersionPicture(version, w, a), 8, w - 8, 0x81);
    forall x: nat, y: nat | x < w && y < w ensures d(x, y) == QrPicture(version, w)(x, y) {
      assert a(x, y) == AlignCell(CentresOf(version), x, y, BaseCell(w, x, y));
      assert QrPicture(version, w)(x, y) == QrCell(version, w, x, y);
    }
  }

  lemma CellIsByte(version: nat, w: nat, x: int, y: int)
    ensures 0 <= QrCell(version, w, x, y) < 256
  {
    hide CentresOf; hide VersionPattern; hide BitAt; hide Centres.Near; hide Centres.Off;
  }

  /** The frame of a version. */
  function QrFrame(version: nat): (r: seq<byte>)
    ensures Shows(r, GetWidth(version), QrPicture(version, GetWidth(version)))
  {
    var w := GetWidth(version);
    var r := seq<byte>(w * w, c requires 0 <= c < w * w =>
      CellIsByte(version, w, CellX(w, c), CellY(w, c)); QrCell(version, w, CellX(w, c), CellY(w, c)));
    FrameShows(r, version, w);
    r
  }

  function CellX(w: nat, c: nat): nat { if w == 0 then 0 else c % w }

  function CellY(w: nat, c: nat): nat { if w == 0 then 0 else c / w }

  lemma FrameShows(f: seq<byte>, version: nat, w: nat)
    requires |f| == w * w && forall c: nat | c < w * w :: f[c] == QrCell(version, w, CellX(w, c), CellY(w, c))
    ensures Shows(f, w, QrPicture(version, w))
  {
    hide QrCell;
    forall x: nat, y: nat | x < w && y < w ensures f[Index(w, x, y)] == QrPicture(version, w)(x, y) {
      IndexInverse(w, x, y);
    }
  }

  /** QRspec_createFrame. */
  method CreateFrame(version: nat) returns (frame: array<byte>)
    requires 1 <= version <= QRSPEC_VERSION_MAX
    ensures fresh(frame) && frame.Length == GetWidth(version) * GetWidth(version)
    ensures frame[..] == QrFrame(version)
  {
    hide Shows; hide QrFrame; hide Alike; hide BasePicture; hide AlignPicture; hide VersionPicture; hide QrPicture; hide DotOver;
    hide GetWidth; hide CentresOf; hide GetEccSpec; hide GetDataLength; hide GetECCLength; hide Capacity;
    var width := GetWidth(version);
    TableSpecs(version, 0);
    frame := new byte[width * width](_ => 0);
    ghost var w: int := width;
    BlankShows(frame[..], width);
    DrawBase(width, frame);
    PutAlignmentPattern(version, frame, width, BasePicture(w));
    ghost var c := AlignPicture(CentresOf(version), BasePicture(w));
    PutVersion(version, frame, width, c);
    c := VersionPicture(version, w, c);
    DrawDot(frame, width, 8, width - 8, 0x81, c);
    QrAlike(version, width);
    ShowsAlike(frame[..], width, DotOver(c, 8, w - 8, 0x81), QrPicture(version, w));
    ShowsOne(frame[..], QrFrame(version), width, QrPicture(version, w));
  }
}
