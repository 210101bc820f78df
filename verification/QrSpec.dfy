/** What the frame of a full QR symbol shows, and drawing it up to the timing patterns. */
module QrSpec {
  import opened Bits
  import opened Painting
  import opened QrTables

  // ---- what the frame shows ----

  /** Finder patterns and separators, timing patterns, and the area of the format information but for one module. */
  function BaseCell(w: int, x: int, y: int): byte {
    if x < 8 && y < 8 then (if x < 7 && y < 7 then Finder(x, y) else 0xc0)
    else if x >= w - 8 && y < 8 then (if x >= w - 7 && y < 7 then Finder(x - (w - 7), y) else 0xc0)
    else if x < 8 && y >= w - 8 then (if x < 7 && y >= w - 7 then Finder(x, y - (w - 7)) else 0xc0)
    else if y == 6 then 0x90 + (x + 1) % 2
    else if x == 6 then 0x90 + (y + 1) % 2
    else if y == 8 && (x <= 8 || x >= w - 8) then 0x84
    else if x == 8 && (y < 8 || y >= w - 7) then 0x84
    else 0
  }

  /** The first centre of the alignment patterns beyond 6, the distance to the next, and how many there are. */
  datatype Centres = Centres(c: nat, d: nat, m: nat) {
    /** Within two modules of one of the first n centres. */
    predicate Near(n: nat, x: int)
      requires d > 0
    {
      x >= c - 2 && (x - (c - 2)) % d < 5 && (x - (c - 2)) / d < n
    }

    /** The place within the five modules around a centre. */
    function Off(x: int): int
      requires d > 0
    {
      (x - (c - 2)) % d
    }
  }

  /** The table of QRspec_putAlignmentMarker. */
  function Marker(x: int, y: int): byte {
    if x == 0 || x == 4 || y == 0 || y == 4 || (x == 2 && y == 2) then 0xa1 else 0xa0
  }

  /** The alignment patterns over v: on row and column 6 at all centres but the last, and where two centres cross. */
  function AlignCell(a: Centres, x: int, y: int, v: int): int
    requires a.d > 0
  {
    if 4 <= x <= 8 && a.m > 0 && a.Near(a.m - 1, y) then Marker(x - 4, a.Off(y))
    else if 4 <= y <= 8 && a.m > 0 && a.Near(a.m - 1, x) then Marker(a.Off(x), y - 4)
    else if a.Near(a.m, x) && a.Near(a.m, y) then Marker(a.Off(x), a.Off(y))
    else v
  }

  /** The two copies of the version information over v. */
  function VersionCell(w: int, info: nat, x: int, y: int, v: int): int {
    if 0 <= x < 6 && w - 11 <= y < w - 8 then 0x88 + BitAt(info, 3 * x + (y - (w - 11)))
    else if 0 <= y < 6 && w - 11 <= x < w - 8 then 0x88 + BitAt(info, 3 * y + (x - (w - 11)))
    else v
  }

  /** The centres of a version. */
  function CentresOf(version: nat): (a: Centres)
    ensures a.d >= 5
  {
    var (c, e) := AlignmentPattern(version);
    if version < 2 then Centres(0, 99, 0)
    else if e < c + 5 then Centres(c, 99, 1)
    else Centres(c, e - c, version / 7 + 1)
  }

  function QrCell(version: nat, w: int, x: int, y: int): int {
    if x == 8 && y == w - 8 then 0x81
    else
      var v := AlignCell(CentresOf(version), x, y, BaseCell(w, x, y));
      if version >= 7 then VersionCell(w, VersionPattern(version), x, y, v) else v
  }

  ghost function QrPicture(version: nat, w: int): picture { (i: int, j: int) => QrCell(version, w, i, j) }

  // ---- finder patterns, separators, format area, timing ----

  ghost function Finders(w: int): picture {
    BlockOver(BlockOver(BlockOver(Blank(), 0, 0, 7, 7, 0, FinderPattern()), w - 7, 0, 7, 7, 0, FinderPattern()),
              0, w - 7, 7, 7, 0, FinderPattern())
  }

  ghost function SeparatorsOver(c: picture, w: int): picture {
    RowOver(RowOver(RowOver(ColumnOver(ColumnOver(ColumnOver(c, 7, 0, 7, 0xc0), w - 8, 0, 7, 0xc0), 7, w - 7, w, 0xc0),
                            7, 0, 8, 0xc0), 7, w - 8, w, 0xc0), w - 8, 0, 8, 0xc0)
  }

  ghost function FormatOver(c: picture, w: int): picture {
    ColumnOver(ColumnOver(RowOver(RowOver(c, 8, 0, 9, 0x84), 8, w - 8, w, 0x84), 8, 0, 8, 0x84), 8, w - 7, w, 0x84)
  }

  ghost function Corners(w: int): picture {
    (x: int, y: int) =>
      if x < 8 && y < 8 then (if x < 7 && y < 7 then Finder(x, y) else 0xc0)
      else if x >= w - 8 && y < 8 then (if x >= w - 7 && y < 7 then Finder(x - (w - 7), y) else 0xc0)
      else if x < 8 && y >= w - 8 then (if x < 7 && y >= w - 7 then Finder(x, y - (w - 7)) else 0xc0)
      else 0
  }

  ghost function BasePicture(w: int): picture { (i: int, j: int) => BaseCell(w, i, j) }

  lemma CornersAlike(w: nat)
    requires w >= 21
    ensures Alike(w, SeparatorsOver(Finders(w), w), Corners(w))
  {
    hide Finder;
  }

  lemma BaseAlike(w: nat)
    requires w >= 21
    ensures Alike(w, TimingOver(FormatOver(Corners(w), w), 6, w - 16), BasePicture(w))
  {
    hide Finder;
  }

  /** The frame up to its timing patterns; a loop of the source that goes down three columns is one for each here. */
  method DrawBase(width: nat, frame: array<byte>)
    requires width >= 21 && Shows(frame[..], width, Blank())
    modifies frame
    ensures Shows(frame[..], width, BasePicture(width))
  {
    hide Shows; hide Alike; hide Corners; hide BasePicture; hide BlockOver; hide RowOver; hide ColumnOver; hide TimingOver;
    hide FinderPattern; hide Blank;
    ghost var w: int := width;
    PutFinderPattern(frame, width, 0, 0, Blank());
    ghost var c := BlockOver(Blank(), 0, 0, 7, 7, 0, FinderPattern());
    PutFinderPattern(frame, width, width - 7, 0, c);
    c := BlockOver(c, w - 7, 0, 7, 7, 0, FinderPattern());
    PutFinderPattern(frame, width, 0, width - 7, c);
    DrawSeparators(width, frame, Finders(w));
    CornersAlike(width);
    ShowsAlike(frame[..], width, SeparatorsOver(Finders(w), w), Corners(w));
    DrawFormatArea(width, frame, Corners(w));
    PutTiming(frame, width, 6, width - 16, FormatOver(Corners(w), w));
    BaseAlike(width);
    ShowsAlike(frame[..], width, TimingOver(FormatOver(Corners(w), w), 6, w - 16), BasePicture(w));
  }

  method DrawSeparators(width: nat, frame: array<byte>, ghost c: picture)
    requires width >= 21 && Shows(frame[..], width, c)
    modifies frame
    ensures Shows(frame[..], width, SeparatorsOver(c, width))
  {
    hide Shows; hide RowOver; hide ColumnOver;
    ghost var w: int := width;
    DrawColumn(frame, width, 7, 0, 7, 0xc0, c);
    ghost var d := ColumnOver(c, 7, 0, 7, 0xc0);
    DrawColumn(frame, width, width - 8, 0, 7, 0xc0, d);
    d := ColumnOver(d, w - 8, 0, 7, 0xc0);
    DrawColumn(frame, width, 7, width - 7, width, 0xc0, d);
    d := ColumnOver(d, 7, w - 7, w, 0xc0);
    DrawRow(frame, width, 7, 0, 8, 0xc0, d);
    d := RowOver(d, 7, 0, 8, 0xc0);
    DrawRow(frame, width, 7, width - 8, width, 0xc0, d);
    d := RowOver(d, 7, w - 8, w, 0xc0);
    DrawRow(frame, width, width - 8, 0, 8, 0xc0, d);
  }

  method DrawFormatArea(width: nat, frame: array<byte>, ghost c: picture)
    requires width >= 21 && Shows(frame[..], width, c)
    modifies frame
    ensures Shows(frame[..], width, FormatOver(c, width))
  {
    hide Shows; hide RowOver; hide ColumnOver;
    ghost var w: int := width;
    DrawRow(frame, width, 8, 0, 9, 0x84, c);
    ghost var d := RowOver(c, 8, 0, 9, 0x84);
    DrawRow(frame, width, 8, width - 8, width, 0x84, d);
    d := RowOver(d, 8, w - 8, w, 0x84);
    DrawColumn(frame, width, 8, 0, 8, 0x84, d);
    d := ColumnOver(d, 8, 0, 8, 0x84);
    DrawColumn(frame, width, 8, width - 7, width, 0x84, d);
  }
}
