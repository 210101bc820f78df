/** Micro QR symbols: capacities, and the frame with its function patterns. */
module MicroSpec {
  import opened Arith
  import opened Bits
  import opened Painting
  import opened Snake

  const MQRSPEC_VERSION_MAX := 4

  /** The table mqrspecCapacity. */
  function GetWidth(version: nat): nat
    requires version <= MQRSPEC_VERSION_MAX
  {
    match version
    case 0 => 0 case 1 => 11 case 2 => 13 case 3 => 15 case _ => 17
  }

  function GetECCLength(version: nat, level: nat): nat
    requires version <= MQRSPEC_VERSION_MAX && level < 4
  {
    match (version, level)
    case (1, 0) => 2
    case (2, 0) => 5
    case (2, 1) => 6
    case (3, 0) => 6
    case (3, 1) => 8
    case (4, 0) => 8
    case (4, 1) => 10
    case (4, 2) => 14
    case _ => 0
  }

  /** What MQRspec_getDataLengthBit computes from a width and a number of check bytes. */
  function DataBits(width: nat, ecc: nat): int {
    if ecc == 0 then 0 else (width - 1) * (width - 1) - 64 - ecc * 8
  }

  function GetDataLengthBit(version: nat, level: nat): int
    requires version <= MQRSPEC_VERSION_MAX && level < 4
  {
    DataBits(GetWidth(version), GetECCLength(version, level))
  }

  function GetDataLength(version: nat, level: nat): nat
    requires version <= MQRSPEC_VERSION_MAX && level < 4
  {
    (GetDataLengthBit(version, level) + 4) / 8
  }

  // ---- the frame ----

  /** The module at column x, row y of an empty Micro QR frame. */
  function MicroCell(x: nat, y: nat): byte {
    if x < 7 && y < 7 then Finder(x, y)
    else if x <= 7 && y <= 7 then 0xc0
    else if 1 <= x <= 8 && 1 <= y <= 8 then 0x84
    else if y == 0 then 0x90 + (x + 1) % 2
    else if x == 0 then 0x90 + (y + 1) % 2
    else 0
  }

  /** The modules that carry data. */
  predicate Free(x: nat, y: nat) {
    x >= 1 && y >= 1 && (x > 8 || y > 8)
  }

  lemma FreeIsUnflagged(x: nat, y: nat)
    ensures Free(x, y) <==> MicroCell(x, y) < 128
  {
  }

  ghost predicate IsMicroFrame(f: seq<byte>, w: nat) {
    && |f| == w * w
    && forall x: nat, y: nat | x < w && y < w :: f[Index(w, x, y)] == MicroCell(x, y)
  }

  /** The one frame of its width. */
  function MicroFrame(w: nat): (r: seq<byte>)
    requires w > 0
    ensures IsMicroFrame(r, w)
  {
    var r := seq<byte>(w * w, c requires 0 <= c < w * w => MicroCell(Col(w, c), Row(w, c)));
    ByCells(r, w);
    r
  }

  lemma ByCells(f: seq<byte>, w: nat)
    requires w > 0 && |f| == w * w && forall c :: 0 <= c < w * w ==> f[c] == MicroCell(Col(w, c), Row(w, c))
    ensures IsMicroFrame(f, w)
  {
    hide MicroCell; hide Col; hide Row;
    forall x: nat, y: nat | x < w && y < w ensures f[Index(w, x, y)] == MicroCell(x, y) {
      ColRow(w, x, y);
    }
  }

  lemma OnlyFrame(f: seq<byte>, w: nat)
    requires w > 0 && IsMicroFrame(f, w)
    ensures f == MicroFrame(w)
  {
    hide MicroCell; hide Index; hide MicroFrame;
    forall c | 0 <= c < w * w ensures f[c] == MicroFrame(w)[c] {
      IndexOf(w, c);
    }
  }

  // ---- drawing it ----

  /** After the finder pattern and the separator. */
  ghost function Separated(): picture {
    RowOver(ColumnOver(BlockOver(Blank(), 0, 0, 7, 7, 0, FinderPattern()), 7, 0, 7, 0xc0), 7, 0, 8, 0xc0)
  }

  /** After the area of the format information. */
  ghost function WithFormat(): picture {
    ColumnOver(RowOver(Separated(), 8, 1, 9, 0x84), 8, 1, 8, 0x84)
  }

  ghost function MicroPicture(): picture {
    (i: int, j: int) => if i < 0 || j < 0 then 0 else MicroCell(i, j)
  }

  lemma DrawnAlike(w: nat)
    requires w >= 11
    ensures Alike(w, TimingOver(WithFormat(), 0, w - 8), MicroPicture())
  {
    hide Finder;
  }

  lemma PictureOfFrame(f: seq<byte>, w: nat)
    requires Shows(f, w, MicroPicture())
    ensures IsMicroFrame(f, w)
  {
    hide Index; hide MicroCell;
    forall x: nat, y: nat | x < w && y < w ensures f[Index(w, x, y)] == MicroCell(x, y) {
      assert MicroPicture()(x, y) == MicroCell(x, y);
    }
  }

  /** MQRspec_createFrame, for a symbol of any width. */
  method CreateFrame(width: nat) returns (frame: array<byte>)
    requires width >= 11
    ensures fresh(frame) && frame.Length == width * width && frame[..] == MicroFrame(width)
  {
    frame := new byte[width * width](_ => 0);
    DrawFrame(width, frame);
    OnlyFrame(frame[..], width);
  }

  /** What it draws after its memset. */
  method DrawFrame(width: nat, frame: array<byte>)
    requires width >= 11 && frame.Length == width * width && forall i :: 0 <= i < frame.Length ==> frame[i] == 0
    modifies frame
    ensures IsMicroFrame(frame[..], width)
  {
    hide Shows; hide BlockOver; hide RowOver; hide ColumnOver; hide TimingOver; hide Blank; hide IsMicroFrame;
    hide MicroPicture; hide Alike; hide FinderPattern;
    BlankShows(frame[..], width);
    PutFinderPattern(frame, width, 0, 0, Blank());
    ghost var c := BlockOver(Blank(), 0, 0, 7, 7, 0, FinderPattern());
    DrawColumn(frame, width, 7, 0, 7, 0xc0, c);
    DrawRow(frame, width, 7, 0, 8, 0xc0, ColumnOver(c, 7, 0, 7, 0xc0));
    DrawRow(frame, width, 8, 1, 9, 0x84, Separated());
    DrawColumn(frame, width, 8, 1, 8, 0x84, RowOver(Separated(), 8, 1, 9, 0x84));
    PutTiming(frame, width, 0, width - 8, WithFormat());
    DrawnAlike(width);
    ShowsAlike(frame[..], width, TimingOver(WithFormat(), 0, width - 8), MicroPicture());
    PictureOfFrame(frame[..], width);
  }
}
