/** The format information of a QR symbol: its table, where it is written and how it is read. */
module Format {
  import opened Arith
  import opened Bits
  import opened BitString
  import opened Frames
  import opened Snake
  import opened Wrappers

  /** A row of the table formatInfo. */
  function Pick(mask: nat, f0: nat, f1: nat, f2: nat, f3: nat, f4: nat, f5: nat, f6: nat, f7: nat): nat {
    match mask
    case 0 => f0 case 1 => f1 case 2 => f2 case 3 => f3
    case 4 => f4 case 5 => f5 case 6 => f6 case _ => f7
  }

  /** QRspec_getFormatInfo for error correction level 0 (L) to 3 (H). */
  function FormatInfo(mask: int, level: nat): nat
    requires level < 4
  {
    if mask < 0 || mask > 7 then 0
    else match level
      case 0 => Pick(mask, 0x77c4, 0x72f3, 0x7daa, 0x789d, 0x662f, 0x6318, 0x6c41, 0x6976)
      case 1 => Pick(mask, 0x5412, 0x5125, 0x5e7c, 0x5b4b, 0x45f9, 0x40ce, 0x4f97, 0x4aa0)
      case 2 => Pick(mask, 0x355f, 0x3068, 0x3f31, 0x3a06, 0x24b4, 0x2183, 0x2eda, 0x2bed)
      case _ => Pick(mask, 0x1689, 0x13be, 0x1ce7, 0x19d0, 0x0762, 0x0255, 0x0d0c, 0x083b)
  }

  /** The reader's inverse. */
  function ParseFormat(v: nat): Option<(nat, nat)> {
    match v
    case 0x77c4 => Some((0, 0)) case 0x72f3 => Some((0, 1)) case 0x7daa => Some((0, 2)) case 0x789d => Some((0, 3))
    case 0x662f => Some((0, 4)) case 0x6318 => Some((0, 5)) case 0x6c41 => Some((0, 6)) case 0x6976 => Some((0, 7))
    case 0x5412 => Some((1, 0)) case 0x5125 => Some((1, 1)) case 0x5e7c => Some((1, 2)) case 0x5b4b => Some((1, 3))
    case 0x45f9 => Some((1, 4)) case 0x40ce => Some((1, 5)) case 0x4f97 => Some((1, 6)) case 0x4aa0 => Some((1, 7))
    case 0x355f => Some((2, 0)) case 0x3068 => Some((2, 1)) case 0x3f31 => Some((2, 2)) case 0x3a06 => Some((2, 3))
    case 0x24b4 => Some((2, 4)) case 0x2183 => Some((2, 5)) case 0x2eda => Some((2, 6)) case 0x2bed => Some((2, 7))
    case 0x1689 => Some((3, 0)) case 0x13be => Some((3, 1)) case 0x1ce7 => Some((3, 2)) case 0x19d0 => Some((3, 3))
    case 0x0762 => Some((3, 4)) case 0x0255 => Some((3, 5)) case 0x0d0c => Some((3, 6)) case 0x083b => Some((3, 7))
    case _ => None
  }

  lemma FormatsDistinct(mask: nat, level: nat)
    requires mask < 8 && level < 4
    ensures FormatInfo(mask, level) < 0x8000
    ensures ParseFormat(FormatInfo(mask, level)) == Some((level, mask))
  {
  }

  // ---- where the format information is written: bit i at calls 2i and 2i + 1 ----

  function FormatX(w: nat, n: nat): int
    requires n < 30
  {
    var i := n / 2;
    if n % 2 == 0 then (if i < 8 then w - 1 - i else 8)
    else if i < 8 then 8 else if i == 8 then 7 else 14 - i
  }

  function FormatY(w: nat, n: nat): int
    requires n < 30
  {
    var i := n / 2;
    if n % 2 == 0 then (if i < 8 then 8 else w - 15 + i)
    else if i < 6 then i else if i < 8 then i + 1 else 8
  }

  function FormatCell(w: nat, n: nat): (c: nat)
    requires n < 30 && w >= 17
    ensures c < w * w
  {
    Index(w, FormatX(w, n), FormatY(w, n))
  }

  function FormatCells(w: nat): (r: seq<nat>)
    requires w >= 17
    ensures |r| == 30 && InFrame(r, w * w)
  {
    seq(30, n requires 0 <= n < 30 => FormatCell(w, n))
  }

  lemma FormatPlacesDiffer(w: nat, n: nat, m: nat)
    requires n < m < 30 && w >= 17
    ensures FormatX(w, n) != FormatX(w, m) || FormatY(w, n) != FormatY(w, m)
  {
  }

  lemma FormatCellsDistinct(w: nat)
    requires w >= 17
    ensures Distinct(FormatCells(w))
  {
    hide Index; hide FormatX; hide FormatY;
    forall n, m | 0 <= n < m < 30 ensures FormatCells(w)[n] != FormatCells(w)[m] {
      FormatCellsDiffer(w, n, m);
    }
  }

  lemma FormatCellsDiffer(w: nat, n: nat, m: nat)
    requires n < m < 30 && w >= 17
    ensures FormatCell(w, n) != FormatCell(w, m)
  {
    FormatPlacesDiffer(w, n, m);
    InSymbol(w, n); InSymbol(w, m);
    hide Index; hide FormatX; hide FormatY;
    IndexInverse(w, FormatX(w, n), FormatY(w, n));
    IndexInverse(w, FormatX(w, m), FormatY(w, m));
  }

  lemma InSymbol(w: nat, n: nat)
    requires n < 30 && w >= 17
    ensures 0 <= FormatX(w, n) < w && 0 <= FormatY(w, n) < w
  {
  }

  function FormatBit(fmt: nat, i: nat): (b: bit) {
    fmt / Pow2(i) % 2
  }

  function FormatVals(fmt: nat): (r: seq<byte>)
    ensures |r| == 30
  {
    seq<byte>(30, n requires 0 <= n < 30 => 0x84 + FormatBit(fmt, n / 2))
  }

  function Formatted(f: seq<byte>, w: nat, fmt: nat): (r: seq<byte>)
    requires |f| == w * w && w >= 17
    ensures |r| == |f|
  {
    Fill(f, FormatCells(w), FormatVals(fmt))
  }

  function DarkMap(f: seq<byte>): (r: seq<bool>)
    ensures |r| == |f|
  {
    seq(|f|, i requires 0 <= i < |f| => f[i] % 2 == 1)
  }

  /** The reader takes bit 14 first, from the copy beside the upper left finder pattern. */
  function FormatDark(w: nat, dark: seq<bool>): (r: seq<bit>)
    requires |dark| == w * w && w >= 17
    ensures |r| == 15
  {
    seq<bit>(15, k requires 0 <= k < 15 => if dark[FormatCell(w, 2 * (14 - k) + 1)] then 1 else 0)
  }

  lemma FormatAt(f: seq<byte>, w: nat, fmt: nat, n: nat)
    requires |f| == w * w && w >= 17 && n < 30
    ensures Formatted(f, w, fmt)[FormatCell(w, n)] == 0x84 + FormatBit(fmt, n / 2)
  {
    hide FormatBit; hide Fill; hide FormatCell;
    FormatCellsDistinct(w);
    FillAt(f, FormatCells(w), FormatVals(fmt), n);
  }

  lemma FormatDarkAt(f: seq<byte>, w: nat, fmt: nat, k: nat)
    requires |f| == w * w && w >= 17 && k < 15
    ensures FormatDark(w, DarkMap(Formatted(f, w, fmt)))[k] == NumBits(15, fmt)[k]
  {
    hide *;
    NumBitsAt(15, fmt, k);
    var n := 2 * (14 - k) + 1;
    FormatAt(f, w, fmt, n);
    assert n / 2 == 14 - k;
    FormatDarkIs(w, Formatted(f, w, fmt), k);
    WrittenBit(fmt, 14 - k);
  }

  lemma FormatDarkIs(w: nat, f: seq<byte>, k: nat)
    requires |f| == w * w && w >= 17 && k < 15
    ensures FormatDark(w, DarkMap(f))[k] == f[FormatCell(w, 2 * (14 - k) + 1)] % 2
  {
    hide FormatCell;
  }

  lemma WrittenBit(fmt: nat, i: nat)
    ensures FormatBit(fmt, i) == fmt / Pow2(i) % 2 && (0x84 + FormatBit(fmt, i)) % 2 == FormatBit(fmt, i)
  {
    hide Pow2;
  }

  /** What was written is what is read. */
  lemma FormatReadBack(f: seq<byte>, w: nat, fmt: nat)
    requires |f| == w * w && w >= 17 && fmt < 0x8000
    ensures Value(FormatDark(w, DarkMap(Formatted(f, w, fmt)))) == fmt
  {
    assert Pow2(15) == 0x8000;
    hide Formatted; hide FormatDark; hide NumBits; hide Value; hide Pow2; hide DarkMap;
    var bits := FormatDark(w, DarkMap(Formatted(f, w, fmt)));
    forall k | 0 <= k < 15 ensures bits[k] == NumBits(15, fmt)[k] {
      FormatDarkAt(f, w, fmt, k);
    }
    assert bits == NumBits(15, fmt);
    ValueOfNum(15, fmt);
  }

  /** How many of the lowest n bits are 1. */
  function Ones(fmt: nat, n: nat): nat {
    if n == 0 then 0 else Ones(fmt, n - 1) + FormatBit(fmt, n - 1)
  }

  /** f after the bits below i have been written. */
  function Stamped(f: seq<byte>, w: nat, fmt: nat, i: nat): (r: seq<byte>)
    requires |f| == w * w && w >= 17 && i <= 15
    ensures |r| == |f|
  {
    Fill(f, FormatCells(w), FormatVals(fmt)[..2 * i])
  }

  lemma StampedEnds(f: seq<byte>, w: nat, fmt: nat)
    requires |f| == w * w && w >= 17
    ensures Stamped(f, w, fmt, 0) == f && Stamped(f, w, fmt, 15) == Formatted(f, w, fmt)
  {
    FillNil(f, FormatCells(w));
    hide Fill; hide FormatCells;
    assert FormatVals(fmt)[..2 * 0] == [] && FormatVals(fmt)[..2 * 15] == FormatVals(fmt);
  }

  /** Mask_writeFormatInformation: the number returned counts the dark modules written. */
  method WriteFormatInformation(width: nat, frame: array<byte>, mask: nat, level: nat) returns (blacks: nat)
    requires width >= 17 && frame.Length == width * width && mask < 8 && level < 4
    modifies frame
    ensures frame[..] == Formatted(old(frame[..]), width, FormatInfo(mask, level))
    ensures blacks == 2 * Ones(FormatInfo(mask, level), 15)
  {
    var fmt := FormatInfo(mask, level);
    assert Ones(fmt, 0) == 0;
    hide FormatInfo; hide Stamped; hide Formatted;
    StampedEnds(frame[..], width, fmt);
    ghost var f := frame[..];
    var format;
    format, blacks := WriteLowBits(width, frame, fmt);
    blacks := WriteHighBits(width, frame, fmt, format, blacks, f);
  }

  /** The first loop: bits 0 to 7. */
  method WriteLowBits(width: nat, frame: array<byte>, fmt: nat) returns (format: nat, blacks: nat)
    requires width >= 17 && frame.Length == width * width
    requires frame[..] == Stamped(frame[..], width, fmt, 0)
    modifies frame
    ensures format == fmt / Pow2(8) && blacks == 2 * Ones(fmt, 8)
    ensures frame[..] == Stamped(old(frame[..]), width, fmt, 8)
  {
    hide *;
    ghost var f := frame[..];
    NoBits(fmt);
    format, blacks := fmt, 0;
    for i := 0 to 8
      invariant format == fmt / Pow2(i) && blacks == 2 * Ones(fmt, i)
      invariant frame[..] == Stamped(f, width, fmt, i)
    {
      FormatPlace(width, i);
      TwoMore(f, width, fmt, i);
      NextBit(fmt, i);
      var v: byte := if format % 2 == 1 then 0x85 else 0x84;
      if format % 2 == 1 {
        blacks := blacks + 2;
      }
      frame[width * 8 + width - 1 - i] := v;
      if i < 6 {
        frame[width * i + 8] := v;
      } else {
        frame[width * (i + 1) + 8] := v;
      }
      format := format / 2;
    }
  }

  /** The second loop: bits 8 to 14. */
  method WriteHighBits(width: nat, frame: array<byte>, ghost fmt: nat, shifted: nat, dark: nat, ghost f: seq<byte>)
    returns (blacks: nat)
    requires width >= 17 && frame.Length == |f| == width * width
    requires shifted == fmt / Pow2(8) && dark == 2 * Ones(fmt, 8) && frame[..] == Stamped(f, width, fmt, 8)
    modifies frame
    ensures blacks == 2 * Ones(fmt, 15) && frame[..] == Stamped(f, width, fmt, 15)
  {
    hide Pow2; hide Stamped; hide FormatCell; hide Ones;
    var format := shifted;
    blacks := dark;
    for i := 0 to 7
      invariant format == fmt / Pow2(8 + i) && blacks == 2 * Ones(fmt, 8 + i)
      invariant frame[..] == Stamped(f, width, fmt, 8 + i)
    {
      FormatPlace(width, 8 + i);
      TwoMore(f, width, fmt, 8 + i);
      NextBit(fmt, 8 + i);
      var v: byte := if format % 2 == 1 then 0x85 else 0x84;
      if format % 2 == 1 {
        blacks := blacks + 2;
      }
      frame[width * (width - 7 + i) + 8] := v;
      if i == 0 {
        frame[width * 8 + 7] := v;
      } else {
        frame[width * 8 + 6 - i] := v;
      }
      format := format / 2;
    }
  }

  lemma FillNil(f: seq<byte>, cells: seq<nat>)
    requires InFrame(cells, |f|)
    ensures Fill(f, cells, []) == f
  {
  }

  /** The two places of bit i, as the source computes them. */
  lemma FormatPlace(w: nat, i: nat)
    requires i < 15 && w >= 17
    ensures FormatCell(w, 2 * i) == if i < 8 then w * 8 + w - 1 - i else w * (w - 15 + i) + 8
    ensures FormatCell(w, 2 * i + 1)
            == if i < 6 then w * i + 8 else if i < 8 then w * (i + 1) + 8
               else if i == 8 then w * 8 + 7 else w * 8 + 14 - i
  {
    assert 2 * i / 2 == i && (2 * i + 1) / 2 == i;
    assert 8 * w == w * 8 && i * w == w * i && (i + 1) * w == w * (i + 1);
    if i >= 8 {
      assert (w - 15 + i) * w == w * (w - 15 + i);
    }
  }

  lemma TwoMore(f: seq<byte>, w: nat, fmt: nat, i: nat)
    requires |f| == w * w && w >= 17 && i < 15
    ensures var v := 0x84 + fmt / Pow2(i) % 2;
            Stamped(f, w, fmt, i + 1)
            == Stamped(f, w, fmt, i)[FormatCell(w, 2 * i) := v][FormatCell(w, 2 * i + 1) := v]
  {
    hide Fill; hide Pow2; hide FormatCell;
    var vals, cells, v := FormatVals(fmt), FormatCells(w), 0x84 + FormatBit(fmt, i);
    var n := 2 * i;
    assert n / 2 == i && (n + 1) / 2 == i;
    assert vals[n] == v && vals[n + 1] == v;
    hide FormatBit; hide FormatVals;
    FillSnoc(f, cells, vals[..n], v);
    assert vals[..n + 1] == vals[..n] + [v];
    FillSnoc(f, cells, vals[..n + 1], v);
    assert vals[..n + 2] == vals[..n + 1] + [v];
  }

  lemma NoBits(fmt: nat)
    ensures Pow2(0) == 1 && Ones(fmt, 0) == 0
  {
  }

  lemma NextBit(fmt: nat, i: nat)
    ensures fmt / Pow2(i + 1) == fmt / Pow2(i) / 2
    ensures Ones(fmt, i + 1) == Ones(fmt, i) + fmt / Pow2(i) % 2
  {
    DivideTwice(fmt, Pow2(i));
  }

  lemma DivideTwice(v: nat, p: nat)
    requires p > 0
    ensures v / (2 * p) == v / p / 2
  {
    var q := v / p;
    Quotient(v, p);
    DivMod(2 * p, q / 2, q % 2 * p + v % p);
    assert q / 2 * (2 * p) + q % 2 * p == q * p by {
      assert q == 2 * (q / 2) + q % 2;
      TwiceAndOne(q / 2, q % 2, p);
    }
  }

  lemma TwiceAndOne(h: nat, b: nat, p: nat)
    ensures h * (2 * p) + b * p == (2 * h + b) * p
  {
  }
}
