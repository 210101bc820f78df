/** The free modules of a Micro QR frame are exactly as many as the bits its codes need. */
module MicroFit {
  import opened Bits
  import opened FrameFiller
  import opened MicroSpec
  import opened Snake

  /** Widths of Micro QR symbols, with no upper limit. */
  predicate MicroWidth(w: nat) { w >= 11 && w % 2 == 1 }

  lemma MicroMap(f: seq<byte>, w: nat, x: nat, y: nat)
    requires IsMicroFrame(f, w) && x < w && y < w
    ensures ReservedMap(f)[Index(w, x, y)] <==> !Free(x, y)
  {
    FreeIsUnflagged(x, y);
    hide MicroCell; hide Free; hide Index;
    MapAt(f, Index(w, x, y));
  }

  /** The frame meets the conditions under which the walk is complete. */
  lemma MicroLayout(f: seq<byte>, w: nat)
    requires IsMicroFrame(f, w) && MicroWidth(w)
    ensures Walk(w, true).Layout(ReservedMap(f))
  {
    var t, res := Walk(w, true), ReservedMap(f);
    IndexCorner(w);
    hide Index;
    MicroMap(f, w, w - 1, w - 1);
    forall y | 0 <= y < w ensures t.Reserved(res, 0, y) {
      MicroMap(f, w, 0, y);
    }
  }

  /** Free modules of pair k from step s on. */
  function PairFree(w: nat, k: nat, s: nat): int {
    var h := if w - 1 - 2 * k > 8 then 1 else 9;
    if k % 2 == 0 then (if s < 2 * (w - h) then 2 * (w - h) - s else 0)
    else 2 * w - (if s < 2 * h then 2 * h else s)
  }

  lemma {:induction false} PairLength(f: seq<byte>, w: nat, k: nat, s: nat)
    requires IsMicroFrame(f, w) && MicroWidth(w) && k < (w - 1) / 2 && s <= 2 * w
    ensures |Walk(w, true).From(ReservedMap(f), k, s)|
            == PairFree(w, k, s) + |Walk(w, true).From(ReservedMap(f), k + 1, 0)|
    decreases 2 * w - s
  {
    var t, res := Walk(w, true), ReservedMap(f);
    hide Walk.From; hide IsMicroFrame; hide ReservedMap;
    MicroLayout(f, w);
    if s == 2 * w {
      FromNext(t, res, k, s);
    } else {
      FromStep(t, res, k, s);
      PairLength(f, w, k, s + 1);
      CellFree(f, w, k, s);
    }
  }

  lemma CellFree(f: seq<byte>, w: nat, k: nat, s: nat)
    requires IsMicroFrame(f, w) && MicroWidth(w) && Walk(w, true).Valid() && Walk(w, true).Inside(k, s)
    ensures |ReservedMap(f)| == w * w
    ensures PairFree(w, k, s) == PairFree(w, k, s + 1) + if ReservedMap(f)[Walk(w, true).Cell(k, s)] then 0 else 1
  {
    hide *;
    var t := Walk(w, true);
    InRange(t, k, s);
    CellIs(t, k, s);
    MicroMap(f, w, t.X(k, s), t.Y(k, s));
    FrameMap(f, w);
    StepParts(w, k, s);
    PairFreeStep(w, k, s / 2, s % 2);
  }

  lemma StepParts(w: nat, k: nat, s: nat)
    requires MicroWidth(w) && Walk(w, true).Inside(k, s)
    ensures s == 2 * (s / 2) + s % 2 && s % 2 < 2 && s / 2 < w && 2 * k + 2 < w && w >= 11 && w % 2 == 1
    ensures Walk(w, true).X(k, s) == w - 1 - 2 * k - s % 2
    ensures Walk(w, true).Y(k, s) == if k % 2 == 0 then w - 1 - s / 2 else s / 2
  {
  }

  lemma PairFreeStep(w: nat, k: nat, h: nat, b: nat)
    requires b < 2 && h < w && w >= 11 && w % 2 == 1 && 2 * k + 2 < w
    ensures PairFree(w, k, 2 * h + b)
            == PairFree(w, k, 2 * h + b + 1)
               + if Free(w - 1 - 2 * k - b, if k % 2 == 0 then w - 1 - h else h) then 1 else 0
  {
  }

  lemma FrameMap(f: seq<byte>, w: nat)
    requires IsMicroFrame(f, w)
    ensures |ReservedMap(f)| == w * w
  {
  }

  /** The free modules from pair k on. */
  function FreeFrom(w: nat, k: nat): int {
    var wide := (w - 9) / 2;
    if k <= wide then (wide - k) * (2 * (w - 1)) + 8 * (w - 9) else (wide + 4 - k) * (2 * (w - 9))
  }

  lemma {:induction false} WalkLength(f: seq<byte>, w: nat, k: nat)
    requires IsMicroFrame(f, w) && MicroWidth(w) && k <= (w - 1) / 2
    ensures |Walk(w, true).From(ReservedMap(f), k, 0)| == FreeFrom(w, k)
    decreases (w - 1) / 2 - k
  {
    var t, res := Walk(w, true), ReservedMap(f);
    hide Walk.From; hide IsMicroFrame; hide ReservedMap;
    MicroLayout(f, w);
    if k == (w - 1) / 2 {
      FromNext(t, res, k, 0);
    } else {
      WalkLength(f, w, k + 1);
      PairLength(f, w, k, 0);
      FreeFromStep(w, k);
    }
  }

  lemma FreeFromStep(w: nat, k: nat)
    requires MicroWidth(w) && k < (w - 1) / 2
    ensures FreeFrom(w, k) == PairFree(w, k, 0) + FreeFrom(w, k + 1)
  {
    var wide := (w - 9) / 2;
    if k < wide {
      assert (wide - k) * (2 * (w - 1)) == (wide - (k + 1)) * (2 * (w - 1)) + 2 * (w - 1);
    } else if k > wide {
      assert (wide + 4 - k) * (2 * (w - 9)) == (wide + 4 - (k + 1)) * (2 * (w - 9)) + 2 * (w - 9);
    }
  }

  /** A frame of odd width w has (w - 1)^2 - 64 free modules. */
  lemma FreeModules(f: seq<byte>, w: nat)
    requires IsMicroFrame(f, w) && MicroWidth(w)
    ensures |Walk(w, true).From(ReservedMap(f), 0, 0)| == (w - 1) * (w - 1) - 64
  {
    hide *;
    WholeFrame(w);
    WalkLength(f, w, 0);
  }

  lemma WholeFrame(w: nat)
    requires MicroWidth(w)
    ensures w >= 11 && FreeFrom(w, 0) == (w - 1) * (w - 1) - 64 && Walk(w, true).Valid()
  {
    Square(w, (w - 9) / 2);
  }

  lemma Square(w: nat, h: nat)
    requires w == 2 * h + 9
    ensures h * (2 * (w - 1)) + 8 * (w - 9) == (w - 1) * (w - 1) - 64
  {
    assert h * (2 * (w - 1)) == 4 * (h * h) + 16 * h;
    assert (w - 1) * (w - 1) == 4 * (h * h) + 32 * h + 64;
  }

  // ---- the odd bits ----

  /** What MQRraw_new stores for a data code of bits bits. */
  function DataBytes(bits: int): int { (bits + 4) / 8 }

  function OddBits(bits: int): int { DataBytes(bits) * 8 - bits }

  /** The bits that the encoding loop emits for the data code. */
  function EmittedBits(dataLength: nat, oddbits: int): int {
    if oddbits != 0 && dataLength > 0 then 8 * (dataLength - 1) + oddbits else 8 * dataLength
  }

  /** Sending `oddbits` bits of the last byte is right because they are four whenever they are not zero. */
  lemma DataBitsFit(w: nat, ecc: nat)
    requires MicroWidth(w) && ecc > 0 && DataBits(w, ecc) >= 0
    ensures OddBits(DataBits(w, ecc)) in {0, 4}
    ensures DataBytes(DataBits(w, ecc)) >= 0
    ensures EmittedBits(DataBytes(DataBits(w, ecc)), OddBits(DataBits(w, ecc))) == DataBits(w, ecc)
  {
    EvenSquare(w, (w - 1) / 2);
    var m := (w - 1) / 2 * ((w - 1) / 2);
    FourTimes(m - 16 - 2 * ecc);
    hide DataBytes; hide OddBits;
  }

  lemma EvenSquare(w: nat, m: nat)
    requires w == 2 * m + 1
    ensures (w - 1) * (w - 1) == 4 * (m * m)
  {
  }

  lemma FourTimes(n: int)
    requires n >= 0
    ensures OddBits(4 * n) in {0, 4} && DataBytes(4 * n) >= 0
    ensures EmittedBits(DataBytes(4 * n), OddBits(4 * n)) == 4 * n
  {
    assert n == 2 * (n / 2) + n % 2;
    assert DataBytes(4 * n) == n / 2 + n % 2;
  }

  /** Data and check codes together fill the frame exactly. */
  lemma ExactFit(f: seq<byte>, w: nat, ecc: nat)
    requires IsMicroFrame(f, w) && MicroWidth(w) && ecc > 0 && DataBits(w, ecc) >= 0
    ensures EmittedBits(DataBytes(DataBits(w, ecc)), OddBits(DataBits(w, ecc))) + 8 * ecc
            == |Walk(w, true).From(ReservedMap(f), 0, 0)|
  {
    DataBitsFit(w, ecc);
    FreeModules(f, w);
  }
}
