/** QRcode_encodeMaskMQR up to the masking: the raw code, and its bits drawn into a fresh frame. */
module MicroCode {
  import opened Bits
  import opened BitString
  import opened Emit
  import opened Format
  import opened FrameFiller
  import opened Frames
  import opened MicroFit
  import opened MicroSpec
  import opened Reader
  import opened RsCode
  import opened Rsecc
  import opened Snake

  /** The data and check codes of a Micro QR symbol: one block. */
  class MQRRawCode {
    const dataLength: nat
    const eccLength: nat
    const datacode: array<byte>
    const ecccode: array<byte>
    const oddbits: int
    var count: nat

    ghost predicate Valid()
      reads this
    {
      && datacode.Length == dataLength && ecccode.Length == eccLength
      && count <= dataLength + eccLength
    }

    /** The codes not yet delivered. */
    ghost function Codes(): seq<byte>
      requires Valid()
      reads this, datacode, ecccode
    {
      (datacode[..] + ecccode[..])[count..]
    }

    /** MQRraw_new, given the byte stream of the input. */
    constructor (data: array<byte>, bits: int, ecc: nat, enc: Encoder)
      requires DataBytes(bits) == data.Length && MIN_LENGTH <= ecc <= MAX_LENGTH
      requires enc.Valid() && data !in enc.Repr()
      modifies enc.Repr()
      ensures Valid() && enc.Valid() && fresh(this) && fresh(ecccode)
      ensures datacode == data && dataLength == data.Length && eccLength == ecc && oddbits == OddBits(bits)
      ensures data[..] == old(data[..]) && ecccode[..] == Ecc(data[..], ecc)
      ensures Codes() == data[..] + Ecc(data[..], ecc)
    {
      hide Ecc;
      dataLength := data.Length;
      eccLength := ecc;
      oddbits := data.Length * 8 - bits;
      datacode := data;
      ecccode := new byte[ecc](_ => 0);
      count := 0;
      new;
      var _ := enc.Encode(dataLength, eccLength, datacode, 0, ecccode, 0);
      assert data[0..0 + dataLength] == data[..];
    }

    /** MQRraw_getCode. */
    method GetCode() returns (ret: byte)
      requires Valid()
      modifies this`count
      ensures Valid()
      ensures old(Codes()) == [] ==> ret == 0 && count == old(count)
      ensures old(Codes()) != [] ==> old(Codes()) == [ret] + Codes() && count == old(count) + 1
      ensures old(count) < dataLength ==> ret == datacode[old(count)]
      ensures dataLength <= old(count) < dataLength + eccLength ==> ret == ecccode[old(count) - dataLength]
    {
      if count < dataLength {
        ret := datacode[count];
      } else if count < dataLength + eccLength {
        ret := ecccode[count - dataLength];
      } else {
        return 0;
      }
      count := count + 1;
    }
  }

  /** The values of the modules of the walk: the first bits bits of the data code, then the check code. */
  function MicroVals(data: seq<byte>, ecc: seq<byte>, bits: nat): (r: seq<byte>)
    requires bits <= 8 * |data|
    ensures |r| == bits + 8 * |ecc|
  {
    BitVals(BytesBits(data)[..bits], 0) + BitVals(BytesBits(ecc), 2)
  }

  /** The first loop of QRcode_encodeMaskMQR: of an incomplete last byte only `oddbits` bits are sent. */
  method PutData(filler: FrameFiller, raw: MQRRawCode, ghost f: seq<byte>, ghost cells: seq<nat>, ghost bits: nat)
    returns (ok: bool)
    requires Progress(filler, f, cells, []) && raw.Valid() && raw.count == 0 && raw.oddbits in {0, 4}
    requires bits == EmittedBits(raw.dataLength, raw.oddbits)
    requires {filler, filler.frame} !! {raw, raw.datacode, raw.ecccode}
    modifies filler, filler.frame, raw`count
    ensures bits <= 8 * raw.dataLength
    ensures ok == (bits <= |cells|)
    ensures ok ==> Progress(filler, f, cells, BitVals(BytesBits(raw.datacode[..])[..bits], 0))
    ensures ok ==> raw.Valid() && raw.count == raw.dataLength
  {
    ghost var data := raw.datacode[..];
    var n := raw.dataLength;
    ghost var sofar: seq<byte> := [];
    assert BytesBits(data[..0]) == [] && BitVals([], 0) == [] && BytesBits(data)[..0] == [];
    ProgressBound(filler, f, cells, sofar);
    for i: nat := 0 to n
      invariant raw.Valid() && raw.count == i
      invariant DataSent(data, i, bits, sofar)
      invariant Progress(filler, f, cells, sofar)
      invariant |sofar| <= |cells|
    {
      var length := if raw.oddbits != 0 && i == n - 1 then raw.oddbits else 8;
      MoreData(data, i, length, bits, sofar);
      hide Progress; hide ByteBits; hide BytesBits; hide BitVals; hide DataSent; hide EmittedBits;
      var code := raw.GetCode();
      ok := PutBits(filler, code, length, 0, f, cells, sofar);
      if !ok {
        return;
      }
      sofar := sofar + BitVals(ByteBits(code), 0)[..length];
      ProgressBound(filler, f, cells, sofar);
    }
    ok := true;
  }

  /** The values sent for the first i bytes: all their bits, but bits in all once the last byte is sent. */
  ghost predicate DataSent(data: seq<byte>, i: nat, bits: nat, sofar: seq<byte>) {
    && i <= |data| && bits <= 8 * |data|
    && |sofar| == (if i == |data| then bits else 8 * i)
    && 8 * (|data| - 1) <= bits
    && sofar == BitVals(BytesBits(data)[..|sofar|], 0)
  }

  lemma MoreData(data: seq<byte>, i: nat, length: nat, bits: nat, sofar: seq<byte>)
    requires DataSent(data, i, bits, sofar) && i < |data|
    requires length == if i == |data| - 1 then bits - 8 * i else 8
    ensures length <= 8 && |BitVals(ByteBits(data[i]), 0)| == 8
    ensures DataSent(data, i + 1, bits, sofar + BitVals(ByteBits(data[i]), 0)[..length])
    ensures |sofar| + length <= bits
  {
    hide ByteBits;
    BytesSplit(data, i);
    var all := BytesBits(data);
    assert all[8 * i..8 * (i + 1)] == ByteBits(data[i]);
  }

  lemma BytesSplit(data: seq<byte>, i: nat)
    requires i < |data|
    ensures |BytesBits(data)| == 8 * |data|
    ensures BytesBits(data)[8 * i..8 * i + 8] == ByteBits(data[i])
  {
    hide ByteBits;
    var front, b, back := data[..i], [data[i]], data[i + 1..];
    assert data == front + b + back;
    BytesBitsConcat(front + b, back);
    BytesBitsConcat(front, b);
    assert BytesBits(b) == ByteBits(data[i]) by {
      assert b[..0] == [] && BytesBits([]) == [];
    }
    hide BytesBits;
  }

  /** The second loop: every bit of every check byte. */
  method PutCheck(filler: FrameFiller, raw: MQRRawCode, ghost f: seq<byte>, ghost cells: seq<nat>, ghost vals: seq<byte>)
    returns (ok: bool)
    requires Progress(filler, f, cells, vals) && raw.Valid() && raw.count == raw.dataLength
    requires {filler, filler.frame} !! {raw, raw.datacode, raw.ecccode}
    modifies filler, filler.frame, raw`count
    ensures ok == (|vals| + 8 * raw.eccLength <= |cells|)
    ensures ok ==> Progress(filler, f, cells, vals + BitVals(BytesBits(raw.ecccode[..]), 2))
  {
    ghost var ecc := raw.ecccode[..];
    ghost var sofar := vals;
    ProgressBound(filler, f, cells, vals);
    assert BytesBits(ecc[..0]) == [] && vals + BitVals([], 2) == vals;
    for i: nat := 0 to raw.eccLength
      invariant raw.Valid() && raw.count == raw.dataLength + i
      invariant sofar == vals + BitVals(BytesBits(ecc[..i]), 2)
      invariant Progress(filler, f, cells, sofar)
      invariant |sofar| == |vals| + 8 * i <= |cells|
    {
      hide Progress; hide ByteBits; hide BytesBits; hide BitVals; hide MQRRawCode.Codes;
      assert raw.Codes() != [];
      var code := raw.GetCode();
      ok := PutByte(filler, code, 2, f, cells, sofar);
      if !ok {
        return;
      }
      MoreVals(vals, ecc, i, 2);
      sofar := sofar + BitVals(ByteBits(code), 2);
    }
    assert ecc[..raw.eccLength] == ecc;
    ok := true;
  }

  // ---- the whole encoder ----

  /** The free modules of a Micro QR frame in the order of the walk. */
  ghost function MicroCells(w: nat, f: seq<byte>): (r: seq<nat>)
    requires IsMicroFrame(f, w) && MicroWidth(w)
  {
    MicroLayout(f, w);
    Walk(w, true).From(ReservedMap(f), 0, 0)
  }

  /** Every free module of the frame f takes one bit: the data bits, then the check code. */
  ghost function MicroSymbol(w: nat, f: seq<byte>, data: seq<byte>, ecc: nat): (r: seq<byte>)
    requires IsMicroFrame(f, w) && MicroWidth(w) && MIN_LENGTH <= ecc
    requires DataBits(w, ecc) >= 0 && |data| == DataBytes(DataBits(w, ecc))
    ensures |r| == |f|
  {
    DataBitsFit(w, ecc);
    ExactFit(f, w, ecc);
    CellsIn(f, w);
    Fill(f, MicroCells(w, f), MicroVals(data, Ecc(data, ecc), DataBits(w, ecc)))
  }

  lemma CellsIn(f: seq<byte>, w: nat)
    requires IsMicroFrame(f, w) && MicroWidth(w)
    ensures InFrame(MicroCells(w, f), |f|)
    ensures forall c :: c in MicroCells(w, f) ==> c < |f| && f[c] < 128
  {
    MicroLayout(f, w);
    CellsInFrame(Walk(w, true), ReservedMap(f));
    hide Walk.From; hide IsMicroFrame;
    forall c | c in MicroCells(w, f) ensures f[c] < 128 {
      MapAt(f, c);
    }
  }

  /** Both loops, when there is room for everything. */
  method PutBoth(filler: FrameFiller, raw: MQRRawCode, ghost f: seq<byte>, ghost cells: seq<nat>, ghost bits: nat)
    requires Progress(filler, f, cells, []) && raw.Valid() && raw.count == 0 && raw.oddbits in {0, 4}
    requires bits == EmittedBits(raw.dataLength, raw.oddbits) && bits <= 8 * raw.dataLength
    requires bits + 8 * raw.eccLength == |cells|
    requires {filler, filler.frame} !! {raw, raw.datacode, raw.ecccode}
    modifies filler, filler.frame, raw`count
    ensures Progress(filler, f, cells, MicroVals(raw.datacode[..], raw.ecccode[..], bits))
    ensures filler.Rest() == []
  {
    ghost var sent := BytesBits(raw.datacode[..])[..bits];
    hide Progress; hide BytesBits;
    var ok := PutData(filler, raw, f, cells, bits);
    ok := PutCheck(filler, raw, f, cells, BitVals(sent, 0));
    AllUsed(filler, f, cells, MicroVals(raw.datacode[..], raw.ecccode[..], bits));
  }

  lemma AllUsed(filler: FrameFiller, f: seq<byte>, cells: seq<nat>, vals: seq<byte>)
    requires Progress(filler, f, cells, vals) && |vals| == |cells|
    ensures filler.Valid() && filler.Rest() == []
  {
  }

  /** FrameFiller_set on a fresh frame. */
  method StartMicro(width: nat, frame: array<byte>) returns (filler: FrameFiller)
    requires IsMicroFrame(frame[..], width) && MicroWidth(width)
    ensures fresh(filler) && filler.frame == frame && filler.width == width
    ensures Progress(filler, frame[..], MicroCells(width, frame[..]), [])
  {
    ghost var f := frame[..];
    MicroLayout(f, width);
    filler := new FrameFiller(width, frame, true);
    CellsIn(f, width);
    assert filler.Rest() == MicroCells(width, f);
    hide MicroCells; hide IsMicroFrame;
    ghost var cells := MicroCells(width, f);
    FillNil(f, cells);
    assert cells[0..] == cells;
  }

  lemma MicroWritten(filler: FrameFiller, f: seq<byte>, w: nat, data: seq<byte>, ecc: nat)
    requires IsMicroFrame(f, w) && MicroWidth(w) && MIN_LENGTH <= ecc
    requires DataBits(w, ecc) >= 0 && |data| == DataBytes(DataBits(w, ecc)) && DataBits(w, ecc) <= 8 * |data|
    requires Progress(filler, f, MicroCells(w, f), MicroVals(data, Ecc(data, ecc), DataBits(w, ecc)))
    ensures filler.frame[..] == MicroSymbol(w, f, data, ecc)
  {
    hide MicroCells; hide MicroVals; hide Ecc; hide IsMicroFrame; hide Fill;
  }

  lemma JustEnough(f: seq<byte>, w: nat, ecc: nat)
    requires IsMicroFrame(f, w) && MicroWidth(w) && ecc > 0 && DataBits(w, ecc) >= 0
    ensures var bits := DataBits(w, ecc);
            && |MicroCells(w, f)| == bits + 8 * ecc
            && DataBytes(bits) >= 0 && bits <= 8 * DataBytes(bits)
            && OddBits(bits) in {0, 4} && EmittedBits(DataBytes(bits), OddBits(bits)) == bits
  {
    DataBitsFit(w, ecc);
    ExactFit(f, w, ecc);
    hide DataBits; hide IsMicroFrame; hide Walk.From;
  }

  /** On a fresh frame the filler never runs out, and no free module is left over. */
  method FillMicro(width: nat, frame: array<byte>, raw: MQRRawCode, ghost data: seq<byte>)
    requires IsMicroFrame(frame[..], width) && MicroWidth(width)
    requires MIN_LENGTH <= raw.eccLength && DataBits(width, raw.eccLength) >= 0
    requires raw.Valid() && raw.count == 0 && raw.dataLength == DataBytes(DataBits(width, raw.eccLength))
    requires raw.oddbits == OddBits(DataBits(width, raw.eccLength))
    requires data == raw.datacode[..] && raw.ecccode[..] == Ecc(data, raw.eccLength)
    requires frame !in {raw.datacode, raw.ecccode}
    modifies frame, raw`count
    ensures frame[..] == MicroSymbol(width, old(frame[..]), data, raw.eccLength)
  {
    hide Fill; hide Ecc; hide IsMicroFrame; hide MicroCells; hide MQRRawCode.Codes;
    hide DataBits; hide DataBytes; hide OddBits; hide EmittedBits; hide MicroWidth; hide MicroVals; hide Progress; hide MicroSymbol;
    ghost var f, ecc := frame[..], raw.eccLength;
    ghost var bits := DataBits(width, ecc);
    JustEnough(f, width, ecc);
    var filler := StartMicro(width, frame);
    PutBoth(filler, raw, f, MicroCells(width, f), bits);
    MicroWritten(filler, f, width, data, ecc);
  }

  /** The part of QRcode_encodeMaskMQR between the argument checks and the masking. */
  method DrawMicro(width: nat, ecc: nat, data: array<byte>, enc: Encoder) returns (frame: array<byte>)
    requires MicroWidth(width) && MIN_LENGTH <= ecc <= MAX_LENGTH
    requires DataBits(width, ecc) >= 0 && data.Length == DataBytes(DataBits(width, ecc))
    requires enc.Valid() && data !in enc.Repr()
    modifies enc.Repr()
    ensures enc.Valid() && fresh(frame) && frame.Length == width * width && data[..] == old(data[..])
    ensures frame[..] == MicroSymbol(width, MicroFrame(width), data[..], ecc)
  {
    hide Ecc; hide DataBits; hide DataBytes; hide OddBits; hide MicroSymbol; hide IsMicroFrame; hide MicroFrame;
    var raw := new MQRRawCode(data, DataBits(width, ecc), ecc, enc);
    frame := CreateFrame(width);
    FillMicro(width, frame, raw, data[..]);
  }
}
