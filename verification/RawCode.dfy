/** QRRawCode: the blocks of a symbol, their check bytes, and the reader that delivers the codes. */
module RawCode {
  import opened Arith
  import opened Bits
  import opened Interleave
  import opened RsCode
  import opened Rsecc

  /** The pointers of a block are offsets into the data code and the check code. */
  datatype RSblock = RSblock(dataLength: nat, data: nat, eccLength: nat, ecc: nat)

  function BlockAt(s: EccSpec, i: nat): RSblock {
    RSblock(s.Len(i), s.Start(i), s.el, s.EccStart(i))
  }

  lemma BlockInside(s: EccSpec, i: nat)
    requires s.Valid() && i < s.Blocks()
    ensures s.Start(i) + s.Len(i) == s.Start(i + 1) <= s.DataLength()
    ensures s.EccStart(i) + s.el == s.EccStart(i + 1) <= s.EccLength()
  {
    MulMono(i + 1, s.Blocks(), s.el);
    Product(i, s.el);
    if i + 1 <= s.b1 {
      MulMono(i + 1, s.b1, s.dl1);
      Product(i, s.dl1);
    } else {
      MulMono(i + 1 - s.b1, s.b2, s.dl2);
      Product(i - s.b1, s.dl2);
    }
  }

  lemma Product(i: nat, n: nat)
    ensures (i + 1) * n == i * n + n
  {
  }

  function BlockData(s: EccSpec, data: seq<byte>, i: nat): seq<byte>
    requires s.Valid() && |data| == s.DataLength() && i < s.Blocks()
  {
    BlockInside(s, i);
    data[s.Start(i)..s.Start(i + 1)]
  }

  /** The check bytes of the first n blocks. */
  function AllEcc(s: EccSpec, data: seq<byte>, n: nat): (r: seq<byte>)
    requires s.Valid() && |data| == s.DataLength() && n <= s.Blocks()
    ensures |r| == s.EccStart(n)
  {
    if n == 0 then [] else
      BlockInside(s, n - 1);
      AllEcc(s, data, n - 1) + Ecc(BlockData(s, data, n - 1), s.el)
  }

  class QRRawCode {
    ghost const spec: EccSpec
    const dataLength: nat
    const eccLength: nat
    const datacode: array<byte>
    const ecccode: array<byte>
    const b1: nat
    const blocks: nat
    const rsblock: array<RSblock>
    var count: nat

    ghost predicate Valid()
      reads this, rsblock
    {
      && spec.Valid()
      && dataLength == spec.DataLength() && eccLength == spec.EccLength()
      && b1 == spec.b1 && blocks == spec.Blocks()
      && datacode.Length == dataLength && ecccode.Length == eccLength && datacode != ecccode
      && rsblock.Length == blocks
      && count <= dataLength + eccLength
      && forall i :: 0 <= i < blocks ==> rsblock[i] == BlockAt(spec, i)
    }

    /** The codes not yet delivered. */
    ghost function Codes(): (r: seq<byte>)
      requires Valid()
      reads this, rsblock, datacode, ecccode
    {
      (DataStream(spec, datacode[..]) + EccStream(spec, ecccode[..]))[count..]
    }

    /** QRraw_new, given the byte stream of the input. */
    constructor (s: EccSpec, data: array<byte>, enc: Encoder)
      requires s.Valid() && data.Length == s.DataLength()
      requires enc.Valid() && data !in enc.Repr()
      modifies enc.Repr()
      ensures Valid() && spec == s && datacode == data && fresh(ecccode) && fresh(rsblock) && fresh(this)
      ensures enc.Valid()
      ensures data[..] == old(data[..])
      ensures ecccode[..] == AllEcc(s, data[..], s.Blocks())
      ensures Codes() == DataStream(s, data[..]) + EccStream(s, ecccode[..])
    {
      spec := s;
      dataLength := s.DataLength();
      eccLength := s.EccLength();
      datacode := data;
      ecccode := new byte[s.EccLength()](_ => 0);
      b1 := s.b1;
      blocks := s.Blocks();
      rsblock := new RSblock[s.Blocks()](_ => RSblock(0, 0, 0, 0));
      count := 0;
      new;
      InitBlocks(rsblock, s, data, ecccode, enc);
    }

    /** QRraw_getCode. */
    method GetCode() returns (ret: byte)
      requires Valid()
      modifies this`count
      ensures Valid()
      ensures old(Codes()) == [] ==> ret == 0 && Codes() == []
      ensures old(Codes()) != [] ==> old(Codes()) == [ret] + Codes()
    {
      hide DataStream; hide EccStream;
      var row, col;
      if count < dataLength {
        ghost var r, c := PosCell(spec, count);
        DataStreamAt(spec, datacode[..], count);
        row := count % blocks;
        col := count / blocks;
        if col >= rsblock[0].dataLength {
          row := row + b1;
        }
        ret := datacode[rsblock[row].data + col];
      } else if count < dataLength + eccLength {
        EccStreamAt(spec, ecccode[..], count - dataLength);
        row := (count - dataLength) % blocks;
        col := (count - dataLength) / blocks;
        ret := ecccode[rsblock[row].ecc + col];
      } else {
        return 0;
      }
      count := count + 1;
    }
  }

  lemma DataStreamAt(s: EccSpec, data: seq<byte>, c: nat)
    requires s.Valid() && |data| == s.DataLength() && c < |data|
    ensures s.DataPos(c) < |data| && DataStream(s, data)[c] == data[s.DataPos(c)]
  {
    DataTurnOfPos(s, c);
  }

  lemma EccStreamAt(s: EccSpec, ecc: seq<byte>, c: nat)
    requires s.Valid() && |ecc| == s.EccLength() && c < |ecc|
    ensures s.EccPos(c) < |ecc| && EccStream(s, ecc)[c] == ecc[s.EccPos(c)]
  {
    EccTurnOfPos(s, c);
  }

  /** The first n blocks are laid out and have their check bytes. */
  ghost predicate Done(blocks: array<RSblock>, s: EccSpec, data: seq<byte>, ecc: array<byte>, n: nat)
    requires s.Valid() && blocks.Length == s.Blocks() && n <= s.Blocks()
    requires |data| == s.DataLength() && ecc.Length == s.EccLength()
    reads blocks, ecc
  {
    && s.EccStart(n) <= s.EccLength()
    && (forall i :: 0 <= i < n ==> blocks[i] == BlockAt(s, i))
    && ecc[..s.EccStart(n)] == AllEcc(s, data, n)
  }

  /** RSblock_init. */
  method InitBlocks(blocks: array<RSblock>, s: EccSpec, data: array<byte>, ecc: array<byte>, enc: Encoder)
    requires s.Valid() && blocks.Length == s.Blocks()
    requires data.Length == s.DataLength() && ecc.Length == s.EccLength()
    requires enc.Valid() && data != ecc && {data, ecc, blocks} !! enc.Repr()
    modifies blocks, ecc, enc.Repr()
    ensures enc.Valid()
    ensures forall i :: 0 <= i < s.Blocks() ==> blocks[i] == BlockAt(s, i)
    ensures ecc[..] == AllEcc(s, data[..], s.Blocks())
  {
    assert Done(blocks, s, data[..], ecc, 0);
    var dp, ep := InitRun(blocks, 0, s.b1, s, s.dl1, 0, 0, data, ecc, enc);
    if s.b2 != 0 {
      dp, ep := InitRun(blocks, s.b1, s.Blocks(), s, s.dl2, dp, ep, data, ecc, enc);
    }
    assert ecc[..s.EccStart(s.Blocks())] == ecc[..];
  }

  /** Either loop of RSblock_init: the blocks from lo to hi, all with dl data bytes. */
  method InitRun(blocks: array<RSblock>, lo: nat, hi: nat, s: EccSpec, dl: nat, dp0: nat, ep0: nat,
                 data: array<byte>, ecc: array<byte>, enc: Encoder) returns (dp: nat, ep: nat)
    requires s.Valid() && blocks.Length == s.Blocks() && lo <= hi <= s.Blocks()
    requires forall i :: lo <= i < hi ==> s.Len(i) == dl
    requires data.Length == s.DataLength() && ecc.Length == s.EccLength()
    requires enc.Valid() && data != ecc && {data, ecc, blocks} !! enc.Repr()
    requires dp0 == s.Start(lo) && ep0 == s.EccStart(lo)
    requires Done(blocks, s, data[..], ecc, lo)
    modifies blocks, ecc, enc.Repr()
    ensures enc.Valid()
    ensures dp == s.Start(hi) && ep == s.EccStart(hi)
    ensures Done(blocks, s, data[..], ecc, hi)
  {
    hide EccSpec.Start; hide EccSpec.EccStart; hide Done;
    dp, ep := dp0, ep0;
    for i := lo to hi
      invariant enc.Valid()
      invariant dp == s.Start(i) && ep == s.EccStart(i)
      invariant Done(blocks, s, data[..], ecc, i)
    {
      InitBlock(blocks, i, s, dl, dp, ep, data, ecc, enc);
      dp := dp + dl;
      ep := ep + s.el;
    }
  }

  /** RSblock_initBlock. */
  method InitBlock(blocks: array<RSblock>, i: nat, s: EccSpec, dl: nat, dp: nat, ep: nat,
                   data: array<byte>, ecc: array<byte>, enc: Encoder)
    requires s.Valid() && blocks.Length == s.Blocks() && i < s.Blocks() && dl == s.Len(i)
    requires data.Length == s.DataLength() && ecc.Length == s.EccLength()
    requires enc.Valid() && data != ecc && {data, ecc, blocks} !! enc.Repr()
    requires dp == s.Start(i) && ep == s.EccStart(i)
    requires Done(blocks, s, data[..], ecc, i)
    modifies blocks, ecc, enc.Repr()
    ensures enc.Valid()
    ensures dp + dl == s.Start(i + 1) && ep + s.el == s.EccStart(i + 1)
    ensures Done(blocks, s, data[..], ecc, i + 1)
  {
    hide Ecc;
    BlockInside(s, i);
    blocks[i] := RSblock(dl, dp, s.el, ep);
    var _ := enc.Encode(dl, s.el, data, dp, ecc, ep);
  }
}
