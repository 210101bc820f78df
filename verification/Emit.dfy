/** The encoding loops: code bits written to the modules the filler hands out. */
module Emit {
  import opened Bits
  import opened BitString
  import opened FrameFiller
  import opened Frames
  import opened RawCode
  import opened Wrappers

  /** The module values of a bit string: the bit, plus 2 for check codes and remainder bits. */
  function BitVals(bits: seq<bit>, flag: byte): (r: seq<byte>)
    requires flag <= 2
    ensures |r| == |bits|
  {
    seq<byte>(|bits|, i requires 0 <= i < |bits| => flag + bits[i])
  }

  lemma BitValsConcat(a: seq<bit>, b: seq<bit>, flag: byte)
    requires flag <= 2
    ensures BitVals(a + b, flag) == BitVals(a, flag) + BitVals(b, flag)
  {
  }

  /** vals have been written to the first modules of the walk cells of frame f, the rest are still to come. */
  ghost predicate Progress(filler: FrameFiller, f: seq<byte>, cells: seq<nat>, vals: seq<byte>)
    reads filler, filler.frame
  {
    && filler.Valid()
    && |vals| <= |cells| && InFrame(cells, |f|)
    && (forall c :: c in cells ==> f[c] < 128)
    && (forall i :: 0 <= i < |vals| ==> vals[i] < 128)
    && filler.frame[..] == Fill(f, cells, vals)
    && filler.Rest() == cells[|vals|..]
  }

  /** The next module takes value v; false when there is none. */
  method Put(filler: FrameFiller, v: byte, ghost f: seq<byte>, ghost cells: seq<nat>, ghost vals: seq<byte>)
    returns (ok: bool)
    requires Progress(filler, f, cells, vals) && v < 128
    modifies filler, filler.frame
    ensures ok == (|vals| < |cells|)
    ensures ok ==> Progress(filler, f, cells, vals + [v])
  {
    hide Fill; hide ReservedMap;
    var p := filler.Next();
    if p == None {
      return false;
    }
    ghost var before := filler.frame[..];
    assert p.value == cells[|vals|];
    StillFree(f, cells, vals, |vals|);
    WriteKeepsMap(before, p.value, v);
    filler.frame[p.value] := v;
    assert filler.frame[..] == before[p.value := v];
    FillSnoc(f, cells, vals, v);
    return true;
  }

  lemma StillFree(f: seq<byte>, cells: seq<nat>, vals: seq<byte>, i: nat)
    requires i < |cells| && |vals| <= |cells| && InFrame(cells, |f|)
    requires (forall c :: c in cells ==> f[c] < 128) && forall i :: 0 <= i < |vals| ==> vals[i] < 128
    ensures Fill(f, cells, vals)[cells[i]] < 128
  {
    FillKeepsMap(f, cells, vals);
    MapAt(f, cells[i]);
    MapAt(Fill(f, cells, vals), cells[i]);
  }

  /** The inner loop: the eight bits of a code, most significant first. */
  method PutByte(filler: FrameFiller, code: byte, flag: byte,
                 ghost f: seq<byte>, ghost cells: seq<nat>, ghost vals: seq<byte>) returns (ok: bool)
    requires Progress(filler, f, cells, vals) && flag in {0, 2}
    modifies filler, filler.frame
    ensures ok == (|vals| + 8 <= |cells|)
    ensures ok ==> Progress(filler, f, cells, vals + BitVals(ByteBits(code), flag))
  {
    ok := PutBits(filler, code, 8, flag, f, cells, vals);
    assert BitVals(ByteBits(code), flag)[..8] == BitVals(ByteBits(code), flag);
  }

  /** The first n of them. */
  method PutBits(filler: FrameFiller, code: byte, n: nat, flag: byte,
                 ghost f: seq<byte>, ghost cells: seq<nat>, ghost vals: seq<byte>) returns (ok: bool)
    requires Progress(filler, f, cells, vals) && flag in {0, 2} && n <= 8
    modifies filler, filler.frame
    ensures ok == (|vals| + n <= |cells|)
    ensures ok ==> Progress(filler, f, cells, vals + BitVals(ByteBits(code), flag)[..n])
  {
    hide *;
    ghost var more := BitVals(ByteBits(code), flag);
    var bit := 0x80;
    FirstBit(vals, more);
    ProgressBound(filler, f, cells, vals);
    for j := 0 to n
      invariant j < 8 ==> bit == Pow2(7 - j)
      invariant Progress(filler, f, cells, vals + more[..j])
      invariant |vals| + j <= |cells|
    {
      BitAfterBit(code, flag, j, vals);
      var v: byte := flag + (if code / bit % 2 == 1 then 1 else 0);
      ok := Put(filler, v, f, cells, vals + more[..j]);
      if !ok {
        return;
      }
      bit := bit / 2;
    }
    ok := true;
  }

  lemma FirstBit(vals: seq<byte>, more: seq<byte>)
    ensures Pow2(7) == 0x80 && vals + more[..0] == vals
  {
    FirstMask();
  }

  lemma BitAfterBit(code: byte, flag: byte, j: nat, vals: seq<byte>)
    requires j < 8 && flag <= 2
    ensures var more := BitVals(ByteBits(code), flag);
            && vals + more[..j + 1] == vals + more[..j] + [flag + (if code / Pow2(7 - j) % 2 == 1 then 1 else 0)]
            && (j + 1 < 8 ==> Pow2(7 - j) / 2 == Pow2(7 - (j + 1)))
  {
    hide ByteBits; hide Pow2;
    ByteBitAt(code, j);
  }

  lemma ProgressBound(filler: FrameFiller, f: seq<byte>, cells: seq<nat>, vals: seq<byte>)
    requires Progress(filler, f, cells, vals)
    ensures |vals| <= |cells|
  {
  }

  /** An outer loop: the next n codes of the raw code. */
  method PutCodes(filler: FrameFiller, raw: QRRawCode, n: nat, flag: byte,
                  ghost f: seq<byte>, ghost cells: seq<nat>, ghost vals: seq<byte>) returns (ok: bool)
    requires Progress(filler, f, cells, vals) && flag in {0, 2}
    requires raw.Valid() && n <= |raw.Codes()|
    requires {filler, filler.frame} !! {raw, raw.datacode, raw.ecccode, raw.rsblock}
    modifies filler, filler.frame, raw`count
    ensures ok == (|vals| + 8 * n <= |cells|)
    ensures ok ==> Progress(filler, f, cells, vals + BitVals(BytesBits(old(raw.Codes())[..n]), flag))
    ensures ok ==> raw.Valid() && raw.Codes() == old(raw.Codes())[n..]
  {
    hide *;
    ghost var codes := raw.Codes();
    ghost var sofar := vals;
    ProgressBound(filler, f, cells, vals);
    NoVals(vals, codes, flag);
    for i := 0 to n
      invariant raw.Valid() && raw.Codes() == codes[i..]
      invariant sofar == vals + BitVals(BytesBits(codes[..i]), flag)
      invariant Progress(filler, f, cells, sofar)
      invariant |sofar| == |vals| + 8 * i <= |cells|
    {
      var code := raw.GetCode();
      NextOf(codes, i, code, raw.Codes());
      ok := PutByte(filler, code, flag, f, cells, sofar);
      if !ok {
        return;
      }
      MoreVals(vals, codes, i, flag);
      sofar := sofar + BitVals(ByteBits(code), flag);
    }
    ok := true;
  }

  lemma NextOf<T>(s: seq<T>, i: nat, x: T, rest: seq<T>)
    requires i < |s| && (s[i..] != [] ==> s[i..] == [x] + rest)
    ensures x == s[i] && rest == s[i + 1..]
  {
    assert s[i..][0] == s[i] && s[i..][1..] == s[i + 1..];
  }

  lemma NoVals(vals: seq<byte>, codes: seq<byte>, flag: byte)
    requires flag <= 2
    ensures vals + BitVals(BytesBits(codes[..0]), flag) == vals && codes[0..] == codes
  {
  }

  lemma MoreVals(vals: seq<byte>, codes: seq<byte>, i: nat, flag: byte)
    requires i < |codes| && flag <= 2
    ensures vals + BitVals(BytesBits(codes[..i + 1]), flag)
            == vals + BitVals(BytesBits(codes[..i]), flag) + BitVals(ByteBits(codes[i]), flag)
  {
    hide ByteBits;
    assert codes[..i + 1][..i] == codes[..i];
    BitValsConcat(BytesBits(codes[..i]), ByteBits(codes[i]), flag);
  }
}
