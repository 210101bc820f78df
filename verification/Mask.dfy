/** Masking a QR symbol: the eight mask patterns and the format information. */
module Mask {
  import opened Arith
  import opened Bits

  const MASK_NUM := 8

  /** The modules a mask inverts: column x, row y. */
  predicate Flips(mask: nat, x: nat, y: nat)
    requires mask < MASK_NUM
  {
    match mask
    case 0 => (x + y) % 2 == 0
    case 1 => y % 2 == 0
    case 2 => x % 3 == 0
    case 3 => (x + y) % 3 == 0
    case 4 => (y / 2 + x / 3) % 2 == 0
    case 5 => x * y % 2 + x * y % 3 == 0
    case 6 => (x * y % 2 + x * y % 3) % 2 == 0
    case 7 => (x * y % 3 + (x + y) % 2) % 2 == 0
  }

  /** C's `v ^ c` for a truth value c. */
  function Toggle(v: byte, c: bool): (r: byte)
    ensures v < 128 <==> r < 128
    ensures r % 2 == if c then 1 - v % 2 else v % 2
  {
    if !c then v else if v % 2 == 0 then v + 1 else v - 1
  }

  lemma ToggleIsXor(v: byte, c: bool)
    ensures Toggle(v, c) == Xor(v, if c then 1 else 0)
  {
    XorUnfold(v, 1);
    XorZero(v); XorZero(v / 2);
  }

  function MaskCell(v: byte, flip: bool): (r: byte)
    ensures v < 128 <==> r < 128
  {
    if v >= 128 then v else Toggle(v, flip)
  }

  function Masked(f: seq<byte>, w: nat, flips: (nat, nat) -> bool): (r: seq<byte>)
    requires w > 0
    ensures |r| == |f|
  {
    seq<byte>(|f|, c requires 0 <= c < |f| => MaskCell(f[c], flips(Col(w, c), Row(w, c))))
  }

  /** The number of dark modules. */
  function Darks(f: seq<byte>): nat {
    if f == [] then 0 else Darks(f[..|f| - 1]) + f[|f| - 1] % 2
  }

  lemma MaskedAt(f: seq<byte>, w: nat, flips: (nat, nat) -> bool, i: nat)
    requires w > 0 && i < |f|
    ensures Masked(f, w, flips)[i] == MaskCell(f[i], flips(Col(w, i), Row(w, i)))
  {
    hide MaskCell; hide Col; hide Row;
  }

  /** A MASKMAKER function: s masked into d; the result counts the dark modules. */
  method MaskFrame(flips: (nat, nat) -> bool, width: nat, s: array<byte>, d: array<byte>) returns (b: nat)
    requires width > 0 && s.Length == d.Length == width * width && s != d
    modifies d
    ensures d[..] == Masked(s[..], width, flips)
    ensures b == Darks(d[..])
  {
    hide MaskCell; hide Darks; hide Col; hide Row;
    b := 0;
    var p := 0;
    DarksNil();
    for y := 0 to width
      invariant p == y * width
      invariant forall c :: 0 <= c < p ==> d[c] == MaskCell(s[c], flips(Col(width, c), Row(width, c)))
      invariant b == Darks(d[..p])
    {
      MulMono(y + 1, width, width);
      for x := 0 to width
        invariant p == y * width + x <= d.Length
        invariant forall c :: 0 <= c < p ==> d[c] == MaskCell(s[c], flips(Col(width, c), Row(width, c)))
        invariant b == Darks(d[..p])
      {
        ColRow(width, x, y);
        d[p] := MaskCell(s[p], flips(x, y));
        DarksSnoc(d[..p], d[p]);
        assert d[..p + 1] == d[..p] + [d[p]];
        b := b + d[p] % 2;
        p := p + 1;
      }
    }
    assert d[..p] == d[..];
  }

  lemma DarksNil()
    ensures Darks([]) == 0
  {
  }

  lemma DarksSnoc(f: seq<byte>, v: byte)
    ensures Darks(f + [v]) == Darks(f) + v % 2
  {
    assert (f + [v])[..|f|] == f;
  }
}
