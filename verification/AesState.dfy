/** The steps of AES as the program takes them: on a block of a buffer, in place. */
module AesState {
  import opened Aes
  import opened AesField
  import opened AesTables
  import opened Bits
  import opened Gf256

  /** The block b with its first n bytes replaced by those of c. */
  function UpTo(b: seq<byte>, c: seq<byte>, n: nat): (r: seq<byte>)
    requires |b| == |c| == 16 && n <= 16
    ensures |r| == 16
  {
    c[..n] + b[n..]
  }

  lemma UpToEnds(b: seq<byte>, c: seq<byte>)
    requires |b| == |c| == 16
    ensures UpTo(b, c, 0) == b && UpTo(b, c, 16) == c
  {
  }

  lemma UpToNext(b: seq<byte>, c: seq<byte>, n: nat)
    requires |b| == |c| == 16 && n < 16
    ensures UpTo(b, c, n)[n] == b[n]
    ensures UpTo(b, c, n + 1) == UpTo(b, c, n)[n := c[n]]
  {
  }

  /** AddRoundKey. */
  method AddRoundKey(round: nat, state: array<byte>, p: nat, rk: array<byte>)
    requires p + 16 <= state.Length && rk.Length == ROUND_KEY_SIZE && round <= NR && state != rk
    modifies state
    ensures state[..] == Splice(old(state[..]), p, XorBlock(Block(old(state[..]), p), RoundKey(rk[..], round)))
  {
    hide *;
    ghost var s, b, k := state[..], Block(state[..], p), RoundKey(rk[..], round);
    ghost var c := XorBlock(b, k);
    XorRoundKey(b, rk[..], round);
    SpliceLaws(s, p, b, c);
    UpToEnds(b, c);
    for i := 0 to 4
      invariant state[..] == Splice(s, p, UpTo(b, c, 4 * i))
    {
      for j := 0 to 4
        invariant state[..] == Splice(s, p, UpTo(b, c, 4 * i + j))
      {
        var n := 4 * i + j;
        UpToNext(b, c, n);
        SpliceAt(s, p, UpTo(b, c, n), n, c[n]);
        state[p + n] := XorB(state[p + n], rk[16 * round + n]);
      }
    }
  }

  lemma XorRoundKey(b: seq<byte>, rk: seq<byte>, round: nat)
    requires |b| == 16 && |rk| == ROUND_KEY_SIZE && round <= NR
    ensures 16 * round + 16 <= |rk|
    ensures forall n: nat | n < 16 :: XorBlock(b, RoundKey(rk, round))[n] == XorB(b[n], rk[16 * round + n])
  {
    hide XorB;
  }

  /** The block b with its rows above row i, and in row i its columns before column j, replaced by those of c. */
  function RowsUpTo(b: seq<byte>, c: seq<byte>, i: nat, j: nat): (r: seq<byte>)
    requires |b| == |c| == 16
    ensures |r| == 16
  {
    seq<byte>(16, k requires 0 <= k < 16 => if k % 4 < i || (k % 4 == i && k / 4 < j) then c[k] else b[k])
  }

  lemma RowsEnds(b: seq<byte>, c: seq<byte>)
    requires |b| == |c| == 16
    ensures RowsUpTo(b, c, 0, 0) == b && RowsUpTo(b, c, 4, 0) == c
  {
  }

  lemma RowsTurn(b: seq<byte>, c: seq<byte>, i: nat)
    requires |b| == |c| == 16
    ensures RowsUpTo(b, c, i, 4) == RowsUpTo(b, c, i + 1, 0)
  {
  }

  lemma RowsNext(b: seq<byte>, c: seq<byte>, i: nat, j: nat)
    requires |b| == |c| == 16 && i < 4 && j < 4
    ensures RowsUpTo(b, c, i, j)[4 * j + i] == b[4 * j + i]
    ensures RowsUpTo(b, c, i, j + 1) == RowsUpTo(b, c, i, j)[4 * j + i := c[4 * j + i]]
  {
    GridPlace(j, i);
    var u, v, n := RowsUpTo(b, c, i, j), RowsUpTo(b, c, i, j + 1), 4 * j + i;
    forall k | 0 <= k < 16 ensures v[k] == u[n := c[n]][k] {
      if k != n {
        assert k == 4 * (k / 4) + k % 4;
      }
    }
  }

  lemma SubstitutedAt(b: seq<byte>)
    requires |b| == 16
    ensures forall n: nat | n < 16 :: Substituted(b)[n] == Sbox(b[n])
    ensures forall n: nat | n < 16 :: InvSubstituted(b)[n] == InvSbox(b[n])
  {
    hide Sbox; hide InvSbox;
  }

  /** SubBytes. */
  method SubBytes(state: array<byte>, p: nat)
    requires p + 16 <= state.Length
    modifies state
    ensures state[..] == Splice(old(state[..]), p, Substituted(Block(old(state[..]), p)))
  {
    hide *;
    ghost var s, b := state[..], Block(state[..], p);
    ghost var c := Substituted(b);
    SubstitutedAt(b);
    SpliceLaws(s, p, b, c);
    RowsEnds(b, c);
    for i := 0 to 4
      invariant state[..] == Splice(s, p, RowsUpTo(b, c, i, 0))
    {
      for j := 0 to 4
        invariant state[..] == Splice(s, p, RowsUpTo(b, c, i, j))
      {
        RowsNext(b, c, i, j);
        SpliceAt(s, p, RowsUpTo(b, c, i, j), 4 * j + i, c[4 * j + i]);
        state[p + (4 * j + i)] := Sbox(state[p + (4 * j + i)]);
      }
      RowsTurn(b, c, i);
    }
  }

  /** InvSubBytes. */
  method InvSubBytes(state: array<byte>, p: nat)
    requires p + 16 <= state.Length
    modifies state
    ensures state[..] == Splice(old(state[..]), p, InvSubstituted(Block(old(state[..]), p)))
  {
    hide *;
    ghost var s, b := state[..], Block(state[..], p);
    ghost var c := InvSubstituted(b);
    SubstitutedAt(b);
    SpliceLaws(s, p, b, c);
    RowsEnds(b, c);
    for i := 0 to 4
      invariant state[..] == Splice(s, p, RowsUpTo(b, c, i, 0))
    {
      for j := 0 to 4
        invariant state[..] == Splice(s, p, RowsUpTo(b, c, i, j))
      {
        RowsNext(b, c, i, j);
        SpliceAt(s, p, RowsUpTo(b, c, i, j), 4 * j + i, c[4 * j + i]);
        state[p + (4 * j + i)] := InvSbox(state[p + (4 * j + i)]);
      }
      RowsTurn(b, c, i);
    }
  }

  /** Four bytes of a block moved round by one place, and two bytes exchanged. */
  function Cycled(b: seq<byte>, k0: nat, k1: nat, k2: nat, k3: nat): (r: seq<byte>)
    requires |b| == 16 && k0 < 16 && k1 < 16 && k2 < 16 && k3 < 16
    ensures |r| == 16
  {
    b[k0 := b[k1]][k1 := b[k2]][k2 := b[k3]][k3 := b[k0]]
  }

  function Exchanged(b: seq<byte>, k0: nat, k1: nat): (r: seq<byte>)
    requires |b| == 16 && k0 < 16 && k1 < 16
    ensures |r| == 16
  {
    b[k0 := b[k1]][k1 := b[k0]]
  }

  method Cycle(state: array<byte>, p: nat, k0: nat, k1: nat, k2: nat, k3: nat, ghost s: seq<byte>, ghost b: seq<byte>)
    requires p + 16 <= |s| == state.Length && |b| == 16 && state[..] == Splice(s, p, b)
    requires k0 < 16 && k1 < 16 && k2 < 16 && k3 < 16 && k0 != k1 && k1 != k2 && k2 != k3 && k0 != k2 && k1 != k3 && k0 != k3
    modifies state
    ensures state[..] == Splice(s, p, Cycled(b, k0, k1, k2, k3))
  {
    ghost var c := b;
    hide Splice;
    SpliceAt(s, p, b, k0, b[k1]); SpliceAt(s, p, b, k1, 0); SpliceAt(s, p, b, k2, 0); SpliceAt(s, p, b, k3, 0);
    var temp := state[p + k0];
    SpliceAt(s, p, c, k0, b[k1]);
    state[p + k0] := state[p + k1];
    c := c[k0 := b[k1]];
    SpliceAt(s, p, c, k1, b[k2]);
    state[p + k1] := state[p + k2];
    c := c[k1 := b[k2]];
    SpliceAt(s, p, c, k2, b[k3]);
    state[p + k2] := state[p + k3];
    c := c[k2 := b[k3]];
    SpliceAt(s, p, c, k3, b[k0]);
    state[p + k3] := temp;
  }

  method Exchange(state: array<byte>, p: nat, k0: nat, k1: nat, ghost s: seq<byte>, ghost b: seq<byte>)
    requires p + 16 <= |s| == state.Length && |b| == 16 && state[..] == Splice(s, p, b)
    requires k0 < 16 && k1 < 16 && k0 != k1
    modifies state
    ensures state[..] == Splice(s, p, Exchanged(b, k0, k1))
  {
    hide Splice;
    SpliceAt(s, p, b, k0, b[k1]); SpliceAt(s, p, b, k1, 0);
    var temp := state[p + k0];
    state[p + k0] := state[p + k1];
    SpliceAt(s, p, b[k0 := b[k1]], k1, b[k0]);
    state[p + k1] := temp;
  }

  /** ShiftRows. */
  method ShiftRows(state: array<byte>, p: nat)
    requires p + 16 <= state.Length
    modifies state
    ensures state[..] == Splice(old(state[..]), p, Shifted(Block(old(state[..]), p)))
  {
    hide *;
    ghost var s, b := state[..], Block(state[..], p);
    SpliceLaws(s, p, b, b);
    RowsMoved(b);
    Cycle(state, p, 1, 5, 9, 13, s, b);
    ghost var c := Cycled(b, 1, 5, 9, 13);
    Exchange(state, p, 2, 10, s, c);
    c := Exchanged(c, 2, 10);
    Exchange(state, p, 6, 14, s, c);
    c := Exchanged(c, 6, 14);
    Cycle(state, p, 3, 15, 11, 7, s, c);
  }

  lemma RowsMoved(b: seq<byte>)
    requires |b| == 16
    ensures Shifted(b) == Cycled(Exchanged(Exchanged(Cycled(b, 1, 5, 9, 13), 2, 10), 6, 14), 3, 15, 11, 7)
  {
    hide Shifted;
    ShiftedIs(b);
  }

  lemma ShiftedIs(b: seq<byte>)
    requires |b| == 16
    ensures Shifted(b) == [b[0], b[5], b[10], b[15], b[4], b[9], b[14], b[3],
                           b[8], b[13], b[2], b[7], b[12], b[1], b[6], b[11]]
  {
    hide Place;
    Places();
  }

  /** InvShiftRows. */
  method InvShiftRows(state: array<byte>, p: nat)
    requires p + 16 <= state.Length
    modifies state
    ensures state[..] == Splice(old(state[..]), p, InvShifted(Block(old(state[..]), p)))
  {
    hide *;
    ghost var s, b := state[..], Block(state[..], p);
    SpliceLaws(s, p, b, b);
    RowsMovedBack(b);
    Cycle(state, p, 13, 9, 5, 1, s, b);
    ghost var c := Cycled(b, 13, 9, 5, 1);
    Exchange(state, p, 2, 10, s, c);
    c := Exchanged(c, 2, 10);
    Exchange(state, p, 6, 14, s, c);
    c := Exchanged(c, 6, 14);
    Cycle(state, p, 3, 7, 11, 15, s, c);
  }

  lemma RowsMovedBack(b: seq<byte>)
    requires |b| == 16
    ensures InvShifted(b) == Cycled(Exchanged(Exchanged(Cycled(b, 13, 9, 5, 1), 2, 10), 6, 14), 3, 7, 11, 15)
  {
    hide InvShifted;
    InvShiftedIs(b);
  }

  lemma InvShiftedIs(b: seq<byte>)
    requires |b| == 16
    ensures InvShifted(b) == [b[0], b[13], b[10], b[7], b[4], b[1], b[14], b[11],
                              b[8], b[5], b[2], b[15], b[12], b[9], b[6], b[3]]
  {
    hide InvPlace;
    InvPlaces();
  }

  lemma Places()
    ensures Place(0) == 0 && Place(1) == 5 && Place(2) == 10 && Place(3) == 15
    ensures Place(4) == 4 && Place(5) == 9 && Place(6) == 14 && Place(7) == 3
    ensures Place(8) == 8 && Place(9) == 13 && Place(10) == 2 && Place(11) == 7
    ensures Place(12) == 12 && Place(13) == 1 && Place(14) == 6 && Place(15) == 11
  {
  }

  lemma InvPlaces()
    ensures InvPlace(0) == 0 && InvPlace(1) == 13 && InvPlace(2) == 10 && InvPlace(3) == 7
    ensures InvPlace(4) == 4 && InvPlace(5) == 1 && InvPlace(6) == 14 && InvPlace(7) == 11
    ensures InvPlace(8) == 8 && InvPlace(9) == 5 && InvPlace(10) == 2 && InvPlace(11) == 15
    ensures InvPlace(12) == 12 && InvPlace(13) == 9 && InvPlace(14) == 6 && InvPlace(15) == 3
  {
  }

  // ---- columns ----

  /** One turn of the loop of MixColumns: the column at q, with the shared sum of all four bytes. */
  method MixOneColumn(state: array<byte>, q: nat)
    requires q + 4 <= state.Length
    modifies state
    ensures state.Length == |old(state[..])|
    ensures var s := old(state[..]); var f := MixColumn(Four(s[q], s[q + 1], s[q + 2], s[q + 3]), MIX);
            state[..] == s[q := f.m0][q + 1 := f.m1][q + 2 := f.m2][q + 3 := f.m3]
  {
    hide XorB; hide Xtime;
    var t := state[q];
    ghost var a, b, c, d := state[q], state[q + 1], state[q + 2], state[q + 3];
    SharedSum(a, b, c, d); SharedSum(b, c, d, a); SharedSum(c, d, a, b); SharedSum(d, a, b, c);
    X4Rotate(a, b, c, d); X4Rotate(b, c, d, a); X4Rotate(c, d, a, b);
    var tmp := XorB(XorB(XorB(state[q], state[q + 1]), state[q + 2]), state[q + 3]);
    assert tmp == X4(a, b, c, d);
    hide Dot; hide X4;
    var tm := Xtime(XorB(state[q], state[q + 1]));
    state[q] := XorB(state[q], XorB(tm, tmp));
    tm := Xtime(XorB(state[q + 1], state[q + 2]));
    state[q + 1] := XorB(state[q + 1], XorB(tm, tmp));
    tm := Xtime(XorB(state[q + 2], state[q + 3]));
    state[q + 2] := XorB(state[q + 2], XorB(tm, tmp));
    tm := Xtime(XorB(state[q + 3], t));
    state[q + 3] := XorB(state[q + 3], XorB(tm, tmp));
  }

  /** 2a + 3b + c + d is a + (2(a + b) + (a + b + c + d)). */
  lemma SharedSum(a: byte, b: byte, c: byte, d: byte)
    ensures XorB(a, XorB(Xtime(XorB(a, b)), X4(a, b, c, d))) == Dot(Four(a, b, c, d), MIX)
  {
    SmallProducts(a); SmallProducts(b); SmallProducts(c); SmallProducts(d);
    XtimeIsProduct(a); XtimeIsProduct(b); XtimeIsProduct(XorB(a, b));
    XTimeLinear(a, b, AES_POLY);
    hide Xor; hide Xtime; hide XTime; hide Mul;
    Regroup(a, b, c, d, Xtime(a), Xtime(b));
  }

  lemma Regroup(a: byte, b: byte, c: byte, d: byte, xa: byte, xb: byte)
    ensures XorB(a, XorB(XorB(xa, xb), X4(a, b, c, d))) == X4(xa, XorB(xb, b), c, d)
  {
    hide Xor;
    var x, y := Xor(xa, xb), Xor(a, b);
    XorAssoc(x, Xor(y, c), d); XorAssoc(x, y, c);
    XorAssoc(a, Xor(Xor(x, y), c), d); XorAssoc(a, Xor(x, y), c);
    XorSwap(xa, xb, a, b);
    XorComm(xa, a); XorAssoc(a, Xor(a, xa), Xor(xb, b)); XorCancel(xa, a);
  }

  /** The block b with its columns before column i multiplied by m. */
  function MixedUpTo(b: seq<byte>, m: Four, i: nat): (r: seq<byte>)
    requires |b| == 16 && i <= 4
    ensures |r| == 16
  {
    UpTo(b, Mixed(b, m), 4 * i)
  }

  lemma MixedEnds(b: seq<byte>, m: Four)
    requires |b| == 16
    ensures MixedUpTo(b, m, 0) == b && MixedUpTo(b, m, 4) == Mixed(b, m)
  {
    hide Mixed;
  }

  lemma NextColumn(s: seq<byte>, p: nat, b: seq<byte>, m: Four, i: nat)
    requires p + 16 <= |s| && |b| == 16 && i < 4
    ensures var u, q := Splice(s, p, MixedUpTo(b, m, i)), p + 4 * i;
            var f := MixColumn(Four(u[q], u[q + 1], u[q + 2], u[q + 3]), m);
            Splice(s, p, MixedUpTo(b, m, i + 1)) == u[q := f.m0][q + 1 := f.m1][q + 2 := f.m2][q + 3 := f.m3]
  {
    hide *;
    var c, n := Mixed(b, m), 4 * i;
    MixedColumn(b, m, i);
    NotYet(s, p, b, c, n);
    FourMore(s, p, b, c, n);
    assert n + 4 == 4 * (i + 1);
    MixedUpToIs(b, m, i); MixedUpToIs(b, m, i + 1);
    ColumnIs(b, i); ColumnIs(c, i);
  }

  lemma MixedUpToIs(b: seq<byte>, m: Four, i: nat)
    requires |b| == 16 && i <= 4
    ensures MixedUpTo(b, m, i) == UpTo(b, Mixed(b, m), 4 * i)
  {
  }

  lemma ColumnIs(b: seq<byte>, i: nat)
    requires |b| == 16 && i < 4
    ensures Column(b, i) == Four(b[4 * i], b[4 * i + 1], b[4 * i + 2], b[4 * i + 3])
  {
  }

  lemma NotYet(s: seq<byte>, p: nat, b: seq<byte>, c: seq<byte>, n: nat)
    requires p + 16 <= |s| && |b| == |c| == 16 && n + 4 <= 16
    ensures var u, q := Splice(s, p, UpTo(b, c, n)), p + n;
            u[q] == b[n] && u[q + 1] == b[n + 1] && u[q + 2] == b[n + 2] && u[q + 3] == b[n + 3]
  {
  }

  lemma FourMore(s: seq<byte>, p: nat, b: seq<byte>, c: seq<byte>, n: nat)
    requires p + 16 <= |s| && |b| == |c| == 16 && n + 4 <= 16
    ensures var u, q := Splice(s, p, UpTo(b, c, n)), p + n;
            Splice(s, p, UpTo(b, c, n + 4))
            == u[q := c[n]][q + 1 := c[n + 1]][q + 2 := c[n + 2]][q + 3 := c[n + 3]]
  {
    OneMore(s, p, b, c, n); OneMore(s, p, b, c, n + 1); OneMore(s, p, b, c, n + 2); OneMore(s, p, b, c, n + 3);
    hide Splice; hide UpTo;
  }

  lemma OneMore(s: seq<byte>, p: nat, b: seq<byte>, c: seq<byte>, n: nat)
    requires p + 16 <= |s| && |b| == |c| == 16 && n < 16
    ensures Splice(s, p, UpTo(b, c, n + 1)) == Splice(s, p, UpTo(b, c, n))[p + n := c[n]]
  {
    UpToNext(b, c, n);
    hide Splice; hide UpTo;
    SpliceAt(s, p, UpTo(b, c, n), n, c[n]);
  }

  /** MixColumns. */
  method MixColumns(state: array<byte>, p: nat)
    requires p + 16 <= state.Length
    modifies state
    ensures state[..] == Splice(old(state[..]), p, Mixed(Block(old(state[..]), p), MIX))
  {
    hide *;
    ghost var s, b := state[..], Block(state[..], p);
    SpliceLaws(s, p, b, b);
    MixedEnds(b, MIX);
    for i := 0 to 4
      invariant state[..] == Splice(s, p, MixedUpTo(b, MIX, i))
    {
      NextColumn(s, p, b, MIX, i);
      MixOneColumn(state, p + 4 * i);
    }
  }

  /** One turn of the loop of InvMixColumns. */
  method InvMixOneColumn(state: array<byte>, q: nat)
    requires q + 4 <= state.Length
    modifies state
    ensures state.Length == |old(state[..])|
    ensures var s := old(state[..]); var f := MixColumn(Four(s[q], s[q + 1], s[q + 2], s[q + 3]), INV_MIX);
            state[..] == s[q := f.m0][q + 1 := f.m1][q + 2 := f.m2][q + 3 := f.m3]
  {
    hide Multiply; hide XorB; hide Mul;
    var a, b, c, d := state[q], state[q + 1], state[q + 2], state[q + 3];
    InvRow(a, b, c, d); InvRow(b, c, d, a); InvRow(c, d, a, b); InvRow(d, a, b, c);
    hide Dot;
    X4Rotate(Multiply(d, 0x09), Multiply(a, 0x0e), Multiply(b, 0x0b), Multiply(c, 0x0d));
    state[q] := X4(Multiply(a, 0x0e), Multiply(b, 0x0b), Multiply(c, 0x0d), Multiply(d, 0x09));
    state[q + 1] := X4(Multiply(a, 0x09), Multiply(b, 0x0e), Multiply(c, 0x0b), Multiply(d, 0x0d));
    state[q + 2] := X4(Multiply(a, 0x0d), Multiply(b, 0x09), Multiply(c, 0x0e), Multiply(d, 0x0b));
    state[q + 3] := X4(Multiply(a, 0x0b), Multiply(b, 0x0d), Multiply(c, 0x09), Multiply(d, 0x0e));
  }

  lemma InvRow(a: byte, b: byte, c: byte, d: byte)
    ensures X4(Multiply(a, 0x0e), Multiply(b, 0x0b), Multiply(c, 0x0d), Multiply(d, 0x09)) == Dot(Four(a, b, c, d), INV_MIX)
    ensures X4(Multiply(d, 0x09), Multiply(a, 0x0e), Multiply(b, 0x0b), Multiply(c, 0x0d)) == Dot(Four(a, b, c, d), INV_MIX)
    ensures X4(Multiply(c, 0x0d), Multiply(d, 0x09), Multiply(a, 0x0e), Multiply(b, 0x0b)) == Dot(Four(a, b, c, d), INV_MIX)
    ensures X4(Multiply(b, 0x0b), Multiply(c, 0x0d), Multiply(d, 0x09), Multiply(a, 0x0e)) == Dot(Four(a, b, c, d), INV_MIX)
  {
    hide Multiply; hide Mul; hide X4;
    MultiplyIsProduct(a, 0x0e); MultiplyIsProduct(b, 0x0b); MultiplyIsProduct(c, 0x0d); MultiplyIsProduct(d, 0x09);
    var x, y, z, u := Multiply(a, 0x0e), Multiply(b, 0x0b), Multiply(c, 0x0d), Multiply(d, 0x09);
    X4Rotate(x, y, z, u); X4Rotate(y, z, u, x); X4Rotate(z, u, x, y);
  }

  /** InvMixColumns. */
  method InvMixColumns(state: array<byte>, p: nat)
    requires p + 16 <= state.Length
    modifies state
    ensures state[..] == Splice(old(state[..]), p, Mixed(Block(old(state[..]), p), INV_MIX))
  {
    hide *;
    ghost var s, b := state[..], Block(state[..], p);
    SpliceLaws(s, p, b, b);
    MixedEnds(b, INV_MIX);
    for i := 0 to 4
      invariant state[..] == Splice(s, p, MixedUpTo(b, INV_MIX, i))
    {
      NextColumn(s, p, b, INV_MIX, i);
      InvMixOneColumn(state, p + 4 * i);
    }
  }

  // ---- the cipher ----

  /** The first half of a round. */
  method SubShift(state: array<byte>, p: nat)
    requires p + 16 <= state.Length
    modifies state
    ensures state[..] == Splice(old(state[..]), p, Shifted(Substituted(Block(old(state[..]), p))))
  {
    ghost var s, b := state[..], Block(state[..], p);
    hide Splice; hide Block; hide Substituted; hide Shifted;
    SpliceLaws(s, p, Substituted(b), Shifted(Substituted(b)));
    SubBytes(state, p);
    ShiftRows(state, p);
  }

  /** The second half, which the last round does not have. */
  method MixAdd(round: nat, state: array<byte>, p: nat, rk: array<byte>)
    requires p + 16 <= state.Length && rk.Length == ROUND_KEY_SIZE && round <= NR && state != rk
    modifies state
    ensures state[..] == Splice(old(state[..]), p, XorBlock(Mixed(Block(old(state[..]), p), MIX), RoundKey(rk[..], round)))
  {
    ghost var s, b := state[..], Block(state[..], p);
    hide Splice; hide Block; hide XorBlock; hide Mixed; hide RoundKey;
    SpliceLaws(s, p, Mixed(b, MIX), XorBlock(Mixed(b, MIX), RoundKey(rk[..], round)));
    MixColumns(state, p);
    AddRoundKey(round, state, p, rk);
  }

  lemma NextRound(b: seq<byte>, k: seq<byte>, r: nat)
    requires |b| == 16 && |k| == ROUND_KEY_SIZE && r + 1 < NR
    ensures After(b, k, r + 1) == XorBlock(Mixed(Shifted(Substituted(After(b, k, r))), MIX), RoundKey(k, r + 1))
  {
    hide XorBlock; hide Substituted; hide Shifted; hide Mixed; hide RoundKey;
  }

  lemma CipherEnds(b: seq<byte>, k: seq<byte>)
    requires |b| == 16 && |k| == ROUND_KEY_SIZE
    ensures NR == 10
    ensures After(b, k, 0) == XorBlock(b, RoundKey(k, 0))
    ensures CipherOf(b, k) == XorBlock(Shifted(Substituted(After(b, k, NR - 1))), RoundKey(k, NR))
  {
    hide XorBlock; hide Substituted; hide Shifted; hide Mixed; hide RoundKey;
  }

  /** Cipher. */
  method Cipher(state: array<byte>, p: nat, rk: array<byte>)
    requires p + 16 <= state.Length && rk.Length == ROUND_KEY_SIZE && state != rk
    modifies state
    ensures state[..] == Splice(old(state[..]), p, CipherOf(Block(old(state[..]), p), rk[..]))
  {
    hide *;
    ghost var s, b, k := state[..], Block(state[..], p), rk[..];
    CipherEnds(b, k);
    ghost var half := b;
    AddRoundKey(0, state, p, rk);
    var round := 1;
    while true
      invariant 1 <= round <= NR
      invariant state[..] == Splice(s, p, After(b, k, round - 1))
      decreases NR - round
    {
      ghost var done := After(b, k, round - 1);
      half := Shifted(Substituted(done));
      SpliceLaws(s, p, done, half);
      SubShift(state, p);
      if round == NR {
        break;
      }
      NextRound(b, k, round - 1);
      SpliceLaws(s, p, half, After(b, k, round));
      MixAdd(round, state, p, rk);
      round := round + 1;
    }
    SpliceLaws(s, p, half, XorBlock(half, RoundKey(k, NR)));
    AddRoundKey(NR, state, p, rk);
  }

  /** What every round of InvCipher begins with. */
  method InvShiftSubAdd(round: nat, state: array<byte>, p: nat, rk: array<byte>)
    requires p + 16 <= state.Length && rk.Length == ROUND_KEY_SIZE && round <= NR && state != rk
    modifies state
    ensures state[..] == Splice(old(state[..]), p,
                                XorBlock(InvSubstituted(InvShifted(Block(old(state[..]), p))), RoundKey(rk[..], round)))
  {
    hide *;
    ghost var s, b := state[..], Block(state[..], p);
    ghost var c := InvSubstituted(InvShifted(b));
    SpliceLaws(s, p, InvShifted(b), c);
    SpliceLaws(s, p, c, XorBlock(c, RoundKey(rk[..], round)));
    InvShiftRows(state, p);
    InvSubBytes(state, p);
    AddRoundKey(round, state, p, rk);
  }

  lemma UndoneStep(t: seq<byte>, k: seq<byte>, r: nat)
    requires |t| == 16 && |k| == ROUND_KEY_SIZE && r < NR
    ensures var u := XorBlock(InvSubstituted(InvShifted(t)), RoundKey(k, r));
            Undone(t, k, r) == if r == 0 then u else Undone(Mixed(u, INV_MIX), k, r - 1)
  {
    hide XorBlock; hide InvSubstituted; hide InvShifted; hide Mixed; hide RoundKey;
  }

  lemma InvCipherStart(b: seq<byte>, k: seq<byte>)
    requires |b| == 16 && |k| == ROUND_KEY_SIZE
    ensures NR == 10
    ensures InvCipherOf(b, k) == Undone(XorBlock(b, RoundKey(k, NR)), k, NR - 1)
  {
    hide XorBlock; hide Undone; hide RoundKey;
  }

  /** InvCipher. */
  method InvCipher(state: array<byte>, p: nat, rk: array<byte>)
    requires p + 16 <= state.Length && rk.Length == ROUND_KEY_SIZE && state != rk
    modifies state
    ensures state[..] == Splice(old(state[..]), p, InvCipherOf(Block(old(state[..]), p), rk[..]))
  {
    hide *;
    ghost var s, b, k := state[..], Block(state[..], p), rk[..];
    InvCipherStart(b, k);
    ghost var t := XorBlock(b, RoundKey(k, NR));
    ghost var result := InvCipherOf(b, k);
    AddRoundKey(NR, state, p, rk);
    var round := NR - 1;
    ghost var u := t;
    while true
      invariant 0 <= round < NR && |t| == 16
      invariant state[..] == Splice(s, p, t) && Undone(t, k, round) == result
      decreases round
    {
      u := XorBlock(InvSubstituted(InvShifted(t)), RoundKey(k, round));
      UndoneStep(t, k, round);
      SpliceLaws(s, p, t, u);
      InvShiftSubAdd(round, state, p, rk);
      assert state[..] == Splice(s, p, u);
      if round == 0 {
        break;
      }
      t := Mixed(u, INV_MIX);
      SpliceLaws(s, p, u, t);
      InvMixColumns(state, p);
      assert state[..] == Splice(s, p, t);
      round := round - 1;
    }
    assert u == result;
  }
}
