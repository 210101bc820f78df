/** AES-128 on one block of a buffer, in place, and the proof that decryption undoes encryption. */
module Aes {
  import opened AesField
  import opened AesTables
  import opened Bits

  const NR := 10

  const ROUND_KEY_SIZE := 176

  // ---- blocks of a buffer ----

  /** The sixteen bytes from p on. */
  function Block(s: seq<byte>, p: nat): (r: seq<byte>)
    requires p + 16 <= |s|
    ensures |r| == 16
  {
    s[p..p + 16]
  }

  /** The buffer s with b in place of the block at p. */
  function Splice(s: seq<byte>, p: nat, b: seq<byte>): (r: seq<byte>)
    requires p + 16 <= |s| && |b| == 16
    ensures |r| == |s|
  {
    s[..p] + b + s[p + 16..]
  }

  lemma SpliceLaws(s: seq<byte>, p: nat, b: seq<byte>, c: seq<byte>)
    requires p + 16 <= |s| && |b| == |c| == 16
    ensures Block(Splice(s, p, b), p) == b
    ensures Splice(Splice(s, p, b), p, c) == Splice(s, p, c)
    ensures Splice(s, p, Block(s, p)) == s
  {
  }

  lemma SpliceAt(s: seq<byte>, p: nat, b: seq<byte>, k: nat, v: byte)
    requires p + 16 <= |s| && |b| == 16 && k < 16
    ensures Splice(s, p, b)[p + k] == b[k]
    ensures Splice(s, p, b)[p + k := v] == Splice(s, p, b[k := v])
  {
  }

  // ---- the steps of a round, section 5.1 and 5.3 of FIPS 197 ----

  function RoundKey(rk: seq<byte>, round: nat): (r: seq<byte>)
    requires |rk| == ROUND_KEY_SIZE && round <= NR
    ensures |r| == 16
  {
    Block(rk, 16 * round)
  }

  function XorBlock(a: seq<byte>, b: seq<byte>): (r: seq<byte>)
    requires |a| == |b| == 16
    ensures |r| == 16
  {
    seq<byte>(16, k requires 0 <= k < 16 => XorB(a[k], b[k]))
  }

  function Substituted(b: seq<byte>): (r: seq<byte>)
    requires |b| == 16
    ensures |r| == 16
  {
    seq<byte>(16, k requires 0 <= k < 16 => Sbox(b[k]))
  }

  function InvSubstituted(b: seq<byte>): (r: seq<byte>)
    requires |b| == 16
    ensures |r| == 16
  {
    seq<byte>(16, k requires 0 <= k < 16 => InvSbox(b[k]))
  }

  /** Byte k stands in row k % 4 and column k / 4; row r moves r columns to the left, and back. */
  function Place(k: nat): (j: nat)
    requires k < 16
    ensures j < 16
  {
    4 * ((k / 4 + k % 4) % 4) + k % 4
  }

  function InvPlace(k: nat): (j: nat)
    requires k < 16
    ensures j < 16
  {
    4 * ((k / 4 + 4 - k % 4) % 4) + k % 4
  }

  function Shifted(b: seq<byte>): (r: seq<byte>)
    requires |b| == 16
    ensures |r| == 16
  {
    seq<byte>(16, k requires 0 <= k < 16 => b[Place(k)])
  }

  function InvShifted(b: seq<byte>): (r: seq<byte>)
    requires |b| == 16
    ensures |r| == 16
  {
    seq<byte>(16, k requires 0 <= k < 16 => b[InvPlace(k)])
  }

  lemma PlaceInverse(k: nat)
    requires k < 16
    ensures Place(InvPlace(k)) == k && InvPlace(Place(k)) == k
  {
    hide *;
    var c, r := k / 4, k % 4;
    var there, back := (c + r) % 4, (c + 4 - r) % 4;
    PlaceIs(c, r); PlaceIs(there, r); PlaceIs(back, r);
    assert k == 4 * c + r;
    Around(c, r);
  }

  lemma PlaceIs(c: nat, r: nat)
    requires c < 4 && r < 4
    ensures Place(4 * c + r) == 4 * ((c + r) % 4) + r && InvPlace(4 * c + r) == 4 * ((c + 4 - r) % 4) + r
  {
    GridPlace(c, r);
  }

  lemma Around(c: nat, r: nat)
    requires c < 4 && r < 4
    ensures ((c + r) % 4 + 4 - r) % 4 == c && ((c + 4 - r) % 4 + r) % 4 == c
  {
  }

  lemma GridPlace(c: nat, r: nat)
    requires c < 4 && r < 4
    ensures (4 * c + r) / 4 == c && (4 * c + r) % 4 == r
  {
  }

  function Column(b: seq<byte>, c: nat): Four
    requires |b| == 16 && c < 4
  {
    Four(b[4 * c], b[4 * c + 1], b[4 * c + 2], b[4 * c + 3])
  }

  function Coefficient(f: Four, r: nat): byte {
    if r == 0 then f.m0 else if r == 1 then f.m1 else if r == 2 then f.m2 else f.m3
  }

  /** Every column multiplied by m. */
  function Mixed(b: seq<byte>, m: Four): (r: seq<byte>)
    requires |b| == 16
    ensures |r| == 16
  {
    seq<byte>(16, k requires 0 <= k < 16 => Coefficient(MixColumn(Column(b, k / 4), m), k % 4))
  }

  lemma XorBlockTwice(a: seq<byte>, b: seq<byte>)
    requires |a| == |b| == 16
    ensures XorBlock(XorBlock(a, b), b) == a
  {
    hide Xor;
    forall k | 0 <= k < 16 ensures XorB(XorB(a[k], b[k]), b[k]) == a[k] {
      XorCancel(a[k], b[k]);
    }
  }

  lemma SubstitutedInverse(b: seq<byte>)
    requires |b| == 16
    ensures InvSubstituted(Substituted(b)) == b && Substituted(InvSubstituted(b)) == b
  {
    hide Sbox; hide InvSbox;
    forall k | 0 <= k < 16 ensures InvSbox(Sbox(b[k])) == b[k] && Sbox(InvSbox(b[k])) == b[k] {
      SboxInverse(b[k]);
    }
  }

  lemma ShiftedInverse(b: seq<byte>)
    requires |b| == 16
    ensures InvShifted(Shifted(b)) == b && Shifted(InvShifted(b)) == b
  {
    hide Place; hide InvPlace;
    forall k: nat | k < 16 ensures Place(InvPlace(k)) == k && InvPlace(Place(k)) == k {
      PlaceInverse(k);
    }
    assert InvShifted(Shifted(b)) == b;
  }

  lemma MixedInverse(b: seq<byte>)
    requires |b| == 16
    ensures Mixed(Mixed(b, MIX), INV_MIX) == b && Mixed(Mixed(b, INV_MIX), MIX) == b
  {
    hide MixColumn;
    forall c: nat | c < 4
      ensures MixColumn(MixColumn(Column(b, c), MIX), INV_MIX) == Column(b, c)
      ensures MixColumn(MixColumn(Column(b, c), INV_MIX), MIX) == Column(b, c)
    {
      MixInverse(Column(b, c));
    }
    MixedTwice(b, MIX, INV_MIX);
    MixedTwice(b, INV_MIX, MIX);
  }

  lemma MixedTwice(b: seq<byte>, m: Four, n: Four)
    requires |b| == 16
    requires forall c: nat :: c < 4 ==> MixColumn(MixColumn(Column(b, c), m), n) == Column(b, c)
    ensures Mixed(Mixed(b, m), n) == b
  {
    hide MixColumn;
    forall k: nat | k < 16 ensures Mixed(Mixed(b, m), n)[k] == b[k] {
      MixedColumn(b, m, k / 4);
      hide Mixed; hide Column;
      ColumnAt(b, k); MixedAt(Mixed(b, m), n, k);
    }
  }

  lemma ColumnAt(b: seq<byte>, k: nat)
    requires |b| == 16 && k < 16
    ensures Coefficient(Column(b, k / 4), k % 4) == b[k]
  {
  }

  lemma MixedAt(b: seq<byte>, m: Four, k: nat)
    requires |b| == 16 && k < 16
    ensures Mixed(b, m)[k] == Coefficient(MixColumn(Column(b, k / 4), m), k % 4)
  {
  }

  lemma MixedColumn(b: seq<byte>, m: Four, c: nat)
    requires |b| == 16 && c < 4
    ensures Column(Mixed(b, m), c) == MixColumn(Column(b, c), m)
  {
    hide MixColumn;
  }

  // ---- the cipher and its inverse ----

  /** The state after round r, for r < NR. */
  function After(b: seq<byte>, rk: seq<byte>, r: nat): (s: seq<byte>)
    requires |b| == 16 && |rk| == ROUND_KEY_SIZE && r < NR
    ensures |s| == 16
  {
    if r == 0 then XorBlock(b, RoundKey(rk, 0))
    else XorBlock(Mixed(Shifted(Substituted(After(b, rk, r - 1))), MIX), RoundKey(rk, r))
  }

  /** Figure 5 of FIPS 197. */
  function CipherOf(b: seq<byte>, rk: seq<byte>): (s: seq<byte>)
    requires |b| == 16 && |rk| == ROUND_KEY_SIZE
    ensures |s| == 16
  {
    XorBlock(Shifted(Substituted(After(b, rk, NR - 1))), RoundKey(rk, NR))
  }

  /** What the rounds from r down to 0 make of s. */
  function Undone(s: seq<byte>, rk: seq<byte>, r: nat): (b: seq<byte>)
    requires |s| == 16 && |rk| == ROUND_KEY_SIZE && r < NR
    ensures |b| == 16
    decreases r
  {
    var t := XorBlock(InvSubstituted(InvShifted(s)), RoundKey(rk, r));
    if r == 0 then t else Undone(Mixed(t, INV_MIX), rk, r - 1)
  }

  /** Figure 12 of FIPS 197. */
  function InvCipherOf(s: seq<byte>, rk: seq<byte>): (b: seq<byte>)
    requires |s| == 16 && |rk| == ROUND_KEY_SIZE
    ensures |b| == 16
  {
    Undone(XorBlock(s, RoundKey(rk, NR)), rk, NR - 1)
  }

  lemma {:induction false} UndoneAfter(b: seq<byte>, rk: seq<byte>, r: nat)
    requires |b| == 16 && |rk| == ROUND_KEY_SIZE && r < NR
    ensures Undone(Shifted(Substituted(After(b, rk, r))), rk, r) == b
  {
    var s := After(b, rk, r);
    hide XorBlock; hide Substituted; hide InvSubstituted; hide Shifted; hide InvShifted; hide Mixed;
    ShiftedInverse(Substituted(s));
    SubstitutedInverse(s);
    if r == 0 {
      XorBlockTwice(b, RoundKey(rk, 0));
    } else {
      var t := Shifted(Substituted(After(b, rk, r - 1)));
      XorBlockTwice(Mixed(t, MIX), RoundKey(rk, r));
      MixedInverse(t);
      UndoneAfter(b, rk, r - 1);
    }
  }

  lemma {:induction false} AfterUndone(s: seq<byte>, rk: seq<byte>, r: nat)
    requires |s| == 16 && |rk| == ROUND_KEY_SIZE && r < NR
    ensures Shifted(Substituted(After(Undone(s, rk, r), rk, r))) == s
    decreases r
  {
    hide XorBlock; hide Substituted; hide InvSubstituted; hide Shifted; hide InvShifted; hide Mixed;
    var u := InvSubstituted(InvShifted(s));
    var t := XorBlock(u, RoundKey(rk, r));
    SubstitutedInverse(InvShifted(s));
    ShiftedInverse(s);
    XorBlockTwice(u, RoundKey(rk, r));
    if r > 0 {
      AfterUndone(Mixed(t, INV_MIX), rk, r - 1);
      MixedInverse(t);
    }
  }

  /** For every block and every array of round keys, whether or not a key expands to it. */
  lemma CipherInverse(b: seq<byte>, rk: seq<byte>)
    requires |b| == 16 && |rk| == ROUND_KEY_SIZE
    ensures InvCipherOf(CipherOf(b, rk), rk) == b
    ensures CipherOf(InvCipherOf(b, rk), rk) == b
  {
    hide After; hide Undone; hide XorBlock; hide Shifted; hide Substituted;
    UndoneAfter(b, rk, NR - 1);
    AfterUndone(XorBlock(b, RoundKey(rk, NR)), rk, NR - 1);
    XorBlockTwice(Shifted(Substituted(After(b, rk, NR - 1))), RoundKey(rk, NR));
    XorBlockTwice(b, RoundKey(rk, NR));
  }
}
