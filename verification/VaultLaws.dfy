/** The two forms of the saved login, byte by byte. */
module VaultLaws {
  import opened AesKeys
  import opened Bits
  import opened Cbc
  import opened Crc32
  import opened Vault

  /** Four letters and the version number 1. */
  ghost predicate BeginsWith(f: seq<byte>, a: char, b: char, c: char, d: char) {
    && |f| >= 8 && f[0] as char == a && f[1] as char == b && f[2] as char == c && f[3] as char == d
    && f[4] == f[5] == f[6] == 0 && f[7] == 1
  }

  /** From byte p on there are the text of s and then NULs, as many bytes as s has. */
  ghost predicate HoldsText(f: seq<byte>, p: nat, s: seq<byte>) {
    && p + |s| <= |f|
    && forall i: nat | i < |s| :: f[p + i] == if i < StrLen(s) then s[i] else 0
  }

  /** From byte p on there is the number v, its highest byte first. */
  ghost predicate HoldsNumber(f: seq<byte>, p: nat, v: nat) {
    && p + 4 <= |f|
    && var a: nat, b: nat, c: nat, d: nat := f[p], f[p + 1], f[p + 2], f[p + 3];
       v == 0x1000000 * a + 0x10000 * b + 0x100 * c + d
  }

  lemma HeaderBytes()
    ensures Be32(DEC_HDR) == [0x43, 0x44, 0x53, 0x54] && Be32(ENC_HDR) == [0x43, 0x53, 0x54, 0x45] && Be32(1) == [0, 0, 0, 1]
  {
  }

  lemma NumberBytes(f: seq<byte>, p: nat, v: word)
    requires p + 4 <= |f| && f[p..p + 4] == Be32(v)
    ensures HoldsNumber(f, p, v)
  {
    LoadBe32(f, p, v);
    hide Be32;
  }

  lemma CopiedText(f: seq<byte>, p: nat, s: seq<byte>)
    requires p + |s| <= |f| && f[p..p + |s|] == Copied(s)
    ensures HoldsText(f, p, s)
  {
    CopiedIs(s);
    hide Copied; hide StrLen;
    forall i: nat | i < |s| ensures f[p + i] == if i < StrLen(s) then s[i] else 0 {
      assert f[p + i] == f[p..p + |s|][i];
    }
  }

  lemma Pieces<T>(a: seq<T>, b: seq<T>, c: seq<T>, d: seq<T>, e: seq<T>, f: seq<T>)
    requires |a| == |b| == 4 && |c| == 8 && |d| == 128 && |e| == |f| == 1024
    ensures var r := a + b + c + d + e + f;
            && |r| == 2192 && r[0..4] == a && r[4..8] == b && r[8..16] == c
            && r[16..144] == d && r[144..1168] == e && r[1168..2192] == f
  {
  }

  lemma FirstEight(f: seq<byte>, a: byte, b: byte, c: byte, d: byte)
    requires |f| >= 8 && f[0..4] == [a, b, c, d] && f[4..8] == [0, 0, 0, 1]
    ensures f[0] == a && f[1] == b && f[2] == c && f[3] == d && f[4] == f[5] == f[6] == 0 && f[7] == 1
  {
    assert f[0] == f[0..4][0] && f[1] == f[0..4][1] && f[2] == f[0..4][2] && f[3] == f[0..4][3];
    assert f[4] == f[4..8][0] && f[5] == f[4..8][1] && f[6] == f[4..8][2] && f[7] == f[4..8][3];
  }

  /** Without encryption: CDST and the version, eight bytes of padding, and the three strings. */
  lemma PlainLayout(l: Login, align: seq<byte>, iv: seq<byte>, digest: seq<byte>)
    requires l.Valid() && |align| == 8 && |iv| == 16 && |digest| == 20
    ensures DIGEST_SIZE == 20
    ensures var f := Saved(l, align, iv, digest, false);
            && |f| == 2192 && BeginsWith(f, 'C', 'D', 'S', 'T') && f[8..16] == align
            && HoldsText(f, 16, l.name) && HoldsText(f, 144, l.token) && HoldsText(f, 1168, l.guard)
  {
    var f := Saved(l, align, iv, digest, false);
    assert f == Record(align, Login(Copied(l.name), Copied(l.token), Copied(l.guard)));
    hide *;
    Sizes(l);
    RecordIs(align, Login(Copied(l.name), Copied(l.token), Copied(l.guard)));
    HeaderBytes();
    Pieces(Be32(DEC_HDR), Be32(1), align, Copied(l.name), Copied(l.token), Copied(l.guard));
    FirstEight(f, 0x43, 0x44, 0x53, 0x54);
    BeginsIs(f);
    CopiedText(f, 16, l.name); CopiedText(f, 144, l.token); CopiedText(f, 1168, l.guard);
  }

  lemma Sizes(l: Login)
    requires l.Valid()
    ensures |l.name| == 128 && |l.token| == |l.guard| == 1024 && DIGEST_SIZE == 20 && DEC_SIZE == 2192 && ENC_SIZE == 2224
    ensures Login(Copied(l.name), Copied(l.token), Copied(l.guard)).Valid()
  {
    hide Copied;
  }

  lemma BeginsIs(f: seq<byte>)
    requires |f| >= 8 && f[4] == f[5] == f[6] == 0 && f[7] == 1
    ensures f[0] == 0x43 && f[1] == 0x44 && f[2] == 0x53 && f[3] == 0x54 ==> BeginsWith(f, 'C', 'D', 'S', 'T')
    ensures f[0] == 0x43 && f[1] == 0x53 && f[2] == 0x54 && f[3] == 0x45 ==> BeginsWith(f, 'C', 'S', 'T', 'E')
  {
  }

  lemma SevenPieces<T>(a: seq<T>, b: seq<T>, c: seq<T>, d: seq<T>, e: seq<T>, f: seq<T>)
    requires |a| == |b| == |c| == |d| == 4 && |e| == 16 && |f| == 2192
    ensures var r := a + b + c + d + e + f;
            && |r| == 2224 && r[0..4] == a && r[4..8] == b && r[8..8 + 4] == c && r[12..12 + 4] == d && r[16..32] == e && r[32..] == f
  {
  }

  lemma SealedIs(plain: seq<byte>, iv: seq<byte>, digest: seq<byte>)
    requires |plain| == 2192 && |iv| == 16 && |digest| == 20
    ensures DIGEST_SIZE == 20 && |digest[4..]| == 16
    ensures Sealed(plain, iv, digest)
            == Be32(ENC_HDR) + Be32(1) + Be32(InfoHash(digest)) + Be32(Crc(plain)) + iv + Encrypted(plain, iv, Expansion(digest[4..]))
    ensures InfoHash(digest) == Checksum(0, digest) && Crc(plain) == Checksum(0, plain)
  {
    hide Be32; hide Encrypted; hide Expansion; hide Checksum;
  }

  /**
   With encryption: CSTE and the version, the checksums of the digest and of the plain form, the vector, and the plain
   form encrypted with the last sixteen bytes of the digest as key.
   */
  lemma SealedLayout(l: Login, align: seq<byte>, iv: seq<byte>, digest: seq<byte>)
    requires l.Valid() && |align| == 8 && |iv| == 16 && |digest| == 20
    ensures DIGEST_SIZE == 20 && |digest[4..]| == 16
    ensures var f, plain := Saved(l, align, iv, digest, true), Saved(l, align, iv, digest, false);
            && |f| == 2224 && |plain| == 2192 && BeginsWith(f, 'C', 'S', 'T', 'E')
            && HoldsNumber(f, 8, Checksum(0, digest)) && HoldsNumber(f, 12, Checksum(0, plain)) && f[16..32] == iv
            && f[32..] == Encrypted(plain, iv, Expansion(digest[4..]))
            && Decrypted(f[32..], iv, Expansion(digest[4..])) == plain
  {
    var f, plain := Saved(l, align, iv, digest, true), Saved(l, align, iv, digest, false);
    assert f == Sealed(plain, iv, digest);
    hide *;
    PlainLayout(l, align, iv, digest);
    SealedIs(plain, iv, digest);
    HeaderBytes();
    BlockIs();
    SevenPieces(Be32(ENC_HDR), Be32(1), Be32(InfoHash(digest)), Be32(Crc(plain)), iv, Encrypted(plain, iv, Expansion(digest[4..])));
    FirstEight(f, 0x43, 0x53, 0x54, 0x45);
    BeginsIs(f);
    NumberBytes(f, 8, InfoHash(digest)); NumberBytes(f, 12, Crc(plain));
    DecryptedEncrypted(plain, iv, Expansion(digest[4..]));
  }

  lemma BlockIs()
    ensures BLOCKLEN == 16 && 2192 % 16 == 0
  {
  }

  /** What is hashed: four bytes of the user's number, sixteen of the console's identifier, and twelve bytes 0x22. */
  lemma MaterialLayout(id: seq<byte>, psid: seq<byte>, i: nat)
    requires |id| == 4 && |psid| == 16 && i < 32
    ensures KeyMaterial(id, psid)[i] == if i < 4 then id[i] else if i < 20 then psid[i - 4] else 0x22
  {
  }
}
