/** AES in cipher block chaining mode, on a buffer of any number of blocks. */
module Cbc {
  import opened Aes
  import opened AesKeys
  import opened AesState
  import opened Bits

  const BLOCKLEN := 16

  /** Section 6.2 of NIST SP 800-38A. */
  function Encrypted(s: seq<byte>, iv: seq<byte>, k: seq<byte>): (r: seq<byte>)
    requires |s| % BLOCKLEN == 0 && |iv| == BLOCKLEN && |k| == ROUND_KEY_SIZE
    ensures |r| == |s|
  {
    if s == [] then []
    else
      var c := CipherOf(XorBlock(s[..BLOCKLEN], iv), k);
      c + Encrypted(s[BLOCKLEN..], c, k)
  }

  function Decrypted(s: seq<byte>, iv: seq<byte>, k: seq<byte>): (r: seq<byte>)
    requires |s| % BLOCKLEN == 0 && |iv| == BLOCKLEN && |k| == ROUND_KEY_SIZE
    ensures |r| == |s|
  {
    if s == [] then []
    else XorBlock(InvCipherOf(s[..BLOCKLEN], k), iv) + Decrypted(s[BLOCKLEN..], s[..BLOCKLEN], k)
  }

  /** What is chained into the block after ciphertext c. */
  function Chain(c: seq<byte>, iv: seq<byte>): (r: seq<byte>)
    requires |c| % BLOCKLEN == 0 && |iv| == BLOCKLEN
    ensures |r| == BLOCKLEN
  {
    if c == [] then iv else c[|c| - BLOCKLEN..]
  }

  lemma {:induction false} DecryptedEncrypted(s: seq<byte>, iv: seq<byte>, k: seq<byte>)
    requires |s| % BLOCKLEN == 0 && |iv| == BLOCKLEN && |k| == ROUND_KEY_SIZE
    ensures Decrypted(Encrypted(s, iv, k), iv, k) == s
  {
    hide CipherOf; hide InvCipherOf; hide XorBlock;
    if s != [] {
      var b := XorBlock(s[..BLOCKLEN], iv);
      var c := CipherOf(b, k);
      CipherInverse(b, k);
      XorBlockTwice(s[..BLOCKLEN], iv);
      DecryptedEncrypted(s[BLOCKLEN..], c, k);
      assert (c + Encrypted(s[BLOCKLEN..], c, k))[..BLOCKLEN] == c;
    }
  }

  lemma {:induction false} EncryptedDecrypted(c: seq<byte>, iv: seq<byte>, k: seq<byte>)
    requires |c| % BLOCKLEN == 0 && |iv| == BLOCKLEN && |k| == ROUND_KEY_SIZE
    ensures Encrypted(Decrypted(c, iv, k), iv, k) == c
  {
    hide CipherOf; hide InvCipherOf; hide XorBlock;
    if c != [] {
      var b := InvCipherOf(c[..BLOCKLEN], k);
      CipherInverse(c[..BLOCKLEN], k);
      XorBlockTwice(b, iv);
      EncryptedDecrypted(c[BLOCKLEN..], c[..BLOCKLEN], k);
      assert (XorBlock(b, iv) + Decrypted(c[BLOCKLEN..], c[..BLOCKLEN], k))[..BLOCKLEN] == XorBlock(b, iv);
    }
  }

  /** Encrypting s and then t on one context is encrypting their concatenation. */
  lemma {:induction false} EncryptedConcat(s: seq<byte>, t: seq<byte>, iv: seq<byte>, k: seq<byte>)
    requires |s| % BLOCKLEN == 0 && |t| % BLOCKLEN == 0 && |iv| == BLOCKLEN && |k| == ROUND_KEY_SIZE
    ensures Encrypted(s + t, iv, k) == Encrypted(s, iv, k) + Encrypted(t, Chain(Encrypted(s, iv, k), iv), k)
    ensures Chain(Encrypted(s + t, iv, k), iv)
            == Chain(Encrypted(t, Chain(Encrypted(s, iv, k), iv), k), Chain(Encrypted(s, iv, k), iv))
  {
    hide CipherOf; hide XorBlock;
    if s == [] {
      assert s + t == t;
    } else {
      var c := CipherOf(XorBlock(s[..BLOCKLEN], iv), k);
      var rest := s[BLOCKLEN..];
      EncryptedConcat(rest, t, c, k);
      assert (s + t)[..BLOCKLEN] == s[..BLOCKLEN] && (s + t)[BLOCKLEN..] == rest + t;
      ChainAfter(c, Encrypted(rest, c, k), iv);
      ChainAfter(c, Encrypted(rest + t, c, k), iv);
    }
  }

  lemma ChainAfter(c: seq<byte>, d: seq<byte>, iv: seq<byte>)
    requires |c| == |iv| == BLOCKLEN && |d| % BLOCKLEN == 0
    ensures Chain(c + d, iv) == Chain(d, c)
  {
  }

  lemma {:induction false} DecryptedConcat(s: seq<byte>, t: seq<byte>, iv: seq<byte>, k: seq<byte>)
    requires |s| % BLOCKLEN == 0 && |t| % BLOCKLEN == 0 && |iv| == BLOCKLEN && |k| == ROUND_KEY_SIZE
    ensures Decrypted(s + t, iv, k) == Decrypted(s, iv, k) + Decrypted(t, Chain(s, iv), k)
  {
    hide InvCipherOf; hide XorBlock;
    if s == [] {
      assert s + t == t;
    } else {
      var c, rest := s[..BLOCKLEN], s[BLOCKLEN..];
      DecryptedConcat(rest, t, c, k);
      assert (s + t)[..BLOCKLEN] == c && (s + t)[BLOCKLEN..] == rest + t;
      ChainAfter(c, rest, iv);
      assert c + rest == s;
    }
  }

  // ---- in place ----

  /** The buffer s with done written from place `start` on. */
  function Patched(s: seq<byte>, start: nat, done: seq<byte>): (r: seq<byte>)
    requires start + |done| <= |s|
    ensures |r| == |s|
  {
    s[..start] + done + s[start + |done|..]
  }

  /** The next block of a buffer that has been rewritten up to it is still the old one. */
  lemma PatchedNext(s: seq<byte>, start: nat, done: seq<byte>, b: seq<byte>)
    requires start + |done| + 16 <= |s| && |b| == 16
    ensures Block(Patched(s, start, done), start + |done|) == Block(s, start + |done|)
    ensures Splice(Patched(s, start, done), start + |done|, b) == Patched(s, start, done + b)
  {
    var q := start + |done|;
    assert Patched(s, start, done)[q..] == s[q..];
    assert Patched(s, start, done)[..q] == s[..start] + done;
    assert Patched(s, start, done)[q + 16..] == s[q + 16..];
    assert Patched(s, start, done)[q..q + 16] == s[q..q + 16];
    assert s[..start] + done + b + s[q + 16..] == s[..start] + (done + b) + s[q + 16..];
  }

  lemma PatchedEnds(s: seq<byte>, start: nat, done: seq<byte>)
    requires start + |done| <= |s|
    ensures Patched(s, start, []) == s
    ensures |done| >= 16 ==> Block(Patched(s, start, done), start + |done| - 16) == done[|done| - 16..]
  {
  }

  lemma SpliceBelow(s: seq<byte>, p: nat, b: seq<byte>, q: nat)
    requires p + 16 <= |s| && |b| == 16 && q + 16 <= p
    ensures Block(Splice(s, p, b), q) == Block(s, q)
  {
  }

  /** XorWithIv; iv may be an earlier block of the same buffer. */
  method XorWithIv(buf: array<byte>, p: nat, iv: array<byte>, q: nat)
    requires p + 16 <= buf.Length && q + 16 <= iv.Length && (iv != buf || q + 16 <= p)
    modifies buf
    ensures buf[..] == Splice(old(buf[..]), p, XorBlock(Block(old(buf[..]), p), Block(old(iv[..]), q)))
  {
    hide *;
    ghost var s, v := buf[..], Block(iv[..], q);
    ghost var b := Block(s, p);
    ghost var c := XorBlock(b, v);
    XorBlockAt(b, v);
    BlockAt(iv[..], q);
    SpliceLaws(s, p, b, c);
    UpToEnds(b, c);
    for i := 0 to 16
      invariant buf[..] == Splice(s, p, UpTo(b, c, i))
    {
      UpToNext(b, c, i);
      SpliceAt(s, p, UpTo(b, c, i), i, c[i]);
      if iv == buf {
        SpliceBelow(s, p, UpTo(b, c, i), q);
        BlockAt(buf[..], q);
      }
      buf[p + i] := XorB(buf[p + i], iv[q + i]);
    }
  }

  lemma XorBlockAt(b: seq<byte>, v: seq<byte>)
    requires |b| == |v| == 16
    ensures forall i: nat | i < 16 :: XorBlock(b, v)[i] == XorB(b[i], v[i])
  {
  }

  lemma BlockAt(s: seq<byte>, p: nat)
    requires p + 16 <= |s|
    ensures forall i: nat | i < 16 :: s[p + i] == Block(s, p)[i]
  {
  }

  /** One more block of the buffer s, n bytes from place `start` on having been done. */
  lemma OneMoreBlock(s: seq<byte>, start: nat, n: nat, iv: seq<byte>, k: seq<byte>)
    requires start + n + 16 <= |s| && n % BLOCKLEN == 0 && |iv| == BLOCKLEN && |k| == ROUND_KEY_SIZE
    ensures (n + 16) % BLOCKLEN == 0
    ensures var done := Encrypted(s[start..start + n], iv, k);
            var c := CipherOf(XorBlock(Block(s, start + n), Chain(done, iv)), k);
            && Encrypted(s[start..start + n + 16], iv, k) == done + c
            && Chain(done + c, iv) == c
    ensures var done := Decrypted(s[start..start + n], iv, k);
            var b := XorBlock(InvCipherOf(Block(s, start + n), k), Chain(s[start..start + n], iv));
            && Decrypted(s[start..start + n + 16], iv, k) == done + b
            && Chain(s[start..start + n + 16], iv) == Block(s, start + n)
  {
    hide *;
    Sixteen(n);
    var a, t := s[start..start + n], Block(s, start + n);
    NextSlice(s, start, n);
    EncryptedConcat(a, t, iv, k);
    DecryptedConcat(a, t, iv, k);
    SingleBlock(t, Chain(Encrypted(a, iv, k), iv), k);
    SingleBlock(t, Chain(a, iv), k);
    ChainOne(a, t, iv);
    ChainOne(Encrypted(a, iv, k), CipherOf(XorBlock(t, Chain(Encrypted(a, iv, k), iv)), k), iv);
  }

  lemma Sixteen(n: nat)
    requires n % BLOCKLEN == 0
    ensures BLOCKLEN == 16 && (n + 16) % BLOCKLEN == 0
  {
  }

  lemma NextSlice(s: seq<byte>, start: nat, n: nat)
    requires start + n + 16 <= |s|
    ensures s[start..start + n + 16] == s[start..start + n] + Block(s, start + n)
  {
  }

  lemma ChainOne(a: seq<byte>, t: seq<byte>, iv: seq<byte>)
    requires |a| % BLOCKLEN == 0 && |t| == |iv| == BLOCKLEN
    ensures Chain(a + t, iv) == t
  {
  }

  lemma SingleBlock(t: seq<byte>, iv: seq<byte>, k: seq<byte>)
    requires |t| == |iv| == 16 && |k| == ROUND_KEY_SIZE
    ensures Encrypted(t, iv, k) == CipherOf(XorBlock(t, iv), k)
    ensures Decrypted(t, iv, k) == XorBlock(InvCipherOf(t, k), iv)
  {
    hide CipherOf; hide InvCipherOf; hide XorBlock;
    assert t[16..] == [] && t[..16] == t;
  }

  /** struct AES_ctx. */
  class AesContext {
    const roundKey: array<byte>
    const iv: array<byte>

    ghost predicate Valid()
    {
      roundKey.Length == ROUND_KEY_SIZE && iv.Length == BLOCKLEN && roundKey != iv
    }

    /** AES_init_ctx_iv. */
    constructor (key: array<byte>, start: array<byte>, q: nat)
      requires key.Length == 16 && q + 16 <= start.Length
      ensures Valid() && fresh(roundKey) && fresh(iv)
      ensures roundKey[..] == Expansion(key[..]) && iv[..] == Block(start[..], q)
    {
      roundKey := new byte[ROUND_KEY_SIZE](_ => 0);
      iv := new byte[BLOCKLEN](_ => 0);
      new;
      hide *;
      KeyExpansion(roundKey, key);
      ExpandedIs(roundKey[..], key[..]);
      Copy(iv, start, q);
    }

    lemma Shape()
      requires Valid()
      ensures roundKey.Length == ROUND_KEY_SIZE == 176 && iv.Length == BLOCKLEN == 16 && roundKey != iv
    {
    }

    /** AES_CBC_encrypt_buffer: Iv points into the context for the first block, and into the buffer from then on. */
    method EncryptBuffer(buf: array<byte>, start: nat, length: nat)
      requires Valid() && buf != roundKey && buf != iv
      requires length % BLOCKLEN == 0 && start + length <= buf.Length
      modifies buf, iv
      ensures var c := Encrypted(old(buf[start..start + length]), old(iv[..]), roundKey[..]);
              buf[..] == Patched(old(buf[..]), start, c) && iv[..] == Chain(c, old(iv[..]))
    {
      hide *;
      Shape();
      ghost var s, v, k := buf[..], iv[..], roundKey[..];
      EncryptedNone(s, start, v, k);
      var p, q, from := start, 0, iv;
      ghost var done := Encrypted(s[start..start + 0], v, k);
      for i := 0 to length / 16
        invariant p == start + 16 * i <= start + length && (p - start) % BLOCKLEN == 0
        invariant from == if i == 0 then iv else buf
        invariant q == if i == 0 then 0 else p - 16
        invariant iv[..] == v
        invariant done == Encrypted(s[start..p], v, k) && buf[..] == Patched(s, start, done)
        invariant Block(from[..], q) == Chain(done, v)
      {
        ghost var c := CipherOf(XorBlock(Block(s, p), Chain(done, v)), k);
        EncryptedNext(s, start, p - start, v, k, done, c);
        EncryptBlock(buf, p, from, q, roundKey);
        from, q := buf, p;
        p := p + 16;
        done := done + c;
      }
      Copy(iv, from, q);
    }

    /** AES_CBC_decrypt_buffer. */
    method DecryptBuffer(buf: array<byte>, start: nat, length: nat)
      requires Valid() && buf != roundKey && buf != iv
      requires length % BLOCKLEN == 0 && start + length <= buf.Length
      modifies buf, iv
      ensures var c := old(buf[start..start + length]);
              && buf[..] == Patched(old(buf[..]), start, Decrypted(c, old(iv[..]), roundKey[..]))
              && iv[..] == Chain(c, old(iv[..]))
    {
      hide *;
      Shape();
      ghost var s, v, k := buf[..], iv[..], roundKey[..];
      EncryptedNone(s, start, v, k);
      var p := start;
      var storeNextIv := new byte[16](_ => 0);
      ghost var done := Decrypted(s[start..start + 0], v, k);
      for i := 0 to length / 16
        invariant p == start + 16 * i <= start + length
        invariant done == Decrypted(s[start..p], v, k) && buf[..] == Patched(s, start, done)
        invariant iv[..] == Chain(s[start..p], v)
      {
        OneMoreBlock(s, start, 16 * i, v, k);
        ghost var b := XorBlock(InvCipherOf(Block(s, p), k), iv[..]);
        PatchedNext(s, start, done, b);
        Copy(storeNextIv, buf, p);
        DecryptBlock(buf, p, iv, roundKey);
        WholeBlock(storeNextIv[..]);
        Copy(iv, storeNextIv, 0);
        p := p + 16;
        done := done + b;
      }
    }
  }

  /** One turn of the loop of AES_CBC_encrypt_buffer. */
  method EncryptBlock(buf: array<byte>, p: nat, iv: array<byte>, q: nat, rk: array<byte>)
    requires p + 16 <= buf.Length && q + 16 <= iv.Length && (iv != buf || q + 16 <= p)
    requires rk.Length == ROUND_KEY_SIZE && buf != rk
    modifies buf
    ensures buf[..] == Splice(old(buf[..]), p, CipherOf(XorBlock(Block(old(buf[..]), p), Block(old(iv[..]), q)), rk[..]))
  {
    hide *;
    ghost var s, x := buf[..], XorBlock(Block(buf[..], p), Block(iv[..], q));
    SpliceLaws(s, p, x, CipherOf(x, rk[..]));
    XorWithIv(buf, p, iv, q);
    Cipher(buf, p, rk);
  }

  /** The deciphering in a turn of the loop of AES_CBC_decrypt_buffer. */
  method DecryptBlock(buf: array<byte>, p: nat, iv: array<byte>, rk: array<byte>)
    requires p + 16 <= buf.Length && iv.Length == 16 && iv != buf && rk.Length == ROUND_KEY_SIZE && buf != rk
    modifies buf
    ensures buf[..] == Splice(old(buf[..]), p, XorBlock(InvCipherOf(Block(old(buf[..]), p), rk[..]), iv[..]))
  {
    hide *;
    ghost var s, x := buf[..], InvCipherOf(Block(buf[..], p), rk[..]);
    SpliceLaws(s, p, x, XorBlock(x, iv[..]));
    WholeBlock(iv[..]);
    InvCipher(buf, p, rk);
    XorWithIv(buf, p, iv, 0);
  }

  lemma WholeBlock(s: seq<byte>)
    requires |s| == 16
    ensures Block(s, 0) == s
  {
  }

  /** What one turn of the encrypting loop needs to know. */
  lemma EncryptedNext(s: seq<byte>, start: nat, n: nat, v: seq<byte>, k: seq<byte>, done: seq<byte>, c: seq<byte>)
    requires start + n + 16 <= |s| && |v| == BLOCKLEN && |k| == ROUND_KEY_SIZE
    requires n % BLOCKLEN == 0 && done == Encrypted(s[start..start + n], v, k)
    requires c == CipherOf(XorBlock(Block(s, start + n), Chain(done, v)), k)
    ensures (n + 16) % BLOCKLEN == 0 && |done| == n && |c| == 16
    ensures done + c == Encrypted(s[start..start + n + 16], v, k) && Chain(done + c, v) == c
    ensures Block(Patched(s, start, done), start + n) == Block(s, start + n)
    ensures Splice(Patched(s, start, done), start + n, c) == Patched(s, start, done + c)
    ensures Block(Patched(s, start, done + c), start + n) == c
  {
    hide *;
    OneMoreBlock(s, start, n, v, k);
    PatchedNext(s, start, done, c);
    PatchedEnds(s, start, done + c);
  }

  lemma EncryptedNone(s: seq<byte>, start: nat, iv: seq<byte>, k: seq<byte>)
    requires start <= |s| && |iv| == BLOCKLEN && |k| == ROUND_KEY_SIZE
    ensures BLOCKLEN == 16
    ensures Encrypted(s[start..start + 0], iv, k) == [] && Decrypted(s[start..start + 0], iv, k) == []
    ensures Chain([], iv) == iv && Block(iv, 0) == iv && Patched(s, start, []) == s
  {
  }

  /** memcpy of one block into an array of one block. */
  method Copy(to: array<byte>, from: array<byte>, q: nat)
    requires to.Length == 16 && q + 16 <= from.Length && (from != to || q == 0)
    modifies to
    ensures to[..] == Block(old(from[..]), q)
  {
    forall i | 0 <= i < 16 {
      to[i] := from[q + i];
    }
  }

  /**
   The law of the pair: with the same key and starting vector, decrypting what was encrypted restores the
   buffer, and both contexts end with the same vector.
   */
  lemma BufferRestored(s: seq<byte>, start: nat, length: nat, iv: seq<byte>, k: seq<byte>)
    requires start + length <= |s| && length % BLOCKLEN == 0 && |iv| == BLOCKLEN && |k| == ROUND_KEY_SIZE
    ensures var c := Encrypted(s[start..start + length], iv, k);
            var t := Patched(s, start, c);
            && t[start..start + length] == c
            && Patched(t, start, Decrypted(t[start..start + length], iv, k)) == s
            && Chain(t[start..start + length], iv) == Chain(c, iv)
            && Chain(c, iv) == if length == 0 then iv else t[start + length - BLOCKLEN..start + length]
  {
    hide *;
    var p := s[start..start + length];
    var c := Encrypted(p, iv, k);
    DecryptedEncrypted(p, iv, k);
    PatchedBack(s, start, c, p);
    ChainIs(c, iv);
    TailOf(Patched(s, start, c), start, length, c);
  }

  lemma ChainIs(c: seq<byte>, iv: seq<byte>)
    requires |c| % BLOCKLEN == 0 && |iv| == BLOCKLEN
    ensures BLOCKLEN == 16 && (c != [] ==> |c| >= 16)
    ensures Chain(c, iv) == if c == [] then iv else c[|c| - BLOCKLEN..]
  {
  }

  lemma TailOf<T>(t: seq<T>, start: nat, length: nat, c: seq<T>)
    requires start + length <= |t| && t[start..start + length] == c
    ensures length >= 16 ==> t[start + length - 16..start + length] == c[|c| - 16..]
  {
  }

  /** Rewriting a region and then writing back what it held. */
  lemma PatchedBack(s: seq<byte>, start: nat, c: seq<byte>, p: seq<byte>)
    requires start + |c| <= |s| && p == s[start..start + |c|]
    ensures Patched(s, start, c)[start..start + |c|] == c
    ensures Patched(Patched(s, start, c), start, p) == s
  {
  }
}
