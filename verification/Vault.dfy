/** The saved login: its two file forms, saving and loading. */
module Vault {
  import opened AesKeys
  import opened Bits
  import opened Cbc
  import opened Crc32
  import opened Wrappers

  const DEC_HDR: word := 0x43445354
  const ENC_HDR: word := 0x43535445

  const NAME_SIZE := 128
  const TOKEN_SIZE := 1024

  // ---- strings in buffers of fixed size ----

  /** The length of the string in s: up to the first NUL, or all of s. */
  function StrLen(s: seq<byte>): (n: nat)
    ensures n <= |s|
  {
    if s == [] || s[0] == 0 then 0 else 1 + StrLen(s[1..])
  }

  lemma {:induction false} StrLenIs(s: seq<byte>, k: nat)
    requires k <= |s|
    ensures k == StrLen(s) <==> (forall j :: 0 <= j < k ==> s[j] != 0) && (k == |s| || s[k] == 0)
  {
    if s != [] && s[0] != 0 && k > 0 {
      StrLenIs(s[1..], k - 1);
      assert forall j :: 0 <= j < k - 1 ==> s[1..][j] == s[j + 1];
      assert (forall j :: 0 <= j < k ==> s[j] != 0) <==> (forall j :: 0 <= j < k - 1 ==> s[1..][j] != 0);
    }
  }

  function Text(s: seq<byte>): seq<byte> { s[..StrLen(s)] }

  /** The string is terminated inside its buffer. */
  predicate Terminated(s: seq<byte>) { StrLen(s) < |s| }

  /** What strncpy makes of a buffer of the same size as s. */
  function Copied(s: seq<byte>): (r: seq<byte>)
    ensures |r| == |s|
  {
    Text(s) + Zeros(|s| - StrLen(s))
  }

  /** The buffer with its last byte cleared. */
  function Cut(s: seq<byte>): (r: seq<byte>)
    requires s != []
    ensures |r| == |s|
  {
    s[|s| - 1 := 0]
  }

  lemma CopiedText(s: seq<byte>)
    ensures StrLen(Copied(s)) == StrLen(s) && Text(Copied(s)) == Text(s)
  {
    StrLenIs(s, StrLen(s));
    StrLenIs(Copied(s), StrLen(s));
  }

  lemma CutText(s: seq<byte>)
    requires s != []
    ensures Text(Cut(s)) == if Terminated(s) then Text(s) else s[..|s| - 1]
  {
    var n := if Terminated(s) then StrLen(s) else |s| - 1;
    StrLenIs(s, StrLen(s));
    StrLenIs(Cut(s), n);
  }

  /** A string that is saved and loaded comes back exactly when it was terminated. */
  lemma StringRestored(s: seq<byte>)
    requires s != []
    ensures Text(Copied(Cut(Copied(s)))) == Text(s) <==> Terminated(s)
    ensures !Terminated(s) ==> Text(Copied(Cut(Copied(s)))) == s[..|s| - 1]
  {
    CopiedText(s);
    CutText(Copied(s));
    CopiedText(Cut(Copied(s)));
    if !Terminated(s) {
      assert Copied(s) == s;
    }
  }

  /** strncpy between buffers of n bytes. */
  method StrNCpy(dst: array<byte>, dp: nat, src: array<byte>, sp: nat, n: nat)
    requires dp + n <= dst.Length && sp + n <= src.Length && dst != src
    modifies dst
    ensures dst[..] == Patched(old(dst[..]), dp, Copied(src[sp..sp + n]))
  {
    hide *;
    ghost var d, s := dst[..], src[sp..sp + n];
    var k := 0;
    CopyStart(d, dp, s);
    while k < n && src[sp + k] != 0
      invariant k <= n
      invariant forall j :: 0 <= j < k ==> s[j] != 0
      invariant dst[..] == Patched(d, dp, s[..k])
    {
      Poke(d, dp, s[..k], src[sp + k]);
      assert s[..k] + [src[sp + k]] == s[..k + 1];
      dst[dp + k] := src[sp + k];
      k := k + 1;
    }
    StrLenIs(s, k);
    CopiedIs(s);
    NoNuls(s[..k]);
    var z := k;
    while z < n
      invariant k <= z <= n
      invariant dst[..] == Patched(d, dp, s[..k] + Zeros(z - k))
    {
      Poke(d, dp, s[..k] + Zeros(z - k), 0);
      MoreNuls(s[..k], z - k);
      dst[dp + z] := 0;
      z := z + 1;
    }
  }

  lemma CopyStart(d: seq<byte>, p: nat, s: seq<byte>)
    requires p <= |d|
    ensures Patched(d, p, s[..0]) == d
  {
  }

  lemma NoNuls(s: seq<byte>)
    ensures s + Zeros(0) == s
  {
  }

  lemma Poke(d: seq<byte>, p: nat, done: seq<byte>, v: byte)
    requires p + |done| < |d|
    ensures Patched(d, p, done)[p + |done| := v] == Patched(d, p, done + [v])
  {
  }

  lemma MoreNuls(s: seq<byte>, n: nat)
    ensures s + Zeros(n) + [0] == s + Zeros(n + 1)
  {
  }

  lemma CopiedIs(s: seq<byte>)
    ensures Copied(s) == s[..StrLen(s)] + Zeros(|s| - StrLen(s))
  {
  }

  // ---- 32-bit numbers in a file, high byte first as the console stores them ----

  function Be32(v: word): (r: seq<byte>)
    ensures |r| == 4
  {
    [v / 256 / 256 / 256, v / 256 / 256 % 256, v / 256 % 256, v % 256]
  }

  function Load32(s: seq<byte>, p: nat): word
    requires p + 4 <= |s|
  {
    Join(s[p], s[p + 1], s[p + 2], s[p + 3])
  }

  function Join(a: nat, b: nat, c: nat, d: nat): (r: nat)
    ensures a < 256 && b < 256 && c < 256 && d < 256 ==> r < 0x1_0000_0000
  {
    ((a * 256 + b) * 256 + c) * 256 + d
  }

  lemma LoadBe32(s: seq<byte>, p: nat, v: word)
    requires p + 4 <= |s|
    ensures Load32(s, p) == v <==> s[p..p + 4] == Be32(v)
  {
    Digits(s[p], s[p + 1], s[p + 2], s[p + 3], v);
    hide Join;
    SameFour(s[p..p + 4], Be32(v));
  }

  lemma Digits(a: byte, b: byte, c: byte, d: byte, v: word)
    ensures Join(a, b, c, d) == v
            <==> a == v / 256 / 256 / 256 && b == v / 256 / 256 % 256 && c == v / 256 % 256 && d == v % 256
  {
  }

  lemma SameFour(s: seq<byte>, t: seq<byte>)
    requires |s| == |t| == 4
    ensures s == t <==> s[0] == t[0] && s[1] == t[1] && s[2] == t[2] && s[3] == t[3]
  {
  }

  // ---- the two forms of a record ----

  const DEC_SIZE := 2192
  const ENC_SIZE := 2224
  const DIGEST_SIZE := 20

  /** The three strings as the program holds them. */
  datatype Login = Login(name: seq<byte>, token: seq<byte>, guard: seq<byte>) {
    predicate Valid() { |name| == NAME_SIZE && |token| == TOKEN_SIZE && |guard| == TOKEN_SIZE }
  }

  /** struct cst_config_v1. */
  function Record(align: seq<byte>, l: Login): (r: seq<byte>)
    requires |align| == 8 && l.Valid()
    ensures |r| == DEC_SIZE
  {
    Be32(DEC_HDR) + Be32(1) + align + l.name + l.token + l.guard
  }

  /** Its strings. */
  function Fields(r: seq<byte>): (l: Login)
    requires |r| == DEC_SIZE
    ensures l.Valid()
  {
    Login(r[16..144], r[144..1168], r[1168..2192])
  }

  predicate IsRecord(r: seq<byte>) {
    |r| == DEC_SIZE && Load32(r, 0) == DEC_HDR && Load32(r, 4) == 1
  }

  lemma RecordParts(align: seq<byte>, l: Login)
    requires |align| == 8 && l.Valid()
    ensures IsRecord(Record(align, l)) && Fields(Record(align, l)) == l
  {
    hide *;
    var r := Record(align, l);
    RecordIs(align, l);
    SixBack(Be32(DEC_HDR), Be32(1), align, l.name, l.token, l.guard);
    LoadBe32(r, 0, DEC_HDR); LoadBe32(r, 4, 1);
    RecordAs(r);
  }

  lemma RecordIs(align: seq<byte>, l: Login)
    requires |align| == 8 && l.Valid()
    ensures Record(align, l) == Be32(DEC_HDR) + Be32(1) + align + l.name + l.token + l.guard
    ensures |l.name| == 128 && |l.token| == |l.guard| == 1024 && DEC_SIZE == 2192
  {
    hide Be32;
  }

  lemma RecordAs(r: seq<byte>)
    requires |r| == DEC_SIZE
    ensures |r| == 2192 && Fields(r) == Login(r[16..144], r[144..1168], r[1168..2192])
    ensures IsRecord(r) <==> Load32(r, 0) == DEC_HDR && Load32(r, 4) == 1
  {
    hide Load32;
  }

  lemma SixBack<T>(a: seq<T>, b: seq<T>, c: seq<T>, d: seq<T>, e: seq<T>, f: seq<T>)
    requires |a| == |b| == 4 && |c| == 8 && |d| == 128 && |e| == |f| == 1024
    ensures var r := a + b + c + d + e + f;
            && |r| == 2192 && r[0..0 + 4] == a && r[4..4 + 4] == b
            && r[16..144] == d && r[144..1168] == e && r[1168..2192] == f
  {
  }

  /** The bytes that are hashed: the user's number, the console's identifier, and filling. */
  function KeyMaterial(id: seq<byte>, psid: seq<byte>): (r: seq<byte>)
    requires |id| == 4 && |psid| == 16
    ensures |r| == 32
  {
    id + psid + seq<byte>(12, _ => 0x22)
  }

  /** What generate_encryption_key_v1 takes from the digest of the console's numbers. */
  function Key(digest: seq<byte>): (r: seq<byte>)
    requires |digest| == DIGEST_SIZE
    ensures |r| == 16
  {
    digest[4..]
  }

  function InfoHash(digest: seq<byte>): word { ChecksumIsWord(0, digest); Checksum(0, digest) }

  function Crc(plain: seq<byte>): word { ChecksumIsWord(0, plain); Checksum(0, plain) }

  /** struct cst_encrypted_config_v1. */
  function Sealed(plain: seq<byte>, iv: seq<byte>, digest: seq<byte>): (r: seq<byte>)
    requires |plain| == DEC_SIZE && |iv| == 16 && |digest| == DIGEST_SIZE
    ensures |r| == ENC_SIZE
  {
    Be32(ENC_HDR) + Be32(1) + Be32(InfoHash(digest)) + Be32(Crc(plain)) + iv
    + Encrypted(plain, iv, Expansion(Key(digest)))
  }

  /** decrypt_config_v1: None when it returns false. */
  function Unsealed(e: seq<byte>, digest: seq<byte>): Option<seq<byte>>
    requires |e| == ENC_SIZE && |digest| == DIGEST_SIZE
  {
    var plain := Decrypted(e[32..], e[16..32], Expansion(Key(digest)));
    if Load32(e, 8) == InfoHash(digest) && IsRecord(plain) && Load32(e, 12) == Crc(plain) then Some(plain) else None
  }

  lemma SealedParts(plain: seq<byte>, iv: seq<byte>, digest: seq<byte>)
    requires |plain| == DEC_SIZE && |iv| == 16 && |digest| == DIGEST_SIZE
    ensures var e := Sealed(plain, iv, digest);
            && Load32(e, 0) == ENC_HDR && Load32(e, 4) == 1
            && Load32(e, 8) == InfoHash(digest) && Load32(e, 12) == Crc(plain)
            && e[16..32] == iv && e[32..] == Encrypted(plain, iv, Expansion(Key(digest)))
  {
    hide Be32; hide Encrypted; hide Expansion; hide InfoHash; hide Crc; hide Load32;
    var e := Sealed(plain, iv, digest);
    assert e[0..4] == Be32(ENC_HDR) && e[4..8] == Be32(1);
    assert e[8..12] == Be32(InfoHash(digest)) && e[12..16] == Be32(Crc(plain));
    LoadBe32(e, 0, ENC_HDR); LoadBe32(e, 4, 1); LoadBe32(e, 8, InfoHash(digest)); LoadBe32(e, 12, Crc(plain));
  }

  /** On the same console what was sealed is unsealed. */
  lemma UnsealedSealed(plain: seq<byte>, iv: seq<byte>, digest: seq<byte>)
    requires IsRecord(plain) && |iv| == 16 && |digest| == DIGEST_SIZE
    ensures Unsealed(Sealed(plain, iv, digest), digest) == Some(plain)
  {
    hide Sealed; hide Encrypted; hide Decrypted; hide Expansion; hide InfoHash; hide Crc; hide Load32;
    SealedParts(plain, iv, digest);
    DecryptedEncrypted(plain, iv, Expansion(Key(digest)));
  }

  /** And nothing else is: a file that is accepted is one that sealing writes. */
  lemma OnlySealedIsUnsealed(e: seq<byte>, digest: seq<byte>)
    requires |e| == ENC_SIZE && |digest| == DIGEST_SIZE
    ensures Load32(e, 0) == ENC_HDR && Load32(e, 4) == 1 && Unsealed(e, digest).Some?
            <==> exists plain, iv | |plain| == DEC_SIZE && IsRecord(plain) && |iv| == 16 :: e == Sealed(plain, iv, digest)
  {
    hide Sealed; hide Unsealed; hide Load32; hide IsRecord;
    if Load32(e, 0) == ENC_HDR && Load32(e, 4) == 1 && Unsealed(e, digest).Some? {
      SealedAgain(e, digest);
      var plain, iv := Unsealed(e, digest).value, e[16..32];
      assert IsRecord(plain) && e == Sealed(plain, iv, digest);
    }
    if plain, iv :| |plain| == DEC_SIZE && IsRecord(plain) && |iv| == 16 && e == Sealed(plain, iv, digest) {
      UnsealedSealed(plain, iv, digest);
      SealedParts(plain, iv, digest);
    }
  }

  lemma SealedAgain(e: seq<byte>, digest: seq<byte>)
    requires |e| == ENC_SIZE && |digest| == DIGEST_SIZE
    requires Load32(e, 0) == ENC_HDR && Load32(e, 4) == 1 && Unsealed(e, digest).Some?
    ensures |Unsealed(e, digest).value| == DEC_SIZE && IsRecord(Unsealed(e, digest).value)
    ensures e == Sealed(Unsealed(e, digest).value, e[16..32], digest)
  {
    hide Be32; hide Encrypted; hide Decrypted; hide Expansion; hide InfoHash; hide Crc; hide Load32; hide IsRecord;
    var k, plain := Expansion(Key(digest)), Unsealed(e, digest).value;
    EncryptedDecrypted(e[32..], e[16..32], k);
    LoadBe32(e, 0, ENC_HDR); LoadBe32(e, 4, 1); LoadBe32(e, 8, InfoHash(digest)); LoadBe32(e, 12, Crc(plain));
    SixParts(e);
  }

  lemma SixParts<T>(e: seq<T>)
    requires |e| == ENC_SIZE
    ensures e == e[0..0 + 4] + e[4..4 + 4] + e[8..8 + 4] + e[12..12 + 4] + e[16..32] + e[32..]
  {
  }

  // ---- saving and loading ----

  const BUFFER_SIZE := 4096

  /** The file that save_auth_config writes; the bytes of align are whatever was there. */
  function Saved(l: Login, align: seq<byte>, iv: seq<byte>, digest: seq<byte>, available: bool): (r: seq<byte>)
    requires l.Valid() && |align| == 8 && |iv| == 16 && |digest| == DIGEST_SIZE
  {
    var record := Record(align, Login(Copied(l.name), Copied(l.token), Copied(l.guard)));
    if available then Sealed(record, iv, digest) else record
  }

  /** What load_auth_config reads into its buffer. */
  function Buffered(file: seq<byte>): (r: seq<byte>)
    ensures |r| == BUFFER_SIZE
  {
    if |file| >= BUFFER_SIZE then file[..BUFFER_SIZE] else file + Zeros(BUFFER_SIZE - |file|)
  }

  /** The record it finds there. */
  function FoundRecord(b: seq<byte>, available: bool, digest: seq<byte>): (r: Option<seq<byte>>)
    requires |b| == BUFFER_SIZE && |digest| == DIGEST_SIZE
    ensures r.Some? ==> |r.value| == DEC_SIZE
  {
    if Load32(b, 0) == DEC_HDR && Load32(b, 4) == 1 then Some(b[..DEC_SIZE])
    else if Load32(b, 0) == ENC_HDR && Load32(b, 4) == 1 && available then Unsealed(b[..ENC_SIZE], digest)
    else None
  }

  /** The strings as they reach the globals. */
  function Delivered(r: seq<byte>): Login
    requires |r| == DEC_SIZE
  {
    var l := Fields(r);
    Login(Copied(Cut(l.name)), Copied(Cut(l.token)), Copied(Cut(l.guard)))
  }

  /** load_auth_config: None when nothing is loaded. */
  function Loaded(file: Option<seq<byte>>, available: bool, digest: seq<byte>): Option<Login>
    requires |digest| == DIGEST_SIZE
  {
    if file == None then None
    else
      var r := FoundRecord(Buffered(file.value), available, digest);
      if r == None then None else Some(Delivered(r.value))
  }

  lemma BufferedPrefix(file: seq<byte>)
    requires ENC_SIZE >= |file| >= 8
    ensures Buffered(file)[..|file|] == file
    ensures Load32(Buffered(file), 0) == Load32(file, 0) && Load32(Buffered(file), 4) == Load32(file, 4)
  {
    hide Join;
  }

  /**
   What was saved is loaded on the same console: always when it was saved in the plain form, and when
   encryption is available if it was saved in the encrypted form.
   */
  lemma SaveThenLoad(l: Login, align: seq<byte>, iv: seq<byte>, digest: seq<byte>, saving: bool, loading: bool)
    requires l.Valid() && |align| == 8 && |iv| == 16 && |digest| == DIGEST_SIZE
    ensures Loaded(Some(Saved(l, align, iv, digest, saving)), loading, digest)
            == if saving && !loading then None
               else Some(Login(Copied(Cut(Copied(l.name))), Copied(Cut(Copied(l.token))), Copied(Cut(Copied(l.guard)))))
  {
    hide Copied; hide Cut; hide Record; hide Fields; hide Sealed; hide Unsealed; hide Load32; hide Buffered;
    var m := Login(Copied(l.name), Copied(l.token), Copied(l.guard));
    var record := Record(align, m);
    var file := Saved(l, align, iv, digest, saving);
    RecordParts(align, m);
    BufferedPrefix(file);
    if saving {
      SealedParts(record, iv, digest);
      UnsealedSealed(record, iv, digest);
      assert Buffered(file)[..ENC_SIZE] == file;
    } else {
      assert Buffered(file)[..DEC_SIZE] == file;
    }
  }

  /** A login all of whose strings are terminated comes back as it was. */
  lemma LoginRestored(l: Login, align: seq<byte>, iv: seq<byte>, digest: seq<byte>, saving: bool, loading: bool)
    requires l.Valid() && |align| == 8 && |iv| == 16 && |digest| == DIGEST_SIZE && (saving ==> loading)
    ensures var r := Loaded(Some(Saved(l, align, iv, digest, saving)), loading, digest);
            && r.Some?
            && (Text(r.value.name) == Text(l.name) <==> Terminated(l.name))
            && (Text(r.value.token) == Text(l.token) <==> Terminated(l.token))
            && (Text(r.value.guard) == Text(l.guard) <==> Terminated(l.guard))
  {
    hide Copied; hide Cut; hide Text; hide Saved; hide Loaded; hide Terminated;
    SaveThenLoad(l, align, iv, digest, saving, loading);
    StringRestored(l.name); StringRestored(l.token); StringRestored(l.guard);
  }
}
