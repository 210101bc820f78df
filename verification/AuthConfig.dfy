/** Sealing, unsealing, saving and loading the login, in the buffers of the program. */
module AuthConfig {
  import opened Aes
  import opened AesKeys
  import opened Bits
  import opened Cbc
  import opened Crc32
  import opened Vault
  import opened Wrappers

  /** Writes s to a from place p on, when what is below p is already in place. */
  method Put(a: array<byte>, p: nat, s: seq<byte>, ghost below: seq<byte>)
    requires p + |s| <= a.Length && p == |below| && a[..p] == below
    modifies a
    ensures a[..p + |s|] == below + s
  {
    forall i | 0 <= i < |s| {
      a[p + i] := s[i];
    }
    assert a[..p] == below;
  }

  /**
   The beginning of generate_encryption_key_v1.  The identifier is written last and covers the whole of the
   network address, so nothing that is hashed depends on the address.
   */
  method GatherKeyMaterial(id: array<byte>, mac: array<byte>, psid: array<byte>) returns (keybuf: array<byte>)
    requires id.Length == 4 && mac.Length == 6 && psid.Length == 16
    ensures fresh(keybuf) && keybuf[..] == KeyMaterial(id[..], psid[..])
  {
    keybuf := new byte[32](_ => 0x22);
    forall i | 0 <= i < 4 {
      keybuf[i] := id[i];
    }
    forall i | 0 <= i < 6 {
      keybuf[0xC + i] := mac[i];
    }
    forall i | 0 <= i < 16 {
      keybuf[0x4 + i] := psid[i];
    }
  }

  method HashOf(a: array<byte>, sha1: seq<byte> -> seq<byte>) returns (digest: array<byte>)
    requires forall s: seq<byte> :: |sha1(s)| == DIGEST_SIZE
    ensures fresh(digest) && digest[..] == sha1(a[..])
  {
    var bytes := sha1(a[..]);
    digest := new byte[DIGEST_SIZE](i requires 0 <= i < DIGEST_SIZE => bytes[i]);
    assert digest[..] == bytes;
  }

  /** The globals of the program. */
  class AuthState {
    const accountName: array<byte>
    const accessToken: array<byte>
    const guardData: array<byte>
    const crc: Table
    var hasConfigLoaded: bool
    var cinfohash: word

    ghost predicate Valid()
      reads crc, crc.table
    {
      && accountName.Length == NAME_SIZE && accessToken.Length == guardData.Length == TOKEN_SIZE
      && accountName != accessToken && accessToken != guardData && accountName != guardData
      && crc.Valid()
    }

    /** The state when the program is loaded. */
    constructor ()
      ensures Valid() && !hasConfigLoaded && cinfohash == 0x69696969
    {
      accountName := new byte[NAME_SIZE](_ => 0);
      accessToken := new byte[TOKEN_SIZE](_ => 0);
      guardData := new byte[TOKEN_SIZE](_ => 0);
      crc := new Table();
      hasConfigLoaded := false;
      cinfohash := 0x69696969;
    }

    /** generate_encryption_key_v1, from the digest on. */
    method GenerateKey(digest: array<byte>) returns (key: array<byte>)
      requires Valid() && digest.Length == DIGEST_SIZE
      modifies this`cinfohash, crc.table
      ensures Valid() && fresh(key) && key[..] == Key(digest[..]) && digest[..] == old(digest[..])
      ensures cinfohash == InfoHash(digest[..])
    {
      hide Checksum;
      key := new byte[16](_ => 0);
      forall i | 0 <= i < 16 {
        key[i] := digest[i + 4];
      }
      assert key[..] == digest[4..];
      cinfohash := crc.Crc32(digest, 0, DIGEST_SIZE, 0);
      assert digest[0..0 + DIGEST_SIZE] == digest[..];
    }

    /** generate_encryption_key_v1 as a whole, for any hash function of the right size. */
    method GenerateKeyOf(id: array<byte>, mac: array<byte>, psid: array<byte>, sha1: seq<byte> -> seq<byte>)
      returns (key: array<byte>)
      requires Valid() && id.Length == 4 && mac.Length == 6 && psid.Length == 16
      requires forall s: seq<byte> :: |sha1(s)| == DIGEST_SIZE
      modifies this`cinfohash, crc.table
      ensures Valid() && fresh(key)
      ensures var digest := sha1(KeyMaterial(old(id[..]), old(psid[..])));
              key[..] == Key(digest) && cinfohash == InfoHash(digest)
    {
      hide KeyMaterial; hide InfoHash; hide Key; hide Table.Valid;
      var keybuf := GatherKeyMaterial(id, mac, psid);
      var outHash := HashOf(keybuf, sha1);
      key := GenerateKey(outHash);
    }

    /** encrypt_config_v1, with the random vector as a parameter. */
    method EncryptConfigV1(input: array<byte>, output: array<byte>, iv: array<byte>, digest: array<byte>)
      requires Valid() && input.Length == DEC_SIZE && output.Length == ENC_SIZE && iv.Length == 16
      requires digest.Length == DIGEST_SIZE && output != input && output != iv && output != digest
      modifies this`cinfohash, crc.table, output
      ensures Valid() && input[..] == old(input[..])
      ensures output[..] == Sealed(old(input[..]), old(iv[..]), old(digest[..]))
    {
      hide Encrypted; hide Expansion; hide Checksum; hide Key; hide Table.Valid; hide Sealed; hide Unencrypted;
      hide Patched; hide Chain; hide Block;
      ghost var plain, v, d := input[..], iv[..], digest[..];
      var dataCrc := crc.Crc32(input, 0, DEC_SIZE, 0);
      assert plain[0..0 + DEC_SIZE] == plain;
      var key := GenerateKey(digest);
      var ctx := new AesContext(key, iv, 0);
      WholeBlock(v);
      FillHeader(output, cinfohash, dataCrc, iv, input);
      SealInPlace(plain, v, d);
      ctx.EncryptBuffer(output, 32, DEC_SIZE);
    }

    /** decrypt_config_v1.  What it leaves in output when it returns false is of no account. */
    method DecryptConfigV1(input: array<byte>, output: array<byte>, digest: array<byte>) returns (ok: bool)
      requires Valid() && input.Length >= ENC_SIZE && output.Length == DEC_SIZE && digest.Length == DIGEST_SIZE
      requires output != input && output != digest
      modifies this`cinfohash, crc.table, output
      ensures Valid() && input[..] == old(input[..])
      ensures ok == Unsealed(old(input[..ENC_SIZE]), old(digest[..])).Some?
      ensures ok ==> output[..] == Unsealed(old(input[..ENC_SIZE]), old(digest[..])).value
    {
      hide Decrypted; hide Expansion; hide Checksum; hide Key; hide Table.Valid; hide Patched; hide Chain; hide Load32;
      ghost var e, d := input[..ENC_SIZE], digest[..];
      Loads(input[..]);
      var key := GenerateKey(digest);
      var ctx := new AesContext(key, input, 16);
      ghost var k := ctx.roundKey[..];
      if LoadWord(input, 8) != cinfohash {
        return false;
      }
      forall i | 0 <= i < DEC_SIZE {
        output[i] := input[i + 32];
      }
      ghost var before, c, v := output[..], output[0..0 + DEC_SIZE], ctx.iv[..];
      assert before == e[32..] && c == e[32..] && v == e[16..32];
      PatchedWhole(before, Decrypted(c, v, k));
      ctx.DecryptBuffer(output, 0, DEC_SIZE);
      assert ctx.roundKey[..] == k;
      assert output[..] == Patched(before, 0, Decrypted(c, v, k));
      if LoadWord(output, 0) != DEC_HDR || LoadWord(output, 4) != 1 {
        return false;
      }
      assert output[0..0 + DEC_SIZE] == output[..];
      var sum := crc.Crc32(output, 0, DEC_SIZE, 0);
      if LoadWord(input, 12) != sum {
        return false;
      }
      return true;
    }

    /** The three strings. */
    ghost function Strings(): (l: Login)
      requires Valid()
      reads crc, crc.table, accountName, accessToken, guardData
      ensures l.Valid()
    {
      Login(accountName[..], accessToken[..], guardData[..])
    }

    /** A record to be saved; its alignment bytes are not written. */
    method MakeRecord(config: array<byte>)
      requires Valid() && config.Length == DEC_SIZE && config !in {accountName, accessToken, guardData}
      modifies config
      ensures Valid()
      ensures config[..] == Record(old(config[8..16]), Login(Copied(accountName[..]), Copied(accessToken[..]), Copied(guardData[..])))
    {
      hide Be32; hide Copied; hide Patched; hide Table.Valid;
      ghost var s := config[..];
      var hdr, one := Be32(DEC_HDR), Be32(1);
      forall i | 0 <= i < 4 {
        config[i] := hdr[i];
      }
      forall i | 0 <= i < 4 {
        config[4 + i] := one[i];
      }
      assert config[..] == hdr + one + s[8..];
      assert accountName[0..0 + NAME_SIZE] == accountName[..] && accessToken[0..0 + TOKEN_SIZE] == accessToken[..];
      assert guardData[0..0 + TOKEN_SIZE] == guardData[..];
      StrNCpy(config, 16, accountName, 0, NAME_SIZE);
      StrNCpy(config, 144, accessToken, 0, TOKEN_SIZE);
      StrNCpy(config, 1168, guardData, 0, TOKEN_SIZE);
      RecordPatched(s, Copied(accountName[..]), Copied(accessToken[..]), Copied(guardData[..]));
    }

    /** save_auth_config: None when the file cannot be created. */
    method SaveAuthConfig(config: array<byte>, iv: array<byte>, digest: array<byte>, created: bool, available: bool)
      returns (file: Option<array<byte>>)
      requires Valid() && config.Length == DEC_SIZE && iv.Length == 16 && digest.Length == DIGEST_SIZE
      requires {config, iv, digest} !! {accountName, accessToken, guardData} && config != iv && config != digest
      modifies this`cinfohash, crc.table, config
      ensures Valid() && Strings() == old(Strings())
      ensures file.Some? == created
      ensures created ==>
                file.value[..] == Saved(Strings(), old(config[8..16]), old(iv[..]), old(digest[..]), available)
    {
      hide Record; hide Sealed; hide Copied; hide Table.Valid;
      MakeRecord(config);
      if !created {
        return None;
      }
      if available {
        var sealed := new byte[ENC_SIZE](_ => 0);
        EncryptConfigV1(config, sealed, iv, digest);
        file := Some(sealed);
      } else {
        file := Some(config);
      }
    }

    /** The end of load_auth_config: the strings of a record that was found become the globals. */
    method Deliver(config: array<byte>)
      requires Valid() && config.Length == DEC_SIZE && config !in {accountName, accessToken, guardData}
      modifies config, accountName, accessToken, guardData
      ensures Valid() && Strings() == Delivered(old(config[..]))
    {
      hide Copied; hide Table.Valid; hide Patched;
      ghost var s := config[..];
      config[16 + NAME_SIZE - 1] := 0;
      config[144 + TOKEN_SIZE - 1] := 0;
      config[1168 + TOKEN_SIZE - 1] := 0;
      FieldsCut(s, config[..]);
      PatchedWhole(accountName[..], Copied(Cut(Fields(s).name)));
      PatchedWhole(accessToken[..], Copied(Cut(Fields(s).token)));
      PatchedWhole(guardData[..], Copied(Cut(Fields(s).guard)));
      hide Cut; hide Fields;
      StrNCpy(accountName, 0, config, 16, NAME_SIZE);
      StrNCpy(accessToken, 0, config, 144, TOKEN_SIZE);
      StrNCpy(guardData, 0, config, 1168, TOKEN_SIZE);
    }

    /** Clears the globals. */
    method Clear()
      requires Valid()
      modifies this`hasConfigLoaded, accountName, accessToken, guardData
      ensures Valid() && !hasConfigLoaded
      ensures Strings() == Login(Zeros(NAME_SIZE), Zeros(TOKEN_SIZE), Zeros(TOKEN_SIZE))
    {
      hasConfigLoaded := false;
      forall i | 0 <= i < NAME_SIZE {
        accountName[i] := 0;
      }
      forall i | 0 <= i < TOKEN_SIZE {
        accessToken[i] := 0;
      }
      forall i | 0 <= i < TOKEN_SIZE {
        guardData[i] := 0;
      }
      assert accountName[..] == Zeros(NAME_SIZE) && accessToken[..] == Zeros(TOKEN_SIZE) && guardData[..] == Zeros(TOKEN_SIZE);
    }

    /** The middle of load_auth_config: which form the file has, and its record. */
    method FindRecord(buffer: array<byte>, config: array<byte>, digest: array<byte>, available: bool) returns (ok: bool)
      requires Valid() && buffer.Length == BUFFER_SIZE && config.Length == DEC_SIZE && digest.Length == DIGEST_SIZE
      requires config != buffer && config != digest
      modifies this`cinfohash, crc.table, config
      ensures Valid()
      ensures ok == FoundRecord(old(buffer[..]), available, old(digest[..])).Some?
      ensures ok ==> config[..] == FoundRecord(old(buffer[..]), available, old(digest[..])).value
    {
      hide Unsealed; hide Load32; hide Table.Valid;
      if LoadWord(buffer, 0) == DEC_HDR && LoadWord(buffer, 4) == 1 {
        forall i | 0 <= i < DEC_SIZE {
          config[i] := buffer[i];
        }
        assert config[..] == buffer[..DEC_SIZE];
        ok := true;
      } else if LoadWord(buffer, 0) == ENC_HDR && LoadWord(buffer, 4) == 1 {
        if !available {
          return false;
        }
        assert buffer[..][..ENC_SIZE] == buffer[..ENC_SIZE];
        ok := DecryptConfigV1(buffer, config, digest);
      } else {
        ok := false;
      }
    }

    /** load_auth_config, given the file if there is one. */
    method LoadAuthConfig(file: Option<array<byte>>, digest: array<byte>, available: bool)
      requires Valid() && digest.Length == DIGEST_SIZE && digest !in {accountName, accessToken, guardData}
      requires file.Some? ==> file.value !in {accountName, accessToken, guardData}
      modifies this`hasConfigLoaded, this`cinfohash, crc.table, accountName, accessToken, guardData
      ensures Valid()
      ensures var r := Loaded(if file.Some? then Some(old(file.value[..])) else None, available, old(digest[..]));
              && hasConfigLoaded == r.Some?
              && Strings() == if r.Some? then r.value else Login(Zeros(NAME_SIZE), Zeros(TOKEN_SIZE), Zeros(TOKEN_SIZE))
    {
      hide FoundRecord; hide Delivered; hide Table.Valid; hide Zeros;
      Clear();
      if file == None {
        return;
      }
      var buffer := ReadFile(file.value);
      var config := new byte[DEC_SIZE](_ => 0);
      var ok := FindRecord(buffer, config, digest, available);
      if ok {
        Deliver(config);
        hasConfigLoaded := true;
      }
    }
  }

  /** cellFsRead into a buffer of zeros. */
  method ReadFile(file: array<byte>) returns (buffer: array<byte>)
    ensures fresh(buffer) && buffer[..] == Buffered(file[..])
  {
    buffer := new byte[BUFFER_SIZE](_ => 0);
    var n := if file.Length >= BUFFER_SIZE then BUFFER_SIZE else file.Length;
    forall i | 0 <= i < n {
      buffer[i] := file[i];
    }
    assert buffer[..] == Buffered(file[..]);
  }

  lemma RecordPatched(s: seq<byte>, name: seq<byte>, token: seq<byte>, guard: seq<byte>)
    requires |s| == DEC_SIZE && |name| == NAME_SIZE && |token| == |guard| == TOKEN_SIZE
    ensures Patched(Patched(Patched(Be32(DEC_HDR) + Be32(1) + s[8..], 16, name), 144, token), 1168, guard)
            == Record(s[8..16], Login(name, token, guard))
  {
    hide Be32;
    var head := Be32(DEC_HDR) + Be32(1);
    var s0 := head + s[8..];
    var s1 := Patched(s0, 16, name);
    assert s1 == head + s[8..16] + name + s[144..];
    var s2 := Patched(s1, 144, token);
    assert s2 == head + s[8..16] + name + token + s[1168..];
  }

  /** Clearing the last byte of each field in the record cuts each field. */
  lemma FieldsCut(s: seq<byte>, t: seq<byte>)
    requires |s| == |t| == DEC_SIZE
    requires t == s[16 + NAME_SIZE - 1 := 0][144 + TOKEN_SIZE - 1 := 0][1168 + TOKEN_SIZE - 1 := 0]
    ensures t[16..16 + NAME_SIZE] == Cut(Fields(s).name)
    ensures t[144..144 + TOKEN_SIZE] == Cut(Fields(s).token)
    ensures t[1168..1168 + TOKEN_SIZE] == Cut(Fields(s).guard)
  {
  }

  function LoadWord(a: array<byte>, p: nat): (v: word)
    requires p + 4 <= a.Length
    reads a
    ensures v == Load32(a[..], p)
  {
    Join(a[p], a[p + 1], a[p + 2], a[p + 3])
  }

  lemma Loads(s: seq<byte>)
    requires |s| >= ENC_SIZE
    ensures Load32(s, 8) == Load32(s[..ENC_SIZE], 8) && Load32(s, 12) == Load32(s[..ENC_SIZE], 12)
    ensures Block(s, 16) == s[..ENC_SIZE][16..32]
  {
    hide Join;
  }

  lemma PatchedWhole(s: seq<byte>, t: seq<byte>)
    requires |s| == |t|
    ensures Patched(s, 0, t) == t
  {
  }

  /** The header of struct cst_encrypted_config_v1 and the record behind it, not encrypted yet. */
  function Unencrypted(hash: word, crc: word, iv: seq<byte>, plain: seq<byte>): seq<byte> {
    Be32(ENC_HDR) + Be32(1) + Be32(hash) + Be32(crc) + iv + plain
  }

  /** Encrypting the record where it lies seals it. */
  lemma SealInPlace(plain: seq<byte>, iv: seq<byte>, digest: seq<byte>)
    requires |plain| == DEC_SIZE && |iv| == 16 && |digest| == DIGEST_SIZE
    ensures var s := Unencrypted(InfoHash(digest), Crc(plain), iv, plain);
            && |s| == ENC_SIZE && s[32..32 + DEC_SIZE] == plain
            && Patched(s, 32, Encrypted(plain, iv, Expansion(Key(digest)))) == Sealed(plain, iv, digest)
  {
    hide Encrypted; hide Expansion; hide InfoHash; hide Crc; hide Key; hide Be32;
    var s := Unencrypted(InfoHash(digest), Crc(plain), iv, plain);
    var head := Be32(ENC_HDR) + Be32(1) + Be32(InfoHash(digest)) + Be32(Crc(plain)) + iv;
    assert s == head + plain;
    assert s[..32] == head && s[32 + DEC_SIZE..] == [];
  }

  method FillHeader(output: array<byte>, hash: word, crc: word, iv: array<byte>, input: array<byte>)
    requires output.Length == ENC_SIZE && iv.Length == 16 && input.Length == DEC_SIZE && output != input && output != iv
    modifies output
    ensures output[..] == Unencrypted(hash, crc, iv[..], input[..])
  {
    hide Be32;
    Put(output, 0, Be32(ENC_HDR), []);
    Put(output, 4, Be32(1), Be32(ENC_HDR));
    Put(output, 8, Be32(hash), Be32(ENC_HDR) + Be32(1));
    Put(output, 12, Be32(crc), Be32(ENC_HDR) + Be32(1) + Be32(hash));
    Put(output, 16, iv[..], Be32(ENC_HDR) + Be32(1) + Be32(hash) + Be32(crc));
    Put(output, 32, input[..], Be32(ENC_HDR) + Be32(1) + Be32(hash) + Be32(crc) + iv[..]);
  }
}
