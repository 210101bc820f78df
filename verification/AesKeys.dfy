/** The key schedule of AES-128. */
module AesKeys {
  import opened Aes
  import opened AesField
  import opened AesTables
  import opened Bits
  import opened Gf256

  const NK := 4

  const WORDS := 44

  function Word(s: seq<byte>, i: nat): (r: seq<byte>)
    requires 4 * i + 4 <= |s|
    ensures |r| == 4
  {
    s[4 * i..4 * i + 4]
  }

  function XorWord(a: seq<byte>, b: seq<byte>): (r: seq<byte>)
    requires |a| == |b| == 4
    ensures |r| == 4
  {
    [XorB(a[0], b[0]), XorB(a[1], b[1]), XorB(a[2], b[2]), XorB(a[3], b[3])]
  }

  function RotWord(a: seq<byte>): (r: seq<byte>)
    requires |a| == 4
    ensures |r| == 4
  {
    [a[1], a[2], a[3], a[0]]
  }

  function SubWord(a: seq<byte>): (r: seq<byte>)
    requires |a| == 4
    ensures |r| == 4
  {
    [Sbox(a[0]), Sbox(a[1]), Sbox(a[2]), Sbox(a[3])]
  }

  /** What word i adds to the word four before it, given the word before it. */
  function Temp(i: nat, w: seq<byte>): (r: seq<byte>)
    requires i < WORDS && |w| == 4
    ensures |r| == 4
  {
    if i % NK == 0 then XorWord(SubWord(RotWord(w)), [Rcon(i / NK), 0, 0, 0]) else w
  }

  /** Word i of the schedule: figure 11 of FIPS 197. */
  function Schedule(key: seq<byte>, i: nat): (r: seq<byte>)
    requires |key| == 16 && i < WORDS
    ensures |r| == 4
  {
    if i < NK then Word(key, i) else XorWord(Schedule(key, i - NK), Temp(i, Schedule(key, i - 1)))
  }

  /** The whole schedule as the array of round keys. */
  function Expansion(key: seq<byte>): (r: seq<byte>)
    requires |key| == 16
    ensures |r| == ROUND_KEY_SIZE
  {
    seq<byte>(ROUND_KEY_SIZE, j requires 0 <= j < ROUND_KEY_SIZE => Schedule(key, j / 4)[j % 4])
  }

  /** The round constants are the powers of x. */
  lemma {:induction false} RconPowers(i: nat)
    requires 1 <= i <= 10
    ensures Rcon(1) == 1
    ensures i < 10 ==> Rcon(i + 1) == XTime(Rcon(i), AES_POLY)
  {
    if i == 8 {
      assert Xor(0x100, 0x11b) == 0x1b by {
        hide Xor;
        XorBit8(0, 0x1b); XorZero(0x1b);
      }
    }
  }

  // ---- the schedule, in place ----

  /** The first n words of s are those of the schedule. */
  ghost predicate Expanded(s: seq<byte>, key: seq<byte>, n: nat)
    requires |s| == ROUND_KEY_SIZE && |key| == 16 && n <= WORDS
  {
    forall i: nat :: i < n ==> Word(s, i) == Schedule(key, i)
  }

  lemma ExpandedIs(s: seq<byte>, key: seq<byte>)
    requires |s| == ROUND_KEY_SIZE && |key| == 16 && Expanded(s, key, WORDS)
    ensures s == Expansion(key)
  {
    hide *;
    forall j: nat | j < ROUND_KEY_SIZE ensures s[j] == Expansion(key)[j] {
      ExpandedByte(s, key, j);
    }
  }

  lemma ExpandedByte(s: seq<byte>, key: seq<byte>, j: nat)
    requires |s| == ROUND_KEY_SIZE && |key| == 16 && Expanded(s, key, WORDS) && j < ROUND_KEY_SIZE
    ensures s[j] == Expansion(key)[j]
  {
    hide *;
    var i, r := j / 4, j % 4;
    QuarterOf(j);
    ExpandedAt(s, key, WORDS, i);
    ExpansionAt(key, j);
    assert r == 0 || r == 1 || r == 2 || r == 3;
  }

  lemma QuarterOf(j: nat)
    requires j < ROUND_KEY_SIZE
    ensures j == 4 * (j / 4) + j % 4 && j / 4 < WORDS
  {
  }

  lemma ExpansionAt(key: seq<byte>, j: nat)
    requires |key| == 16 && j < ROUND_KEY_SIZE && j / 4 < WORDS
    ensures Expansion(key)[j] == Schedule(key, j / 4)[j % 4]
  {
    hide Schedule;
  }

  /** Writing word n leaves the words before it alone. */
  lemma ExpandedNext(s: seq<byte>, t: seq<byte>, key: seq<byte>, n: nat)
    requires |s| == |t| == ROUND_KEY_SIZE && |key| == 16 && n < WORDS && Expanded(s, key, n)
    requires t[..4 * n] == s[..4 * n] && Word(t, n) == Schedule(key, n)
    ensures Expanded(t, key, n + 1)
  {
    hide Schedule;
    forall i: nat | i < n ensures Word(t, i) == Word(s, i) {
      SameWord(s, t, n, i);
    }
  }

  lemma SameWord(s: seq<byte>, t: seq<byte>, n: nat, i: nat)
    requires i < n && 4 * n <= |s| == |t| && t[..4 * n] == s[..4 * n]
    ensures Word(t, i) == Word(s, i)
  {
    assert forall k :: 0 <= k < 4 * n ==> s[k] == s[..4 * n][k] && t[k] == t[..4 * n][k];
    WordAt(s, i); WordAt(t, i);
  }

  /** The four assignments at the end of a turn of the loop, or of the loop that copies the key. */
  method PutWord(rk: array<byte>, n: nat, a: byte, b: byte, c: byte, d: byte, ghost key: seq<byte>)
    requires rk.Length == ROUND_KEY_SIZE && |key| == 16 && n < WORDS
    requires Expanded(rk[..], key, n) && [a, b, c, d] == Schedule(key, n)
    modifies rk
    ensures Expanded(rk[..], key, n + 1)
  {
    ghost var s := rk[..];
    hide Expanded; hide Schedule;
    var j := n * 4;
    rk[j], rk[j + 1], rk[j + 2], rk[j + 3] := a, b, c, d;
    assert rk[..4 * n] == s[..4 * n];
    assert Word(rk[..], n) == [a, b, c, d];
    ExpandedNext(s, rk[..], key, n);
  }

  /** RotWord, SubWord and the round constant, in the four bytes of tempa. */
  method Scramble(tempa: array<byte>, i: nat)
    requires tempa.Length == 4 && i < WORDS && i % NK == 0
    modifies tempa
    ensures tempa[..] == Temp(i, old(tempa[..]))
  {
    hide Sbox; hide Rcon; hide Xor;
    var u8tmp := tempa[0];
    tempa[0] := tempa[1];
    tempa[1] := tempa[2];
    tempa[2] := tempa[3];
    tempa[3] := u8tmp;
    tempa[0] := Sbox(tempa[0]);
    tempa[1] := Sbox(tempa[1]);
    tempa[2] := Sbox(tempa[2]);
    tempa[3] := Sbox(tempa[3]);
    XorZero(tempa[1]); XorZero(tempa[2]); XorZero(tempa[3]);
    tempa[0] := XorB(tempa[0], Rcon(i / NK));
  }

  lemma WordAt(s: seq<byte>, i: nat)
    requires 4 * i + 4 <= |s|
    ensures Word(s, i) == [s[4 * i], s[4 * i + 1], s[4 * i + 2], s[4 * i + 3]]
  {
  }

  lemma ExpandedAt(s: seq<byte>, key: seq<byte>, n: nat, i: nat)
    requires |s| == ROUND_KEY_SIZE && |key| == 16 && i < n <= WORDS && Expanded(s, key, n)
    ensures 4 * i + 4 <= |s| && Schedule(key, i) == [s[4 * i], s[4 * i + 1], s[4 * i + 2], s[4 * i + 3]]
  {
    hide Schedule;
    WordAt(s, i);
    assert Word(s, i) == Schedule(key, i);
  }

  /** One turn of the second loop of KeyExpansion. */
  method ExpandWord(rk: array<byte>, tempa: array<byte>, i: nat, ghost key: seq<byte>)
    requires rk.Length == ROUND_KEY_SIZE && tempa.Length == 4 && rk != tempa && |key| == 16
    requires NK <= i < WORDS && Expanded(rk[..], key, i)
    modifies rk, tempa
    ensures Expanded(rk[..], key, i + 1)
  {
    hide XorB; hide Schedule; hide Expanded; hide Temp;
    ghost var s := rk[..];
    ExpandedAt(s, key, i, i - 1); ExpandedAt(s, key, i, i - NK);
    ScheduleStep(key, i);
    var k := (i - 1) * 4;
    tempa[0], tempa[1], tempa[2], tempa[3] := rk[k], rk[k + 1], rk[k + 2], rk[k + 3];
    assert tempa[..] == Schedule(key, i - 1);
    if i % NK == 0 {
      Scramble(tempa, i);
    } else {
      TempPlain(i, tempa[..]);
    }
    ghost var t := Temp(i, Schedule(key, i - 1));
    assert tempa[..] == t && tempa[0] == t[0] && tempa[1] == t[1] && tempa[2] == t[2] && tempa[3] == t[3];
    k := (i - NK) * 4;
    PutWord(rk, i, XorB(rk[k], tempa[0]), XorB(rk[k + 1], tempa[1]), XorB(rk[k + 2], tempa[2]),
            XorB(rk[k + 3], tempa[3]), key);
  }

  lemma TempPlain(i: nat, w: seq<byte>)
    requires i < WORDS && |w| == 4 && i % NK != 0
    ensures Temp(i, w) == w
  {
  }

  /** KeyExpansion. */
  method KeyExpansion(rk: array<byte>, key: array<byte>)
    requires rk.Length == ROUND_KEY_SIZE && key.Length == 16 && rk != key
    modifies rk
    ensures Expanded(rk[..], key[..], WORDS)
  {
    hide Schedule; hide Word;
    ghost var k := key[..];
    for i := 0 to NK
      invariant Expanded(rk[..], k, i)
    {
      FirstWord(k, i);
      PutWord(rk, i, key[i * 4], key[i * 4 + 1], key[i * 4 + 2], key[i * 4 + 3], k);
    }
    var tempa := new byte[4](_ => 0);
    for i := NK to WORDS
      invariant Expanded(rk[..], k, i)
    {
      ExpandWord(rk, tempa, i, k);
    }
  }

  lemma FirstWord(key: seq<byte>, i: nat)
    requires |key| == 16 && i < NK
    ensures Schedule(key, i) == [key[i * 4], key[i * 4 + 1], key[i * 4 + 2], key[i * 4 + 3]]
  {
  }

  // ---- the schedule can be run backwards ----

  lemma XorWordCancel(a: seq<byte>, b: seq<byte>, c: seq<byte>)
    requires |a| == |b| == |c| == 4 && XorWord(a, c) == XorWord(b, c)
    ensures a == b
  {
    hide Xor;
    forall k | 0 <= k < 4 ensures a[k] == b[k] {
      assert XorWord(a, c)[k] == XorWord(b, c)[k];
      XorInjective(a[k], b[k], c[k]);
    }
  }

  lemma FirstWords(key: seq<byte>, other: seq<byte>)
    requires |key| == |other| == 16
    requires forall j: nat :: j <= 3 ==> Schedule(key, j) == Schedule(other, j)
    ensures key == other
  {
    hide Schedule;
    forall j | 0 <= j < 16 ensures key[j] == other[j] {
      FirstWord(key, j / 4); FirstWord(other, j / 4);
      assert Schedule(key, j / 4)[j % 4] == Schedule(other, j / 4)[j % 4];
    }
  }

  /** Four words in a row, here those that end at word i, determine the key. */
  lemma {:induction false} WordsDetermineKey(key: seq<byte>, other: seq<byte>, i: nat)
    requires |key| == |other| == 16 && 3 <= i < WORDS
    requires forall j: nat :: i - 3 <= j <= i ==> Schedule(key, j) == Schedule(other, j)
    ensures key == other
  {
    hide *;
    if i == 3 {
      FirstWords(key, other);
    } else {
      ScheduleStep(key, i); ScheduleStep(other, i);
      XorWordCancel(Schedule(key, i - 4), Schedule(other, i - 4), Temp(i, Schedule(key, i - 1)));
      WordsDetermineKey(key, other, i - 1);
    }
  }

  lemma ScheduleStep(key: seq<byte>, i: nat)
    requires |key| == 16 && 4 <= i < WORDS
    ensures Schedule(key, i) == XorWord(Schedule(key, i - 4), Temp(i, Schedule(key, i - 1)))
  {
  }

  /** Different keys have different round keys, in every round. */
  lemma RoundKeysDiffer(rk: seq<byte>, key: seq<byte>, rk': seq<byte>, key': seq<byte>, round: nat)
    requires |rk| == |rk'| == ROUND_KEY_SIZE && |key| == |key'| == 16 && round <= NR
    requires Expanded(rk, key, WORDS) && Expanded(rk', key', WORDS)
    ensures RoundKey(rk, round) == RoundKey(rk', round) <==> key == key'
  {
    hide *;
    var n := 4 * round;
    RoundWords(rk, key, round); RoundWords(rk', key', round);
    if RoundKey(rk, round) == RoundKey(rk', round) {
      Parts(Schedule(key, n), Schedule(key, n + 1), Schedule(key, n + 2), Schedule(key, n + 3),
            Schedule(key', n), Schedule(key', n + 1), Schedule(key', n + 2), Schedule(key', n + 3));
      forall j: nat | n <= j <= n + 3 ensures Schedule(key, j) == Schedule(key', j) {
      }
      WordsDetermineKey(key, key', n + 3);
    }
  }

  lemma Parts<T>(a: seq<T>, b: seq<T>, c: seq<T>, d: seq<T>, a': seq<T>, b': seq<T>, c': seq<T>, d': seq<T>)
    requires |a| == |b| == |c| == |d| == |a'| == |b'| == |c'| == |d'|
    requires a + b + c + d == a' + b' + c' + d'
    ensures a == a' && b == b' && c == c' && d == d'
  {
    var n := |a|;
    var s := a + b + c + d;
    assert a == s[..n] && b == s[n..2 * n] && c == s[2 * n..3 * n] && d == s[3 * n..];
    assert a' == s[..n] && b' == s[n..2 * n] && c' == s[2 * n..3 * n] && d' == s[3 * n..];
  }

  lemma RoundWords(rk: seq<byte>, key: seq<byte>, round: nat)
    requires |rk| == ROUND_KEY_SIZE && |key| == 16 && round <= NR && Expanded(rk, key, WORDS)
    ensures 4 * round + 3 < WORDS
    ensures RoundKey(rk, round) == Schedule(key, 4 * round) + Schedule(key, 4 * round + 1)
                                   + Schedule(key, 4 * round + 2) + Schedule(key, 4 * round + 3)
  {
    hide Schedule; hide RoundKey;
    FourWords(rk, round);
    var n := 4 * round;
    assert Word(rk, n) == Schedule(key, n) && Word(rk, n + 1) == Schedule(key, n + 1);
    assert Word(rk, n + 2) == Schedule(key, n + 2) && Word(rk, n + 3) == Schedule(key, n + 3);
  }

  lemma FourWords(rk: seq<byte>, round: nat)
    requires |rk| == ROUND_KEY_SIZE && round <= NR
    ensures RoundKey(rk, round)
            == Word(rk, 4 * round) + Word(rk, 4 * round + 1) + Word(rk, 4 * round + 2) + Word(rk, 4 * round + 3)
  {
  }
}
