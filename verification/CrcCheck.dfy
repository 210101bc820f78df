/** Two facts that fix the CRC-32 of RFC 1952: its residue and its check value. */
module CrcCheck {
  import opened Bits
  import opened Crc32

  // ---- a string enters the register at once ----

  /** The number whose bytes these are, the lowest first. */
  function LeNumber(s: seq<byte>): nat {
    if s == [] then 0 else s[0] + 256 * LeNumber(s[1..])
  }

  /** The bytes of a word, the lowest first. */
  function LeBytes(k: word): (r: seq<byte>)
    ensures |r| == 4
  {
    [k % 256, k / 256 % 256, k / 65536 % 256, k / 16777216]
  }

  lemma LeRoundTrip(k: word)
    ensures LeNumber(LeBytes(k)) == k
  {
    var s := LeBytes(k);
    hide LeNumber;
    assert s[1..] == [k / 256 % 256, k / 65536 % 256, k / 16777216];
    assert s[1..][1..] == [k / 65536 % 256, k / 16777216];
    assert s[1..][1..][1..] == [k / 16777216];
    assert s[1..][1..][1..][1..] == [];
    LeNext(s); LeNext(s[1..]); LeNext(s[1..][1..]); LeNext(s[1..][1..][1..]); LeNil();
    Halve(k);
  }

  lemma LeNext(s: seq<byte>)
    requires s != []
    ensures LeNumber(s) == s[0] + 256 * LeNumber(s[1..])
  {
  }

  lemma LeNil()
    ensures LeNumber([]) == 0
  {
  }

  lemma Halve(k: word)
    ensures k == k % 256 + 256 * (k / 256 % 256 + 256 * (k / 65536 % 256 + 256 * (k / 16777216)))
  {
  }

  lemma {:induction false} StepsAdd(c: nat, m: nat, n: nat)
    ensures Steps(Steps(c, m), n) == Steps(c, m + n)
  {
    hide Step;
    if n > 0 {
      StepsAdd(c, m, n - 1);
    }
  }

  /** What is added eight places up arrives eight steps later. */
  lemma AddAbove(c: nat, h: nat)
    ensures Steps(Xor(c, 256 * h), 8) == Xor(Steps(c, 8), h)
  {
    Powers();
    hide *;
    StepsLinear(c, 256 * h, 8);
    StepsShift(h, 8);
  }

  lemma {:induction false} BytesAtOnce(c: nat, s: seq<byte>)
    ensures Register(c, s) == Steps(Xor(c, LeNumber(s)), 8 * |s|)
    decreases |s|
  {
    hide *;
    if s == [] {
      NoBytes(c);
    } else {
      var b, t := s[0], s[1..];
      var n := LeNumber(t);
      FirstByte(c, b, t);
      assert s == [b] + t;
      BytesAtOnce(ByteStep(c, b), t);
      AddAbove(Xor(c, b), n);
      BelowAndAbove(c, b, n);
      StepsAdd(Xor(c, b + 256 * n), 8, 8 * |t|);
    }
  }

  lemma NoBytes(c: nat)
    ensures Register(c, []) == c && LeNumber([]) == 0 && Xor(c, 0) == c && Steps(c, 0) == c
  {
    XorZero(c);
  }

  lemma FirstByte(c: nat, b: byte, t: seq<byte>)
    ensures Register(c, [b] + t) == Register(ByteStep(c, b), t) && ByteStep(c, b) == Steps(Xor(c, b), 8)
    ensures LeNumber([b] + t) == b + 256 * LeNumber(t)
  {
    assert ([b] + t)[1..] == t;
    hide Xor; hide Steps; hide LeNumber;
    RegisterConcat(c, [b], t);
    RegisterOne(c, b);
  }

  lemma RegisterOne(c: nat, b: byte)
    ensures Register(c, [b]) == ByteStep(c, b)
  {
    hide ByteStep;
    assert [b][..0] == [];
    assert Register(c, []) == c;
  }

  lemma BelowAndAbove(c: nat, b: byte, n: nat)
    ensures Xor(Xor(c, b), 256 * n) == Xor(c, b + 256 * n)
  {
    Powers();
    hide *;
    XorAssoc(c, b, 256 * n);
    XorComm(b, 256 * n);
    XorApart(n, b, 8);
  }

  // ---- one step in plain arithmetic ----

  /** Exclusive or with ones only is the complement. */
  lemma {:induction false} XorOnes(x: nat, n: nat)
    requires x < Pow2(n)
    ensures Xor(AllOnes(n), x) == AllOnes(n) - x
  {
    hide Xor;
    if n == 0 {
      XorZero(0);
    } else {
      XorOnes(x / 2, n - 1);
      XorPush(1, AllOnes(n - 1), x % 2, x / 2);
    }
  }

  /** Below the digits h and k: n digits l where k has only zeros. */
  lemma OverZeros(k: nat, h: nat, l: nat, n: nat, p: nat)
    requires p == Pow2(n) && l < p
    ensures Xor(k * p, h * p + l) == Xor(k, h) * p + l
  {
    hide *;
    XorJoin(k, 0, h, l, n);
    XorZero(l);
  }

  /** The same where k has only ones. */
  lemma OverOnes(k: nat, h: nat, l: nat, n: nat, p: nat)
    requires p == Pow2(n) && l < p
    ensures Xor(k * p + (p - 1), h * p + l) == Xor(k, h) * p + (p - 1 - l)
  {
    hide *;
    OnesAre(n);
    XorJoin(k, p - 1, h, l, n);
    XorOnes(l, n);
  }

  lemma OnesAre(n: nat)
    ensures AllOnes(n) == Pow2(n) - 1
  {
  }

  lemma SmallPowers()
    ensures Pow2(1) == 2 && Pow2(2) == 4 && Pow2(3) == 8 && Pow2(5) == 32
    ensures POLY == 0xEDB88320 && ONES == 0xFFFFFFFF && Pow2(8) == 256
  {
  }

  /** A word cut where the polynomial changes between zeros and ones: from bit 19 on, and below. */
  lemma HighFields(f7: nat, f8: nat, f9: nat, f10: nat, f11: nat, f12: nat, f13: nat)
    requires f7 < 8 && f8 < 2 && f9 < 4 && f10 < 2 && f11 < 4 && f12 < 2 && f13 < 8
    ensures var h := f7 + 0x8 * f8 + 0x10 * f9 + 0x40 * f10 + 0x80 * f11 + 0x200 * f12 + 0x400 * f13;
            Xor(0x1DB7, h) == 0x1DB7 + h - 2 * (f7 + 0x10 * f9 + 0x80 * f11 + 0x400 * f13)
  {
    hide *;
    SmallPowers();
    OverOnes(0, 0, f13, 3, 8); XorZero(0);
    var g13 := f13;
    OverZeros(0x7, g13, f12, 1, 2);
    var g12 := g13 * 2 + f12;
    OverOnes(0xE, g12, f11, 2, 4);
    var g11 := g12 * 4 + f11;
    OverZeros(0x3B, g11, f10, 1, 2);
    var g10 := g11 * 2 + f10;
    OverOnes(0x76, g10, f9, 2, 4);
    var g9 := g10 * 4 + f9;
    OverZeros(0x1DB, g9, f8, 1, 2);
    var g8 := g9 * 2 + f8;
    OverOnes(0x3B6, g8, f7, 3, 8);
  }

  lemma LowFields(g: nat, f0: nat, f1: nat, f2: nat, f3: nat, f4: nat, f5: nat, f6: nat)
    requires f0 < 32 && f1 < 2 && f2 < 4 && f3 < 4 && f4 < 32 && f5 < 2 && f6 < 8
    ensures var l := f0 + 0x20 * f1 + 0x40 * f2 + 0x100 * f3 + 0x400 * f4 + 0x8000 * f5 + 0x10000 * f6;
            Xor(0xEDB88320, 0x80000 * g + l) == 0x80000 * Xor(0x1DB7, g) + 0x8320 + l - 2 * (0x20 * f1 + 0x100 * f3 + 0x8000 * f5)
  {
    hide *;
    SmallPowers();
    var g7 := g;
    OverZeros(0x1DB7, g7, f6, 3, 8);
    var g6 := g7 * 8 + f6;
    OverOnes(0xEDB8, g6, f5, 1, 2);
    var g5 := g6 * 2 + f5;
    OverZeros(0x1DB71, g5, f4, 5, 32);
    var g4 := g5 * 32 + f4;
    OverOnes(0x3B6E20, g4, f3, 2, 4);
    var g3 := g4 * 4 + f3;
    OverZeros(0xEDB883, g3, f2, 2, 4);
    var g2 := g3 * 4 + f2;
    OverOnes(0x3B6E20C, g2, f1, 1, 2);
    var g1 := g2 * 2 + f1;
    OverZeros(0x76DC419, g1, f0, 5, 32);
  }

  /** A step of an odd register, given by those parts. */
  lemma OddStep(c: nat, d: nat, f13: nat, f12: nat, f11: nat, f10: nat, f9: nat, f8: nat, f7: nat, f6: nat, f5: nat, f4: nat, f3: nat, f2: nat, f1: nat, f0: nat)
    requires f0 < 32 && f1 < 2 && f2 < 4 && f3 < 4 && f4 < 32 && f5 < 2 && f6 < 8 && f7 < 8 && f8 < 2 && f9 < 4 && f10 < 2 && f11 < 4 && f12 < 2 && f13 < 8
    requires c == 1 + 0x2 * f0 + 0x40 * f1 + 0x80 * f2 + 0x200 * f3 + 0x800 * f4 + 0x10000 * f5 + 0x20000 * f6 + 0x100000 * f7 + 0x800000 * f8 + 0x1000000 * f9 + 0x4000000 * f10 + 0x8000000 * f11 + 0x20000000 * f12 + 0x40000000 * f13
    requires d == 0xEDB88320 + f0 + 0x40 * f2 + 0x400 * f4 + 0x10000 * f6 + 0x400000 * f8 + 0x2000000 * f10 + 0x10000000 * f12
                  - (0x20 * f1 + 0x100 * f3 + 0x8000 * f5 + 0x80000 * f7 + 0x800000 * f9 + 0x4000000 * f11 + 0x20000000 * f13)
    ensures Step(c) == d
  {
    hide *;
    SmallPowers();
    HighFields(f7, f8, f9, f10, f11, f12, f13);
    var g := f7 + 0x8 * f8 + 0x10 * f9 + 0x40 * f10 + 0x80 * f11 + 0x200 * f12 + 0x400 * f13;
    LowFields(g, f0, f1, f2, f3, f4, f5, f6);
    StepOdd(c, 0x80000 * g + f0 + 0x20 * f1 + 0x40 * f2 + 0x100 * f3 + 0x400 * f4 + 0x8000 * f5 + 0x10000 * f6);
  }

  lemma StepOdd(c: nat, h: nat)
    requires c == 2 * h + 1
    ensures Step(c) == Xor(POLY, h)
  {
    hide Xor;
  }

  lemma EvenSteps(c: nat, d: nat)
    requires c == 2 * d
    ensures Step(c) == d
  {
  }

  lemma Eight(c0: nat, c1: nat, c2: nat, c3: nat, c4: nat, c5: nat, c6: nat, c7: nat, c8: nat)
    requires Step(c0) == c1 && Step(c1) == c2 && Step(c2) == c3 && Step(c3) == c4
    requires Step(c4) == c5 && Step(c5) == c6 && Step(c6) == c7 && Step(c7) == c8
    ensures Steps(c0, 8) == c8
  {
    hide *;
    NoSteps(c0);
    NextStep(c0, 0); NextStep(c0, 1); NextStep(c0, 2); NextStep(c0, 3);
    NextStep(c0, 4); NextStep(c0, 5); NextStep(c0, 6); NextStep(c0, 7);
  }

  // ---- the residue ----

  lemma Ones8()
    ensures Steps(0xFFFFFFFF, 8) == 0x2DFD1072
  {
    hide *;
    OddStep(0xFFFFFFFF, 0x92477CDF, 3, 1, 3, 1, 3, 1, 7, 7, 1, 31, 3, 3, 1, 31);
    OddStep(0x92477CDF, 0xA49B3D4F, 2, 0, 2, 0, 2, 0, 4, 3, 1, 15, 2, 1, 1, 15);
    OddStep(0xA49B3D4F, 0xBFF51D87, 2, 1, 0, 1, 0, 1, 1, 5, 1, 7, 2, 2, 1, 7);
    OddStep(0xBFF51D87, 0xB2420DE3, 2, 1, 3, 1, 3, 1, 7, 2, 1, 3, 2, 3, 0, 3);
    OddStep(0xB2420DE3, 0xB49985D1, 2, 1, 2, 0, 2, 0, 4, 1, 0, 1, 2, 3, 1, 17);
    OddStep(0xB49985D1, 0xB7F441C8, 2, 1, 2, 1, 0, 1, 1, 4, 1, 16, 2, 3, 1, 8);
    EvenSteps(0xB7F441C8, 0x5BFA20E4);
    EvenSteps(0x5BFA20E4, 0x2DFD1072);
    Eight(0xFFFFFFFF, 0x92477CDF, 0xA49B3D4F, 0xBFF51D87, 0xB2420DE3, 0xB49985D1, 0xB7F441C8, 0x5BFA20E4, 0x2DFD1072);
  }

  lemma Ones16()
    ensures Steps(0x2DFD1072, 8) == 0xBE26ED00
  {
    hide *;
    EvenSteps(0x2DFD1072, 0x16FE8839);
    OddStep(0x16FE8839, 0xE6C7C73C, 0, 0, 2, 1, 2, 1, 7, 7, 0, 17, 0, 0, 0, 28);
    EvenSteps(0xE6C7C73C, 0x7363E39E);
    EvenSteps(0x7363E39E, 0x39B1F1CF);
    OddStep(0x39B1F1CF, 0xF1607BC7, 0, 1, 3, 0, 1, 1, 3, 0, 1, 30, 0, 3, 1, 7);
    OddStep(0xF1607BC7, 0x9508BEC3, 3, 1, 2, 0, 1, 0, 6, 0, 0, 15, 1, 3, 1, 3);
    OddStep(0x9508BEC3, 0xA73CDC41, 2, 0, 2, 1, 1, 0, 0, 4, 0, 23, 3, 1, 1, 1);
    OddStep(0xA73CDC41, 0xBE26ED00, 2, 1, 0, 1, 3, 0, 3, 6, 0, 27, 2, 0, 1, 0);
    Eight(0x2DFD1072, 0x16FE8839, 0xE6C7C73C, 0x7363E39E, 0x39B1F1CF, 0xF1607BC7, 0x9508BEC3, 0xA73CDC41, 0xBE26ED00);
  }

  lemma Ones24()
    ensures Steps(0xBE26ED00, 8) == 0x00BE26ED
  {
    hide *;
    EvenSteps(0xBE26ED00, 0x5F137680);
    EvenSteps(0x5F137680, 0x2F89BB40);
    EvenSteps(0x2F89BB40, 0x17C4DDA0);
    EvenSteps(0x17C4DDA0, 0x0BE26ED0);
    EvenSteps(0x0BE26ED0, 0x05F13768);
    EvenSteps(0x05F13768, 0x02F89BB4);
    EvenSteps(0x02F89BB4, 0x017C4DDA);
    EvenSteps(0x017C4DDA, 0x00BE26ED);
    Eight(0xBE26ED00, 0x5F137680, 0x2F89BB40, 0x17C4DDA0, 0x0BE26ED0, 0x05F13768, 0x02F89BB4, 0x017C4DDA, 0x00BE26ED);
  }

  lemma Ones32()
    ensures Steps(0x00BE26ED, 8) == 0xDEBB20E3
  {
    hide *;
    OddStep(0x00BE26ED, 0xEDE79056, 0, 0, 0, 0, 0, 1, 3, 7, 0, 4, 3, 1, 1, 22);
    EvenSteps(0xEDE79056, 0x76F3C82B);
    OddStep(0x76F3C82B, 0xD6C16735, 1, 1, 2, 1, 2, 1, 7, 1, 1, 25, 0, 0, 0, 21);
    OddStep(0xD6C16735, 0x86D830BA, 3, 0, 2, 1, 2, 1, 4, 0, 1, 12, 3, 2, 0, 26);
    EvenSteps(0x86D830BA, 0x436C185D);
    OddStep(0x436C185D, 0xCC0E8F0E, 1, 0, 0, 0, 3, 0, 6, 6, 0, 3, 0, 0, 1, 14);
    EvenSteps(0xCC0E8F0E, 0x66074787);
    OddStep(0x66074787, 0xDEBB20E3, 1, 1, 0, 1, 2, 0, 0, 3, 1, 8, 3, 3, 0, 3);
    Eight(0x00BE26ED, 0xEDE79056, 0x76F3C82B, 0xD6C16735, 0x86D830BA, 0x436C185D, 0xCC0E8F0E, 0x66074787, 0xDEBB20E3);
  }

  lemma StepsOfOnes()
    ensures Steps(ONES, 32) == 0xDEBB20E3
  {
    hide *;
    SmallPowers();
    Ones8(); Ones16(); Ones24(); Ones32();
    StepsAdd(ONES, 8, 8); StepsAdd(ONES, 16, 8); StepsAdd(ONES, 24, 8);
  }

  lemma Complement(x: word)
    ensures Xor(x, ONES) == ONES - x
  {
    Powers();
    hide *;
    XorComm(x, ONES);
    XorOnes(x, 32);
  }

  /** A string followed by its checksum, lowest byte first, always has the same checksum. */
  lemma Residue(s: seq<byte>)
    ensures Checksum(0, s) < 0x1_0000_0000
    ensures Checksum(0, s + LeBytes(Checksum(0, s))) == 0x2144DF1C
  {
    hide *;
    SmallPowers();
    ChecksumIsWord(0, s);
    var k: word := Checksum(0, s);
    var le := LeBytes(k);
    ChecksumIs(s); ChecksumIs(s + le);
    var r := Register(ONES, s);
    RegisterConcat(ONES, s, le);
    BytesAtOnce(r, le);
    LeRoundTrip(k);
    XorCancel(ONES, r);
    StepsOfOnes();
    Complement(0xDEBB20E3);
  }

  lemma ChecksumIs(s: seq<byte>)
    ensures Checksum(0, s) == Xor(Register(ONES, s), ONES)
  {
    hide Register;
    XorZero(ONES);
    hide Xor;
  }

  // ---- the check value ----

  lemma NextByte(s: seq<byte>, b: byte, h: nat, l: byte, x: nat, d: nat)
    requires Register(ONES, s) == 256 * h + l && Xor(l, b) == x && Steps(256 * h + x, 8) == d
    ensures Register(ONES, s + [b]) == d
  {
    hide *;
    SmallPowers();
    RegisterConcat(ONES, s, [b]);
    RegisterOne(256 * h + l, b);
    ByteStepIs(256 * h + l, b);
    XorJoin(h, l, 0, b, 8);
    XorZero(h);
  }

  lemma ByteStepIs(c: nat, b: byte)
    ensures ByteStep(c, b) == Steps(Xor(c, b), 8)
  {
    hide Steps; hide Xor;
  }

  lemma Check1()
    ensures Register(ONES, [0x31]) == 0x7C231048
  {
    hide *;
    SmallPowers();
    NoBytes(ONES);
    EvenSteps(0xFFFFFFCE, 0x7FFFFFE7);
    OddStep(0x7FFFFFE7, 0xD2477CD3, 1, 1, 3, 1, 3, 1, 7, 7, 1, 31, 3, 3, 1, 19);
    OddStep(0xD2477CD3, 0x849B3D49, 3, 0, 2, 0, 2, 0, 4, 3, 1, 15, 2, 1, 1, 9);
    OddStep(0x849B3D49, 0xAFF51D84, 2, 0, 0, 1, 0, 1, 1, 5, 1, 7, 2, 2, 1, 4);
    EvenSteps(0xAFF51D84, 0x57FA8EC2);
    EvenSteps(0x57FA8EC2, 0x2BFD4761);
    OddStep(0x2BFD4761, 0xF8462090, 0, 1, 1, 0, 3, 1, 7, 6, 1, 8, 3, 2, 1, 16);
    EvenSteps(0xF8462090, 0x7C231048);
    Eight(0xFFFFFFCE, 0x7FFFFFE7, 0xD2477CD3, 0x849B3D49, 0xAFF51D84, 0x57FA8EC2, 0x2BFD4761, 0xF8462090, 0x7C231048);
    XorIsMachineXor(0xff, 0x31);
    NextByte([], 0x31, 0xFFFFFF, 0xff, 0xce, 0x7C231048);
    assert [] + [0x31] == [0x31];
  }

  lemma Check2()
    ensures Register(ONES, [0x31, 0x32]) == 0xB0ACBB32
  {
    hide *;
    SmallPowers();
    Check1();
    EvenSteps(0x7C23107A, 0x3E11883D);
    OddStep(0x3E11883D, 0xF2B0473E, 0, 1, 3, 1, 2, 0, 1, 0, 1, 17, 0, 0, 0, 30);
    EvenSteps(0xF2B0473E, 0x7958239F);
    OddStep(0x7958239F, 0xD11492EF, 1, 1, 3, 0, 1, 0, 5, 4, 0, 4, 1, 3, 0, 15);
    OddStep(0xD11492EF, 0x8532CA57, 3, 0, 2, 0, 1, 0, 1, 2, 0, 18, 1, 1, 1, 23);
    OddStep(0x8532CA57, 0xAF21E60B, 2, 0, 0, 1, 1, 0, 3, 1, 0, 25, 1, 0, 1, 11);
    OddStep(0xAF21E60B, 0xBA287025, 2, 1, 1, 1, 3, 0, 2, 0, 1, 28, 3, 0, 0, 5);
    OddStep(0xBA287025, 0xB0ACBB32, 2, 1, 3, 0, 2, 0, 2, 4, 0, 14, 0, 0, 0, 18);
    Eight(0x7C23107A, 0x3E11883D, 0xF2B0473E, 0x7958239F, 0xD11492EF, 0x8532CA57, 0xAF21E60B, 0xBA287025, 0xB0ACBB32);
    XorIsMachineXor(0x48, 0x32);
    NextByte([0x31], 0x32, 0x7C2310, 0x48, 0x7a, 0xB0ACBB32);
    assert [0x31] + [0x32] == [0x31, 0x32];
  }

  lemma Check3()
    ensures Register(ONES, [0x31, 0x32, 0x33]) == 0x77B79C2D
  {
    hide *;
    SmallPowers();
    Check2();
    OddStep(0xB0ACBB01, 0xB5EEDEA0, 2, 1, 2, 0, 0, 1, 2, 6, 0, 23, 1, 2, 0, 0);
    EvenSteps(0xB5EEDEA0, 0x5AF76F50);
    EvenSteps(0x5AF76F50, 0x2D7BB7A8);
    EvenSteps(0x2D7BB7A8, 0x16BDDBD4);
    EvenSteps(0x16BDDBD4, 0x0B5EEDEA);
    EvenSteps(0x0B5EEDEA, 0x05AF76F5);
    OddStep(0x05AF76F5, 0xEF6F385A, 0, 0, 0, 1, 1, 1, 2, 7, 1, 14, 3, 1, 1, 26);
    EvenSteps(0xEF6F385A, 0x77B79C2D);
    Eight(0xB0ACBB01, 0xB5EEDEA0, 0x5AF76F50, 0x2D7BB7A8, 0x16BDDBD4, 0x0B5EEDEA, 0x05AF76F5, 0xEF6F385A, 0x77B79C2D);
    XorIsMachineXor(0x32, 0x33);
    NextByte([0x31, 0x32], 0x33, 0xB0ACBB, 0x32, 0x01, 0x77B79C2D);
    assert [0x31, 0x32] + [0x33] == [0x31, 0x32, 0x33];
  }

  lemma Check4()
    ensures Register(ONES, [0x31, 0x32, 0x33, 0x34]) == 0x641C1F5C
  {
    hide *;
    SmallPowers();
    Check3();
    OddStep(0x77B79C19, 0xD6634D2C, 1, 1, 2, 1, 3, 1, 3, 3, 1, 19, 2, 0, 0, 12);
    EvenSteps(0xD6634D2C, 0x6B31A696);
    EvenSteps(0x6B31A696, 0x3598D34B);
    OddStep(0x3598D34B, 0xF774EA85, 0, 1, 2, 1, 1, 1, 1, 4, 0, 26, 1, 2, 1, 5);
    OddStep(0xF774EA85, 0x9602F662, 3, 1, 2, 1, 3, 0, 7, 2, 0, 29, 1, 1, 0, 2);
    EvenSteps(0x9602F662, 0x4B017B31);
    OddStep(0x4B017B31, 0xC8383EB8, 1, 0, 1, 0, 3, 0, 0, 0, 1, 15, 1, 2, 0, 24);
    EvenSteps(0xC8383EB8, 0x641C1F5C);
    Eight(0x77B79C19, 0xD6634D2C, 0x6B31A696, 0x3598D34B, 0xF774EA85, 0x9602F662, 0x4B017B31, 0xC8383EB8, 0x641C1F5C);
    XorIsMachineXor(0x2d, 0x34);
    NextByte([0x31, 0x32, 0x33], 0x34, 0x77B79C, 0x2d, 0x19, 0x641C1F5C);
    assert [0x31, 0x32, 0x33] + [0x34] == [0x31, 0x32, 0x33, 0x34];
  }

  lemma Check5()
    ensures Register(ONES, [0x31, 0x32, 0x33, 0x34, 0x35]) == 0x340AC5E3
  {
    hide *;
    SmallPowers();
    Check4();
    OddStep(0x641C1F69, 0xDFB68C94, 1, 1, 0, 1, 0, 0, 1, 6, 0, 3, 3, 2, 1, 20);
    EvenSteps(0xDFB68C94, 0x6FDB464A);
    EvenSteps(0x6FDB464A, 0x37EDA325);
    OddStep(0x37EDA325, 0xF64E52B2, 0, 1, 2, 1, 3, 1, 6, 6, 1, 20, 1, 2, 0, 18);
    EvenSteps(0xF64E52B2, 0x7B272959);
    OddStep(0x7B272959, 0xD02B178C, 1, 1, 3, 0, 3, 0, 2, 3, 1, 5, 0, 2, 1, 12);
    EvenSteps(0xD02B178C, 0x68158BC6);
    EvenSteps(0x68158BC6, 0x340AC5E3);
    Eight(0x641C1F69, 0xDFB68C94, 0x6FDB464A, 0x37EDA325, 0xF64E52B2, 0x7B272959, 0xD02B178C, 0x68158BC6, 0x340AC5E3);
    XorIsMachineXor(0x5c, 0x35);
    NextByte([0x31, 0x32, 0x33, 0x34], 0x35, 0x641C1F, 0x5c, 0x69, 0x340AC5E3);
    assert [0x31, 0x32, 0x33, 0x34] + [0x35] == [0x31, 0x32, 0x33, 0x34, 0x35];
  }

  lemma Check6()
    ensures Register(ONES, [0x31, 0x32, 0x33, 0x34, 0x35, 0x36]) == 0xF68D2C9E
  {
    hide *;
    SmallPowers();
    Check5();
    OddStep(0x340AC5D5, 0xF7BDE1CA, 0, 1, 2, 1, 0, 0, 0, 5, 0, 24, 2, 3, 1, 10);
    EvenSteps(0xF7BDE1CA, 0x7BDEF0E5);
    OddStep(0x7BDEF0E5, 0xD057FB52, 1, 1, 3, 0, 3, 1, 5, 7, 0, 30, 0, 1, 1, 18);
    EvenSteps(0xD057FB52, 0x682BFDA9);
    OddStep(0x682BFDA9, 0xD9AD7DF4, 1, 1, 1, 0, 0, 0, 2, 5, 1, 31, 2, 3, 0, 20);
    EvenSteps(0xD9AD7DF4, 0x6CD6BEFA);
    EvenSteps(0x6CD6BEFA, 0x366B5F7D);
    OddStep(0x366B5F7D, 0xF68D2C9E, 0, 1, 2, 1, 2, 0, 6, 5, 1, 11, 3, 2, 1, 30);
    Eight(0x340AC5D5, 0xF7BDE1CA, 0x7BDEF0E5, 0xD057FB52, 0x682BFDA9, 0xD9AD7DF4, 0x6CD6BEFA, 0x366B5F7D, 0xF68D2C9E);
    XorIsMachineXor(0xe3, 0x36);
    NextByte([0x31, 0x32, 0x33, 0x34, 0x35], 0x36, 0x340AC5, 0xe3, 0xd5, 0xF68D2C9E);
    assert [0x31, 0x32, 0x33, 0x34, 0x35] + [0x36] == [0x31, 0x32, 0x33, 0x34, 0x35, 0x36];
  }

  lemma Check7()
    ensures Register(ONES, [0x31, 0x32, 0x33, 0x34, 0x35, 0x36, 0x37]) == 0xAFFC9660
  {
    hide *;
    SmallPowers();
    Check6();
    OddStep(0xF68D2CA9, 0x96FE1574, 3, 1, 2, 1, 2, 1, 0, 6, 1, 5, 2, 1, 0, 20);
    EvenSteps(0x96FE1574, 0x4B7F0ABA);
    EvenSteps(0x4B7F0ABA, 0x25BF855D);
    OddStep(0x25BF855D, 0xFF67418E, 0, 1, 0, 1, 1, 1, 3, 7, 1, 16, 2, 2, 1, 14);
    EvenSteps(0xFF67418E, 0x7FB3A0C7);
    OddStep(0x7FB3A0C7, 0xD2615343, 1, 1, 3, 1, 3, 1, 3, 1, 1, 20, 0, 1, 1, 3);
    OddStep(0xD2615343, 0x84882A81, 3, 0, 2, 0, 2, 0, 6, 0, 1, 10, 1, 2, 1, 1);
    OddStep(0x84882A81, 0xAFFC9660, 2, 0, 0, 1, 0, 1, 0, 4, 0, 5, 1, 1, 0, 0);
    Eight(0xF68D2CA9, 0x96FE1574, 0x4B7F0ABA, 0x25BF855D, 0xFF67418E, 0x7FB3A0C7, 0xD2615343, 0x84882A81, 0xAFFC9660);
    XorIsMachineXor(0x9e, 0x37);
    NextByte([0x31, 0x32, 0x33, 0x34, 0x35, 0x36], 0x37, 0xF68D2C, 0x9e, 0xa9, 0xAFFC9660);
    assert [0x31, 0x32, 0x33, 0x34, 0x35, 0x36] + [0x37] == [0x31, 0x32, 0x33, 0x34, 0x35, 0x36, 0x37];
  }

  lemma Check8()
    ensures Register(ONES, [0x31, 0x32, 0x33, 0x34, 0x35, 0x36, 0x37, 0x38]) == 0x651F2550
  {
    hide *;
    SmallPowers();
    Check7();
    EvenSteps(0xAFFC9658, 0x57FE4B2C);
    EvenSteps(0x57FE4B2C, 0x2BFF2596);
    EvenSteps(0x2BFF2596, 0x15FF92CB);
    OddStep(0x15FF92CB, 0xE7474A45, 0, 0, 2, 1, 1, 1, 7, 7, 1, 18, 1, 1, 1, 5);
    OddStep(0xE7474A45, 0x9E1B2602, 3, 1, 0, 1, 3, 0, 4, 3, 1, 9, 1, 0, 1, 2);
    EvenSteps(0x9E1B2602, 0x4F0D9301);
    OddStep(0x4F0D9301, 0xCA3E4AA0, 1, 0, 1, 1, 3, 0, 0, 6, 1, 18, 1, 2, 0, 0);
    EvenSteps(0xCA3E4AA0, 0x651F2550);
    Eight(0xAFFC9658, 0x57FE4B2C, 0x2BFF2596, 0x15FF92CB, 0xE7474A45, 0x9E1B2602, 0x4F0D9301, 0xCA3E4AA0, 0x651F2550);
    XorIsMachineXor(0x60, 0x38);
    NextByte([0x31, 0x32, 0x33, 0x34, 0x35, 0x36, 0x37], 0x38, 0xAFFC96, 0x60, 0x58, 0x651F2550);
    assert [0x31, 0x32, 0x33, 0x34, 0x35, 0x36, 0x37] + [0x38] == [0x31, 0x32, 0x33, 0x34, 0x35, 0x36, 0x37, 0x38];
  }

  lemma Check9()
    ensures Register(ONES, [0x31, 0x32, 0x33, 0x34, 0x35, 0x36, 0x37, 0x38, 0x39]) == 0x340BC6D9
  {
    hide *;
    SmallPowers();
    Check8();
    OddStep(0x651F2569, 0xDF371194, 1, 1, 0, 1, 1, 0, 1, 7, 1, 4, 2, 2, 1, 20);
    EvenSteps(0xDF371194, 0x6F9B88CA);
    EvenSteps(0x6F9B88CA, 0x37CDC465);
    OddStep(0x37CDC465, 0xF65E6112, 0, 1, 2, 1, 3, 1, 4, 6, 1, 24, 2, 0, 1, 18);
    EvenSteps(0xF65E6112, 0x7B2F3089);
    OddStep(0x7B2F3089, 0xD02F1B64, 1, 1, 3, 0, 3, 0, 2, 7, 1, 6, 0, 1, 0, 4);
    EvenSteps(0xD02F1B64, 0x68178DB2);
    EvenSteps(0x68178DB2, 0x340BC6D9);
    Eight(0x651F2569, 0xDF371194, 0x6F9B88CA, 0x37CDC465, 0xF65E6112, 0x7B2F3089, 0xD02F1B64, 0x68178DB2, 0x340BC6D9);
    XorIsMachineXor(0x50, 0x39);
    NextByte([0x31, 0x32, 0x33, 0x34, 0x35, 0x36, 0x37, 0x38], 0x39, 0x651F25, 0x50, 0x69, 0x340BC6D9);
    assert [0x31, 0x32, 0x33, 0x34, 0x35, 0x36, 0x37, 0x38] + [0x39] == [0x31, 0x32, 0x33, 0x34, 0x35, 0x36, 0x37, 0x38, 0x39];
  }

  /** The checksum of "123456789". */
  lemma CheckValue()
    ensures Checksum(0, [0x31, 0x32, 0x33, 0x34, 0x35, 0x36, 0x37, 0x38, 0x39]) == 0xCBF43926
  {
    hide *;
    SmallPowers();
    Check9();
    ChecksumIs([0x31, 0x32, 0x33, 0x34, 0x35, 0x36, 0x37, 0x38, 0x39]);
    Complement(0x340BC6D9);
  }
}
