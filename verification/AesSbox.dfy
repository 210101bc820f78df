/** The substitution table of AES is an affine map of the inverse in GF(256): section 5.1.1 of FIPS 197. */
module AesSbox {
  import opened AesField
  import opened AesTables
  import opened Bits
  import opened Gf256

  /** What x is multiplied by to give 1; 0 for 0. */
  function Inverse(x: byte): byte {
    match x / 16
    case 0 => Row(x % 16, 0x00, 0x01, 0x8d, 0xf6, 0xcb, 0x52, 0x7b, 0xd1, 0xe8, 0x4f, 0x29, 0xc0, 0xb0, 0xe1, 0xe5, 0xc7)
    case 1 => Row(x % 16, 0x74, 0xb4, 0xaa, 0x4b, 0x99, 0x2b, 0x60, 0x5f, 0x58, 0x3f, 0xfd, 0xcc, 0xff, 0x40, 0xee, 0xb2)
    case 2 => Row(x % 16, 0x3a, 0x6e, 0x5a, 0xf1, 0x55, 0x4d, 0xa8, 0xc9, 0xc1, 0x0a, 0x98, 0x15, 0x30, 0x44, 0xa2, 0xc2)
    case 3 => Row(x % 16, 0x2c, 0x45, 0x92, 0x6c, 0xf3, 0x39, 0x66, 0x42, 0xf2, 0x35, 0x20, 0x6f, 0x77, 0xbb, 0x59, 0x19)
    case 4 => Row(x % 16, 0x1d, 0xfe, 0x37, 0x67, 0x2d, 0x31, 0xf5, 0x69, 0xa7, 0x64, 0xab, 0x13, 0x54, 0x25, 0xe9, 0x09)
    case 5 => Row(x % 16, 0xed, 0x5c, 0x05, 0xca, 0x4c, 0x24, 0x87, 0xbf, 0x18, 0x3e, 0x22, 0xf0, 0x51, 0xec, 0x61, 0x17)
    case 6 => Row(x % 16, 0x16, 0x5e, 0xaf, 0xd3, 0x49, 0xa6, 0x36, 0x43, 0xf4, 0x47, 0x91, 0xdf, 0x33, 0x93, 0x21, 0x3b)
    case 7 => Row(x % 16, 0x79, 0xb7, 0x97, 0x85, 0x10, 0xb5, 0xba, 0x3c, 0xb6, 0x70, 0xd0, 0x06, 0xa1, 0xfa, 0x81, 0x82)
    case 8 => Row(x % 16, 0x83, 0x7e, 0x7f, 0x80, 0x96, 0x73, 0xbe, 0x56, 0x9b, 0x9e, 0x95, 0xd9, 0xf7, 0x02, 0xb9, 0xa4)
    case 9 => Row(x % 16, 0xde, 0x6a, 0x32, 0x6d, 0xd8, 0x8a, 0x84, 0x72, 0x2a, 0x14, 0x9f, 0x88, 0xf9, 0xdc, 0x89, 0x9a)
    case 10 => Row(x % 16, 0xfb, 0x7c, 0x2e, 0xc3, 0x8f, 0xb8, 0x65, 0x48, 0x26, 0xc8, 0x12, 0x4a, 0xce, 0xe7, 0xd2, 0x62)
    case 11 => Row(x % 16, 0x0c, 0xe0, 0x1f, 0xef, 0x11, 0x75, 0x78, 0x71, 0xa5, 0x8e, 0x76, 0x3d, 0xbd, 0xbc, 0x86, 0x57)
    case 12 => Row(x % 16, 0x0b, 0x28, 0x2f, 0xa3, 0xda, 0xd4, 0xe4, 0x0f, 0xa9, 0x27, 0x53, 0x04, 0x1b, 0xfc, 0xac, 0xe6)
    case 13 => Row(x % 16, 0x7a, 0x07, 0xae, 0x63, 0xc5, 0xdb, 0xe2, 0xea, 0x94, 0x8b, 0xc4, 0xd5, 0x9d, 0xf8, 0x90, 0x6b)
    case 14 => Row(x % 16, 0xb1, 0x0d, 0xd6, 0xeb, 0xc6, 0x0e, 0xcf, 0xad, 0x08, 0x4e, 0xd7, 0xe3, 0x5d, 0x50, 0x1e, 0xb3)
    case _ => Row(x % 16, 0x5b, 0x23, 0x38, 0x34, 0x68, 0x46, 0x03, 0x8c, 0xdd, 0x9c, 0x7d, 0xa0, 0xcd, 0x1a, 0x41, 0x1c)
  }

  // ---- doubling in plain arithmetic ----

  function XtimeVal(a: byte): (r: byte) {
    if a < 128 then 2 * a else 2 * a - 229 - 4 * (a % 2) - 16 * (a / 4 % 4)
  }

  /** Exclusive or of an even number with 0x1b toggles bits 0, 1, 3 and 4. */
  lemma ToggledBits(c0: nat, c1: nat, c2: nat, c3: nat, h: nat)
    requires c0 < 2 && c1 < 2 && c2 < 2 && c3 < 2
    ensures var q := c0 + 2 * (c1 + 2 * (c2 + 2 * (c3 + 2 * h)));
            Xor(2 * q, 27) == 2 * q + 27 - 4 * c0 - 16 * (c2 + 2 * c3)
  {
    hide Xor;
    var q3 := c3 + 2 * h;
    var q2 := c2 + 2 * q3;
    var q1 := c1 + 2 * q2;
    XorPush(0, c0 + 2 * q1, 1, 13); XorPush(c0, q1, 1, 6);
    XorPush(c1, q2, 0, 3); XorPush(c2, q3, 1, 1); XorPush(c3, h, 1, 0);
    XorZero(h);
  }

  lemma XtimeValIsXTime(a: byte)
    ensures XtimeVal(a) == XTime(a, AES_POLY)
  {
    if a >= 128 {
      var q := a - 128;
      var q1, c0 := q / 2, q % 2;
      var q2, c1 := q1 / 2, q1 % 2;
      var q3, c2 := q2 / 2, q2 % 2;
      var h, c3 := q3 / 2, q3 % 2;
      HighDouble(a, c0, c1, c2, c3, h);
    }
  }

  lemma HighDouble(a: byte, c0: nat, c1: nat, c2: nat, c3: nat, h: nat)
    requires c0 < 2 && c1 < 2 && c2 < 2 && c3 < 2
    requires a == 128 + (c0 + 2 * (c1 + 2 * (c2 + 2 * (c3 + 2 * h))))
    ensures XtimeVal(a) == XTime(a, AES_POLY)
  {
    hide Xor;
    ToggledBits(c0, c1, c2, c3, h);
    HighBits(a, c0, c1, c2, c3, h);
    var r: byte := 2 * (a - 128);
    assert 2 * a == 256 + r;
    XorBit8(r, 27);
  }

  lemma HighBits(a: nat, c0: nat, c1: nat, c2: nat, c3: nat, h: nat)
    requires c0 < 2 && c1 < 2 && c2 < 2 && c3 < 2
    requires a == 128 + (c0 + 2 * (c1 + 2 * (c2 + 2 * (c3 + 2 * h))))
    ensures a % 2 == c0 && a / 4 % 4 == c2 + 2 * c3
  {
    var m := c2 + 2 * c3;
    assert a / 4 == m + 4 * (h + 8);
  }

  // ---- pairs of inverses: doubling the one halves the other ----

  predicate Pair(x: int, y: int) {
    0 <= x < 256 && 0 <= y < 256 && Mul(x, y, AES_POLY) == 1
  }

  lemma Next(a: byte, b: byte, a': byte, b': byte)
    requires Pair(a, a') && XtimeVal(a) == b && XtimeVal(b') == a'
    ensures Pair(b, b')
  {
    XtimeValIsXTime(a); XtimeValIsXTime(b');
    hide Mul; hide XTime;
    MulXTimeLeft(a, b', AES_POLY); MulXTimeRight(a, b', AES_POLY);
  }

  /** The product by b from the one by half of b. */
  lemma Horner(a: byte, b: byte, h: byte)
    requires b > 0 && Mul(a, b / 2, AES_POLY) == h
    ensures Mul(a, b, AES_POLY) == XorB(XtimeVal(h), if b % 2 == 1 then a else 0)
  {
    XtimeValIsXTime(h);
    hide XTime; hide XorB;
  }

  lemma One(a: byte)
    ensures Mul(a, 1, AES_POLY) == a
  {
    hide Mul;
    MulComm(a, 1, AES_POLY); OneMul(a, AES_POLY);
  }

  lemma First1()
    ensures Pair(1, 0x01)
  {
    hide Mul; hide Xor;
    One(0x01);
    MulComm(1, 0x01, AES_POLY);
  }

  lemma First3()
    ensures Pair(3, 0xf6)
  {
    hide Mul; hide Xor;
    One(0xf6);
    Horner(0xf6, 3, 0xf6); XorIsMachineXor(0xf7, 0xf6);
    MulComm(3, 0xf6, AES_POLY);
  }

  lemma First5()
    ensures Pair(5, 0x52)
  {
    hide Mul; hide Xor;
    One(0x52);
    Horner(0x52, 2, 0x52); XorIsMachineXor(0xa4, 0x00);
    Horner(0x52, 5, 0xa4); XorIsMachineXor(0x53, 0x52);
    MulComm(5, 0x52, AES_POLY);
  }

  lemma First7()
    ensures Pair(7, 0xd1)
  {
    hide Mul; hide Xor;
    One(0xd1);
    Horner(0xd1, 3, 0xd1); XorIsMachineXor(0xb9, 0xd1);
    Horner(0xd1, 7, 0x68); XorIsMachineXor(0xd0, 0xd1);
    MulComm(7, 0xd1, AES_POLY);
  }

  lemma First9()
    ensures Pair(9, 0x4f)
  {
    hide Mul; hide Xor;
    One(0x4f);
    Horner(0x4f, 2, 0x4f); XorIsMachineXor(0x9e, 0x00);
    Horner(0x4f, 4, 0x9e); XorIsMachineXor(0x27, 0x00);
    Horner(0x4f, 9, 0x27); XorIsMachineXor(0x4e, 0x4f);
    MulComm(9, 0x4f, AES_POLY);
  }

  lemma Orbit01()
    ensures Pair(0x01, 0x01) && Pair(0x02, 0x8d) && Pair(0x04, 0xcb) && Pair(0x08, 0xe8) && Pair(0x10, 0x74) &&
            Pair(0x20, 0x3a) && Pair(0x40, 0x1d) && Pair(0x80, 0x83) && Pair(0x1b, 0xcc) && Pair(0x36, 0x66) &&
            Pair(0x6c, 0x33) && Pair(0xd8, 0x94) && Pair(0xab, 0x4a) && Pair(0x4d, 0x25) && Pair(0x9a, 0x9f) &&
            Pair(0x2f, 0xc2) && Pair(0x5e, 0x61) && Pair(0xbc, 0xbd)
  {
    hide Pair;
    First1();
    Next(0x01, 0x02, 0x01, 0x8d); Next(0x02, 0x04, 0x8d, 0xcb); Next(0x04, 0x08, 0xcb, 0xe8);
    Next(0x08, 0x10, 0xe8, 0x74); Next(0x10, 0x20, 0x74, 0x3a); Next(0x20, 0x40, 0x3a, 0x1d);
    Next(0x40, 0x80, 0x1d, 0x83); Next(0x80, 0x1b, 0x83, 0xcc); Next(0x1b, 0x36, 0xcc, 0x66);
    Next(0x36, 0x6c, 0x66, 0x33); Next(0x6c, 0xd8, 0x33, 0x94); Next(0xd8, 0xab, 0x94, 0x4a);
    Next(0xab, 0x4d, 0x4a, 0x25); Next(0x4d, 0x9a, 0x25, 0x9f); Next(0x9a, 0x2f, 0x9f, 0xc2);
    Next(0x2f, 0x5e, 0xc2, 0x61); Next(0x5e, 0xbc, 0x61, 0xbd);
  }

  lemma Orbitbc()
    ensures Pair(0x63, 0xd3) && Pair(0xc6, 0xe4) && Pair(0x97, 0x72) && Pair(0x35, 0x39) && Pair(0x6a, 0x91) &&
            Pair(0xd4, 0xc5) && Pair(0xb3, 0xef) && Pair(0x7d, 0xfa) && Pair(0xfa, 0x7d) && Pair(0xef, 0xb3) &&
            Pair(0xc5, 0xd4) && Pair(0x91, 0x6a) && Pair(0x39, 0x35) && Pair(0x72, 0x97) && Pair(0xe4, 0xc6) &&
            Pair(0xd3, 0x63) && Pair(0xbd, 0xbc)
  {
    hide Pair;
    Orbit01();
    Next(0xbc, 0x63, 0xbd, 0xd3); Next(0x63, 0xc6, 0xd3, 0xe4); Next(0xc6, 0x97, 0xe4, 0x72);
    Next(0x97, 0x35, 0x72, 0x39); Next(0x35, 0x6a, 0x39, 0x91); Next(0x6a, 0xd4, 0x91, 0xc5);
    Next(0xd4, 0xb3, 0xc5, 0xef); Next(0xb3, 0x7d, 0xef, 0xfa); Next(0x7d, 0xfa, 0xfa, 0x7d);
    Next(0xfa, 0xef, 0x7d, 0xb3); Next(0xef, 0xc5, 0xb3, 0xd4); Next(0xc5, 0x91, 0xd4, 0x6a);
    Next(0x91, 0x39, 0x6a, 0x35); Next(0x39, 0x72, 0x35, 0x97); Next(0x72, 0xe4, 0x97, 0xc6);
    Next(0xe4, 0xd3, 0xc6, 0x63); Next(0xd3, 0xbd, 0x63, 0xbc);
  }

  lemma Orbitbd()
    ensures Pair(0x61, 0x5e) && Pair(0xc2, 0x2f) && Pair(0x9f, 0x9a) && Pair(0x25, 0x4d) && Pair(0x4a, 0xab) &&
            Pair(0x94, 0xd8) && Pair(0x33, 0x6c) && Pair(0x66, 0x36) && Pair(0xcc, 0x1b) && Pair(0x83, 0x80) &&
            Pair(0x1d, 0x40) && Pair(0x3a, 0x20) && Pair(0x74, 0x10) && Pair(0xe8, 0x08) && Pair(0xcb, 0x04) &&
            Pair(0x8d, 0x02)
  {
    hide Pair;
    Orbitbc();
    Next(0xbd, 0x61, 0xbc, 0x5e); Next(0x61, 0xc2, 0x5e, 0x2f); Next(0xc2, 0x9f, 0x2f, 0x9a);
    Next(0x9f, 0x25, 0x9a, 0x4d); Next(0x25, 0x4a, 0x4d, 0xab); Next(0x4a, 0x94, 0xab, 0xd8);
    Next(0x94, 0x33, 0xd8, 0x6c); Next(0x33, 0x66, 0x6c, 0x36); Next(0x66, 0xcc, 0x36, 0x1b);
    Next(0xcc, 0x83, 0x1b, 0x80); Next(0x83, 0x1d, 0x80, 0x40); Next(0x1d, 0x3a, 0x40, 0x20);
    Next(0x3a, 0x74, 0x20, 0x10); Next(0x74, 0xe8, 0x10, 0x08); Next(0xe8, 0xcb, 0x08, 0x04);
    Next(0xcb, 0x8d, 0x04, 0x02);
  }

  lemma Orbit03()
    ensures Pair(0x03, 0xf6) && Pair(0x06, 0x7b) && Pair(0x0c, 0xb0) && Pair(0x18, 0x58) && Pair(0x30, 0x2c) &&
            Pair(0x60, 0x16) && Pair(0xc0, 0x0b) && Pair(0x9b, 0x88) && Pair(0x2d, 0x44) && Pair(0x5a, 0x22) &&
            Pair(0xb4, 0x11) && Pair(0x73, 0x85) && Pair(0xe6, 0xcf) && Pair(0xd7, 0xea) && Pair(0xb5, 0x75) &&
            Pair(0x71, 0xb7) && Pair(0xe2, 0xd6) && Pair(0xdf, 0x6b)
  {
    hide Pair;
    First3();
    Next(0x03, 0x06, 0xf6, 0x7b); Next(0x06, 0x0c, 0x7b, 0xb0); Next(0x0c, 0x18, 0xb0, 0x58);
    Next(0x18, 0x30, 0x58, 0x2c); Next(0x30, 0x60, 0x2c, 0x16); Next(0x60, 0xc0, 0x16, 0x0b);
    Next(0xc0, 0x9b, 0x0b, 0x88); Next(0x9b, 0x2d, 0x88, 0x44); Next(0x2d, 0x5a, 0x44, 0x22);
    Next(0x5a, 0xb4, 0x22, 0x11); Next(0xb4, 0x73, 0x11, 0x85); Next(0x73, 0xe6, 0x85, 0xcf);
    Next(0xe6, 0xd7, 0xcf, 0xea); Next(0xd7, 0xb5, 0xea, 0x75); Next(0xb5, 0x71, 0x75, 0xb7);
    Next(0x71, 0xe2, 0xb7, 0xd6); Next(0xe2, 0xdf, 0xd6, 0x6b);
  }

  lemma Orbitdf()
    ensures Pair(0xa5, 0xb8) && Pair(0x51, 0x5c) && Pair(0xa2, 0x2e) && Pair(0x5f, 0x17) && Pair(0xbe, 0x86) &&
            Pair(0x67, 0x43) && Pair(0xce, 0xac) && Pair(0x87, 0x56) && Pair(0x15, 0x2b) && Pair(0x2a, 0x98) &&
            Pair(0x54, 0x4c) && Pair(0xa8, 0x26) && Pair(0x4b, 0x13) && Pair(0x96, 0x84) && Pair(0x37, 0x42) &&
            Pair(0x6e, 0x21) && Pair(0xdc, 0x9d)
  {
    hide Pair;
    Orbit03();
    Next(0xdf, 0xa5, 0x6b, 0xb8); Next(0xa5, 0x51, 0xb8, 0x5c); Next(0x51, 0xa2, 0x5c, 0x2e);
    Next(0xa2, 0x5f, 0x2e, 0x17); Next(0x5f, 0xbe, 0x17, 0x86); Next(0xbe, 0x67, 0x86, 0x43);
    Next(0x67, 0xce, 0x43, 0xac); Next(0xce, 0x87, 0xac, 0x56); Next(0x87, 0x15, 0x56, 0x2b);
    Next(0x15, 0x2a, 0x2b, 0x98); Next(0x2a, 0x54, 0x98, 0x4c); Next(0x54, 0xa8, 0x4c, 0x26);
    Next(0xa8, 0x4b, 0x26, 0x13); Next(0x4b, 0x96, 0x13, 0x84); Next(0x96, 0x37, 0x84, 0x42);
    Next(0x37, 0x6e, 0x42, 0x21); Next(0x6e, 0xdc, 0x21, 0x9d);
  }

  lemma Orbitdc()
    ensures Pair(0xa3, 0xc3) && Pair(0x5d, 0xec) && Pair(0xba, 0x76) && Pair(0x6f, 0x3b) && Pair(0xde, 0x90) &&
            Pair(0xa7, 0x48) && Pair(0x55, 0x24) && Pair(0xaa, 0x12) && Pair(0x4f, 0x09) && Pair(0x9e, 0x89) &&
            Pair(0x27, 0xc9) && Pair(0x4e, 0xe9) && Pair(0x9c, 0xf9) && Pair(0x23, 0xf1) && Pair(0x46, 0xf5) &&
            Pair(0x8c, 0xf7)
  {
    hide Pair;
    Orbitdf();
    Next(0xdc, 0xa3, 0x9d, 0xc3); Next(0xa3, 0x5d, 0xc3, 0xec); Next(0x5d, 0xba, 0xec, 0x76);
    Next(0xba, 0x6f, 0x76, 0x3b); Next(0x6f, 0xde, 0x3b, 0x90); Next(0xde, 0xa7, 0x90, 0x48);
    Next(0xa7, 0x55, 0x48, 0x24); Next(0x55, 0xaa, 0x24, 0x12); Next(0xaa, 0x4f, 0x12, 0x09);
    Next(0x4f, 0x9e, 0x09, 0x89); Next(0x9e, 0x27, 0x89, 0xc9); Next(0x27, 0x4e, 0xc9, 0xe9);
    Next(0x4e, 0x9c, 0xe9, 0xf9); Next(0x9c, 0x23, 0xf9, 0xf1); Next(0x23, 0x46, 0xf1, 0xf5);
    Next(0x46, 0x8c, 0xf5, 0xf7);
  }

  lemma Orbit05()
    ensures Pair(0x05, 0x52) && Pair(0x0a, 0x29) && Pair(0x14, 0x99) && Pair(0x28, 0xc1) && Pair(0x50, 0xed) &&
            Pair(0xa0, 0xfb) && Pair(0x5b, 0xf0) && Pair(0xb6, 0x78) && Pair(0x77, 0x3c) && Pair(0xee, 0x1e) &&
            Pair(0xc7, 0x0f) && Pair(0x95, 0x8a) && Pair(0x31, 0x45) && Pair(0x62, 0xaf) && Pair(0xc4, 0xda) &&
            Pair(0x93, 0x6d) && Pair(0x3d, 0xbb) && Pair(0x7a, 0xd0)
  {
    hide Pair;
    First5();
    Next(0x05, 0x0a, 0x52, 0x29); Next(0x0a, 0x14, 0x29, 0x99); Next(0x14, 0x28, 0x99, 0xc1);
    Next(0x28, 0x50, 0xc1, 0xed); Next(0x50, 0xa0, 0xed, 0xfb); Next(0xa0, 0x5b, 0xfb, 0xf0);
    Next(0x5b, 0xb6, 0xf0, 0x78); Next(0xb6, 0x77, 0x78, 0x3c); Next(0x77, 0xee, 0x3c, 0x1e);
    Next(0xee, 0xc7, 0x1e, 0x0f); Next(0xc7, 0x95, 0x0f, 0x8a); Next(0x95, 0x31, 0x8a, 0x45);
    Next(0x31, 0x62, 0x45, 0xaf); Next(0x62, 0xc4, 0xaf, 0xda); Next(0xc4, 0x93, 0xda, 0x6d);
    Next(0x93, 0x3d, 0x6d, 0xbb); Next(0x3d, 0x7a, 0xbb, 0xd0);
  }

  lemma Orbit7a()
    ensures Pair(0xf4, 0x68) && Pair(0xf3, 0x34) && Pair(0xfd, 0x1a) && Pair(0xe1, 0x0d) && Pair(0xd9, 0x8b) &&
            Pair(0xa9, 0xc8) && Pair(0x49, 0x64) && Pair(0x92, 0x32) && Pair(0x3f, 0x19) && Pair(0x7e, 0x81) &&
            Pair(0xfc, 0xcd) && Pair(0xe3, 0xeb) && Pair(0xdd, 0xf8) && Pair(0xa1, 0x7c) && Pair(0x59, 0x3e) &&
            Pair(0xb2, 0x1f) && Pair(0x7f, 0x82)
  {
    hide Pair;
    Orbit05();
    Next(0x7a, 0xf4, 0xd0, 0x68); Next(0xf4, 0xf3, 0x68, 0x34); Next(0xf3, 0xfd, 0x34, 0x1a);
    Next(0xfd, 0xe1, 0x1a, 0x0d); Next(0xe1, 0xd9, 0x0d, 0x8b); Next(0xd9, 0xa9, 0x8b, 0xc8);
    Next(0xa9, 0x49, 0xc8, 0x64); Next(0x49, 0x92, 0x64, 0x32); Next(0x92, 0x3f, 0x32, 0x19);
    Next(0x3f, 0x7e, 0x19, 0x81); Next(0x7e, 0xfc, 0x81, 0xcd); Next(0xfc, 0xe3, 0xcd, 0xeb);
    Next(0xe3, 0xdd, 0xeb, 0xf8); Next(0xdd, 0xa1, 0xf8, 0x7c); Next(0xa1, 0x59, 0x7c, 0x3e);
    Next(0x59, 0xb2, 0x3e, 0x1f); Next(0xb2, 0x7f, 0x1f, 0x82);
  }

  lemma Orbit7f()
    ensures Pair(0xfe, 0x41) && Pair(0xe7, 0xad) && Pair(0xd5, 0xdb) && Pair(0xb1, 0xe0) && Pair(0x79, 0x70) &&
            Pair(0xf2, 0x38) && Pair(0xff, 0x1c) && Pair(0xe5, 0x0e) && Pair(0xd1, 0x07) && Pair(0xb9, 0x8e) &&
            Pair(0x69, 0x47) && Pair(0xd2, 0xae) && Pair(0xbf, 0x57) && Pair(0x65, 0xa6) && Pair(0xca, 0x53) &&
            Pair(0x8f, 0xa4)
  {
    hide Pair;
    Orbit7a();
    Next(0x7f, 0xfe, 0x82, 0x41); Next(0xfe, 0xe7, 0x41, 0xad); Next(0xe7, 0xd5, 0xad, 0xdb);
    Next(0xd5, 0xb1, 0xdb, 0xe0); Next(0xb1, 0x79, 0xe0, 0x70); Next(0x79, 0xf2, 0x70, 0x38);
    Next(0xf2, 0xff, 0x38, 0x1c); Next(0xff, 0xe5, 0x1c, 0x0e); Next(0xe5, 0xd1, 0x0e, 0x07);
    Next(0xd1, 0xb9, 0x07, 0x8e); Next(0xb9, 0x69, 0x8e, 0x47); Next(0x69, 0xd2, 0x47, 0xae);
    Next(0xd2, 0xbf, 0xae, 0x57); Next(0xbf, 0x65, 0x57, 0xa6); Next(0x65, 0xca, 0xa6, 0x53);
    Next(0xca, 0x8f, 0x53, 0xa4);
  }

  lemma Orbit07()
    ensures Pair(0x07, 0xd1) && Pair(0x0e, 0xe5) && Pair(0x1c, 0xff) && Pair(0x38, 0xf2) && Pair(0x70, 0x79) &&
            Pair(0xe0, 0xb1) && Pair(0xdb, 0xd5) && Pair(0xad, 0xe7) && Pair(0x41, 0xfe) && Pair(0x82, 0x7f) &&
            Pair(0x1f, 0xb2) && Pair(0x3e, 0x59) && Pair(0x7c, 0xa1) && Pair(0xf8, 0xdd) && Pair(0xeb, 0xe3) &&
            Pair(0xcd, 0xfc) && Pair(0x81, 0x7e) && Pair(0x19, 0x3f)
  {
    hide Pair;
    First7();
    Next(0x07, 0x0e, 0xd1, 0xe5); Next(0x0e, 0x1c, 0xe5, 0xff); Next(0x1c, 0x38, 0xff, 0xf2);
    Next(0x38, 0x70, 0xf2, 0x79); Next(0x70, 0xe0, 0x79, 0xb1); Next(0xe0, 0xdb, 0xb1, 0xd5);
    Next(0xdb, 0xad, 0xd5, 0xe7); Next(0xad, 0x41, 0xe7, 0xfe); Next(0x41, 0x82, 0xfe, 0x7f);
    Next(0x82, 0x1f, 0x7f, 0xb2); Next(0x1f, 0x3e, 0xb2, 0x59); Next(0x3e, 0x7c, 0x59, 0xa1);
    Next(0x7c, 0xf8, 0xa1, 0xdd); Next(0xf8, 0xeb, 0xdd, 0xe3); Next(0xeb, 0xcd, 0xe3, 0xfc);
    Next(0xcd, 0x81, 0xfc, 0x7e); Next(0x81, 0x19, 0x7e, 0x3f);
  }

  lemma Orbit19()
    ensures Pair(0x32, 0x92) && Pair(0x64, 0x49) && Pair(0xc8, 0xa9) && Pair(0x8b, 0xd9) && Pair(0x0d, 0xe1) &&
            Pair(0x1a, 0xfd) && Pair(0x34, 0xf3) && Pair(0x68, 0xf4) && Pair(0xd0, 0x7a) && Pair(0xbb, 0x3d) &&
            Pair(0x6d, 0x93) && Pair(0xda, 0xc4) && Pair(0xaf, 0x62) && Pair(0x45, 0x31) && Pair(0x8a, 0x95) &&
            Pair(0x0f, 0xc7) && Pair(0x1e, 0xee)
  {
    hide Pair;
    Orbit07();
    Next(0x19, 0x32, 0x3f, 0x92); Next(0x32, 0x64, 0x92, 0x49); Next(0x64, 0xc8, 0x49, 0xa9);
    Next(0xc8, 0x8b, 0xa9, 0xd9); Next(0x8b, 0x0d, 0xd9, 0xe1); Next(0x0d, 0x1a, 0xe1, 0xfd);
    Next(0x1a, 0x34, 0xfd, 0xf3); Next(0x34, 0x68, 0xf3, 0xf4); Next(0x68, 0xd0, 0xf4, 0x7a);
    Next(0xd0, 0xbb, 0x7a, 0x3d); Next(0xbb, 0x6d, 0x3d, 0x93); Next(0x6d, 0xda, 0x93, 0xc4);
    Next(0xda, 0xaf, 0xc4, 0x62); Next(0xaf, 0x45, 0x62, 0x31); Next(0x45, 0x8a, 0x31, 0x95);
    Next(0x8a, 0x0f, 0x95, 0xc7); Next(0x0f, 0x1e, 0xc7, 0xee);
  }

  lemma Orbit1e()
    ensures Pair(0x3c, 0x77) && Pair(0x78, 0xb6) && Pair(0xf0, 0x5b) && Pair(0xfb, 0xa0) && Pair(0xed, 0x50) &&
            Pair(0xc1, 0x28) && Pair(0x99, 0x14) && Pair(0x29, 0x0a) && Pair(0x52, 0x05) && Pair(0xa4, 0x8f) &&
            Pair(0x53, 0xca) && Pair(0xa6, 0x65) && Pair(0x57, 0xbf) && Pair(0xae, 0xd2) && Pair(0x47, 0x69) &&
            Pair(0x8e, 0xb9)
  {
    hide Pair;
    Orbit19();
    Next(0x1e, 0x3c, 0xee, 0x77); Next(0x3c, 0x78, 0x77, 0xb6); Next(0x78, 0xf0, 0xb6, 0x5b);
    Next(0xf0, 0xfb, 0x5b, 0xa0); Next(0xfb, 0xed, 0xa0, 0x50); Next(0xed, 0xc1, 0x50, 0x28);
    Next(0xc1, 0x99, 0x28, 0x14); Next(0x99, 0x29, 0x14, 0x0a); Next(0x29, 0x52, 0x0a, 0x05);
    Next(0x52, 0xa4, 0x05, 0x8f); Next(0xa4, 0x53, 0x8f, 0xca); Next(0x53, 0xa6, 0xca, 0x65);
    Next(0xa6, 0x57, 0x65, 0xbf); Next(0x57, 0xae, 0xbf, 0xd2); Next(0xae, 0x47, 0xd2, 0x69);
    Next(0x47, 0x8e, 0x69, 0xb9);
  }

  lemma Orbit09()
    ensures Pair(0x09, 0x4f) && Pair(0x12, 0xaa) && Pair(0x24, 0x55) && Pair(0x48, 0xa7) && Pair(0x90, 0xde) &&
            Pair(0x3b, 0x6f) && Pair(0x76, 0xba) && Pair(0xec, 0x5d) && Pair(0xc3, 0xa3) && Pair(0x9d, 0xdc) &&
            Pair(0x21, 0x6e) && Pair(0x42, 0x37) && Pair(0x84, 0x96) && Pair(0x13, 0x4b) && Pair(0x26, 0xa8) &&
            Pair(0x4c, 0x54) && Pair(0x98, 0x2a) && Pair(0x2b, 0x15)
  {
    hide Pair;
    First9();
    Next(0x09, 0x12, 0x4f, 0xaa); Next(0x12, 0x24, 0xaa, 0x55); Next(0x24, 0x48, 0x55, 0xa7);
    Next(0x48, 0x90, 0xa7, 0xde); Next(0x90, 0x3b, 0xde, 0x6f); Next(0x3b, 0x76, 0x6f, 0xba);
    Next(0x76, 0xec, 0xba, 0x5d); Next(0xec, 0xc3, 0x5d, 0xa3); Next(0xc3, 0x9d, 0xa3, 0xdc);
    Next(0x9d, 0x21, 0xdc, 0x6e); Next(0x21, 0x42, 0x6e, 0x37); Next(0x42, 0x84, 0x37, 0x96);
    Next(0x84, 0x13, 0x96, 0x4b); Next(0x13, 0x26, 0x4b, 0xa8); Next(0x26, 0x4c, 0xa8, 0x54);
    Next(0x4c, 0x98, 0x54, 0x2a); Next(0x98, 0x2b, 0x2a, 0x15);
  }

  lemma Orbit2b()
    ensures Pair(0x56, 0x87) && Pair(0xac, 0xce) && Pair(0x43, 0x67) && Pair(0x86, 0xbe) && Pair(0x17, 0x5f) &&
            Pair(0x2e, 0xa2) && Pair(0x5c, 0x51) && Pair(0xb8, 0xa5) && Pair(0x6b, 0xdf) && Pair(0xd6, 0xe2) &&
            Pair(0xb7, 0x71) && Pair(0x75, 0xb5) && Pair(0xea, 0xd7) && Pair(0xcf, 0xe6) && Pair(0x85, 0x73) &&
            Pair(0x11, 0xb4) && Pair(0x22, 0x5a)
  {
    hide Pair;
    Orbit09();
    Next(0x2b, 0x56, 0x15, 0x87); Next(0x56, 0xac, 0x87, 0xce); Next(0xac, 0x43, 0xce, 0x67);
    Next(0x43, 0x86, 0x67, 0xbe); Next(0x86, 0x17, 0xbe, 0x5f); Next(0x17, 0x2e, 0x5f, 0xa2);
    Next(0x2e, 0x5c, 0xa2, 0x51); Next(0x5c, 0xb8, 0x51, 0xa5); Next(0xb8, 0x6b, 0xa5, 0xdf);
    Next(0x6b, 0xd6, 0xdf, 0xe2); Next(0xd6, 0xb7, 0xe2, 0x71); Next(0xb7, 0x75, 0x71, 0xb5);
    Next(0x75, 0xea, 0xb5, 0xd7); Next(0xea, 0xcf, 0xd7, 0xe6); Next(0xcf, 0x85, 0xe6, 0x73);
    Next(0x85, 0x11, 0x73, 0xb4); Next(0x11, 0x22, 0xb4, 0x5a);
  }

  lemma Orbit22()
    ensures Pair(0x44, 0x2d) && Pair(0x88, 0x9b) && Pair(0x0b, 0xc0) && Pair(0x16, 0x60) && Pair(0x2c, 0x30) &&
            Pair(0x58, 0x18) && Pair(0xb0, 0x0c) && Pair(0x7b, 0x06) && Pair(0xf6, 0x03) && Pair(0xf7, 0x8c) &&
            Pair(0xf5, 0x46) && Pair(0xf1, 0x23) && Pair(0xf9, 0x9c) && Pair(0xe9, 0x4e) && Pair(0xc9, 0x27) &&
            Pair(0x89, 0x9e)
  {
    hide Pair;
    Orbit2b();
    Next(0x22, 0x44, 0x5a, 0x2d); Next(0x44, 0x88, 0x2d, 0x9b); Next(0x88, 0x0b, 0x9b, 0xc0);
    Next(0x0b, 0x16, 0xc0, 0x60); Next(0x16, 0x2c, 0x60, 0x30); Next(0x2c, 0x58, 0x30, 0x18);
    Next(0x58, 0xb0, 0x18, 0x0c); Next(0xb0, 0x7b, 0x0c, 0x06); Next(0x7b, 0xf6, 0x06, 0x03);
    Next(0xf6, 0xf7, 0x03, 0x8c); Next(0xf7, 0xf5, 0x8c, 0x46); Next(0xf5, 0xf1, 0x46, 0x23);
    Next(0xf1, 0xf9, 0x23, 0x9c); Next(0xf9, 0xe9, 0x9c, 0x4e); Next(0xe9, 0xc9, 0x4e, 0x27);
    Next(0xc9, 0x89, 0x27, 0x9e);
  }

  lemma AllOrbits()
    ensures Pair(0x01, 0x01) && Pair(0x02, 0x8d) && Pair(0x03, 0xf6) && Pair(0x04, 0xcb) && Pair(0x05, 0x52) &&
            Pair(0x06, 0x7b) && Pair(0x07, 0xd1) && Pair(0x08, 0xe8) && Pair(0x09, 0x4f) && Pair(0x0a, 0x29) &&
            Pair(0x0b, 0xc0) && Pair(0x0c, 0xb0) && Pair(0x0d, 0xe1) && Pair(0x0e, 0xe5) && Pair(0x0f, 0xc7)
    ensures Pair(0x10, 0x74) && Pair(0x11, 0xb4) && Pair(0x12, 0xaa) && Pair(0x13, 0x4b) && Pair(0x14, 0x99) &&
            Pair(0x15, 0x2b) && Pair(0x16, 0x60) && Pair(0x17, 0x5f) && Pair(0x18, 0x58) && Pair(0x19, 0x3f) &&
            Pair(0x1a, 0xfd) && Pair(0x1b, 0xcc) && Pair(0x1c, 0xff) && Pair(0x1d, 0x40) && Pair(0x1e, 0xee) &&
            Pair(0x1f, 0xb2)
    ensures Pair(0x20, 0x3a) && Pair(0x21, 0x6e) && Pair(0x22, 0x5a) && Pair(0x23, 0xf1) && Pair(0x24, 0x55) &&
            Pair(0x25, 0x4d) && Pair(0x26, 0xa8) && Pair(0x27, 0xc9) && Pair(0x28, 0xc1) && Pair(0x29, 0x0a) &&
            Pair(0x2a, 0x98) && Pair(0x2b, 0x15) && Pair(0x2c, 0x30) && Pair(0x2d, 0x44) && Pair(0x2e, 0xa2) &&
            Pair(0x2f, 0xc2)
    ensures Pair(0x30, 0x2c) && Pair(0x31, 0x45) && Pair(0x32, 0x92) && Pair(0x33, 0x6c) && Pair(0x34, 0xf3) &&
            Pair(0x35, 0x39) && Pair(0x36, 0x66) && Pair(0x37, 0x42) && Pair(0x38, 0xf2) && Pair(0x39, 0x35) &&
            Pair(0x3a, 0x20) && Pair(0x3b, 0x6f) && Pair(0x3c, 0x77) && Pair(0x3d, 0xbb) && Pair(0x3e, 0x59) &&
            Pair(0x3f, 0x19)
    ensures Pair(0x40, 0x1d) && Pair(0x41, 0xfe) && Pair(0x42, 0x37) && Pair(0x43, 0x67) && Pair(0x44, 0x2d) &&
            Pair(0x45, 0x31) && Pair(0x46, 0xf5) && Pair(0x47, 0x69) && Pair(0x48, 0xa7) && Pair(0x49, 0x64) &&
            Pair(0x4a, 0xab) && Pair(0x4b, 0x13) && Pair(0x4c, 0x54) && Pair(0x4d, 0x25) && Pair(0x4e, 0xe9) &&
            Pair(0x4f, 0x09)
    ensures Pair(0x50, 0xed) && Pair(0x51, 0x5c) && Pair(0x52, 0x05) && Pair(0x53, 0xca) && Pair(0x54, 0x4c) &&
            Pair(0x55, 0x24) && Pair(0x56, 0x87) && Pair(0x57, 0xbf) && Pair(0x58, 0x18) && Pair(0x59, 0x3e) &&
            Pair(0x5a, 0x22) && Pair(0x5b, 0xf0) && Pair(0x5c, 0x51) && Pair(0x5d, 0xec) && Pair(0x5e, 0x61) &&
            Pair(0x5f, 0x17)
    ensures Pair(0x60, 0x16) && Pair(0x61, 0x5e) && Pair(0x62, 0xaf) && Pair(0x63, 0xd3) && Pair(0x64, 0x49) &&
            Pair(0x65, 0xa6) && Pair(0x66, 0x36) && Pair(0x67, 0x43) && Pair(0x68, 0xf4) && Pair(0x69, 0x47) &&
            Pair(0x6a, 0x91) && Pair(0x6b, 0xdf) && Pair(0x6c, 0x33) && Pair(0x6d, 0x93) && Pair(0x6e, 0x21) &&
            Pair(0x6f, 0x3b)
    ensures Pair(0x70, 0x79) && Pair(0x71, 0xb7) && Pair(0x72, 0x97) && Pair(0x73, 0x85) && Pair(0x74, 0x10) &&
            Pair(0x75, 0xb5) && Pair(0x76, 0xba) && Pair(0x77, 0x3c) && Pair(0x78, 0xb6) && Pair(0x79, 0x70) &&
            Pair(0x7a, 0xd0) && Pair(0x7b, 0x06) && Pair(0x7c, 0xa1) && Pair(0x7d, 0xfa) && Pair(0x7e, 0x81) &&
            Pair(0x7f, 0x82)
    ensures Pair(0x80, 0x83) && Pair(0x81, 0x7e) && Pair(0x82, 0x7f) && Pair(0x83, 0x80) && Pair(0x84, 0x96) &&
            Pair(0x85, 0x73) && Pair(0x86, 0xbe) && Pair(0x87, 0x56) && Pair(0x88, 0x9b) && Pair(0x89, 0x9e) &&
            Pair(0x8a, 0x95) && Pair(0x8b, 0xd9) && Pair(0x8c, 0xf7) && Pair(0x8d, 0x02) && Pair(0x8e, 0xb9) &&
            Pair(0x8f, 0xa4)
    ensures Pair(0x90, 0xde) && Pair(0x91, 0x6a) && Pair(0x92, 0x32) && Pair(0x93, 0x6d) && Pair(0x94, 0xd8) &&
            Pair(0x95, 0x8a) && Pair(0x96, 0x84) && Pair(0x97, 0x72) && Pair(0x98, 0x2a) && Pair(0x99, 0x14) &&
            Pair(0x9a, 0x9f) && Pair(0x9b, 0x88) && Pair(0x9c, 0xf9) && Pair(0x9d, 0xdc) && Pair(0x9e, 0x89) &&
            Pair(0x9f, 0x9a)
    ensures Pair(0xa0, 0xfb) && Pair(0xa1, 0x7c) && Pair(0xa2, 0x2e) && Pair(0xa3, 0xc3) && Pair(0xa4, 0x8f) &&
            Pair(0xa5, 0xb8) && Pair(0xa6, 0x65) && Pair(0xa7, 0x48) && Pair(0xa8, 0x26) && Pair(0xa9, 0xc8) &&
            Pair(0xaa, 0x12) && Pair(0xab, 0x4a) && Pair(0xac, 0xce) && Pair(0xad, 0xe7) && Pair(0xae, 0xd2) &&
            Pair(0xaf, 0x62)
    ensures Pair(0xb0, 0x0c) && Pair(0xb1, 0xe0) && Pair(0xb2, 0x1f) && Pair(0xb3, 0xef) && Pair(0xb4, 0x11) &&
            Pair(0xb5, 0x75) && Pair(0xb6, 0x78) && Pair(0xb7, 0x71) && Pair(0xb8, 0xa5) && Pair(0xb9, 0x8e) &&
            Pair(0xba, 0x76) && Pair(0xbb, 0x3d) && Pair(0xbc, 0xbd) && Pair(0xbd, 0xbc) && Pair(0xbe, 0x86) &&
            Pair(0xbf, 0x57)
    ensures Pair(0xc0, 0x0b) && Pair(0xc1, 0x28) && Pair(0xc2, 0x2f) && Pair(0xc3, 0xa3) && Pair(0xc4, 0xda) &&
            Pair(0xc5, 0xd4) && Pair(0xc6, 0xe4) && Pair(0xc7, 0x0f) && Pair(0xc8, 0xa9) && Pair(0xc9, 0x27) &&
            Pair(0xca, 0x53) && Pair(0xcb, 0x04) && Pair(0xcc, 0x1b) && Pair(0xcd, 0xfc) && Pair(0xce, 0xac) &&
            Pair(0xcf, 0xe6)
    ensures Pair(0xd0, 0x7a) && Pair(0xd1, 0x07) && Pair(0xd2, 0xae) && Pair(0xd3, 0x63) && Pair(0xd4, 0xc5) &&
            Pair(0xd5, 0xdb) && Pair(0xd6, 0xe2) && Pair(0xd7, 0xea) && Pair(0xd8, 0x94) && Pair(0xd9, 0x8b) &&
            Pair(0xda, 0xc4) && Pair(0xdb, 0xd5) && Pair(0xdc, 0x9d) && Pair(0xdd, 0xf8) && Pair(0xde, 0x90) &&
            Pair(0xdf, 0x6b)
    ensures Pair(0xe0, 0xb1) && Pair(0xe1, 0x0d) && Pair(0xe2, 0xd6) && Pair(0xe3, 0xeb) && Pair(0xe4, 0xc6) &&
            Pair(0xe5, 0x0e) && Pair(0xe6, 0xcf) && Pair(0xe7, 0xad) && Pair(0xe8, 0x08) && Pair(0xe9, 0x4e) &&
            Pair(0xea, 0xd7) && Pair(0xeb, 0xe3) && Pair(0xec, 0x5d) && Pair(0xed, 0x50) && Pair(0xee, 0x1e) &&
            Pair(0xef, 0xb3)
    ensures Pair(0xf0, 0x5b) && Pair(0xf1, 0x23) && Pair(0xf2, 0x38) && Pair(0xf3, 0x34) && Pair(0xf4, 0x68) &&
            Pair(0xf5, 0x46) && Pair(0xf6, 0x03) && Pair(0xf7, 0x8c) && Pair(0xf8, 0xdd) && Pair(0xf9, 0x9c) &&
            Pair(0xfa, 0x7d) && Pair(0xfb, 0xa0) && Pair(0xfc, 0xcd) && Pair(0xfd, 0x1a) && Pair(0xfe, 0x41) &&
            Pair(0xff, 0x1c)
  {
    hide *;
    Orbit01(); Orbitbc(); Orbitbd(); Orbit03(); Orbitdf(); Orbitdc(); Orbit05(); Orbit7a(); Orbit7f(); Orbit07();
    Orbit19(); Orbit1e(); Orbit09(); Orbit2b(); Orbit22();
  }

  lemma Inverts0(x: byte)
    requires 0 < x < 16
    ensures Pair(x, Inverse(x))
  {
    hide Pair;
    AllOrbits();
  }

  lemma Inverts16(x: byte)
    requires 16 <= x < 32
    ensures Pair(x, Inverse(x))
  {
    hide Pair;
    AllOrbits();
  }

  lemma Inverts32(x: byte)
    requires 32 <= x < 48
    ensures Pair(x, Inverse(x))
  {
    hide Pair;
    AllOrbits();
  }

  lemma Inverts48(x: byte)
    requires 48 <= x < 64
    ensures Pair(x, Inverse(x))
  {
    hide Pair;
    AllOrbits();
  }

  lemma Inverts64(x: byte)
    requires 64 <= x < 80
    ensures Pair(x, Inverse(x))
  {
    hide Pair;
    AllOrbits();
  }

  lemma Inverts80(x: byte)
    requires 80 <= x < 96
    ensures Pair(x, Inverse(x))
  {
    hide Pair;
    AllOrbits();
  }

  lemma Inverts96(x: byte)
    requires 96 <= x < 112
    ensures Pair(x, Inverse(x))
  {
    hide Pair;
    AllOrbits();
  }

  lemma Inverts112(x: byte)
    requires 112 <= x < 128
    ensures Pair(x, Inverse(x))
  {
    hide Pair;
    AllOrbits();
  }

  lemma Inverts128(x: byte)
    requires 128 <= x < 144
    ensures Pair(x, Inverse(x))
  {
    hide Pair;
    AllOrbits();
  }

  lemma Inverts144(x: byte)
    requires 144 <= x < 160
    ensures Pair(x, Inverse(x))
  {
    hide Pair;
    AllOrbits();
  }

  lemma Inverts160(x: byte)
    requires 160 <= x < 176
    ensures Pair(x, Inverse(x))
  {
    hide Pair;
    AllOrbits();
  }

  lemma Inverts176(x: byte)
    requires 176 <= x < 192
    ensures Pair(x, Inverse(x))
  {
    hide Pair;
    AllOrbits();
  }

  lemma Inverts192(x: byte)
    requires 192 <= x < 208
    ensures Pair(x, Inverse(x))
  {
    hide Pair;
    AllOrbits();
  }

  lemma Inverts208(x: byte)
    requires 208 <= x < 224
    ensures Pair(x, Inverse(x))
  {
    hide Pair;
    AllOrbits();
  }

  lemma Inverts224(x: byte)
    requires 224 <= x < 240
    ensures Pair(x, Inverse(x))
  {
    hide Pair;
    AllOrbits();
  }

  lemma Inverts240(x: byte)
    requires 240 <= x < 256
    ensures Pair(x, Inverse(x))
  {
    hide Pair;
    AllOrbits();
  }

  /** The y of section 5.1.1 for x: its inverse, or 0. */
  predicate Inverts(x: byte, y: byte) {
    if x == 0 then y == 0 else Mul(x, y, AES_POLY) == 1
  }

  /** The inverse is one. */
  lemma InverseIsInverse(x: byte)
    ensures Inverts(x, Inverse(x))
  {
    hide Mul;
    if x != 0 {
      InverseOf(x);
    }
  }

  lemma InverseOf(x: byte)
    requires x != 0
    ensures Pair(x, Inverse(x))
  {
    hide Pair; hide Inverse;
    match x / 16
    case 0 => Inverts0(x);
    case 1 => Inverts16(x);
    case 2 => Inverts32(x);
    case 3 => Inverts48(x);
    case 4 => Inverts64(x);
    case 5 => Inverts80(x);
    case 6 => Inverts96(x);
    case 7 => Inverts112(x);
    case 8 => Inverts128(x);
    case 9 => Inverts144(x);
    case 10 => Inverts160(x);
    case 11 => Inverts176(x);
    case 12 => Inverts192(x);
    case 13 => Inverts208(x);
    case 14 => Inverts224(x);
    case _ => Inverts240(x);
  }

  // ---- the affine map ----

  type bit = b: nat | b < 2

  /** Bit i of the affine map of section 5.1.1 is this sum modulo 2. */
  function AffineSum(y: byte, i: nat): nat
    requires i < 8
  {
    BitAt(y, i) + BitAt(y, (i + 4) % 8) + BitAt(y, (i + 5) % 8) + BitAt(y, (i + 6) % 8) + BitAt(y, (i + 7) % 8)
    + BitAt(0x63, i)
  }

  ghost predicate Affined(s: int, y: int) {
    && 0 <= s < 256 && 0 <= y < 256
    && forall i: nat | i < 8 :: BitAt(s, i) == AffineSum(y, i) % 2
  }

  lemma NextBit(b: bit, h: nat, k: nat)
    ensures BitAt(b + 2 * h, 0) == b && BitAt(b + 2 * h, k + 1) == BitAt(h, k)
  {
    LowHigh(b, h);
  }

  lemma LowBit(b: bit)
    ensures BitAt(b, 0) == b
  {
  }

  /** The bits of a number of four digits above and below another. */
  lemma FourBits(b3: bit, b2: bit, b1: bit, b0: bit, h: nat)
    ensures var n := b0 + 2 * (b1 + 2 * (b2 + 2 * (b3 + 2 * h)));
            && BitAt(n, 0) == b0 && BitAt(n, 1) == b1 && BitAt(n, 2) == b2 && BitAt(n, 3) == b3
            && BitAt(n, 4) == BitAt(h, 0) && BitAt(n, 5) == BitAt(h, 1) && BitAt(n, 6) == BitAt(h, 2) && BitAt(n, 7) == BitAt(h, 3)
  {
    hide *;
    var n3 := b3 + 2 * h;
    var n2 := b2 + 2 * n3;
    var n1 := b1 + 2 * n2;
    NextBit(b3, h, 0); NextBit(b3, h, 1); NextBit(b3, h, 2); NextBit(b3, h, 3);
    NextBit(b2, n3, 0); NextBit(b2, n3, 1); NextBit(b2, n3, 2); NextBit(b2, n3, 3); NextBit(b2, n3, 4);
    NextBit(b1, n2, 0); NextBit(b1, n2, 1); NextBit(b1, n2, 2); NextBit(b1, n2, 3); NextBit(b1, n2, 4); NextBit(b1, n2, 5);
    NextBit(b0, n1, 0); NextBit(b0, n1, 1); NextBit(b0, n1, 2); NextBit(b0, n1, 3); NextBit(b0, n1, 4); NextBit(b0, n1, 5);
    NextBit(b0, n1, 6);
  }

  lemma EightBits(n: nat, b7: bit, b6: bit, b5: bit, b4: bit, b3: bit, b2: bit, b1: bit, b0: bit)
    requires n == 128 * b7 + 64 * b6 + 32 * b5 + 16 * b4 + 8 * b3 + 4 * b2 + 2 * b1 + b0
    ensures BitAt(n, 0) == b0 && BitAt(n, 1) == b1 && BitAt(n, 2) == b2 && BitAt(n, 3) == b3
    ensures BitAt(n, 4) == b4 && BitAt(n, 5) == b5 && BitAt(n, 6) == b6 && BitAt(n, 7) == b7
  {
    hide *;
    var h := b4 + 2 * (b5 + 2 * (b6 + 2 * (b7 + 2 * 0)));
    FourBits(b7, b6, b5, b4, 0);
    FourBits(b3, b2, b1, b0, h);
  }

  lemma Parity(u: bit, a: bit, b: bit, c: bit, d: bit, e: bit, flip: bit, total: nat)
    requires total == a + b + c + d + e + flip
    requires (u == 1) == ((((((a == 1) != (b == 1)) != (c == 1)) != (d == 1)) != (e == 1)) != (flip == 1))
    ensures u == total % 2
  {
  }

  lemma SumIs(y: byte, i: nat, j: nat, k: nat, l: nat, m: nat)
    requires i < 8 && j == (i + 4) % 8 && k == (i + 5) % 8 && l == (i + 6) % 8 && m == (i + 7) % 8
    ensures AffineSum(y, i) == BitAt(y, i) + BitAt(y, j) + BitAt(y, k) + BitAt(y, l) + BitAt(y, m) + BitAt(0x63, i)
  {
    hide BitAt;
  }

  lemma SumsAre(y: byte)
    ensures AffineSum(y, 0) == BitAt(y, 0) + BitAt(y, 4) + BitAt(y, 5) + BitAt(y, 6) + BitAt(y, 7) + 1
    ensures AffineSum(y, 1) == BitAt(y, 1) + BitAt(y, 5) + BitAt(y, 6) + BitAt(y, 7) + BitAt(y, 0) + 1
    ensures AffineSum(y, 2) == BitAt(y, 2) + BitAt(y, 6) + BitAt(y, 7) + BitAt(y, 0) + BitAt(y, 1) + 0
    ensures AffineSum(y, 3) == BitAt(y, 3) + BitAt(y, 7) + BitAt(y, 0) + BitAt(y, 1) + BitAt(y, 2) + 0
    ensures AffineSum(y, 4) == BitAt(y, 4) + BitAt(y, 0) + BitAt(y, 1) + BitAt(y, 2) + BitAt(y, 3) + 0
    ensures AffineSum(y, 5) == BitAt(y, 5) + BitAt(y, 1) + BitAt(y, 2) + BitAt(y, 3) + BitAt(y, 4) + 1
    ensures AffineSum(y, 6) == BitAt(y, 6) + BitAt(y, 2) + BitAt(y, 3) + BitAt(y, 4) + BitAt(y, 5) + 1
    ensures AffineSum(y, 7) == BitAt(y, 7) + BitAt(y, 3) + BitAt(y, 4) + BitAt(y, 5) + BitAt(y, 6) + 0
  {
    hide *;
    EightBits(0x63, 0, 1, 1, 0, 0, 0, 1, 1);
    SumIs(y, 0, 4, 5, 6, 7); SumIs(y, 1, 5, 6, 7, 0); SumIs(y, 2, 6, 7, 0, 1); SumIs(y, 3, 7, 0, 1, 2);
    SumIs(y, 4, 0, 1, 2, 3); SumIs(y, 5, 1, 2, 3, 4); SumIs(y, 6, 2, 3, 4, 5); SumIs(y, 7, 3, 4, 5, 6);
  }

  /** One entry: the bits of s and of y. */
  lemma Entry(s: byte, y: byte, s7: bit, s6: bit, s5: bit, s4: bit, s3: bit, s2: bit, s1: bit, s0: bit,
              y7: bit, y6: bit, y5: bit, y4: bit, y3: bit, y2: bit, y1: bit, y0: bit)
    requires s == 128 * s7 + 64 * s6 + 32 * s5 + 16 * s4 + 8 * s3 + 4 * s2 + 2 * s1 + s0
    requires y == 128 * y7 + 64 * y6 + 32 * y5 + 16 * y4 + 8 * y3 + 4 * y2 + 2 * y1 + y0
    requires (s0 == 1) == ((((((y0 == 1) != (y4 == 1)) != (y5 == 1)) != (y6 == 1)) != (y7 == 1)) != true)
    requires (s1 == 1) == ((((((y1 == 1) != (y5 == 1)) != (y6 == 1)) != (y7 == 1)) != (y0 == 1)) != true)
    requires (s2 == 1) == ((((((y2 == 1) != (y6 == 1)) != (y7 == 1)) != (y0 == 1)) != (y1 == 1)) != false)
    requires (s3 == 1) == ((((((y3 == 1) != (y7 == 1)) != (y0 == 1)) != (y1 == 1)) != (y2 == 1)) != false)
    requires (s4 == 1) == ((((((y4 == 1) != (y0 == 1)) != (y1 == 1)) != (y2 == 1)) != (y3 == 1)) != false)
    requires (s5 == 1) == ((((((y5 == 1) != (y1 == 1)) != (y2 == 1)) != (y3 == 1)) != (y4 == 1)) != true)
    requires (s6 == 1) == ((((((y6 == 1) != (y2 == 1)) != (y3 == 1)) != (y4 == 1)) != (y5 == 1)) != true)
    requires (s7 == 1) == ((((((y7 == 1) != (y3 == 1)) != (y4 == 1)) != (y5 == 1)) != (y6 == 1)) != false)
    ensures Affined(s, y)
  {
    hide *;
    EightBits(s, s7, s6, s5, s4, s3, s2, s1, s0); EightBits(y, y7, y6, y5, y4, y3, y2, y1, y0);
    SumsAre(y);
    Parity(s0, y0, y4, y5, y6, y7, 1, AffineSum(y, 0));
    Parity(s1, y1, y5, y6, y7, y0, 1, AffineSum(y, 1));
    Parity(s2, y2, y6, y7, y0, y1, 0, AffineSum(y, 2));
    Parity(s3, y3, y7, y0, y1, y2, 0, AffineSum(y, 3));
    Parity(s4, y4, y0, y1, y2, y3, 0, AffineSum(y, 4));
    Parity(s5, y5, y1, y2, y3, y4, 1, AffineSum(y, 5));
    Parity(s6, y6, y2, y3, y4, y5, 1, AffineSum(y, 6));
    Parity(s7, y7, y3, y4, y5, y6, 0, AffineSum(y, 7));
    AffinedIs(s, y);
  }

  lemma AffinedIs(s: byte, y: byte)
    requires BitAt(s, 0) == AffineSum(y, 0) % 2 && BitAt(s, 1) == AffineSum(y, 1) % 2
    requires BitAt(s, 2) == AffineSum(y, 2) % 2 && BitAt(s, 3) == AffineSum(y, 3) % 2
    requires BitAt(s, 4) == AffineSum(y, 4) % 2 && BitAt(s, 5) == AffineSum(y, 5) % 2
    requires BitAt(s, 6) == AffineSum(y, 6) % 2 && BitAt(s, 7) == AffineSum(y, 7) % 2
    ensures Affined(s, y)
  {
    hide BitAt; hide AffineSum;
  }

  lemma Affine0(x: byte)
    requires 0 <= x < 16
    ensures Affined(Sbox(x), Inverse(x))
  {
    hide Affined;
    Entry(0x63, 0x00, 0, 1, 1, 0, 0, 0, 1, 1, 0, 0, 0, 0, 0, 0, 0, 0);
    Entry(0x7c, 0x01, 0, 1, 1, 1, 1, 1, 0, 0, 0, 0, 0, 0, 0, 0, 0, 1);
    Entry(0x77, 0x8d, 0, 1, 1, 1, 0, 1, 1, 1, 1, 0, 0, 0, 1, 1, 0, 1);
    Entry(0x7b, 0xf6, 0, 1, 1, 1, 1, 0, 1, 1, 1, 1, 1, 1, 0, 1, 1, 0);
    Entry(0xf2, 0xcb, 1, 1, 1, 1, 0, 0, 1, 0, 1, 1, 0, 0, 1, 0, 1, 1);
    Entry(0x6b, 0x52, 0, 1, 1, 0, 1, 0, 1, 1, 0, 1, 0, 1, 0, 0, 1, 0);
    Entry(0x6f, 0x7b, 0, 1, 1, 0, 1, 1, 1, 1, 0, 1, 1, 1, 1, 0, 1, 1);
    Entry(0xc5, 0xd1, 1, 1, 0, 0, 0, 1, 0, 1, 1, 1, 0, 1, 0, 0, 0, 1);
    Entry(0x30, 0xe8, 0, 0, 1, 1, 0, 0, 0, 0, 1, 1, 1, 0, 1, 0, 0, 0);
    Entry(0x01, 0x4f, 0, 0, 0, 0, 0, 0, 0, 1, 0, 1, 0, 0, 1, 1, 1, 1);
    Entry(0x67, 0x29, 0, 1, 1, 0, 0, 1, 1, 1, 0, 0, 1, 0, 1, 0, 0, 1);
    Entry(0x2b, 0xc0, 0, 0, 1, 0, 1, 0, 1, 1, 1, 1, 0, 0, 0, 0, 0, 0);
    Entry(0xfe, 0xb0, 1, 1, 1, 1, 1, 1, 1, 0, 1, 0, 1, 1, 0, 0, 0, 0);
    Entry(0xd7, 0xe1, 1, 1, 0, 1, 0, 1, 1, 1, 1, 1, 1, 0, 0, 0, 0, 1);
    Entry(0xab, 0xe5, 1, 0, 1, 0, 1, 0, 1, 1, 1, 1, 1, 0, 0, 1, 0, 1);
    Entry(0x76, 0xc7, 0, 1, 1, 1, 0, 1, 1, 0, 1, 1, 0, 0, 0, 1, 1, 1);
  }

  lemma Affine16(x: byte)
    requires 16 <= x < 32
    ensures Affined(Sbox(x), Inverse(x))
  {
    hide Affined;
    Entry(0xca, 0x74, 1, 1, 0, 0, 1, 0, 1, 0, 0, 1, 1, 1, 0, 1, 0, 0);
    Entry(0x82, 0xb4, 1, 0, 0, 0, 0, 0, 1, 0, 1, 0, 1, 1, 0, 1, 0, 0);
    Entry(0xc9, 0xaa, 1, 1, 0, 0, 1, 0, 0, 1, 1, 0, 1, 0, 1, 0, 1, 0);
    Entry(0x7d, 0x4b, 0, 1, 1, 1, 1, 1, 0, 1, 0, 1, 0, 0, 1, 0, 1, 1);
    Entry(0xfa, 0x99, 1, 1, 1, 1, 1, 0, 1, 0, 1, 0, 0, 1, 1, 0, 0, 1);
    Entry(0x59, 0x2b, 0, 1, 0, 1, 1, 0, 0, 1, 0, 0, 1, 0, 1, 0, 1, 1);
    Entry(0x47, 0x60, 0, 1, 0, 0, 0, 1, 1, 1, 0, 1, 1, 0, 0, 0, 0, 0);
    Entry(0xf0, 0x5f, 1, 1, 1, 1, 0, 0, 0, 0, 0, 1, 0, 1, 1, 1, 1, 1);
    Entry(0xad, 0x58, 1, 0, 1, 0, 1, 1, 0, 1, 0, 1, 0, 1, 1, 0, 0, 0);
    Entry(0xd4, 0x3f, 1, 1, 0, 1, 0, 1, 0, 0, 0, 0, 1, 1, 1, 1, 1, 1);
    Entry(0xa2, 0xfd, 1, 0, 1, 0, 0, 0, 1, 0, 1, 1, 1, 1, 1, 1, 0, 1);
    Entry(0xaf, 0xcc, 1, 0, 1, 0, 1, 1, 1, 1, 1, 1, 0, 0, 1, 1, 0, 0);
    Entry(0x9c, 0xff, 1, 0, 0, 1, 1, 1, 0, 0, 1, 1, 1, 1, 1, 1, 1, 1);
    Entry(0xa4, 0x40, 1, 0, 1, 0, 0, 1, 0, 0, 0, 1, 0, 0, 0, 0, 0, 0);
    Entry(0x72, 0xee, 0, 1, 1, 1, 0, 0, 1, 0, 1, 1, 1, 0, 1, 1, 1, 0);
    Entry(0xc0, 0xb2, 1, 1, 0, 0, 0, 0, 0, 0, 1, 0, 1, 1, 0, 0, 1, 0);
  }

  lemma Affine32(x: byte)
    requires 32 <= x < 48
    ensures Affined(Sbox(x), Inverse(x))
  {
    hide Affined;
    Entry(0xb7, 0x3a, 1, 0, 1, 1, 0, 1, 1, 1, 0, 0, 1, 1, 1, 0, 1, 0);
    Entry(0xfd, 0x6e, 1, 1, 1, 1, 1, 1, 0, 1, 0, 1, 1, 0, 1, 1, 1, 0);
    Entry(0x93, 0x5a, 1, 0, 0, 1, 0, 0, 1, 1, 0, 1, 0, 1, 1, 0, 1, 0);
    Entry(0x26, 0xf1, 0, 0, 1, 0, 0, 1, 1, 0, 1, 1, 1, 1, 0, 0, 0, 1);
    Entry(0x36, 0x55, 0, 0, 1, 1, 0, 1, 1, 0, 0, 1, 0, 1, 0, 1, 0, 1);
    Entry(0x3f, 0x4d, 0, 0, 1, 1, 1, 1, 1, 1, 0, 1, 0, 0, 1, 1, 0, 1);
    Entry(0xf7, 0xa8, 1, 1, 1, 1, 0, 1, 1, 1, 1, 0, 1, 0, 1, 0, 0, 0);
    Entry(0xcc, 0xc9, 1, 1, 0, 0, 1, 1, 0, 0, 1, 1, 0, 0, 1, 0, 0, 1);
    Entry(0x34, 0xc1, 0, 0, 1, 1, 0, 1, 0, 0, 1, 1, 0, 0, 0, 0, 0, 1);
    Entry(0xa5, 0x0a, 1, 0, 1, 0, 0, 1, 0, 1, 0, 0, 0, 0, 1, 0, 1, 0);
    Entry(0xe5, 0x98, 1, 1, 1, 0, 0, 1, 0, 1, 1, 0, 0, 1, 1, 0, 0, 0);
    Entry(0xf1, 0x15, 1, 1, 1, 1, 0, 0, 0, 1, 0, 0, 0, 1, 0, 1, 0, 1);
    Entry(0x71, 0x30, 0, 1, 1, 1, 0, 0, 0, 1, 0, 0, 1, 1, 0, 0, 0, 0);
    Entry(0xd8, 0x44, 1, 1, 0, 1, 1, 0, 0, 0, 0, 1, 0, 0, 0, 1, 0, 0);
    Entry(0x31, 0xa2, 0, 0, 1, 1, 0, 0, 0, 1, 1, 0, 1, 0, 0, 0, 1, 0);
    Entry(0x15, 0xc2, 0, 0, 0, 1, 0, 1, 0, 1, 1, 1, 0, 0, 0, 0, 1, 0);
  }

  lemma Affine48(x: byte)
    requires 48 <= x < 64
    ensures Affined(Sbox(x), Inverse(x))
  {
    hide Affined;
    Entry(0x04, 0x2c, 0, 0, 0, 0, 0, 1, 0, 0, 0, 0, 1, 0, 1, 1, 0, 0);
    Entry(0xc7, 0x45, 1, 1, 0, 0, 0, 1, 1, 1, 0, 1, 0, 0, 0, 1, 0, 1);
    Entry(0x23, 0x92, 0, 0, 1, 0, 0, 0, 1, 1, 1, 0, 0, 1, 0, 0, 1, 0);
    Entry(0xc3, 0x6c, 1, 1, 0, 0, 0, 0, 1, 1, 0, 1, 1, 0, 1, 1, 0, 0);
    Entry(0x18, 0xf3, 0, 0, 0, 1, 1, 0, 0, 0, 1, 1, 1, 1, 0, 0, 1, 1);
    Entry(0x96, 0x39, 1, 0, 0, 1, 0, 1, 1, 0, 0, 0, 1, 1, 1, 0, 0, 1);
    Entry(0x05, 0x66, 0, 0, 0, 0, 0, 1, 0, 1, 0, 1, 1, 0, 0, 1, 1, 0);
    Entry(0x9a, 0x42, 1, 0, 0, 1, 1, 0, 1, 0, 0, 1, 0, 0, 0, 0, 1, 0);
    Entry(0x07, 0xf2, 0, 0, 0, 0, 0, 1, 1, 1, 1, 1, 1, 1, 0, 0, 1, 0);
    Entry(0x12, 0x35, 0, 0, 0, 1, 0, 0, 1, 0, 0, 0, 1, 1, 0, 1, 0, 1);
    Entry(0x80, 0x20, 1, 0, 0, 0, 0, 0, 0, 0, 0, 0, 1, 0, 0, 0, 0, 0);
    Entry(0xe2, 0x6f, 1, 1, 1, 0, 0, 0, 1, 0, 0, 1, 1, 0, 1, 1, 1, 1);
    Entry(0xeb, 0x77, 1, 1, 1, 0, 1, 0, 1, 1, 0, 1, 1, 1, 0, 1, 1, 1);
    Entry(0x27, 0xbb, 0, 0, 1, 0, 0, 1, 1, 1, 1, 0, 1, 1, 1, 0, 1, 1);
    Entry(0xb2, 0x59, 1, 0, 1, 1, 0, 0, 1, 0, 0, 1, 0, 1, 1, 0, 0, 1);
    Entry(0x75, 0x19, 0, 1, 1, 1, 0, 1, 0, 1, 0, 0, 0, 1, 1, 0, 0, 1);
  }

  lemma Affine64(x: byte)
    requires 64 <= x < 80
    ensures Affined(Sbox(x), Inverse(x))
  {
    hide Affined;
    Entry(0x09, 0x1d, 0, 0, 0, 0, 1, 0, 0, 1, 0, 0, 0, 1, 1, 1, 0, 1);
    Entry(0x83, 0xfe, 1, 0, 0, 0, 0, 0, 1, 1, 1, 1, 1, 1, 1, 1, 1, 0);
    Entry(0x2c, 0x37, 0, 0, 1, 0, 1, 1, 0, 0, 0, 0, 1, 1, 0, 1, 1, 1);
    Entry(0x1a, 0x67, 0, 0, 0, 1, 1, 0, 1, 0, 0, 1, 1, 0, 0, 1, 1, 1);
    Entry(0x1b, 0x2d, 0, 0, 0, 1, 1, 0, 1, 1, 0, 0, 1, 0, 1, 1, 0, 1);
    Entry(0x6e, 0x31, 0, 1, 1, 0, 1, 1, 1, 0, 0, 0, 1, 1, 0, 0, 0, 1);
    Entry(0x5a, 0xf5, 0, 1, 0, 1, 1, 0, 1, 0, 1, 1, 1, 1, 0, 1, 0, 1);
    Entry(0xa0, 0x69, 1, 0, 1, 0, 0, 0, 0, 0, 0, 1, 1, 0, 1, 0, 0, 1);
    Entry(0x52, 0xa7, 0, 1, 0, 1, 0, 0, 1, 0, 1, 0, 1, 0, 0, 1, 1, 1);
    Entry(0x3b, 0x64, 0, 0, 1, 1, 1, 0, 1, 1, 0, 1, 1, 0, 0, 1, 0, 0);
    Entry(0xd6, 0xab, 1, 1, 0, 1, 0, 1, 1, 0, 1, 0, 1, 0, 1, 0, 1, 1);
    Entry(0xb3, 0x13, 1, 0, 1, 1, 0, 0, 1, 1, 0, 0, 0, 1, 0, 0, 1, 1);
    Entry(0x29, 0x54, 0, 0, 1, 0, 1, 0, 0, 1, 0, 1, 0, 1, 0, 1, 0, 0);
    Entry(0xe3, 0x25, 1, 1, 1, 0, 0, 0, 1, 1, 0, 0, 1, 0, 0, 1, 0, 1);
    Entry(0x2f, 0xe9, 0, 0, 1, 0, 1, 1, 1, 1, 1, 1, 1, 0, 1, 0, 0, 1);
    Entry(0x84, 0x09, 1, 0, 0, 0, 0, 1, 0, 0, 0, 0, 0, 0, 1, 0, 0, 1);
  }

  lemma Affine80(x: byte)
    requires 80 <= x < 96
    ensures Affined(Sbox(x), Inverse(x))
  {
    hide Affined;
    Entry(0x53, 0xed, 0, 1, 0, 1, 0, 0, 1, 1, 1, 1, 1, 0, 1, 1, 0, 1);
    Entry(0xd1, 0x5c, 1, 1, 0, 1, 0, 0, 0, 1, 0, 1, 0, 1, 1, 1, 0, 0);
    Entry(0x00, 0x05, 0, 0, 0, 0, 0, 0, 0, 0, 0, 0, 0, 0, 0, 1, 0, 1);
    Entry(0xed, 0xca, 1, 1, 1, 0, 1, 1, 0, 1, 1, 1, 0, 0, 1, 0, 1, 0);
    Entry(0x20, 0x4c, 0, 0, 1, 0, 0, 0, 0, 0, 0, 1, 0, 0, 1, 1, 0, 0);
    Entry(0xfc, 0x24, 1, 1, 1, 1, 1, 1, 0, 0, 0, 0, 1, 0, 0, 1, 0, 0);
    Entry(0xb1, 0x87, 1, 0, 1, 1, 0, 0, 0, 1, 1, 0, 0, 0, 0, 1, 1, 1);
    Entry(0x5b, 0xbf, 0, 1, 0, 1, 1, 0, 1, 1, 1, 0, 1, 1, 1, 1, 1, 1);
    Entry(0x6a, 0x18, 0, 1, 1, 0, 1, 0, 1, 0, 0, 0, 0, 1, 1, 0, 0, 0);
    Entry(0xcb, 0x3e, 1, 1, 0, 0, 1, 0, 1, 1, 0, 0, 1, 1, 1, 1, 1, 0);
    Entry(0xbe, 0x22, 1, 0, 1, 1, 1, 1, 1, 0, 0, 0, 1, 0, 0, 0, 1, 0);
    Entry(0x39, 0xf0, 0, 0, 1, 1, 1, 0, 0, 1, 1, 1, 1, 1, 0, 0, 0, 0);
    Entry(0x4a, 0x51, 0, 1, 0, 0, 1, 0, 1, 0, 0, 1, 0, 1, 0, 0, 0, 1);
    Entry(0x4c, 0xec, 0, 1, 0, 0, 1, 1, 0, 0, 1, 1, 1, 0, 1, 1, 0, 0);
    Entry(0x58, 0x61, 0, 1, 0, 1, 1, 0, 0, 0, 0, 1, 1, 0, 0, 0, 0, 1);
    Entry(0xcf, 0x17, 1, 1, 0, 0, 1, 1, 1, 1, 0, 0, 0, 1, 0, 1, 1, 1);
  }

  lemma Affine96(x: byte)
    requires 96 <= x < 112
    ensures Affined(Sbox(x), Inverse(x))
  {
    hide Affined;
    Entry(0xd0, 0x16, 1, 1, 0, 1, 0, 0, 0, 0, 0, 0, 0, 1, 0, 1, 1, 0);
    Entry(0xef, 0x5e, 1, 1, 1, 0, 1, 1, 1, 1, 0, 1, 0, 1, 1, 1, 1, 0);
    Entry(0xaa, 0xaf, 1, 0, 1, 0, 1, 0, 1, 0, 1, 0, 1, 0, 1, 1, 1, 1);
    Entry(0xfb, 0xd3, 1, 1, 1, 1, 1, 0, 1, 1, 1, 1, 0, 1, 0, 0, 1, 1);
    Entry(0x43, 0x49, 0, 1, 0, 0, 0, 0, 1, 1, 0, 1, 0, 0, 1, 0, 0, 1);
    Entry(0x4d, 0xa6, 0, 1, 0, 0, 1, 1, 0, 1, 1, 0, 1, 0, 0, 1, 1, 0);
    Entry(0x33, 0x36, 0, 0, 1, 1, 0, 0, 1, 1, 0, 0, 1, 1, 0, 1, 1, 0);
    Entry(0x85, 0x43, 1, 0, 0, 0, 0, 1, 0, 1, 0, 1, 0, 0, 0, 0, 1, 1);
    Entry(0x45, 0xf4, 0, 1, 0, 0, 0, 1, 0, 1, 1, 1, 1, 1, 0, 1, 0, 0);
    Entry(0xf9, 0x47, 1, 1, 1, 1, 1, 0, 0, 1, 0, 1, 0, 0, 0, 1, 1, 1);
    Entry(0x02, 0x91, 0, 0, 0, 0, 0, 0, 1, 0, 1, 0, 0, 1, 0, 0, 0, 1);
    Entry(0x7f, 0xdf, 0, 1, 1, 1, 1, 1, 1, 1, 1, 1, 0, 1, 1, 1, 1, 1);
    Entry(0x50, 0x33, 0, 1, 0, 1, 0, 0, 0, 0, 0, 0, 1, 1, 0, 0, 1, 1);
    Entry(0x3c, 0x93, 0, 0, 1, 1, 1, 1, 0, 0, 1, 0, 0, 1, 0, 0, 1, 1);
    Entry(0x9f, 0x21, 1, 0, 0, 1, 1, 1, 1, 1, 0, 0, 1, 0, 0, 0, 0, 1);
    Entry(0xa8, 0x3b, 1, 0, 1, 0, 1, 0, 0, 0, 0, 0, 1, 1, 1, 0, 1, 1);
  }

  lemma Affine112(x: byte)
    requires 112 <= x < 128
    ensures Affined(Sbox(x), Inverse(x))
  {
    hide Affined;
    Entry(0x51, 0x79, 0, 1, 0, 1, 0, 0, 0, 1, 0, 1, 1, 1, 1, 0, 0, 1);
    Entry(0xa3, 0xb7, 1, 0, 1, 0, 0, 0, 1, 1, 1, 0, 1, 1, 0, 1, 1, 1);
    Entry(0x40, 0x97, 0, 1, 0, 0, 0, 0, 0, 0, 1, 0, 0, 1, 0, 1, 1, 1);
    Entry(0x8f, 0x85, 1, 0, 0, 0, 1, 1, 1, 1, 1, 0, 0, 0, 0, 1, 0, 1);
    Entry(0x92, 0x10, 1, 0, 0, 1, 0, 0, 1, 0, 0, 0, 0, 1, 0, 0, 0, 0);
    Entry(0x9d, 0xb5, 1, 0, 0, 1, 1, 1, 0, 1, 1, 0, 1, 1, 0, 1, 0, 1);
    Entry(0x38, 0xba, 0, 0, 1, 1, 1, 0, 0, 0, 1, 0, 1, 1, 1, 0, 1, 0);
    Entry(0xf5, 0x3c, 1, 1, 1, 1, 0, 1, 0, 1, 0, 0, 1, 1, 1, 1, 0, 0);
    Entry(0xbc, 0xb6, 1, 0, 1, 1, 1, 1, 0, 0, 1, 0, 1, 1, 0, 1, 1, 0);
    Entry(0xb6, 0x70, 1, 0, 1, 1, 0, 1, 1, 0, 0, 1, 1, 1, 0, 0, 0, 0);
    Entry(0xda, 0xd0, 1, 1, 0, 1, 1, 0, 1, 0, 1, 1, 0, 1, 0, 0, 0, 0);
    Entry(0x21, 0x06, 0, 0, 1, 0, 0, 0, 0, 1, 0, 0, 0, 0, 0, 1, 1, 0);
    Entry(0x10, 0xa1, 0, 0, 0, 1, 0, 0, 0, 0, 1, 0, 1, 0, 0, 0, 0, 1);
    Entry(0xff, 0xfa, 1, 1, 1, 1, 1, 1, 1, 1, 1, 1, 1, 1, 1, 0, 1, 0);
    Entry(0xf3, 0x81, 1, 1, 1, 1, 0, 0, 1, 1, 1, 0, 0, 0, 0, 0, 0, 1);
    Entry(0xd2, 0x82, 1, 1, 0, 1, 0, 0, 1, 0, 1, 0, 0, 0, 0, 0, 1, 0);
  }

  lemma Affine128(x: byte)
    requires 128 <= x < 144
    ensures Affined(Sbox(x), Inverse(x))
  {
    hide Affined;
    Entry(0xcd, 0x83, 1, 1, 0, 0, 1, 1, 0, 1, 1, 0, 0, 0, 0, 0, 1, 1);
    Entry(0x0c, 0x7e, 0, 0, 0, 0, 1, 1, 0, 0, 0, 1, 1, 1, 1, 1, 1, 0);
    Entry(0x13, 0x7f, 0, 0, 0, 1, 0, 0, 1, 1, 0, 1, 1, 1, 1, 1, 1, 1);
    Entry(0xec, 0x80, 1, 1, 1, 0, 1, 1, 0, 0, 1, 0, 0, 0, 0, 0, 0, 0);
    Entry(0x5f, 0x96, 0, 1, 0, 1, 1, 1, 1, 1, 1, 0, 0, 1, 0, 1, 1, 0);
    Entry(0x97, 0x73, 1, 0, 0, 1, 0, 1, 1, 1, 0, 1, 1, 1, 0, 0, 1, 1);
    Entry(0x44, 0xbe, 0, 1, 0, 0, 0, 1, 0, 0, 1, 0, 1, 1, 1, 1, 1, 0);
    Entry(0x17, 0x56, 0, 0, 0, 1, 0, 1, 1, 1, 0, 1, 0, 1, 0, 1, 1, 0);
    Entry(0xc4, 0x9b, 1, 1, 0, 0, 0, 1, 0, 0, 1, 0, 0, 1, 1, 0, 1, 1);
    Entry(0xa7, 0x9e, 1, 0, 1, 0, 0, 1, 1, 1, 1, 0, 0, 1, 1, 1, 1, 0);
    Entry(0x7e, 0x95, 0, 1, 1, 1, 1, 1, 1, 0, 1, 0, 0, 1, 0, 1, 0, 1);
    Entry(0x3d, 0xd9, 0, 0, 1, 1, 1, 1, 0, 1, 1, 1, 0, 1, 1, 0, 0, 1);
    Entry(0x64, 0xf7, 0, 1, 1, 0, 0, 1, 0, 0, 1, 1, 1, 1, 0, 1, 1, 1);
    Entry(0x5d, 0x02, 0, 1, 0, 1, 1, 1, 0, 1, 0, 0, 0, 0, 0, 0, 1, 0);
    Entry(0x19, 0xb9, 0, 0, 0, 1, 1, 0, 0, 1, 1, 0, 1, 1, 1, 0, 0, 1);
    Entry(0x73, 0xa4, 0, 1, 1, 1, 0, 0, 1, 1, 1, 0, 1, 0, 0, 1, 0, 0);
  }

  lemma Affine144(x: byte)
    requires 144 <= x < 160
    ensures Affined(Sbox(x), Inverse(x))
  {
    hide Affined;
    Entry(0x60, 0xde, 0, 1, 1, 0, 0, 0, 0, 0, 1, 1, 0, 1, 1, 1, 1, 0);
    Entry(0x81, 0x6a, 1, 0, 0, 0, 0, 0, 0, 1, 0, 1, 1, 0, 1, 0, 1, 0);
    Entry(0x4f, 0x32, 0, 1, 0, 0, 1, 1, 1, 1, 0, 0, 1, 1, 0, 0, 1, 0);
    Entry(0xdc, 0x6d, 1, 1, 0, 1, 1, 1, 0, 0, 0, 1, 1, 0, 1, 1, 0, 1);
    Entry(0x22, 0xd8, 0, 0, 1, 0, 0, 0, 1, 0, 1, 1, 0, 1, 1, 0, 0, 0);
    Entry(0x2a, 0x8a, 0, 0, 1, 0, 1, 0, 1, 0, 1, 0, 0, 0, 1, 0, 1, 0);
    Entry(0x90, 0x84, 1, 0, 0, 1, 0, 0, 0, 0, 1, 0, 0, 0, 0, 1, 0, 0);
    Entry(0x88, 0x72, 1, 0, 0, 0, 1, 0, 0, 0, 0, 1, 1, 1, 0, 0, 1, 0);
    Entry(0x46, 0x2a, 0, 1, 0, 0, 0, 1, 1, 0, 0, 0, 1, 0, 1, 0, 1, 0);
    Entry(0xee, 0x14, 1, 1, 1, 0, 1, 1, 1, 0, 0, 0, 0, 1, 0, 1, 0, 0);
    Entry(0xb8, 0x9f, 1, 0, 1, 1, 1, 0, 0, 0, 1, 0, 0, 1, 1, 1, 1, 1);
    Entry(0x14, 0x88, 0, 0, 0, 1, 0, 1, 0, 0, 1, 0, 0, 0, 1, 0, 0, 0);
    Entry(0xde, 0xf9, 1, 1, 0, 1, 1, 1, 1, 0, 1, 1, 1, 1, 1, 0, 0, 1);
    Entry(0x5e, 0xdc, 0, 1, 0, 1, 1, 1, 1, 0, 1, 1, 0, 1, 1, 1, 0, 0);
    Entry(0x0b, 0x89, 0, 0, 0, 0, 1, 0, 1, 1, 1, 0, 0, 0, 1, 0, 0, 1);
    Entry(0xdb, 0x9a, 1, 1, 0, 1, 1, 0, 1, 1, 1, 0, 0, 1, 1, 0, 1, 0);
  }

  lemma Affine160(x: byte)
    requires 160 <= x < 176
    ensures Affined(Sbox(x), Inverse(x))
  {
    hide Affined;
    Entry(0xe0, 0xfb, 1, 1, 1, 0, 0, 0, 0, 0, 1, 1, 1, 1, 1, 0, 1, 1);
    Entry(0x32, 0x7c, 0, 0, 1, 1, 0, 0, 1, 0, 0, 1, 1, 1, 1, 1, 0, 0);
    Entry(0x3a, 0x2e, 0, 0, 1, 1, 1, 0, 1, 0, 0, 0, 1, 0, 1, 1, 1, 0);
    Entry(0x0a, 0xc3, 0, 0, 0, 0, 1, 0, 1, 0, 1, 1, 0, 0, 0, 0, 1, 1);
    Entry(0x49, 0x8f, 0, 1, 0, 0, 1, 0, 0, 1, 1, 0, 0, 0, 1, 1, 1, 1);
    Entry(0x06, 0xb8, 0, 0, 0, 0, 0, 1, 1, 0, 1, 0, 1, 1, 1, 0, 0, 0);
    Entry(0x24, 0x65, 0, 0, 1, 0, 0, 1, 0, 0, 0, 1, 1, 0, 0, 1, 0, 1);
    Entry(0x5c, 0x48, 0, 1, 0, 1, 1, 1, 0, 0, 0, 1, 0, 0, 1, 0, 0, 0);
    Entry(0xc2, 0x26, 1, 1, 0, 0, 0, 0, 1, 0, 0, 0, 1, 0, 0, 1, 1, 0);
    Entry(0xd3, 0xc8, 1, 1, 0, 1, 0, 0, 1, 1, 1, 1, 0, 0, 1, 0, 0, 0);
    Entry(0xac, 0x12, 1, 0, 1, 0, 1, 1, 0, 0, 0, 0, 0, 1, 0, 0, 1, 0);
    Entry(0x62, 0x4a, 0, 1, 1, 0, 0, 0, 1, 0, 0, 1, 0, 0, 1, 0, 1, 0);
    Entry(0x91, 0xce, 1, 0, 0, 1, 0, 0, 0, 1, 1, 1, 0, 0, 1, 1, 1, 0);
    Entry(0x95, 0xe7, 1, 0, 0, 1, 0, 1, 0, 1, 1, 1, 1, 0, 0, 1, 1, 1);
    Entry(0xe4, 0xd2, 1, 1, 1, 0, 0, 1, 0, 0, 1, 1, 0, 1, 0, 0, 1, 0);
    Entry(0x79, 0x62, 0, 1, 1, 1, 1, 0, 0, 1, 0, 1, 1, 0, 0, 0, 1, 0);
  }

  lemma Affine176(x: byte)
    requires 176 <= x < 192
    ensures Affined(Sbox(x), Inverse(x))
  {
    hide Affined;
    Entry(0xe7, 0x0c, 1, 1, 1, 0, 0, 1, 1, 1, 0, 0, 0, 0, 1, 1, 0, 0);
    Entry(0xc8, 0xe0, 1, 1, 0, 0, 1, 0, 0, 0, 1, 1, 1, 0, 0, 0, 0, 0);
    Entry(0x37, 0x1f, 0, 0, 1, 1, 0, 1, 1, 1, 0, 0, 0, 1, 1, 1, 1, 1);
    Entry(0x6d, 0xef, 0, 1, 1, 0, 1, 1, 0, 1, 1, 1, 1, 0, 1, 1, 1, 1);
    Entry(0x8d, 0x11, 1, 0, 0, 0, 1, 1, 0, 1, 0, 0, 0, 1, 0, 0, 0, 1);
    Entry(0xd5, 0x75, 1, 1, 0, 1, 0, 1, 0, 1, 0, 1, 1, 1, 0, 1, 0, 1);
    Entry(0x4e, 0x78, 0, 1, 0, 0, 1, 1, 1, 0, 0, 1, 1, 1, 1, 0, 0, 0);
    Entry(0xa9, 0x71, 1, 0, 1, 0, 1, 0, 0, 1, 0, 1, 1, 1, 0, 0, 0, 1);
    Entry(0x6c, 0xa5, 0, 1, 1, 0, 1, 1, 0, 0, 1, 0, 1, 0, 0, 1, 0, 1);
    Entry(0x56, 0x8e, 0, 1, 0, 1, 0, 1, 1, 0, 1, 0, 0, 0, 1, 1, 1, 0);
    Entry(0xf4, 0x76, 1, 1, 1, 1, 0, 1, 0, 0, 0, 1, 1, 1, 0, 1, 1, 0);
    Entry(0xea, 0x3d, 1, 1, 1, 0, 1, 0, 1, 0, 0, 0, 1, 1, 1, 1, 0, 1);
    Entry(0x65, 0xbd, 0, 1, 1, 0, 0, 1, 0, 1, 1, 0, 1, 1, 1, 1, 0, 1);
    Entry(0x7a, 0xbc, 0, 1, 1, 1, 1, 0, 1, 0, 1, 0, 1, 1, 1, 1, 0, 0);
    Entry(0xae, 0x86, 1, 0, 1, 0, 1, 1, 1, 0, 1, 0, 0, 0, 0, 1, 1, 0);
    Entry(0x08, 0x57, 0, 0, 0, 0, 1, 0, 0, 0, 0, 1, 0, 1, 0, 1, 1, 1);
  }

  lemma Affine192(x: byte)
    requires 192 <= x < 208
    ensures Affined(Sbox(x), Inverse(x))
  {
    hide Affined;
    Entry(0xba, 0x0b, 1, 0, 1, 1, 1, 0, 1, 0, 0, 0, 0, 0, 1, 0, 1, 1);
    Entry(0x78, 0x28, 0, 1, 1, 1, 1, 0, 0, 0, 0, 0, 1, 0, 1, 0, 0, 0);
    Entry(0x25, 0x2f, 0, 0, 1, 0, 0, 1, 0, 1, 0, 0, 1, 0, 1, 1, 1, 1);
    Entry(0x2e, 0xa3, 0, 0, 1, 0, 1, 1, 1, 0, 1, 0, 1, 0, 0, 0, 1, 1);
    Entry(0x1c, 0xda, 0, 0, 0, 1, 1, 1, 0, 0, 1, 1, 0, 1, 1, 0, 1, 0);
    Entry(0xa6, 0xd4, 1, 0, 1, 0, 0, 1, 1, 0, 1, 1, 0, 1, 0, 1, 0, 0);
    Entry(0xb4, 0xe4, 1, 0, 1, 1, 0, 1, 0, 0, 1, 1, 1, 0, 0, 1, 0, 0);
    Entry(0xc6, 0x0f, 1, 1, 0, 0, 0, 1, 1, 0, 0, 0, 0, 0, 1, 1, 1, 1);
    Entry(0xe8, 0xa9, 1, 1, 1, 0, 1, 0, 0, 0, 1, 0, 1, 0, 1, 0, 0, 1);
    Entry(0xdd, 0x27, 1, 1, 0, 1, 1, 1, 0, 1, 0, 0, 1, 0, 0, 1, 1, 1);
    Entry(0x74, 0x53, 0, 1, 1, 1, 0, 1, 0, 0, 0, 1, 0, 1, 0, 0, 1, 1);
    Entry(0x1f, 0x04, 0, 0, 0, 1, 1, 1, 1, 1, 0, 0, 0, 0, 0, 1, 0, 0);
    Entry(0x4b, 0x1b, 0, 1, 0, 0, 1, 0, 1, 1, 0, 0, 0, 1, 1, 0, 1, 1);
    Entry(0xbd, 0xfc, 1, 0, 1, 1, 1, 1, 0, 1, 1, 1, 1, 1, 1, 1, 0, 0);
    Entry(0x8b, 0xac, 1, 0, 0, 0, 1, 0, 1, 1, 1, 0, 1, 0, 1, 1, 0, 0);
    Entry(0x8a, 0xe6, 1, 0, 0, 0, 1, 0, 1, 0, 1, 1, 1, 0, 0, 1, 1, 0);
  }

  lemma Affine208(x: byte)
    requires 208 <= x < 224
    ensures Affined(Sbox(x), Inverse(x))
  {
    hide Affined;
    Entry(0x70, 0x7a, 0, 1, 1, 1, 0, 0, 0, 0, 0, 1, 1, 1, 1, 0, 1, 0);
    Entry(0x3e, 0x07, 0, 0, 1, 1, 1, 1, 1, 0, 0, 0, 0, 0, 0, 1, 1, 1);
    Entry(0xb5, 0xae, 1, 0, 1, 1, 0, 1, 0, 1, 1, 0, 1, 0, 1, 1, 1, 0);
    Entry(0x66, 0x63, 0, 1, 1, 0, 0, 1, 1, 0, 0, 1, 1, 0, 0, 0, 1, 1);
    Entry(0x48, 0xc5, 0, 1, 0, 0, 1, 0, 0, 0, 1, 1, 0, 0, 0, 1, 0, 1);
    Entry(0x03, 0xdb, 0, 0, 0, 0, 0, 0, 1, 1, 1, 1, 0, 1, 1, 0, 1, 1);
    Entry(0xf6, 0xe2, 1, 1, 1, 1, 0, 1, 1, 0, 1, 1, 1, 0, 0, 0, 1, 0);
    Entry(0x0e, 0xea, 0, 0, 0, 0, 1, 1, 1, 0, 1, 1, 1, 0, 1, 0, 1, 0);
    Entry(0x61, 0x94, 0, 1, 1, 0, 0, 0, 0, 1, 1, 0, 0, 1, 0, 1, 0, 0);
    Entry(0x35, 0x8b, 0, 0, 1, 1, 0, 1, 0, 1, 1, 0, 0, 0, 1, 0, 1, 1);
    Entry(0x57, 0xc4, 0, 1, 0, 1, 0, 1, 1, 1, 1, 1, 0, 0, 0, 1, 0, 0);
    Entry(0xb9, 0xd5, 1, 0, 1, 1, 1, 0, 0, 1, 1, 1, 0, 1, 0, 1, 0, 1);
    Entry(0x86, 0x9d, 1, 0, 0, 0, 0, 1, 1, 0, 1, 0, 0, 1, 1, 1, 0, 1);
    Entry(0xc1, 0xf8, 1, 1, 0, 0, 0, 0, 0, 1, 1, 1, 1, 1, 1, 0, 0, 0);
    Entry(0x1d, 0x90, 0, 0, 0, 1, 1, 1, 0, 1, 1, 0, 0, 1, 0, 0, 0, 0);
    Entry(0x9e, 0x6b, 1, 0, 0, 1, 1, 1, 1, 0, 0, 1, 1, 0, 1, 0, 1, 1);
  }

  lemma Affine224(x: byte)
    requires 224 <= x < 240
    ensures Affined(Sbox(x), Inverse(x))
  {
    hide Affined;
    Entry(0xe1, 0xb1, 1, 1, 1, 0, 0, 0, 0, 1, 1, 0, 1, 1, 0, 0, 0, 1);
    Entry(0xf8, 0x0d, 1, 1, 1, 1, 1, 0, 0, 0, 0, 0, 0, 0, 1, 1, 0, 1);
    Entry(0x98, 0xd6, 1, 0, 0, 1, 1, 0, 0, 0, 1, 1, 0, 1, 0, 1, 1, 0);
    Entry(0x11, 0xeb, 0, 0, 0, 1, 0, 0, 0, 1, 1, 1, 1, 0, 1, 0, 1, 1);
    Entry(0x69, 0xc6, 0, 1, 1, 0, 1, 0, 0, 1, 1, 1, 0, 0, 0, 1, 1, 0);
    Entry(0xd9, 0x0e, 1, 1, 0, 1, 1, 0, 0, 1, 0, 0, 0, 0, 1, 1, 1, 0);
    Entry(0x8e, 0xcf, 1, 0, 0, 0, 1, 1, 1, 0, 1, 1, 0, 0, 1, 1, 1, 1);
    Entry(0x94, 0xad, 1, 0, 0, 1, 0, 1, 0, 0, 1, 0, 1, 0, 1, 1, 0, 1);
    Entry(0x9b, 0x08, 1, 0, 0, 1, 1, 0, 1, 1, 0, 0, 0, 0, 1, 0, 0, 0);
    Entry(0x1e, 0x4e, 0, 0, 0, 1, 1, 1, 1, 0, 0, 1, 0, 0, 1, 1, 1, 0);
    Entry(0x87, 0xd7, 1, 0, 0, 0, 0, 1, 1, 1, 1, 1, 0, 1, 0, 1, 1, 1);
    Entry(0xe9, 0xe3, 1, 1, 1, 0, 1, 0, 0, 1, 1, 1, 1, 0, 0, 0, 1, 1);
    Entry(0xce, 0x5d, 1, 1, 0, 0, 1, 1, 1, 0, 0, 1, 0, 1, 1, 1, 0, 1);
    Entry(0x55, 0x50, 0, 1, 0, 1, 0, 1, 0, 1, 0, 1, 0, 1, 0, 0, 0, 0);
    Entry(0x28, 0x1e, 0, 0, 1, 0, 1, 0, 0, 0, 0, 0, 0, 1, 1, 1, 1, 0);
    Entry(0xdf, 0xb3, 1, 1, 0, 1, 1, 1, 1, 1, 1, 0, 1, 1, 0, 0, 1, 1);
  }

  lemma Affine240(x: byte)
    requires 240 <= x < 256
    ensures Affined(Sbox(x), Inverse(x))
  {
    hide Affined;
    Entry(0x8c, 0x5b, 1, 0, 0, 0, 1, 1, 0, 0, 0, 1, 0, 1, 1, 0, 1, 1);
    Entry(0xa1, 0x23, 1, 0, 1, 0, 0, 0, 0, 1, 0, 0, 1, 0, 0, 0, 1, 1);
    Entry(0x89, 0x38, 1, 0, 0, 0, 1, 0, 0, 1, 0, 0, 1, 1, 1, 0, 0, 0);
    Entry(0x0d, 0x34, 0, 0, 0, 0, 1, 1, 0, 1, 0, 0, 1, 1, 0, 1, 0, 0);
    Entry(0xbf, 0x68, 1, 0, 1, 1, 1, 1, 1, 1, 0, 1, 1, 0, 1, 0, 0, 0);
    Entry(0xe6, 0x46, 1, 1, 1, 0, 0, 1, 1, 0, 0, 1, 0, 0, 0, 1, 1, 0);
    Entry(0x42, 0x03, 0, 1, 0, 0, 0, 0, 1, 0, 0, 0, 0, 0, 0, 0, 1, 1);
    Entry(0x68, 0x8c, 0, 1, 1, 0, 1, 0, 0, 0, 1, 0, 0, 0, 1, 1, 0, 0);
    Entry(0x41, 0xdd, 0, 1, 0, 0, 0, 0, 0, 1, 1, 1, 0, 1, 1, 1, 0, 1);
    Entry(0x99, 0x9c, 1, 0, 0, 1, 1, 0, 0, 1, 1, 0, 0, 1, 1, 1, 0, 0);
    Entry(0x2d, 0x7d, 0, 0, 1, 0, 1, 1, 0, 1, 0, 1, 1, 1, 1, 1, 0, 1);
    Entry(0x0f, 0xa0, 0, 0, 0, 0, 1, 1, 1, 1, 1, 0, 1, 0, 0, 0, 0, 0);
    Entry(0xb0, 0xcd, 1, 0, 1, 1, 0, 0, 0, 0, 1, 1, 0, 0, 1, 1, 0, 1);
    Entry(0x54, 0x1a, 0, 1, 0, 1, 0, 1, 0, 0, 0, 0, 0, 1, 1, 0, 1, 0);
    Entry(0xbb, 0x41, 1, 0, 1, 1, 1, 0, 1, 1, 0, 1, 0, 0, 0, 0, 0, 1);
    Entry(0x16, 0x1c, 0, 0, 0, 1, 0, 1, 1, 0, 0, 0, 0, 1, 1, 1, 0, 0);
  }

  lemma SboxBits(x: byte)
    ensures Affined(Sbox(x), Inverse(x))
  {
    hide Affined; hide Inverse; hide Sbox;
    match x / 16
    case 0 => Affine0(x);
    case 1 => Affine16(x);
    case 2 => Affine32(x);
    case 3 => Affine48(x);
    case 4 => Affine64(x);
    case 5 => Affine80(x);
    case 6 => Affine96(x);
    case 7 => Affine112(x);
    case 8 => Affine128(x);
    case 9 => Affine144(x);
    case 10 => Affine160(x);
    case 11 => Affine176(x);
    case 12 => Affine192(x);
    case 13 => Affine208(x);
    case 14 => Affine224(x);
    case _ => Affine240(x);
  }

  /** Every entry of the table `sbox` is the affine map of the inverse of its index. */
  lemma SboxIsAffineInverse(x: byte)
    ensures exists y: byte :: Inverts(x, y) && forall i: nat | i < 8 :: BitAt(Sbox(x), i) == AffineSum(y, i) % 2
  {
    hide BitAt; hide AffineSum; hide Inverse; hide Sbox; hide Mul;
    InverseIsInverse(x);
    SboxBits(x);
    assert Inverts(x, Inverse(x));
  }
}
