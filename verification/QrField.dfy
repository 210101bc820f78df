/** The field of the QR code: GF(256) over x^8 + x^4 + x^3 + x^2 + 1, and its generator x. */
module QrField {
  import opened Bits
  import opened Gf256

  const PROOT: modulus := 0x11d

  /** The k-th power of x: entry k of the table `alpha`. */
  function Alpha(k: nat): byte {
    if k == 0 then 1 else XTime(Alpha(k - 1), PROOT)
  }

  function Times(a: byte, b: byte): byte {
    Mul(a, b, PROOT)
  }

  lemma {:induction false} AlphaAdd(i: nat, j: nat)
    ensures Times(Alpha(i), Alpha(j)) == Alpha(i + j)
  {
    hide XTime;
    hide Mul;
    if i == 0 {
      OneMul(Alpha(j), PROOT);
    } else {
      AlphaAdd(i - 1, j);
      MulXTimeLeft(Alpha(i - 1), Alpha(j), PROOT);
    }
  }

  /** XTime in plain arithmetic. */
  function XTimeVal(a: byte): int {
    if a < 128 then 2 * a else 2 * a - 227 - 8 * (a / 2 % 8)
  }

  /** Exclusive or of an even number with 0x1d toggles bits 0, 2, 3 and 4. */
  lemma ToggledBits(c0: nat, c1: nat, c2: nat, c3: nat, h: nat)
    requires c0 < 2 && c1 < 2 && c2 < 2 && c3 < 2
    ensures var q := c0 + 2 * (c1 + 2 * (c2 + 2 * (c3 + 2 * h)));
            Xor(2 * q, 29) == 2 * q + 29 - 8 * (c1 + 2 * c2 + 4 * c3)
  {
    hide Xor;
    var q3 := c3 + 2 * h;
    var q2 := c2 + 2 * q3;
    var q1 := c1 + 2 * q2;
    XorPush(0, c0 + 2 * q1, 1, 14); XorPush(c0, q1, 0, 7);
    XorPush(c1, q2, 1, 3); XorPush(c2, q3, 1, 1); XorPush(c3, h, 1, 0);
    XorZero(h);
  }

  lemma XTimeValIsXTime(a: byte)
    ensures XTimeVal(a) == XTime(a, PROOT)
  {
    if a >= 128 {
      var q := a - 128;
      var q1, c0 := q / 2, q % 2;
      var q2, c1 := q1 / 2, q1 % 2;
      var q3, c2 := q2 / 2, q2 % 2;
      var h, c3 := q3 / 2, q3 % 2;
      HighDouble(a, c0, c1, c2, c3, h);
    }
  }

  lemma HighDouble(a: byte, c0: nat, c1: nat, c2: nat, c3: nat, h: nat)
    requires c0 < 2 && c1 < 2 && c2 < 2 && c3 < 2
    requires a == 128 + (c0 + 2 * (c1 + 2 * (c2 + 2 * (c3 + 2 * h))))
    ensures XTimeVal(a) == XTime(a, PROOT)
  {
    hide Xor;
    ToggledBits(c0, c1, c2, c3, h);
    var m := c1 + 2 * c2 + 4 * c3;
    assert a / 2 == m + 8 * (h + 8);
    assert a / 2 % 8 == m;
    var r: byte := 2 * (a - 128);
    assert 2 * a == 256 + r;
    XorBit8(r, 29);
  }

  predicate Doubles(a: byte, b: byte) {
    XTimeVal(a) == b
  }

  lemma AlphaNext(k: nat, a: byte, b: byte)
    requires Alpha(k) == a && Doubles(a, b)
    ensures Alpha(k + 1) == b
  {
    XTimeValIsXTime(a);
  }

  /** Seventeen entries of the table `alpha`, each the double of the one before. */
  lemma AlphaRun(k: nat, a0: byte, a1: byte, a2: byte, a3: byte, a4: byte, a5: byte, a6: byte, a7: byte, a8: byte,
                 a9: byte, a10: byte, a11: byte, a12: byte, a13: byte, a14: byte, a15: byte, a16: byte, a17: byte)
    requires Alpha(k) == a0
    requires Doubles(a0, a1) && Doubles(a1, a2) && Doubles(a2, a3) && Doubles(a3, a4) && Doubles(a4, a5) &&
             Doubles(a5, a6) && Doubles(a6, a7) && Doubles(a7, a8) && Doubles(a8, a9)
    requires Doubles(a9, a10) && Doubles(a10, a11) && Doubles(a11, a12) && Doubles(a12, a13) && Doubles(a13, a14) &&
             Doubles(a14, a15) && Doubles(a15, a16) && Doubles(a16, a17)
    ensures Alpha(k + 17) == a17
  {
    hide Alpha;
    hide Doubles;
    AlphaNext(k + 0, a0, a1); AlphaNext(k + 1, a1, a2); AlphaNext(k + 2, a2, a3); AlphaNext(k + 3, a3, a4);
    AlphaNext(k + 4, a4, a5); AlphaNext(k + 5, a5, a6); AlphaNext(k + 6, a6, a7); AlphaNext(k + 7, a7, a8);
    AlphaNext(k + 8, a8, a9); AlphaNext(k + 9, a9, a10); AlphaNext(k + 10, a10, a11); AlphaNext(k + 11, a11, a12);
    AlphaNext(k + 12, a12, a13); AlphaNext(k + 13, a13, a14); AlphaNext(k + 14, a14, a15); AlphaNext(k + 15, a15,
    a16); AlphaNext(k + 16, a16, a17);
  }

  lemma AlphaZero()
    ensures Alpha(0) == 1
  {
  }

  lemma Alpha51()
    ensures Alpha(51) == 0x0a && Alpha(17) == 0x98
  {
    AlphaZero();
    hide Alpha;
    AlphaRun(0, 0x01, 0x02, 0x04, 0x08, 0x10, 0x20, 0x40, 0x80, 0x1d,
             0x3a, 0x74, 0xe8, 0xcd, 0x87, 0x13, 0x26, 0x4c, 0x98);
    AlphaRun(17, 0x98, 0x2d, 0x5a, 0xb4, 0x75, 0xea, 0xc9, 0x8f, 0x03,
             0x06, 0x0c, 0x18, 0x30, 0x60, 0xc0, 0x9d, 0x27, 0x4e);
    AlphaRun(34, 0x4e, 0x9c, 0x25, 0x4a, 0x94, 0x35, 0x6a, 0xd4, 0xb5,
             0x77, 0xee, 0xc1, 0x9f, 0x23, 0x46, 0x8c, 0x05, 0x0a);
  }

  lemma Alpha102()
    ensures Alpha(102) == 0x44
  {
    Alpha51();
    hide Alpha;
    AlphaRun(51, 0x0a, 0x14, 0x28, 0x50, 0xa0, 0x5d, 0xba, 0x69, 0xd2,
             0xb9, 0x6f, 0xde, 0xa1, 0x5f, 0xbe, 0x61, 0xc2, 0x99);
    AlphaRun(68, 0x99, 0x2f, 0x5e, 0xbc, 0x65, 0xca, 0x89, 0x0f, 0x1e,
             0x3c, 0x78, 0xf0, 0xfd, 0xe7, 0xd3, 0xbb, 0x6b, 0xd6);
    AlphaRun(85, 0xd6, 0xb1, 0x7f, 0xfe, 0xe1, 0xdf, 0xa3, 0x5b, 0xb6,
             0x71, 0xe2, 0xd9, 0xaf, 0x43, 0x86, 0x11, 0x22, 0x44);
  }

  lemma Alpha153()
    ensures Alpha(153) == 0x92
  {
    Alpha102();
    hide Alpha;
    AlphaRun(102, 0x44, 0x88, 0x0d, 0x1a, 0x34, 0x68, 0xd0, 0xbd, 0x67,
             0xce, 0x81, 0x1f, 0x3e, 0x7c, 0xf8, 0xed, 0xc7, 0x93);
    AlphaRun(119, 0x93, 0x3b, 0x76, 0xec, 0xc5, 0x97, 0x33, 0x66, 0xcc,
             0x85, 0x17, 0x2e, 0x5c, 0xb8, 0x6d, 0xda, 0xa9, 0x4f);
    AlphaRun(136, 0x4f, 0x9e, 0x21, 0x42, 0x84, 0x15, 0x2a, 0x54, 0xa8,
             0x4d, 0x9a, 0x29, 0x52, 0xa4, 0x55, 0xaa, 0x49, 0x92);
  }

  lemma Alpha204()
    ensures Alpha(204) == 0xdd
  {
    Alpha153();
    hide Alpha;
    AlphaRun(153, 0x92, 0x39, 0x72, 0xe4, 0xd5, 0xb7, 0x73, 0xe6, 0xd1,
             0xbf, 0x63, 0xc6, 0x91, 0x3f, 0x7e, 0xfc, 0xe5, 0xd7);
    AlphaRun(170, 0xd7, 0xb3, 0x7b, 0xf6, 0xf1, 0xff, 0xe3, 0xdb, 0xab,
             0x4b, 0x96, 0x31, 0x62, 0xc4, 0x95, 0x37, 0x6e, 0xdc);
    AlphaRun(187, 0xdc, 0xa5, 0x57, 0xae, 0x41, 0x82, 0x19, 0x32, 0x64,
             0xc8, 0x8d, 0x07, 0x0e, 0x1c, 0x38, 0x70, 0xe0, 0xdd);
  }

  lemma Alpha255()
    ensures Alpha(255) == 0x01
  {
    Alpha204();
    hide Alpha;
    AlphaRun(204, 0xdd, 0xa7, 0x53, 0xa6, 0x51, 0xa2, 0x59, 0xb2, 0x79,
             0xf2, 0xf9, 0xef, 0xc3, 0x9b, 0x2b, 0x56, 0xac, 0x45);
    AlphaRun(221, 0x45, 0x8a, 0x09, 0x12, 0x24, 0x48, 0x90, 0x3d, 0x7a,
             0xf4, 0xf5, 0xf7, 0xf3, 0xfb, 0xeb, 0xcb, 0x8b, 0x0b);
    AlphaRun(238, 0x0b, 0x16, 0x2c, 0x58, 0xb0, 0x7d, 0xfa, 0xe9, 0xcf,
             0x83, 0x1b, 0x36, 0x6c, 0xd8, 0xad, 0x47, 0x8e, 0x01);
  }

  lemma {:induction false} AlphaMultiple(k: nat, q: nat, r: nat)
    ensures Alpha(k) == 1 ==> Alpha(q * k + r) == Alpha(r)
  {
    hide Alpha;
    hide Mul;
    if q > 0 {
      AlphaMultiple(k, q - 1, r);
      var t := (q - 1) * k + r;
      AlphaAdd(k, t);
      OneMul(Alpha(t), PROOT);
      assert k + t == q * k + r;
    }
  }

  /** No proper power of x is 1: the order of x is exactly 255. */
  lemma {:induction false} AlphaNotOne(k: nat)
    requires 0 < k < 255
    ensures Alpha(k) != 1
  {
    hide *;
    if Alpha(k) == 1 {
      var q, r := 255 / k, 255 % k;
      assert 255 == q * k + r;
      AlphaMultiple(k, q, r);
      Alpha255();
      if r > 0 {
        AlphaNotOne(r);
      } else {
        DivisorsOf255(k, q);
        DivisorNotOne(k);
      }
    }
  }

  lemma DivisorsOf255(k: nat, q: nat)
    requires 0 < k < 255 && 255 == q * k
    ensures k in {1, 3, 5, 15, 17, 51, 85}
  {
    if k >= 16 {
      assert q == 1 || q == 2 || q == 3 || q == 4 || q == 5 || q == 6 || q == 7 || q == 8
          || q == 9 || q == 10 || q == 11 || q == 12 || q == 13 || q == 14 || q == 15;
    } else {
      assert k == 1 || k == 2 || k == 3 || k == 4 || k == 5 || k == 6 || k == 7 || k == 8
          || k == 9 || k == 10 || k == 11 || k == 12 || k == 13 || k == 14 || k == 15;
    }
  }

  lemma DivisorNotOne(k: nat)
    requires k in {1, 3, 5, 15, 17, 51, 85}
    ensures Alpha(k) != 1
  {
    assert Alpha(2) == 4;
    hide Alpha;
    Alpha51();
    if {
      case k == 1 => AlphaMultiple(1, 15, 2);
      case k == 3 => AlphaMultiple(3, 5, 2);
      case k == 5 => AlphaMultiple(5, 3, 2);
      case k == 15 => AlphaMultiple(15, 1, 2);
      case k == 17 =>
      case k == 51 =>
      case k == 85 => Alpha102(); AlphaMultiple(85, 1, 17);
    }
  }

  lemma AlphaNonzero(k: nat)
    ensures Alpha(k) != 0
  {
    hide Alpha;
    hide Mul;
    AlphaAdd(k, 254 * k);
    Alpha255();
    AlphaMultiple(255, k, 0);
    AlphaZero();
    assert k + 254 * k == k * 255 + 0;
    MulZeroLeft(Alpha(254 * k), PROOT);
  }

  lemma AlphaInjective(i: nat, j: nat)
    requires i < j < i + 255
    ensures Alpha(i) != Alpha(j)
  {
    hide Alpha;
    hide Mul;
    if Alpha(i) == Alpha(j) {
      AlphaAdd(i, 254 * i); AlphaAdd(j, 254 * i);
      Alpha255();
      AlphaMultiple(255, i, 0); AlphaMultiple(255, i, j - i);
      AlphaZero();
      assert i + 254 * i == i * 255 + 0 && j + 254 * i == i * 255 + (j - i);
      AlphaNotOne(j - i);
    }
  }

  /** Every nonzero byte is a power of x. */
  lemma LogExists(b: byte) returns (k: nat)
    requires b != 0
    ensures k < 255 && Alpha(k) == b
  {
    hide Alpha;
    PowersCount(255);
    Below(256);
    forall v | v in Powers(255) ensures v in Nonzero(256) {
      var _ := PowersMember(255, v);
    }
    SubsetOfSameSize(Powers(255), Nonzero(256));
    k := PowersMember(255, b);
  }

  ghost function Powers(n: nat): set<int> {
    if n == 0 then {} else Powers(n - 1) + {Alpha(n - 1) as int}
  }

  lemma {:induction false} PowersMember(n: nat, v: int) returns (k: nat)
    requires v in Powers(n)
    ensures k < n && Alpha(k) == v && 1 <= v < 256
  {
    hide Alpha;
    if v == Alpha(n - 1) {
      k := n - 1;
      AlphaNonzero(k);
    } else {
      k := PowersMember(n - 1, v);
    }
  }

  lemma {:induction false} PowersCount(n: nat)
    requires n <= 255
    ensures |Powers(n)| == n
  {
    hide Alpha;
    if n > 0 {
      PowersCount(n - 1);
      if Alpha(n - 1) as int in Powers(n - 1) {
        var k := PowersMember(n - 1, Alpha(n - 1));
        AlphaInjective(k, n - 1);
      }
    }
  }

  ghost function Nonzero(n: nat): set<int> {
    if n <= 1 then {} else Nonzero(n - 1) + {n - 1}
  }

  lemma {:induction false} Below(n: nat)
    requires n > 0
    ensures |Nonzero(n)| == n - 1
    ensures forall v :: v in Nonzero(n) <==> 1 <= v < n
  {
    if n > 1 {
      Below(n - 1);
    }
  }

  lemma SubsetOfSameSize<T>(s: set<T>, t: set<T>)
    requires s <= t && |s| == |t|
    ensures s == t
  {
    if v :| v in t && v !in s {
      assert |t - {v}| == |t| - 1;
      SubsetSize(s, t - {v});
    } else {
      assert t <= s;
    }
  }

  lemma {:induction false} SubsetSize<T>(s: set<T>, t: set<T>)
    requires s <= t
    ensures |s| <= |t|
  {
    if v :| v in s {
      SubsetSize(s - {v}, t - {v});
      assert |s - {v}| == |s| - 1 && |t - {v}| == |t| - 1;
    } else {
      assert s == {};
    }
  }

  lemma TimesComm(a: byte, b: byte)
    ensures Times(a, b) == Times(b, a)
  {
    hide Mul;
    MulComm(a, b, PROOT);
  }

  lemma TimesAssoc(a: byte, b: byte, c: byte)
    ensures Times(Times(a, b), c) == Times(a, Times(b, c))
  {
    hide Mul;
    MulAssoc(a, b, c, PROOT);
  }

  lemma TimesNonzero(a: byte, b: byte)
    ensures Times(a, b) == 0 <==> a == 0 || b == 0
  {
    hide Alpha;
    hide Mul;
    MulZeroLeft(a, PROOT); MulZeroLeft(b, PROOT);
    if a != 0 && b != 0 {
      var i := LogExists(a);
      var j := LogExists(b);
      AlphaAdd(i, j); AlphaNonzero(i + j);
    }
  }

  lemma TimesOne(a: byte)
    ensures Times(1, a) == a && Times(a, 1) == a
  {
    TimesComm(1, a);
    hide Mul;
    OneMul(a, PROOT);
  }

  lemma TimesXor(a: byte, b: byte, c: byte)
    ensures Times(a, XorB(b, c)) == XorB(Times(a, b), Times(a, c))
    ensures Times(XorB(b, c), a) == XorB(Times(b, a), Times(c, a))
  {
    hide XorB;
    hide Mul;
    MulAddLeft(b, c, a, PROOT);
    MulAddRight(a, b, c, PROOT);
  }
}
