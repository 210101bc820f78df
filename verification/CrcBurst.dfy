/** CRC-32 detects every burst of at most 32 bits. */
module CrcBurst {
  import opened Arith
  import opened Bits
  import opened Crc32

  /** The n lowest bits of v, the lowest first: the order in which a byte enters the register. */
  function Lsb(n: nat, v: nat): (r: seq<nat>)
    ensures |r| == n && forall i :: 0 <= i < n ==> r[i] < 2
  {
    if n == 0 then [] else [v % 2] + Lsb(n - 1, v / 2)
  }

  function MessageBits(s: seq<byte>): (r: seq<nat>)
    ensures |r| == 8 * |s|
  {
    if s == [] then [] else MessageBits(s[..|s| - 1]) + Lsb(8, s[|s| - 1])
  }

  predicate AreBits(bits: seq<nat>) { forall i :: 0 <= i < |bits| ==> bits[i] < 2 }

  /** The number whose lowest bits these are. */
  function Number(bits: seq<nat>): nat {
    if bits == [] then 0 else bits[0] + 2 * Number(bits[1..])
  }

  /** The register after a string of bits. */
  function BitRegister(c: nat, bits: seq<nat>): nat
    decreases |bits|
  {
    if bits == [] then c else BitRegister(Step(Xor(c, bits[0])), bits[1..])
  }

  lemma {:induction false} NumberBound(bits: seq<nat>)
    requires AreBits(bits)
    ensures Number(bits) < Pow2(|bits|)
  {
    if bits != [] {
      NumberBound(bits[1..]);
    }
  }

  lemma {:induction false} NumberInjective(x: seq<nat>, y: seq<nat>)
    requires AreBits(x) && AreBits(y) && |x| == |y| && Number(x) == Number(y)
    ensures x == y
  {
    if x != [] {
      LowHigh(x[0], Number(x[1..])); LowHigh(y[0], Number(y[1..]));
      NumberInjective(x[1..], y[1..]);
      assert x == [x[0]] + x[1..] && y == [y[0]] + y[1..];
    }
  }

  /** A string of bits can be added to the register at once, and then moved through. */
  lemma {:induction false} BitsAtOnce(c: nat, bits: seq<nat>)
    requires AreBits(bits)
    ensures BitRegister(c, bits) == Steps(Xor(c, Number(bits)), |bits|)
    decreases |bits|
  {
    hide Xor; hide Step;
    if bits == [] {
      XorZero(c);
    } else {
      var b, n := bits[0], Number(bits[1..]);
      var d := Xor(c, b);
      BitsAtOnce(Step(d), bits[1..]);
      AddBit(c, b, n);
      StepLinear(d, 2 * n);
      EvenStep(n);
      FirstStep(Xor(d, 2 * n), |bits|);
    }
  }

  lemma AddBit(c: nat, b: nat, n: nat)
    requires b < 2
    ensures Xor(Xor(c, b), 2 * n) == Xor(c, b + 2 * n)
  {
    hide Xor;
    XorPush(b, 0, 0, n); XorZero(n);
    XorAssoc(c, b, 2 * n);
  }

  lemma {:induction false} FirstStep(c: nat, n: nat)
    requires n > 0
    ensures Steps(c, n) == Steps(Step(c), n - 1)
  {
    hide Step;
    if n > 1 {
      FirstStep(c, n - 1);
    }
  }

  lemma {:induction false} BitRegisterConcat(c: nat, s: seq<nat>, t: seq<nat>)
    ensures BitRegister(c, s + t) == BitRegister(BitRegister(c, s), t)
    decreases |s|
  {
    hide Step; hide Xor;
    if s == [] {
      assert s + t == t;
    } else {
      assert (s + t)[1..] == s[1..] + t;
      BitRegisterConcat(Step(Xor(c, s[0])), s[1..], t);
    }
  }

  lemma {:induction false} NumberOfLsb(n: nat, v: nat)
    requires v < Pow2(n)
    ensures Number(Lsb(n, v)) == v
  {
    if n > 0 {
      NumberOfLsb(n - 1, v / 2);
    }
  }

  /** The byte-wise register is the bit-wise one. */
  lemma {:induction false} RegisterByBits(c: nat, s: seq<byte>)
    ensures AreBits(MessageBits(s))
    ensures Register(c, s) == BitRegister(c, MessageBits(s))
  {
    hide Xor; hide Steps; hide Lsb; hide BitRegister; hide Number; hide Pow2;
    if s == [] {
      assert BitRegister(c, []) == c by { NoBits(c); }
    } else {
      var front, b := s[..|s| - 1], s[|s| - 1];
      RegisterByBits(c, front);
      BitRegisterConcat(c, MessageBits(front), Lsb(8, b));
      BitsAtOnce(BitRegister(c, MessageBits(front)), Lsb(8, b));
      Powers();
      NumberOfLsb(8, b);
    }
  }

  lemma NoBits(c: nat)
    ensures BitRegister(c, []) == c
  {
  }

  // ---- steps are injective on words ----

  lemma StepWord(c: word)
    ensures Step(c) < 0x1_0000_0000
    ensures Step(c) >= 0x8000_0000 <==> c % 2 == 1
  {
    Powers();
    hide *;
    StepIs(c);
    if c % 2 == 1 {
      PolyTop();
      var rest := POLY - 0x8000_0000;
      XorHigh(rest, c / 2, 31);
      XorBound(rest, c / 2, 31);
    }
  }

  lemma StepIs(c: nat)
    ensures Step(c) == if c % 2 == 1 then Xor(POLY, c / 2) else c / 2
  {
  }

  lemma PolyTop()
    ensures 0x8000_0000 <= POLY < 0x1_0000_0000
  {
  }

  lemma StepInjective(c: word, d: word)
    requires Step(c) == Step(d)
    ensures c == d
  {
    StepWord(c); StepWord(d);
    hide Xor;
    if c % 2 == 1 {
      XorComm(POLY, c / 2); XorComm(POLY, d / 2);
      XorInjective(c / 2, d / 2, POLY);
    }
    SplitEq(c, d);
  }

  lemma {:induction false} StepsInjective(c: word, d: word, n: nat)
    requires Steps(c, n) == Steps(d, n)
    ensures c == d
  {
    hide Step;
    if n > 0 {
      StepsAreWords(c, n - 1); StepsAreWords(d, n - 1);
      StepInjective(Steps(c, n - 1), Steps(d, n - 1));
      StepsInjective(c, d, n - 1);
    }
  }

  lemma {:induction false} StepsAreWords(c: word, n: nat)
    ensures Steps(c, n) < 0x1_0000_0000
  {
    hide Step;
    if n > 0 {
      StepsAreWords(c, n - 1);
      StepWord(Steps(c, n - 1));
    }
  }

  lemma BitIsWord(c: word, b: nat)
    requires b < 2
    ensures Step(Xor(c, b)) < 0x1_0000_0000 && Xor(c, b) < 0x1_0000_0000
  {
    hide *;
    WordXor(c, b);
    StepWord(Xor(c, b));
  }

  lemma {:induction false} BitRegisterIsWord(c: word, bits: seq<nat>)
    requires AreBits(bits)
    ensures BitRegister(c, bits) < 0x1_0000_0000
    decreases |bits|
  {
    hide Step; hide Xor;
    if bits != [] {
      BitIsWord(c, bits[0]);
      BitRegisterIsWord(Step(Xor(c, bits[0])), bits[1..]);
    }
  }

  /** Different registers stay different under the same bits. */
  lemma {:induction false} SameBitsKeepApart(c: word, d: word, bits: seq<nat>)
    requires AreBits(bits) && c != d
    ensures BitRegister(c, bits) != BitRegister(d, bits)
    decreases |bits|
  {
    hide Step; hide Xor;
    if bits != [] {
      var b := bits[0];
      BitIsWord(c, b); BitIsWord(d, b);
      if Step(Xor(c, b)) == Step(Xor(d, b)) {
        StepInjective(Xor(c, b), Xor(d, b));
        XorInjective(c, d, b);
        assert false;
      }
      SameBitsKeepApart(Step(Xor(c, b)), Step(Xor(d, b)), bits[1..]);
    }
  }

  /** Different bits, at most 32 of them, take one register to different ones. */
  lemma ShortBitsTellApart(c: word, x: seq<nat>, y: seq<nat>)
    requires AreBits(x) && AreBits(y) && |x| == |y| <= 32 && x != y
    ensures BitRegister(c, x) != BitRegister(c, y)
  {
    hide BitRegister; hide Number; hide Steps; hide Xor;
    BitsAtOnce(c, x); BitsAtOnce(c, y);
    NumberBound(x); NumberBound(y);
    PowWord(|x|);
    hide Pow2;
    var u, v := Number(x), Number(y);
    WordXor(c, u); WordXor(c, v);
    if BitRegister(c, x) == BitRegister(c, y) {
      StepsInjective(Xor(c, u), Xor(c, v), |x|);
      XorComm(c, u); XorComm(c, v);
      XorInjective(u, v, c);
      NumberInjective(x, y);
    }
  }

  lemma PowWord(n: nat)
    requires n <= 32
    ensures Pow2(n) <= 0x1_0000_0000
  {
    Powers();
    hide Pow2;
    Pow2Product(n, 32 - n);
    MulMono(1, Pow2(32 - n), Pow2(n));
  }

  /** Two messages that differ only within 32 consecutive bits, in the order of transmission, have different checksums. */
  lemma BurstDetected(crc: word, s: seq<byte>, t: seq<byte>, lo: nat)
    requires |s| == |t| && s != t
    requires forall i :: 0 <= i < 8 * |s| && !(lo <= i < lo + 32) ==> MessageBits(s)[i] == MessageBits(t)[i]
    ensures Checksum(crc, s) != Checksum(crc, t)
  {
    hide *;
    var a, b := MessageBits(s), MessageBits(t);
    var c := Xor(crc, ONES);
    StartWord(crc);
    RegisterByBits(c, s); RegisterByBits(c, t);
    if a == b {
      MessageBitsInjective(s, t);
    }
    var from := if lo <= |a| then lo else |a|;
    var to := if lo + 32 <= |a| then lo + 32 else |a|;
    BurstInBits(c, a, b, from, to);
    ChecksumApart(crc, s, t);
  }

  lemma {:induction false} MessageBitsConcat(s: seq<byte>, t: seq<byte>)
    ensures MessageBits(s + t) == MessageBits(s) + MessageBits(t)
  {
    hide Lsb;
    if t == [] {
      assert s + t == s;
    } else {
      var front := t[..|t| - 1];
      MessageBitsConcat(s, front);
      assert (s + t)[..|s + t| - 1] == s + front;
    }
  }

  /** In particular two strings that differ only within four consecutive bytes. */
  lemma FourBytesDetected(crc: word, p: seq<byte>, x: seq<byte>, y: seq<byte>, q: seq<byte>)
    requires |x| == |y| <= 4 && x != y
    ensures Checksum(crc, p + x + q) != Checksum(crc, p + y + q)
  {
    hide *;
    MessageBitsConcat(p + x, q); MessageBitsConcat(p, x);
    MessageBitsConcat(p + y, q); MessageBitsConcat(p, y);
    Different(p, x, y, q);
    BurstDetected(crc, p + x + q, p + y + q, 8 * |p|);
  }

  lemma Different<T>(p: seq<T>, x: seq<T>, y: seq<T>, q: seq<T>)
    requires |x| == |y| && x != y
    ensures p + x + q != p + y + q
  {
    assert (p + x + q)[|p|..|p| + |x|] == x && (p + y + q)[|p|..|p| + |x|] == y;
  }

  lemma StartWord(crc: word)
    ensures Xor(crc, ONES) < 0x1_0000_0000
  {
    hide Xor;
    WordXor(crc, ONES);
  }

  lemma ChecksumApart(crc: nat, s: seq<byte>, t: seq<byte>)
    requires Register(Xor(crc, ONES), s) != Register(Xor(crc, ONES), t)
    ensures Checksum(crc, s) != Checksum(crc, t)
  {
    hide Register; hide Xor;
    if Checksum(crc, s) == Checksum(crc, t) {
      XorInjective(Register(Xor(crc, ONES), s), Register(Xor(crc, ONES), t), ONES);
    }
  }

  lemma {:induction false} MessageBitsInjective(s: seq<byte>, t: seq<byte>)
    requires |s| == |t| && MessageBits(s) == MessageBits(t)
    ensures s == t
  {
    if s != [] {
      var n := |s| - 1;
      LastByte(s); LastByte(t);
      hide *;
      LsbInjective(s[n], t[n]);
      MessageBitsInjective(s[..n], t[..n]);
    }
  }

  lemma LastByte(s: seq<byte>)
    requires s != []
    ensures var n := |s| - 1;
            && s == s[..n] + [s[n]]
            && MessageBits(s)[..8 * n] == MessageBits(s[..n])
            && MessageBits(s)[8 * n..] == Lsb(8, s[n])
  {
    Unfold(s);
    hide *;
    var a, b := MessageBits(s[..|s| - 1]), Lsb(8, s[|s| - 1]);
    Halves(s, a, b);
  }

  lemma Unfold(s: seq<byte>)
    requires s != []
    ensures MessageBits(s) == MessageBits(s[..|s| - 1]) + Lsb(8, s[|s| - 1])
  {
    hide Lsb;
  }

  lemma Halves(s: seq<byte>, a: seq<nat>, b: seq<nat>)
    requires s != []
    ensures s == s[..|s| - 1] + [s[|s| - 1]]
    ensures (a + b)[..|a|] == a && (a + b)[|a|..] == b
  {
  }

  lemma LsbInjective(a: byte, b: byte)
    requires Lsb(8, a) == Lsb(8, b)
    ensures a == b
  {
    Powers();
    hide *;
    NumberOfLsb(8, a); NumberOfLsb(8, b);
  }

  lemma BurstInBits(c: word, a: seq<nat>, b: seq<nat>, from: nat, to: nat)
    requires AreBits(a) && AreBits(b) && |a| == |b| && a != b
    requires from <= to <= |a| && to - from <= 32
    requires forall i :: 0 <= i < |a| && !(from <= i < to) ==> a[i] == b[i]
    ensures BitRegister(c, a) != BitRegister(c, b)
  {
    hide *;
    var p, x, y, q := a[..from], a[from..to], b[from..to], a[to..];
    ThreeParts(a, b, from, to);
    BitParts(a, from, to); BitParts(b, from, to);
    BitRegisterConcat(c, p + x, q); BitRegisterConcat(c, p, x);
    BitRegisterConcat(c, p + y, q); BitRegisterConcat(c, p, y);
    BitRegisterIsWord(c, p);
    var d := BitRegister(c, p);
    ShortBitsTellApart(d, x, y);
    BitRegisterIsWord(d, x); BitRegisterIsWord(d, y);
    SameBitsKeepApart(BitRegister(d, x), BitRegister(d, y), q);
  }

  lemma BitParts(a: seq<nat>, from: nat, to: nat)
    requires AreBits(a) && from <= to <= |a|
    ensures AreBits(a[..from]) && AreBits(a[from..to]) && AreBits(a[to..])
  {
  }

  lemma ThreeParts<T>(a: seq<T>, b: seq<T>, from: nat, to: nat)
    requires |a| == |b| && a != b && from <= to <= |a|
    requires forall i :: 0 <= i < |a| && !(from <= i < to) ==> a[i] == b[i]
    ensures a == a[..from] + a[from..to] + a[to..]
    ensures b == a[..from] + b[from..to] + a[to..]
    ensures a[from..to] != b[from..to]
  {
  }
}
