/** The CRC-32 of the program: a table with the complements folded in, and what it computes. */
module Crc32 {
  import opened Arith
  import opened Bits

  type word = x: nat | x < 0x1_0000_0000

  const POLY: word := 0xEDB88320

  const ONES: word := 0xFFFFFFFF

  // ---- the plain form, one bit at a time ----

  /** One step of the register of section 8 of RFC 1952. */
  function Step(c: nat): nat {
    if c % 2 == 1 then Xor(POLY, c / 2) else c / 2
  }

  function Steps(c: nat, n: nat): nat {
    if n == 0 then c else Step(Steps(c, n - 1))
  }

  /** One byte into the register, and then a string of bytes. */
  function ByteStep(c: nat, b: byte): nat { Steps(Xor(c, b), 8) }

  function Register(c: nat, s: seq<byte>): nat {
    if s == [] then c else ByteStep(Register(c, s[..|s| - 1]), s[|s| - 1])
  }

  /** The checksum of RFC 1952, continued from an earlier value: complement, run the register, complement. */
  function Checksum(crc: nat, s: seq<byte>): nat {
    Xor(Register(Xor(crc, ONES), s), ONES)
  }

  // ---- the program's form ----

  /** One turn of the loop of crc32_for_byte: the polynomial is added when the bit is *not* set. */
  function Odd(r: nat): nat { Xor(if r % 2 == 1 then 0 else POLY, r / 2) }

  function Odds(r: nat, n: nat): nat {
    if n == 0 then r else Odd(Odds(r, n - 1))
  }

  /** crc32_for_byte. */
  function Entry(r: nat): nat { Xor(Odds(r, 8), 0xFF000000) }

  /** The body of the loop of crc32, with the table looked up. */
  function TableStep(crc: nat, b: byte): nat {
    Xor(Entry(Xor(crc % 256, b)), crc / 256)
  }

  // ---- the register is linear ----

  lemma StepLinear(a: nat, b: nat)
    ensures Step(Xor(a, b)) == Xor(Step(a), Step(b))
  {
    hide Xor;
    XorStep(a, b);
    AddParity(a, b);
    var x, y := a / 2, b / 2;
    if a % 2 == 1 && b % 2 == 1 {
      XorSwap(POLY, x, POLY, y); XorSelf(POLY); XorZero(Xor(x, y));
    } else if a % 2 == 1 {
      XorAssoc(POLY, x, y);
    } else if b % 2 == 1 {
      XorAssoc(POLY, y, x); XorComm(y, x); XorComm(x, Xor(POLY, y));
    }
  }

  lemma {:induction false} StepsLinear(a: nat, b: nat, n: nat)
    ensures Steps(Xor(a, b), n) == Xor(Steps(a, n), Steps(b, n))
  {
    hide Xor; hide Step;
    if n > 0 {
      StepsLinear(a, b, n - 1);
      StepLinear(Steps(a, n - 1), Steps(b, n - 1));
    }
  }

  /** Bits that have not reached the end of the register only move. */
  lemma {:induction false} StepsShift(h: nat, n: nat)
    ensures Steps(h * Pow2(n), n) == h
    decreases n
  {
    hide *;
    if n == 0 {
      NoSteps(h);
    } else {
      var p := Pow2(n - 1);
      NextPower(n - 1);
      Doubled(h, p);
      StepsShift(2 * h, n - 1);
      NextStep(h * Pow2(n), n - 1);
      EvenStep(h);
    }
  }

  lemma NextPower(n: nat)
    ensures Pow2(n + 1) == 2 * Pow2(n)
  {
  }

  lemma NoSteps(h: nat)
    ensures Pow2(0) == 1 && Steps(h * 1, 0) == h
  {
  }

  lemma NextStep(c: nat, n: nat)
    ensures Steps(c, n + 1) == Step(Steps(c, n))
  {
    hide Step;
  }

  lemma EvenStep(h: nat)
    ensures Step(2 * h) == h
  {
  }

  /** The program's step differs from the plain one by the polynomial. */
  lemma OddIsStep(r: nat)
    ensures Odd(r) == Xor(Step(r), POLY)
  {
    hide Xor;
    if r % 2 == 1 {
      XorComm(POLY, r / 2); XorCancel(r / 2, POLY); XorZero(r / 2);
    } else {
      XorComm(POLY, r / 2);
    }
  }

  /** n of the program's steps are n plain steps and a constant. */
  lemma {:induction false} OddsAffine(r: nat, n: nat)
    ensures Odds(r, n) == Xor(Steps(r, n), Odds(0, n))
  {
    hide Xor; hide Step; hide Odd;
    if n == 0 {
      XorZero(r);
    } else {
      OddsAffine(r, n - 1);
      OddIsStep(Odds(r, n - 1)); OddIsStep(Odds(0, n - 1));
      StepLinear(Steps(r, n - 1), Odds(0, n - 1));
      XorAssoc(Steps(r, n), Step(Odds(0, n - 1)), POLY);
    }
  }

  function AllOnes(n: nat): nat { Pow2(n) - 1 }

  /** The constant: what n plain steps make of the complement, but for the bits of it still in the register. */
  lemma {:induction false} OddsOfZero(n: nat, k: nat)
    requires k > 0
    ensures Odds(0, n) == Xor(Steps(AllOnes(n + k), n), AllOnes(k))
  {
    hide Xor; hide Step; hide Odd;
    if n == 0 {
      XorSelf(AllOnes(k));
    } else {
      var ones := AllOnes(n + k);
      OddsOfZero(n - 1, k + 1);
      assert n - 1 + (k + 1) == n + k;
      var s := Steps(ones, n - 1);
      OddIsStep(Odds(0, n - 1));
      StepLinear(s, AllOnes(k + 1));
      OnesStep(k);
      XorAssoc(Step(s), Step(AllOnes(k + 1)), POLY);
    }
  }

  lemma OnesStep(k: nat)
    ensures Xor(Step(AllOnes(k + 1)), POLY) == AllOnes(k)
  {
    hide Xor;
    assert AllOnes(k + 1) == 2 * AllOnes(k) + 1;
    XorComm(POLY, AllOnes(k)); XorCancel(AllOnes(k), POLY);
  }

  lemma Powers()
    ensures Pow2(8) == 0x100 && Pow2(24) == 0x1000000 && Pow2(31) == 0x80000000 && Pow2(32) == 0x1_0000_0000
    ensures ONES == 0xFFFFFFFF && AllOnes(32) == ONES && AllOnes(24) == 0xFFFFFF
  {
    assert Pow2(8) == 0x100;
    hide Pow2;
    Pow2Product(8, 8); Pow2Product(16, 8); Pow2Product(24, 8);
    HalfPow2(32);
  }

  /** Numbers without common bits. */
  lemma XorApart(h: nat, l: nat, n: nat)
    requires l < Pow2(n)
    ensures Xor(h * Pow2(n), l) == h * Pow2(n) + l
  {
    hide *;
    XorJoin(h, 0, 0, l, n);
    XorZero(h); XorZero(l);
    assert 0 * Pow2(n) == 0;
  }

  lemma Complements()
    ensures Xor(0xFFFFFF, 0xFF000000) == ONES
  {
    Powers();
    hide *;
    XorApart(0xFF, 0xFFFFFF, 24);
    XorComm(0xFF000000, 0xFFFFFF);
  }

  /** The table entry of a byte, in plain steps. */
  lemma EntryIsSteps(r: nat)
    ensures Entry(r) == Xor(Xor(Steps(r, 8), Steps(ONES, 8)), ONES)
  {
    Powers();
    hide *;
    assert Entry(r) == Xor(Odds(r, 8), 0xFF000000) by { EntryIs(r); }
    OddsAffine(r, 8);
    OddsOfZero(8, 24);
    Complements();
    var a, b := Steps(r, 8), Steps(ONES, 8);
    XorAssoc(a, b, 0xFFFFFF);
    XorAssoc(Xor(a, b), 0xFFFFFF, 0xFF000000);
  }

  lemma EntryIs(r: nat)
    ensures Entry(r) == Xor(Odds(r, 8), 0xFF000000)
  {
    hide Odds; hide Xor;
  }

  /** A byte enters at the low end; what is above it is only moved. */
  lemma ByteSplits(c: nat, b: byte)
    ensures Steps(Xor(c, b), 8) == Xor(Steps(Xor(c % 256, b), 8), c / 256)
  {
    Powers();
    hide *;
    var h, l := c / 256, c % 256;
    Quotient(c, 256);
    XorApart(h, l, 8);
    var high := h * 256;
    XorAssoc(high, l, b);
    StepsLinear(high, Xor(l, b), 8);
    StepsShift(h, 8);
    XorComm(h, Steps(Xor(l, b), 8));
  }

  /** One turn of the program's loop is one plain step between two complements. */
  lemma TableStepIsPlain(crc: nat, b: byte)
    ensures TableStep(crc, b) == Xor(ByteStep(Xor(crc, ONES), b), ONES)
  {
    var s, t, h := Steps(Xor(crc % 256, b), 8), Steps(ONES, 8), crc / 256;
    hide Steps; hide Xor; hide Entry;
    EntryIsSteps(Xor(crc % 256, b));
    XorAssoc(crc, ONES, b); XorComm(ONES, b); XorAssoc(crc, b, ONES);
    StepsLinear(Xor(crc, b), ONES, 8);
    ByteSplits(crc, b);
    assert ByteStep(Xor(crc, ONES), b) == Xor(Xor(s, h), t);
    XorAssoc(s, h, t); XorComm(h, t); XorAssoc(s, t, h);
    XorAssoc(Xor(s, t), h, ONES); XorComm(h, ONES); XorAssoc(Xor(s, t), ONES, h);
  }

  /** The checksum of a string that is one byte longer. */
  lemma ChecksumSnoc(crc: nat, s: seq<byte>, b: byte)
    ensures Checksum(crc, s + [b]) == TableStep(Checksum(crc, s), b)
  {
    var t := s + [b];
    assert t[..|t| - 1] == s;
    assert Register(Xor(crc, ONES), t) == ByteStep(Register(Xor(crc, ONES), s), b);
    hide Register; hide Xor; hide TableStep; hide ByteStep;
    TableStepIsPlain(Checksum(crc, s), b);
    XorCancel(Register(Xor(crc, ONES), s), ONES);
  }

  lemma ChecksumNil(crc: nat)
    ensures Checksum(crc, []) == crc
  {
    hide Xor;
    XorCancel(crc, ONES);
  }

  lemma {:induction false} RegisterConcat(c: nat, s: seq<byte>, t: seq<byte>)
    ensures Register(c, s + t) == Register(Register(c, s), t)
  {
    hide ByteStep;
    if t == [] {
      assert s + t == s;
    } else {
      var front := t[..|t| - 1];
      RegisterConcat(c, s, front);
      assert (s + t)[..|s + t| - 1] == s + front;
    }
  }

  /** A checksum can be taken in pieces. */
  lemma ChecksumConcat(crc: nat, s: seq<byte>, t: seq<byte>)
    ensures Checksum(crc, s + t) == Checksum(Checksum(crc, s), t)
  {
    hide Register; hide Xor;
    RegisterConcat(Xor(crc, ONES), s, t);
    XorCancel(Register(Xor(crc, ONES), s), ONES);
  }

  // ---- the program ----

  lemma WordXor(a: word, b: word)
    ensures Xor(a, b) < 0x1_0000_0000
  {
    Powers();
    hide *;
    XorBound(a, b, 32);
  }

  lemma OddIsWord(r: word)
    ensures Odd(r) < 0x1_0000_0000
  {
    hide Xor;
    WordXor(if r % 2 == 1 then 0 else POLY, r / 2);
  }

  /** crc32_for_byte. */
  method Crc32ForByte(i: word) returns (r: word)
    ensures r == Entry(i)
  {
    hide Xor; hide Odd;
    r := i;
    for j := 0 to 8
      invariant r == Odds(i, j)
    {
      OddIsWord(r);
      r := Odd(r);
    }
    WordXor(r, 0xFF000000);
    r := Xor(r, 0xFF000000);
  }

  /** The static table of crc32, filled when its first entry is zero. */
  class Table {
    const table: array<word>

    ghost predicate Valid()
      reads table
    {
      && table.Length == 256
      && (table[0] != 0 ==> forall i: nat :: i < 256 ==> table[i] == Entry(i))
    }

    constructor ()
      ensures Valid() && fresh(table)
    {
      table := new word[256](_ => 0);
    }

    /** The first loop of crc32. */
    method Fill()
      requires Valid()
      modifies table
      ensures Valid() && forall i: nat :: i < 256 ==> table[i] == Entry(i)
    {
      hide Entry;
      if table[0] == 0 {
        for i: nat := 0 to 256
          invariant forall j: nat :: j < i ==> table[j] == Entry(j)
        {
          table[i] := Crc32ForByte(i);
        }
      }
    }

    /** crc32: the checksum of RFC 1952, continued from any value. */
    method Crc32(data: array<byte>, start: nat, bytes: nat, crc: word) returns (r: word)
      requires Valid() && start + bytes <= data.Length
      modifies table
      ensures Valid()
      ensures r == Checksum(crc, old(data[start..start + bytes])) && data[..] == old(data[..])
    {
      hide Entry; hide Checksum; hide Xor;
      Fill();
      r := crc;
      ghost var s := data[start..start + bytes];
      ChecksumNil(crc);
      assert s[..0] == [];
      for i := 0 to bytes
        invariant r == Checksum(crc, s[..i])
        modifies {}
      {
        assert s[..i + 1] == s[..i] + [data[start + i]];
        ChecksumSnoc(crc, s[..i], data[start + i]);
        LowByte(r, data[start + i]);
        var k: nat := Xor(r % 256, data[start + i]);
        WordXor(Entry(k), r / 256);
        assert table[k] == Entry(k);
        r := Xor(table[k], r / 256);
      }
      assert s[..bytes] == s;
    }
  }

  lemma LowByte(c: word, b: byte)
    ensures Xor(c % 256, b) < 256
    ensures Entry(Xor(c % 256, b)) < 0x1_0000_0000
  {
    Powers();
    hide Xor; hide Entry; hide Pow2;
    XorBound(c % 256, b, 8);
    EntryIsWord(Xor(c % 256, b));
  }

  lemma EntryIsWord(r: word)
    ensures Entry(r) < 0x1_0000_0000
  {
    hide Odds; hide Xor;
    OddsAreWords(r, 8);
    WordXor(Odds(r, 8), 0xFF000000);
  }

  lemma {:induction false} OddsAreWords(r: word, n: nat)
    ensures Odds(r, n) < 0x1_0000_0000
  {
    hide Odd;
    if n > 0 {
      OddsAreWords(r, n - 1);
      OddIsWord(Odds(r, n - 1));
    }
  }

  lemma {:induction false} ChecksumIsWord(crc: word, s: seq<byte>)
    ensures Checksum(crc, s) < 0x1_0000_0000
  {
    hide TableStep; hide Register;
    if s == [] {
      ChecksumNil(crc);
    } else {
      var front, b := s[..|s| - 1], s[|s| - 1];
      ChecksumIsWord(crc, front);
      assert s == front + [b];
      hide *;
      ChecksumSnoc(crc, front, b);
      TableStepIsWord(Checksum(crc, front), b);
    }
  }

  lemma TableStepIsWord(c: word, b: byte)
    ensures TableStep(c, b) < 0x1_0000_0000
  {
    hide Entry; hide Xor;
    LowByte(c, b);
    WordXor(Entry(Xor(c % 256, b)), c / 256);
  }
}
