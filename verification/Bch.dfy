/** The code of the format information: words of fifteen bits, any two of which differ in at least seven. */
module Bch {
  import opened BitString
  import opened RsCode

  /** The five data bits of a word, a4 the first. */
  datatype Five = Five(a0: bool, a1: bool, a2: bool, a3: bool, a4: bool)

  function One(b: bool): bit { if b then 1 else 0 }

  /** Bit i of the code word of d: a parity of data bits, and the data themselves from bit 10 on. */
  function CodeBit(d: Five, i: nat): bool
    requires i < 15
  {
    match i
    case 0 => (d.a0 != d.a2) != d.a4
    case 1 => (((d.a0 != d.a1) != d.a2) != d.a3) != d.a4
    case 2 => (d.a0 != d.a1) != d.a3
    case 3 => (d.a1 != d.a2) != d.a4
    case 4 => (d.a0 != d.a3) != d.a4
    case 5 => (d.a0 != d.a1) != d.a2
    case 6 => (d.a1 != d.a2) != d.a3
    case 7 => (d.a2 != d.a3) != d.a4
    case 8 => (d.a0 != d.a2) != d.a3
    case 9 => (d.a1 != d.a3) != d.a4
    case 10 => d.a0
    case 11 => d.a1
    case 12 => d.a2
    case 13 => d.a3
    case _ => d.a4
  }

  /** The check polynomial (x^15 + 1) / (x^10 + x^8 + x^5 + x^4 + x^2 + x + 1) gives every bit from those below it. */
  lemma Recurrence(d: Five, k: nat)
    requires 5 <= k < 15
    ensures CodeBit(d, k) == ((CodeBit(d, k - 1) != CodeBit(d, k - 3)) != CodeBit(d, k - 5))
  {
  }

  /** The bits in which two words of data differ. */
  function Differ(d: Five, e: Five): Five {
    Five(d.a0 != e.a0, d.a1 != e.a1, d.a2 != e.a2, d.a3 != e.a3, d.a4 != e.a4)
  }

  lemma CodeBitLinear(d: Five, e: Five, i: nat)
    requires i < 15
    ensures (CodeBit(d, i) != CodeBit(e, i)) == CodeBit(Differ(d, e), i)
  {
  }

  /** How many of the bits below n are set. */
  function Set(d: Five, n: nat): nat
    requires n <= 15
  {
    if n == 0 then 0 else Set(d, n - 1) + One(CodeBit(d, n - 1))
  }

  lemma SetNext(d: Five, n: nat)
    requires n < 15
    ensures Set(d, 0) == 0 && Set(d, n + 1) == Set(d, n) + One(CodeBit(d, n))
  {
    hide CodeBit;
  }

  lemma SetFive(d: Five, n: nat)
    requires n + 5 <= 15
    ensures Set(d, n + 5) == Set(d, n) + One(CodeBit(d, n)) + One(CodeBit(d, n + 1)) + One(CodeBit(d, n + 2))
                             + One(CodeBit(d, n + 3)) + One(CodeBit(d, n + 4))
  {
    hide *;
    SetNext(d, n); SetNext(d, n + 1); SetNext(d, n + 2); SetNext(d, n + 3); SetNext(d, n + 4);
  }

  lemma SetIs(d: Five)
    ensures Set(d, 15) == One(CodeBit(d, 0)) + One(CodeBit(d, 1)) + One(CodeBit(d, 2)) + One(CodeBit(d, 3)) + One(CodeBit(d, 4))
                          + One(CodeBit(d, 5)) + One(CodeBit(d, 6)) + One(CodeBit(d, 7)) + One(CodeBit(d, 8)) + One(CodeBit(d, 9))
                          + One(CodeBit(d, 10)) + One(CodeBit(d, 11)) + One(CodeBit(d, 12)) + One(CodeBit(d, 13)) + One(CodeBit(d, 14))
  {
    hide *;
    SetNext(d, 0);
    SetFive(d, 0); SetFive(d, 5); SetFive(d, 10);
  }

  lemma SevenSet(d: Five)
    requires d != Five(false, false, false, false, false)
    ensures Set(d, 15) >= 7
  {
    hide Set;
    SetIs(d);
  }

  // ---- words ----

  /** The fifteen bits that are added to a word, bit 0 first. */
  type mask = q: seq<bool> | |q| == 15 witness seq(15, _ => false)

  /** Bit i of the word of d under the mask q. */
  function Bit(d: Five, q: mask, i: nat): bit
    requires i < 15
  {
    One(CodeBit(d, i) != q[i])
  }

  /** The word of d under the mask q, bit 14 first. */
  function Word(d: Five, q: mask): (r: seq<bit>)
    ensures |r| == 15
  {
    seq<bit>(15, k requires 0 <= k < 15 => Bit(d, q, 14 - k))
  }

  lemma {:induction false} WordsDiffer(d: Five, e: Five, q: mask, n: nat)
    requires n <= 15
    ensures Distance(Word(d, q)[15 - n..], Word(e, q)[15 - n..]) == Set(Differ(d, e), n)
  {
    hide *;
    var u, v := Word(d, q), Word(e, q);
    var s, t := u[15 - n..], v[15 - n..];
    if n == 0 {
      NoneDiffer(s, t);
      SetNext(Differ(d, e), 0);
    } else {
      WordsDiffer(d, e, q, n - 1);
      assert s == [u[15 - n]] + u[15 - (n - 1)..] && t == [v[15 - n]] + v[15 - (n - 1)..];
      OneMore(u[15 - n], v[15 - n], u[15 - (n - 1)..], v[15 - (n - 1)..]);
      WordBitsDiffer(d, e, q, 15 - n);
      SetNext(Differ(d, e), n - 1);
    }
  }

  lemma NoneDiffer(s: seq<bit>, t: seq<bit>)
    requires |s| == |t| == 0
    ensures Distance(s, t) == 0
  {
  }

  lemma OneMore(a: bit, b: bit, s: seq<bit>, t: seq<bit>)
    requires |s| == |t|
    ensures Distance([a] + s, [b] + t) == One(a != b) + Distance(s, t)
  {
    assert ([a] + s)[1..] == s && ([b] + t)[1..] == t;
  }

  lemma WordBitsDiffer(d: Five, e: Five, q: mask, k: nat)
    requires k < 15
    ensures One(Word(d, q)[k] != Word(e, q)[k]) == One(CodeBit(Differ(d, e), 14 - k))
  {
    hide CodeBit;
    CodeBitLinear(d, e, 14 - k);
  }

  /** Words of different data differ in at least seven places. */
  lemma FarApart(d: Five, e: Five, q: mask)
    requires d != e
    ensures Distance(Word(d, q), Word(e, q)) >= 7
  {
    hide CodeBit; hide Word;
    WordsDiffer(d, e, q, 15);
    assert Word(d, q)[0..] == Word(d, q) && Word(e, q)[0..] == Word(e, q);
    SevenSet(Differ(d, e));
  }

  /** With at most three wrong places every other word is farther away than the one that was written. */
  lemma Corrected(read: seq<bit>, d: Five, e: Five, q: mask)
    requires |read| == 15 && d != e && Distance(Word(d, q), read) <= 3
    ensures Distance(Word(e, q), read) > 3
  {
    hide Word; hide Distance;
    FarApart(d, e, q);
    Triangle(Word(d, q), read, Word(e, q));
    Triangle(read, Word(e, q), read);
  }

  // ---- their numbers ----

  /** The number that the first n bits of a word make. */
  function Number(d: Five, q: mask, n: nat): nat
    requires n <= 15
  {
    if n == 0 then 0 else 2 * Number(d, q, n - 1) + Bit(d, q, 15 - n)
  }

  lemma {:induction false} ValueOfWord(d: Five, q: mask, n: nat)
    requires n <= 15
    ensures Value(Word(d, q)[..n]) == Number(d, q, n)
  {
    hide *;
    var word := Word(d, q);
    if n == 0 {
      EmptyValue(d, q);
      assert word[..0] == [];
    } else {
      ValueOfWord(d, q, n - 1);
      WordAt(d, q, n - 1);
      assert word[..n] == word[..n - 1] + [word[n - 1]];
      ValueSnoc(word[..n - 1], word[n - 1]);
      NumberNext(d, q, n - 1);
    }
  }

  lemma EmptyValue(d: Five, q: mask)
    ensures Value([]) == 0 && Number(d, q, 0) == 0
  {
  }

  lemma WordAt(d: Five, q: mask, k: nat)
    requires k < 15
    ensures Word(d, q)[k] == Bit(d, q, 14 - k)
  {
    hide CodeBit;
  }

  lemma NumberNext(d: Five, q: mask, n: nat)
    requires n < 15
    ensures Number(d, q, n + 1) == 2 * Number(d, q, n) + Bit(d, q, 14 - n)
  {
    hide Bit;
    assert 15 - (n + 1) == 14 - n;
  }

  lemma WordOfNumber(d: Five, q: mask)
    ensures NumBits(15, Number(d, q, 15)) == Word(d, q)
  {
    hide Word; hide Number; hide Value; hide NumBits;
    ValueOfWord(d, q, 15);
    assert Word(d, q)[..15] == Word(d, q);
    NumOfValue(Word(d, q));
  }

  /** Five bits of a word as a number, from the one n places after its first on. */
  function Group(d: Five, q: mask, n: nat): nat
    requires n + 5 <= 15
  {
    16 * Bit(d, q, 14 - n) + 8 * Bit(d, q, 13 - n) + 4 * Bit(d, q, 12 - n) + 2 * Bit(d, q, 11 - n) + Bit(d, q, 10 - n)
  }

  lemma NumberFive(d: Five, q: mask, n: nat)
    requires n + 5 <= 15
    ensures Number(d, q, n + 5) == 32 * Number(d, q, n) + Group(d, q, n)
  {
    hide Number; hide Bit;
    NumberNext(d, q, n); NumberNext(d, q, n + 1); NumberNext(d, q, n + 2); NumberNext(d, q, n + 3); NumberNext(d, q, n + 4);
  }

  lemma NumberIs(d: Five, q: mask)
    ensures Number(d, q, 15) == 1024 * Group(d, q, 0) + 32 * Group(d, q, 5) + Group(d, q, 10)
  {
    hide *;
    EmptyValue(d, q);
    NumberFive(d, q, 0); NumberFive(d, q, 5); NumberFive(d, q, 10);
  }
}
