/** The version information as code words: any two differ in at least eight bits. */
module VersionCode {
  import opened Bits
  import opened Counting
  import opened QrTables

  /** The six data bits, a5 the first. */
  datatype Six = Six(a0: bool, a1: bool, a2: bool, a3: bool, a4: bool, a5: bool)

  function SixOf(v: nat): Six {
    Six(v % 2 == 1, v / 2 % 2 == 1, v / 4 % 2 == 1, v / 8 % 2 == 1, v / 16 % 2 == 1, v / 32 % 2 == 1)
  }

  /** Bit i of the code word of d: a parity of data bits, and the data themselves from bit 12 on. */
  predicate CodeBit(d: Six, i: nat) {
    match i
    case 0 => (d.a0 != d.a1) != d.a5
    case 1 => d.a1 != d.a2
    case 2 => (((d.a0 != d.a1) != d.a2) != d.a3) != d.a5
    case 3 => ((d.a1 != d.a2) != d.a3) != d.a4
    case 4 => ((d.a2 != d.a3) != d.a4) != d.a5
    case 5 => ((d.a0 != d.a1) != d.a3) != d.a4
    case 6 => ((d.a1 != d.a2) != d.a4) != d.a5
    case 7 => (d.a2 != d.a3) != d.a5
    case 8 => (((d.a0 != d.a1) != d.a3) != d.a4) != d.a5
    case 9 => (d.a0 != d.a2) != d.a4
    case 10 => d.a0 != d.a3
    case 11 => (d.a0 != d.a4) != d.a5
    case 12 => d.a0
    case 13 => d.a1
    case 14 => d.a2
    case 15 => d.a3
    case 16 => d.a4
    case 17 => d.a5
    case _ => false
  }

  /** The check polynomial (x^23 + 1) / (x^12 + x^11 + x^10 + x^9 + x^8 + x^5 + x^2 + 1) gives every bit from those below it. */
  lemma Recurrence(d: Six, k: nat)
    requires 11 <= k < 23
    ensures CodeBit(d, k) == ((((((CodeBit(d, k - 2) != CodeBit(d, k - 4)) != CodeBit(d, k - 5)) != CodeBit(d, k - 6))
                               != CodeBit(d, k - 10)) != CodeBit(d, k - 11)))
  {
  }

  function Bit(d: Six, i: nat): nat { if CodeBit(d, i) then 1 else 0 }

  // ---- the distance of the code ----

  function Weight(d: Six): nat {
    Bit(d, 0) + Bit(d, 1) + Bit(d, 2) + Bit(d, 3) + Bit(d, 4)
    + Bit(d, 5) + Bit(d, 6) + Bit(d, 7) + Bit(d, 8) + Bit(d, 9)
    + Bit(d, 10) + Bit(d, 11) + Bit(d, 12) + Bit(d, 13) + Bit(d, 14)
    + Bit(d, 15) + Bit(d, 16) + Bit(d, 17)
  }

  lemma EightSet(d: Six)
    requires d != Six(false, false, false, false, false, false)
    ensures Weight(d) >= 8
  {
  }

  /** The data bits that make up bit i. */
  function RowOf(i: nat): Six {
    match i
    case 0 => Six(true, true, false, false, false, true)
    case 1 => Six(false, true, true, false, false, false)
    case 2 => Six(true, true, true, true, false, true)
    case 3 => Six(false, true, true, true, true, false)
    case 4 => Six(false, false, true, true, true, true)
    case 5 => Six(true, true, false, true, true, false)
    case 6 => Six(false, true, true, false, true, true)
    case 7 => Six(false, false, true, true, false, true)
    case 8 => Six(true, true, false, true, true, true)
    case 9 => Six(true, false, true, false, true, false)
    case 10 => Six(true, false, false, true, false, false)
    case 11 => Six(true, false, false, false, true, true)
    case 12 => Six(true, false, false, false, false, false)
    case 13 => Six(false, true, false, false, false, false)
    case 14 => Six(false, false, true, false, false, false)
    case 15 => Six(false, false, false, true, false, false)
    case 16 => Six(false, false, false, false, true, false)
    case 17 => Six(false, false, false, false, false, true)
    case _ => Six(false, false, false, false, false, false)
  }

  predicate Parity(d: Six, r: Six) {
    (((((d.a0 && r.a0) != (d.a1 && r.a1)) != (d.a2 && r.a2)) != (d.a3 && r.a3)) != (d.a4 && r.a4)) != (d.a5 && r.a5)
  }

  lemma CodeBitIs(d: Six, i: nat)
    ensures CodeBit(d, i) == Parity(d, RowOf(i))
  {
    hide *;
    if i < 6 {
      LowBitIs(d, i);
    } else if i < 12 {
      CheckBitIs(d, i);
    } else {
      DataBitIs(d, i);
    }
  }

  lemma LowBitIs(d: Six, i: nat)
    requires i < 6
    ensures CodeBit(d, i) == Parity(d, RowOf(i))
  {
  }

  lemma CheckBitIs(d: Six, i: nat)
    requires 6 <= i < 12
    ensures CodeBit(d, i) == Parity(d, RowOf(i))
  {
  }

  lemma DataBitIs(d: Six, i: nat)
    requires 12 <= i
    ensures CodeBit(d, i) == Parity(d, RowOf(i))
  {
  }

  lemma SumsLinear(d0: bool, d1: bool, d2: bool, d3: bool, d4: bool, d5: bool, e0: bool, e1: bool, e2: bool, e3: bool, e4: bool,
                   e5: bool, r0: bool, r1: bool, r2: bool, r3: bool, r4: bool, r5: bool)
    ensures ((((((((d0 != e0) && r0) != ((d1 != e1) && r1)) != ((d2 != e2) && r2)) != ((d3 != e3) && r3)) != ((d4 != e4) && r4))
              != ((d5 != e5) && r5)))
            == (((((((d0 && r0) != (d1 && r1)) != (d2 && r2)) != (d3 && r3)) != (d4 && r4)) != (d5 && r5))
                != ((((((e0 && r0) != (e1 && r1)) != (e2 && r2)) != (e3 && r3)) != (e4 && r4)) != (e5 && r5)))
  {
  }

  lemma ParityLinear(x: Six, d: Six, e: Six, r: Six)
    requires x.a0 == (d.a0 != e.a0) && x.a1 == (d.a1 != e.a1) && x.a2 == (d.a2 != e.a2)
    requires x.a3 == (d.a3 != e.a3) && x.a4 == (d.a4 != e.a4) && x.a5 == (d.a5 != e.a5)
    ensures Parity(x, r) == (Parity(d, r) != Parity(e, r))
  {
    SumsLinear(d.a0, d.a1, d.a2, d.a3, d.a4, d.a5, e.a0, e.a1, e.a2, e.a3, e.a4, e.a5, r.a0, r.a1, r.a2, r.a3, r.a4, r.a5);
  }

  lemma DifferAt(d: Six, e: Six)
    ensures var x := Differ(d, e);
            && x.a0 == (d.a0 != e.a0) && x.a1 == (d.a1 != e.a1) && x.a2 == (d.a2 != e.a2)
            && x.a3 == (d.a3 != e.a3) && x.a4 == (d.a4 != e.a4) && x.a5 == (d.a5 != e.a5)
  {
  }

  lemma DifferBits(d: Six, e: Six, i: nat)
    ensures CodeBit(Differ(d, e), i) == (CodeBit(d, i) != CodeBit(e, i))
  {
    hide *;
    CodeBitIs(d, i); CodeBitIs(e, i); CodeBitIs(Differ(d, e), i);
    DifferAt(d, e);
    ParityLinear(Differ(d, e), d, e, RowOf(i));
  }

  /** The bits in which two words of data differ. */
  function Differ(d: Six, e: Six): Six {
    Six(d.a0 != e.a0, d.a1 != e.a1, d.a2 != e.a2, d.a3 != e.a3, d.a4 != e.a4, d.a5 != e.a5)
  }

  // ---- the words of the table ----

  /** The word as a number. */
  function Word(d: Six): nat {
    Bit(d, 0) + 2 * Bit(d, 1) + 4 * Bit(d, 2) + 8 * Bit(d, 3)
    + 16 * Bit(d, 4) + 32 * Bit(d, 5) + 64 * Bit(d, 6) + 128 * Bit(d, 7)
    + 256 * Bit(d, 8) + 512 * Bit(d, 9) + 1024 * Bit(d, 10) + 2048 * Bit(d, 11)
    + 4096 * Bit(d, 12) + 8192 * Bit(d, 13) + 16384 * Bit(d, 14)
    + 32768 * Bit(d, 15) + 65536 * Bit(d, 16) + 131072 * Bit(d, 17)
  }

  /** The word from bit k on. */
  function Tail(d: Six, k: nat): nat
    decreases 18 - k
  {
    if k >= 18 then 0 else Bit(d, k) + 2 * Tail(d, k + 1)
  }

  lemma {:induction false} TailBit(d: Six, k: nat, j: nat)
    requires k + j < 18
    ensures BitAt(Tail(d, k), j) == Bit(d, k + j)
    decreases j
  {
    hide Bit;
    BitSmall(d, k);
    LowHigh(Bit(d, k), Tail(d, k + 1));
    if j > 0 {
      TailBit(d, k + 1, j - 1);
    }
  }

  lemma BitSmall(d: Six, k: nat)
    ensures Bit(d, k) < 2
  {
    hide CodeBit;
  }

  lemma TailNext(d: Six, k: nat)
    requires k < 18
    ensures Tail(d, k) == Bit(d, k) + 2 * Tail(d, k + 1) && Tail(d, 18) == 0
  {
    hide CodeBit;
  }

  lemma WordIsTail(d: Six)
    ensures Word(d) == Tail(d, 0)
  {
    hide Bit; hide Tail;
    TailNext(d, 0); TailNext(d, 1); TailNext(d, 2); TailNext(d, 3); TailNext(d, 4); TailNext(d, 5);
    TailNext(d, 6); TailNext(d, 7); TailNext(d, 8); TailNext(d, 9); TailNext(d, 10); TailNext(d, 11);
    TailNext(d, 12); TailNext(d, 13); TailNext(d, 14); TailNext(d, 15); TailNext(d, 16); TailNext(d, 17);
  }

  predicate Matches(version: nat) { VersionPattern(version) == Word(SixOf(version)) }

  lemma SixIs(v: nat, c0: nat, c1: nat, c2: nat, c3: nat, c4: nat, c5: nat)
    requires c0 < 2 && c1 < 2 && c2 < 2 && c3 < 2 && c4 < 2 && c5 < 2
    requires v == c0 + 2 * (c1 + 2 * (c2 + 2 * (c3 + 2 * (c4 + 2 * c5))))
    ensures SixOf(v) == Six(c0 == 1, c1 == 1, c2 == 1, c3 == 1, c4 == 1, c5 == 1)
  {
    hide *;
    var h4 := c4 + 2 * c5;
    var h3 := c3 + 2 * h4;
    var h2 := c2 + 2 * h3;
    var h1 := c1 + 2 * h2;
    LowHigh(c0, h1); LowHigh(c1, h2); LowHigh(c2, h3); LowHigh(c3, h4); LowHigh(c4, c5);
    Shifts(v);
    SixOfIs(v, c0, c1, c2, c3, c4, c5);
  }

  lemma Shifts(v: nat)
    ensures v / 2 / 2 == v / 4 && v / 4 / 2 == v / 8 && v / 8 / 2 == v / 16 && v / 16 / 2 == v / 32
  {
  }

  lemma SixOfIs(v: nat, c0: nat, c1: nat, c2: nat, c3: nat, c4: nat, c5: nat)
    requires v % 2 == c0 && v / 2 % 2 == c1 && v / 4 % 2 == c2 && v / 8 % 2 == c3 && v / 16 % 2 == c4 && v / 32 % 2 == c5
    ensures SixOf(v) == Six(c0 == 1, c1 == 1, c2 == 1, c3 == 1, c4 == 1, c5 == 1)
  {
  }

  /** One entry of the table. */
  lemma Entry(v: nat, a5: bool, a4: bool, a3: bool, a2: bool, a1: bool, a0: bool, info: nat)
    requires v == (if a0 then 1 else 0) + 2 * ((if a1 then 1 else 0) + 2 * ((if a2 then 1 else 0) + 2 * ((if a3 then 1 else 0)
                    + 2 * ((if a4 then 1 else 0) + 2 * (if a5 then 1 else 0)))))
    requires info == (if (a0 != a1) != a5 then 1 else 0) + (if a1 != a2 then 2 else 0)
                + (if (((a0 != a1) != a2) != a3) != a5 then 4 else 0) + (if ((a1 != a2) != a3) != a4 then 8 else 0)
                + (if ((a2 != a3) != a4) != a5 then 16 else 0) + (if ((a0 != a1) != a3) != a4 then 32 else 0)
                + (if ((a1 != a2) != a4) != a5 then 64 else 0) + (if (a2 != a3) != a5 then 128 else 0)
                + (if (((a0 != a1) != a3) != a4) != a5 then 256 else 0) + (if (a0 != a2) != a4 then 512 else 0)
                + (if a0 != a3 then 1024 else 0) + (if (a0 != a4) != a5 then 2048 else 0) + (if a0 then 4096 else 0)
                + (if a1 then 8192 else 0) + (if a2 then 16384 else 0) + (if a3 then 32768 else 0)
                + (if a4 then 65536 else 0) + (if a5 then 131072 else 0)
    requires VersionPattern(v) == info
    ensures Matches(v)
  {
    hide *;
    SixIs(v, if a0 then 1 else 0, if a1 then 1 else 0, if a2 then 1 else 0, if a3 then 1 else 0, if a4 then 1 else 0, if a5 then 1 else 0);
    WordIs(a5, a4, a3, a2, a1, a0);
    MatchesIs(v);
  }

  lemma WordIs(a5: bool, a4: bool, a3: bool, a2: bool, a1: bool, a0: bool)
    ensures Word(Six(a0, a1, a2, a3, a4, a5))
            == (if (a0 != a1) != a5 then 1 else 0) + (if a1 != a2 then 2 else 0)
                + (if (((a0 != a1) != a2) != a3) != a5 then 4 else 0) + (if ((a1 != a2) != a3) != a4 then 8 else 0)
                + (if ((a2 != a3) != a4) != a5 then 16 else 0) + (if ((a0 != a1) != a3) != a4 then 32 else 0)
                + (if ((a1 != a2) != a4) != a5 then 64 else 0) + (if (a2 != a3) != a5 then 128 else 0)
                + (if (((a0 != a1) != a3) != a4) != a5 then 256 else 0) + (if (a0 != a2) != a4 then 512 else 0)
                + (if a0 != a3 then 1024 else 0) + (if (a0 != a4) != a5 then 2048 else 0) + (if a0 then 4096 else 0)
                + (if a1 then 8192 else 0) + (if a2 then 16384 else 0) + (if a3 then 32768 else 0)
                + (if a4 then 65536 else 0) + (if a5 then 131072 else 0)
  {
  }

  lemma Words7()
    ensures Matches(7) && Matches(8) && Matches(9)
  {
    hide Matches;
    Entry(7, false, false, false, true, true, true, 0x07c94);
    Entry(8, false, false, true, false, false, false, 0x085bc);
    Entry(9, false, false, true, false, false, true, 0x09a99);
  }

  lemma Words10()
    ensures Matches(10) && Matches(11) && Matches(12) && Matches(13)
  {
    hide Matches;
    Entry(10, false, false, true, false, true, false, 0x0a4d3);
    Entry(11, false, false, true, false, true, true, 0x0bbf6);
    Entry(12, false, false, true, true, false, false, 0x0c762);
    Entry(13, false, false, true, true, false, true, 0x0d847);
  }

  lemma Words14()
    ensures Matches(14) && Matches(15) && Matches(16) && Matches(17)
  {
    hide Matches;
    Entry(14, false, false, true, true, true, false, 0x0e60d);
    Entry(15, false, false, true, true, true, true, 0x0f928);
    Entry(16, false, true, false, false, false, false, 0x10b78);
    Entry(17, false, true, false, false, false, true, 0x1145d);
  }

  lemma Words18()
    ensures Matches(18) && Matches(19) && Matches(20) && Matches(21)
  {
    hide Matches;
    Entry(18, false, true, false, false, true, false, 0x12a17);
    Entry(19, false, true, false, false, true, true, 0x13532);
    Entry(20, false, true, false, true, false, false, 0x149a6);
    Entry(21, false, true, false, true, false, true, 0x15683);
  }

  lemma Words22()
    ensures Matches(22) && Matches(23) && Matches(24) && Matches(25)
  {
    hide Matches;
    Entry(22, false, true, false, true, true, false, 0x168c9);
    Entry(23, false, true, false, true, true, true, 0x177ec);
    Entry(24, false, true, true, false, false, false, 0x18ec4);
    Entry(25, false, true, true, false, false, true, 0x191e1);
  }

  lemma Words26()
    ensures Matches(26) && Matches(27) && Matches(28) && Matches(29)
  {
    hide Matches;
    Entry(26, false, true, true, false, true, false, 0x1afab);
    Entry(27, false, true, true, false, true, true, 0x1b08e);
    Entry(28, false, true, true, true, false, false, 0x1cc1a);
    Entry(29, false, true, true, true, false, true, 0x1d33f);
  }

  lemma Words30()
    ensures Matches(30) && Matches(31) && Matches(32) && Matches(33)
  {
    hide Matches;
    Entry(30, false, true, true, true, true, false, 0x1ed75);
    Entry(31, false, true, true, true, true, true, 0x1f250);
    Entry(32, true, false, false, false, false, false, 0x209d5);
    Entry(33, true, false, false, false, false, true, 0x216f0);
  }

  lemma Words34()
    ensures Matches(34) && Matches(35) && Matches(36) && Matches(37)
  {
    hide Matches;
    Entry(34, true, false, false, false, true, false, 0x228ba);
    Entry(35, true, false, false, false, true, true, 0x2379f);
    Entry(36, true, false, false, true, false, false, 0x24b0b);
    Entry(37, true, false, false, true, false, true, 0x2542e);
  }

  lemma Words38()
    ensures Matches(38) && Matches(39) && Matches(40)
  {
    hide Matches;
    Entry(38, true, false, false, true, true, false, 0x26a64);
    Entry(39, true, false, false, true, true, true, 0x27541);
    Entry(40, true, false, true, false, false, false, 0x28c69);
  }

  /** The version information of every version is the code word of its number. */
  lemma VersionIsWord(version: nat)
    requires 7 <= version <= QRSPEC_VERSION_MAX
    ensures VersionPattern(version) == Word(SixOf(version))
  {
    hide *;
    MaxIs();
    if version < 18 {
      Words7(); Words10(); Words14();
    } else if version < 30 {
      Words18(); Words22(); Words26();
    } else {
      Words30(); Words34(); Words38();
    }
    MatchesIs(version);
  }

  lemma MatchesIs(version: nat)
    ensures Matches(version) <==> VersionPattern(version) == Word(SixOf(version))
  {
    hide VersionPattern; hide Word;
  }

  lemma VersionBit(version: nat, i: nat)
    requires 7 <= version <= QRSPEC_VERSION_MAX && i < 18
    ensures BitAt(VersionPattern(version), i) == Bit(SixOf(version), i)
  {
    hide *;
    MaxIs();
    VersionIsWord(version);
    WordIsTail(SixOf(version));
    TailBit(SixOf(version), 0, i);
  }

  lemma MaxIs()
    ensures QRSPEC_VERSION_MAX == 40
  {
  }

  // ---- correction ----

  /** The places among the first 18 where two readings differ. */
  ghost function Unlike(p: places, q: places): places { (i: int) => p(i) != q(i) }

  ghost function InfoBits(version: nat): places { (i: int) => i >= 0 && BitAt(VersionPattern(version), i) == 1 }

  lemma {:induction false} Triangle(p: places, q: places, r: places, n: nat)
    ensures Count(Unlike(p, r), n) <= Count(Unlike(p, q), n) + Count(Unlike(q, r), n)
  {
    if n > 0 {
      Triangle(p, q, r, n - 1);
    }
  }

  /** The first n bits of a word that are set. */
  ghost function CodePlaces(d: Six): places { (i: int) => i >= 0 && CodeBit(d, i) }

  lemma NextPlace(d: Six, n: nat)
    ensures Count(CodePlaces(d), 0) == 0
    ensures Count(CodePlaces(d), n + 1) == Count(CodePlaces(d), n) + Bit(d, n)
  {
    hide CodeBit;
  }

  lemma WeightCounts(d: Six)
    ensures Count(CodePlaces(d), 18) == Weight(d)
  {
    hide Bit; hide Count; hide CodePlaces;
    NextPlace(d, 0); NextPlace(d, 1); NextPlace(d, 2); NextPlace(d, 3); NextPlace(d, 4); NextPlace(d, 5);
    NextPlace(d, 6); NextPlace(d, 7); NextPlace(d, 8); NextPlace(d, 9); NextPlace(d, 10);
    NextPlace(d, 11); NextPlace(d, 12); NextPlace(d, 13); NextPlace(d, 14); NextPlace(d, 15);
    NextPlace(d, 16); NextPlace(d, 17);
  }

  lemma {:induction false} UnlikeIsDiffer(u: nat, v: nat, n: nat)
    requires 7 <= u <= QRSPEC_VERSION_MAX && 7 <= v <= QRSPEC_VERSION_MAX && n <= 18
    ensures Count(Unlike(InfoBits(u), InfoBits(v)), n) == Count(CodePlaces(Differ(SixOf(u), SixOf(v))), n)
  {
    hide CodeBit; hide VersionPattern; hide BitAt; hide SixOf;
    if n > 0 {
      UnlikeIsDiffer(u, v, n - 1);
      VersionBit(u, n - 1); VersionBit(v, n - 1);
      DifferBits(SixOf(u), SixOf(v), n - 1);
    }
  }

  lemma SixInjective(u: nat, v: nat)
    requires u < 64 && v < 64 && u != v
    ensures Differ(SixOf(u), SixOf(v)) != Six(false, false, false, false, false, false)
  {
    hide *;
    Binary(u); Binary(v);
    if Differ(SixOf(u), SixOf(v)) == Six(false, false, false, false, false, false) {
      SameBits(u, v);
    }
  }

  lemma SameBits(u: nat, v: nat)
    requires Differ(SixOf(u), SixOf(v)) == Six(false, false, false, false, false, false)
    ensures u % 2 == v % 2 && u / 2 % 2 == v / 2 % 2 && u / 4 % 2 == v / 4 % 2
    ensures u / 8 % 2 == v / 8 % 2 && u / 16 % 2 == v / 16 % 2 && u / 32 % 2 == v / 32 % 2
  {
  }

  lemma Binary(v: nat)
    requires v < 64
    ensures v == v % 2 + 2 * (v / 2 % 2) + 4 * (v / 4 % 2) + 8 * (v / 8 % 2) + 16 * (v / 16 % 2) + 32 * (v / 32 % 2)
  {
    hide *;
    Halve(v); Halve(v / 2); Halve(v / 4); Halve(v / 8); Halve(v / 16);
    Shifts(v);
    assert v / 32 < 2;
  }

  lemma Halve(v: nat)
    ensures v == 2 * (v / 2) + v % 2
  {
  }

  /** The version informations of any two versions differ in at least eight places. */
  lemma VersionsFarApart(u: nat, v: nat)
    requires 7 <= u <= QRSPEC_VERSION_MAX && 7 <= v <= QRSPEC_VERSION_MAX && u != v
    ensures Count(Unlike(InfoBits(u), InfoBits(v)), 18) >= 8
  {
    hide *;
    MaxIs();
    SixInjective(u, v);
    EightSet(Differ(SixOf(u), SixOf(v)));
    WeightCounts(Differ(SixOf(u), SixOf(v)));
    UnlikeIsDiffer(u, v, 18);
  }

  /** Three wrong modules are corrected: every other version is farther away than the one that was drawn. */
  lemma VersionCorrected(read: places, u: nat, v: nat)
    requires 7 <= u <= QRSPEC_VERSION_MAX && 7 <= v <= QRSPEC_VERSION_MAX && u != v
    requires Count(Unlike(InfoBits(u), read), 18) <= 3
    ensures Count(Unlike(read, InfoBits(v)), 18) >= 5
  {
    hide *;
    VersionsFarApart(u, v);
    Triangle(InfoBits(u), read, InfoBits(v), 18);
  }
}
