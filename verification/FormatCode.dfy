/** The format information of both kinds of symbols as code words, and their correction. */
module FormatCode {
  import opened Bch
  import opened BitString
  import opened Format
  import opened MicroMask
  import opened RsCode

  /** 0x5412. */
  const FORMAT_MASK: mask := [false, true, false, false, true, false, false, false,
                             false, false, true, false, true, false, true]

  /** 0x4445. */
  const MICRO_FORMAT_MASK: mask := [true, false, true, false, false, false, true, false,
                                      false, false, true, false, false, false, true]

  /** The data bits of a number below 32. */
  function FiveOf(v: nat): Five {
    Five(v % 2 == 1, v / 2 % 2 == 1, v / 4 % 2 == 1, v / 8 % 2 == 1, v / 16 % 2 == 1)
  }

  /** The data of a mask and a level: L, M, Q and H are 1, 0, 3 and 2. */
  function FormatData(mask: nat, level: nat): nat {
    8 * (if level == 0 then 1 else if level == 1 then 0 else if level == 2 then 3 else 2) + mask
  }

  /** A word's number, five bits at a time. */
  lemma FormatBits(d: Five)
    ensures Group(d, FORMAT_MASK, 0)
            == 16 * One(!CodeBit(d, 14)) + 8 * One(CodeBit(d, 13)) + 4 * One(!CodeBit(d, 12)) + 2 * One(CodeBit(d, 11)) + One(!CodeBit(d, 10))
    ensures Group(d, FORMAT_MASK, 5)
            == 16 * One(CodeBit(d, 9)) + 8 * One(CodeBit(d, 8)) + 4 * One(CodeBit(d, 7)) + 2 * One(CodeBit(d, 6)) + One(CodeBit(d, 5))
    ensures Group(d, FORMAT_MASK, 10)
            == 16 * One(!CodeBit(d, 4)) + 8 * One(CodeBit(d, 3)) + 4 * One(CodeBit(d, 2)) + 2 * One(!CodeBit(d, 1)) + One(CodeBit(d, 0))
  {
    hide *;
    FormatBitsHigh(d); FormatBitsMiddle(d); FormatBitsLow(d);
  }

  lemma FormatBitsHigh(d: Five)
    ensures Group(d, FORMAT_MASK, 0)
            == 16 * One(!CodeBit(d, 14)) + 8 * One(CodeBit(d, 13)) + 4 * One(!CodeBit(d, 12)) + 2 * One(CodeBit(d, 11)) + One(!CodeBit(d, 10))
  {
    hide CodeBit;
  }

  lemma FormatBitsMiddle(d: Five)
    ensures Group(d, FORMAT_MASK, 5)
            == 16 * One(CodeBit(d, 9)) + 8 * One(CodeBit(d, 8)) + 4 * One(CodeBit(d, 7)) + 2 * One(CodeBit(d, 6)) + One(CodeBit(d, 5))
  {
    hide CodeBit;
  }

  lemma FormatBitsLow(d: Five)
    ensures Group(d, FORMAT_MASK, 10)
            == 16 * One(!CodeBit(d, 4)) + 8 * One(CodeBit(d, 3)) + 4 * One(CodeBit(d, 2)) + 2 * One(!CodeBit(d, 1)) + One(CodeBit(d, 0))
  {
    hide CodeBit;
  }

  /** A word's number, five bits at a time. */
  lemma MicroFormatBits(d: Five)
    ensures Group(d, MICRO_FORMAT_MASK, 0)
            == 16 * One(!CodeBit(d, 14)) + 8 * One(CodeBit(d, 13)) + 4 * One(CodeBit(d, 12)) + 2 * One(CodeBit(d, 11)) + One(!CodeBit(d, 10))
    ensures Group(d, MICRO_FORMAT_MASK, 5)
            == 16 * One(CodeBit(d, 9)) + 8 * One(CodeBit(d, 8)) + 4 * One(CodeBit(d, 7)) + 2 * One(!CodeBit(d, 6)) + One(CodeBit(d, 5))
    ensures Group(d, MICRO_FORMAT_MASK, 10)
            == 16 * One(CodeBit(d, 4)) + 8 * One(CodeBit(d, 3)) + 4 * One(!CodeBit(d, 2)) + 2 * One(CodeBit(d, 1)) + One(!CodeBit(d, 0))
  {
    hide *;
    MicroFormatBitsHigh(d); MicroFormatBitsMiddle(d); MicroFormatBitsLow(d);
  }

  lemma MicroFormatBitsHigh(d: Five)
    ensures Group(d, MICRO_FORMAT_MASK, 0)
            == 16 * One(!CodeBit(d, 14)) + 8 * One(CodeBit(d, 13)) + 4 * One(CodeBit(d, 12)) + 2 * One(CodeBit(d, 11)) + One(!CodeBit(d, 10))
  {
    hide CodeBit;
  }

  lemma MicroFormatBitsMiddle(d: Five)
    ensures Group(d, MICRO_FORMAT_MASK, 5)
            == 16 * One(CodeBit(d, 9)) + 8 * One(CodeBit(d, 8)) + 4 * One(CodeBit(d, 7)) + 2 * One(!CodeBit(d, 6)) + One(CodeBit(d, 5))
  {
    hide CodeBit;
  }

  lemma MicroFormatBitsLow(d: Five)
    ensures Group(d, MICRO_FORMAT_MASK, 10)
            == 16 * One(CodeBit(d, 4)) + 8 * One(CodeBit(d, 3)) + 4 * One(!CodeBit(d, 2)) + 2 * One(CodeBit(d, 1)) + One(!CodeBit(d, 0))
  {
    hide CodeBit;
  }

  lemma FormatNumber(mask: nat, level: nat)
    requires mask < 8 && level < 4
    ensures FormatInfo(mask, level) == Number(FiveOf(FormatData(mask, level)), FORMAT_MASK, 15)
  {
    hide *;
    if level == 0 {
      FormatNumber0(mask);
    } else if level == 1 {
      FormatNumber1(mask);
    } else if level == 2 {
      FormatNumber2(mask);
    } else {
      FormatNumber3(mask);
    }
  }

  lemma FormatNumber0(mask: nat)
    requires mask < 8
    ensures FormatInfo(mask, 0) == Number(FiveOf(FormatData(mask, 0)), FORMAT_MASK, 15)
  {
    hide Number; hide Group;
    NumberIs(FiveOf(FormatData(mask, 0)), FORMAT_MASK);
    FormatBits(FiveOf(FormatData(mask, 0)));
  }

  lemma FormatNumber1(mask: nat)
    requires mask < 8
    ensures FormatInfo(mask, 1) == Number(FiveOf(FormatData(mask, 1)), FORMAT_MASK, 15)
  {
    hide Number; hide Group;
    NumberIs(FiveOf(FormatData(mask, 1)), FORMAT_MASK);
    FormatBits(FiveOf(FormatData(mask, 1)));
  }

  lemma FormatNumber2(mask: nat)
    requires mask < 8
    ensures FormatInfo(mask, 2) == Number(FiveOf(FormatData(mask, 2)), FORMAT_MASK, 15)
  {
    hide Number; hide Group;
    NumberIs(FiveOf(FormatData(mask, 2)), FORMAT_MASK);
    FormatBits(FiveOf(FormatData(mask, 2)));
  }

  lemma FormatNumber3(mask: nat)
    requires mask < 8
    ensures FormatInfo(mask, 3) == Number(FiveOf(FormatData(mask, 3)), FORMAT_MASK, 15)
  {
    hide Number; hide Group;
    NumberIs(FiveOf(FormatData(mask, 3)), FORMAT_MASK);
    FormatBits(FiveOf(FormatData(mask, 3)));
  }

  lemma MicroFormatNumber(mask: nat, version: nat, level: nat)
    requires mask < 4 && TypeOf(version, level) >= 0
    ensures MicroFormatInfo(mask, version, level) == Number(FiveOf(4 * TypeOf(version, level) + mask), MICRO_FORMAT_MASK, 15)
  {
    hide *;
    if mask == 0 {
      MicroFormatNumber0(version, level);
    } else if mask == 1 {
      MicroFormatNumber1(version, level);
    } else if mask == 2 {
      MicroFormatNumber2(version, level);
    } else {
      MicroFormatNumber3(version, level);
    }
  }

  lemma MicroFormatNumber0(version: nat, level: nat)
    requires TypeOf(version, level) >= 0
    ensures MicroFormatInfo(0, version, level) == Number(FiveOf(4 * TypeOf(version, level) + 0), MICRO_FORMAT_MASK, 15)
  {
    hide Number; hide Group; hide TypeOf;
    TypesDiffer(version, level, version, level);
    NumberIs(FiveOf(4 * TypeOf(version, level) + 0), MICRO_FORMAT_MASK);
    MicroFormatBits(FiveOf(4 * TypeOf(version, level) + 0));
  }

  lemma MicroFormatNumber1(version: nat, level: nat)
    requires TypeOf(version, level) >= 0
    ensures MicroFormatInfo(1, version, level) == Number(FiveOf(4 * TypeOf(version, level) + 1), MICRO_FORMAT_MASK, 15)
  {
    hide Number; hide Group; hide TypeOf;
    TypesDiffer(version, level, version, level);
    NumberIs(FiveOf(4 * TypeOf(version, level) + 1), MICRO_FORMAT_MASK);
    MicroFormatBits(FiveOf(4 * TypeOf(version, level) + 1));
  }

  lemma MicroFormatNumber2(version: nat, level: nat)
    requires TypeOf(version, level) >= 0
    ensures MicroFormatInfo(2, version, level) == Number(FiveOf(4 * TypeOf(version, level) + 2), MICRO_FORMAT_MASK, 15)
  {
    hide Number; hide Group; hide TypeOf;
    TypesDiffer(version, level, version, level);
    NumberIs(FiveOf(4 * TypeOf(version, level) + 2), MICRO_FORMAT_MASK);
    MicroFormatBits(FiveOf(4 * TypeOf(version, level) + 2));
  }

  lemma MicroFormatNumber3(version: nat, level: nat)
    requires TypeOf(version, level) >= 0
    ensures MicroFormatInfo(3, version, level) == Number(FiveOf(4 * TypeOf(version, level) + 3), MICRO_FORMAT_MASK, 15)
  {
    hide Number; hide Group; hide TypeOf;
    TypesDiffer(version, level, version, level);
    NumberIs(FiveOf(4 * TypeOf(version, level) + 3), MICRO_FORMAT_MASK);
    MicroFormatBits(FiveOf(4 * TypeOf(version, level) + 3));
  }

  /** The words without data are the masks: level M and mask 0, and in Micro QR version 1 and mask 0. */
  lemma FormatOfZero()
    ensures FormatData(0, 1) == 0 && FormatInfo(0, 1) == 0x5412
    ensures TypeOf(1, 0) == 0 && MicroFormatInfo(0, 1, 0) == 0x4445
  {
  }

  // ---- correction ----

  lemma FiveInjective(u: nat, v: nat)
    requires u < 32 && v < 32 && FiveOf(u) == FiveOf(v)
    ensures u == v
  {
    hide *;
    FiveBack(u); FiveBack(v);
  }

  lemma FiveBack(v: nat)
    requires v < 32
    ensures var d := FiveOf(v); v == One(d.a0) + 2 * One(d.a1) + 4 * One(d.a2) + 8 * One(d.a3) + 16 * One(d.a4)
  {
    hide FiveOf;
    FiveIs(v);
    Halve(v); Halve(v / 2); Halve(v / 4); Halve(v / 8);
    assert v / 2 / 2 == v / 4 && v / 4 / 2 == v / 8 && v / 8 / 2 == v / 16;
  }

  lemma FiveIs(v: nat)
    ensures var d := FiveOf(v);
            && One(d.a0) == v % 2 && One(d.a1) == v / 2 % 2 && One(d.a2) == v / 4 % 2 && One(d.a3) == v / 8 % 2
            && One(d.a4) == v / 16 % 2
  {
  }

  lemma Halve(v: nat)
    ensures v == 2 * (v / 2) + v % 2
  {
  }

  /** The fifteen bits of the format information. */
  function FormatWord(mask: nat, level: nat): (r: seq<bit>)
    requires mask < 8 && level < 4
    ensures |r| == 15
  {
    NumBits(15, FormatInfo(mask, level))
  }

  lemma FormatIsWord(mask: nat, level: nat)
    requires mask < 8 && level < 4
    ensures FormatWord(mask, level) == Word(FiveOf(FormatData(mask, level)), FORMAT_MASK)
  {
    hide *;
    FormatNumber(mask, level);
    WordOfNumber(FiveOf(FormatData(mask, level)), FORMAT_MASK);
    FormatWordIs(mask, level);
  }

  lemma FormatWordIs(mask: nat, level: nat)
    requires mask < 8 && level < 4
    ensures FormatWord(mask, level) == NumBits(15, FormatInfo(mask, level))
  {
    hide NumBits; hide FormatInfo;
  }

  lemma DataInjective(mask: nat, level: nat, mask': nat, level': nat)
    requires mask < 8 && level < 4 && mask' < 8 && level' < 4
    ensures FiveOf(FormatData(mask, level)) == FiveOf(FormatData(mask', level')) ==> mask == mask' && level == level'
  {
    hide FiveOf;
    if FiveOf(FormatData(mask, level)) == FiveOf(FormatData(mask', level')) {
      FiveInjective(FormatData(mask, level), FormatData(mask', level'));
    }
  }

  /** Any two format informations differ in at least seven places. */
  lemma FormatsFarApart(mask: nat, level: nat, mask': nat, level': nat)
    requires mask < 8 && level < 4 && mask' < 8 && level' < 4 && (mask != mask' || level != level')
    ensures Distance(FormatWord(mask, level), FormatWord(mask', level')) >= 7
  {
    hide *;
    FormatIsWord(mask, level); FormatIsWord(mask', level');
    DataInjective(mask, level, mask', level');
    FarApart(FiveOf(FormatData(mask, level)), FiveOf(FormatData(mask', level')), FORMAT_MASK);
  }

  /** At most three wrong modules are corrected: the one that was written is the only one so near. */
  lemma FormatCorrected(read: seq<bit>, mask: nat, level: nat, mask': nat, level': nat)
    requires mask < 8 && level < 4 && mask' < 8 && level' < 4 && (mask != mask' || level != level')
    requires |read| == 15 && Distance(FormatWord(mask, level), read) <= 3
    ensures Distance(FormatWord(mask', level'), read) > 3
  {
    hide *;
    FormatIsWord(mask, level); FormatIsWord(mask', level');
    DataInjective(mask, level, mask', level');
    Corrected(read, FiveOf(FormatData(mask, level)), FiveOf(FormatData(mask', level')), FORMAT_MASK);
  }

  // ---- the same for Micro QR ----

  function MicroFormatWord(mask: nat, version: nat, level: nat): (r: seq<bit>)
    requires mask < 4 && TypeOf(version, level) >= 0
    ensures |r| == 15
  {
    NumBits(15, MicroFormatInfo(mask, version, level))
  }

  lemma MicroFormatIsWord(mask: nat, version: nat, level: nat)
    requires mask < 4 && TypeOf(version, level) >= 0
    ensures MicroFormatWord(mask, version, level)
            == Word(FiveOf(4 * TypeOf(version, level) + mask), MICRO_FORMAT_MASK)
  {
    hide NumBits; hide MicroFormatInfo; hide Word; hide TypeOf; hide Number; hide FiveOf;
    MicroFormatNumber(mask, version, level);
    WordOfNumber(FiveOf(4 * TypeOf(version, level) + mask), MICRO_FORMAT_MASK);
  }

  lemma MicroDataInjective(mask: nat, version: nat, level: nat, mask': nat, version': nat, level': nat)
    requires mask < 4 && mask' < 4 && TypeOf(version, level) >= 0 && TypeOf(version', level') >= 0
    ensures FiveOf(4 * TypeOf(version, level) + mask) == FiveOf(4 * TypeOf(version', level') + mask')
            ==> mask == mask' && version == version' && level == level'
  {
    hide *;
    TypesDiffer(version, level, version', level');
    var u, v := 4 * TypeOf(version, level) + mask, 4 * TypeOf(version', level') + mask';
    if FiveOf(u) == FiveOf(v) {
      FiveInjective(u, v);
    }
  }

  lemma TypesDiffer(version: nat, level: nat, version': nat, level': nat)
    requires TypeOf(version, level) >= 0 && TypeOf(version', level') >= 0
    ensures TypeOf(version, level) < 8 && TypeOf(version', level') < 8
    ensures TypeOf(version, level) == TypeOf(version', level') ==> version == version' && level == level'
  {
  }

  lemma MicroFormatsFarApart(mask: nat, version: nat, level: nat, mask': nat, version': nat, level': nat)
    requires mask < 4 && mask' < 4 && TypeOf(version, level) >= 0 && TypeOf(version', level') >= 0
    requires mask != mask' || version != version' || level != level'
    ensures Distance(MicroFormatWord(mask, version, level), MicroFormatWord(mask', version', level')) >= 7
  {
    hide *;
    MicroFormatIsWord(mask, version, level); MicroFormatIsWord(mask', version', level');
    MicroDataInjective(mask, version, level, mask', version', level');
    FarApart(FiveOf(4 * TypeOf(version, level) + mask), FiveOf(4 * TypeOf(version', level') + mask'), MICRO_FORMAT_MASK);
  }

  lemma MicroFormatCorrected(read: seq<bit>, mask: nat, version: nat, level: nat, mask': nat, version': nat, level': nat)
    requires mask < 4 && mask' < 4 && TypeOf(version, level) >= 0 && TypeOf(version', level') >= 0
    requires mask != mask' || version != version' || level != level'
    requires |read| == 15 && Distance(MicroFormatWord(mask, version, level), read) <= 3
    ensures Distance(MicroFormatWord(mask', version', level'), read) > 3
  {
    hide *;
    MicroFormatIsWord(mask, version, level); MicroFormatIsWord(mask', version', level');
    MicroDataInjective(mask, version, level, mask', version', level');
    Corrected(read, FiveOf(4 * TypeOf(version, level) + mask), FiveOf(4 * TypeOf(version', level') + mask'), MICRO_FORMAT_MASK);
  }
}
