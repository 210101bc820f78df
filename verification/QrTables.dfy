/** The tables behind the specification of a full QR symbol, and what every row of them satisfies. */
module QrTables {
  import opened Arith
  import opened Interleave

  const QRSPEC_VERSION_MAX := 40

  /** The number of check bytes of a level, and its numbers of blocks of either length. */
  datatype Level = Level(ec: nat, b1: nat, b2: nat)

  /** A row of qrspecCapacity together with the same row of eccTable. */
  datatype Version = Version(width: nat, words: nat, remainder: nat, l: Level, m: Level, q: Level, h: Level) {
    function At(level: nat): Level {
      if level == 0 then l else if level == 1 then m else if level == 2 then q else h
    }

    /** What QRspec_getEccSpec makes of a row. */
    function SpecAt(level: nat): EccSpec
      requires At(level).b1 >= 1 && words >= At(level).ec
    {
      var data, ecc, b1, b2 := words - At(level).ec, At(level).ec, At(level).b1, At(level).b2;
      if b2 == 0 then EccSpec(b1, data / b1, ecc / b1, 0, 0)
      else EccSpec(b1, data / (b1 + b2), ecc / (b1 + b2), b2, data / (b1 + b2) + 1)
    }
  }

  /** Rows 1 to 40 of both tables. */
  function Capacity(version: nat): Version {
    if version < 9 then
      if version == 1 then Version(21, 26, 0, Level(7, 1, 0), Level(10, 1, 0), Level(13, 1, 0), Level(17, 1, 0)) else
      if version == 2 then Version(25, 44, 7, Level(10, 1, 0), Level(16, 1, 0), Level(22, 1, 0), Level(28, 1, 0)) else
      if version == 3 then Version(29, 70, 7, Level(15, 1, 0), Level(26, 1, 0), Level(36, 2, 0), Level(44, 2, 0)) else
      if version == 4 then Version(33, 100, 7, Level(20, 1, 0), Level(36, 2, 0), Level(52, 2, 0), Level(64, 4, 0)) else
      if version == 5 then Version(37, 134, 7, Level(26, 1, 0), Level(48, 2, 0), Level(72, 2, 2), Level(88, 2, 2)) else
      if version == 6 then Version(41, 172, 7, Level(36, 2, 0), Level(64, 4, 0), Level(96, 4, 0), Level(112, 4, 0)) else
      if version == 7 then Version(45, 196, 0, Level(40, 2, 0), Level(72, 4, 0), Level(108, 2, 4), Level(130, 4, 1)) else
      Version(49, 242, 0, Level(48, 2, 0), Level(88, 2, 2), Level(132, 4, 2), Level(156, 4, 2))
    else if version < 17 then
      if version == 9 then Version(53, 292, 0, Level(60, 2, 0), Level(110, 3, 2), Level(160, 4, 4), Level(192, 4, 4)) else
      if version == 10 then Version(57, 346, 0, Level(72, 2, 2), Level(130, 4, 1), Level(192, 6, 2), Level(224, 6, 2)) else
      if version == 11 then Version(61, 404, 0, Level(80, 4, 0), Level(150, 1, 4), Level(224, 4, 4), Level(264, 3, 8)) else
      if version == 12 then Version(65, 466, 0, Level(96, 2, 2), Level(176, 6, 2), Level(260, 4, 6), Level(308, 7, 4)) else
      if version == 13 then Version(69, 532, 0, Level(104, 4, 0), Level(198, 8, 1), Level(288, 8, 4), Level(352, 12, 4)) else
      if version == 14 then Version(73, 581, 3, Level(120, 3, 1), Level(216, 4, 5), Level(320, 11, 5), Level(384, 11, 5)) else
      if version == 15 then Version(77, 655, 3, Level(132, 5, 1), Level(240, 5, 5), Level(360, 5, 7), Level(432, 11, 7)) else
      Version(81, 733, 3, Level(144, 5, 1), Level(280, 7, 3), Level(408, 15, 2), Level(480, 3, 13))
    else if version < 25 then
      if version == 17 then Version(85, 815, 3, Level(168, 1, 5), Level(308, 10, 1), Level(448, 1, 15), Level(532, 2, 17)) else
      if version == 18 then Version(89, 901, 3, Level(180, 5, 1), Level(338, 9, 4), Level(504, 17, 1), Level(588, 2, 19)) else
      if version == 19 then Version(93, 991, 3, Level(196, 3, 4), Level(364, 3, 11), Level(546, 17, 4), Level(650, 9, 16)) else
      if version == 20 then Version(97, 1085, 3, Level(224, 3, 5), Level(416, 3, 13), Level(600, 15, 5), Level(700, 15, 10)) else
      if version == 21 then Version(101, 1156, 4, Level(224, 4, 4), Level(442, 17, 0), Level(644, 17, 6), Level(750, 19, 6)) else
      if version == 22 then Version(105, 1258, 4, Level(252, 2, 7), Level(476, 17, 0), Level(690, 7, 16), Level(816, 34, 0)) else
      if version == 23 then Version(109, 1364, 4, Level(270, 4, 5), Level(504, 4, 14), Level(750, 11, 14), Level(900, 16, 14)) else
      Version(113, 1474, 4, Level(300, 6, 4), Level(560, 6, 14), Level(810, 11, 16), Level(960, 30, 2))
    else if version < 33 then
      if version == 25 then Version(117, 1588, 4, Level(312, 8, 4), Level(588, 8, 13), Level(870, 7, 22), Level(1050, 22, 13)) else
      if version == 26 then Version(121, 1706, 4, Level(336, 10, 2), Level(644, 19, 4), Level(952, 28, 6), Level(1110, 33, 4)) else
      if version == 27 then Version(125, 1828, 4, Level(360, 8, 4), Level(700, 22, 3), Level(1020, 8, 26), Level(1200, 12, 28)) else
      if version == 28 then Version(129, 1921, 3, Level(390, 3, 10), Level(728, 3, 23), Level(1050, 4, 31), Level(1260, 11, 31)) else
      if version == 29 then Version(133, 2051, 3, Level(420, 7, 7), Level(784, 21, 7), Level(1140, 1, 37), Level(1350, 19, 26)) else
      if version == 30 then Version(137, 2185, 3, Level(450, 5, 10), Level(812, 19, 10), Level(1200, 15, 25), Level(1440, 23, 25)) else
      if version == 31 then Version(141, 2323, 3, Level(480, 13, 3), Level(868, 2, 29), Level(1290, 42, 1), Level(1530, 23, 28)) else
      Version(145, 2465, 3, Level(510, 17, 0), Level(924, 10, 23), Level(1350, 10, 35), Level(1620, 19, 35))
    else
      if version == 33 then Version(149, 2611, 3, Level(540, 17, 1), Level(980, 14, 21), Level(1440, 29, 19), Level(1710, 11, 46)) else
      if version == 34 then Version(153, 2761, 3, Level(570, 13, 6), Level(1036, 14, 23), Level(1530, 44, 7), Level(1800, 59, 1)) else
      if version == 35 then Version(157, 2876, 0, Level(570, 12, 7), Level(1064, 12, 26), Level(1590, 39, 14), Level(1890, 22, 41)) else
      if version == 36 then Version(161, 3034, 0, Level(600, 6, 14), Level(1120, 6, 34), Level(1680, 46, 10), Level(1980, 2, 64)) else
      if version == 37 then Version(165, 3196, 0, Level(630, 17, 4), Level(1204, 29, 14), Level(1770, 49, 10), Level(2100, 24, 46)) else
      if version == 38 then Version(169, 3362, 0, Level(660, 4, 18), Level(1260, 13, 32), Level(1860, 48, 14), Level(2220, 42, 32)) else
      if version == 39 then Version(173, 3532, 0, Level(720, 20, 4), Level(1316, 40, 7), Level(1950, 43, 22), Level(2310, 10, 67)) else
      Version(177, 3706, 0, Level(750, 19, 6), Level(1372, 18, 31), Level(2040, 34, 34), Level(2430, 20, 61))
  }

  /** Rows 1 to 40 of alignmentPattern. */
  function AlignmentPattern(version: nat): (nat, nat) {
    if version < 9 then
      if version == 1 then (0, 0) else if version == 2 then (18, 0) else if version == 3 then (22, 0) else
      if version == 4 then (26, 0) else if version == 5 then (30, 0) else if version == 6 then (34, 0) else
      if version == 7 then (22, 38) else (24, 42)
    else if version < 17 then
      if version == 9 then (26, 46) else if version == 10 then (28, 50) else if version == 11 then (30, 54) else
      if version == 12 then (32, 58) else if version == 13 then (34, 62) else if version == 14 then (26, 46) else
      if version == 15 then (26, 48) else (26, 50)
    else if version < 25 then
      if version == 17 then (30, 54) else if version == 18 then (30, 56) else if version == 19 then (30, 58) else
      if version == 20 then (34, 62) else if version == 21 then (28, 50) else if version == 22 then (26, 50) else
      if version == 23 then (30, 54) else (28, 54)
    else if version < 33 then
      if version == 25 then (32, 58) else if version == 26 then (30, 58) else if version == 27 then (34, 62) else
      if version == 28 then (26, 50) else if version == 29 then (30, 54) else if version == 30 then (26, 52) else
      if version == 31 then (30, 56) else (34, 60)
    else
      if version == 33 then (30, 58) else if version == 34 then (34, 62) else if version == 35 then (30, 54) else
      if version == 36 then (24, 50) else if version == 37 then (28, 54) else if version == 38 then (32, 58) else
      if version == 39 then (26, 54) else (30, 58)
  }

  /** QRspec_getVersionPattern, for versions that have one. */
  function VersionPattern(version: nat): nat {
    if version < 15 then
      if version == 7 then 0x07c94 else if version == 8 then 0x085bc else if version == 9 then 0x09a99 else
      if version == 10 then 0x0a4d3 else if version == 11 then 0x0bbf6 else if version == 12 then 0x0c762 else
      if version == 13 then 0x0d847 else 0x0e60d
    else if version < 23 then
      if version == 15 then 0x0f928 else if version == 16 then 0x10b78 else if version == 17 then 0x1145d else
      if version == 18 then 0x12a17 else if version == 19 then 0x13532 else if version == 20 then 0x149a6 else
      if version == 21 then 0x15683 else 0x168c9
    else if version < 31 then
      if version == 23 then 0x177ec else if version == 24 then 0x18ec4 else if version == 25 then 0x191e1 else
      if version == 26 then 0x1afab else if version == 27 then 0x1b08e else if version == 28 then 0x1cc1a else
      if version == 29 then 0x1d33f else 0x1ed75
    else if version < 39 then
      if version == 31 then 0x1f250 else if version == 32 then 0x209d5 else if version == 33 then 0x216f0 else
      if version == 34 then 0x228ba else if version == 35 then 0x2379f else if version == 36 then 0x24b0b else
      if version == 37 then 0x2542e else 0x26a64
    else
      if version == 39 then 0x27541 else 0x28c69
  }

  function GetWidth(version: nat): nat { Capacity(version).width }

  function GetRemainder(version: nat): nat { Capacity(version).remainder }

  function GetECCLength(version: nat, level: nat): nat { Capacity(version).At(level).ec }

  function GetDataLength(version: nat, level: nat): int {
    Capacity(version).words - Capacity(version).At(level).ec
  }

  /** The bytes of a level dealt to its blocks, dl each and one more to the last b2, with el check bytes for each. */
  predicate Deals(words: nat, v: Level, dl: nat, el: nat) {
    && v.b1 >= 1 && dl >= 1 && 2 <= el <= 30 && dl + 1 + el <= 255
    && words == v.ec + (v.b1 + v.b2) * dl + v.b2
    && v.ec == (v.b1 + v.b2) * el
  }

  /** The lengths of the shorter blocks and of their check codes, for the four levels. */
  datatype Shares = Shares(dl0: nat, el0: nat, dl1: nat, el1: nat, dl2: nat, el2: nat, dl3: nat, el3: nat) {
    function Data(level: nat): nat {
      if level == 0 then dl0 else if level == 1 then dl1 else if level == 2 then dl2 else dl3
    }

    function Ecc(level: nat): nat {
      if level == 0 then el0 else if level == 1 then el1 else if level == 2 then el2 else el3
    }
  }

  predicate Sound(version: nat, s: Shares) {
    RowSound(version, s.dl0, s.el0, s.dl1, s.el1, s.dl2, s.el2, s.dl3, s.el3)
  }

  predicate RowSound(version: nat, dl0: nat, el0: nat, dl1: nat, el1: nat, dl2: nat, el2: nat, dl3: nat, el3: nat) {
    var v := Capacity(version);
    && v.width == 17 + 4 * version
    && Deals(v.words, v.l, dl0, el0) && Deals(v.words, v.m, dl1, el1)
    && Deals(v.words, v.q, dl2, el2) && Deals(v.words, v.h, dl3, el3)
  }

  lemma Check(version: nat, dl0: nat, el0: nat, dl1: nat, el1: nat, dl2: nat, el2: nat, dl3: nat, el3: nat)
    requires RowSound(version, dl0, el0, dl1, el1, dl2, el2, dl3, el3)
    ensures SoundRow(version)
  {
    hide RowSound;
    assert Sound(version, Shares(dl0, el0, dl1, el1, dl2, el2, dl3, el3));
  }

  /** The blocks of every version, and the length of their codes. */
  lemma SoundRows()
    ensures forall version: nat :: 1 <= version <= QRSPEC_VERSION_MAX ==> SoundRow(version)
  {
    Rows1();
    Rows5();
    Rows9();
    Rows13();
    Rows17();
    Rows21();
    Rows25();
    Rows29();
    Rows33();
    Rows37();
    hide SoundRow;
  }

  ghost predicate SoundRow(version: nat) {
    exists s: Shares :: Sound(version, s)
  }

  lemma Rows1()
    ensures SoundRow(1) && SoundRow(2) && SoundRow(3) && SoundRow(4)
  {
    hide SoundRow;
    Check(1, 19, 7, 16, 10, 13, 13, 9, 17);
    Check(2, 34, 10, 28, 16, 22, 22, 16, 28);
    Check(3, 55, 15, 44, 26, 17, 18, 13, 22);
    Check(4, 80, 20, 32, 18, 24, 26, 9, 16);
  }

  lemma Rows5()
    ensures SoundRow(5) && SoundRow(6) && SoundRow(7) && SoundRow(8)
  {
    hide SoundRow;
    Check(5, 108, 26, 43, 24, 15, 18, 11, 22);
    Check(6, 68, 18, 27, 16, 19, 24, 15, 28);
    Check(7, 78, 20, 31, 18, 14, 18, 13, 26);
    Check(8, 97, 24, 38, 22, 18, 22, 14, 26);
  }

  lemma Rows9()
    ensures SoundRow(9) && SoundRow(10) && SoundRow(11) && SoundRow(12)
  {
    hide SoundRow;
    Check(9, 116, 30, 36, 22, 16, 20, 12, 24);
    Check(10, 68, 18, 43, 26, 19, 24, 15, 28);
    Check(11, 81, 20, 50, 30, 22, 28, 12, 24);
    Check(12, 92, 24, 36, 22, 20, 26, 14, 28);
  }

  lemma Rows13()
    ensures SoundRow(13) && SoundRow(14) && SoundRow(15) && SoundRow(16)
  {
    hide SoundRow;
    Check(13, 107, 26, 37, 22, 20, 24, 11, 22);
    Check(14, 115, 30, 40, 24, 16, 20, 12, 24);
    Check(15, 87, 22, 41, 24, 24, 30, 12, 24);
    Check(16, 98, 24, 45, 28, 19, 24, 15, 30);
  }

  lemma Rows17()
    ensures SoundRow(17) && SoundRow(18) && SoundRow(19) && SoundRow(20)
  {
    hide SoundRow;
    Check(17, 107, 28, 46, 28, 22, 28, 14, 28);
    Check(18, 120, 30, 43, 26, 22, 28, 14, 28);
    Check(19, 113, 28, 44, 26, 21, 26, 13, 26);
    Check(20, 107, 28, 41, 26, 24, 30, 15, 28);
  }

  lemma Rows21()
    ensures SoundRow(21) && SoundRow(22) && SoundRow(23) && SoundRow(24)
  {
    hide SoundRow;
    Check(21, 116, 28, 42, 26, 22, 28, 16, 30);
    Check(22, 111, 28, 46, 28, 24, 30, 13, 24);
    Check(23, 121, 30, 47, 28, 24, 30, 15, 30);
    Check(24, 117, 30, 45, 28, 24, 30, 16, 30);
  }

  lemma Rows25()
    ensures SoundRow(25) && SoundRow(26) && SoundRow(27) && SoundRow(28)
  {
    hide SoundRow;
    Check(25, 106, 26, 47, 28, 24, 30, 15, 30);
    Check(26, 114, 28, 46, 28, 22, 28, 16, 30);
    Check(27, 122, 30, 45, 28, 23, 30, 15, 30);
    Check(28, 117, 30, 45, 28, 24, 30, 15, 30);
  }

  lemma Rows29()
    ensures SoundRow(29) && SoundRow(30) && SoundRow(31) && SoundRow(32)
  {
    hide SoundRow;
    Check(29, 116, 30, 45, 28, 23, 30, 15, 30);
    Check(30, 115, 30, 47, 28, 24, 30, 15, 30);
    Check(31, 115, 30, 46, 28, 24, 30, 15, 30);
    Check(32, 115, 30, 46, 28, 24, 30, 15, 30);
  }

  lemma Rows33()
    ensures SoundRow(33) && SoundRow(34) && SoundRow(35) && SoundRow(36)
  {
    hide SoundRow;
    Check(33, 115, 30, 46, 28, 24, 30, 15, 30);
    Check(34, 115, 30, 46, 28, 24, 30, 16, 30);
    Check(35, 121, 30, 47, 28, 24, 30, 15, 30);
    Check(36, 121, 30, 47, 28, 24, 30, 15, 30);
  }

  lemma Rows37()
    ensures SoundRow(37) && SoundRow(38) && SoundRow(39) && SoundRow(40)
  {
    hide SoundRow;
    Check(37, 122, 30, 46, 28, 24, 30, 15, 30);
    Check(38, 122, 30, 46, 28, 24, 30, 15, 30);
    Check(39, 117, 30, 47, 28, 24, 30, 15, 30);
    Check(40, 118, 30, 47, 28, 24, 30, 15, 30);
  }

  /** QRspec_getEccSpec. */
  function GetEccSpec(version: nat, level: nat): EccSpec
    requires 1 <= version <= QRSPEC_VERSION_MAX && level < 4
  {
    SpecDivides(version, level);
    Capacity(version).SpecAt(level)
  }

  lemma RowOf(version: nat, level: nat) returns (dl: nat, el: nat)
    requires 1 <= version <= QRSPEC_VERSION_MAX && level < 4
    ensures Deals(Capacity(version).words, Capacity(version).At(level), dl, el)
    ensures Capacity(version).width == 17 + 4 * version
  {
    hide Capacity; hide Deals;
    var s := SharesOf(version);
    dl, el := s.Data(level), s.Ecc(level);
  }

  lemma SharesOf(version: nat) returns (s: Shares)
    requires 1 <= version <= QRSPEC_VERSION_MAX
    ensures Sound(version, s)
  {
    hide Capacity; hide Sound;
    SoundRows();
    assert SoundRow(version);
    s :| Sound(version, s);
  }

  lemma SpecDivides(version: nat, level: nat)
    requires 1 <= version <= QRSPEC_VERSION_MAX && level < 4
    ensures Capacity(version).At(level).b1 >= 1 && Capacity(version).words >= Capacity(version).At(level).ec
  {
    hide Capacity;
    var dl, el := RowOf(version, level);
  }

  /** Every version and level has a specification of the shape the encoder needs, with the lengths of the tables. */
  lemma TableSpecs(version: nat, level: nat)
    requires 1 <= version <= QRSPEC_VERSION_MAX && level < 4
    ensures var s := GetEccSpec(version, level);
            && s.Valid() && s.dl1 + 1 + s.el <= 255
            && s.DataLength() == GetDataLength(version, level) && s.EccLength() == GetECCLength(version, level)
    ensures GetDataLength(version, level) + GetECCLength(version, level) == Capacity(version).words
    ensures GetWidth(version) == 17 + 4 * version
  {
    hide Capacity;
    var dl, el := RowOf(version, level);
    SpecOfDeals(Capacity(version), level, dl, el);
  }

  lemma SpecOfDeals(v: Version, level: nat, dl: nat, el: nat)
    requires Deals(v.words, v.At(level), dl, el)
    ensures v.At(level).b1 >= 1 && v.words >= v.At(level).ec
    ensures var s := v.SpecAt(level);
            && s.Valid() && s.dl1 + 1 + s.el <= 255
            && s.DataLength() == v.words - v.At(level).ec && s.EccLength() == v.At(level).ec
  {
    var r := v.At(level);
    hide Version.At;
    Dealt(r.b1, r.b2, dl, v.words - r.ec, r.b2);
    Dealt(r.b1, r.b2, el, r.ec, 0);
    hide Deals;
  }

  lemma Dealt(b1: nat, b2: nat, q: nat, n: int, r: nat)
    requires b1 >= 1 && n == (b1 + b2) * q + r && r <= b2
    ensures n >= 0 && n / (b1 + b2) == q && b1 * q + b2 * q == (b1 + b2) * q
    ensures b1 * q + b2 * (q + 1) == (b1 + b2) * q + b2
  {
    assert q * (b1 + b2) + r == n;
    DivMod(b1 + b2, q, r);
  }
}
