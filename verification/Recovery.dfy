/** What the four levels of error correction are for: how much of a symbol they can restore. */
module Recovery {
  import opened QrTables

  /** Check bytes per hundred: about 20, 37, 52 and 63, of which half can be corrected. */
  predicate Graded(version: nat) {
    var v := Capacity(version);
    && v.remainder < 8
    && 19 * v.words <= 100 * v.l.ec <= 27 * v.words && 35 * v.words <= 100 * v.m.ec <= 39 * v.words
    && 50 * v.words <= 100 * v.q.ec <= 56 * v.words && 62 * v.words <= 100 * v.h.ec <= 67 * v.words
  }

  /** A version has room for more data than the one before, at every level. */
  predicate Larger(version: nat)
    requires version >= 1
  {
    var u, v := Capacity(version), Capacity(version - 1);
    && u.words - u.l.ec > v.words - v.l.ec && u.words - u.m.ec > v.words - v.m.ec
    && u.words - u.q.ec > v.words - v.q.ec && u.words - u.h.ec > v.words - v.h.ec
  }

  lemma Graded1()
    ensures Graded(1) && Graded(2) && Graded(3) && Graded(4) && Graded(5)
  {
  }

  lemma Larger1()
    ensures Larger(2) && Larger(3) && Larger(4) && Larger(5)
  {
  }

  lemma Graded6()
    ensures Graded(6) && Graded(7) && Graded(8) && Graded(9) && Graded(10)
  {
  }

  lemma Larger6()
    ensures Larger(6) && Larger(7) && Larger(8) && Larger(9) && Larger(10)
  {
  }

  lemma Graded11()
    ensures Graded(11) && Graded(12) && Graded(13) && Graded(14) && Graded(15)
  {
  }

  lemma Larger11()
    ensures Larger(11) && Larger(12) && Larger(13) && Larger(14) && Larger(15)
  {
  }

  lemma Graded16()
    ensures Graded(16) && Graded(17) && Graded(18) && Graded(19) && Graded(20)
  {
  }

  lemma Larger16()
    ensures Larger(16) && Larger(17) && Larger(18) && Larger(19) && Larger(20)
  {
  }

  lemma Graded21()
    ensures Graded(21) && Graded(22) && Graded(23) && Graded(24) && Graded(25)
  {
  }

  lemma Larger21()
    ensures Larger(21) && Larger(22) && Larger(23) && Larger(24) && Larger(25)
  {
  }

  lemma Graded26()
    ensures Graded(26) && Graded(27) && Graded(28) && Graded(29) && Graded(30)
  {
  }

  lemma Larger26()
    ensures Larger(26) && Larger(27) && Larger(28) && Larger(29) && Larger(30)
  {
  }

  lemma Graded31()
    ensures Graded(31) && Graded(32) && Graded(33) && Graded(34) && Graded(35)
  {
  }

  lemma Larger31()
    ensures Larger(31) && Larger(32) && Larger(33) && Larger(34) && Larger(35)
  {
  }

  lemma Graded36()
    ensures Graded(36) && Graded(37) && Graded(38) && Graded(39) && Graded(40)
  {
  }

  lemma Larger36()
    ensures Larger(36) && Larger(37) && Larger(38) && Larger(39) && Larger(40)
  {
  }

  lemma AllGraded(version: nat)
    requires 1 <= version <= QRSPEC_VERSION_MAX
    ensures Graded(version)
  {
    hide *;
    MaxIs();
    if version <= 5 {
      Graded1();
    } else if version <= 10 {
      Graded6();
    } else if version <= 15 {
      Graded11();
    } else if version <= 20 {
      Graded16();
    } else if version <= 25 {
      Graded21();
    } else if version <= 30 {
      Graded26();
    } else if version <= 35 {
      Graded31();
    } else {
      Graded36();
    }
  }

  lemma AllLarger(version: nat)
    requires 2 <= version <= QRSPEC_VERSION_MAX
    ensures Larger(version)
  {
    hide *;
    MaxIs();
    if version <= 5 {
      Larger1();
    } else if version <= 10 {
      Larger6();
    } else if version <= 15 {
      Larger11();
    } else if version <= 20 {
      Larger16();
    } else if version <= 25 {
      Larger21();
    } else if version <= 30 {
      Larger26();
    } else if version <= 35 {
      Larger31();
    } else {
      Larger36();
    }
  }

  lemma MaxIs()
    ensures QRSPEC_VERSION_MAX == 40
  {
  }

  /** The share of its bytes that a level can correct grows from level to level; remainder bits never make a byte. */
  lemma LevelsGraded(version: nat, level: nat)
    requires 1 <= version <= QRSPEC_VERSION_MAX && level < 4
    ensures var words, ec := Capacity(version).words, GetECCLength(version, level);
            && (level == 0 ==> 19 * words <= 100 * ec <= 27 * words) && (level == 1 ==> 35 * words <= 100 * ec <= 39 * words)
            && (level == 2 ==> 50 * words <= 100 * ec <= 56 * words) && (level == 3 ==> 62 * words <= 100 * ec <= 67 * words)
            && GetDataLength(version, level) == words - ec > 0 && GetRemainder(version) < 8
  {
    AllGraded(version);
    hide Capacity;
  }

  /** Larger versions hold more at every level. */
  lemma {:induction false} VersionsGrow(u: nat, v: nat, level: nat)
    requires 1 <= u < v <= QRSPEC_VERSION_MAX && level < 4
    ensures GetDataLength(u, level) < GetDataLength(v, level)
    decreases v
  {
    AllLarger(v);
    hide Capacity;
    if u < v - 1 {
      VersionsGrow(u, v - 1, level);
    }
  }
}
