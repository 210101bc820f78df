/** What RSECC_encode computes: the check bytes of a data block, and how far apart codewords are. */
module RsCode {
  import opened Bits
  import opened QrField
  import opened ReedSolomon

  /** One data byte through the shift register r: r moves up one place and the generator is added. */
  function Shift(r: seq<byte>, d: byte): (s: seq<byte>)
    ensures |s| == |r|
  {
    if r == [] then [] else Sum(r[1..] + [0], Scale(XorB(d, r[0]), GenLow(|r|, |r|)))
  }

  /** The n check bytes of data: its bytes shifted through a register of zeros. */
  function Ecc(data: seq<byte>, n: nat): (r: seq<byte>)
    ensures |r| == n
  {
    if data == [] then Zeros(n) else Shift(Ecc(data[..|data| - 1], n), data[|data| - 1])
  }

  /** s evaluates to zero at alpha^0 ... alpha^(n-1): a multiple of the generator polynomial. */
  ghost predicate HasRoots(s: seq<byte>, n: nat) {
    forall k: nat :: k < n ==> Eval(s, Alpha(k)) == 0
  }

  /** Shifting in d multiplies the register's polynomial by x and adds d x^n, modulo the generator. */
  lemma EvalShift(r: seq<byte>, d: byte, k: nat)
    requires k < |r|
    ensures Eval(Shift(r, d), Alpha(k))
            == XorB(Times(Eval(r, Alpha(k)), Alpha(k)), Times(d, Power(Alpha(k), |r|)))
  {
    hide Xor; hide Times; hide Alpha;
    var n, z, f := |r|, Alpha(k), XorB(d, r[0]);
    var p, tail := Power(z, n), Eval(r[1..], z);
    assert Shift(r, d) == Sum(r[1..] + [0], Scale(f, GenLow(n, n)));
    EvalSum(r[1..] + [0], Scale(f, GenLow(n, n)), z);
    EvalScale(f, GenLow(n, n), z);
    assert Eval(GenLow(n, n), z) == p by {
      GeneratorIsProduct(n, z);
      GeneratorRoots(n, k);
      XorCancel(Eval(GenLow(n, n), z), p); XorZero(p);
    }
    assert Eval(r[1..] + [0], z) == Times(tail, z) by {
      EvalConcat(r[1..], [0], z);
      EvalOne(0, z);
      TimesOne(z);
      XorZero(Times(tail, z));
    }
    TimesXor(p, d, r[0]);
    assert Times(Eval(r, z), z) == XorB(Times(r[0], p), Times(tail, z)) by {
      TimesXor(z, Times(r[0], Power(z, n - 1)), tail);
      TimesAssoc(r[0], Power(z, n - 1), z);
    }
    var a, b, c := Times(tail, z), Times(d, p), Times(r[0], p);
    XorComm(b, c); XorAssoc(a, c, b); XorComm(a, c);
  }

  lemma {:induction false} EvalEcc(data: seq<byte>, n: nat, k: nat)
    requires k < n
    ensures Eval(Ecc(data, n), Alpha(k)) == Times(Eval(data, Alpha(k)), Power(Alpha(k), n))
  {
    hide Xor; hide Times; hide Alpha; hide Shift;
    var z := Alpha(k);
    var p := Power(z, n);
    if data == [] {
      EvalZeros(n, z);
      TimesNonzero(0, p);
    } else {
      var front, d := data[..|data| - 1], data[|data| - 1];
      EvalEcc(front, n, k);
      EvalShift(Ecc(front, n), d, k);
      assert data == front + [d];
      EvalConcat(front, [d], z);
      EvalOne(d, z);
      TimesOne(z);
      TimesXor(p, Times(Eval(front, z), z), d);
      TimesAssoc(Eval(front, z), z, p); TimesComm(z, p); TimesAssoc(Eval(front, z), p, z);
    }
  }

  /** data followed by its check bytes is a codeword. */
  lemma EncodedHasRoots(data: seq<byte>, n: nat)
    ensures HasRoots(data + Ecc(data, n), n)
  {
    hide Xor; hide Times; hide Alpha; hide Eval; hide Ecc;
    forall k: nat | k < n ensures Eval(data + Ecc(data, n), Alpha(k)) == 0 {
      EvalConcat(data, Ecc(data, n), Alpha(k));
      EvalEcc(data, n, k);
      XorSelf(Eval(Ecc(data, n), Alpha(k)));
    }
  }

  // ---- distance ----

  /** The number of nonzero bytes. */
  function Weight(s: seq<byte>): nat {
    if s == [] then 0 else (if s[0] != 0 then 1 else 0) + Weight(s[1..])
  }

  /** The number of positions in which s and t differ. */
  function Distance(s: seq<byte>, t: seq<byte>): nat
    requires |s| == |t|
  {
    if s == [] then 0 else (if s[0] != t[0] then 1 else 0) + Distance(s[1..], t[1..])
  }

  lemma {:induction false} DistanceIsWeight(s: seq<byte>, t: seq<byte>)
    requires |s| == |t|
    ensures Distance(s, t) == Weight(Sum(s, t))
  {
    hide Xor;
    if s != [] {
      assert Sum(s, t)[1..] == Sum(s[1..], t[1..]);
      DistanceIsWeight(s[1..], t[1..]);
      XorSelf(s[0]); XorCancel(s[0], t[0]); XorZero(t[0]);
    }
  }

  /** Multiply the coefficient of each x^i by alpha^i. */
  function Twist(s: seq<byte>): (r: seq<byte>)
    ensures |r| == |s|
  {
    seq(|s|, i requires 0 <= i < |s| => Times(s[i], Alpha(|s| - 1 - i)))
  }

  lemma {:induction false} EvalTwist(s: seq<byte>, k: nat)
    ensures Eval(Twist(s), Alpha(k)) == Eval(s, Alpha(k + 1))
  {
    hide XorB; hide Times; hide Alpha;
    if s != [] {
      var m := |s| - 1;
      assert Twist(s)[1..] == Twist(s[1..]);
      EvalTwist(s[1..], k);
      PowerAlpha(k, m); PowerAlpha(k + 1, m);
      TimesAssoc(s[0], Alpha(m), Alpha(k * m));
      AlphaAdd(m, k * m);
      assert m + k * m == (k + 1) * m;
    }
  }

  /** Each coefficient times alpha^i + alpha^i0: the one at position p becomes zero. */
  function Eliminate(s: seq<byte>, p: nat): (r: seq<byte>)
    requires p < |s|
    ensures |r| == |s|
  {
    Sum(Twist(s), Scale(Alpha(|s| - 1 - p), s))
  }

  lemma EliminateRoots(s: seq<byte>, p: nat, n: nat)
    requires p < |s| && n > 0 && HasRoots(s, n)
    ensures HasRoots(Eliminate(s, p), n - 1)
  {
    hide Xor; hide Times; hide Alpha; hide Eval;
    var a := Alpha(|s| - 1 - p);
    forall k: nat | k < n - 1 ensures Eval(Eliminate(s, p), Alpha(k)) == 0 {
      EvalSum(Twist(s), Scale(a, s), Alpha(k));
      EvalTwist(s, k);
      EvalScale(a, s, Alpha(k));
      TimesNonzero(a, 0);
      XorZero(0);
    }
  }

  lemma EliminateAt(s: seq<byte>, p: nat, i: nat)
    requires p < |s| <= 255 && i < |s|
    ensures Eliminate(s, p)[i] != 0 <==> s[i] != 0 && i != p
  {
    hide Xor; hide Times; hide Alpha;
    var u, v := |s| - 1 - i, |s| - 1 - p;
    TimesComm(Alpha(v), s[i]);
    TimesAlphas(s[i], u, v);
    TimesNonzero(s[i], XorB(Alpha(u), Alpha(v)));
    XorSelf(Alpha(u));
    if u < v {
      AlphaSumNonzero(u, v);
    } else if v < u {
      AlphaSumNonzero(v, u);
    }
  }

  lemma {:induction false} WeightDrops(s: seq<byte>, t: seq<byte>, p: nat)
    requires |s| == |t| && p < |s| && s[p] != 0
    requires forall i :: 0 <= i < |s| ==> (t[i] != 0 <==> s[i] != 0 && i != p)
    ensures Weight(t) + 1 == Weight(s)
  {
    if p == 0 {
      SameWeight(s[1..], t[1..]);
    } else {
      WeightDrops(s[1..], t[1..], p - 1);
    }
  }

  lemma {:induction false} SameWeight(s: seq<byte>, t: seq<byte>)
    requires |s| == |t|
    requires forall i :: 0 <= i < |s| ==> (t[i] != 0 <==> s[i] != 0)
    ensures Weight(t) == Weight(s)
  {
    if s != [] {
      SameWeight(s[1..], t[1..]);
    }
  }

  lemma {:induction false} WeightZero(s: seq<byte>)
    requires Weight(s) == 0
    ensures s == Zeros(|s|)
  {
    if s != [] {
      WeightZero(s[1..]);
      assert s == [0] + s[1..];
    }
  }

  lemma {:induction false} NonzeroPosition(s: seq<byte>) returns (p: nat)
    requires s != Zeros(|s|)
    ensures p < |s| && s[p] != 0
  {
    p :| p < |s| && s[p] != 0;
  }

  /** A nonzero word of at most 255 bytes with n consecutive roots has more than n nonzero bytes. */
  lemma {:induction false} WeightBound(s: seq<byte>, n: nat)
    requires |s| <= 255 && s != Zeros(|s|) && HasRoots(s, n)
    ensures Weight(s) >= n + 1
    decreases n
  {
    hide Times; hide Alpha; hide Xor; hide Eliminate;
    var p := NonzeroPosition(s);
    var t := Eliminate(s, p);
    forall i | 0 <= i < |s| ensures t[i] != 0 <==> s[i] != 0 && i != p {
      EliminateAt(s, p, i);
    }
    WeightDrops(s, t, p);
    if n > 0 {
      EliminateRoots(s, p, n);
      if t == Zeros(|t|) {
        SingleHasNoRoot(s, p);
      } else {
        WeightBound(t, n - 1);
      }
    }
  }

  /** One nonzero byte alone does not even vanish at alpha^0 == 1. */
  lemma {:induction false} SingleHasNoRoot(s: seq<byte>, p: nat)
    requires p < |s| && s[p] != 0
    requires forall i :: 0 <= i < |s| && i != p ==> s[i] == 0
    ensures Eval(s, Alpha(0)) == s[p]
  {
    AlphaZero();
    hide Xor; hide Times; hide Alpha;
    var m := |s| - 1;
    PowerAlpha(0, m);
    assert 0 * m == 0;
    TimesOne(s[0]);
    if p == 0 {
      assert s[1..] == Zeros(m);
      EvalZeros(m, 1);
      XorZero(s[0]);
    } else {
      SingleHasNoRoot(s[1..], p - 1);
      XorZero(s[p]);
    }
  }

  lemma SumHasRoots(s: seq<byte>, t: seq<byte>, n: nat)
    requires |s| == |t| && HasRoots(s, n) && HasRoots(t, n)
    ensures HasRoots(Sum(s, t), n)
  {
    hide Xor; hide Alpha; hide Eval;
    forall k: nat | k < n ensures Eval(Sum(s, t), Alpha(k)) == 0 {
      EvalSum(s, t, Alpha(k));
      XorZero(0);
    }
  }

  lemma SumZero(s: seq<byte>, t: seq<byte>)
    requires |s| == |t| && Sum(s, t) == Zeros(|s|)
    ensures s == t
  {
    hide Xor;
    forall i | 0 <= i < |s| ensures s[i] == t[i] {
      assert Sum(s, t)[i] == 0;
      XorCancel(s[i], t[i]); XorZero(t[i]);
    }
  }

  /** Any two different words with n consecutive roots differ in more than n places. */
  lemma CodewordsFarApart(s: seq<byte>, t: seq<byte>, n: nat)
    requires |s| == |t| <= 255 && s != t && HasRoots(s, n) && HasRoots(t, n)
    ensures Distance(s, t) >= n + 1
  {
    hide Xor; hide Alpha; hide Eval; hide Sum; hide Distance; hide Weight;
    if Sum(s, t) == Zeros(|s|) {
      SumZero(s, t);
    }
    SumHasRoots(s, t, n);
    WeightBound(Sum(s, t), n);
    DistanceIsWeight(s, t);
  }

  /** The minimum distance of the encoder's output. */
  lemma MinimumDistance(a: seq<byte>, b: seq<byte>, n: nat)
    requires |a| == |b| && a != b && |a| + n <= 255
    ensures Distance(a + Ecc(a, n), b + Ecc(b, n)) >= n + 1
  {
    hide Ecc; hide Distance; hide HasRoots;
    var s, t := a + Ecc(a, n), b + Ecc(b, n);
    EncodedHasRoots(a, n); EncodedHasRoots(b, n);
    assert s[..|a|] == a && t[..|b|] == b;
    CodewordsFarApart(s, t, n);
  }

  /** The check bytes are the only ones that make a codeword, for data of any length. */
  lemma EccUnique(data: seq<byte>, e: seq<byte>, n: nat)
    requires |e| == n <= 255
    ensures HasRoots(data + e, n) <==> e == Ecc(data, n)
  {
    EncodedHasRoots(data, n);
    if HasRoots(data + e, n) && e != Ecc(data, n) {
      var f := Ecc(data, n);
      DifferenceHasRoots(data, e, f, n);
      hide Ecc; hide Sum; hide HasRoots; hide Weight;
      if Sum(e, f) == Zeros(n) {
        SumZero(e, f);
      }
      WeightBound(Sum(e, f), n);
      WeightAtMost(Sum(e, f));
    }
  }

  lemma DifferenceHasRoots(data: seq<byte>, e: seq<byte>, f: seq<byte>, n: nat)
    requires |e| == |f| == n && HasRoots(data + e, n) && HasRoots(data + f, n)
    ensures HasRoots(Sum(e, f), n)
  {
    hide Xor; hide Times; hide Alpha; hide Eval; hide Power;
    forall k: nat | k < n ensures Eval(Sum(e, f), Alpha(k)) == 0 {
      var z := Alpha(k);
      var d := Times(Eval(data, z), Power(z, n));
      assert Eval(data + e, z) == 0 && Eval(data + f, z) == 0;
      EvalConcat(data, e, z); EvalConcat(data, f, z);
      EvalSum(e, f, z);
      XorCancel(Eval(e, z), d); XorCancel(Eval(f, z), d);
      XorZero(d); XorSelf(d);
    }
  }

  lemma {:induction false} WeightAtMost(s: seq<byte>)
    ensures Weight(s) <= |s|
  {
    if s != [] {
      WeightAtMost(s[1..]);
    }
  }

  lemma {:induction false} Triangle(s: seq<byte>, t: seq<byte>, u: seq<byte>)
    requires |s| == |t| == |u|
    ensures Distance(s, u) <= Distance(s, t) + Distance(t, u)
    ensures Distance(s, t) == Distance(t, s)
  {
    if s != [] {
      Triangle(s[1..], t[1..], u[1..]);
    }
  }

  /**
   Error correction: a block received with at most n / 2 wrong bytes is nearer to what was sent
   than to the encoding of any other data.
   */
  lemma NearestIsSent(sent: seq<byte>, other: seq<byte>, received: seq<byte>, n: nat)
    requires |sent| == |other| && sent != other && |sent| + n <= 255
    requires |received| == |sent| + n
    requires 2 * Distance(sent + Ecc(sent, n), received) <= n
    ensures Distance(other + Ecc(other, n), received) > Distance(sent + Ecc(sent, n), received)
  {
    hide Ecc; hide Distance;
    MinimumDistance(sent, other, n);
    Triangle(sent + Ecc(sent, n), received, other + Ecc(other, n));
    Triangle(other + Ecc(other, n), received, sent + Ecc(sent, n));
  }
}
