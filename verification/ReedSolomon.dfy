/**
 The Reed-Solomon code of the QR symbol: polynomials over the field of QrField, written as byte
 sequences with the highest power first.
 */
module ReedSolomon {
  import opened Bits
  import opened QrField

  function Power(z: byte, k: nat): byte {
    if k == 0 then 1 else Times(Power(z, k - 1), z)
  }

  /** The value at z of the polynomial whose coefficients are s, highest power first. */
  function Eval(s: seq<byte>, z: byte): byte {
    if s == [] then 0 else XorB(Times(s[0], Power(z, |s| - 1)), Eval(s[1..], z))
  }

  function Sum(s: seq<byte>, t: seq<byte>): (r: seq<byte>)
    requires |s| == |t|
    ensures |r| == |s|
  {
    seq(|s|, i requires 0 <= i < |s| => XorB(s[i], t[i]))
  }

  function Scale(c: byte, s: seq<byte>): (r: seq<byte>)
    ensures |r| == |s|
  {
    seq(|s|, i requires 0 <= i < |s| => Times(c, s[i]))
  }

  // ---- evaluation is linear ----

  lemma {:induction false} EvalSum(s: seq<byte>, t: seq<byte>, z: byte)
    requires |s| == |t|
    ensures Eval(Sum(s, t), z) == XorB(Eval(s, z), Eval(t, z))
  {
    hide Xor; hide Times;
    if s == [] {
      assert Sum(s, t) == [];
      XorZero(0);
    } else {
      var p := Power(z, |s| - 1);
      assert Sum(s, t)[1..] == Sum(s[1..], t[1..]);
      EvalSum(s[1..], t[1..], z);
      TimesXor(p, s[0], t[0]);
      XorSwap(Times(s[0], p), Times(t[0], p), Eval(s[1..], z), Eval(t[1..], z));
    }
  }

  lemma {:induction false} EvalScale(c: byte, s: seq<byte>, z: byte)
    ensures Eval(Scale(c, s), z) == Times(c, Eval(s, z))
  {
    hide XorB; hide Times;
    if s == [] {
      assert Scale(c, s) == [];
      TimesNonzero(c, 0);
    } else {
      var p := Power(z, |s| - 1);
      assert Scale(c, s)[1..] == Scale(c, s[1..]);
      EvalScale(c, s[1..], z);
      TimesAssoc(c, s[0], p);
      TimesXor(c, Times(s[0], p), Eval(s[1..], z));
    }
  }

  lemma {:induction false} PowerAdd(z: byte, i: nat, j: nat)
    ensures Times(Power(z, i), Power(z, j)) == Power(z, i + j)
  {
    hide Times;
    if j == 0 {
      TimesOne(Power(z, i));
    } else {
      PowerAdd(z, i, j - 1);
      TimesAssoc(Power(z, i), Power(z, j - 1), z);
    }
  }

  lemma {:induction false} EvalConcat(s: seq<byte>, t: seq<byte>, z: byte)
    ensures Eval(s + t, z) == XorB(Times(Eval(s, z), Power(z, |t|)), Eval(t, z))
  {
    hide Xor; hide Times;
    var q := Power(z, |t|);
    if s == [] {
      assert s + t == t;
      TimesNonzero(0, q);
      XorZero(Eval(t, z));
    } else {
      var p := Power(z, |s| - 1);
      assert (s + t)[1..] == s[1..] + t;
      EvalConcat(s[1..], t, z);
      PowerAdd(z, |s| - 1, |t|);
      TimesAssoc(s[0], p, q);
      TimesXor(q, Times(s[0], p), Eval(s[1..], z));
      XorAssoc(Times(Times(s[0], p), q), Times(Eval(s[1..], z), q), Eval(t, z));
    }
  }

  lemma EvalOne(b: byte, z: byte)
    ensures Eval([b], z) == b
  {
    hide Xor; hide Times;
    TimesOne(b); XorZero(b);
  }

  lemma {:induction false} EvalZeros(n: nat, z: byte)
    ensures Eval(Zeros(n), z) == 0
  {
    hide Xor; hide Times;
    if n > 0 {
      assert Zeros(n)[1..] == Zeros(n - 1);
      EvalZeros(n - 1, z);
      TimesNonzero(0, Power(z, n - 1));
      XorZero(0);
    }
  }

  lemma {:induction false} PowerAlpha(k: nat, m: nat)
    ensures Power(Alpha(k), m) == Alpha(k * m)
  {
    hide Times; hide Alpha;
    if m == 0 {
      AlphaZero();
      assert k * m == 0;
    } else {
      PowerAlpha(k, m - 1);
      AlphaAdd(k * (m - 1), k);
      assert k * (m - 1) + k == k * m;
    }
  }

  // ---- the generator polynomial ----

  /** The coefficient of x^k in (x + alpha^0) (x + alpha^1) ... (x + alpha^(n-1)). */
  function GenCoef(n: nat, k: int): byte {
    if k < 0 || k > n then 0
    else if n == 0 then 1
    else XorB(GenCoef(n - 1, k - 1), Times(GenCoef(n - 1, k), Alpha(n - 1)))
  }

  /** The value of that product at z, factor by factor. */
  function Product(n: nat, z: byte): byte {
    if n == 0 then 1 else Times(Product(n - 1, z), XorB(z, Alpha(n - 1)))
  }

  /** The lowest m coefficients of the generator, highest power first. */
  function GenLow(n: nat, m: nat): (r: seq<byte>)
    ensures |r| == m
  {
    seq(m, j requires 0 <= j < m => GenCoef(n, m - 1 - j))
  }

  lemma EvalGenLowStep(n: nat, m: nat, z: byte)
    ensures Eval(GenLow(n, m + 1), z) == XorB(Times(GenCoef(n, m), Power(z, m)), Eval(GenLow(n, m), z))
  {
    hide Xor; hide Times; hide GenCoef;
    assert GenLow(n, m + 1)[1..] == GenLow(n, m);
  }

  lemma {:induction false} GenMonic(n: nat)
    ensures GenCoef(n, n) == 1
  {
    hide Xor; hide Times;
    if n > 0 {
      GenMonic(n - 1);
      TimesNonzero(0, Alpha(n - 1));
      XorZero(1);
    }
  }

  /** One factor more: the partial sums of (x + alpha^n) times the generator of length n. */
  lemma {:induction false} GenTimesFactor(n: nat, m: nat, z: byte)
    ensures Eval(GenLow(n + 1, m + 1), z)
            == XorB(Times(Eval(GenLow(n, m), z), z), Times(Eval(GenLow(n, m + 1), z), Alpha(n)))
  {
    hide Xor; hide Times; hide Alpha;
    var a := Alpha(n);
    EvalGenLowStep(n + 1, m, z); EvalGenLowStep(n, m, z);
    var c, d, p := GenCoef(n, m - 1), GenCoef(n, m), Power(z, m);
    GenCoefStep(n, m);
    hide GenCoef;
    TimesXor(p, c, Times(d, a));
    var lower := Eval(GenLow(n, m), z);
    TimesXor(a, Times(d, p), lower);
    TimesAssoc(d, a, p); TimesComm(a, p); TimesAssoc(d, p, a);
    if m == 0 {
      assert GenLow(n + 1, 0) == [] && GenLow(n, 0) == [];
      TimesNonzero(0, z); TimesNonzero(0, a); TimesNonzero(0, p);
      GenCoefNegative(n);
      XorZero(0); XorZero(Times(Times(d, p), a));
    } else {
      GenTimesFactor(n, m - 1, z);
      EvalGenLowStep(n, m - 1, z);
      var below := Eval(GenLow(n, m - 1), z);
      TimesAssoc(c, Power(z, m - 1), z);
      TimesXor(z, Times(c, Power(z, m - 1)), below);
      XorSwap(Times(c, p), Times(Times(d, p), a), Times(below, z), Times(lower, a));
    }
  }

  lemma GenCoefStep(n: nat, k: int)
    ensures GenCoef(n + 1, k) == XorB(GenCoef(n, k - 1), Times(GenCoef(n, k), Alpha(n)))
  {
    hide Xor; hide Times;
    if k < 0 || k > n + 1 {
      TimesNonzero(0, Alpha(n)); XorZero(0);
    }
  }

  lemma GenCoefNegative(n: nat)
    ensures GenCoef(n, -1) == 0
  {
  }

  /** generator_init's coefficients are those of the product of the factors. */
  lemma {:induction false} GeneratorIsProduct(n: nat, z: byte)
    ensures Eval(GenLow(n, n + 1), z) == Product(n, z)
    ensures XorB(Power(z, n), Eval(GenLow(n, n), z)) == Product(n, z)
  {
    GenMonic(n);
    EvalGenLowStep(n, n, z);
    hide Xor; hide Times; hide Alpha;
    TimesOne(Power(z, n));
    if n == 0 {
      assert GenLow(0, 0) == [];
      XorZero(Power(z, 0));
    } else {
      var a := Alpha(n - 1);
      GenTimesFactor(n - 1, n, z);
      GeneratorIsProduct(n - 1, z);
      EvalGenLowStep(n - 1, n, z);
      GenCoefTop(n - 1);
      hide GenCoef;
      TimesNonzero(0, Power(z, n));
      XorZero(Eval(GenLow(n - 1, n), z));
      TimesXor(Product(n - 1, z), z, a);
    }
  }

  lemma GenCoefTop(n: nat)
    ensures GenCoef(n, n + 1) == 0
  {
  }

  /** The first n powers of alpha are roots of the generator. */
  lemma {:induction false} GeneratorRoots(n: nat, k: nat)
    requires k < n
    ensures Product(n, Alpha(k)) == 0
  {
    hide Xor; hide Times; hide Alpha;
    if k == n - 1 {
      XorSelf(Alpha(k));
      TimesNonzero(Product(n - 1, Alpha(k)), 0);
    } else {
      GeneratorRoots(n - 1, k);
      TimesNonzero(0, XorB(Alpha(k), Alpha(n - 1)));
    }
  }

  // ---- no coefficient of a generator is zero ----

  lemma TimesAlphas(c: byte, i: nat, j: nat)
    ensures Times(c, XorB(Alpha(i), Alpha(j))) == XorB(Times(c, Alpha(i)), Times(c, Alpha(j)))
  {
    hide XorB; hide Times; hide Alpha;
    TimesXor(c, Alpha(i), Alpha(j));
  }

  /** Times(Times(c, alpha^i + alpha^j), alpha^m) == c * alpha^(i + m) + c * alpha^(j + m). */
  lemma ShiftAlphas(c: byte, i: nat, j: nat, m: nat)
    ensures Times(Times(c, XorB(Alpha(i), Alpha(j))), Alpha(m))
            == XorB(Times(c, Alpha(i + m)), Times(c, Alpha(j + m)))
  {
    hide XorB; hide Times; hide Alpha;
    TimesXor(c, Alpha(i), Alpha(j));
    TimesXor(Alpha(m), Times(c, Alpha(i)), Times(c, Alpha(j)));
    TimesAssoc(c, Alpha(i), Alpha(m)); TimesAssoc(c, Alpha(j), Alpha(m));
    AlphaAdd(i, m); AlphaAdd(j, m);
  }

  /**
   The ratio of neighbouring coefficients, without division (the q-binomial theorem for q = alpha):
   c(n, k) (alpha^(n+k) + alpha^n) == c(n, k-1) (alpha^(n+1) + alpha^k).
   */
  ghost predicate Ratio(n: nat, k: nat) {
    Times(GenCoef(n, k), XorB(Alpha(n + k), Alpha(n)))
    == Times(GenCoef(n, k - 1), XorB(Alpha(n + 1), Alpha(k)))
  }

  lemma {:induction false} RatioHolds(n: nat, k: nat)
    requires k <= n + 1
    ensures Ratio(n, k)
  {
    hide Xor; hide Times; hide Alpha;
    if k == 0 {
      GenCoefNegative(n);
      XorSelf(Alpha(n));
      TimesNonzero(GenCoef(n, 0), 0); TimesNonzero(0, XorB(Alpha(n + 1), Alpha(0)));
    } else if k == n + 1 {
      GenCoefTop(n);
      XorSelf(Alpha(n + 1));
      TimesNonzero(GenCoef(n, n), 0); TimesNonzero(0, XorB(Alpha(n + k), Alpha(n)));
    } else {
      RatioHolds(n - 1, k);
      RatioHolds(n - 1, k - 1);
      RatioStep(n - 1, k);
    }
  }

  lemma RatioStep(n: nat, k: nat)
    requires 1 <= k && Ratio(n, k) && Ratio(n, k - 1)
    ensures Ratio(n + 1, k)
  {
    var c0, c1, c2 := GenCoef(n, k), GenCoef(n, k - 1), GenCoef(n, k - 2);
    GenCoefStep(n, k); GenCoefStep(n, k - 1);
    RatioLeft(n, k, c0, c1);
    RatioRight(n, k, c1, c2);
    hide XorB; hide Times; hide Alpha; hide GenCoef;
    assert n + 1 + 1 == n + 2;
  }

  lemma RatioLeft(n: nat, k: nat, c0: byte, c1: byte)
    requires Times(c0, XorB(Alpha(n + k), Alpha(n))) == Times(c1, XorB(Alpha(n + 1), Alpha(k)))
    ensures Times(XorB(c1, Times(c0, Alpha(n))), XorB(Alpha(n + 1 + k), Alpha(n + 1)))
            == XorB(Times(c1, Alpha(n + 1)), Times(c1, Alpha(2 * n + 2)))
  {
    hide Xor; hide Times; hide Alpha;
    var s := XorB(Alpha(n + 1 + k), Alpha(n + 1));
    var x, y, w := Times(c1, Alpha(n + 1 + k)), Times(c1, Alpha(n + 1)), Times(c1, Alpha(2 * n + 2));
    TimesXor(s, c1, Times(c0, Alpha(n)));
    TimesAlphas(c1, n + 1 + k, n + 1);
    assert Times(Times(c0, Alpha(n)), s) == XorB(w, x) by {
      ShiftAlphas(c0, n + k, n, n + 1);
      TimesAssoc(c0, Alpha(n), s);
      TimesAlphas(Alpha(n), n + 1 + k, n + 1);
      AlphaAdd(n, n + 1 + k); AlphaAdd(n, n + 1);
      TimesAlphas(c0, n + (n + 1 + k), n + (n + 1));
      ShiftAlphas(c1, n + 1, k, n + 1);
      assert n + k + (n + 1) == n + (n + 1 + k) && n + 1 + (n + 1) == 2 * n + 2 && k + (n + 1) == n + 1 + k;
    }
    XorComm(w, x); XorComm(x, y); XorSwap(y, x, x, w); XorAssoc(y, x, Xor(x, w)); XorAssoc(x, x, w);
    XorSelf(x); XorZero(w);
  }

  lemma RatioRight(n: nat, k: nat, c1: byte, c2: byte)
    requires 1 <= k
    requires Times(c1, XorB(Alpha(n + k - 1), Alpha(n))) == Times(c2, XorB(Alpha(n + 1), Alpha(k - 1)))
    ensures Times(XorB(c2, Times(c1, Alpha(n))), XorB(Alpha(n + 2), Alpha(k)))
            == XorB(Times(c1, Alpha(n + 1)), Times(c1, Alpha(2 * n + 2)))
  {
    hide Xor; hide Times; hide Alpha;
    var s := XorB(Alpha(n + 2), Alpha(k));
    var x, y, w := Times(c1, Alpha(n + k)), Times(c1, Alpha(n + 1)), Times(c1, Alpha(2 * n + 2));
    TimesXor(s, c2, Times(c1, Alpha(n)));
    assert Times(c2, s) == XorB(x, y) by {
      ShiftAlphas(c1, n + k - 1, n, 1);
      ShiftAlphas(c2, n + 1, k - 1, 1);
      TimesAlphas(c2, n + 2, k);
      assert n + 1 + 1 == n + 2 && n + k - 1 + 1 == n + k && k - 1 + 1 == k;
    }
    assert Times(Times(c1, Alpha(n)), s) == XorB(w, x) by {
      TimesAssoc(c1, Alpha(n), s);
      TimesAlphas(Alpha(n), n + 2, k);
      AlphaAdd(n, n + 2); AlphaAdd(n, k);
      TimesAlphas(c1, n + (n + 2), n + k);
      assert n + (n + 2) == 2 * n + 2;
    }
    XorComm(w, x); XorComm(x, y); XorAssoc(y, x, Xor(x, w)); XorAssoc(x, x, w); XorSelf(x); XorZero(w);
  }

  /** Distinct powers within one period differ, so their sum is not zero. */
  lemma AlphaSumNonzero(i: nat, j: nat)
    requires i < j < i + 255
    ensures XorB(Alpha(i), Alpha(j)) != 0 && XorB(Alpha(j), Alpha(i)) != 0
  {
    hide Xor; hide Alpha;
    AlphaInjective(i, j);
    XorCancel(Alpha(i), Alpha(j)); XorCancel(Alpha(j), Alpha(i));
    XorZero(Alpha(i)); XorZero(Alpha(j));
  }

  /** What the code relies on when it skips the check for zero before taking a logarithm. */
  lemma {:induction false} CoefficientsNonzero(n: nat, k: nat)
    requires k <= n < 255
    ensures GenCoef(n, k) != 0
    decreases n - k
  {
    hide Xor; hide Times; hide Alpha;
    if k == n {
      GenMonic(n);
    } else {
      CoefficientsNonzero(n, k + 1);
      RatioHolds(n, k + 1);
      AlphaSumNonzero(n, n + k + 1);
      TimesNonzero(GenCoef(n, k + 1), XorB(Alpha(n + k + 1), Alpha(n)));
      TimesNonzero(0, XorB(Alpha(n + 1), Alpha(k + 1)));
    }
  }
}
